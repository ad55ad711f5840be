/** The write context of flash/src/mtd_flash.c: its fields, its growable array of bad offsets
    and its operations, each proved to compute the function of MtdWriteSpec it is named after. */
module MtdWriter {
  import opened Bytes
  import opened MtdChip
  import opened MtdWriteSpec
  import opened MtdBadList

  class WriteContext {
    const dev: Mtd
    const buffer: array<byte>
    var stored: nat
    var badOffsets: array<int>
    var badCount: nat
    ghost var homes: seq<int>
    ghost var moved: nat  // array elements copied by all reallocations so far

    ghost predicate Valid()
      reads this, dev, buffer, badOffsets
    {
      && dev.Valid()
      && buffer.Length == dev.chip.eraseSize
      && buffer as object != badOffsets
      && stored <= buffer.Length
      && BadListValid()
    }

    /** The capacity stays below twice the number of entries, and so does what all the
        reallocations together have copied. */
    ghost predicate BadListValid()
      reads this
    {
      && badCount <= badOffsets.Length
      && badOffsets.Length <= (if badCount == 0 then 0 else 2 * badCount - 1)
      && moved <= badOffsets.Length
    }

    ghost function Bad(): seq<int>
      requires badCount <= badOffsets.Length
      reads this, badOffsets
    {
      badOffsets[..badCount]
    }

    ghost function Medium(): MtdWriteSpec.Medium
      requires Valid()
      reads this, dev, buffer, badOffsets
    {
      MtdWriteSpec.Medium(dev.now, Bad(), homes)
    }

    ghost function Abs(): Writer
      requires Valid()
      reads this, dev, buffer, badOffsets
    {
      Writer(Medium(), buffer[..stored])
    }

    /** `mtd_write_partition`, with its allocations and its open succeeding. */
    constructor (d: Mtd)
      requires d.Valid()
      modifies d
      ensures Valid() && dev == d && fresh(buffer) && fresh(badOffsets)
      ensures Abs() == Writer(MtdWriteSpec.Medium(old(d.now).(pos := 0), [], []), [])
    {
      dev := d;
      buffer := new byte[d.chip.eraseSize];
      stored, badCount := 0, 0;
      badOffsets := new int[0];
      homes, moved := [], 0;
      new;
      d.Open();
    }

    /** `add_bad_block_offset`: every earlier entry is kept; the array is reallocated to twice
        its capacity and one more when it is full. */
    method AddBadBlockOffset(pos: int)
      requires BadListValid()
      modifies this`badOffsets, this`badCount, this`moved, badOffsets
      ensures BadListValid() && Bad() == old(Bad()) + [pos]
      ensures badCount <= badOffsets.Length <= 2 * badCount - 1 && moved < 2 * badCount
      ensures badOffsets == old(badOffsets) || fresh(badOffsets)
    {
      if badCount + 1 > badOffsets.Length {
        var grown := new int[badOffsets.Length * 2 + 1];
        forall i | 0 <= i < badCount {
          grown[i] := badOffsets[i];
        }
        badOffsets := grown;
        moved := moved + badCount;
      }
      badOffsets[badCount] := pos;
      badCount := badCount + 1;
    }

    /** One round of the retry loop: erase, write, read back and compare. */
    method AttemptAt(pos: nat, data: seq<byte>) returns (ok: bool)
      requires dev.Valid() && pos + dev.chip.eraseSize <= dev.chip.size && |data| == dev.chip.eraseSize
      modifies dev
      ensures dev.Valid() && (dev.now, ok) == Attempt(dev.chip, old(dev.now), pos, data)
    {
      hide Erase, SeekWrite, SeekRead;
      ok := dev.MemErase(pos);
      if !ok {
        return;
      }
      var _ := dev.Program(pos, data);
      var verify := dev.ReadBack(pos);
      return verify != None && verify.value == data;
    }

    /** The retry loop of `write_block` on the block at pos, and the last erase when it fails. */
    method TryBlockAt(pos: nat, data: seq<byte>) returns (ok: bool)
      requires dev.Valid() && pos + dev.chip.eraseSize <= dev.chip.size && |data| == dev.chip.eraseSize
      modifies dev
      ensures dev.Valid() && (dev.now, ok) == TryBlock(dev.chip, old(dev.now), pos, data, ATTEMPTS)
    {
      hide Attempt, Erase;
      ghost var c := dev.chip;
      ghost var f0 := dev.now;
      for retry := 0 to ATTEMPTS
        invariant dev.Valid()
        invariant TryBlock(c, f0, pos, data, ATTEMPTS) == TryBlock(c, dev.now, pos, data, ATTEMPTS - retry)
      {
        ok := AttemptAt(pos, data);
        if ok {
          return;
        }
      }
      ok := false;
      var _ := dev.MemErase(pos);
    }

    /** The block at pos is tried only if the query does not object to it. */
    method VisitAt(pos: nat, data: seq<byte>) returns (ok: bool)
      requires dev.Valid() && pos + dev.chip.eraseSize <= dev.chip.size && |data| == dev.chip.eraseSize
      modifies dev
      ensures dev.Valid() && (dev.now, ok) == Visit(dev.chip, old(dev.now), pos, data)
    {
      hide TryBlock;
      ok := false;
      var answer := dev.chip.Query(pos);
      if answer == Zero || answer == NotSupported {
        ok := TryBlockAt(pos, data);
      }
    }

    /** The loop of `write_block`: it tells whether and where the block was written. */
    method WriteAtOrAfter(start: nat, data: seq<byte>) returns (ok: bool, pos: nat)
      requires Valid() && |data| == dev.chip.eraseSize
      modifies dev, this`badOffsets, this`badCount, this`moved, badOffsets
      ensures Valid() && (badOffsets == old(badOffsets) || fresh(badOffsets))
      ensures Outcome(dev.now, Bad(), pos, if ok then Done else NoSpace)
                == WriteFrom(dev.chip, old(dev.now), old(Bad()), start, data)
    {
      hide Visit;
      pos := start;
      ghost var o := WriteFrom(dev.chip, dev.now, Bad(), pos, data);
      while pos + dev.chip.eraseSize <= dev.chip.size
        invariant Valid() && (badOffsets == old(badOffsets) || fresh(badOffsets))
        invariant o == WriteFrom(dev.chip, dev.now, Bad(), pos, data)
        decreases dev.chip.size - pos
      {
        ok := VisitAt(pos, data);
        if ok {
          return;
        }
        AddBadBlockOffset(pos);
        pos := pos + dev.chip.eraseSize;
      }
      ok := false;
    }

    /** `write_block` */
    method WriteBlock(data: seq<byte>) returns (r: int)
      requires Valid() && |data| == dev.chip.eraseSize
      modifies dev, this`badOffsets, this`badCount, this`moved, this`homes, badOffsets
      ensures Valid() && (badOffsets == old(badOffsets) || fresh(badOffsets))
      ensures var (m, st) := MtdWriteSpec.WriteBlock(dev.chip, old(Medium()), data);
              && Medium() == m && r == (match st case Done => 0 case NoSpace => -1 case NoPosition => 1)
    {
      hide WriteFrom;
      var ok, pos := dev.Tell();
      if !ok {
        return 1;
      }
      ok, pos := WriteAtOrAfter(pos, data);
      if !ok {
        return -1;
      }
      homes := homes + [pos];
      return 0;
    }

    /** memcpy into the buffer after what is stored. */
    method Gather(data: seq<byte>)
      requires Valid() && stored + |data| <= buffer.Length
      modifies this`stored, buffer
      ensures Valid() && stored == old(stored) + |data| && Medium() == old(Medium())
      ensures buffer[..stored] == old(buffer[..stored]) + data
    {
      forall i | 0 <= i < |data| {
        buffer[stored + i] := data[i];
      }
      stored := stored + |data|;
    }

    /** The innermost loop of `mtd_write_data`: write complete blocks directly from the
        caller's bytes while at least a block of them is left and nothing is stored. */
    method WriteWhole(data: seq<byte>, from: nat) returns (ok: bool, wrote: nat)
      requires Valid() && from <= |data| && (stored == 0 || |data| - from < dev.chip.eraseSize)
      modifies dev, this`badOffsets, this`badCount, this`moved, this`homes, badOffsets
      ensures Valid() && (badOffsets == old(badOffsets) || fresh(badOffsets))
      ensures from <= wrote <= |data| && |homes| >= |old(homes)|
      ensures ok ==> |data| - wrote < dev.chip.eraseSize
      ensures ok ==> Drain(dev.chip, old(Medium()), data[from..]) == Drain(dev.chip, Medium(), data[wrote..])
      ensures !ok ==> var (m, _, st) := Drain(dev.chip, old(Medium()), data[from..]); m == Medium() && st != Done
      ensures from == wrote && ok ==> Medium() == old(Medium())
    {
      hide MtdWriteSpec.WriteBlock, Drain;
      var size := dev.chip.eraseSize;
      wrote := from;
      while stored == 0 && |data| - wrote >= size
        invariant from <= wrote <= |data| && Valid() && stored == old(stored)
        invariant badOffsets == old(badOffsets) || fresh(badOffsets)
        invariant Drain(dev.chip, old(Medium()), data[from..]) == Drain(dev.chip, Medium(), data[wrote..])
        invariant |homes| >= |old(homes)|
        invariant from == wrote ==> Medium() == old(Medium())
      {
        assert data[wrote..] == data[wrote..wrote + size] + data[wrote + size..];
        DrainBlock(dev.chip, Medium(), data[wrote..wrote + size], data[wrote + size..]);
        var r := WriteBlock(data[wrote..wrote + size]);
        if r != 0 {
          return false, wrote;
        }
        wrote := wrote + size;
      }
      ok := true;
    }

    /** The buffered part of one round of `mtd_write_data`: gather what fits behind what is
        stored and, if that completes a block, write it. */
    method WriteGathered(data: seq<byte>, from: nat) returns (ok: bool, wrote: nat)
      requires Valid() && from < |data| && (stored > 0 || |data| - from < dev.chip.eraseSize)
      modifies this, dev, buffer, badOffsets
      ensures Valid() && (badOffsets == old(badOffsets) || fresh(badOffsets))
      ensures from <= wrote <= |data| && (from == wrote ==> old(stored) == dev.chip.eraseSize)
      ensures |homes| >= |old(homes)| && (ok ==> stored < dev.chip.eraseSize)
      ensures ok ==> if stored > 0 then wrote == |data| else |homes| > |old(homes)|
      ensures ok ==> Drain(dev.chip, old(Medium()), old(buffer[..stored]) + data[from..])
                       == Drain(dev.chip, Medium(), buffer[..stored] + data[wrote..])
      ensures !ok ==> old(stored) > 0 && homes == old(homes)
      ensures !ok ==> var (m, rest, st) := Drain(dev.chip, old(Medium()), old(buffer[..stored]) + data[from..]);
                      m == Medium() && rest == buffer[..stored] && st != Done
    {
      hide MtdWriteSpec.WriteBlock, Drain;
      var size := dev.chip.eraseSize;
      var copy := Min(|data| - from, size - stored);
      wrote := from + copy;
      assert buffer[..stored] + data[from..] == (buffer[..stored] + data[from..wrote]) + data[wrote..];
      Gather(data[from..wrote]);
      if stored == size {
        DrainBlock(dev.chip, Medium(), buffer[..stored], data[wrote..]);
        assert buffer[..] == buffer[..stored];
        var r := WriteBlock(buffer[..]);
        if r != 0 {
          return false, wrote;
        }
        stored := 0;
        assert buffer[..stored] + data[wrote..] == data[wrote..];
      }
      ok := true;
    }

    /** `mtd_write_data`: the byte count, or -1. */
    method WriteData(data: seq<byte>) returns (r: int)
      requires Valid()
      modifies this, dev, buffer, badOffsets
      ensures Valid() && (badOffsets == old(badOffsets) || fresh(badOffsets))
      ensures var (w, st) := MtdWriteSpec.WriteData(dev.chip, old(Abs()), data);
              Abs() == w && r == if st == Done then |data| else -1
    {
      hide MtdWriteSpec.WriteBlock, Drain;
      ghost var w0 := Abs();
      ghost var goal := Drain(dev.chip, w0.medium, w0.pending + data);
      var wrote := 0;
      while wrote < |data|
        invariant wrote <= |data| && Valid()
        invariant badOffsets == old(badOffsets) || fresh(badOffsets)
        invariant goal == Drain(dev.chip, Medium(), buffer[..stored] + data[wrote..])
        invariant |homes| >= |w0.medium.homes| && (data == [] ==> Abs() == w0)
        invariant || (wrote == 0 && Abs() == w0)
                  || (stored < buffer.Length && wrote == |data|)
                  || (stored == 0 && |data| - wrote < buffer.Length)
        decreases |data| - wrote, stored
      {
        var ok;
        if stored > 0 || |data| - wrote < dev.chip.eraseSize {
          ok, wrote := WriteGathered(data, wrote);
          if !ok {
            return -1;
          }
        }
        if stored == 0 {
          assert buffer[..stored] + data[wrote..] == data[wrote..];
          ok, wrote := WriteWhole(data, wrote);
          if !ok {
            return -1;
          }
          assert buffer[..stored] + data[wrote..] == data[wrote..];
        }
      }
      if data != [] {
        assert buffer[..stored] + data[wrote..] == buffer[..stored];
        DrainRest(dev.chip, Medium(), buffer[..stored]);
      }
      return wrote;
    }

    /** memset of the part of the buffer behind what is stored. */
    method PadWithZeros()
      requires Valid()
      modifies buffer
      ensures Valid() && Medium() == old(Medium()) && buffer[..stored] == old(buffer[..stored])
      ensures buffer[..] == buffer[..stored] + Fill(buffer.Length - stored, 0)
    {
      forall i | stored <= i < buffer.Length {
        buffer[i] := 0;
      }
    }

    /** The first part of `mtd_erase_blocks`. */
    method FlushPending() returns (ok: bool)
      requires Valid()
      modifies this, dev, buffer, badOffsets
      ensures Valid() && (badOffsets == old(badOffsets) || fresh(badOffsets))
      ensures var (w, st) := Flush(dev.chip, old(Abs())); Abs() == w && ok == (st == Done)
    {
      hide MtdWriteSpec.WriteBlock;
      if stored > 0 {
        PadWithZeros();
        var r := WriteBlock(buffer[..]);
        if r != 0 {
          return false;
        }
        stored := 0;
      }
      return true;
    }

    /** The erase loop of `mtd_erase_blocks`. */
    method EraseLoop(from: nat, blocks: int) returns (pos: nat)
      requires Valid()
      modifies dev
      ensures Valid() && dev.now == EraseFrom(dev.chip, old(dev.now), from, if blocks < 0 then 0 else blocks)
      ensures blocks >= 0 ==> pos == from + blocks * dev.chip.eraseSize
    {
      hide Erase;
      pos := from;
      var n := blocks;
      ghost var goal := EraseFrom(dev.chip, dev.now, from, if blocks < 0 then 0 else blocks);
      ghost var done := 0;
      while n > 0
        invariant Valid() && goal == EraseFrom(dev.chip, dev.now, pos, if n < 0 then 0 else n)
        invariant (blocks < 0 ==> n == blocks) && (blocks >= 0 ==> 0 <= n && done == blocks - n)
        invariant pos == from + done * dev.chip.eraseSize
      {
        if dev.chip.Query(pos) != Positive {
          var _ := dev.MemErase(pos);
        }
        assert (done + 1) * dev.chip.eraseSize == done * dev.chip.eraseSize + dev.chip.eraseSize;
        pos := pos + dev.chip.eraseSize;
        n := n - 1;
        done := done + 1;
      }
    }

    /** `mtd_erase_blocks` */
    method EraseBlocks(blocks: int) returns (r: int)
      requires Valid()
      modifies this, dev, buffer, badOffsets
      ensures Valid() && (badOffsets == old(badOffsets) || fresh(badOffsets))
      ensures (Abs(), r) == MtdWriteSpec.EraseBlocks(dev.chip, old(Abs()), blocks)
    {
      hide Flush, EraseFrom;
      var ok := FlushPending();
      if !ok {
        return -1;
      }
      var pos;
      ok, pos := dev.Tell();
      if !ok {
        return -1;
      }
      var total := (dev.chip.size - pos) / dev.chip.eraseSize;
      var n := if blocks < 0 then total else blocks;
      if n > total {
        return -1;
      }
      r := EraseLoop(pos, n);
    }

    /** `mtd_write_close`; the context is not used afterwards. */
    method Close() returns (r: int)
      requires Valid()
      modifies this, dev, buffer, badOffsets
      ensures Valid() && (Medium(), r) == MtdWriteSpec.Close(dev.chip, old(Abs()))
    {
      hide MtdWriteSpec.EraseBlocks;
      r := 0;
      var end := EraseBlocks(0);
      if end == -1 {
        r := -1;
      }
      var ok := dev.CloseFd();
      if !ok {
        r := -1;
      }
    }

    /** `mtd_find_write_start` */
    method FindWriteStart(from: int) returns (pos: int)
      requires Valid()
      ensures pos == FindStart(Bad(), from, dev.chip.eraseSize)
      ensures pos == FirstFree(Bad(), from, dev.chip.eraseSize) <==> AllInTurn(Bad(), from, dev.chip.eraseSize)
    {
      ghost var e := dev.chip.eraseSize;
      FindStartIsRightIff(Bad(), from, e);
      hide FirstFree, AllInTurn;
      pos := from;
      assert Bad()[0..] == Bad();
      for i := 0 to badCount
        invariant FindStart(Bad(), from, e) == FindStart(Bad()[i..], pos, e)
      {
        assert Bad()[i..][1..] == Bad()[i + 1..];
        if badOffsets[i] == pos {
          pos := pos + dev.chip.eraseSize;
        } else if badOffsets[i] > pos {
          return pos;
        }
      }
    }
  }
}
