/** The read context of flash/src/mtd_flash.c, each operation proved to compute the function of
    MtdReadSpec it is named after. */
module MtdReader {
  import opened Bytes
  import opened MtdChip
  import opened MtdReadSpec

  class ReadContext {
    const dev: Mtd
    const buffer: array<byte>
    var consumed: nat
    ghost var homes: seq<int>

    ghost predicate Valid()
      reads this, dev, buffer
    {
      dev.Valid() && buffer.Length == dev.chip.eraseSize && consumed <= buffer.Length
    }

    ghost function Abs(): Reader
      requires Valid()
      reads this, dev, buffer
    {
      Reader(dev.now, buffer[consumed..], homes)
    }

    /** `mtd_read_partition`, with its allocations and its open succeeding: nothing is buffered. */
    constructor (d: Mtd)
      requires d.Valid()
      modifies d
      ensures Valid() && dev == d && fresh(buffer) && Abs() == Reader(old(d.now).(pos := 0), [], [])
    {
      dev := d;
      buffer := new byte[d.chip.eraseSize];
      consumed := d.chip.eraseSize;
      homes := [];
      new;
      d.Open();
    }

    /** What a read puts into the caller's array. */
    method CopyIn(dst: array<byte>, at: nat, data: seq<byte>)
      requires at + |data| <= dst.Length
      modifies dst
      ensures dst[at..at + |data|] == data
      ensures forall i :: 0 <= i < dst.Length && !(at <= i < at + |data|) ==> dst[i] == old(dst[i])
    {
      forall i | 0 <= i < |data| {
        dst[at + i] := data[i];
      }
    }

    /** One round of `read_block`: whether the call ends with it, whether the block is the one looked
        for, and the ECC failure count to compare with from then on. */
    method ReadRoundInto(dst: array<byte>, at: nat, pos: nat, base: nat) returns (ends: bool, ok: bool, base1: nat)
      requires dev.Valid() && at + dev.chip.eraseSize <= dst.Length && pos + dev.chip.eraseSize <= dev.chip.size
      modifies dev, dst
      ensures dev.Valid()
      ensures forall i :: 0 <= i < dst.Length && !(at <= i < at + dev.chip.eraseSize) ==> dst[i] == old(dst[i])
      ensures ReadRound(dev.chip, old(dev.now), base, pos)
                == if ends then Ends(dev.now, if ok then Some(pos) else None) else GoesOn(dev.now, base1)
      ensures ok ==> ends && dst[at..at + dev.chip.eraseSize] == dev.now.mem[pos..pos + dev.chip.eraseSize]
    {
      hide SeekRead;
      ends, ok, base1 := false, false, base;
      var data := dev.ReadBack(pos);
      if data != None {
        CopyIn(dst, at, data.value);
        var after := dev.GetEccStats();
        if after == None {
          return true, false, base;
        }
        if after.value != base {
          base1 := after.value;
        } else if dev.chip.Query(pos) == Zero {
          return true, true, base;
        }
      }
    }

    /** `read_block` into dst from index at on.  A failed call may have left debris there. */
    method ReadBlockInto(dst: array<byte>, at: nat) returns (ok: bool)
      requires dev.Valid() && at + dev.chip.eraseSize <= dst.Length
      modifies dev, dst, this`homes
      ensures dev.Valid()
      ensures forall i :: 0 <= i < dst.Length && !(at <= i < at + dev.chip.eraseSize) ==> dst[i] == old(dst[i])
      ensures var (f, home) := ReadBlock(dev.chip, old(dev.now));
              && dev.now == f && ok == (home != None)
              && if ok then homes == old(homes) + [home.value]
                              && dst[at..at + dev.chip.eraseSize] == f.mem[home.value..home.value + dev.chip.eraseSize]
                 else homes == old(homes)
    {
      hide ReadRound;
      var size := dev.chip.eraseSize;
      ghost var goal := ReadBlock(dev.chip, dev.now);
      var before := dev.GetEccStats();
      if before == None {
        return false;
      }
      var base := before.value;
      var pos := dev.now.pos;
      while pos + size <= dev.chip.size
        invariant dev.Valid() && homes == old(homes)
        invariant forall i :: 0 <= i < dst.Length && !(at <= i < at + size) ==> dst[i] == old(dst[i])
        invariant goal == ReadFrom(dev.chip, dev.now, base, pos)
        decreases dev.chip.size - pos
      {
        var ends;
        ends, ok, base := ReadRoundInto(dst, at, pos, base);
        if ends {
          homes := if ok then homes + [pos] else homes;
          return;
        }
        pos := pos + size;
      }
      return false;
    }

    /** The copy out of the buffer that starts each round of `mtd_read_data`. */
    method CopyOut(data: array<byte>, at: nat, copy: nat)
      requires Valid() && data != buffer && at + copy <= data.Length && consumed + copy <= buffer.Length
      modifies this`consumed, data
      ensures Valid() && consumed == old(consumed) + copy
      ensures data[..at + copy] == old(data[..at]) + old(buffer[consumed..consumed + copy])
      ensures data[at + copy..] == old(data[at + copy..])
    {
      forall i | 0 <= i < copy {
        data[at + i] := buffer[consumed + i];
      }
      consumed := consumed + copy;
    }

    /** The innermost loop of `mtd_read_data`: complete blocks go directly into the caller's
        array. */
    method ReadWhole(data: array<byte>, from: nat, len: nat) returns (ok: bool, read: nat)
      requires Valid() && data != buffer && from <= len <= data.Length
      modifies dev, data, this`homes
      ensures Valid() && from <= read <= len && data[len..] == old(data[len..]) && buffer[..] == old(buffer[..])
      ensures ok ==> consumed < buffer.Length || len - read < buffer.Length
      ensures var t := After(old(data[..from]), Take(dev.chip, old(Abs()), len - from));
              if ok then t == After(data[..read], Take(dev.chip, Abs(), len - read)) else t == (Abs(), None)
    {
      hide ReadBlock, Take;
      var size := dev.chip.eraseSize;
      ghost var goal := After(data[..from], Take(dev.chip, Abs(), len - from));
      read := from;
      while consumed == size && len - read >= size
        invariant Valid() && from <= read <= len && data[len..] == old(data[len..]) && buffer[..] == old(buffer[..])
        invariant goal == After(data[..read], Take(dev.chip, Abs(), len - read))
      {
        TakeFetch(dev.chip, Abs(), len - read);
        ghost var done := data[..read];
        ok := ReadBlockInto(data, read);
        assert data[..read] == done;
        if !ok {
          return;
        }
        assert data[..read + size] == done + data[read..read + size];
        AfterAfter(done, data[read..read + size], Take(dev.chip, Abs(), len - read - size));
        read := read + size;
      }
      ok := true;
    }

    /** The first part of a round: deliver what is buffered. */
    method ReadBuffered(data: array<byte>, from: nat, len: nat) returns (read: nat)
      requires Valid() && data != buffer && from < len <= data.Length
      modifies this`consumed, data
      ensures Valid() && from <= read <= len && data[len..] == old(data[len..])
      ensures if old(consumed) < buffer.Length then from < read && (read == len || consumed == buffer.Length)
              else read == from && consumed == buffer.Length
      ensures After(old(data[..from]), Take(dev.chip, old(Abs()), len - from))
                == After(data[..read], Take(dev.chip, Abs(), len - read))
    {
      hide Take;
      read := from;
      if consumed < dev.chip.eraseSize {
        var copy := Min(len - read, dev.chip.eraseSize - consumed);
        ghost var r := Abs();
        ghost var done := data[..from];
        TakeAtHand(dev.chip, r, copy, len - read);
        assert buffer[consumed..consumed + copy] == r.left[..copy];
        CopyOut(data, read, copy);
        read := read + copy;
        assert buffer[consumed..] == r.left[copy..];
        assert data[..read] == done + r.left[..copy];
        AfterAfter(done, r.left[..copy], Take(dev.chip, Abs(), len - read));
        assert data[len..] == data[read..][len - read..];
      }
    }

    /** The last part of a round: fill the buffer for the next one. */
    method Refill() returns (ok: bool)
      requires Valid() && consumed == buffer.Length
      modifies this, dev, buffer
      ensures Valid() && (ok ==> consumed == 0)
      ensures forall n: nat :: 0 < n ==>
                Take(dev.chip, old(Abs()), n) == if ok then Take(dev.chip, Abs(), n) else (Abs(), None)
    {
      hide ReadBlock, Take;
      ghost var r := Abs();
      forall n: nat | 0 < n {
        TakeFetch(dev.chip, r, n);
      }
      assert r.left == [];
      ok := ReadBlockInto(buffer, 0);
      assert !ok ==> buffer[consumed..] == [];
      if ok {
        consumed := 0;
        assert buffer[consumed..] == buffer[0..0 + dev.chip.eraseSize];
      }
    }

    /** `mtd_read_data`: the byte count, or -1.  A round may deliver no byte, when it only fills
        the buffer for the next one. */
    method ReadData(data: array<byte>, len: nat) returns (r: int)
      requires Valid() && data != buffer && len <= data.Length && len < 0x8000_0000
      modifies this, dev, buffer, data
      ensures Valid() && data[len..] == old(data[len..])
      ensures var (r1, out) := Take(dev.chip, old(Abs()), len);
              && Abs() == r1
              && if out == None then r == -1 else r == len && data[..len] == out.value
    {
      hide ReadBlock, Take;
      ghost var goal := Take(dev.chip, Abs(), len);
      var read := 0;
      AfterNothing(data[..0], goal);
      while read < len
        invariant Valid() && read <= len && data[len..] == old(data[len..])
        invariant goal == After(data[..read], Take(dev.chip, Abs(), len - read))
        decreases len - read, if consumed == buffer.Length then 1 else 0
      {
        read := ReadBuffered(data, read, len);
        var ok;
        ok, read := ReadWhole(data, read, len);
        if !ok {
          return -1;
        }
        if read < len {
          ghost var done := data[..read];
          ok := Refill();
          assert data[..read] == done;
          if !ok {
            return -1;
          }
        }
      }
      TakeNothing(dev.chip, Abs());
      return read;
    }
  }
}
