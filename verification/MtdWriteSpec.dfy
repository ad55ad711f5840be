/** What the write half of flash/src/mtd_flash.c computes, as functions on values, and what one
    step of it keeps.  The class in MtdWriter.dfy is proved to compute these functions; the
    theorems about whole runs are in MtdStream.dfy, MtdCapacity.dfy, MtdBadHistory.dfy,
    MtdMirror.dfy and MtdRoundTrip.dfy. */
module MtdWriteSpec {
  import opened Bytes
  import opened MtdChip

  /** Why `write_block` returned: 0, -1 with ENOSPC, or 1 because lseek failed. */
  datatype Status = Done | NoSpace | NoPosition

  const ATTEMPTS := 2

  /** What the write half leaves outside the buffer: the device, the recorded bad offsets, and a
      history the program does not keep, `homes`: the offsets of the blocks for which
      `write_block` has succeeded, in order. */
  datatype Medium = Medium(flash: Flash, bad: seq<int>, homes: seq<int>)

  /** A write context: its medium and the bytes waiting in its buffer. */
  datatype Writer = Writer(medium: Medium, pending: seq<byte>)

  datatype Outcome = Outcome(flash: Flash, bad: seq<int>, home: nat, status: Status)

  /** Dealing with the block at p changes at most that block, moves the file position at most into
      it, does nothing if p is no block offset, and on success leaves the data there with the
      position right behind. */
  ghost predicate AtMostBlock(c: Chip, f: Flash, p: nat, data: seq<byte>, r: (Flash, bool))
    requires Fits(c, f) && p + c.eraseSize <= c.size
  {
    && Fits(c, r.0) && SameOutside(f.mem, r.0.mem, p, p + c.eraseSize)
    && (r.0.pos == f.pos || p <= r.0.pos <= p + c.eraseSize)
    && (!c.IsBlock(p) ==> !r.1 && r.0.mem == f.mem)
    && (r.1 ==> r.0.mem[p..p + c.eraseSize] == data && r.0.pos == p + c.eraseSize)
  }

  /** One round of erase, write, read back and compare.  A failed write is still read back, and
      counts as a success if the block holds the data. */
  function Attempt(c: Chip, f: Flash, p: nat, data: seq<byte>): (r: (Flash, bool))
    requires Fits(c, f) && p + c.eraseSize <= c.size && |data| == c.eraseSize
    ensures Fits(c, r.0) && AtMostBlock(c, f, p, data, r)
  {
    var (f1, erased) := Erase(c, f, p);
    if !erased then (f1, false)
    else
      var (f2, _) := SeekWrite(c, f1, p, data);
      var (f3, back) := SeekRead(c, f2, p);
      (f3, back == Some(data))
  }

  /** A block gets n more attempts; when all fail it is erased once more and given up. */
  function TryBlock(c: Chip, f: Flash, p: nat, data: seq<byte>, n: nat): (r: (Flash, bool))
    requires Fits(c, f) && p + c.eraseSize <= c.size && |data| == c.eraseSize
    ensures Fits(c, r.0) && AtMostBlock(c, f, p, data, r)
    decreases n
  {
    if n == 0 then (Erase(c, f, p).0, false)
    else
      var (f1, ok) := Attempt(c, f, p, data);
      if ok then (f1, true) else TryBlock(c, f1, p, data, n - 1)
  }

  /** What becomes of the block at p: it is passed over if reported bad, and tried otherwise. */
  function Visit(c: Chip, f: Flash, p: nat, data: seq<byte>): (r: (Flash, bool))
    requires Fits(c, f) && p + c.eraseSize <= c.size && |data| == c.eraseSize
    ensures Fits(c, r.0) && AtMostBlock(c, f, p, data, r) && (c.Skips(p) ==> r == (f, false))
  {
    if c.Skips(p) then (f, false) else TryBlock(c, f, p, data, ATTEMPTS)
  }

  /** `write_block` from the local offset p on: pass over the blocks reported bad and those
      given up, stop at the first block that verifies. */
  function WriteFrom(c: Chip, f: Flash, bad: seq<int>, p: nat, data: seq<byte>): (r: Outcome)
    requires Fits(c, f) && |data| == c.eraseSize
    ensures Fits(c, r.flash)
    decreases c.size - p
  {
    if p + c.eraseSize > c.size then Outcome(f, bad, p, NoSpace)
    else
      var (f1, ok) := Visit(c, f, p, data);
      if ok then Outcome(f1, bad, p, Done) else WriteFrom(c, f1, bad + [p], p + c.eraseSize, data)
  }

  /** `write_block`: start at the file position. */
  function WriteBlock(c: Chip, m: Medium, data: seq<byte>): (r: (Medium, Status))
    requires Fits(c, m.flash) && |data| == c.eraseSize
    ensures Fits(c, r.0.flash) && m.homes <= r.0.homes
    ensures |r.0.homes| == |m.homes| + (if r.1 == Done then 1 else 0)
  {
    var f := m.flash.(clock := m.flash.clock + 1);
    if !c.fault(m.flash.clock).seekOk then (m.(flash := f), NoPosition)
    else
      var o := WriteFrom(c, f, m.bad, f.pos, data);
      (Medium(o.flash, o.bad, if o.status == Done then m.homes + [o.home] else m.homes), o.status)
  }

  /** Cut s into blocks and write them.  The second result is what is left over: fewer bytes
      than a block, or the block that was refused. */
  function Drain(c: Chip, m: Medium, s: seq<byte>): (r: (Medium, seq<byte>, Status))
    requires Fits(c, m.flash)
    ensures Fits(c, r.0.flash) && m.homes <= r.0.homes
    ensures if r.2 == Done then |r.1| < c.eraseSize else |r.1| == c.eraseSize
    decreases |s|
  {
    if |s| < c.eraseSize then (m, s, Done)
    else
      var (m1, st) := WriteBlock(c, m, s[..c.eraseSize]);
      if st == Done then Drain(c, m1, s[c.eraseSize..]) else (m1, s[..c.eraseSize], st)
  }

  /** `mtd_write_data`.  A refused block stays in the buffer only if it had been gathered there,
      which is so when the buffer was not empty and no block of this call was written. */
  function WriteData(c: Chip, w: Writer, data: seq<byte>): (r: (Writer, Status))
    requires Fits(c, w.medium.flash) && |w.pending| <= c.eraseSize
    ensures Fits(c, r.0.medium.flash) && |r.0.pending| <= c.eraseSize && w.medium.homes <= r.0.medium.homes
  {
    if data == [] then (w, Done)
    else
      var (m, rest, st) := Drain(c, w.medium, w.pending + data);
      var kept := if st == Done || (w.pending != [] && m.homes == w.medium.homes) then rest else [];
      (Writer(m, kept), st)
  }

  /** The first part of `mtd_erase_blocks`: pad what is pending with zeros and write it.  If the
      block is refused the bytes stay pending, without the padding. */
  function Flush(c: Chip, w: Writer): (r: (Writer, Status))
    requires Fits(c, w.medium.flash) && |w.pending| <= c.eraseSize
    ensures Fits(c, r.0.medium.flash) && |r.0.pending| <= c.eraseSize && w.medium.homes <= r.0.medium.homes
  {
    if w.pending == [] then (w, Done)
    else
      var blk := w.pending + Fill(c.eraseSize - |w.pending|, 0);
      var (m, st) := WriteBlock(c, w.medium, blk);
      (Writer(m, if st == Done then [] else w.pending), st)
  }

  /** Erase n blocks from p on, passing over those reported bad.  A failing bad-block query
      does not stop the erase here. */
  function EraseFrom(c: Chip, f: Flash, p: nat, n: nat): (r: Flash)
    requires Fits(c, f)
    ensures Fits(c, r) && r.pos == f.pos
    decreases n
  {
    if n == 0 then f
    else if c.Query(p) == Positive then EraseFrom(c, f, p + c.eraseSize, n - 1)
    else EraseFrom(c, Erase(c, f, p).0, p + c.eraseSize, n - 1)
  }

  /** How many whole blocks lie between the file position and the end. */
  function BlocksLeft(c: Chip, f: Flash): nat
    requires Fits(c, f)
  {
    (c.size - f.pos) / c.eraseSize
  }

  /** `mtd_erase_blocks`: a negative count means all that is left.  The result is the offset
      after the last block erased, or -1; the file position stays where it is. */
  function EraseBlocks(c: Chip, w: Writer, blocks: int): (r: (Writer, int))
    requires Fits(c, w.medium.flash) && |w.pending| <= c.eraseSize
    ensures Fits(c, r.0.medium.flash) && |r.0.pending| <= c.eraseSize && w.medium.homes <= r.0.medium.homes
  {
    var (w1, st) := Flush(c, w);
    if st != Done then (w1, -1)
    else
      var m := w1.medium;
      var f := m.flash.(clock := m.flash.clock + 1);
      if !c.fault(m.flash.clock).seekOk then (Writer(m.(flash := f), w1.pending), -1)
      else
        var total := BlocksLeft(c, f);
        var n := if blocks < 0 then total else blocks;
        if n > total then (Writer(m.(flash := f), w1.pending), -1)
        else (Writer(m.(flash := EraseFrom(c, f, f.pos, n)), w1.pending), f.pos + n * c.eraseSize)
  }

  /** Drain takes a whole block off the front of its input. */
  lemma DrainBlock(c: Chip, m: Medium, blk: seq<byte>, rest: seq<byte>)
    requires Fits(c, m.flash) && |blk| == c.eraseSize
    ensures var (m1, st) := WriteBlock(c, m, blk);
            Drain(c, m, blk + rest) == if st == Done then Drain(c, m1, rest) else (m1, blk, st)
  {
    hide WriteBlock;
    assert (blk + rest)[..c.eraseSize] == blk && (blk + rest)[c.eraseSize..] == rest;
  }

  lemma DrainRest(c: Chip, m: Medium, s: seq<byte>)
    requires Fits(c, m.flash) && |s| < c.eraseSize
    ensures Drain(c, m, s) == (m, s, Done)
  {
  }

  /** `mtd_write_close`: write what is pending, then close the descriptor. */
  function Close(c: Chip, w: Writer): (r: (Medium, int))
    requires Fits(c, w.medium.flash) && |w.pending| <= c.eraseSize
    ensures Fits(c, r.0.flash)
  {
    var (w1, end) := EraseBlocks(c, w, 0);
    var m := w1.medium;
    (m.(flash := m.flash.(clock := m.flash.clock + 1)), if end == -1 || !c.fault(m.flash.clock).ok then -1 else 0)
  }

  // ---------- what one block write keeps ----------

  /** The bytes of every block the device reports as bad are what they were. */
  ghost predicate BadUntouched(c: Chip, mem: seq<byte>, mem': seq<byte>)
    requires c.Valid() && |mem| == c.size
  {
    |mem| == |mem'| &&
    forall q, i :: c.IsBlock(q) && c.Query(q) == Positive && q <= i < q + c.eraseSize ==> mem'[i] == mem[i]
  }

  /** A change confined to one block that is not reported bad leaves the bad blocks alone. */
  lemma ConfinedChange(c: Chip, mem: seq<byte>, mem': seq<byte>, p: nat)
    requires c.Valid() && |mem| == c.size
    requires SameOutside(mem, mem', p, p + c.eraseSize)
    requires c.Query(p) == Positive || !c.IsBlock(p) ==> mem' == mem
    ensures BadUntouched(c, mem, mem')
  {
    if mem' != mem {
      forall q | c.IsBlock(q) && c.Query(q) == Positive
        ensures q + c.eraseSize <= p || p + c.eraseSize <= q
      {
        if p < q { AlignedApart(p, q, c.eraseSize); } else { AlignedApart(q, p, c.eraseSize); }
      }
    }
  }

  /** What `write_block` does to the flash below and above its starting offset, to the file
      position and to the bad list, whatever the device answers. */
  ghost predicate Confined(c: Chip, f: Flash, bad: seq<int>, p: nat, data: seq<byte>, r: Outcome)
    requires Fits(c, f)
  {
    && Fits(c, r.flash) && SameBelow(f.mem, r.flash.mem, p) && BadUntouched(c, f.mem, r.flash.mem)
    && f.pos <= r.flash.pos && bad <= r.bad
    && (r.status == Done ==>
          && p <= r.home && c.IsBlock(r.home) && !c.Skips(r.home)
          && r.flash.mem[r.home..r.home + c.eraseSize] == data
          && r.flash.pos == r.home + c.eraseSize
          && SameOutside(f.mem, r.flash.mem, p, r.flash.pos))
  }

  /** Moving past a block that was skipped or given up. */
  lemma ConfinedStep(c: Chip, f: Flash, f1: Flash, bad: seq<int>, p: nat, data: seq<byte>, r: Outcome)
    requires Fits(c, f) && Fits(c, f1) && f.pos <= f1.pos
    requires SameOutside(f.mem, f1.mem, p, p + c.eraseSize) && BadUntouched(c, f.mem, f1.mem)
    requires Confined(c, f1, bad + [p], p + c.eraseSize, data, r)
    ensures Confined(c, f, bad, p, data, r)
  {
    assert bad <= bad + [p];
  }

  lemma {:induction false} WriteFromEffect(c: Chip, f: Flash, bad: seq<int>, p: nat, data: seq<byte>)
    requires Fits(c, f) && |data| == c.eraseSize && f.pos <= p
    ensures Confined(c, f, bad, p, data, WriteFrom(c, f, bad, p, data))
    decreases c.size - p
  {
    hide Visit;
    if p + c.eraseSize <= c.size {
      var (f1, ok) := Visit(c, f, p, data);
      ConfinedChange(c, f.mem, f1.mem, p);
      if !ok {
        WriteFromEffect(c, f1, bad + [p], p + c.eraseSize, data);
        ConfinedStep(c, f, f1, bad, p, data, WriteFrom(c, f1, bad + [p], p + c.eraseSize, data));
      }
    }
  }

  // ---------- when a block is taken ----------

  /** What device call t, a write behind a successful erase, leaves in the block. */
  function Leaves(c: Chip, t: nat, data: seq<byte>): seq<byte> {
    if !c.fault(t).seekOk then Fill(c.eraseSize, 0xFF)
    else if c.fault(t).intact then data
    else Scar(c.fault(t).residue, c.eraseSize)
  }

  /** The attempt whose calls are t, t + 1 and t + 2 verifies: the block can be erased and read back,
      and the write leaves the data there, whatever it reports. */
  predicate Verifies(c: Chip, t: nat, data: seq<byte>) {
    c.fault(t).ok && Leaves(c, t + 1, data) == data && c.fault(t + 2).seekOk && c.fault(t + 2).ok
  }

  /** The first call behind an attempt that starts at t: it ends with the erase if that fails. */
  function NextTry(c: Chip, t: nat): nat {
    if c.fault(t).ok then t + 3 else t + 1
  }

  lemma AttemptIff(c: Chip, f: Flash, p: nat, data: seq<byte>)
    requires Fits(c, f) && c.IsBlock(p) && |data| == c.eraseSize
    ensures Attempt(c, f, p, data).1 <==> Verifies(c, f.clock, data)
    ensures Attempt(c, f, p, data).0.clock == NextTry(c, f.clock)
  {
    hide Fill, Scar;
    var (f1, erased) := Erase(c, f, p);
    if erased {
      var (f2, _) := SeekWrite(c, f1, p, data);
      assert f2.mem[p..p + c.eraseSize] == Leaves(c, f.clock + 1, data);
    }
  }

  /** A block is taken if and only if it is one, the query does not object to it, and one of two
      attempts verifies. */
  lemma VisitIff(c: Chip, f: Flash, p: nat, data: seq<byte>)
    requires Fits(c, f) && p + c.eraseSize <= c.size && |data| == c.eraseSize
    ensures Visit(c, f, p, data).1 <==>
            c.IsBlock(p) && !c.Skips(p) && (Verifies(c, f.clock, data) || Verifies(c, NextTry(c, f.clock), data))
  {
    hide Attempt, Verifies, Erase;
    if c.IsBlock(p) {
      AttemptIff(c, f, p, data);
      var f1 := Attempt(c, f, p, data).0;
      AttemptIff(c, f1, p, data);
      var f2 := Attempt(c, f1, p, data).0;
      assert !TryBlock(c, f2, p, data, 0).1;
      assert TryBlock(c, f1, p, data, 1).1 == Attempt(c, f1, p, data).1;
    }
  }

  /** A good block that is given up is erased once more. */
  lemma GivenUpErased(c: Chip, f: Flash, p: nat, data: seq<byte>)
    requires Fits(c, f) && c.IsBlock(p) && !c.Skips(p) && |data| == c.eraseSize && !Visit(c, f, p, data).1
    requires c.fault(NextTry(c, NextTry(c, f.clock))).ok
    ensures Visit(c, f, p, data).0.mem[p..p + c.eraseSize] == Fill(c.eraseSize, 0xFF)
    ensures Visit(c, f, p, data).0.clock == NextTry(c, NextTry(c, f.clock)) + 1
  {
    hide Attempt, Fill, Put;
    AttemptIff(c, f, p, data);
    var f1 := Attempt(c, f, p, data).0;
    AttemptIff(c, f1, p, data);
    var f2 := Attempt(c, f1, p, data).0;
    assert TryBlock(c, f2, p, data, 0) == (Erase(c, f2, p).0, false);
    assert TryBlock(c, f1, p, data, 1).0 == Erase(c, f2, p).0;
  }

  /** The reasons for which a block write is refused: lseek fails, and then nothing happens, or
      every block from the file position on is passed over or given up. */
  lemma RefusedIff(c: Chip, m: Medium, data: seq<byte>)
    requires Fits(c, m.flash) && |data| == c.eraseSize
    ensures var (m1, st) := WriteBlock(c, m, data);
            && (st == NoPosition <==> !c.fault(m.flash.clock).seekOk)
            && (st == NoPosition ==> m1 == m.(flash := m.flash.(clock := m.flash.clock + 1)))
            && (st == NoSpace ==> m1.homes == m.homes)
            && (st == NoSpace ==>
                  forall q :: m.flash.pos <= q <= c.size - c.eraseSize && Multiple(q - m.flash.pos, c.eraseSize) ==>
                    q in m1.bad)
  {
    hide WriteFrom;
    var f := m.flash.(clock := m.flash.clock + 1);
    var o := WriteFrom(c, f, m.bad, f.pos, data);
    NoSpaceRecords(c, f, m.bad, f.pos, data);
  }

  lemma {:induction false} NoSpaceRecords(c: Chip, f: Flash, bad: seq<int>, p: nat, data: seq<byte>)
    requires Fits(c, f) && |data| == c.eraseSize
    ensures var o := WriteFrom(c, f, bad, p, data);
            && o.status != NoPosition
            && (forall q :: q in bad ==> q in o.bad)
            && (o.status == NoSpace ==>
                  forall q :: p <= q && q + c.eraseSize <= c.size && Multiple(q - p, c.eraseSize) ==> q in o.bad)
    decreases c.size - p
  {
    hide Visit;
    if p + c.eraseSize <= c.size {
      var (f1, ok) := Visit(c, f, p, data);
      if !ok {
        NoSpaceRecords(c, f1, bad + [p], p + c.eraseSize, data);
        assert p in bad + [p];
        var o := WriteFrom(c, f1, bad + [p], p + c.eraseSize, data);
        if o.status == NoSpace {
          forall q | p <= q && q + c.eraseSize <= c.size && Multiple(q - p, c.eraseSize) ensures q in o.bad {
            assert q == p || (p + c.eraseSize <= q && Multiple(q - p - c.eraseSize, c.eraseSize));
          }
        }
      }
    }
  }
}
