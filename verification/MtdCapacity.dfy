/** How much a partition holds when written through flash/src/mtd_flash.c. */
module MtdCapacity {
  import opened Bytes
  import opened MtdChip
  import opened MtdWriteSpec
  import opened MtdStream

  /** How many blocks from p on `write_block` would try. */
  function GoodFrom(c: Chip, p: nat): nat
    requires c.Valid()
    decreases c.size - p
  {
    if p + c.eraseSize > c.size then 0
    else (if c.Skips(p) then 0 else 1) + GoodFrom(c, p + c.eraseSize)
  }

  /** The same in bytes. */
  function RoomFrom(c: Chip, p: nat): nat
    requires c.Valid()
    decreases c.size - p
  {
    if p + c.eraseSize > c.size then 0
    else (if c.Skips(p) then 0 else c.eraseSize) + RoomFrom(c, p + c.eraseSize)
  }

  lemma {:induction false} RoomIsBlocks(c: Chip, p: nat)
    requires c.Valid()
    ensures RoomFrom(c, p) == GoodFrom(c, p) * c.eraseSize
    decreases c.size - p
  {
    if p + c.eraseSize <= c.size {
      RoomIsBlocks(c, p + c.eraseSize);
    }
  }

  /** How many blocks n bytes take: n divided by e, rounded up. */
  function BlocksNeeded(n: nat, e: nat): nat
    requires 0 < e
  {
    (n + e - 1) / e
  }

  lemma CeilingFits(n: nat, e: nat, k: nat)
    requires 0 < e
    ensures BlocksNeeded(n, e) <= k <==> n <= k * e
  {
    var q := BlocksNeeded(n, e);
    assert n <= q * e < n + e by {
      assert n + e - 1 == q * e + (n + e - 1) % e;
    }
    if q <= k {
      assert q * e <= k * e;
    } else {
      assert (k + 1) * e <= q * e;
    }
  }

  /** Every bad offset recorded is one the bad-block query objects to: no block was given up. */
  ghost predicate NoneGivenUp(c: Chip, bad: seq<int>) {
    forall i :: 0 <= i < |bad| ==> c.Skips(bad[i])
  }

  lemma {:induction false} WriteFromRoom(c: Chip, f: Flash, bad: seq<int>, p: nat, data: seq<byte>)
    requires Fits(c, f) && |data| == c.eraseSize
    ensures var o := WriteFrom(c, f, bad, p, data);
            && bad <= o.bad
            && (NoneGivenUp(c, o.bad) ==>
                  if o.status == Done then RoomFrom(c, p) == c.eraseSize + RoomFrom(c, o.home + c.eraseSize)
                  else RoomFrom(c, p) == 0)
            && (o.status == Done ==> o.flash.pos == o.home + c.eraseSize)
            && o.status != NoPosition
    decreases c.size - p
  {
    hide Visit;
    if p + c.eraseSize <= c.size {
      var (f1, ok) := Visit(c, f, p, data);
      if !ok {
        WriteFromRoom(c, f1, bad + [p], p + c.eraseSize, data);
        var o := WriteFrom(c, f1, bad + [p], p + c.eraseSize, data);
        assert o.bad[|bad|] == p;
      }
    }
  }

  /** One pass over s, when no block is given up and lseek works, succeeds exactly if there is a
      block for each whole block of s. */
  lemma {:induction false} DrainRoom(c: Chip, m: Medium, s: seq<byte>)
    requires Fits(c, m.flash)
    ensures var (m1, rest, st) := Drain(c, m, s);
            && m.bad <= m1.bad
            && (NoneGivenUp(c, m1.bad) && st != NoPosition ==>
                  && (st == Done <==> |s| < RoomFrom(c, m.flash.pos) + c.eraseSize)
                  && (st == Done ==> |s| - |rest| == RoomFrom(c, m.flash.pos) - RoomFrom(c, m1.flash.pos)))
    decreases |s|
  {
    hide WriteFrom;
    var e := c.eraseSize;
    if |s| >= e {
      var f := m.flash.(clock := m.flash.clock + 1);
      WriteFromRoom(c, f, m.bad, f.pos, s[..e]);
      var (m1, st) := WriteBlock(c, m, s[..e]);
      if st == Done {
        DrainRoom(c, m1, s[e..]);
        assert forall i :: 0 <= i < |m1.bad| ==> m1.bad[i] == Drain(c, m1, s[e..]).0.bad[i];
      }
    }
  }

  /** Writing the chunks and flushing what is pending, as `mtd_write_close` does. */
  function WriteAndFlush(c: Chip, w: Writer, chunks: seq<seq<byte>>): (r: (Writer, Status))
    requires Fits(c, w.medium.flash) && |w.pending| <= c.eraseSize
  {
    var (w1, st) := WriteAll(c, w, chunks);
    if st == Done then Flush(c, w1) else (w1, st)
  }

  ghost predicate Fresh(c: Chip, w: Writer) {
    Fits(c, w.medium.flash) && w.medium.flash.pos == 0 && w.medium.bad == [] && w.medium.homes == [] && w.pending == []
  }

  /** Exact capacity.  On a fresh context, if the run gives up no block the bad-block query did
      not object to and no lseek fails, then writing the chunks and flushing succeeds if and only
      if the bytes, rounded up to whole blocks, need no more blocks than there are good ones. */
  lemma ExactCapacity(c: Chip, w: Writer, chunks: seq<seq<byte>>)
    requires Fresh(c, w)
    ensures var (w1, st) := WriteAndFlush(c, w, chunks);
            NoneGivenUp(c, w1.medium.bad) && st != NoPosition ==>
              (st == Done <==> BlocksNeeded(|Flatten(chunks)|, c.eraseSize) <= GoodFrom(c, 0))
  {
    hide Drain, WriteAll, Flatten, WriteFrom;
    var s := Flatten(chunks);
    var e := c.eraseSize;
    CallsAreOnePass(c, w, chunks);
    assert w.pending + s == s;
    DrainRoom(c, w.medium, s);
    CeilingFits(|s|, e, GoodFrom(c, 0));
    RoomIsBlocks(c, 0);
    var (w1, st1) := WriteAll(c, w, chunks);
    if st1 == Done && w1.pending != [] {
      var m := w1.medium;
      var f := m.flash.(clock := m.flash.clock + 1);
      var blk := w1.pending + Fill(e - |w1.pending|, 0);
      WriteFromRoom(c, f, m.bad, f.pos, blk);
      var (w2, st) := WriteAndFlush(c, w, chunks);
      if NoneGivenUp(c, w2.medium.bad) && st != NoPosition {
        assert forall i :: 0 <= i < |m.bad| ==> m.bad[i] == w2.medium.bad[i];
        RoomIsWhole(c, f.pos);
      }
    }
  }

  lemma {:induction false} RoomIsWhole(c: Chip, p: nat)
    requires c.Valid()
    ensures RoomFrom(c, p) == 0 || RoomFrom(c, p) >= c.eraseSize
    decreases c.size - p
  {
    if p + c.eraseSize <= c.size {
      RoomIsWhole(c, p + c.eraseSize);
    }
  }

  // ---------- the number of device calls goes up ----------

  lemma EraseClock(c: Chip, f: Flash, p: nat)
    requires Fits(c, f)
    ensures Erase(c, f, p).0.clock == f.clock + 1
  {
    hide Put, Fill, Scar;
  }

  lemma AttemptClock(c: Chip, f: Flash, p: nat, data: seq<byte>)
    requires Fits(c, f) && p + c.eraseSize <= c.size && |data| == c.eraseSize
    ensures Attempt(c, f, p, data).0.clock > f.clock
  {
    hide Verifies, Attempt;
    if c.IsBlock(p) {
      AttemptIff(c, f, p, data);
    } else {
      EraseClock(c, f, p);
      assert Attempt(c, f, p, data).0 == Erase(c, f, p).0 by { NoBlock(c, f, p, data); }
    }
  }

  lemma NoBlock(c: Chip, f: Flash, p: nat, data: seq<byte>)
    requires Fits(c, f) && p + c.eraseSize <= c.size && |data| == c.eraseSize && !c.IsBlock(p)
    ensures Attempt(c, f, p, data) == (Erase(c, f, p).0, false)
  {
  }

  lemma {:induction false} TryBlockClock(c: Chip, f: Flash, p: nat, data: seq<byte>, n: nat)
    requires Fits(c, f) && p + c.eraseSize <= c.size && |data| == c.eraseSize
    ensures TryBlock(c, f, p, data, n).0.clock >= f.clock
    decreases n
  {
    hide Attempt, Erase;
    if n == 0 {
      EraseClock(c, f, p);
    } else {
      AttemptClock(c, f, p, data);
      TryBlockClock(c, Attempt(c, f, p, data).0, p, data, n - 1);
    }
  }

  lemma VisitClock(c: Chip, f: Flash, p: nat, data: seq<byte>)
    requires Fits(c, f) && p + c.eraseSize <= c.size && |data| == c.eraseSize
    ensures Visit(c, f, p, data).0.clock >= f.clock
  {
    hide TryBlock;
    TryBlockClock(c, f, p, data, ATTEMPTS);
  }

  lemma {:induction false} WriteFromClock(c: Chip, f: Flash, bad: seq<int>, p: nat, data: seq<byte>)
    requires Fits(c, f) && |data| == c.eraseSize
    ensures WriteFrom(c, f, bad, p, data).flash.clock >= f.clock
    decreases c.size - p
  {
    hide Visit;
    if p + c.eraseSize <= c.size {
      VisitClock(c, f, p, data);
      var (f1, ok) := Visit(c, f, p, data);
      if !ok {
        WriteFromClock(c, f1, bad + [p], p + c.eraseSize, data);
      }
    }
  }

  lemma WriteBlockClock(c: Chip, m: Medium, data: seq<byte>)
    requires Fits(c, m.flash) && |data| == c.eraseSize
    ensures WriteBlock(c, m, data).0.flash.clock > m.flash.clock
  {
    hide WriteFrom;
    var f := m.flash.(clock := m.flash.clock + 1);
    WriteFromClock(c, f, m.bad, f.pos, data);
  }

  lemma {:induction false} DrainClock(c: Chip, m: Medium, s: seq<byte>)
    requires Fits(c, m.flash)
    ensures Drain(c, m, s).0.flash.clock >= m.flash.clock
    decreases |s|
  {
    hide WriteBlock;
    if |s| >= c.eraseSize {
      WriteBlockClock(c, m, s[..c.eraseSize]);
      var (m1, st) := WriteBlock(c, m, s[..c.eraseSize]);
      if st == Done {
        DrainClock(c, m1, s[c.eraseSize..]);
      }
    }
  }

  // ---------- a device that can be depended on ----------

  /** From device call t on lseek works, and on a good block one of any two attempts in a row
      verifies, whatever is written. */
  ghost predicate Dependable(c: Chip, t: nat) {
    && c.Valid()
    && (forall u: nat :: t <= u ==> c.fault(u).seekOk)
    && (forall p: int, u: nat, data: seq<byte> :: c.IsBlock(p) && !c.Skips(p) && t <= u && |data| == c.eraseSize ==>
          Verifies(c, u, data) || Verifies(c, NextTry(c, u), data))
  }

  lemma DependableVisit(c: Chip, t: nat, f: Flash, p: nat, data: seq<byte>)
    requires Dependable(c, t) && Fits(c, f) && t <= f.clock && c.IsBlock(p) && |data| == c.eraseSize
    ensures c.Skips(p) || Visit(c, f, p, data).1
  {
    hide Visit, Verifies;
    VisitIff(c, f, p, data);
  }

  lemma {:induction false} DependableWriteFrom(c: Chip, t: nat, f: Flash, bad: seq<int>, p: nat, data: seq<byte>)
    requires Dependable(c, t) && Fits(c, f) && t <= f.clock && |data| == c.eraseSize
    requires c.Aligned(p) && NoneGivenUp(c, bad)
    ensures var o := WriteFrom(c, f, bad, p, data);
            NoneGivenUp(c, o.bad) && (o.status == Done ==> c.Aligned(o.flash.pos))
    decreases c.size - p
  {
    hide Visit, Dependable;
    if p + c.eraseSize <= c.size {
      var (f1, ok) := Visit(c, f, p, data);
      DependableVisit(c, t, f, p, data);
      VisitClock(c, f, p, data);
      if !ok {
        DependableWriteFrom(c, t, f1, bad + [p], p + c.eraseSize, data);
      }
    }
  }

  lemma {:induction false} DependableDrain(c: Chip, t: nat, m: Medium, s: seq<byte>)
    requires Dependable(c, t) && Fits(c, m.flash) && t <= m.flash.clock
    requires c.Aligned(m.flash.pos) && NoneGivenUp(c, m.bad)
    ensures var (m1, _, st) := Drain(c, m, s);
            NoneGivenUp(c, m1.bad) && st != NoPosition && (st == Done ==> c.Aligned(m1.flash.pos))
    decreases |s|
  {
    hide WriteFrom, Verifies;
    if |s| >= c.eraseSize {
      var f := m.flash.(clock := m.flash.clock + 1);
      var blk := s[..c.eraseSize];
      assert c.fault(m.flash.clock).seekOk;
      DependableWriteFrom(c, t, f, m.bad, f.pos, blk);
      WriteFromRoom(c, f, m.bad, f.pos, blk);
      WriteBlockClock(c, m, blk);
      var (m1, st) := WriteBlock(c, m, blk);
      if st == Done {
        hide Dependable;
        DependableDrain(c, t, m1, s[c.eraseSize..]);
      }
    }
  }

  /** On a device that can be depended on from now on, writing n bytes on a fresh context and closing
      it succeeds if and only if n bytes need no more blocks than there are good ones and the
      descriptor closes without an error. */
  lemma CapacityWhenDependable(c: Chip, w: Writer, chunks: seq<seq<byte>>)
    requires Fresh(c, w) && Dependable(c, w.medium.flash.clock)
    ensures var (w1, st) := WriteAll(c, w, chunks);
            var end := EraseBlocks(c, w1, 0);
            (st == Done && Close(c, w1).1 == 0) <==>
            (BlocksNeeded(|Flatten(chunks)|, c.eraseSize) <= GoodFrom(c, 0) && c.fault(end.0.medium.flash.clock).ok)
    ensures var (w1, st) := WriteAll(c, w, chunks); st == Done ==> NoneGivenUp(c, Close(c, w1).0.bad)
  {
    hide Drain, WriteAll, Flatten, WriteFrom, Verifies;
    var t := w.medium.flash.clock;
    CallsAreOnePass(c, w, chunks);
    DependableDrain(c, t, w.medium, w.pending + Flatten(chunks));
    DrainClock(c, w.medium, w.pending + Flatten(chunks));
    ExactCapacity(c, w, chunks);
    var (w1, st) := WriteAll(c, w, chunks);
    if st == Done {
      if w1.pending != [] {
        var m := w1.medium;
        var f := m.flash.(clock := m.flash.clock + 1);
        assert c.fault(m.flash.clock).seekOk;
        var blk := w1.pending + Fill(c.eraseSize - |w1.pending|, 0);
        DependableWriteFrom(c, t, f, m.bad, f.pos, blk);
        WriteFromRoom(c, f, m.bad, f.pos, blk);
        WriteBlockClock(c, m, blk);
      }
      var w2 := Flush(c, w1).0;
      assert c.fault(w2.medium.flash.clock).seekOk;
    }
  }

  // ---------- an image of the whole partition ----------

  /** From device call t on nothing goes wrong. */
  ghost predicate FaultFree(c: Chip, t: nat) {
    forall u: nat :: t <= u ==> c.fault(u).seekOk && c.fault(u).ok && c.fault(u).intact && c.fault(u).ecc == 0
  }

  lemma FaultFreeIsDependable(c: Chip, t: nat)
    requires c.Valid() && FaultFree(c, t)
    ensures Dependable(c, t)
  {
    forall u: nat, data: seq<byte> | t <= u && |data| == c.eraseSize ensures Verifies(c, u, data) {
      assert c.fault(u).ok && c.fault(u + 1).intact && c.fault(u + 2).ok;
    }
  }

  /** The room from p on is all of the partition behind p if and only if no block is passed over, and
      otherwise at least a block less. */
  lemma {:induction false} RoomIff(c: Chip, p: nat)
    requires c.Valid() && p <= c.size && Multiple(c.size - p, c.eraseSize) && c.Aligned(p)
    ensures if forall q :: c.IsBlock(q) && p <= q ==> !c.Skips(q) then RoomFrom(c, p) == c.size - p
            else RoomFrom(c, p) + c.eraseSize <= c.size - p
    decreases c.size - p
  {
    if p + c.eraseSize <= c.size {
      RoomIff(c, p + c.eraseSize);
      assert c.IsBlock(p);
      forall q | c.IsBlock(q) && p < q ensures p + c.eraseSize <= q {
        AlignedApart(p, q, c.eraseSize);
      }
    }
  }

  /** Without faults an image of the whole partition can be written if and only if the query objects
      to no block; nothing is then pending. */
  lemma WholeWriteIff(c: Chip, f: Flash, data: seq<byte>)
    requires Fits(c, f) && f.pos == 0 && FaultFree(c, f.clock) && |data| == c.size
    ensures WriteData(c, Writer(Medium(f, [], []), []), data).1 == Done <==>
            forall q :: c.IsBlock(q) ==> !c.Skips(q)
    ensures WriteData(c, Writer(Medium(f, [], []), []), data).0.medium.flash.clock >= f.clock
  {
    hide Drain, FaultFree, Dependable, RoomFrom;
    var m0 := Medium(f, [], []);
    assert [] + data == data;
    FaultFreeIsDependable(c, f.clock);
    DependableDrain(c, f.clock, m0, data);
    DrainRoom(c, m0, data);
    DrainClock(c, m0, data);
    RoomIff(c, 0);
  }
}
