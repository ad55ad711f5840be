/** The list of bad offsets the writer of flash/src/mtd_flash.c keeps, over whole runs: what is
    recorded in it, in which order, and that the lookup in it is right for every block. */
module MtdBadHistory {
  import opened Bytes
  import opened MtdChip
  import opened MtdWriteSpec
  import opened MtdStream
  import opened MtdBadList
  import opened MtdCapacity

  // ---------- until a call fails ----------

  /** Block offsets, strictly increasing, all at least a block below p. */
  ghost predicate Ordered(c: Chip, bad: seq<int>, p: int)
    requires c.Valid()
  {
    && (forall i :: 0 <= i < |bad| ==> 0 <= bad[i] && bad[i] + c.eraseSize <= p && c.Aligned(bad[i]))
    && (forall i, j :: 0 <= i < j < |bad| ==> bad[i] < bad[j])
  }

  lemma {:induction false} WriteFromBadOrder(c: Chip, f: Flash, bad: seq<int>, p: nat, data: seq<byte>)
    requires Fits(c, f) && |data| == c.eraseSize && c.Aligned(p) && Ordered(c, bad, p) && p <= c.size
    ensures var o := WriteFrom(c, f, bad, p, data); c.Aligned(o.home) && Ordered(c, o.bad, o.home) && o.home <= c.size
    decreases c.size - p
  {
    hide Visit;
    if p + c.eraseSize <= c.size {
      var (f1, ok) := Visit(c, f, p, data);
      if !ok {
        WriteFromBadOrder(c, f1, bad + [p], p + c.eraseSize, data);
      }
    }
  }

  /** The list is in order below the file position, which is a block offset. */
  ghost predicate Tidy(c: Chip, m: Medium) {
    Fits(c, m.flash) && c.Aligned(m.flash.pos) && Ordered(c, m.bad, m.flash.pos)
  }

  /** One block write leaves the list tidy, or, if it is refused, still in order. */
  lemma WriteBlockTidy(c: Chip, m: Medium, data: seq<byte>)
    requires Tidy(c, m) && |data| == c.eraseSize
    ensures var (m1, st) := WriteBlock(c, m, data);
            Ordered(c, m1.bad, c.size) && (st == Done ==> Tidy(c, m1))
  {
    hide WriteFrom;
    var f := m.flash.(clock := m.flash.clock + 1);
    if c.fault(m.flash.clock).seekOk {
      WriteFromBadOrder(c, f, m.bad, f.pos, data);
      WriteFromRoom(c, f, m.bad, f.pos, data);
    }
  }

  lemma {:induction false} DrainTidy(c: Chip, m: Medium, s: seq<byte>)
    requires Tidy(c, m)
    ensures var (m1, _, st) := Drain(c, m, s);
            Ordered(c, m1.bad, c.size) && (st == Done ==> Tidy(c, m1))
    decreases |s|
  {
    hide WriteBlock;
    if |s| >= c.eraseSize {
      var blk := s[..c.eraseSize];
      WriteBlockTidy(c, m, blk);
      var (m1, st) := WriteBlock(c, m, blk);
      if st == Done {
        DrainTidy(c, m1, s[c.eraseSize..]);
      }
    }
  }

  /** The call reports success. */
  predicate Succeeds(c: Chip, w: Writer, call: Call)
    requires Fits(c, w.medium.flash) && |w.pending| <= c.eraseSize
  {
    match call
    case Write(data) => WriteData(c, w, data).1 == Done
    case EraseSome(blocks) => EraseBlocks(c, w, blocks).1 != -1
  }

  /** All calls but perhaps the last one report success. */
  predicate UpToFailure(c: Chip, w: Writer, calls: seq<Call>)
    requires Fits(c, w.medium.flash) && |w.pending| <= c.eraseSize
    decreases |calls|
  {
    |calls| <= 1 || (Succeeds(c, w, calls[0]) && UpToFailure(c, Step(c, w, calls[0]), calls[1..]))
  }

  predicate AllSucceed(c: Chip, w: Writer, calls: seq<Call>)
    requires Fits(c, w.medium.flash) && |w.pending| <= c.eraseSize
    decreases |calls|
  {
    calls == [] || (Succeeds(c, w, calls[0]) && AllSucceed(c, Step(c, w, calls[0]), calls[1..]))
  }

  /** Erasing neither moves the file position nor records anything. */
  lemma EraseBlocksKeeps(c: Chip, w: Writer, blocks: int)
    requires Fits(c, w.medium.flash) && |w.pending| <= c.eraseSize
    ensures var (w1, st) := Flush(c, w);
            var (w2, end) := EraseBlocks(c, w, blocks);
            && w2.medium.bad == w1.medium.bad && w2.medium.flash.pos == w1.medium.flash.pos
            && w2.medium.homes == w1.medium.homes && (end != -1 ==> st == Done)
  {
    hide Flush, EraseFrom;
  }

  lemma StepTidy(c: Chip, w: Writer, call: Call)
    requires Tidy(c, w.medium) && |w.pending| <= c.eraseSize
    ensures var w1 := Step(c, w, call);
            Ordered(c, w1.medium.bad, c.size) && (Succeeds(c, w, call) ==> Tidy(c, w1.medium))
  {
    hide Drain, EraseBlocks, WriteBlock;
    match call
    case Write(data) =>
      if data != [] {
        DrainTidy(c, w.medium, w.pending + data);
      }
    case EraseSome(blocks) =>
      EraseBlocksKeeps(c, w, blocks);
      if w.pending != [] {
        WriteBlockTidy(c, w.medium, w.pending + Fill(c.eraseSize - |w.pending|, 0));
      }
  }

  lemma {:induction false} RunTidy(c: Chip, w: Writer, calls: seq<Call>)
    requires Tidy(c, w.medium) && |w.pending| <= c.eraseSize
    ensures UpToFailure(c, w, calls) ==> Ordered(c, Run(c, w, calls).medium.bad, c.size)
    ensures AllSucceed(c, w, calls) ==> UpToFailure(c, w, calls) && Tidy(c, Run(c, w, calls).medium)
    decreases |calls|
  {
    hide Step, Succeeds;
    if calls != [] {
      var w1 := Step(c, w, calls[0]);
      StepTidy(c, w, calls[0]);
      if Succeeds(c, w, calls[0]) {
        RunTidy(c, w1, calls[1..]);
      }
      assert |calls| == 1 ==> calls[1..] == [] && Run(c, w, calls) == w1;
    }
  }

  /** From a fresh context, as long as no call fails, writes and erases in any order record block
      offsets only, strictly increasing and below the next write position; the call that fails
      still leaves them in order. */
  lemma BadListInOrder(c: Chip, w: Writer, calls: seq<Call>)
    requires Fresh(c, w)
    ensures var m := Run(c, w, calls).medium;
            && (AllSucceed(c, w, calls) ==> Ordered(c, m.bad, m.flash.pos) && c.Aligned(m.flash.pos))
            && (UpToFailure(c, w, calls) ==> Ordered(c, m.bad, c.size))
  {
    hide Run, AllSucceed, UpToFailure;
    RunTidy(c, w, calls);
  }

  /** So, from a fresh context up to and including the first call that fails, the lookup is right
      from every offset, block offset or not. */
  lemma FindStartIsRightUntilFailure(c: Chip, w: Writer, calls: seq<Call>, pos: int)
    requires Fresh(c, w) && UpToFailure(c, w, calls)
    ensures var bad := Run(c, w, calls).medium.bad;
            FindStart(bad, pos, c.eraseSize) == FirstFree(bad, pos, c.eraseSize)
  {
    hide Run, UpToFailure;
    BadListInOrder(c, w, calls);
    FindStartIsRightIff(Run(c, w, calls).medium.bad, pos, c.eraseSize);
  }

  // ---------- where the data went ----------

  /** Every block below the file position is either recorded as bad or committed, and none is
      both. */
  ghost predicate Placed(c: Chip, m: Medium) {
    && Tidy(c, m)
    && (forall j :: 0 <= j < |m.homes| ==> c.IsBlock(m.homes[j]) && m.homes[j] + c.eraseSize <= m.flash.pos)
    && (forall q :: c.IsBlock(q) && q + c.eraseSize <= m.flash.pos ==> q in m.bad || q in m.homes)
    && (forall q :: q in m.bad ==> q !in m.homes)
  }

  /** A block write that succeeds records every block from its start up to the one written, and no
      other. */
  lemma {:induction false} RecordsBetween(c: Chip, f: Flash, bad: seq<int>, p: nat, data: seq<byte>)
    requires Fits(c, f) && |data| == c.eraseSize && c.Aligned(p) && WriteFrom(c, f, bad, p, data).status == Done
    ensures var o := WriteFrom(c, f, bad, p, data);
            && p <= o.home && c.IsBlock(o.home)
            && (forall q :: c.IsBlock(q) && p <= q < o.home ==> q in o.bad)
            && (forall q :: q in o.bad ==> q in bad || p <= q)
            && (forall q :: q in bad ==> q in o.bad)
    decreases c.size - p
  {
    hide Visit;
    if p + c.eraseSize <= c.size {
      var (f1, ok) := Visit(c, f, p, data);
      if !ok {
        RecordsBetween(c, f1, bad + [p], p + c.eraseSize, data);
        var o := WriteFrom(c, f1, bad + [p], p + c.eraseSize, data);
        assert p in bad + [p];
        forall q | c.IsBlock(q) && p <= q < o.home ensures q in o.bad {
          if p < q { AlignedApart(p, q, c.eraseSize); }
        }
      }
    }
  }

  lemma WriteBlockPlaced(c: Chip, m: Medium, data: seq<byte>)
    requires Placed(c, m) && |data| == c.eraseSize
    ensures var (m1, st) := WriteBlock(c, m, data); st == Done ==> Placed(c, m1)
  {
    hide WriteFrom;
    WriteBlockTidy(c, m, data);
    var f := m.flash.(clock := m.flash.clock + 1);
    var (m1, st) := WriteBlock(c, m, data);
    if st == Done {
      RecordsBetween(c, f, m.bad, f.pos, data);
      WriteFromEffect(c, f, m.bad, f.pos, data);
      WriteFromBadOrder(c, f, m.bad, f.pos, data);
      var o := WriteFrom(c, f, m.bad, f.pos, data);
      PlacedMore(c, m, m1, o.home);
    }
  }

  lemma PlacedMore(c: Chip, m: Medium, m1: Medium, h: int)
    requires Placed(c, m) && Tidy(c, m1) && c.IsBlock(h) && m.flash.pos <= h && m1.flash.pos == h + c.eraseSize
    requires m1.homes == m.homes + [h] && Ordered(c, m1.bad, h)
    requires forall q :: c.IsBlock(q) && m.flash.pos <= q < h ==> q in m1.bad
    requires forall q :: q in m1.bad ==> q in m.bad || m.flash.pos <= q
    requires forall q :: q in m.bad ==> q in m1.bad
    ensures Placed(c, m1)
  {
    forall q | c.IsBlock(q) && q + c.eraseSize <= m1.flash.pos ensures q in m1.bad || q in m1.homes {
      if q < m.flash.pos {
        AlignedApart(q, m.flash.pos, c.eraseSize);
      } else if q == h {
        assert m1.homes[|m.homes|] == q;
      }
    }
    forall q | q in m1.bad ensures q !in m1.homes {
      assert q < h;
      assert q in m.bad || m.flash.pos <= q;
    }
  }

  lemma {:induction false} DrainPlaced(c: Chip, m: Medium, s: seq<byte>)
    requires Placed(c, m)
    ensures var (m1, _, st) := Drain(c, m, s); st == Done ==> Placed(c, m1)
    decreases |s|
  {
    hide WriteBlock, Ordered;
    if |s| >= c.eraseSize {
      WriteBlockPlaced(c, m, s[..c.eraseSize]);
      var (m1, st) := WriteBlock(c, m, s[..c.eraseSize]);
      if st == Done {
        hide Placed;
        DrainPlaced(c, m1, s[c.eraseSize..]);
      }
    }
  }

  lemma StepPlaced(c: Chip, w: Writer, call: Call)
    requires Placed(c, w.medium) && |w.pending| <= c.eraseSize && Succeeds(c, w, call)
    ensures Placed(c, Step(c, w, call).medium)
  {
    hide Drain, EraseBlocks, WriteBlock;
    StepTidy(c, w, call);
    match call
    case Write(data) =>
      if data != [] {
        DrainPlaced(c, w.medium, w.pending + data);
      }
    case EraseSome(blocks) =>
      EraseBlocksKeeps(c, w, blocks);
      if w.pending != [] {
        WriteBlockPlaced(c, w.medium, w.pending + Fill(c.eraseSize - |w.pending|, 0));
      }
  }

  lemma {:induction false} RunPlaced(c: Chip, w: Writer, calls: seq<Call>)
    requires Placed(c, w.medium) && |w.pending| <= c.eraseSize && AllSucceed(c, w, calls)
    ensures Placed(c, Run(c, w, calls).medium)
    decreases |calls|
  {
    hide Step, Succeeds, Ordered;
    if calls != [] {
      StepPlaced(c, w, calls[0]);
      RunPlaced(c, Step(c, w, calls[0]), calls[1..]);
    }
  }

  /** The first free offset is then the next committed block, or the file position. */
  lemma {:induction false} NextIsCommitted(c: Chip, m: Medium, q: int)
    requires Placed(c, m) && c.Aligned(q) && q <= m.flash.pos
    ensures var r := FirstFree(m.bad, q, c.eraseSize);
            && (r == m.flash.pos || (r in m.homes && r < m.flash.pos))
            && forall h :: h in m.homes && q <= h ==> r <= h
    decreases m.flash.pos - q
  {
    if q in m.bad {
      NextIsCommitted(c, m, q + c.eraseSize);
      forall h | h in m.homes && q <= h ensures q + c.eraseSize <= h {
        AlignedApart(q, h, c.eraseSize);
      }
    } else if q < m.flash.pos {
      AlignedApart(q, m.flash.pos, c.eraseSize);
    }
  }

  /** While all calls on a fresh context succeed, every block below the file position is recorded
      as bad or committed and not both, and from a block offset up to there `mtd_find_write_start`
      returns the first committed block at or after it, or the file position if there is none. */
  lemma FindStartFindsData(c: Chip, w: Writer, calls: seq<Call>, q: int)
    requires Fresh(c, w) && AllSucceed(c, w, calls)
    requires c.Aligned(q) && q <= Run(c, w, calls).medium.flash.pos
    ensures var m := Run(c, w, calls).medium;
            var r := FindStart(m.bad, q, c.eraseSize);
            && Placed(c, m)
            && (r == m.flash.pos || (r in m.homes && r < m.flash.pos))
            && forall h :: h in m.homes && q <= h ==> r <= h
  {
    hide Run, AllSucceed, UpToFailure, FindStart, FirstFree;
    assert Placed(c, w.medium) by { FreshIsPlaced(c, w); }
    RunPlaced(c, w, calls);
    RunTidy(c, w, calls);
    FindStartIsRightUntilFailure(c, w, calls, q);
    NextIsCommitted(c, Run(c, w, calls).medium, q);
  }

  lemma FreshIsPlaced(c: Chip, w: Writer)
    requires Fresh(c, w)
    ensures Placed(c, w.medium)
  {
  }

  // ---------- for ever, from block offsets ----------

  /** The list begins with increasing block offsets; whatever follows is one of these again or no
      block offset. */
  ghost predicate Settled(c: Chip, first: seq<int>, bad: seq<int>)
    requires c.Valid()
  {
    && first <= bad
    && (forall i, j :: 0 <= i < j < |first| ==> first[i] < first[j])
    && (forall i :: |first| <= i < |bad| && c.Aligned(bad[i]) ==> bad[i] in first)
  }

  /** Every block from p on is in the list. */
  ghost predicate Exhausted(c: Chip, list: seq<int>, p: int)
    requires c.Valid()
  {
    forall q :: c.IsBlock(q) && p <= q ==> q in list
  }

  /** Either no block write has run out of space yet, or the list has settled and no block from
      the file position on is missing from it. */
  ghost predicate Phase(c: Chip, m: Medium) {
    || Tidy(c, m)
    || (Fits(c, m.flash) && exists first :: Settled(c, first, m.bad) && Exhausted(c, first, m.flash.pos))
  }

  /** A block write that runs out of space has recorded every block from its start on. */
  lemma {:induction false} RecordsAll(c: Chip, f: Flash, bad: seq<int>, p: nat, data: seq<byte>, q: int)
    requires Fits(c, f) && |data| == c.eraseSize && c.Aligned(p) && c.IsBlock(q) && p <= q
    requires WriteFrom(c, f, bad, p, data).status == NoSpace
    ensures q in WriteFrom(c, f, bad, p, data).bad
    decreases c.size - p
  {
    hide Visit;
    if p + c.eraseSize <= c.size {
      var f1 := Visit(c, f, p, data).0;
      if q == p {
        WriteFromRoom(c, f1, bad + [p], p + c.eraseSize, data);
        assert WriteFrom(c, f, bad, p, data).bad[|bad|] == p;
      } else {
        AlignedApart(p, q, c.eraseSize);
        RecordsAll(c, f1, bad + [p], p + c.eraseSize, data, q);
      }
    }
  }

  /** Whatever a later block write records is no news. */
  lemma {:induction false} WriteFromSettled(c: Chip, f: Flash, bad: seq<int>, p: nat, data: seq<byte>, first: seq<int>)
    requires Fits(c, f) && |data| == c.eraseSize && Settled(c, first, bad) && Exhausted(c, first, p)
    ensures Settled(c, first, WriteFrom(c, f, bad, p, data).bad)
    decreases c.size - p
  {
    hide Visit;
    if p + c.eraseSize <= c.size {
      assert c.Aligned(p) ==> c.IsBlock(p);
      var (f1, ok) := Visit(c, f, p, data);
      if !ok {
        WriteFromSettled(c, f1, bad + [p], p + c.eraseSize, data, first);
      }
    }
  }

  lemma WriteBlockPhase(c: Chip, m: Medium, data: seq<byte>)
    requires Phase(c, m) && |data| == c.eraseSize
    ensures Phase(c, WriteBlock(c, m, data).0)
  {
    PhaseFits(c, m);
    hide WriteFrom, Settled, Ordered, Exhausted, Tidy;
    var (m1, st) := WriteBlock(c, m, data);
    var f := m.flash.(clock := m.flash.clock + 1);
    if Tidy(c, m) {
      WriteBlockTidy(c, m, data);
      if st != Done {
        TidyThenRefused(c, m, data);
      }
    } else {
      var first :| Settled(c, first, m.bad) && Exhausted(c, first, m.flash.pos);
      if c.fault(m.flash.clock).seekOk {
        WriteFromSettled(c, f, m.bad, f.pos, data, first);
        WriteFromEffect(c, f, m.bad, f.pos, data);
        ExhaustedAbove(c, first, m.flash.pos, m1.flash.pos);
      }
      assert Settled(c, first, m1.bad) && Exhausted(c, first, m1.flash.pos);
    }
  }

  lemma ExhaustedAbove(c: Chip, list: seq<int>, p: int, q: int)
    requires c.Valid() && Exhausted(c, list, p) && p <= q
    ensures Exhausted(c, list, q)
  {
  }

  /** The first block write that is refused settles the list, unless lseek failed. */
  lemma TidyThenRefused(c: Chip, m: Medium, data: seq<byte>)
    requires Tidy(c, m) && |data| == c.eraseSize && WriteBlock(c, m, data).1 != Done
    ensures Phase(c, WriteBlock(c, m, data).0)
  {
    hide WriteFrom;
    var m1 := WriteBlock(c, m, data).0;
    var f := m.flash.(clock := m.flash.clock + 1);
    if c.fault(m.flash.clock).seekOk {
      WriteBlockTidy(c, m, data);
      WriteFromEffect(c, f, m.bad, f.pos, data);
      WriteFromRoom(c, f, m.bad, f.pos, data);
      forall q | c.IsBlock(q) && f.pos <= q ensures q in m1.bad {
        RecordsAll(c, f, m.bad, f.pos, data, q);
      }
      assert Settled(c, m1.bad, m1.bad) && Exhausted(c, m1.bad, m1.flash.pos);
    }
  }

  lemma {:induction false} DrainPhase(c: Chip, m: Medium, s: seq<byte>)
    requires Phase(c, m)
    ensures Phase(c, Drain(c, m, s).0)
    decreases |s|
  {
    hide WriteBlock, Phase;
    PhaseFits(c, m);
    if |s| >= c.eraseSize {
      WriteBlockPhase(c, m, s[..c.eraseSize]);
      var (m1, st) := WriteBlock(c, m, s[..c.eraseSize]);
      if st == Done {
        DrainPhase(c, m1, s[c.eraseSize..]);
      }
    }
  }

  lemma PhaseFits(c: Chip, m: Medium)
    requires Phase(c, m)
    ensures Fits(c, m.flash)
  {
  }

  lemma StepPhase(c: Chip, w: Writer, call: Call)
    requires Phase(c, w.medium) && |w.pending| <= c.eraseSize
    ensures Phase(c, Step(c, w, call).medium)
  {
    hide Drain, EraseBlocks, WriteBlock, Settled, Ordered, Exhausted;
    match call
    case Write(data) =>
      if data != [] {
        DrainPhase(c, w.medium, w.pending + data);
      }
    case EraseSome(blocks) =>
      EraseBlocksKeeps(c, w, blocks);
      if w.pending != [] {
        WriteBlockPhase(c, w.medium, w.pending + Fill(c.eraseSize - |w.pending|, 0));
      }
  }

  lemma {:induction false} RunPhase(c: Chip, w: Writer, calls: seq<Call>)
    requires Phase(c, w.medium) && |w.pending| <= c.eraseSize
    ensures Phase(c, Run(c, w, calls).medium)
    decreases |calls|
  {
    hide Step, Phase;
    PhaseFits(c, w.medium);
    if calls != [] {
      StepPhase(c, w, calls[0]);
      RunPhase(c, Step(c, w, calls[0]), calls[1..]);
    }
  }

  lemma PhaseInTurn(c: Chip, m: Medium, q: int)
    requires Phase(c, m) && c.Aligned(q)
    ensures InTurn(m.bad, q)
  {
    if !Tidy(c, m) {
      var first :| Settled(c, first, m.bad) && Exhausted(c, first, m.flash.pos);
      forall i, j | 0 <= i < j < |m.bad| && m.bad[j] == q && q !in m.bad[..j] ensures m.bad[i] < q {
        assert j < |first|;
        assert m.bad[i] == first[i] && m.bad[j] == first[j];
      }
    }
  }

  /** After any calls on a fresh context, failed writes, refused erases and retries included,
      `mtd_find_write_start` returns from every block offset the first block offset at or after
      it that is not recorded as bad. */
  lemma FindStartIsRightForBlocks(c: Chip, w: Writer, calls: seq<Call>, pos: int)
    requires Fresh(c, w) && c.Aligned(pos)
    ensures var bad := Run(c, w, calls).medium.bad;
            FindStart(bad, pos, c.eraseSize) == FirstFree(bad, pos, c.eraseSize)
  {
    hide Run, Phase, InTurn, FindStart, FirstFree;
    assert Tidy(c, w.medium) && Phase(c, w.medium) by { FreshIsTidy(c, w); }
    RunPhase(c, w, calls);
    var m := Run(c, w, calls).medium;
    forall q | pos <= q && Multiple(q - pos, c.eraseSize) ensures InTurn(m.bad, q) {
      StepsStayAligned(pos, q, c.eraseSize);
      PhaseInTurn(c, m, q);
    }
    FindStartIsRightIff(m.bad, pos, c.eraseSize);
  }

  lemma FreshIsTidy(c: Chip, w: Writer)
    requires Fresh(c, w)
    ensures Tidy(c, w.medium) && Phase(c, w.medium)
  {
  }

  lemma {:induction false} StepsStayAligned(pos: int, q: int, e: nat)
    requires 0 < e && Multiple(pos, e) && pos <= q && Multiple(q - pos, e)
    ensures Multiple(q, e)
    decreases q - pos
  {
    if pos < q {
      StepsStayAligned(pos + e, q, e);
    }
  }

  // ---------- from other offsets it need not be right after a failure ----------

  /** Two blocks of four bytes.  The first write stops after two bytes; from then on lseek fails
      once and every erase fails. */
  function Flaky(): (c: Chip) {
    Chip(4, 8, true, _ => Good, t => Fault(t != 3, t == 1, true, 2, [], 0))
  }

  /** Giving up its first block: one attempt that writes two bytes, one that cannot erase, and the
      last erase. */
  lemma FirstBlockFails(f: Flash, data: seq<byte>)
    requires Fits(Flaky(), f) && f.pos == 0 && f.clock == 1 && |data| == 4
    ensures var (f5, ok) := TryBlock(Flaky(), f, 0, data, 2); !ok && f5.pos == 2 && f5.clock == 6
  {
    hide Scar;
    var c := Flaky();
    assert c.IsBlock(0) by { assert Multiple(0, 4); }
    var f1 := Erase(c, f, 0).0;
    var f2 := SeekWrite(c, f1, 0, data).0;
    var f3 := SeekRead(c, f2, 0).0;
    assert f3 == f2.(clock := 4) && f3.pos == 2;
    assert Attempt(c, f, 0, data) == (f3, false);
    var f4 := Erase(c, f3, 0).0;
    assert Attempt(c, f3, 0, data) == (f4, false);
    hide Attempt;
    var f5 := Erase(c, f4, 0).0;
    assert TryBlock(c, f4, 0, data, 0) == (f5, false);
    assert TryBlock(c, f3, 0, data, 1) == (f5, false);
  }

  /** The first `write_block` gives up both blocks and leaves the file position at 2. */
  lemma FirstFailure(f: Flash, data: seq<byte>)
    requires f == Flash(Fill(8, 0), 0, 0, 0) && |data| == 4
    ensures Fits(Flaky(), f)
    ensures var (m, st) := WriteBlock(Flaky(), Medium(f, [], []), data);
            st == NoSpace && m.bad == [0, 4] && m.flash.pos == 2 && m.flash.clock == 9 && m.homes == []
  {
    hide Fill, Scar, TryBlock;
    var c := Flaky();
    assert c.Valid() by { assert Multiple(8, 4) == Multiple(4, 4) == Multiple(0, 4); }
    var f0 := f.(clock := 1);
    FirstBlockFails(f0, data);
    var f5 := TryBlock(c, f0, 0, data, 2).0;
    NoEraseNoBlock(c, f5, 4, data);
    var f8 := TryBlock(c, f5, 4, data, 2).0;
    assert !c.Skips(0) && !c.Skips(4) && [0] + [4] == [0, 4] && [] + [0] == [0];
    assert WriteFrom(c, f8, [0, 4], 8, data) == Outcome(f8, [0, 4], 8, NoSpace);
    assert WriteFrom(c, f5, [0], 4, data) == Outcome(f8, [0, 4], 8, NoSpace);
    assert WriteFrom(c, f0, [], 0, data) == Outcome(f8, [0, 4], 8, NoSpace);
  }

  /** With all erases failing a block is given up without moving the file position. */
  lemma NoEraseNoBlock(c: Chip, f: Flash, p: nat, data: seq<byte>)
    requires Fits(c, f) && p + c.eraseSize <= c.size && |data| == c.eraseSize
    requires !Erase(c, f, p).1 && !c.fault(f.clock + 1).ok && !c.fault(f.clock + 2).ok
    ensures var (f1, ok) := TryBlock(c, f, p, data, 2); !ok && f1.pos == f.pos && f1.clock == f.clock + 3
  {
    hide Scar;
    var f1 := Erase(c, f, p).0;
    var f2 := Erase(c, f1, p).0;
    var f3 := Erase(c, f2, p).0;
    assert TryBlock(c, f2, p, data, 0) == (f3, false);
    assert TryBlock(c, f1, p, data, 1) == (f3, false);
  }

  /** Trying again records the offset 2, which is no block offset, behind 4, and
      `mtd_find_write_start` from 2 then answers with a recorded offset. */
  lemma SecondFailureMisleads(f: Flash, data: seq<byte>)
    requires f == Flash(Fill(8, 0), 0, 0, 0) && |data| == 4
    ensures Fits(Flaky(), f)
    ensures var (m, _) := WriteBlock(Flaky(), Medium(f, [], []), data);
            var bad := WriteBlock(Flaky(), m, data).0.bad;
            bad == [0, 4, 2] && FindStart(bad, 2, 4) != FirstFree(bad, 2, 4)
  {
    FirstFailure(f, data);
    hide Fill, Scar, TryBlock;
    var c := Flaky();
    var m := WriteBlock(c, Medium(f, [], []), data).0;
    var f0 := m.flash.(clock := 10);
    NoEraseNoBlock(c, f0, 2, data);
    var f1 := TryBlock(c, f0, 2, data, 2).0;
    assert WriteFrom(c, f1, [0, 4, 2], 6, data) == Outcome(f1, [0, 4, 2], 6, NoSpace);
    assert [0, 4] + [2] == [0, 4, 2] && !c.Skips(2);
    assert WriteFrom(c, f0, [0, 4], 2, data) == Outcome(f1, [0, 4, 2], 6, NoSpace);
    OutOfOrderListMisleads();
  }
}
