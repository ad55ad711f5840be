/** Whole runs of the writer of flash/src/mtd_flash.c: the stream it stores, that the way the
    stream is cut into calls does not matter, that committed blocks are durable, and that blocks
    reported bad are never touched. */
module MtdStream {
  import opened Bytes
  import opened MtdChip
  import opened MtdWriteSpec

  /** The committed blocks are blocks the device calls good, in increasing order, and all lie
      below the file position. */
  ghost predicate Track(c: Chip, m: Medium) {
    && Fits(c, m.flash)
    && (forall i :: 0 <= i < |m.homes| ==>
          0 <= m.homes[i] && m.homes[i] + c.eraseSize <= m.flash.pos && c.IsBlock(m.homes[i]) && !c.Skips(m.homes[i]))
    && (forall i, j :: 0 <= i < j < |m.homes| ==> m.homes[i] + c.eraseSize <= m.homes[j])
  }

  /** The contents of the blocks at `homes`, one after the other. */
  function Stored(mem: seq<byte>, homes: seq<int>, e: nat): (s: seq<byte>)
    requires forall i :: 0 <= i < |homes| ==> 0 <= homes[i] && homes[i] + e <= |mem|
  {
    if homes == [] then []
    else
      var h := homes[|homes| - 1];
      Stored(mem, homes[..|homes| - 1], e) + mem[h..h + e]
  }

  lemma StoredAppend(mem: seq<byte>, homes: seq<int>, h: int, e: nat)
    requires forall i :: 0 <= i < |homes| ==> 0 <= homes[i] && homes[i] + e <= |mem|
    requires 0 <= h && h + e <= |mem|
    ensures Stored(mem, homes + [h], e) == Stored(mem, homes, e) + mem[h..h + e]
  {
    assert (homes + [h])[..|homes|] == homes;
  }

  ghost function Stream(c: Chip, m: Medium): seq<byte>
    requires Track(c, m)
  {
    Stored(m.flash.mem, m.homes, c.eraseSize)
  }

  lemma {:induction false} StoredSame(mem: seq<byte>, mem': seq<byte>, homes: seq<int>, e: nat, p: int)
    requires forall i :: 0 <= i < |homes| ==> 0 <= homes[i] && homes[i] + e <= |mem| && homes[i] + e <= p
    requires SameBelow(mem, mem', p)
    ensures Stored(mem', homes, e) == Stored(mem, homes, e)
  {
    if homes != [] {
      StoredSame(mem, mem', homes[..|homes| - 1], e, p);
      var h := homes[|homes| - 1];
      assert mem'[h..h + e] == mem[h..h + e];
    }
  }

  /** What a step of the writer may do to the medium, whatever the device answers and whether or
      not the step succeeds. */
  ghost predicate Later(c: Chip, m: Medium, m': Medium)
    requires Fits(c, m.flash)
  {
    && Fits(c, m'.flash) && m.flash.pos <= m'.flash.pos
    && m.homes <= m'.homes && m.bad <= m'.bad
    && SameBelow(m.flash.mem, m'.flash.mem, m.flash.pos)
    && BadUntouched(c, m.flash.mem, m'.flash.mem)
  }

  lemma LaterTransitive(c: Chip, m: Medium, m1: Medium, m2: Medium)
    requires Fits(c, m.flash) && Later(c, m, m1) && Later(c, m1, m2)
    ensures Later(c, m, m2)
  {
  }

  /** One `write_block`. */
  lemma WriteBlockEffect(c: Chip, m: Medium, data: seq<byte>) returns (m1: Medium, st: Status)
    requires Track(c, m) && |data| == c.eraseSize
    ensures (m1, st) == WriteBlock(c, m, data) && Later(c, m, m1) && Track(c, m1)
    ensures st != Done ==> m1.homes == m.homes
    ensures Stream(c, m1) == if st == Done then Stream(c, m) + data else Stream(c, m)
  {
    hide WriteFrom, Stored;
    m1, st := WriteBlock(c, m, data).0, WriteBlock(c, m, data).1;
    var f := m.flash.(clock := m.flash.clock + 1);
    if c.fault(m.flash.clock).seekOk {
      var o := WriteFrom(c, f, m.bad, f.pos, data);
      WriteFromEffect(c, f, m.bad, f.pos, data);
      assert Confined(c, f, m.bad, f.pos, data, o);
      StoredSame(m.flash.mem, o.flash.mem, m.homes, c.eraseSize, m.flash.pos);
      if st == Done {
        StoredAppend(o.flash.mem, m.homes, o.home, c.eraseSize);
      }
    }
  }

  /** A run of whole blocks. */
  lemma {:induction false} DrainEffect(c: Chip, m: Medium, s: seq<byte>)
    requires Track(c, m)
    ensures var (m1, rest, st) := Drain(c, m, s);
            && Later(c, m, m1) && Track(c, m1)
            && (if st == Done then Stream(c, m1) + rest == Stream(c, m) + s
                else Stream(c, m1) + rest <= Stream(c, m) + s)
    decreases |s|
  {
    hide WriteBlock, Stored;
    if |s| >= c.eraseSize {
      var blk := s[..c.eraseSize];
      var m1, st := WriteBlockEffect(c, m, blk);
      assert s == blk + s[c.eraseSize..];
      if st == Done {
        DrainEffect(c, m1, s[c.eraseSize..]);
        var (m2, rest, st2) := Drain(c, m1, s[c.eraseSize..]);
        LaterTransitive(c, m, m1, m2);
        assert Stream(c, m) + s == Stream(c, m1) + s[c.eraseSize..];
      }
    }
  }

  // ---------- any sequence of calls on one context ----------

  /** The calls a program can make on an open write context. */
  datatype Call = Write(data: seq<byte>) | EraseSome(blocks: int)

  function Step(c: Chip, w: Writer, call: Call): (r: Writer)
    requires Fits(c, w.medium.flash) && |w.pending| <= c.eraseSize
    ensures Fits(c, r.medium.flash) && |r.pending| <= c.eraseSize
  {
    match call
    case Write(data) => WriteData(c, w, data).0
    case EraseSome(blocks) => EraseBlocks(c, w, blocks).0
  }

  function Run(c: Chip, w: Writer, calls: seq<Call>): (r: Writer)
    requires Fits(c, w.medium.flash) && |w.pending| <= c.eraseSize
    ensures Fits(c, r.medium.flash) && |r.pending| <= c.eraseSize
    decreases |calls|
  {
    if calls == [] then w else Run(c, Step(c, w, calls[0]), calls[1..])
  }

  lemma {:induction false} EraseFromEffect(c: Chip, f: Flash, p: nat, n: nat)
    requires Fits(c, f)
    ensures SameBelow(f.mem, EraseFrom(c, f, p, n).mem, p) && BadUntouched(c, f.mem, EraseFrom(c, f, p, n).mem)
    decreases n
  {
    hide Erase;
    if n > 0 {
      var f1 := if c.Query(p) == Positive then f else Erase(c, f, p).0;
      ConfinedChange(c, f.mem, f1.mem, p);
      EraseFromEffect(c, f1, p + c.eraseSize, n - 1);
    }
  }

  /** q is one of the n offsets p, p + e, p + 2e, ... */
  predicate Among(q: nat, p: nat, n: nat, e: nat)
    decreases n
  {
    n > 0 && (q == p || (p + e <= q && Among(q, p + e, n - 1, e)))
  }

  /** If no erase fails, every block of the range that is not reported bad is left erased. */
  lemma {:induction false} EraseFromErases(c: Chip, f: Flash, p: nat, n: nat, q: nat)
    requires Fits(c, f) && forall t: nat :: f.clock <= t ==> c.fault(t).ok
    requires c.IsBlock(q) && Among(q, p, n, c.eraseSize) && c.Query(q) != Positive
    ensures EraseFrom(c, f, p, n).mem[q..q + c.eraseSize] == Fill(c.eraseSize, 0xFF)
    decreases n
  {
    hide Erase, Fill;
    var e := c.eraseSize;
    EraseTicks(c, f, p);
    var f1 := if c.Query(p) == Positive then f else Erase(c, f, p).0;
    var f2 := EraseFrom(c, f1, p + e, n - 1);
    assert EraseFrom(c, f, p, n) == f2;
    if q == p {
      EraseFromEffect(c, f1, p + e, n - 1);
      assert f1.mem[q..q + e] == Fill(e, 0xFF);
      assert f2.mem[q..q + e] == f1.mem[q..q + e];
    } else {
      EraseFromErases(c, f1, p + e, n - 1, q);
    }
  }

  lemma EraseTicks(c: Chip, f: Flash, p: nat)
    requires Fits(c, f)
    ensures var (f1, ok) := Erase(c, f, p);
            f1.clock == f.clock + 1 && (c.IsBlock(p) && c.fault(f.clock).ok ==> ok)
  {
    hide Put, Fill, Scar;
  }

  lemma FlushEffect(c: Chip, w: Writer)
    requires Track(c, w.medium) && |w.pending| <= c.eraseSize
    ensures var (w1, st) := Flush(c, w);
            && Later(c, w.medium, w1.medium) && Track(c, w1.medium)
            && Stream(c, w1.medium) == if st == Done && w.pending != []
                                       then Stream(c, w.medium) + w.pending + Fill(c.eraseSize - |w.pending|, 0)
                                       else Stream(c, w.medium)
  {
    hide WriteBlock;
    if w.pending != [] {
      var blk := w.pending + Fill(c.eraseSize - |w.pending|, 0);
      var _, _ := WriteBlockEffect(c, w.medium, blk);
      assert Stream(c, w.medium) + blk == Stream(c, w.medium) + w.pending + Fill(c.eraseSize - |w.pending|, 0);
    }
  }

  /** Behind the flush, `mtd_erase_blocks` changes at most the bytes from the file position on. */
  lemma EraseBlocksErases(c: Chip, w: Writer, blocks: int)
    requires Fits(c, w.medium.flash) && |w.pending| <= c.eraseSize
    ensures var m := Flush(c, w).0.medium;
            var m1 := EraseBlocks(c, w, blocks).0.medium;
            && m1.homes == m.homes && m1.bad == m.bad && m1.flash.pos == m.flash.pos && Later(c, m, m1)
  {
    hide Flush, EraseFrom;
    var (w1, st) := Flush(c, w);
    var f := w1.medium.flash.(clock := w1.medium.flash.clock + 1);
    var total := BlocksLeft(c, f);
    var n := if blocks < 0 then total else blocks;
    EraseFromEffect(c, f, f.pos, n);
  }

  lemma EraseBlocksEffect(c: Chip, w: Writer, blocks: int)
    requires Track(c, w.medium) && |w.pending| <= c.eraseSize
    ensures var w1 := EraseBlocks(c, w, blocks).0;
            && Later(c, w.medium, w1.medium) && Track(c, w1.medium)
            && Stream(c, w1.medium) == Stream(c, Flush(c, w).0.medium)
  {
    hide Flush, EraseBlocks, Stored;
    FlushEffect(c, w);
    var m := Flush(c, w).0.medium;
    var m1 := EraseBlocks(c, w, blocks).0.medium;
    EraseBlocksErases(c, w, blocks);
    StoredSame(m.flash.mem, m1.flash.mem, m.homes, c.eraseSize, m.flash.pos);
    LaterTransitive(c, w.medium, m, m1);
  }

  lemma StepEffect(c: Chip, w: Writer, call: Call)
    requires Track(c, w.medium) && |w.pending| <= c.eraseSize
    ensures Later(c, w.medium, Step(c, w, call).medium) && Track(c, Step(c, w, call).medium)
  {
    hide Drain, EraseBlocks;
    match call
    case Write(data) =>
      if data != [] {
        DrainEffect(c, w.medium, w.pending + data);
      }
    case EraseSome(blocks) =>
      EraseBlocksEffect(c, w, blocks);
  }

  lemma {:induction false} RunEffect(c: Chip, w: Writer, calls: seq<Call>)
    requires Track(c, w.medium) && |w.pending| <= c.eraseSize
    ensures Later(c, w.medium, Run(c, w, calls).medium) && Track(c, Run(c, w, calls).medium)
    decreases |calls|
  {
    hide Step;
    if calls != [] {
      var w1 := Step(c, w, calls[0]);
      StepEffect(c, w, calls[0]);
      RunEffect(c, w1, calls[1..]);
      LaterTransitive(c, w.medium, w1.medium, Run(c, w1, calls[1..]).medium);
    }
  }

  /** What was committed in m is in m' as it was, and so are the blocks reported bad. */
  ghost predicate Kept(c: Chip, m: Medium, m': Medium)
    requires Track(c, m)
  {
    && Track(c, m') && m.homes <= m'.homes
    && (forall i :: 0 <= i < |m.homes| ==> SameBlock(c, m.flash.mem, m'.flash.mem, m.homes[i]))
    && (forall q :: c.IsBlock(q) && c.Query(q) == Positive ==> SameBlock(c, m.flash.mem, m'.flash.mem, q))
  }

  predicate SameBlock(c: Chip, mem: seq<byte>, mem': seq<byte>, q: int)
    requires 0 <= q && q + c.eraseSize <= |mem|
  {
    |mem| == |mem'| && mem'[q..q + c.eraseSize] == mem[q..q + c.eraseSize]
  }

  lemma LaterKeeps(c: Chip, m: Medium, m': Medium)
    requires Track(c, m) && Track(c, m') && Later(c, m, m')
    ensures Kept(c, m, m')
  {
    hide SameBlock;
    forall q | 0 <= q && q + c.eraseSize <= m.flash.pos
      ensures SameBlock(c, m.flash.mem, m'.flash.mem, q)
    {
      SameBytesSameBlock(c, m.flash.mem, m'.flash.mem, q);
    }
    forall q | c.IsBlock(q) && c.Query(q) == Positive
      ensures SameBlock(c, m.flash.mem, m'.flash.mem, q)
    {
      SameBytesSameBlock(c, m.flash.mem, m'.flash.mem, q);
    }
  }

  lemma SameBytesSameBlock(c: Chip, mem: seq<byte>, mem': seq<byte>, q: int)
    requires |mem| == |mem'| && 0 <= q && q + c.eraseSize <= |mem|
    requires forall i :: q <= i < q + c.eraseSize ==> mem'[i] == mem[i]
    ensures SameBlock(c, mem, mem', q)
  {
  }

  lemma CloseEffect(c: Chip, w: Writer)
    requires Track(c, w.medium) && |w.pending| <= c.eraseSize
    ensures Later(c, w.medium, Close(c, w).0) && Track(c, Close(c, w).0)
  {
    hide EraseBlocks;
    EraseBlocksEffect(c, w, 0);
  }

  /** Durability.  After any calls at all, failed ones included, and also after `mtd_write_close`
      behind them, every block for which `write_block` had succeeded holds what it held and is
      still accounted for, and no byte of a block the device reports as bad has changed. */
  lemma Durability(c: Chip, w: Writer, calls: seq<Call>)
    requires Track(c, w.medium) && |w.pending| <= c.eraseSize
    ensures Kept(c, w.medium, Run(c, w, calls).medium)
    ensures Kept(c, w.medium, Close(c, Run(c, w, calls)).0)
  {
    hide Run, Close, Later, Track;
    TrackFits(c, w.medium);
    var w1 := Run(c, w, calls);
    RunEffect(c, w, calls);
    LaterKeeps(c, w.medium, w1.medium);
    CloseEffect(c, w1);
    LaterTransitive(c, w.medium, w1.medium, Close(c, w1).0);
    LaterKeeps(c, w.medium, Close(c, w1).0);
  }

  lemma TrackFits(c: Chip, m: Medium)
    requires Track(c, m)
    ensures Fits(c, m.flash)
  {
  }

  // ---------- the stream, and how it is cut into calls ----------

  /** Pass the chunks to `mtd_write_data` one after the other, until one fails. */
  function WriteAll(c: Chip, w: Writer, chunks: seq<seq<byte>>): (r: (Writer, Status))
    requires Fits(c, w.medium.flash) && |w.pending| <= c.eraseSize
    ensures Fits(c, r.0.medium.flash) && |r.0.pending| <= c.eraseSize
    decreases |chunks|
  {
    if chunks == [] then (w, Done)
    else
      var (w1, st) := WriteData(c, w, chunks[0]);
      if st == Done then WriteAll(c, w1, chunks[1..]) else (w1, st)
  }

  function Flatten(chunks: seq<seq<byte>>): seq<byte> {
    if chunks == [] then [] else chunks[0] + Flatten(chunks[1..])
  }

  /** Drain may stop anywhere and go on with what was left over. */
  lemma {:induction false} DrainSplit(c: Chip, m: Medium, s: seq<byte>, t: seq<byte>)
    requires Fits(c, m.flash)
    ensures var (m1, rest, st) := Drain(c, m, s);
            Drain(c, m, s + t) == if st == Done then Drain(c, m1, rest + t) else (m1, rest, st)
    decreases |s|
  {
    hide WriteBlock;
    if |s| >= c.eraseSize {
      assert (s + t)[..c.eraseSize] == s[..c.eraseSize];
      assert (s + t)[c.eraseSize..] == s[c.eraseSize..] + t;
      var (m1, st) := WriteBlock(c, m, s[..c.eraseSize]);
      if st == Done {
        DrainSplit(c, m1, s[c.eraseSize..], t);
      }
    }
  }

  /** Any sequence of calls does what one pass over the concatenated data does. */
  lemma {:induction false} CallsAreOnePass(c: Chip, w: Writer, chunks: seq<seq<byte>>)
    requires Fits(c, w.medium.flash) && |w.pending| < c.eraseSize
    ensures var (w1, st) := WriteAll(c, w, chunks);
            var (m, rest, st1) := Drain(c, w.medium, w.pending + Flatten(chunks));
            && st == st1 && w1.medium == m && (st == Done ==> w1.pending == rest)
    decreases |chunks|
  {
    hide WriteBlock;
    if chunks == [] {
      assert w.pending + Flatten(chunks) == w.pending;
    } else {
      var s := w.pending + chunks[0];
      assert w.pending + Flatten(chunks) == s + Flatten(chunks[1..]);
      DrainSplit(c, w.medium, s, Flatten(chunks[1..]));
      var (w1, st) := WriteData(c, w, chunks[0]);
      assert chunks[0] == [] ==> s == w.pending;
      if st == Done {
        CallsAreOnePass(c, w1, chunks[1..]);
      }
    }
  }

  /** Two ways of cutting the same bytes into calls, with the same device responses, leave the
      same flash, file position and bad list, fail for the same reason if they fail, and leave
      the same bytes pending if they do not. */
  lemma CuttingDoesNotMatter(c: Chip, w: Writer, chunks: seq<seq<byte>>, others: seq<seq<byte>>)
    requires Fits(c, w.medium.flash) && |w.pending| < c.eraseSize
    requires Flatten(chunks) == Flatten(others)
    ensures WriteAll(c, w, chunks).1 == WriteAll(c, w, others).1
    ensures WriteAll(c, w, chunks).0.medium == WriteAll(c, w, others).0.medium
    ensures WriteAll(c, w, chunks).1 == Done ==> WriteAll(c, w, chunks) == WriteAll(c, w, others)
  {
    CallsAreOnePass(c, w, chunks);
    CallsAreOnePass(c, w, others);
  }

  /** Stream refinement.  While all calls succeed, the committed blocks in increasing offset
      order followed by the pending bytes are exactly what was passed in, and less than a block
      is pending; when a call fails, the committed blocks still hold a prefix of it. */
  lemma StreamRefinement(c: Chip, w: Writer, chunks: seq<seq<byte>>)
    requires Track(c, w.medium) && |w.pending| < c.eraseSize
    ensures var (w1, st) := WriteAll(c, w, chunks);
            var all := Stream(c, w.medium) + w.pending + Flatten(chunks);
            && Track(c, w1.medium) && Later(c, w.medium, w1.medium)
            && (st == Done ==> Stream(c, w1.medium) + w1.pending == all && |w1.pending| < c.eraseSize)
            && Stream(c, w1.medium) <= all
  {
    hide Drain, WriteAll, Flatten;
    CallsAreOnePass(c, w, chunks);
    var (w1, st) := WriteAll(c, w, chunks);
    var s := w.pending + Flatten(chunks);
    DrainEffect(c, w.medium, s);
    var (m, rest, _) := Drain(c, w.medium, s);
    assert w1.medium == m;
    assert Stream(c, m) <= Stream(c, m) + rest;
    assert Stream(c, w.medium) + s == Stream(c, w.medium) + w.pending + Flatten(chunks);
  }

  // ---------- what mtd_erase_blocks erases, returns and refuses ----------

  lemma Quotient(n: nat, total: nat, room: nat, e: nat)
    requires 0 < e && total == room / e
    ensures n <= total <==> n * e <= room
    ensures total * e <= room < total * e + e
  {
    assert room == total * e + room % e;
    if n <= total {
      assert n * e <= total * e;
    } else {
      assert (total + 1) * e <= n * e;
    }
  }

  lemma {:induction false} MultipleOf(n: nat, e: nat)
    requires 0 < e
    ensures 0 <= n * e && Multiple(n * e, e)
    decreases n
  {
    if n > 0 {
      MultipleOf(n - 1, e);
      assert n * e == (n - 1) * e + e;
    }
  }

  /** Once what is pending has been written and lseek has worked, a negative count erases up to the
      last whole block, and any other one is refused if and only if so many blocks are not left; the
      result is the offset behind the last block of the range. */
  lemma EraseBlocksResult(c: Chip, w: Writer, blocks: int)
    requires Fits(c, w.medium.flash) && |w.pending| <= c.eraseSize
    ensures var (w1, st) := Flush(c, w);
            var (w2, end) := EraseBlocks(c, w, blocks);
            var pos := w1.medium.flash.pos;
            && (st != Done ==> end == -1)
            && (st == Done && !c.fault(w1.medium.flash.clock).seekOk ==> end == -1)
            && (st == Done && c.fault(w1.medium.flash.clock).seekOk ==>
                  if blocks < 0 then pos <= end <= c.size < end + c.eraseSize && Multiple(end - pos, c.eraseSize)
                  else (end == -1 <==> pos + blocks * c.eraseSize > c.size)
                       && (end != -1 ==> end == pos + blocks * c.eraseSize))
            && (end == -1 ==> w2.medium.flash.mem == w1.medium.flash.mem)
  {
    hide Flush, EraseFrom, Multiple;
    var (w1, st) := Flush(c, w);
    var pos := w1.medium.flash.pos;
    var total := (c.size - pos) / c.eraseSize;
    Quotient(if blocks < 0 then 0 else blocks, total, c.size - pos, c.eraseSize);
    MultipleOf(total, c.eraseSize);
    assert blocks >= 0 ==> blocks * c.eraseSize >= 0;
  }

  lemma {:induction false} AmongIff(q: nat, p: nat, n: nat, e: nat)
    requires 0 < e
    ensures Among(q, p, n, e) <==> p <= q < p + n * e && Multiple(q - p, e)
    decreases n
  {
    if n > 0 {
      assert n * e == (n - 1) * e + e;
      assert (n - 1) * e >= 0;
      AmongIff(q, p + e, n - 1, e);
    } else {
      assert n * e == 0;
    }
  }

  lemma {:induction false} EraseFromConfined(c: Chip, f: Flash, p: nat, n: nat, i: nat)
    requires Fits(c, f) && i < |f.mem| && !(p <= i < p + n * c.eraseSize)
    ensures EraseFrom(c, f, p, n).mem[i] == f.mem[i]
    decreases n
  {
    hide Erase;
    if n > 0 {
      assert n * c.eraseSize == (n - 1) * c.eraseSize + c.eraseSize;
      assert (n - 1) * c.eraseSize >= 0;
      var f1 := if c.Query(p) == Positive then f else Erase(c, f, p).0;
      EraseFromConfined(c, f1, p + c.eraseSize, n - 1, i);
    }
  }

  /** Up to the offset it returns it erases, if no erase fails, every block of the range that is not
      reported bad, and it changes nothing outside the range. */
  lemma EraseBlocksErasesRange(c: Chip, w: Writer, blocks: int)
    requires Fits(c, w.medium.flash) && |w.pending| <= c.eraseSize && EraseBlocks(c, w, blocks).1 != -1
    ensures var m := Flush(c, w).0.medium;
            var (w2, end) := EraseBlocks(c, w, blocks);
            && SameOutside(m.flash.mem, w2.medium.flash.mem, m.flash.pos, end)
            && ((forall t: nat :: m.flash.clock < t ==> c.fault(t).ok) ==>
                  forall q | c.IsBlock(q) && c.Query(q) != Positive ::
                    m.flash.pos <= q < end && Multiple(q - m.flash.pos, c.eraseSize) ==>
                      ErasedAt(c, w2.medium.flash.mem, q))
  {
    hide Flush, EraseFrom, ErasedAt;
    var m := Flush(c, w).0.medium;
    var (w2, end) := EraseBlocks(c, w, blocks);
    var f := m.flash.(clock := m.flash.clock + 1);
    var n := if blocks < 0 then BlocksLeft(c, f) else blocks;
    assert w2.medium.flash == EraseFrom(c, f, f.pos, n) && end == f.pos + n * c.eraseSize;
    forall i | 0 <= i < c.size && !(f.pos <= i < end) ensures w2.medium.flash.mem[i] == m.flash.mem[i] {
      EraseFromConfined(c, f, f.pos, n, i);
    }
    if forall t: nat :: m.flash.clock < t ==> c.fault(t).ok {
      forall q | c.IsBlock(q) && f.pos <= q < end && Multiple(q - f.pos, c.eraseSize) && c.Query(q) != Positive
        ensures ErasedAt(c, w2.medium.flash.mem, q)
      {
        AmongIff(q, f.pos, n, c.eraseSize);
        EraseFromErases(c, f, f.pos, n, q);
        IsErasedAt(c, w2.medium.flash.mem, q);
      }
    }
  }

  predicate ErasedAt(c: Chip, mem: seq<byte>, q: int)
    requires 0 <= q && q + c.eraseSize <= |mem|
  {
    mem[q..q + c.eraseSize] == Fill(c.eraseSize, 0xFF)
  }

  lemma IsErasedAt(c: Chip, mem: seq<byte>, q: int)
    requires 0 <= q && q + c.eraseSize <= |mem| && mem[q..q + c.eraseSize] == Fill(c.eraseSize, 0xFF)
    ensures ErasedAt(c, mem, q)
  {
  }

  // ---------- closing behind a failed call ----------

  /** A close that returns 0 has committed what was pending, with zeros up to a block boundary. */
  lemma CloseCommits(c: Chip, w: Writer)
    requires Track(c, w.medium) && |w.pending| <= c.eraseSize && Close(c, w).1 == 0
    ensures Track(c, Close(c, w).0)
    ensures Stream(c, Close(c, w).0) == Stream(c, w.medium) + w.pending
                                        + if w.pending == [] then [] else Fill(c.eraseSize - |w.pending|, 0)
  {
    hide Flush, EraseFrom, Stored;
    EraseBlocksEffect(c, w, 0);
    FlushEffect(c, w);
    CloseEffect(c, w);
    assert Flush(c, w).1 == Done;
    var s := Stream(c, w.medium);
    assert w.pending == [] ==> s + w.pending + [] == s;
  }

  lemma {:induction false} RefusedAtFirst(c: Chip, m: Medium, s: seq<byte>)
    requires Fits(c, m.flash) && Drain(c, m, s).2 != Done && Drain(c, m, s).0.homes == m.homes
    ensures |s| >= c.eraseSize && Drain(c, m, s).1 == s[..c.eraseSize]
  {
    hide WriteBlock;
    var (m1, st) := WriteBlock(c, m, s[..c.eraseSize]);
    if st == Done {
      assert false;
    }
  }

  /** When `mtd_write_data` fails with its first block, gathered in the buffer, that block stays
      there, and a close that returns 0 has committed it.  Otherwise nothing is kept, and a close can
      return 0 although the bytes are lost. */
  lemma CloseBehindFailedWrite(c: Chip, w: Writer, data: seq<byte>)
    requires Track(c, w.medium) && |w.pending| <= c.eraseSize && WriteData(c, w, data).1 != Done
    requires Close(c, WriteData(c, w, data).0).1 == 0
    ensures var w1 := WriteData(c, w, data).0;
            var m := Close(c, w1).0;
            && Track(c, w1.medium) && Track(c, m)
            && if w.pending != [] && w1.medium.homes == w.medium.homes
               then |w.pending + data| >= c.eraseSize
                    && Stream(c, m) == Stream(c, w1.medium) + (w.pending + data)[..c.eraseSize]
               else Stream(c, m) == Stream(c, w1.medium)
  {
    hide Drain, Close, Stored;
    var s := w.pending + data;
    DrainEffect(c, w.medium, s);
    var w1 := WriteData(c, w, data).0;
    if w.pending != [] && w1.medium.homes == w.medium.homes {
      RefusedAtFirst(c, w.medium, s);
    }
    CloseCommits(c, w1);
    assert Fill(0, 0) == [];
    assert Stream(c, w1.medium) + w1.pending + [] == Stream(c, w1.medium) + w1.pending;
    assert Stream(c, w1.medium) + [] == Stream(c, w1.medium);
  }

  /** With nothing pending a close returns 0 if and only if lseek and close succeed, whatever failed
      before. */
  lemma CloseWithNothingPending(c: Chip, m: Medium)
    requires Fits(c, m.flash)
    ensures Close(c, Writer(m, [])).1 == 0 <==> c.fault(m.flash.clock).seekOk && c.fault(m.flash.clock + 1).ok
  {
    hide EraseFrom;
    var f := m.flash.(clock := m.flash.clock + 1);
    assert BlocksLeft(c, f) >= 0;
    EraseNothing(c, f);
  }

  lemma EraseNothing(c: Chip, f: Flash)
    requires Fits(c, f)
    ensures EraseFrom(c, f, f.pos, 0) == f
  {
  }

  /** When `mtd_erase_blocks` cannot write what is pending, it stays pending, and a close that
      returns 0 has committed it. */
  lemma CloseBehindFailedErase(c: Chip, w: Writer, blocks: int)
    requires Track(c, w.medium) && |w.pending| <= c.eraseSize && Flush(c, w).1 != Done
    requires Close(c, EraseBlocks(c, w, blocks).0).1 == 0
    ensures var m := Close(c, EraseBlocks(c, w, blocks).0).0;
            && EraseBlocks(c, w, blocks).1 == -1 && Track(c, m)
            && Stream(c, m) == Stream(c, w.medium) + w.pending + Fill(c.eraseSize - |w.pending|, 0)
  {
    hide Close, Stored, WriteBlock;
    FlushEffect(c, w);
    CloseCommits(c, EraseBlocks(c, w, blocks).0);
  }
}
