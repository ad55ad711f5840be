/** What a closed writer of flash/src/mtd_flash.c leaves below its file position, as a reader without
    faults sees it: the data, padded, with every block in it that was given up although the device
    calls it good. */
module MtdMirror {
  import opened Bytes
  import opened MtdChip
  import opened MtdWriteSpec
  import opened MtdStream
  import opened MtdCapacity

  /** The contents of the blocks from p up to q that a reader without faults delivers. */
  function Served(c: Chip, mem: seq<byte>, p: nat, q: nat): seq<byte>
    requires c.Valid() && q <= |mem|
    decreases q - p
  {
    if p + c.eraseSize > q then []
    else (if c.Query(p) == Zero then mem[p..p + c.eraseSize] else []) + Served(c, mem, p + c.eraseSize, q)
  }

  lemma {:induction false} ServedSplit(c: Chip, mem: seq<byte>, p: nat, q: nat, r: nat)
    requires c.Valid() && p <= q <= r <= |mem| && Multiple(q - p, c.eraseSize)
    ensures Served(c, mem, p, r) == Served(c, mem, p, q) + Served(c, mem, q, r)
    decreases q - p
  {
    if p + c.eraseSize <= q {
      ServedSplit(c, mem, p + c.eraseSize, q, r);
    }
  }

  lemma {:induction false} ServedSame(c: Chip, mem: seq<byte>, mem': seq<byte>, p: nat, q: nat)
    requires c.Valid() && q <= |mem| && SameBelow(mem, mem', q)
    ensures Served(c, mem', p, q) == Served(c, mem, p, q)
    decreases q - p
  {
    if p + c.eraseSize <= q {
      ServedSame(c, mem, mem', p + c.eraseSize, q);
      assert mem'[p..p + c.eraseSize] == mem[p..p + c.eraseSize];
    }
  }

  // ---------- blocks given up ----------

  /** How many bytes the blocks have that are recorded although the query does not object. */
  function GivenUp(c: Chip, bad: seq<int>): nat {
    if bad == [] then 0
    else GivenUp(c, bad[..|bad| - 1]) + if c.Skips(bad[|bad| - 1]) then 0 else c.eraseSize
  }

  lemma GivenUpAppend(c: Chip, bad: seq<int>, p: int)
    ensures GivenUp(c, bad + [p]) == GivenUp(c, bad) + if c.Skips(p) then 0 else c.eraseSize
  {
    assert (bad + [p])[..|bad|] == bad;
  }

  lemma {:induction false} GivenUpNone(c: Chip, bad: seq<int>)
    requires c.Valid()
    ensures GivenUp(c, bad) == 0 <==> NoneGivenUp(c, bad)
    decreases |bad|
  {
    if bad != [] {
      var front := bad[..|bad| - 1];
      GivenUpNone(c, front);
      assert NoneGivenUp(c, bad) <==> NoneGivenUp(c, front) && c.Skips(bad[|bad| - 1]);
    }
  }

  /** Between its starting offset and the block it wrote, `write_block` passed over blocks the
      reader passes over too, and over those it gave up, which the reader delivers. */
  lemma {:induction false} ServedBetween(c: Chip, f: Flash, bad: seq<int>, p: nat, data: seq<byte>, mem: seq<byte>)
    requires Fits(c, f) && |data| == c.eraseSize && |mem| == c.size && c.supported
    ensures var o := WriteFrom(c, f, bad, p, data);
            o.status == Done ==>
              && p <= o.home <= c.size && Multiple(o.home - p, c.eraseSize)
              && GivenUp(c, o.bad) == GivenUp(c, bad) + |Served(c, mem, p, o.home)|
    decreases c.size - p
  {
    hide Visit, GivenUp;
    if p + c.eraseSize <= c.size {
      var (f1, ok) := Visit(c, f, p, data);
      if !ok {
        ServedBetween(c, f1, bad + [p], p + c.eraseSize, data, mem);
        GivenUpAppend(c, bad, p);
        var o := WriteFrom(c, f1, bad + [p], p + c.eraseSize, data);
        if o.status == Done {
          MultipleUp(o.home - p - c.eraseSize, c.eraseSize);
        }
      }
    }
  }

  lemma MultipleUp(n: int, e: nat)
    requires 0 < e && Multiple(n, e) && 0 <= n
    ensures Multiple(n + e, e)
  {
  }

  /** Splitting what is served up to the end of the block at h. */
  lemma WhereItLies(c: Chip, p: nat, h: nat, mem: seq<byte>, mem': seq<byte>)
    requires c.Valid() && c.Aligned(p) && c.Aligned(h) && p <= h && h + c.eraseSize <= |mem|
    requires SameBelow(mem, mem', p)
    ensures c.Aligned(h + c.eraseSize)
    ensures Served(c, mem', 0, h + c.eraseSize)
              == Served(c, mem, 0, p) + Served(c, mem', p, h) + Served(c, mem', h, h + c.eraseSize)
  {
    var q := h + c.eraseSize;
    MultipleUp(h, c.eraseSize);
    MultipleDifference(h, p, c.eraseSize);
    ServedSplit(c, mem', 0, h, q);
    ServedSplit(c, mem', 0, p, h);
    ServedSame(c, mem, mem', 0, p);
  }

  lemma {:induction false} MultipleDifference(a: nat, b: nat, e: nat)
    requires 0 < e && Multiple(a, e) && Multiple(b, e) && b <= a
    ensures Multiple(a - b, e)
    decreases b
  {
    if b >= e {
      MultipleDifference(a - e, b - e, e);
    }
  }

  // ---------- the writer leaves what a reader serves ----------

  /** Up to the file position a reader sees the committed blocks, and one block more for each that
      was given up; if there is none, the committed blocks and nothing else. */
  ghost predicate Mirrors(c: Chip, m: Medium) {
    && Track(c, m) && c.Aligned(m.flash.pos)
    && var served := Served(c, m.flash.mem, 0, m.flash.pos);
       && |served| == |Stream(c, m)| + GivenUp(c, m.bad)
       && (GivenUp(c, m.bad) == 0 ==> served == Stream(c, m))
  }

  /** The next committed block lies at h, with the blocks given up in front of it. */
  lemma MirrorsGrow(c: Chip, m: Medium, m1: Medium, h: nat, data: seq<byte>)
    requires Mirrors(c, m) && Track(c, m1) && c.IsBlock(h) && c.Query(h) == Zero
    requires m.flash.pos <= h && m1.flash.pos == h + c.eraseSize && SameBelow(m.flash.mem, m1.flash.mem, m.flash.pos)
    requires m1.flash.mem[h..h + c.eraseSize] == data && Stream(c, m1) == Stream(c, m) + data
    requires GivenUp(c, m1.bad) == GivenUp(c, m.bad) + |Served(c, m1.flash.mem, m.flash.pos, h)|
    ensures Mirrors(c, m1)
  {
    hide Stored, GivenUp;
    var mem := m1.flash.mem;
    WhereItLies(c, m.flash.pos, h, m.flash.mem, mem);
    assert Served(c, mem, h, h + c.eraseSize) == data + [] == data;
    var between := Served(c, mem, m.flash.pos, h);
    hide Served;
    var served := Served(c, m.flash.mem, 0, m.flash.pos);
    assert Served(c, mem, 0, m1.flash.pos) == served + between + data;
    if GivenUp(c, m1.bad) == 0 {
      assert between == [] && served + [] + data == served + data;
    }
  }

  /** Where a block write has put the data. */
  lemma WrittenAt(c: Chip, m: Medium, data: seq<byte>) returns (h: nat)
    requires Fits(c, m.flash) && |data| == c.eraseSize && c.supported && WriteBlock(c, m, data).1 == Done
    ensures var m1 := WriteBlock(c, m, data).0;
            && m.flash.pos <= h && c.IsBlock(h) && c.Query(h) == Zero && m1.flash.pos == h + c.eraseSize
            && m1.flash.mem[h..h + c.eraseSize] == data && SameBelow(m.flash.mem, m1.flash.mem, m.flash.pos)
            && GivenUp(c, m1.bad) == GivenUp(c, m.bad) + |Served(c, m1.flash.mem, m.flash.pos, h)|
  {
    hide WriteFrom, Served, GivenUp;
    var f := m.flash.(clock := m.flash.clock + 1);
    var o := WriteFrom(c, f, m.bad, f.pos, data);
    WriteFromEffect(c, f, m.bad, f.pos, data);
    ServedBetween(c, f, m.bad, f.pos, data, o.flash.mem);
    h := o.home;
  }

  lemma WriteBlockMirrors(c: Chip, m: Medium, data: seq<byte>)
    requires Mirrors(c, m) && |data| == c.eraseSize && c.supported
    ensures WriteBlock(c, m, data).1 == Done ==> Mirrors(c, WriteBlock(c, m, data).0)
  {
    MirrorsFits(c, m);
    hide WriteBlock, Stored, Served, GivenUp, Mirrors, Track;
    var m1, st := WriteBlockEffect(c, m, data);
    if st == Done {
      var h := WrittenAt(c, m, data);
      MirrorsGrow(c, m, m1, h, data);
    }
  }

  lemma {:induction false} DrainMirrors(c: Chip, m: Medium, s: seq<byte>)
    requires Mirrors(c, m) && c.supported
    ensures Drain(c, m, s).2 == Done ==> Mirrors(c, Drain(c, m, s).0)
    decreases |s|
  {
    hide WriteBlock, Stored, Served, Mirrors;
    MirrorsFits(c, m);
    if |s| >= c.eraseSize {
      var blk := s[..c.eraseSize];
      WriteBlockMirrors(c, m, blk);
      var (m1, st) := WriteBlock(c, m, blk);
      if st == Done {
        DrainMirrors(c, m1, s[c.eraseSize..]);
      }
    }
  }

  lemma MirrorsFits(c: Chip, m: Medium)
    requires Mirrors(c, m)
    ensures Fits(c, m.flash) && Track(c, m)
  {
  }

  // ---------- zero padding ----------

  /** How many zeros `mtd_write_close` adds behind n bytes. */
  function PadLen(n: nat, e: nat): (k: nat)
    requires 0 < e
    ensures k < e
  {
    if n == 0 then 0 else if n <= e then e - n else PadLen(n - e, e)
  }

  function Padded(s: seq<byte>, e: nat): seq<byte>
    requires 0 < e
  {
    s + Fill(PadLen(|s|, e), 0)
  }

  lemma {:induction false} PadLenBehindBlocks(a: nat, b: nat, e: nat)
    requires 0 < e && Multiple(a, e) && b < e
    ensures PadLen(a + b, e) == if b == 0 then 0 else e - b
    decreases a
  {
    if a >= e {
      PadLenBehindBlocks(a - e, b, e);
    }
  }

  lemma {:induction false} StoredIsBlocks(mem: seq<byte>, homes: seq<int>, e: nat)
    requires 0 < e && forall i :: 0 <= i < |homes| ==> 0 <= homes[i] && homes[i] + e <= |mem|
    ensures Multiple(|Stored(mem, homes, e)|, e)
    decreases |homes|
  {
    if homes != [] {
      StoredIsBlocks(mem, homes[..|homes| - 1], e);
      MultipleUp(|Stored(mem, homes[..|homes| - 1], e)|, e);
    }
  }

  /** Advancing the clock changes nothing a reader sees. */
  lemma MirrorsLater(c: Chip, m: Medium, m': Medium)
    requires Mirrors(c, m) && Fits(c, m'.flash) && m'.homes == m.homes && m'.bad == m.bad
    requires m'.flash.mem == m.flash.mem && m'.flash.pos == m.flash.pos
    ensures Mirrors(c, m') && Stream(c, m') == Stream(c, m)
  {
    hide Served, Stored, GivenUp;
  }

  /** Closing without an error flushes and does no more to the medium. */
  lemma CloseIsFlush(c: Chip, w: Writer)
    requires Fits(c, w.medium.flash) && |w.pending| <= c.eraseSize && Close(c, w).1 == 0
    ensures var m := Close(c, w).0;
            var (w1, st) := Flush(c, w);
            && st == Done && m.homes == w1.medium.homes && m.bad == w1.medium.bad
            && m.flash.mem == w1.medium.flash.mem && m.flash.pos == w1.medium.flash.pos
  {
    hide Flush;
  }

  /** What is pending is written behind what is committed, with zeros up to a block boundary. */
  lemma FlushMirrors(c: Chip, w: Writer)
    requires Mirrors(c, w.medium) && |w.pending| < c.eraseSize && c.supported && Flush(c, w).1 == Done
    ensures var m := Flush(c, w).0.medium;
            Mirrors(c, m) && Stream(c, m) == Padded(Stream(c, w.medium) + w.pending, c.eraseSize)
  {
    hide Served, Stored, WriteBlock, GivenUp, Fill;
    var e := c.eraseSize;
    var s := Stream(c, w.medium);
    StoredIsBlocks(w.medium.flash.mem, w.medium.homes, e);
    PadLenBehindBlocks(|s|, |w.pending|, e);
    FlushEffect(c, w);
    if w.pending == [] {
      assert Fill(0, 0) == [];
      assert Padded(s + w.pending, e) == s;
    } else {
      WriteBlockMirrors(c, w.medium, w.pending + Fill(e - |w.pending|, 0));
    }
  }

  /** While the context is still open. */
  lemma WrittenMirrors(c: Chip, w: Writer, chunks: seq<seq<byte>>)
    requires Fresh(c, w) && c.supported && WriteAll(c, w, chunks).1 == Done
    ensures var w1 := WriteAll(c, w, chunks).0;
            Mirrors(c, w1.medium) && Stream(c, w1.medium) + w1.pending == Flatten(chunks) && |w1.pending| < c.eraseSize
  {
    hide Drain, WriteAll, Flatten, Stored, Served;
    var data := Flatten(chunks);
    StreamRefinement(c, w, chunks);
    CallsAreOnePass(c, w, chunks);
    assert w.pending + data == data && Stream(c, w.medium) == [] by { EmptyStored(w.medium.flash.mem, c.eraseSize); }
    assert Mirrors(c, w.medium) by { EmptyServed(c, w.medium.flash.mem); }
    DrainMirrors(c, w.medium, data);
    assert Stream(c, w.medium) + w.pending + data == data;
  }

  /** Writing the chunks and closing without an error commits exactly the padded data.  What a
      reader sees below the file position is longer by the blocks that were given up although the
      query calls them good; so it is the padded data if and only if there is no such block. */
  lemma ClosedMirrors(c: Chip, w: Writer, chunks: seq<seq<byte>>)
    requires Fresh(c, w) && c.supported
    requires WriteAll(c, w, chunks).1 == Done && Close(c, WriteAll(c, w, chunks).0).1 == 0
    ensures var m := Close(c, WriteAll(c, w, chunks).0).0;
            var padded := Padded(Flatten(chunks), c.eraseSize);
            && Mirrors(c, m) && Stream(c, m) == padded
            && |Served(c, m.flash.mem, 0, m.flash.pos)| == |padded| + GivenUp(c, m.bad)
            && (Served(c, m.flash.mem, 0, m.flash.pos) == padded <==> NoneGivenUp(c, m.bad))
  {
    var w1 := WriteAll(c, w, chunks).0;
    var m := Close(c, w1).0;
    assert Mirrors(c, m) && Stream(c, m) == Padded(Flatten(chunks), c.eraseSize) by {
      hide WriteAll, Flatten, Flush, Close, Mirrors;
      CloseIsFlush(c, w1);
      WrittenMirrors(c, w, chunks);
      FlushMirrors(c, w1);
      MirrorsLater(c, Flush(c, w1).0.medium, m);
    }
    hide WriteAll, Flatten, Close, Served, Stored, GivenUp, NoneGivenUp, Padded;
    GivenUpNone(c, m.bad);
  }

  lemma EmptyStored(mem: seq<byte>, e: nat)
    ensures Stored(mem, [], e) == []
  {
  }

  lemma EmptyServed(c: Chip, mem: seq<byte>)
    requires c.Valid()
    ensures Served(c, mem, 0, 0) == []
  {
  }
}
