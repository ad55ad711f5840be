/** What was written through flash/src/mtd_flash.c is what is read back through it, and exactly when
    it is not. */
module MtdRoundTrip {
  import opened Bytes
  import opened MtdChip
  import opened MtdWriteSpec
  import opened MtdStream
  import opened MtdCapacity
  import opened MtdMirror
  import opened MtdReadSpec
  import opened MtdReadTrace

  // ---------- a reader without faults delivers what is served ----------

  /** From device call t on, no call fails and no read adds an ECC failure. */
  ghost predicate QuietFrom(c: Chip, t: nat) {
    forall u: nat :: t <= u ==> c.fault(u).seekOk && c.fault(u).ok && c.fault(u).ecc == 0
  }

  /** One round of the loop without faults: the block is read and its answer decides. */
  lemma QuietRound(c: Chip, f: Flash, p: nat)
    requires Fits(c, f) && QuietFrom(c, f.clock) && p + c.eraseSize <= c.size
    ensures var f1 := Flash(f.mem, p + c.eraseSize, f.clock + 2, f.ecc);
            ReadFrom(c, f, f.ecc, p) ==
              if c.Query(p) == Zero then (f1, Some(p)) else ReadFrom(c, f1, f1.ecc, p + c.eraseSize)
  {
    assert c.fault(f.clock).ok && c.fault(f.clock + 1).ok;
  }

  lemma {:induction false} ReadFromQuiet(c: Chip, f: Flash, p: nat)
    requires Fits(c, f) && QuietFrom(c, f.clock) && p <= c.size
    ensures var (f1, home) := ReadFrom(c, f, f.ecc, p);
            && f.clock <= f1.clock
            && Served(c, f.mem, p, c.size) ==
               if home == None then []
               else f.mem[home.value..home.value + c.eraseSize] + Served(c, f.mem, home.value + c.eraseSize, c.size)
    decreases c.size - p
  {
    hide ReadRound;
    if p + c.eraseSize <= c.size {
      hide ReadFrom, QuietFrom;
      QuietRound(c, f, p);
      QuietLater(c, f.clock, f.clock + 2);
      var f1 := Flash(f.mem, p + c.eraseSize, f.clock + 2, f.ecc);
      if c.Query(p) != Zero {
        ReadFromQuiet(c, f1, p + c.eraseSize);
      }
    }
  }

  lemma QuietLater(c: Chip, t: nat, u: nat)
    requires QuietFrom(c, t) && t <= u
    ensures QuietFrom(c, u)
  {
  }

  lemma ReadBlockQuiet(c: Chip, f: Flash)
    requires Fits(c, f) && QuietFrom(c, f.clock)
    ensures var (f1, home) := ReadBlock(c, f);
            && f.clock <= f1.clock
            && Served(c, f.mem, f.pos, c.size) ==
               if home == None then []
               else f.mem[home.value..home.value + c.eraseSize] + Served(c, f.mem, f1.pos, c.size)
  {
    hide Served, ReadFrom;
    assert c.fault(f.clock).ok;
    ReadFromQuiet(c, f.(clock := f.clock + 1), f.pos);
  }

  /** A read without faults succeeds exactly if so many bytes are there, delivers the next ones,
      and leaves the others for later. */
  lemma {:induction false} TakeQuiet(c: Chip, r: Reader, n: nat)
    requires Fits(c, r.flash) && QuietFrom(c, r.flash.clock)
    ensures var there := r.left + Served(c, r.flash.mem, r.flash.pos, c.size);
            var (r1, out) := Take(c, r, n);
            && (out == None <==> |there| < n)
            && (out != None ==>
                  && out.value == there[..n]
                  && r1.left + Served(c, r.flash.mem, r1.flash.pos, c.size) == there[n..]
                  && r.flash.clock <= r1.flash.clock)
    decreases n - |r.left|
  {
    hide Served, ReadBlock, QuietFrom;
    var there := r.left + Served(c, r.flash.mem, r.flash.pos, c.size);
    if |r.left| < n {
      ReadBlockQuiet(c, r.flash);
      var (f, home) := ReadBlock(c, r.flash);
      if home != None {
        var blk := f.mem[home.value..home.value + c.eraseSize];
        var r2 := Reader(f, r.left + blk, r.homes + [home.value]);
        QuietLater(c, r.flash.clock, f.clock);
        assert there == r2.left + Served(c, r.flash.mem, r2.flash.pos, c.size);
        TakeQuiet(c, r2, n);
      }
    }
  }

  // ---------- a reader that meets faults only where they do not matter ----------

  /** In every run from f, as long as blocks below q are left, no ECCGETSTATS fails, and every round
      at a block the query calls good delivers it.  Reads of other blocks may fail. */
  ghost predicate CleanBelow(c: Chip, f: Flash, q: nat) {
    forall looks: seq<Look> :: Trace(c, f, looks) ==>
      && (forall i :: 0 <= i < |looks| && looks[i].at + c.eraseSize <= q && c.Query(looks[i].at) == Zero ==>
            Delivers(c, looks, i))
      && (Upcoming(c, f, looks).at + c.eraseSize <= q ==> !Stops(c, f, looks))
  }

  /** One round below q: a good block ends the call, any other one does not. */
  lemma CleanRound(c: Chip, f0: Flash, looks: seq<Look>, f: Flash, base: nat, p: nat, q: nat)
    returns (mid: seq<Look>, f1: Flash, base1: nat)
    requires Fits(c, f) && Trace(c, f0, looks) && Upcoming(c, f0, looks) == Look(p, f.clock)
    requires f.ecc == base + Backlog(c, looks, |looks|)
    requires CleanBelow(c, f0, q) && p + c.eraseSize <= q <= c.size
    ensures Fits(c, f1) && f1.mem == f.mem && Trace(c, f0, mid)
    ensures if c.Query(p) == Zero then ReadFrom(c, f, base, p) == (f1, Some(p)) && f1.pos == p + c.eraseSize
            else p + 2 * c.eraseSize <= q ==>
                   && Upcoming(c, f0, mid) == Look(p + c.eraseSize, f1.clock)
                   && f1.ecc == base1 + Backlog(c, mid, |mid|)
                   && ReadFrom(c, f, base, p) == ReadFrom(c, f1, base1, p + c.eraseSize)
  {
    hide Trace, Backlog, Reads, Own, Upcoming, Delivers, ReadFrom;
    mid := OneMoreLook(c, f0, looks);
    LastLook(c, f0, mid);
    f1 := ReadFromRound(c, f, base, p);
    var l := Look(p, f.clock);
    assert mid[|looks|] == l;
    base1 := if Reads(c, l) then f1.ecc else base;
    CleanLast(c, f0, mid, q);
  }

  lemma CleanLast(c: Chip, f0: Flash, looks: seq<Look>, q: nat)
    requires CleanBelow(c, f0, q) && Trace(c, f0, looks) && looks != []
    ensures var i := |looks| - 1;
            looks[i].at + c.eraseSize <= q && c.Query(looks[i].at) == Zero ==> Delivers(c, looks, i)
    ensures Upcoming(c, f0, looks).at + c.eraseSize <= q ==> !Stops(c, f0, looks)
  {
    hide Trace, Delivers, Stops;
  }

  lemma SomethingServed(c: Chip, mem: seq<byte>, p: nat, q: nat)
    requires c.Valid() && q <= |mem| && Served(c, mem, p, q) != []
    ensures p + c.eraseSize <= q
  {
  }

  /** The ECCGETSTATS at the start of a `read_block` succeeds while blocks below q are left. */
  lemma CleanStats(c: Chip, f0: Flash, looks: seq<Look>, q: nat)
    requires CleanBelow(c, f0, q) && Trace(c, f0, looks) && (looks == [] || Delivers(c, looks, |looks| - 1))
    requires Upcoming(c, f0, looks).at + c.eraseSize <= q
    ensures c.fault(Upcoming(c, f0, looks).clock - 1).ok
  {
    hide Trace, Delivers;
    assert !Stops(c, f0, looks);
  }

  /** t is the first block served from p on, with the file position behind it. */
  ghost predicate Fetches(c: Chip, mem: seq<byte>, p: nat, q: nat, t: (Flash, Option<nat>))
    requires c.Valid() && q <= |mem|
  {
    && t.1 != None && t.1.value + c.eraseSize == t.0.pos <= q
    && Served(c, mem, p, q) == mem[t.1.value..t.0.pos] + Served(c, mem, t.0.pos, q)
  }

  lemma FetchesHere(c: Chip, mem: seq<byte>, p: nat, q: nat, f: Flash)
    requires c.Valid() && p + c.eraseSize <= q <= |mem| && c.Query(p) == Zero && f.pos == p + c.eraseSize
    ensures Fetches(c, mem, p, q, (f, Some(p)))
  {
  }

  lemma NothingHere(c: Chip, mem: seq<byte>, p: nat, q: nat)
    requires c.Valid() && p + c.eraseSize <= q <= |mem| && c.Query(p) != Zero
    ensures Served(c, mem, p, q) == Served(c, mem, p + c.eraseSize, q)
  {
  }

  lemma {:induction false} ReadFromClean(
      c: Chip, f0: Flash, looks: seq<Look>, f: Flash, base: nat, p: nat, q: nat)
    requires Fits(c, f) && Trace(c, f0, looks) && Upcoming(c, f0, looks) == Look(p, f.clock)
    requires f.ecc == base + Backlog(c, looks, |looks|)
    requires CleanBelow(c, f0, q) && q <= c.size && Served(c, f.mem, p, q) != []
    ensures Fetches(c, f.mem, p, q, ReadFrom(c, f, base, p))
    decreases c.size - p
  {
    hide Trace, Backlog, Upcoming, CleanBelow, ReadFrom, Served, Fetches;
    SomethingServed(c, f.mem, p, q);
    var mid, f1, base1 := CleanRound(c, f0, looks, f, base, p, q);
    if c.Query(p) == Zero {
      FetchesHere(c, f.mem, p, q, f1);
    } else {
      NothingHere(c, f.mem, p, q);
      SomethingServed(c, f.mem, p + c.eraseSize, q);
      ReadFromClean(c, f0, mid, f1, base1, p + c.eraseSize, q);
      FetchesLater(c, f.mem, p, q, ReadFrom(c, f, base, p));
    }
  }

  lemma FetchesLater(c: Chip, mem: seq<byte>, p: nat, q: nat, t: (Flash, Option<nat>))
    requires c.Valid() && p + c.eraseSize <= q <= |mem| && c.Query(p) != Zero
    requires Fetches(c, mem, p + c.eraseSize, q, t)
    ensures Fetches(c, mem, p, q, t)
  {
    NothingHere(c, mem, p, q);
  }

  lemma ReadBlockClean(c: Chip, f0: Flash, looks: seq<Look>, r: Reader, q: nat)
    requires Follows(c, f0, looks, r) && CleanBelow(c, f0, q) && q <= c.size
    requires Served(c, r.flash.mem, r.flash.pos, q) != []
    ensures Fetches(c, r.flash.mem, r.flash.pos, q, ReadBlock(c, r.flash))
  {
    hide Trace, Backlog, Delivers, Delivered, Upcoming, ReadFrom, Served, CleanBelow, Fetches;
    SomethingServed(c, r.flash.mem, r.flash.pos, q);
    CleanStats(c, f0, looks, q);
    var (f1, before) := EccStats(c, r.flash);
    DeliveredClears(c, looks);
    ReadFromClean(c, f0, looks, f1, before.value, f1.pos, q);
  }

  /** Within what is served below q, a read then succeeds and delivers the next bytes. */
  lemma {:induction false} TakeClean(c: Chip, f0: Flash, looks: seq<Look>, r: Reader, n: nat, q: nat)
    requires Fits(c, r.flash) && Follows(c, f0, looks, r) && CleanBelow(c, f0, q) && q <= c.size
    requires n <= |r.left + Served(c, r.flash.mem, r.flash.pos, q)|
    ensures Take(c, r, n).1 == Some((r.left + Served(c, r.flash.mem, r.flash.pos, q))[..n])
    decreases n - |r.left|
  {
    hide Served, ReadBlock, CleanBelow, Trace, Delivered, Upcoming, Delivers;
    if |r.left| >= n {
      assert (r.left + Served(c, r.flash.mem, r.flash.pos, q))[..n] == r.left[..n];
    } else {
      ReadBlockClean(c, f0, looks, r, q);
      var more := ReadBlockTrace(c, f0, looks, r);
      var (f, home) := ReadBlock(c, r.flash);
      var blk := f.mem[home.value..home.value + c.eraseSize];
      var r2 := Reader(f, r.left + blk, r.homes + [home.value]);
      assert r.left + Served(c, r.flash.mem, r.flash.pos, q) == r2.left + Served(c, f.mem, f.pos, q);
      TakeClean(c, f0, more, r2, n, q);
    }
  }

  /** A reader without faults is such a reader. */
  lemma QuietIsClean(c: Chip, f: Flash, q: nat)
    requires QuietFrom(c, f.clock) && q <= c.size
    ensures CleanBelow(c, f, q)
  {
    hide Trace, Delivers, Stops, QuietFrom;
    forall looks: seq<Look> | Trace(c, f, looks)
      ensures (forall i :: 0 <= i < |looks| && looks[i].at + c.eraseSize <= q && c.Query(looks[i].at) == Zero ==>
                 Delivers(c, looks, i))
      ensures Upcoming(c, f, looks).at + c.eraseSize <= q ==> !Stops(c, f, looks)
    {
      forall i | 0 <= i < |looks| && c.Query(looks[i].at) == Zero ensures Delivers(c, looks, i) {
        QuietDelivers(c, f, looks, i);
      }
      QuietGoesOn(c, f, looks);
    }
  }

  lemma {:induction false} QuietDelivers(c: Chip, f: Flash, looks: seq<Look>, i: nat)
    requires QuietFrom(c, f.clock) && Trace(c, f, looks) && i < |looks|
    ensures looks[i].clock > f.clock && Backlog(c, looks, i) == 0
    ensures c.Query(looks[i].at) == Zero ==> Delivers(c, looks, i)
    decreases i
  {
    if i > 0 {
      QuietDelivers(c, f, looks, i - 1);
      assert looks[i] == NextLook(c, looks, i - 1);
    }
    var t := looks[i].clock;
    assert c.fault(t).ok && c.fault(t + 1).ok;
  }

  lemma QuietGoesOn(c: Chip, f: Flash, looks: seq<Look>)
    requires QuietFrom(c, f.clock) && Trace(c, f, looks)
    ensures Upcoming(c, f, looks).at + c.eraseSize <= c.size ==> !Stops(c, f, looks)
  {
    hide Trace, Delivers;
    if looks != [] {
      QuietDelivers(c, f, looks, |looks| - 1);
    }
    var t := Upcoming(c, f, looks).clock;
    assert c.fault(t - 1).ok;
    assert looks != [] ==> c.fault(looks[|looks| - 1].clock + 1).ok;
  }

  // ---------- round trip ----------

  /** Round trip.  Whatever calls wrote the data and whatever faults they ran into, if they and
      the close succeeded and the bad-block query is supported, then a reader that meets faults at
      most where they do not matter delivers what is served below the closing position, to any
      sequence of reads within its length.  That is the data, followed by zeros up to a block
      boundary, if and only if no block the query calls good was given up. */
  lemma RoundTrip(c: Chip, w: Writer, chunks: seq<seq<byte>>, f: Flash, lens: seq<nat>)
    requires Fresh(c, w) && c.supported
    requires WriteAll(c, w, chunks).1 == Done
    requires var (m, r) := Close(c, WriteAll(c, w, chunks).0);
             r == 0 && f.mem == m.flash.mem && CleanBelow(c, f, m.flash.pos)
    requires Fits(c, f) && f.pos == 0
    requires Sum(lens) <= |Padded(Flatten(chunks), c.eraseSize)| + GivenUp(c, Close(c, WriteAll(c, w, chunks).0).0.bad)
    ensures var m := Close(c, WriteAll(c, w, chunks).0).0;
            var padded := Padded(Flatten(chunks), c.eraseSize);
            var served := Served(c, f.mem, 0, m.flash.pos);
            && |served| == |padded| + GivenUp(c, m.bad) && (served == padded <==> NoneGivenUp(c, m.bad))
            && ReadAll(c, Reader(f, [], []), lens).1 == Some(served[..Sum(lens)])
  {
    hide WriteAll, Flatten, Close, Served, Stored, Take, ReadAll, CleanBelow, Padded, GivenUp, NoneGivenUp;
    var m := Close(c, WriteAll(c, w, chunks).0).0;
    ClosedMirrors(c, w, chunks);
    ReadsAreConsecutive(c, Reader(f, [], []), lens);
    FreshFollows(c, f);
    var served := Served(c, f.mem, 0, m.flash.pos);
    assert [] + served == served;
    TakeClean(c, f, [], Reader(f, [], []), Sum(lens), m.flash.pos);
  }

  /** So the data comes back, whenever no block the query calls good was given up. */
  lemma DataComesBack(c: Chip, w: Writer, chunks: seq<seq<byte>>, f: Flash, lens: seq<nat>)
    requires Fresh(c, w) && c.supported
    requires WriteAll(c, w, chunks).1 == Done
    requires var (m, r) := Close(c, WriteAll(c, w, chunks).0);
             r == 0 && NoneGivenUp(c, m.bad) && f.mem == m.flash.mem && CleanBelow(c, f, m.flash.pos)
    requires Fits(c, f) && f.pos == 0
    requires Sum(lens) <= |Padded(Flatten(chunks), c.eraseSize)|
    ensures ReadAll(c, Reader(f, [], []), lens).1 == Some(Padded(Flatten(chunks), c.eraseSize)[..Sum(lens)])
  {
    hide WriteAll, Flatten, Close, Served, ReadAll, CleanBelow, Padded, GivenUp, NoneGivenUp;
    RoundTrip(c, w, chunks, f, lens);
  }

  /** In particular, on a dependable partition with enough good blocks the calls and the close do
      succeed, so whatever fits comes back. */
  lemma RoundTripWhenDependable(c: Chip, w: Writer, chunks: seq<seq<byte>>, f: Flash, lens: seq<nat>)
    requires Fresh(c, w) && Dependable(c, w.medium.flash.clock) && c.supported
    requires BlocksNeeded(|Flatten(chunks)|, c.eraseSize) <= GoodFrom(c, 0)
    requires c.fault(EraseBlocks(c, WriteAll(c, w, chunks).0, 0).0.medium.flash.clock).ok
    requires var m := Close(c, WriteAll(c, w, chunks).0).0; f.mem == m.flash.mem && CleanBelow(c, f, m.flash.pos)
    requires Fits(c, f) && f.pos == 0
    requires Sum(lens) <= |Padded(Flatten(chunks), c.eraseSize)|
    ensures ReadAll(c, Reader(f, [], []), lens).1 == Some(Padded(Flatten(chunks), c.eraseSize)[..Sum(lens)])
  {
    hide WriteAll, Flatten, Close, EraseBlocks, ReadAll, Dependable, CleanBelow;
    CapacityWhenDependable(c, w, chunks);
    DataComesBack(c, w, chunks, f, lens);
  }

  /** On a device whose driver does not implement the bad-block query the writer takes every
      block for good and the reader every block for bad: no byte can be read, whatever else the
      device answers. */
  lemma NothingReadableWithoutQuery(c: Chip, f: Flash, n: nat)
    requires Fits(c, f) && !c.supported && 0 < n
    ensures Take(c, Reader(f, [], []), n).1 == None
  {
    hide ReadBlock;
  }

  /** So reading back what was written works if and only if the bad-block query is supported. */
  lemma RoundTripIffQuerySupported(c: Chip, w: Writer, chunks: seq<seq<byte>>, f: Flash)
    requires Fresh(c, w) && Flatten(chunks) != []
    requires WriteAll(c, w, chunks).1 == Done
    requires var (m, r) := Close(c, WriteAll(c, w, chunks).0);
             r == 0 && NoneGivenUp(c, m.bad) && f.mem == m.flash.mem && CleanBelow(c, f, m.flash.pos)
    requires Fits(c, f) && f.pos == 0
    ensures Take(c, Reader(f, [], []), |Flatten(chunks)|).1 == Some(Flatten(chunks)) <==> c.supported
  {
    hide WriteAll, Flatten, Close, Take, CleanBelow, NoneGivenUp;
    var data := Flatten(chunks);
    if c.supported {
      assert Sum([|data|]) == |data|;
      DataComesBack(c, w, chunks, f, [|data|]);
      ReadsAreConsecutive(c, Reader(f, [], []), [|data|]);
      assert Padded(data, c.eraseSize)[..|data|] == data;
    } else {
      NothingReadableWithoutQuery(c, f, |data|);
    }
  }

  // ---------- both cases occur ----------

  /** A partition of one block of one byte, without faults, with or without the query. */
  function Tiny(supported: bool): (c: Chip) {
    Chip(1, 1, supported, _ => Good, _ => Fault(true, true, true, 0, [], 0))
  }

  /** Writing one byte to it. */
  lemma OneByteIsWritten(supported: bool, f: Flash, x: byte)
    requires f == Flash([0], 0, 0, 0)
    ensures Fits(Tiny(supported), f)
    ensures WriteBlock(Tiny(supported), Medium(f, [], []), [x]) == (Medium(Flash([x], 1, 4, 0), [], [0]), Done)
  {
    hide Fill, Scar;
    var c := Tiny(supported);
    assert Multiple(1, 1) == Multiple(0, 1);
    assert c.IsBlock(0) && !c.Skips(0);
    var f1 := f.(clock := 1);
    var (e, erased) := Erase(c, f1, 0);
    assert erased && |e.mem| == 1;
    assert Put(e.mem, 0, [x]) == [x];
    var f4 := Flash([x], 1, 4, 0);
    assert Attempt(c, f1, 0, [x]) == (f4, true);
    hide Attempt, Erase, SeekWrite, SeekRead;
    assert TryBlock(c, f1, 0, [x], ATTEMPTS) == (f4, true);
    assert WriteFrom(c, f1, [], 0, [x]) == Outcome(f4, [], 0, Done);
    assert [] + [0] == [0];
  }

  /** The byte is written and the context closed without an error, whether or not the query is
      supported. */
  lemma OneByteIsClosed(supported: bool, f: Flash, x: byte)
    requires f == Flash([0], 0, 0, 0)
    ensures var c := Tiny(supported);
            var w := Writer(Medium(f, [], []), []);
            && Fresh(c, w) && WriteAll(c, w, [[x]]).1 == Done && Flatten([[x]]) == [x]
            && var (m, r) := Close(c, WriteAll(c, w, [[x]]).0);
               r == 0 && NoneGivenUp(c, m.bad) && QuietFrom(c, m.flash.clock) && m.flash == Flash([x], 1, 6, 0)
  {
    hide WriteBlock, WriteAll, Close, Flatten;
    OneByteIsWritten(supported, f, x);
    OneCall(Tiny(supported), f, x);
    NothingPending(Tiny(supported), Medium(Flash([x], 1, 4, 0), [], [0]));
  }

  lemma OneCall(c: Chip, f: Flash, x: byte)
    requires Fits(c, f) && c.eraseSize == 1 && WriteBlock(c, Medium(f, [], []), [x]).1 == Done
    ensures var m := WriteBlock(c, Medium(f, [], []), [x]).0;
            WriteAll(c, Writer(Medium(f, [], []), []), [[x]]) == (Writer(m, []), Done) && Flatten([[x]]) == [x]
  {
    hide WriteBlock;
    var m0, m1 := Medium(f, [], []), WriteBlock(c, Medium(f, [], []), [x]).0;
    assert [x][..1] == [x] && [x][1..] == [] && [] + [x] == [x];
    assert Drain(c, m0, [x]) == Drain(c, m1, []) == (m1, [], Done);
    hide Drain;
    assert WriteData(c, Writer(m0, []), [x]) == (Writer(m1, []), Done);
    hide WriteData;
    assert [[x]][1..] == [] && Flatten([[x]]) == [x] + Flatten([]) == [x];
    assert WriteAll(c, Writer(m1, []), []) == (Writer(m1, []), Done);
  }

  lemma NothingPending(c: Chip, m: Medium)
    requires Fits(c, m.flash) && QuietFrom(c, m.flash.clock)
    ensures Close(c, Writer(m, [])) == (m.(flash := m.flash.(clock := m.flash.clock + 2)), 0)
  {
    var w := Writer(m, []);
    assert Flush(c, w) == (w, Done);
    assert c.fault(m.flash.clock).seekOk && c.fault(m.flash.clock + 1).ok;
    hide Flush, QuietFrom;
    var f := m.flash.(clock := m.flash.clock + 1);
    assert EraseFrom(c, f, f.pos, 0) == f;
    assert EraseBlocks(c, w, 0) == (Writer(m.(flash := f), []), f.pos);
  }

  /** With the query the byte comes back, without it nothing does. */
  lemma OneByteComesBack(supported: bool, f: Flash, x: byte)
    requires f == Flash([0], 0, 0, 0)
    ensures var c := Tiny(supported);
            var w := Writer(Medium(f, [], []), []);
            && Fresh(c, w) && WriteAll(c, w, [[x]]).1 == Done
            && var (m, r) := Close(c, WriteAll(c, w, [[x]]).0);
               r == 0 && NoneGivenUp(c, m.bad) && QuietFrom(c, m.flash.clock) && m.flash.mem == [x]
               && Take(c, Reader(m.flash.(pos := 0), [], []), 1).1 == if supported then Some([x]) else None
  {
    OneByteIsClosed(supported, f, x);
    hide WriteAll, Close, Take, Flatten;
    var c := Tiny(supported);
    var f0 := Flash([x], 0, 6, 0);
    if supported {
      QuietIsClean(c, f0, 1);
      RoundTripIffQuerySupported(c, Writer(Medium(f, [], []), []), [[x]], f0);
    } else {
      NothingReadableWithoutQuery(c, f0, 1);
    }
  }

  // ---------- a block that goes bad in use ----------

  /** Two blocks of one byte, both good for the query; the first two erases fail. */
  function GoesBad(): (c: Chip) {
    Chip(1, 2, true, _ => Good, t => Fault(true, t != 1 && t != 2, true, 0, [], 0))
  }

  lemma FirstBlockIsGivenUp(f: Flash, x: byte)
    requires Fits(GoesBad(), f) && f.pos == 0 && f.clock == 1 && f.ecc == 0
    ensures Visit(GoesBad(), f, 0, [x]) == (Flash([0xFF, f.mem[1]], 0, 4, 0), false)
  {
    var c := GoesBad();
    assert c.IsBlock(0) by { assert Multiple(0, 1); }
    var f2 := Erase(c, f, 0).0;
    var f3 := Erase(c, f2, 0).0;
    assert Attempt(c, f, 0, [x]) == (f2, false) && Attempt(c, f2, 0, [x]) == (f3, false);
    var f4 := Erase(c, f3, 0).0;
    assert f4.mem == [0xFF, f.mem[1]];
    hide Attempt, Erase;
    assert TryBlock(c, f3, 0, [x], 0) == (f4, false);
    assert TryBlock(c, f2, 0, [x], 1) == (f4, false);
    assert TryBlock(c, f, 0, [x], ATTEMPTS) == (f4, false) && !c.Skips(0);
  }

  lemma SecondBlockVerifies(f: Flash, x: byte)
    requires Fits(GoesBad(), f) && f.pos == 0 && f.clock == 4 && f.ecc == 0
    ensures Visit(GoesBad(), f, 1, [x]) == (Flash([f.mem[0], x], 2, 7, 0), true)
  {
    var c := GoesBad();
    assert c.IsBlock(1) by { assert Multiple(1, 1) == Multiple(0, 1); }
    var (f5, erased) := Erase(c, f, 1);
    assert erased && f5.pos == 0 && f5.clock == 5 && f5.ecc == 0 && Put(f5.mem, 1, [x]) == [f.mem[0], x];
    hide Erase;
    assert Attempt(c, f, 1, [x]) == (Flash([f.mem[0], x], 2, 7, 0), true);
    hide Attempt;
    assert !c.Skips(1);
  }

  lemma GoesBadIs()
    ensures var c := GoesBad(); c.eraseSize == 1 && c.size == 2 && c.fault(0).seekOk
  {
  }

  /** `write_block` gives up the first block and writes the second. */
  lemma SecondBlockIsWritten(f: Flash, x: byte)
    requires Fits(GoesBad(), f) && f.pos == 0 && f.clock == 0 && f.ecc == 0
    ensures WriteBlock(GoesBad(), Medium(f, [], []), [x]) == (Medium(Flash([0xFF, x], 2, 7, 0), [0], [1]), Done)
  {
    hide Visit, WriteBlock, GoesBad, Multiple;
    GoesBadIs();
    var c := GoesBad();
    var f1 := f.(clock := 1);
    FirstBlockIsGivenUp(f1, x);
    var f4 := Visit(c, f1, 0, [x]).0;
    SecondBlockVerifies(f4, x);
    var f7 := Visit(c, f4, 1, [x]).0;
    assert f4.mem[0] == 0xFF;
    SecondBlockTaken(c, f, f4, f7, [x]);
  }

  lemma SecondBlockTaken(c: Chip, f: Flash, f1: Flash, f2: Flash, data: seq<byte>)
    requires Fits(c, f) && Fits(c, f1) && c.eraseSize == 1 && c.size == 2 && |data| == 1
    requires f.pos == 0 && c.fault(f.clock).seekOk
    requires Visit(c, f.(clock := f.clock + 1), 0, data) == (f1, false) && Visit(c, f1, 1, data) == (f2, true)
    ensures WriteBlock(c, Medium(f, [], []), data) == (Medium(f2, [0], [1]), Done)
  {
    hide Visit;
    assert [] + [0] == [0] && [] + [1] == [1];
    assert WriteFrom(c, f1, [0], 1, data) == Outcome(f2, [0], 1, Done);
    assert WriteFrom(c, f.(clock := f.clock + 1), [], 0, data) == Outcome(f2, [0], 1, Done);
  }

  /** The write and the close succeed, yet a reader without faults delivers the block given up in
      front of the data. */
  lemma GivenUpComesBack(f: Flash, x: byte)
    requires Fits(GoesBad(), f) && f.pos == 0 && f.clock == 0 && f.ecc == 0
    ensures var c := GoesBad();
            var w := Writer(Medium(f, [], []), []);
            && Fresh(c, w) && WriteAll(c, w, [[x]]).1 == Done && Flatten([[x]]) == [x]
            && var (m, r) := Close(c, WriteAll(c, w, [[x]]).0);
               && r == 0 && !NoneGivenUp(c, m.bad) && QuietFrom(c, m.flash.clock)
               && ReadAll(c, Reader(m.flash.(pos := 0), [], []), [2]).1 == Some([0xFF, x])
  {
    hide WriteBlock, WriteAll, Close, Flatten, ReadAll;
    var c := GoesBad();
    SecondBlockIsWritten(f, x);
    OneCall(c, f, x);
    var m0 := Medium(Flash([0xFF, x], 2, 7, 0), [0], [1]);
    NothingPending(c, m0);
    var w := Writer(Medium(f, [], []), []);
    var m := Close(c, WriteAll(c, w, [[x]]).0).0;
    assert m == m0.(flash := Flash([0xFF, x], 2, 9, 0));
    assert !NoneGivenUp(c, m.bad) by { assert !c.Skips(m.bad[0]); }
    var f9 := m.flash.(pos := 0);
    QuietIsClean(c, f9, 2);
    var padded := Padded([x], 1);
    assert |padded| == 1 by { assert PadLen(1, 1) == 0; }
    assert GivenUp(c, [0]) == 1 by { GivenUpAppend(c, [], 0); assert [] + [0] == [0]; }
    assert Sum([2]) == 2;
    RoundTrip(c, w, [[x]], f9, [2]);
    TwoServed(c, f9.mem);
  }

  lemma TwoServed(c: Chip, mem: seq<byte>)
    requires c.Valid() && c.eraseSize == 1 && |mem| == 2 && c.Query(0) == c.Query(1) == Zero
    ensures Served(c, mem, 0, 2) == mem == mem[..2]
  {
    assert Served(c, mem, 1, 2) == [mem[1]];
  }
}
