/** Which blocks the read half of flash/src/mtd_flash.c delivers and which it skips, whatever the
    device answers: the rounds of `read_block` over a whole run, and an exact condition for each
    of them. */
module MtdReadTrace {
  import opened Bytes
  import opened MtdChip
  import opened MtdReadSpec

  /** One round of the loop of `read_block`: the block it reads, and which device call reads it. */
  datatype Look = Look(at: nat, clock: nat)

  /** The read succeeds. */
  predicate Reads(c: Chip, l: Look) {
    c.fault(l.clock).seekOk && c.fault(l.clock).ok
  }

  /** How many ECC failures the read adds to the driver's count; a failing one may add some. */
  function Own(c: Chip, l: Look): nat {
    if c.fault(l.clock).seekOk then c.fault(l.clock).ecc else 0
  }

  /** ECC failures not yet accounted for when round i starts: those that failed reads have counted
      since the last read that succeeded. */
  function Backlog(c: Chip, looks: seq<Look>, i: nat): nat
    requires i <= |looks|
  {
    if i == 0 || Reads(c, looks[i - 1]) then 0 else Backlog(c, looks, i - 1) + Own(c, looks[i - 1])
  }

  /** Round i delivers its block: the read succeeds, ECCGETSTATS behind it does, no ECC failure is
      unaccounted for, and the bad-block query returns 0. */
  predicate Delivers(c: Chip, looks: seq<Look>, i: nat)
    requires i < |looks|
  {
    && Reads(c, looks[i]) && c.fault(looks[i].clock + 1).ok
    && Backlog(c, looks, i) + Own(c, looks[i]) == 0
    && c.Query(looks[i].at) == Zero
  }

  /** The round after round i: the next block.  Behind the read comes ECCGETSTATS if it succeeded,
      and once more, by the next `read_block`, if the block was delivered. */
  function NextLook(c: Chip, looks: seq<Look>, i: nat): Look
    requires i < |looks|
  {
    var l := looks[i];
    Look(l.at + c.eraseSize, l.clock + if !Reads(c, l) then 1 else if Delivers(c, looks, i) then 3 else 2)
  }

  /** The rounds of a run that starts in state f: every block from the file position on, in order. */
  ghost predicate Trace(c: Chip, f: Flash, looks: seq<Look>) {
    && (looks != [] ==> looks[0] == Look(f.pos, f.clock + 1))
    && forall i :: 0 < i < |looks| ==> looks[i] == NextLook(c, looks, i - 1)
  }

  /** The round that would follow. */
  function Upcoming(c: Chip, f: Flash, looks: seq<Look>): Look {
    if looks == [] then Look(f.pos, f.clock + 1) else NextLook(c, looks, |looks| - 1)
  }

  /** The blocks the first n rounds deliver. */
  function Delivered(c: Chip, looks: seq<Look>, n: nat): seq<int>
    requires n <= |looks|
  {
    if n == 0 then []
    else Delivered(c, looks, n - 1) + if Delivers(c, looks, n - 1) then [looks[n - 1].at as int] else []
  }

  lemma {:induction false} BacklogOfPrefix(c: Chip, looks: seq<Look>, l: Look, i: nat)
    requires i <= |looks|
    ensures Backlog(c, looks + [l], i) == Backlog(c, looks, i)
    ensures i < |looks| ==> Delivers(c, looks + [l], i) == Delivers(c, looks, i)
  {
    if i > 0 {
      BacklogOfPrefix(c, looks, l, i - 1);
    }
  }

  lemma {:induction false} DeliveredOfPrefix(c: Chip, looks: seq<Look>, l: Look, n: nat)
    requires n <= |looks|
    ensures Delivered(c, looks + [l], n) == Delivered(c, looks, n)
  {
    hide Delivers;
    if n > 0 {
      DeliveredOfPrefix(c, looks, l, n - 1);
      BacklogOfPrefix(c, looks, l, n - 1);
    }
  }

  /** One more round. */
  lemma OneMoreLook(c: Chip, f: Flash, looks: seq<Look>) returns (more: seq<Look>)
    requires Trace(c, f, looks)
    ensures more == looks + [Upcoming(c, f, looks)] && Trace(c, f, more)
    ensures Backlog(c, more, |looks|) == Backlog(c, looks, |looks|)
    ensures Delivered(c, more, |more|)
              == Delivered(c, looks, |looks|) + if Delivers(c, more, |looks|) then [more[|looks|].at as int] else []
  {
    hide Delivers, Backlog;
    var l := Upcoming(c, f, looks);
    more := looks + [l];
    forall i | 0 <= i < |looks| ensures NextLook(c, more, i) == NextLook(c, looks, i) {
      BacklogOfPrefix(c, looks, l, i);
    }
    BacklogOfPrefix(c, looks, l, |looks|);
    DeliveredOfPrefix(c, looks, l, |looks|);
  }

  /** The run ends here: there is no further block, or an ECCGETSTATS fails, that at the start of
      a `read_block` or that behind a read. */
  predicate Stops(c: Chip, f: Flash, looks: seq<Look>) {
    || Upcoming(c, f, looks).at + c.eraseSize > c.size
    || (looks != [] && Reads(c, looks[|looks| - 1]) && !c.fault(looks[|looks| - 1].clock + 1).ok)
    || ((looks == [] || Delivers(c, looks, |looks| - 1)) && !c.fault(Upcoming(c, f, looks).clock - 1).ok)
  }

  /** One round of `read_block`. */
  lemma ReadFromRound(c: Chip, f: Flash, base: nat, p: nat) returns (f1: Flash)
    requires Fits(c, f) && p + c.eraseSize <= c.size
    ensures var l := Look(p, f.clock);
            && Fits(c, f1) && f1.ecc == f.ecc + Own(c, l)
            && (if Reads(c, l) then f1.clock == f.clock + 2 && f1.pos == p + c.eraseSize else f1.clock == f.clock + 1)
            && ReadFrom(c, f, base, p) ==
               if !Reads(c, l) then ReadFrom(c, f1, base, p + c.eraseSize)
               else if !c.fault(l.clock + 1).ok then (f1, None)
               else if f1.ecc != base || c.Query(p) != Zero then ReadFrom(c, f1, f1.ecc, p + c.eraseSize)
               else (f1, Some(p))
  {
    f1 := SeekRead(c, f, p).0;
    if Reads(c, Look(p, f.clock)) {
      f1 := EccStats(c, f1).0;
    }
  }

  /** `more` continues the rounds `looks` as a call of `read_block` with result t does: only the
      last round delivers, if the call does. */
  ghost predicate Continues(c: Chip, f0: Flash, looks: seq<Look>, more: seq<Look>, t: (Flash, Option<nat>)) {
    && Trace(c, f0, more) && looks <= more
    && if t.1 == None then Delivered(c, more, |more|) == Delivered(c, looks, |looks|) && Stops(c, f0, more)
       else && Delivered(c, more, |more|) == Delivered(c, looks, |looks|) + [t.1.value as int]
            && Upcoming(c, f0, more) == Look(t.0.pos, t.0.clock + 1)
            && |more| > 0 && Delivers(c, more, |more| - 1)
  }

  lemma ContinuesFrom(c: Chip, f0: Flash, looks: seq<Look>, mid: seq<Look>, more: seq<Look>, t: (Flash, Option<nat>))
    requires looks <= mid && Delivered(c, mid, |mid|) == Delivered(c, looks, |looks|) && Continues(c, f0, mid, more, t)
    ensures Continues(c, f0, looks, more, t)
  {
    hide Delivered, Trace, Stops, Upcoming, Delivers;
  }

  /** What the last round of a trace means for what follows. */
  lemma LastLook(c: Chip, f0: Flash, looks: seq<Look>)
    requires looks != []
    ensures var i := |looks| - 1;
            var l := looks[i];
            && Upcoming(c, f0, looks) ==
               Look(l.at + c.eraseSize, l.clock + if !Reads(c, l) then 1 else if Delivers(c, looks, i) then 3 else 2)
            && (Delivers(c, looks, i) <==>
                  && Reads(c, l) && c.fault(l.clock + 1).ok
                  && Backlog(c, looks, i) + Own(c, l) == 0 && c.Query(l.at) == Zero)
            && Backlog(c, looks, i + 1) == (if Reads(c, l) then 0 else Backlog(c, looks, i) + Own(c, l))
            && (Reads(c, l) && !c.fault(l.clock + 1).ok ==> Stops(c, f0, looks))
  {
  }

  lemma PastTheEnd(c: Chip, f0: Flash, looks: seq<Look>)
    ensures Upcoming(c, f0, looks).at + c.eraseSize > c.size ==> Stops(c, f0, looks)
  {
  }

  /** One round: either the loop goes on from the next block, or the call ends with it. */
  lemma RoundTrace(c: Chip, f0: Flash, looks: seq<Look>, f: Flash, base: nat, p: nat)
    returns (mid: seq<Look>, f1: Flash, base1: nat, on: bool)
    requires Fits(c, f) && Trace(c, f0, looks) && Upcoming(c, f0, looks) == Look(p, f.clock)
    requires f.ecc == base + Backlog(c, looks, |looks|) && p + c.eraseSize <= c.size
    ensures on ==> Trace(c, f0, mid) && looks <= mid && Delivered(c, mid, |mid|) == Delivered(c, looks, |looks|)
    ensures on ==> Fits(c, f1) && Upcoming(c, f0, mid) == Look(p + c.eraseSize, f1.clock)
    ensures on ==> f1.ecc == base1 + Backlog(c, mid, |mid|)
    ensures on ==> ReadFrom(c, f, base, p) == ReadFrom(c, f1, base1, p + c.eraseSize)
    ensures !on ==> Continues(c, f0, looks, mid, ReadFrom(c, f, base, p))
  {
    hide Delivered, Trace, Backlog, Reads, Own, Upcoming, Stops, Delivers, ReadFrom;
    mid := OneMoreLook(c, f0, looks);
    LastLook(c, f0, mid);
    f1 := ReadFromRound(c, f, base, p);
    var l := Look(p, f.clock);
    assert mid[|looks|] == l;
    on := !Reads(c, l) || (c.fault(l.clock + 1).ok && (f1.ecc != base || c.Query(p) != Zero));
    base1 := if Reads(c, l) then f1.ecc else base;
  }

  lemma {:induction false} ReadFromTrace(c: Chip, f0: Flash, looks: seq<Look>, f: Flash, base: nat, p: nat)
    returns (more: seq<Look>)
    requires Fits(c, f) && Trace(c, f0, looks) && Upcoming(c, f0, looks) == Look(p, f.clock)
    requires f.ecc == base + Backlog(c, looks, |looks|)
    ensures Continues(c, f0, looks, more, ReadFrom(c, f, base, p))
    decreases c.size - p
  {
    hide Delivered, Trace, Backlog, Upcoming, Stops, Delivers;
    more := looks;
    if p + c.eraseSize <= c.size {
      hide ReadFrom, Continues;
      var f1, base1, on;
      more, f1, base1, on := RoundTrace(c, f0, looks, f, base, p);
      if on {
        var mid := more;
        more := ReadFromTrace(c, f0, mid, f1, base1, p + c.eraseSize);
        ContinuesFrom(c, f0, looks, mid, more, ReadFrom(c, f, base, p));
      }
    } else {
      PastTheEnd(c, f0, looks);
    }
  }

  /** The reader is between two calls of `read_block`: the trace says which blocks it has read. */
  ghost predicate Follows(c: Chip, f0: Flash, looks: seq<Look>, r: Reader) {
    && Trace(c, f0, looks) && Fits(c, r.flash)
    && Upcoming(c, f0, looks) == Look(r.flash.pos, r.flash.clock + 1)
    && (looks == [] || Delivers(c, looks, |looks| - 1))
    && r.homes == Delivered(c, looks, |looks|)
  }

  lemma ReadBlockTrace(c: Chip, f0: Flash, looks: seq<Look>, r: Reader) returns (more: seq<Look>)
    requires Follows(c, f0, looks, r)
    ensures looks <= more
    ensures var (f, home) := ReadBlock(c, r.flash);
            if home == None then Trace(c, f0, more) && r.homes == Delivered(c, more, |more|) && Stops(c, f0, more)
            else Follows(c, f0, more, Reader(f, r.left, r.homes + [home.value as int]))
  {
    hide Delivered, Trace, ReadFrom;
    var (f1, before) := EccStats(c, r.flash);
    more := looks;
    if before != None {
      DeliveredClears(c, looks);
      more := ReadFromTrace(c, f0, looks, f1, before.value, f1.pos);
    }
  }

  lemma DeliveredClears(c: Chip, looks: seq<Look>)
    requires looks == [] || Delivers(c, looks, |looks| - 1)
    ensures Backlog(c, looks, |looks|) == 0
  {
  }

  lemma {:induction false} TakeTrace(c: Chip, f0: Flash, looks: seq<Look>, r: Reader, n: nat)
    returns (more: seq<Look>)
    requires Follows(c, f0, looks, r)
    ensures var (r1, out) := Take(c, r, n);
            if out == None then Trace(c, f0, more) && r1.homes == Delivered(c, more, |more|) && Stops(c, f0, more)
            else Follows(c, f0, more, r1)
    decreases n - |r.left|
  {
    hide Delivered, Trace, ReadBlock, Delivers, Stops, Upcoming;
    more := looks;
    if n > |r.left| {
      more := ReadBlockTrace(c, f0, looks, r);
      var (f, home) := ReadBlock(c, r.flash);
      if home != None {
        var h := home.value;
        more := TakeTrace(c, f0, more, Reader(f, r.left + f.mem[h..h + c.eraseSize], r.homes + [h]), n);
      }
    }
  }

  lemma {:induction false} ReadAllTrace(c: Chip, f0: Flash, looks: seq<Look>, r: Reader, lens: seq<nat>)
    returns (more: seq<Look>)
    requires Follows(c, f0, looks, r)
    ensures var (r1, out) := ReadAll(c, r, lens);
            if out == None then Trace(c, f0, more) && r1.homes == Delivered(c, more, |more|) && Stops(c, f0, more)
            else Follows(c, f0, more, r1)
    decreases |lens|
  {
    hide Take, Follows, Stops, Delivered;
    more := looks;
    if lens != [] {
      FollowsFits(c, f0, looks, r);
      more := TakeTrace(c, f0, looks, r, lens[0]);
      var (r1, out) := Take(c, r, lens[0]);
      if out != None {
        more := ReadAllTrace(c, f0, more, r1, lens[1..]);
      }
    }
  }

  lemma FollowsFits(c: Chip, f0: Flash, looks: seq<Look>, r: Reader)
    requires Follows(c, f0, looks, r)
    ensures Fits(c, r.flash)
  {
  }

  // ---------- the trace block by block ----------

  lemma {:induction false} TraceClimbs(c: Chip, f: Flash, looks: seq<Look>, i: nat, j: nat)
    requires c.Valid() && Trace(c, f, looks) && i < j < |looks|
    ensures looks[i].at < looks[j].at
    decreases j
  {
    hide Delivers;
    assert looks[j] == NextLook(c, looks, j - 1);
    if i < j - 1 {
      TraceClimbs(c, f, looks, i, j - 1);
    }
  }

  lemma {:induction false} InDeliveredIff(c: Chip, f: Flash, looks: seq<Look>, n: nat, i: nat)
    requires c.Valid() && Trace(c, f, looks) && n <= |looks| && i < |looks|
    ensures looks[i].at as int in Delivered(c, looks, n) <==> i < n && Delivers(c, looks, i)
    decreases n
  {
    hide Delivers, Trace;
    if n > 0 {
      InDeliveredIff(c, f, looks, n - 1, i);
      if i < n - 1 {
        TraceClimbs(c, f, looks, i, n - 1);
      } else if n - 1 < i {
        TraceClimbs(c, f, looks, n - 1, i);
      }
    }
  }

  /** q is one of p, p + e, p + 2e, ... */
  predicate Ahead(p: int, q: int, e: nat)
    requires 0 < e
  {
    p <= q && Multiple(q - p, e)
  }

  /** Every block from the first round up to the last one has its round. */
  lemma {:induction false} TraceCovers(c: Chip, f: Flash, looks: seq<Look>, q: int, i: nat) returns (j: nat)
    requires c.Valid() && Trace(c, f, looks) && i < |looks|
    requires Ahead(looks[i].at, q, c.eraseSize) && q < Upcoming(c, f, looks).at
    ensures j < |looks| && looks[j].at == q
    decreases |looks| - i
  {
    hide Delivers;
    if q == looks[i].at {
      j := i;
    } else if i + 1 < |looks| {
      assert looks[i + 1] == NextLook(c, looks, i);
      j := TraceCovers(c, f, looks, q, i + 1);
    } else {
      assert false;
    }
  }

  /** Exactly which blocks are delivered.  A run of reads of any lengths on a fresh context, with
      any answers of the device, goes through the blocks from the file position on one after the
      other, up to its last file position or to where it stopped, and a block is delivered if and
      only if its read and the ECCGETSTATS behind it succeed, its bad-block query returns 0, and
      no ECC failure has been counted by this read or by failed reads right before it. */
  lemma DeliveredIff(c: Chip, f: Flash, lens: seq<nat>) returns (looks: seq<Look>)
    requires Fits(c, f)
    ensures Trace(c, f, looks)
    ensures var (r, out) := ReadAll(c, Reader(f, [], []), lens);
            && (if out == None then Stops(c, f, looks) else Upcoming(c, f, looks).at == r.flash.pos)
            && r.homes == Delivered(c, looks, |looks|)
            && (forall i :: 0 <= i < |looks| ==> (looks[i].at as int in r.homes <==> Delivers(c, looks, i)))
            && (forall q :: Ahead(f.pos, q, c.eraseSize) && q < Upcoming(c, f, looks).at ==>
                  exists i :: 0 <= i < |looks| && looks[i].at == q)
  {
    hide Delivers, Backlog, Stops, ReadAll, Delivered, Upcoming;
    var r0 := Reader(f, [], []);
    FreshFollows(c, f);
    looks := ReadAllTrace(c, f, [], r0, lens);
    FollowsTrace(c, f, looks, ReadAll(c, r0, lens).0);
    forall i | 0 <= i < |looks| ensures looks[i].at as int in Delivered(c, looks, |looks|) <==> Delivers(c, looks, i) {
      InDeliveredIff(c, f, looks, |looks|, i);
    }
    forall q | Ahead(f.pos, q, c.eraseSize) && q < Upcoming(c, f, looks).at
      ensures exists i :: 0 <= i < |looks| && looks[i].at == q
    {
      NothingYet(c, f);
      var i := TraceCovers(c, f, looks, q, 0);
    }
  }

  lemma NothingYet(c: Chip, f: Flash)
    ensures Upcoming(c, f, []).at == f.pos
  {
  }

  lemma FreshFollows(c: Chip, f: Flash)
    requires Fits(c, f)
    ensures Follows(c, f, [], Reader(f, [], []))
  {
  }

  lemma FollowsTrace(c: Chip, f0: Flash, looks: seq<Look>, r: Reader)
    ensures Follows(c, f0, looks, r) ==>
              Trace(c, f0, looks) && Upcoming(c, f0, looks).at == r.flash.pos && r.homes == Delivered(c, looks, |looks|)
  {
  }

  /** ECC failures are unaccounted for if and only if some read counted one and it and all reads
      after it have failed. */
  lemma {:induction false} BacklogIff(c: Chip, looks: seq<Look>, i: nat)
    requires i <= |looks|
    ensures Backlog(c, looks, i) > 0 <==>
            exists j :: 0 <= j < i && Own(c, looks[j]) > 0 && forall k :: j <= k < i ==> !Reads(c, looks[k])
    decreases i
  {
    if i > 0 && !Reads(c, looks[i - 1]) {
      BacklogIff(c, looks, i - 1);
      if Backlog(c, looks, i - 1) > 0 {
        var j :| 0 <= j < i - 1 && Own(c, looks[j]) > 0 && forall k :: j <= k < i - 1 ==> !Reads(c, looks[k]);
        assert forall k :: j <= k < i ==> !Reads(c, looks[k]);
      } else if Own(c, looks[i - 1]) > 0 {
        assert forall k :: i - 1 <= k < i ==> !Reads(c, looks[k]);
      }
    }
  }

  // ---------- a clean block that is skipped ----------

  /** Two blocks of one byte; only the first read, device call 1, fails and counts a failure. */
  function OneBadRead(): (c: Chip) {
    Chip(1, 2, true, _ => Good, t => Fault(true, t != 1, true, 0, [], if t == 1 then 1 else 0))
  }

  /** The second block is good and its read succeeds without an ECC failure, but it is skipped,
      because the failure counted by the read of the first block is taken for its own. */
  lemma CleanBlockSkipped(f: Flash, x: byte, y: byte)
    requires f == Flash([x, y], 0, 0, 0)
    ensures var c := OneBadRead();
            && Fits(c, f) && c.Query(1) == Zero
            && Reads(c, Look(1, 2)) && Own(c, Look(1, 2)) == 0 && c.fault(3).ok
            && Take(c, Reader(f, [], []), 1).1 == None
            && Delivers(c, [Look(1, 2)], 0) && !Delivers(c, [Look(0, 1), Look(1, 2)], 1)
  {
    var c := OneBadRead();
    assert Multiple(2, 1) == Multiple(1, 1) == Multiple(0, 1);
    var f1 := f.(clock := 1);
    var f2 := Flash([x, y], 0, 2, 1);
    var f4 := Flash([x, y], 2, 4, 1);
    assert SeekRead(c, f1, 0) == (f2, None);
    assert SeekRead(c, f2, 1).0 == Flash([x, y], 2, 3, 1);
    assert ReadFrom(c, f4, 1, 2) == (f4, None);
    assert ReadFrom(c, f2, 0, 1) == (f4, None);
    assert ReadFrom(c, f1, 0, 0) == (f4, None);
    assert ReadBlock(c, f) == (f4, None);
  }
}
