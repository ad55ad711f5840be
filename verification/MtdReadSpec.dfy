/** What the read half of flash/src/mtd_flash.c computes, as functions on values, and what any
    sequence of reads delivers.  The class in MtdReader.dfy is proved to compute them. */
module MtdReadSpec {
  import opened Bytes
  import opened MtdChip
  import opened MtdStream

  /** A read context with the device under it: the bytes of its buffer not yet consumed, and a
      history the program does not keep, the offsets of the blocks read, in order. */
  datatype Reader = Reader(flash: Flash, left: seq<byte>, homes: seq<int>)

  /** How a round of `read_block` turns out: the call ends, with a block or without, or the loop
      goes on, with the ECC failure count to compare with. */
  datatype Round = Ends(flash: Flash, home: Option<nat>) | GoesOn(flash: Flash, base: nat)

  /** The round at offset p, with `base` the ECC failure count to compare with: the block is the one
      looked for if it reads without a new ECC failure and its bad-block query returns 0. */
  function ReadRound(c: Chip, f: Flash, base: nat, p: nat): (r: Round)
    requires Fits(c, f) && p + c.eraseSize <= c.size
    ensures Fits(c, r.flash) && r.flash.mem == f.mem
    ensures r.Ends? && r.home.Some? ==>
              r.home.value == p && r.flash.pos == p + c.eraseSize && c.Query(p) == Zero
  {
    var (f1, data) := SeekRead(c, f, p);
    if data == None then GoesOn(f1, base)
    else
      var (f2, after) := EccStats(c, f1);
      if after == None then Ends(f2, None)
      else if after.value != base then GoesOn(f2, after.value)
      else if c.Query(p) != Zero then GoesOn(f2, base)
      else Ends(f2, Some(p))
  }

  /** The loop from offset p on. */
  function ReadFrom(c: Chip, f: Flash, base: nat, p: nat): (r: (Flash, Option<nat>))
    requires Fits(c, f)
    ensures Fits(c, r.0) && r.0.mem == f.mem
    ensures r.1.Some? ==> p <= r.1.value && r.1.value + c.eraseSize == r.0.pos && c.Query(r.1.value) == Zero
    decreases c.size - p
  {
    if p + c.eraseSize > c.size then (f, None)
    else
      match ReadRound(c, f, base, p)
      case Ends(f1, home) => (f1, home)
      case GoesOn(f1, base1) => ReadFrom(c, f1, base1, p + c.eraseSize)
  }

  /** `read_block` */
  function ReadBlock(c: Chip, f: Flash): (r: (Flash, Option<nat>))
    requires Fits(c, f)
    ensures Fits(c, r.0) && r.0.mem == f.mem
    ensures r.1.Some? ==> f.pos <= r.1.value && r.1.value + c.eraseSize == r.0.pos && c.Query(r.1.value) == Zero
  {
    var (f1, before) := EccStats(c, f);
    if before == None then (f1, None) else ReadFrom(c, f1, before.value, f1.pos)
  }

  /** `mtd_read_data` of n bytes, as a queue: fetch blocks until n bytes are there and hand them
      out.  A failed call has handed out what was left over, so nothing is left. */
  function Take(c: Chip, r: Reader, n: nat): (t: (Reader, Option<seq<byte>>))
    requires Fits(c, r.flash)
    ensures Fits(c, t.0.flash) && t.0.flash.mem == r.flash.mem && r.homes <= t.0.homes
    ensures t.1.Some? ==> |t.1.value| == n
    decreases n - |r.left|
  {
    if n <= |r.left| then (r.(left := r.left[n..]), Some(r.left[..n]))
    else
      var (f, home) := ReadBlock(c, r.flash);
      if home == None then (Reader(f, [], r.homes), None)
      else
        var h := home.value;
        assert r.homes <= r.homes + [h];
        Take(c, Reader(f, r.left + f.mem[h..h + c.eraseSize], r.homes + [h]), n)
  }

  /** A result with bytes already delivered in front of it. */
  function After(done: seq<byte>, t: (Reader, Option<seq<byte>>)): (Reader, Option<seq<byte>>) {
    (t.0, if t.1 == None then None else Some(done + t.1.value))
  }

  /** Bytes at hand can be delivered first. */
  lemma {:induction false} TakeAtHand(c: Chip, r: Reader, k: nat, n: nat)
    requires Fits(c, r.flash) && k <= |r.left| && k <= n
    ensures Take(c, r, n) == After(r.left[..k], Take(c, r.(left := r.left[k..]), n - k))
    decreases n - |r.left|
  {
    hide ReadBlock;
    var r1 := r.(left := r.left[k..]);
    if n <= |r.left| {
      assert r.left[..n] == r.left[..k] + r1.left[..n - k];
      assert r.left[n..] == r1.left[n - k..];
    } else {
      var (f, home) := ReadBlock(c, r.flash);
      if home != None {
        var h := home.value;
        var blk := f.mem[h..h + c.eraseSize];
        var r2 := Reader(f, r.left + blk, r.homes + [h]);
        TakeAtHand(c, r2, k, n);
        assert r2.left[..k] == r.left[..k];
        assert r2.left[k..] == r1.left + blk;
      }
    }
  }

  lemma AfterAfter(a: seq<byte>, b: seq<byte>, t: (Reader, Option<seq<byte>>))
    ensures After(a, After(b, t)) == After(a + b, t)
  {
    if t.1 != None {
      assert a + (b + t.1.value) == (a + b) + t.1.value;
    }
  }

  lemma AfterNothing(none: seq<byte>, t: (Reader, Option<seq<byte>>))
    requires none == []
    ensures After(none, t) == t
  {
    if t.1 != None {
      assert none + t.1.value == t.1.value;
    }
  }

  /** With nothing at hand a read starts by fetching a block, which can be delivered at once if
      all of it is wanted. */
  lemma TakeFetch(c: Chip, r: Reader, n: nat)
    requires Fits(c, r.flash) && r.left == [] && 0 < n
    ensures var (f, home) := ReadBlock(c, r.flash);
            if home == None then Take(c, r, n) == (Reader(f, [], r.homes), None)
            else
              var blk := f.mem[home.value..home.value + c.eraseSize];
              && Take(c, r, n) == Take(c, Reader(f, blk, r.homes + [home.value]), n)
              && (c.eraseSize <= n ==>
                    Take(c, r, n) == After(blk, Take(c, Reader(f, [], r.homes + [home.value]), n - c.eraseSize)))
  {
    hide ReadBlock;
    var (f, home) := ReadBlock(c, r.flash);
    if home != None {
      var blk := f.mem[home.value..home.value + c.eraseSize];
      assert r.left + blk == blk;
      var r1 := Reader(f, blk, r.homes + [home.value]);
      assert Take(c, r, n) == Take(c, r1, n);
      hide Take;
      if c.eraseSize <= n {
        TakeAtHand(c, r1, c.eraseSize, n);
        assert r1.left[..c.eraseSize] == blk && r1.left[c.eraseSize..] == [];
      }
    }
  }

  lemma TakeNothing(c: Chip, r: Reader)
    requires Fits(c, r.flash)
    ensures Take(c, r, 0) == (r, Some([]))
  {
    assert r.left[0..] == r.left;
  }

  /** Two reads deliver what one read of both lengths delivers. */
  lemma {:induction false} TakeSplit(c: Chip, r: Reader, n: nat, m: nat)
    requires Fits(c, r.flash)
    ensures var (r1, out) := Take(c, r, n);
            if out == None then Take(c, r, n + m) == (r1, None)
            else Take(c, r, n + m) == After(out.value, Take(c, r1, m))
    decreases n - |r.left|
  {
    hide ReadBlock;
    if n <= |r.left| {
      TakeAtHand(c, r, n, n + m);
    } else {
      var (f, home) := ReadBlock(c, r.flash);
      if home != None {
        var h := home.value;
        TakeSplit(c, Reader(f, r.left + f.mem[h..h + c.eraseSize], r.homes + [h]), n, m);
      }
    }
  }

  // ---------- any sequence of reads ----------

  /** One `mtd_read_data` call for each length, until one fails; what they delivered together. */
  function ReadAll(c: Chip, r: Reader, lens: seq<nat>): (t: (Reader, Option<seq<byte>>))
    requires Fits(c, r.flash)
    decreases |lens|
  {
    if lens == [] then (r, Some([]))
    else
      var (r1, out) := Take(c, r, lens[0]);
      if out == None then (r1, None) else After(out.value, ReadAll(c, r1, lens[1..]))
  }

  function Sum(lens: seq<nat>): nat {
    if lens == [] then 0 else lens[0] + Sum(lens[1..])
  }

  /** Successive reads return consecutive segments: together they deliver exactly what one read
      of the total length delivers, and leave the context where it leaves it. */
  lemma {:induction false} ReadsAreConsecutive(c: Chip, r: Reader, lens: seq<nat>)
    requires Fits(c, r.flash)
    ensures var (r1, out) := ReadAll(c, r, lens);
            var (r2, whole) := Take(c, r, Sum(lens));
            out == whole && (out != None ==> r1 == r2)
    decreases |lens|
  {
    if lens == [] {
      assert r.left[0..] == r.left;
    } else {
      hide Take;
      TakeSplit(c, r, lens[0], Sum(lens[1..]));
      var (r1, out) := Take(c, r, lens[0]);
      if out != None {
        ReadsAreConsecutive(c, r1, lens[1..]);
      }
    }
  }

  /** The blocks a reader has read: good ones, in increasing order, below the file position. */
  ghost predicate ReadTrack(c: Chip, r: Reader) {
    && Fits(c, r.flash)
    && (forall i :: 0 <= i < |r.homes| ==>
          0 <= r.homes[i] && r.homes[i] + c.eraseSize <= r.flash.pos && c.Query(r.homes[i]) == Zero)
    && (forall i, j :: 0 <= i < j < |r.homes| ==> r.homes[i] + c.eraseSize <= r.homes[j])
  }

  /** What has been delivered, followed by what is left over, is the contents of the blocks read. */
  ghost predicate Accounted(c: Chip, r: Reader, gone: seq<byte>) {
    ReadTrack(c, r) && Stored(r.flash.mem, r.homes, c.eraseSize) == gone + r.left
  }

  lemma FetchAccounted(c: Chip, r: Reader, gone: seq<byte>)
    requires Accounted(c, r, gone) && ReadBlock(c, r.flash).1 != None
    ensures var (f, home) := ReadBlock(c, r.flash);
            var h := home.value;
            Accounted(c, Reader(f, r.left + f.mem[h..h + c.eraseSize], r.homes + [h]), gone)
  {
    hide ReadBlock, Stored;
    var (f, home) := ReadBlock(c, r.flash);
    var h := home.value;
    var blk := f.mem[h..h + c.eraseSize];
    StoredAppend(f.mem, r.homes, h, c.eraseSize);
    assert gone + r.left + blk == gone + (r.left + blk);
  }

  lemma HandOver(c: Chip, r: Reader, n: nat, gone: seq<byte>)
    requires Accounted(c, r, gone) && n <= |r.left|
    ensures Accounted(c, r.(left := r.left[n..]), gone + r.left[..n])
  {
    hide Stored;
    assert gone + r.left == gone + r.left[..n] + r.left[n..];
  }

  /** What a successful read delivers has then been delivered. */
  lemma {:induction false} TakeDelivers(c: Chip, r: Reader, n: nat, gone: seq<byte>)
    requires Fits(c, r.flash) && Accounted(c, r, gone)
    ensures var (r1, out) := Take(c, r, n); out != None ==> Accounted(c, r1, gone + out.value)
    decreases n - |r.left|
  {
    hide ReadBlock, Accounted;
    if n <= |r.left| {
      HandOver(c, r, n, gone);
    } else {
      var (f, home) := ReadBlock(c, r.flash);
      if home != None {
        var h := home.value;
        FetchAccounted(c, r, gone);
        TakeDelivers(c, Reader(f, r.left + f.mem[h..h + c.eraseSize], r.homes + [h]), n, gone);
      }
    }
  }

  lemma FreshAccounted(c: Chip, f: Flash)
    requires Fits(c, f)
    ensures Accounted(c, Reader(f, [], []), [])
  {
  }

  /** Reader refinement.  From a fresh context, whatever the device answers, successful reads of
      any lengths deliver the contents of good blocks in increasing offset order, except that the
      end of the last one may still be in the buffer. */
  lemma ReaderRefinement(c: Chip, f: Flash, lens: seq<nat>)
    requires Fits(c, f)
    ensures var (r, out) := ReadAll(c, Reader(f, [], []), lens);
            out != None ==>
              && ReadTrack(c, r) && r.flash.mem == f.mem
              && out.value + r.left == Stored(f.mem, r.homes, c.eraseSize) && |out.value| == Sum(lens)
  {
    hide Take, ReadAll, Stored, ReadTrack;
    var r0 := Reader(f, [], []);
    ReadsAreConsecutive(c, r0, lens);
    FreshAccounted(c, f);
    TakeDelivers(c, r0, Sum(lens), []);
    var (r, out) := Take(c, r0, Sum(lens));
    assert out != None ==> [] + out.value == out.value && Accounted(c, r, out.value);
  }
}
