/** `rk_upgrade_packet` (upgrade/src/dl_upgrade.c) as a sequence of device writes that power loss
    can cut short anywhere, what every point in between leaves for the next boot, and exactly what
    a finished call has done. */
module Upgrade {
  import opened Bytes
  import opened AbRecord
  import opened Slots
  import opened BlockCopy

  datatype Part = UbootPart | BootPart | SystemPart

  /** The names in the order in which they are upgraded. */
  const PARTS := [UbootPart, BootPart, SystemPart]

  /** One of the two copies of a partition. */
  datatype Dest = Dest(part: Part, slot: int)

  /** What survives power loss: the partitions and the A/B record. */
  datatype World = World(parts: map<Dest, seq<byte>>, meta: AbData)
  {
    ghost predicate Valid() {
      meta.Valid() && forall p: Part :: Dest(p, 0) in parts && Dest(p, 1) in parts
    }
  }

  /** How the accesses for one partition turn out.
      opens: fopen of its image succeeds
      ready: so do the fseek on the image and opening the partition
      io:    the calls of the copy
      torn:  what power loss during the write at an offset leaves in the partition */
  datatype Access = Access(opens: bool, ready: bool, io: Io, torn: nat -> seq<byte>)

  /** How the update of the record turns out: whether it can be read, whether the write reports
      success, and whether a write that does not has happened all the same. */
  datatype RecordIo = RecordIo(readable: bool, reported: bool, landed: bool)

  /** Everything outside the program: the slot that runs (-1 if that cannot be told), the block
      size of the flash, and how the accesses turn out. */
  datatype Env = Env(running: int, block: nat, access: Part -> Access, record: RecordIo)
  {
    predicate Valid() {
      -1 <= running <= 1
    }
  }

  /** What is left of a partition that held dst when the image, if there is one, has been dealt
      with, and the result.  An image that is missing or cannot be opened counts as written. */
  function PartResult(env: Env, part: Part, image: Option<seq<byte>>, dst: seq<byte>): (r: (seq<byte>, int))
    ensures r.1 == 0 || r.1 == -1
  {
    var a := env.access(part);
    if image == None || !a.opens then (dst, 0)
    else if !a.ready || env.block == 0 then (dst, -1)
    else DoWrite(image.value, dst, env.block, a.io)
  }

  /** The image of a partition among those found. */
  function ImageOf(found: map<Part, seq<byte>>, part: Part): Option<seq<byte>> {
    if part in found then Some(found[part]) else None
  }

  /** What upgrading the other slot's copy of a partition does to it when the world was w0. */
  function Outcome(env: Env, w0: World, found: map<Part, seq<byte>>, part: Part): (r: (seq<byte>, int))
    requires w0.Valid() && 0 <= env.running <= 1
  {
    PartResult(env, part, ImageOf(found, part), w0.parts[Dest(part, 1 - env.running)])
  }

  /** A partition that held dst and holds dst' now has the image in front, if there was one and it
      could be opened, and otherwise is as before. */
  predicate PlacedAt(env: Env, p: Part, image: Option<seq<byte>>, dst: seq<byte>, dst': seq<byte>) {
    && (image != None ==> (image.value <= dst' <==> env.access(p).opens || image.value <= dst))
    && if image != None && env.access(p).opens then Complete(image.value, dst, dst') else dst' == dst
  }

  /** When short reads of the image are noticed, a partition reported as written holds the image
      if and only if the image could be opened or was there already. */
  lemma InPlaceIff(env: Env, part: Part, image: Option<seq<byte>>, dst: seq<byte>)
    requires ShortReadsNoticed(env.access(part).io, env.block)
    requires PartResult(env, part, image, dst).1 == 0
    ensures PlacedAt(env, part, image, dst, PartResult(env, part, image, dst).0)
  {
    hide DoWrite, ShortReadsNoticed;
    if image != None && env.access(part).opens {
      NoticedCopies(image.value, dst, env.block, env.access(part).io);
    }
  }

  /** The flash has 16 KiB blocks, and every image found is read in full. */
  ghost predicate WholeReads(env: Env, found: map<Part, seq<byte>>) {
    env.block == 16384 && forall p :: p in found ==> FullReads(env.access(p).io)
  }

  /** There is no image, or it cannot be opened, or the partition can be and the image is not empty,
      fits, is no larger than 2 GiB, and no write of it fails. */
  predicate Acceptable(a: Access, image: Option<seq<byte>>, dst: seq<byte>) {
    image == None || !a.opens ||
    (a.ready && 0 < |image.value| <= |dst| && |image.value| <= 0x8000_0000
     && WritesSucceed(a.io, 16384, 0, |image.value|))
  }

  lemma AcceptedIff(env: Env, part: Part, image: Option<seq<byte>>, dst: seq<byte>)
    requires env.block == 16384 && FullReads(env.access(part).io)
    ensures PartResult(env, part, image, dst).1 == 0 <==> Acceptable(env.access(part), image, dst)
  {
    hide DoWrite, WritesSucceed, FullReads;
    if image != None {
      DoWriteSucceedsIff(image.value, dst, env.access(part).io);
    }
  }

  /** That holds of every partition of the slot that does not run. */
  ghost predicate AllAcceptable(env: Env, w0: World, found: map<Part, seq<byte>>)
    requires w0.Valid() && 0 <= env.running <= 1
  {
    forall p: Part :: Acceptable(env.access(p), ImageOf(found, p), w0.parts[Dest(p, 1 - env.running)])
  }

  // ---------- what power loss leaves ----------

  /** The other partitions and the record are as in w. */
  ghost predicate OnlyDiffersAt(w: World, w': World, dest: Dest) {
    w'.meta == w.meta && w'.parts.Keys == w.parts.Keys
    && forall d :: d in w.parts && d != dest ==> w'.parts[d] == w.parts[d]
  }

  lemma SameWorld(w: World, dest: Dest)
    ensures OnlyDiffersAt(w, w, dest)
  {
  }

  /** The partitions of a slot are as in w0. */
  ghost predicate SlotKept(w0: World, w: World, slot: int)
    requires w0.Valid() && w.Valid() && 0 <= slot <= 1
  {
    forall p: Part :: w.parts[Dest(p, slot)] == w0.parts[Dest(p, slot)]
  }

  /** The running slot's partitions are untouched. */
  ghost predicate RunningKept(env: Env, w0: World, w: World)
    requires w0.Valid() && 0 <= env.running <= 1
  {
    w.Valid() && SlotKept(w0, w, env.running)
  }

  /** Every partition of the other slot has been dealt with and none has failed. */
  ghost predicate AllDone(env: Env, w0: World, found: map<Part, seq<byte>>, w: World)
    requires w0.Valid() && w.Valid() && 0 <= env.running <= 1
  {
    forall p: Part :: Outcome(env, w0, found, p) == (w.parts[Dest(p, 1 - env.running)], 0)
  }

  /** What power loss can leave: the running slot's partitions untouched, and the record as it
      was or, once all partitions are done, the activated one. */
  ghost predicate CrashSafe(env: Env, w0: World, found: map<Part, seq<byte>>, w: World)
    requires w0.Valid() && 0 <= env.running <= 1
  {
    && RunningKept(env, w0, w)
    && (w.meta == w0.meta || (w.meta == ActivateAnother(w0.meta, env.running) && AllDone(env, w0, found, w)))
  }

  /** Every image found that can be opened, and of which no short read goes unnoticed, is in front
      of its partition in the given slot. */
  ghost predicate Installed(env: Env, found: map<Part, seq<byte>>, w: World, slot: int)
    requires w.Valid() && 0 <= slot <= 1
  {
    forall p :: p in found && env.access(p).opens && ShortReadsNoticed(env.access(p).io, env.block) ==>
      found[p] <= w.parts[Dest(p, slot)]
  }

  lemma DoneIsInstalled(env: Env, w0: World, found: map<Part, seq<byte>>, w: World)
    requires w0.Valid() && w.Valid() && 0 <= env.running <= 1 && AllDone(env, w0, found, w)
    ensures Installed(env, found, w, 1 - env.running)
  {
    hide PartResult, ShortReadsNoticed;
    forall p | p in found && env.access(p).opens && ShortReadsNoticed(env.access(p).io, env.block)
      ensures found[p] <= w.parts[Dest(p, 1 - env.running)]
    {
      assert Outcome(env, w0, found, p) == (w.parts[Dest(p, 1 - env.running)], 0);
      InPlaceIff(env, p, ImageOf(found, p), w0.parts[Dest(p, 1 - env.running)]);
    }
  }

  /** w selects the running slot, or the other one, which is installed. */
  ghost predicate SafelySelects(env: Env, found: map<Part, seq<byte>>, w: World)
    requires w.Valid() && 0 <= env.running <= 1
  {
    || CurrentSlot(w.meta) == env.running
    || (CurrentSlot(w.meta) == 1 - env.running && Installed(env, found, w, 1 - env.running))
  }

  /** Whatever power loss leaves is safe to boot if the record selected the running slot: it
      selects that slot still, or it selects the other one, which is installed. */
  lemma SafeToBoot(env: Env, w0: World, found: map<Part, seq<byte>>, w: World)
    requires w0.Valid() && 0 <= env.running <= 1 && CrashSafe(env, w0, found, w)
    requires CurrentSlot(w0.meta) == env.running
    ensures RunningKept(env, w0, w) && SafelySelects(env, found, w)
  {
    hide CurrentSlot, ActivateAnother, AllDone, Installed;
    if w.meta != w0.meta {
      ActivateAnotherSelects(w0.meta, env.running);
      DoneIsInstalled(env, w0, found, w);
    }
  }

  /** There is no image to install but empty ones. */
  ghost predicate NothingToInstall(env: Env, found: map<Part, seq<byte>>) {
    forall p :: p in found && env.access(p).opens && ShortReadsNoticed(env.access(p).io, env.block) ==> found[p] == []
  }

  /** Everything power loss can leave is safe to boot if and only if the record selected the running
      slot before the call, or selected the other one with nothing to install.  The program does not
      check this, and after a first successful call it no longer holds until the next boot. */
  lemma SafeToBootIff(env: Env, w0: World, found: map<Part, seq<byte>>)
    requires w0.Valid() && 0 <= env.running <= 1
    ensures (forall w :: CrashSafe(env, w0, found, w) ==> SafelySelects(env, found, w)) <==>
            || CurrentSlot(w0.meta) == env.running
            || (CurrentSlot(w0.meta) == 1 - env.running && NothingToInstall(env, found))
  {
    hide CurrentSlot, ActivateAnother, AllDone;
    if CurrentSlot(w0.meta) == env.running {
      forall w | CrashSafe(env, w0, found, w) ensures SafelySelects(env, found, w) {
        SafeToBoot(env, w0, found, w);
      }
    } else if CurrentSlot(w0.meta) == 1 - env.running && NothingToInstall(env, found) {
      forall w | CrashSafe(env, w0, found, w) ensures SafelySelects(env, found, w) {
        ActivateAnotherSelects(w0.meta, env.running);
      }
    } else if CurrentSlot(w0.meta) != 1 - env.running {
      assert CrashSafe(env, w0, found, w0) && !SafelySelects(env, found, w0);
    } else {
      var p :| p in found && env.access(p).opens && ShortReadsNoticed(env.access(p).io, env.block) && found[p] != [];
      var w := World(w0.parts[Dest(p, 1 - env.running) := []], w0.meta);
      assert CrashSafe(env, w0, found, w) && !SafelySelects(env, found, w);
    }
  }

  /** After a successful activation the record no longer selects the running slot, so a second call
      before the next boot is not safe if it has anything to install. */
  lemma SecondCallIsUnsafe(env: Env, w0: World, found: map<Part, seq<byte>>)
    requires w0.Valid() && 0 <= env.running <= 1 && !NothingToInstall(env, found)
    ensures var w1 := w0.(meta := ActivateAnother(w0.meta, env.running));
            exists w :: CrashSafe(env, w1, found, w) && !SafelySelects(env, found, w)
  {
    hide CurrentSlot, ActivateAnother, CrashSafe, SafelySelects, NothingToInstall;
    ActivateAnotherSelects(w0.meta, env.running);
    SafeToBootIff(env, w0.(meta := ActivateAnother(w0.meta, env.running)), found);
  }

  /** No crash point is a dead end.  If the running slot is confirmed, and the record selects it or
      the other one is not confirmed, then from every state that power loss can leave, even if no
      later boot is ever confirmed, all boots but at most the first seven select the running slot
      again, whose partitions are untouched. */
  lemma AlwaysReturns(env: Env, w0: World, found: map<Part, seq<byte>>, w: World, n: nat)
    requires w0.Valid() && 0 <= env.running <= 1 && CrashSafe(env, w0, found, w) && n >= 7
    requires Sane(w0.meta) && Confirmed(w0.meta.slots[env.running])
    requires CurrentSlot(w0.meta) == env.running || w0.meta.slots[1 - env.running].successfulBoot == 0
    ensures CurrentSlot(Boots(w.meta, n)) == env.running
    ensures SlotKept(w0, w, env.running)
  {
    hide Boots, ActivateAnother, Sealed, Sane, Bootable, CurrentSlot, AllDone;
    if w.meta != w0.meta {
      RollbackAfterActivateAnother(w0.meta, env.running, n);
    } else if CurrentSlot(w0.meta) == env.running {
      ConfirmedStays(w0.meta, n);
    } else {
      FallsBack(w0.meta, env.running, n);
    }
  }

  predicate Confirmed(s: Slot) {
    Bootable(s) && s.successfulBoot > 0
  }

  /** The condition is exact: otherwise the record selects the other slot for ever, whether or not
      the call is cut short. */
  lemma AlwaysReturnsIff(env: Env, w0: World, found: map<Part, seq<byte>>)
    requires w0.Valid() && 0 <= env.running <= 1 && Sane(w0.meta) && Confirmed(w0.meta.slots[env.running])
    ensures (forall w, n: nat :: CrashSafe(env, w0, found, w) && n >= 7 ==>
               CurrentSlot(Boots(w.meta, n)) == env.running) <==>
            CurrentSlot(w0.meta) == env.running || w0.meta.slots[1 - env.running].successfulBoot == 0
  {
    hide Boots, ActivateAnother, Sealed, Sane, AllDone;
    if CurrentSlot(w0.meta) == env.running || w0.meta.slots[1 - env.running].successfulBoot == 0 {
      forall w, n: nat | CrashSafe(env, w0, found, w) && n >= 7
        ensures CurrentSlot(Boots(w.meta, n)) == env.running
      {
        AlwaysReturns(env, w0, found, w, n);
      }
    } else {
      ConfirmedStays(w0.meta, 7);
      assert CrashSafe(env, w0, found, w0) && CurrentSlot(Boots(w0.meta, 7)) != env.running;
    }
  }

  /** A copy of the image comes to its first device write. */
  ghost predicate Begins(env: Env, part: Part, image: Option<seq<byte>>) {
    && image != None && env.access(part).opens && env.access(part).ready
    && FirstRoundWrites(env, part, image.value)
  }

  ghost predicate FirstRoundWrites(env: Env, part: Part, img: seq<byte>) {
    env.block > 0 && img != [] && RoundWrites(img, env.block, env.access(part).io, 0, 0)
  }

  /** Power was lost during the first write to a partition of the other slot. */
  ghost predicate TornIn(env: Env, w0: World, w: World, part: Part) {
    var dest := Dest(part, 1 - env.running);
    w.meta == w0.meta && dest in w.parts && w.parts[dest] == env.access(part).torn(0)
  }

  /** If the record selects the other slot already, that state is booted with the image missing. */
  lemma TornIsBooted(env: Env, w0: World, w: World, part: Part, image: seq<byte>)
    requires w0.Valid() && w.Valid() && 0 <= env.running <= 1 && TornIn(env, w0, w, part)
    requires CurrentSlot(w0.meta) == 1 - env.running && !(image <= env.access(part).torn(0))
    ensures CurrentSlot(w.meta) == 1 - env.running && !(image <= w.parts[Dest(part, 1 - env.running)])
  {
    hide CurrentSlot;
  }

  // ---------- the program ----------

  class Board {
    const env: Env
    var now: World
    var images: map<Part, seq<byte>>   // what is in the temporary directory
    ghost var past: seq<World>         // every state a power loss could have left so far

    ghost predicate Valid()
      reads this
    {
      now.Valid() && env.Valid()
    }

    constructor (env: Env, w: World)
      requires w.Valid() && env.Valid()
      ensures Valid() && now == w && past == [w] && this.env == env
    {
      this.env := env;
      now, images, past := w, map[], [w];
    }

    /** The states passed since some point differ from w only in one partition. */
    ghost predicate Only(w: World, from: int, dest: Dest)
      reads this
    {
      && 0 <= from <= |past|
      && forall i :: from <= i < |past| ==> OnlyDiffersAt(w, past[i], dest)
    }

    /** Power loss during the write at an offset to dest in w. */
    ghost function TornWorld(w: World, dest: Dest, offset: nat): World {
      World(w.parts[dest := env.access(dest.part).torn(offset)], w.meta)
    }

    /** The first state passed from `from` on is that of power loss during a first write in w. */
    ghost predicate TornFirst(w: World, from: int, dest: Dest)
      reads `past
    {
      0 <= from < |past| && past[from] == TornWorld(w, dest, 0)
    }

    /** The device write at an offset of a copy that began in state w0, when `from` states had been
        passed.  Power loss during it leaves what the oracle says in the partition written to. */
    method Store(dest: Dest, offset: nat, content: seq<byte>, ghost w0: World, ghost from: nat)
      requires Valid() && dest in now.parts && OnlyDiffersAt(w0, now, dest) && Only(w0, from, dest)
      modifies this`now, this`past
      ensures Valid() && now.parts == old(now.parts)[dest := content] && now.meta == old(now.meta)
      ensures past == old(past) + [TornWorld(old(now), dest, offset), now]
      ensures OnlyDiffersAt(w0, now, dest) && Only(w0, from, dest)
    {
      past := past + [TornWorld(now, dest, offset)];
      now := World(now.parts[dest := content], now.meta);
      past := past + [now];
    }

    /** One round of the loop of `upgrade_do_write`: whether the loop goes on, and the file
        position or the result it has then. */
    method CopyOneRound(img: seq<byte>, dest: Dest, at: nat, offset: nat, ret: int, ghost w0: World, ghost from: nat)
      returns (more: bool, at1: nat, ret1: int)
      requires Valid() && dest in now.parts && at <= |img| && OnlyDiffersAt(w0, now, dest) && Only(w0, from, dest)
      modifies this`now, this`past
      ensures Valid() && dest in now.parts && OnlyDiffersAt(w0, now, dest)
      ensures old(past) <= past && Only(w0, from, dest)
      ensures CopyRound(img, old(now.parts[dest]), env.block, env.access(dest.part).io, at, offset, ret)
                == if more then GoesOn(now.parts[dest], at1) else Ends(now.parts[dest], ret1)
      ensures past == if RoundWrites(img, env.block, env.access(dest.part).io, at, offset)
                      then old(past) + [TornWorld(old(now), dest, offset), now] else old(past)
    {
      hide Torn, Put, OnlyDiffersAt, SeekAccepted;
      var io := env.access(dest.part).io;
      at1, ret1 := at, ret;
      var want := Min(env.block, |img| - at);
      var got := if io.short(offset) < want then want - io.short(offset) else 0;
      if got == 0 {
        return false, at, if offset != env.block then -1 else ret;
      }
      if !SeekAccepted(offset) {
        return false, at, -1;
      }
      var dst := now.parts[dest];
      if io.fails(offset) || offset + got > |dst| {
        Store(dest, offset, Torn(dst, offset, got, io.junk(offset)), w0, from);
        return false, at, -1;
      }
      Store(dest, offset, Put(dst, offset, img[at..at + got]), w0, from);
      return true, at + got, 0;
    }

    /** `upgrade_do_write` */
    method UpgradeDoWrite(img: seq<byte>, dest: Dest) returns (ret: int)
      requires Valid() && dest in now.parts
      modifies this`now, this`past
      ensures Valid() && old(past) <= past && Only(old(now), |old(past)|, dest)
      ensures OnlyDiffersAt(old(now), now, dest)
      ensures if env.block == 0 then ret == -1 && now == old(now)
              else (now.parts[dest], ret) == DoWrite(img, old(now.parts[dest]), env.block, env.access(dest.part).io)
      ensures FirstRoundWrites(env, dest.part, img) ==> TornFirst(old(now), |old(past)|, dest)
    {
      hide CopyRound, OnlyDiffersAt;
      SameWorld(now, dest);
      if |img| == 0 {
        return -1;
      }
      var block := env.block;
      if block == 0 {
        return -1;
      }
      ret := 0;
      var offset, at := 0, 0;
      ghost var w0, from, io := now, |past|, env.access(dest.part).io;
      ghost var goal := CopyFrom(img, now.parts[dest], block, io, 0, 0, 0);
      while offset < |img|
        invariant Valid() && dest in now.parts && 0 <= offset && 0 <= at <= |img|
        invariant old(past) <= past && Only(w0, from, dest) && OnlyDiffersAt(w0, now, dest)
        invariant goal == CopyFrom(img, now.parts[dest], block, io, at, offset, ret)
        invariant if offset == 0 then at == 0 && now == w0 && past == old(past)
                  else FirstRoundWrites(env, dest.part, img) ==> TornFirst(w0, from, dest)
      {
        var more;
        more, at, ret := CopyOneRound(img, dest, at, offset, ret, w0, from);
        if !more {
          return;
        }
        ret := 0;
        offset := offset + block;
      }
    }

    /** `upgrade_write_partition`: an image that cannot be opened counts as written, with nothing
        done.  The image is removed afterwards, whether or not it was copied. */
    method UpgradeWritePartition(part: Part, slot: int) returns (ret: int)
      requires Valid() && part in images && 0 <= slot <= 1
      modifies this`now, this`past, this`images
      ensures Valid() && old(past) <= past && Only(old(now), |old(past)|, Dest(part, slot))
      ensures OnlyDiffersAt(old(now), now, Dest(part, slot))
      ensures (now.parts[Dest(part, slot)], ret)
                == PartResult(env, part, Some(old(images[part])), old(now.parts[Dest(part, slot)]))
      ensures env.block == 16384 && FullReads(env.access(part).io) ==>
                (ret == 0 <==> Acceptable(env.access(part), Some(old(images[part])), old(now.parts[Dest(part, slot)])))
      ensures !env.access(part).opens ==> ret == 0 && now == old(now) && past == old(past)
      ensures images == if env.access(part).opens && env.access(part).ready then old(images) - {part} else old(images)
      ensures Begins(env, part, Some(old(images[part]))) ==> TornFirst(old(now), |old(past)|, Dest(part, slot))
    {
      hide DoWrite, OnlyDiffersAt, FirstRoundWrites, TornFirst, FullReads, WritesSucceed;
      SameWorld(now, Dest(part, slot));
      if env.block == 16384 && FullReads(env.access(part).io) {
        AcceptedIff(env, part, Some(images[part]), now.parts[Dest(part, slot)]);
      }
      if !env.access(part).opens {
        return 0;
      }
      if !env.access(part).ready {
        return -1;
      }
      ret := UpgradeDoWrite(images[part], Dest(part, slot));
      images := images - {part};
    }

    /** `upgrade_partition`: an image that is not there counts as written. */
    method UpgradePartition(part: Part, slot: int) returns (ret: int)
      requires Valid() && 0 <= slot <= 1
      modifies this`now, this`past, this`images
      ensures Valid() && old(past) <= past && Only(old(now), |old(past)|, Dest(part, slot))
      ensures OnlyDiffersAt(old(now), now, Dest(part, slot))
      ensures (now.parts[Dest(part, slot)], ret)
                == PartResult(env, part, ImageOf(old(images), part), old(now.parts[Dest(part, slot)]))
      ensures part !in old(images) || !env.access(part).opens ==>
                ret == 0 && now == old(now) && past == old(past) && images == old(images)
      ensures images == old(images) || images == old(images) - {part}
      ensures Begins(env, part, ImageOf(old(images), part)) ==> TornFirst(old(now), |old(past)|, Dest(part, slot))
    {
      hide OnlyDiffersAt, PartResult, FirstRoundWrites, TornFirst;
      SameWorld(now, Dest(part, slot));
      if part !in images {
        NoImage(env, part, now.parts[Dest(part, slot)]);
        return 0;
      }
      ret := UpgradeWritePartition(part, slot);
      return if ret < 0 then -1 else 0;
    }

    /** `rk_ab_meta_active_another_slot`.  The 32 bytes of the record are written at once: they are
        the old ones or the new ones.  A write that reports a failure may have happened. */
    method ActivateAnotherSlot() returns (ret: int)
      requires Valid()
      modifies this`now, this`past
      ensures Valid() && now.parts == old(now.parts)
      ensures ret == if env.record.readable && env.running >= 0 && env.record.reported then 0 else -1
      ensures now.meta == if env.record.readable && env.running >= 0 && (env.record.reported || env.record.landed)
                          then ActivateAnother(old(now.meta), env.running) else old(now.meta)
      ensures past == old(past) || past == old(past) + [now]
    {
      if !env.record.readable {
        return -1;
      }
      var running := env.running;
      if running < 0 {
        return -1;
      }
      var data := now.meta;
      data := data.(slots := data.slots[running := data.slots[running].(priority := MAX_PRIORITY - 1)]);
      data := data.(slots := data.slots[1 - running := data.slots[1 - running].(priority := MAX_PRIORITY)]);
      data := data.(slots := data.slots[1 - running := data.slots[1 - running].(triesRemaining := MAX_TRIES)]);
      data := data.(slots := data.slots[1 - running := data.slots[1 - running].(successfulBoot := 0)]);
      hide CurrentSlot, Bootable;
      assert data == Prefer(now.meta, running);
      data := data.(lastBoot := 0);
      data := UpdateCrc(data);
      if env.record.reported || env.record.landed {
        now := World(now.parts, data);
        past := past + [now];
      }
      return if env.record.reported then 0 else -1;
    }

    /** The loop of `rk_upgrade_packet` over the partitions, ending at the first that fails; how
        many were dealt with. */
    method UpgradePartitions(ghost found: map<Part, seq<byte>>) returns (ret: int, ghost tried: nat)
      requires Valid() && 0 <= env.running <= 1 && images == found
      modifies this`now, this`past, this`images
      ensures Valid() && old(past) <= past && Intact(env, old(now), now)
      ensures AllIntact(env, old(now), |old(past)|, past)
      ensures tried <= |PARTS| && Progress(env, old(now), found, tried, now)
      ensures if ret >= 0 then ret == 0 && tried == |PARTS| && AllPassed(env, old(now), found, tried)
              else && ret == -1 && tried > 0 && AllPassed(env, old(now), found, tried - 1)
                   && Outcome(env, old(now), found, PARTS[tried - 1]).1 == -1
      ensures TornSeen(env, old(now), found, tried, |old(past)|, past)
    {
      hide OnlyDiffersAt, PartResult, Begins, Outcome, RunningKept, AllIntact, TornSeen;
      ret, tried := 0, 0;
      ghost var w0 := now;
      KeptItself(env, w0);
      NothingPassed(env, w0, found, past);
      for i := 0 to |PARTS|
        invariant Valid() && old(past) <= past && Intact(env, w0, now) && ret == 0 && tried == i
        invariant AllIntact(env, w0, |old(past)|, past)
        invariant Waiting(found, i, images)
        invariant Progress(env, w0, found, i, now) && AllPassed(env, w0, found, i)
        invariant TornSeen(env, w0, found, i, |old(past)|, past)
      {
        ghost var w, passed, dest := now, past, Dest(PARTS[i], 1 - env.running);
        tried := i + 1;
        ret := UpgradePartition(PARTS[i], 1 - env.running);
        StillIntact(env, w0, w, now, dest);
        MoreIntact(env, w0, w, dest, |old(past)|, passed, past);
        MoreTorn(env, w0, found, w, i, |old(past)|, passed, past);
        OneMore(env, w0, found, i, w, now, ret);
        if ret < 0 {
          return;
        }
      }
    }

    /** `rk_upgrade_packet`.  `ready` says whether the packet can be found and the temporary
        directory exists; `status` is what system() returns for the unpacking.  Only a negative
        status is noticed, so what the directory then holds, `found`, is arbitrary.  The result of
        activating the other slot is not looked at. */
    method UpgradePacket(ready: bool, status: int, found: map<Part, seq<byte>>) returns (ret: int)
      requires Valid()
      modifies this
      ensures Valid() && old(past) <= past
      ensures !ready || env.running < 0 || status < 0 ==> ret == -1 && now == old(now) && past == old(past)
      // the result, from what happens to each partition
      ensures ready && env.running >= 0 && status >= 0 ==> ret == if NoneFails(env, old(now), found) then 0 else -1
      ensures ready && env.running >= 0 && status >= 0 && WholeReads(env, found) ==>
                (ret == 0 <==> AllAcceptable(env, old(now), found))
      ensures ret == 0 && env.record.readable && (env.record.reported || env.record.landed) ==>
                CurrentSlot(now.meta) == 1 - env.running
      ensures ret < 0 && ready && env.running >= 0 && status >= 0 ==> StoppedAtFirst(env, old(now), found, now)
      // the state reached
      ensures env.running >= 0 ==> RunningKept(env, old(now), now)
      ensures ret < 0 ==> now.meta == old(now.meta)
      ensures ret >= 0 ==> AllDone(env, old(now), found, now) && PlacedExactly(env, old(now), found, now)
      ensures ret >= 0 ==> now.meta == if env.record.readable && (env.record.reported || env.record.landed)
                                       then ActivateAnother(old(now.meta), env.running) else old(now.meta)
      // the states on the way
      ensures forall i :: |old(past)| <= i < |past| ==> CrashSafe(env, old(now), found, past[i])
      ensures ret >= 0 ==> TornSeen(env, old(now), found, |PARTS|, |old(past)|, past)
    {
      hide CurrentSlot, ActivateAnother, Outcome, NoneFails, AllDone, PlacedExactly, Progress, AllPassed, CrashSafe,
        RunningKept, TornSeen, AllAcceptable, StoppedAtFirst;
      if env.running == -1 {
        return -1;
      }
      KeptItself(env, now);
      if !ready || status < 0 {
        return -1;
      }
      images := found;
      ghost var w0 := now;
      ghost var tried;
      ret, tried := UpgradePartitions(found);
      forall i | |old(past)| <= i < |past| ensures CrashSafe(env, w0, found, past[i]) {
        IntactIsSafe(env, w0, found, past[i]);
      }
      if ret >= 0 {
        AllTried(env, w0, found, now);
        PlacedAsFound(env, w0, found, now);
        ghost var w, passed := now, past;
        var _ := ActivateAnotherSlot();
        RecordApart(env, w0, found, w, now);
        KeepsTorn(env, w0, found, |PARTS|, |old(past)|, passed, past);
      } else {
        OneFailed(env, w0, found, PARTS[tried - 1]);
        StoppedThere(env, w0, found, tried, now);
      }
      ActivateAnotherSelects(w0.meta, env.running);
      if WholeReads(env, found) {
        NoneFailsIff(env, w0, found);
      }
    }
  }

  /** Nothing goes wrong with any partition. */
  ghost predicate NoneFails(env: Env, w0: World, found: map<Part, seq<byte>>)
    requires w0.Valid() && 0 <= env.running <= 1
  {
    forall p: Part :: Outcome(env, w0, found, p).1 == 0
  }

  lemma NoneFailsIff(env: Env, w0: World, found: map<Part, seq<byte>>)
    requires w0.Valid() && 0 <= env.running <= 1 && WholeReads(env, found)
    ensures NoneFails(env, w0, found) <==> AllAcceptable(env, w0, found)
  {
    hide PartResult, Acceptable, FullReads;
    forall p: Part
      ensures Outcome(env, w0, found, p).1 == 0 <==>
              Acceptable(env.access(p), ImageOf(found, p), w0.parts[Dest(p, 1 - env.running)])
    {
      var dst := w0.parts[Dest(p, 1 - env.running)];
      if p in found {
        AcceptedIff(env, p, ImageOf(found, p), dst);
      } else {
        NoImage(env, p, dst);
        AcceptableWithout(env.access(p), dst);
      }
    }
  }

  lemma AcceptableWithout(a: Access, dst: seq<byte>)
    ensures Acceptable(a, None, dst)
  {
  }

  /** uboot, then boot, then the root file system. */
  function Rank(p: Part): nat {
    match p case UbootPart => 0 case BootPart => 1 case SystemPart => 2
  }

  /** Some partition has failed, those in front of it have been dealt with, and those behind it are
      as they were. */
  ghost predicate StoppedAtFirst(env: Env, w0: World, found: map<Part, seq<byte>>, w: World)
    requires w0.Valid() && w.Valid() && 0 <= env.running <= 1
  {
    exists p: Part :: Outcome(env, w0, found, p).1 == -1 && StoppedAt(env, w0, found, w, p)
  }

  ghost predicate StoppedAt(env: Env, w0: World, found: map<Part, seq<byte>>, w: World, p: Part)
    requires w0.Valid() && w.Valid() && 0 <= env.running <= 1
  {
    forall q: Part ::
      && (Rank(q) < Rank(p) ==> Outcome(env, w0, found, q).1 == 0)
      && w.parts[Dest(q, 1 - env.running)] == if Rank(q) <= Rank(p) then Outcome(env, w0, found, q).0
                                             else w0.parts[Dest(q, 1 - env.running)]
  }

  lemma StoppedThere(env: Env, w0: World, found: map<Part, seq<byte>>, tried: nat, w: World)
    requires w0.Valid() && w.Valid() && 0 <= env.running <= 1 && 0 < tried <= |PARTS|
    requires Progress(env, w0, found, tried, w) && AllPassed(env, w0, found, tried - 1)
    requires Outcome(env, w0, found, PARTS[tried - 1]).1 == -1
    ensures StoppedAtFirst(env, w0, found, w)
  {
    hide Outcome;
    var p := PARTS[tried - 1];
    forall q: Part
      ensures Rank(q) < Rank(p) ==> Outcome(env, w0, found, q).1 == 0
      ensures w.parts[Dest(q, 1 - env.running)] == if Rank(q) <= Rank(p) then Outcome(env, w0, found, q).0
                                                  else w0.parts[Dest(q, 1 - env.running)]
    {
      var i := EveryPart(q);
      assert Rank(q) == i && Rank(p) == tried - 1;
    }
    assert StoppedAt(env, w0, found, w, p);
  }

  lemma OneFailed(env: Env, w0: World, found: map<Part, seq<byte>>, p: Part)
    requires w0.Valid() && 0 <= env.running <= 1 && Outcome(env, w0, found, p).1 == -1
    ensures !NoneFails(env, w0, found)
  {
  }

  /** For each partition, unless a short read of its image goes unnoticed: an image that was found
      and opened is in front of it, with the rest as in w0, and otherwise it is as in w0.  So an
      image found is in place if and only if it could be opened or was in place in w0. */
  ghost predicate PlacedExactly(env: Env, w0: World, found: map<Part, seq<byte>>, w: World)
    requires w0.Valid() && w.Valid() && 0 <= env.running <= 1
  {
    forall p: Part :: ShortReadsNoticed(env.access(p).io, env.block) ==>
      PlacedAt(env, p, ImageOf(found, p), w0.parts[Dest(p, 1 - env.running)], w.parts[Dest(p, 1 - env.running)])
  }

  lemma KeptItself(env: Env, w: World)
    requires w.Valid() && 0 <= env.running <= 1
    ensures RunningKept(env, w, w)
  {
  }

  lemma IntactIsSafe(env: Env, w0: World, found: map<Part, seq<byte>>, w: World)
    requires w0.Valid() && 0 <= env.running <= 1 && Intact(env, w0, w)
    ensures CrashSafe(env, w0, found, w)
  {
  }

  /** Changing the record leaves the partitions as they are. */
  lemma RecordApart(env: Env, w0: World, found: map<Part, seq<byte>>, w: World, w': World)
    requires w0.Valid() && w.Valid() && 0 <= env.running <= 1
    requires Intact(env, w0, w) && AllDone(env, w0, found, w) && PlacedExactly(env, w0, found, w)
    requires w'.parts == w.parts && (w'.meta == w.meta || w'.meta == ActivateAnother(w.meta, env.running))
    ensures w'.Valid() && RunningKept(env, w0, w') && AllDone(env, w0, found, w') && PlacedExactly(env, w0, found, w')
    ensures CrashSafe(env, w0, found, w')
  {
    hide Outcome, ActivateAnother, ShortReadsNoticed;
  }

  /** All states passed from `from` on are intact. */
  ghost predicate AllIntact(env: Env, w0: World, from: nat, past: seq<World>)
    requires w0.Valid() && 0 <= env.running <= 1
  {
    forall i :: from <= i < |past| ==> Intact(env, w0, past[i])
  }

  /** For each of the first n partitions whose copy comes to a device write, the states passed from
      `from` on include that of power loss during the first one. */
  ghost predicate TornSeen(env: Env, w0: World, found: map<Part, seq<byte>>, n: nat, from: nat, past: seq<World>)
    requires n <= |PARTS|
  {
    forall k :: 0 <= k < n && Begins(env, PARTS[k], ImageOf(found, PARTS[k])) ==>
      exists i :: from <= i < |past| && TornIn(env, w0, past[i], PARTS[k])
  }

  lemma NothingPassed(env: Env, w0: World, found: map<Part, seq<byte>>, past: seq<World>)
    requires w0.Valid() && 0 <= env.running <= 1
    ensures AllIntact(env, w0, |past|, past) && TornSeen(env, w0, found, 0, |past|, past)
  {
  }

  lemma MoreIntact(env: Env, w0: World, w: World, dest: Dest, from: nat, past: seq<World>, past1: seq<World>)
    requires w0.Valid() && 0 <= env.running <= 1 && Intact(env, w0, w) && dest.slot == 1 - env.running
    requires past <= past1 && AllIntact(env, w0, from, past)
    requires forall i :: |past| <= i < |past1| ==> OnlyDiffersAt(w, past1[i], dest)
    ensures AllIntact(env, w0, from, past1)
  {
    hide OnlyDiffersAt, Intact;
    forall i | from <= i < |past1| ensures Intact(env, w0, past1[i]) {
      if i >= |past| {
        StillIntact(env, w0, w, past1[i], dest);
      } else {
        assert past1[i] == past[i];
      }
    }
  }

  lemma KeepsTorn(env: Env, w0: World, found: map<Part, seq<byte>>, n: nat, from: nat, past: seq<World>,
                  past1: seq<World>)
    requires n <= |PARTS| && past <= past1 && TornSeen(env, w0, found, n, from, past)
    ensures TornSeen(env, w0, found, n, from, past1)
  {
    hide Begins, TornIn;
    forall k | 0 <= k < n && Begins(env, PARTS[k], ImageOf(found, PARTS[k]))
      ensures exists i :: from <= i < |past1| && TornIn(env, w0, past1[i], PARTS[k])
    {
      var i :| from <= i < |past| && TornIn(env, w0, past[i], PARTS[k]);
      assert past1[i] == past[i];
    }
  }

  lemma MoreTorn(env: Env, w0: World, found: map<Part, seq<byte>>, w: World, n: nat, from: nat, past: seq<World>,
                 past1: seq<World>)
    requires n < |PARTS| && from <= |past| && past <= past1 && TornSeen(env, w0, found, n, from, past)
    requires w.meta == w0.meta
    requires var dest := Dest(PARTS[n], 1 - env.running);
             Begins(env, PARTS[n], ImageOf(found, PARTS[n])) ==>
               |past| < |past1| && past1[|past|] == World(w.parts[dest := env.access(PARTS[n]).torn(0)], w.meta)
    ensures TornSeen(env, w0, found, n + 1, from, past1)
  {
    hide Begins;
    KeepsTorn(env, w0, found, n, from, past, past1);
    if Begins(env, PARTS[n], ImageOf(found, PARTS[n])) {
      assert TornIn(env, w0, past1[|past|], PARTS[n]);
    }
  }

  lemma NoImage(env: Env, part: Part, dst: seq<byte>)
    ensures PartResult(env, part, None, dst) == (dst, 0)
  {
  }

  /** All partitions of the running slot, and the record, are as in w0. */
  ghost predicate Intact(env: Env, w0: World, w: World)
    requires w0.Valid() && 0 <= env.running <= 1
  {
    RunningKept(env, w0, w) && w.meta == w0.meta
  }

  /** Of the other slot's partitions the first n have been dealt with, the others are as in w0. */
  ghost predicate Progress(env: Env, w0: World, found: map<Part, seq<byte>>, n: nat, w: World)
    requires w0.Valid() && w.Valid() && 0 <= env.running <= 1 && n <= |PARTS|
  {
    forall i :: 0 <= i < |PARTS| ==>
      var dest := Dest(PARTS[i], 1 - env.running);
      w.parts[dest] == if i < n then Outcome(env, w0, found, PARTS[i]).0 else w0.parts[dest]
  }

  ghost predicate AllPassed(env: Env, w0: World, found: map<Part, seq<byte>>, n: nat)
    requires w0.Valid() && 0 <= env.running <= 1 && n <= |PARTS|
  {
    forall i :: 0 <= i < n ==> Outcome(env, w0, found, PARTS[i]).1 == 0
  }

  /** The images from the n-th on are still in the directory. */
  ghost predicate Waiting(found: map<Part, seq<byte>>, n: nat, images: map<Part, seq<byte>>)
    requires n <= |PARTS|
  {
    forall i :: n <= i < |PARTS| ==> ImageOf(images, PARTS[i]) == ImageOf(found, PARTS[i])
  }

  lemma StillIntact(env: Env, w0: World, w: World, w': World, dest: Dest)
    requires w0.Valid() && 0 <= env.running <= 1 && Intact(env, w0, w)
    requires OnlyDiffersAt(w, w', dest) && dest.slot == 1 - env.running
    ensures Intact(env, w0, w')
  {
  }

  lemma OneMore(env: Env, w0: World, found: map<Part, seq<byte>>, n: nat, w: World, w': World, ret: int)
    requires w0.Valid() && w.Valid() && w'.Valid() && 0 <= env.running <= 1 && n < |PARTS|
    requires Progress(env, w0, found, n, w) && OnlyDiffersAt(w, w', Dest(PARTS[n], 1 - env.running))
    requires var dest := Dest(PARTS[n], 1 - env.running);
             (w'.parts[dest], ret) == PartResult(env, PARTS[n], ImageOf(found, PARTS[n]), w.parts[dest])
    ensures Progress(env, w0, found, n + 1, w') && Outcome(env, w0, found, PARTS[n]).1 == ret
  {
    hide PartResult;
    assert w.parts[Dest(PARTS[n], 1 - env.running)] == w0.parts[Dest(PARTS[n], 1 - env.running)];
  }

  lemma EveryPart(p: Part) returns (i: nat)
    ensures i < |PARTS| && PARTS[i] == p
  {
    i := match p case UbootPart => 0 case BootPart => 1 case SystemPart => 2;
  }

  lemma AllTried(env: Env, w0: World, found: map<Part, seq<byte>>, w: World)
    requires w0.Valid() && w.Valid() && 0 <= env.running <= 1
    requires Progress(env, w0, found, |PARTS|, w) && AllPassed(env, w0, found, |PARTS|)
    ensures AllDone(env, w0, found, w) && NoneFails(env, w0, found)
  {
    hide PartResult, Outcome;
    forall p: Part ensures Outcome(env, w0, found, p) == (w.parts[Dest(p, 1 - env.running)], 0) {
      var i := EveryPart(p);
    }
  }

  lemma PlacedAsFound(env: Env, w0: World, found: map<Part, seq<byte>>, w: World)
    requires w0.Valid() && w.Valid() && 0 <= env.running <= 1 && AllDone(env, w0, found, w)
    ensures PlacedExactly(env, w0, found, w)
  {
    hide PartResult, ShortReadsNoticed, PlacedAt;
    forall p: Part | ShortReadsNoticed(env.access(p).io, env.block)
      ensures PlacedAt(env, p, ImageOf(found, p), w0.parts[Dest(p, 1 - env.running)],
                       w.parts[Dest(p, 1 - env.running)])
    {
      assert Outcome(env, w0, found, p) == (w.parts[Dest(p, 1 - env.running)], 0);
      InPlaceIff(env, p, ImageOf(found, p), w0.parts[Dest(p, 1 - env.running)]);
    }
  }

  /** If nothing has been unpacked, no partition fails, so the call succeeds and activates the
      other slot, none of whose partitions has changed. */
  lemma NothingUnpacked(env: Env, w0: World, w: World)
    requires w0.Valid() && w.Valid() && 0 <= env.running <= 1
    ensures NoneFails(env, w0, map[])
    ensures AllDone(env, w0, map[], w) <==> SlotKept(w0, w, 1 - env.running)
  {
    forall p: Part ensures Outcome(env, w0, map[], p) == (w0.parts[Dest(p, 1 - env.running)], 0) {
      NoImage(env, p, w0.parts[Dest(p, 1 - env.running)]);
    }
    if AllDone(env, w0, map[], w) {
      var slot := 1 - env.running;
      forall p: Part ensures w.parts[Dest(p, slot)] == w0.parts[Dest(p, slot)] {
        assert Outcome(env, w0, map[], p) == (w.parts[Dest(p, slot)], 0);
      }
    }
  }
}
