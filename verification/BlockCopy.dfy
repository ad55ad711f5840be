/** The copy loop of `upgrade_do_write` (upgrade/src/dl_upgrade.c) over the eMMC backend, and
    exactly when the success it reports means a complete copy. */
module BlockCopy {
  import opened Bytes

  /** How the calls at one offset of a copy turn out: by how many bytes an fread falls short,
      whether the write fails, and what a failed write leaves on the device. */
  datatype Io = Io(short: nat -> nat, fails: nat -> bool, junk: nat -> seq<byte>)

  /** `rk_block_write` takes the result of lseek64 for an int, so it refuses every offset whose
      low 32 bits make a negative one. */
  predicate SeekAccepted(offset: nat) {
    offset % 0x1_0000_0000 < 0x8000_0000
  }

  /** What a failed write leaves: junk of at most the written length, cut at the end. */
  function Torn(dst: seq<byte>, offset: nat, n: nat, junk: seq<byte>): (r: seq<byte>)
    ensures |r| == |dst|
  {
    var len := Min(Min(n, |junk|), if offset < |dst| then |dst| - offset else 0);
    if len == 0 then dst else Put(dst, offset, junk[..len])
  }

  /** How a round of the copy turns out: it ends the copy with a result, or leaves the file
      position for the next one. */
  datatype Round = Ends(dst: seq<byte>, ret: int) | GoesOn(dst: seq<byte>, at: nat)

  /** One round of the loop of `upgrade_do_write` (erasing does nothing on eMMC), with the file
      position at `at` and the result `ret` so far. */
  function CopyRound(img: seq<byte>, dst: seq<byte>, block: nat, io: Io, at: nat, offset: nat, ret: int): (r: Round)
    requires at <= |img|
    ensures |r.dst| == |dst|
    ensures if r.Ends? then r.ret == -1 || r.ret == ret else r.at <= |img|
  {
    var want := Min(block, |img| - at);
    var got := if io.short(offset) < want then want - io.short(offset) else 0;
    if got == 0 then Ends(dst, if offset != block then -1 else ret)
    else if !SeekAccepted(offset) then Ends(dst, -1)
    else if io.fails(offset) || offset + got > |dst| then Ends(Torn(dst, offset, got, io.junk(offset)), -1)
    else GoesOn(Put(dst, offset, img[at..at + got]), at + got)
  }

  /** The round comes to its device write. */
  predicate RoundWrites(img: seq<byte>, block: nat, io: Io, at: nat, offset: nat)
    requires at <= |img|
  {
    io.short(offset) < Min(block, |img| - at) && SeekAccepted(offset)
  }

  /** The loop from `offset` on: the device contents and the result. */
  function CopyFrom(img: seq<byte>, dst: seq<byte>, block: nat, io: Io, at: nat, offset: nat, ret: int)
    : (r: (seq<byte>, int))
    requires 0 < block && at <= |img|
    ensures |r.0| == |dst| && (r.1 == 0 || r.1 == -1 || r.1 == ret)
    decreases |img| - offset
  {
    if offset >= |img| then (dst, ret)
    else
      match CopyRound(img, dst, block, io, at, offset, ret)
      case Ends(dst1, ret1) => (dst1, ret1)
      case GoesOn(dst1, at1) => CopyFrom(img, dst1, block, io, at1, offset + block, 0)
  }

  /** `upgrade_do_write`: an empty image is refused. */
  function DoWrite(img: seq<byte>, dst: seq<byte>, block: nat, io: Io): (r: (seq<byte>, int))
    requires 0 < block
    ensures |r.0| == |dst| && (r.1 == 0 || r.1 == -1)
  {
    if img == [] then (dst, -1) else CopyFrom(img, dst, block, io, 0, 0, 0)
  }

  ghost predicate FullReads(io: Io) {
    forall t: nat :: io.short(t) == 0
  }

  ghost predicate NoWriteFaults(io: Io) {
    forall t: nat :: !io.fails(t)
  }

  /** No write fails at p, p + block, p + 2 * block, ... below n. */
  predicate WritesSucceed(io: Io, block: nat, p: nat, n: nat)
    requires 0 < block
    decreases n - p
  {
    p >= n || (!io.fails(p) && WritesSucceed(io, block, p + block, n))
  }

  lemma {:induction false} WithoutFaults(io: Io, block: nat, p: nat, n: nat)
    requires 0 < block && NoWriteFaults(io)
    ensures WritesSucceed(io, block, p, n)
    decreases n - p
  {
    if p < n {
      WithoutFaults(io, block, p + block, n);
    }
  }

  /** No read falls short at p, p + block, p + 2 * block, ... below n. */
  predicate ReadsInFull(io: Io, block: nat, p: nat, n: nat)
    requires 0 < block
    decreases n - p
  {
    p >= n || (io.short(p) == 0 && ReadsInFull(io, block, p + block, n))
  }

  lemma {:induction false} FullIsInFull(io: Io, block: nat, p: nat, n: nat)
    requires 0 < block && FullReads(io)
    ensures ReadsInFull(io, block, p, n)
    decreases n - p
  {
    if p < n {
      FullIsInFull(io, block, p + block, n);
    }
  }

  /** The image in front, the rest of the device as it was. */
  predicate Complete(img: seq<byte>, dst: seq<byte>, dst': seq<byte>) {
    |img| <= |dst| && dst' == img + dst[|img|..]
  }

  lemma ChunkPut(img: seq<byte>, dst0: seq<byte>, offset: nat, got: nat)
    requires offset + got <= |img| && offset + got <= |dst0|
    ensures Put(img[..offset] + dst0[offset..], offset, img[offset..offset + got])
              == img[..offset + got] + dst0[offset + got..]
  {
  }

  /** One round of the loop when its read delivers in full. */
  lemma FullReadRound(img: seq<byte>, dst0: seq<byte>, block: nat, io: Io, offset: nat)
    requires 0 < block && io.short(offset) == 0 && offset < |img| && offset <= |dst0|
    ensures var got := Min(block, |img| - offset);
            var dst := img[..offset] + dst0[offset..];
            var t := CopyFrom(img, dst, block, io, offset, offset, 0);
            if SeekAccepted(offset) && !io.fails(offset) && offset + got <= |dst0| then
              t == CopyFrom(img, img[..offset + got] + dst0[offset + got..], block, io,
                            offset + got, offset + block, 0)
            else t.1 == -1
  {
    hide Torn, Put, SeekAccepted;
    var got := Min(block, |img| - offset);
    if offset + got <= |dst0| {
      ChunkPut(img, dst0, offset, got);
    }
  }

  /** When every read delivers in full, the loop is at the same offset in the file and on the
      device, and success means a complete copy. */
  lemma {:induction false} FullReadsCopy(img: seq<byte>, dst0: seq<byte>, block: nat, io: Io, offset: nat)
    requires 0 < block && FullReads(io) && offset <= |img| && offset <= |dst0|
    ensures var (dst', r) := CopyFrom(img, img[..offset] + dst0[offset..], block, io, offset, offset, 0);
            && (r >= 0 ==> Complete(img, dst0, dst'))
            && (r == 0 || r == -1)
            && (|img| <= 0x8000_0000 ==>
                  (r == 0 <==> |img| <= |dst0| && WritesSucceed(io, block, offset, |img|)))
    decreases |img| - offset
  {
    hide CopyFrom, SeekAccepted;
    if offset == |img| {
      assert img[..offset] == img;
      CopyEnd(img, img[..offset] + dst0[offset..], block, io, offset, offset);
    } else {
      var got := Min(block, |img| - offset);
      FullReadRound(img, dst0, block, io, offset);
      EarlySeek(offset);
      if SeekAccepted(offset) && !io.fails(offset) && offset + got <= |dst0| {
        if got == block {
          FullReadsCopy(img, dst0, block, io, offset + block);
        } else {
          assert img[..offset + got] == img;
          CopyEnd(img, img + dst0[|img|..], block, io, |img|, offset + block);
        }
      }
    }
  }

  lemma CopyEnd(img: seq<byte>, dst: seq<byte>, block: nat, io: Io, at: nat, offset: nat)
    requires 0 < block && at <= |img| <= offset
    ensures CopyFrom(img, dst, block, io, at, offset, 0) == (dst, 0)
  {
  }

  lemma EarlySeek(offset: nat)
    ensures offset < 0x8000_0000 ==> SeekAccepted(offset)
    ensures 0x8000_0000 <= offset < 0x1_0000_0000 ==> !SeekAccepted(offset)
  {
  }

  /** Success with full reads means a complete copy, for any block size. */
  lemma DoWriteCopies(img: seq<byte>, dst: seq<byte>, block: nat, io: Io)
    requires 0 < block && FullReads(io)
    ensures var (dst', r) := DoWrite(img, dst, block, io); r >= 0 ==> Complete(img, dst, dst')
  {
    hide CopyFrom;
    assert img[..0] + dst[0..] == dst;
    FullReadsCopy(img, dst, block, io, 0);
  }

  /** When every read delivers in full, an image of up to 2 GiB is written if and only if it is not
      empty and fits and no write fails, with any block size. */
  lemma DoWriteAnyBlock(img: seq<byte>, dst: seq<byte>, block: nat, io: Io)
    requires 0 < block && FullReads(io) && |img| <= 0x8000_0000
    ensures var (dst', r) := DoWrite(img, dst, block, io);
            && (r == 0 <==> 0 < |img| <= |dst| && WritesSucceed(io, block, 0, |img|))
            && (r == 0 ==> Complete(img, dst, dst'))
  {
    hide CopyFrom;
    assert img[..0] + dst[0..] == dst;
    FullReadsCopy(img, dst, block, io, 0);
  }

  /** An image of more than 2 GiB cannot be written, whatever else happens: the loop comes to the
      offset 2^31, where the seek is refused. */
  lemma {:induction false} TooLarge(img: seq<byte>, dst: seq<byte>, block: nat, io: Io, offset: nat, ret: int)
    requires 0 < block && FullReads(io) && |img| > 0x8000_0000 && offset <= 0x8000_0000
    requires Steps(offset, 0x8000_0000, block)
    ensures CopyFrom(img, dst, block, io, offset, offset, ret).1 == -1
    decreases |img| - offset
  {
    hide Torn, Put, SeekAccepted;
    assert io.short(offset) == 0;
    EarlySeek(offset);
    var round := CopyRound(img, dst, block, io, offset, offset, ret);
    assert round.GoesOn? ==> offset + block <= 0x8000_0000 && round.at == offset + block;
    hide CopyRound;
    if round.GoesOn? {
      TooLarge(img, round.dst, block, io, offset + block, 0);
    }
  }

  /** Going up from p in steps of e one comes to q. */
  predicate Steps(p: nat, q: nat, e: nat)
    requires 0 < e
    decreases q - p
  {
    p == q || (p + e <= q && Steps(p + e, q, e))
  }

  lemma {:induction false} StepsUp(p: nat, q: nat, e: nat, k: nat)
    requires 0 < e && q == p + k * e
    ensures Steps(p, q, e)
    decreases k
  {
    if k > 0 {
      assert (k - 1) * e == k * e - e;
      assert (k - 1) * e >= 0;
      StepsUp(p + e, q, e, k - 1);
    }
  }

  const BLOCK_WRITE_LEN := 16384

  /** With 16 KiB blocks and full reads, `upgrade_do_write` succeeds if and only if the image is not
      empty, fits the partition and is no larger than 2 GiB and no write fails, and then the copy is
      complete. */
  lemma DoWriteSucceedsIff(img: seq<byte>, dst: seq<byte>, io: Io)
    requires FullReads(io)
    ensures var (dst', r) := DoWrite(img, dst, 16384, io);
            && (r == 0 <==> 0 < |img| <= |dst| && |img| <= 0x8000_0000 && WritesSucceed(io, 16384, 0, |img|))
            && (r == 0 ==> Complete(img, dst, dst'))
  {
    hide CopyFrom;
    assert img[..0] + dst[0..] == dst;
    FullReadsCopy(img, dst, BLOCK_WRITE_LEN, io, 0);
    if |img| > 0x8000_0000 {
      StepsUp(0, 0x8000_0000, BLOCK_WRITE_LEN, 131072);
      TooLarge(img, dst, BLOCK_WRITE_LEN, io, 0, 0);
    }
  }

  // ---------- which short reads go unnoticed, for a given block size ----------

  /** From `offset` on, in steps of a block and up to 2 GiB, the first fread that falls short, if
      there is one, delivers nothing and is not that of the second block. */
  ghost predicate Vigilant(io: Io, block: nat, offset: nat)
    requires 0 < block
    decreases 0x8000_0000 - offset
  {
    || offset >= 0x8000_0000
    || (if io.short(offset) == 0 then Vigilant(io, block, offset + block)
        else offset != block && io.short(offset) >= block)
  }

  lemma {:induction false} VigilantCopy(img: seq<byte>, dst0: seq<byte>, block: nat, io: Io, offset: nat)
    requires 0 < block < 0x8000_0000 && Vigilant(io, block, offset)
    requires offset < 0x1_0000_0000 && offset <= |img| && offset <= |dst0|
    ensures var (dst', r) := CopyFrom(img, img[..offset] + dst0[offset..], block, io, offset, offset, 0);
            r >= 0 ==> Complete(img, dst0, dst')
    decreases |img| - offset
  {
    hide CopyFrom, SeekAccepted;
    if offset == |img| {
      assert img[..offset] == img;
      CopyEnd(img, img[..offset] + dst0[offset..], block, io, offset, offset);
    } else if io.short(offset) == 0 {
      var got := Min(block, |img| - offset);
      FullReadRound(img, dst0, block, io, offset);
      EarlySeek(offset);
      if SeekAccepted(offset) && !io.fails(offset) && offset + got <= |dst0| {
        if got == block {
          VigilantCopy(img, dst0, block, io, offset + block);
        } else {
          assert img[..offset + got] == img;
          CopyEnd(img, img + dst0[|img|..], block, io, |img|, offset + block);
        }
      }
    } else {
      ShortReadRound(img, img[..offset] + dst0[offset..], block, io, offset);
    }
  }

  /** A short read beyond 2 GiB, or one that delivers nothing and is not that of the second block,
      makes the copy fail. */
  lemma ShortReadRound(img: seq<byte>, dst: seq<byte>, block: nat, io: Io, offset: nat)
    requires 0 < block < 0x8000_0000 && offset < |img| && offset < 0x1_0000_0000 && io.short(offset) > 0
    requires offset >= 0x8000_0000 || (offset != block && io.short(offset) >= block)
    ensures CopyFrom(img, dst, block, io, offset, offset, 0).1 == -1
  {
    hide Torn, Put, SeekAccepted;
    EarlySeek(offset);
  }

  /** Then success means a complete copy, whatever writes fail. */
  lemma VigilantCopies(img: seq<byte>, dst: seq<byte>, block: nat, io: Io)
    requires 0 < block < 0x8000_0000 && Vigilant(io, block, 0)
    ensures var (dst', r) := DoWrite(img, dst, block, io); r >= 0 ==> Complete(img, dst, dst')
  {
    hide CopyFrom;
    assert img[..0] + dst[0..] == dst;
    VigilantCopy(img, dst, block, io, 0);
  }

  /** Going up from p in steps of a block one comes to t, and no fread on the way falls short. */
  ghost predicate FullUpTo(io: Io, block: nat, p: nat, t: nat)
    requires 0 < block
    decreases t - p
  {
    p == t || (p + block <= t && io.short(p) == 0 && FullUpTo(io, block, p + block, t))
  }

  lemma {:induction false} FirstShort(io: Io, block: nat, offset: nat) returns (t: nat)
    requires 0 < block && !Vigilant(io, block, offset)
    ensures FullUpTo(io, block, offset, t) && t < 0x8000_0000
    ensures io.short(t) > 0 && (t == block || io.short(t) < block)
    decreases 0x8000_0000 - offset
  {
    if io.short(offset) > 0 {
      t := offset;
    } else {
      t := FirstShort(io, block, offset + block);
    }
  }

  lemma {:induction false} RunUpTo(img: seq<byte>, dst0: seq<byte>, block: nat, io: Io, p: nat, t: nat)
    requires 0 < block && NoWriteFaults(io) && FullUpTo(io, block, p, t)
    requires t < 0x8000_0000 && t < |img| == |dst0|
    ensures CopyFrom(img, img[..p] + dst0[p..], block, io, p, p, 0)
              == CopyFrom(img, img[..t] + dst0[t..], block, io, t, t, 0)
    decreases t - p
  {
    hide CopyFrom;
    if p < t {
      FullReadRound(img, dst0, block, io, p);
      RunUpTo(img, dst0, block, io, p + block, t);
    }
  }

  /** An image and a partition for which the first short read goes unnoticed. */
  lemma UnnoticedAt(io: Io, block: nat, t: nat) returns (img: seq<byte>, dst: seq<byte>)
    requires 0 < block && NoWriteFaults(io) && FullUpTo(io, block, 0, t) && t < 0x8000_0000
    requires io.short(t) > 0 && (t == block || io.short(t) < block)
    ensures DoWrite(img, dst, block, io).1 == 0 && !Complete(img, dst, DoWrite(img, dst, block, io).0)
  {
    hide Torn, FullUpTo, CopyFrom;
    var n := if t == block then 1 else io.short(t) + 1;
    img, dst := Fill(t + n, 1), Fill(t + n, 0);
    assert img[..0] + dst[0..] == dst;
    RunUpTo(img, dst, block, io, 0, t);
    var dst1 := img[..t] + dst[t..];
    LastRound(img, dst1, block, io, t);
    assert dst1[t + n - 1] == 0 && (img + dst[t + n..])[t + n - 1] == 1;
  }

  /** The round in which the read falls short ends the copy with success and leaves the last byte
      unwritten. */
  lemma LastRound(img: seq<byte>, dst: seq<byte>, block: nat, io: Io, t: nat)
    requires 0 < block && NoWriteFaults(io) && t < 0x8000_0000 && io.short(t) > 0 && |dst| == |img|
    requires |img| == t + if t == block then 1 else io.short(t) + 1
    requires t == block || io.short(t) < block
    ensures var (dst', r) := CopyFrom(img, dst, block, io, t, t, 0);
            r == 0 && dst'[|img| - 1] == dst[|img| - 1]
  {
    hide Torn;
    var round := CopyRound(img, dst, block, io, t, t, 0);
    if t == block {
      assert round == Ends(dst, 0);
    } else {
      assert round == GoesOn(Put(dst, t, img[t..t + 1]), t + 1);
      hide CopyRound;
      CopyEnd(img, round.dst, block, io, t + 1, t + block);
    }
  }

  /** For a given block size, the 16 KiB the program uses for one: "if upgrade_do_write reports
      success the copy is complete" holds for all images and partitions if and only if the first
      fread that falls short, if there is one below 2 GiB, delivers nothing and is not that of
      the second block. */
  lemma SuccessMeansCompleteIffVigilant(block: nat, io: Io)
    requires 0 < block < 0x8000_0000 && NoWriteFaults(io)
    ensures Vigilant(io, block, 0) <==>
            forall img, dst :: DoWrite(img, dst, block, io).1 == 0
              ==> Complete(img, dst, DoWrite(img, dst, block, io).0)
  {
    hide DoWrite;
    if Vigilant(io, block, 0) {
      forall img, dst | DoWrite(img, dst, block, io).1 == 0 ensures Complete(img, dst, DoWrite(img, dst, block, io).0) {
        VigilantCopies(img, dst, block, io);
      }
    } else {
      var t := FirstShort(io, block, 0);
      var img, dst := UnnoticedAt(io, block, t);
      assert DoWrite(img, dst, block, io).1 == 0;
    }
  }

  /** No fread falls short, or the first that does makes the copy fail. */
  ghost predicate ShortReadsNoticed(io: Io, block: nat) {
    block > 0 ==> FullReads(io) || (block < 0x8000_0000 && Vigilant(io, block, 0))
  }

  lemma NoticedCopies(img: seq<byte>, dst: seq<byte>, block: nat, io: Io)
    requires 0 < block && ShortReadsNoticed(io, block)
    ensures var (dst', r) := DoWrite(img, dst, block, io); r >= 0 ==> Complete(img, dst, dst')
  {
    hide DoWrite;
    if FullReads(io) {
      DoWriteCopies(img, dst, block, io);
    } else {
      VigilantCopies(img, dst, block, io);
    }
  }
}
