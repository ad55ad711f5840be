/** `block_write` of ota/src/bootloader.c and the digest comparison behind it: `checkdata` of
    ota/src/md5sum.c over any streaming digest, and `comparefile`. */
module BlockCompare {
  import opened Bytes
  import opened BlockCopy

  /** `block_write` onto a block device that holds dst: it copies in 16 KiB chunks and gives up at
      the first read or write that does not transfer all it was asked to.  Its opens succeed. */
  method BlockWrite(src: seq<byte>, dst: array<byte>, io: Io) returns (r: int)
    modifies dst
    ensures r == 0 || r == -1
    ensures r == 0 ==> Complete(src, old(dst[..]), dst[..])
    ensures r == 0 <==> |src| <= dst.Length && ReadsInFull(io, 16384, 0, |src|)
                        && WritesSucceed(io, 16384, 0, |src|)
  {
    hide Torn;
    var srcRemain, destRemain := |src|, |src|;
    var at := 0;
    ghost var next: nat := 0;
    while srcRemain > 0 && destRemain > 0
      invariant srcRemain == destRemain == |src| - at && 0 <= at <= |src|
      invariant at <= dst.Length && dst[..at] == src[..at]
      invariant forall i :: at <= i < dst.Length ==> dst[i] == old(dst[i])
      invariant if at < |src| then next == at else |src| <= next
      invariant ReadsInFull(io, 16384, 0, |src|) == ReadsInFull(io, 16384, next, |src|)
      invariant WritesSucceed(io, 16384, 0, |src|) == WritesSucceed(io, 16384, next, |src|)
    {
      var readCount := Min(srcRemain, BLOCK_WRITE_LEN);
      if io.short(at) > 0 {
        return -1;
      }
      var buf := src[at..at + readCount];
      srcRemain := srcRemain - readCount;
      var writeCount := Min(destRemain, BLOCK_WRITE_LEN);
      if io.fails(at) || at + writeCount > dst.Length {
        var junk := Torn(dst[..], at, writeCount, io.junk(at));
        forall i | 0 <= i < dst.Length {
          dst[i] := junk[i];
        }
        return -1;
      }
      forall i | 0 <= i < writeCount {
        dst[at + i] := buf[i];
      }
      assert dst[..at + writeCount] == src[..at] + buf;
      assert src[..at + writeCount] == src[..at] + buf;
      destRemain := destRemain - writeCount;
      at := at + writeCount;
      next := next + BLOCK_WRITE_LEN;
    }
    assert src[..at] == src;
    assert dst[..] == dst[..at] + dst[at..] && dst[at..] == old(dst[..])[at..];
    return 0;
  }

  /** A digest computed piece by piece. */
  datatype Digest<!S(!new), !D(!new)> = Digest(init: S, update: (S, seq<byte>) -> S, final: S -> D)

  /** It does not matter how the data is cut into pieces. */
  ghost predicate Streaming<S(!new), D(!new)>(d: Digest<S, D>) {
    && (forall s :: d.update(s, []) == s)
    && (forall s, a, b :: d.update(d.update(s, a), b) == d.update(s, a + b))
  }

  const STEP := 512

  /** `checkdata` on a file or block device that holds `file`: the digest of checkSize bytes from
      the offset on, computed 512 bytes at a time; None if they are not there. */
  method CheckData<S(!new), D(!new)>(d: Digest<S, D>, file: seq<byte>, offset: nat, checkSize: nat)
    returns (sum: Option<D>)
    requires Streaming(d)
    ensures sum == if checkSize == 0 then Some(d.final(d.init))
                   else if offset + checkSize <= |file|
                   then Some(d.final(d.update(d.init, file[offset..offset + checkSize])))
                   else None
  {
    var left := checkSize;
    var at := offset;
    var ctx := d.init;
    while left > 0
      invariant 0 <= left <= checkSize && at + left == offset + checkSize
      invariant left < checkSize ==> at <= |file|
      invariant ctx == if left == checkSize then d.init else d.update(d.init, file[offset..at])
    {
      var readSize := if left > STEP then STEP else left;
      if at + readSize > |file| {
        return None;
      }
      assert left < checkSize ==> file[offset..at] + file[at..at + readSize] == file[offset..at + readSize];
      left := left - readSize;
      ctx := d.update(ctx, file[at..at + readSize]);
      at := at + readSize;
    }
    return Some(d.final(ctx));
  }

  /** `comparefile` from offset 0 on.  It does not look at what `checkdata` returns: when one of
      the two cannot be read it compares a digest that was never set. */
  method CompareFile<S(!new), D(==,0,!new)>(d: Digest<S, D>, dest: seq<byte>, source: seq<byte>, checkSize: nat)
    returns (r: int)
    requires Streaming(d)
    ensures r == 0 || r == -1
    ensures checkSize <= |dest| && checkSize <= |source| ==>
              (r == 0 <==> d.final(d.update(d.init, dest[..checkSize]))
                             == d.final(d.update(d.init, source[..checkSize])))
  {
    var sumDest: D := *;
    var sumSource: D := *;
    var got := CheckData(d, dest, 0, checkSize);
    if got.Some? {
      sumDest := got.value;
    }
    got := CheckData(d, source, 0, checkSize);
    if got.Some? {
      sumSource := got.value;
    }
    if checkSize == 0 {
      assert dest[..checkSize] == [] && source[..checkSize] == [];
    } else if checkSize <= |dest| && checkSize <= |source| {
      assert dest[0..0 + checkSize] == dest[..checkSize] && source[0..0 + checkSize] == source[..checkSize];
    }
    return if sumDest == sumSource then 0 else -1;
  }

  /** The block-device path of `flash_write_partition`: copy, then compare digests.  It accepts the
      image exactly if that fits and no read or write goes wrong; without faults the device then
      holds what
      `upgrade_do_write` would have left on it with any block size. */
  method FlashWritePartition<S(!new), D(==,0,!new)>(d: Digest<S, D>, src: seq<byte>, dst: array<byte>, io: Io,
                                                    ghost block: nat)
    returns (r: int)
    requires Streaming(d) && 0 < block
    modifies dst
    ensures r == 0 || r == -1
    ensures r == 0 ==> Complete(src, old(dst[..]), dst[..])
    ensures r == 0 <==> |src| <= dst.Length && ReadsInFull(io, 16384, 0, |src|)
                        && WritesSucceed(io, 16384, 0, |src|)
    ensures FullReads(io) && NoWriteFaults(io) && 0 < |src| <= dst.Length && |src| <= 0x8000_0000 ==>
              DoWrite(src, old(dst[..]), block, io) == (dst[..], 0)
  {
    hide DoWrite;
    r := BlockWrite(src, dst, io);
    if FullReads(io) && NoWriteFaults(io) && |src| <= 0x8000_0000 {
      DoWriteAnyBlock(src, old(dst[..]), block, io);
      WithoutFaults(io, block, 0, |src|);
      WithoutFaults(io, 16384, 0, |src|);
      FullIsInFull(io, 16384, 0, |src|);
    }
    if r != 0 {
      return;
    }
    assert dst[..][..|src|] == src == src[..|src|];
    r := CompareFile(d, dst[..], src, |src|);
  }
}
