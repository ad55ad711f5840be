/** The misc partition on an MTD device (`readMisc_mtd` and `writeMisc_mtd` of
    ota/src/bootloader.c): every access reads the whole partition, every update writes it back as a
    whole.  What the two compute, exactly when they succeed, and what they leave. */
module MiscMtd {
  import opened Bytes
  import opened MtdChip
  import opened MtdWriteSpec
  import opened MtdStream
  import opened MtdCapacity
  import opened MtdReadSpec
  import opened MtdReader
  import opened MtdWriter
  import opened MtdMirror
  import opened MtdRoundTrip

  // ---------- counting blocks ----------

  /** Disjoint blocks below hi hold at most hi bytes, and if they hold that many they are all
      the bytes below hi, in order. */
  lemma {:induction false} BlocksCover(mem: seq<byte>, homes: seq<int>, e: nat, hi: nat)
    requires hi <= |mem|
    requires forall i :: 0 <= i < |homes| ==> 0 <= homes[i] && homes[i] + e <= hi
    requires forall i, j :: 0 <= i < j < |homes| ==> homes[i] + e <= homes[j]
    ensures |Stored(mem, homes, e)| <= hi
    ensures |Stored(mem, homes, e)| == hi ==> Stored(mem, homes, e) == mem[..hi]
    decreases |homes|
  {
    if homes != [] {
      var h := homes[|homes| - 1];
      BlocksCover(mem, homes[..|homes| - 1], e, h);
      assert mem[..h] + mem[h..h + e] == mem[..h + e];
    }
  }

  /** A successful read of as many bytes as the partition has skipped no block: it returns the
      partition. */
  lemma FullReadIsContents(c: Chip, f: Flash)
    requires Fits(c, f) && f.pos == 0
    ensures var (r, out) := Take(c, Reader(f, [], []), c.size);
            out != None ==> out.value == f.mem && r.flash.mem == f.mem
  {
    hide Take, Stored;
    var r0 := Reader(f, [], []);
    EmptyStored(f.mem, c.eraseSize);
    TakeDelivers(c, r0, c.size, []);
    var (r, out) := Take(c, r0, c.size);
    if out != None {
      BlocksCover(f.mem, r.homes, c.eraseSize, c.size);
      assert f.mem[..c.size] == f.mem;
      assert [] + out.value + r.left == out.value + r.left;
    }
  }

  /** A successful write of as many bytes as the partition has skipped no block: afterwards the
      partition holds exactly those bytes, and nothing is pending. */
  lemma FullWriteIsContents(c: Chip, f: Flash, data: seq<byte>)
    requires Fits(c, f) && f.pos == 0 && |data| == c.size
    ensures var (w, st) := WriteData(c, Writer(Medium(f, [], []), []), data);
            st == Done ==> w.medium.flash.mem == data && w.pending == []
  {
    hide Drain, Stored;
    var m0 := Medium(f, [], []);
    assert [] + data == data;
    if data != [] {
      DrainEffect(c, m0, data);
      var (m, rest, st) := Drain(c, m0, data);
      if st == Done {
        EmptyStored(f.mem, c.eraseSize);
        assert Stream(c, m0) + data == data;
        StoredIsBlocks(m.flash.mem, m.homes, c.eraseSize);
        BlocksCover(m.flash.mem, m.homes, c.eraseSize, c.size);
        MultipleDifference(c.size, |Stream(c, m)|, c.eraseSize);
        assert rest == [];
        assert m.flash.mem[..c.size] == m.flash.mem;
        assert Stream(c, m) + rest == Stream(c, m);
      }
    }
  }

  /** Closing with nothing pending changes no byte. */
  lemma CloseKeepsContents(c: Chip, w: Writer)
    requires Fits(c, w.medium.flash) && w.pending == []
    ensures Close(c, w).0.flash.mem == w.medium.flash.mem
  {
  }

  // ---------- what an access computes ----------

  /** Whether finding the partition and opening it succeeds, for reading and, where it comes to that,
      for writing. */
  datatype Opening = Opening(forRead: bool, forWrite: bool)

  /** Open the partition and read all of it. */
  function ReadWhole(c: Chip, f: Flash, opens: bool): (r: (Flash, Option<seq<byte>>))
    requires Fits(c, f)
    ensures Fits(c, r.0) && r.0.mem == f.mem && (r.1.Some? ==> |r.1.value| == c.size)
  {
    if !opens then (f, None)
    else
      var (r, out) := Take(c, Reader(f.(pos := 0), [], []), c.size);
      (r.flash, out)
  }

  /** `writeMisc_mtd`: the device and the result. */
  function Rewrite(c: Chip, f: Flash, o: Opening, offset: nat, buf: seq<byte>): (r: (Flash, int))
    requires Fits(c, f) && offset + |buf| <= c.size
    ensures Fits(c, r.0) && (r.1 == 0 || r.1 == -1)
  {
    var (f1, image) := ReadWhole(c, f, o.forRead);
    if image == None || !o.forWrite then (f1, -1)
    else
      var (w, st) := WriteData(c, Writer(Medium(f1.(pos := 0), [], []), []), Put(image.value, offset, buf));
      var (m, closed) := Close(c, w);
      (m.flash, if st != Done || closed != 0 then -1 else 0)
  }

  /** Writing to a fresh context, however it ends, and also closing it, leaves the blocks reported
      bad alone. */
  lemma BadBlocksKept(c: Chip, f: Flash, data: seq<byte>)
    requires Fits(c, f)
    ensures var w := WriteData(c, Writer(Medium(f, [], []), []), data).0;
            BadUntouched(c, f.mem, w.medium.flash.mem) && BadUntouched(c, f.mem, Close(c, w).0.flash.mem)
  {
    hide WriteData, Close, Stored;
    var w0 := Writer(Medium(f, [], []), []);
    var w := WriteData(c, w0, data).0;
    assert Step(c, w0, Write(data)) == w;
    StepEffect(c, w0, Write(data));
    CloseEffect(c, w);
    LaterTransitive(c, w0.medium, w.medium, Close(c, w).0);
  }

  /** What a write of a whole image from the start of the partition leaves there, whether or not it
      succeeds. */
  ghost predicate LeftBy(c: Chip, mem: seq<byte>, image: seq<byte>, mem': seq<byte>) {
    exists f: Flash :: Fits(c, f) && f.mem == mem && f.pos == 0
                       && mem' == WriteData(c, Writer(Medium(f, [], []), []), image).0.medium.flash.mem
  }

  /** Closing behind such a write changes nothing. */
  lemma WholeWriteThenClose(c: Chip, f: Flash, data: seq<byte>)
    requires Fits(c, f) && f.pos == 0 && |data| == c.size
    ensures var w := WriteData(c, Writer(Medium(f, [], []), []), data).0;
            && w.pending == [] && Close(c, w).0.flash.mem == w.medium.flash.mem
            && LeftBy(c, f.mem, data, w.medium.flash.mem)
  {
    hide Drain, Close;
    FullWriteIsContents(c, f, data);
    var w := WriteData(c, Writer(Medium(f, [], []), []), data).0;
    assert w.pending == [];
    CloseKeepsContents(c, w);
  }

  lemma UnchangedIsUntouched(c: Chip, mem: seq<byte>)
    requires c.Valid() && |mem| == c.size
    ensures BadUntouched(c, mem, mem)
  {
  }

  // ---------- what it leaves ----------

  lemma ReadWholeIs(c: Chip, f: Flash, opens: bool)
    requires Fits(c, f)
    ensures ReadWhole(c, f, opens).1 == None || ReadWhole(c, f, opens).1 == Some(f.mem)
  {
    hide Take;
    FullReadIsContents(c, f.(pos := 0));
  }

  /** If it succeeds, the partition is what it was with the bytes at the offset replaced; if not, it
      is as it was or what a write of that image has left; and no block reported bad has changed. */
  lemma RewriteLeaves(c: Chip, f: Flash, o: Opening, offset: nat, buf: seq<byte>)
    requires Fits(c, f) && offset + |buf| <= c.size
    ensures var (f1, r) := Rewrite(c, f, o, offset, buf);
            && (r == 0 ==> f1.mem == Put(f.mem, offset, buf))
            && (f1.mem == f.mem || LeftBy(c, f.mem, Put(f.mem, offset, buf), f1.mem))
            && BadUntouched(c, f.mem, f1.mem)
  {
    hide ReadWhole, WriteData, Close, BadUntouched, LeftBy, Put;
    UnchangedIsUntouched(c, f.mem);
    ReadWholeIs(c, f, o.forRead);
    var (f1, image) := ReadWhole(c, f, o.forRead);
    if image != None && o.forWrite {
      var f2 := f1.(pos := 0);
      var data := Put(f.mem, offset, buf);
      FullWriteIsContents(c, f2, data);
      BadBlocksKept(c, f2, data);
      WholeWriteThenClose(c, f2, data);
    }
  }

  // ---------- when it succeeds ----------

  /** The query calls every block good. */
  ghost predicate AllGood(c: Chip)
    requires c.Valid()
  {
    forall q :: c.IsBlock(q) ==> c.Query(q) == Zero
  }

  /** All bytes from p on are served if and only if all blocks are good. */
  lemma {:induction false} ServedIff(c: Chip, mem: seq<byte>, p: nat)
    requires c.Valid() && |mem| == c.size && p <= c.size && c.Aligned(p) && Multiple(c.size - p, c.eraseSize)
    ensures |Served(c, mem, p, c.size)| <= c.size - p
    ensures |Served(c, mem, p, c.size)| == c.size - p <==> forall q :: c.IsBlock(q) && p <= q ==> c.Query(q) == Zero
    decreases c.size - p
  {
    if p + c.eraseSize <= c.size {
      ServedIff(c, mem, p + c.eraseSize);
      assert c.IsBlock(p);
      forall q | c.IsBlock(q) && p < q ensures p + c.eraseSize <= q {
        AlignedApart(p, q, c.eraseSize);
      }
    }
  }

  lemma FaultFreeIsQuiet(c: Chip, t: nat)
    requires FaultFree(c, t)
    ensures QuietFrom(c, t)
  {
  }

  lemma FaultFreeLater(c: Chip, t: nat, u: nat)
    requires FaultFree(c, t) && t <= u
    ensures FaultFree(c, u)
  {
  }

  /** Without faults the partition can be read if and only if it opens and all its blocks are good. */
  lemma ReadWholeIff(c: Chip, f: Flash, opens: bool)
    requires Fits(c, f) && FaultFree(c, f.clock)
    ensures ReadWhole(c, f, opens).1 != None <==> opens && AllGood(c)
    ensures ReadWhole(c, f, opens).1 != None ==> ReadWhole(c, f, opens).0.clock >= f.clock
  {
    hide Take, FaultFree, QuietFrom, Served;
    FaultFreeIsQuiet(c, f.clock);
    var r := Reader(f.(pos := 0), [], []);
    TakeQuiet(c, r, c.size);
    ServedIff(c, f.mem, 0);
    assert [] + Served(c, f.mem, 0, c.size) == Served(c, f.mem, 0, c.size);
  }

  /** Without faults a write succeeds if and only if the partition opens and all its blocks are
      good. */
  lemma RewriteIff(c: Chip, f: Flash, o: Opening, offset: nat, buf: seq<byte>)
    requires Fits(c, f) && FaultFree(c, f.clock) && offset + |buf| <= c.size
    ensures Rewrite(c, f, o, offset, buf).1 == 0 <==> o.forRead && o.forWrite && AllGood(c)
    ensures Rewrite(c, f, o, offset, buf).1 == 0 ==> Rewrite(c, f, o, offset, buf).0.clock >= f.clock
  {
    hide ReadWhole, WriteData, Close, FaultFree, Put, AllGood;
    ReadWholeIff(c, f, o.forRead);
    var (f1, image) := ReadWhole(c, f, o.forRead);
    if image != None && o.forWrite {
      var f2 := f1.(pos := 0);
      var data := Put(image.value, offset, buf);
      FaultFreeLater(c, f.clock, f2.clock);
      WholeWriteIff(c, f2, data);
      WholeWriteThenClose(c, f2, data);
      var w := WriteData(c, Writer(Medium(f2, [], []), []), data).0;
      CloseWithNothingPending(c, w.medium);
      CloseFaultFree(c, f2.clock, w.medium);
      GoodIsNotSkipped(c);
    }
  }

  lemma GoodIsNotSkipped(c: Chip)
    requires c.Valid()
    ensures AllGood(c) ==> forall q :: c.IsBlock(q) ==> !c.Skips(q)
  {
  }

  lemma CloseFaultFree(c: Chip, t: nat, m: Medium)
    requires Fits(c, m.flash) && FaultFree(c, t) && t <= m.flash.clock
    ensures c.fault(m.flash.clock).seekOk && c.fault(m.flash.clock + 1).ok
    ensures Close(c, Writer(m, [])).0.flash.clock == m.flash.clock + 2
  {
    assert c.fault(m.flash.clock).seekOk && c.fault(m.flash.clock + 1).ok;
    hide EraseFrom, FaultFree;
    var f := m.flash.(clock := m.flash.clock + 1);
    assert BlocksLeft(c, f) >= 0;
    EraseNothing(c, f);
  }

  /** Whatever happens, a write succeeds only if the partition opens both times and the last call on
      the device, which closes it, succeeds. */
  lemma RewriteNeedsClose(c: Chip, f: Flash, o: Opening, offset: nat, buf: seq<byte>)
    requires Fits(c, f) && offset + |buf| <= c.size
    ensures var (f1, r) := Rewrite(c, f, o, offset, buf);
            r == 0 ==> o.forRead && o.forWrite && f1.clock > 0 && c.fault(f1.clock - 1).ok
  {
    hide WriteData, Take, EraseBlocks;
  }

  // ---------- the program ----------

  /** `readMisc_mtd` */
  method ReadMiscMtd(dev: Mtd, opens: bool, offset: nat, size: nat) returns (r: int, buf: seq<byte>)
    requires dev.Valid() && offset + size <= dev.chip.size
    modifies dev
    ensures dev.Valid() && |buf| == size && (r == 0 || r == -1)
    ensures var (f, image) := ReadWhole(dev.chip, old(dev.now), opens); dev.now == f && (r == 0 <==> image != None)
    ensures dev.now.mem == old(dev.now.mem)
    ensures buf == if r == 0 then dev.now.mem[offset..offset + size] else Fill(size, 0)
  {
    hide Take;
    buf := Fill(size, 0);
    if !opens {
      return -1, buf;
    }
    ReadWholeIs(dev.chip, dev.now, opens);
    var read := new ReadContext(dev);
    ghost var f := dev.now;
    var total := dev.chip.size;
    var data := new byte[total];
    var got := read.ReadData(data, total);
    if got != total {
      return -1, buf;
    }
    buf := data[offset..offset + size];
    assert buf == data[..total][offset..offset + size];
    return 0, buf;
  }

  /** `writeMisc_mtd` */
  method WriteMiscMtd(dev: Mtd, o: Opening, buf: seq<byte>, offset: nat) returns (r: int)
    requires dev.Valid() && offset + |buf| <= dev.chip.size
    modifies dev
    ensures dev.Valid() && (dev.now, r) == Rewrite(dev.chip, old(dev.now), o, offset, buf)
  {
    hide Take, MtdWriteSpec.WriteData, MtdWriteSpec.Close;
    ghost var f0 := dev.now;
    if !o.forRead {
      return -1;
    }
    ReadWholeIs(dev.chip, dev.now, true);
    var read := new ReadContext(dev);
    var total := dev.chip.size;
    var data := new byte[total];
    var got := read.ReadData(data, total);
    if got != total {
      return -1;
    }
    assert data[..] == f0.mem by { assert data[..total] == data[..]; }
    forall i | 0 <= i < |buf| {
      data[offset + i] := buf[i];
    }
    assert data[..] == Put(f0.mem, offset, buf);
    hide Put;
    if !o.forWrite {
      return -1;
    }
    var write := new WriteContext(dev);
    var wrote := write.WriteData(data[..]);
    if wrote != total {
      var _ := write.Close();
      return -1;
    }
    var closed := write.Close();
    return if closed != 0 then -1 else 0;
  }
}
