/** The misc partition (ota/src/bootloader.c): on an MTD device, where every access reads the whole
    partition and every update writes it back as a whole, or on a block device. */
module Misc {
  import opened Bytes
  import opened MtdChip
  import opened MtdWriteSpec
  import opened MtdStream
  import opened MtdCapacity
  import opened MiscMtd
  import opened AbRecord
  import opened Slots

  const AB_OFFSET := 2048
  const MESSAGE_OFFSET := 16384
  const MESSAGE_SIZE := 1088

  // ---------- the partition on either kind of device ----------

  /** How one access to the partition as a file turns out: whether fopen, fseek, fread or fwrite, and
      fclose succeed, and how many bytes reach the device if one of the last two does not. */
  datatype FileIo = FileIo(opens: bool, seeks: bool, full: bool, closes: bool, part: nat)

  /** Some of the bytes have been written, at the offset or, if fseek failed, at the start. */
  ghost predicate CutShort(mem: seq<byte>, offset: nat, buf: seq<byte>, mem': seq<byte>)
    requires offset + |buf| <= |mem|
  {
    exists k: nat, at: nat :: k <= |buf| && (at == 0 || at == offset) && mem' == Put(mem, at, buf[..k])
  }

  lemma FaultFreeFrom(c: Chip, t: nat)
    requires FaultFree(c, t)
    ensures forall u: nat :: t <= u ==> FaultFree(c, u)
  {
  }

  /** The misc partition, on MTD or on a block device. */
  class Partition {
    const onMtd: bool
    const mtd: Mtd
    const opening: nat -> Opening
    const file: nat -> FileIo
    var block: seq<byte>
    var calls: nat

    constructor (onMtd: bool, mtd: Mtd, opening: nat -> Opening, file: nat -> FileIo, block: seq<byte>)
      requires mtd.Valid()
      ensures Valid() && Contents() == if onMtd then mtd.now.mem else block
      ensures this.onMtd == onMtd && this.mtd == mtd && this.opening == opening && this.file == file
    {
      this.onMtd, this.mtd, this.opening, this.file := onMtd, mtd, opening, file;
      this.block, this.calls := block, 0;
    }

    ghost predicate Valid()
      reads this, mtd
    {
      mtd.Valid()
    }

    ghost function Contents(): seq<byte>
      reads this, mtd
    {
      if onMtd then mtd.now.mem else block
    }

    /** No fseek fails.  The program does not look at its result. */
    ghost predicate Seeks() {
      onMtd || forall t: nat :: file(t).seeks
    }

    /** The access number t goes through on the block device. */
    predicate GoesThrough(t: nat) {
      file(t).opens && file(t).full && file(t).closes
    }

    /** Nothing goes wrong from now on, and on MTD every block is good. */
    ghost predicate Flawless()
      requires Valid()
      reads this, mtd
    {
      if onMtd then
        (forall t: nat :: opening(t) == Opening(true, true)) && FaultFree(mtd.chip, mtd.now.clock) && AllGood(mtd.chip)
      else forall t: nat :: GoesThrough(t) && file(t).seeks
    }

    /** Where an access meant for an offset goes. */
    function At(t: nat, offset: nat): nat {
      if file(t).seeks then offset else 0
    }

    /** `readMisc_block` */
    method ReadMiscBlock(offset: nat, size: nat) returns (r: int, buf: seq<byte>)
      requires Valid() && offset + size <= |block|
      modifies this`calls
      ensures Valid() && |buf| == size && (r == 0 || r == -1)
      ensures r == 0 <==> GoesThrough(old(calls))
      ensures r == 0 ==> buf == block[At(old(calls), offset)..][..size]
    {
      var io := file(calls);
      var at := At(calls, offset);
      calls := calls + 1;
      buf := Fill(size, 0);
      if !io.opens {
        return -1, buf;
      }
      if !io.full {
        return -1, buf;
      }
      buf := block[at..][..size];
      return if io.closes then 0 else -1, buf;
    }

    /** `writeMisc_block` */
    method WriteMiscBlock(buf: seq<byte>, offset: nat) returns (r: int)
      requires Valid() && offset + |buf| <= |block|
      modifies this`calls, this`block
      ensures Valid() && |block| == |old(block)| && (r == 0 || r == -1)
      ensures r == 0 <==> GoesThrough(old(calls))
      ensures block == if !file(old(calls)).opens then old(block)
                       else Put(old(block), At(old(calls), offset),
                                if r == 0 then buf else buf[..Min(file(old(calls)).part, |buf|)])
    {
      var io := file(calls);
      var at := At(calls, offset);
      calls := calls + 1;
      if !io.opens {
        return -1;
      }
      if !io.full {
        block := Put(block, at, buf[..Min(io.part, |buf|)]);
        return -1;
      }
      block := Put(block, at, if io.closes then buf else buf[..Min(io.part, |buf|)]);
      return if io.closes then 0 else -1;
    }

    /** `readMisc` */
    method ReadMisc(offset: nat, size: nat) returns (r: int, buf: seq<byte>)
      requires Valid() && offset + size <= |Contents()|
      modifies this`calls, mtd
      ensures Valid() && Contents() == old(Contents())
      ensures |buf| == size && (r == 0 || r == -1)
      ensures r == 0 && Seeks() ==> buf == Contents()[offset..offset + size]
      ensures r == 0 <==> if onMtd then ReadWhole(mtd.chip, old(mtd.now), opening(old(calls)).forRead).1 != None
                          else GoesThrough(old(calls))
      ensures old(Flawless()) ==> r == 0 && Flawless()
    {
      hide ReadWhole, FaultFree, AllGood;
      if onMtd {
        if Flawless() {
          ReadWholeIff(mtd.chip, mtd.now, true);
          FaultFreeFrom(mtd.chip, mtd.now.clock);
        }
        var t := calls;
        calls := calls + 1;
        r, buf := ReadMiscMtd(mtd, opening(t).forRead, offset, size);
      } else {
        ghost var t := calls;
        r, buf := ReadMiscBlock(offset, size);
        assert file(t).seeks ==> block[offset..][..size] == block[offset..offset + size];
      }
    }

    /** `writeMisc`: if it succeeds, the partition is what it was with the bytes at the offset
        replaced.  If not, it is as it was or what a write cut short has left: on MTD one of the
        whole new image, on a block device one of the bytes.  No block reported bad has changed. */
    method WriteMisc(buf: seq<byte>, offset: nat) returns (r: int)
      requires Valid() && offset + |buf| <= |Contents()|
      modifies this`calls, this`block, mtd
      ensures Valid() && |Contents()| == |old(Contents())| && (r == 0 || r == -1)
      ensures r == 0 && Seeks() ==> Contents() == Put(old(Contents()), offset, buf)
      ensures r == 0 <==> if onMtd then Rewrite(mtd.chip, old(mtd.now), opening(old(calls)), offset, buf).1 == 0
                          else GoesThrough(old(calls))
      ensures old(Flawless()) ==> r == 0 && Flawless()
      ensures onMtd ==> BadUntouched(mtd.chip, old(mtd.now.mem), mtd.now.mem)
      ensures || Contents() == old(Contents())
              || if onMtd then LeftBy(mtd.chip, old(Contents()), Put(old(Contents()), offset, buf), Contents())
                 else CutShort(old(Contents()), offset, buf, Contents())
    {
      hide LeftBy, BadUntouched, Rewrite, FaultFree, AllGood;
      if onMtd {
        var t := calls;
        RewriteLeaves(mtd.chip, mtd.now, opening(t), offset, buf);
        if Flawless() {
          RewriteIff(mtd.chip, mtd.now, opening(t), offset, buf);
          FaultFreeFrom(mtd.chip, mtd.now.clock);
        }
        calls := calls + 1;
        r := WriteMiscMtd(mtd, opening(t), buf, offset);
      } else {
        ghost var io, at := file(calls), At(calls, offset);
        r := WriteMiscBlock(buf, offset);
        assert buf[..|buf|] == buf;
        ghost var k := if r == 0 then |buf| else Min(io.part, |buf|);
        assert io.opens ==> block == Put(old(block), at, buf[..k]);
      }
    }
  }

  // ---------- the partition as independent cells ----------

  /** The A/B record and the bootloader message, as far as the partition reaches. */
  predicate HasCells(mem: seq<byte>) {
    MESSAGE_OFFSET + MESSAGE_SIZE <= |mem|
  }

  function AbCell(mem: seq<byte>): (r: seq<byte>)
    requires HasCells(mem)
    ensures |r| == DATA_SIZE
  {
    mem[AB_OFFSET..AB_OFFSET + DATA_SIZE]
  }

  function MessageCell(mem: seq<byte>): (r: seq<byte>)
    requires HasCells(mem)
    ensures |r| == MESSAGE_SIZE
  {
    mem[MESSAGE_OFFSET..MESSAGE_OFFSET + MESSAGE_SIZE]
  }

  /** A successful `writeABMisc` or `set_bootloader_message`. */
  datatype Update = WriteAb(record: seq<byte>) | WriteMessage(message: seq<byte>)

  predicate Proper(u: Update) {
    match u case WriteAb(b) => |b| == DATA_SIZE case WriteMessage(b) => |b| == MESSAGE_SIZE
  }

  function Apply(mem: seq<byte>, u: Update): (r: seq<byte>)
    requires HasCells(mem) && Proper(u)
    ensures |r| == |mem|
  {
    match u case WriteAb(b) => Put(mem, AB_OFFSET, b) case WriteMessage(b) => Put(mem, MESSAGE_OFFSET, b)
  }

  function ApplyAll(mem: seq<byte>, us: seq<Update>): (r: seq<byte>)
    requires HasCells(mem) && forall i :: 0 <= i < |us| ==> Proper(us[i])
    ensures |r| == |mem|
    decreases |us|
  {
    if us == [] then mem else ApplyAll(Apply(mem, us[0]), us[1..])
  }

  /** The value last written to each cell, or its first value if there is none. */
  function LastAb(first: seq<byte>, us: seq<Update>): seq<byte>
    decreases |us|
  {
    if us == [] then first else LastAb(if us[0].WriteAb? then us[0].record else first, us[1..])
  }

  function LastMessage(first: seq<byte>, us: seq<Update>): seq<byte>
    decreases |us|
  {
    if us == [] then first else LastMessage(if us[0].WriteMessage? then us[0].message else first, us[1..])
  }

  /** In any interleaving of successful updates each cell holds its own last value, and every
      byte outside both is what it was. */
  lemma {:induction false} CellsAreIndependent(mem: seq<byte>, us: seq<Update>)
    requires HasCells(mem) && forall i :: 0 <= i < |us| ==> Proper(us[i])
    ensures var mem1 := ApplyAll(mem, us);
            && AbCell(mem1) == LastAb(AbCell(mem), us)
            && MessageCell(mem1) == LastMessage(MessageCell(mem), us)
            && mem1[..2048] == mem[..2048] && mem1[2080..16384] == mem[2080..16384] && mem1[17472..] == mem[17472..]
    decreases |us|
  {
    if us != [] {
      ApplyOne(mem, us[0]);
      CellsAreIndependent(Apply(mem, us[0]), us[1..]);
    }
  }

  lemma ApplyOne(mem: seq<byte>, u: Update)
    requires HasCells(mem) && Proper(u)
    ensures var mem1 := Apply(mem, u);
            && AbCell(mem1) == (if u.WriteAb? then u.record else AbCell(mem))
            && MessageCell(mem1) == (if u.WriteMessage? then u.message else MessageCell(mem))
            && mem1[..AB_OFFSET] == mem[..AB_OFFSET]
            && mem1[AB_OFFSET + DATA_SIZE..MESSAGE_OFFSET] == mem[AB_OFFSET + DATA_SIZE..MESSAGE_OFFSET]
            && mem1[MESSAGE_OFFSET + MESSAGE_SIZE..] == mem[MESSAGE_OFFSET + MESSAGE_SIZE..]
  {
  }

  /** Where an update goes, and what it writes there. */
  function OffsetOf(u: Update): nat {
    match u case WriteAb(_) => AB_OFFSET case WriteMessage(_) => MESSAGE_OFFSET
  }

  function BytesOf(u: Update): seq<byte> {
    match u case WriteAb(b) => b case WriteMessage(b) => b
  }

  /** One `writeABMisc` or `set_bootloader_message` after the other, until one fails. */
  method RunUpdates(misc: Partition, us: seq<Update>) returns (r: int)
    requires misc.Valid() && HasCells(misc.Contents()) && forall i :: 0 <= i < |us| ==> Proper(us[i])
    modifies misc, misc.mtd
    ensures misc.Valid() && HasCells(misc.Contents()) && (r == 0 || r == -1)
    ensures r == 0 && misc.Seeks() ==> misc.Contents() == ApplyAll(old(misc.Contents()), us)
    ensures old(misc.Flawless()) ==> r == 0 && misc.Flawless()
  {
    hide BadUntouched, Put, LeftBy, CutShort;
    assert us[0..] == us;
    for i := 0 to |us|
      invariant misc.Valid() && HasCells(misc.Contents())
      invariant old(misc.Flawless()) ==> misc.Flawless()
      invariant misc.Seeks() ==> ApplyAll(old(misc.Contents()), us) == ApplyAll(misc.Contents(), us[i..])
    {
      assert us[i..][0] == us[i] && us[i..][1..] == us[i + 1..];
      var ok := misc.WriteMisc(BytesOf(us[i]), OffsetOf(us[i]));
      if ok != 0 {
        return -1;
      }
    }
    return 0;
  }

  /** Any successful sequence of updates on the device, followed by `readABMisc` and
      `get_bootloader_message`: each returns what was last written to its cell, or what was there
      at first. */
  method UpdateAndReadBack(misc: Partition, us: seq<Update>) returns (r: int, record: seq<byte>, message: seq<byte>)
    requires misc.Valid() && HasCells(misc.Contents()) && forall i :: 0 <= i < |us| ==> Proper(us[i])
    modifies misc, misc.mtd
    ensures misc.Valid() && HasCells(misc.Contents())
    ensures r == 0 && misc.Seeks() ==>
              && record == LastAb(AbCell(old(misc.Contents())), us)
              && message == LastMessage(MessageCell(old(misc.Contents())), us)
              && misc.Contents() == ApplyAll(old(misc.Contents()), us)
    ensures old(misc.Flawless()) ==> r == 0
  {
    hide ApplyAll, LastAb, LastMessage;
    record, message := [], [];
    CellsAreIndependent(misc.Contents(), us);
    r := RunUpdates(misc, us);
    if r != 0 {
      return;
    }
    r, record := misc.ReadMisc(AB_OFFSET, DATA_SIZE);
    if r != 0 {
      return;
    }
    r, message := misc.ReadMisc(MESSAGE_OFFSET, MESSAGE_SIZE);
  }

  // ---------- the slot operations on the partition ----------

  /** The record on the partition. */
  function Record(mem: seq<byte>): (d: AbData)
    requires HasCells(mem)
    ensures d.Valid()
  {
    Parse(AbCell(mem))
  }

  lemma RecordWritten(mem: seq<byte>, d: AbData)
    requires HasCells(mem) && d.Valid()
    ensures Record(Put(mem, AB_OFFSET, Serialize(d))) == d
    ensures MessageCell(Put(mem, AB_OFFSET, Serialize(d))) == MessageCell(mem)
  {
    hide Serialize, Parse;
    ApplyOne(mem, WriteAb(Serialize(d)));
    ParseSerialize(d);
  }

  /** The bytes `setSlotActivity` writes: the priority of the slot left, the priority, the tries and
      the mark of the other one, and the checksum. */
  ghost predicate ActivityBytes(mem: seq<byte>, mem': seq<byte>, now: int)
    requires 2080 <= |mem| == |mem'| && 0 <= now <= 1
  {
    var left, other := 2056 + 4 * now, 2056 + 4 * (1 - now);
    && mem'[left] == 14 && mem'[other] == 15 && mem'[other + 1] == 7 && mem'[other + 2] == 0
    && forall i :: 0 <= i < |mem| && i != left && !(other <= i < other + 3) && !(2076 <= i < 2080) ==>
         mem'[i] == mem[i]
  }

  lemma ActivityRecordBytes(d: AbData, d1: AbData, now: int, k: nat)
    requires d.Valid() && d1.Valid() && 0 <= now <= 1 && Switched(d, d1, now) && k < 28
    requires d1 == d.(slots := d1.slots, crc := d1.crc)
    requires k != 8 + 4 * now && !(8 + 4 * (1 - now) <= k < 8 + 4 * (1 - now) + 3)
    ensures Serialize(d1)[k] == Serialize(d)[k]
  {
    hide Serialize;
    SerializeLayout(d);
    SerializeLayout(d1);
    var b, b1 := Serialize(d), Serialize(d1);
    if k < 4 {
      assert b[k] == b[..4][k] && b1[k] == b1[..4][k];
    } else if k < 8 {
      assert k < 6 || (b[k] == b[6..8][k - 6] && b1[k] == b1[6..8][k - 6]);
    } else if k < 16 {
      var i := (k - 8) / 4;
      assert k == 8 + 4 * i || k == 8 + 4 * i + 1 || k == 8 + 4 * i + 2 || k == 8 + 4 * i + 3;
    } else {
      assert k == 16 || (b[k] == b[17..28][k - 17] && b1[k] == b1[17..28][k - 17]);
    }
  }

  lemma ActivityOnDevice(mem: seq<byte>)
    requires HasCells(mem) && CurrentSlot(Record(mem)) != -1
    ensures ActivityBytes(mem, Put(mem, 2048, Serialize(SetActivity(Record(mem)).value)), CurrentSlot(Record(mem)))
  {
    hide CurrentSlot, Serialize, Parse, SetActivity;
    var d := Record(mem);
    var now := CurrentSlot(d);
    ActivityWrites(d);
    var d1 := SetActivity(d).value;
    var b := AbCell(mem);
    SerializeParse(b);
    SerializeLayout(d1);
    var b1 := Serialize(d1);
    var mem' := Put(mem, 2048, b1);
    assert forall k :: 0 <= k < 32 ==> mem'[2048 + k] == mem'[2048..2080][k] && mem[2048 + k] == b[k];
    forall i | 0 <= i < |mem| && i != 2056 + 4 * now && !(2056 + 4 * (1 - now) <= i < 2059 + 4 * (1 - now))
               && !(2076 <= i < 2080)
      ensures mem'[i] == mem[i]
    {
      if 2048 <= i < 2076 {
        ActivityRecordBytes(d, d1, now, i - 2048);
        assert mem'[2048 + (i - 2048)] == b1[i - 2048] && mem[2048 + (i - 2048)] == b[i - 2048];
      }
    }
    assert mem'[2048 + (8 + 4 * now)] == b1[8 + 4 * now] && mem'[2048 + (8 + 4 * (1 - now))] == b1[8 + 4 * (1 - now)];
    assert mem'[2048 + (9 + 4 * (1 - now))] == b1[9 + 4 * (1 - now)];
    assert mem'[2048 + (10 + 4 * (1 - now))] == b1[10 + 4 * (1 - now)];
  }

  /** `setSlotActivity`: if it succeeds, the record on the partition has been replaced by one with
      a right checksum that selects the other slot, and nothing else has changed. */
  method SetSlotActivity(misc: Partition) returns (r: int)
    requires misc.Valid() && HasCells(misc.Contents())
    modifies misc, misc.mtd
    ensures misc.Valid() && HasCells(misc.Contents()) && (r == 0 || r == -1)
    ensures r == 0 && misc.Seeks() ==> var d := Record(old(misc.Contents())); var d1 := SetActivity(d);
            && d1.Some? && misc.Contents() == Put(old(misc.Contents()), AB_OFFSET, Serialize(d1.value))
            && Record(misc.Contents()) == d1.value && Sealed(d1.value)
            && CurrentSlot(d1.value) == 1 - CurrentSlot(d)
            && ActivityBytes(old(misc.Contents()), misc.Contents(), CurrentSlot(d))
    ensures misc.Seeks() && CurrentSlot(Record(old(misc.Contents()))) == -1 ==>
              r == -1 && misc.Contents() == old(misc.Contents())
    ensures old(misc.Flawless()) ==> misc.Flawless() && (r == 0 <==> CurrentSlot(Record(old(misc.Contents()))) != -1)
  {
    hide Serialize, Parse, UpdateCrc, Sealed, Put, CurrentSlot, LeftBy, CutShort, BadUntouched, ReadWhole, Rewrite,
      ActivityBytes;
    var ok, bytes := misc.ReadMisc(AB_OFFSET, DATA_SIZE);
    if ok == -1 {
      return -1;
    }
    var info := Parse(bytes);
    var now := CurrentSlot(info);
    if now == -1 {
      return -1;
    }
    info := info.(slots := info.slots[now := info.slots[now].(priority := MAX_PRIORITY - 1)]);
    info := info.(slots := info.slots[1 - now := info.slots[1 - now].(priority := MAX_PRIORITY)]);
    info := info.(slots := info.slots[1 - now := info.slots[1 - now].(triesRemaining := MAX_TRIES)]);
    info := info.(slots := info.slots[1 - now := info.slots[1 - now].(successfulBoot := 0)]);
    assert info == Prefer(Parse(bytes), now);
    info := UpdateCrc(info);
    RecordWritten(misc.Contents(), info);
    ActivityFlips(Parse(bytes));
    if misc.Seeks() {
      ActivityOnDevice(misc.Contents());
    }
    var written := misc.WriteMisc(Serialize(info), AB_OFFSET);
    return if written != 0 then -1 else 0;
  }

  /** The middle of `setSlotSucceed`: what happens to the entry of the current slot. */
  method ConfirmSlot(entry: Slot, build: Build) returns (slot: Slot)
    ensures slot == Confirm(build, entry)
  {
    slot := entry;
    if slot.priority != MAX_PRIORITY {
      slot := slot.(priority := MAX_PRIORITY);
    }
    if build.successfulBoot {
      slot := slot.(triesRemaining := 0);
      slot := slot.(successfulBoot := 1);
    }
    if build.retryBoot {
      slot := slot.(triesRemaining := MAX_TRIES);
      slot := slot.(successfulBoot := 0);
    }
  }

  /** `setSlotSucceed`: 0 with the record replaced, or 0 with nothing written when the magic is
      wrong, or -1. */
  method SetSlotSucceed(misc: Partition, build: Build) returns (r: int)
    requires misc.Valid() && HasCells(misc.Contents())
    modifies misc, misc.mtd
    ensures misc.Valid() && HasCells(misc.Contents()) && (r == 0 || r == -1)
    ensures r == 0 && misc.Seeks() ==> var d := Record(old(misc.Contents())); var d1 := SetSucceeded(build, d);
            if d1 == None then d.magic != AB_MAGIC && CurrentSlot(d) != -1 && misc.Contents() == old(misc.Contents())
            else && misc.Contents() == Put(old(misc.Contents()), AB_OFFSET, Serialize(d1.value))
                 && Record(misc.Contents()) == d1.value && Sealed(d1.value)
    ensures old(misc.Flawless()) ==> misc.Flawless() && (r == 0 <==> CurrentSlot(Record(old(misc.Contents()))) != -1)
  {
    hide Serialize, Parse, UpdateCrc, Sealed, Put, CurrentSlot, LeftBy, CutShort, BadUntouched, ReadWhole, Rewrite,
      Confirm;
    var ok, bytes := misc.ReadMisc(AB_OFFSET, DATA_SIZE);
    if ok == -1 {
      return -1;
    }
    var info := Parse(bytes);
    var now := CurrentSlot(info);
    if now == -1 {
      return -1;
    }
    if info.magic != AB_MAGIC {
      return 0;
    }
    var slot := ConfirmSlot(info.slots[now], build);
    info := info.(slots := info.slots[now := slot]);
    info := info.(lastBoot := if now == 0 then 0 else 1);
    info := UpdateCrc(info);
    RecordWritten(misc.Contents(), info);
    var written := misc.WriteMisc(Serialize(info), AB_OFFSET);
    return if written != 0 then -1 else 0;
  }

  // ---------- a write that does not finish loses the record ----------

  /** On MTD the record is lost between the first erase of a write and the program behind it, when
      its block is the one erased: power loss there leaves 32 bytes 0xFF. */
  lemma EraseLosesRecord(c: Chip, f: Flash, p: nat)
    requires Fits(c, f) && HasCells(f.mem) && Erase(c, f, p).1
    requires p <= AB_OFFSET && AB_OFFSET + DATA_SIZE <= p + c.eraseSize
    ensures AbCell(Erase(c, f, p).0.mem) == Fill(DATA_SIZE, 0xFF)
  {
    var mem := Erase(c, f, p).0.mem;
    var blk := mem[p..p + c.eraseSize];
    hide Erase;
    forall i | 0 <= i < DATA_SIZE ensures AbCell(mem)[i] == 0xFF {
      assert mem[AB_OFFSET + i] == blk[AB_OFFSET + i - p];
    }
  }

  /** A partition of one block of n bytes that can be erased but no longer written. */
  function WornOut(n: nat): (c: Chip) {
    Chip(n, n, true, _ => Good, _ => Fault(true, true, false, 0, [], 0))
  }

  lemma WornOutAttempt(n: nat, f: Flash, data: seq<byte>)
    requires 0 < n < 0x8000_0000 && Fits(WornOut(n), f) && |data| == n && data != Fill(n, 0xFF)
    ensures var (f1, ok) := Attempt(WornOut(n), f, 0, data); !ok && f1.mem == Fill(n, 0xFF)
  {
    hide Fill;
    var c := WornOut(n);
    assert c.IsBlock(0) by { assert Multiple(0, n); }
    var f1 := Erase(c, f, 0).0;
    var f2 := SeekWrite(c, f1, 0, data).0;
    var blank := Fill(n, 0xFF);
    assert Put(f1.mem, 0, blank) == blank;
    assert Scar([], n) == blank by { assert [] + blank == blank; }
    assert f2.mem[0..n] == f2.mem;
  }

  lemma WornOutBlock(n: nat, f: Flash, data: seq<byte>)
    requires 0 < n < 0x8000_0000 && Fits(WornOut(n), f) && |data| == n && data != Fill(n, 0xFF)
    ensures var (f1, ok) := Visit(WornOut(n), f, 0, data); !ok && f1.mem == Fill(n, 0xFF)
  {
    var c := WornOut(n);
    WornOutAttempt(n, f, data);
    var f1 := Attempt(c, f, 0, data).0;
    WornOutAttempt(n, f1, data);
    var f2 := Attempt(c, f1, 0, data).0;
    var f3 := Erase(c, f2, 0).0;
    assert f3.mem == Fill(n, 0xFF) by {
      assert c.IsBlock(0) by { assert Multiple(0, n); }
      assert f3.mem[0..n] == f3.mem;
    }
    assert !c.Skips(0);
    hide Attempt, Erase, Fill;
    assert TryBlock(c, f2, 0, data, 0) == (f3, false);
    assert TryBlock(c, f1, 0, data, 1) == (f3, false);
    assert TryBlock(c, f, 0, data, ATTEMPTS) == (f3, false);
  }

  /** A partition of one block is refused if that block is given up. */
  lemma OneBlockRefused(c: Chip, f: Flash, f1: Flash, data: seq<byte>)
    requires Fits(c, f) && c.size == c.eraseSize == |data| && f.pos == 0 && c.fault(f.clock).seekOk
    requires Visit(c, f.(clock := f.clock + 1), 0, data) == (f1, false)
    ensures WriteBlock(c, Medium(f, [], []), data) == (Medium(f1, [0], []), NoSpace)
  {
    hide Visit, Multiple;
    var f0 := f.(clock := f.clock + 1);
    assert [] + [0] == [0];
    assert WriteFrom(c, f1, [0], c.size, data) == MtdWriteSpec.Outcome(f1, [0], c.size, NoSpace);
    assert WriteFrom(c, f0, [], 0, data) == MtdWriteSpec.Outcome(f1, [0], c.size, NoSpace);
  }

  lemma OneBlockRefusedWhole(c: Chip, m: Medium, data: seq<byte>)
    requires Fits(c, m.flash) && |data| == c.eraseSize && WriteBlock(c, m, data).1 != Done
    ensures WriteData(c, Writer(m, []), data) == (Writer(WriteBlock(c, m, data).0, []), WriteBlock(c, m, data).1)
  {
    hide WriteBlock;
    assert [] + data == data && data[..c.eraseSize] == data;
  }

  /** Any rewrite of such a partition, except with blank bytes, is refused and leaves it blank: the
      record has no magic and, whatever it selected before, selects slot 0. */
  lemma FailedWriteLosesRecord(f: Flash, data: seq<byte>)
    requires HasCells(f.mem) && |f.mem| < 0x8000_0000 && f.pos == 0
    requires |data| == |f.mem| && data != Fill(|data|, 0xFF)
    ensures var c := WornOut(|f.mem|);
            && Fits(c, f)
            && var (w, st) := WriteData(c, Writer(Medium(f, [], []), []), data);
               && st == NoSpace && w.medium.flash.mem == Fill(|data|, 0xFF)
               && Record(w.medium.flash.mem).magic != AB_MAGIC && CurrentSlot(Record(w.medium.flash.mem)) == 0
  {
    var n := |f.mem|;
    var c := WornOut(n);
    assert c.Valid() by { assert Multiple(n, n) == Multiple(0, n); }
    var f0 := f.(clock := f.clock + 1);
    WornOutBlock(n, f0, data);
    assert c.eraseSize == c.size == n && c.fault(f.clock).seekOk;
    BlankRecord(n);
    hide WriteBlock, WriteData, Visit, Fill, Record, CurrentSlot, WornOut, Multiple;
    OneBlockRefused(c, f, Visit(c, f0, 0, data).0, data);
    OneBlockRefusedWhole(c, Medium(f, [], []), data);
  }

  lemma BlankRecord(n: nat)
    requires MESSAGE_OFFSET + MESSAGE_SIZE <= n
    ensures var d := Record(Fill(n, 0xFF)); d.magic != AB_MAGIC && CurrentSlot(d) == 0
  {
    var mem := Fill(n, 0xFF);
    var cell := AbCell(mem);
    hide Fill;
    forall i | 0 <= i < DATA_SIZE ensures cell[i] == 0xFF {
      assert cell[i] == mem[AB_OFFSET + i];
    }
    var d := Parse(cell);
    assert d.magic[0] == cell[0];
    assert d.slots[0] == ParseSlot(cell[8..12]) && d.slots[1] == ParseSlot(cell[12..16]);
    assert d.slots[0].priority == cell[8] && d.slots[0].successfulBoot == cell[10];
    assert d.slots[1].priority == cell[12] && d.slots[1].successfulBoot == cell[14];
  }
}
