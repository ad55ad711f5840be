/** The 32-byte A/B record of the misc partition (ota/include/bootloader.h,
    ab_meta/include/rk_ab_meta.h) and its checksum. */
module AbRecord {
  import opened Bytes
  import opened Crc32

  datatype Slot = Slot(priority: byte, triesRemaining: byte, successfulBoot: byte, reserved: byte)

  /** `crc` holds the checksum field as its four bytes in memory. */
  datatype AbData = AbData(
    magic: seq<byte>, versionMajor: byte, versionMinor: byte, reserved1: seq<byte>,
    slots: seq<Slot>, lastBoot: byte, reserved2: seq<byte>, crc: seq<byte>)
  {
    predicate Valid() {
      |magic| == 4 && |reserved1| == 2 && |slots| == 2 && |reserved2| == 11 && |crc| == 4
    }
  }

  const AB_MAGIC: seq<byte> := [0x00, 0x41, 0x42, 0x30]
  const DATA_SIZE := 32
  const PAYLOAD_SIZE := 28

  function SlotBytes(s: Slot): (r: seq<byte>)
    ensures |r| == 4
  {
    [s.priority, s.triesRemaining, s.successfulBoot, s.reserved]
  }

  function Head(d: AbData): (r: seq<byte>)
    requires d.Valid()
    ensures |r| == 8
  {
    d.magic + [d.versionMajor, d.versionMinor] + d.reserved1
  }

  function Tail(d: AbData): (r: seq<byte>)
    requires d.Valid()
    ensures |r| == 12
  {
    [d.lastBoot] + d.reserved2
  }

  /** The 28 bytes in front of the checksum field. */
  function Payload(d: AbData): (r: seq<byte>)
    requires d.Valid()
    ensures |r| == PAYLOAD_SIZE
  {
    Head(d) + SlotBytes(d.slots[0]) + SlotBytes(d.slots[1]) + Tail(d)
  }

  function Serialize(d: AbData): (r: seq<byte>)
    requires d.Valid()
    ensures |r| == DATA_SIZE
  {
    Payload(d) + d.crc
  }

  function ParseSlot(b: seq<byte>): (s: Slot)
    requires |b| == 4
  {
    Slot(b[0], b[1], b[2], b[3])
  }

  function Parse(b: seq<byte>): (d: AbData)
    requires |b| == DATA_SIZE
    ensures d.Valid()
  {
    AbData(b[..4], b[4], b[5], b[6..8], [ParseSlot(b[8..12]), ParseSlot(b[12..16])],
           b[16], b[17..28], b[28..32])
  }

  lemma ParseSerialize(d: AbData)
    requires d.Valid()
    ensures Parse(Serialize(d)) == d
  {
    var b := Serialize(d);
    assert b[..4] == d.magic && b[6..8] == d.reserved1 && b[17..28] == d.reserved2 && b[28..32] == d.crc;
    assert b[8..12] == SlotBytes(d.slots[0]) && b[12..16] == SlotBytes(d.slots[1]);
    assert [d.slots[0], d.slots[1]] == d.slots;
  }

  lemma SerializeParse(b: seq<byte>)
    requires |b| == DATA_SIZE
    ensures Serialize(Parse(b)) == b
  {
    assert b == b[..4] + [b[4], b[5]] + b[6..8] + b[8..12] + b[12..16] + ([b[16]] + b[17..28]) + b[28..32];
  }

  /** Where each field lies. */
  lemma SerializeLayout(d: AbData)
    requires d.Valid()
    ensures var b := Serialize(d);
            && b[..4] == d.magic && b[4] == d.versionMajor && b[5] == d.versionMinor && b[6..8] == d.reserved1
            && (forall i :: 0 <= i < 2 ==>
                  && b[8 + 4 * i] == d.slots[i].priority && b[8 + 4 * i + 1] == d.slots[i].triesRemaining
                  && b[8 + 4 * i + 2] == d.slots[i].successfulBoot && b[8 + 4 * i + 3] == d.slots[i].reserved)
            && b[16] == d.lastBoot && b[17..28] == d.reserved2 && b[28..] == d.crc
  {
    var b := Serialize(d);
    assert b[8..12] == SlotBytes(d.slots[0]) && b[12..16] == SlotBytes(d.slots[1]);
    assert b[8] == b[8..12][0] && b[9] == b[8..12][1] && b[10] == b[8..12][2] && b[11] == b[8..12][3];
    assert b[12] == b[12..16][0] && b[13] == b[12..16][1] && b[14] == b[12..16][2] && b[15] == b[12..16][3];
  }

  // ---------- the checksum ----------

  /** `avb_htobe32`: the bytes of a 32-bit number, the highest first. */
  function BigEndian(x: bv32): (r: seq<byte>)
    ensures |r| == 4
  {
    [((x >> 24) & 0xFF) as bv8, ((x >> 16) & 0xFF) as bv8, ((x >> 8) & 0xFF) as bv8, (x & 0xFF) as bv8]
  }

  lemma BigEndianInjective(x: bv32, y: bv32)
    requires BigEndian(x) == BigEndian(y)
    ensures x == y
  {
    assert BigEndian(x)[0] == BigEndian(y)[0] && BigEndian(x)[1] == BigEndian(y)[1];
    assert BigEndian(x)[2] == BigEndian(y)[2] && BigEndian(x)[3] == BigEndian(y)[3];
  }

  /** `AvbABData_update_crc`, and `ab_meta_calc_crc` stored into the record. */
  function UpdateCrc(d: AbData): (r: AbData)
    requires d.Valid()
    ensures r.Valid() && Sealed(r) && Payload(r) == Payload(d) && r == d.(crc := r.crc)
  {
    var r := d.(crc := BigEndian(BitSerial(0, Payload(d))));
    assert Payload(r) == Payload(d);
    r
  }

  /** The checksum field matches the 28 bytes in front of it. */
  predicate Sealed(d: AbData)
    requires d.Valid()
  {
    d.crc == BigEndian(BitSerial(0, Payload(d)))
  }

  lemma SlotBytesInjective(s: Slot, t: Slot)
    requires SlotBytes(s) == SlotBytes(t)
    ensures s == t
  {
    assert forall i :: 0 <= i < 4 ==> SlotBytes(s)[i] == SlotBytes(t)[i];
  }

  /** Changing any one slot entry of a record always invalidates its checksum. */
  lemma SlotChangeDetected(d: AbData, i: nat, s: Slot)
    requires d.Valid() && Sealed(d) && i < 2 && s != d.slots[i]
    ensures var d1 := d.(slots := d.slots[i := s]); d1.Valid() && !Sealed(d1)
  {
    hide BitSerial, BigEndian, SlotBytes;
    var d1 := d.(slots := d.slots[i := s]);
    var before := if i == 0 then Head(d) else Head(d) + SlotBytes(d.slots[0]);
    var after := if i == 0 then SlotBytes(d.slots[1]) + Tail(d) else Tail(d);
    if SlotBytes(s) == SlotBytes(d.slots[i]) {
      SlotBytesInjective(s, d.slots[i]);
    }
    BurstDetected(0, before, SlotBytes(d.slots[i]), SlotBytes(s), after);
    assert Payload(d) == before + SlotBytes(d.slots[i]) + after;
    assert Payload(d1) == before + SlotBytes(s) + after;
    if Sealed(d1) {
      BigEndianInjective(BitSerial(0, Payload(d)), BitSerial(0, Payload(d1)));
    }
  }

  /** The checksum is stored highest byte first, behind the 28 bytes it is taken of. */
  lemma UpdateCrcStores(d: AbData)
    requires d.Valid()
    ensures var b := Serialize(UpdateCrc(d));
            && b[..28] == Serialize(d)[..28]
            && (b[28] as bv32 << 24) | (b[29] as bv32 << 16) | (b[30] as bv32 << 8) | (b[31] as bv32)
                 == BitSerial(0, b[..28])
  {
    hide BitSerial;
    var r := UpdateCrc(d);
    var b := Serialize(r);
    var x := BitSerial(0, Payload(d));
    assert b[..28] == Payload(r) == Payload(d) == Serialize(d)[..28];
    assert b[28] == r.crc[0] && b[29] == r.crc[1] && b[30] == r.crc[2] && b[31] == r.crc[3];
    BytesOfNumber(x);
  }

  lemma BytesOfNumber(x: bv32)
    ensures var b := BigEndian(x);
            (b[0] as bv32 << 24) | (b[1] as bv32 << 16) | (b[2] as bv32 << 8) | (b[3] as bv32) == x
  {
  }
}
