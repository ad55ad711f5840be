/** The CRC-32 of the A/B record (ota/src/bootloader.c, and once more in
    ab_meta/src/rk_ab_meta.c): the table-driven loop computes the bit-serial checksum of section 8
    of RFC 1952, and it detects every change confined to four consecutive bytes. */
module Crc32 {
  import opened Bytes

  const POLY: bv32 := 0xEDB88320
  const ONES: bv32 := 0xFFFF_FFFF

  // The table of the program, sixteen entries to a row.
  const ROW_0: seq<bv32> := [
    0x00000000, 0x77073096, 0xEE0E612C, 0x990951BA, 0x076DC419, 0x706AF48F, 0xE963A535, 0x9E6495A3,
    0x0EDB8832, 0x79DCB8A4, 0xE0D5E91E, 0x97D2D988, 0x09B64C2B, 0x7EB17CBD, 0xE7B82D07, 0x90BF1D91]
  const ROW_1: seq<bv32> := [
    0x1DB71064, 0x6AB020F2, 0xF3B97148, 0x84BE41DE, 0x1ADAD47D, 0x6DDDE4EB, 0xF4D4B551, 0x83D385C7,
    0x136C9856, 0x646BA8C0, 0xFD62F97A, 0x8A65C9EC, 0x14015C4F, 0x63066CD9, 0xFA0F3D63, 0x8D080DF5]
  const ROW_2: seq<bv32> := [
    0x3B6E20C8, 0x4C69105E, 0xD56041E4, 0xA2677172, 0x3C03E4D1, 0x4B04D447, 0xD20D85FD, 0xA50AB56B,
    0x35B5A8FA, 0x42B2986C, 0xDBBBC9D6, 0xACBCF940, 0x32D86CE3, 0x45DF5C75, 0xDCD60DCF, 0xABD13D59]
  const ROW_3: seq<bv32> := [
    0x26D930AC, 0x51DE003A, 0xC8D75180, 0xBFD06116, 0x21B4F4B5, 0x56B3C423, 0xCFBA9599, 0xB8BDA50F,
    0x2802B89E, 0x5F058808, 0xC60CD9B2, 0xB10BE924, 0x2F6F7C87, 0x58684C11, 0xC1611DAB, 0xB6662D3D]
  const ROW_4: seq<bv32> := [
    0x76DC4190, 0x01DB7106, 0x98D220BC, 0xEFD5102A, 0x71B18589, 0x06B6B51F, 0x9FBFE4A5, 0xE8B8D433,
    0x7807C9A2, 0x0F00F934, 0x9609A88E, 0xE10E9818, 0x7F6A0DBB, 0x086D3D2D, 0x91646C97, 0xE6635C01]
  const ROW_5: seq<bv32> := [
    0x6B6B51F4, 0x1C6C6162, 0x856530D8, 0xF262004E, 0x6C0695ED, 0x1B01A57B, 0x8208F4C1, 0xF50FC457,
    0x65B0D9C6, 0x12B7E950, 0x8BBEB8EA, 0xFCB9887C, 0x62DD1DDF, 0x15DA2D49, 0x8CD37CF3, 0xFBD44C65]
  const ROW_6: seq<bv32> := [
    0x4DB26158, 0x3AB551CE, 0xA3BC0074, 0xD4BB30E2, 0x4ADFA541, 0x3DD895D7, 0xA4D1C46D, 0xD3D6F4FB,
    0x4369E96A, 0x346ED9FC, 0xAD678846, 0xDA60B8D0, 0x44042D73, 0x33031DE5, 0xAA0A4C5F, 0xDD0D7CC9]
  const ROW_7: seq<bv32> := [
    0x5005713C, 0x270241AA, 0xBE0B1010, 0xC90C2086, 0x5768B525, 0x206F85B3, 0xB966D409, 0xCE61E49F,
    0x5EDEF90E, 0x29D9C998, 0xB0D09822, 0xC7D7A8B4, 0x59B33D17, 0x2EB40D81, 0xB7BD5C3B, 0xC0BA6CAD]
  const ROW_8: seq<bv32> := [
    0xEDB88320, 0x9ABFB3B6, 0x03B6E20C, 0x74B1D29A, 0xEAD54739, 0x9DD277AF, 0x04DB2615, 0x73DC1683,
    0xE3630B12, 0x94643B84, 0x0D6D6A3E, 0x7A6A5AA8, 0xE40ECF0B, 0x9309FF9D, 0x0A00AE27, 0x7D079EB1]
  const ROW_9: seq<bv32> := [
    0xF00F9344, 0x8708A3D2, 0x1E01F268, 0x6906C2FE, 0xF762575D, 0x806567CB, 0x196C3671, 0x6E6B06E7,
    0xFED41B76, 0x89D32BE0, 0x10DA7A5A, 0x67DD4ACC, 0xF9B9DF6F, 0x8EBEEFF9, 0x17B7BE43, 0x60B08ED5]
  const ROW_A: seq<bv32> := [
    0xD6D6A3E8, 0xA1D1937E, 0x38D8C2C4, 0x4FDFF252, 0xD1BB67F1, 0xA6BC5767, 0x3FB506DD, 0x48B2364B,
    0xD80D2BDA, 0xAF0A1B4C, 0x36034AF6, 0x41047A60, 0xDF60EFC3, 0xA867DF55, 0x316E8EEF, 0x4669BE79]
  const ROW_B: seq<bv32> := [
    0xCB61B38C, 0xBC66831A, 0x256FD2A0, 0x5268E236, 0xCC0C7795, 0xBB0B4703, 0x220216B9, 0x5505262F,
    0xC5BA3BBE, 0xB2BD0B28, 0x2BB45A92, 0x5CB36A04, 0xC2D7FFA7, 0xB5D0CF31, 0x2CD99E8B, 0x5BDEAE1D]
  const ROW_C: seq<bv32> := [
    0x9B64C2B0, 0xEC63F226, 0x756AA39C, 0x026D930A, 0x9C0906A9, 0xEB0E363F, 0x72076785, 0x05005713,
    0x95BF4A82, 0xE2B87A14, 0x7BB12BAE, 0x0CB61B38, 0x92D28E9B, 0xE5D5BE0D, 0x7CDCEFB7, 0x0BDBDF21]
  const ROW_D: seq<bv32> := [
    0x86D3D2D4, 0xF1D4E242, 0x68DDB3F8, 0x1FDA836E, 0x81BE16CD, 0xF6B9265B, 0x6FB077E1, 0x18B74777,
    0x88085AE6, 0xFF0F6A70, 0x66063BCA, 0x11010B5C, 0x8F659EFF, 0xF862AE69, 0x616BFFD3, 0x166CCF45]
  const ROW_E: seq<bv32> := [
    0xA00AE278, 0xD70DD2EE, 0x4E048354, 0x3903B3C2, 0xA7672661, 0xD06016F7, 0x4969474D, 0x3E6E77DB,
    0xAED16A4A, 0xD9D65ADC, 0x40DF0B66, 0x37D83BF0, 0xA9BCAE53, 0xDEBB9EC5, 0x47B2CF7F, 0x30B5FFE9]
  const ROW_F: seq<bv32> := [
    0xBDBDF21C, 0xCABAC28A, 0x53B39330, 0x24B4A3A6, 0xBAD03605, 0xCDD70693, 0x54DE5729, 0x23D967BF,
    0xB3667A2E, 0xC4614AB8, 0x5D681B02, 0x2A6F2B94, 0xB40BBE37, 0xC30C8EA1, 0x5A05DF1B, 0x2D02EF8D]

  const TABLE: seq<seq<bv32>> := [
    ROW_0, ROW_1, ROW_2, ROW_3, ROW_4, ROW_5, ROW_6, ROW_7, ROW_8, ROW_9, ROW_A, ROW_B, ROW_C, ROW_D, ROW_E, ROW_F]

  // The operations on the register are named so that a proof can treat them as symbols.

  function Xor(a: bv32, b: bv32): bv32 { a ^ b }

  function Low(x: bv32): bv32 { x & 0xFF }

  function High(x: bv32): bv32 { x >> 8 }

  function Up(y: bv32): bv32 { y << 8 }

  function Wide(b: byte): bv32 { b as bv32 }

  // ---------- the bit-serial definition ----------

  /** Shift one bit out of the register; subtract the polynomial if it was a one. */
  function BitStep(c: bv32): bv32 {
    if c & 1 == 1 then (c >> 1) ^ POLY else c >> 1
  }

  function ByteStep(c: bv32): bv32 {
    BitStep(BitStep(BitStep(BitStep(BitStep(BitStep(BitStep(BitStep(c))))))))
  }

  /** The register after the bytes of s, starting from c. */
  function Register(c: bv32, s: seq<byte>): bv32
    decreases |s|
  {
    if s == [] then c else Register(ByteStep(Xor(c, Wide(s[0]))), s[1..])
  }

  /** The checksum of s continued from the checksum crc. */
  function BitSerial(crc: bv32, s: seq<byte>): bv32 {
    Xor(Register(Xor(crc, ONES), s), ONES)
  }

  // ---------- one step of the register is linear and invertible ----------

  lemma XorCommutes(a: bv32, b: bv32)
    ensures Xor(a, b) == Xor(b, a)
  {
  }

  lemma BothOdd(a: bv32, b: bv32)
    requires a & 1 == 1 && b & 1 == 1
    ensures BitStep(Xor(a, b)) == Xor(BitStep(a), BitStep(b))
  {
    OddOddBits(a, b);
  }

  lemma OddOddBits(a: bv32, b: bv32)
    requires a & 1 == 1 && b & 1 == 1
    ensures (a ^ b) & 1 == 0 && (a ^ b) >> 1 == ((a >> 1) ^ POLY) ^ ((b >> 1) ^ POLY)
  {
  }

  lemma FirstOdd(a: bv32, b: bv32)
    requires a & 1 == 1 && b & 1 != 1
    ensures BitStep(Xor(a, b)) == Xor(BitStep(a), BitStep(b))
  {
    OddEvenBits(a, b);
  }

  lemma OddEvenBits(a: bv32, b: bv32)
    requires a & 1 == 1 && b & 1 == 0
    ensures (a ^ b) & 1 == 1 && ((a ^ b) >> 1) ^ POLY == ((a >> 1) ^ POLY) ^ (b >> 1)
  {
  }

  lemma BothEven(a: bv32, b: bv32)
    requires a & 1 != 1 && b & 1 != 1
    ensures BitStep(Xor(a, b)) == Xor(BitStep(a), BitStep(b))
  {
    EvenEvenBits(a, b);
  }

  lemma EvenEvenBits(a: bv32, b: bv32)
    requires a & 1 == 0 && b & 1 == 0
    ensures (a ^ b) & 1 == 0 && (a ^ b) >> 1 == (a >> 1) ^ (b >> 1)
  {
  }

  lemma BitStepLinear(a: bv32, b: bv32)
    ensures BitStep(Xor(a, b)) == Xor(BitStep(a), BitStep(b))
  {
    hide BitStep, Xor;
    XorCommutes(a, b);
    XorCommutes(BitStep(a), BitStep(b));
    if a & 1 == 1 {
      if b & 1 == 1 { BothOdd(a, b); } else { FirstOdd(a, b); }
    } else {
      if b & 1 == 1 { FirstOdd(b, a); } else { BothEven(a, b); }
    }
  }

  lemma ByteStepLinear(a: bv32, b: bv32)
    ensures ByteStep(Xor(a, b)) == Xor(ByteStep(a), ByteStep(b))
  {
    hide BitStep, Xor;
    var a1, b1 := BitStep(a), BitStep(b);
    var a2, b2 := BitStep(a1), BitStep(b1);
    var a3, b3 := BitStep(a2), BitStep(b2);
    var a4, b4 := BitStep(a3), BitStep(b3);
    var a5, b5 := BitStep(a4), BitStep(b4);
    var a6, b6 := BitStep(a5), BitStep(b5);
    var a7, b7 := BitStep(a6), BitStep(b6);
    BitStepLinear(a, b);
    BitStepLinear(a1, b1);
    BitStepLinear(a2, b2);
    BitStepLinear(a3, b3);
    BitStepLinear(a4, b4);
    BitStepLinear(a5, b5);
    BitStepLinear(a6, b6);
    BitStepLinear(a7, b7);
  }

  /** The polynomial has its top bit set, so the bit shifted out can be told afterwards. */
  lemma BitStepInjective(a: bv32, b: bv32)
    ensures BitStep(a) == BitStep(b) ==> a == b
  {
  }

  lemma ByteStepInjective(a: bv32, b: bv32)
    requires ByteStep(a) == ByteStep(b)
    ensures a == b
  {
    hide BitStep;
    forall x, y ensures BitStep(x) == BitStep(y) ==> x == y {
      BitStepInjective(x, y);
    }
  }

  function Double(y: bv32): bv32 { y << 1 }

  lemma BitStepOfDouble(y: bv32)
    ensures y <= 0x7FFF_FFFF ==> BitStep(Double(y)) == y
  {
  }

  lemma EightDoubles(y: bv32)
    requires y <= 0xFF_FFFF
    ensures y << 8 == Double(Double(Double(Double(Double(Double(Double(Double(y))))))))
    ensures Double(Double(Double(Double(Double(Double(Double(y))))))) <= 0x7FFF_FFFF
    ensures Double(Double(Double(Double(Double(Double(y)))))) <= 0x7FFF_FFFF
    ensures Double(Double(Double(Double(Double(y))))) <= 0x7FFF_FFFF
    ensures Double(Double(Double(Double(y)))) <= 0x7FFF_FFFF
    ensures Double(Double(Double(y))) <= 0x7FFF_FFFF
    ensures Double(Double(y)) <= 0x7FFF_FFFF
    ensures Double(y) <= 0x7FFF_FFFF
  {
  }

  /** Eight steps bring back what was shifted up by a byte. */
  lemma ByteStepOfShifted(y: bv32)
    requires y <= 0xFF_FFFF
    ensures ByteStep(Up(y)) == y
  {
    hide BitStep, Double;
    EightDoubles(y);
    forall z ensures z <= 0x7FFF_FFFF ==> BitStep(Double(z)) == z {
      BitStepOfDouble(z);
    }
  }

  lemma LowAndHigh(x: bv32)
    ensures x == Xor(Low(x), Up(High(x))) && High(x) <= 0xFF_FFFF
  {
  }

  /** A byte step acts on the low byte alone and shifts the others down. */
  lemma ByteStepSplits(x: bv32)
    ensures ByteStep(x) == Xor(ByteStep(Low(x)), High(x))
  {
    hide ByteStep, Xor, Low, High, Up;
    LowAndHigh(x);
    ByteStepLinear(Low(x), Up(High(x)));
    ByteStepOfShifted(High(x));
  }

  /** Bytes still to come can be added to the register beforehand, one byte higher. */
  lemma ByteStepAhead(x: bv32, y: bv32)
    requires y <= 0xFF_FFFF
    ensures ByteStep(Xor(x, Up(y))) == Xor(ByteStep(x), y)
  {
    hide ByteStep, Xor, Up;
    ByteStepLinear(x, Up(y));
    ByteStepOfShifted(y);
  }

  // ---------- the table ----------

  ghost predicate FirstRow(row: seq<bv32>) {
    |row| == 16 &&
    row[0] == ByteStep(0) && row[1] == ByteStep(1) && row[2] == ByteStep(2) && row[3] == ByteStep(3) &&
    row[4] == ByteStep(4) && row[5] == ByteStep(5) && row[6] == ByteStep(6) && row[7] == ByteStep(7) &&
    row[8] == ByteStep(8) && row[9] == ByteStep(9) && row[10] == ByteStep(10) && row[11] == ByteStep(11) &&
    row[12] == ByteStep(12) && row[13] == ByteStep(13) && row[14] == ByteStep(14) && row[15] == ByteStep(15)
  }

  ghost predicate Follows(row: seq<bv32>, base: seq<bv32>) {
    |row| == 16 && |base| == 16 &&
    row[0] == Xor(row[0], base[0]) && row[1] == Xor(row[0], base[1]) &&
    row[2] == Xor(row[0], base[2]) && row[3] == Xor(row[0], base[3]) &&
    row[4] == Xor(row[0], base[4]) && row[5] == Xor(row[0], base[5]) &&
    row[6] == Xor(row[0], base[6]) && row[7] == Xor(row[0], base[7]) &&
    row[8] == Xor(row[0], base[8]) && row[9] == Xor(row[0], base[9]) &&
    row[10] == Xor(row[0], base[10]) && row[11] == Xor(row[0], base[11]) &&
    row[12] == Xor(row[0], base[12]) && row[13] == Xor(row[0], base[13]) &&
    row[14] == Xor(row[0], base[14]) && row[15] == Xor(row[0], base[15])
  }

  /** A row is the first row plus its own first entry. */
  ghost predicate RowStartsAt(row: seq<bv32>, first: bv32) {
    Follows(row, ROW_0) && row[0] == ByteStep(first)
  }

  lemma FirstQuarter()
    ensures ROW_0[0] == ByteStep(0) && ROW_0[1] == ByteStep(1) && ROW_0[2] == ByteStep(2) && ROW_0[3] == ByteStep(3)
  {
    assert BitStep(0) == 0 && BitStep(1) == POLY && BitStep(2) == 1 && BitStep(3) == 1 ^ POLY;
  }

  lemma SecondQuarter()
    ensures ROW_0[4] == ByteStep(4) && ROW_0[5] == ByteStep(5) && ROW_0[6] == ByteStep(6) && ROW_0[7] == ByteStep(7)
  {
  }

  lemma ThirdQuarter()
    ensures ROW_0[8] == ByteStep(8) && ROW_0[9] == ByteStep(9)
    ensures ROW_0[10] == ByteStep(10) && ROW_0[11] == ByteStep(11)
  {
  }

  lemma FourthQuarter()
    ensures ROW_0[12] == ByteStep(12) && ROW_0[13] == ByteStep(13)
    ensures ROW_0[14] == ByteStep(14) && ROW_0[15] == ByteStep(15)
  {
  }

  lemma FirstRowIsRight()
    ensures FirstRow(ROW_0)
  {
    hide ByteStep;
    FirstQuarter();
    SecondQuarter();
    ThirdQuarter();
    FourthQuarter();
  }

  lemma RowsFrom0()
    ensures RowStartsAt(ROW_0, 0x00)
    ensures RowStartsAt(ROW_1, 0x10)
  {
  }

  lemma RowsFrom2()
    ensures RowStartsAt(ROW_2, 0x20)
    ensures RowStartsAt(ROW_3, 0x30)
  {
  }

  lemma RowsFrom4()
    ensures RowStartsAt(ROW_4, 0x40)
    ensures RowStartsAt(ROW_5, 0x50)
  {
  }

  lemma RowsFrom6()
    ensures RowStartsAt(ROW_6, 0x60)
    ensures RowStartsAt(ROW_7, 0x70)
  {
  }

  lemma RowsFrom8()
    ensures RowStartsAt(ROW_8, 0x80)
    ensures RowStartsAt(ROW_9, 0x90)
  {
  }

  lemma RowsFromA()
    ensures RowStartsAt(ROW_A, 0xA0)
    ensures RowStartsAt(ROW_B, 0xB0)
  {
  }

  lemma RowsFromC()
    ensures RowStartsAt(ROW_C, 0xC0)
    ensures RowStartsAt(ROW_D, 0xD0)
  {
  }

  lemma RowsFromE()
    ensures RowStartsAt(ROW_E, 0xE0)
    ensures RowStartsAt(ROW_F, 0xF0)
  {
  }


  lemma RowsAreRight(hi: bv32)
    requires hi <= 15
    ensures RowStartsAt(TABLE[hi as int], hi << 4)
  {
    hide ByteStep, Follows;
    RowsFrom0();
    RowsFrom2();
    RowsFrom4();
    RowsFrom6();
    RowsFrom8();
    RowsFromA();
    RowsFromC();
    RowsFromE();
    if hi <= 7 {
      if hi <= 3 {
        if hi == 0 {} else if hi == 1 {} else if hi == 2 {} else {}
      } else {
        if hi == 4 {} else if hi == 5 {} else if hi == 6 {} else {}
      }
    } else {
      if hi <= 11 {
        if hi == 8 {} else if hi == 9 {} else if hi == 10 {} else {}
      } else {
        if hi == 12 {} else if hi == 13 {} else if hi == 14 {} else {}
      }
    }
  }

  /** The k-th entry of a row is that of its first one plus b. */
  ghost predicate EntryAt(row: seq<bv32>, k: nat, b: bv32) {
    |row| == 16 && k < 16 && row[k] == Xor(row[0], ByteStep(b))
  }

  lemma OneEntry(row: seq<bv32>, k: nat, b: bv32)
    requires |row| == 16 && k < 16 && ROW_0[k] == ByteStep(b) && row[k] == Xor(row[0], ROW_0[k])
    ensures EntryAt(row, k, b)
  {
    hide ByteStep, Xor;
  }

  ghost predicate AllEntries(row: seq<bv32>) {
    EntryAt(row, 0, 0) && EntryAt(row, 1, 1) && EntryAt(row, 2, 2) && EntryAt(row, 3, 3) &&
    EntryAt(row, 4, 4) && EntryAt(row, 5, 5) && EntryAt(row, 6, 6) && EntryAt(row, 7, 7) &&
    EntryAt(row, 8, 8) && EntryAt(row, 9, 9) && EntryAt(row, 10, 10) && EntryAt(row, 11, 11) &&
    EntryAt(row, 12, 12) && EntryAt(row, 13, 13) && EntryAt(row, 14, 14) && EntryAt(row, 15, 15)
  }

  lemma RowEntries(row: seq<bv32>)
    requires FirstRow(ROW_0) && Follows(row, ROW_0)
    ensures AllEntries(row)
  {
    hide ByteStep, EntryAt, Xor;
    OneEntry(row, 0, 0); OneEntry(row, 1, 1); OneEntry(row, 2, 2); OneEntry(row, 3, 3);
    OneEntry(row, 4, 4); OneEntry(row, 5, 5); OneEntry(row, 6, 6); OneEntry(row, 7, 7);
    OneEntry(row, 8, 8); OneEntry(row, 9, 9); OneEntry(row, 10, 10); OneEntry(row, 11, 11);
    OneEntry(row, 12, 12); OneEntry(row, 13, 13); OneEntry(row, 14, 14); OneEntry(row, 15, 15);
  }

  /** The entries of a row. */
  lemma RowEntry(row: seq<bv32>, lo: bv32)
    requires FirstRow(ROW_0) && Follows(row, ROW_0) && lo <= 15
    ensures EntryAt(row, lo as int, lo)
  {
    RowEntries(row);
    hide FirstRow, Follows, EntryAt;
    if lo <= 7 {
      if lo <= 3 {
        if lo == 0 {} else if lo == 1 {} else if lo == 2 {} else {}
      } else {
        if lo == 4 {} else if lo == 5 {} else if lo == 6 {} else {}
      }
    } else {
      if lo <= 11 {
        if lo == 8 {} else if lo == 9 {} else if lo == 10 {} else {}
      } else {
        if lo == 12 {} else if lo == 13 {} else if lo == 14 {} else {}
      }
    }
  }

  /** The entry of the table for the byte i. */
  function Entry(i: bv32): bv32
    requires i <= 0xFF
  {
    RowsAreRight(i >> 4);
    TABLE[(i >> 4) as int][(i & 0xF) as int]
  }

  lemma Nibbles(i: bv32)
    requires i <= 0xFF
    ensures i >> 4 <= 15 && i & 0xF <= 15 && i == Xor((i >> 4) << 4, i & 0xF)
  {
  }

  /** The table holds eight bit steps of every byte. */
  lemma TableIsByteStep(i: bv32)
    requires i <= 0xFF
    ensures Entry(i) == ByteStep(i)
  {
    hide ByteStep, Xor, Follows, FirstRow;
    Nibbles(i);
    RowsAreRight(i >> 4);
    FirstRowIsRight();
    RowEntry(TABLE[(i >> 4) as int], i & 0xF);
    ByteStepLinear((i >> 4) << 4, i & 0xF);
  }

  /** The table-driven step is the bit-serial one. */
  lemma TableStep(crc: bv32, b: byte)
    ensures Low(Xor(crc, Wide(b))) <= 0xFF
    ensures Xor(Entry(Low(Xor(crc, Wide(b)))), High(crc)) == ByteStep(Xor(crc, Wide(b)))
  {
    hide ByteStep, Entry, Xor, High, Wide, Low;
    var x := Xor(crc, Wide(b));
    HighBits(crc, b);
    LowBound(x);
    ByteStepSplits(x);
    TableIsByteStep(Low(x));
  }

  lemma HighBits(crc: bv32, b: byte)
    ensures High(Xor(crc, Wide(b))) == High(crc)
  {
  }

  lemma LowBound(x: bv32)
    ensures Low(x) <= 0xFF
  {
  }

  /** `iavb_crc32` (and `ab_meta_crc32`): the loop over the table computes the bit-serial checksum. */
  method IavbCrc32(crcIn: bv32, buf: array<byte>, size: nat) returns (crcOut: bv32)
    requires size <= buf.Length
    ensures crcOut == BitSerial(crcIn, buf[..size])
  {
    hide ByteStep, Entry, Xor, High, Wide, Low;
    var crc := Xor(crcIn, ONES);
    var p := 0;
    assert buf[p..size] == buf[..size];
    while p < size
      invariant p <= size
      invariant Register(Xor(crcIn, ONES), buf[..size]) == Register(crc, buf[p..size])
    {
      TableStep(crc, buf[p]);
      assert buf[p..size][1..] == buf[p + 1..size];
      crc := Xor(Entry(Low(Xor(crc, Wide(buf[p])))), High(crc));
      p := p + 1;
    }
    return Xor(crc, ONES);
  }

  // ---------- chaining ----------

  lemma {:induction false} RegisterConcat(c: bv32, s: seq<byte>, t: seq<byte>)
    ensures Register(c, s + t) == Register(Register(c, s), t)
    decreases |s|
  {
    hide ByteStep, Xor, Wide;
    if s == [] {
      assert s + t == t;
    } else {
      assert (s + t)[1..] == s[1..] + t;
      RegisterConcat(ByteStep(Xor(c, Wide(s[0]))), s[1..], t);
    }
  }

  lemma XorTwice(a: bv32, b: bv32)
    ensures Xor(Xor(a, b), b) == a
  {
  }

  /** A checksum can be continued over the rest of a message. */
  lemma Chaining(crc: bv32, s: seq<byte>, t: seq<byte>)
    ensures BitSerial(BitSerial(crc, s), t) == BitSerial(crc, s + t)
  {
    hide Register, Xor;
    RegisterConcat(Xor(crc, ONES), s, t);
    XorTwice(Register(Xor(crc, ONES), s), ONES);
  }

  // ---------- error detection ----------

  /** Up to four bytes as one number, the first byte the lowest. */
  function Word(s: seq<byte>): bv32
    decreases |s|
  {
    if s == [] then 0 else Xor(Wide(s[0]), Up(Word(s[1..])))
  }

  /** The largest number that many bytes can make. */
  function Top(n: nat): bv32
    requires n <= 4
  {
    if n == 0 then 0 else if n == 1 then 0xFF else if n == 2 then 0xFFFF else if n == 3 then 0xFF_FFFF else ONES
  }

  predicate Below(w: bv32, n: nat)
    requires n <= 4
  {
    w <= Top(n)
  }

  lemma TopStep(b: byte, w: bv32, n: nat)
    requires n <= 3 && Below(w, n)
    ensures Below(Xor(Wide(b), Up(w)), n + 1) && Below(w, 3)
  {
  }

  lemma {:induction false} WordBound(s: seq<byte>)
    requires |s| <= 4
    ensures Below(Word(s), |s|)
    decreases |s|
  {
    hide Xor, Wide, Up;
    if s != [] {
      WordBound(s[1..]);
      TopStep(s[0], Word(s[1..]), |s| - 1);
    }
  }

  /** The first byte and the rest can be told from the sum. */
  lemma Digits(a: byte, b: byte, v: bv32, w: bv32)
    requires Below(v, 3) && Below(w, 3) && Xor(Wide(a), Up(v)) == Xor(Wide(b), Up(w))
    ensures a == b && v == w
  {
  }

  lemma {:induction false} WordInjective(s: seq<byte>, t: seq<byte>)
    requires |s| == |t| <= 4 && Word(s) == Word(t)
    ensures s == t
    decreases |s|
  {
    hide Xor, Wide, Up, Below;
    if s != [] {
      WordBound(s[1..]);
      WordBound(t[1..]);
      TopStep(s[0], Word(s[1..]), |s| - 1);
      TopStep(t[0], Word(t[1..]), |t| - 1);
      Digits(s[0], t[0], Word(s[1..]), Word(t[1..]));
      WordInjective(s[1..], t[1..]);
      assert s == [s[0]] + s[1..] && t == [t[0]] + t[1..];
    }
  }

  function ByteSteps(c: bv32, n: nat): bv32
    decreases n
  {
    if n == 0 then c else ByteSteps(ByteStep(c), n - 1)
  }

  lemma {:induction false} ByteStepsInjective(a: bv32, b: bv32, n: nat)
    requires ByteSteps(a, n) == ByteSteps(b, n)
    ensures a == b
    decreases n
  {
    hide ByteStep;
    if n > 0 {
      ByteStepsInjective(ByteStep(a), ByteStep(b), n - 1);
      ByteStepInjective(a, b);
    }
  }

  lemma XorAssociates(a: bv32, b: bv32, c: bv32)
    ensures Xor(a, Xor(b, c)) == Xor(Xor(a, b), c)
  {
  }

  lemma XorCancels(a: bv32, b: bv32, c: bv32)
    ensures Xor(a, c) == Xor(b, c) ==> a == b
    ensures Xor(c, a) == Xor(c, b) ==> a == b
    ensures Xor(a, 0) == a
  {
  }

  /** Up to four bytes can be added to the register all at once. */
  lemma {:induction false} RegisterOfWord(c: bv32, s: seq<byte>)
    requires |s| <= 4
    ensures Register(c, s) == ByteSteps(Xor(c, Word(s)), |s|)
    decreases |s|
  {
    hide ByteStep, Xor, Wide, Up;
    if s == [] {
      XorCancels(c, c, c);
    } else {
      var x := Xor(c, Wide(s[0]));
      var w := Word(s[1..]);
      WordBound(s[1..]);
      TopStep(s[0], w, |s| - 1);
      RegisterOfWord(ByteStep(x), s[1..]);
      ByteStepAhead(x, w);
      XorAssociates(c, Wide(s[0]), Up(w));
    }
  }

  lemma {:induction false} RegisterInjective(c: bv32, d: bv32, s: seq<byte>)
    requires Register(c, s) == Register(d, s)
    ensures c == d
    decreases |s|
  {
    hide ByteStep, Xor, Wide;
    if s != [] {
      RegisterInjective(ByteStep(Xor(c, Wide(s[0]))), ByteStep(Xor(d, Wide(s[0]))), s[1..]);
      ByteStepInjective(Xor(c, Wide(s[0])), Xor(d, Wide(s[0])));
      XorCancels(c, d, Wide(s[0]));
    }
  }

  /** Burst detection.  Two messages of any length that differ only inside four consecutive bytes
      never have the same checksum. */
  lemma BurstDetected(crc: bv32, before: seq<byte>, s: seq<byte>, t: seq<byte>, after: seq<byte>)
    requires |s| == |t| <= 4 && s != t
    ensures BitSerial(crc, before + s + after) != BitSerial(crc, before + t + after)
  {
    hide Register, Xor, ByteSteps, Word;
    var c := Xor(crc, ONES);
    var r := Register(c, before);
    RegisterConcat(c, before + s, after);
    RegisterConcat(c, before + t, after);
    RegisterConcat(c, before, s);
    RegisterConcat(c, before, t);
    if BitSerial(crc, before + s + after) == BitSerial(crc, before + t + after) {
      XorCancels(Register(c, before + s + after), Register(c, before + t + after), ONES);
      RegisterInjective(Register(r, s), Register(r, t), after);
      RegisterOfWord(r, s);
      RegisterOfWord(r, t);
      ByteStepsInjective(Xor(r, Word(s)), Xor(r, Word(t)), |s|);
      XorCancels(Word(s), Word(t), r);
      WordInjective(s, t);
    }
  }
}
