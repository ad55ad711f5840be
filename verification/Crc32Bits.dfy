/** The checksum bit by bit: every change confined to 32 consecutive bits, wherever they begin, is
    detected. */
module Crc32Bits {
  import opened Bytes
  import opened Crc32

  // ---------- bits, lowest first ----------

  function LowBits(b: byte, n: nat): (r: seq<bool>)
    ensures |r| == n
    decreases n
  {
    if n == 0 then [] else [b & 1 == 1] + LowBits(b >> 1, n - 1)
  }

  /** The bits of a message in the order in which the register takes them in. */
  function Bits(s: seq<byte>): (r: seq<bool>)
    ensures |r| == 8 * |s|
    decreases |s|
  {
    if s == [] then [] else LowBits(s[0], 8) + Bits(s[1..])
  }

  function Unit(bit: bool): bv32 { if bit then 1 else 0 }

  /** The register after some bits, one at a time. */
  function BitRegister(c: bv32, bits: seq<bool>): bv32
    decreases |bits|
  {
    if bits == [] then c else BitRegister(BitStep(Xor(c, Unit(bits[0]))), bits[1..])
  }

  /** Up to 32 bits as one number, the first one the lowest. */
  function BitWord(bits: seq<bool>): bv32
    decreases |bits|
  {
    if bits == [] then 0 else Xor(Unit(bits[0]), Double(BitWord(bits[1..])))
  }

  function BitSteps(c: bv32, n: nat): bv32
    decreases n
  {
    if n == 0 then c else BitSteps(BitStep(c), n - 1)
  }

  // ---------- words that can be doubled without losing a bit ----------

  /** w can be doubled m times. */
  predicate Room(w: bv32, m: nat)
    decreases m
  {
    m == 0 || (w <= 0x7FFF_FFFF && Room(Double(w), m - 1))
  }

  lemma DoubleXor(a: bv32, b: bv32)
    ensures Double(Xor(a, b)) == Xor(Double(a), Double(b))
    ensures a <= 0x7FFF_FFFF && b <= 0x7FFF_FFFF ==> Xor(a, b) <= 0x7FFF_FFFF
  {
  }

  lemma {:induction false} RoomXor(a: bv32, b: bv32, m: nat)
    requires Room(a, m) && Room(b, m)
    ensures Room(Xor(a, b), m)
    decreases m
  {
    hide Xor, Double;
    if m > 0 {
      DoubleXor(a, b);
      RoomXor(Double(a), Double(b), m - 1);
    }
  }

  lemma {:induction false} RoomLess(w: bv32, m: nat, k: nat)
    requires Room(w, m) && k <= m
    ensures Room(w, k)
    decreases k
  {
    hide Double;
    if k > 0 {
      RoomLess(Double(w), m - 1, k - 1);
    }
  }

  lemma RoomOfOne()
    ensures Room(1, 31)
  {
    assert Room(0x1000_0000, 3);
    assert Room(0x0200_0000, 6);
    assert Room(0x0040_0000, 9);
    assert Room(0x0008_0000, 12);
    assert Room(0x0001_0000, 15);
    assert Room(0x0000_2000, 18);
    assert Room(0x0000_0400, 21);
    assert Room(0x0000_0080, 24);
    assert Room(0x0000_0010, 27);
    assert Room(0x0000_0002, 30);
  }

  lemma {:induction false} RoomOfZero(m: nat)
    ensures Room(0, m)
    decreases m
  {
    if m > 0 {
      assert Double(0) == 0;
      RoomOfZero(m - 1);
    }
  }

  lemma {:induction false} RoomOfWord(bits: seq<bool>)
    requires |bits| <= 32
    ensures Room(BitWord(bits), 32 - |bits|)
    decreases |bits|
  {
    hide Xor, Double, Unit;
    var m := 32 - |bits|;
    if bits == [] {
      RoomOfZero(m);
    } else {
      RoomOfWord(bits[1..]);
      RoomOfUnit(bits[0], m);
      RoomXor(Unit(bits[0]), Double(BitWord(bits[1..])), m);
    }
  }

  lemma RoomOfUnit(bit: bool, m: nat)
    requires m <= 31
    ensures Room(Unit(bit), m)
  {
    RoomOfZero(m);
    RoomOfOne();
    RoomLess(1, 31, m);
  }

  // ---------- up to 32 bits at once ----------

  /** A bit step after adding a doubled word is a bit step before adding the word. */
  lemma BitStepAhead(x: bv32, w: bv32)
    requires w <= 0x7FFF_FFFF
    ensures BitStep(Xor(x, Double(w))) == Xor(BitStep(x), w)
  {
    hide BitStep, Xor, Double;
    BitStepLinear(x, Double(w));
    BitStepOfDouble(w);
  }

  /** Up to 32 bits can be added to the register all at once. */
  lemma {:induction false} RegisterOfBits(c: bv32, bits: seq<bool>)
    requires |bits| <= 32
    ensures BitRegister(c, bits) == BitSteps(Xor(c, BitWord(bits)), |bits|)
    decreases |bits|
  {
    hide BitStep, Xor, Double, Unit;
    if bits == [] {
      XorCancels(c, c, c);
    } else {
      var x := Xor(c, Unit(bits[0]));
      var w := BitWord(bits[1..]);
      RoomOfWord(bits[1..]);
      RegisterOfBits(BitStep(x), bits[1..]);
      BitStepAhead(x, w);
      XorAssociates(c, Unit(bits[0]), Double(w));
    }
  }

  /** The first bit and the rest can be told from the sum. */
  lemma FirstBit(a: bool, b: bool, v: bv32, w: bv32)
    requires v <= 0x7FFF_FFFF && w <= 0x7FFF_FFFF && Xor(Unit(a), Double(v)) == Xor(Unit(b), Double(w))
    ensures a == b && v == w
  {
  }

  lemma {:induction false} BitWordInjective(s: seq<bool>, t: seq<bool>)
    requires |s| == |t| <= 32 && BitWord(s) == BitWord(t)
    ensures s == t
    decreases |s|
  {
    hide Xor, Double, Unit;
    if s != [] {
      RoomOfWord(s[1..]);
      RoomOfWord(t[1..]);
      FirstBit(s[0], t[0], BitWord(s[1..]), BitWord(t[1..]));
      BitWordInjective(s[1..], t[1..]);
      assert s == [s[0]] + s[1..] && t == [t[0]] + t[1..];
    }
  }

  lemma {:induction false} BitStepsInjective(a: bv32, b: bv32, n: nat)
    requires BitSteps(a, n) == BitSteps(b, n)
    ensures a == b
    decreases n
  {
    hide BitStep;
    if n > 0 {
      BitStepsInjective(BitStep(a), BitStep(b), n - 1);
      BitStepInjective(a, b);
    }
  }

  // ---------- bytes and bits ----------

  /** b has no bit from the n-th on. */
  predicate Short(b: byte, n: nat)
    decreases n
  {
    if n == 0 then b == 0 else Short(b >> 1, n - 1)
  }

  lemma EveryByteIsShort(b: byte)
    ensures Short(b, 8)
  {
    var b1 := b >> 1;
    var b2 := b1 >> 1;
    var b3 := b2 >> 1;
    var b4 := b3 >> 1;
    var b5 := b4 >> 1;
    var b6 := b5 >> 1;
    var b7 := b6 >> 1;
    assert b7 >> 1 == 0;
    assert Short(b7, 1);
    assert Short(b6, 2);
    assert Short(b5, 3);
    assert Short(b4, 4);
    assert Short(b3, 5);
    assert Short(b2, 6);
    assert Short(b1, 7);
  }

  lemma WideSplits(b: byte)
    ensures Wide(b) == Xor(Unit(b & 1 == 1), Double(Wide(b >> 1)))
  {
  }

  lemma {:induction false} WordOfByte(b: byte, n: nat)
    requires Short(b, n)
    ensures BitWord(LowBits(b, n)) == Wide(b)
    decreases n
  {
    hide Xor, Double, Unit, Wide;
    if n == 0 {
      WideOfZero();
    } else {
      WordOfByte(b >> 1, n - 1);
      WideSplits(b);
      assert LowBits(b, n)[1..] == LowBits(b >> 1, n - 1);
    }
  }

  lemma WideOfZero()
    ensures Wide(0) == 0
  {
  }

  lemma WideInjective(a: byte, b: byte)
    requires Wide(a) == Wide(b)
    ensures a == b
  {
  }

  lemma EightBits(c: bv32)
    ensures BitSteps(c, 8) == ByteStep(c)
  {
    hide BitStep;
    var c1 := BitStep(c);
    var c2 := BitStep(c1);
    var c3 := BitStep(c2);
    var c4 := BitStep(c3);
    var c5 := BitStep(c4);
    assert BitSteps(c5, 3) == ByteStep(c);
    assert BitSteps(c, 8) == BitSteps(c1, 7) == BitSteps(c2, 6) == BitSteps(c3, 5);
    assert BitSteps(c3, 5) == BitSteps(c4, 4) == BitSteps(c5, 3);
  }

  lemma {:induction false} BitRegisterConcat(c: bv32, s: seq<bool>, t: seq<bool>)
    ensures BitRegister(c, s + t) == BitRegister(BitRegister(c, s), t)
    decreases |s|
  {
    hide BitStep, Xor, Unit;
    if s == [] {
      assert s + t == t;
    } else {
      assert (s + t)[1..] == s[1..] + t;
      BitRegisterConcat(BitStep(Xor(c, Unit(s[0]))), s[1..], t);
    }
  }

  /** Byte by byte or bit by bit, the register is the same. */
  lemma {:induction false} RegisterIsBitRegister(c: bv32, s: seq<byte>)
    ensures Register(c, s) == BitRegister(c, Bits(s))
    decreases |s|
  {
    hide ByteStep, Xor, Wide, BitRegister, BitSteps, BitWord, LowBits;
    if s == [] {
      NoBits(c);
    } else {
      var x := Xor(c, Wide(s[0]));
      EveryByteIsShort(s[0]);
      WordOfByte(s[0], 8);
      RegisterOfBits(c, LowBits(s[0], 8));
      EightBits(x);
      BitRegisterConcat(c, LowBits(s[0], 8), Bits(s[1..]));
      RegisterIsBitRegister(ByteStep(x), s[1..]);
    }
  }

  lemma NoBits(c: bv32)
    ensures BitRegister(c, []) == c
  {
  }

  lemma {:induction false} BitsInjective(s: seq<byte>, t: seq<byte>)
    requires |s| == |t| && Bits(s) == Bits(t)
    ensures s == t
    decreases |s|
  {
    hide Wide, LowBits, BitWord;
    if s != [] {
      var a, b := LowBits(s[0], 8), LowBits(t[0], 8);
      assert a == Bits(s)[..8] == Bits(t)[..8] == b;
      assert Bits(s[1..]) == Bits(s)[8..] == Bits(t)[8..] == Bits(t[1..]);
      EveryByteIsShort(s[0]);
      EveryByteIsShort(t[0]);
      WordOfByte(s[0], 8);
      WordOfByte(t[0], 8);
      WideInjective(s[0], t[0]);
      BitsInjective(s[1..], t[1..]);
      assert s == [s[0]] + s[1..] && t == [t[0]] + t[1..];
    }
  }

  lemma {:induction false} BitRegisterInjective(c: bv32, d: bv32, bits: seq<bool>)
    requires BitRegister(c, bits) == BitRegister(d, bits)
    ensures c == d
    decreases |bits|
  {
    hide BitStep, Xor, Unit;
    if bits != [] {
      var u := Unit(bits[0]);
      BitRegisterInjective(BitStep(Xor(c, u)), BitStep(Xor(d, u)), bits[1..]);
      BitStepInjective(Xor(c, u), Xor(d, u));
      XorCancels(c, d, u);
    }
  }

  // ---------- burst detection ----------

  /** The same bits but for a stretch of at most 32. */
  lemma BitBurst(c: bv32, before: seq<bool>, s: seq<bool>, t: seq<bool>, after: seq<bool>)
    requires |s| == |t| <= 32 && s != t
    ensures BitRegister(c, before + s + after) != BitRegister(c, before + t + after)
  {
    hide BitRegister, Xor, BitSteps, BitWord;
    var r := BitRegister(c, before);
    BitRegisterConcat(c, before + s, after);
    BitRegisterConcat(c, before + t, after);
    BitRegisterConcat(c, before, s);
    BitRegisterConcat(c, before, t);
    if BitRegister(c, before + s + after) == BitRegister(c, before + t + after) {
      BitRegisterInjective(BitRegister(r, s), BitRegister(r, t), after);
      RegisterOfBits(r, s);
      RegisterOfBits(r, t);
      BitStepsInjective(Xor(r, BitWord(s)), Xor(r, BitWord(t)), |s|);
      XorCancels(BitWord(s), BitWord(t), r);
      BitWordInjective(s, t);
    }
  }

  /** Two messages of the same length, however long, that differ, but only inside 32 consecutive
      bits, at any bit offset, never have the same checksum. */
  lemma BitBurstDetected(crc: bv32, s: seq<byte>, t: seq<byte>, i: nat)
    requires |s| == |t| && s != t
    requires forall k :: 0 <= k < |Bits(s)| && !(i <= k < i + 32) ==> Bits(s)[k] == Bits(t)[k]
    ensures BitSerial(crc, s) != BitSerial(crc, t)
  {
    hide Register, BitRegister, Bits, Xor;
    var a, b := Bits(s), Bits(t);
    if a == b {
      BitsInjective(s, t);
      assert false;
    }
    var lo, hi := Min(i, |a|), Min(i + 32, |a|);
    assert a == a[..lo] + a[lo..hi] + a[hi..];
    assert b == a[..lo] + b[lo..hi] + a[hi..];
    var c := Xor(crc, ONES);
    BitBurst(c, a[..lo], a[lo..hi], b[lo..hi], a[hi..]);
    RegisterIsBitRegister(c, s);
    RegisterIsBitRegister(c, t);
    if BitSerial(crc, s) == BitSerial(crc, t) {
      XorCancels(Register(c, s), Register(c, t), ONES);
    }
  }

  // ---------- 33 bits are too many ----------

  lemma {:induction false} ByteStepsLinear(a: bv32, b: bv32, n: nat)
    ensures ByteSteps(Xor(a, b), n) == Xor(ByteSteps(a, n), ByteSteps(b, n))
    decreases n
  {
    hide ByteStep, Xor;
    if n > 0 {
      ByteStepLinear(a, b);
      ByteStepsLinear(ByteStep(a), ByteStep(b), n - 1);
    }
  }

  /** Four byte steps of the polynomial, shifted by one bit and its leading bit added, leave 1. */
  lemma PolynomialSteps()
    ensures ByteSteps(0xDB710641, 4) == 1
  {
    assert ByteStep(0xDB710641) == 0x01000000;
    assert ByteStep(0x01000000) == 0x00010000;
    assert ByteStep(0x00010000) == 0x00000100;
    assert ByteStep(0x00000100) == 0x00000001;
    hide ByteStep;
    assert ByteSteps(0x00000100, 1) == ByteSteps(0x00000001, 0);
    assert ByteSteps(0x01000000, 3) == ByteSteps(0x00010000, 2) == ByteSteps(0x00000100, 1);
  }

  lemma FirstFourBytes(c: bv32)
    ensures Register(c, [0x41, 0x06, 0x71, 0xDB]) == Xor(Register(c, [0, 0, 0, 0]), 1)
  {
    WordsOfFour();
    hide Register, ByteStep, Xor, Word, ByteSteps;
    RegisterOfWord(c, [0x41, 0x06, 0x71, 0xDB]);
    RegisterOfWord(c, [0, 0, 0, 0]);
    ByteStepsLinear(c, 0xDB710641, 4);
    PolynomialSteps();
    XorCancels(c, c, c);
  }

  lemma FiveBytes(c: bv32, s: seq<byte>, b: byte)
    ensures Register(c, s + [b]) == ByteStep(Xor(Register(c, s), Wide(b)))
  {
    hide Register, ByteStep, Xor, Wide;
    RegisterConcat(c, s, [b]);
    OneMoreByte(Register(c, s), b);
  }

  /** The bound is sharp: two messages that differ inside 33 consecutive bits, by the generator
      polynomial itself, have the same checksum, whatever was checked before. */
  lemma BoundIsSharp(crc: bv32)
    ensures BitSerial(crc, [0x41, 0x06, 0x71, 0xDB, 0x01]) == BitSerial(crc, [0, 0, 0, 0, 0])
  {
    hide Register, ByteStep, Xor, Wide;
    var c := Xor(crc, ONES);
    var s, t: seq<byte> := [0x41, 0x06, 0x71, 0xDB], [0, 0, 0, 0];
    FirstFourBytes(c);
    assert Register(c, s) == Xor(Register(c, t), 1);
    FiveBytes(c, s, 0x01);
    FiveBytes(c, t, 0);
    LastByte(Register(c, t));
    assert Register(c, s + [0x01]) == Register(c, t + [0]);
    assert s + [0x01] == [0x41, 0x06, 0x71, 0xDB, 0x01] && t + [0] == [0, 0, 0, 0, 0];
  }

  lemma OneMoreByte(c: bv32, b: byte)
    ensures Register(c, [b]) == ByteStep(Xor(c, Wide(b)))
  {
    hide ByteStep, Xor, Wide;
    assert [b][1..] == [];
  }

  lemma LastByte(r: bv32)
    ensures Xor(Xor(r, 1), Wide(0x01)) == r == Xor(r, Wide(0))
  {
  }

  lemma WordsOfFour()
    ensures Word([0x41, 0x06, 0x71, 0xDB]) == 0xDB710641 && Word([0, 0, 0, 0]) == 0
  {
    var s, t: seq<byte> := [0x41, 0x06, 0x71, 0xDB], [0, 0, 0, 0];
    assert s[1..] == [0x06, 0x71, 0xDB] && s[1..][1..] == [0x71, 0xDB] && s[1..][1..][1..] == [0xDB];
    assert t[1..] == [0, 0, 0] && t[1..][1..] == [0, 0] && t[1..][1..][1..] == [0];
    assert Word([0xDB]) == 0xDB && Word([0]) == 0;
    assert Word([0x71, 0xDB]) == 0xDB71 && Word([0, 0]) == 0;
    assert Word([0x06, 0x71, 0xDB]) == 0xDB7106 && Word([0, 0, 0]) == 0;
  }

  // ---------- the two inversions ----------

  /** In full: invert, take in the message bit by bit, lowest bit of each byte first, and invert. */
  lemma InvertedBothEnds(crc: bv32, s: seq<byte>)
    ensures BitSerial(crc, s) == !BitRegister(!crc, Bits(s))
  {
    hide Register, BitRegister, Bits;
    XorOnes(crc);
    RegisterIsBitRegister(!crc, s);
    XorOnes(Register(!crc, s));
  }

  lemma XorOnes(x: bv32)
    ensures Xor(x, ONES) == !x
  {
  }

  /** The check value that is customary for this checksum: that of the nine bytes "123456789". */
  lemma CheckValue()
    ensures BitSerial(0, [0x31, 0x32, 0x33, 0x34, 0x35, 0x36, 0x37, 0x38, 0x39]) == 0xCBF43926
  {
    hide Register, BitStep;
    var s: seq<byte> := [0x31, 0x32, 0x33, 0x34, 0x35, 0x36, 0x37, 0x38, 0x39];
    FirstBytes();
    LastBytes();
    assert [0x31, 0x32, 0x33, 0x34, 0x35] + [0x36, 0x37, 0x38, 0x39] == s;
    RegisterConcat(0xFFFFFFFF, [0x31, 0x32, 0x33, 0x34, 0x35], [0x36, 0x37, 0x38, 0x39]);
  }

  lemma FirstBytes()
    ensures Register(0xFFFFFFFF, [0x31, 0x32, 0x33, 0x34, 0x35]) == 0x340AC5E3
  {
    assert ByteStep(Xor(0xFFFFFFFF, Wide(0x31))) == 0x7C231048;
    assert ByteStep(Xor(0x7C231048, Wide(0x32))) == 0xB0ACBB32;
    assert ByteStep(Xor(0xB0ACBB32, Wide(0x33))) == 0x77B79C2D;
    assert ByteStep(Xor(0x77B79C2D, Wide(0x34))) == 0x641C1F5C;
    assert ByteStep(Xor(0x641C1F5C, Wide(0x35))) == 0x340AC5E3;
    hide ByteStep, Xor, Wide;
    NextByte(0x641C1F5C, 0x35, [], [0x35]);
    NextByte(0x77B79C2D, 0x34, [0x35], [0x34, 0x35]);
    NextByte(0xB0ACBB32, 0x33, [0x34, 0x35], [0x33, 0x34, 0x35]);
    NextByte(0x7C231048, 0x32, [0x33, 0x34, 0x35], [0x32, 0x33, 0x34, 0x35]);
    NextByte(0xFFFFFFFF, 0x31, [0x32, 0x33, 0x34, 0x35], [0x31, 0x32, 0x33, 0x34, 0x35]);
  }

  lemma LastBytes()
    ensures Register(0x340AC5E3, [0x36, 0x37, 0x38, 0x39]) == 0x340BC6D9
  {
    assert ByteStep(Xor(0x340AC5E3, Wide(0x36))) == 0xF68D2C9E;
    assert ByteStep(Xor(0xF68D2C9E, Wide(0x37))) == 0xAFFC9660;
    assert ByteStep(Xor(0xAFFC9660, Wide(0x38))) == 0x651F2550;
    assert ByteStep(Xor(0x651F2550, Wide(0x39))) == 0x340BC6D9;
    hide ByteStep, Xor, Wide;
    NextByte(0x651F2550, 0x39, [], [0x39]);
    NextByte(0xAFFC9660, 0x38, [0x39], [0x38, 0x39]);
    NextByte(0xF68D2C9E, 0x37, [0x38, 0x39], [0x37, 0x38, 0x39]);
    NextByte(0x340AC5E3, 0x36, [0x37, 0x38, 0x39], [0x36, 0x37, 0x38, 0x39]);
  }

  lemma NextByte(c: bv32, b: byte, rest: seq<byte>, s: seq<byte>)
    requires s == [b] + rest
    ensures Register(c, s) == Register(ByteStep(Xor(c, Wide(b))), rest)
  {
    hide ByteStep, Xor, Wide;
    assert s[1..] == rest;
  }
}
