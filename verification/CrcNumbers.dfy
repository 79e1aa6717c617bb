/** CRC32C on machine integers (util/crc32c.cc, util/crc32c.h): the checksum is the one
    that shifting and adding the polynomial 0x82f63b78 gives, a bit at a time. */
module CrcNumbers {
  import opened Coding
  import S = CrcStrides
  import C = Crc32c

  /** The low n bits of v, lowest first. */
  function BitSeq(v: nat, n: nat): (r: seq<bool>)
    ensures |r| == n
    decreases n
  {
    if n == 0 then [] else [v % 2 == 1] + BitSeq(v / 2, n - 1)
  }

  function BitValue(s: seq<bool>): nat {
    if s == [] then 0 else (if s[0] then 1 else 0) + 2 * BitValue(s[1..])
  }

  lemma {:induction false} BitValueBound(s: seq<bool>)
    ensures BitValue(s) < Power2(|s|)
  {
    if s != [] {
      BitValueBound(s[1..]);
    }
  }

  lemma {:induction false} BitSeqValue(s: seq<bool>)
    ensures BitSeq(BitValue(s), |s|) == s
  {
    if s != [] {
      BitSeqValue(s[1..]);
      assert BitValue(s) / 2 == BitValue(s[1..]);
      assert s == [s[0]] + s[1..];
    }
  }

  lemma Power32()
    ensures Power2(32) == TWO32
  {
    assert Power2(8) == 0x100;
    assert Power2(16) == 0x1_0000;
    assert Power2(24) == 0x100_0000;
  }

  function WordOf(x: nat): C.Word { C.Bits(BitSeq(x, 32)) }

  function ValueOf(w: C.Word): Uint32 {
    BitValueBound(w.at);
    Power32();
    BitValue(w.at)
  }

  lemma WordOfValue(w: C.Word)
    ensures WordOf(ValueOf(w)) == w
  {
    hide BitSeq, BitValue;
    BitSeqValue(w.at);
  }

  function BitsOf(data: Bytes): seq<C.Byte> {
    seq(|data|, i requires 0 <= i < |data| => ByteBits(data[i]))
  }

  /** Extend on machine integers. */
  function CrcExtend(crc: Uint32, data: Bytes): Uint32 {
    ValueOf(C.ExtendSpec(WordOf(crc), BitsOf(data)))
  }

  lemma {:induction false} BitValueSeq(v: nat, n: nat)
    requires v < Power2(n)
    ensures BitValue(BitSeq(v, n)) == v
    decreases n
  {
    if n > 0 {
      BitValueSeq(v / 2, n - 1);
      assert BitSeq(v, n)[1..] == BitSeq(v / 2, n - 1);
    }
  }

  lemma NextBit(v: nat, n: nat, i: nat)
    requires i < n
    ensures BitSeq(v, n)[i] == if i == 0 then v % 2 == 1 else BitSeq(v / 2, n - 1)[i - 1]
  {
  }

  lemma {:induction false} BitSeqPrefix(v: nat, n: nat, m: nat, i: nat)
    requires i < n && i < m
    ensures BitSeq(v, n)[i] == BitSeq(v, m)[i]
    decreases i
  {
    hide BitSeq;
    NextBit(v, n, i);
    NextBit(v, m, i);
    if i > 0 {
      BitSeqPrefix(v / 2, n - 1, m - 1, i - 1);
    }
  }

  lemma {:induction false} BitSeqHigh(v: nat, n: nat, i: nat)
    requires i < n && v < Power2(i)
    ensures !BitSeq(v, n)[i]
    decreases i
  {
    hide BitSeq;
    NextBit(v, n, i);
    if i > 0 {
      BitSeqHigh(v / 2, n - 1, i - 1);
    }
  }

  // ----- the textbook checksum -----

  const POLYNOMIAL: Uint32 := 0x82f6_3b78
  const ALL_ONES: Uint32 := 0xffff_ffff

  function Xor(a: nat, b: nat): nat
    decreases a + b
  {
    if a == 0 && b == 0 then 0 else (if a % 2 == b % 2 then 0 else 1) + 2 * Xor(a / 2, b / 2)
  }

  /** A bit falls out at the low end; a one adds the polynomial. */
  function Shift(v: nat): nat {
    if v % 2 == 1 then Xor(v / 2, POLYNOMIAL) else v / 2
  }

  function ShiftTimes(v: nat, n: nat): nat
    decreases n
  {
    if n == 0 then v else ShiftTimes(Shift(v), n - 1)
  }

  function Register(l: nat, data: Bytes): nat
    decreases |data|
  {
    if data == [] then l else Register(ShiftTimes(Xor(l, data[0]), 8), data[1..])
  }

  /** CRC32C, with the register inverted before and after. */
  function Textbook(crc: nat, data: Bytes): nat {
    Xor(Register(Xor(crc, ALL_ONES), data), ALL_ONES)
  }

  lemma {:induction false} XorStep(a: nat, b: nat)
    ensures (Xor(a, b) % 2 == 1 <==> a % 2 != b % 2) && Xor(a, b) / 2 == Xor(a / 2, b / 2)
  {
    var bit, rest := if a % 2 == b % 2 then 0 else 1, Xor(a / 2, b / 2);
    assert Xor(a, b) == bit + 2 * rest;
  }

  lemma {:induction false} XorBound(a: nat, b: nat, n: nat)
    requires a < Power2(n) && b < Power2(n)
    ensures Xor(a, b) < Power2(n)
    decreases n
  {
    if n > 0 {
      XorBound(a / 2, b / 2, n - 1);
    }
  }

  lemma {:induction false} XorBits(a: nat, b: nat, n: nat, i: nat)
    requires i < n
    ensures BitSeq(Xor(a, b), n)[i] <==> BitSeq(a, n)[i] != BitSeq(b, n)[i]
    decreases n
  {
    hide Xor, BitSeq;
    XorStep(a, b);
    NextBit(Xor(a, b), n, i);
    NextBit(a, n, i);
    NextBit(b, n, i);
    if i > 0 {
      XorBits(a / 2, b / 2, n - 1, i - 1);
    }
  }

  lemma WordXor(a: nat, b: nat)
    ensures WordOf(Xor(a, b)) == C.Xor(WordOf(a), WordOf(b))
  {
    hide Xor, BitSeq;
    forall i | 0 <= i < 32 ensures BitSeq(Xor(a, b), 32)[i] <==> BitSeq(a, 32)[i] != BitSeq(b, 32)[i] {
      XorBits(a, b, 32, i);
    }
    C.Same(WordOf(Xor(a, b)), C.Xor(WordOf(a), WordOf(b)));
  }

  function Halve(v: nat, i: nat): nat
    decreases i
  {
    if i == 0 then v else Halve(v / 2, i - 1)
  }

  lemma {:induction false} BitSeqHalve(v: nat, n: nat, i: nat)
    requires i < n
    ensures BitSeq(v, n)[i] <==> Halve(v, i) % 2 == 1
    decreases i
  {
    hide BitSeq;
    NextBit(v, n, i);
    if i > 0 {
      BitSeqHalve(v / 2, n - 1, i - 1);
    }
  }

  lemma {:induction false} HalveAdd(v: nat, i: nat, j: nat)
    ensures Halve(v, i + j) == Halve(Halve(v, i), j)
    decreases i
  {
    if i > 0 {
      HalveAdd(v / 2, i - 1, j);
    }
  }

  /** The powers of the polynomial are its bits. */
  lemma PolynomialBits(i: nat)
    requires i < 32
    ensures BitSeq(POLYNOMIAL, 32)[i] <==> C.InPolynomial(31 - i)
  {
    hide BitSeq, Halve, C.InPolynomial;
    BitSeqHalve(POLYNOMIAL, 32, i);
    HalveByte(POLYNOMIAL);
    HalveByte(0x82f6_3b);
    HalveByte(0x82f6);
    HalveAdd(POLYNOMIAL, 8, 8);
    HalveAdd(POLYNOMIAL, 16, 8);
    if i < 8 {
      FirstByte(i);
    } else if i < 16 {
      HalveAdd(POLYNOMIAL, 8, i - 8);
      SecondByte(i - 8);
    } else if i < 24 {
      HalveAdd(POLYNOMIAL, 16, i - 16);
      ThirdByte(i - 16);
    } else {
      HalveAdd(POLYNOMIAL, 24, i - 24);
      FourthByte(i - 24);
    }
  }

  lemma FirstByte(j: nat)
    requires j < 8
    ensures Halve(0x82f6_3b78, j) % 2 == 1 <==> C.InPolynomial(31 - j)
  {
    hide Halve;
    HalveByte(0x82f6_3b78);
  }

  lemma SecondByte(j: nat)
    requires j < 8
    ensures Halve(0x82f6_3b, j) % 2 == 1 <==> C.InPolynomial(23 - j)
  {
    hide Halve;
    HalveByte(0x82f6_3b);
  }

  lemma ThirdByte(j: nat)
    requires j < 8
    ensures Halve(0x82f6, j) % 2 == 1 <==> C.InPolynomial(15 - j)
  {
    hide Halve;
    HalveByte(0x82f6);
  }

  lemma FourthByte(j: nat)
    requires j < 8
    ensures Halve(0x82, j) % 2 == 1 <==> C.InPolynomial(7 - j)
  {
    hide Halve;
    HalveByte(0x82);
  }

  lemma HalveByte(v: nat)
    ensures Halve(v, 0) == v && Halve(v, 1) == v / 2 && Halve(v, 2) == v / 4 && Halve(v, 3) == v / 8
    ensures Halve(v, 4) == v / 16 && Halve(v, 5) == v / 32 && Halve(v, 6) == v / 64 && Halve(v, 7) == v / 128
    ensures Halve(v, 8) == v / 256
  {
    HalveNibble(v);
    HalveNibble(v / 16);
    HalveAdd(v, 4, 1);
    HalveAdd(v, 4, 2);
    HalveAdd(v, 4, 3);
    HalveAdd(v, 4, 4);
  }

  lemma HalveNibble(v: nat)
    ensures Halve(v, 0) == v && Halve(v, 1) == v / 2 && Halve(v, 2) == v / 4 && Halve(v, 3) == v / 8
    ensures Halve(v, 4) == v / 16
  {
    var a := v / 2;
    var b := a / 2;
    var c := b / 2;
    assert Halve(v, 1) == Halve(a, 0);
    assert Halve(v, 2) == Halve(a, 1) == Halve(b, 0);
    assert Halve(v, 3) == Halve(a, 2) == Halve(b, 1) == Halve(c, 0);
    assert Halve(v, 4) == Halve(a, 3) == Halve(b, 2) == Halve(c, 1) == Halve(c / 2, 0);
  }

  // ----- the register and the textbook -----

  /** A bit step is a shift, for every value of the register. */
  lemma BitStepIsShift(v: Uint32)
    ensures Shift(v) < TWO32 && C.BitStep(WordOf(v)) == WordOf(Shift(v))
  {
    hide BitSeq, Xor, C.InPolynomial, C.BitStep;
    Power32();
    var half := WordOf(v / 2);
    forall i | 0 <= i < 32 ensures half.at[i] <==> i < 31 && WordOf(v).at[i + 1] {
      if i < 31 {
        NextBit(v, 32, i + 1);
        BitSeqPrefix(v / 2, 32, 31, i);
      } else {
        assert Power2(31) == 0x8000_0000;
        BitSeqHigh(v / 2, 32, 31);
      }
    }
    NextBit(v, 32, 0);
    if v % 2 == 1 {
      XorBound(v / 2, POLYNOMIAL, 32);
      WordXor(v / 2, POLYNOMIAL);
      forall i | 0 <= i < 32 ensures WordOf(POLYNOMIAL).at[i] <==> C.InPolynomial(31 - i) {
        PolynomialBits(i);
      }
    }
    StepAt(WordOf(v), WordOf(Shift(v)), half, WordOf(POLYNOMIAL));
  }

  lemma StepAt(x: C.Word, y: C.Word, half: C.Word, poly: C.Word)
    requires forall i :: 0 <= i < 32 ==> (half.at[i] <==> i < 31 && x.at[i + 1])
    requires x.at[0] ==> forall i :: 0 <= i < 32 ==> (poly.at[i] <==> C.InPolynomial(31 - i))
    requires y == if x.at[0] then C.Xor(half, poly) else half
    ensures C.BitStep(x) == y
  {
    hide C.InPolynomial;
    C.Same(C.BitStep(x), y);
  }

  lemma {:induction false} BitStepsAreShifts(v: Uint32, n: nat)
    ensures ShiftTimes(v, n) < TWO32 && C.BitSteps(WordOf(v), n) == WordOf(ShiftTimes(v, n))
    decreases n
  {
    hide Shift, WordOf, C.BitStep;
    if n > 0 {
      BitStepIsShift(v);
      BitStepsAreShifts(Shift(v), n - 1);
    }
  }

  function ByteBits(b: Byte): C.Byte { C.Bits(BitSeq(b, 8)) }

  lemma PadByte(b: Byte)
    ensures C.Pad(ByteBits(b)) == WordOf(b)
  {
    hide BitSeq;
    forall i | 0 <= i < 32 ensures WordOf(b).at[i] <==> i < 8 && ByteBits(b).at[i] {
      if i < 8 {
        BitSeqPrefix(b, 32, 8, i);
      } else {
        Power2Grows(8, i);
        assert Power2(8) == 256;
        BitSeqHigh(b, 32, i);
      }
    }
    C.Same(C.Pad(ByteBits(b)), WordOf(b));
  }

  lemma {:induction false} Power2Grows(i: nat, j: nat)
    requires i <= j
    ensures Power2(i) <= Power2(j)
    decreases j
  {
    if i < j {
      Power2Grows(i, j - 1);
    }
  }

  /** STEP1 adds the byte to the register and shifts it out. */
  lemma StepIsShifts(l: Uint32, b: Byte)
    ensures Xor(l, b) < TWO32 && ShiftTimes(Xor(l, b), 8) < TWO32
    ensures C.Step1(WordOf(l), ByteBits(b)) == WordOf(ShiftTimes(Xor(l, b), 8))
  {
    hide Xor, WordOf, ByteBits, ShiftTimes, C.Zero1, C.Step1, C.BitSteps;
    Power32();
    XorBound(l, b, 32);
    C.Step1IsZero1(WordOf(l), ByteBits(b));
    PadByte(b);
    WordXor(l, b);
    C.Zero1IsSteps(WordOf(Xor(l, b)));
    BitStepsAreShifts(Xor(l, b), 8);
  }

  lemma {:induction false} FoldIsRegister(l: Uint32, data: Bytes)
    ensures Register(l, data) < TWO32
    ensures S.Fold(C.Register(), WordOf(l), BitsOf(data)) == WordOf(Register(l, data))
    decreases |data|
  {
    hide Xor, WordOf, ShiftTimes, C.Step1;
    if data != [] {
      StepIsShifts(l, data[0]);
      FoldIsRegister(ShiftTimes(Xor(l, data[0]), 8), data[1..]);
      assert BitsOf(data)[1..] == BitsOf(data[1..]);
      assert BitsOf(data)[0] == ByteBits(data[0]);
    }
  }

  lemma OnesWord()
    ensures WordOf(ALL_ONES) == C.Ones()
  {
    hide BitSeq;
    forall i | 0 <= i < 32 ensures BitSeq(ALL_ONES, 32)[i] {
      AllSet(32, i);
      assert Power2(8) == 0x100 && Power2(16) == 0x1_0000 && Power2(24) == 0x100_0000 && Power2(32) == TWO32;
    }
    C.Same(WordOf(ALL_ONES), C.Ones());
  }

  lemma {:induction false} AllSet(n: nat, i: nat)
    requires i < n
    ensures BitSeq(Power2(n) - 1, n)[i]
    decreases n
  {
    hide BitSeq;
    assert Power2(n) - 1 == 1 + 2 * (Power2(n - 1) - 1);
    NextBit(Power2(n) - 1, n, i);
    if i > 0 {
      AllSet(n - 1, i - 1);
    }
  }

  /** CRC32C of any string, in any number of calls, is the textbook's. */
  lemma ExtendIsTextbook(crc: Uint32, data: Bytes)
    ensures CrcExtend(crc, data) == Textbook(crc, data)
  {
    hide Xor, BitSeq, BitValue, Register;
    Power32();
    XorBound(crc, ALL_ONES, 32);
    var l := Xor(crc, ALL_ONES);
    WordXor(crc, ALL_ONES);
    OnesWord();
    FoldIsRegister(l, data);
    XorBound(Register(l, data), ALL_ONES, 32);
    WordXor(Register(l, data), ALL_ONES);
    BitValueSeq(Textbook(crc, data), 32);
  }

  /** An entry of the byte table is its byte, shifted out. */
  lemma TableIsShifts(b: Byte)
    ensures C.ByteTable(ByteBits(b)) == WordOf(ShiftTimes(b, 8))
  {
    hide WordOf, ShiftTimes, C.BitSteps;
    PadByte(b);
    BitStepsAreShifts(b, 8);
  }

  /** Extend as the source computes it, in strides, on machine integers. */
  method ExtendNumber(crc: Uint32, data: Bytes, address: nat) returns (r: Uint32)
    ensures r == Textbook(crc, data)
  {
    hide Textbook, C.ExtendSpec;
    var w := C.Extend(WordOf(crc), BitsOf(data), address);
    r := ValueOf(w);
    ExtendIsTextbook(crc, data);
  }
}
