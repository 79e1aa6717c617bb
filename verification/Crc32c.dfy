/** CRC32C (util/crc32c.cc): the byte-at-a-time register of section 12.1 of
    RFC 3720 and the four-stride form of Extend. */
module Crc32c {
  import opened CrcStrides

  datatype Bits = Bits(at: seq<bool>)

  /** A 32-bit register and a byte, least significant bit first. */
  type Word = w: Bits | |w.at| == 32 witness Bits(seq(32, _ => false))
  type Byte = b: Bits | |b.at| == 8 witness Bits(seq(8, _ => false))

  function Zeros(): Word { Bits(seq(32, _ => false)) }
  function Ones(): Word { Bits(seq(32, _ => true)) }

  /** The powers of x in the Castagnoli polynomial, 0x82f63b78 as a reflected
      word, beside x to the 32. */
  predicate InPolynomial(power: int) {
    power in {28, 27, 26, 25, 23, 22, 20, 19, 18, 14, 13, 11, 10, 9, 8, 6, 0}
  }

  function Xor(a: Word, b: Word): Word {
    Bits(seq(32, i requires 0 <= i < 32 => a.at[i] != b.at[i]))
  }

  function XorByte(a: Byte, b: Byte): Byte {
    Bits(seq(8, i requires 0 <= i < 8 => a.at[i] != b.at[i]))
  }

  /** x & 0xff, x >> 8, and a byte as a word. */
  function Low(x: Word): Byte { Bits(x.at[..8]) }
  function High(x: Word): Word { Bits(seq(32, i requires 0 <= i < 32 => i < 24 && x.at[i + 8])) }
  function Pad(b: Byte): Word { Bits(seq(32, i requires 0 <= i < 32 => i < 8 && b.at[i])) }

  lemma Same(a: Word, b: Word)
    requires forall i :: 0 <= i < 32 ==> a.at[i] == b.at[i]
    ensures a == b
  {
    assert a.at == b.at;
  }

  lemma SameByte(a: Byte, b: Byte)
    requires forall i :: 0 <= i < 8 ==> a.at[i] == b.at[i]
    ensures a == b
  {
    assert a.at == b.at;
  }

  lemma XorAssoc(a: Word, b: Word, c: Word)
    ensures Xor(Xor(a, b), c) == Xor(a, Xor(b, c))
  {
    Same(Xor(Xor(a, b), c), Xor(a, Xor(b, c)));
  }

  lemma XorComm(a: Word, b: Word)
    ensures Xor(a, b) == Xor(b, a)
  {
    Same(Xor(a, b), Xor(b, a));
  }

  lemma XorZero(a: Word)
    ensures Xor(a, Zeros()) == a && Xor(a, a) == Zeros()
  {
    Same(Xor(a, Zeros()), a);
    Same(Xor(a, a), Zeros());
  }

  lemma XorSwap(a: Word, b: Word, c: Word, d: Word)
    ensures Xor(Xor(a, b), Xor(c, d)) == Xor(Xor(a, c), Xor(b, d))
  {
    Same(Xor(Xor(a, b), Xor(c, d)), Xor(Xor(a, c), Xor(b, d)));
  }

  // ----- the linear part of a step -----

  /** x >> 1, with the polynomial added when a one falls out. */
  function BitStep(x: Word): Word {
    Bits(seq(32, i requires 0 <= i < 32 => (i < 31 && x.at[i + 1]) != (x.at[0] && InPolynomial(31 - i))))
  }

  function BitSteps(x: Word, n: nat): Word
    decreases n
  {
    if n == 0 then x else BitSteps(BitStep(x), n - 1)
  }

  lemma BitStepLinear(x: Word, y: Word)
    ensures BitStep(Xor(x, y)) == Xor(BitStep(x), BitStep(y))
  {
    Same(BitStep(Xor(x, y)), Xor(BitStep(x), BitStep(y)));
  }

  lemma {:induction false} BitStepsLinear(x: Word, y: Word, n: nat)
    ensures BitSteps(Xor(x, y), n) == Xor(BitSteps(x, n), BitSteps(y, n))
    decreases n
  {
    if n > 0 {
      BitStepLinear(x, y);
      BitStepsLinear(BitStep(x), BitStep(y), n - 1);
    }
  }

  lemma {:induction false} BitStepsZero(n: nat)
    ensures BitSteps(Zeros(), n) == Zeros()
  {
    if n > 0 {
      Same(BitStep(Zeros()), Zeros());
      BitStepsZero(n - 1);
    }
  }

  /** kByteExtensionTable[c], by the polynomial division it tabulates: one step
      for each bit of the byte. */
  function ByteTable(c: Byte): Word { BitSteps(Pad(c), |c.at|) }

  lemma ByteTableLinear(x: Byte, y: Byte)
    ensures ByteTable(XorByte(x, y)) == Xor(ByteTable(x), ByteTable(y))
  {
    Same(Pad(XorByte(x, y)), Xor(Pad(x), Pad(y)));
    BitStepsLinear(Pad(x), Pad(y), |x.at|);
  }

  /** The register after a zero byte. */
  function Zero1(x: Word): Word { Xor(ByteTable(Low(x)), High(x)) }

  lemma Zero1Linear(x: Word, y: Word)
    ensures Zero1(Xor(x, y)) == Xor(Zero1(x), Zero1(y))
  {
    SameByte(Low(Xor(x, y)), XorByte(Low(x), Low(y)));
    Same(High(Xor(x, y)), Xor(High(x), High(y)));
    ByteTableLinear(Low(x), Low(y));
    XorSwap(ByteTable(Low(x)), ByteTable(Low(y)), High(x), High(y));
  }

  /** Bits that fall out as zeros only shift the register. */
  lemma {:induction false} ShiftOut(x: Word, n: nat)
    requires n <= 8 && forall i :: 0 <= i < n ==> !x.at[i]
    ensures forall i :: 0 <= i < 32 ==> (BitSteps(x, n).at[i] <==> i + n < 32 && x.at[i + n])
    decreases n
  {
    if n > 0 {
      ShiftOut(BitStep(x), n - 1);
    }
  }

  /** A zero byte is eight bit steps of the whole register. */
  lemma Zero1IsSteps(x: Word)
    ensures Zero1(x) == BitSteps(x, 8)
  {
    hide BitSteps;
    var top: Word := Bits(seq(32, i requires 0 <= i < 32 => i >= 8 && x.at[i]));
    Same(x, Xor(Pad(Low(x)), top));
    BitStepsLinear(Pad(Low(x)), top, 8);
    ShiftOut(top, 8);
    Same(BitSteps(top, 8), High(x));
  }

  // ----- one byte and one word -----

  /** STEP1. */
  function Step1(l: Word, b: Byte): Word {
    Xor(ByteTable(XorByte(Low(l), b)), High(l))
  }

  lemma Step1IsZero1(l: Word, b: Byte)
    ensures Step1(l, b) == Zero1(Xor(l, Pad(b)))
  {
    SameByte(Low(Xor(l, Pad(b))), XorByte(Low(l), b));
    Same(High(Xor(l, Pad(b))), High(l));
  }

  /** A word of four bytes, the first one lowest. */
  function Join(b0: Byte, b1: Byte, b2: Byte, b3: Byte): Word {
    Bits(b0.at + b1.at + b2.at + b3.at)
  }

  function NoByte(): Byte { Bits(seq(8, _ => false)) }

  /** A byte above the lowest one waits for its turn. */
  lemma PeelByte(x: Word, b0: Byte, b1: Byte, b2: Byte, b3: Byte)
    ensures Zero1(Xor(x, Join(b0, b1, b2, b3))) == Xor(Step1(x, b0), Join(b1, b2, b3, NoByte()))
  {
    hide BitSteps, BitStep;
    var r := Join(NoByte(), b1, b2, b3);
    SameByte(Low(r), NoByte());
    Same(Pad(NoByte()), Zeros());
    BitStepsZero(|NoByte().at|);
    Same(High(r), Join(b1, b2, b3, NoByte()));
    ZeroFirst(High(r));
    Same(Xor(x, Join(b0, b1, b2, b3)), Xor(Xor(x, Pad(b0)), r));
    Zero1Linear(Xor(x, Pad(b0)), r);
    Step1IsZero1(x, b0);
  }

  lemma ZeroFirst(x: Word)
    ensures Xor(Zeros(), x) == x
  {
    Same(Xor(Zeros(), x), x);
  }

  /** The four bytes of a word, lowest first. */
  function Split(x: Word): (Byte, Byte, Byte, Byte) {
    (Bits(x.at[..8]), Bits(x.at[8..16]), Bits(x.at[16..24]), Bits(x.at[24..]))
  }

  lemma SplitJoin(x: Word)
    ensures Sum(Register(), Split(x)) == x
  {
    var b, z := Split(x), NoByte();
    Same(x, Xor(Xor(Xor(Join(b.0, z, z, z), Join(z, b.1, z, z)), Join(z, z, b.2, z)), Join(z, z, z, b.3)));
  }

  // ----- Extend -----

  /** The register of util/crc32c.cc. */
  function Register(): Machine<Word, Byte> {
    Machine(Xor, Zeros(), Zero1, Step1, Join, Split, NoByte())
  }

  lemma RegisterXor()
    ensures XorLaws(Register())
  {
    forall a: Word, b: Word, c: Word ensures Xor(Xor(a, b), c) == Xor(a, Xor(b, c)) { XorAssoc(a, b, c); }
    forall a: Word, b: Word ensures Xor(a, b) == Xor(b, a) { XorComm(a, b); }
    forall a: Word ensures Xor(a, Zeros()) == a && Xor(a, a) == Zeros() { XorZero(a); }
  }

  lemma RegisterLawful()
    ensures Lawful(Register())
  {
    RegisterXor();
    forall a: Word, b: Word ensures Zero1(Xor(a, b)) == Xor(Zero1(a), Zero1(b)) { Zero1Linear(a, b); }
    forall x: Word, b0: Byte, b1: Byte, b2: Byte, b3: Byte
      ensures Zero1(Xor(x, Join(b0, b1, b2, b3))) == Xor(Step1(x, b0), Join(b1, b2, b3, NoByte()))
    {
      PeelByte(x, b0, b1, b2, b3);
    }
    Same(Join(NoByte(), NoByte(), NoByte(), NoByte()), Zeros());
    forall x: Word ensures Sum(Register(), Split(x)) == x { SplitJoin(x); }
  }

  /** The checksum of a string whose checksum so far is crc, a byte at a time. */
  function ExtendSpec(crc: Word, data: seq<Byte>): Word {
    Xor(Fold(Register(), Xor(crc, Ones()), data), Ones())
  }

  /** Extend as the source computes it, for data at any address. */
  method Extend(crc: Word, data: seq<Byte>, address: nat) returns (r: Word)
    ensures r == ExtendSpec(crc, data)
  {
    RegisterLawful();
    var l := Run(Register(), Xor(crc, Ones()), data, address);
    r := Xor(l, Ones());
  }

  /** Extending in two steps is extending once: what the log writer's per-type
      checksums rely on. */
  lemma ExtendConcat(crc: Word, a: seq<Byte>, b: seq<Byte>)
    ensures ExtendSpec(ExtendSpec(crc, a), b) == ExtendSpec(crc, a + b)
  {
    var l := Fold(Register(), Xor(crc, Ones()), a);
    XorAssoc(l, Ones(), Ones());
    XorZero(Ones());
    XorZero(l);
    FoldConcat(Register(), Xor(crc, Ones()), a, b);
  }
}
