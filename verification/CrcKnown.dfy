/** Known results of CRC32C (util/crc32c.cc, util/crc32c_test.cc), worked out a
    hexadecimal digit at a time. */
module CrcKnown {
  import opened Coding
  import opened CrcNumbers
  import C = Crc32c

  function FromHex(digits: seq<nat>): nat {
    if digits == [] then 0 else 16 * FromHex(digits[..|digits| - 1]) + digits[|digits| - 1]
  }

  function Hex(d: seq<nat>): nat
    requires |d| == 8
  {
    0x1000_0000 * d[0] + 0x100_0000 * d[1] + 0x10_0000 * d[2] + 0x1_0000 * d[3]
    + 0x1000 * d[4] + 0x100 * d[5] + 0x10 * d[6] + d[7]
  }

  lemma FromHex8(d: seq<nat>)
    requires |d| == 8
    ensures FromHex(d) == Hex(d)
  {
    FromHex4(d[..4]);
    assert d[..4] == d[..5][..4] && d[..5] == d[..6][..5] && d[..6] == d[..7][..6];
    var e := FromHex(d[..4]);
    assert FromHex(d[..5]) == 16 * e + d[4];
    assert FromHex(d[..6]) == 256 * e + 16 * d[4] + d[5];
    assert FromHex(d[..7]) == 4096 * e + 256 * d[4] + 16 * d[5] + d[6];
  }

  lemma FromHex4(d: seq<nat>)
    requires |d| == 4
    ensures FromHex(d) == 0x1000 * d[0] + 0x100 * d[1] + 0x10 * d[2] + d[3]
  {
    assert d[..0] == d[..1][..0] && d[..1] == d[..2][..1] && d[..2] == d[..3][..2];
    assert FromHex(d[..0]) == 0;
    assert FromHex(d[..1]) == d[0];
    assert FromHex(d[..2]) == 16 * d[0] + d[1];
    assert FromHex(d[..3]) == 256 * d[0] + 16 * d[1] + d[2];
  }

  /** z is the exclusive or of two hexadecimal digits. */
  predicate XorDigit(x: nat, y: nat, z: nat) {
    && x < 16 && y < 16 && z < 16
    && (z % 2 == 1 <==> x % 2 != y % 2) && (z / 2 % 2 == 1 <==> x / 2 % 2 != y / 2 % 2)
    && (z / 4 % 2 == 1 <==> x / 4 % 2 != y / 4 % 2) && (z / 8 == 1 <==> x / 8 != y / 8)
  }

  lemma {:induction false} XorNext(a: nat, b: nat, x: nat, y: nat)
    requires x < 2 && y < 2
    ensures Xor(2 * a + x, 2 * b + y) == 2 * Xor(a, b) + if x == y then 0 else 1
  {
    assert (2 * a + x) / 2 == a && (2 * b + y) / 2 == b;
  }

  function Differ(x: nat, y: nat): nat { if x == y then 0 else 1 }

  lemma XorFour(a: nat, b: nat, x3: nat, x2: nat, x1: nat, x0: nat, y3: nat, y2: nat, y1: nat, y0: nat)
    requires x3 < 2 && x2 < 2 && x1 < 2 && x0 < 2 && y3 < 2 && y2 < 2 && y1 < 2 && y0 < 2
    ensures Xor(16 * a + 8 * x3 + 4 * x2 + 2 * x1 + x0, 16 * b + 8 * y3 + 4 * y2 + 2 * y1 + y0)
         == 16 * Xor(a, b) + 8 * Differ(x3, y3) + 4 * Differ(x2, y2) + 2 * Differ(x1, y1) + Differ(x0, y0)
  {
    hide Xor;
    XorNext(a, b, x3, y3);
    XorNext(2 * a + x3, 2 * b + y3, x2, y2);
    XorNext(4 * a + 2 * x3 + x2, 4 * b + 2 * y3 + y2, x1, y1);
    XorNext(8 * a + 4 * x3 + 2 * x2 + x1, 8 * b + 4 * y3 + 2 * y2 + y1, x0, y0);
    assert 2 * (8 * a + 4 * x3 + 2 * x2 + x1) + x0 == 16 * a + 8 * x3 + 4 * x2 + 2 * x1 + x0;
    assert 2 * (8 * b + 4 * y3 + 2 * y2 + y1) + y0 == 16 * b + 8 * y3 + 4 * y2 + 2 * y1 + y0;
    assert 2 * (4 * a + 2 * x3 + x2) + x1 == 8 * a + 4 * x3 + 2 * x2 + x1;
    assert 2 * (4 * b + 2 * y3 + y2) + y1 == 8 * b + 4 * y3 + 2 * y2 + y1;
    assert 2 * (2 * a + x3) + x2 == 4 * a + 2 * x3 + x2 && 2 * (2 * b + y3) + y2 == 4 * b + 2 * y3 + y2;
  }

  lemma DigitBits(x: nat)
    requires x < 16
    ensures x == 8 * (x / 8) + 4 * (x / 4 % 2) + 2 * (x / 2 % 2) + x % 2 && x / 8 < 2
  {
  }

  lemma XorLast(a: nat, b: nat, x: nat, y: nat, z: nat)
    requires XorDigit(x, y, z)
    ensures Xor(16 * a + x, 16 * b + y) == 16 * Xor(a, b) + z
  {
    hide Xor;
    DigitBits(x);
    DigitBits(y);
    DigitBits(z);
    XorFour(a, b, x / 8, x / 4 % 2, x / 2 % 2, x % 2, y / 8, y / 4 % 2, y / 2 % 2, y % 2);
  }

  lemma {:induction false} XorHex(a: seq<nat>, b: seq<nat>, c: seq<nat>)
    requires |a| == |b| == |c| && forall i :: 0 <= i < |a| ==> XorDigit(a[i], b[i], c[i])
    ensures Xor(FromHex(a), FromHex(b)) == FromHex(c)
  {
    hide XorDigit;
    if a != [] {
      var n := |a| - 1;
      XorHex(a[..n], b[..n], c[..n]);
      XorLast(FromHex(a[..n]), FromHex(b[..n]), a[n], b[n], c[n]);
    }
  }

  lemma ShiftOdd(v: nat, half: seq<nat>, r: seq<nat>)
    requires |half| == |r| == 8 && v == 2 * Hex(half) + 1
    requires var poly := [8, 2, 15, 6, 3, 11, 7, 8]; forall i :: 0 <= i < 8 ==> XorDigit(half[i], poly[i], r[i])
    ensures Shift(v) == Hex(r)
  {
    hide Xor, FromHex;
    var poly := [8, 2, 15, 6, 3, 11, 7, 8];
    FromHex8(poly);
    FromHex8(half);
    FromHex8(r);
    XorHex(half, poly, r);
  }

  // A shift that adds the polynomial, digit by digit.

  lemma Shift00000001()
    ensures Shift(0x0000_0001) == 0x82f6_3b78
  {
    hide Xor;
    ShiftOdd(0x0000_0001, [0, 0, 0, 0, 0, 0, 0, 0], [8, 2, 15, 6, 3, 11, 7, 8]);
  }

  lemma Shift105EC76F()
    ensures Shift(0x105e_c76f) == 0x8ad9_58cf
  {
    hide Xor;
    ShiftOdd(0x105e_c76f, [0, 8, 2, 15, 6, 3, 11, 7], [8, 10, 13, 9, 5, 8, 12, 15]);
  }

  lemma Shift8AD958CF()
    ensures Shift(0x8ad9_58cf) == 0xc79a_971f
  {
    hide Xor;
    ShiftOdd(0x8ad9_58cf, [4, 5, 6, 12, 10, 12, 6, 7], [12, 7, 9, 10, 9, 7, 1, 15]);
  }

  lemma ShiftC79A971F()
    ensures Shift(0xc79a_971f) == 0xe13b_70f7
  {
    hide Xor;
    ShiftOdd(0xc79a_971f, [6, 3, 12, 13, 4, 11, 8, 15], [14, 1, 3, 11, 7, 0, 15, 7]);
  }

  lemma ShiftE13B70F7()
    ensures Shift(0xe13b_70f7) == 0xf26b_8303
  {
    hide Xor;
    ShiftOdd(0xe13b_70f7, [7, 0, 9, 13, 11, 8, 7, 11], [15, 2, 6, 11, 8, 3, 0, 3]);
  }

  lemma Shift7FFFFFCF()
    ensures Shift(0x7fff_ffcf) == 0xbd09_c49f
  {
    hide Xor;
    ShiftOdd(0x7fff_ffcf, [3, 15, 15, 15, 15, 15, 14, 7], [11, 13, 0, 9, 12, 4, 9, 15]);
  }

  lemma ShiftBD09C49F()
    ensures Shift(0xbd09_c49f) == 0xdc72_d937
  {
    hide Xor;
    ShiftOdd(0xbd09_c49f, [5, 14, 8, 4, 14, 2, 4, 15], [13, 12, 7, 2, 13, 9, 3, 7]);
  }

  lemma ShiftDC72D937()
    ensures Shift(0xdc72_d937) == 0xeccf_57e3
  {
    hide Xor;
    ShiftOdd(0xdc72_d937, [6, 14, 3, 9, 6, 12, 9, 11], [14, 12, 12, 15, 5, 7, 14, 3]);
  }

  lemma ShiftECCF57E3()
    ensures Shift(0xeccf_57e3) == 0xf491_9089
  {
    hide Xor;
    ShiftOdd(0xeccf_57e3, [7, 6, 6, 7, 10, 11, 15, 1], [15, 4, 9, 1, 9, 0, 8, 9]);
  }

  lemma ShiftF4919089()
    ensures Shift(0xf491_9089) == 0xf8be_f33c
  {
    hide Xor;
    ShiftOdd(0xf491_9089, [7, 10, 4, 8, 12, 8, 4, 4], [15, 8, 11, 14, 15, 3, 3, 12]);
  }

  lemma EvenShifts()
    ensures Shift(128) == 64 && Shift(64) == 32 && Shift(32) == 16 && Shift(16) == 8 && Shift(8) == 4
    ensures Shift(4) == 2 && Shift(2) == 1
    ensures Shift(0x82f6_3b78) == 0x417b_1dbc && Shift(0x417b_1dbc) == 0x20bd_8ede && Shift(0x20bd_8ede) == 0x105e_c76f
  {
    hide Xor;
  }

  lemma EightShifts(v: nat)
    ensures ShiftTimes(v, 8) == Shift(Shift(Shift(Shift(Shift(Shift(Shift(Shift(v))))))))
  {
    hide Shift;
    var w := Shift(Shift(Shift(Shift(v))));
    assert ShiftTimes(v, 8) == ShiftTimes(Shift(v), 7) == ShiftTimes(Shift(Shift(v)), 6);
    assert ShiftTimes(Shift(Shift(v)), 6) == ShiftTimes(Shift(Shift(Shift(v))), 5) == ShiftTimes(w, 4);
    assert ShiftTimes(w, 4) == ShiftTimes(Shift(w), 3) == ShiftTimes(Shift(Shift(w)), 2);
    var x := Shift(Shift(w));
    assert ShiftTimes(x, 2) == ShiftTimes(Shift(x), 1) == ShiftTimes(Shift(Shift(x)), 0);
  }

  /** The entries of kByteExtensionTable for the bytes with one bit. */
  function Entry(b: Byte): Uint32 {
    if b == 0x01 then 0xf26b_8303 else if b == 0x02 then 0xe13b_70f7
    else if b == 0x04 then 0xc79a_971f else if b == 0x08 then 0x8ad9_58cf
    else if b == 0x10 then 0x105e_c76f else if b == 0x20 then 0x20bd_8ede
    else if b == 0x40 then 0x417b_1dbc else 0x82f6_3b78
  }

  lemma EntryShifts(b: Byte)
    requires b in {0x01, 0x02, 0x04, 0x08, 0x10, 0x20, 0x40, 0x80}
    ensures ShiftTimes(b, 8) == Entry(b)
  {
    hide Shift, ShiftTimes;
    EightShifts(b);
    EvenShifts();
    Shift00000001();
    Shift105EC76F();
    Shift8AD958CF();
    ShiftC79A971F();
    ShiftE13B70F7();
  }

  /** The table is linear, so these entries fix all of it. */
  lemma TableEntries(b: Byte)
    requires b in {0x01, 0x02, 0x04, 0x08, 0x10, 0x20, 0x40, 0x80}
    ensures C.ByteTable(ByteBits(b)) == WordOf(Entry(b))
  {
    hide WordOf, ByteBits, ShiftTimes, C.ByteTable;
    TableIsShifts(b);
    EntryShifts(b);
  }

  lemma LetterShifts()
    ensures Shift(0xffff_ff9e) == 0x7fff_ffcf && Shift(0xf8be_f33c) == 0x7c5f_799e && Shift(0x7c5f_799e) == 0x3e2f_bccf
    ensures ShiftTimes(0xffff_ff9e, 8) == 0x3e2f_bccf
  {
    hide Xor;
    assert Shift(0xffff_ff9e) == 0x7fff_ffcf && Shift(0xf8be_f33c) == 0x7c5f_799e && Shift(0x7c5f_799e) == 0x3e2f_bccf;
    hide Shift, ShiftTimes;
    EightShifts(0xffff_ff9e);
    Shift7FFFFFCF();
    ShiftBD09C49F();
    ShiftDC72D937();
    ShiftECCF57E3();
    ShiftF4919089();
  }

  lemma {:induction false} XorNothing(a: nat)
    ensures Xor(a, 0) == a
  {
    if a > 0 {
      XorNothing(a / 2);
    }
  }

  /** Exclusive or with ones inverts. */
  lemma {:induction false} XorOnes(a: nat, n: nat)
    requires a < Power2(n)
    ensures Xor(a, Power2(n) - 1) == Power2(n) - 1 - a
    decreases n
  {
    hide Xor;
    if n == 0 {
      XorNothing(0);
    } else {
      XorOnes(a / 2, n - 1);
      XorNext(a / 2, Power2(n - 1) - 1, a % 2, 1);
    }
  }

  lemma Inverted(a: Uint32)
    ensures Xor(a, ALL_ONES) == ALL_ONES - a
  {
    hide Xor;
    Power32();
    XorOnes(a, 32);
  }

  lemma AddLetter()
    ensures Xor(ALL_ONES, 0x61) == 0xffff_ff9e
  {
    hide Xor;
    XorLast(0xfff_ffff, 6, 15, 1, 14);
    XorLast(0xff_ffff, 0, 15, 6, 9);
    XorNothing(0xff_ffff);
  }

  /** The checksum of "a", inversions and all. */
  lemma KnownChecksum(data: Bytes)
    requires data == [0x61]
    ensures CrcExtend(0, data) == 0xc1d0_4330
  {
    hide CrcExtend, Xor, ShiftTimes;
    ExtendIsTextbook(0, data);
    Inverted(0);
    AddLetter();
    Inverted(0x3e2f_bccf);
    LetterShifts();
    assert Register(0xffff_ffff, data) == Register(ShiftTimes(Xor(0xffff_ffff, 0x61), 8), []);
  }
}
