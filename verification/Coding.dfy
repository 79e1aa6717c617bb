/** Fixed-width and variable-width integers and length-prefixed strings
    (util/coding.cc, util/coding.h), and masked checksums (util/crc32c.h). */
module Coding {
  import opened Options

  type Byte = b: int | 0 <= b < 256
  type Bytes = seq<Byte>

  const TWO32: nat := 0x1_0000_0000
  const TWO64: nat := 0x1_0000_0000_0000_0000
  type Uint32 = x: int | 0 <= x < TWO32
  type Uint64 = x: int | 0 <= x < TWO64

  function Power2(n: nat): (r: nat)
    ensures r > 0
  {
    if n == 0 then 1 else 2 * Power2(n - 1)
  }

  // ----- fixed width -----

  function EncodeFixed32(v: Uint32): (r: Bytes)
    ensures |r| == 4
  {
    [v % 256, v / 256 % 256, v / 65536 % 256, v / 16777216]
  }

  function DecodeFixed32(s: Bytes): Uint32
    requires |s| >= 4
  {
    s[0] as int + 256 * (s[1] as int) + 65536 * (s[2] as int) + 16777216 * (s[3] as int)
  }

  lemma Fixed32RoundTrip(v: Uint32, rest: Bytes)
    ensures DecodeFixed32(EncodeFixed32(v) + rest) == v
  {
    var e := EncodeFixed32(v);
    assert forall i :: 0 <= i < 4 ==> (e + rest)[i] == e[i];
    assert v / 65536 == v / 256 / 256 && v / 16777216 == v / 65536 / 256;
  }

  /** Four bytes are the encoding of the number they decode to. */
  lemma Fixed32Bytes(s: Bytes)
    requires |s| >= 4
    ensures EncodeFixed32(DecodeFixed32(s)) == s[..4]
  {
    var v: int, a: int, b: int, c: int, d: int := DecodeFixed32(s), s[0], s[1], s[2], s[3];
    assert v % 256 == a && v / 256 == b + 256 * c + 65536 * d;
    assert v / 65536 == c + 256 * d && v / 16777216 == d;
  }

  function EncodeFixed64(v: Uint64): (r: Bytes)
    ensures |r| == 8
  {
    EncodeFixed32(v % TWO32) + EncodeFixed32(v / TWO32)
  }

  function DecodeFixed64(s: Bytes): Uint64
    requires |s| >= 8
  {
    DecodeFixed32(s) + TWO32 * DecodeFixed32(s[4..])
  }

  lemma Fixed64RoundTrip(v: Uint64, rest: Bytes)
    ensures DecodeFixed64(EncodeFixed64(v) + rest) == v
  {
    hide EncodeFixed32, DecodeFixed32;
    var low, high := EncodeFixed32(v % TWO32), EncodeFixed32(v / TWO32);
    assert EncodeFixed64(v) + rest == low + (high + rest);
    assert (EncodeFixed64(v) + rest)[4..] == high + rest;
    Fixed32RoundTrip(v % TWO32, high + rest);
    Fixed32RoundTrip(v / TWO32, rest);
  }

  // ----- masked checksums -----

  /** Eight bytes are the encoding of the number they decode to. */
  lemma Fixed64Unique(s: Bytes)
    requires |s| >= 8
    ensures EncodeFixed64(DecodeFixed64(s)) == s[..8]
  {
    hide EncodeFixed32, DecodeFixed32;
    var low: nat, high: nat := DecodeFixed32(s), DecodeFixed32(s[4..]);
    assert DecodeFixed64(s) == low + TWO32 * high;
    assert (low + TWO32 * high) % TWO32 == low && (low + TWO32 * high) / TWO32 == high;
    Fixed32Bytes(s);
    Fixed32Bytes(s[4..]);
    assert s[..4] + s[4..][..4] == s[..8];
  }

  const MASK_DELTA: Uint32 := 0xa282ead8

  /** Rotate right by 15 bits and add a constant. */
  function Mask(crc: Uint32): Uint32 {
    (crc / 0x8000 + crc % 0x8000 * 0x2_0000 + MASK_DELTA) % TWO32
  }

  function Unmask(masked: Uint32): Uint32 {
    var rot := (masked - MASK_DELTA) % TWO32;
    rot / 0x2_0000 + rot % 0x2_0000 * 0x8000
  }

  lemma UnmaskMask(crc: Uint32)
    ensures Unmask(Mask(crc)) == crc
  {
    var high, low := crc / 0x8000, crc % 0x8000;
    var rot := high + low * 0x2_0000;
    assert 0 <= rot < TWO32;
    assert (Mask(crc) - MASK_DELTA) % TWO32 == rot;
    assert rot / 0x2_0000 == low && rot % 0x2_0000 == high;
  }

  lemma MaskUnmask(masked: Uint32)
    ensures Mask(Unmask(masked)) == masked
  {
    var rot := (masked - MASK_DELTA) % TWO32;
    var low, high := rot / 0x2_0000, rot % 0x2_0000;
    var crc := low + high * 0x8000;
    assert crc / 0x8000 == high && crc % 0x8000 == low;
    assert high + low * 0x2_0000 == rot;
    assert (rot + MASK_DELTA) % TWO32 == masked;
  }

  /** Little-endian: byte i holds bits 8 * i and up. */
  lemma Fixed32Order(v: Uint32, i: nat)
    requires i < 4
    ensures EncodeFixed32(v)[i] == v / Power2(8 * i) % 256
  {
    assert Power2(8) == 256;
    assert Power2(16) == 65536;
    assert Power2(24) == 16777216;
  }

  // ----- variable width -----

  /** Seven bits a byte, lowest first, the high bit set on all but the last. */
  function Varint(v: nat): Bytes {
    if v < 128 then [v] else [v % 128 + 128] + Varint(v / 128)
  }

  /** EncodeVarint32, branch by branch. */
  function EncodeVarint32(v: Uint32): Bytes {
    if v < 0x80 then
      [v]
    else if v < 0x4000 then
      [v % 128 + 128, v / 0x80]
    else if v < 0x20_0000 then
      [v % 128 + 128, v / 0x80 % 128 + 128, v / 0x4000]
    else if v < 0x1000_0000 then
      [v % 128 + 128, v / 0x80 % 128 + 128, v / 0x4000 % 128 + 128, v / 0x20_0000]
    else
      [v % 128 + 128, v / 0x80 % 128 + 128, v / 0x4000 % 128 + 128, v / 0x20_0000 % 128 + 128, v / 0x1000_0000]
  }

  lemma VarintStep(v: nat)
    ensures v >= 128 ==> Varint(v) == [v % 128 + 128] + Varint(v / 128)
    ensures v < 128 ==> Varint(v) == [v]
  {
  }

  lemma Shifts(v: Uint32)
    ensures v / 0x80 / 128 == v / 0x4000 && v / 0x4000 / 128 == v / 0x20_0000
    ensures v / 0x20_0000 / 128 == v / 0x1000_0000 < 128
  {
  }

  lemma EncodeVarint32IsVarint(v: Uint32)
    ensures EncodeVarint32(v) == Varint(v) && |Varint(v)| <= 5
  {
    hide Varint;
    Shifts(v);
    VarintStep(v);
    VarintStep(v / 0x80);
    VarintStep(v / 0x4000);
    VarintStep(v / 0x20_0000);
    VarintStep(v / 0x1000_0000);
  }

  method EncodeVarint64(value: Uint64) returns (r: Bytes)
    ensures r == Varint(value)
  {
    var v: nat := value;
    r := [];
    while v >= 128
      invariant r + Varint(v) == Varint(value)
    {
      assert r + Varint(v) == (r + [v % 128 + 128]) + Varint(v / 128);
      r := r + [v % 128 + 128];
      v := v / 128;
    }
    r := r + [v];
  }

  lemma {:induction false} VarintLength(v: nat, k: nat)
    requires k > 0 && v < VarintBound(k)
    ensures |Varint(v)| <= k
    decreases k
  {
    if v >= 128 {
      assert VarintBound(1) == 128;
      VarintLength(v / 128, k - 1);
    }
  }

  /** The values of at most k bytes. */
  function VarintBound(k: nat): nat {
    if k == 0 then 1 else 128 * VarintBound(k - 1)
  }

  /** The value in front of s, of at most k bytes, and what follows it. */
  function ParseVarint(s: Bytes, k: nat): Option<(nat, Bytes)>
    decreases |s|
  {
    if k == 0 || s == [] then
      None
    else if s[0] < 128 then
      Some((s[0], s[1..]))
    else
      match ParseVarint(s[1..], k - 1)
      case None => None
      case Some((v, rest)) => Some((s[0] - 128 + 128 * v, rest))
  }

  lemma {:induction false} VarintRoundTrip(v: nat, rest: Bytes, k: nat)
    requires |Varint(v)| <= k
    ensures ParseVarint(Varint(v) + rest, k) == Some((v, rest))
    decreases v
  {
    if v < 128 {
      assert (Varint(v) + rest)[1..] == rest;
    } else {
      assert (Varint(v) + rest)[1..] == Varint(v / 128) + rest;
      VarintRoundTrip(v / 128, rest, k - 1);
    }
  }

  /** digit << shift, for factor == 1 << shift. */
  function Scale(factor: nat, digit: nat): nat { factor * digit }

  /** What the bytes read so far add to the value of the rest. */
  function Lift(sum: nat, factor: nat, r: Option<(nat, Bytes)>): Option<(nat, Bytes)> {
    match r
    case None => None
    case Some((v, rest)) => Some((sum + Scale(factor, v), rest))
  }

  lemma LiftStep(sum: nat, factor: nat, s: Bytes, k: nat)
    requires s != [] && k > 0
    ensures Lift(sum, factor, ParseVarint(s, k))
         == if s[0] >= 128 then Lift(sum + Scale(factor, s[0] % 128), Scale(factor, 128), ParseVarint(s[1..], k - 1))
            else Some((sum + Scale(factor, s[0] % 128), s[1..]))
  {
    if s[0] >= 128 && ParseVarint(s[1..], k - 1).Some? {
      var v := ParseVarint(s[1..], k - 1).value.0;
      assert factor * (s[0] % 128 + 128 * v) == factor * (s[0] % 128) + factor * 128 * v;
    }
  }

  /** The loop of GetVarint32Ptr (k = 5) and GetVarint64Ptr (k = 10). The cut to
      the width of the result is left to the callers. */
  method GetVarintPtr(s: Bytes, k: nat) returns (r: Option<(nat, Bytes)>)
    ensures r == ParseVarint(s, k)
  {
    var result: nat, factor: nat, p := 0, 1, 0;
    assert s[0..] == s;
    while p < k && p < |s|
      invariant 0 <= p <= k && p <= |s|
      invariant Lift(result, factor, ParseVarint(s[p..], k - p)) == ParseVarint(s, k)
    {
      LiftStep(result, factor, s[p..], k - p);
      assert s[p..][1..] == s[p + 1..];
      result := result + Scale(factor, s[p] % 128);
      p := p + 1;
      if s[p - 1] < 128 {
        return Some((result, s[p..]));
      }
      factor := Scale(factor, 128);
    }
    return None;
  }

  /** GetVarint32 and GetVarint64. */
  function GetVarint32(s: Bytes): Option<(Uint32, Bytes)> {
    match ParseVarint(s, 5)
    case None => None
    case Some((v, rest)) => Some((v % TWO32, rest))
  }

  function GetVarint64(s: Bytes): Option<(Uint64, Bytes)> {
    match ParseVarint(s, 10)
    case None => None
    case Some((v, rest)) => Some((v % TWO64, rest))
  }

  lemma Varint32RoundTrip(v: Uint32, rest: Bytes)
    ensures GetVarint32(Varint(v) + rest) == Some((v, rest))
  {
    hide Varint, ParseVarint;
    VarintLength(v, 5);
    VarintRoundTrip(v, rest, 5);
  }

  lemma Varint64RoundTrip(v: Uint64, rest: Bytes)
    ensures GetVarint64(Varint(v) + rest) == Some((v, rest))
  {
    hide Varint, ParseVarint;
    VarintLength(v, 10);
    VarintRoundTrip(v, rest, 10);
  }

  // ----- length-prefixed strings -----

  function PutLengthPrefixedSlice(v: Bytes): Bytes {
    Varint(|v| % TWO32) + v
  }

  function GetLengthPrefixedSlice(s: Bytes): Option<(Bytes, Bytes)> {
    match GetVarint32(s)
    case None => None
    case Some((n, rest)) => if n <= |rest| then Some((rest[..n], rest[n..])) else None
  }

  /** A string comes back whole exactly when its length fits in 32 bits. */
  lemma SliceRoundTrip(v: Bytes, rest: Bytes)
    ensures GetLengthPrefixedSlice(PutLengthPrefixedSlice(v) + rest) == Some((v, rest)) <==> |v| < TWO32
  {
    var n := |v| % TWO32;
    assert PutLengthPrefixedSlice(v) + rest == Varint(n) + (v + rest);
    Varint32RoundTrip(n, v + rest);
    if |v| < TWO32 {
      assert (v + rest)[..n] == v && (v + rest)[n..] == rest;
    } else {
      assert |(v + rest)[..n]| < |v|;
    }
  }

  lemma {:induction false} ParseShrinks(s: Bytes, k: nat)
    ensures ParseVarint(s, k).Some? ==> |ParseVarint(s, k).value.1| < |s|
    decreases |s|
  {
    if k > 0 && s != [] && s[0] >= 128 {
      ParseShrinks(s[1..], k - 1);
    }
  }

  lemma SliceShrinks(s: Bytes)
    ensures GetLengthPrefixedSlice(s).Some? ==> |GetLengthPrefixedSlice(s).value.1| < |s|
  {
    hide ParseVarint;
    ParseShrinks(s, 5);
  }
}
