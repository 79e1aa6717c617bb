/** Filter policies, and the bloom filter (util/bloom.cc) for any hash function. */
module FilterPolicies {
  import opened Coding

  /** A summary of a list of keys, and the test whether a key may be among them. */
  datatype Policy = Policy(create: seq<Bytes> -> Bytes, mayMatch: (Bytes, Bytes) -> bool)

  /** A key that looks like one of the list may match; `view` is the part of a key
      that counts. */
  ghost predicate NoFalseNegatives(p: Policy, view: Bytes -> Bytes) {
    forall keys: seq<Bytes>, key: Bytes, k: Bytes {:trigger p.mayMatch(k, p.create(keys)), key in keys} ::
      key in keys && view(key) == view(k) ==> p.mayMatch(k, p.create(keys))
  }

  function Views(view: Bytes -> Bytes, keys: seq<Bytes>): seq<Bytes> {
    seq(|keys|, i requires 0 <= i < |keys| => view(keys[i]))
  }

  /** InternalFilterPolicy (db/dbformat.cc): a policy on the user keys. */
  function ViewPolicy(p: Policy, view: Bytes -> Bytes): Policy {
    Policy((keys: seq<Bytes>) => p.create(Views(view, keys)), (k: Bytes, filter: Bytes) => p.mayMatch(view(k), filter))
  }

  lemma ViewPolicyKeeps(p: Policy, view: Bytes -> Bytes)
    requires NoFalseNegatives(p, k => k)
    ensures NoFalseNegatives(ViewPolicy(p, view), view)
  {
    forall keys: seq<Bytes>, key: Bytes, k: Bytes | key in keys && view(key) == view(k)
      ensures p.mayMatch(view(k), p.create(Views(view, keys)))
    {
      var i :| 0 <= i < |keys| && keys[i] == key;
      assert Views(view, keys)[i] == view(k);
      assert view(k) in Views(view, keys);
    }
  }
}

module Bloom {
  import opened Coding
  import opened FilterPolicies

  type Hash = Bytes -> Uint32

  // ----- bits in bytes -----

  /** (b >> j) & 1. */
  predicate TestBit(b: nat, j: nat) {
    if j == 0 then b % 2 == 1 else TestBit(b / 2, j - 1)
  }

  /** b | (1 << j). */
  function SetBit(b: nat, j: nat): nat {
    if j == 0 then (if b % 2 == 1 then b else b + 1) else 2 * SetBit(b / 2, j - 1) + b % 2
  }

  /** The number whose n bits are those of a bit array from position p on. */
  function Number(bits: set<nat>, p: nat, n: nat): (r: nat)
    ensures r < Power2(n)
    decreases n
  {
    if n == 0 then 0 else (if p in bits then 1 else 0) + 2 * Number(bits, p + 1, n - 1)
  }

  lemma {:induction false} TestNumber(bits: set<nat>, p: nat, n: nat, j: nat)
    requires j < n
    ensures TestBit(Number(bits, p, n), j) <==> p + j in bits
    decreases n
  {
    if j > 0 {
      TestNumber(bits, p + 1, n - 1, j - 1);
    }
  }

  lemma {:induction false} OtherNumber(bits: set<nat>, p: nat, n: nat, q: nat)
    requires q < p || p + n <= q
    ensures Number(bits + {q}, p, n) == Number(bits, p, n)
    decreases n
  {
    if n > 0 {
      OtherNumber(bits, p + 1, n - 1, q);
    }
  }

  lemma {:induction false} SetNumber(bits: set<nat>, p: nat, n: nat, j: nat)
    requires j < n
    ensures SetBit(Number(bits, p, n), j) == Number(bits + {p + j}, p, n)
    decreases n
  {
    hide Number, SetBit;
    FirstBit(bits, p, n);
    FirstBit(bits + {p + j}, p, n);
    SetNext(if p in bits then 1 else 0, Number(bits, p + 1, n - 1), j);
    if j > 0 {
      SetNumber(bits, p + 1, n - 1, j - 1);
      assert p + 1 + (j - 1) == p + j;
    } else {
      OtherNumber(bits, p + 1, n - 1, p);
    }
  }

  lemma FirstBit(bits: set<nat>, p: nat, n: nat)
    requires n > 0
    ensures Number(bits, p, n) == (if p in bits then 1 else 0) + 2 * Number(bits, p + 1, n - 1)
  {
  }

  /** Setting a bit of a number whose first bit is bit. */
  lemma SetNext(bit: nat, rest: nat, j: nat)
    requires bit < 2
    ensures SetBit(bit + 2 * rest, j) == if j == 0 then 1 + 2 * rest else bit + 2 * SetBit(rest, j - 1)
  {
    assert (bit + 2 * rest) % 2 == bit && (bit + 2 * rest) / 2 == rest;
  }

  /** Byte i of a bit array. */
  function ByteOf(bits: set<nat>, i: nat): Byte {
    assert Power2(8) == 256;
    Number(bits, 8 * i, 8)
  }

  lemma TestByte(bits: set<nat>, i: nat, j: nat)
    requires j < 8
    ensures TestBit(ByteOf(bits, i), j) <==> 8 * i + j in bits
  {
    hide Number, TestBit;
    TestNumber(bits, 8 * i, 8, j);
  }

  lemma SetByte(bits: set<nat>, i: nat, j: nat)
    requires j < 8
    ensures SetBit(ByteOf(bits, i), j) == ByteOf(bits + {8 * i + j}, i)
  {
    hide Number, SetBit;
    SetNumber(bits, 8 * i, 8, j);
  }

  lemma OtherByte(bits: set<nat>, i: nat, j: nat, other: nat)
    requires j < 8 && other != i
    ensures ByteOf(bits + {8 * i + j}, other) == ByteOf(bits, other)
  {
    hide Number;
    OtherNumber(bits, 8 * other, 8, 8 * i + j);
  }

  /** A bit array of n bytes. */
  function Packed(bits: set<nat>, n: nat): Bytes {
    seq(n, i requires 0 <= i < n => ByteOf(bits, i))
  }

  lemma SetPacked(bits: set<nat>, n: nat, p: nat)
    requires p < 8 * n
    ensures SetBit(Packed(bits, n)[p / 8], p % 8) < 256
    ensures Packed(bits, n)[p / 8 := SetBit(Packed(bits, n)[p / 8], p % 8)] == Packed(bits + {p}, n)
  {
    hide SetBit, ByteOf;
    var q, j := p / 8, p % 8;
    assert p == 8 * q + j;
    SetByte(bits, q, j);
    forall i | 0 <= i < n && i != q ensures ByteOf(bits + {p}, i) == ByteOf(bits, i) {
      OtherByte(bits, q, j, i);
    }
  }

  // ----- probes -----

  function Slot(h: nat, bits: nat): (r: nat)
    requires bits > 0
    ensures r < bits
  {
    h % bits
  }

  /** Rotate right by 17 bits. */
  function Delta(h: Uint32): Uint32 { h / 0x2_0000 + h % 0x2_0000 * 0x8000 }

  /** The bits that k rounds of double hashing give. */
  function Probes(h: Uint32, delta: Uint32, k: nat, bits: nat): set<nat>
    requires bits > 0
    decreases k
  {
    if k == 0 then {} else {Slot(h, bits)} + Probes((h + delta) % TWO32, delta, k - 1, bits)
  }

  function KeyProbes(hash: Hash, key: Bytes, k: nat, bits: nat): set<nat>
    requires bits > 0
  {
    Probes(hash(key), Delta(hash(key)), k, bits)
  }

  function AllProbes(hash: Hash, keys: seq<Bytes>, k: nat, bits: nat): set<nat>
    requires bits > 0
  {
    if keys == [] then {} else AllProbes(hash, keys[..|keys| - 1], k, bits) + KeyProbes(hash, keys[|keys| - 1], k, bits)
  }

  lemma {:induction false} KeyAmongProbes(hash: Hash, keys: seq<Bytes>, key: Bytes, k: nat, bits: nat)
    requires bits > 0 && key in keys
    ensures KeyProbes(hash, key, k, bits) <= AllProbes(hash, keys, k, bits)
    decreases |keys|
  {
    var n := |keys| - 1;
    if keys[n] != key {
      assert keys == keys[..n] + [keys[n]];
      KeyAmongProbes(hash, keys[..n], key, k, bits);
    }
  }

  // ----- the filter -----

  /** The number of probes, 0.69 of the bits for a key, between 1 and 30. */
  function NumProbes(bitsPerKey: nat): (k: nat)
    ensures 1 <= k <= 30
  {
    var k := (bitsPerKey as real * 0.69).Floor;
    if k < 1 then 1 else if k > 30 then 30 else k
  }

  /** The size of the bit array, in bytes. */
  function NumBytes(n: nat, bitsPerKey: nat): (r: nat)
    ensures r >= 8
  {
    var bits := n * bitsPerKey;
    ((if bits < 64 then 64 else bits) + 7) / 8
  }

  function Filter(hash: Hash, bitsPerKey: nat, keys: seq<Bytes>): Bytes {
    var n, k := NumBytes(|keys|, bitsPerKey), NumProbes(bitsPerKey);
    Packed(AllProbes(hash, keys, k, 8 * n), n) + [k]
  }

  /** The probes of KeyMayMatch, one after the other. */
  predicate AllSet(filter: Bytes, n: nat, h: Uint32, delta: Uint32, k: nat)
    requires 0 < n <= |filter|
    decreases k
  {
    k == 0 || (var p := Slot(h, 8 * n);
               TestBit(filter[p / 8], p % 8) && AllSet(filter, n, (h + delta) % TWO32, delta, k - 1))
  }

  predicate KeyMayMatch(hash: Hash, key: Bytes, filter: Bytes) {
    var len := |filter|;
    len >= 2 && (filter[len - 1] > 30 || AllSet(filter, len - 1, hash(key), Delta(hash(key)), filter[len - 1]))
  }

  /** Every probe finds its bit exactly when the array holds all of them. */
  lemma {:induction false} AllSetMeans(bits: set<nat>, n: nat, tail: Bytes, h: Uint32, delta: Uint32, k: nat)
    requires n > 0
    ensures AllSet(Packed(bits, n) + tail, n, h, delta, k) <==> Probes(h, delta, k, 8 * n) <= bits
    decreases k
  {
    hide ByteOf, TestBit, Slot;
    if k > 0 {
      var p := Slot(h, 8 * n);
      assert p == 8 * (p / 8) + p % 8;
      TestByte(bits, p / 8, p % 8);
      assert (Packed(bits, n) + tail)[p / 8] == ByteOf(bits, p / 8);
      AllSetMeans(bits, n, tail, (h + delta) % TWO32, delta, k - 1);
    }
  }

  /** A hash after j rounds of double hashing, in 32 bits. */
  function Turned(h: nat, d: nat, j: nat): nat { (h + j * d) % TWO32 }

  /** The bit of probe j of a key. */
  function ProbeAt(hash: Hash, key: Bytes, j: nat, bits: nat): nat
    requires bits > 0
  {
    Turned(hash(key), Delta(hash(key)), j) % bits
  }

  lemma TurnedNext(h: nat, d: nat, j: nat)
    ensures Turned((h + d) % TWO32, d, j) == Turned(h, d, j + 1)
  {
    var x := h + d;
    assert x == x / TWO32 * TWO32 + x % TWO32;
    assert h + (j + 1) * d == x % TWO32 + j * d + x / TWO32 * TWO32;
    ModDrops(x % TWO32 + j * d, x / TWO32);
  }

  lemma NotTurned(h: Uint32, d: nat)
    ensures Turned(h, d, 0) == h
  {
  }

  lemma {:induction false} ModDrops(a: nat, q: nat)
    ensures (a + q * TWO32) % TWO32 == a % TWO32
  {
    if q > 0 {
      ModDrops(a, q - 1);
      assert a + q * TWO32 == a + (q - 1) * TWO32 + TWO32;
    }
  }

  lemma {:induction false} ProbesAre(h: Uint32, d: Uint32, k: nat, bits: nat, p: nat)
    requires bits > 0
    ensures p in Probes(h, d, k, bits) <==> exists j: nat :: j < k && Turned(h, d, j) % bits == p
    decreases k
  {
    hide Turned;
    if k > 0 {
      var next := (h + d) % TWO32;
      ProbesAre(next, d, k - 1, bits, p);
      NotTurned(h, d);
      if p in Probes(next, d, k - 1, bits) {
        var j: nat :| j < k - 1 && Turned(next, d, j) % bits == p;
        TurnedNext(h, d, j);
      }
      if j: nat :| 0 < j < k && Turned(h, d, j) % bits == p {
        TurnedNext(h, d, j - 1);
      }
    }
  }

  lemma {:induction false} AllProbesAre(hash: Hash, keys: seq<Bytes>, k: nat, bits: nat, p: nat)
    requires bits > 0
    ensures p in AllProbes(hash, keys, k, bits) <==> exists key :: key in keys && p in KeyProbes(hash, key, k, bits)
    decreases |keys|
  {
    hide KeyProbes;
    if keys != [] {
      var n := |keys| - 1;
      AllProbesAre(hash, keys[..n], k, bits, p);
      assert keys == keys[..n] + [keys[n]];
    }
  }

  /** Some key of the filter sets bit p. */
  ghost predicate SetBySome(hash: Hash, keys: seq<Bytes>, k: nat, bits: nat, p: nat)
    requires bits > 0
  {
    exists key, m: nat :: key in keys && m < k && ProbeAt(hash, key, m, bits) == p
  }

  lemma EmptySaysNo(hash: Hash, key: Bytes)
    ensures !KeyMayMatch(hash, key, [])
  {
  }

  /** When the answer is no: exactly when some probe of the key is a bit that no key of
      the filter sets. */
  lemma MatchMeans(hash: Hash, bitsPerKey: nat, keys: seq<Bytes>, key: Bytes)
    ensures var k, bits := NumProbes(bitsPerKey), 8 * NumBytes(|keys|, bitsPerKey);
            KeyMayMatch(hash, key, Filter(hash, bitsPerKey, keys)) <==>
              forall j: nat :: j < k ==> SetBySome(hash, keys, k, bits, ProbeAt(hash, key, j, bits))
  {
    hide AllSet, Packed, NumProbes, NumBytes, Delta, AllProbes, Probes;
    var n, k := NumBytes(|keys|, bitsPerKey), NumProbes(bitsPerKey);
    var all, bits := AllProbes(hash, keys, k, 8 * n), 8 * n;
    AllSetMeans(all, n, [k], hash(key), Delta(hash(key)), k);
    PackedLength(all, n);
    forall p: nat ensures p in all <==> SetBySome(hash, keys, k, bits, p) {
      SetMeans(hash, keys, k, bits, p);
    }
    SubsetMeans(hash, key, k, bits, all);
  }

  lemma SetMeans(hash: Hash, keys: seq<Bytes>, k: nat, bits: nat, p: nat)
    requires bits > 0
    ensures p in AllProbes(hash, keys, k, bits) <==> SetBySome(hash, keys, k, bits, p)
  {
    hide Delta, AllProbes, Probes, Turned;
    AllProbesAre(hash, keys, k, bits, p);
    forall x ensures p in KeyProbes(hash, x, k, bits) <==> exists m: nat :: m < k && ProbeAt(hash, x, m, bits) == p {
      KeyProbesAre(hash, x, k, bits, p);
    }
  }

  lemma KeyProbesAre(hash: Hash, x: Bytes, k: nat, bits: nat, p: nat)
    requires bits > 0
    ensures p in KeyProbes(hash, x, k, bits) <==> exists m: nat :: m < k && ProbeAt(hash, x, m, bits) == p
  {
    hide Delta, Probes, Turned;
    ProbesAre(hash(x), Delta(hash(x)), k, bits, p);
    if p in KeyProbes(hash, x, k, bits) {
      var m: nat :| m < k && Turned(hash(x), Delta(hash(x)), m) % bits == p;
      assert ProbeAt(hash, x, m, bits) == p;
    }
  }

  lemma SubsetMeans(hash: Hash, key: Bytes, k: nat, bits: nat, all: set<nat>)
    requires bits > 0
    ensures KeyProbes(hash, key, k, bits) <= all <==> forall j: nat :: j < k ==> ProbeAt(hash, key, j, bits) in all
  {
    hide KeyProbes, ProbeAt;
    forall p: nat
      ensures p in KeyProbes(hash, key, k, bits) <==> exists m: nat :: m < k && ProbeAt(hash, key, m, bits) == p
    {
      KeyProbesAre(hash, key, k, bits, p);
    }
  }

  lemma NoMiss(hash: Hash, bitsPerKey: nat, keys: seq<Bytes>, key: Bytes)
    requires key in keys
    ensures KeyMayMatch(hash, key, Filter(hash, bitsPerKey, keys))
  {
    hide AllSet, Packed, NumProbes, NumBytes, Delta, AllProbes;
    var n, k := NumBytes(|keys|, bitsPerKey), NumProbes(bitsPerKey);
    var bits := AllProbes(hash, keys, k, 8 * n);
    KeyAmongProbes(hash, keys, key, k, 8 * n);
    AllSetMeans(bits, n, [k], hash(key), Delta(hash(key)), k);
    PackedLength(bits, n);
  }

  lemma PackedLength(bits: set<nat>, n: nat)
    ensures |Packed(bits, n)| == n
  {
  }

  function BloomPolicy(hash: Hash, bitsPerKey: nat): Policy {
    Policy((keys: seq<Bytes>) => Filter(hash, bitsPerKey, keys),
           (key: Bytes, filter: Bytes) => KeyMayMatch(hash, key, filter))
  }

  lemma BloomHasNoFalseNegatives(hash: Hash, bitsPerKey: nat)
    ensures NoFalseNegatives(BloomPolicy(hash, bitsPerKey), k => k)
  {
    hide Filter, KeyMayMatch;
    forall keys: seq<Bytes>, key: Bytes | key in keys ensures KeyMayMatch(hash, key, Filter(hash, bitsPerKey, keys)) {
      NoMiss(hash, bitsPerKey, keys, key);
    }
  }

  // ----- the loops of the source -----

  /** The probes of one key, set in the array. */
  method SetProbes(array0: Bytes, ghost bits: set<nat>, n: nat, h0: Uint32, k: nat) returns (arr: Bytes)
    requires n > 0 && array0 == Packed(bits, n)
    ensures arr == Packed(bits + Probes(h0, Delta(h0), k, 8 * n), n)
  {
    hide ByteOf, SetBit, Slot, Delta, Packed;
    var h: Uint32, delta: Uint32 := h0, Delta(h0);
    arr := array0;
    ghost var done := bits;
    assert bits + Probes(h, delta, k, 8 * n) == done + Probes(h, delta, k - 0, 8 * n);
    var j := 0;
    while j < k
      invariant 0 <= j <= k && arr == Packed(done, n)
      invariant bits + Probes(h0, delta, k, 8 * n) == done + Probes(h, delta, k - j, 8 * n)
    {
      var p := Slot(h, 8 * n);
      PackedLength(done, n);
      SetPacked(done, n, p);
      arr := arr[p / 8 := SetBit(arr[p / 8], p % 8)];
      assert done + Probes(h, delta, k - j, 8 * n) == done + {p} + Probes((h + delta) % TWO32, delta, k - j - 1, 8 * n);
      done := done + {p};
      h := (h + delta) % TWO32;
      j := j + 1;
    }
    assert done == done + Probes(h, delta, 0, 8 * n);
  }

  /** CreateFilter appends the filter of the keys. */
  method CreateFilter(hash: Hash, bitsPerKey: nat, keys: seq<Bytes>, dst: Bytes) returns (r: Bytes)
    ensures r == dst + Filter(hash, bitsPerKey, keys)
  {
    hide ByteOf, Packed, NumProbes, NumBytes, Probes;
    var k, n := NumProbes(bitsPerKey), NumBytes(|keys|, bitsPerKey);
    var arr: Bytes := seq(n, _ => 0);
    NothingPacked(n);
    var i := 0;
    while i < |keys|
      invariant 0 <= i <= |keys| && arr == Packed(AllProbes(hash, keys[..i], k, 8 * n), n)
    {
      arr := SetProbes(arr, AllProbes(hash, keys[..i], k, 8 * n), n, hash(keys[i]), k);
      assert keys[..i + 1][..i] == keys[..i] && keys[..i + 1][i] == keys[i];
      i := i + 1;
    }
    assert keys[..i] == keys;
    r := dst + (arr + [k]);
  }

  lemma NothingPacked(n: nat)
    ensures Packed({}, n) == seq(n, _ => 0)
  {
  }

  method TestKey(hash: Hash, key: Bytes, filter: Bytes) returns (r: bool)
    ensures r == KeyMayMatch(hash, key, filter)
  {
    hide TestBit, Slot, Delta;
    var len := |filter|;
    if len < 2 {
      return false;
    }
    var k := filter[len - 1];
    if k > 30 {
      return true;
    }
    var h: Uint32, delta: Uint32 := hash(key), Delta(hash(key));
    var j := 0;
    while j < k
      invariant 0 <= j <= k
      invariant AllSet(filter, len - 1, hash(key), delta, k) == AllSet(filter, len - 1, h, delta, k - j)
    {
      var p := Slot(h, 8 * (len - 1));
      if !TestBit(filter[p / 8], p % 8) {
        return false;
      }
      h := (h + delta) % TWO32;
      j := j + 1;
    }
    return true;
  }
}
