/** Comparators (util/comparator.cc, db/dbformat.cc). */
module Comparators {
  import opened Coding

  type Less = (Bytes, Bytes) -> bool

  /** Names the instance of an order law that a proof uses. */
  predicate At(a: Bytes, b: Bytes, c: Bytes) { true }

  /** What every comparator promises: keys fall into classes that are in a line. */
  ghost predicate WeakOrder(less: Less) {
    && (forall a {:trigger At(a, a, a)} :: !less(a, a))
    && (forall a, b, c {:trigger At(a, b, c)} :: less(a, b) && less(b, c) ==> less(a, c))
    && (forall a, b, c {:trigger At(a, b, c)} :: less(a, c) ==> less(a, b) || less(b, c))
  }

  /** a before b before c; and what lies before c lies before b or b before c. */
  lemma Order(less: Less, a: Bytes, b: Bytes, c: Bytes)
    requires WeakOrder(less)
    ensures !less(a, a)
    ensures less(a, b) && less(b, c) ==> less(a, c)
    ensures less(a, c) ==> less(a, b) || less(b, c)
  {
    assert At(a, a, a) && At(a, b, c);
  }

  lemma Asymmetric(less: Less, a: Bytes, b: Bytes)
    requires WeakOrder(less) && less(a, b)
    ensures !less(b, a)
  {
    Order(less, a, b, a);
  }

  // ----- the bytewise order -----

  predicate BytesLess(a: Bytes, b: Bytes) {
    b != [] && (a == [] || a[0] < b[0] || (a[0] == b[0] && BytesLess(a[1..], b[1..])))
  }

  lemma {:induction false} BytesIrreflexive(a: Bytes)
    ensures !BytesLess(a, a)
  {
    if a != [] {
      BytesIrreflexive(a[1..]);
    }
  }

  lemma {:induction false} BytesTransitive(a: Bytes, b: Bytes, c: Bytes)
    requires BytesLess(a, b) && BytesLess(b, c)
    ensures BytesLess(a, c)
  {
    if a != [] && a[0] == b[0] == c[0] {
      BytesTransitive(a[1..], b[1..], c[1..]);
    }
  }

  lemma {:induction false} BytesTotal(a: Bytes, b: Bytes)
    ensures BytesLess(a, b) || BytesLess(b, a) || a == b
  {
    if a != [] && b != [] && a[0] == b[0] {
      BytesTotal(a[1..], b[1..]);
      assert a == [a[0]] + a[1..] && b == [b[0]] + b[1..];
    }
  }

  lemma BytesOrder()
    ensures WeakOrder(BytesLess)
  {
    forall a ensures !BytesLess(a, a) { BytesIrreflexive(a); }
    forall a, b, c ensures BytesLess(a, b) && BytesLess(b, c) ==> BytesLess(a, c) {
      if BytesLess(a, b) && BytesLess(b, c) {
        BytesTransitive(a, b, c);
      }
    }
    forall a, b, c ensures BytesLess(a, c) ==> BytesLess(a, b) || BytesLess(b, c) {
      if BytesLess(a, c) {
        BytesTotal(a, b);
        BytesTotal(b, c);
        if BytesLess(b, a) {
          BytesTransitive(b, a, c);
        }
      }
    }
  }

  /** The first byte where two strings differ is smaller in a. */
  ghost predicate SmallerAt(a: Bytes, b: Bytes, i: nat) {
    i < |a| && i < |b| && a[..i] == b[..i] && a[i] < b[i]
  }

  /** What the order is: a string comes after its proper prefixes, and otherwise the
      first different byte decides. */
  lemma {:induction false} BytesLessMeans(a: Bytes, b: Bytes)
    ensures BytesLess(a, b) <==> a < b || exists i: nat :: SmallerAt(a, b, i)
  {
    if BytesLess(a, b) {
      var i := FirstDifference(a, b);
    }
    if a < b {
      PrefixLess(a, b);
    }
    if i: nat :| SmallerAt(a, b, i) {
      Decides(a, b, i);
    }
  }

  lemma {:induction false} FirstDifference(a: Bytes, b: Bytes) returns (i: nat)
    requires BytesLess(a, b)
    ensures a < b || SmallerAt(a, b, i)
  {
    i := 0;
    if a != [] && a[0] == b[0] {
      var j := FirstDifference(a[1..], b[1..]);
      i := j + 1;
      assert a == [a[0]] + a[1..] && b == [b[0]] + b[1..];
      if !(a < b) {
        assert a[..i] == [a[0]] + a[1..][..j] && b[..i] == [b[0]] + b[1..][..j];
      }
    }
  }

  lemma {:induction false} PrefixLess(a: Bytes, b: Bytes)
    requires a < b
    ensures BytesLess(a, b)
  {
    if a != [] {
      assert a[0] == b[0] && a[1..] < b[1..];
      PrefixLess(a[1..], b[1..]);
    }
  }

  /** Slice::compare: memcmp on the common length, then the lengths. */
  method Compare(a: Bytes, b: Bytes) returns (r: int)
    ensures r < 0 <==> BytesLess(a, b)
    ensures r > 0 <==> BytesLess(b, a)
    ensures r == 0 <==> a == b
  {
    hide BytesLess;
    var minLen := if |a| < |b| then |a| else |b|;
    BytesOrder();
    var i := 0;
    while i < minLen
      invariant 0 <= i <= minLen && a[..i] == b[..i]
    {
      if a[i] != b[i] {
        r := a[i] as int - b[i] as int;
        if r < 0 {
          Decides(a, b, i);
          Asymmetric(BytesLess, a, b);
        } else {
          Decides(b, a, i);
          Asymmetric(BytesLess, b, a);
        }
        return;
      }
      i := i + 1;
    }
    r := if |a| < |b| then -1 else if |a| > |b| then 1 else 0;
    if |a| < |b| {
      PrefixLess(a, b);
      Asymmetric(BytesLess, a, b);
    } else if |a| > |b| {
      PrefixLess(b, a);
      Asymmetric(BytesLess, b, a);
    } else {
      assert a == b;
      BytesIrreflexive(a);
    }
  }

  /** After a common prefix the first different byte decides. */
  lemma {:induction false} Decides(a: Bytes, b: Bytes, i: nat)
    requires i < |a| && i < |b| && a[..i] == b[..i] && a[i] < b[i]
    ensures BytesLess(a, b)
    decreases i
  {
    if i > 0 {
      assert a[..i][0] == b[..i][0];
      assert a[1..][..i - 1] == a[..i][1..] == b[..i][1..] == b[1..][..i - 1];
      Decides(a[1..], b[1..], i - 1);
    }
  }

  /** The separator: start, or a string no longer that lies between start and limit. */
  function BytesSeparator(start: Bytes, limit: Bytes): Bytes {
    BytesSeparatorFrom(start, limit, 0)
  }

  function BytesSeparatorFrom(start: Bytes, limit: Bytes, i: nat): Bytes
    decreases |start| - i
  {
    if i >= |start| || i >= |limit| then start
    else if start[i] == limit[i] then BytesSeparatorFrom(start, limit, i + 1)
    else if start[i] < 255 && start[i] + 1 < limit[i] then start[..i] + [start[i] + 1]
    else start
  }

  lemma {:induction false} SeparatorFrom(start: Bytes, limit: Bytes, i: nat)
    requires i <= |start| && i <= |limit| && start[..i] == limit[..i]
    ensures var s := BytesSeparatorFrom(start, limit, i);
            s == start || (|s| <= |start| && BytesLess(start, s) && BytesLess(s, limit))
    decreases |start| - i
  {
    if i < |start| && i < |limit| {
      if start[i] == limit[i] {
        assert start[..i + 1] == start[..i] + [start[i]] == limit[..i + 1];
        SeparatorFrom(start, limit, i + 1);
      } else if start[i] < 255 && start[i] + 1 < limit[i] {
        var s := start[..i] + [start[i] + 1];
        assert s[..i] == start[..i] == limit[..i];
        Decides(start, s, i);
        Decides(s, limit, i);
      }
    }
  }

  lemma BytesSeparates(start: Bytes, limit: Bytes)
    ensures var s := BytesSeparator(start, limit);
            s == start || (|s| <= |start| && BytesLess(start, s) && BytesLess(s, limit))
  {
    SeparatorFrom(start, limit, 0);
  }

  /** When the separator is shorter: where the strings first differ, at i, there is room
      for a byte between theirs. A string and its prefix are never separated. */
  lemma SeparatorMeans(start: Bytes, limit: Bytes, i: nat)
    requires i <= |start| && i <= |limit| && start[..i] == limit[..i]
    requires i < |start| && i < |limit| ==> start[i] != limit[i]
    ensures BytesSeparator(start, limit)
         == if i < |start| && i < |limit| && limit[i] as int - start[i] as int > 1 then start[..i] + [start[i] + 1]
            else start
  {
    SameSoFar(start, limit, i);
  }

  lemma {:induction false} SameSoFar(start: Bytes, limit: Bytes, i: nat)
    requires i <= |start| && i <= |limit| && start[..i] == limit[..i]
    ensures BytesSeparator(start, limit) == BytesSeparatorFrom(start, limit, i)
    decreases i
  {
    if i > 0 {
      assert start[..i - 1] == start[..i][..i - 1] == limit[..i][..i - 1] == limit[..i - 1];
      assert start[i - 1] == start[..i][i - 1] == limit[..i][i - 1] == limit[i - 1];
      SameSoFar(start, limit, i - 1);
    }
  }

  /** FindShortestSeparator, which works in place. */
  method FindShortestSeparator(start: Bytes, limit: Bytes) returns (r: Bytes)
    ensures r == BytesSeparator(start, limit)
  {
    var minLength := if |start| < |limit| then |start| else |limit|;
    var diffIndex := 0;
    while diffIndex < minLength && start[diffIndex] == limit[diffIndex]
      invariant 0 <= diffIndex <= minLength
      invariant BytesSeparatorFrom(start, limit, diffIndex) == BytesSeparator(start, limit)
    {
      diffIndex := diffIndex + 1;
    }
    r := start;
    if diffIndex < minLength {
      var diffByte := start[diffIndex];
      if diffByte < 255 && diffByte + 1 < limit[diffIndex] {
        r := r[diffIndex := diffByte + 1];
        r := r[..diffIndex + 1];
        assert r == start[..diffIndex] + [diffByte + 1];
      }
    }
  }

  function BytesSuccessorFrom(key: Bytes, i: nat): Bytes
    decreases |key| - i
  {
    if i >= |key| then key
    else if key[i] != 255 then key[..i] + [key[i] + 1]
    else BytesSuccessorFrom(key, i + 1)
  }

  function BytesSuccessor(key: Bytes): Bytes { BytesSuccessorFrom(key, 0) }

  lemma {:induction false} SuccessorFrom(key: Bytes, i: nat)
    requires i <= |key|
    ensures var s := BytesSuccessorFrom(key, i); s == key || (|s| <= |key| && BytesLess(key, s))
    decreases |key| - i
  {
    if i < |key| {
      if key[i] != 255 {
        var s := key[..i] + [key[i] + 1];
        assert s[..i] == key[..i];
        Decides(key, s, i);
      } else {
        SuccessorFrom(key, i + 1);
      }
    }
  }

  /** The first byte that can grow is where the successor ends. */
  lemma {:induction false} SuccessorMeans(key: Bytes, i: nat)
    requires i <= |key| && (forall j :: 0 <= j < i ==> key[j] == 255) && (i < |key| ==> key[i] < 255)
    ensures BytesSuccessor(key) == if i < |key| then key[..i] + [key[i] + 1] else key
  {
    var j := i;
    while j > 0
      invariant 0 <= j <= i && BytesSuccessorFrom(key, j) == BytesSuccessorFrom(key, i)
    {
      j := j - 1;
    }
  }

  /** Nothing shorter than the successor lies after the key. */
  lemma SuccessorShortest(key: Bytes, t: Bytes)
    requires BytesLess(key, t) && BytesSuccessor(key) != key
    ensures |BytesSuccessor(key)| <= |t|
  {
    hide BytesLess;
    var i := 0;
    while i < |key| && key[i] == 255
      invariant 0 <= i <= |key| && forall j :: 0 <= j < i ==> key[j] == 255
    {
      i := i + 1;
    }
    SuccessorMeans(key, i);
    BytesLessMeans(key, t);
  }

  /** FindShortSuccessor, which works in place. */
  method FindShortSuccessor(key: Bytes) returns (r: Bytes)
    ensures r == BytesSuccessor(key)
  {
    r := key;
    var i := 0;
    while i < |key|
      invariant 0 <= i <= |key| && r == key && BytesSuccessorFrom(key, i) == BytesSuccessor(key)
    {
      if key[i] != 255 {
        r := r[i := key[i] + 1];
        r := r[..i + 1];
        assert r == key[..i] + [key[i] + 1];
        return;
      }
      i := i + 1;
    }
  }

  // ----- comparators with separators -----

  datatype Comparator = Comparator(less: Less, separator: (Bytes, Bytes) -> Bytes, successor: Bytes -> Bytes)

  /** What a user comparator promises of its separators. */
  ghost predicate UserLaws(c: Comparator) {
    && WeakOrder(c.less)
    && (forall a, b {:trigger c.separator(a, b)} ::
        c.separator(a, b) == a || (!c.less(c.separator(a, b), a) && c.less(c.separator(a, b), b)))
    && (forall a {:trigger c.successor(a)} :: !c.less(c.successor(a), a))
  }

  function Bytewise(): Comparator { Comparator(BytesLess, BytesSeparator, BytesSuccessor) }

  lemma BytewiseLaws()
    ensures UserLaws(Bytewise())
  {
    hide BytesLess, BytesSeparator, BytesSuccessor;
    BytesOrder();
    forall a, b
      ensures BytesSeparator(a, b) == a || (!BytesLess(BytesSeparator(a, b), a) && BytesLess(BytesSeparator(a, b), b))
    {
      BytesSeparates(a, b);
      if BytesSeparator(a, b) != a {
        Asymmetric(BytesLess, a, BytesSeparator(a, b));
      }
    }
    forall a ensures !BytesLess(BytesSuccessor(a), a) {
      SuccessorAfter(a);
    }
  }

  lemma SuccessorAfter(a: Bytes)
    ensures !BytesLess(BytesSuccessor(a), a)
  {
    SuccessorFrom(a, 0);
    BytesOrder();
    hide BytesLess, BytesSuccessorFrom;
    BytesIrreflexive(a);
    if BytesSuccessor(a) != a {
      Asymmetric(BytesLess, a, BytesSuccessor(a));
    }
  }

  // ----- internal keys -----

  /** ExtractUserKey, and the packed sequence number and type behind it. */
  function UserPart(k: Bytes): Bytes { if |k| < 8 then k else k[..|k| - 8] }

  function Packed(k: Bytes): Uint64 { if |k| < 8 then 0 else DecodeFixed64(k[|k| - 8..]) }

  /** kMaxSequenceNumber with kValueTypeForSeek: the first of a user key's
      internal keys. */
  const SEEK_PACKED: Uint64 := 0xFFFF_FFFF_FFFF_FF01

  predicate InternalLess(user: Less, a: Bytes, b: Bytes) {
    user(UserPart(a), UserPart(b)) || (!user(UserPart(b), UserPart(a)) && Packed(a) > Packed(b))
  }

  function Shortened(user: Comparator, key: Bytes, shorter: Bytes): Bytes {
    if |shorter| < |UserPart(key)| && user.less(UserPart(key), shorter) then shorter + EncodeFixed64(SEEK_PACKED)
    else key
  }

  function Internal(user: Comparator): Comparator {
    Comparator((a, b) => InternalLess(user.less, a, b),
               (start, limit) => Shortened(user, start, user.separator(UserPart(start), UserPart(limit))),
               key => Shortened(user, key, user.successor(UserPart(key))))
  }

  lemma UserPartOf(u: Bytes, n: Uint64)
    ensures UserPart(u + EncodeFixed64(n)) == u
  {
  }

  lemma InternalOrder(user: Less)
    requires WeakOrder(user)
    ensures WeakOrder((a, b) => InternalLess(user, a, b))
  {
    var less := (a, b) => InternalLess(user, a, b);
    forall a ensures !less(a, a) { Order(user, UserPart(a), UserPart(a), UserPart(a)); }
    forall a, b, c ensures less(a, b) && less(b, c) ==> less(a, c) { InternalTransitive(user, a, b, c); }
    forall a, b, c ensures less(a, c) ==> less(a, b) || less(b, c) { InternalLine(user, a, b, c); }
  }

  lemma InternalTransitive(user: Less, a: Bytes, b: Bytes, c: Bytes)
    requires WeakOrder(user)
    ensures InternalLess(user, a, b) && InternalLess(user, b, c) ==> InternalLess(user, a, c)
  {
    hide Packed;
    var x, y, z := UserPart(a), UserPart(b), UserPart(c);
    Classes(user, x, y, z);
  }

  /** The laws at every arrangement of three keys. */
  lemma Classes(less: Less, x: Bytes, y: Bytes, z: Bytes)
    requires WeakOrder(less)
    ensures !(less(x, y) && less(y, x)) && !(less(y, z) && less(z, y)) && !(less(x, z) && less(z, x))
    ensures less(x, y) && !less(z, y) ==> less(x, z)
    ensures !less(y, x) && less(y, z) ==> less(x, z)
    ensures !less(y, x) && !less(z, y) ==> !less(z, x)
  {
    Order(less, x, y, x);
    Order(less, y, z, y);
    Order(less, x, z, x);
    Order(less, y, y, y);
    Order(less, x, z, y);
    Order(less, y, x, z);
    Order(less, z, y, x);
  }

  lemma InternalLine(user: Less, a: Bytes, b: Bytes, c: Bytes)
    requires WeakOrder(user)
    ensures InternalLess(user, a, c) ==> InternalLess(user, a, b) || InternalLess(user, b, c)
  {
    hide Packed;
    var x, y, z := UserPart(a), UserPart(b), UserPart(c);
    Classes(user, x, y, z);
    Classes(user, z, y, x);
    Order(user, x, y, z);
  }

  /** What a table needs: a separator lies between two keys, and no key that it
      could hide has the user key of the one behind it. */
  ghost predicate TableLaws(c: Comparator, user: Bytes -> Bytes) {
    && WeakOrder(c.less)
    && (forall a, b {:trigger c.separator(a, b)} :: c.less(a, b) ==> Separates(c.less, user, a, c.separator(a, b), b))
    && (forall a {:trigger c.successor(a)} :: !c.less(c.successor(a), a))
  }

  ghost predicate Separates(less: Less, user: Bytes -> Bytes, a: Bytes, s: Bytes, b: Bytes) {
    && !less(s, a) && less(s, b)
    && (forall k {:trigger user(k)} :: less(a, k) && !less(s, k) ==> user(k) != user(b))
  }

  lemma BytewiseForTables()
    ensures TableLaws(Bytewise(), k => k)
  {
    hide BytesLess, BytesSeparator, BytesSuccessor;
    BytewiseLaws();
    forall a, b | BytesLess(a, b) ensures Separates(BytesLess, k => k, a, BytesSeparator(a, b), b) {
      var s := BytesSeparator(a, b);
      BytesIrreflexive(a);
      assert Bytewise().separator(a, b) == s;
      forall k ensures BytesLess(a, k) && !BytesLess(s, k) ==> k != b {
      }
    }
    forall a ensures !BytesLess(BytesSuccessor(a), a) { SuccessorAfter(a); }
  }

  lemma InternalSeparates(user: Comparator, a: Bytes, b: Bytes)
    requires UserLaws(user) && InternalLess(user.less, a, b)
    ensures Separates(Internal(user).less, UserPart, a, Internal(user).separator(a, b), b)
  {
    hide Packed, EncodeFixed64, UserPart;
    var x, y := UserPart(a), UserPart(b);
    var t := user.separator(x, y);
    var s := Shortened(user, a, t);
    InternalOrder(user.less);
    Order(Internal(user).less, a, a, a);
    if s != a {
      UserPartOf(t, SEEK_PACKED);
      Asymmetric(user.less, x, t);
      forall k ensures InternalLess(user.less, a, k) && !InternalLess(user.less, s, k) ==> UserPart(k) != y {
        Order(user.less, y, y, y);
      }
    } else {
      forall k ensures InternalLess(user.less, a, k) && !InternalLess(user.less, s, k) ==> UserPart(k) != y {
      }
    }
  }

  lemma InternalSuccessor(user: Comparator, a: Bytes)
    requires UserLaws(user)
    ensures !Internal(user).less(Internal(user).successor(a), a)
  {
    hide Packed, EncodeFixed64, UserPart;
    var x := UserPart(a);
    var t := user.successor(x);
    InternalOrder(user.less);
    Order(Internal(user).less, a, a, a);
    if Shortened(user, a, t) != a {
      UserPartOf(t, SEEK_PACKED);
      Asymmetric(user.less, x, t);
    }
  }

  lemma InternalForTables(user: Comparator)
    requires UserLaws(user)
    ensures TableLaws(Internal(user), UserPart)
  {
    hide Separates, Packed, UserPart;
    InternalOrder(user.less);
    forall a, b | Internal(user).less(a, b)
      ensures Separates(Internal(user).less, UserPart, a, Internal(user).separator(a, b), b)
    {
      InternalSeparates(user, a, b);
    }
    forall a ensures !Internal(user).less(Internal(user).successor(a), a) {
      InternalSuccessor(user, a);
    }
  }
}
