/** Internal keys in bytes (db/dbformat.h, db/dbformat.cc) and what a lookup of one in
    a table means (SaveValue, db/version_set.cc). */
module InternalKeys {
  import opened Options
  import opened Coding
  import opened DbFormat
  import opened Comparators
  import opened TableIndex

  /** ParsedInternalKey. */
  datatype Parsed = Parsed(user: Bytes, sequence: SequenceNumber, kind: ValueType)

  /** kTypeDeletion and kTypeValue. */
  function TypeByte(kind: ValueType): Byte { if kind.TypeValue? then 1 else 0 }

  /** AppendInternalKey. */
  function Encoded(p: Parsed): Bytes {
    p.user + EncodeFixed64(p.sequence * 256 + TypeByte(p.kind))
  }

  function ParseInternalKey(key: Bytes): Option<Parsed> {
    if |key| < 8 then None
    else
      var num := DecodeFixed64(key[|key| - 8..]);
      if num % 256 > 1 then None
      else Some(Parsed(key[..|key| - 8], num / 256, if num % 256 == 1 then TypeValue else TypeDeletion))
  }

  lemma KeyParts(p: Parsed)
    ensures UserPart(Encoded(p)) == p.user && Packed(Encoded(p)) == p.sequence * 256 + TypeByte(p.kind)
  {
    hide EncodeFixed64, DecodeFixed64;
    var n := p.sequence * 256 + TypeByte(p.kind);
    var key := Encoded(p);
    assert key[|key| - 8..] == EncodeFixed64(n) == EncodeFixed64(n) + [];
    Fixed64RoundTrip(n, []);
  }

  lemma ParseEncoded(p: Parsed)
    ensures ParseInternalKey(Encoded(p)) == Some(p)
  {
    KeyParts(p);
    hide EncodeFixed64, DecodeFixed64;
    var n := p.sequence * 256 + TypeByte(p.kind);
    assert n / 256 == p.sequence && n % 256 == TypeByte(p.kind);
    assert Encoded(p)[..|p.user|] == p.user;
  }

  /** A key that parses is the encoding of what it parses to, so no two keys parse
      to the same. */
  lemma EncodedParse(key: Bytes)
    ensures ParseInternalKey(key).Some? ==> Encoded(ParseInternalKey(key).value) == key
  {
    hide EncodeFixed64, DecodeFixed64;
    if ParseInternalKey(key).Some? {
      var tail := key[|key| - 8..];
      var num := DecodeFixed64(tail);
      Fixed64Unique(tail);
      assert tail[..8] == tail;
      assert num == num / 256 * 256 + num % 256;
      assert key == key[..|key| - 8] + tail;
    }
  }

  // ----- the order -----

  /** A rank in the order of a user comparator: what stands for byte strings where
      user keys are reals. */
  ghost predicate Ranks(user: Less, rank: Bytes -> UserKey) {
    forall a, b :: user(a, b) <==> rank(a) < rank(b)
  }

  function KeyOf(rank: Bytes -> UserKey, p: Parsed): InternalKey {
    InternalKey(rank(p.user), p.sequence, p.kind)
  }

  /** The order on bytes is the order of the model: by user key, then the greater
      sequence number first. */
  lemma InternalAgrees(user: Comparator, rank: Bytes -> UserKey, p: Parsed, q: Parsed)
    requires Ranks(user.less, rank)
    ensures Internal(user).less(Encoded(p), Encoded(q)) <==> DbFormat.Less(KeyOf(rank, p), KeyOf(rank, q))
  {
    hide Encoded, UserPart, Packed;
    KeyParts(p);
    KeyParts(q);
  }

  /** The same without ranks. */
  lemma InternalMeans(user: Comparator, p: Parsed, q: Parsed)
    ensures Internal(user).less(Encoded(p), Encoded(q)) <==>
              || user.less(p.user, q.user)
              || (!user.less(q.user, p.user)
                  && (p.sequence > q.sequence
                      || (p.sequence == q.sequence && p.kind.TypeValue? && q.kind.TypeDeletion?)))
  {
    hide Encoded, UserPart, Packed;
    KeyParts(p);
    KeyParts(q);
  }

  /** A shortened key is before every internal key of its user key. */
  lemma ShortenedFirst(user: Comparator, key: Bytes, shorter: Bytes, p: Parsed)
    requires WeakOrder(user.less) && p.user == shorter && Shortened(user, key, shorter) != key
    ensures !Internal(user).less(Encoded(p), Shortened(user, key, shorter))
  {
    hide Encoded, UserPart, EncodeFixed64;
    KeyParts(p);
    KeyParts(Parsed(shorter, MAX_SEQUENCE, TypeValue));
    SeekEncoded(shorter);
    Order(user.less, shorter, shorter, shorter);
  }

  lemma SeekEncoded(u: Bytes)
    ensures Encoded(Parsed(u, MAX_SEQUENCE, TypeValue)) == u + EncodeFixed64(SEEK_PACKED)
  {
  }

  // ----- looking a key up -----

  /** The pairs of a table as internal keys. */
  ghost predicate Keys(pairs: seq<Pair>, keys: seq<Parsed>) {
    |keys| == |pairs| && forall i :: 0 <= i < |keys| ==> pairs[i].0 == Encoded(keys[i])
  }

  predicate Same(user: Less, a: Bytes, b: Bytes) { !user(a, b) && !user(b, a) }

  /** Keys that the comparator does not tell from u are u: what a filter on the bytes
      of user keys needs. */
  ghost predicate Told(user: Less, keys: seq<Parsed>, u: Bytes) {
    forall i :: 0 <= i < |keys| && Same(user, keys[i].user, u) ==> keys[i].user == u
  }

  datatype Saver = NotFound | Found(value: Bytes) | Deleted | Corrupt

  /** SaveValue, called for the pair that InternalGet reports, if any. */
  function SaveValue(user: Less, u: Bytes, reported: Option<Pair>): Saver {
    if reported.None? then NotFound
    else
      match ParseInternalKey(reported.value.0)
      case None => Corrupt
      case Some(p) =>
        if !Same(user, p.user, u) then NotFound
        else if p.kind.TypeValue? then Found(reported.value.1) else Deleted
  }

  /** Place i holds the newest of u's entries that snapshot s sees. */
  ghost predicate NewestPair(keys: seq<Parsed>, u: Bytes, s: SequenceNumber, i: nat) {
    && i < |keys| && keys[i].user == u && keys[i].sequence <= s
    && forall j :: 0 <= j < |keys| && keys[j].user == u && keys[j].sequence <= s ==>
         keys[j].sequence <= keys[i].sequence
  }

  /** What a read of u at snapshot s owes its caller. */
  ghost predicate Reads(pairs: seq<Pair>, keys: seq<Parsed>, u: Bytes, s: SequenceNumber, r: Saver)
    requires |keys| == |pairs|
  {
    match r
    case Found(v) => exists i: nat :: NewestPair(keys, u, s, i) && keys[i].kind.TypeValue? && pairs[i].1 == v
    case Deleted => exists i: nat :: NewestPair(keys, u, s, i) && keys[i].kind.TypeDeletion?
    case NotFound => forall j :: 0 <= j < |keys| && keys[j].user == u ==> s < keys[j].sequence
    case Corrupt => false
  }

  lemma {:induction false} SeekPlace(less: Less, pairs: seq<Pair>, target: Bytes) returns (i: nat)
    requires WeakOrder(less) && SortedPairs(less, pairs)
    ensures SeekPairs(less, pairs, target, i)
  {
    i := 0;
    while i < |pairs| && less(pairs[i].0, target)
      invariant i <= |pairs| && forall j :: 0 <= j < i ==> less(pairs[j].0, target)
    {
      i := i + 1;
    }
  }

  /** At the place of a seek for (u, s) is the newest entry of u that s sees, or no
      entry of u is that old. */
  lemma SeekIsNewest(user: Comparator, pairs: seq<Pair>, keys: seq<Parsed>, u: Bytes, s: SequenceNumber, i: nat)
    requires WeakOrder(user.less) && Keys(pairs, keys) && SortedPairs(Internal(user).less, pairs)
    requires SeekPairs(Internal(user).less, pairs, Encoded(Parsed(u, s, TypeValue)), i)
    ensures i < |keys| && keys[i].user == u ==> NewestPair(keys, u, s, i)
    ensures !(i < |keys| && Same(user.less, keys[i].user, u)) ==>
              forall j :: 0 <= j < |keys| && keys[j].user == u ==> s < keys[j].sequence
  {
    hide Encoded, WeakOrder, Internal;
    var seek := Parsed(u, s, TypeValue);
    Order(user.less, u, u, u);
    if i < |keys| {
      InternalMeans(user, keys[i], seek);
    }
    forall j | 0 <= j < |keys| && keys[j].user == u && keys[j].sequence <= s
      ensures i <= j && Same(user.less, keys[i].user, u)
      ensures keys[i].user == u ==> keys[j].sequence <= keys[i].sequence
    {
      InternalMeans(user, keys[j], seek);
      assert i <= j;
      if i < j {
        InternalMeans(user, keys[i], keys[j]);
        assert Internal(user).less(pairs[i].0, pairs[j].0);
        Order(user.less, keys[i].user, u, u);
      }
    }
  }

  /** Reading u at snapshot s in a table: the newest of its entries that s sees, a
      value or a deletion, and nothing only when there is none. */
  lemma LookupReads(user: Comparator, pairs: seq<Pair>, keys: seq<Parsed>, u: Bytes, s: SequenceNumber,
                    reported: Option<Pair>)
    requires WeakOrder(user.less) && Keys(pairs, keys) && SortedPairs(Internal(user).less, pairs)
    requires Told(user.less, keys, u)
    requires Answers(Internal(user).less, UserPart, pairs, Encoded(Parsed(u, s, TypeValue)), reported)
    ensures Reads(pairs, keys, u, s, SaveValue(user.less, u, reported))
  {
    hide Encoded, WeakOrder, UserPart, ParseInternalKey;
    InternalOrder(user.less);
    var i := SeekPlace(Internal(user).less, pairs, Encoded(Parsed(u, s, TypeValue)));
    assert AnswersAt(UserPart, pairs, Encoded(Parsed(u, s, TypeValue)), reported, i);
    SeekIsNewest(user, pairs, keys, u, s, i);
    KeyParts(Parsed(u, s, TypeValue));
    Order(user.less, u, u, u);
    if i < |keys| {
      KeyParts(keys[i]);
      ParseEncoded(keys[i]);
    }
  }

  // ----- tables in bytes and files of the model -----

  /** The entries of a table file, in the terms of the model. */
  ghost predicate Stands(rank: Bytes -> UserKey, text: Bytes -> string, pairs: seq<Pair>, keys: seq<Parsed>,
                         es: seq<Entry>) {
    && |es| == |keys| == |pairs|
    && forall i :: 0 <= i < |es| ==> es[i] == Entry(KeyOf(rank, keys[i]), text(pairs[i].1))
  }

  /** Pairs that are in order stand for sorted entries. */
  lemma StandsSorted(user: Comparator, rank: Bytes -> UserKey, text: Bytes -> string,
                     pairs: seq<Pair>, keys: seq<Parsed>, es: seq<Entry>)
    requires Ranks(user.less, rank) && Keys(pairs, keys) && Stands(rank, text, pairs, keys, es)
    ensures SortedPairs(Internal(user).less, pairs) <==> SortedEntries(es)
  {
    hide Encoded, Internal;
    forall i, j | 0 <= i < j < |es|
      ensures Internal(user).less(pairs[i].0, pairs[j].0) <==> DbFormat.Less(es[i].key, es[j].key)
    {
      InternalAgrees(user, rank, keys[i], keys[j]);
    }
  }

  /** The lookup in the bytes of a table is the lookup in the file of the model. */
  lemma LookupIsListGet(user: Comparator, rank: Bytes -> UserKey, text: Bytes -> string, pairs: seq<Pair>,
                        keys: seq<Parsed>, es: seq<Entry>, u: Bytes, s: SequenceNumber, r: Saver)
    requires Ranks(user.less, rank) && Told(user.less, keys, u) && Keys(pairs, keys)
    requires Stands(rank, text, pairs, keys, es) && SortedEntries(es) && UniqueSequences(EntrySet(es))
    requires Reads(pairs, keys, u, s, r)
    ensures match ListGet(es, rank(u), s)
            case None => r == NotFound
            case Some(e) => if e.key.kind.TypeValue? then r.Found? && text(r.value) == e.value else r == Deleted
  {
    hide ListGet, Encoded;
    ListGetCorrect(es, rank(u), s);
    var hit := ListGet(es, rank(u), s);
    forall j | 0 <= j < |es| ensures es[j].key.user == rank(u) <==> keys[j].user == u {
      assert Same(user.less, keys[j].user, u) <==> rank(keys[j].user) == rank(u);
    }
    if hit.Some? {
      var j :| 0 <= j < |es| && es[j] == hit.value;
      if r.Found? || r.Deleted? {
        var i: nat :|
          NewestPair(keys, u, s, i) && keys[i].kind.TypeValue? == r.Found? && (r.Found? ==> pairs[i].1 == r.value);
        assert es[i] in EntrySet(es) && es[j] in EntrySet(es);
      }
    }
  }
}
