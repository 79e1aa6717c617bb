/** Internal keys and entries (db/dbformat.h, db/dbformat.cc). */
module DbFormat {
  import opened Options

  /** A user key, identified with its position in the order of the user
      comparator. Keys are byte strings, so there are countably many of them,
      and every total order on a countable set embeds in the rationals; `<` on
      reals therefore stands for an arbitrary user comparator. */
  type UserKey = real

  datatype ValueType = TypeDeletion | TypeValue

  const NUM_LEVELS: nat := 7

  /** Eight bits are left for the type below a 56-bit sequence number. */
  const MAX_SEQUENCE: nat := 0xFF_FFFF_FFFF_FFFF

  type SequenceNumber = s: nat | s <= MAX_SEQUENCE

  datatype InternalKey = InternalKey(user: UserKey, sequence: SequenceNumber, kind: ValueType)

  function Pack(k: InternalKey): nat {
    k.sequence * 256 + (if k.kind.TypeValue? then 1 else 0)
  }

  /** InternalKeyComparator::Compare(a, b) < 0: increasing user key, then
      decreasing packed sequence number and type. */
  predicate Less(a: InternalKey, b: InternalKey) {
    a.user < b.user || (a.user == b.user && Pack(a) > Pack(b))
  }

  predicate AtMost(a: InternalKey, b: InternalKey) {
    !Less(b, a)
  }

  /** The smallest internal key that a lookup of `user` at snapshot `s` may
      return: kValueTypeForSeek is the largest type. */
  function SeekKey(user: UserKey, s: SequenceNumber): InternalKey {
    InternalKey(user, s, TypeValue)
  }

  datatype Entry = Entry(key: InternalKey, value: string)

  predicate SortedEntries(es: seq<Entry>) {
    forall i, j :: 0 <= i < j < |es| ==> Less(es[i].key, es[j].key)
  }

  ghost function EntrySet(es: seq<Entry>): set<Entry> {
    set e | e in es
  }

  /** Position of the first entry at or after `target` (Iterator::Seek). */
  function SeekIndex(es: seq<Entry>, target: InternalKey): (i: nat)
    requires SortedEntries(es)
    ensures i <= |es|
    ensures forall j :: 0 <= j < i ==> Less(es[j].key, target)
    ensures forall j :: i <= j < |es| ==> AtMost(target, es[j].key)
  {
    if es == [] then 0
    else if AtMost(target, es[0].key) then 0
    else 1 + SeekIndex(es[1..], target)
  }

  /** `e` is the newest entry for `k` that a reader at snapshot `s` may see. */
  ghost predicate NewestAt(es: set<Entry>, k: UserKey, s: SequenceNumber, e: Entry) {
    && e in es && e.key.user == k && e.key.sequence <= s
    && forall x :: x in es && x.key.user == k && x.key.sequence <= s ==> x.key.sequence <= e.key.sequence
  }

  ghost predicate UniqueSequences(es: set<Entry>) {
    forall x, y :: x in es && y in es && x.key.sequence == y.key.sequence ==> x == y
  }

  /** What a read of `k` at snapshot `s` means for a bag of entries: the value
      of the newest visible entry, or nothing when that entry is a deletion or
      there is none. */
  ghost function Lookup(es: set<Entry>, k: UserKey, s: SequenceNumber): Option<string> {
    if exists e :: NewestAt(es, k, s, e) && e.key.kind.TypeValue? then
      var e :| NewestAt(es, k, s, e) && e.key.kind.TypeValue?;
      Some(e.value)
    else
      None
  }

  function Answer(e: Entry): Option<string> {
    if e.key.kind.TypeValue? then Some(e.value) else None
  }

  /** The same for a map of what is visible. */
  function ReadMap(m: map<UserKey, string>, k: UserKey): Option<string> {
    if k in m then Some(m[k]) else None
  }

  lemma LookupNewest(es: set<Entry>, k: UserKey, s: SequenceNumber, e: Entry)
    requires UniqueSequences(es)
    requires NewestAt(es, k, s, e)
    ensures Lookup(es, k, s) == Answer(e)
  {
    forall x | NewestAt(es, k, s, x) ensures x == e {
    }
  }

  lemma LookupNothing(es: set<Entry>, k: UserKey, s: SequenceNumber)
    requires forall x :: x in es && x.key.user == k ==> s < x.key.sequence
    ensures Lookup(es, k, s) == None
  {
  }

  /** A nonempty set of visible entries has a newest member. */
  lemma {:induction false} NewestExists(es: set<Entry>, k: UserKey, s: SequenceNumber, x: Entry) returns (e: Entry)
    requires x in es && x.key.user == k && x.key.sequence <= s
    ensures NewestAt(es, k, s, e)
    decreases s - x.key.sequence
  {
    if y :| y in es && y.key.user == k && x.key.sequence < y.key.sequence <= s {
      e := NewestExists(es, k, s, y);
    } else {
      e := x;
    }
  }

  /** Entries of one user key are adjacent in a sorted list, newest first. */
  lemma AdjacentVersions(input: seq<Entry>, i: nat, j: nat)
    requires SortedEntries(input) && i < j < |input| && input[i].key.user == input[j].key.user
    ensures input[j - 1].key.user == input[j].key.user
    ensures input[j].key.sequence <= input[j - 1].key.sequence <= input[i].key.sequence
  {
    assert Less(input[j - 1].key, input[j].key);
    if i < j - 1 { assert Less(input[i].key, input[j - 1].key); }
  }

  /** Point lookup in one sorted list (a table or a memtable): the first entry at
      or after the seek key, if it is for `k`. */
  function ListGet(es: seq<Entry>, k: UserKey, s: SequenceNumber): Option<Entry>
    requires SortedEntries(es)
  {
    var i := SeekIndex(es, SeekKey(k, s));
    if i < |es| && es[i].key.user == k then Some(es[i]) else None
  }

  lemma ListGetCorrect(es: seq<Entry>, k: UserKey, s: SequenceNumber)
    requires SortedEntries(es)
    ensures match ListGet(es, k, s)
            case Some(e) => NewestAt(EntrySet(es), k, s, e)
            case None => forall e :: e in es && e.key.user == k ==> s < e.key.sequence
  {
    var i := SeekIndex(es, SeekKey(k, s));
    forall j | 0 <= j < |es| && es[j].key.user == k && es[j].key.sequence <= s
      ensures i <= j && es[i].key.user == k && es[j].key.sequence <= es[i].key.sequence
    {
      assert AtMost(SeekKey(k, s), es[j].key);
      if i < j { assert Less(es[i].key, es[j].key); }
    }
  }

  /** Sorted insertion (MemTable::Add on the skip list). */
  function InsertEntry(es: seq<Entry>, e: Entry): seq<Entry>
    requires SortedEntries(es)
  {
    var i := SeekIndex(es, e.key);
    es[..i] + [e] + es[i..]
  }

  lemma InsertEntrySorted(es: seq<Entry>, e: Entry)
    requires SortedEntries(es) && forall x :: x in es ==> x.key != e.key
    ensures SortedEntries(InsertEntry(es, e))
    ensures EntrySet(InsertEntry(es, e)) == EntrySet(es) + {e}
  {
    var i := SeekIndex(es, e.key);
    InsertKeepsOrder(es, e, i);
    InsertMembers(es, e, i);
  }

  lemma InsertMembers(es: seq<Entry>, e: Entry, i: nat)
    requires i <= |es|
    ensures EntrySet(es[..i] + [e] + es[i..]) == EntrySet(es) + {e}
  {
    assert es == es[..i] + es[i..];
  }

  lemma InsertKeepsOrder(es: seq<Entry>, e: Entry, i: nat)
    requires SortedEntries(es) && i <= |es|
    requires i > 0 ==> Less(es[i - 1].key, e.key)
    requires i < |es| ==> AtMost(e.key, es[i].key) && e.key != es[i].key
    ensures SortedEntries(es[..i] + [e] + es[i..])
  {
    var r := es[..i] + [e] + es[i..];
    assert forall a :: 0 <= a < i ==> r[a] == es[a];
    assert forall a :: i < a < |r| ==> r[a] == es[a - 1];
    forall a, b | 0 <= a < b < |r| ensures Less(r[a].key, r[b].key) {
      if a < i && i == b {
        if a < i - 1 { assert Less(es[a].key, es[i - 1].key); }
      } else if a == i {
        if i < b - 1 { assert Less(es[i].key, es[b - 1].key); }
      } else {
        assert Less(es[if a < i then a else a - 1].key, es[if b < i then b else b - 1].key);
      }
    }
  }

  /** Every finite bag of entries with distinct keys has a sorted listing. */
  lemma {:induction false} SortedListing(es: set<Entry>) returns (r: seq<Entry>)
    requires forall x, y :: x in es && y in es && x.key == y.key ==> x == y
    ensures SortedEntries(r) && EntrySet(r) == es
  {
    if es == {} {
      r := [];
    } else {
      var e :| e in es;
      var rest := SortedListing(es - {e});
      forall x | x in rest ensures x.key != e.key {
        assert x in EntrySet(rest);
      }
      InsertEntrySorted(rest, e);
      r := InsertEntry(rest, e);
    }
  }
}
