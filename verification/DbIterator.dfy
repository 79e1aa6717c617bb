/** DBIter (db/db_iter.cc): one entry per visible user key, in both directions. */
module DbIterator {
  import opened Options
  import opened DbFormat
  import opened Merger

  /** Entry i is the one a reader at snapshot s sees for its user key. */
  ghost predicate Shown(es: seq<Entry>, s: SequenceNumber, i: int)
    requires 0 <= i < |es|
  {
    && es[i].key.sequence <= s && es[i].key.kind.TypeValue?
    && (i == 0 || es[i - 1].key.user != es[i].key.user || es[i - 1].key.sequence > s)
  }

  ghost function Read(es: seq<Entry>, s: SequenceNumber, k: UserKey): Option<string> {
    Lookup(EntrySet(es), k, s)
  }

  lemma ShownIsRead(es: seq<Entry>, s: SequenceNumber, i: nat)
    requires SortedEntries(es) && UniqueSequences(EntrySet(es)) && i < |es| && Shown(es, s, i)
    ensures Read(es, s, es[i].key.user) == Some(es[i].value)
  {
    assert es[i] in EntrySet(es);
    forall x | x in EntrySet(es) && x.key.user == es[i].key.user && x.key.sequence <= s
      ensures x.key.sequence <= es[i].key.sequence
    {
      var j :| 0 <= j < |es| && es[j] == x;
      if j < i { AdjacentVersions(es, j, i); } else if i < j { assert Less(es[i].key, es[j].key); }
    }
    LookupNewest(EntrySet(es), es[i].key.user, s, es[i]);
  }

  lemma ReadIsShown(es: seq<Entry>, s: SequenceNumber, k: UserKey) returns (i: nat)
    requires SortedEntries(es) && UniqueSequences(EntrySet(es)) && Read(es, s, k).Some?
    ensures i < |es| && Shown(es, s, i) && es[i].key.user == k
  {
    var e :| NewestAt(EntrySet(es), k, s, e) && e.key.kind.TypeValue?;
    i :| 0 <= i < |es| && es[i] == e;
    if i > 0 {
      assert Less(es[i - 1].key, es[i].key);
      assert es[i - 1] in EntrySet(es);
    }
  }

  lemma HiddenByEarlier(es: seq<Entry>, s: SequenceNumber, j: nat, i: nat)
    requires SortedEntries(es) && j < i < |es|
    requires es[j].key.user == es[i].key.user && es[j].key.sequence <= s
    ensures !Shown(es, s, i)
  {
    AdjacentVersions(es, j, i);
  }

  // ----- the ordered map a reader sees -----

  predicate From(lo: Option<UserKey>, strict: bool, k: UserKey) {
    lo.None? || lo.value < k || (!strict && k == lo.value)
  }

  /** r is the first visible key (with its value) at or after lo, or after lo. */
  ghost predicate FirstFrom(es: seq<Entry>, s: SequenceNumber, lo: Option<UserKey>, strict: bool,
                            r: Option<(UserKey, string)>) {
    match r
    case Some((k, value)) =>
      && From(lo, strict, k) && Read(es, s, k) == Some(value)
      && forall k2 :: From(lo, strict, k2) && k2 < k ==> Read(es, s, k2) == None
    case None => forall k2 :: From(lo, strict, k2) ==> Read(es, s, k2) == None
  }

  /** r is the last visible key (with its value) before hi. */
  ghost predicate LastBefore(es: seq<Entry>, s: SequenceNumber, hi: Option<UserKey>, r: Option<(UserKey, string)>) {
    match r
    case Some((k, value)) =>
      && (hi.Some? ==> k < hi.value) && Read(es, s, k) == Some(value)
      && forall k2 :: (hi.Some? ==> k2 < hi.value) && k < k2 ==> Read(es, s, k2) == None
    case None => forall k2 :: (hi.Some? ==> k2 < hi.value) ==> Read(es, s, k2) == None
  }

  ghost function At(es: seq<Entry>, i: nat): Option<(UserKey, string)> {
    if i < |es| then Some((es[i].key.user, es[i].value)) else None
  }

  /** r is the first shown entry from `from` on, or |es|. */
  ghost predicate FirstShown(es: seq<Entry>, s: SequenceNumber, from: nat, r: nat) {
    && from <= r <= |es|
    && (r < |es| ==> Shown(es, s, r))
    && forall i :: from <= i < r ==> !Shown(es, s, i)
  }

  /** r is the last shown entry before `to`, or |es|. */
  ghost predicate LastShown(es: seq<Entry>, s: SequenceNumber, to: nat, r: nat) {
    && to <= |es| && r <= |es|
    && (r < |es| ==> r < to && Shown(es, s, r))
    && forall i :: 0 <= i < to && (r < |es| ==> r < i) ==> !Shown(es, s, i)
  }

  /** r is the first shown entry whose user key is at least target, or |es|. */
  ghost predicate FirstShownAt(es: seq<Entry>, s: SequenceNumber, target: UserKey, r: nat) {
    && r <= |es|
    && (r < |es| ==> Shown(es, s, r) && target <= es[r].key.user)
    && forall i :: 0 <= i < r && Shown(es, s, i) ==> es[i].key.user < target
  }

  lemma ShownOrder(es: seq<Entry>, s: SequenceNumber, i: nat, j: nat)
    requires SortedEntries(es) && i < |es| && j < |es| && Shown(es, s, i) && Shown(es, s, j)
    ensures i < j <==> es[i].key.user < es[j].key.user
  {
    if i < j {
      assert Less(es[i].key, es[j].key);
      if es[i].key.user == es[j].key.user { HiddenByEarlier(es, s, i, j); }
    } else if j < i {
      assert Less(es[j].key, es[i].key);
    }
  }

  /** The next shown entry carries the next visible key. */
  lemma NextShownIsNextKey(es: seq<Entry>, s: SequenceNumber, i: nat, r: nat)
    requires SortedEntries(es) && UniqueSequences(EntrySet(es))
    requires i < |es| && Shown(es, s, i) && FirstShown(es, s, i + 1, r)
    ensures FirstFrom(es, s, Some(es[i].key.user), true, At(es, r))
  {
    if r < |es| { ShownIsRead(es, s, r); ShownOrder(es, s, i, r); }
    forall k | es[i].key.user < k && (r < |es| ==> k < es[r].key.user) ensures Read(es, s, k) == None {
      if Read(es, s, k).Some? {
        var j := ReadIsShown(es, s, k);
        ShownOrder(es, s, i, j);
        if r < |es| { ShownOrder(es, s, j, r); }
      }
    }
  }

  lemma SeekShownIsFirstKey(es: seq<Entry>, s: SequenceNumber, target: UserKey, r: nat)
    requires SortedEntries(es) && UniqueSequences(EntrySet(es)) && FirstShownAt(es, s, target, r)
    ensures FirstFrom(es, s, Some(target), false, At(es, r))
  {
    if r < |es| { ShownIsRead(es, s, r); }
    forall k | target <= k && (r < |es| ==> k < es[r].key.user) ensures Read(es, s, k) == None {
      if Read(es, s, k).Some? {
        var j := ReadIsShown(es, s, k);
        if r < |es| { ShownOrder(es, s, j, r); }
      }
    }
  }

  lemma FirstShownIsFirstKey(es: seq<Entry>, s: SequenceNumber, r: nat)
    requires SortedEntries(es) && UniqueSequences(EntrySet(es)) && FirstShown(es, s, 0, r)
    ensures FirstFrom(es, s, None, false, At(es, r))
  {
    if r < |es| { ShownIsRead(es, s, r); }
    forall k | r < |es| ==> k < es[r].key.user ensures Read(es, s, k) == None {
      if Read(es, s, k).Some? {
        var j := ReadIsShown(es, s, k);
        if r < |es| { ShownOrder(es, s, j, r); }
      }
    }
  }

  /** The shown entry before i carries the previous visible key; from the end of
      the list (i == |es|) it carries the last visible key. */
  lemma PrevShownIsPrevKey(es: seq<Entry>, s: SequenceNumber, i: nat, r: nat)
    requires SortedEntries(es) && UniqueSequences(EntrySet(es)) && LastShown(es, s, i, r)
    requires i < |es| ==> Shown(es, s, i)
    ensures LastBefore(es, s, if i < |es| then Some(es[i].key.user) else None, At(es, r))
  {
    if r < |es| {
      ShownIsRead(es, s, r);
      if i < |es| { ShownOrder(es, s, r, i); }
    }
    forall k | (i < |es| ==> k < es[i].key.user) && (r < |es| ==> es[r].key.user < k) ensures Read(es, s, k) == None {
      if Read(es, s, k).Some? {
        var j := ReadIsShown(es, s, k);
        if i < |es| { ShownOrder(es, s, j, i); }
        if r < |es| { ShownOrder(es, s, r, j); }
      }
    }
  }

  // ----- forward scan -----

  ghost predicate SameUser(a: Entry, b: Entry) {
    a.key.user == b.key.user
  }

  /** A scan at p may start with this skip state: a visible entry before p can
      only share its key with hidden entries, and the skipped key is not past
      anything visible. */
  ghost predicate NextReady(es: seq<Entry>, s: SequenceNumber, p: nat, skipping: bool, skip: UserKey) {
    && p <= |es|
    && (forall j, i {:trigger SameUser(es[j], es[i])} ::
          0 <= j < p <= i < |es| && SameUser(es[j], es[i]) && es[j].key.sequence <= s ==>
            skipping && es[j].key.user <= skip)
    && (skipping ==> forall i :: p <= i < |es| && es[i].key.sequence <= s ==> skip <= es[i].key.user)
  }

  ghost predicate Skipped(es: seq<Entry>, skipping: bool, skip: UserKey, i: int)
    requires 0 <= i < |es|
  {
    skipping && es[i].key.user <= skip
  }

  /** What the scan that started at p with (skipping, skip) knows at q, where its
      skip state is (now, at). */
  ghost predicate Scanned(es: seq<Entry>, s: SequenceNumber, p: nat, skipping: bool, skip: UserKey,
                          q: nat, now: bool, at: UserKey) {
    && p <= q && NextReady(es, s, q, now, at)
    && (skipping ==> now && skip <= at)
    && (forall i :: p <= i < q && Shown(es, s, i) ==> Skipped(es, skipping, skip, i))
    && (forall i :: q <= i < |es| && Shown(es, s, i) && Skipped(es, now, at, i) ==> Skipped(es, skipping, skip, i))
  }

  lemma ScanPast(es: seq<Entry>, s: SequenceNumber, p: nat, skipping: bool, skip: UserKey, q: nat, now: bool,
                 at: UserKey)
    requires SortedEntries(es) && q < |es| && Scanned(es, s, p, skipping, skip, q, now, at)
    requires es[q].key.sequence > s || (es[q].key.kind.TypeValue? && Skipped(es, now, at, q))
    ensures Scanned(es, s, p, skipping, skip, q + 1, now, at)
  {
  }

  lemma ScanDeletion(es: seq<Entry>, s: SequenceNumber, p: nat, skipping: bool, skip: UserKey, q: nat, now: bool,
                     at: UserKey)
    requires SortedEntries(es) && q < |es| && Scanned(es, s, p, skipping, skip, q, now, at)
    requires es[q].key.sequence <= s && es[q].key.kind.TypeDeletion?
    ensures Scanned(es, s, p, skipping, skip, q + 1, true, es[q].key.user)
  {
    forall i | q < i < |es| ensures es[q].key.user <= es[i].key.user {
      assert Less(es[q].key, es[i].key);
    }
    forall i | q < i < |es| && es[i].key.user <= es[q].key.user ensures !Shown(es, s, i) {
      HiddenByEarlier(es, s, q, i);
    }
  }

  lemma ScanHit(es: seq<Entry>, s: SequenceNumber, p: nat, skipping: bool, skip: UserKey, q: nat, now: bool,
                at: UserKey)
    requires SortedEntries(es) && q < |es| && Scanned(es, s, p, skipping, skip, q, now, at)
    requires es[q].key.sequence <= s && es[q].key.kind.TypeValue? && !Skipped(es, now, at, q)
    ensures Shown(es, s, q) && !Skipped(es, skipping, skip, q)
  {
    if q > 0 {
      assert SameUser(es[q - 1], es[q]) ==> es[q - 1].key.sequence > s;
    }
  }

  // ----- backward scan -----

  /** The internal iterator stands before all visible entries for keys from k
      on: at p, or nowhere when p is |es|. */
  ghost predicate BeforeKey(es: seq<Entry>, s: SequenceNumber, k: UserKey, p: nat) {
    && p <= |es|
    && (p < |es| ==> es[p].key.user < k)
    && forall j :: 0 <= j < |es| && (p < |es| ==> p < j) && es[j].key.user < k ==> s < es[j].key.sequence
  }

  /** After scanning entries q+1..p backwards: at most the candidate c can be
      shown, and it is the newest visible entry met for its key. */
  ghost predicate ScannedBack(es: seq<Entry>, s: SequenceNumber, p: nat, q: int, found: bool, c: int) {
    && -1 <= q <= p < |es|
    && (found ==> q < c <= p && es[c].key.sequence <= s && es[c].key.kind.TypeValue?
                  && forall i :: q < i < c ==> s < es[i].key.sequence)
    && forall i :: q < i <= p && Shown(es, s, i) ==> found && i == c
  }

  lemma ScanBackSkip(es: seq<Entry>, s: SequenceNumber, p: nat, q: int, found: bool, c: int)
    requires 0 <= q && ScannedBack(es, s, p, q, found, c) && s < es[q].key.sequence
    ensures ScannedBack(es, s, p, q - 1, found, c)
  {
  }

  lemma ScanBackTake(es: seq<Entry>, s: SequenceNumber, p: nat, q: int, found: bool, c: int)
    requires SortedEntries(es) && 0 <= q && ScannedBack(es, s, p, q, found, c)
    requires es[q].key.sequence <= s && !(found && es[q].key.user < es[c].key.user)
    ensures ScannedBack(es, s, p, q - 1, es[q].key.kind.TypeValue?, q)
  {
    if found {
      assert Less(es[q].key, es[c].key);
      HiddenByEarlier(es, s, q, c);
    }
  }

  /** Leaving the scan with a candidate: it is shown, and the iterator stands
      before its key. */
  lemma ScanBackDone(es: seq<Entry>, s: SequenceNumber, p: nat, q: int, c: int)
    requires SortedEntries(es) && ScannedBack(es, s, p, q, true, c)
    requires 0 <= q ==> es[q].key.sequence <= s && es[q].key.user < es[c].key.user
    ensures Shown(es, s, c)
    ensures BeforeKey(es, s, es[c].key.user, if q < 0 then |es| else q)
  {
    forall j | q < j < |es| && es[j].key.user < es[c].key.user ensures s < es[j].key.sequence {
    }
  }

  // ----- the cursor on the map -----

  /** r is the first key of the map (with its value) at or after lo, or after lo. */
  ghost predicate FirstKey(m: map<UserKey, string>, lo: Option<UserKey>, strict: bool, r: Option<(UserKey, string)>) {
    match r
    case Some((k, value)) =>
      && k in m && m[k] == value && From(lo, strict, k)
      && forall k2 :: k2 in m && From(lo, strict, k2) ==> k <= k2
    case None => forall k2 :: k2 in m ==> !From(lo, strict, k2)
  }

  /** r is the last key of the map (with its value) before hi. */
  ghost predicate LastKey(m: map<UserKey, string>, hi: Option<UserKey>, r: Option<(UserKey, string)>) {
    match r
    case Some((k, value)) =>
      && k in m && m[k] == value && (hi.Some? ==> k < hi.value)
      && forall k2 :: k2 in m && (hi.Some? ==> k2 < hi.value) ==> k2 <= k
    case None => forall k2 :: k2 in m ==> hi.Some? && hi.value <= k2
  }

  /** What a reader at the snapshot sees of the entries is the map. */
  ghost predicate ShowsMap(es: seq<Entry>, s: SequenceNumber, m: map<UserKey, string>) {
    SortedEntries(es) && UniqueSequences(EntrySet(es)) && forall k :: Read(es, s, k) == ReadMap(m, k)
  }

  lemma FirstInMap(m: map<UserKey, string>, es: seq<Entry>, s: SequenceNumber, lo: Option<UserKey>, strict: bool,
                   r: Option<(UserKey, string)>)
    requires forall k :: Read(es, s, k) == ReadMap(m, k)
    requires FirstFrom(es, s, lo, strict, r)
    ensures FirstKey(m, lo, strict, r)
  {
    hide Read;
    forall k2 | k2 in m ensures Read(es, s, k2).Some? { }
  }

  lemma LastInMap(m: map<UserKey, string>, es: seq<Entry>, s: SequenceNumber, hi: Option<UserKey>,
                  r: Option<(UserKey, string)>)
    requires forall k :: Read(es, s, k) == ReadMap(m, k)
    requires LastBefore(es, s, hi, r)
    ensures LastKey(m, hi, r)
  {
    hide Read;
    forall k2 | k2 in m ensures Read(es, s, k2).Some? { }
  }

  lemma NextKeyOf(es: seq<Entry>, s: SequenceNumber, m: map<UserKey, string>, i: nat, r: nat)
    requires ShowsMap(es, s, m) && i < |es| && Shown(es, s, i) && FirstShown(es, s, i + 1, r)
    ensures FirstKey(m, Some(es[i].key.user), true, At(es, r))
  {
    hide Shown, FirstShown, Read, FirstFrom, FirstKey, SortedEntries;
    NextShownIsNextKey(es, s, i, r);
    FirstInMap(m, es, s, Some(es[i].key.user), true, At(es, r));
  }

  lemma SeekKeyOf(es: seq<Entry>, s: SequenceNumber, m: map<UserKey, string>, target: UserKey, r: nat)
    requires ShowsMap(es, s, m) && FirstShownAt(es, s, target, r)
    ensures FirstKey(m, Some(target), false, At(es, r))
  {
    hide Shown, FirstShownAt, Read, FirstFrom, FirstKey, SortedEntries;
    SeekShownIsFirstKey(es, s, target, r);
    FirstInMap(m, es, s, Some(target), false, At(es, r));
  }

  lemma FirstKeyOf(es: seq<Entry>, s: SequenceNumber, m: map<UserKey, string>, r: nat)
    requires ShowsMap(es, s, m) && FirstShown(es, s, 0, r)
    ensures FirstKey(m, None, false, At(es, r))
  {
    hide Shown, FirstShown, Read, FirstFrom, FirstKey, SortedEntries;
    FirstShownIsFirstKey(es, s, r);
    FirstInMap(m, es, s, None, false, At(es, r));
  }

  lemma PrevKeyOf(es: seq<Entry>, s: SequenceNumber, m: map<UserKey, string>, i: nat, r: nat)
    requires ShowsMap(es, s, m) && LastShown(es, s, i, r) && (i < |es| ==> Shown(es, s, i))
    ensures LastKey(m, if i < |es| then Some(es[i].key.user) else None, At(es, r))
  {
    hide Shown, LastShown, Read, LastBefore, LastKey, SortedEntries;
    PrevShownIsPrevKey(es, s, i, r);
    LastInMap(m, es, s, if i < |es| then Some(es[i].key.user) else None, At(es, r));
  }

  class DBIter {
    const iter: MergingIterator
    const sequence: SequenceNumber
    var savedKey: Option<UserKey>
    var savedValue: string
    var direction: Direction
    var valid: bool
    /** The internal entry whose key and value are shown, the number of all entries when not valid. */
    ghost var shown: nat
    /** The map that the snapshot sees. */
    ghost const contents: map<UserKey, string>

    ghost predicate Valid()
      reads this, iter, iter.pos
    {
      ShowsMap(iter.merged, sequence, contents) && Placed()
    }

    /** Where the iterator stands. */
    ghost predicate Placed()
      reads this, iter, iter.pos
    {
      var es := iter.merged;
      && iter.Valid() && shown <= |es| && (valid <==> shown < |es|)
      && (valid ==> Shown(es, sequence, shown))
      && (valid && direction.Forward? ==> iter.cursor == shown)
      && (valid && direction.Reverse? ==>
            && savedKey == Some(es[shown].key.user) && savedValue == es[shown].value
            && BeforeKey(es, sequence, es[shown].key.user, iter.cursor))
    }

    constructor (iter: MergingIterator, sequence: SequenceNumber, ghost contents: map<UserKey, string>)
      requires iter.Valid() && ShowsMap(iter.merged, sequence, contents)
      ensures Valid() && !valid && this.iter == iter && this.sequence == sequence && this.contents == contents
    {
      this.iter, this.sequence, this.contents := iter, sequence, contents;
      savedKey, savedValue, direction, valid, shown := None, "", Forward, false, |iter.merged|;
    }

    /** key() and value(), when valid. */
    function Position(): (r: Option<(UserKey, string)>)
      requires Valid()
      reads this, iter, iter.pos
      ensures r == At(iter.merged, shown) && (valid <==> r.Some?)
    {
      if !valid then None
      else if direction.Forward? then Some((iter.Current().key.user, iter.Current().value))
      else Some((savedKey.value, savedValue))
    }

    method FindNextUserEntry(skipping: bool, skip: UserKey)
      requires iter.Valid() && direction.Forward? && NextReady(iter.merged, sequence, iter.cursor, skipping, skip)
      modifies this`valid, this`savedKey, this`shown, iter, iter.pos
      ensures Placed() && old(iter.cursor) <= shown
      ensures valid ==> !Skipped(iter.merged, skipping, skip, shown)
      ensures forall i :: old(iter.cursor) <= i < shown && Shown(iter.merged, sequence, i) ==>
                Skipped(iter.merged, skipping, skip, i)
    {
      hide MergingIterator.Valid, IsMerge, SortedEntries;
      ghost var es, p := iter.merged, iter.cursor;
      var now, at := skipping, skip;
      while iter.current.Some?
        invariant iter.Valid() && direction.Forward?
        invariant Scanned(es, sequence, p, skipping, skip, iter.cursor, now, at)
        decreases |es| - iter.cursor
      {
        var e := iter.Current();
        if e.key.sequence <= sequence {
          match e.key.kind
          case TypeDeletion =>
            ScanDeletion(es, sequence, p, skipping, skip, iter.cursor, now, at);
            now, at := true, e.key.user;
          case TypeValue =>
            if now && e.key.user <= at {
              ScanPast(es, sequence, p, skipping, skip, iter.cursor, now, at);
            } else {
              ScanHit(es, sequence, p, skipping, skip, iter.cursor, now, at);
              valid, savedKey, shown := true, None, iter.cursor;
              return;
            }
        } else {
          ScanPast(es, sequence, p, skipping, skip, iter.cursor, now, at);
        }
        iter.Next();
      }
      valid, savedKey, shown := false, None, |es|;
    }

    method FindPrevUserEntry()
      requires iter.Valid() && direction.Reverse?
      modifies this, iter, iter.pos
      ensures Placed()
      ensures LastShown(iter.merged, sequence, Upto(old(iter.cursor), |iter.merged|), shown)
    {
      hide MergingIterator.Valid, SortedEntries, Less, Shown;
      ghost var es, p, s := iter.merged, iter.cursor, sequence;
      ghost var c: nat := 0;
      var valueType := TypeDeletion;
      while iter.current.Some?
        invariant iter.Valid() && direction.Reverse?
        invariant p < |es| ==> ScannedBack(es, s, p, Before(iter), valueType.TypeValue?, c)
        invariant p == |es| ==> iter.cursor == |es| && valueType.TypeDeletion?
        invariant valueType.TypeValue? ==> savedKey == Some(es[c].key.user) && savedValue == es[c].value
        decreases Before(iter) + 1
      {
        var e := iter.Current();
        if e.key.sequence <= sequence {
          if valueType.TypeValue? && e.key.user < savedKey.value {
            break;
          }
          ScanBackTake(es, s, p, iter.cursor, valueType.TypeValue?, c);
          c, valueType := iter.cursor, e.key.kind;
          savedKey := if valueType.TypeDeletion? then None else Some(e.key.user);
          savedValue := if valueType.TypeDeletion? then "" else e.value;
        } else {
          ScanBackSkip(es, s, p, iter.cursor, valueType.TypeValue?, c);
        }
        iter.Prev();
      }
      if valueType.TypeDeletion? {
        valid, savedKey, savedValue, direction, shown := false, None, "", Forward, |es|;
      } else {
        ScanBackDone(es, s, p, Before(iter), c);
        valid, shown := true, c;
      }
    }

    /** Moves to the next visible key. */
    method Next()
      requires Valid() && valid
      modifies this, iter, iter.pos
      ensures Valid() && FirstShown(iter.merged, sequence, old(shown) + 1, shown)
      ensures FirstKey(contents, Some(old(Position()).value.0), true, Position())
    {
      hide MergingIterator.Valid, SortedEntries, Less, ShowsMap, FirstKey;
      ghost var es, i := iter.merged, shown;
      if direction.Reverse? {
        direction := Forward;
        if iter.current.None? {
          iter.SeekToFirst();
        } else {
          iter.Next();
        }
      } else {
        savedKey := Some(iter.Current().key.user);
        iter.Next();
      }
      ghost var p := iter.cursor;
      AroundShown(es, sequence, i, p);
      if iter.current.None? {
        valid, savedKey, shown := false, None, |es|;
      } else {
        FindNextUserEntry(true, savedKey.value);
      }
      AfterShown(es, sequence, i, p, shown);
      NextKeyOf(es, sequence, contents, i, shown);
    }

    /** Moves to the previous visible key. */
    method Prev()
      requires Valid() && valid
      modifies this, iter, iter.pos
      ensures Valid() && LastShown(iter.merged, sequence, old(shown), shown)
      ensures LastKey(contents, Some(old(Position()).value.0), Position())
    {
      hide MergingIterator.Valid, LastKey, UniqueSequences, Read;
      ghost var es, i := iter.merged, shown;
      if direction.Forward? {
        savedKey := Some(iter.Current().key.user);
        while true
          invariant iter.Valid() && iter.cursor <= i && direction.Forward? && savedKey == Some(es[i].key.user)
          invariant iter.cursor < |es| && es[iter.cursor].key.user == es[i].key.user
          decreases iter.cursor
        {
          iter.Prev();
          if iter.current.None? {
            BeforeAll(es, sequence, i, 0);
            valid, savedKey, savedValue, shown := false, None, "", |es|;
            PrevKeyOf(es, sequence, contents, i, shown);
            return;
          }
          if iter.Current().key.user < savedKey.value {
            break;
          }
        }
        BeforeAll(es, sequence, i, iter.cursor + 1);
        direction := Reverse;
      }
      ghost var p := iter.cursor;
      FindPrevUserEntry();
      StepsBack(es, sequence, i, p, shown);
      PrevKeyOf(es, sequence, contents, i, shown);
    }

    method Seek(target: UserKey)
      requires Valid()
      modifies this, iter, iter.pos
      ensures Valid() && FirstShownAt(iter.merged, sequence, target, shown)
      ensures FirstKey(contents, Some(target), false, Position())
    {
      hide MergingIterator.Valid, FirstKey, SortedEntries, ShowsMap;
      ghost var es := iter.merged;
      direction, savedValue, savedKey := Forward, "", None;
      iter.Seek(SeekKey(target, sequence));
      ghost var p := iter.cursor;
      SeekReady(es, sequence, target, p);
      if iter.current.Some? {
        FindNextUserEntry(false, target);
      } else {
        valid, shown := false, |es|;
      }
      AfterSeek(es, sequence, target, p, shown);
      SeekKeyOf(es, sequence, contents, target, shown);
    }

    method SeekToFirst()
      requires Valid()
      modifies this, iter, iter.pos
      ensures Valid() && FirstShown(iter.merged, sequence, 0, shown)
      ensures FirstKey(contents, None, false, Position())
    {
      hide MergingIterator.Valid, FirstKey, SortedEntries, ShowsMap;
      direction, savedValue := Forward, "";
      iter.SeekToFirst();
      if iter.current.Some? {
        FindNextUserEntry(false, 0.0);
      } else {
        valid, shown := false, |iter.merged|;
      }
      FirstKeyOf(iter.merged, sequence, contents, shown);
    }

    method SeekToLast()
      requires Valid()
      modifies this, iter, iter.pos
      ensures Valid() && LastShown(iter.merged, sequence, |iter.merged|, shown)
      ensures LastKey(contents, None, Position())
    {
      hide MergingIterator.Valid, LastKey, SortedEntries, ShowsMap;
      direction, savedValue := Reverse, "";
      iter.SeekToLast();
      FindPrevUserEntry();
      PrevKeyOf(iter.merged, sequence, contents, |iter.merged|, shown);
    }
  }

  /** Position as an int, -1 when the iterator stands nowhere. */
  ghost function Before(iter: MergingIterator): int
    reads iter
  {
    if iter.cursor >= |iter.merged| then -1 else iter.cursor
  }

  /** Number of entries a backward scan from `at` examines. */
  ghost function Upto(at: nat, n: nat): nat {
    if at < n then at + 1 else 0
  }

  // ----- where a step starts -----

  /** Either direction leaves the internal iterator, after one step forward, at
      a p with everything before it at most the shown key. */
  ghost predicate StartsAfter(es: seq<Entry>, s: SequenceNumber, i: nat, p: nat) {
    && i < |es| && p <= |es| && Shown(es, s, i)
    && (p == i + 1 ||
        (BeforeKey(es, s, es[i].key.user, if p == 0 then |es| else p - 1)))
  }

  lemma AroundShown(es: seq<Entry>, s: SequenceNumber, i: nat, p: nat)
    requires SortedEntries(es) && StartsAfter(es, s, i, p)
    ensures NextReady(es, s, p, true, es[i].key.user)
  {
    forall j | 0 <= j < p ensures es[j].key.user <= es[i].key.user {
      if p == i + 1 {
        if j < i { assert Less(es[j].key, es[i].key); }
      } else if j < p - 1 {
        assert Less(es[j].key, es[p - 1].key);
      }
    }
    forall j | p <= j < |es| && es[j].key.sequence <= s ensures es[i].key.user <= es[j].key.user {
      if p == i + 1 { assert Less(es[i].key, es[j].key); }
    }
  }

  lemma AfterShown(es: seq<Entry>, s: SequenceNumber, i: nat, p: nat, r: nat)
    requires SortedEntries(es) && StartsAfter(es, s, i, p) && p <= r <= |es|
    requires r < |es| ==> Shown(es, s, r) && !Skipped(es, true, es[i].key.user, r)
    requires forall j :: p <= j < r && Shown(es, s, j) ==> Skipped(es, true, es[i].key.user, j)
    ensures FirstShown(es, s, i + 1, r)
  {
    if r < |es| { ShownOrder(es, s, i, r); }
    forall j | i + 1 <= j < r ensures !Shown(es, s, j) {
      if Shown(es, s, j) {
        ShownOrder(es, s, i, j);
      }
    }
  }

  /** Everything from `to` up to the shown entry has the shown key. */
  lemma BeforeAll(es: seq<Entry>, s: SequenceNumber, i: nat, to: nat)
    requires SortedEntries(es) && i < |es| && Shown(es, s, i) && to <= i
    requires es[to].key.user == es[i].key.user && (to > 0 ==> es[to - 1].key.user < es[i].key.user)
    ensures forall j :: to <= j < i ==> !Shown(es, s, j)
    ensures BeforeKey(es, s, es[i].key.user, if to == 0 then |es| else to - 1)
  {
    forall j | to <= j < |es| ensures es[i].key.user <= es[j].key.user {
      if to < j { assert Less(es[to].key, es[j].key); }
    }
    forall j | to <= j < i ensures !Shown(es, s, j) {
      assert Less(es[j].key, es[i].key);
      if es[j].key.sequence <= s { AdjacentVersions(es, j, i); }
    }
  }

  lemma StepsBack(es: seq<Entry>, s: SequenceNumber, i: nat, p: nat, r: nat)
    requires SortedEntries(es) && i < |es| && Shown(es, s, i)
    requires BeforeKey(es, s, es[i].key.user, p) && LastShown(es, s, Upto(p, |es|), r)
    ensures LastShown(es, s, i, r)
  {
    assert p < |es| ==> p < i;
    forall j | 0 <= j < i && (r < |es| ==> r < j) ensures !Shown(es, s, j) {
      if Shown(es, s, j) { ShownOrder(es, s, j, i); }
    }
  }

  lemma SeekReady(es: seq<Entry>, s: SequenceNumber, target: UserKey, p: nat)
    requires SortedEntries(es) && p == SeekIndex(es, SeekKey(target, s))
    ensures NextReady(es, s, p, false, target)
  {
  }

  lemma AfterSeek(es: seq<Entry>, s: SequenceNumber, target: UserKey, p: nat, r: nat)
    requires SortedEntries(es) && p == SeekIndex(es, SeekKey(target, s)) && p <= r <= |es|
    requires r < |es| ==> Shown(es, s, r)
    requires forall j :: p <= j < r ==> !Shown(es, s, j)
    ensures FirstShownAt(es, s, target, r)
  {
  }
}
