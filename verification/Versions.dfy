/** Files, versions, the LSM invariant and point lookup (db/version_set.cc). */
module Versions {
  import opened Options
  import opened DbFormat

  datatype TableFile = TableFile(number: nat, size: nat, entries: seq<Entry>)

  /** A table file holds at least one entry and its entries are in internal-key
      order; its metadata bounds are its first and last keys. */
  type File = f: TableFile | f.entries != [] && SortedEntries(f.entries)
    witness TableFile(0, 0, [Entry(InternalKey(0.0, 0, TypeDeletion), "")])

  function Smallest(f: File): InternalKey { f.entries[0].key }
  function Largest(f: File): InternalKey { f.entries[|f.entries| - 1].key }

  type Version = v: seq<seq<File>> | |v| == NUM_LEVELS
    witness seq(NUM_LEVELS, _ => [])

  ghost predicate Before(f: File, g: File) {
    Less(Largest(f), Smallest(g))
  }

  /** Wherever both files hold a user key, `f` holds only newer entries. */
  ghost predicate NewerThan(f: File, g: File) {
    forall a, b :: a in f.entries && b in g.entries && a.key.user == b.key.user ==>
      a.key.sequence > b.key.sequence
  }

  /** Order of a level's file list (VersionSet::Builder::BySmallestKey). */
  predicate BySmallest(f: File, g: File) {
    Less(Smallest(f), Smallest(g)) || (Smallest(f) == Smallest(g) && f.number < g.number)
  }

  ghost predicate SortedFiles(files: seq<File>) {
    forall i, j {:trigger BySmallest(files[i], files[j])} :: 0 <= i < j < |files| ==> BySmallest(files[i], files[j])
  }

  /** Levels above 0: sorted and disjoint on internal keys. */
  ghost predicate DisjointLevel(files: seq<File>) {
    forall i, j {:trigger Before(files[i], files[j])} :: 0 <= i < j < |files| ==> Before(files[i], files[j])
  }

  ghost function AllEntries(v: Version): set<Entry> {
    set l, f, e | 0 <= l < NUM_LEVELS && f in v[l] && e in f.entries :: e
  }

  ghost predicate NewestFilesFirst(v: Version) {
    forall f, g {:trigger NewerThan(f, g)} :: f in v[0] && g in v[0] && f.number > g.number ==> NewerThan(f, g)
  }

  ghost predicate LowerLevelsNewer(v: Version) {
    forall l, m, f, g {:trigger f in v[l], g in v[m], NewerThan(f, g)} ::
      0 <= l < m < NUM_LEVELS && f in v[l] && g in v[m] ==> NewerThan(f, g)
  }

  ghost predicate SameNumber(f: File, g: File) {
    f.number == g.number
  }

  ghost predicate UniqueNumbers(v: Version) {
    forall l, m, f, g {:trigger f in v[l], g in v[m], SameNumber(f, g)} ::
      0 <= l < NUM_LEVELS && 0 <= m < NUM_LEVELS && f in v[l] && g in v[m] && SameNumber(f, g) ==>
        l == m && f == g
  }

  /** The invariant behind level-by-level lookup and compaction. */
  ghost predicate LsmInvariant(v: Version) {
    && SortedFiles(v[0])
    && (forall l :: 1 <= l < NUM_LEVELS ==> DisjointLevel(v[l]))
    && NewestFilesFirst(v)
    && LowerLevelsNewer(v)
    && UniqueNumbers(v)
    && UniqueSequences(AllEntries(v))
  }

  lemma FileBounds(f: File, e: Entry)
    requires e in f.entries
    ensures AtMost(Smallest(f), e.key) && AtMost(e.key, Largest(f))
    ensures Smallest(f).user <= e.key.user <= Largest(f).user
  {
    var i :| 0 <= i < |f.entries| && f.entries[i] == e;
    if i > 0 { assert Less(f.entries[0].key, f.entries[i].key); }
    if i < |f.entries| - 1 { assert Less(f.entries[i].key, f.entries[|f.entries| - 1].key); }
  }

  lemma BoundsOrdered(f: File)
    ensures AtMost(Smallest(f), Largest(f)) && Smallest(f).user <= Largest(f).user
  {
    FileBounds(f, f.entries[0]);
  }

  lemma InAllEntries(v: Version, l: nat, f: File, e: Entry)
    requires l < NUM_LEVELS && f in v[l] && e in f.entries
    ensures e in AllEntries(v)
  {
  }

  // ----- point lookup -----

  /** Earliest file whose largest key is at or after `key`. */
  method FindFile(files: seq<File>, key: InternalKey) returns (right: nat)
    requires DisjointLevel(files)
    ensures right <= |files|
    ensures forall i :: 0 <= i < right ==> Less(Largest(files[i]), key)
    ensures forall i :: right <= i < |files| ==> AtMost(key, Largest(files[i]))
  {
    var left := 0;
    right := |files|;
    while left < right
      invariant 0 <= left <= right <= |files|
      invariant forall i :: 0 <= i < left ==> Less(Largest(files[i]), key)
      invariant forall i :: right <= i < |files| ==> AtMost(key, Largest(files[i]))
    {
      var mid := (left + right) / 2;
      if Less(Largest(files[mid]), key) {
        forall i | 0 <= i < mid ensures Less(Largest(files[i]), key) {
          assert Before(files[i], files[mid]);
          BoundsOrdered(files[mid]);
        }
        left := mid + 1;
      } else {
        forall i | mid < i < |files| ensures AtMost(key, Largest(files[i])) {
          assert Before(files[mid], files[i]);
          BoundsOrdered(files[i]);
        }
        right := mid;
      }
    }
  }

  function TableGet(f: File, k: UserKey, s: SequenceNumber): Option<Entry> {
    ListGet(f.entries, k, s)
  }

  ghost predicate NothingVisible(f: File, k: UserKey, s: SequenceNumber) {
    forall e :: e in f.entries && e.key.user == k ==> s < e.key.sequence
  }

  lemma TableGetCorrect(f: File, k: UserKey, s: SequenceNumber)
    ensures match TableGet(f, k, s)
            case Some(e) => NewestAt(EntrySet(f.entries), k, s, e)
            case None => NothingVisible(f, k, s)
  {
    ListGetCorrect(f.entries, k, s);
  }

  function InsertNewest(f: File, files: seq<File>): (r: seq<File>)
    ensures multiset(r) == multiset([f]) + multiset(files)
  {
    if files == [] || f.number > files[0].number then [f] + files
    else
      assert files == [files[0]] + files[1..];
      [files[0]] + InsertNewest(f, files[1..])
  }

  ghost predicate NumbersDescend(files: seq<File>) {
    forall i, j :: 0 <= i < j < |files| ==> files[i].number >= files[j].number
  }

  lemma {:induction false} InsertNewestSorted(f: File, files: seq<File>)
    requires NumbersDescend(files)
    ensures NumbersDescend(InsertNewest(f, files))
  {
    if files == [] || f.number > files[0].number {
    } else {
      InsertNewestSorted(f, files[1..]);
      var r := InsertNewest(f, files[1..]);
      forall i | 0 <= i < |r| ensures files[0].number >= r[i].number {
        assert r[i] in multiset(r);
        assert r[i] == f || r[i] in files[1..];
      }
    }
  }

  /** std::sort(tmp.begin(), tmp.end(), NewestFirst). */
  function SortNewestFirst(files: seq<File>): (r: seq<File>)
    ensures multiset(r) == multiset(files)
  {
    if files == [] then []
    else
      assert files == [files[0]] + files[1..];
      InsertNewest(files[0], SortNewestFirst(files[1..]))
  }

  lemma {:induction false} SortNewestFirstSorted(files: seq<File>)
    ensures NumbersDescend(SortNewestFirst(files))
  {
    if files != [] {
      SortNewestFirstSorted(files[1..]);
      InsertNewestSorted(files[0], SortNewestFirst(files[1..]));
    }
  }

  /** A hit in `f` is the newest visible entry of the version when every other
      file either shows nothing or holds only older entries than `f`. */
  lemma HitIsNewest(v: Version, l: nat, f: File, k: UserKey, s: SequenceNumber, e: Entry)
    requires UniqueSequences(AllEntries(v))
    requires l < NUM_LEVELS && f in v[l] && TableGet(f, k, s) == Some(e)
    requires forall m, g :: 0 <= m < NUM_LEVELS && g in v[m] && g != f ==>
               NothingVisible(g, k, s) || NewerThan(f, g)
    ensures Lookup(AllEntries(v), k, s) == Answer(e)
  {
    TableGetCorrect(f, k, s);
    assert e in f.entries;
    InAllEntries(v, l, f, e);
    forall x | x in AllEntries(v) && x.key.user == k && x.key.sequence <= s
      ensures x.key.sequence <= e.key.sequence
    {
      var m, g :| 0 <= m < NUM_LEVELS && g in v[m] && x in g.entries;
      if g == f {
        assert x in EntrySet(f.entries);
      } else {
        assert !NothingVisible(g, k, s);
        assert NewerThan(f, g);
      }
    }
    LookupNewest(AllEntries(v), k, s, e);
  }

  /** Within a disjoint level an earlier file is also the newer one. */
  lemma EarlierFileNewer(v: Version, l: nat, i: nat, j: nat)
    requires LsmInvariant(v)
    requires 1 <= l < NUM_LEVELS && i < j < |v[l]|
    ensures NewerThan(v[l][i], v[l][j])
  {
    var f, g := v[l][i], v[l][j];
    assert Before(f, g);
    forall a, b | a in f.entries && b in g.entries && a.key.user == b.key.user
      ensures a.key.sequence > b.key.sequence
    {
      FileBounds(f, a);
      FileBounds(g, b);
      InAllEntries(v, l, f, a);
      InAllEntries(v, l, g, b);
    }
  }

  /** The entries of `files` from `from` on that FindFile's answer leaves out. */
  lemma PastSeekNothingVisible(files: seq<File>, right: nat, k: UserKey, s: SequenceNumber)
    requires DisjointLevel(files) && right <= |files|
    requires forall i :: 0 <= i < right ==> Less(Largest(files[i]), SeekKey(k, s))
    requires forall i :: right <= i < |files| ==> AtMost(SeekKey(k, s), Largest(files[i]))
    ensures forall i :: 0 <= i < right ==> NothingVisible(files[i], k, s)
    ensures right < |files| && (k < Smallest(files[right]).user || NothingVisible(files[right], k, s)) ==>
              forall i :: 0 <= i < |files| ==> NothingVisible(files[i], k, s)
  {
    forall i, e | 0 <= i < right && e in files[i].entries && e.key.user == k
      ensures s < e.key.sequence
    {
      FileBounds(files[i], e);
    }
    if right < |files| && (k < Smallest(files[right]).user || NothingVisible(files[right], k, s)) {
      BoundsOrdered(files[right]);
      assert k < Largest(files[right]).user;
      forall i, e | right <= i < |files| && e in files[i].entries
        ensures e.key.user == k ==> s < e.key.sequence
      {
        FileBounds(files[i], e);
        if right < i {
          assert Before(files[right], files[i]);
        }
      }
    }
  }

  /** Level-0 files whose user-key range covers `k`, in file-list order. */
  method FilesCovering(files: seq<File>, k: UserKey) returns (tmp: seq<File>)
    ensures forall f :: f in tmp <==> f in files && Smallest(f).user <= k <= Largest(f).user
  {
    tmp := [];
    for i := 0 to |files|
      invariant forall f :: f in tmp <==> f in files[..i] && Smallest(f).user <= k <= Largest(f).user
    {
      if Smallest(files[i]).user <= k && k <= Largest(files[i]).user {
        tmp := tmp + [files[i]];
      }
    }
  }

  /** ForEachOverlapping, level 0: overlapping files from newest to oldest. */
  method SearchLevelZero(v: Version, k: UserKey, s: SequenceNumber) returns (hit: Option<Entry>)
    requires LsmInvariant(v)
    ensures hit.Some? ==> Lookup(AllEntries(v), k, s) == Answer(hit.value)
    ensures hit.None? ==> forall f :: f in v[0] ==> NothingVisible(f, k, s)
  {
    var tmp := FilesCovering(v[0], k);
    forall f | f in v[0] ensures f in tmp || NothingVisible(f, k, s) {
      forall e | f !in tmp && e in f.entries ensures e.key.user != k { FileBounds(f, e); }
    }
    var sorted := SortNewestFirst(tmp);
    SortNewestFirstSorted(tmp);
    SameMembers(sorted, tmp);
    for i := 0 to |sorted|
      invariant forall j :: 0 <= j < i ==> NothingVisible(sorted[j], k, s)
    {
      TableGetCorrect(sorted[i], k, s);
      hit := TableGet(sorted[i], k, s);
      if hit.Some? {
        LevelZeroHit(v, sorted, i, k, s, hit.value);
        return;
      }
    }
    return None;
  }

  lemma SameMembers(a: seq<File>, b: seq<File>)
    requires multiset(a) == multiset(b)
    ensures forall f :: f in a <==> f in b
  {
    forall f ensures f in a <==> f in b {
      assert f in a <==> f in multiset(a);
    }
  }

  /** ForEachOverlapping, one level above 0: at most one file can hold `k`. */
  method SearchLevel(v: Version, level: nat, k: UserKey, s: SequenceNumber) returns (hit: Option<Entry>)
    requires LsmInvariant(v) && 1 <= level < NUM_LEVELS
    requires forall l, f :: 0 <= l < level && f in v[l] ==> NothingVisible(f, k, s)
    ensures hit.Some? ==> Lookup(AllEntries(v), k, s) == Answer(hit.value)
    ensures hit.None? ==> forall f :: f in v[level] ==> NothingVisible(f, k, s)
  {
    var files := v[level];
    if |files| == 0 { return None; }
    var index := FindFile(files, SeekKey(k, s));
    PastSeekNothingVisible(files, index, k, s);
    if index < |files| {
      if k < Smallest(files[index]).user {
        // All of the file is past any data for k.
      } else {
        TableGetCorrect(files[index], k, s);
        hit := TableGet(files[index], k, s);
        if hit.Some? {
          DeepHit(v, level, index, k, s, hit.value);
          return;
        }
      }
    }
    return None;
  }

  /** Version::Get: level 0, then one file per deeper level, stopping at the
      first file that holds a visible entry for `k`. */
  method Get(v: Version, k: UserKey, s: SequenceNumber) returns (r: Option<string>)
    requires LsmInvariant(v)
    ensures r == Lookup(AllEntries(v), k, s)
  {
    var hit := SearchLevelZero(v, k, s);
    if hit.Some? { return Answer(hit.value); }
    for level := 1 to NUM_LEVELS
      invariant forall l, f :: 0 <= l < level && f in v[l] ==> NothingVisible(f, k, s)
    {
      hit := SearchLevel(v, level, k, s);
      if hit.Some? { return Answer(hit.value); }
    }
    forall x | x in AllEntries(v) && x.key.user == k ensures s < x.key.sequence {
      var l, f :| 0 <= l < NUM_LEVELS && f in v[l] && x in f.entries;
      assert NothingVisible(f, k, s);
    }
    LookupNothing(AllEntries(v), k, s);
    return None;
  }

  lemma LevelZeroHit(v: Version, sorted: seq<File>, i: nat, k: UserKey, s: SequenceNumber, e: Entry)
    requires LsmInvariant(v) && i < |sorted|
    requires NumbersDescend(sorted) && forall f :: f in sorted ==> f in v[0]
    requires forall f :: f in v[0] ==> f in sorted || NothingVisible(f, k, s)
    requires forall j :: 0 <= j < i ==> NothingVisible(sorted[j], k, s)
    requires TableGet(sorted[i], k, s) == Some(e)
    ensures Lookup(AllEntries(v), k, s) == Answer(e)
  {
    var f := sorted[i];
    assert f in v[0];
    forall m, g | 0 <= m < NUM_LEVELS && g in v[m] && g != f
      ensures NothingVisible(g, k, s) || NewerThan(f, g)
    {
      if m == 0 && !NothingVisible(g, k, s) {
        var j :| 0 <= j < |sorted| && sorted[j] == g;
        assert i < j;
        assert !SameNumber(f, g);
      }
    }
    HitIsNewest(v, 0, f, k, s, e);
  }

  lemma DeepHit(v: Version, level: nat, index: nat, k: UserKey, s: SequenceNumber, e: Entry)
    requires LsmInvariant(v) && 1 <= level < NUM_LEVELS && index < |v[level]|
    requires forall l, f :: 0 <= l < level && f in v[l] ==> NothingVisible(f, k, s)
    requires forall i :: 0 <= i < index ==> NothingVisible(v[level][i], k, s)
    requires TableGet(v[level][index], k, s) == Some(e)
    ensures Lookup(AllEntries(v), k, s) == Answer(e)
  {
    var f := v[level][index];
    assert f in v[level];
    forall m, g | 0 <= m < NUM_LEVELS && g in v[m] && g != f
      ensures NothingVisible(g, k, s) || NewerThan(f, g)
    {
      if m == level {
        var j :| 0 <= j < |v[level]| && v[level][j] == g;
        if index < j { EarlierFileNewer(v, level, index, j); }
      }
    }
    HitIsNewest(v, level, f, k, s, e);
  }
}
