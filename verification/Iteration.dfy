/** What an iterator on the database shows (DBImpl::NewIterator, db/db_impl.cc):
    the map as of its snapshot, in key order. */
module Iteration {
  import opened Options
  import opened DbFormat
  import opened Versions
  import opened DbState
  import opened Database
  import opened MemTables
  import opened Merger
  import DbIterator

  // ----- the children of the internal iterator -----

  ghost predicate InSome(lists: seq<seq<Entry>>, e: Entry) {
    exists i :: 0 <= i < |lists| && e in lists[i]
  }

  /** No entry is in two lists. */
  ghost predicate Apart(lists: seq<seq<Entry>>) {
    forall i, j, e :: 0 <= i < j < |lists| && e in lists[i] ==> e !in lists[j]
  }

  ghost predicate AllSorted(lists: seq<seq<Entry>>) {
    forall i :: 0 <= i < |lists| ==> SortedEntries(lists[i])
  }

  lemma InEither(a: seq<seq<Entry>>, b: seq<seq<Entry>>, e: Entry)
    ensures InSome(a + b, e) <==> InSome(a, e) || InSome(b, e)
  {
    if InSome(a, e) {
      var i :| 0 <= i < |a| && e in a[i];
      assert e in (a + b)[i];
    }
    if InSome(b, e) {
      var i :| 0 <= i < |b| && e in b[i];
      assert e in (a + b)[|a| + i];
    }
  }

  lemma ApartConcat(a: seq<seq<Entry>>, b: seq<seq<Entry>>)
    requires Apart(a) && Apart(b) && forall e :: InSome(a, e) ==> !InSome(b, e)
    ensures Apart(a + b)
  {
    forall i, j, e | 0 <= i < j < |a + b| && e in (a + b)[i] ensures e !in (a + b)[j] {
      if i < |a| <= j {
        assert InSome(a, e);
      }
    }
  }

  /** Version::AddIterators: level-0 files one by one, a deeper level as one list. */
  function LevelList(files: seq<File>): seq<seq<Entry>> {
    if files == [] then [] else [Concat(files)]
  }

  function DeepLists(v: Version, l: nat): seq<seq<Entry>>
    requires l <= NUM_LEVELS
    decreases NUM_LEVELS - l
  {
    if l == NUM_LEVELS then [] else LevelList(v[l]) + DeepLists(v, l + 1)
  }

  function MemLists(mem: seq<Entry>, imm: Option<seq<Entry>>): seq<seq<Entry>> {
    [mem] + (if imm.Some? then [imm.value] else [])
  }

  /** DBImpl::NewInternalIterator: the memtables, then the version. */
  function Children(mem: seq<Entry>, imm: Option<seq<Entry>>, v: Version): seq<seq<Entry>> {
    MemLists(mem, imm) + (EntriesOf(v[0]) + DeepLists(v, 1))
  }

  ghost function HeldLists(st: State): seq<seq<Entry>> {
    Children(st.mem, st.imm, st.version)
  }

  ghost predicate AtLevel(v: Version, l: nat, e: Entry) {
    l < NUM_LEVELS && exists f :: f in v[l] && e in f.entries
  }

  /** The lists of the levels from l on hold exactly their entries. */
  lemma {:induction false} DeepMembers(v: Version, l: nat, e: Entry)
    requires l <= NUM_LEVELS
    ensures InSome(DeepLists(v, l), e) <==> exists m: nat :: l <= m && AtLevel(v, m, e)
    decreases NUM_LEVELS - l
  {
    if l < NUM_LEVELS {
      DeepMembers(v, l + 1, e);
      InEither(LevelList(v[l]), DeepLists(v, l + 1), e);
      LevelMembers(v, l, e);
    }
  }

  lemma LevelMembers(v: Version, l: nat, e: Entry)
    requires l < NUM_LEVELS
    ensures InSome(LevelList(v[l]), e) <==> AtLevel(v, l, e)
  {
    ConcatMembers(v[l]);
    assert e in Concat(v[l]) <==> e in EntrySet(Concat(v[l]));
    if v[l] != [] {
      assert LevelList(v[l])[0] == Concat(v[l]);
    }
  }

  lemma FileMembers(v: Version, e: Entry)
    ensures InSome(EntriesOf(v[0]), e) <==> AtLevel(v, 0, e)
  {
    if AtLevel(v, 0, e) {
      var f :| f in v[0] && e in f.entries;
      var i :| 0 <= i < |v[0]| && v[0][i] == f;
      assert e in EntriesOf(v[0])[i];
    }
  }

  lemma OneLevel(v: Version, l: nat, m: nat, e: Entry)
    requires LsmInvariant(v) && AtLevel(v, l, e) && AtLevel(v, m, e) && l <= m
    ensures l == m
  {
    var f :| f in v[l] && e in f.entries;
    var g :| g in v[m] && e in g.entries;
    OneHome(v, l, m, f, g, e);
  }

  lemma {:induction false} DeepApart(v: Version, l: nat)
    requires LsmInvariant(v) && 0 < l <= NUM_LEVELS
    ensures Apart(DeepLists(v, l)) && AllSorted(DeepLists(v, l))
    decreases NUM_LEVELS - l
  {
    if l < NUM_LEVELS {
      DeepApart(v, l + 1);
      LevelSorted(v, l);
      forall e | InSome(LevelList(v[l]), e) ensures !InSome(DeepLists(v, l + 1), e) {
        LevelMembers(v, l, e);
        DeepMembers(v, l + 1, e);
        if m: nat :| l + 1 <= m && AtLevel(v, m, e) {
          OneLevel(v, l, m, e);
        }
      }
      ApartConcat(LevelList(v[l]), DeepLists(v, l + 1));
    }
  }

  lemma LevelSorted(v: Version, l: nat)
    requires LsmInvariant(v) && 0 < l < NUM_LEVELS
    ensures AllSorted(LevelList(v[l]))
  {
    ConcatSorted(v[l]);
  }

  lemma FilesApart(v: Version)
    requires LsmInvariant(v)
    ensures Apart(EntriesOf(v[0])) && AllSorted(EntriesOf(v[0]))
  {
    LevelsSorted(v);
    forall i, j, e | 0 <= i < j < |v[0]| && e in v[0][i].entries ensures e !in v[0][j].entries {
      assert BySmallest(v[0][i], v[0][j]);
      if e in v[0][j].entries {
        OneHome(v, 0, 0, v[0][i], v[0][j], e);
      }
    }
  }

  lemma VersionLists(v: Version)
    requires LsmInvariant(v)
    ensures Apart(EntriesOf(v[0]) + DeepLists(v, 1)) && AllSorted(EntriesOf(v[0]) + DeepLists(v, 1))
    ensures forall e :: InSome(EntriesOf(v[0]) + DeepLists(v, 1), e) <==> e in AllEntries(v)
  {
    FilesApart(v);
    DeepApart(v, 1);
    forall e ensures InSome(EntriesOf(v[0]) + DeepLists(v, 1), e) <==> e in AllEntries(v) {
      FileMembers(v, e);
      DeepMembers(v, 1, e);
      InEither(EntriesOf(v[0]), DeepLists(v, 1), e);
      AtSomeLevel(v, e);
    }
    forall e | InSome(EntriesOf(v[0]), e) ensures !InSome(DeepLists(v, 1), e) {
      FileMembers(v, e);
      DeepMembers(v, 1, e);
      if m: nat :| 1 <= m && AtLevel(v, m, e) {
        OneLevel(v, 0, m, e);
      }
    }
    ApartConcat(EntriesOf(v[0]), DeepLists(v, 1));
  }

  lemma AtSomeLevel(v: Version, e: Entry)
    ensures e in AllEntries(v) <==> exists m: nat :: AtLevel(v, m, e)
  {
    if e in AllEntries(v) {
      var l, f :| 0 <= l < NUM_LEVELS && f in v[l] && e in f.entries;
      assert AtLevel(v, l, e);
    }
  }

  lemma MemMembers(st: State, e: Entry)
    ensures InSome(MemLists(st.mem, st.imm), e) <==> e in EntrySet(st.mem) || e in ImmEntries(st.imm)
  {
    var top := MemLists(st.mem, st.imm);
    if e in EntrySet(st.mem) { assert e in top[0]; }
    if e in ImmEntries(st.imm) { assert e in top[1]; }
  }

  lemma MemApart(st: State)
    requires Shape(st)
    ensures Apart(MemLists(st.mem, st.imm)) && AllSorted(MemLists(st.mem, st.imm))
  {
    hide LsmInvariant, Recorded, SortedEntries;
    forall e | e in st.mem && st.imm.Some? ensures e !in st.imm.value {
      assert e in EntrySet(st.mem);
      assert e in st.imm.value ==> e in ImmEntries(st.imm);
    }
  }

  /** An entry of a memtable is not in the version too. */
  lemma MemNotBelow(st: State, e: Entry)
    requires Shape(st) && InSome(MemLists(st.mem, st.imm), e)
    ensures e !in AllEntries(st.version)
  {
    hide LsmInvariant, Recorded, SortedEntries, AllEntries;
    MemMembers(st, e);
  }

  /** The children hold exactly what the database holds, no entry twice. */
  lemma HeldChildren(st: State)
    requires Shape(st)
    ensures Apart(HeldLists(st)) && AllSorted(HeldLists(st))
    ensures forall e :: InSome(HeldLists(st), e) <==> e in Held(st)
  {
    var top, below := MemLists(st.mem, st.imm), EntriesOf(st.version[0]) + DeepLists(st.version, 1);
    VersionLists(st.version);
    MemApart(st);
    hide InSome, Apart, MemLists, DeepLists, EntriesOf, AllEntries, EntrySet, ImmEntries, SortedEntries;
    hide LsmInvariant, Recorded, Layered;
    forall e | InSome(top, e) ensures !InSome(below, e) {
      MemNotBelow(st, e);
    }
    ApartConcat(top, below);
    forall e ensures InSome(HeldLists(st), e) <==> e in Held(st) {
      InEither(top, below, e);
      MemMembers(st, e);
    }
  }

  /** There is a merge of the children to iterate over. */
  lemma HeldMergeExists(st: State) returns (merged: seq<Entry>)
    requires Shape(st)
    ensures IsMerge(merged, HeldLists(st))
  {
    HeldChildren(st);
    HeldUnique(st);
    merged := SortedListing(Held(st));
    var lists := HeldLists(st);
    forall i, e | 0 <= i < |lists| && e in lists[i] ensures e in merged {
      assert InSome(lists, e);
      assert e in EntrySet(merged);
    }
    forall e | e in merged ensures exists i :: 0 <= i < |lists| && e in lists[i] {
      assert e in EntrySet(merged);
      assert InSome(lists, e);
    }
  }

  lemma MergeIsHeld(st: State, merged: seq<Entry>)
    requires Shape(st) && IsMerge(merged, HeldLists(st))
    ensures EntrySet(merged) == Held(st) && UniqueSequences(EntrySet(merged))
  {
    HeldChildren(st);
    HeldUnique(st);
    forall e ensures e in merged <==> e in Held(st) {
      assert InSome(HeldLists(st), e) <==> e in Held(st);
    }
  }

  // ----- the cursor on the map -----

  /** A snapshot that an iterator may be opened at. */
  predicate Live(st: State, s: SequenceNumber) { s in st.snapshots || s == st.lastSequence }

  /** Reading through the merge of the children is reading the map of the snapshot. */
  lemma IteratorReads(st: State, merged: seq<Entry>, s: SequenceNumber, k: UserKey)
    requires Inv(st) && Live(st, s) && IsMerge(merged, HeldLists(st))
    ensures s <= |st.history| && DbIterator.Read(merged, s, k) == ReadMap(MapAsOf(st.history, s), k)
  {
    MergeIsHeld(st, merged);
    OldestInPast(st);
    if s in st.snapshots {
      OldestFirst(st, s);
    }
  }

  lemma ReadsAreMap(st: State, merged: seq<Entry>, s: SequenceNumber)
    requires Inv(st) && Live(st, s) && IsMerge(merged, HeldLists(st))
    ensures s <= |st.history| && DbIterator.ShowsMap(merged, s, MapAsOf(st.history, s))
  {
    OldestInPast(st);
    MergeIsHeld(st, merged);
    forall k ensures s <= |st.history| && DbIterator.Read(merged, s, k) == ReadMap(MapAsOf(st.history, s), k) {
      IteratorReads(st, merged, s, k);
    }
  }

  /** DBImpl::NewIterator: a cursor on the map as of the snapshot, or as of now. */
  method NewIterator(db: DB, snapshot: Option<nat>) returns (it: DbIterator.DBIter)
    requires db.Valid() && Inv(db.View()) && (snapshot.Some? ==> snapshot.value in db.snapshots.items)
    ensures fresh(it) && fresh(it.iter) && fresh(it.iter.pos) && it.Valid() && !it.valid
    ensures var s := if snapshot.Some? then db.snapshots.sequences[snapshot.value] else db.lastSequence;
      s <= |db.history| && it.contents == MapAsOf(db.history, s)
  {
    hide Inv, IsMerge, DbIterator.ShowsMap, MapAsOf, Children, MemTable.Valid;
    var s := db.SequenceFor(snapshot);
    ghost var st := db.View();
    assert Shape(st) by { ShapeOf(st); }
    ghost var merged := HeldMergeExists(st);
    ReadsAreMap(st, merged, s);
    var mem := db.mem.Contents();
    var imm: Option<seq<Entry>> := None;
    if db.imm != null {
      var entries := db.imm.Contents();
      imm := Some(entries);
    }
    var internal := new MergingIterator(Children(mem, imm, db.version), merged);
    it := new DbIterator.DBIter(internal, s, MapAsOf(db.history, s));
  }

  lemma ShapeOf(st: State)
    requires Inv(st)
    ensures Shape(st)
  {
  }

  // ----- writes while an iterator is open -----

  /** More entries, all of them above the snapshot. */
  ghost predicate GrownAbove(es: set<Entry>, more: set<Entry>, s: SequenceNumber) {
    es <= more && forall e :: e in more && e !in es ==> s < e.key.sequence
  }

  lemma LookupUnseen(es: set<Entry>, more: set<Entry>, k: UserKey, s: SequenceNumber)
    requires UniqueSequences(more) && GrownAbove(es, more, s)
    ensures Lookup(more, k, s) == Lookup(es, k, s)
  {
    if x :| x in es && x.key.user == k && x.key.sequence <= s {
      var e := NewestExists(es, k, s, x);
      LookupNewest(es, k, s, e);
      assert NewestAt(more, k, s, e);
      LookupNewest(more, k, s, e);
    } else {
      LookupNothing(es, k, s);
      LookupNothing(more, k, s);
    }
  }

  /** An open iterator shares the live memtable. Entries written after its snapshot
      change nothing of the map that it is a cursor on, so no answer of a later
      call, and no shown entry stops being shown or is joined by another. */
  lemma LaterWritesUnseen(es: seq<Entry>, more: seq<Entry>, s: SequenceNumber, m: map<UserKey, string>)
    requires DbIterator.ShowsMap(es, s, m) && SortedEntries(more) && UniqueSequences(EntrySet(more))
    requires GrownAbove(EntrySet(es), EntrySet(more), s)
    ensures DbIterator.ShowsMap(more, s, m)
    ensures forall i, j :: 0 <= i < |es| && 0 <= j < |more| && es[i] == more[j] ==>
              (DbIterator.Shown(es, s, i) <==> DbIterator.Shown(more, s, j))
    ensures forall j :: 0 <= j < |more| && DbIterator.Shown(more, s, j) ==> more[j] in es
  {
    forall k ensures DbIterator.Read(more, s, k) == ReadMap(m, k) {
      LookupUnseen(EntrySet(es), EntrySet(more), k, s);
      assert DbIterator.Read(es, s, k) == ReadMap(m, k);
    }
    forall j | 0 <= j < |more| && DbIterator.Shown(more, s, j) ensures more[j] in es {
      assert more[j] in EntrySet(more);
      assert more[j] in EntrySet(es);
    }
    forall i, j | 0 <= i < |es| && 0 <= j < |more| && es[i] == more[j]
      ensures DbIterator.Shown(es, s, i) <==> DbIterator.Shown(more, s, j)
    {
      ShownBoth(es, more, s, i, j);
    }
  }

  lemma ShownBoth(es: seq<Entry>, more: seq<Entry>, s: SequenceNumber, i: nat, j: nat)
    requires SortedEntries(es) && SortedEntries(more) && GrownAbove(EntrySet(es), EntrySet(more), s)
    requires i < |es| && j < |more| && es[i] == more[j]
    ensures DbIterator.Shown(es, s, i) <==> DbIterator.Shown(more, s, j)
  {
  }
}
