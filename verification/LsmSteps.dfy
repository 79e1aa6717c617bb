/** Installing a flush or a compaction keeps the LSM invariant and what reads
    see (db/db_impl.cc, db/version_set.cc). */
module LsmSteps {
  import opened Options
  import opened DbFormat
  import opened Versions
  import opened CompactionInputs
  import opened CompactionChoice
  import opened CompactionWork

  /** w is v with the inputs replaced by outs at level + 1. */
  ghost predicate Installed(v: Version, level: nat, in0: seq<File>, in1: seq<File>, outs: seq<File>, w: Version) {
    && level + 1 < NUM_LEVELS
    && SortedFiles(w[level]) && SortedFiles(w[level + 1])
    && (forall f :: f in w[level] <==> f in v[level] && f !in in0)
    && (forall f :: f in w[level + 1] <==> (f in v[level + 1] && f !in in1) || f in outs)
    && (forall l :: 0 <= l < NUM_LEVELS && l != level && l != level + 1 ==> w[l] == v[l])
  }

  /** Every entry of an output comes from an input. */
  ghost predicate FromInputs(outs: seq<File>, ins: seq<File>) {
    forall o, e :: o in outs && e in o.entries ==> exists h :: h in ins && e in h.entries
  }

  ghost predicate NumbersFree(v: Version, level: nat, in0: seq<File>, in1: seq<File>, outs: seq<File>) {
    && level + 1 < NUM_LEVELS
    && (forall i, j :: 0 <= i < j < |outs| ==> outs[i].number != outs[j].number)
    && forall l, g, o :: 0 <= l < NUM_LEVELS && g in v[l] && o in outs && Outside(level, in0, in1, l, g) ==>
         !SameNumber(g, o)
  }

  lemma DisjointFromPairs(files: seq<File>)
    requires SortedFiles(files)
    requires forall f, g :: f in files && g in files && f != g ==> Before(f, g) || Before(g, f)
    ensures DisjointLevel(files)
  {
    forall i, j | 0 <= i < j < |files| ensures Before(files[i], files[j]) {
      assert BySmallest(files[i], files[j]);
      assert files[i] in files && files[j] in files;
      BoundsOrdered(files[j]);
    }
  }

  lemma PairsFromDisjoint(files: seq<File>, f: File, g: File)
    requires DisjointLevel(files) && f in files && g in files && f != g
    ensures Before(f, g) || Before(g, f)
  {
    var i :| 0 <= i < |files| && files[i] == f;
    var j :| 0 <= j < |files| && files[j] == g;
    assert i < j ==> Before(files[i], files[j]);
    assert j < i ==> Before(files[j], files[i]);
  }

  lemma SortedFromDisjoint(files: seq<File>)
    requires DisjointLevel(files)
    ensures SortedFiles(files)
  {
    forall i, j | 0 <= i < j < |files| ensures BySmallest(files[i], files[j]) {
      assert Before(files[i], files[j]);
      BoundsOrdered(files[i]);
    }
  }

  lemma OutputBesideRemaining(g: File, o: File, ins: seq<File>)
    requires LeftOfAll(g, ins) || RightOfAll(g, ins)
    requires forall e :: e in o.entries ==> exists h :: h in ins && e in h.entries
    ensures Before(g, o) || Before(o, g)
  {
    if LeftOfAll(g, ins) {
      assert o.entries[0] in o.entries;
      var h :| h in ins && o.entries[0] in h.entries;
      FileBounds(h, o.entries[0]);
      assert Before(g, h);
    } else {
      var last := o.entries[|o.entries| - 1];
      assert last in o.entries;
      var h :| h in ins && last in h.entries;
      FileBounds(h, last);
      assert Before(h, g);
    }
  }

  lemma OutputLevelDisjoint(v: Version, level: nat, in0: seq<File>, in1: seq<File>, outs: seq<File>, w: Version)
    requires ClosedInputs(v, level, in0, in1) && Installed(v, level, in0, in1, outs, w)
    requires DisjointLevel(v[level + 1]) && DisjointLevel(outs) && FromInputs(outs, in0 + in1)
    ensures DisjointLevel(w[level + 1])
  {
    forall f, g | f in w[level + 1] && g in w[level + 1] && f != g ensures Before(f, g) || Before(g, f) {
      if f in outs && g in outs {
        PairsFromDisjoint(outs, f, g);
      } else if f in outs {
        OutputBesideRemaining(g, f, in0 + in1);
      } else if g in outs {
        OutputBesideRemaining(f, g, in0 + in1);
      } else {
        PairsFromDisjoint(v[level + 1], f, g);
      }
    }
    DisjointFromPairs(w[level + 1]);
  }

  lemma RemainingDisjoint(files: seq<File>, rest: seq<File>)
    requires DisjointLevel(files) && SortedFiles(rest)
    requires forall f :: f in rest ==> f in files
    ensures DisjointLevel(rest)
  {
    forall f, g | f in rest && g in rest && f != g ensures Before(f, g) || Before(g, f) {
      PairsFromDisjoint(files, f, g);
    }
    DisjointFromPairs(rest);
  }

  lemma NewerThanOutput(f: File, o: File, ins: seq<File>)
    requires forall e :: e in o.entries ==> exists h :: h in ins && e in h.entries
    requires forall h :: h in ins ==> NewerThan(f, h)
    ensures NewerThan(f, o)
  {
    forall a, b | a in f.entries && b in o.entries && a.key.user == b.key.user
      ensures a.key.sequence > b.key.sequence
    {
      var h :| h in ins && b in h.entries;
      assert NewerThan(f, h);
    }
  }

  lemma OutputNewerThan(o: File, g: File, ins: seq<File>)
    requires forall e :: e in o.entries ==> exists h :: h in ins && e in h.entries
    requires forall h :: h in ins ==> NewerThan(h, g)
    ensures NewerThan(o, g)
  {
    forall a, b | a in o.entries && b in g.entries && a.key.user == b.key.user
      ensures a.key.sequence > b.key.sequence
    {
      var h :| h in ins && a in h.entries;
      assert NewerThan(h, g);
    }
  }

  /** Files that stay above the output level are newer than every input. */
  lemma UpperNewerThanInputs(v: Version, level: nat, in0: seq<File>, in1: seq<File>, l: nat, f: File, h: File)
    requires LsmInvariant(v) && ClosedInputs(v, level, in0, in1)
    requires l <= level && f in v[l] && (l == level ==> f !in in0)
    requires h in in0 + in1
    ensures NewerThan(f, h)
  {
    if h in in0 {
      assert h in v[level];
    } else {
      assert h in v[level + 1];
    }
  }

  lemma LevelsStayOrdered(v: Version, level: nat, in0: seq<File>, in1: seq<File>, outs: seq<File>, w: Version,
                          l: nat, m: nat, f: File, g: File)
    requires LsmInvariant(v) && ClosedInputs(v, level, in0, in1) && Installed(v, level, in0, in1, outs, w)
    requires FromInputs(outs, in0 + in1)
    requires l < m < NUM_LEVELS && f in w[l] && g in w[m]
    ensures NewerThan(f, g)
  {
    if m == level + 1 && g in outs {
      forall h | h in in0 + in1 ensures NewerThan(f, h) {
        UpperNewerThanInputs(v, level, in0, in1, l, f, h);
      }
      NewerThanOutput(f, g, in0 + in1);
    } else if l == level + 1 && f in outs {
      forall h | h in in0 + in1 ensures NewerThan(h, g) {
        assert g in v[m];
        assert h in v[level] || h in v[level + 1];
      }
      OutputNewerThan(f, g, in0 + in1);
    } else {
      assert f in v[l] && g in v[m];
    }
  }

  // ----- entries before and after -----

  /** Entries of the version outside the compaction. */
  ghost function OtherEntries(v: Version, level: nat, in0: seq<File>, in1: seq<File>): set<Entry> {
    set l, f, e | 0 <= l < NUM_LEVELS && f in v[l] && e in f.entries && Outside(level, in0, in1, l, f) :: e
  }

  ghost predicate Outside(level: nat, in0: seq<File>, in1: seq<File>, l: nat, f: File) {
    !(l == level && f in in0) && !(l == level + 1 && f in in1)
  }

  ghost function FileEntries(files: seq<File>): set<Entry> {
    set f, e | f in files && e in f.entries :: e
  }

  lemma EntriesBefore(v: Version, level: nat, in0: seq<File>, in1: seq<File>)
    requires ClosedInputs(v, level, in0, in1)
    ensures AllEntries(v) == OtherEntries(v, level, in0, in1) + FileEntries(in0 + in1)
  {
    forall e | e in AllEntries(v) ensures e in OtherEntries(v, level, in0, in1) + FileEntries(in0 + in1) {
      var l, f :| 0 <= l < NUM_LEVELS && f in v[l] && e in f.entries;
      if !Outside(level, in0, in1, l, f) {
        assert f in in0 + in1;
      }
    }
    forall e | e in FileEntries(in0 + in1) ensures e in AllEntries(v) {
      var f :| f in in0 + in1 && e in f.entries;
      InAllEntries(v, if f in in0 then level else level + 1, f, e);
    }
  }

  lemma EntriesAfter(v: Version, level: nat, in0: seq<File>, in1: seq<File>, outs: seq<File>, w: Version)
    requires Installed(v, level, in0, in1, outs, w)
    ensures AllEntries(w) == OtherEntries(v, level, in0, in1) + FileEntries(outs)
  {
    forall e | e in AllEntries(w) ensures e in OtherEntries(v, level, in0, in1) + FileEntries(outs) {
      var l, f :| 0 <= l < NUM_LEVELS && f in w[l] && e in f.entries;
      if l != level + 1 || f !in outs {
        assert f in v[l] && Outside(level, in0, in1, l, f);
      }
    }
    forall e | e in OtherEntries(v, level, in0, in1) ensures e in AllEntries(w) {
      var l, f :| 0 <= l < NUM_LEVELS && f in v[l] && e in f.entries && Outside(level, in0, in1, l, f);
      InAllEntries(w, l, f, e);
    }
    forall e | e in FileEntries(outs) ensures e in AllEntries(w) {
      var f :| f in outs && e in f.entries;
      InAllEntries(w, level + 1, f, e);
    }
  }

  lemma NumbersStayUnique(v: Version, level: nat, in0: seq<File>, in1: seq<File>, outs: seq<File>, w: Version)
    requires UniqueNumbers(v) && Installed(v, level, in0, in1, outs, w)
    requires NumbersFree(v, level, in0, in1, outs)
    ensures UniqueNumbers(w)
  {
    forall l, m, f, g | 0 <= l < NUM_LEVELS && 0 <= m < NUM_LEVELS && f in w[l] && g in w[m]
      ensures SameNumber(f, g) ==> l == m && f == g
    {
      if l == level + 1 && f in outs {
        if !(m == level + 1 && g in outs) {
          assert g in v[m] && !SameNumber(g, f);
        }
      } else if m == level + 1 && g in outs {
        assert f in v[l] && !SameNumber(f, g);
      } else {
        assert f in v[l] && g in v[m];
      }
    }
  }

  /** Installing a compaction keeps the LSM invariant. */
  lemma CompactionKeepsInvariant(v: Version, level: nat, in0: seq<File>, in1: seq<File>, outs: seq<File>, w: Version)
    requires LsmInvariant(v) && ClosedInputs(v, level, in0, in1) && Installed(v, level, in0, in1, outs, w)
    requires DisjointLevel(outs) && FromInputs(outs, in0 + in1) && NumbersFree(v, level, in0, in1, outs)
    ensures LsmInvariant(w)
  {
    OutputLevelDisjoint(v, level, in0, in1, outs, w);
    if level >= 1 {
      RemainingDisjoint(v[level], w[level]);
    }
    forall l, m, f, g | 0 <= l < m < NUM_LEVELS && f in w[l] && g in w[m] ensures NewerThan(f, g) {
      LevelsStayOrdered(v, level, in0, in1, outs, w, l, m, f, g);
    }
    NumbersStayUnique(v, level, in0, in1, outs, w);
    EntriesBefore(v, level, in0, in1);
    EntriesAfter(v, level, in0, in1, outs, w);
    assert AllEntries(w) <= AllEntries(v);
  }

  // ----- reads across a compaction -----

  /** The merged input of the compaction (MakeInputIterator): all entries of the
      inputs, once each, in internal-key order. */
  ghost predicate MergedInput(ins: seq<File>, input: seq<Entry>) {
    SortedEntries(input) && EntrySet(input) == FileEntries(ins)
  }

  /** outs hold exactly the kept entries, in order. */
  ghost predicate OutputsHold(outs: seq<File>, kept: seq<Entry>) {
    && DisjointLevel(outs)
    && EntrySet(kept) == FileEntries(outs)
  }

  lemma OutsideNewer(v: Version, level: nat, in0: seq<File>, in1: seq<File>, l: nat, g: File, h: File, k: UserKey)
    requires LsmInvariant(v) && ClosedInputs(v, level, in0, in1)
    requires l < NUM_LEVELS && g in v[l] && Outside(level, in0, in1, l, g) && CoversKey(g, k)
    requires h in in0 + in1 && CoversKey(h, k) && IsBase(v, level, k)
    ensures NewerThan(g, h)
  {
    if l <= level {
      UpperNewerThanInputs(v, level, in0, in1, l, g, h);
    } else if h in in0 && l == level + 1 {
      InRange(in0, h);
    }
  }

  lemma CompactionOthersNewer(v: Version, level: nat, in0: seq<File>, in1: seq<File>, input: seq<Entry>,
                              newer: set<Entry>)
    requires LsmInvariant(v) && ClosedInputs(v, level, in0, in1) && MergedInput(in0 + in1, input)
    requires forall x, y :: x in newer && y in AllEntries(v) && x.key.user == y.key.user ==>
               x.key.sequence > y.key.sequence
    ensures OthersNewer(v, level, newer + OtherEntries(v, level, in0, in1), input)
  {
    EntriesBefore(v, level, in0, in1);
    forall x, y | x in newer + OtherEntries(v, level, in0, in1) && y in input && x.key.user == y.key.user &&
                  IsBase(v, level, y.key.user)
      ensures x.key.sequence > y.key.sequence
    {
      assert y in EntrySet(input);
      var h :| h in in0 + in1 && y in h.entries;
      if x !in newer {
        var l, g :| 0 <= l < NUM_LEVELS && g in v[l] && x in g.entries && Outside(level, in0, in1, l, g);
        FileBounds(g, x);
        FileBounds(h, y);
        OutsideNewer(v, level, in0, in1, l, g, h, y.key.user);
      }
    }
  }

  /** A compaction changes no read at or above the smallest snapshot; `newer`
      stands for what the memtables hold. */
  lemma CompactionPreservesReads(v: Version, level: nat, in0: seq<File>, in1: seq<File>, input: seq<Entry>,
                                 smallest: SequenceNumber, outs: seq<File>, w: Version,
                                 newer: set<Entry>, k: UserKey, s: SequenceNumber)
    requires LsmInvariant(v) && ClosedInputs(v, level, in0, in1) && Installed(v, level, in0, in1, outs, w)
    requires MergedInput(in0 + in1, input)
    requires OutputsHold(outs, Kept(v, level, input, smallest, |input|))
    requires UniqueSequences(newer + AllEntries(v))
    requires forall x, y :: x in newer && y in AllEntries(v) && x.key.user == y.key.user ==>
               x.key.sequence > y.key.sequence
    requires smallest < MAX_SEQUENCE && smallest <= s
    ensures Lookup(newer + AllEntries(w), k, s) == Lookup(newer + AllEntries(v), k, s)
  {
    var others := OtherEntries(v, level, in0, in1);
    EntriesBefore(v, level, in0, in1);
    EntriesAfter(v, level, in0, in1, outs, w);
    CompactionOthersNewer(v, level, in0, in1, input, newer);
    assert newer + AllEntries(v) == newer + others + EntrySet(input);
    assert newer + AllEntries(w) == newer + others + EntrySet(Kept(v, level, input, smallest, |input|));
    DropsPreserveLookup(v, level, newer + others, input, smallest, k, s);
  }

  lemma KeptFromInputs(v: Version, level: nat, ins: seq<File>, input: seq<Entry>, smallest: SequenceNumber,
                       outs: seq<File>)
    requires MergedInput(ins, input)
    requires OutputsHold(outs, Kept(v, level, input, smallest, |input|))
    ensures FromInputs(outs, ins)
  {
    var kept := Kept(v, level, input, smallest, |input|);
    KeptMembers(v, level, input, smallest, |input|);
    forall o, e | o in outs && e in o.entries ensures exists h :: h in ins && e in h.entries {
      assert e in EntrySet(kept);
      assert e in EntrySet(input);
    }
  }

  // ----- flush -----

  /** w is v with one new file at level. */
  ghost predicate FileAdded(v: Version, level: nat, n: File, w: Version) {
    && level < NUM_LEVELS
    && SortedFiles(w[level])
    && (forall f :: f in w[level] <==> f in v[level] || f == n)
    && (forall l :: 0 <= l < NUM_LEVELS && l != level ==> w[l] == v[l])
  }

  /** The level PickLevelForMemTableOutput may choose for a file. */
  ghost predicate LevelFree(v: Version, level: nat, n: File) {
    level < NUM_LEVELS &&
    (level > 0 ==> forall l, f :: 0 <= l <= level && f in v[l] ==>
                     !Overlaps(f, Some(Smallest(n).user), Some(Largest(n).user)))
  }

  lemma NoOverlapVacuous(f: File, n: File)
    requires !Overlaps(f, Some(Smallest(n).user), Some(Largest(n).user))
    ensures NewerThan(f, n) && (Before(f, n) || Before(n, f))
  {
    forall a, b | a in f.entries && b in n.entries ensures a.key.user != b.key.user {
      FileBounds(f, a);
      FileBounds(n, b);
    }
  }

  lemma FlushEntries(v: Version, level: nat, n: File, w: Version)
    requires FileAdded(v, level, n, w)
    ensures AllEntries(w) == AllEntries(v) + EntrySet(n.entries)
  {
    forall e | e in AllEntries(w) ensures e in AllEntries(v) + EntrySet(n.entries) {
      var l, f :| 0 <= l < NUM_LEVELS && f in w[l] && e in f.entries;
      if f in v[l] { InAllEntries(v, l, f, e); }
    }
    forall e | e in AllEntries(v) ensures e in AllEntries(w) {
      var l, f :| 0 <= l < NUM_LEVELS && f in v[l] && e in f.entries;
      InAllEntries(w, l, f, e);
    }
    forall e | e in EntrySet(n.entries) ensures e in AllEntries(w) {
      InAllEntries(w, level, n, e);
    }
  }

  /** Flushing a memtable that is newer than the whole version keeps the LSM
      invariant, at level 0 or at any deeper level found free. */
  lemma FlushKeepsInvariant(v: Version, level: nat, n: File, w: Version)
    requires LsmInvariant(v) && FileAdded(v, level, n, w) && LevelFree(v, level, n)
    requires forall l, f :: 0 <= l < NUM_LEVELS && f in v[l] ==> NewerThan(n, f) && f.number < n.number
    requires UniqueSequences(AllEntries(v) + EntrySet(n.entries))
    ensures LsmInvariant(w)
  {
    if level > 0 {
      forall f, g | f in w[level] && g in w[level] && f != g ensures Before(f, g) || Before(g, f) {
        if f == n { NoOverlapVacuous(g, n); }
        else if g == n { NoOverlapVacuous(f, n); }
        else { PairsFromDisjoint(v[level], f, g); }
      }
      DisjointFromPairs(w[level]);
    }
    forall l, m, f, g | 0 <= l < m < NUM_LEVELS && f in w[l] && g in w[m] ensures NewerThan(f, g) {
      if m == level && g == n { NoOverlapVacuous(f, n); }
      else if !(l == level && f == n) { assert f in v[l] && g in v[m]; }
    }
    forall f, g | f in w[0] && g in w[0] && f.number > g.number ensures NewerThan(f, g) {
      assert g != n;
      if f != n { assert f in v[0] && g in v[0]; }
    }
    forall l, m, f, g | 0 <= l < NUM_LEVELS && 0 <= m < NUM_LEVELS && f in w[l] && g in w[m]
      ensures SameNumber(f, g) ==> l == m && f == g
    {
      if f in v[l] && g in v[m] { assert SameNumber(f, g) ==> l == m && f == g; }
    }
    FlushEntries(v, level, n, w);
  }
}
