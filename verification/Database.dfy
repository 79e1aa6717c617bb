/** DBImpl (db/db_impl.cc) as an object: each method performs one step of the
    state machine of DbState. */
module Database {
  import opened Options
  import opened DbFormat
  import opened Versions
  import opened CompactionInputs
  import opened CompactionSetup
  import opened CompactionChoice
  import opened CompactionWork
  import opened LsmSteps
  import opened DbState
  import opened Sequences
  import opened MemTables
  import opened SnapshotLists
  import VersionBuilder
  import Merger

  // ----- the merged input of a compaction -----

  function EntriesOf(files: seq<File>): seq<seq<Entry>> {
    seq(|files|, i requires 0 <= i < |files| => files[i].entries)
  }

  function Concat(files: seq<File>): seq<Entry> { Flatten(EntriesOf(files)) }

  lemma ConcatMembers(files: seq<File>)
    ensures EntrySet(Concat(files)) == FileEntries(files)
  {
    hide Flatten;
    FlattenMembers(EntriesOf(files));
    forall e | e in FileEntries(files) ensures e in Concat(files) {
      var f :| f in files && e in f.entries;
      var i :| 0 <= i < |files| && files[i] == f;
      assert e in EntriesOf(files)[i];
    }
  }

  lemma {:induction false} ConcatSorted(files: seq<File>)
    requires DisjointLevel(files)
    ensures SortedEntries(Concat(files))
  {
    if files != [] {
      var n := |files| - 1;
      SliceDisjoint(files, files[..n], 0, n);
      ConcatSorted(files[..n]);
      ConcatMembers(files[..n]);
      assert EntriesOf(files)[..n] == EntriesOf(files[..n]);
      var a, b := Concat(files[..n]), files[n].entries;
      forall x | x in a ensures Less(x.key, Smallest(files[n])) {
        assert x in EntrySet(a);
        var f :| f in files[..n] && x in f.entries;
        var i :| 0 <= i < n && files[i] == f;
        assert Before(files[i], files[n]);
        FileBounds(f, x);
      }
      forall i, j | 0 <= i < j < |a + b| ensures Less((a + b)[i].key, (a + b)[j].key) {
        if i < |a| <= j {
          assert a[i] in a;
          FileBounds(files[n], b[j - |a|]);
        }
      }
    }
  }

  /** MakeInputIterator: level-0 files one by one, a deeper level as one list. */
  function InputLists(level: nat, in0: seq<File>, in1: seq<File>): seq<seq<Entry>> {
    (if level == 0 then EntriesOf(in0) else [Concat(in0)])
    + (if in1 == [] then [] else [Concat(in1)])
  }

  lemma OneHome(v: Version, l: nat, m: nat, f: File, g: File, e: Entry)
    requires LsmInvariant(v) && l <= m < NUM_LEVELS && f in v[l] && g in v[m] && e in f.entries && e in g.entries
    ensures l == m && f == g
  {
    var comparable := SameNumber(f, g) || NewerThan(f, g) || NewerThan(g, f);
    if l == m && l > 0 && f != g {
      PairsFromDisjoint(v[l], f, g);
      FileBounds(f, e);
      FileBounds(g, e);
    }
  }

  lemma InputListsSorted(v: Version, level: nat, in0: seq<File>, in1: seq<File>)
    requires ClosedInputs(v, level, in0, in1)
    ensures forall i :: 0 <= i < |InputLists(level, in0, in1)| ==> SortedEntries(InputLists(level, in0, in1)[i])
  {
    if level > 0 { ConcatSorted(in0); }
    ConcatSorted(in1);
  }

  /** An entry of a list comes from an input file; two lists share none. */
  lemma ListOrigin(level: nat, in0: seq<File>, in1: seq<File>, i: nat, e: Entry) returns (f: File)
    requires i < |InputLists(level, in0, in1)| && e in InputLists(level, in0, in1)[i]
    ensures e in f.entries
    ensures if level == 0 && i < |in0| then f == in0[i]
            else if level > 0 && i == 0 then f in in0
            else f in in1
  {
    if level == 0 && i < |in0| {
      f := in0[i];
    } else if level > 0 && i == 0 {
      ConcatMembers(in0);
      assert e in EntrySet(Concat(in0));
      f :| f in in0 && e in f.entries;
    } else {
      ConcatMembers(in1);
      assert e in EntrySet(Concat(in1));
      f :| f in in1 && e in f.entries;
    }
  }

  lemma ListHome(level: nat, in0: seq<File>, in1: seq<File>, f: File, e: Entry) returns (i: nat)
    requires f in in0 + in1 && e in f.entries
    ensures i < |InputLists(level, in0, in1)| && e in InputLists(level, in0, in1)[i]
  {
    if f in in0 {
      if level == 0 {
        i :| 0 <= i < |in0| && in0[i] == f;
      } else {
        ConcatMembers(in0);
        assert e in EntrySet(Concat(in0));
        i := 0;
      }
    } else {
      ConcatMembers(in1);
      assert e in EntrySet(Concat(in1));
      i := if level == 0 then |in0| else 1;
    }
  }

  lemma ListsDisjoint(v: Version, level: nat, in0: seq<File>, in1: seq<File>, i: nat, j: nat, e: Entry)
    requires LsmInvariant(v) && ClosedInputs(v, level, in0, in1)
    requires i < j < |InputLists(level, in0, in1)| && e in InputLists(level, in0, in1)[i]
    ensures e !in InputLists(level, in0, in1)[j]
  {
    if e in InputLists(level, in0, in1)[j] {
      var f := ListOrigin(level, in0, in1, i, e);
      var g := ListOrigin(level, in0, in1, j, e);
      if level == 0 && j < |in0| {
        OneHome(v, 0, 0, f, g, e);
      } else {
        OneHome(v, level, level + 1, f, g, e);
      }
    }
  }

  lemma InputListsMerge(v: Version, level: nat, in0: seq<File>, in1: seq<File>) returns (merged: seq<Entry>)
    requires LsmInvariant(v) && ClosedInputs(v, level, in0, in1)
    ensures Merger.IsMerge(merged, InputLists(level, in0, in1)) && MergedInput(in0 + in1, merged)
  {
    var lists := InputLists(level, in0, in1);
    EntriesBefore(v, level, in0, in1);
    merged := SortedListing(FileEntries(in0 + in1));
    InputListsSorted(v, level, in0, in1);
    forall i, e | 0 <= i < |lists| && e in lists[i] ensures e in merged {
      var f := ListOrigin(level, in0, in1, i, e);
      assert f in in0 + in1;
      assert e in EntrySet(merged);
    }
    forall e | e in merged ensures exists i :: 0 <= i < |lists| && e in lists[i] {
      assert e in EntrySet(merged);
      var f :| f in in0 + in1 && e in f.entries;
      var i := ListHome(level, in0, in1, f, e);
    }
    forall i, j, e | 0 <= i < j < |lists| && e in lists[i] ensures e !in lists[j] {
      ListsDisjoint(v, level, in0, in1, i, j, e);
    }
  }

  /** Reads the compaction input through the merging iterator. */
  method ReadInput(v: Version, level: nat, in0: seq<File>, in1: seq<File>) returns (input: seq<Entry>)
    requires LsmInvariant(v) && ClosedInputs(v, level, in0, in1)
    ensures MergedInput(in0 + in1, input)
  {
    hide Merger.IsMerge, MergedInput, LsmInvariant, ClosedInputs, InputLists;
    ghost var merged := InputListsMerge(v, level, in0, in1);
    var it := new Merger.MergingIterator(InputLists(level, in0, in1), merged);
    input := [];
    it.SeekToFirst();
    while it.current.Some?
      invariant it.Valid() && fresh(it) && fresh(it.pos) && it.merged == merged
      invariant input == merged[..it.cursor]
      decreases |merged| - it.cursor
    {
      input := input + [it.Current()];
      it.Next();
    }
    assert merged[..|merged|] == merged;
  }

  // ----- output files -----

  lemma SortedParts(front: seq<Entry>, last: seq<Entry>)
    requires SortedEntries(front + last)
    ensures SortedEntries(front) && SortedEntries(last)
    ensures forall a, b :: a in front && b in last ==> Less(a.key, b.key)
  {
    var all := front + last;
    assert forall i :: 0 <= i < |front| ==> all[i] == front[i];
    assert forall i :: 0 <= i < |last| ==> all[|front| + i] == last[i];
    forall a, b | a in front && b in last ensures Less(a.key, b.key) {
      var i :| 0 <= i < |front| && front[i] == a;
      var j :| 0 <= j < |last| && last[j] == b;
      assert Less(all[i].key, all[|front| + j].key);
    }
  }

  lemma {:induction false} FlattenSorted(outputs: seq<seq<Entry>>)
    requires SortedEntries(Flatten(outputs))
    ensures forall o :: o in outputs ==> SortedEntries(o)
    ensures forall i, j, a, b :: 0 <= i < j < |outputs| && a in outputs[i] && b in outputs[j] ==> Less(a.key, b.key)
  {
    if outputs != [] {
      var n := |outputs| - 1;
      assert outputs == outputs[..n] + [outputs[n]];
      SortedParts(Flatten(outputs[..n]), outputs[n]);
      FlattenSorted(outputs[..n]);
      FlattenMembers(outputs[..n]);
      forall i, j, a, b | 0 <= i < j < |outputs| && a in outputs[i] && b in outputs[j] ensures Less(a.key, b.key) {
        assert outputs[i] == outputs[..n][i];
        if j < n { assert outputs[j] == outputs[..n][j]; }
      }
    }
  }

  /** The output files, numbered from nextFile on. */
  method MakeFiles(outputs: seq<seq<Entry>>, nextFile: nat, size: nat -> nat) returns (outs: seq<File>)
    requires SortedEntries(Flatten(outputs)) && forall o :: o in outputs ==> o != []
    ensures OutputsHold(outs, Flatten(outputs))
    ensures FreshOutputs(outs, nextFile, nextFile + |outputs|)
  {
    FlattenSorted(outputs);
    outs := [];
    for i := 0 to |outputs|
      invariant |outs| == i
      invariant forall j :: 0 <= j < i ==> outs[j].entries == outputs[j] && outs[j].number == nextFile + j
    {
      assert outputs[i] in outputs;
      var f: File := TableFile(nextFile + i, size(i), outputs[i]);
      outs := outs + [f];
    }
    FilesHold(outputs, outs);
  }

  lemma FilesHold(outputs: seq<seq<Entry>>, outs: seq<File>)
    requires SortedEntries(Flatten(outputs)) && |outs| == |outputs|
    requires forall j :: 0 <= j < |outs| ==> outs[j].entries == outputs[j]
    ensures OutputsHold(outs, Flatten(outputs))
  {
    hide Flatten;
    FlattenSorted(outputs);
    assert EntriesOf(outs) == outputs;
    ConcatMembers(outs);
    forall i, j | 0 <= i < j < |outs| ensures Before(outs[i], outs[j]) {
      assert outs[i].entries[|outs[i].entries| - 1] in outputs[i] && outs[j].entries[0] in outputs[j];
    }
  }

  // ----- installing an edit -----

  /** LogAndApply: one edit on the current version. */
  method LogAndApply(v: Version, edit: VersionBuilder.Edit) returns (w: Version)
    requires forall l :: 0 <= l < NUM_LEVELS ==> SortedFiles(v[l])
    requires VersionBuilder.LegalEdit(edit)
    requires forall l :: 0 <= l < NUM_LEVELS ==> VersionBuilder.FreshNumbers(v[l], [], edit, l)
    ensures forall l :: 0 <= l < NUM_LEVELS ==>
              VersionBuilder.Saved(v[l], VersionBuilder.ApplyDeleted({}, edit, l),
                                   VersionBuilder.AddedAt(edit, l), w[l])
  {
    var builder := new VersionBuilder.Builder(v);
    builder.Apply(edit);
    w := builder.SaveTo();
  }

  lemma LevelsSorted(v: Version)
    requires LsmInvariant(v)
    ensures forall l :: 0 <= l < NUM_LEVELS ==> SortedFiles(v[l])
  {
    forall l | 0 <= l < NUM_LEVELS ensures SortedFiles(v[l]) {
      if l > 0 { SortedFromDisjoint(v[l]); }
    }
  }

  /** The edit of a compaction (AddInputDeletions and the new files). */
  function CompactionEdit(level: nat, in0: seq<File>, in1: seq<File>, outs: seq<File>): VersionBuilder.Edit {
    VersionBuilder.Edit((set f | f in in0 :: (level, f.number)) + (set f | f in in1 :: (level + 1, f.number)),
                        seq(|outs|, i requires 0 <= i < |outs| => (level + 1, outs[i])))
  }

  lemma EditLevels(level: nat, in0: seq<File>, in1: seq<File>, outs: seq<File>, l: nat)
    ensures VersionBuilder.AddedAt(CompactionEdit(level, in0, in1, outs), l)
         == if l == level + 1 then VersionBuilder.FileSet(outs) else {}
    ensures VersionBuilder.DeletedAt(CompactionEdit(level, in0, in1, outs), l)
         == if l == level then VersionBuilder.Numbers(VersionBuilder.FileSet(in0))
            else if l == level + 1 then VersionBuilder.Numbers(VersionBuilder.FileSet(in1))
            else {}
  {
    var edit := CompactionEdit(level, in0, in1, outs);
    forall f | f in outs ensures l == level + 1 ==> f in VersionBuilder.AddedAt(edit, l) {
      var i :| 0 <= i < |outs| && outs[i] == f;
      assert edit.added[i] == (level + 1, f);
      assert edit.added[i] in edit.added;
    }
    forall f | f in in0 ensures l == level ==> f.number in VersionBuilder.DeletedAt(edit, l) {
      assert (level, f.number) in edit.deleted;
    }
    forall f | f in in1 ensures l == level + 1 ==> f.number in VersionBuilder.DeletedAt(edit, l) {
      assert (level + 1, f.number) in edit.deleted;
    }
  }

  lemma SavedIsInstalled(v: Version, level: nat, in0: seq<File>, in1: seq<File>, outs: seq<File>, w: Version)
    requires LsmInvariant(v) && level + 1 < NUM_LEVELS
    requires (forall f :: f in in0 ==> f in v[level]) && (forall f :: f in in1 ==> f in v[level + 1])
    requires forall f, o :: f in v[level + 1] && o in outs ==> f.number != o.number
    requires forall l :: 0 <= l < NUM_LEVELS ==>
               VersionBuilder.Saved(v[l], VersionBuilder.ApplyDeleted({}, CompactionEdit(level, in0, in1, outs), l),
                                    VersionBuilder.AddedAt(CompactionEdit(level, in0, in1, outs), l), w[l])
    ensures Installed(v, level, in0, in1, outs, w)
  {
    var edit := CompactionEdit(level, in0, in1, outs);
    forall l | 0 <= l < NUM_LEVELS && l != level && l != level + 1 ensures w[l] == v[l] {
      EditLevels(level, in0, in1, outs, l);
      LevelsSorted(v);
      VersionBuilder.SortedUnique(w[l], v[l]);
    }
    EditLevels(level, in0, in1, outs, level);
    EditLevels(level, in0, in1, outs, level + 1);
    assert VersionBuilder.Saved(v[level], VersionBuilder.ApplyDeleted({}, edit, level),
                                VersionBuilder.AddedAt(edit, level), w[level]);
    forall f | f in v[level] ensures f in in0 <==> f.number in VersionBuilder.Numbers(VersionBuilder.FileSet(in0)) {
      NumberNames(v, level, in0, f);
    }
    forall f | f in v[level + 1] ensures f in in1 <==> f.number in VersionBuilder.Numbers(VersionBuilder.FileSet(in1)) {
      NumberNames(v, level + 1, in1, f);
    }
    assert forall f :: f in v[level + 1] ==> f.number !in VersionBuilder.Numbers(VersionBuilder.FileSet(outs));
  }

  lemma NumberNames(v: Version, l: nat, ins: seq<File>, f: File)
    requires UniqueNumbers(v) && l < NUM_LEVELS && f in v[l] && forall g :: g in ins ==> g in v[l]
    ensures f in ins <==> f.number in VersionBuilder.Numbers(VersionBuilder.FileSet(ins))
  {
    if f.number in VersionBuilder.Numbers(VersionBuilder.FileSet(ins)) {
      var g :| g in VersionBuilder.FileSet(ins) && g.number == f.number;
      assert SameNumber(f, g);
    }
  }

  /** Runs the edit of a compaction or move. */
  method InstallCompaction(v: Version, level: nat, in0: seq<File>, in1: seq<File>, outs: seq<File>) returns (w: Version)
    requires LsmInvariant(v) && ClosedInputs(v, level, in0, in1)
    requires forall f, o :: f in v[level + 1] && o in outs ==> f.number != o.number
    requires forall i, j :: 0 <= i < j < |outs| ==> outs[i].number != outs[j].number
    ensures Installed(v, level, in0, in1, outs, w)
  {
    var edit := CompactionEdit(level, in0, in1, outs);
    LevelsSorted(v);
    forall l | 0 <= l < NUM_LEVELS ensures VersionBuilder.FreshNumbers(v[l], [], edit, l) {
      EditLevels(level, in0, in1, outs, l);
    }
    assert VersionBuilder.LegalEdit(edit);
    w := LogAndApply(v, edit);
    SavedIsInstalled(v, level, in0, in1, outs, w);
  }

  /** Adds one flushed file at a level. */
  method InstallFile(v: Version, level: nat, n: File) returns (w: Version)
    requires LsmInvariant(v) && level < NUM_LEVELS
    requires forall f :: f in v[level] ==> f.number != n.number
    ensures FileAdded(v, level, n, w)
  {
    var edit := VersionBuilder.Edit({}, [(level, n)]);
    LevelsSorted(v);
    assert forall l :: VersionBuilder.AddedAt(edit, l) == if l == level then {n} else {} by {
      assert edit.added[0] in edit.added;
    }
    w := LogAndApply(v, edit);
    forall l | 0 <= l < NUM_LEVELS && l != level ensures w[l] == v[l] {
      VersionBuilder.SortedUnique(w[l], v[l]);
    }
  }

  // ----- PickLevelForMemTableOutput -----

  ghost predicate LevelOverlaps(v: Version, l: nat, b: UserKey, e: UserKey) {
    l < NUM_LEVELS && exists f :: f in v[l] && Overlaps(f, Some(b), Some(e))
  }

  /** The deepest level, up to 2, such that no file from level 0 down to it
      overlaps [b, e] and no level it stops above holds too many bytes. */
  method PickLevelForMemTableOutput(v: Version, b: UserKey, e: UserKey, maxFileSize: nat) returns (level: nat)
    requires LsmInvariant(v)
    ensures level <= MAX_MEM_COMPACT_LEVEL
    ensures level > 0 ==> forall l :: 0 <= l <= level ==> !LevelOverlaps(v, l, b, e)
    ensures forall m :: 2 <= m < level + 2 ==> TotalFileSize(FilterOverlap(v[m], Some(b), Some(e))) <= 10 * maxFileSize
    ensures level < MAX_MEM_COMPACT_LEVEL ==>
              || LevelOverlaps(v, 0, b, e) || LevelOverlaps(v, level + 1, b, e)
              || TotalFileSize(FilterOverlap(v[level + 2], Some(b), Some(e))) > 10 * maxFileSize
  {
    hide TotalFileSize, FilterOverlap, SortedFiles, NewerThan;
    level := 0;
    var overlap := SomeFileOverlapsRange(false, v[0], Some(b), Some(e));
    if !overlap {
      while level < MAX_MEM_COMPACT_LEVEL
        invariant level <= MAX_MEM_COMPACT_LEVEL
        invariant forall l :: 0 <= l <= level ==> !LevelOverlaps(v, l, b, e)
        invariant forall m :: 2 <= m < level + 2 ==>
                    TotalFileSize(FilterOverlap(v[m], Some(b), Some(e))) <= 10 * maxFileSize
      {
        overlap := SomeFileOverlapsRange(true, v[level + 1], Some(b), Some(e));
        if overlap {
          break;
        }
        if level + 2 < NUM_LEVELS {
          var overlaps, _, _ := GetOverlappingInputs(v[level + 2], false, Some(b), Some(e));
          if TotalFileSize(overlaps) > 10 * maxFileSize {
            break;
          }
        }
        level := level + 1;
      }
    }
  }

  // ----- reads -----

  lemma UpperHit(upper: set<Entry>, lower: set<Entry>, k: UserKey, s: SequenceNumber, e: Entry)
    requires UniqueSequences(upper + lower) && Layer(upper, lower) && NewestAt(upper, k, s, e)
    ensures Lookup(upper + lower, k, s) == Answer(e)
  {
    assert NewestAt(upper + lower, k, s, e);
    LookupNewest(upper + lower, k, s, e);
  }

  lemma UpperMiss(upper: set<Entry>, lower: set<Entry>, k: UserKey, s: SequenceNumber)
    requires UniqueSequences(upper + lower)
    requires forall e :: e in upper && e.key.user == k ==> s < e.key.sequence
    ensures Lookup(upper + lower, k, s) == Lookup(lower, k, s)
  {
    if x :| x in lower && x.key.user == k && x.key.sequence <= s {
      var e := NewestExists(lower, k, s, x);
      assert NewestAt(upper + lower, k, s, e);
      LookupNewest(lower, k, s, e);
      LookupNewest(upper + lower, k, s, e);
    } else {
      LookupNothing(lower, k, s);
      LookupNothing(upper + lower, k, s);
    }
  }

  lemma {:induction false} WroteSnoc(st: State, batch: seq<Op>, mid: State, op: Op)
    requires Wrote(st, batch, mid) && SortedEntries(mid.mem) && mid.lastSequence + 1 < MAX_SEQUENCE
    ensures Wrote(st, batch + [op], WriteOne(mid, op))
    decreases |batch|
  {
    if batch == [] {
      assert Wrote(WriteOne(mid, op), [], WriteOne(mid, op));
      assert ([] + [op])[1..] == [];
    } else {
      WroteSnoc(WriteOne(st, batch[0]), batch[1..], mid, op);
      assert (batch + [op])[1..] == batch[1..] + [op];
    }
  }

  lemma WrotePrefix(st: State, batch: seq<Op>, i: nat, mid: State)
    requires i < |batch| && Wrote(st, batch[..i], mid) && SortedEntries(mid.mem) && mid.lastSequence + 1 < MAX_SEQUENCE
    ensures Wrote(st, batch[..i + 1], WriteOne(mid, batch[i]))
  {
    WroteSnoc(st, batch[..i], mid, batch[i]);
    assert batch[..i + 1] == batch[..i] + [batch[i]];
  }

  lemma WholeBatch(batch: seq<Op>)
    ensures batch[..|batch|] == batch
  {
  }

  lemma FreeLevel(v: Version, level: nat, n: File)
    requires level < NUM_LEVELS
    requires level > 0 ==> forall l :: 0 <= l <= level ==> !LevelOverlaps(v, l, Smallest(n).user, Largest(n).user)
    ensures LevelFree(v, level, n)
  {
    forall l, f | level > 0 && 0 <= l <= level && f in v[l]
      ensures !Overlaps(f, Some(Smallest(n).user), Some(Largest(n).user))
    {
      assert !LevelOverlaps(v, l, Smallest(n).user, Largest(n).user);
    }
  }

  lemma EmptyFlush(st: State, st2: State)
    requires Inv(st) && st.imm == Some([]) && st2 == st.(imm := None)
    ensures Inv(st2) && exists level: nat, n: File :: Flushed(st, level, n, st2)
  {
    var n: File := TableFile(st.nextFile, 0, [Entry(InternalKey(0.0, 0, TypeDeletion), "")]);
    assert Flushed(st, 0, n, st2);
    FlushedInv(st, 0, n, st2);
  }

  // ----- the file work of a step -----

  /** WriteLevel0Table and LogAndApply: a new file at the level picked for it. */
  method FlushFile(ghost st: State, version: Version, n: File, maxFileSize: nat) returns (w: Version, ghost level: nat)
    requires Inv(st) && version == st.version && st.imm == Some(n.entries) && n.number == st.nextFile
    ensures var st2 := st.(imm := None, version := w, nextFile := st.nextFile + 1);
            Flushed(st, level, n, st2) && Inv(st2)
  {
    var to := PickLevelForMemTableOutput(version, Smallest(n).user, Largest(n).user, maxFileSize);
    level := to;
    FreeLevel(version, level, n);
    w := InstallFile(version, to, n);
    ghost var st2 := st.(imm := None, version := w, nextFile := st.nextFile + 1);
    assert Flushed(st, level, n, st2);
    FlushedInv(st, level, n, st2);
  }

  /** DoCompactionWork and InstallCompactionResults on chosen inputs. */
  method CompactFiles(ghost st: State, version: Version, nextFile: nat, level: nat, in0: seq<File>, in1: seq<File>,
                      smallest: SequenceNumber, stopBefore: nat -> bool, full: nat -> bool, size: nat -> nat)
    returns (w: Version, next: nat, ghost job: Job)
    requires Inv(st) && version == st.version && nextFile == st.nextFile && smallest == Oldest(st)
    requires ClosedInputs(version, level, in0, in1)
    ensures var st2 := st.(version := w, nextFile := next);
            Compacted(st, job, st2) && Inv(st2) && (job.level, job.in0, job.in1) == (level, in0, in1)
  {
    var input := ReadInput(version, level, in0, in1);
    var c := new Compaction(version, level);
    var outputs := DoCompactionWork(c, input, smallest, stopBefore, full);
    KeptSorted(version, level, input, smallest, |input|);
    var outs := MakeFiles(outputs, nextFile, size);
    w := InstallCompaction(version, level, in0, in1, outs);
    next := nextFile + |outputs|;
    job := Job(level, in0, in1, input, outs);
    ghost var st2 := st.(version := w, nextFile := next);
    assert Compacted(st, job, st2);
    CompactedInv(st, job, st2);
  }

  /** A move of one file down a level. */
  method MoveFile(ghost st: State, version: Version, level: nat, f: File) returns (w: Version)
    requires Inv(st) && version == st.version && ClosedInputs(version, level, [f], [])
    ensures var st2 := st.(version := w);
            Moved(st, level, f, st2) && Inv(st2)
  {
    forall g | g in version[level + 1] ensures g.number != f.number {
      assert f in version[level] && !SameNumber(f, g);
    }
    w := InstallCompaction(version, level, [f], [], [f]);
    ghost var st2 := st.(version := w);
    assert Moved(st, level, f, st2);
    MovedInv(st, level, f, st2);
  }

  /** Compaction::IsTrivialMove. */
  predicate IsTrivialMove(c: Inputs, maxFileSize: nat) {
    |c.in0| == 1 && |c.in1| == 0 && TotalFileSize(c.grandparents) <= 10 * maxFileSize
  }

  /** A picked file is moved when it has nothing to merge with and little below,
      and is compacted with its inputs otherwise. */
  ghost predicate PickedStep(st: State, c: Inputs, f: File, maxFileSize: nat, st2: State) {
    && f in c.in0
    && if c.in0 == [f] && c.in1 == [] && LittleBelow(st.version, c.level, f, 10 * maxFileSize) then
         Moved(st, c.level, f, st2)
       else exists job :: Compacted(st, job, st2) && (job.level, job.in0, job.in1) == (c.level, c.in0, c.in1)
  }

  /** The files two levels down that meet the range of f hold no more than limit bytes. */
  ghost predicate LittleBelow(v: Version, level: nat, f: File, limit: nat) {
    level + 2 < NUM_LEVELS ==>
      TotalFileSize(FilterOverlap(v[level + 2], Some(Smallest(f).user), Some(Largest(f).user))) <= limit
  }

  /** What IsTrivialMove decides. */
  lemma TrivialMoveMeans(v: Version, c: Inputs, f: File, maxFileSize: nat)
    requires f in c.in0 && c.grandparents == Grandparents(v, c.level, c.in0, c.in1)
    ensures IsTrivialMove(c, maxFileSize) <==>
              c.in0 == [f] && c.in1 == [] && LittleBelow(v, c.level, f, 10 * maxFileSize)
  {
    hide FilterOverlap;
    if |c.in0| == 1 && c.in1 == [] {
      assert c.in0 == [f] && c.in0 + c.in1 == [f];
    }
  }

  /** The next compaction of the level starts past the greatest key of these files; the
      other levels go on where they were. */
  ghost predicate PointerMoved(before: seq<Option<InternalKey>>, after: seq<Option<InternalKey>>, level: nat,
                               in0: seq<File>) {
    && level < |before| == |after| && (forall l :: 0 <= l < |before| && l != level ==> after[l] == before[l])
    && after[level].Some? && (exists f :: f in in0 && after[level].value == Largest(f))
    && (forall f :: f in in0 ==> AtMost(Largest(f), after[level].value))
  }

  lemma OfInv(st: State)
    requires Inv(st)
    ensures LsmInvariant(st.version)
  {
  }

  lemma ClosedNotEmpty(v: Version, level: nat, in0: seq<File>, in1: seq<File>)
    requires ClosedInputs(v, level, in0, in1)
    ensures in0 != []
  {
  }

  lemma LargestMoves(before: seq<Option<InternalKey>>, level: nat, in0: seq<File>)
    requires level < |before| && in0 != []
    ensures PointerMoved(before, before[level := Some(LargestOf(in0))], level, in0)
  {
    var i := LargestOfGreatest(in0);
    assert in0[i] in in0;
    forall f | f in in0 ensures AtMost(Largest(f), LargestOf(in0)) {
      var j :| 0 <= j < |in0| && in0[j] == f;
    }
  }

  // ----- the layers of a read -----

  /** The first layer with an entry for the key answers, and the files do when no
      memtable has one. */
  lemma ReadLayers(st: State, k: UserKey, s: SequenceNumber)
    requires Inv(st) && Oldest(st) <= s <= |st.history|
    ensures var answer := ReadMap(MapAsOf(st.history, s), k);
            var hit := ListGet(st.mem, k, s);
            if hit.Some? then Answer(hit.value) == answer
            else if st.imm.Some? && ListGet(st.imm.value, k, s).Some? then
              Answer(ListGet(st.imm.value, k, s).value) == answer
            else Lookup(AllEntries(st.version), k, s) == answer
  {
    hide ListGet;
    var below, files := ImmEntries(st.imm) + AllEntries(st.version), AllEntries(st.version);
    HeldUnique(st);
    assert Held(st) == EntrySet(st.mem) + below;
    ListGetCorrect(st.mem, k, s);
    var hit := ListGet(st.mem, k, s);
    if hit.Some? {
      UpperHit(EntrySet(st.mem), below, k, s, hit.value);
    } else {
      UpperMiss(EntrySet(st.mem), below, k, s);
      if st.imm.Some? {
        ListGetCorrect(st.imm.value, k, s);
        hit := ListGet(st.imm.value, k, s);
        if hit.Some? {
          UpperHit(EntrySet(st.imm.value), files, k, s, hit.value);
        } else {
          UpperMiss(EntrySet(st.imm.value), files, k, s);
        }
      } else {
        assert below == files;
      }
    }
  }

  /** The objects of a database: two memtables over skip lists, the current
      version, and the list of snapshots. */
  class DB {
    const maxFileSize: nat
    /** What the skip lists' random generator gives. */
    const random: nat -> nat
    const snapshots: SnapshotList
    var mem: MemTable
    var imm: MemTable?
    var version: Version
    var lastSequence: SequenceNumber
    var nextFile: nat
    /** Where the next compaction of each level starts. */
    var pointers: seq<Option<InternalKey>>
    ghost var memView: seq<Entry>
    ghost var immView: Option<seq<Entry>>
    ghost var held: seq<SequenceNumber>
    ghost var history: seq<Entry>

    ghost function View(): State
      reads this
    {
      State(memView, immView, version, lastSequence, nextFile, held, history)
    }

    ghost function Parts(): set<object>
      reads this
    {
      {this, snapshots, mem, mem.table} + if imm == null then {} else {imm, imm.table}
    }

    /** The objects hold what the state says. */
    ghost predicate Valid()
      reads this, Parts()
    {
      && mem.Valid() && mem.entries == memView
      && (if imm == null then immView == None
          else imm.Valid() && immView == Some(imm.entries) && imm != mem && imm.table != mem.table)
      && snapshots.Valid() && snapshots.Held() == held && |pointers| == NUM_LEVELS
    }

    constructor (maxFileSize: nat, random: nat -> nat)
      ensures Valid() && Init(View()) && Inv(View()) && fresh(Parts())
    {
      this.maxFileSize, this.random := maxFileSize, random;
      snapshots := new SnapshotList();
      mem := new MemTable();
      imm := null;
      version, lastSequence, nextFile := seq(NUM_LEVELS, _ => []), 0, 2;
      pointers := seq(NUM_LEVELS, _ => None);
      memView, immView, held, history := [], None, [], [];
      new;
      InitInv(View());
    }

    /** A database opened on the files of a manifest, before its log is replayed. */
    constructor Opened(maxFileSize: nat, random: nat -> nat, version: Version, lastSequence: SequenceNumber,
                       nextFile: nat, ghost history: seq<Entry>)
      ensures Valid() && View() == State([], None, version, lastSequence, nextFile, [], history) && fresh(Parts())
    {
      this.maxFileSize, this.random := maxFileSize, random;
      snapshots := new SnapshotList();
      mem := new MemTable();
      imm := null;
      this.version, this.lastSequence, this.nextFile := version, lastSequence, nextFile;
      pointers := seq(NUM_LEVELS, _ => None);
      memView, immView, held, this.history := [], None, [], history;
    }

    /** MemTableInserter: one operation of a batch. */
    method Insert(op: Op)
      requires Valid() && Inv(View()) && lastSequence + 1 < MAX_SEQUENCE
      modifies `lastSequence, `memView, `history, mem, mem.table
      ensures Valid() && View() == WriteOne(old(View()), op) && Inv(View())
      ensures MapAsOf(history, |history|) == ApplyOp(old(MapAsOf(history, |history|)), op)
    {
      hide MemTable.Valid, SnapshotList.Valid, InsertEntry, MapAsOf, ApplyOp;
      WriteOneMap(View(), op);
      NewKey(View(), op);
      WriteOneInv(View(), op);
      var e := EntryFor(op, lastSequence + 1);
      mem.Add(e, random(lastSequence));
      memView, lastSequence, history := mem.entries, lastSequence + 1, history + [e];
    }

    /** Write: the batch gets the next sequence numbers, in order. */
    method Write(batch: seq<Op>)
      requires Valid() && Inv(View()) && lastSequence + |batch| < MAX_SEQUENCE
      modifies `lastSequence, `memView, `history, mem, mem.table
      ensures Valid() && Wrote(old(View()), batch, View()) && Inv(View())
      ensures MapAsOf(history, |history|) == ApplyOps(old(MapAsOf(history, |history|)), batch)
    {
      hide Valid, MapAsOf, ApplyOps;
      ghost var start := View();
      for i := 0 to |batch|
        invariant Valid() && Inv(View()) && lastSequence + |batch| - i < MAX_SEQUENCE
        invariant Wrote(start, batch[..i], View())
      {
        WrotePrefix(start, batch, i, View());
        Insert(batch[i]);
      }
      WholeBatch(batch);
      WroteMap(start, batch, View());
    }

    method SwitchMemTable()
      requires Valid() && Inv(View()) && imm == null
      modifies this
      ensures Valid() && Switched(old(View()), View()) && Inv(View()) && fresh(Parts() - old(Parts()))
    {
      hide MemTable.Valid, SnapshotList.Valid, Inv;
      ghost var before := View();
      imm := mem;
      mem := new MemTable();
      immView, memView, nextFile := Some(memView), [], nextFile + 1;
      SwitchedInv(before, View());
    }

    /** WriteLevel0Table and LogAndApply for a memtable that is not empty. */
    method FlushTable(n: File)
      requires Valid() && Inv(View()) && imm != null && n.entries == imm.entries && n.number == nextFile
      modifies this
      ensures Valid() && Inv(View()) && Parts() <= old(Parts()) && pointers == old(pointers)
      ensures exists level: nat :: Flushed(old(View()), level, n, View())
    {
      hide MemTable.Valid, SnapshotList.Valid, Inv, Flushed;
      ghost var level;
      version, level := FlushFile(View(), version, n, maxFileSize);
      imm, immView, nextFile := null, None, nextFile + 1;
    }

    /** CompactMemTable; size is the size of the table built. */
    method CompactMemTable(size: nat)
      requires Valid() && Inv(View()) && imm != null
      modifies this
      ensures Valid() && Inv(View()) && Parts() <= old(Parts()) && pointers == old(pointers)
      ensures exists level: nat, n: File :: Flushed(old(View()), level, n, View())
    {
      hide MemTable.Valid, SnapshotList.Valid;
      ghost var before := View();
      var entries := imm.Contents();
      if entries == [] {
        imm, immView := null, None;
        EmptyFlush(before, View());
      } else {
        var n: File := TableFile(nextFile, size, entries);
        FlushTable(n);
      }
    }

    /** The oldest snapshot, or the last sequence number when there is none. */
    method SmallestSnapshot() returns (s: SequenceNumber)
      requires Valid()
      ensures s == Oldest(View())
    {
      if snapshots.Empty() {
        s := lastSequence;
      } else {
        s := snapshots.sequences[snapshots.Oldest()];
      }
    }

    /** DoCompactionWork on chosen inputs, then InstallCompactionResults. */
    method Compact(level: nat, in0: seq<File>, in1: seq<File>,
                   stopBefore: nat -> bool, full: nat -> bool, size: nat -> nat) returns (ghost job: Job)
      requires Valid() && Inv(View()) && ClosedInputs(version, level, in0, in1)
      modifies `version, `nextFile
      ensures Valid() && Inv(View()) && Compacted(old(View()), job, View())
      ensures (job.level, job.in0, job.in1) == (level, in0, in1)
    {
      hide MemTable.Valid, SnapshotList.Valid, Inv, Compacted, ClosedInputs;
      var smallest := SmallestSnapshot();
      version, nextFile, job := CompactFiles(View(), version, nextFile, level, in0, in1, smallest,
                                             stopBefore, full, size);
    }

    /** The automatic path of BackgroundCompaction: the immutable memtable if there
        is one, else a picked compaction, done as a move when one file has nothing
        to merge with and little below it. `seek` is a file that used up its seeks. */
    method BackgroundCompaction(seek: Option<(nat, File)>, stopBefore: nat -> bool, full: nat -> bool, size: nat -> nat)
      requires Valid() && Inv(View())
      requires seek.Some? ==> seek.value.0 + 1 < NUM_LEVELS && seek.value.1 in version[seek.value.0]
      modifies this
      ensures Valid() && Inv(View())
      ensures old(imm) != null ==> exists level: nat, n: File :: Flushed(old(View()), level, n, View())
      ensures old(imm) == null && !old(Due(version)) && seek.None? ==> View() == old(View())
      ensures old(imm) != null || (!old(Due(version)) && seek.None?) ==> pointers == old(pointers)
      ensures old(imm) == null && (old(Due(version)) || seek.Some?) ==>
                exists c: Inputs, f: File ::
                  && Picked(old(version), old(pointers), seek, c.level, f)
                  && PickedStep(old(View()), c, f, maxFileSize, View())
                  && PointerMoved(old(pointers), pointers, c.level, c.in0)
    {
      hide MemTable.Valid, SnapshotList.Valid, Compacted, ClosedInputs, Moved, Flushed, ReadsExact, Layered;
      hide Recorded, Picked, Due, Grandparents, PointerMoved, LittleBelow, LargestOf;
      if imm != null {
        CompactMemTable(size(0));
        return;
      }
      var c, f := PickCompaction(version, pointers, seek, maxFileSize);
      if c.None? {
        return;
      }
      var level, in0, in1 := c.value.level, c.value.in0, c.value.in1;
      ClosedNotEmpty(version, level, in0, in1);
      LargestMoves(pointers, level, in0);
      TrivialMoveMeans(version, c.value, f.value, maxFileSize);
      pointers := pointers[level := Some(c.value.pointer)];
      if IsTrivialMove(c.value, maxFileSize) {
        assert in0 == [in0[0]] && in1 == [];
        version := MoveFile(View(), version, level, in0[0]);
      } else {
        ghost var job := Compact(level, in0, in1, stopBefore, full, size);
      }
    }

    /** A manual compaction of [begin, end]; nothing happens when no file meets it. */
    method ManualCompaction(level: nat, begin: Option<InternalKey>, end: Option<InternalKey>,
                            stopBefore: nat -> bool, full: nat -> bool, size: nat -> nat) returns (done: bool)
      requires Valid() && Inv(View()) && level + 1 < NUM_LEVELS
      modifies `version, `nextFile, `pointers
      ensures Valid() && Inv(View())
      ensures done ==> pointers == old(pointers)
      ensures done <==> forall f :: f in old(version[level]) ==> !Overlaps(f, UserOf(begin), UserOf(end))
      ensures if done then View() == old(View())
              else exists job ::
                     && Compacted(old(View()), job, View()) && job.level == level
                     && PointerMoved(old(pointers), pointers, level, job.in0)
    {
      hide MemTable.Valid, SnapshotList.Valid, Inv, Compacted, ClosedInputs, PointerMoved, LargestOf;
      OfInv(View());
      var c, _ := CompactRange(version, level, begin, end, maxFileSize);
      done := c.None?;
      if c.Some? {
        ClosedNotEmpty(version, level, c.value.in0, c.value.in1);
        LargestMoves(pointers, level, c.value.in0);
        pointers := pointers[level := Some(c.value.pointer)];
        ghost var job := Compact(level, c.value.in0, c.value.in1, stopBefore, full, size);
      }
    }

    /** The handle of a new snapshot. */
    method GetSnapshot() returns (x: nat)
      requires Valid() && Inv(View())
      modifies `held, snapshots
      ensures Valid() && TookSnapshot(old(View()), View()) && Inv(View())
      ensures x in snapshots.items && x < |snapshots.sequences| && snapshots.sequences[x] == lastSequence
    {
      hide MemTable.Valid, Inv;
      ghost var before := View();
      NewestHeld();
      x := snapshots.New(lastSequence);
      held := snapshots.Held();
      TookSnapshotInv(before, View());
    }

    method ReleaseSnapshot(x: nat)
      requires Valid() && Inv(View()) && x in snapshots.items
      modifies `held, snapshots
      ensures Valid() && Inv(View()) && exists i: nat :: ReleasedSnapshot(old(View()), i, View())
    {
      hide MemTable.Valid, Inv;
      ghost var before := View();
      ghost var i := snapshots.Delete(x);
      held := snapshots.Held();
      assert ReleasedSnapshot(before, i, View());
      ReleasedSnapshotInv(before, i, View());
    }

    lemma NewestHeld()
      requires Valid() && Inv(View())
      ensures snapshots.items != [] ==> snapshots.sequences[snapshots.Newest()] <= lastSequence
    {
      if snapshots.items != [] {
        var x := snapshots.Newest();
        var i :| 0 <= i < |snapshots.items| && snapshots.items[i] == x;
        assert held[i] in held;
      }
    }

    /** The sequence number that a read is asked for. */
    method SequenceFor(snapshot: Option<nat>) returns (s: SequenceNumber)
      requires Valid() && Inv(View()) && (snapshot.Some? ==> snapshot.value in snapshots.items)
      ensures Oldest(View()) <= s <= |history| && (s in held || s == lastSequence)
      ensures s == if snapshot.Some? then snapshots.sequences[snapshot.value] else lastSequence
    {
      OldestInPast(View());
      if snapshot.Some? {
        s := snapshots.sequences[snapshot.value];
        ghost var i :| 0 <= i < |snapshots.items| && snapshots.items[i] == snapshot.value;
        assert held[i] == s && s in held;
        OldestFirst(View(), s);
      } else {
        s := lastSequence;
      }
    }

    /** Get: memtable, then immutable memtable, then the version; the answer is
        the map as of the snapshot. */
    method Get(k: UserKey, snapshot: Option<nat>) returns (r: Option<string>)
      requires Valid() && Inv(View()) && (snapshot.Some? ==> snapshot.value in snapshots.items)
      ensures snapshot.None? ==> r == ReadMap(MapAsOf(history, |history|), k)
      ensures snapshot.Some? ==>
                && snapshots.sequences[snapshot.value] <= |history|
                && r == ReadMap(MapAsOf(history, snapshots.sequences[snapshot.value]), k)
    {
      hide MemTable.Valid, SnapshotList.Valid, ListGet, MapAsOf, ReadsExact, Layered, Recorded;
      var s := SequenceFor(snapshot);
      ReadLayers(View(), k, s);
      var hit := mem.Get(k, s);
      if hit.Some? {
        return Answer(hit.value);
      }
      if imm != null {
        hit := imm.Get(k, s);
        if hit.Some? {
          return Answer(hit.value);
        }
      }
      r := Versions.Get(version, k, s);
    }
  }
}
