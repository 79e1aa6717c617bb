/** VersionSet::Builder (db/version_set.cc): applying version edits, and the
    replay of a whole manifest by one builder. */
module VersionBuilder {
  import opened DbFormat
  import opened Versions

  /** The file changes of a VersionEdit. */
  datatype Edit = Edit(deleted: set<(nat, nat)>, added: seq<(nat, File)>)

  ghost predicate LegalEdit(edit: Edit) {
    && (forall d :: d in edit.deleted ==> d.0 < NUM_LEVELS)
    && (forall a :: a in edit.added ==> a.0 < NUM_LEVELS)
  }

  ghost function DeletedAt(edit: Edit, l: nat): set<nat> {
    set d | d in edit.deleted && d.0 == l :: d.1
  }

  ghost function AddedAt(edit: Edit, l: nat): set<File> {
    set a | a in edit.added && a.0 == l :: a.1
  }

  ghost function Numbers(files: set<File>): set<nat> {
    set f | f in files :: f.number
  }

  /** What a builder remembers for one level. */
  datatype LevelState = LevelState(deleted: set<nat>, added: seq<File>)

  ghost function FileSet(files: seq<File>): set<File> {
    set f | f in files
  }

  /** std::set::insert under BySmallestKey. */
  function InsertFile(files: seq<File>, f: File): seq<File> {
    if files == [] || BySmallest(f, files[0]) then [f] + files
    else if BySmallest(files[0], f) then [files[0]] + InsertFile(files[1..], f)
    else files
  }

  lemma {:induction false} InsertFileMembers(files: seq<File>, f: File)
    requires forall g :: g in files && g.number == f.number ==> g == f
    ensures forall g :: g in InsertFile(files, f) <==> g in files || g == f
  {
    if files != [] {
      assert files == [files[0]] + files[1..];
      InsertFileMembers(files[1..], f);
    }
  }

  lemma {:induction false} InsertFileSorted(files: seq<File>, f: File)
    requires SortedFiles(files)
    requires forall g :: g in files && g.number == f.number ==> g == f
    ensures SortedFiles(InsertFile(files, f))
  {
    if files == [] {
    } else if BySmallest(f, files[0]) {
      var r := [f] + files;
      forall i, j | 0 <= i < j < |r| ensures BySmallest(r[i], r[j]) {
        if i > 0 { assert BySmallest(files[i - 1], files[j - 1]); }
        if i == 0 && j > 1 { assert BySmallest(files[0], files[j - 1]); }
      }
    } else if BySmallest(files[0], f) {
      SortedTail(files);
      InsertFileSorted(files[1..], f);
      InsertFileMembers(files[1..], f);
      var t := InsertFile(files[1..], f);
      forall g | g in t ensures BySmallest(files[0], g) {
        TailAbove(files, f, g);
      }
      forall i, j | 0 <= i < j < |[files[0]] + t| ensures BySmallest(([files[0]] + t)[i], ([files[0]] + t)[j]) {
        if i > 0 { assert BySmallest(t[i - 1], t[j - 1]); }
      }
    }
  }

  lemma TailAbove(files: seq<File>, f: File, g: File)
    requires SortedFiles(files) && files != [] && BySmallest(files[0], f)
    requires g in files[1..] || g == f
    ensures BySmallest(files[0], g)
  {
    if g in files[1..] {
      var m :| 0 <= m < |files[1..]| && files[1..][m] == g;
      assert BySmallest(files[0], files[m + 1]);
    }
  }

  lemma SortedTail(files: seq<File>)
    requires SortedFiles(files) && files != []
    ensures SortedFiles(files[1..])
  {
    forall i, j | 0 <= i < j < |files[1..]| ensures BySmallest(files[1..][i], files[1..][j]) {
      assert BySmallest(files[i + 1], files[j + 1]);
    }
  }

  /** The saved file list of a level: sorted, and exactly the old and added
      files that are not deleted. */
  ghost predicate Saved(base: seq<File>, deleted: set<nat>, added: set<File>, out: seq<File>) {
    && SortedFiles(out)
    && forall f :: f in out <==> (f in base || f in added) && f.number !in deleted
  }

  /** A level list is determined by its set of files. */
  lemma {:induction false} SortedUnique(a: seq<File>, b: seq<File>)
    requires SortedFiles(a) && SortedFiles(b)
    requires forall f :: f in a <==> f in b
    ensures a == b
  {
    if b != [] {
      assert b[0] in a;
    }
    if a != [] {
      assert a[0] in b;
      var i :| 0 <= i < |b| && b[i] == a[0];
      var j :| 0 <= j < |a| && a[j] == b[0];
      assert a[0] == b[0] by {
        assert i > 0 ==> BySmallest(b[0], b[i]);
        assert j > 0 ==> BySmallest(a[0], a[j]);
      }
      SortedTail(a);
      SortedTail(b);
      forall f ensures f in a[1..] <==> f in b[1..] {
        TailMember(a, f);
        TailMember(b, f);
      }
      SortedUnique(a[1..], b[1..]);
      assert a == [a[0]] + a[1..] && b == [b[0]] + b[1..];
    }
  }

  lemma TailMember(files: seq<File>, f: File)
    requires SortedFiles(files) && files != []
    ensures f in files[1..] <==> f in files && f != files[0]
  {
    if f in files[1..] {
      var i :| 0 <= i < |files[1..]| && files[1..][i] == f;
      assert BySmallest(files[0], files[i + 1]);
    }
  }

  // ----- SaveTo -----

  /** std::upper_bound over base[from..]. */
  method UpperBound(base: seq<File>, from: nat, f: File) returns (pos: nat)
    requires SortedFiles(base) && from <= |base|
    ensures from <= pos <= |base|
    ensures forall i :: from <= i < pos ==> !BySmallest(f, base[i])
    ensures pos < |base| ==> BySmallest(f, base[pos])
  {
    pos := from;
    while pos < |base| && !BySmallest(f, base[pos])
      invariant from <= pos <= |base|
      invariant forall i :: from <= i < pos ==> !BySmallest(f, base[i])
    {
      pos := pos + 1;
    }
  }

  /** Everything in `out` sorts before f. */
  ghost predicate AllBelow(out: seq<File>, f: File) {
    forall g :: g in out ==> BySmallest(g, f)
  }

  /** MaybeAddFile. */
  function MaybeAddFile(out: seq<File>, deleted: set<nat>, f: File): seq<File> {
    if f.number in deleted then out else out + [f]
  }

  lemma MaybeAddSorted(out: seq<File>, deleted: set<nat>, f: File)
    requires SortedFiles(out) && AllBelow(out, f)
    ensures SortedFiles(MaybeAddFile(out, deleted, f))
    ensures forall g :: g in MaybeAddFile(out, deleted, f) <==> g in out || (g == f && f.number !in deleted)
  {
    var r := MaybeAddFile(out, deleted, f);
    forall i, j | 0 <= i < j < |r| ensures BySmallest(r[i], r[j]) {
      if j < |out| { assert BySmallest(out[i], out[j]); } else { assert out[i] in out; }
    }
  }

  /** Adds base[from..to] to out. */
  method AddRun(out: seq<File>, deleted: set<nat>, base: seq<File>, from: nat, to: nat) returns (r: seq<File>)
    requires SortedFiles(base) && from <= to <= |base|
    requires SortedFiles(out) && forall i :: from <= i < to ==> AllBelow(out, base[i])
    ensures SortedFiles(r)
    ensures forall g :: g in r <==> g in out || (g in base[from..to] && g.number !in deleted)
  {
    r := out;
    for i := from to to
      invariant SortedFiles(r)
      invariant forall g :: g in r <==> g in out || (g in base[from..i] && g.number !in deleted)
    {
      forall g | g in r ensures BySmallest(g, base[i]) {
        if g !in out {
          var j :| from <= j < i && base[j] == g;
          assert BySmallest(base[j], base[i]);
        } else {
          assert AllBelow(out, base[i]);
        }
      }
      MaybeAddSorted(r, deleted, base[i]);
      r := MaybeAddFile(r, deleted, base[i]);
      assert base[from..i + 1] == base[from..i] + [base[i]];
    }
  }

  ghost predicate DistinctNumbers(base: seq<File>, added: seq<File>) {
    forall f, g :: f in base && g in added ==> f.number != g.number
  }

  /** State of the merge after base[..at] and added[..n]. */
  ghost predicate Merged(base: seq<File>, deleted: set<nat>, added: seq<File>, out: seq<File>, at: nat, n: nat) {
    && at <= |base| && n <= |added|
    && SortedFiles(out)
    && (forall f :: f in out <==> (f in base[..at] || f in added[..n]) && f.number !in deleted)
    && (n > 0 && at < |base| ==> BySmallest(added[n - 1], base[at]))
    && (n < |added| ==> forall i :: 0 <= i < at ==> BySmallest(base[i], added[n]))
  }

  /** One added file, after all smaller files of the base. */
  method SaveAdded(base: seq<File>, deleted: set<nat>, added: seq<File>, out: seq<File>, at: nat, n: nat)
    returns (r: seq<File>, pos: nat)
    requires SortedFiles(base) && SortedFiles(added) && DistinctNumbers(base, added)
    requires n < |added| && Merged(base, deleted, added, out, at, n)
    ensures Merged(base, deleted, added, r, pos, n + 1)
  {
    var f := added[n];
    pos := UpperBound(base, at, f);
    forall i | at <= i < pos ensures AllBelow(out, base[i]) {
      RunAbove(base, added, out, at, n, i);
    }
    var more := AddRun(out, deleted, base, at, pos);
    assert base[..pos] == base[..at] + base[at..pos];
    forall g | g in more ensures BySmallest(g, f) {
      AddedAbove(base, added, at, n, pos, g);
    }
    MaybeAddSorted(more, deleted, f);
    r := MaybeAddFile(more, deleted, f);
    assert added[..n + 1] == added[..n] + [f];
    if n + 1 < |added| {
      forall i | 0 <= i < pos ensures BySmallest(base[i], added[n + 1]) {
        assert BySmallest(f, added[n + 1]);
        AddedAbove(base, added, at, n, pos, base[i]);
      }
    }
  }

  /** Builder::SaveTo for one level. */
  method SaveLevel(base: seq<File>, deleted: set<nat>, added: seq<File>) returns (out: seq<File>)
    requires SortedFiles(base) && SortedFiles(added) && DistinctNumbers(base, added)
    ensures Saved(base, deleted, FileSet(added), out)
  {
    out := [];
    var at: nat := 0;
    for n := 0 to |added|
      invariant Merged(base, deleted, added, out, at, n)
    {
      out, at := SaveAdded(base, deleted, added, out, at, n);
    }
    assert added[..|added|] == added;
    forall i | at <= i < |base| ensures AllBelow(out, base[i]) {
      RunAbove(base, added, out, at, |added|, i);
    }
    out := AddRun(out, deleted, base, at, |base|);
    assert base == base[..at] + base[at..];
  }

  lemma RunAbove(base: seq<File>, added: seq<File>, out: seq<File>, at: nat, n: nat, i: nat)
    requires SortedFiles(base) && SortedFiles(added) && at <= i < |base| && n <= |added|
    requires forall f :: f in out ==> f in base[..at] || f in added[..n]
    requires n > 0 ==> BySmallest(added[n - 1], base[at])
    ensures AllBelow(out, base[i])
  {
    forall g | g in out ensures BySmallest(g, base[i]) {
      if g in base[..at] {
        var j :| 0 <= j < at && base[j] == g;
        assert BySmallest(base[j], base[i]);
      } else {
        var j :| 0 <= j < n && added[j] == g;
        assert j < n - 1 ==> BySmallest(added[j], added[n - 1]);
        assert at < i ==> BySmallest(base[at], base[i]);
      }
    }
  }

  lemma AddedAbove(base: seq<File>, added: seq<File>, at: nat, n: nat, pos: nat, g: File)
    requires SortedFiles(added) && at <= pos <= |base| && n < |added|
    requires DistinctNumbers(base, added)
    requires forall i :: 0 <= i < at ==> BySmallest(base[i], added[n])
    requires forall i :: at <= i < pos ==> !BySmallest(added[n], base[i])
    requires g in base[..pos] || g in added[..n]
    ensures BySmallest(g, added[n])
  {
    assert added[n] in added;
    if g in base[..pos] {
      var j :| 0 <= j < pos && base[j] == g;
      assert base[j] in base;
    } else {
      var j :| 0 <= j < n && added[j] == g;
      assert BySmallest(added[j], added[n]);
    }
  }

  // ----- the builder -----

  /** Effect of one edit on the deleted numbers and added files of a level. */
  ghost function ApplyDeleted(deleted: set<nat>, edit: Edit, l: nat): set<nat> {
    deleted + DeletedAt(edit, l) - Numbers(AddedAt(edit, l))
  }

  /** No two files with one number, counting those of the edit. */
  ghost predicate FreshNumbers(base: seq<File>, added: seq<File>, edit: Edit, l: nat) {
    && (forall f, g :: f in AddedAt(edit, l) && (g in AddedAt(edit, l) || g in added) && f.number == g.number ==>
        f == g)
    && (forall f, g :: f in AddedAt(edit, l) && g in base ==> f.number != g.number)
  }

  ghost predicate ValidLevel(base: seq<File>, ls: LevelState) {
    && SortedFiles(base) && SortedFiles(ls.added) && DistinctNumbers(base, ls.added)
    && forall f, g :: f in ls.added && g in ls.added && f.number == g.number ==> f == g
  }

  /** The first i additions of the edit turned start into now. */
  ghost predicate AddedSoFar(start: seq<LevelState>, now: seq<LevelState>, edit: Edit, i: nat)
    requires i <= |edit.added|
  {
    && |start| == |now| == NUM_LEVELS
    && forall l :: 0 <= l < NUM_LEVELS ==>
         && now[l].deleted == start[l].deleted - Numbers(AddedAt(Edit({}, edit.added[..i]), l))
         && FileSet(now[l].added) == FileSet(start[l].added) + AddedAt(Edit({}, edit.added[..i]), l)
  }

  lemma AddedSoFarStep(start: seq<LevelState>, before: seq<LevelState>, now: seq<LevelState>, edit: Edit, i: nat)
    requires i < |edit.added| && AddedSoFar(start, before, edit, i)
    requires |now| == NUM_LEVELS && edit.added[i].0 < NUM_LEVELS
    requires forall l :: 0 <= l < NUM_LEVELS && l != edit.added[i].0 ==> now[l] == before[l]
    requires now[edit.added[i].0].deleted == before[edit.added[i].0].deleted - {edit.added[i].1.number}
    requires FileSet(now[edit.added[i].0].added) == FileSet(before[edit.added[i].0].added) + {edit.added[i].1}
    ensures AddedSoFar(start, now, edit, i + 1)
  {
    AddedSnoc(edit, i);
  }

  class Builder {
    const base: Version
    var levels: seq<LevelState>

    ghost predicate Valid()
      reads this
    {
      |levels| == NUM_LEVELS && forall l :: 0 <= l < NUM_LEVELS ==> ValidLevel(base[l], levels[l])
    }

    constructor (base: Version)
      requires forall l :: 0 <= l < NUM_LEVELS ==> SortedFiles(base[l])
      ensures this.base == base && Valid()
      ensures forall l :: 0 <= l < NUM_LEVELS ==> levels[l] == LevelState({}, [])
    {
      this.base := base;
      levels := seq(NUM_LEVELS, _ => LevelState({}, []));
    }

    method ApplyDeletions(edit: Edit)
      requires Valid() && LegalEdit(edit)
      modifies this
      ensures |levels| == NUM_LEVELS
      ensures forall l :: 0 <= l < NUM_LEVELS ==>
                levels[l] == old(levels[l]).(deleted := old(levels[l]).deleted + DeletedAt(edit, l))
    {
      var todo := edit.deleted;
      while todo != {}
        invariant todo <= edit.deleted && |levels| == NUM_LEVELS
        invariant forall l :: 0 <= l < NUM_LEVELS ==>
                    && levels[l].added == old(levels[l]).added
                    && levels[l].deleted == old(levels[l]).deleted + DeletedAt(Edit(edit.deleted - todo, []), l)
        decreases todo
      {
        var d :| d in todo;
        ghost var before := Edit(edit.deleted - todo, []);
        todo := todo - {d};
        ghost var after := Edit(edit.deleted - todo, []);
        assert after.deleted == before.deleted + {d};
        assert forall l :: DeletedAt(after, l) == DeletedAt(before, l) + (if l == d.0 then {d.1} else {});
        levels := levels[d.0 := levels[d.0].(deleted := levels[d.0].deleted + {d.1})];
      }
      assert forall l :: DeletedAt(Edit(edit.deleted - {}, []), l) == DeletedAt(edit, l);
    }

    /** Adds one file: it is no longer counted as deleted at its level. */
    method ApplyAddition(level: nat, f: File)
      requires Valid() && level < NUM_LEVELS
      requires forall g :: g in base[level] ==> g.number != f.number
      requires forall g :: g in levels[level].added && g.number == f.number ==> g == f
      modifies this
      ensures Valid()
      ensures forall l :: 0 <= l < NUM_LEVELS && l != level ==> levels[l] == old(levels[l])
      ensures levels[level].deleted == old(levels[level].deleted) - {f.number}
      ensures FileSet(levels[level].added) == FileSet(old(levels[level].added)) + {f}
    {
      var ls := levels[level];
      InsertFileSorted(ls.added, f);
      InsertFileMembers(ls.added, f);
      levels := levels[level := LevelState(ls.deleted - {f.number}, InsertFile(ls.added, f))];
    }

    method Apply(edit: Edit)
      requires Valid() && LegalEdit(edit)
      requires forall l :: 0 <= l < NUM_LEVELS ==> FreshNumbers(base[l], levels[l].added, edit, l)
      modifies this
      ensures Valid()
      ensures forall l :: 0 <= l < NUM_LEVELS ==> levels[l].deleted == ApplyDeleted(old(levels[l]).deleted, edit, l)
      ensures forall l :: 0 <= l < NUM_LEVELS ==>
                FileSet(levels[l].added) == FileSet(old(levels[l]).added) + AddedAt(edit, l)
    {
      ApplyDeletions(edit);
      ghost var start := levels;
      assert Valid() by {
        assert forall l :: 0 <= l < NUM_LEVELS ==> ValidLevel(base[l], old(levels[l]));
      }
      assert AddedSoFar(start, levels, edit, 0);
      for i := 0 to |edit.added|
        invariant Valid() && AddedSoFar(start, levels, edit, i)
      {
        var a := edit.added[i];
        ghost var before := levels;
        assert a in edit.added;
        AdditionAllowed(base[a.0], start[a.0].added, levels[a.0].added, edit, i);
        ApplyAddition(a.0, a.1);
        AddedSoFarStep(start, before, levels, edit, i);
      }
      assert edit.added[..|edit.added|] == edit.added;
      assert forall l :: AddedAt(Edit({}, edit.added), l) == AddedAt(edit, l);
    }

    method SaveTo() returns (v: Version)
      requires Valid()
      ensures forall l :: 0 <= l < NUM_LEVELS ==> Saved(base[l], levels[l].deleted, FileSet(levels[l].added), v[l])
    {
      v := seq(NUM_LEVELS, _ => []);
      for l := 0 to NUM_LEVELS
        invariant forall m :: 0 <= m < l ==> Saved(base[m], levels[m].deleted, FileSet(levels[m].added), v[m])
      {
        assert ValidLevel(base[l], levels[l]);
        var out := SaveLevel(base[l], levels[l].deleted, levels[l].added);
        v := v[l := out];
      }
    }
  }

  lemma AddedSnoc(edit: Edit, i: nat)
    requires i < |edit.added|
    ensures forall l :: AddedAt(Edit({}, edit.added[..i + 1]), l)
                     == AddedAt(Edit({}, edit.added[..i]), l) + (if edit.added[i].0 == l then {edit.added[i].1} else {})
    ensures edit.added[i].1 in AddedAt(edit, edit.added[i].0)
  {
    assert edit.added[..i + 1] == edit.added[..i] + [edit.added[i]];
    assert edit.added[i] in edit.added;
  }

  lemma AdditionAllowed(base: seq<File>, start: seq<File>, now: seq<File>, edit: Edit, i: nat)
    requires i < |edit.added| && FreshNumbers(base, start, edit, edit.added[i].0)
    requires FileSet(now) == FileSet(start) + AddedAt(Edit({}, edit.added[..i]), edit.added[i].0)
    ensures forall g :: g in base ==> g.number != edit.added[i].1.number
    ensures forall g :: g in now && g.number == edit.added[i].1.number ==> g == edit.added[i].1
  {
    var l, f := edit.added[i].0, edit.added[i].1;
    assert edit.added[i] in edit.added;
    assert f in AddedAt(edit, l);
    forall g | g in now && g.number == f.number ensures g == f {
      assert g in FileSet(now);
      if g in AddedAt(Edit({}, edit.added[..i]), l) {
        assert g in AddedAt(edit, l);
      }
    }
  }

  // ----- manifest replay -----

  /** Deleted numbers of a level after one builder applied edits[..n]. */
  ghost function FoldDeleted(edits: seq<Edit>, n: nat, l: nat): set<nat>
    requires n <= |edits|
  {
    if n == 0 then {} else ApplyDeleted(FoldDeleted(edits, n - 1, l), edits[n - 1], l)
  }

  ghost function FoldAdded(edits: seq<Edit>, n: nat, l: nat): set<File>
    requires n <= |edits|
  {
    if n == 0 then {} else FoldAdded(edits, n - 1, l) + AddedAt(edits[n - 1], l)
  }

  /** Versions produced by installing the edits one at a time (LogAndApply). */
  ghost predicate Stepwise(edits: seq<Edit>, vs: seq<Version>) {
    && |vs| == |edits| + 1
    && (forall l :: 0 <= l < NUM_LEVELS ==> SortedFiles(vs[0][l]))
    && forall i, l :: 0 <= i < |edits| && 0 <= l < NUM_LEVELS ==>
         Saved(vs[i][l], ApplyDeleted({}, edits[i], l), AddedAt(edits[i], l), vs[i + 1][l])
  }

  /** No file number is added to a level twice, or to a level that starts with it. */
  ghost predicate AddedOnce(edits: seq<Edit>, base: Version) {
    && (forall i, j, l, f, g :: 0 <= i < j < |edits| && f in AddedAt(edits[i], l) && g in AddedAt(edits[j], l) ==>
          f.number != g.number)
    && (forall j, l, f, g :: 0 <= j < |edits| && 0 <= l < NUM_LEVELS && f in base[l] && g in AddedAt(edits[j], l) ==>
          f.number != g.number)
  }

  lemma {:induction false} FoldAddedOrigin(edits: seq<Edit>, n: nat, l: nat, f: File)
    requires n <= |edits| && f in FoldAdded(edits, n, l)
    ensures exists i :: 0 <= i < n && f in AddedAt(edits[i], l)
  {
    if f !in AddedAt(edits[n - 1], l) {
      FoldAddedOrigin(edits, n - 1, l, f);
    }
  }

  /** After every edit, the installed list holds what the single builder would
      save at that point. */
  lemma {:induction false} ReplayMembers(edits: seq<Edit>, vs: seq<Version>, n: nat, l: nat, f: File)
    requires Stepwise(edits, vs) && AddedOnce(edits, vs[0])
    requires n <= |edits| && l < NUM_LEVELS
    ensures f in vs[n][l] <==>
            (f in vs[0][l] || f in FoldAdded(edits, n, l)) && f.number !in FoldDeleted(edits, n, l)
  {
    if n > 0 {
      ReplayMembers(edits, vs, n - 1, l, f);
      var e := edits[n - 1];
      assert Saved(vs[n - 1][l], ApplyDeleted({}, e, l), AddedAt(e, l), vs[n][l]);
      if f !in AddedAt(e, l) && (f in vs[0][l] || f in FoldAdded(edits, n - 1, l)) {
        if f in FoldAdded(edits, n - 1, l) {
          FoldAddedOrigin(edits, n - 1, l, f);
        }
        assert f.number !in Numbers(AddedAt(e, l));
      }
    }
  }

  /** Recover: one builder over all edits, saved once, gives the version that
      installing the edits one by one reached. */
  lemma ReplayEqualsStepwise(edits: seq<Edit>, vs: seq<Version>, l: nat, out: seq<File>)
    requires Stepwise(edits, vs) && AddedOnce(edits, vs[0]) && l < NUM_LEVELS
    requires Saved(vs[0][l], FoldDeleted(edits, |edits|, l), FoldAdded(edits, |edits|, l), out)
    ensures out == vs[|edits|][l]
  {
    var n := |edits|;
    forall f ensures f in out <==> f in vs[n][l] {
      ReplayMembers(edits, vs, n, l, f);
    }
    if n > 0 {
      assert Saved(vs[n - 1][l], ApplyDeleted({}, edits[n - 1], l), AddedAt(edits[n - 1], l), vs[n][l]);
    }
    SortedUnique(out, vs[n][l]);
  }

  /** An edit adds no two files with one number to a level. */
  ghost predicate OneOfEach(edit: Edit) {
    forall l, f, g :: f in AddedAt(edit, l) && g in AddedAt(edit, l) && f.number == g.number ==> f == g
  }

  lemma NextIsFresh(edits: seq<Edit>, base: Version, n: nat, l: nat, added: seq<File>)
    requires AddedOnce(edits, base) && n < |edits| && l < NUM_LEVELS && OneOfEach(edits[n])
    requires FileSet(added) == FoldAdded(edits, n, l)
    ensures FreshNumbers(base[l], added, edits[n], l)
  {
    hide AddedAt, FoldAdded;
    forall g | g in added ensures forall f :: f in AddedAt(edits[n], l) ==> f.number != g.number {
      assert g in FileSet(added);
      FoldAddedOrigin(edits, n, l, g);
    }
  }

  /** The loop of VersionSet::Recover: every edit of the manifest goes into one
      builder, which saves once. */
  method Recover(base: Version, edits: seq<Edit>, ghost vs: seq<Version>) returns (v: Version)
    requires Stepwise(edits, vs) && vs[0] == base && AddedOnce(edits, base)
    requires forall i :: 0 <= i < |edits| ==> LegalEdit(edits[i]) && OneOfEach(edits[i])
    ensures v == vs[|edits|]
  {
    hide AddedOnce, AddedAt, LegalEdit, Saved, SortedFiles, ApplyDeleted, OneOfEach;
    var builder := new Builder(base);
    for n := 0 to |edits|
      invariant builder.Valid() && builder.base == base && fresh(builder)
      invariant forall l :: 0 <= l < NUM_LEVELS ==>
                  builder.levels[l].deleted == FoldDeleted(edits, n, l)
                    && FileSet(builder.levels[l].added) == FoldAdded(edits, n, l)
    {
      forall l | 0 <= l < NUM_LEVELS ensures FreshNumbers(base[l], builder.levels[l].added, edits[n], l) {
        NextIsFresh(edits, base, n, l, builder.levels[l].added);
      }
      builder.Apply(edits[n]);
    }
    v := builder.SaveTo();
    forall l | 0 <= l < NUM_LEVELS ensures v[l] == vs[|edits|][l] {
      ReplayEqualsStepwise(edits, vs, l, v[l]);
    }
  }
}
