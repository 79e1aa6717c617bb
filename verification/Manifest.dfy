/** The manifest (VersionSet::LogAndApply, db/version_set.cc): the edits that the
    steps of a database leave behind, and why replaying them gives its version. */
module Manifests {
  import opened DbFormat
  import opened Versions
  import opened LsmSteps
  import opened DbState
  import opened Database
  import opened VersionBuilder

  function EmptyVersion(): Version { seq(NUM_LEVELS, _ => []) }

  /** A file that was added to a level is, if it is still there, at that level or
      a deeper one. */
  ghost predicate OnlyDown(edits: seq<Edit>, v: Version) {
    forall i, l: nat, f, m, g {:trigger f in AddedAt(edits[i], l), g in v[m], SameNumber(f, g)} ::
      0 <= i < |edits| && f in AddedAt(edits[i], l) && 0 <= m < NUM_LEVELS && g in v[m] && SameNumber(f, g) ==> l <= m
  }

  ghost predicate NumbersUsed(edits: seq<Edit>, next: nat) {
    forall i, l: nat, f :: 0 <= i < |edits| && f in AddedAt(edits[i], l) ==> f.number < next
  }

  ghost predicate WellFormed(edits: seq<Edit>) {
    forall i :: 0 <= i < |edits| ==> LegalEdit(edits[i]) && OneOfEach(edits[i])
  }

  /** The edits lead from the empty version to the version of a state, one version
      after the other, and can be replayed. */
  ghost predicate Leads(edits: seq<Edit>, vs: seq<Version>, st: State) {
    && Stepwise(edits, vs) && vs[0] == EmptyVersion() && vs[|edits|] == st.version
    && WellFormed(edits) && AddedOnce(edits, vs[0])
    && NumbersUsed(edits, st.nextFile) && OnlyDown(edits, st.version)
  }

  /** What an edit adds is new, or comes from a level above. */
  ghost predicate NewOrAbove(v: Version, edit: Edit, lo: nat, hi: nat) {
    forall l: nat, f :: f in AddedAt(edit, l) ==>
      f.number < hi && (f.number >= lo || exists m :: 0 <= m < l && m < NUM_LEVELS && f in v[m])
  }

  ghost predicate Steps(v: Version, edit: Edit, w: Version) {
    forall l :: 0 <= l < NUM_LEVELS ==> Saved(v[l], ApplyDeleted({}, edit, l), AddedAt(edit, l), w[l])
  }

  /** What an edit adds is in the version it leads to, once. */
  lemma AddedOnceNow(v: Version, edit: Edit, w: Version, l: nat, f: File, m: nat, g: File)
    requires LegalEdit(edit) && Steps(v, edit, w) && UniqueNumbers(w)
    requires f in AddedAt(edit, l) && m < NUM_LEVELS && g in w[m] && SameNumber(f, g)
    ensures l == m && f == g
  {
    assert Saved(v[l], ApplyDeleted({}, edit, l), AddedAt(edit, l), w[l]);
    assert f.number in Numbers(AddedAt(edit, l));
    assert f in w[l];
  }

  lemma NotBefore(edits: seq<Edit>, v: Version, edit: Edit, lo: nat, hi: nat, i: nat, l: nat, f: File, g: File)
    requires NumbersUsed(edits, lo) && OnlyDown(edits, v) && NewOrAbove(v, edit, lo, hi)
    requires i < |edits| && f in AddedAt(edits[i], l) && g in AddedAt(edit, l)
    ensures f.number != g.number
  {
    if f.number == g.number {
      var m :| 0 <= m < l && m < NUM_LEVELS && g in v[m];
      assert SameNumber(f, g);
    }
  }

  lemma StillDown(edits: seq<Edit>, v: Version, edit: Edit, w: Version, lo: nat, hi: nat, i: nat, l: nat, f: File,
                  m: nat, g: File)
    requires NumbersUsed(edits, lo) && OnlyDown(edits, v) && NewOrAbove(v, edit, lo, hi) && Steps(v, edit, w)
    requires i < |edits| && f in AddedAt(edits[i], l) && m < NUM_LEVELS && g in w[m] && SameNumber(f, g)
    ensures l <= m
  {
    assert Saved(v[m], ApplyDeleted({}, edit, m), AddedAt(edit, m), w[m]);
    if g !in v[m] {
      var n :| 0 <= n < m && n < NUM_LEVELS && g in v[n];
    }
  }

  /** One edit more. */
  lemma LogEdit(edits: seq<Edit>, vs: seq<Version>, st: State, edit: Edit, st2: State)
    requires Leads(edits, vs, st) && LegalEdit(edit) && Steps(st.version, edit, st2.version)
    requires UniqueNumbers(st2.version) && NewOrAbove(st.version, edit, st.nextFile, st2.nextFile)
    requires st.nextFile <= st2.nextFile
    ensures Leads(edits + [edit], vs + [st2.version], st2)
  {
    hide AddedAt, ApplyDeleted, Saved, UniqueNumbers, SortedFiles, LegalEdit;
    var more, v, w := edits + [edit], st.version, st2.version;
    forall l: nat, f, g | f in AddedAt(edit, l) && g in AddedAt(edit, l) && f.number == g.number ensures f == g {
      AddedThere(v, edit, w, l, g);
      assert SameNumber(f, g);
      AddedOnceNow(v, edit, w, l, f, l, g);
    }
    forall i, j, l: nat, f, g | 0 <= i < j < |more| && f in AddedAt(more[i], l) && g in AddedAt(more[j], l)
      ensures f.number != g.number
    {
      if j == |edits| {
        NotBefore(edits, v, edit, st.nextFile, st2.nextFile, i, l, f, g);
      }
    }
    forall i, l: nat, f, m: nat, g
      | 0 <= i < |more| && f in AddedAt(more[i], l) && 0 <= m < NUM_LEVELS && g in w[m] && SameNumber(f, g)
      ensures l <= m
    {
      if i == |edits| {
        AddedOnceNow(v, edit, w, l, f, m, g);
      } else {
        StillDown(edits, v, edit, w, st.nextFile, st2.nextFile, i, l, f, m, g);
      }
    }
    forall i, l: nat, f | 0 <= i < |more| && f in AddedAt(more[i], l) ensures f.number < st2.nextFile {
    }
    StepwiseMore(edits, vs, edit, w);
  }

  lemma AddedThere(v: Version, edit: Edit, w: Version, l: nat, f: File)
    requires LegalEdit(edit) && Steps(v, edit, w) && f in AddedAt(edit, l)
    ensures l < NUM_LEVELS && f in w[l]
  {
    assert Saved(v[l], ApplyDeleted({}, edit, l), AddedAt(edit, l), w[l]);
    assert f.number in Numbers(AddedAt(edit, l));
  }

  lemma StepwiseMore(edits: seq<Edit>, vs: seq<Version>, edit: Edit, w: Version)
    requires Stepwise(edits, vs) && Steps(vs[|edits|], edit, w)
    ensures Stepwise(edits + [edit], vs + [w])
  {
    hide Saved, ApplyDeleted, AddedAt, SortedFiles;
  }

  // ----- the edits of the steps -----

  lemma FlushLogs(edits: seq<Edit>, vs: seq<Version>, st: State, level: nat, n: File, st2: State)
    requires Leads(edits, vs, st) && Inv(st) && Inv(st2) && Flushed(st, level, n, st2) && st.imm.value != []
    ensures Leads(edits + [Edit({}, [(level, n)])], vs + [st2.version], st2)
  {
    hide Leads, ReadsExact, Layered, Recorded;
    var edit := Edit({}, [(level, n)]);
    assert forall l :: AddedAt(edit, l) == if l == level then {n} else {} by {
      assert edit.added[0] in edit.added;
    }
    LevelsSorted(st2.version);
    LogEdit(edits, vs, st, edit, st2);
  }

  lemma InstallSteps(v: Version, level: nat, in0: seq<File>, in1: seq<File>, outs: seq<File>, w: Version)
    requires LsmInvariant(v) && LsmInvariant(w) && Installed(v, level, in0, in1, outs, w)
    requires (forall f :: f in in0 ==> f in v[level]) && (forall f :: f in in1 ==> f in v[level + 1])
    requires forall f, o :: f in v[level + 1] && o in outs ==> f.number != o.number
    ensures Steps(v, CompactionEdit(level, in0, in1, outs), w)
  {
    hide AddedAt, DeletedAt, SortedFiles, CompactionEdit;
    var edit := CompactionEdit(level, in0, in1, outs);
    LevelsSorted(w);
    forall l | 0 <= l < NUM_LEVELS ensures Saved(v[l], ApplyDeleted({}, edit, l), AddedAt(edit, l), w[l]) {
      EditLevels(level, in0, in1, outs, l);
      if l == level {
        forall f | f in v[level] ensures f in in0 <==> f.number in Numbers(FileSet(in0)) {
          NumberNames(v, level, in0, f);
        }
      } else if l == level + 1 {
        forall f | f in v[level + 1] ensures f in in1 <==> f.number in Numbers(FileSet(in1)) {
          NumberNames(v, level + 1, in1, f);
        }
      }
    }
  }

  lemma EditAdds(v: Version, level: nat, in0: seq<File>, in1: seq<File>, outs: seq<File>, lo: nat, hi: nat)
    requires level + 1 < NUM_LEVELS
    requires forall o :: o in outs ==> o.number < hi && (o.number >= lo || o in v[level])
    ensures NewOrAbove(v, CompactionEdit(level, in0, in1, outs), lo, hi)
    ensures LegalEdit(CompactionEdit(level, in0, in1, outs))
  {
    forall l: nat, f | f in AddedAt(CompactionEdit(level, in0, in1, outs), l)
      ensures f.number < hi && (f.number >= lo || exists m :: 0 <= m < l && m < NUM_LEVELS && f in v[m])
    {
      EditLevels(level, in0, in1, outs, l);
    }
  }

  lemma CompactionLogs(edits: seq<Edit>, vs: seq<Version>, st: State, job: Job, st2: State)
    requires Leads(edits, vs, st) && Inv(st) && Inv(st2) && Compacted(st, job, st2)
    ensures Leads(edits + [CompactionEdit(job.level, job.in0, job.in1, job.outs)], vs + [st2.version], st2)
  {
    hide Leads, ReadsExact, Layered, Recorded, CompactionEdit, Steps, LegalEdit, NewOrAbove;
    InstallSteps(st.version, job.level, job.in0, job.in1, job.outs, st2.version);
    EditAdds(st.version, job.level, job.in0, job.in1, job.outs, st.nextFile, st2.nextFile);
    LogEdit(edits, vs, st, CompactionEdit(job.level, job.in0, job.in1, job.outs), st2);
  }

  lemma MoveLogs(edits: seq<Edit>, vs: seq<Version>, st: State, level: nat, f: File, st2: State)
    requires Leads(edits, vs, st) && Inv(st) && Inv(st2) && Moved(st, level, f, st2)
    ensures Leads(edits + [CompactionEdit(level, [f], [], [f])], vs + [st2.version], st2)
  {
    hide Leads, ReadsExact, Layered, Recorded, CompactionEdit, Steps, LegalEdit, NewOrAbove;
    assert f in [f] && f in st.version[level];
    forall g | g in st.version[level + 1] ensures g.number != f.number {
      assert !SameNumber(f, g);
    }
    InstallSteps(st.version, level, [f], [], [f], st2.version);
    EditAdds(st.version, level, [f], [], [f], st.nextFile, st2.nextFile);
    LogEdit(edits, vs, st, CompactionEdit(level, [f], [], [f]), st2);
  }

  lemma QuietLogs(edits: seq<Edit>, vs: seq<Version>, st: State, st2: State)
    requires Leads(edits, vs, st) && st2.version == st.version && st.nextFile <= st2.nextFile
    ensures Leads(edits, vs, st2)
  {
    hide AddedAt, Stepwise, AddedOnce, WellFormed;
  }

  /** Every step leaves a manifest that leads to its version. */
  lemma NextLogs(edits: seq<Edit>, vs: seq<Version>, st: State, st2: State)
    returns (edits2: seq<Edit>, vs2: seq<Version>)
    requires Leads(edits, vs, st) && Inv(st) && Inv(st2) && Next(st, st2)
    ensures Leads(edits2, vs2, st2) && edits <= edits2
  {
    hide Leads, Inv;
    if level: nat, n: File :| Flushed(st, level, n, st2) {
      if st.imm.value == [] {
        edits2, vs2 := edits, vs;
        QuietLogs(edits, vs, st, st2);
      } else {
        edits2, vs2 := edits + [Edit({}, [(level, n)])], vs + [st2.version];
        FlushLogs(edits, vs, st, level, n, st2);
      }
    } else if job :| Compacted(st, job, st2) {
      edits2, vs2 := edits + [CompactionEdit(job.level, job.in0, job.in1, job.outs)], vs + [st2.version];
      CompactionLogs(edits, vs, st, job, st2);
    } else if level: nat, f: File :| Moved(st, level, f, st2) {
      edits2, vs2 := edits + [CompactionEdit(level, [f], [], [f])], vs + [st2.version];
      MoveLogs(edits, vs, st, level, f, st2);
    } else {
      edits2, vs2 := edits, vs;
      if batch :| Wrote(st, batch, st2) {
        WroteKeepsFiles(st, batch, st2);
      }
      QuietLogs(edits, vs, st, st2);
    }
  }

  lemma {:induction false} WroteKeepsFiles(st: State, batch: seq<Op>, st2: State)
    requires Wrote(st, batch, st2)
    ensures st2.version == st.version && st.nextFile == st2.nextFile
    decreases |batch|
  {
    if batch != [] {
      WroteKeepsFiles(WriteOne(st, batch[0]), batch[1..], st2);
    }
  }

  /** Every state of every run has a manifest that can be replayed to its version. */
  lemma {:induction false} RunLogs(run: seq<State>, k: nat) returns (edits: seq<Edit>, vs: seq<Version>)
    requires Run(run) && k < |run|
    ensures Leads(edits, vs, run[k])
  {
    if k == 0 {
      edits, vs := [], [EmptyVersion()];
      assert run[0].version == EmptyVersion();
    } else {
      var before, versions := RunLogs(run, k - 1);
      RunSafe(run, k - 1);
      RunSafe(run, k);
      edits, vs := NextLogs(before, versions, run[k - 1], run[k]);
    }
  }
}
