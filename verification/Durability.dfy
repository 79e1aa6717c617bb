/** What survives a crash: files, the log up to a cut, and the database that is
    opened on them (DBImpl::Recover, db/db_impl.cc). */
module Durability {
  import opened Options
  import opened Coding
  import opened DbFormat
  import opened Versions
  import opened LsmSteps
  import opened DbState
  import opened Database
  import B = WriteBatches
  import Q = WriteQueues
  import VersionBuilder
  import Manifests
  import GroupCommit
  import InternalKeys

  // ----- where the writes are -----

  ghost function Part(history: seq<Entry>, a: nat, b: nat): set<Entry>
    requires a <= b <= |history|
  {
    set i | a <= i < b :: history[i]
  }

  /** The first f writes are in files, those up to m in the immutable memtable and the
      others in the memtable; and the files alone answer from the map as of f. */
  ghost predicate Split(st: State, f: nat, m: nat) {
    && f <= m <= |st.history| <= MAX_SEQUENCE
    && EntrySet(st.mem) == Part(st.history, m, |st.history|)
    && ImmEntries(st.imm) == Part(st.history, f, m) && (st.imm.None? ==> f == m)
    && FilesHold(AllEntries(st.version), st.history, f)
  }

  ghost predicate FilesHold(es: set<Entry>, history: seq<Entry>, f: nat)
    requires f <= |history| <= MAX_SEQUENCE
  {
    Recorded(es, history[..f]) && ReadsExact(es, history[..f], f)
  }

  lemma InitSplit(st: State)
    requires Init(st)
    ensures Split(st, 0, 0)
  {
    forall k ensures Lookup(AllEntries(st.version), k, 0) == None {
      LookupNothing(AllEntries(st.version), k, 0);
    }
  }

  lemma PartNext(history: seq<Entry>, e: Entry, a: nat, b: nat)
    requires a <= b <= |history|
    ensures Part(history + [e], a, b) == Part(history, a, b)
    ensures Part(history + [e], a, |history| + 1) == Part(history, a, |history|) + {e}
  {
    forall x | x in Part(history, a, |history|) + {e} ensures x in Part(history + [e], a, |history| + 1) {
      if x == e {
        assert (history + [e])[|history|] == x;
      } else {
        var i :| a <= i < |history| && history[i] == x;
        assert (history + [e])[i] == x;
      }
    }
    forall x | x in Part(history, a, b) ensures x in Part(history + [e], a, b) {
      var i :| a <= i < b && history[i] == x;
      assert (history + [e])[i] == x;
    }
  }

  lemma WriteOneSplit(st: State, op: Op, f: nat, m: nat)
    requires Inv(st) && Split(st, f, m) && st.lastSequence + 1 < MAX_SEQUENCE
    ensures Split(WriteOne(st, op), f, m)
  {
    hide FilesHold, Part, Recorded, ReadsExact;
    var e := EntryFor(op, st.lastSequence + 1);
    WriteHeld(st, op);
    PartNext(st.history, e, f, m);
    PartNext(st.history, e, m, m);
    FilesPrefix(AllEntries(st.version), st.history, st.history + [e], f);
  }

  lemma FilesPrefix(es: set<Entry>, h: seq<Entry>, h2: seq<Entry>, f: nat)
    requires h <= h2 && f <= |h| <= |h2| <= MAX_SEQUENCE && FilesHold(es, h, f)
    ensures FilesHold(es, h2, f)
  {
    hide Recorded, ReadsExact;
    assert h2[..f] == h[..f];
  }

  lemma {:induction false} WroteSplit(st: State, batch: seq<Op>, st2: State, f: nat, m: nat)
    requires Inv(st) && Split(st, f, m) && Wrote(st, batch, st2)
    ensures Split(st2, f, m)
    decreases |batch|
  {
    hide Split, Inv;
    if batch != [] {
      InvSorted(st);
      WriteOneInv(st, batch[0]);
      WriteOneSplit(st, batch[0], f, m);
      WroteSplit(WriteOne(st, batch[0]), batch[1..], st2, f, m);
    }
  }

  lemma InvSorted(st: State)
    requires Inv(st)
    ensures SortedEntries(st.mem) && st.lastSequence == |st.history| < MAX_SEQUENCE
  {
  }

  lemma SwitchedSplit(st: State, st2: State, f: nat, m: nat)
    requires Inv(st) && Split(st, f, m) && Switched(st, st2)
    ensures Split(st2, f, |st.history|)
  {
    hide FilesHold;
  }

  /** Adding the writes that follow keeps files and map in step. */
  lemma {:induction false} GrowFiles(es: set<Entry>, history: seq<Entry>, f: nat, n: nat)
    requires f <= n <= |history| <= MAX_SEQUENCE && FilesHold(es, history, f)
    requires forall i :: 0 <= i < |history| ==> history[i].key.sequence == i + 1
    ensures FilesHold(es + Part(history, f, n), history, n)
    decreases n
  {
    hide ReadsExact, Recorded;
    if n == f {
      assert es + Part(history, f, n) == es;
    } else {
      GrowFiles(es, history, f, n - 1);
      var held, e := es + Part(history, f, n - 1), history[n - 1];
      assert history[..n - 1] + [e] == history[..n];
      assert held + {e} == es + Part(history, f, n);
      ReadsAfterWrite(held, history[..n - 1], e, n - 1, n);
      RecordedAfterWrite(held, history[..n - 1], e);
    }
  }

  lemma FlushedSplit(st: State, level: nat, n: File, st2: State, f: nat, m: nat)
    requires Inv(st) && Split(st, f, m) && Flushed(st, level, n, st2)
    ensures Split(st2, m, m)
  {
    hide ReadsExact, LsmInvariant, LevelFree, FileAdded;
    GrowFiles(AllEntries(st.version), st.history, f, m);
    if st.imm.value == [] {
      assert AllEntries(st.version) + Part(st.history, f, m) == AllEntries(st.version);
    } else {
      FlushedLsm(st, level, n, st2);
    }
  }

  /** A compaction keeps what the files alone answer, though its smallest snapshot may
      be past everything in them. */
  lemma CompactedFiles(st: State, job: Job, st2: State, f: SequenceNumber, k: UserKey)
    requires Shape(st) && Compacted(st, job, st2) && f <= st.lastSequence
    requires forall e :: e in AllEntries(st.version) ==> e.key.sequence <= f
    ensures Lookup(AllEntries(st2.version), k, f) == Lookup(AllEntries(st.version), k, f)
  {
    hide LsmInvariant, Installed, MergedInput, OutputsHold, AllEntries, Lookup, FreshOutputs, Recorded, Layered;
    var v, w := AllEntries(st.version), AllEntries(st2.version);
    CompactedLsm(st, job, st2);
    OldestInPast(st);
    HeldUnique(st);
    assert {} + v == v && {} + w == w && v <= Held(st);
    CompactionPreservesReads(st.version, job.level, job.in0, job.in1, job.input, Oldest(st), job.outs, st2.version,
                             {}, k, st.lastSequence);
    LookupPastEnd(v, k, f, st.lastSequence);
    LookupPastEnd(w, k, f, st.lastSequence);
  }

  lemma CompactedSplit(st: State, job: Job, st2: State, f: nat, m: nat)
    requires Inv(st) && Split(st, f, m) && Compacted(st, job, st2)
    ensures Split(st2, f, m)
  {
    hide LsmInvariant, Installed, MergedInput, OutputsHold, AllEntries, Lookup, Part, FreshOutputs, MapAsOf;
    CompactedLsm(st, job, st2);
    forall k ensures Lookup(AllEntries(st2.version), k, f) == ReadMap(MapAsOf(st.history[..f], f), k) {
      CompactedFiles(st, job, st2, f, k);
    }
  }

  lemma MovedSplit(st: State, level: nat, g: File, st2: State, f: nat, m: nat)
    requires Inv(st) && Split(st, f, m) && Moved(st, level, g, st2)
    ensures Split(st2, f, m)
  {
    hide FilesHold, LsmInvariant;
    assert [g] + [] == [g];
    EntriesBefore(st.version, level, [g], []);
    EntriesAfter(st.version, level, [g], [], [g], st2.version);
  }

  lemma NextSplit(st: State, st2: State, f: nat, m: nat) returns (f2: nat, m2: nat)
    requires Inv(st) && Split(st, f, m) && Next(st, st2)
    ensures Split(st2, f2, m2)
  {
    hide Inv, Split, Wrote, Switched, Flushed, Compacted, Moved;
    f2, m2 := f, m;
    if batch :| Wrote(st, batch, st2) {
      WroteSplit(st, batch, st2, f, m);
    } else if Switched(st, st2) {
      SwitchedSplit(st, st2, f, m);
      m2 := |st.history|;
    } else if level: nat, n: File :| Flushed(st, level, n, st2) {
      FlushedSplit(st, level, n, st2, f, m);
      f2 := m;
    } else if job :| Compacted(st, job, st2) {
      CompactedSplit(st, job, st2, f, m);
    } else if level: nat, g: File :| Moved(st, level, g, st2) {
      MovedSplit(st, level, g, st2, f, m);
    } else {
      SnapshotSplit(st, st2, f, m);
    }
  }

  lemma SnapshotSplit(st: State, st2: State, f: nat, m: nat)
    requires Split(st, f, m) && (TookSnapshot(st, st2) || exists i: nat :: ReleasedSnapshot(st, i, st2))
    ensures Split(st2, f, m)
  {
  }

  /** In every state of every run the writes are split between files and memtables,
      and the files alone hold the map of some moment. */
  lemma {:induction false} RunSplit(run: seq<State>, i: nat) returns (f: nat, m: nat)
    requires Run(run) && i < |run|
    ensures Split(run[i], f, m)
    decreases i
  {
    hide Split, Inv, Next, Init;
    if i == 0 {
      InitSplit(run[0]);
      f, m := 0, 0;
    } else {
      f, m := RunSplit(run, i - 1);
      RunSafe(run, i - 1);
      f, m := NextSplit(run[i - 1], run[i], f, m);
    }
  }

  // ----- a crash, and the database after it -----

  /** The files, without any memtable. */
  ghost function FilesOnly(st: State, f: nat, nextFile: nat): State
    requires f <= |st.history| <= MAX_SEQUENCE
  {
    State([], None, st.version, f, nextFile, [], st.history[..f])
  }

  lemma FilesInv(st: State, f: nat, m: nat, nextFile: nat)
    requires Inv(st) && Split(st, f, m) && st.nextFile <= nextFile
    ensures Inv(FilesOnly(st, f, nextFile))
  {
    hide LsmInvariant, Recorded, ReadsExact;
    var st0 := FilesOnly(st, f, nextFile);
    assert EntrySet(st0.mem) == {} && Held(st0) == AllEntries(st.version);
  }

  /** What a batch adds to the history. */
  ghost function Entries(batch: seq<Op>, last: nat): seq<Entry>
    requires last + |batch| <= MAX_SEQUENCE
  {
    seq(|batch|, i requires 0 <= i < |batch| => EntryFor(batch[i], last + 1 + i))
  }

  lemma {:induction false} WroteEntries(st: State, batch: seq<Op>, st2: State)
    requires Wrote(st, batch, st2)
    ensures st.lastSequence + |batch| <= MAX_SEQUENCE && st2.history == st.history + Entries(batch, st.lastSequence)
    ensures st2.version == st.version
    decreases |batch|
  {
    if batch != [] {
      var e := EntryFor(batch[0], st.lastSequence + 1);
      WroteEntries(WriteOne(st, batch[0]), batch[1..], st2);
      assert Entries(batch, st.lastSequence) == [e] + Entries(batch[1..], st.lastSequence + 1);
      assert st.history + ([e] + Entries(batch[1..], st.lastSequence + 1))
             == st.history + [e] + Entries(batch[1..], st.lastSequence + 1);
    }
  }

  /** An operation on byte strings as one on keys in comparator order. */
  datatype Coder = Coder(rank: Bytes -> UserKey, text: Bytes -> string)

  function Translate(c: Coder, op: B.Op): Op {
    match op
    case Put(k, v) => Op.Put(c.rank(k), c.text(v))
    case Delete(k) => Op.Delete(c.rank(k))
  }

  /** The tag of an operation in a batch is the type of the entry that it becomes. */
  lemma TagIsType(c: Coder, op: B.Op, s: SequenceNumber)
    ensures B.EncodeOp(op) != []
    ensures B.EncodeOp(op)[0] == InternalKeys.TypeByte(EntryFor(Translate(c, op), s).key.kind)
  {
  }

  function TranslateAll(c: Coder, added: seq<(nat, B.Op)>): (r: seq<Op>)
    ensures |r| == |added|
  {
    seq(|added|, i requires 0 <= i < |added| => Translate(c, added[i].1))
  }

  /** What operations on byte strings do to the map. */
  function ApplyAdded(c: Coder, m: map<UserKey, string>, added: seq<(nat, B.Op)>): map<UserKey, string>
    decreases |added|
  {
    if added == [] then m
    else
      var next := match added[0].1
        case Put(k, v) => m[c.rank(k) := c.text(v)]
        case Delete(k) => m - {c.rank(k)};
      ApplyAdded(c, next, added[1..])
  }

  lemma {:induction false} TranslatedMap(c: Coder, m: map<UserKey, string>, added: seq<(nat, B.Op)>)
    ensures ApplyOps(m, TranslateAll(c, added)) == ApplyAdded(c, m, added)
    decreases |added|
  {
    if added != [] {
      assert TranslateAll(c, added)[1..] == TranslateAll(c, added[1..]);
      TranslatedMap(c, ApplyOp(m, Translate(c, added[0].1)), added[1..]);
    }
  }

  /** The writes after the first f are those of the log. */
  ghost predicate Logged(c: Coder, added: seq<(nat, B.Op)>, history: seq<Entry>, f: nat)
    requires f + |added| <= MAX_SEQUENCE
  {
    f <= |history| && history[f..] == Entries(TranslateAll(c, added), f)
  }

  lemma LoggedPrefix(c: Coder, part: seq<(nat, B.Op)>, added: seq<(nat, B.Op)>, history: seq<Entry>, f: nat)
    requires part <= added && f + |added| <= MAX_SEQUENCE && Logged(c, added, history, f)
    ensures f + |part| <= |history| && history[..f] + Entries(TranslateAll(c, part), f) == history[..f + |part|]
  {
    assert |history| == f + |added|;
    var e := Entries(TranslateAll(c, part), f);
    forall i | 0 <= i < |part| ensures e[i] == history[f + i] {
      assert history[f..][i] == Entries(TranslateAll(c, added), f)[i];
    }
  }

  /** The database opened on the files, after part of the log is replayed. */
  method Reopen(version: Version, flushed: SequenceNumber, nextFile: nat, added: seq<(nat, B.Op)>, c: Coder,
                maxFileSize: nat, random: nat -> nat, ghost st: State, ghost all: seq<(nat, B.Op)>) returns (db: DB)
    requires Inv(st) && Split(st, flushed, flushed) && version == st.version && st.nextFile <= nextFile
    requires added <= all && flushed + |all| < MAX_SEQUENCE && Logged(c, all, st.history, flushed)
    ensures db.Valid() && Inv(db.View()) && db.version == version
    ensures flushed + |added| <= |st.history| && db.history == st.history[..flushed + |added|]
    ensures MapAsOf(db.history, |db.history|) == ApplyAdded(c, MapAsOf(st.history, flushed), added)
  {
    hide Inv, Split, Logged, Entries, Wrote, MapAsOf, ApplyOps, ApplyAdded, TranslateAll;
    InvSorted(st);
    LoggedPrefix(c, added, all, st.history, flushed);
    FilesInv(st, flushed, flushed, nextFile);
    TranslatedMap(c, MapAsOf(st.history[..flushed], flushed), added);
    MapAsOfPrefix(st.history[..flushed], st.history, flushed);
    db := new DB.Opened(maxFileSize, random, version, flushed, nextFile, st.history[..flushed]);
    db.Write(TranslateAll(c, added));
    WroteEntries(FilesOnly(st, flushed, nextFile), TranslateAll(c, added), db.View());
  }

  /** A crash anywhere past the synced bytes of the log, and the database opened after
      it: the manifest is replayed, then the log. It is a state that meets the
      invariant, with the writes up to some point and no others; every write that was
      flushed or that a writer asked to sync is among them. */
  method CrashAndReopen(q: GroupCommit.WriteQueue, edits: seq<VersionBuilder.Edit>, ghost vs: seq<Version>,
                        ghost st: State, flushed: SequenceNumber, nextFile: nat, cut: nat, paranoid: bool, c: Coder,
                        maxFileSize: nat, random: nat -> nat) returns (db: DB)
    requires Inv(st) && Split(st, flushed, flushed) && st.nextFile <= nextFile
    requires q.Valid() && q.syncedBytes <= cut && |st.history| == flushed + |q.added|
    requires Logged(c, q.added, st.history, flushed)
    requires Manifests.Leads(edits, vs, st)
    ensures db.Valid() && Inv(db.View()) && db.version == st.version
    ensures flushed <= |db.history| && db.history <= st.history
    ensures MapAsOf(db.history, |db.history|)
         == ApplyAdded(c, MapAsOf(st.history, flushed), q.added[..|db.history| - flushed])
    ensures forall k :: 0 <= k < |q.finished| && q.finished[k].sync && q.finished[k].batch.Some? ==>
              flushed + |Q.AllOps(q.finished[..k + 1])| <= |db.history|
  {
    hide MapAsOf, ApplyAdded;
    hide Inv, Split, Logged, Manifests.NumbersUsed, Manifests.OnlyDown, VersionBuilder.Stepwise;
    hide VersionBuilder.AddedOnce, VersionBuilder.LegalEdit, VersionBuilder.OneOfEach;
    hide Q.AllOps, GroupCommit.WriteQueue.Valid;
    InvSorted(st);
    var s, _ := GroupCommit.CrashAndReplay(q, cut, paranoid);
    var version := VersionBuilder.Recover(Manifests.EmptyVersion(), edits, vs);
    assert q.added[..|s.added|] == s.added;
    db := Reopen(version, flushed, nextFile, s.added, c, maxFileSize, random, st, q.added);
  }
}
