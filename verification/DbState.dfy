/** The database as a state machine (db/db_impl.cc): writes, memtable switches,
    flushes, compactions, moves and snapshots, against the history of writes. */
module DbState {
  import opened Options
  import opened DbFormat
  import opened Versions
  import opened CompactionChoice
  import opened CompactionWork
  import opened LsmSteps

  datatype Op = Put(key: UserKey, value: string) | Delete(key: UserKey)

  function EntryFor(op: Op, s: SequenceNumber): Entry {
    match op
    case Put(k, v) => Entry(InternalKey(k, s, TypeValue), v)
    case Delete(k) => Entry(InternalKey(k, s, TypeDeletion), "")
  }

  /** history lists every write ever made; entry i carries sequence i + 1. The
      database itself does not keep it. */
  datatype State = State(mem: seq<Entry>, imm: Option<seq<Entry>>, version: Version,
                         lastSequence: SequenceNumber, nextFile: nat,
                         snapshots: seq<SequenceNumber>, history: seq<Entry>)

  ghost function ImmEntries(imm: Option<seq<Entry>>): set<Entry> {
    if imm.Some? then EntrySet(imm.value) else {}
  }

  /** Everything the database holds. */
  ghost function Held(st: State): set<Entry> {
    EntrySet(st.mem) + ImmEntries(st.imm) + AllEntries(st.version)
  }

  // ----- the map as of a sequence number -----

  function MapAsOf(history: seq<Entry>, s: nat): map<UserKey, string>
    requires s <= |history|
  {
    if s == 0 then map[]
    else
      var m, e := MapAsOf(history, s - 1), history[s - 1];
      if e.key.kind.TypeValue? then m[e.key.user := e.value] else m - {e.key.user}
  }

  /** Later writes do not change the map as of an earlier sequence number. */
  lemma {:induction false} MapAsOfPrefix(h: seq<Entry>, h2: seq<Entry>, s: nat)
    requires h <= h2 && s <= |h|
    ensures MapAsOf(h, s) == MapAsOf(h2, s)
  {
    if s > 0 { MapAsOfPrefix(h, h2, s - 1); }
  }

  // ----- the invariant -----

  ghost predicate Layer(upper: set<Entry>, lower: set<Entry>) {
    forall x, y :: x in upper && y in lower && x.key.user == y.key.user ==> x.key.sequence > y.key.sequence
  }

  /** Memtables are newer than what lies below them. */
  ghost predicate Layered(st: State) {
    && Layer(EntrySet(st.mem), ImmEntries(st.imm) + AllEntries(st.version))
    && Layer(ImmEntries(st.imm), AllEntries(st.version))
  }

  ghost predicate Recorded(held: set<Entry>, history: seq<Entry>) {
    && (forall i :: 0 <= i < |history| ==> history[i].key.sequence == i + 1)
    && forall e :: e in held ==> 1 <= e.key.sequence <= |history| && history[e.key.sequence - 1] == e
  }

  ghost predicate SortedSnapshots(snapshots: seq<SequenceNumber>) {
    forall i, j :: 0 <= i < j < |snapshots| ==> snapshots[i] <= snapshots[j]
  }

  /** compact->smallest_snapshot: the oldest live snapshot, or the present. */
  function Oldest(st: State): SequenceNumber {
    if st.snapshots == [] then st.lastSequence else st.snapshots[0]
  }

  /** Every read that may still be asked, from snapshot `oldest` on, answers from
      the map of its time. */
  ghost predicate ReadsExact(held: set<Entry>, history: seq<Entry>, oldest: SequenceNumber) {
    forall k, s: SequenceNumber :: oldest <= s <= |history| ==> Lookup(held, k, s) == ReadMap(MapAsOf(history, s), k)
  }

  ghost predicate NumbersBelow(v: Version, n: nat) {
    forall l, f :: 0 <= l < NUM_LEVELS && f in v[l] ==> f.number < n
  }

  /** Structure of the state, apart from what reads mean. */
  ghost predicate Shape(st: State) {
    && SortedEntries(st.mem) && (st.imm.Some? ==> SortedEntries(st.imm.value))
    && LsmInvariant(st.version) && NumbersBelow(st.version, st.nextFile)
    && Layered(st)
    && st.lastSequence == |st.history| < MAX_SEQUENCE && Recorded(Held(st), st.history)
    && SortedSnapshots(st.snapshots) && (forall s :: s in st.snapshots ==> s <= st.lastSequence)
  }

  ghost predicate Inv(st: State) {
    Shape(st) && ReadsExact(Held(st), st.history, Oldest(st))
  }

  lemma OldestInPast(st: State)
    requires Shape(st)
    ensures Oldest(st) <= st.lastSequence
  {
    assert st.snapshots != [] ==> st.snapshots[0] in st.snapshots;
  }

  lemma HeldUnique(st: State)
    requires Recorded(Held(st), st.history)
    ensures UniqueSequences(Held(st))
  {
  }

  ghost predicate Init(st: State) {
    && st.mem == [] && st.imm.None? && (forall l :: 0 <= l < NUM_LEVELS ==> st.version[l] == [])
    && st.lastSequence == 0 && st.snapshots == [] && st.history == []
  }

  lemma InitInv(st: State)
    requires Init(st)
    ensures Inv(st)
  {
    assert Held(st) == {};
    forall k ensures Lookup(Held(st), k, 0) == None {
      LookupNothing(Held(st), k, 0);
    }
  }

  // ----- write -----

  function WriteOne(st: State, op: Op): State
    requires SortedEntries(st.mem) && st.lastSequence < MAX_SEQUENCE
  {
    var e := EntryFor(op, st.lastSequence + 1);
    st.(mem := InsertEntry(st.mem, e), lastSequence := st.lastSequence + 1, history := st.history + [e])
  }

  lemma WriteHeld(st: State, op: Op)
    requires Shape(st)
    ensures SortedEntries(WriteOne(st, op).mem)
    ensures Held(WriteOne(st, op)) == Held(st) + {EntryFor(op, st.lastSequence + 1)}
    ensures EntrySet(WriteOne(st, op).mem) == EntrySet(st.mem) + {EntryFor(op, st.lastSequence + 1)}
  {
    var e := EntryFor(op, st.lastSequence + 1);
    forall x | x in st.mem ensures x.key != e.key {
      assert x in Held(st);
    }
    InsertEntrySorted(st.mem, e);
  }

  /** A read after adding the newest entry. */
  lemma LookupAfterWrite(es: set<Entry>, e: Entry, k: UserKey, s: SequenceNumber)
    requires UniqueSequences(es + {e}) && forall x :: x in es ==> x.key.sequence < e.key.sequence
    ensures Lookup(es + {e}, k, s) == if e.key.user == k && e.key.sequence <= s then Answer(e) else Lookup(es, k, s)
  {
    var all := es + {e};
    if e.key.user == k && e.key.sequence <= s {
      assert NewestAt(all, k, s, e);
      LookupNewest(all, k, s, e);
    } else if x :| x in es && x.key.user == k && x.key.sequence <= s {
      var n := NewestExists(es, k, s, x);
      assert NewestAt(all, k, s, n);
      LookupNewest(es, k, s, n);
      LookupNewest(all, k, s, n);
    } else {
      LookupNothing(es, k, s);
      LookupNothing(all, k, s);
    }
  }

  /** No entry is newer than the last sequence, so later reads agree with it. */
  lemma LookupPastEnd(es: set<Entry>, k: UserKey, last: SequenceNumber, s: SequenceNumber)
    requires UniqueSequences(es) && last <= s && forall x :: x in es ==> x.key.sequence <= last
    ensures Lookup(es, k, s) == Lookup(es, k, last)
  {
    if x :| x in es && x.key.user == k {
      var n := NewestExists(es, k, s, x);
      LookupNewest(es, k, s, n);
      LookupNewest(es, k, last, n);
    } else {
      LookupNothing(es, k, s);
      LookupNothing(es, k, last);
    }
  }

  lemma EarlierReads(held: set<Entry>, history: seq<Entry>, e: Entry, k: UserKey, s: SequenceNumber)
    requires Recorded(held, history) && e.key.sequence == |history| + 1 && s <= |history|
    ensures Lookup(held + {e}, k, s) == Lookup(held, k, s)
    ensures MapAsOf(history + [e], s) == MapAsOf(history, s)
  {
    LookupAfterWrite(held, e, k, s);
    MapAsOfPrefix(history, history + [e], s);
  }

  lemma MapStep(history: seq<Entry>, e: Entry, k: UserKey)
    ensures ReadMap(MapAsOf(history + [e], |history| + 1), k)
         == if e.key.user == k then Answer(e) else ReadMap(MapAsOf(history, |history|), k)
  {
    var h := history + [e];
    MapAsOfPrefix(history, h, |history|);
    assert h[|history|] == e;
    assert MapAsOf(h, |history| + 1)
        == var m := MapAsOf(h, |history|); if e.key.kind.TypeValue? then m[e.key.user := e.value] else m - {e.key.user};
  }

  lemma NewestReads(held: set<Entry>, history: seq<Entry>, e: Entry, k: UserKey)
    requires |history| < MAX_SEQUENCE && Recorded(held, history) && e.key.sequence == |history| + 1
    requires Lookup(held, k, |history|) == ReadMap(MapAsOf(history, |history|), k)
    ensures Lookup(held + {e}, k, |history| + 1) == ReadMap(MapAsOf(history + [e], |history| + 1), k)
  {
    hide Lookup, ReadMap, MapAsOf, Answer;
    RecordedUnique(held, history, e);
    LookupAfterWrite(held, e, k, |history| + 1);
    LookupPastEnd(held, k, |history|, |history| + 1);
    MapStep(history, e, k);
  }

  lemma RecordedUnique(held: set<Entry>, history: seq<Entry>, e: Entry)
    requires Recorded(held, history) && e.key.sequence == |history| + 1
    ensures UniqueSequences(held) && UniqueSequences(held + {e})
    ensures forall x :: x in held ==> x.key.sequence <= |history|
  {
  }

  lemma RecordedAfterWrite(held: set<Entry>, history: seq<Entry>, e: Entry)
    requires Recorded(held, history) && e.key.sequence == |history| + 1
    ensures Recorded(held + {e}, history + [e])
  {
  }

  lemma LayerAfterWrite(mem: set<Entry>, lower: set<Entry>, e: Entry)
    requires Layer(mem, lower) && forall y :: y in lower ==> y.key.sequence < e.key.sequence
    ensures Layer(mem + {e}, lower)
  {
  }

  lemma ReadsAfterWrite(held: set<Entry>, history: seq<Entry>, e: Entry, oldest: SequenceNumber,
                        oldest2: SequenceNumber)
    requires |history| < MAX_SEQUENCE && Recorded(held, history) && e.key.sequence == |history| + 1
    requires ReadsExact(held, history, oldest) && oldest <= |history| && oldest <= oldest2
    ensures ReadsExact(held + {e}, history + [e], oldest2)
  {
    forall k, s: SequenceNumber | oldest2 <= s <= |history| + 1
      ensures Lookup(held + {e}, k, s) == ReadMap(MapAsOf(history + [e], s), k)
    {
      if s <= |history| {
        EarlierReads(held, history, e, k, s);
      } else {
        NewestReads(held, history, e, k);
      }
    }
  }

  lemma WriteOneShape(st: State, op: Op)
    requires Shape(st) && st.lastSequence + 1 < MAX_SEQUENCE
    ensures Shape(WriteOne(st, op))
  {
    var e := EntryFor(op, st.lastSequence + 1);
    WriteHeld(st, op);
    RecordedAfterWrite(Held(st), st.history, e);
    LayerAfterWrite(EntrySet(st.mem), ImmEntries(st.imm) + AllEntries(st.version), e);
  }

  /** A write's key is in no memtable: its sequence number is new. */
  lemma NewKey(st: State, op: Op)
    requires Inv(st) && st.lastSequence + 1 < MAX_SEQUENCE
    ensures forall x :: x in st.mem ==> x.key != EntryFor(op, st.lastSequence + 1).key
  {
    forall x | x in st.mem ensures x.key.sequence <= st.lastSequence {
      assert x in Held(st);
    }
  }

  lemma WriteOneInv(st: State, op: Op)
    requires Inv(st) && st.lastSequence + 1 < MAX_SEQUENCE
    ensures Inv(WriteOne(st, op))
  {
    WriteOneShape(st, op);
    WriteHeld(st, op);
    OldestInPast(st);
    ReadsAfterWrite(Held(st), st.history, EntryFor(op, st.lastSequence + 1), Oldest(st), Oldest(WriteOne(st, op)));
  }

  /** WriteBatchInternal::InsertInto: consecutive sequence numbers in batch order. */
  ghost predicate Wrote(st: State, batch: seq<Op>, st2: State)
    decreases |batch|
  {
    if batch == [] then st2 == st
    else
      && SortedEntries(st.mem) && st.lastSequence + 1 < MAX_SEQUENCE
      && Wrote(WriteOne(st, batch[0]), batch[1..], st2)
  }

  lemma {:induction false} WroteInv(st: State, batch: seq<Op>, st2: State)
    requires Inv(st) && Wrote(st, batch, st2)
    ensures Inv(st2)
    ensures st2.lastSequence == st.lastSequence + |batch| && st.history <= st2.history
    decreases |batch|
  {
    if batch != [] {
      WriteOneInv(st, batch[0]);
      WroteInv(WriteOne(st, batch[0]), batch[1..], st2);
    }
  }

  // ----- what writes mean -----

  /** What the operations of a batch do to a map; no entry has a part in it. */
  function ApplyOp(m: map<UserKey, string>, op: Op): map<UserKey, string> {
    match op
    case Put(k, v) => m[k := v]
    case Delete(k) => m - {k}
  }

  function ApplyOps(m: map<UserKey, string>, ops: seq<Op>): map<UserKey, string>
    decreases |ops|
  {
    if ops == [] then m else ApplyOps(ApplyOp(m, ops[0]), ops[1..])
  }

  lemma {:induction false} ApplyOpsConcat(m: map<UserKey, string>, a: seq<Op>, b: seq<Op>)
    ensures ApplyOps(m, a + b) == ApplyOps(ApplyOps(m, a), b)
    decreases |a|
  {
    if a == [] {
      assert a + b == b;
    } else {
      assert (a + b)[1..] == a[1..] + b;
      ApplyOpsConcat(ApplyOp(m, a[0]), a[1..], b);
    }
  }

  /** A write does to the map what its operation says. */
  lemma WriteOneMap(st: State, op: Op)
    requires SortedEntries(st.mem) && st.lastSequence < MAX_SEQUENCE
    ensures var h := WriteOne(st, op).history;
            MapAsOf(h, |h|) == ApplyOp(MapAsOf(st.history, |st.history|), op)
  {
    var h := WriteOne(st, op).history;
    MapAsOfPrefix(st.history, h, |st.history|);
    assert h[|st.history|] == EntryFor(op, st.lastSequence + 1);
  }

  /** A batch does to the map what its operations do, one after the other. */
  lemma {:induction false} WroteMap(st: State, batch: seq<Op>, st2: State)
    requires Wrote(st, batch, st2)
    ensures MapAsOf(st2.history, |st2.history|) == ApplyOps(MapAsOf(st.history, |st.history|), batch)
    ensures st.history <= st2.history && |st2.history| == |st.history| + |batch|
    decreases |batch|
  {
    hide MapAsOf, ApplyOp;
    if batch != [] {
      WriteOneMap(st, batch[0]);
      WroteMap(WriteOne(st, batch[0]), batch[1..], st2);
    }
  }

  /** Part of a batch, written. */
  lemma {:induction false} WroteSome(st: State, batch: seq<Op>, st2: State, n: nat) returns (mid: State)
    requires Wrote(st, batch, st2) && n <= |batch|
    ensures Wrote(st, batch[..n], mid) && mid.history <= st2.history
    decreases |batch|
  {
    if n == 0 {
      mid := st;
      WroteMap(st, batch, st2);
    } else {
      mid := WroteSome(WriteOne(st, batch[0]), batch[1..], st2, n - 1);
      assert batch[..n][1..] == batch[1..][..n - 1];
    }
  }

  // ----- memtable switch and flush -----

  /** MakeRoomForWrite: the full memtable becomes immutable. */
  ghost predicate Switched(st: State, st2: State) {
    && st.imm.None? && st.nextFile <= st2.nextFile
    && st2 == st.(imm := Some(st.mem), mem := [], nextFile := st2.nextFile)
  }

  lemma SwitchedShape(st: State, st2: State)
    requires Shape(st) && Switched(st, st2)
    ensures Shape(st2) && Held(st2) == Held(st)
  {
    assert EntrySet(st2.mem) == {};
    assert Held(st2) == Held(st);
    assert ImmEntries(st.imm) + AllEntries(st.version) == AllEntries(st2.version);
  }

  lemma SwitchedInv(st: State, st2: State)
    requires Inv(st) && Switched(st, st2)
    ensures Inv(st2)
  {
    SwitchedShape(st, st2);
  }

  /** CompactMemTable: the immutable memtable becomes file n at a free level; an
      empty one just goes away. */
  ghost predicate Flushed(st: State, level: nat, n: File, st2: State) {
    && st.imm.Some? && st.nextFile <= st2.nextFile
    && st2 == st.(imm := None, version := st2.version, nextFile := st2.nextFile)
    && if st.imm.value == [] then st2.version == st.version
       else
         && n.entries == st.imm.value && st.nextFile <= n.number < st2.nextFile
         && LevelFree(st.version, level, n) && FileAdded(st.version, level, n, st2.version)
  }

  lemma FlushedLsm(st: State, level: nat, n: File, st2: State)
    requires Shape(st) && Flushed(st, level, n, st2) && st.imm.value != []
    ensures LsmInvariant(st2.version) && NumbersBelow(st2.version, st2.nextFile)
    ensures AllEntries(st2.version) == AllEntries(st.version) + ImmEntries(st.imm)
  {
    HeldUnique(st);
    assert AllEntries(st.version) + EntrySet(n.entries) <= Held(st);
    forall l, f | 0 <= l < NUM_LEVELS && f in st.version[l] ensures NewerThan(n, f) {
      forall a, b | a in n.entries && b in f.entries && a.key.user == b.key.user
        ensures a.key.sequence > b.key.sequence
      {
        InAllEntries(st.version, l, f, b);
      }
    }
    FlushKeepsInvariant(st.version, level, n, st2.version);
    FlushEntries(st.version, level, n, st2.version);
  }

  lemma FlushedInv(st: State, level: nat, n: File, st2: State)
    requires Inv(st) && Flushed(st, level, n, st2)
    ensures Inv(st2)
  {
    if st.imm.value != [] {
      FlushedLsm(st, level, n, st2);
    }
    assert Held(st2) == Held(st);
  }

  // ----- compaction -----

  /** One compaction: its inputs, the merged input, and the output files. */
  datatype Job = Job(level: nat, in0: seq<File>, in1: seq<File>, input: seq<Entry>, outs: seq<File>)

  ghost predicate FreshOutputs(outs: seq<File>, lo: nat, hi: nat) {
    && (forall o :: o in outs ==> lo <= o.number < hi)
    && forall i, j :: 0 <= i < j < |outs| ==> outs[i].number != outs[j].number
  }

  /** DoCompactionWork and InstallCompactionResults. */
  ghost predicate Compacted(st: State, job: Job, st2: State) {
    && st.nextFile <= st2.nextFile
    && st2 == st.(version := st2.version, nextFile := st2.nextFile)
    && ClosedInputs(st.version, job.level, job.in0, job.in1)
    && MergedInput(job.in0 + job.in1, job.input)
    && OutputsHold(job.outs, Kept(st.version, job.level, job.input, Oldest(st), |job.input|))
    && FreshOutputs(job.outs, st.nextFile, st2.nextFile)
    && Installed(st.version, job.level, job.in0, job.in1, job.outs, st2.version)
  }

  /** What a compaction writes holds nothing obsolete. */
  lemma CompactedMinimal(st: State, job: Job, st2: State)
    requires Compacted(st, job, st2)
    ensures Minimal(st.version, job.level, Oldest(st), FileEntries(job.outs))
  {
    KeptMinimal(st.version, job.level, job.input, Oldest(st));
  }

  lemma FreshAreFree(v: Version, n: nat, job: Job, hi: nat)
    requires NumbersBelow(v, n) && FreshOutputs(job.outs, n, hi) && job.level + 1 < NUM_LEVELS
    ensures NumbersFree(v, job.level, job.in0, job.in1, job.outs)
  {
  }

  lemma NumbersAfter(v: Version, n: nat, job: Job, hi: nat, w: Version)
    requires NumbersBelow(v, n) && FreshOutputs(job.outs, n, hi) && n <= hi
    requires Installed(v, job.level, job.in0, job.in1, job.outs, w)
    ensures NumbersBelow(w, hi)
  {
    forall l, f | 0 <= l < NUM_LEVELS && f in w[l] ensures f.number < hi {
      assert f in v[l] || f in job.outs;
    }
  }

  lemma CompactedEntries(v: Version, job: Job, smallest: SequenceNumber, w: Version)
    requires ClosedInputs(v, job.level, job.in0, job.in1) && MergedInput(job.in0 + job.in1, job.input)
    requires OutputsHold(job.outs, Kept(v, job.level, job.input, smallest, |job.input|))
    requires Installed(v, job.level, job.in0, job.in1, job.outs, w)
    ensures AllEntries(w) <= AllEntries(v)
  {
    EntriesBefore(v, job.level, job.in0, job.in1);
    EntriesAfter(v, job.level, job.in0, job.in1, job.outs, w);
    KeptMembers(v, job.level, job.input, smallest, |job.input|);
    forall e | e in FileEntries(job.outs) ensures e in EntrySet(job.input) {
      assert e in Kept(v, job.level, job.input, smallest, |job.input|);
    }
  }

  lemma CompactedLsm(st: State, job: Job, st2: State)
    requires Shape(st) && Compacted(st, job, st2)
    ensures LsmInvariant(st2.version) && NumbersBelow(st2.version, st2.nextFile)
    ensures AllEntries(st2.version) <= AllEntries(st.version)
  {
    KeptFromInputs(st.version, job.level, job.in0 + job.in1, job.input, Oldest(st), job.outs);
    FreshAreFree(st.version, st.nextFile, job, st2.nextFile);
    CompactionKeepsInvariant(st.version, job.level, job.in0, job.in1, job.outs, st2.version);
    NumbersAfter(st.version, st.nextFile, job, st2.nextFile, st2.version);
    CompactedEntries(st.version, job, Oldest(st), st2.version);
  }

  lemma CompactedReads(st: State, job: Job, st2: State)
    requires Inv(st) && Compacted(st, job, st2)
    ensures ReadsExact(Held(st2), st2.history, Oldest(st2))
  {
    var newer := EntrySet(st.mem) + ImmEntries(st.imm);
    HeldUnique(st);
    OldestInPast(st);
    forall k, s: SequenceNumber | Oldest(st2) <= s <= |st2.history|
      ensures Lookup(Held(st2), k, s) == ReadMap(MapAsOf(st2.history, s), k)
    {
      CompactionPreservesReads(st.version, job.level, job.in0, job.in1, job.input, Oldest(st), job.outs, st2.version,
                               newer, k, s);
      assert Held(st) == newer + AllEntries(st.version) && Held(st2) == newer + AllEntries(st2.version);
    }
  }

  lemma CompactedInv(st: State, job: Job, st2: State)
    requires Inv(st) && Compacted(st, job, st2)
    ensures Inv(st2)
  {
    CompactedLsm(st, job, st2);
    CompactedReads(st, job, st2);
    assert Held(st2) <= Held(st);
  }

  // ----- trivial move -----

  /** A file that no file below meets moves down one level unchanged. */
  ghost predicate Moved(st: State, level: nat, f: File, st2: State) {
    && st2 == st.(version := st2.version)
    && ClosedInputs(st.version, level, [f], [])
    && Installed(st.version, level, [f], [], [f], st2.version)
  }

  lemma MovedInv(st: State, level: nat, f: File, st2: State)
    requires Inv(st) && Moved(st, level, f, st2)
    ensures Inv(st2)
  {
    hide Lookup, ReadMap, MapAsOf, ReadsExact;
    var v := st.version;
    assert f in [f] && f in v[level];
    forall l, g | 0 <= l < NUM_LEVELS && g in v[l] && Outside(level, [f], [], l, g) ensures !SameNumber(g, f) {
    }
    CompactionKeepsInvariant(v, level, [f], [], [f], st2.version);
    assert [f] + [] == [f];
    EntriesBefore(v, level, [f], []);
    EntriesAfter(v, level, [f], [], [f], st2.version);
    assert Held(st2) == Held(st);
  }

  // ----- snapshots -----

  ghost predicate TookSnapshot(st: State, st2: State) {
    st2 == st.(snapshots := st.snapshots + [st.lastSequence])
  }

  ghost predicate ReleasedSnapshot(st: State, i: nat, st2: State) {
    i < |st.snapshots| && st2 == st.(snapshots := st.snapshots[..i] + st.snapshots[i + 1..])
  }

  lemma TookSnapshotInv(st: State, st2: State)
    requires Inv(st) && TookSnapshot(st, st2)
    ensures Inv(st2)
  {
    OldestInPast(st);
    assert Held(st2) == Held(st);
    forall i, j | 0 <= i < j < |st2.snapshots| ensures st2.snapshots[i] <= st2.snapshots[j] {
      assert st.snapshots[i] in st.snapshots;
    }
  }

  lemma ReleasedSnapshotInv(st: State, i: nat, st2: State)
    requires Inv(st) && ReleasedSnapshot(st, i, st2)
    ensures Inv(st2)
  {
    hide Lookup, ReadMap, MapAsOf, LsmInvariant, SortedSnapshots, Recorded, Layer, SortedEntries;
    SnapshotGone(st.snapshots, i);
    assert Held(st2) == Held(st);
    OldestInPast(st);
    FirstIsOldest(st.snapshots);
    var rest := st.snapshots[..i] + st.snapshots[i + 1..];
    assert rest != [] ==> rest[0] in rest && rest[0] in st.snapshots;
    assert Oldest(st) <= Oldest(st2);
    assert forall s :: s in st2.snapshots ==> s in rest && s in st.snapshots;
  }

  lemma SnapshotGone(snapshots: seq<SequenceNumber>, i: nat)
    requires SortedSnapshots(snapshots) && i < |snapshots|
    ensures SortedSnapshots(snapshots[..i] + snapshots[i + 1..])
    ensures forall s :: s in snapshots[..i] + snapshots[i + 1..] ==> s in snapshots
  {
    var rest := snapshots[..i] + snapshots[i + 1..];
    assert forall a :: 0 <= a < |rest| ==> rest[a] == snapshots[if a < i then a else a + 1];
  }

  lemma FirstIsOldest(snapshots: seq<SequenceNumber>)
    requires SortedSnapshots(snapshots)
    ensures forall s :: s in snapshots ==> snapshots[0] <= s
  {
    forall s | s in snapshots ensures snapshots[0] <= s {
      var j :| 0 <= j < |snapshots| && snapshots[j] == s;
    }
  }

  // ----- runs -----

  ghost predicate Next(st: State, st2: State) {
    || (exists batch :: Wrote(st, batch, st2))
    || Switched(st, st2)
    || (exists level: nat, n: File :: Flushed(st, level, n, st2))
    || (exists job :: Compacted(st, job, st2))
    || (exists level: nat, f: File :: Moved(st, level, f, st2))
    || TookSnapshot(st, st2)
    || (exists i: nat :: ReleasedSnapshot(st, i, st2))
  }

  lemma NextInv(st: State, st2: State)
    requires Inv(st) && Next(st, st2)
    ensures Inv(st2) && st.history <= st2.history
  {
    if batch :| Wrote(st, batch, st2) {
      WroteInv(st, batch, st2);
    } else if Switched(st, st2) {
      SwitchedInv(st, st2);
    } else if level: nat, n: File :| Flushed(st, level, n, st2) {
      FlushedInv(st, level, n, st2);
    } else if job :| Compacted(st, job, st2) {
      CompactedInv(st, job, st2);
    } else if level: nat, f: File :| Moved(st, level, f, st2) {
      MovedInv(st, level, f, st2);
    } else if TookSnapshot(st, st2) {
      TookSnapshotInv(st, st2);
    } else {
      var i: nat :| ReleasedSnapshot(st, i, st2);
      ReleasedSnapshotInv(st, i, st2);
    }
  }

  ghost predicate Run(run: seq<State>) {
    run != [] && Init(run[0]) && forall i :: 0 <= i < |run| - 1 ==> Next(run[i], run[i + 1])
  }

  /** Whole-run safety: the LSM invariant and exact reads hold in every state of
      every run from the empty database. */
  lemma {:induction false} RunSafe(run: seq<State>, i: nat)
    requires Run(run) && i < |run|
    ensures Inv(run[i])
  {
    if i == 0 {
      InitInv(run[0]);
    } else {
      RunSafe(run, i - 1);
      assert Next(run[i - 1], run[i - 1 + 1]);
      NextInv(run[i - 1], run[i]);
    }
  }

  lemma {:induction false} HistoryGrows(run: seq<State>, i: nat, j: nat)
    requires Run(run) && i <= j < |run|
    ensures run[i].history <= run[j].history
  {
    hide Inv, Next;
    if i < j {
      HistoryGrows(run, i, j - 1);
      RunSafe(run, j - 1);
      assert Next(run[j - 1], run[j - 1 + 1]);
      NextInv(run[j - 1], run[j]);
    }
  }

  /** A live snapshot keeps reading the map of the moment it was taken: in any
      later state j it reads what the map was, as of s, in state i. */
  lemma SnapshotStable(run: seq<State>, i: nat, j: nat, k: UserKey, s: SequenceNumber)
    requires Run(run) && i <= j < |run|
    requires s in run[j].snapshots && s <= |run[i].history|
    ensures Lookup(Held(run[j]), k, s) == ReadMap(MapAsOf(run[i].history, s), k)
  {
    RunSafe(run, j);
    HistoryGrows(run, i, j);
    OldestFirst(run[j], s);
    MapAsOfPrefix(run[i].history, run[j].history, s);
  }

  // ----- runs against the operations issued -----

  /** The operations that the write steps of a run have issued by step i. */
  ghost predicate Issued(run: seq<State>, i: nat, ops: seq<Op>)
    requires i < |run|
  {
    if i == 0 then ops == []
    else exists before: seq<Op>, batch: seq<Op> ::
      ops == before + batch && Issued(run, i - 1, before) && Added(run[i - 1], batch, run[i])
  }

  /** A step that writes a batch, or one that writes nothing. */
  ghost predicate Added(st: State, batch: seq<Op>, st2: State) {
    Wrote(st, batch, st2) || (batch == [] && st2.history == st.history)
  }

  lemma {:induction false} IssuedExists(run: seq<State>, i: nat) returns (ops: seq<Op>)
    requires Run(run) && i < |run|
    ensures Issued(run, i, ops)
    decreases i
  {
    if i == 0 {
      ops := [];
    } else {
      var before := IssuedExists(run, i - 1);
      var st, st2 := run[i - 1], run[i];
      assert Next(st, st2);
      var batch: seq<Op> := [];
      if b :| Wrote(st, b, st2) {
        batch := b;
      }
      ops := before + batch;
      assert Added(st, batch, st2);
    }
  }

  /** At every point of the history of a run, the map is what the operations issued
      up to that point make of the empty map. */
  lemma {:induction false} IssuedMap(run: seq<State>, i: nat, ops: seq<Op>, s: nat)
    requires Run(run) && i < |run| && Issued(run, i, ops)
    requires s <= |ops|
    ensures |run[i].history| == |ops| && MapAsOf(run[i].history, s) == ApplyOps(map[], ops[..s])
    decreases i
  {
    hide MapAsOf, ApplyOps, Wrote;
    if i == 0 {
      NothingApplied(run[0].history);
    } else {
      var before, batch :|
        ops == before + batch && Issued(run, i - 1, before) && Added(run[i - 1], batch, run[i]);
      var st, st2 := run[i - 1], run[i];
      if s <= |before| {
        IssuedMap(run, i - 1, before, s);
        AddedGrows(st, batch, st2);
        MapAsOfPrefix(st.history, st2.history, s);
        assert ops[..s] == before[..s];
      } else {
        IssuedMap(run, i - 1, before, |before|);
        assert before[..|before|] == before;
        var n := s - |before|;
        PartMap(st, batch, st2, n);
        ApplyOpsConcat(map[], before, batch[..n]);
        assert ops[..s] == before + batch[..n];
      }
    }
  }

  lemma NothingApplied(history: seq<Entry>)
    ensures MapAsOf(history, 0) == map[] == ApplyOps(map[], [])
  {
  }

  lemma AddedGrows(st: State, batch: seq<Op>, st2: State)
    requires Added(st, batch, st2)
    ensures st.history <= st2.history && |st2.history| == |st.history| + |batch|
  {
    hide MapAsOf, ApplyOps;
    if Wrote(st, batch, st2) {
      WroteMap(st, batch, st2);
    }
  }

  lemma PartMap(st: State, batch: seq<Op>, st2: State, n: nat)
    requires Added(st, batch, st2) && 0 < n <= |batch|
    ensures |st2.history| == |st.history| + |batch|
    ensures MapAsOf(st2.history, |st.history| + n) == ApplyOps(MapAsOf(st.history, |st.history|), batch[..n])
  {
    hide MapAsOf, ApplyOps;
    WroteMap(st, batch, st2);
    var mid := WroteSome(st, batch, st2, n);
    WroteMap(st, batch[..n], mid);
    MapAsOfPrefix(mid.history, st2.history, |mid.history|);
  }

  /** Whole-run correctness against operations: every live read of every state of
      every run answers as the plain map that the operations issued up to the
      snapshot make. */
  lemma RunReads(run: seq<State>, i: nat, ops: seq<Op>, k: UserKey, s: SequenceNumber)
    requires Run(run) && i < |run| && Issued(run, i, ops)
    requires s in run[i].snapshots || s == run[i].lastSequence
    ensures s <= |ops| && Lookup(Held(run[i]), k, s) == ReadMap(ApplyOps(map[], ops[..s]), k)
  {
    hide MapAsOf, ApplyOps, Lookup;
    RunSafe(run, i);
    IssuedMap(run, i, ops, 0);
    OldestInPast(run[i]);
    if s in run[i].snapshots {
      OldestFirst(run[i], s);
    }
    IssuedMap(run, i, ops, s);
  }

  lemma OldestFirst(st: State, s: SequenceNumber)
    requires Inv(st) && s in st.snapshots
    ensures Oldest(st) <= s <= |st.history|
  {
  }
}
