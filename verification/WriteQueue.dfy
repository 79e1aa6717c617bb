/** The protocol of the writer queue (db/db_impl.cc, Write and BuildBatchGroup):
    group commit, with batches as the operations they hold. */
module WriteQueues {
  import opened Options
  import opened WriteBatches
  import opened WriteGroups
  import DbFormat

  /** A call of Write: its batch, or none for a compaction request. */
  datatype Writer = Writer(id: nat, batch: Option<seq<Op>>, sync: bool)

  function Ops(w: Writer): seq<Op> { if w.batch.Some? then w.batch.value else [] }

  /** The bytes a writer adds to a group. */
  function Size(w: Writer): nat
    requires w.batch.Some?
  {
    BATCH_HEADER + |EncodeOps(w.batch.value)|
  }

  function AllOps(writers: seq<Writer>): seq<Op> {
    if writers == [] then [] else Ops(writers[0]) + AllOps(writers[1..])
  }

  lemma {:induction false} AllOpsConcat(a: seq<Writer>, b: seq<Writer>)
    ensures AllOps(a + b) == AllOps(a) + AllOps(b)
  {
    if a == [] {
      assert a + b == b;
    } else {
      assert (a + b)[1..] == a[1..] + b;
      AllOpsConcat(a[1..], b);
    }
  }

  lemma AllOpsSnoc(writers: seq<Writer>, k: nat)
    requires k < |writers|
    ensures AllOps(writers[..k + 1]) == AllOps(writers[..k]) + Ops(writers[k])
  {
    AllOpsConcat(writers[..k], [writers[k]]);
    assert writers[..k + 1] == writers[..k] + [writers[k]];
    assert AllOps([writers[k]]) == Ops(writers[k]) + AllOps([]);
  }

  /** A batch as the count and the length fields of its bytes allow. */
  ghost predicate Storable(w: Writer) {
    w.batch.Some? ==> |w.batch.value| < MAX_COUNT && forall i :: 0 <= i < |w.batch.value| ==> Fits(w.batch.value[i])
  }

  ghost predicate AllStorable(writers: seq<Writer>) { forall i :: 0 <= i < |writers| ==> Storable(writers[i]) }

  lemma {:induction false} AllOpsFit(writers: seq<Writer>)
    requires AllStorable(writers)
    ensures forall i :: 0 <= i < |AllOps(writers)| ==> Fits(AllOps(writers)[i])
  {
    hide Fits;
    if writers != [] {
      assert Storable(writers[0]);
      AllOpsFit(writers[1..]);
    }
  }

  lemma AllOpsFirst(writers: seq<Writer>)
    requires writers != []
    ensures AllOps(writers[..1]) == Ops(writers[0])
  {
    AllOpsSnoc(writers, 0);
  }

  // ----- groups -----

  const ONE_MB: nat := 0x10_0000
  const SMALL: nat := 0x2_0000

  /** The limit on a group, by the size of its first batch. */
  function MaxSize(first: nat): nat { if first <= SMALL then first + SMALL else ONE_MB }

  /** The bytes of the first k writers. */
  function GroupSize(queue: seq<Writer>, k: nat): nat
    requires k <= |queue|
  {
    if k == 0 then 0
    else GroupSize(queue, k - 1) + if queue[k - 1].batch.Some? then Size(queue[k - 1]) else 0
  }

  /** Writer k may join the group of the writers in front of it. */
  predicate Joins(queue: seq<Writer>, k: nat)
    requires 0 < k < |queue| && queue[0].batch.Some?
  {
    && (queue[k].sync ==> queue[0].sync)
    && (queue[k].batch.Some? ==> GroupSize(queue, k + 1) <= MaxSize(Size(queue[0])))
  }

  /** The group of the queue's head is its longest run of joining writers. */
  ghost predicate IsGroup(queue: seq<Writer>, k: nat)
    requires queue != [] && queue[0].batch.Some?
  {
    && 0 < k <= |queue|
    && (forall j :: 0 < j < k ==> Joins(queue, j))
    && (k < |queue| ==> !Joins(queue, k))
  }

  lemma {:induction false} OpsBelowBytes(ops: seq<Op>)
    ensures |ops| <= |EncodeOps(ops)|
  {
    if ops != [] {
      OpsBelowBytes(ops[1..]);
    }
  }

  lemma {:induction false} OpsBelowSize(queue: seq<Writer>, k: nat)
    requires k <= |queue|
    ensures |AllOps(queue[..k])| <= GroupSize(queue, k)
    decreases k
  {
    hide EncodeOps, AllOps;
    if k > 0 {
      OpsBelowSize(queue, k - 1);
      AllOpsSnoc(queue, k - 1);
      OpsBelowBytes(Ops(queue[k - 1]));
    } else {
      NoWriters(queue);
    }
  }

  lemma NoWriters(queue: seq<Writer>)
    ensures AllOps(queue[..0]) == []
  {
  }

  /** A group is its leader's batch alone, or no more than a megabyte. */
  lemma {:induction false} GroupSmall(queue: seq<Writer>, k: nat)
    requires queue != [] && queue[0].batch.Some? && 0 < k <= |queue| && forall j :: 0 < j < k ==> Joins(queue, j)
    ensures AllOps(queue[..k]) == Ops(queue[0]) || GroupSize(queue, k) <= ONE_MB
    decreases k
  {
    hide AllOps, Size, GroupSize;
    if k == 1 {
      AllOpsFirst(queue);
    } else {
      GroupSmall(queue, k - 1);
      AllOpsSnoc(queue, k - 1);
      assert Joins(queue, k - 1);
      if queue[k - 1].batch.None? {
        SameSize(queue, k - 1);
      }
    }
  }

  lemma SameSize(queue: seq<Writer>, k: nat)
    requires k < |queue| && queue[k].batch.None?
    ensures GroupSize(queue, k + 1) == GroupSize(queue, k)
  {
  }

  /** So its operations are as many as a batch header can count. */
  lemma GroupCounts(queue: seq<Writer>, k: nat)
    requires queue != [] && queue[0].batch.Some? && 0 < k <= |queue| && forall j :: 0 < j < k ==> Joins(queue, j)
    requires AllStorable(queue)
    ensures |AllOps(queue[..k])| < MAX_COUNT
  {
    hide AllOps, GroupSize, Joins, Fits;
    GroupSmall(queue, k);
    OpsBelowSize(queue, k);
    assert Storable(queue[0]);
  }

  // ----- runs -----

  datatype Phase = Idle | Writing(count: nat)

  /** queue waits; log is every operation in the memtable, with its number; groups
      is every record in the log file, of which the first `synced` are on disk for
      certain; finished is every writer that has returned, in order. */
  datatype State = State(queue: seq<Writer>, phase: Phase, base: nat, lastSequence: nat, log: seq<(nat, Op)>,
                         groups: seq<Group>, synced: nat, finished: seq<Writer>)

  /** A log has just been opened; some writers may wait already. */
  ghost predicate Init(s: State) {
    && AllStorable(s.queue) && s.phase == Idle && s.base == s.lastSequence
    && s.log == [] && s.groups == [] && s.synced == 0 && s.finished == []
  }

  ghost predicate Enqueued(s: State, t: State, w: Writer) {
    Storable(w) && t == s.(queue := s.queue + [w])
  }

  /** The head of the queue starts to write: a group, or no more than itself when
      it has no batch. Sequence numbers have not run out. */
  ghost predicate Led(s: State, t: State, k: nat) {
    && s.phase.Idle? && s.queue != []
    && (if s.queue[0].batch.Some? then IsGroup(s.queue, k) else k == 1)
    && k <= |s.queue| && s.lastSequence + |AllOps(s.queue[..k])| < DbFormat.MAX_SEQUENCE
    && t == s.(phase := Writing(k))
  }

  /** The group's batch is in the log and the memtable, the log is synced if the
      leader asked for it, and the group's writers return. Without a batch there
      is nothing to write. */
  ghost predicate Completed(s: State, t: State) {
    && s.phase.Writing? && 0 < s.phase.count <= |s.queue|
    && t == Returned(if s.queue[0].batch.Some? then Written(s, AllOps(s.queue[..s.phase.count]), s.queue[0].sync)
                     else s, s.phase.count)
  }

  ghost function Returned(s: State, k: nat): State
    requires k <= |s.queue|
  {
    s.(queue := s.queue[k..], phase := Idle, finished := s.finished + s.queue[..k])
  }

  ghost function Written(s: State, ops: seq<Op>, sync: bool): State {
    s.(lastSequence := s.lastSequence + |ops|, log := s.log + Numbered(ops, s.lastSequence),
       groups := s.groups + [Group(s.lastSequence + 1, ops)], synced := if sync then |s.groups| + 1 else s.synced)
  }

  ghost predicate Next(s: State, t: State) {
    || (exists w :: Enqueued(s, t, w))
    || (exists k :: Led(s, t, k))
    || Completed(s, t)
  }

  /** The records of the log are what recovery needs, and hold what the finished
      writers asked for. */
  ghost predicate LogInv(s: State) {
    AllWritable(s.groups) && Consecutive(s.groups, s.base) && OpsOf(s.groups) == AllOps(s.finished)
  }

  /** The operations of the records that are on disk for certain. */
  ghost function OnDisk(s: State): seq<Op>
    requires s.synced <= |s.groups|
  {
    OpsOf(s.groups[..s.synced])
  }

  /** Every finished writer that asked for it has its operations on disk. */
  ghost predicate SyncInv(s: State)
    requires s.synced <= |s.groups|
  {
    forall k :: 0 <= k < |s.finished| && s.finished[k].sync && s.finished[k].batch.Some? ==>
      |AllOps(s.finished[..k + 1])| <= |OnDisk(s)|
  }

  /** Finished writers applied exactly their operations, in order, numbered one
      after the other. */
  ghost predicate Inv(s: State) {
    && s.log == Numbered(AllOps(s.finished), s.base)
    && s.lastSequence == s.base + |AllOps(s.finished)|
    && LogInv(s) && s.synced <= |s.groups| && SyncInv(s) && AllStorable(s.queue)
    && (s.phase.Writing? ==> 0 < s.phase.count <= |s.queue| && LeadInv(s))
  }

  /** What the leader's group is like, while more writers may come in behind it. */
  ghost predicate LeadInv(s: State)
    requires s.phase.Writing? && 0 < s.phase.count <= |s.queue|
  {
    && (s.queue[0].batch.None? ==> s.phase.count == 1)
    && (forall k :: 0 <= k < s.phase.count && s.queue[k].sync ==> s.queue[0].sync)
    && |AllOps(s.queue[..s.phase.count])| < MAX_COUNT
    && s.lastSequence + |AllOps(s.queue[..s.phase.count])| < DbFormat.MAX_SEQUENCE
  }

  lemma InitInv(s: State)
    requires Init(s)
    ensures Inv(s)
  {
    hide Fits, Storable;
    NoOps();
  }

  lemma EnqueuedInv(s: State, t: State, w: Writer)
    requires Inv(s) && Enqueued(s, t, w)
    ensures Inv(t)
  {
    hide Storable, AllOps, Writable, OpsOf, Consecutive;
    if s.phase.Writing? {
      assert t.queue[..s.phase.count] == s.queue[..s.phase.count];
    }
  }

  lemma LedInv(s: State, t: State, k: nat)
    requires Inv(s) && Led(s, t, k)
    ensures Inv(t)
  {
    hide GroupSize, Size, AllOps, Writable, OpsOf, Consecutive, Storable;
    if s.queue[0].batch.Some? {
      forall j | 0 < j < k ensures s.queue[j].sync ==> s.queue[0].sync {
        assert Joins(s.queue, j);
      }
      GroupCounts(s.queue, k);
    } else {
      AllOpsFirst(s.queue);
    }
  }

  lemma CompletedInv(s: State, t: State)
    requires Inv(s) && Completed(s, t)
    ensures Inv(t)
  {
    hide AllOps, Writable, OpsOf, Storable, Numbered, Consecutive;
    var group := s.queue[..s.phase.count];
    AllOpsConcat(s.finished, group);
    NumberedConcat(AllOps(s.finished), AllOps(group), s.base);
    if s.queue[0].batch.Some? {
      CompletedLog(s, t);
      CompletedSync(s, t);
    } else {
      AllOpsFirst(s.queue);
      NumberedNone(s.log);
      LeftSync(s, t);
    }
  }

  lemma NumberedNone(log: seq<(nat, Op)>)
    ensures forall n: nat :: log + Numbered([], n) == log
  {
  }

  lemma CompletedLog(s: State, t: State)
    requires Inv(s) && Completed(s, t) && s.queue[0].batch.Some?
    ensures LogInv(t)
  {
    hide AllOps, Fits, Numbered, Consecutive, OpsOf;
    var group := s.queue[..s.phase.count];
    AllOpsConcat(s.finished, group);
    assert AllStorable(group);
    AllOpsFit(group);
    GroupsSnoc(s.groups, s.base, Group(s.lastSequence + 1, AllOps(group)));
  }

  /** A sync leader puts everything on disk; otherwise no writer of its group asked
      for that. */
  lemma CompletedSync(s: State, t: State)
    requires Inv(s) && Completed(s, t) && s.queue[0].batch.Some? && LogInv(t)
    ensures t.synced <= |t.groups| && SyncInv(t)
  {
    hide AllOps, Writable, OpsOf, Storable, Numbered, Consecutive;
    if s.queue[0].sync {
      assert t.groups[..t.synced] == t.groups;
      forall k | 0 <= k < |t.finished| && t.finished[k].sync && t.finished[k].batch.Some?
        ensures |AllOps(t.finished[..k + 1])| <= |OnDisk(t)|
      {
        AllOpsConcat(t.finished[..k + 1], t.finished[k + 1..]);
        assert t.finished[..k + 1] + t.finished[k + 1..] == t.finished;
      }
    } else {
      assert t.groups[..t.synced] == s.groups[..s.synced];
      FinishedBefore(s, t);
    }
  }

  lemma LeftSync(s: State, t: State)
    requires Inv(s) && Completed(s, t) && s.queue[0].batch.None?
    ensures t.synced <= |t.groups| && SyncInv(t)
  {
    hide AllOps, Writable, OpsOf, Storable, Numbered, Consecutive;
    forall k | 0 <= k < |t.finished| && t.finished[k].sync && t.finished[k].batch.Some?
      ensures |AllOps(t.finished[..k + 1])| <= |OnDisk(t)|
    {
      assert k < |s.finished| && t.finished[..k + 1] == s.finished[..k + 1] && s.finished[k] == t.finished[k];
    }
  }

  lemma FinishedBefore(s: State, t: State)
    requires Inv(s) && Completed(s, t) && s.queue[0].batch.Some? && !s.queue[0].sync
    requires t.synced <= |t.groups| && OnDisk(t) == OnDisk(s)
    ensures SyncInv(t)
  {
    hide AllOps, Writable, OpsOf, Storable, Numbered, Consecutive;
    forall k | 0 <= k < |t.finished| && t.finished[k].sync && t.finished[k].batch.Some?
      ensures |AllOps(t.finished[..k + 1])| <= |OnDisk(t)|
    {
      assert t.finished[..k + 1] == s.finished[..k + 1] && s.finished[k] == t.finished[k];
    }
  }

  lemma NextInv(s: State, t: State)
    requires Inv(s) && Next(s, t)
    ensures Inv(t)
  {
    hide Inv, Completed, Led, Enqueued;
    if Completed(s, t) {
      CompletedInv(s, t);
    } else if k :| Led(s, t, k) {
      LedInv(s, t, k);
    } else {
      var w :| Enqueued(s, t, w);
      EnqueuedInv(s, t, w);
    }
  }

  ghost predicate Run(run: seq<State>) {
    |run| > 0 && Init(run[0]) && forall k :: 0 <= k < |run| - 1 ==> Next(run[k], run[k + 1])
  }

  lemma {:induction false} RunInv(run: seq<State>, k: nat)
    requires Run(run) && k < |run|
    ensures Inv(run[k])
    decreases k
  {
    hide Inv, Next, Init;
    if k > 0 {
      RunInv(run, k - 1);
      NextInv(run[k - 1], run[k]);
    } else {
      InitInv(run[0]);
    }
  }

  /** The calls of Write up to step k of a run, in their order: those that waited at
      its start, and one for each step that makes the queue longer. */
  ghost function Calls(run: seq<State>, k: nat): seq<Writer>
    requires k < |run|
  {
    if k == 0 then run[0].queue
    else
      var before, now := run[k - 1].queue, run[k].queue;
      Calls(run, k - 1) + if |now| > |before| then [now[|now| - 1]] else []
  }

  /** No call is lost and none is served twice or out of turn: the writers that have
      returned and those that wait are all the calls, in order. */
  lemma {:induction false} InOrder(run: seq<State>, k: nat)
    requires Run(run) && k < |run|
    ensures run[k].finished + run[k].queue == Calls(run, k)
    decreases k
  {
    hide Inv, Led, Storable, Numbered, AllOps;
    if k > 0 {
      InOrder(run, k - 1);
      var s, t := run[k - 1], run[k];
      assert Next(s, t);
      if Completed(s, t) {
        assert s.queue == s.queue[..s.phase.count] + s.queue[s.phase.count..];
      } else if w :| Enqueued(s, t, w) {
        assert s.finished + (s.queue + [w]) == s.finished + s.queue + [w];
      } else {
        SameQueue(s, t);
      }
    }
  }

  lemma SameQueue(s: State, t: State)
    requires exists k :: Led(s, t, k)
    ensures t.queue == s.queue && t.finished == s.finished
  {
  }

  /** Over a whole run, memtable and log file hold the operations of a prefix of the
      calls of Write: each once, in the order of the calls, with consecutive numbers;
      and the records of the log are such as recovery reads back. */
  lemma WholeRun(run: seq<State>, k: nat)
    requires Run(run) && k < |run|
    ensures run[k].finished <= Calls(run, k)
    ensures run[k].log == Numbered(AllOps(run[k].finished), run[0].base)
    ensures AllWritable(run[k].groups) && Consecutive(run[k].groups, run[0].base)
    ensures OpsOf(run[k].groups) == AllOps(run[k].finished)
  {
    hide Next, Init, AllOps, OpsOf, Numbered, Consecutive, Writable, Calls;
    RunInv(run, k);
    BaseKept(run, k);
    InOrder(run, k);
  }

  lemma {:induction false} BaseKept(run: seq<State>, k: nat)
    requires Run(run) && k < |run|
    ensures run[k].base == run[0].base
    decreases k
  {
    if k > 0 {
      BaseKept(run, k - 1);
      assert Next(run[k - 1], run[k]);
    }
  }
}
