/** DBImpl::Write (db/db_impl.cc) on its own objects: callers' batches, the shared
    temporary batch, the log file and the memtable. */
module GroupCommit {
  import opened Options
  import opened Coding
  import opened WriteBatches
  import opened WriteGroups
  import opened WriteQueues
  import opened LogFormat
  import opened LogChecksum
  import opened LogCrc
  import opened CrcNumbers
  import opened Recovery
  import DbFormat
  import LogWriter

  /** A waiting call of Write. Callers may share a batch object. */
  datatype Pending = Pending(id: nat, batch: WriteBatch?, sync: bool)

  ghost function WriterOf(p: Pending): Writer
    reads p.batch
  {
    Writer(p.id, if p.batch == null then None else Some(p.batch.ops), p.sync)
  }

  ghost function BatchesOf(pending: seq<Pending>): set<WriteBatch> {
    set p | p in pending && p.batch != null :: p.batch
  }

  ghost function QueueOf(pending: seq<Pending>): seq<Writer>
    reads BatchesOf(pending)
  {
    seq(|pending|, i requires 0 <= i < |pending| reads BatchesOf(pending) => WriterOf(pending[i]))
  }

  ghost predicate BatchesValid(pending: seq<Pending>)
    reads BatchesOf(pending)
  {
    forall b :: b in BatchesOf(pending) ==> b.Valid()
  }

  ghost predicate DistinctIds(pending: seq<Pending>) {
    forall i, j :: 0 <= i < j < |pending| ==> pending[i].id != pending[j].id
  }

  lemma ValidStorable(pending: seq<Pending>)
    requires BatchesValid(pending)
    ensures AllStorable(QueueOf(pending))
  {
    hide Fits, EncodeOps, DecodeFixed32;
    forall i | 0 <= i < |pending| ensures Storable(QueueOf(pending)[i]) {
      if pending[i].batch != null {
        assert pending[i].batch in BatchesOf(pending);
      }
    }
  }

  /** The bytes of a log of records, with one more. */
  lemma {:induction false} EncodedAllSnoc(c: Checksum, pos: nat, records: seq<Bytes>, last: Bytes)
    ensures EncodedAll(c, pos, records + [last])
         == EncodedAll(c, pos, records) + Encoded(c, pos + |EncodedAll(c, pos, records)|, last, true)
    decreases |records|
  {
    hide Encoded;
    var more := records + [last];
    if records == [] {
      assert more[1..] == [];
    } else {
      assert more[0] == records[0] && more[1..] == records[1..] + [last];
      EncodedAllSnoc(c, pos + |Encoded(c, pos, records[0], true)|, records[1..], last);
    }
  }

  /** The bytes of a log of groups. */
  ghost function LogBytes(groups: seq<Group>): Bytes
    requires AllWritable(groups)
  {
    EncodedAll(Masked(CrcExtend), 0, Records(groups))
  }

  lemma LogBytesSnoc(groups: seq<Group>, base: nat, g: Group)
    requires AllWritable(groups) && Consecutive(groups, base) && Writable(g) && g.first == base + 1 + |OpsOf(groups)|
    ensures AllWritable(groups + [g])
    ensures LogBytes(groups + [g]) == LogBytes(groups) + Encoded(Masked(CrcExtend), |LogBytes(groups)|, Record(g), true)
  {
    hide Encoded, EncodedAll, CrcExtend, Masked, Record, Writable, Consecutive, OpsOf;
    GroupsSnoc(groups, base, g);
    EncodedAllSnoc(Masked(CrcExtend), 0, Records(groups), Record(g));
  }

  /** A log file of the groups, with the first `synced` of them in its first bytes. */
  ghost predicate FileHolds(dest: Bytes, bytes: nat, groups: seq<Group>, synced: nat) {
    && AllWritable(groups) && dest == LogBytes(groups)
    && synced <= |groups| && AllWritable(groups[..synced]) && bytes == |LogBytes(groups[..synced])|
  }

  lemma FileSnoc(dest: Bytes, bytes: nat, groups: seq<Group>, synced: nat, base: nat, g: Group, sync: bool)
    requires FileHolds(dest, bytes, groups, synced)
    requires Consecutive(groups, base) && Writable(g) && g.first == base + 1 + |OpsOf(groups)|
    ensures var more := dest + Encoded(Masked(CrcExtend), |dest|, Record(g), true);
      FileHolds(more, if sync then |more| else bytes, groups + [g], if sync then |groups| + 1 else synced)
  {
    hide LogBytes, Encoded, CrcExtend, Masked, Record, Writable, Consecutive, OpsOf;
    LogBytesSnoc(groups, base, g);
    assert (groups + [g])[..synced] == groups[..synced];
    assert (groups + [g])[..|groups| + 1] == groups + [g];
  }

  /** The pop loop at the end of Write: writers leave the front until the last one of
      the group has gone. */
  method PopGroup(writers: seq<Pending>, lastWriter: nat, ghost count: nat) returns (rest: seq<Pending>)
    requires DistinctIds(writers) && 0 < count <= |writers| && writers[count - 1].id == lastWriter
    ensures rest == writers[count..]
  {
    rest := writers;
    ghost var popped := 0;
    while true
      invariant popped < count && rest == writers[popped..]
      decreases count - popped
    {
      var ready := rest[0];
      rest, popped := rest[1..], popped + 1;
      if ready.id == lastWriter {
        return;
      }
    }
  }

  class WriteQueue {
    var writers: seq<Pending>
    const tmpBatch: WriteBatch
    const log: LogWriter.Writer
    var lastSequence: nat
    /** What is in the memtable, with its numbers. */
    var added: seq<(nat, Op)>
    /** How much of the log file is on disk for certain. */
    var syncedBytes: nat
    /** The local variables of the leader, between its two critical sections. */
    var leading: bool
    var writeBatch: WriteBatch?
    var lastWriter: nat
    var nextSequence: nat
    ghost const base: nat
    ghost var count: nat
    ghost var groups: seq<Group>
    ghost var synced: nat
    ghost var finished: seq<Writer>

    ghost function View(): State
      reads this, BatchesOf(writers)
    {
      var phase := if leading then Writing(count) else Idle;
      State(QueueOf(writers), phase, base, lastSequence, added, groups, synced, finished)
    }

    /** The temporary batch is empty whenever no one writes. */
    ghost predicate Valid()
      reads this, tmpBatch, log, BatchesOf(writers)
    {
      && tmpBatch !in BatchesOf(writers) && tmpBatch.Valid() && BatchesValid(writers) && DistinctIds(writers)
      && Inv(View()) && OnFile()
      && (if leading then 0 < count <= |writers| && Prepared() else tmpBatch.ops == [])
    }

    /** The log file holds the records, and the synced part of it those on disk. */
    ghost predicate OnFile()
      reads this, log
    {
      log.Valid() && log.extend == CrcExtend && FileHolds(log.dest, syncedBytes, groups, synced)
    }

    /** The leader's batch holds the group's operations, and its header the number of
        the first. It is the leader's own when no other batch joined. */
    ghost predicate Prepared()
      requires 0 < count <= |writers|
      reads this, tmpBatch, BatchesOf(writers)
    {
      && lastWriter == writers[count - 1].id
      && (writers[0].batch == null ==> writeBatch == null && tmpBatch.ops == [])
      && (writers[0].batch != null ==>
            && writeBatch != null
            && (writeBatch == tmpBatch || (writeBatch == writers[0].batch && tmpBatch.ops == []))
            && (writeBatch == tmpBatch || writeBatch in BatchesOf(writers))
            && HoldsGroup(writeBatch, QueueOf(writers)[..count], lastSequence)
            && nextSequence == lastSequence + |writeBatch.ops|)
    }

    constructor (lastSequence: nat)
      ensures Valid() && fresh(tmpBatch) && fresh(log) && Init(View()) && writers == []
    {
      var batch := new WriteBatch();
      var file := new LogWriter.Writer(CrcExtend, []);
      this.lastSequence, base := lastSequence, lastSequence;
      tmpBatch, log := batch, file;
      writers, added, syncedBytes := [], [], 0;
      leading, writeBatch, lastWriter, nextSequence := false, null, 0, 0;
      count, groups, synced, finished := 0, [], 0, [];
      new;
      InitInv(View());
      NoRecords();
    }

    method Enqueue(p: Pending)
      requires Valid() && forall q :: q in writers ==> q.id != p.id
      requires p.batch != null ==> p.batch != tmpBatch && p.batch.Valid()
      modifies this
      ensures Valid() && Enqueued(old(View()), View(), WriterOf(p))
    {
      hide Inv, FileHolds, AllOps, HoldsGroup, WriteBatch.Valid, LogWriter.Writer.Valid, QueueOf, BatchesOf, Storable;
      ghost var before := View();
      OneMore(writers, p);
      assert Enqueued(before, before.(queue := QueueOf(writers + [p])), WriterOf(p)) by { StorableBatch(p); }
      EnqueuedInv(before, before.(queue := QueueOf(writers + [p])), WriterOf(p));
      ghost var queue := QueueOf(writers);
      assert count <= |queue| ==> (queue + [WriterOf(p)])[..count] == queue[..count];
      writers := writers + [p];
      assert OnFile();
    }

    /** The batch to write and the last writer it serves. The caller's own batch is
        written when no other joins; else all are put in the temporary batch. */
    method BuildBatchGroup() returns (result: WriteBatch, last: nat)
      requires Waiting()
      modifies tmpBatch
      ensures last < |writers| && IsGroup(QueueOf(writers), last + 1)
      ensures result.Valid() && result.ops == AllOps(QueueOf(writers)[..last + 1]) && tmpBatch.Valid()
      ensures result == tmpBatch || (result == writers[0].batch && tmpBatch.ops == [])
    {
      hide AllOps, Size, GroupSize, WriteBatch.Valid, Storable, WriterOf, QueueOf;
      ghost var queue := QueueOf(writers);
      var first := writers[0];
      var size := |first.batch.rep|;
      var maxSize := if size <= SMALL then size + SMALL else ONE_MB;
      result, last := first.batch, 0;
      FirstSize(writers);
      AllOpsFirst(queue);
      ValidStorable(writers);
      var i := 1;
      while i < |writers|
        modifies tmpBatch
        invariant 0 < i <= |writers| && last == i - 1 && QueueOf(writers) == queue && Ready()
        invariant size == GroupSize(queue, i)
        invariant forall j :: 0 < j < i ==> Joins(queue, j)
        invariant result.ops == AllOps(queue[..i])
        invariant (result == tmpBatch || (result == first.batch && tmpBatch.ops == []))
      {
        var w := writers[i];
        AllOpsSnoc(queue, i);
        NextSize(writers, i);
        if w.sync && !first.sync {
          break;
        }
        if w.batch != null {
          size := size + |w.batch.rep|;
          if size > maxSize {
            break;
          }
          assert Joins(queue, i);
          GroupCounts(queue, i + 1);
          if result == first.batch {
            result := tmpBatch;
            result.Append(first.batch);
          }
          result.Append(w.batch);
        }
        last := i;
        i := i + 1;
      }
    }

    /** Patching a header changes no batch's operations. */
    method Stamp(b: WriteBatch, seqno: Uint64)
      requires Ready() && b.Valid() && (b == tmpBatch || b in BatchesOf(writers))
      modifies b`rep
      ensures Ready() && QueueOf(writers) == old(QueueOf(writers)) && b.Valid() && b.rep[..8] == EncodeFixed64(seqno)
    {
      hide AllOps, WriteBatch.Valid, EncodeFixed64, EncodeFixed32, DecodeFixed64;
      b.SetSequence(seqno);
      assert forall c :: c in BatchesOf(writers) && c != b ==> c.Valid();
    }

    /** The leader's batch, with the number of its first operation in the header. */
    method Prepare()
      requires Waiting() && lastSequence + |AllOps(QueueOf(writers))| < DbFormat.MAX_SEQUENCE
      modifies `writeBatch, `lastWriter, `nextSequence, `count, tmpBatch, BatchesOf(writers)
      ensures Ready() && QueueOf(writers) == old(QueueOf(writers)) && 0 < count <= |writers|
      ensures IsGroup(QueueOf(writers), count) && lastWriter == writers[count - 1].id
      ensures writeBatch != null && (writeBatch == tmpBatch || (writeBatch == writers[0].batch && tmpBatch.ops == []))
      ensures HoldsGroup(writeBatch, QueueOf(writers)[..count], lastSequence)
      ensures nextSequence == lastSequence + |writeBatch.ops|
    {
      hide AllOps, WriteBatch.Valid, IsGroup, QueueOf, EncodeFixed64, BatchesValid;
      QueueLength(writers);
      var b, last := BuildBatchGroup();
      GroupFits(QueueOf(writers), last + 1);
      assert b == tmpBatch || b in BatchesOf(writers);
      Stamp(b, lastSequence + 1);
      writeBatch, lastWriter, nextSequence := b, writers[last].id, lastSequence + b.Count();
      count := last + 1;
    }

    /** The first critical section of a leader. */
    method Lead()
      requires Valid() && !leading && writers != []
      requires lastSequence + |AllOps(QueueOf(writers))| < DbFormat.MAX_SEQUENCE
      modifies this, tmpBatch, BatchesOf(writers)
      ensures Valid() && writers == old(writers) && exists k :: Led(old(View()), View(), k)
    {
      hide AllOps, WriteBatch.Valid, Inv, IsGroup, FileHolds, QueueOf, HoldsGroup, LogWriter.Writer.Valid;
      hide BatchesValid, DistinctIds;
      ghost var before := View();
      QueueLength(writers);
      Choose();
      GroupFits(before.queue, count);
      leading := true;
      assert Led(before, View(), count);
      LedInv(before, View(), count);
    }

    /** A leader with a batch prepares its group's; one without leads itself alone. */
    method Choose()
      requires writers != [] && BatchesValid(writers) && tmpBatch !in BatchesOf(writers)
      requires tmpBatch.Valid() && tmpBatch.ops == []
      requires lastSequence + |AllOps(QueueOf(writers))| < DbFormat.MAX_SEQUENCE
      modifies `writeBatch, `lastWriter, `nextSequence, `count, tmpBatch, BatchesOf(writers)
      ensures QueueOf(writers) == old(QueueOf(writers)) && BatchesValid(writers) && tmpBatch.Valid()
      ensures 0 < count <= |writers| && Prepared()
      ensures if writers[0].batch != null then IsGroup(QueueOf(writers), count) else count == 1
    {
      hide AllOps, WriteBatch.Valid, IsGroup, QueueOf, HoldsGroup, BatchesValid;
      if writers[0].batch != null {
        Prepare();
      } else {
        writeBatch, lastWriter := null, writers[0].id;
        count := 1;
      }
    }

    /** Log, disk and memtable get the leader's batch. The memtable takes the numbers
        from its header. */
    method Apply(sync: bool, ghost group: seq<Writer>)
      requires OnFile() && Consecutive(groups, base) && lastSequence == base + |OpsOf(groups)|
      requires writeBatch != null && HoldsGroup(writeBatch, group, lastSequence)
      modifies `added, `syncedBytes, `groups, `synced, log
      ensures OnFile() && added == old(added) + Numbered(writeBatch.ops, lastSequence)
      ensures groups == old(groups) + [Group(lastSequence + 1, writeBatch.ops)]
      ensures synced == if sync then |groups| else old(synced)
    {
      hide FileHolds, EncodeFixed64, EncodeFixed32, DecodeFixed64, DecodeFixed32, EncodeOps, ParseOps;
      hide Encoded, CrcExtend, Masked;
      hide LogWriter.Writer.Valid, Consecutive, OpsOf, Fits, Extends, AllOps;
      ghost var g := Group(lastSequence + 1, writeBatch.ops);
      writeBatch.Bytes(lastSequence + 1);
      FileSnoc(log.dest, syncedBytes, groups, synced, base, g, sync);
      CrcExtends();
      log.AddRecord(writeBatch.rep);
      groups := groups + [g];
      if sync {
        syncedBytes := |log.dest|;
        synced := |groups|;
      }
      Fixed64Bytes(lastSequence + 1, writeBatch.rep);
      var status, entries := writeBatch.InsertInto();
      assert entries == Numbered(writeBatch.ops, lastSequence);
      added := added + entries;
    }

    /** What a leader does between its critical sections, and the cleaning up of the
        temporary batch. */
    method WriteOut()
      requires Valid() && leading
      modifies `added, `syncedBytes, `groups, `synced, `lastSequence, log, tmpBatch
      ensures OnFile() && tmpBatch.Valid() && tmpBatch.ops == []
      ensures var s := old(View());
        View() == if writers[0].batch == null then s else Written(s, AllOps(s.queue[..count]), writers[0].sync)
    {
      hide AllOps, WriteBatch.Valid, Inv, FileHolds, QueueOf, LogWriter.Writer.Valid, Numbered;
      QueueLength(writers);
      LedLog(View());
      if writers[0].batch != null {
        Apply(writers[0].sync, QueueOf(writers)[..count]);
        if writeBatch == tmpBatch {
          tmpBatch.Clear();
        }
        lastSequence := nextSequence;
      }
    }

    /** The second critical section of a leader, after it has written. */
    method Complete()
      requires Valid() && leading
      modifies this, tmpBatch, log
      ensures Valid() && !leading && Completed(old(View()), View()) && writers == old(writers[count..])
    {
      hide AllOps, WriteBatch.Valid, Inv, FileHolds, QueueOf, LogWriter.Writer.Valid, HoldsGroup;
      hide BatchesValid, DistinctIds, Written;
      ghost var before, waiting := View(), writers;
      QueueLength(writers);
      WriteOut();
      QueueRest(waiting, count);
      finished := finished + before.queue[..count];
      writers := PopGroup(writers, lastWriter, count);
      leading := false;
      assert Completed(before, View());
      CompletedInv(before, View());
    }

    ghost predicate Ready()
      reads this, tmpBatch, BatchesOf(writers)
    {
      && writers != [] && writers[0].batch != null && BatchesValid(writers)
      && tmpBatch !in BatchesOf(writers) && tmpBatch.Valid()
    }

    ghost predicate Waiting()
      reads this, tmpBatch, BatchesOf(writers)
    {
      Ready() && tmpBatch.ops == []
    }
  }

  lemma Fixed64Bytes(v: Uint64, s: Bytes)
    requires |s| >= 8 && s[..8] == EncodeFixed64(v)
    ensures DecodeFixed64(s) == v
  {
    hide EncodeFixed64, DecodeFixed64;
    assert s == EncodeFixed64(v) + s[8..];
    Fixed64RoundTrip(v, s[8..]);
  }

  lemma LedLog(s: State)
    requires Inv(s)
    ensures Consecutive(s.groups, s.base) && s.lastSequence == s.base + |OpsOf(s.groups)|
  {
    hide AllOps, OpsOf, Consecutive, Numbered, Writable, Storable;
  }

  lemma QueueRest(pending: seq<Pending>, k: nat)
    requires k <= |pending|
    ensures QueueOf(pending[k..]) == QueueOf(pending)[k..] && BatchesOf(pending[k..]) <= BatchesOf(pending)
    ensures DistinctIds(pending) ==> DistinctIds(pending[k..])
    ensures BatchesValid(pending) ==> BatchesValid(pending[k..])
  {
  }

  lemma QueueLength(pending: seq<Pending>)
    ensures |QueueOf(pending)| == |pending|
    ensures forall i :: 0 <= i < |pending| ==> QueueOf(pending)[i] == WriterOf(pending[i])
  {
  }

  lemma GroupFits(queue: seq<Writer>, k: nat)
    requires k <= |queue|
    ensures |AllOps(queue[..k])| <= |AllOps(queue)|
  {
    AllOpsConcat(queue[..k], queue[k..]);
    assert queue[..k] + queue[k..] == queue;
  }

  lemma FirstSize(pending: seq<Pending>)
    requires pending != [] && pending[0].batch != null && BatchesValid(pending)
    ensures var q := QueueOf(pending);
      && |q| == |pending| && q[0].batch == Some(pending[0].batch.ops) && q[0].sync == pending[0].sync
      && |pending[0].batch.rep| == Size(q[0]) == GroupSize(q, 1)
      && pending[0].batch in BatchesOf(pending) && pending[0].batch.Valid()
  {
    hide EncodeOps, Fits, DecodeFixed32;
    assert pending[0].batch in BatchesOf(pending);
    assert GroupSize(QueueOf(pending), 0) == 0;
  }

  lemma NextSize(pending: seq<Pending>, i: nat)
    requires i < |pending| && BatchesValid(pending)
    ensures var q := QueueOf(pending);
      && |q| == |pending| && q[i] == WriterOf(pending[i])
      && GroupSize(q, i + 1) == GroupSize(q, i) + (if pending[i].batch != null then |pending[i].batch.rep| else 0)
      && q[i].sync == pending[i].sync && (q[i].batch.Some? <==> pending[i].batch != null)
      && (pending[i].batch != null ==> pending[i].batch.Valid() && pending[i].batch in BatchesOf(pending))
      && (pending[i].batch != null ==> q[i].batch == Some(pending[i].batch.ops))
  {
    hide EncodeOps, Fits, DecodeFixed32;
    if pending[i].batch != null {
      assert pending[i].batch in BatchesOf(pending);
    }
  }

  lemma StorableBatch(p: Pending)
    requires p.batch != null ==> p.batch.Valid()
    ensures Storable(WriterOf(p))
  {
    hide Fits, EncodeOps, DecodeFixed32;
  }

  lemma OneMore(pending: seq<Pending>, p: Pending)
    ensures BatchesOf(pending + [p]) == BatchesOf(pending) + if p.batch == null then {} else {p.batch}
    ensures QueueOf(pending + [p]) == QueueOf(pending) + [WriterOf(p)]
    ensures |QueueOf(pending)| == |pending|
  {
  }

  ghost predicate HoldsGroup(b: WriteBatch, group: seq<Writer>, lastSequence: nat)
    reads b
  {
    b.Valid() && b.ops == AllOps(group) && lastSequence + 1 < TWO64 && b.rep[..8] == EncodeFixed64(lastSequence + 1)
  }

  lemma NoRecords()
    ensures LogBytes([]) == []
  {
  }

  /** A crash leaves some prefix of the log file, and at least what was synced. What is
      recovered is a prefix of what was in the memtable, with the same numbers, and
      holds every operation of every writer that asked for sync and returned. */
  method CrashAndReplay(q: WriteQueue, cut: nat, paranoid: bool) returns (s: Replayed, reports: seq<nat>)
    requires q.Valid() && q.syncedBytes <= cut
    ensures s.ok && reports == [] && s.added <= q.added
    ensures forall k :: 0 <= k < |q.finished| && q.finished[k].sync && q.finished[k].batch.Some? ==>
              |AllOps(q.finished[..k + 1])| <= |s.added|
  {
    hide EncodedAll, CrcExtend, Masked, Record, Writable, AllOps, Consecutive, OpsOf, Storable, WriteBatch.Valid;
    ghost var state, k := q.View(), 0;
    assert Inv(state) && FileHolds(q.log.dest, q.syncedBytes, q.groups, q.synced);
    s, reports, k := RecoverCut(q.log.dest, q.groups, q.base, cut, paranoid);
    assert q.groups[..|q.groups|] == q.groups;
    assert q.synced <= k by {
      assert |q.groups| <= k || Cut(q.log.dest, cut) == cut;
    }
    OpsPrefix(q.groups, q.synced, k);
    OpsPrefix(q.groups, k, |q.groups|);
    NumberedPrefix(OpsOf(q.groups[..k]), OpsOf(q.groups), q.base);
  }
}
