/** Recovery of a write-ahead log (db/db_impl.cc, RecoverLogFile): batches are
    logged, the log is cut anywhere, and what is replayed is a prefix of what was
    written. */
module Recovery {
  import opened Coding
  import opened WriteBatches
  import opened WriteGroups
  import opened LogFormat
  import opened LogChecksum
  import opened LogCrc
  import opened CrcNumbers
  import LogReader

  // ----- replay -----

  /** What is in the memtable, the greatest sequence number, and whether all went well. */
  datatype Replayed = Replayed(added: seq<(nat, Op)>, maxSequence: nat, ok: bool)

  /** One record: what Iterate hands to the inserter, numbered from the batch's own
      number on; a malformed batch is an error only under paranoid checks. */
  function ReplayOne(s: Replayed, record: Bytes, paranoid: bool): Replayed {
    if |record| < BATCH_HEADER then
      s.(ok := s.ok && !paranoid)
    else
      var first, count := DecodeFixed64(record), DecodeFixed32(record[8..]);
      var (ops, parsed) := ParseOps(record[BATCH_HEADER..]);
      var added := s.added + seq(|ops|, i requires 0 <= i < |ops| => (first + i, ops[i]));
      if !(parsed && |ops| == count) && paranoid then Replayed(added, s.maxSequence, false)
      else Replayed(added, if first + count - 1 > s.maxSequence then first + count - 1 else s.maxSequence, s.ok)
  }

  function Replay(s: Replayed, records: seq<Bytes>, paranoid: bool): Replayed
    decreases |records|
  {
    if records == [] || !s.ok then s else Replay(ReplayOne(s, records[0], paranoid), records[1..], paranoid)
  }

  /** The drop that the loop itself reports: a record too small for a batch. */
  function TooSmall(record: Bytes): seq<nat> { if |record| < BATCH_HEADER then [|record|] else [] }

  /** The loop over a log from a position on, and the drops reported. Under paranoid
      checks a drop is an error, which the loop sees after the next read. */
  function ReplayFrom(s: Replayed, source: Source, pos: nat, paranoid: bool): (Replayed, seq<nat>)
    requires pos <= |source.file|
    decreases |source.file| - pos
  {
    var o := ReadFrom(source, pos, false, []);
    var t := if paranoid && o.reports != [] then s.(ok := false) else s;
    if o.record.None? || !t.ok then (t, o.reports)
    else
      var u := ReplayOne(t, o.record.value, paranoid);
      if |o.record.value| >= BATCH_HEADER && !u.ok then (u, o.reports)
      else
        var (last, reports) := ReplayFrom(u, source, o.pos, paranoid);
        (last, o.reports + TooSmall(o.record.value) + reports)
  }

  /** A record that holds a batch of as many operations as its header says. */
  ghost predicate WellFormed(record: Bytes) {
    && |record| >= BATCH_HEADER
    && var (ops, parsed) := ParseOps(record[BATCH_HEADER..]);
    && parsed && |ops| == DecodeFixed32(record[8..])
  }

  lemma ReplayOneOk(s: Replayed, record: Bytes, paranoid: bool)
    ensures ReplayOne(s, record, paranoid).ok <==> s.ok && (!paranoid || WellFormed(record))
  {
    hide ParseOps, DecodeFixed64, DecodeFixed32;
  }

  /** When recovery fails: never without paranoid checks, and under them exactly when
      something was dropped or some record is not a batch. */
  lemma {:induction false} ReplayOk(s: Replayed, source: Source, pos: nat, paranoid: bool)
    requires pos <= |source.file|
    ensures var (records, reports) := ReadAll(source, pos);
            ReplayFrom(s, source, pos, paranoid).0.ok <==>
              s.ok && (!paranoid || (reports == [] && forall r :: r in records ==> WellFormed(r)))
    decreases |source.file| - pos
  {
    hide ReadFrom, ReplayOne, WellFormed;
    var o := ReadFrom(source, pos, false, []);
    if o.record.Some? {
      var t := if paranoid && o.reports != [] then s.(ok := false) else s;
      var u := ReplayOne(t, o.record.value, paranoid);
      ReplayOneOk(t, o.record.value, paranoid);
      ReplayOk(u, source, o.pos, paranoid);
      var (records, reports) := ReadAll(source, o.pos);
      assert ReadAll(source, pos) == ([o.record.value] + records, o.reports + reports);
      assert o.record.value in [o.record.value] + records;
    }
  }

  /** Drops so far, then the rest. */
  function After(reports: seq<nat>, rest: (Replayed, seq<nat>)): (Replayed, seq<nat>) { (rest.0, reports + rest.1) }

  method RecoverLogFile(source: Source, paranoid: bool) returns (s: Replayed, reports: seq<nat>)
    ensures (s, reports) == ReplayFrom(Replayed([], 0, true), source, 0, paranoid)
    ensures var all := ReadAll(source, 0);
            s.ok <==> !paranoid || (all.1 == [] && forall r :: r in all.0 ==> WellFormed(r))
  {
    hide ReadFrom, ReplayOne, ReadAll, WellFormed;
    ReplayOk(Replayed([], 0, true), source, 0, paranoid);
    var reader := new LogReader.Reader(source);
    s, reports := Replayed([], 0, true), [];
    assert [] + ReplayFrom(s, source, 0, paranoid).1 == ReplayFrom(s, source, 0, paranoid).1;
    while true
      invariant reader.Valid() && fresh(reader) && reader.source == source
      invariant After(reports, ReplayFrom(s, source, reader.Pos(), paranoid))
           == ReplayFrom(Replayed([], 0, true), source, 0, paranoid)
      decreases |source.file| - reader.Pos()
    {
      ghost var pos, was, before := reader.Pos(), s, reports;
      var reported := |reader.reports|;
      var record := reader.ReadRecord();
      var dropped := reader.reports[reported..];
      reports := reports + dropped;
      if paranoid && dropped != [] {
        s := s.(ok := false);
      }
      ReplayStep(was, source, pos, paranoid, before);
      if record.None? || !s.ok {
        return;
      }
      s := ReplayOne(s, record.value, paranoid);
      assert reports + [] == reports;
      if |record.value| < BATCH_HEADER {
        reports := reports + [|record.value|];
      } else if !s.ok {
        return;
      }
    }
  }

  /** One turn of the loop. */
  lemma ReplayStep(s: Replayed, source: Source, pos: nat, paranoid: bool, reports: seq<nat>)
    requires pos <= |source.file|
    ensures var o := ReadFrom(source, pos, false, []);
      var t := if paranoid && o.reports != [] then s.(ok := false) else s;
      && o.pos <= |source.file|
      && (o.record.None? || !t.ok ==> After(reports, ReplayFrom(s, source, pos, paranoid)) == (t, reports + o.reports))
      && (o.record.Some? && t.ok ==>
        var u := ReplayOne(t, o.record.value, paranoid);
        && (|o.record.value| >= BATCH_HEADER && !u.ok ==>
            After(reports, ReplayFrom(s, source, pos, paranoid)) == (u, reports + o.reports))
        && (|o.record.value| < BATCH_HEADER || u.ok ==>
              After(reports, ReplayFrom(s, source, pos, paranoid))
              == After(reports + o.reports + TooSmall(o.record.value), ReplayFrom(u, source, o.pos, paranoid))))
  {
    hide ReadFrom, ReplayOne;
    var o := ReadFrom(source, pos, false, []);
    if o.record.Some? {
      var u := ReplayOne(s, o.record.value, paranoid);
      var rest := ReplayFrom(u, source, o.pos, paranoid).1;
      var small := TooSmall(o.record.value);
      assert reports + (o.reports + small + rest) == reports + o.reports + small + rest;
    }
  }

  /** Where nothing is reported and nothing is malformed, the loop replays the
      records of the log. */
  lemma {:induction false} ReplayQuiet(s: Replayed, source: Source, pos: nat, paranoid: bool)
    requires pos <= |source.file| && s.ok
    requires ReadAll(source, pos).1 == [] && Replay(s, ReadAll(source, pos).0, paranoid).ok
    requires forall i :: 0 <= i < |ReadAll(source, pos).0| ==> |ReadAll(source, pos).0[i]| >= BATCH_HEADER
    ensures ReplayFrom(s, source, pos, paranoid) == (Replay(s, ReadAll(source, pos).0, paranoid), [])
    decreases |source.file| - pos
  {
    hide ReadFrom, ReplayOne;
    var o := ReadFrom(source, pos, false, []);
    if o.record.Some? {
      var u := ReplayOne(s, o.record.value, paranoid);
      var rest := ReadAll(source, o.pos);
      var all := [o.record.value] + rest.0;
      assert ReadAll(source, pos) == (all, o.reports + rest.1);
      assert all[1..] == rest.0 && all[0] == o.record.value;
      assert forall i :: 0 <= i < |rest.0| ==> rest.0[i] == all[i + 1];
      assert !u.ok ==> Replay(u, rest.0, paranoid) == u;
      ReplayQuiet(u, source, o.pos, paranoid);
    }
  }

  // ----- what replay gives back -----

  lemma ReplayGroup(s: Replayed, g: Group, paranoid: bool)
    requires Writable(g)
    ensures ReplayOne(s, Record(g), paranoid)
         == Replayed(s.added + Numbered(g.ops, g.first - 1),
                     if g.first + |g.ops| - 1 > s.maxSequence then g.first + |g.ops| - 1 else s.maxSequence, s.ok)
  {
    hide ParseOps, DecodeFixed64, DecodeFixed32, Record, Fits;
    RecordReads(g);
    assert seq(|g.ops|, i requires 0 <= i < |g.ops| => (g.first + i, g.ops[i])) == Numbered(g.ops, g.first - 1);
  }

  /** Replay takes records in turn. */
  lemma {:induction false} ReplaySnoc(s: Replayed, records: seq<Bytes>, last: Bytes, paranoid: bool)
    requires Replay(s, records, paranoid).ok
    ensures Replay(s, records + [last], paranoid) == ReplayOne(Replay(s, records, paranoid), last, paranoid)
    decreases |records|
  {
    hide ReplayOne;
    if records == [] {
      assert [last][1..] == [];
      assert records + [last] == [last];
    } else {
      assert (records + [last])[0] == records[0] && (records + [last])[1..] == records[1..] + [last];
      if s.ok {
        ReplaySnoc(ReplayOne(s, records[0], paranoid), records[1..], last, paranoid);
      }
    }
  }

  /** Replaying groups gives their operations with the numbers they were written
      with, and the last of those numbers. */
  lemma {:induction false} ReplayGroups(groups: seq<Group>, base: nat, paranoid: bool)
    requires AllWritable(groups) && Consecutive(groups, base)
    ensures Replay(Replayed([], 0, true), Records(groups), paranoid)
         == Replayed(Numbered(OpsOf(groups), base), if groups == [] then 0 else base + |OpsOf(groups)|, true)
    decreases |groups|
  {
    hide ReplayOne, Record, Writable, AllWritable, Consecutive;
    if groups != [] {
      hide Replay, Records, OpsOf, Numbered;
      var n := |groups| - 1;
      var init, g := groups[..n], groups[n];
      LastGroup(groups, base);
      ReplayGroups(init, base, paranoid);
      ReplaySnoc(Replayed([], 0, true), Records(init), Record(g), paranoid);
      ReplayGroup(Replay(Replayed([], 0, true), Records(init), paranoid), g, paranoid);
      NumberedConcat(OpsOf(init), g.ops, base);
      NoOps();
    }
  }

  /** A log of groups, cut anywhere and recovered: the operations of the groups that
      were wholly written before the cut, in order and with their numbers, nothing
      else, and no corruption reported. */
  method RecoverCut(file: Bytes, ghost groups: seq<Group>, ghost base: nat, cut: nat, paranoid: bool)
    returns (s: Replayed, reports: seq<nat>, ghost k: nat)
    requires AllWritable(groups) && Consecutive(groups, base)
    requires file == EncodedAll(Masked(CrcExtend), 0, Records(groups))
    ensures k <= |groups| && reports == [] && s.ok && s.added == Numbered(OpsOf(groups[..k]), base)
    ensures s.maxSequence == if k == 0 then 0 else base + |OpsOf(groups[..k])|
    ensures forall j :: 0 <= j <= |groups| ==>
              (j <= k <==> |EncodedAll(Masked(CrcExtend), 0, Records(groups[..j]))| <= Cut(file, cut))
  {
    hide CrcExtend, Masked, EncodedAll, ReadAll, Record, Writable, Replay, ReplayFrom;
    var source := Source(Masked(CrcExtend), true, file[..Cut(file, cut)]);
    s, reports := RecoverLogFile(source, paranoid);
    k := CutLog(groups, source, cut);
    assert forall j :: 0 <= j < k ==> groups[..k][..j] == groups[..j];
    ReplayGroups(groups[..k], base, paranoid);
    forall i | 0 <= i < k ensures |Records(groups[..k])[i]| >= BATCH_HEADER {
      RecordReads(groups[i]);
    }
    ReplayQuiet(Replayed([], 0, true), source, 0, paranoid);
  }

  /** The same for a log that is written first. */
  method CrashAndRecover(groups: seq<Group>, ghost base: nat, cut: nat, paranoid: bool)
    returns (s: Replayed, reports: seq<nat>, ghost k: nat)
    requires AllWritable(groups) && Consecutive(groups, base)
    ensures k <= |groups| && reports == [] && s.ok && s.added == Numbered(OpsOf(groups[..k]), base)
    ensures s.maxSequence == if k == 0 then 0 else base + |OpsOf(groups[..k])|
    ensures forall j :: 0 <= j <= |groups| ==>
              (j <= k <==> |EncodedAll(Masked(CrcExtend), 0, Records(groups[..j]))|
                             <= Cut(EncodedAll(Masked(CrcExtend), 0, Records(groups)), cut))
  {
    hide CrcExtend, Masked, EncodedAll, Record, Writable;
    var records: seq<Bytes> := [];
    var i := 0;
    while i < |groups|
      invariant 0 <= i <= |groups| && records == Records(groups[..i])
    {
      records := records + [Record(groups[i])];
      i := i + 1;
    }
    assert groups[..i] == groups;
    var file := WriteLog(records);
    s, reports, k := RecoverCut(file, groups, base, cut, paranoid);
  }

  lemma CutLog(groups: seq<Group>, source: Source, cut: nat) returns (k: nat)
    requires AllWritable(groups)
    requires var file := EncodedAll(Masked(CrcExtend), 0, Records(groups));
             source == Source(Masked(CrcExtend), true, file[..Cut(file, cut)])
    ensures k <= |groups| && ReadAll(source, 0) == (Records(groups[..k]), [])
    ensures forall j :: 0 <= j <= |groups| ==>
              (j <= k <==> |EncodedAll(Masked(CrcExtend), 0, Records(groups[..j]))|
                             <= Cut(EncodedAll(Masked(CrcExtend), 0, Records(groups)), cut))
  {
    hide CrcExtend, Masked, EncodedAll, ReadAll, Record, Writable;
    var records := Records(groups);
    k := CutReads(records, source, cut);
    forall j | 0 <= j <= |groups| ensures records[..j] == Records(groups[..j]) {
    }
  }
}
