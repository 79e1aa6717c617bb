/** What a reader of the log makes of any file, damaged or not
    (db/log_reader.cc): a record it returns is a run of fragments that follow
    each other, and every byte it parses is returned, reported, or part of the
    record that the end of the file leaves unfinished. */
module LogLosses {
  import opened Coding
  import opened LogFormat

  function Sum(reports: seq<nat>): nat {
    if reports == [] then 0 else reports[0] + Sum(reports[1..])
  }

  function Lengths(records: seq<Bytes>): nat {
    if records == [] then 0 else |records[0]| + Lengths(records[1..])
  }

  /** The bytes that a physical record holds, or that reading it gives up. A
      fragment whose type is the reader's own code for a bad record holds none:
      the reader takes it for a drop that has been reported. */
  function Weight(event: Event): nat {
    match event
    case Eof => 0
    case Bad(reports) => Sum(reports)
    case Fragment(kind, data) => if kind == BAD_CODE then 0 else |data|
  }

  function Weights(events: seq<Event>): nat {
    if events == [] then 0 else Weight(events[0]) + Weights(events[1..])
  }

  /** A first fragment and middle ones, and their data. */
  ghost predicate Open(events: seq<Event>, data: Bytes)
    decreases |events|
  {
    && |events| > 0
    && var last := events[|events| - 1];
    && last.Fragment?
    && (if |events| == 1 then last.kind == FIRST_TYPE && data == last.data
        else
          && last.kind == MIDDLE_TYPE && |last.data| <= |data|
          && data[|data| - |last.data|..] == last.data
          && Open(events[..|events| - 1], data[..|data| - |last.data|]))
  }

  /** A full fragment, or an open run and the last fragment that ends it. */
  ghost predicate Whole(events: seq<Event>, record: Bytes) {
    && |events| > 0
    && var last := events[|events| - 1];
    && last.Fragment?
    && (if |events| == 1 then last.kind == FULL_TYPE && record == last.data
        else
          && last.kind == LAST_TYPE && |last.data| <= |record|
          && record[|record| - |last.data|..] == last.data
          && Open(events[..|events| - 1], record[..|record| - |last.data|]))
  }

  ghost predicate SomeOpen(events: seq<Event>) {
    exists data: Bytes :: Open(events, data)
  }

  /** The end of the file, or of what the reader takes for the file, after at
      most an open run. */
  ghost predicate Unfinished(events: seq<Event>) {
    && |events| > 0
    && var last := events[|events| - 1];
    && (last.Eof? || (last.Fragment? && last.kind == EOF_CODE))
    && (|events| > 1 ==> SomeOpen(events[..|events| - 1]))
  }

  lemma {:induction false} WeightsConcat(a: seq<Event>, b: seq<Event>)
    ensures Weights(a + b) == Weights(a) + Weights(b)
  {
    if a == [] {
      assert a + b == b;
    } else {
      assert (a + b)[1..] == a[1..] + b;
      WeightsConcat(a[1..], b);
    }
  }

  lemma WeightsSnoc(events: seq<Event>, event: Event)
    ensures Weights(events + [event]) == Weights(events) + Weight(event)
  {
    WeightsConcat(events, [event]);
  }

  lemma {:induction false} SumConcat(a: seq<nat>, b: seq<nat>)
    ensures Sum(a + b) == Sum(a) + Sum(b)
  {
    if a == [] {
      assert a + b == b;
    } else {
      assert (a + b)[1..] == a[1..] + b;
      SumConcat(a[1..], b);
    }
  }

  lemma {:induction false} OpenWeight(events: seq<Event>, data: Bytes)
    requires Open(events, data)
    ensures Weights(events) == |data|
    decreases |events|
  {
    var n := |events| - 1;
    assert events == events[..n] + [events[n]];
    WeightsConcat(events[..n], [events[n]]);
    if n > 0 {
      OpenWeight(events[..n], data[..|data| - |events[n].data|]);
    }
  }

  /** A middle fragment keeps a run open, and a last one makes it whole. */
  lemma OpenSnoc(events: seq<Event>, data: Bytes, kind: Byte, more: Bytes)
    requires Open(events, data)
    ensures kind == MIDDLE_TYPE ==> Open(events + [Fragment(kind, more)], data + more)
    ensures kind == LAST_TYPE ==> Whole(events + [Fragment(kind, more)], data + more)
  {
    var all := events + [Fragment(kind, more)];
    assert all[..|all| - 1] == events;
    assert (data + more)[..|data|] == data && (data + more)[|data|..] == more;
  }

  /** The fragments of the record being put together. */
  ghost predicate Holding(run: seq<Event>, partial: bool, scratch: Bytes) {
    if partial then Open(run, scratch) else run == [] && scratch == []
  }

  /** The fragments held after a physical record that does not end the call. */
  function Kept(event: Event, run: seq<Event>, v: Verdict): seq<Event>
    requires v.GoOn?
  {
    if !v.partial then [] else if event.Fragment? && event.kind == FIRST_TYPE then [event] else run + [event]
  }

  /** The fragments of the record that a physical record ends. */
  function Returned(event: Event, run: seq<Event>): seq<Event> {
    if event.Fragment? && event.kind == FULL_TYPE then [event] else run + [event]
  }

  /** What the verdict on a physical record means: the bytes held so far and the
      bytes of this record are returned, kept, or reported, and what is returned
      is whole. Only the end of the file loses bytes without a report. */
  lemma JudgeMeans(event: Event, run: seq<Event>, partial: bool, scratch: Bytes)
    requires Holding(run, partial, scratch)
    ensures var v := Judge(event, partial, scratch);
            var lost := Sum(Drops(event)) + Sum(v.reports);
            match v
            case GoOn(p, t, _) =>
              !event.Eof? && Holding(Kept(event, run, v), p, t) && |scratch| + Weight(event) == |t| + lost
            case Return(Some(r), _) => Whole(Returned(event, run), r) && |scratch| + Weight(event) == |r| + lost
            case Return(None, _) => Unfinished(run + [event]) && lost == 0
  {
    hide Whole, Open;
    if event.Fragment? && partial {
      OpenSnoc(run, scratch, event.kind, event.data);
    }
    if event.Fragment? {
      OneFragment(event);
    }
    assert (run + [event])[..|run|] == run;
  }

  lemma OneFragment(event: Event)
    requires event.Fragment?
    ensures event.kind == FIRST_TYPE ==> Open([event], event.data)
    ensures event.kind == FULL_TYPE ==> Whole([event], event.data)
  {
  }

  /** The physical records that one call takes from the file. */
  ghost function Trace(s: Source, pos: nat, partial: bool, scratch: Bytes): seq<Event>
    requires pos <= |s.file|
    decreases |s.file| - pos
  {
    var (event, next) := NextPhysical(s, pos);
    match Judge(event, partial, scratch)
    case Return(_, _) => [event]
    case GoOn(p, t, _) => [event] + Trace(s, next, p, t)
  }

  /** The events end in a whole record, and the bytes of all of them are those
      of the record and those reported. */
  ghost predicate Delivers(events: seq<Event>, record: Bytes, reports: seq<nat>) {
    && (exists i :: 0 <= i < |events| && Whole(events[i..], record))
    && Weights(events) == |record| + Sum(reports)
  }

  /** The events end in an unfinished record, and the bytes of those before it
      are reported. */
  ghost predicate Ends(events: seq<Event>, kept: nat, reports: seq<nat>) {
    exists i :: 0 <= i < |events| && Unfinished(events[i..]) && Weights(events[..i]) == kept + Sum(reports)
  }

  /** One call, on any file: what it returns and what becomes of the rest. */
  lemma {:induction false} ReadMeans(s: Source, pos: nat, run: seq<Event>, partial: bool, scratch: Bytes)
    requires pos <= |s.file| && Holding(run, partial, scratch)
    ensures var r := ReadFrom(s, pos, partial, scratch);
            var events := run + Trace(s, pos, partial, scratch);
            if r.record.Some? then Delivers(events, r.record.value, r.reports) else Ends(events, 0, r.reports)
    decreases |s.file| - pos
  {
    hide NextPhysical, Judge, Whole, Open, Unfinished, Holding, Weight, Weights, Sum, Kept, Returned;
    var (event, next) := NextPhysical(s, pos);
    var v := Judge(event, partial, scratch);
    JudgeMeans(event, run, partial, scratch);
    HoldingWeight(run, partial, scratch);
    SumConcat(Drops(event), v.reports);
    WeightsSnoc(run, event);
    if v.GoOn? {
      var kept := Kept(event, run, v);
      var rest := Trace(s, next, v.partial, v.scratch);
      HoldingWeight(kept, v.partial, v.scratch);
      ReadMeans(s, next, kept, v.partial, v.scratch);
      KeptLast(event, run, v);
      CarryOn(run + [event], kept, rest, Drops(event) + v.reports, ReadFrom(s, next, v.partial, v.scratch));
      assert run + [event] + rest == run + Trace(s, pos, partial, scratch);
    } else {
      assert run + Trace(s, pos, partial, scratch) == run + [event];
      ReturnedLast(event, run);
      assert (run + [event])[..0] == [] && Weights([]) == 0 by { NoWeights(); }
    }
  }

  lemma NoWeights()
    ensures Weights([]) == 0
  {
  }

  lemma KeptLast(event: Event, run: seq<Event>, v: Verdict)
    requires v.GoOn?
    ensures var kept, all := Kept(event, run, v), run + [event];
            |kept| <= |all| && all[|all| - |kept|..] == kept
  {
  }

  lemma ReturnedLast(event: Event, run: seq<Event>)
    ensures var all := run + [event];
            var from := if event.Fragment? && event.kind == FULL_TYPE then |run| else 0;
            all[0..] == all && all[from..] == Returned(event, run)
  {
  }

  lemma HoldingWeight(run: seq<Event>, partial: bool, scratch: Bytes)
    requires Holding(run, partial, scratch)
    ensures Weights(run) == |scratch|
  {
    if partial {
      OpenWeight(run, scratch);
    }
  }

  /** More events in front, whose bytes are reported. */
  lemma DeliversAfter(head: seq<Event>, tail: seq<Event>, record: Bytes, more: seq<nat>, reports: seq<nat>)
    requires Delivers(tail, record, reports) && Weights(head) == Sum(more)
    ensures Delivers(head + tail, record, more + reports)
  {
    hide Whole, Weights, Sum;
    WeightsConcat(head, tail);
    SumConcat(more, reports);
    var i :| 0 <= i < |tail| && Whole(tail[i..], record);
    assert (head + tail)[|head| + i..] == tail[i..];
  }

  lemma EndsLater(head: seq<Event>, tail: seq<Event>, more: seq<nat>, reports: seq<nat>)
    requires Ends(tail, 0, reports) && Weights(head) == Sum(more)
    ensures Ends(head + tail, 0, more + reports)
  {
    hide Unfinished, Weights, Sum;
    SumConcat(more, reports);
    var i :| 0 <= i < |tail| && Unfinished(tail[i..]) && Weights(tail[..i]) == Sum(reports);
    assert (head + tail)[|head| + i..] == tail[i..];
    assert (head + tail)[..|head| + i] == head + tail[..i];
    WeightsConcat(head, tail[..i]);
  }

  /** Events that are kept, from the end of those so far, go before the rest. */
  lemma CarryOn(sofar: seq<Event>, kept: seq<Event>, rest: seq<Event>, reports: seq<nat>, r: Outcome)
    requires |kept| <= |sofar| && sofar[|sofar| - |kept|..] == kept && Weights(sofar) == Weights(kept) + Sum(reports)
    requires if r.record.Some? then Delivers(kept + rest, r.record.value, r.reports)
             else Ends(kept + rest, 0, r.reports)
    ensures var all := Reporting(reports, r).reports;
            if r.record.Some? then Delivers(sofar + rest, r.record.value, all) else Ends(sofar + rest, 0, all)
  {
    hide Delivers, Ends, Weights, Sum;
    var head := sofar[..|sofar| - |kept|];
    assert sofar == head + kept && sofar + rest == head + (kept + rest);
    WeightsConcat(head, kept);
    if r.record.Some? {
      DeliversAfter(head, kept + rest, r.record.value, reports, r.reports);
    } else {
      EndsLater(head, kept + rest, reports, r.reports);
    }
  }

  /** The physical records that the loop of a recovery takes from the file. */
  ghost function TraceAll(s: Source, pos: nat): seq<Event>
    requires pos <= |s.file|
    decreases |s.file| - pos
  {
    var r := ReadFrom(s, pos, false, []);
    if r.record.None? then Trace(s, pos, false, []) else Trace(s, pos, false, []) + TraceAll(s, r.pos)
  }

  /** A whole file, damaged or not: the bytes parsed, up to the record that the
      end leaves unfinished, are those of the records and those reported. */
  lemma {:induction false} FileAccounts(s: Source, pos: nat)
    requires pos <= |s.file|
    ensures var (records, reports) := ReadAll(s, pos);
            Ends(TraceAll(s, pos), Lengths(records), reports)
    decreases |s.file| - pos
  {
    hide ReadFrom, Trace, Whole, Unfinished, Weight, Sum;
    var r := ReadFrom(s, pos, false, []);
    var first := Trace(s, pos, false, []);
    ReadMeans(s, pos, [], false, []);
    assert [] + first == first;
    if r.record.Some? {
      FileAccounts(s, r.pos);
      var (records, reports) := ReadAll(s, r.pos);
      EndsAfter(first, TraceAll(s, r.pos), r.record.value, r.reports, records, reports);
    }
  }

  lemma EndsAfter(first: seq<Event>, rest: seq<Event>, record: Bytes, before: seq<nat>,
                  records: seq<Bytes>, reports: seq<nat>)
    requires Delivers(first, record, before) && Ends(rest, Lengths(records), reports)
    ensures Ends(first + rest, Lengths([record] + records), before + reports)
  {
    hide Whole, Unfinished, Weight, Sum;
    var i :| 0 <= i < |rest| && Unfinished(rest[i..]) && Weights(rest[..i]) == Lengths(records) + Sum(reports);
    assert (first + rest)[|first| + i..] == rest[i..] && (first + rest)[..|first| + i] == first + rest[..i];
    WeightsConcat(first, rest[..i]);
    SumConcat(before, reports);
    assert ([record] + records)[1..] == records;
  }

  // ----- records of a log with checksums -----

  /** The file holds the fragment's physical record, stamp and all. */
  ghost predicate Genuine(s: Source, event: Event) {
    event.Fragment? ==>
      |event.data| < 0x1_0000 && exists p: nat :: InFile(s, p, Physical(s.c, event.kind, event.data))
  }

  ghost predicate InFile(s: Source, p: nat, bytes: Bytes) {
    p + |bytes| <= |s.file| && s.file[p..p + |bytes|] == bytes
  }

  ghost predicate AllGenuine(s: Source, events: seq<Event>) {
    forall e :: e in events ==> Genuine(s, e)
  }

  lemma RecordGenuine(s: Source, pos: nat)
    requires s.checksum && Exact(s.c) && pos <= |s.file| && BufferEnd(s, pos) - pos >= HEADER_SIZE
    ensures Genuine(s, RecordAt(s, pos).0)
  {
    hide LeftInBlock;
    var e := RecordAt(s, pos).0;
    if e.Fragment? {
      var length, kind := LengthAt(s, pos), s.file[pos + 6];
      var x := s.file[pos + 6..pos + HEADER_SIZE + length];
      assert !ChecksumFails(s, pos);
      assert x == [kind] + e.data;
      assert s.file[pos..pos + 4] == s.c.stamp(x);
      HeaderBytes(s, pos, e.data);
      var all := Physical(s.c, kind, e.data);
      assert s.file[pos..pos + |all|] == s.file[pos..pos + 4] + s.file[pos + 4..pos + 7] + e.data;
      assert InFile(s, pos, all);
    }
  }

  lemma HeaderBytes(s: Source, pos: nat, data: Bytes)
    requires pos + HEADER_SIZE <= |s.file| && |data| == LengthAt(s, pos)
    ensures |data| < 0x1_0000 && s.file[pos + 4..pos + 7] == [|data| % 256, |data| / 256, s.file[pos + 6]]
  {
    var low: int, high: int := s.file[pos + 4], s.file[pos + 5];
    assert |data| == low + 256 * high && |data| % 256 == low && |data| / 256 == high;
  }

  /** With checksums on, what is read from any file was stamped as it is. */
  lemma {:induction false} NextGenuine(s: Source, pos: nat)
    requires s.checksum && Exact(s.c) && pos <= |s.file|
    ensures Genuine(s, NextPhysical(s, pos).0)
    decreases |s.file| - pos
  {
    hide LeftInBlock, RecordAt, Genuine;
    if BufferEnd(s, pos) - pos >= HEADER_SIZE {
      RecordGenuine(s, pos);
    } else if pos + LeftInBlock(pos) <= |s.file| {
      NextGenuine(s, pos + LeftInBlock(pos));
    } else {
      NoFragment(s);
    }
  }

  lemma NoFragment(s: Source)
    ensures Genuine(s, Eof)
  {
  }

  lemma {:induction false} TraceGenuine(s: Source, pos: nat, partial: bool, scratch: Bytes)
    requires s.checksum && Exact(s.c) && pos <= |s.file|
    ensures AllGenuine(s, Trace(s, pos, partial, scratch))
    decreases |s.file| - pos
  {
    hide NextPhysical, Judge, Genuine;
    NextGenuine(s, pos);
    var (event, next) := NextPhysical(s, pos);
    var v := Judge(event, partial, scratch);
    if v.GoOn? {
      ContinuesLater(event, partial, scratch);
      TraceGenuine(s, next, v.partial, v.scratch);
    }
  }

  lemma ContinuesLater(event: Event, partial: bool, scratch: Bytes)
    ensures Judge(event, partial, scratch).GoOn? ==> !event.Eof?
  {
  }

  /** A record put together from fragments that the file holds with their stamps. */
  ghost predicate Authentic(s: Source, record: Bytes) {
    exists run: seq<Event> :: Whole(run, record) && AllGenuine(s, run)
  }

  /** Every record that is read with checksums on, from any file, is put together from
      fragments stamped as they are. */
  lemma {:induction false} RecordsAuthentic(s: Source, pos: nat)
    requires s.checksum && Exact(s.c) && pos <= |s.file|
    ensures forall record :: record in ReadAll(s, pos).0 ==> Authentic(s, record)
    decreases |s.file| - pos
  {
    hide ReadFrom, Trace, Whole, Genuine, Weights, Sum, Unfinished;
    var r := ReadFrom(s, pos, false, []);
    var events := Trace(s, pos, false, []);
    ReadMeans(s, pos, [], false, []);
    assert [] + events == events;
    TraceGenuine(s, pos, false, []);
    if r.record.Some? {
      var i :| 0 <= i < |events| && Whole(events[i..], r.record.value);
      assert AllGenuine(s, events[i..]);
      RecordsAuthentic(s, r.pos);
    }
  }
}
