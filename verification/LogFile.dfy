/** The checksum of the log: a masked CRC (db/log_writer.cc, db/log_reader.cc). */
module LogChecksum {
  import opened Coding
  import opened LogFormat

  type Extend = (Uint32, Bytes) -> Uint32

  /** Extending in two steps is extending once. */
  ghost predicate Extends(extend: Extend) {
    forall c: Uint32, a: Bytes, b: Bytes :: extend(extend(c, a), b) == extend(c, a + b)
  }

  function StampOf(crc: Uint32): Stamp { EncodeFixed32(Mask(crc)) }

  function Masked(extend: Extend): Checksum {
    Checksum((x: Bytes) => StampOf(extend(0, x)), (h: Stamp, x: Bytes) => Unmask(DecodeFixed32(h)) == extend(0, x))
  }

  /** Unmasking loses nothing, so only the string's own stamp is accepted. */
  lemma MaskedExact(extend: Extend)
    ensures Exact(Masked(extend))
  {
    hide EncodeFixed32, DecodeFixed32, Mask, Unmask;
    forall h: Stamp, x: Bytes | Masked(extend).intact(h, x) ensures h == Masked(extend).stamp(x) {
      MaskUnmask(DecodeFixed32(h));
      Fixed32Bytes(h);
      assert h == h[..4] == EncodeFixed32(DecodeFixed32(h)) == StampOf(extend(0, x));
    }
  }

  lemma MaskedSound(extend: Extend)
    ensures Sound(Masked(extend))
  {
    forall x: Bytes ensures Masked(extend).intact(Masked(extend).stamp(x), x) {
      var crc := extend(0, x);
      UnmaskMask(crc);
      Fixed32RoundTrip(Mask(crc), []);
      assert EncodeFixed32(Mask(crc)) + [] == EncodeFixed32(Mask(crc));
    }
  }
}

module LogWriter {
  import opened Coding
  import opened LogFormat
  import opened LogChecksum

  class Writer {
    const extend: Extend
    const typeCrc: seq<Uint32>
    var dest: Bytes
    var blockOffset: nat

    ghost predicate Valid()
      reads this
    {
      && |typeCrc| == 5
      && (forall t :: 0 <= t < 5 ==> typeCrc[t] == extend(0, [t]))
      && AtOffset(|dest|, blockOffset)
    }

    /** A writer on a file that already holds some bytes. */
    constructor (extend: Extend, dest: Bytes)
      ensures Valid() && this.extend == extend && this.dest == dest
    {
      this.extend := extend;
      this.dest := dest;
      typeCrc := [extend(0, [0]), extend(0, [1]), extend(0, [2]), extend(0, [3]), extend(0, [4])];
      blockOffset := |dest| % BLOCK_SIZE;
    }

    method EmitPhysicalRecord(t: Byte, data: Bytes)
      requires Valid() && Extends(extend) && t <= LAST_TYPE && blockOffset + HEADER_SIZE + |data| <= BLOCK_SIZE
      modifies this
      ensures Valid() && dest == old(dest) + Physical(Masked(extend), t, data)
      ensures blockOffset == old(blockOffset) + HEADER_SIZE + |data|
    {
      hide StampOf;
      var crc := extend(typeCrc[t], data);
      var header := StampOf(crc) + [|data| % 256, |data| / 256, t];
      assert crc == extend(0, [t] + data);
      assert Masked(extend).stamp([t] + data) == StampOf(crc);
      Moved(|dest|, blockOffset, HEADER_SIZE + |data|);
      dest := dest + header;
      dest := dest + data;
      blockOffset := blockOffset + HEADER_SIZE + |data|;
    }

    /** Fills the block with zeros when a header does not fit in it. */
    method SwitchBlock(ghost data: Bytes, ghost begin: bool)
      requires Valid()
      modifies this
      ensures Valid() && blockOffset + HEADER_SIZE <= BLOCK_SIZE && Rank(|dest|) <= old(Rank(|dest|))
      ensures blockOffset + LeftInBlock(|dest|) == BLOCK_SIZE
      ensures dest + Encoded(Masked(extend), |dest|, data, begin)
           == old(dest + Encoded(Masked(extend), |dest|, data, begin))
    {
      hide Encoded, Masked, Physical, LeftInBlock, Rank, AtOffset;
      OffsetLeft(|dest|, blockOffset);
      var leftover := BLOCK_SIZE - blockOffset;
      if leftover < HEADER_SIZE {
        EncodedTrailer(Masked(extend), |dest|, data, begin);
        Aligned(|dest|, blockOffset);
        dest := dest + Zeros(leftover);
        blockOffset := 0;
        OffsetLeft(|dest|, blockOffset);
      }
    }

    /** Cuts a record into fragments; an empty record still makes one. */
    method AddRecord(slice: Bytes)
      requires Valid() && Extends(extend)
      modifies this
      ensures Valid() && dest == old(dest) + Encoded(Masked(extend), |old(dest)|, slice, true)
    {
      hide Encoded, Masked, Physical, LeftInBlock, Rank, AtOffset, FragmentType, Valid;
      var p: nat, left: nat, begin := 0, |slice|, true;
      ghost var end := dest + Encoded(Masked(extend), |dest|, slice, true);
      assert slice[0..] == slice;
      while true
        invariant Valid() && p + left == |slice|
        invariant end == dest + Encoded(Masked(extend), |dest|, slice[p..], begin)
        decreases left, Rank(|dest|)
      {
        SwitchBlock(slice[p..], begin);
        var avail := BLOCK_SIZE - blockOffset - HEADER_SIZE;
        var n := if left < avail then left else avail;
        EncodedFragment(Masked(extend), |dest|, slice, p, n, begin);
        EmitPhysicalRecord(FragmentType(begin, left == n), slice[p..p + n]);
        p, left, begin := p + n, left - n, false;
        if left == 0 {
          return;
        }
      }
    }
  }

  /** The writer's offset is the file's length within its block; a full block
      may still count as its end. */
  predicate AtOffset(length: nat, offset: nat) {
    offset <= BLOCK_SIZE && offset <= length && (length - offset) % BLOCK_SIZE == 0
  }

  lemma Moved(length: nat, offset: nat, n: nat)
    requires AtOffset(length, offset) && offset + n <= BLOCK_SIZE
    ensures AtOffset(length + n, offset + n)
  {
  }

  lemma OffsetLeft(length: nat, offset: nat)
    requires AtOffset(length, offset)
    ensures LeftInBlock(length) == if offset == BLOCK_SIZE then BLOCK_SIZE else BLOCK_SIZE - offset
  {
  }

  lemma Aligned(length: nat, offset: nat)
    requires AtOffset(length, offset)
    ensures AtOffset(length + (BLOCK_SIZE - offset), 0)
  {
  }

  lemma EncodedTrailer(c: Checksum, pos: nat, data: Bytes, begin: bool)
    requires LeftInBlock(pos) < HEADER_SIZE || LeftInBlock(pos) == BLOCK_SIZE
    ensures LeftInBlock(pos) < HEADER_SIZE ==>
              Encoded(c, pos, data, begin) == Zeros(LeftInBlock(pos)) + Encoded(c, pos + LeftInBlock(pos), data, begin)
    ensures LeftInBlock(pos) < HEADER_SIZE ==> Rank(pos + LeftInBlock(pos)) <= Rank(pos)
  {
    hide Physical, LeftInBlock;
  }

  lemma EncodedFragment(c: Checksum, pos: nat, slice: Bytes, p: nat, n: nat, begin: bool)
    requires p + n <= |slice| && HEADER_SIZE + n <= LeftInBlock(pos)
    requires p + n == |slice| || HEADER_SIZE + n == LeftInBlock(pos)
    ensures Encoded(c, pos, slice[p..], begin)
         == Physical(c, FragmentType(begin, p + n == |slice|), slice[p..p + n]) +
            if p + n == |slice| then [] else Encoded(c, pos + HEADER_SIZE + n, slice[p + n..], false)
    ensures n == 0 && p < |slice| ==> Rank(pos + HEADER_SIZE) < Rank(pos)
  {
    hide Physical, LeftInBlock, FragmentType;
    assert FragmentLength(pos, |slice[p..]|) == n;
    assert slice[p..][..n] == slice[p..p + n] && slice[p..][n..] == slice[p + n..];
    assert p + n == |slice| ==> slice[p..] == slice[p..p + n];
  }
}

module LogReader {
  import opened Options
  import opened Coding
  import opened LogFormat
  import LogLosses

  class Reader {
    const source: Source
    var buffer: Bytes
    var eof: bool
    var endOfBuffer: nat
    var reports: seq<nat>

    /** The buffer is a stretch of the file up to the end of a block, or of the
        file once a short read has shown the end. */
    ghost predicate Valid()
      reads this`buffer, this`eof, this`endOfBuffer
      ensures Valid() ==> |buffer| <= endOfBuffer <= |source.file|
    {
      && |buffer| <= endOfBuffer
      && BufferAt(source, endOfBuffer - |buffer|, endOfBuffer, eof)
      && buffer == source.file[endOfBuffer - |buffer|..endOfBuffer]
    }

    /** The file position that reading has reached. */
    ghost function Pos(): nat
      requires |buffer| <= endOfBuffer
      reads this`buffer, this`endOfBuffer
    {
      endOfBuffer - |buffer|
    }

    constructor (source: Source)
      ensures Valid() && this.source == source && Pos() == 0 && reports == []
    {
      this.source := source;
      buffer, eof, endOfBuffer, reports := [], false, 0, [];
    }

    /** The next block of the file, or what is left of it. */
    method Refill()
      requires Valid() && !eof && |buffer| < HEADER_SIZE
      modifies this
      ensures Valid() && (eof || |buffer| >= HEADER_SIZE)
      ensures reports == old(reports) && NextPhysical(source, Pos()) == old(NextPhysical(source, Pos()))
    {
      hide BufferAt, NextPhysical, RecordAt, LeftInBlock;
      RefillAt(source, Pos(), endOfBuffer);
      var n := if |source.file| - endOfBuffer < BLOCK_SIZE then |source.file| - endOfBuffer else BLOCK_SIZE;
      buffer := source.file[endOfBuffer..endOfBuffer + n];
      endOfBuffer := endOfBuffer + n;
      if n < BLOCK_SIZE {
        eof := true;
      }
    }

    method ReportCorruption(bytes: nat)
      modifies `reports
      ensures reports == old(reports) + [bytes]
    {
      reports := reports + [bytes];
    }

    method ReadPhysicalRecord() returns (event: Event)
      requires Valid()
      modifies this
      ensures Valid() && (event, Pos()) == old(NextPhysical(source, Pos()))
      ensures reports == old(reports) + Drops(event)
    {
      if |buffer| < HEADER_SIZE && !eof {
        Refill();
      }
      if |buffer| < HEADER_SIZE {
        EndOfFile(source, Pos(), endOfBuffer);
        buffer := [];
        return Eof;
      }
      event := ParseHeader();
    }

    /** The part of ReadPhysicalRecord that follows when the buffer holds a header. */
    method ParseHeader() returns (event: Event)
      requires Valid() && |buffer| >= HEADER_SIZE
      requires BufferAt(source, Pos(), endOfBuffer, eof) && buffer == source.file[Pos()..endOfBuffer]
      modifies this
      ensures Valid() && (event, Pos()) == old(NextPhysical(source, Pos()))
      ensures reports == old(reports) + Drops(event)
    {
      hide BufferAt, NextPhysical, RecordAt, ParseBuffer, Valid;
      ParseIsRecord(source, Pos(), endOfBuffer, eof, buffer);
      var parsed := ParseBuffer(source.c, source.checksum, buffer, eof);
      event := parsed.0;
      RemovePrefix(parsed.1);
      if event.Bad? && event.reports != [] {
        ReportCorruption(event.reports[0]);
      }
    }

    method RemovePrefix(n: nat)
      requires Valid() && n <= |buffer|
      modifies `buffer
      ensures Valid() && Pos() == old(Pos()) + n
    {
      hide BufferAt;
      BufferMoves(source, Pos(), endOfBuffer, eof, Pos() + n);
      buffer := buffer[n..];
    }

    /** The next logical record, or none at the end of the file. */
    method ReadRecord() returns (record: Option<Bytes>)
      requires Valid()
      modifies this
      ensures Valid()
      ensures Outcome(record, Pos(), reports) == Reporting(old(reports), old(ReadFrom(source, Pos(), false, [])))
    {
      hide Valid, NextPhysical, ReadFrom, Judge, Drops;
      var scratch, partial: bool := [], false;
      while true
        invariant Valid() && (!partial ==> scratch == [])
        invariant Reporting(reports, ReadFrom(source, Pos(), partial, scratch))
               == Reporting(old(reports), old(ReadFrom(source, Pos(), false, [])))
        decreases |source.file| - Pos()
      {
        ghost var pos, before := Pos(), reports;
        var event := ReadPhysicalRecord();
        ReadFromStep(source, pos, partial, scratch, before, event, Pos(), Judge(event, partial, scratch));
        var verdict := Handle(event, partial, scratch);
        if verdict.Return? {
          return verdict.record;
        }
        partial, scratch := verdict.partial, verdict.scratch;
      }
    }

    /** The switch on the type of a physical record. A drop that reading it caused
        is reported already. */
    method Handle(event: Event, partial: bool, scratch: Bytes) returns (verdict: Verdict)
      requires !partial ==> scratch == []
      modifies `reports
      ensures verdict == Judge(event, partial, scratch) && (verdict.GoOn? && !verdict.partial ==> verdict.scratch == [])
      ensures reports == old(reports) + verdict.reports
    {
      match event
      case Eof =>
        return Return(None, []);
      case Bad(_) =>
        if partial {
          ReportCorruption(|scratch|);
        }
        return GoOn(false, [], if partial then [|scratch|] else []);
      case Fragment(kind, data) =>
        if kind == FULL_TYPE || kind == FIRST_TYPE {
          var cut := if partial && scratch != [] then [|scratch|] else [];
          if partial && scratch != [] {
            ReportCorruption(|scratch|);
          }
          return if kind == FULL_TYPE then Return(Some(data), cut) else GoOn(true, data, cut);
        } else if kind == MIDDLE_TYPE || kind == LAST_TYPE {
          if !partial {
            ReportCorruption(|data|);
            return GoOn(false, [], [|data|]);
          }
          return if kind == LAST_TYPE then Return(Some(scratch + data), []) else GoOn(true, scratch + data, []);
        } else if kind == EOF_CODE {
          return Return(None, []);
        } else if kind == BAD_CODE {
          if partial {
            ReportCorruption(|scratch|);
          }
          return GoOn(false, [], if partial then [|scratch|] else []);
        } else {
          var lost := |data| + if partial then |scratch| else 0;
          ReportCorruption(lost);
          return GoOn(false, [], [lost]);
        }
    }
  }

  lemma ReadFromStep(s: Source, pos: nat, partial: bool, scratch: Bytes, reports: seq<nat>, event: Event, next: nat,
                     v: Verdict)
    requires pos <= |s.file| && NextPhysical(s, pos) == (event, next) && v == Judge(event, partial, scratch)
    ensures next <= |s.file| && (v.GoOn? ==> next > pos)
    ensures v.Return? ==>
              Reporting(reports, ReadFrom(s, pos, partial, scratch))
                == Outcome(v.record, next, reports + Drops(event) + v.reports)
    ensures v.GoOn? ==>
              Reporting(reports, ReadFrom(s, pos, partial, scratch))
                == Reporting(reports + Drops(event) + v.reports, ReadFrom(s, next, v.partial, v.scratch))
  {
    hide NextPhysical, Drops;
  }

  /** The loop of a recovery: every record of a file. */
  method ReadLog(source: Source) returns (records: seq<Bytes>, reports: seq<nat>)
    ensures (records, reports) == ReadAll(source, 0)
    ensures LogLosses.Ends(LogLosses.TraceAll(source, 0), LogLosses.Lengths(records), reports)
    ensures source.checksum && Exact(source.c) ==> forall r :: r in records ==> LogLosses.Authentic(source, r)
  {
    hide ReadAll, ReadFrom, LogLosses.Ends, LogLosses.TraceAll, LogLosses.Lengths, LogLosses.Authentic, Exact;
    LogLosses.FileAccounts(source, 0);
    if source.checksum && Exact(source.c) {
      LogLosses.RecordsAuthentic(source, 0);
    }
    var reader := new Reader(source);
    records := [];
    assert [] + ReadAll(source, 0).0 == ReadAll(source, 0).0 && [] + ReadAll(source, 0).1 == ReadAll(source, 0).1;
    while true
      invariant fresh(reader) && reader.Valid() && reader.source == source
      invariant Then(records, reader.reports, ReadAll(source, reader.Pos())) == ReadAll(source, 0)
      decreases |source.file| - reader.Pos()
    {
      ReadAllStep(source, reader.Pos(), ReadFrom(source, reader.Pos(), false, []), records, reader.reports);
      var record := reader.ReadRecord();
      if record == None {
        return records, reader.reports;
      }
      records := records + [record.value];
    }
  }

  /** Records and reports so far, then the rest. */
  function Then(records: seq<Bytes>, reports: seq<nat>, rest: (seq<Bytes>, seq<nat>)): (seq<Bytes>, seq<nat>) {
    (records + rest.0, reports + rest.1)
  }

  lemma ReadAllStep(s: Source, pos: nat, o: Outcome, records: seq<Bytes>, reports: seq<nat>)
    requires pos <= |s.file| && o == ReadFrom(s, pos, false, [])
    ensures o.record == None ==> Then(records, reports, ReadAll(s, pos)) == (records, reports + o.reports)
    ensures o.record.Some? ==>
              Then(records, reports, ReadAll(s, pos))
                == Then(records + [o.record.value], reports + o.reports, ReadAll(s, o.pos))
  {
    hide ReadFrom;
    if o.record == None {
      assert records + [] == records;
    } else {
      var rest := ReadAll(s, o.pos);
      assert ReadAll(s, pos) == ([o.record.value] + rest.0, o.reports + rest.1);
      assert records + ([o.record.value] + rest.0) == records + [o.record.value] + rest.0;
      assert reports + (o.reports + rest.1) == reports + o.reports + rest.1;
    }
  }

  ghost predicate BufferAt(s: Source, pos: nat, end: nat, eof: bool)
    ensures BufferAt(s, pos, end, eof) ==> pos <= end <= |s.file|
  {
    && pos <= end <= |s.file|
    && if eof then end == |s.file| && (pos == end || end < pos + LeftInBlock(pos))
       else end % BLOCK_SIZE == 0 && (pos == end || end == pos + LeftInBlock(pos))
  }

  lemma RefillAt(s: Source, pos: nat, end: nat)
    requires BufferAt(s, pos, end, false) && end - pos < HEADER_SIZE
    ensures NextPhysical(s, pos) == NextPhysical(s, end)
    ensures var n := if |s.file| - end < BLOCK_SIZE then |s.file| - end else BLOCK_SIZE;
            BufferAt(s, end, end + n, n < BLOCK_SIZE)
  {
  }

  lemma EndOfFile(s: Source, pos: nat, end: nat)
    requires BufferAt(s, pos, end, true) && end - pos < HEADER_SIZE
    ensures NextPhysical(s, pos) == (Eof, |s.file|) && BufferAt(s, end, end, true)
  {
  }

  /** The record at the front of a buffer, and how much of the buffer goes. */
  function ParseBuffer(c: Checksum, checksum: bool, buffer: Bytes, eof: bool): (r: (Event, nat))
    requires |buffer| >= HEADER_SIZE
    ensures r.1 <= |buffer| && (r.0.Bad? ==> |r.0.reports| <= 1)
  {
    var length := buffer[4] as int + 256 * (buffer[5] as int);
    if HEADER_SIZE + length > |buffer| then
      (if eof then Eof else Bad([|buffer|]), |buffer|)
    else if buffer[6] == ZERO_TYPE && length == 0 then
      (Bad([]), |buffer|)
    else if checksum && !c.intact(buffer[..4], buffer[6..HEADER_SIZE + length]) then
      (Bad([|buffer|]), |buffer|)
    else
      (Fragment(buffer[6], buffer[HEADER_SIZE..HEADER_SIZE + length]), HEADER_SIZE + length)
  }

  lemma ParseIsRecord(s: Source, pos: nat, end: nat, eof: bool, buffer: Bytes)
    requires BufferAt(s, pos, end, eof) && pos + HEADER_SIZE <= end && buffer == s.file[pos..end]
    ensures var (event, n) := ParseBuffer(s.c, s.checksum, buffer, eof); NextPhysical(s, pos) == (event, pos + n)
  {
    BufferIsBlock(s, pos, end, eof);
    hide BufferAt, NextPhysical, BufferEnd, LeftInBlock;
    if HEADER_SIZE + LengthAt(s, pos) <= |buffer| {
      Slices(s.file, pos, end, HEADER_SIZE + LengthAt(s, pos));
    }
  }

  lemma BufferIsBlock(s: Source, pos: nat, end: nat, eof: bool)
    requires BufferAt(s, pos, end, eof) && pos + HEADER_SIZE <= end
    ensures BufferEnd(s, pos) == end && NextPhysical(s, pos) == RecordAt(s, pos)
    ensures eof <==> end != pos + LeftInBlock(pos)
    ensures eof ==> end == |s.file|
  {
  }

  lemma Slices(file: Bytes, pos: nat, end: nat, n: nat)
    requires pos <= end <= |file| && HEADER_SIZE <= n <= end - pos
    ensures file[pos..end][..4] == file[pos..pos + 4]
    ensures file[pos..end][6..n] == file[pos + 6..pos + n]
    ensures file[pos..end][HEADER_SIZE..n] == file[pos + HEADER_SIZE..pos + n]
    ensures file[pos..end][n..] == file[pos + n..end]
  {
    SubSlice(file, pos, end, 0, 4);
    SubSlice(file, pos, end, 6, n);
    SubSlice(file, pos, end, HEADER_SIZE, n);
  }

  lemma SubSlice(file: Bytes, pos: nat, end: nat, i: nat, j: nat)
    requires pos <= end <= |file| && i <= j <= end - pos
    ensures file[pos..end][i..j] == file[pos + i..pos + j]
  {
    assert forall k :: 0 <= k < j - i ==> file[pos..end][i..j][k] == file[pos..end][i + k];
  }

  lemma BufferMoves(s: Source, pos: nat, end: nat, eof: bool, next: nat)
    requires BufferAt(s, pos, end, eof) && pos <= next <= end
    ensures BufferAt(s, next, end, eof)
  {
  }
}
