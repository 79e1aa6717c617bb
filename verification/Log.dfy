/** The log format (db/log_format.h): the writer's fragments and a reader's
    view of a file by position, for any checksum. */
module LogFormat {
  import opened Options
  import opened Coding

  const BLOCK_SIZE: nat := 32768
  const HEADER_SIZE: nat := 7

  const ZERO_TYPE: Byte := 0
  const FULL_TYPE: Byte := 1
  const FIRST_TYPE: Byte := 2
  const MIDDLE_TYPE: Byte := 3
  const LAST_TYPE: Byte := 4

  /** What the reader's own codes for the end of the file and for a bad record
      are; a type byte with one of these values is taken for the code. */
  const EOF_CODE: Byte := 5
  const BAD_CODE: Byte := 6

  type Stamp = b: Bytes | |b| == 4 witness [0, 0, 0, 0]

  /** The four bytes that go before a string, and the test a reader makes of
      them. */
  datatype Checksum = Checksum(stamp: Bytes -> Stamp, intact: (Stamp, Bytes) -> bool)

  ghost predicate Sound(c: Checksum) {
    forall x: Bytes {:trigger c.stamp(x)} :: c.intact(c.stamp(x), x)
  }

  /** A checksum that accepts no stamp but the string's own. */
  ghost predicate Exact(c: Checksum) {
    forall h: Stamp, x: Bytes :: c.intact(h, x) ==> h == c.stamp(x)
  }

  // ----- what the writer appends -----

  /** Falls at the start of a block: why an empty fragment cannot repeat. */
  function Rank(pos: nat): nat { if pos % BLOCK_SIZE == 0 then 0 else 1 }

  /** The bytes left in the block of a file position. */
  function LeftInBlock(pos: nat): (n: nat)
    ensures 0 < n <= BLOCK_SIZE
    ensures Rank(pos + n) == 0 && (n < BLOCK_SIZE ==> Rank(pos) == 1)
  {
    BLOCK_SIZE - pos % BLOCK_SIZE
  }

  /** Header and payload of one physical record. */
  function Physical(c: Checksum, kind: Byte, data: Bytes): (r: Bytes)
    requires |data| < 0x1_0000
    ensures |r| == HEADER_SIZE + |data|
  {
    c.stamp([kind] + data) + [|data| % 256, |data| / 256, kind] + data
  }

  function FragmentType(begin: bool, end: bool): (r: Byte)
    ensures r != ZERO_TYPE && r <= LAST_TYPE
  {
    if begin && end then FULL_TYPE else if begin then FIRST_TYPE else if end then LAST_TYPE else MIDDLE_TYPE
  }

  /** The length of the next fragment of a record, in a block with room for it. */
  function FragmentLength(pos: nat, left: nat): (n: nat)
    requires LeftInBlock(pos) >= HEADER_SIZE
    ensures n <= left && HEADER_SIZE + n <= LeftInBlock(pos)
    ensures n == left || HEADER_SIZE + n == LeftInBlock(pos)
  {
    if left < LeftInBlock(pos) - HEADER_SIZE then left else LeftInBlock(pos) - HEADER_SIZE
  }

  function Zeros(n: nat): (r: Bytes)
    ensures |r| == n
  {
    seq(n, _ => 0)
  }

  /** What a record adds to a file of length pos: zeros where a header does not
      fit, and fragments that never cross a block. A fragment may be empty, but
      the one after it starts a block. */
  function Encoded(c: Checksum, pos: nat, data: Bytes, begin: bool): Bytes
    decreases |data|, Rank(pos)
  {
    if LeftInBlock(pos) < HEADER_SIZE then
      Zeros(LeftInBlock(pos)) + Encoded(c, pos + LeftInBlock(pos), data, begin)
    else
      var n := FragmentLength(pos, |data|);
      if n == |data| then Physical(c, FragmentType(begin, true), data)
      else Physical(c, FragmentType(begin, false), data[..n]) + Encoded(c, pos + HEADER_SIZE + n, data[n..], false)
  }

  /** What a run of records adds to a file of length pos. */
  function EncodedAll(c: Checksum, pos: nat, records: seq<Bytes>): Bytes
    decreases |records|
  {
    if records == [] then []
    else
      var first := Encoded(c, pos, records[0], true);
      first + EncodedAll(c, pos + |first|, records[1..])
  }

  // ----- a file read by position -----

  /** A file to read, its checksum, and whether checksums are verified. */
  datatype Source = Source(c: Checksum, checksum: bool, file: Bytes)

  /** A physical record, the end of the file, or a part of a block given up,
      with the sizes of the drops reported. */
  datatype Event = Fragment(kind: Byte, data: Bytes) | Eof | Bad(reports: seq<nat>)

  /** The end of the block of pos, or of the file. */
  function BufferEnd(s: Source, pos: nat): (end: nat)
    requires pos <= |s.file|
    ensures pos <= end <= |s.file|
  {
    if pos + LeftInBlock(pos) <= |s.file| then pos + LeftInBlock(pos) else |s.file|
  }

  /** The length field of the header at pos. */
  function LengthAt(s: Source, pos: nat): nat
    requires pos + HEADER_SIZE <= |s.file|
  {
    s.file[pos + 4] as int + 256 * (s.file[pos + 5] as int)
  }

  predicate ChecksumFails(s: Source, pos: nat)
    requires pos + HEADER_SIZE <= |s.file| && pos + HEADER_SIZE + LengthAt(s, pos) <= |s.file|
  {
    s.checksum && !s.c.intact(s.file[pos..pos + 4], s.file[pos + 6..pos + HEADER_SIZE + LengthAt(s, pos)])
  }

  /** The record whose header is at pos, in a block that holds the header. */
  function RecordAt(s: Source, pos: nat): (r: (Event, nat))
    requires pos <= |s.file| && BufferEnd(s, pos) - pos >= HEADER_SIZE
    ensures r.1 <= |s.file| && (r.0.Eof? || r.1 > pos)
  {
    var end := BufferEnd(s, pos);
    var length := LengthAt(s, pos);
    if HEADER_SIZE + length > end - pos then
      if end == pos + LeftInBlock(pos) then (Bad([end - pos]), end) else (Eof, |s.file|)
    else if s.file[pos + 6] == ZERO_TYPE && length == 0 then
      (Bad([]), end)
    else if ChecksumFails(s, pos) then
      (Bad([end - pos]), end)
    else
      (Fragment(s.file[pos + 6], s.file[pos + HEADER_SIZE..pos + HEADER_SIZE + length]), pos + HEADER_SIZE + length)
  }

  /** The next physical record, past a block's trailer. */
  function NextPhysical(s: Source, pos: nat): (r: (Event, nat))
    requires pos <= |s.file|
    ensures r.1 <= |s.file| && (r.0.Eof? || r.1 > pos)
    decreases |s.file| - pos
  {
    if BufferEnd(s, pos) - pos >= HEADER_SIZE then RecordAt(s, pos)
    else if pos + LeftInBlock(pos) <= |s.file| then NextPhysical(s, pos + LeftInBlock(pos))
    else (Eof, |s.file|)
  }

  /** A logical record or the end, where reading goes on, and the drops reported. */
  datatype Outcome = Outcome(record: Option<Bytes>, pos: nat, reports: seq<nat>)

  function Reporting(reports: seq<nat>, r: Outcome): Outcome {
    r.(reports := reports + r.reports)
  }

  /** The drops that reading a physical record reports. */
  function Drops(event: Event): seq<nat> { if event.Bad? then event.reports else [] }

  /** What a physical record does to the record being put together: it ends the
      call, or reading goes on with fragments in scratch (partial) or none. */
  datatype Verdict =
    | Return(record: Option<Bytes>, reports: seq<nat>)
    | GoOn(partial: bool, scratch: Bytes, reports: seq<nat>)

  function Judge(event: Event, partial: bool, scratch: Bytes): Verdict {
    match event
    case Eof => Return(None, [])
    case Bad(_) => GoOn(false, [], if partial then [|scratch|] else [])
    case Fragment(kind, data) =>
      var cut := if partial && scratch != [] then [|scratch|] else [];
      if kind == FULL_TYPE then
        Return(Some(data), cut)
      else if kind == FIRST_TYPE then
        GoOn(true, data, cut)
      else if kind == MIDDLE_TYPE || kind == LAST_TYPE then
        if !partial then GoOn(false, [], [|data|])
        else if kind == LAST_TYPE then Return(Some(scratch + data), [])
        else GoOn(true, scratch + data, [])
      else if kind == EOF_CODE then
        Return(None, [])
      else if kind == BAD_CODE then
        GoOn(false, [], if partial then [|scratch|] else [])
      else
        GoOn(false, [], [|data| + if partial then |scratch| else 0])
  }

  /** The next logical record. */
  function ReadFrom(s: Source, pos: nat, partial: bool, scratch: Bytes): (r: Outcome)
    requires pos <= |s.file|
    ensures r.pos <= |s.file| && (r.record.Some? ==> r.pos > pos)
    decreases |s.file| - pos
  {
    var (event, next) := NextPhysical(s, pos);
    match Judge(event, partial, scratch)
    case Return(record, reports) => Outcome(record, next, Drops(event) + reports)
    case GoOn(p, t, reports) => Reporting(Drops(event) + reports, ReadFrom(s, next, p, t))
  }

  /** Every record from pos to the end of the file, and every drop reported. */
  function ReadAll(s: Source, pos: nat): (seq<Bytes>, seq<nat>)
    requires pos <= |s.file|
    decreases |s.file| - pos
  {
    var r := ReadFrom(s, pos, false, []);
    if r.record.None? then ([], r.reports)
    else
      var (records, reports) := ReadAll(s, r.pos);
      ([r.record.value] + records, r.reports + reports)
  }
}

/** Reading what was written, whole or cut short. */
module LogRoundTrip {
  import opened Options
  import opened Coding
  import opened LogFormat

  /** The file holds bytes at pos. */
  ghost predicate Holds(s: Source, pos: nat, bytes: Bytes) {
    pos <= |s.file| && bytes <= s.file[pos..]
  }

  /** The file ends inside bytes, which start at pos. */
  ghost predicate CutIn(s: Source, pos: nat, bytes: Bytes) {
    pos <= |s.file| && s.file[pos..] < bytes
  }

  lemma HoldsAt(s: Source, pos: nat, bytes: Bytes, i: nat)
    requires Holds(s, pos, bytes) && i < |bytes|
    ensures pos + i < |s.file| && s.file[pos + i] == bytes[i]
  {
    assert s.file[pos..][i] == s.file[pos + i];
  }

  lemma HoldsSplit(s: Source, pos: nat, a: Bytes, b: Bytes)
    requires Holds(s, pos, a + b)
    ensures Holds(s, pos, a) && Holds(s, pos + |a|, b)
  {
    assert a <= a + b;
    assert s.file[pos..][|a|..] == s.file[pos + |a|..];
    assert (a + b)[|a|..] == b;
  }

  lemma CutSplit(s: Source, pos: nat, a: Bytes, b: Bytes)
    requires CutIn(s, pos, a + b)
    ensures CutIn(s, pos, a) || (Holds(s, pos, a) && pos + |a| <= |s.file| && CutIn(s, pos + |a|, b))
  {
    if |s.file| - pos >= |a| {
      assert s.file[pos..][..|a|] == (a + b)[..|a|] == a;
      assert s.file[pos + |a|..] == s.file[pos..][|a|..];
      assert (a + b)[|a|..] == b;
    } else {
      assert (a + b)[..|s.file| - pos] == a[..|s.file| - pos];
    }
  }

  /** The fields of a physical record in the file. */
  lemma PhysicalFields(s: Source, pos: nat, kind: Byte, data: Bytes)
    requires |data| < 0x1_0000 && Holds(s, pos, Physical(s.c, kind, data))
    ensures pos + HEADER_SIZE + |data| <= |s.file|
    ensures LengthAt(s, pos) == |data| && s.file[pos + 6] == kind
    ensures s.file[pos + HEADER_SIZE..pos + HEADER_SIZE + |data|] == data
  {
    var p := Physical(s.c, kind, data);
    HoldsAt(s, pos, p, 4);
    HoldsAt(s, pos, p, 5);
    HoldsAt(s, pos, p, 6);
    assert p[4] == |data| % 256 && p[5] == |data| / 256 && p[6] == kind;
    assert s.file[pos..][7..7 + |data|] == s.file[pos + 7..pos + 7 + |data|];
    assert p[7..] == data;
  }

  lemma PhysicalChecksum(s: Source, pos: nat, kind: Byte, data: Bytes)
    requires Sound(s.c) && |data| < 0x1_0000 && Holds(s, pos, Physical(s.c, kind, data))
    ensures pos + HEADER_SIZE + |data| <= |s.file| && LengthAt(s, pos) == |data| && !ChecksumFails(s, pos)
  {
    PhysicalFields(s, pos, kind, data);
    var p := Physical(s.c, kind, data);
    assert s.file[pos + 6..pos + 7 + |data|] == [kind] + data;
    assert s.file[pos..pos + 4] == s.file[pos..][..4] == p[..4] == s.c.stamp([kind] + data);
  }

  /** A whole physical record is read back. */
  lemma PhysicalRead(s: Source, pos: nat, kind: Byte, data: Bytes)
    requires Sound(s.c) && HEADER_SIZE + |data| <= LeftInBlock(pos) && kind != ZERO_TYPE
    requires Holds(s, pos, Physical(s.c, kind, data))
    ensures NextPhysical(s, pos) == (Fragment(kind, data), pos + HEADER_SIZE + |data|)
  {
    PhysicalFields(s, pos, kind, data);
    PhysicalChecksum(s, pos, kind, data);
    FieldsRead(s, pos, kind, data);
  }

  lemma FieldsRead(s: Source, pos: nat, kind: Byte, data: Bytes)
    requires HEADER_SIZE + |data| <= LeftInBlock(pos) && kind != ZERO_TYPE
    requires pos + HEADER_SIZE + |data| <= |s.file| && LengthAt(s, pos) == |data| && !ChecksumFails(s, pos)
    requires s.file[pos + 6] == kind && s.file[pos + HEADER_SIZE..pos + HEADER_SIZE + |data|] == data
    ensures NextPhysical(s, pos) == (Fragment(kind, data), pos + HEADER_SIZE + |data|)
  {
  }

  /** A physical record cut short reads as the end of the file. */
  lemma PhysicalCut(s: Source, pos: nat, kind: Byte, data: Bytes)
    requires HEADER_SIZE + |data| <= LeftInBlock(pos)
    requires CutIn(s, pos, Physical(s.c, kind, data))
    ensures NextPhysical(s, pos) == (Eof, |s.file|)
  {
    var p := Physical(s.c, kind, data);
    if |s.file| - pos >= HEADER_SIZE {
      assert s.file[pos + 4] == s.file[pos..][4] == p[4] == |data| % 256;
      assert s.file[pos + 5] == s.file[pos..][5] == p[5] == |data| / 256;
    }
  }

  /** A fragment of the writer's goes into the record being put together. */
  lemma FragmentRead(s: Source, pos: nat, begin: bool, end: bool, data: Bytes, next: nat, scratch: Bytes)
    requires pos <= |s.file| && next <= |s.file| && (begin ==> scratch == [])
    requires NextPhysical(s, pos) == (Fragment(FragmentType(begin, end), data), next)
    ensures ReadFrom(s, pos, !begin, scratch)
         == if end then Outcome(Some(scratch + data), next, []) else ReadFrom(s, next, true, scratch + data)
  {
    assert scratch == [] ==> scratch + data == data;
  }

  lemma PartRead(s: Source, pos: nat, begin: bool, data: Bytes, scratch: Bytes)
    requires Sound(s.c) && (begin ==> scratch == []) && HEADER_SIZE + |data| <= LeftInBlock(pos)
    requires Holds(s, pos, Physical(s.c, FragmentType(begin, false), data))
    ensures pos + HEADER_SIZE + |data| <= |s.file|
    ensures ReadFrom(s, pos, !begin, scratch) == ReadFrom(s, pos + HEADER_SIZE + |data|, true, scratch + data)
  {
    hide ReadFrom, NextPhysical, RecordAt, Physical, Holds;
    PhysicalRead(s, pos, FragmentType(begin, false), data);
    FragmentRead(s, pos, begin, false, data, pos + HEADER_SIZE + |data|, scratch);
  }

  lemma EofRead(s: Source, pos: nat, partial: bool, scratch: Bytes)
    requires pos <= |s.file| && NextPhysical(s, pos) == (Eof, |s.file|)
    ensures ReadFrom(s, pos, partial, scratch) == Outcome(None, |s.file|, [])
  {
  }

  /** A trailer is passed over. */
  lemma TrailerRead(s: Source, pos: nat, partial: bool, scratch: Bytes)
    requires pos + LeftInBlock(pos) <= |s.file| && LeftInBlock(pos) < HEADER_SIZE
    ensures ReadFrom(s, pos, partial, scratch) == ReadFrom(s, pos + LeftInBlock(pos), partial, scratch)
  {
    assert NextPhysical(s, pos) == NextPhysical(s, pos + LeftInBlock(pos));
  }

  lemma TrailerCut(s: Source, pos: nat)
    requires LeftInBlock(pos) < HEADER_SIZE && CutIn(s, pos, Zeros(LeftInBlock(pos)))
    ensures NextPhysical(s, pos) == (Eof, |s.file|)
  {
  }

  /** A record written in full is read back in one piece and nothing is reported. */
  lemma {:induction false} ReadsBack(s: Source, pos: nat, data: Bytes, begin: bool, scratch: Bytes)
    requires Sound(s.c) && (begin ==> scratch == [])
    requires Holds(s, pos, Encoded(s.c, pos, data, begin))
    ensures ReadFrom(s, pos, !begin, scratch)
         == Outcome(Some(scratch + data), pos + |Encoded(s.c, pos, data, begin)|, [])
    decreases |data|, Rank(pos)
  {
    hide ReadFrom, NextPhysical, RecordAt, Physical, Holds, LeftInBlock, FragmentLength, FragmentType, Zeros, Rank;
    var left := LeftInBlock(pos);
    if left < HEADER_SIZE {
      HoldsSplit(s, pos, Zeros(left), Encoded(s.c, pos + left, data, begin));
      TrailerRead(s, pos, !begin, scratch);
      ReadsBack(s, pos + left, data, begin, scratch);
    } else {
      var n := FragmentLength(pos, |data|);
      if n == |data| {
        PhysicalRead(s, pos, FragmentType(begin, true), data);
        FragmentRead(s, pos, begin, true, data, pos + HEADER_SIZE + n, scratch);
      } else {
        HoldsSplit(s, pos, Physical(s.c, FragmentType(begin, false), data[..n]),
                   Encoded(s.c, pos + HEADER_SIZE + n, data[n..], false));
        PartRead(s, pos, begin, data[..n], scratch);
        ReadsBack(s, pos + HEADER_SIZE + n, data[n..], false, scratch + data[..n]);
        assert scratch + data[..n] + data[n..] == scratch + data;
      }
    }
  }

  /** A record cut short is not read, and nothing is reported. */
  lemma {:induction false} CutReadsNothing(s: Source, pos: nat, data: Bytes, begin: bool, scratch: Bytes)
    requires Sound(s.c) && (begin ==> scratch == [])
    requires CutIn(s, pos, Encoded(s.c, pos, data, begin))
    ensures ReadFrom(s, pos, !begin, scratch) == Outcome(None, |s.file|, [])
    decreases |data|, Rank(pos)
  {
    hide ReadFrom, NextPhysical, RecordAt, Physical, Holds, LeftInBlock, FragmentLength, FragmentType, Zeros, Rank;
    var left := LeftInBlock(pos);
    if left < HEADER_SIZE {
      var rest := Encoded(s.c, pos + left, data, begin);
      CutSplit(s, pos, Zeros(left), rest);
      if CutIn(s, pos, Zeros(left)) {
        TrailerCut(s, pos);
        EofRead(s, pos, !begin, scratch);
      } else {
        TrailerRead(s, pos, !begin, scratch);
        CutReadsNothing(s, pos + left, data, begin, scratch);
      }
    } else {
      var n := FragmentLength(pos, |data|);
      if n == |data| {
        PhysicalCut(s, pos, FragmentType(begin, true), data);
        EofRead(s, pos, !begin, scratch);
      } else {
        var head := Physical(s.c, FragmentType(begin, false), data[..n]);
        CutSplit(s, pos, head, Encoded(s.c, pos + HEADER_SIZE + n, data[n..], false));
        if CutIn(s, pos, head) {
          PhysicalCut(s, pos, FragmentType(begin, false), data[..n]);
          EofRead(s, pos, !begin, scratch);
        } else {
          PartRead(s, pos, begin, data[..n], scratch);
          CutReadsNothing(s, pos + HEADER_SIZE + n, data[n..], false, scratch + data[..n]);
        }
      }
    }
  }

  /** How many of the records written from pos on end before position end. */
  function WhollyBefore(c: Checksum, pos: nat, records: seq<Bytes>, end: nat): (k: nat)
    ensures k <= |records|
    decreases |records|
  {
    if records == [] then 0
    else
      var next := pos + |Encoded(c, pos, records[0], true)|;
      if next > end then 0 else 1 + WhollyBefore(c, next, records[1..], end)
  }

  /** The count is right: a run of k records fits exactly when k is at most it. */
  lemma {:induction false} WhollyBeforeCounts(c: Checksum, pos: nat, records: seq<Bytes>, end: nat, k: nat)
    requires pos <= end && k <= |records|
    ensures k <= WhollyBefore(c, pos, records, end) <==> pos + |EncodedAll(c, pos, records[..k])| <= end
    decreases |records|
  {
    hide Encoded;
    if k > 0 {
      var next := pos + |Encoded(c, pos, records[0], true)|;
      assert records[..k][0] == records[0] && records[..k][1..] == records[1..][..k - 1];
      if next <= end {
        WhollyBeforeCounts(c, next, records[1..], end, k - 1);
      }
    }
  }

  lemma ReadAllNext(s: Source, pos: nat, record: Bytes, next: nat)
    requires pos <= |s.file| && next <= |s.file| && ReadFrom(s, pos, false, []) == Outcome(Some(record), next, [])
    ensures ReadAll(s, pos) == ([record] + ReadAll(s, next).0, ReadAll(s, next).1)
  {
    assert [] + ReadAll(s, next).1 == ReadAll(s, next).1;
  }

  lemma ReadAllEnd(s: Source, pos: nat)
    requires pos <= |s.file| && ReadFrom(s, pos, false, []) == Outcome(None, |s.file|, [])
    ensures ReadAll(s, pos) == ([], [])
  {
  }

  lemma PrefixSplit(s: Source, pos: nat, a: Bytes, b: Bytes)
    requires pos <= |s.file| && s.file[pos..] <= a + b
    ensures if pos + |a| <= |s.file| then Holds(s, pos, a) && s.file[pos + |a|..] <= b else CutIn(s, pos, a)
  {
    if pos + |a| <= |s.file| {
      assert s.file[pos..][..|a|] == (a + b)[..|a|] == a;
      assert s.file[pos + |a|..] == s.file[pos..][|a|..];
      assert (a + b)[|a|..] == b;
    } else {
      assert (a + b)[..|s.file| - pos] == a[..|s.file| - pos];
    }
  }

  /** Reading any byte prefix of what was written gives exactly the records
      wholly in the prefix, and no corruption is reported. */
  lemma {:induction false} PrefixReads(s: Source, pos: nat, records: seq<Bytes>)
    requires Sound(s.c) && pos <= |s.file| && s.file[pos..] <= EncodedAll(s.c, pos, records)
    ensures ReadAll(s, pos) == (records[..WhollyBefore(s.c, pos, records, |s.file|)], [])
    decreases |records|
  {
    hide ReadAll, ReadFrom, Encoded;
    if records == [] {
      EofRead(s, pos, false, []);
      ReadAllEnd(s, pos);
    } else {
      var first := Encoded(s.c, pos, records[0], true);
      PrefixSplit(s, pos, first, EncodedAll(s.c, pos + |first|, records[1..]));
      if pos + |first| <= |s.file| {
        ReadsBack(s, pos, records[0], true, []);
        assert [] + records[0] == records[0];
        ReadAllNext(s, pos, records[0], pos + |first|);
        PrefixReads(s, pos + |first|, records[1..]);
        TakeFirst(records, WhollyBefore(s.c, pos + |first|, records[1..], |s.file|));
      } else {
        CutReadsNothing(s, pos, records[0], true, []);
        ReadAllEnd(s, pos);
      }
    }
  }

  lemma TakeFirst(records: seq<Bytes>, k: nat)
    requires 0 < |records| && k < |records|
    ensures [records[0]] + records[1..][..k] == records[..1 + k]
  {
  }

  /** In particular the whole file gives back the records that were written. */
  lemma RoundTrip(c: Checksum, checksum: bool, records: seq<Bytes>)
    requires Sound(c)
    ensures ReadAll(Source(c, checksum, EncodedAll(c, 0, records)), 0) == (records, [])
  {
    hide ReadAll, WhollyBefore, Encoded;
    var s := Source(c, checksum, EncodedAll(c, 0, records));
    assert s.file[0..] == s.file;
    PrefixReads(s, 0, records);
    assert records[..|records|] == records;
    WhollyBeforeCounts(c, 0, records, |s.file|, |records|);
  }
}
