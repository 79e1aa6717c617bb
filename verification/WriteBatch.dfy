/** Write batches (db/write_batch.cc): a header of sequence and count, and
    tagged records. */
module WriteBatches {
  import opened Options
  import opened Coding

  const BATCH_HEADER: nat := 12

  /** The count of a batch is read as a signed number. */
  const MAX_COUNT: nat := 0x8000_0000

  const TYPE_DELETION: Byte := 0
  const TYPE_VALUE: Byte := 1

  datatype Op = Put(key: Bytes, value: Bytes) | Delete(key: Bytes)

  datatype Status = Ok | Corruption(reason: string)

  function EncodeOp(op: Op): Bytes {
    match op
    case Put(key, value) => [TYPE_VALUE] + PutLengthPrefixedSlice(key) + PutLengthPrefixedSlice(value)
    case Delete(key) => [TYPE_DELETION] + PutLengthPrefixedSlice(key)
  }

  function EncodeOps(ops: seq<Op>): Bytes {
    if ops == [] then [] else EncodeOp(ops[0]) + EncodeOps(ops[1..])
  }

  /** Lengths that the 32-bit prefixes hold. */
  predicate Fits(op: Op) { |op.key| < TWO32 && (op.Put? ==> |op.value| < TWO32) }

  lemma {:induction false} EncodeOpsConcat(a: seq<Op>, b: seq<Op>)
    ensures EncodeOps(a + b) == EncodeOps(a) + EncodeOps(b)
  {
    hide EncodeOp;
    if a == [] {
      assert a + b == b;
    } else {
      assert (a + b)[1..] == a[1..] + b;
      EncodeOpsConcat(a[1..], b);
    }
  }

  // ----- reading -----

  /** The record at the front of the input. */
  function ParseOp(input: Bytes): Option<(Op, Bytes)>
    requires input != []
  {
    if input[0] == TYPE_VALUE then
      match GetLengthPrefixedSlice(input[1..])
      case None => None
      case Some((key, rest)) =>
        match GetLengthPrefixedSlice(rest)
        case None => None
        case Some((value, rest)) => Some((Put(key, value), rest))
    else if input[0] == TYPE_DELETION then
      match GetLengthPrefixedSlice(input[1..])
      case None => None
      case Some((key, rest)) => Some((Delete(key), rest))
    else
      None
  }

  lemma ParseEncodedOp(op: Op, rest: Bytes)
    requires Fits(op)
    ensures EncodeOp(op) + rest != [] && ParseOp(EncodeOp(op) + rest) == Some((op, rest))
  {
    hide PutLengthPrefixedSlice, GetLengthPrefixedSlice;
    var input := EncodeOp(op) + rest;
    match op
    case Put(key, value) =>
      assert input[1..] == PutLengthPrefixedSlice(key) + (PutLengthPrefixedSlice(value) + rest);
      SliceRoundTrip(key, PutLengthPrefixedSlice(value) + rest);
      SliceRoundTrip(value, rest);
    case Delete(key) =>
      assert input[1..] == PutLengthPrefixedSlice(key) + rest;
      SliceRoundTrip(key, rest);
  }

  lemma OpShrinks(input: Bytes)
    requires input != []
    ensures ParseOp(input).Some? ==> |ParseOp(input).value.1| < |input|
  {
    hide GetLengthPrefixedSlice;
    SliceShrinks(input[1..]);
    if GetLengthPrefixedSlice(input[1..]).Some? {
      SliceShrinks(GetLengthPrefixedSlice(input[1..]).value.1);
    }
  }

  /** The records in front of the first malformed one, and whether none is. */
  function ParseOps(input: Bytes): (seq<Op>, bool)
    decreases |input|
  {
    if input == [] then ([], true)
    else
      match ParseOp(input)
      case None => ([], false)
      case Some((op, rest)) =>
        OpShrinks(input);
        var (ops, ok) := ParseOps(rest);
        ([op] + ops, ok)
  }

  lemma {:induction false} ParseEncodedOps(ops: seq<Op>)
    requires forall i :: 0 <= i < |ops| ==> Fits(ops[i])
    ensures ParseOps(EncodeOps(ops)) == (ops, true)
  {
    hide ParseOp, EncodeOp, Fits;
    if ops != [] {
      ParseEncodedOp(ops[0], EncodeOps(ops[1..]));
      ParseEncodedOps(ops[1..]);
      assert [ops[0]] + ops[1..] == ops;
    }
  }

  // ----- the batch object -----

  class WriteBatch {
    var rep: Bytes
    ghost var ops: seq<Op>

    ghost predicate Valid()
      reads this
      ensures Valid() ==> |rep| >= BATCH_HEADER
    {
      && |rep| >= BATCH_HEADER
      && |ops| < MAX_COUNT
      && DecodeFixed32(rep[8..]) == |ops|
      && rep[BATCH_HEADER..] == EncodeOps(ops)
      && (forall i :: 0 <= i < |ops| ==> Fits(ops[i]))
    }

    constructor ()
      ensures Valid() && ops == []
    {
      rep := seq(BATCH_HEADER, _ => 0);
      ops := [];
    }

    method Clear()
      modifies this
      ensures Valid() && ops == []
    {
      rep := seq(BATCH_HEADER, _ => 0);
      ops := [];
    }

    function Count(): (n: Uint32)
      requires |rep| >= BATCH_HEADER
      reads this
      ensures Valid() ==> n == |ops|
    {
      DecodeFixed32(rep[8..])
    }

    method SetCount(n: Uint32)
      requires |rep| >= BATCH_HEADER
      modifies `rep
      ensures |rep| == |old(rep)| && rep[..8] == old(rep[..8]) && rep[BATCH_HEADER..] == old(rep[BATCH_HEADER..])
      ensures DecodeFixed32(rep[8..]) == n
    {
      hide EncodeFixed32, DecodeFixed32;
      Fixed32RoundTrip(n, rep[12..]);
      rep := rep[..8] + EncodeFixed32(n) + rep[12..];
      assert rep[8..] == EncodeFixed32(n) + rep[12..];
    }

    function Sequence(): Uint64
      requires |rep| >= BATCH_HEADER
      reads this
    {
      DecodeFixed64(rep)
    }

    method SetSequence(seqno: Uint64)
      requires Valid()
      modifies `rep
      ensures Valid() && Sequence() == seqno && rep == EncodeFixed64(seqno) + old(rep)[8..]
    {
      hide EncodeFixed64, DecodeFixed64, DecodeFixed32;
      Fixed64RoundTrip(seqno, rep[8..]);
      ghost var tail := rep[8..];
      rep := EncodeFixed64(seqno) + rep[8..];
      assert rep[8..] == tail && rep[12..] == tail[4..];
    }

    /** Put and Delete. */
    method Add(op: Op)
      requires Valid() && Fits(op) && |ops| + 1 < MAX_COUNT
      modifies this
      ensures Valid() && ops == old(ops) + [op] && rep[..8] == old(rep[..8])
    {
      hide DecodeFixed32, EncodeOp, Fits;
      SetCount(Count() + 1);
      ghost var body := rep[12..];
      ghost var count := rep[8..12];
      EncodeOpsConcat(ops, [op]);
      assert EncodeOps([op]) == EncodeOp(op) + EncodeOps([]);
      HeaderOnly(rep, EncodeOp(op));
      rep := rep + EncodeOp(op);
      ops := ops + [op];
      assert rep[12..] == body + EncodeOp(op);
    }

    method Append(src: WriteBatch)
      requires Valid() && src.Valid() && src != this && |ops| + |src.ops| < MAX_COUNT
      modifies this
      ensures Valid() && ops == old(ops) + src.ops && rep[..8] == old(rep[..8])
    {
      hide DecodeFixed32, EncodeOp, EncodeOps, Fits;
      SetCount(Count() + src.Count());
      ghost var body := rep[12..];
      EncodeOpsConcat(ops, src.ops);
      HeaderOnly(rep, src.rep[12..]);
      rep := rep + src.rep[12..];
      ops := ops + src.ops;
      assert rep[12..] == body + src.rep[12..];
    }

    /** Iterate, with the calls made on the handler. */
    method Iterate() returns (status: Status, calls: seq<Op>)
      ensures |rep| < BATCH_HEADER ==> status.Corruption? && calls == []
      ensures |rep| >= BATCH_HEADER ==>
                && calls == ParseOps(rep[BATCH_HEADER..]).0
                && (status == Ok <==> ParseOps(rep[BATCH_HEADER..]).1 && |calls| == DecodeFixed32(rep[8..]))
      ensures Valid() ==> status == Ok && calls == ops
    {
      hide ParseOp, DecodeFixed32, Valid;
      calls := [];
      if |rep| < BATCH_HEADER {
        return Corruption("malformed WriteBatch (too small)"), calls;
      }
      var input := rep[BATCH_HEADER..];
      ghost var all := ParseOps(input);
      ValidParses();
      var found := 0;
      while input != []
        invariant found == |calls|
        invariant all.0 == calls + ParseOps(input).0 && all.1 == ParseOps(input).1
        decreases |input|
      {
        found := found + 1;
        OpShrinks(input);
        var record := ParseOp(input);
        if record == None {
          return Corruption(if input[0] == TYPE_VALUE then "bad WriteBatch Put"
                            else if input[0] == TYPE_DELETION then "bad WriteBatch Delete"
                            else "unknown WriteBatch tag"), calls;
        }
        ghost var rest := ParseOps(record.value.1).0;
        assert calls + ([record.value.0] + rest) == calls + [record.value.0] + rest;
        calls := calls + [record.value.0];
        input := record.value.1;
      }
      if found != Count() {
        return Corruption("WriteBatch has wrong count"), calls;
      }
      return Ok, calls;
    }

    lemma ValidParses()
      ensures Valid() ==>
                && |rep| >= BATCH_HEADER && ParseOps(rep[BATCH_HEADER..]) == (ops, true)
                && DecodeFixed32(rep[8..]) == |ops|
    {
      hide ParseOps, DecodeFixed32, EncodeOps;
      if Valid() {
        ParseEncodedOps(ops);
      }
    }

    /** What InsertInto adds to a memtable: the operations that Iterate hands out,
        with consecutive sequence numbers from the batch's own. */
    method InsertInto() returns (status: Status, added: seq<(nat, Op)>)
      requires |rep| >= BATCH_HEADER
      ensures status == Ok <==> ParseOps(rep[BATCH_HEADER..]).1 && |added| == DecodeFixed32(rep[8..])
      ensures |added| == |ParseOps(rep[BATCH_HEADER..]).0|
      ensures forall i :: 0 <= i < |added| ==> added[i] == (Sequence() + i, ParseOps(rep[BATCH_HEADER..]).0[i])
      ensures Valid() ==> status == Ok && ParseOps(rep[BATCH_HEADER..]).0 == ops
    {
      hide DecodeFixed64, DecodeFixed32, EncodeOps, Fits, ParseOps;
      var calls;
      status, calls := Iterate();
      added := [];
      var sequence: nat := Sequence();
      for i := 0 to |calls|
        invariant |added| == i && sequence == Sequence() + i
        invariant forall j :: 0 <= j < i ==> added[j] == (Sequence() + j, calls[j])
      {
        added := added + [(sequence, calls[i])];
        sequence := sequence + 1;
      }
    }

    /** Whose bytes are a given sequence number, the count and the operations. */
    lemma Bytes(seqno: Uint64)
      requires Valid() && rep[..8] == EncodeFixed64(seqno)
      ensures rep == EncodeFixed64(seqno) + (EncodeFixed32(|ops|) + EncodeOps(ops))
    {
      hide EncodeFixed64, EncodeFixed32, DecodeFixed32, EncodeOps, Fits;
      Fixed32Bytes(rep[8..]);
      assert rep[8..][..4] + rep[8..][4..] == rep[8..] && rep[8..][4..] == rep[BATCH_HEADER..];
      assert rep == rep[..8] + rep[8..];
    }
  }

  lemma HeaderOnly(rep: Bytes, more: Bytes)
    requires |rep| >= BATCH_HEADER
    ensures DecodeFixed32((rep + more)[8..]) == DecodeFixed32(rep[8..]) && (rep + more)[..8] == rep[..8]
  {
  }
}
