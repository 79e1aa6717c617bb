/** The records of the write-ahead log: a group of batches, written as one batch
    whose header gives the sequence number of its first operation. */
module WriteGroups {
  import opened Coding
  import opened WriteBatches

  /** The operations with the numbers they are given. */
  function Numbered(ops: seq<Op>, after: nat): seq<(nat, Op)> {
    seq(|ops|, i requires 0 <= i < |ops| => (after + 1 + i, ops[i]))
  }

  lemma NumberedConcat(a: seq<Op>, b: seq<Op>, base: nat)
    ensures Numbered(a + b, base) == Numbered(a, base) + Numbered(b, base + |a|)
  {
  }

  /** A batch as Write logs it: operations numbered from first on. */
  datatype Group = Group(first: nat, ops: seq<Op>)

  ghost predicate Writable(g: Group)
    ensures Writable(g) ==> g.first < TWO64 && |g.ops| < TWO32
  {
    0 < g.first < TWO64 && |g.ops| < MAX_COUNT && forall i :: 0 <= i < |g.ops| ==> Fits(g.ops[i])
  }

  ghost predicate AllWritable(groups: seq<Group>) { forall i :: 0 <= i < |groups| ==> Writable(groups[i]) }

  /** The contents of the batch. */
  function Record(g: Group): Bytes
    requires g.first < TWO64 && |g.ops| < TWO32
  {
    EncodeFixed64(g.first) + (EncodeFixed32(|g.ops|) + EncodeOps(g.ops))
  }

  lemma RecordReads(g: Group)
    requires Writable(g)
    ensures |Record(g)| >= BATCH_HEADER && DecodeFixed64(Record(g)) == g.first
    ensures DecodeFixed32(Record(g)[8..]) == |g.ops|
    ensures ParseOps(Record(g)[BATCH_HEADER..]) == (g.ops, true)
  {
    hide EncodeFixed64, EncodeFixed32, DecodeFixed64, DecodeFixed32, ParseOps, EncodeOps, Fits;
    var r := Record(g);
    Fixed64RoundTrip(g.first, EncodeFixed32(|g.ops|) + EncodeOps(g.ops));
    assert r[8..] == EncodeFixed32(|g.ops|) + EncodeOps(g.ops);
    Fixed32RoundTrip(|g.ops|, EncodeOps(g.ops));
    assert r[BATCH_HEADER..] == EncodeOps(g.ops);
    ParseEncodedOps(g.ops);
  }

  /** Groups numbered one after the other, from base + 1 on. */
  ghost predicate Consecutive(groups: seq<Group>, base: nat) {
    forall i :: 0 <= i < |groups| ==> groups[i].first == base + 1 + |OpsOf(groups[..i])|
  }

  ghost function OpsOf(groups: seq<Group>): seq<Op> {
    if groups == [] then [] else OpsOf(groups[..|groups| - 1]) + groups[|groups| - 1].ops
  }

  ghost function Records(groups: seq<Group>): seq<Bytes>
    requires AllWritable(groups)
  {
    seq(|groups|, i requires 0 <= i < |groups| => Record(groups[i]))
  }

  /** The last group apart from the others. */
  lemma LastGroup(groups: seq<Group>, base: nat)
    requires groups != [] && AllWritable(groups) && Consecutive(groups, base)
    ensures var init, g := groups[..|groups| - 1], groups[|groups| - 1];
      && AllWritable(init) && Consecutive(init, base) && Writable(g)
      && Records(groups) == Records(init) + [Record(g)]
      && OpsOf(groups) == OpsOf(init) + g.ops && g.first == base + 1 + |OpsOf(init)|
  {
    hide Record, Writable, OpsOf;
    var n := |groups| - 1;
    assert forall i :: 0 <= i < n ==> groups[..i] == groups[..n][..i];
    OpsSnoc(groups);
  }

  lemma OpsSnoc(groups: seq<Group>)
    requires groups != []
    ensures OpsOf(groups) == OpsOf(groups[..|groups| - 1]) + groups[|groups| - 1].ops
  {
  }

  lemma NoOps()
    ensures OpsOf([]) == []
  {
  }

  /** One more record, numbered behind the others. */
  lemma GroupsSnoc(groups: seq<Group>, base: nat, g: Group)
    requires AllWritable(groups) && Consecutive(groups, base) && Writable(g) && g.first == base + 1 + |OpsOf(groups)|
    ensures AllWritable(groups + [g]) && Consecutive(groups + [g], base)
    ensures Records(groups + [g]) == Records(groups) + [Record(g)]
    ensures OpsOf(groups + [g]) == OpsOf(groups) + g.ops
  {
    hide Record, Writable, OpsOf;
    var more := groups + [g];
    assert more[..|groups|] == groups;
    OpsSnoc(more);
    forall i | 0 <= i < |more| ensures more[i].first == base + 1 + |OpsOf(more[..i])| {
      if i < |groups| {
        assert more[..i] == groups[..i];
      }
    }
  }

  /** The operations of fewer records come first among those of more. */
  lemma {:induction false} OpsPrefix(groups: seq<Group>, j: nat, k: nat)
    requires j <= k <= |groups|
    ensures OpsOf(groups[..j]) <= OpsOf(groups[..k])
    decreases k
  {
    if j < k {
      OpsPrefix(groups, j, k - 1);
      assert groups[..k][..k - 1] == groups[..k - 1];
    }
  }

  lemma NumberedPrefix(a: seq<Op>, b: seq<Op>, base: nat)
    requires a <= b
    ensures Numbered(a, base) <= Numbered(b, base)
  {
  }
}
