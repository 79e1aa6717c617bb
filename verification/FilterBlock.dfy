/** The filter block (table/filter_block.cc): one filter for every 2KB of data
    block offsets, for any policy. */
module FilterBlocks {
  import opened Coding
  import opened BlockFormat
  import opened FilterPolicies
  import opened Sequences

  const BASE_LG: Byte := 11
  const BASE: nat := 2048

  /** The filter of a group of keys; a group without keys has an empty one. */
  function FilterOf(policy: Policy, keys: seq<Bytes>): Bytes {
    if keys == [] then [] else policy.create(keys)
  }

  function Filters(policy: Policy, groups: seq<seq<Bytes>>): Bytes {
    if groups == [] then [] else Filters(policy, groups[..|groups| - 1]) + FilterOf(policy, groups[|groups| - 1])
  }

  lemma FiltersNext(policy: Policy, groups: seq<seq<Bytes>>, keys: seq<Bytes>)
    ensures Filters(policy, groups + [keys]) == Filters(policy, groups) + FilterOf(policy, keys)
  {
    assert (groups + [keys])[..|groups|] == groups;
  }

  lemma {:induction false} FilterAt(policy: Policy, groups: seq<seq<Bytes>>, i: nat)
    requires i < |groups|
    ensures Filters(policy, groups[..i]) + FilterOf(policy, groups[i])
         == Filters(policy, groups[..i + 1]) <= Filters(policy, groups)
    decreases |groups|
  {
    var n := |groups| - 1;
    assert groups[..i + 1][..i] == groups[..i];
    if i < n {
      FilterAt(policy, groups[..n], i);
      assert groups[..n][..i] == groups[..i] && groups[..n][..i + 1] == groups[..i + 1];
    } else {
      assert groups[..i + 1] == groups;
    }
  }

  // ----- flattened keys -----

  /** start lists where each key begins in the flattened ones. */
  ghost predicate Starts(keys: seq<Bytes>, start: seq<nat>) {
    |start| == |keys| && forall i :: 0 <= i < |keys| ==> start[i] == |Flatten(keys[..i])|
  }

  class FilterBlockBuilder {
    const policy: Policy
    var keys: Bytes
    var start: seq<nat>
    var result: Bytes
    var filterOffsets: seq<nat>
    ghost var groups: seq<seq<Bytes>>
    ghost var pending: seq<Bytes>
    /** Each key that was added, with the filter index of its data block. */
    ghost var added: set<(nat, Bytes)>

    ghost predicate Valid()
      reads this
    {
      && keys == Flatten(pending) && Starts(pending, start)
      && result == Filters(policy, groups)
      && |filterOffsets| == |groups|
      && (forall i :: 0 <= i < |groups| ==> filterOffsets[i] == |Filters(policy, groups[..i])|)
      && (forall e :: e in added ==> Covered(groups, pending, e.0, e.1))
    }

    /** The bytes of all filters, with the one of the keys that wait. */
    ghost function FilterBytes(): nat
      reads this
    {
      |result| + |FilterOf(policy, pending)|
    }

    constructor (policy: Policy)
      ensures Valid() && this.policy == policy && groups == [] && pending == [] && added == {}
    {
      this.policy := policy;
      keys, start, result, filterOffsets := [], [], [], [];
      groups, pending, added := [], [], {};
    }

    /** Closes filters up to the one of a data block that starts at an offset. */
    method StartBlock(blockOffset: nat)
      requires Valid() && blockOffset / BASE >= |groups|
      modifies this
      ensures Valid() && |groups| == blockOffset / BASE && added == old(added)
      ensures old(|groups|) == blockOffset / BASE ==> pending == old(pending)
      ensures FilterBytes() == old(FilterBytes())
    {
      var filterIndex := blockOffset / BASE;
      while filterIndex > |filterOffsets|
        invariant Valid() && |groups| <= filterIndex && added == old(added) && FilterBytes() == old(FilterBytes())
        invariant old(|groups|) == filterIndex ==> pending == old(pending) && |groups| == old(|groups|)
        decreases filterIndex - |groups|
      {
        GenerateFilter();
      }
    }

    method AddKey(key: Bytes)
      requires Valid()
      modifies this
      ensures Valid() && groups == old(groups) && pending == old(pending) + [key]
      ensures added == old(added) + {(|groups|, key)}
    {
      hide Flatten, Filters, Covered;
      start := start + [|keys|];
      keys := keys + key;
      PendingGrows(pending, key);
      forall e | e in added ensures Covered(groups, pending + [key], e.0, e.1) {
        CoveredGrows(groups, pending, key, e.0, e.1);
      }
      CoveredLast(groups, pending, key);
      pending := pending + [key];
      added := added + {(|groups|, key)};
    }

    method GenerateFilter()
      requires Valid()
      modifies this
      ensures Valid() && groups == old(groups) + [old(pending)] && pending == [] && added == old(added)
      ensures FilterBytes() == old(FilterBytes())
    {
      hide Flatten, Filters;
      var numKeys := |start|;
      FiltersNext(policy, groups, pending);
      forall i | 0 <= i < |groups| ensures (groups + [pending])[..i] == groups[..i] {}
      assert (groups + [pending])[..|groups|] == groups;
      forall e | e in added ensures Covered(groups + [pending], [], e.0, e.1) {
        CoveredCloses(groups, pending, e.0, e.1);
      }
      NothingFlat();
      filterOffsets := filterOffsets + [|result|];
      if numKeys > 0 {
        var tmpKeys := Unflatten();
        result := result + policy.create(tmpKeys);
        keys, start := [], [];
      }
      groups, pending := groups + [pending], [];
    }

    /** The list of keys from the flattened ones. */
    method Unflatten() returns (tmpKeys: seq<Bytes>)
      requires keys == Flatten(pending) && Starts(pending, start)
      ensures tmpKeys == pending
    {
      hide Flatten;
      var starts := start + [|keys|];
      tmpKeys := [];
      for i := 0 to |start|
        invariant tmpKeys == pending[..i]
      {
        FlattenAt(pending, i);
        assert i + 1 < |start| ==> starts[i + 1] == |Flatten(pending[..i + 1])|;
        assert i + 1 == |start| ==> pending[..i + 1] == pending;
        tmpKeys := tmpKeys + [keys[starts[i]..starts[i + 1]]];
      }
    }

    /** A finished block whose offsets fit in 32 bits has no false negatives: every
        key that was added, asked for under the offset of its data block, may match. */
    method Finish() returns (contents: Bytes)
      requires Valid()
      modifies this
      ensures Valid() && added == old(added) && (old(FilterBytes()) < TWO32 ==> IsFilterBlock(policy, groups, contents))
      ensures forall view: Bytes -> Bytes, offset: nat, key: Bytes, k: Bytes ::
                && old(FilterBytes()) < TWO32 && NoFalseNegatives(policy, view)
                && (offset / BASE, key) in added && view(key) == view(k)
                ==> KeyMayMatch(policy, contents, offset, k)
    {
      hide Filters, Flatten, KeyMayMatch, FixedAll, IsFilterBlock, EncodeFixed32;
      if start != [] {
        GenerateFilter();
      }
      var tail, offsets := Trailer();
      contents := result + tail;
      if |result| < TWO32 {
        FilterBlockIs(policy, groups, offsets, contents);
        AllFound(policy, groups, added, contents);
      }
    }

    /** The array of offsets and what follows it; offsets are cut to 32 bits. */
    method Trailer() returns (tail: Bytes, ghost offsets: seq<Uint32>)
      requires Valid()
      ensures |offsets| == |filterOffsets|
      ensures (forall i :: 0 <= i < |offsets| ==> offsets[i] == filterOffsets[i] % TWO32)
      ensures |result| < TWO32 ==> offsets == filterOffsets
      ensures tail == FixedAll(offsets) + (EncodeFixed32(|result| % TWO32) + [BASE_LG])
    {
      hide Filters, Flatten, EncodeFixed32, Covered, FixedAll;
      NoFixed();
      forall i | 0 <= i < |groups| ensures filterOffsets[i] <= |result| { FilterAt(policy, groups, i); }
      ghost var all := filterOffsets;
      offsets := seq(|all|, i requires 0 <= i < |all| => all[i] % TWO32);
      tail := [];
      assert offsets[..0] == [];
      var i := 0;
      while i < |filterOffsets|
        invariant 0 <= i <= |filterOffsets| && tail == FixedAll(offsets[..i])
      {
        assert offsets[..i + 1] == offsets[..i] + [offsets[i]];
        FixedSnoc(offsets[..i], offsets[i]);
        tail := tail + EncodeFixed32(filterOffsets[i] % TWO32);
        i := i + 1;
      }
      assert offsets[..i] == offsets;
      tail := tail + (EncodeFixed32(|result| % TWO32) + [BASE_LG]);
    }
  }

  /** A key added under filter index i is in that group, or waits for it. */
  ghost predicate Covered(groups: seq<seq<Bytes>>, pending: seq<Bytes>, i: nat, key: Bytes) {
    if i < |groups| then key in groups[i] else i == |groups| && key in pending
  }

  lemma CoveredCloses(groups: seq<seq<Bytes>>, pending: seq<Bytes>, i: nat, key: Bytes)
    requires Covered(groups, pending, i, key)
    ensures Covered(groups + [pending], [], i, key)
  {
  }

  lemma CoveredGrows(groups: seq<seq<Bytes>>, pending: seq<Bytes>, more: Bytes, i: nat, key: Bytes)
    requires Covered(groups, pending, i, key)
    ensures Covered(groups, pending + [more], i, key)
  {
  }

  lemma CoveredLast(groups: seq<seq<Bytes>>, pending: seq<Bytes>, key: Bytes)
    ensures Covered(groups, pending + [key], |groups|, key)
  {
  }

  lemma PendingGrows(pending: seq<Bytes>, key: Bytes)
    ensures Flatten(pending + [key]) == Flatten(pending) + key
    ensures forall i :: 0 <= i <= |pending| ==> (pending + [key])[..i] == pending[..i]
    ensures pending[..|pending|] == pending
  {
    assert (pending + [key])[..|pending|] == pending;
  }

  lemma NothingFlat()
    ensures Flatten<Byte>([]) == [] && Starts([], [])
  {
  }

  /** The bytes of a finished filter block. */
  ghost predicate IsFilterBlock(policy: Policy, groups: seq<seq<Bytes>>, contents: Bytes) {
    && |Filters(policy, groups)| < TWO32
    && exists offsets: seq<Uint32> {:trigger FixedAll(offsets)} ::
         && |offsets| == |groups|
         && (forall i :: 0 <= i < |groups| ==> offsets[i] == |Filters(policy, groups[..i])|)
         && contents == Filters(policy, groups) +
                        (FixedAll(offsets) + (EncodeFixed32(|Filters(policy, groups)|) + [BASE_LG]))
  }

  // ----- the reader -----

  /** What FilterBlockReader takes from the contents: the offset of the array, the
      number of filters, and the encoding parameter; none when they do not fit. */
  function ArrayOffset(contents: Bytes): nat
    requires |contents| >= 5
  {
    DecodeFixed32(contents[|contents| - 5..])
  }

  function Shifted(x: nat, lg: nat): nat {
    if lg == 0 then x else Shifted(x, lg - 1) / 2
  }

  predicate KeyMayMatch(policy: Policy, contents: Bytes, blockOffset: nat, key: Bytes) {
    var n := |contents|;
    if n < 5 || ArrayOffset(contents) > n - 5 then
      true
    else
      var start := ArrayOffset(contents);
      var index := Shifted(blockOffset, contents[n - 1]);
      if index >= (n - 5 - start) / 4 then
        true
      else
        MatchesAt(policy, contents, start, start + 4 * index, key)
  }

  /** The filter whose offset is at position p, up to the offset after it. */
  predicate MatchesAt(policy: Policy, contents: Bytes, arrayOffset: nat, p: nat, key: Bytes)
    requires p + 8 <= |contents| && arrayOffset <= |contents|
  {
    var first, limit := DecodeFixed32(contents[p..]), DecodeFixed32(contents[p + 4..]);
    if first <= limit <= arrayOffset then policy.mayMatch(key, contents[first..limit])
    else first != limit
  }

  lemma FilterBlockIs(policy: Policy, groups: seq<seq<Bytes>>, offsets: seq<Uint32>, contents: Bytes)
    requires |Filters(policy, groups)| < TWO32 && |offsets| == |groups|
    requires forall i :: 0 <= i < |groups| ==> offsets[i] == |Filters(policy, groups[..i])|
    requires contents == Filters(policy, groups) +
                         (FixedAll(offsets) + (EncodeFixed32(|Filters(policy, groups)|) + [BASE_LG]))
    ensures IsFilterBlock(policy, groups, contents)
  {
    hide Filters, FixedAll, EncodeFixed32;
  }

  lemma AllFound(policy: Policy, groups: seq<seq<Bytes>>, added: set<(nat, Bytes)>, contents: Bytes)
    requires IsFilterBlock(policy, groups, contents) && forall e :: e in added ==> Covered(groups, [], e.0, e.1)
    ensures forall view: Bytes -> Bytes, offset: nat, key: Bytes, k: Bytes ::
              NoFalseNegatives(policy, view) && (offset / BASE, key) in added && view(key) == view(k) ==>
                KeyMayMatch(policy, contents, offset, k)
  {
    hide IsFilterBlock, KeyMayMatch, NoFalseNegatives;
    forall view: Bytes -> Bytes, offset: nat, key: Bytes, k: Bytes
      | NoFalseNegatives(policy, view) && (offset / BASE, key) in added && view(key) == view(k)
      ensures KeyMayMatch(policy, contents, offset, k)
    {
      assert Covered(groups, [], offset / BASE, key);
      ReaderFinds(policy, view, groups, contents, offset, key, k);
    }
  }

  lemma Shift11(x: nat)
    ensures Shifted(x, BASE_LG) == x / BASE
  {
    assert Shifted(x, 1) == x / 2;
    assert Shifted(x, 2) == x / 4;
    assert Shifted(x, 3) == x / 8;
    assert Shifted(x, 4) == x / 16;
    assert Shifted(x, 5) == x / 32;
    assert Shifted(x, 6) == x / 64;
    assert Shifted(x, 7) == x / 128;
    assert Shifted(x, 8) == x / 256;
    assert Shifted(x, 9) == x / 512;
    assert Shifted(x, 10) == x / 1024;
  }

  /** The parts of a finished block. */
  lemma BlockParts(filters: Bytes, offsets: seq<Uint32>, contents: Bytes)
    requires |filters| < TWO32
    requires contents == filters + (FixedAll(offsets) + (EncodeFixed32(|filters|) + [BASE_LG]))
    ensures |contents| == |filters| + 4 * |offsets| + 5 && contents[|contents| - 1] == BASE_LG
    ensures ArrayOffset(contents) == |filters| && contents[..|filters|] == filters
    ensures DecodeFixed32(contents[|filters| + 4 * |offsets|..]) == |filters|
  {
    hide EncodeFixed32, DecodeFixed32, FixedAll;
    var end := |filters| + 4 * |offsets|;
    assert contents[end..] == EncodeFixed32(|filters|) + [BASE_LG];
    Fixed32RoundTrip(|filters|, [BASE_LG]);
  }

  /** What the reader of a finished block answers, yes and no: it asks the policy about
      the filter of the offset's group, and says yes past the last group. */
  lemma ReaderExact(policy: Policy, groups: seq<seq<Bytes>>, contents: Bytes, offset: nat, k: Bytes)
    requires IsFilterBlock(policy, groups, contents)
    ensures var i := offset / BASE;
            KeyMayMatch(policy, contents, offset, k) <==>
              i >= |groups| || policy.mayMatch(k, if groups[i] == [] then [] else policy.create(groups[i]))
  {
    hide Filters, EncodeFixed32, DecodeFixed32, FixedAll, Shifted;
    var filters, i := Filters(policy, groups), offset / BASE;
    var offsets: seq<Uint32> :| |offsets| == |groups|
      && (forall i :: 0 <= i < |groups| ==> offsets[i] == |Filters(policy, groups[..i])|)
      && contents == filters + (FixedAll(offsets) + (EncodeFixed32(|filters|) + [BASE_LG]));
    BlockParts(filters, offsets, contents);
    Shift11(offset);
    if i < |groups| {
      FixedAfter(filters, offsets, EncodeFixed32(|filters|) + [BASE_LG], i);
      FilterAt(policy, groups, i);
      var first, limit := Filters(policy, groups[..i]), Filters(policy, groups[..i + 1]);
      assert i + 1 == |groups| ==> groups[..i + 1] == groups;
      assert DecodeFixed32(contents[|filters| + 4 * i + 4..]) == |limit| by {
        if i + 1 < |groups| {
          FixedAfter(filters, offsets, EncodeFixed32(|filters|) + [BASE_LG], i + 1);
          assert |filters| + 4 * i + 4 == |filters| + 4 * (i + 1);
        }
      }
      assert contents[..|limit|] == limit;
      assert contents[|first|..|limit|] == FilterOf(policy, groups[i]);
    }
  }

  lemma ReaderFinds(policy: Policy, view: Bytes -> Bytes, groups: seq<seq<Bytes>>, contents: Bytes, offset: nat,
                    key: Bytes, k: Bytes)
    requires NoFalseNegatives(policy, view) && IsFilterBlock(policy, groups, contents)
    requires offset / BASE < |groups| && key in groups[offset / BASE] && view(key) == view(k)
    ensures KeyMayMatch(policy, contents, offset, k)
  {
    hide IsFilterBlock, KeyMayMatch;
    ReaderExact(policy, groups, contents, offset, k);
  }
}
