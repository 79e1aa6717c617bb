/** The two-level iterator (table/two_level_iterator.cc): an iterator over blocks,
    some of them empty, and one inside the current block. */
module TwoLevelIterators {
  import opened Options
  import opened Coding
  import opened Comparators
  import opened Sequences
  import opened TableIndex

  /** Where block b starts among all the pairs. */
  function Start(blocks: seq<seq<Pair>>, b: nat): nat
    requires b <= |blocks|
  {
    |Flatten(blocks[..b])|
  }

  lemma StartAt(blocks: seq<seq<Pair>>, b: nat)
    requires b < |blocks|
    ensures Start(blocks, b + 1) == Start(blocks, b) + |blocks[b]| <= |Flatten(blocks)|
    ensures Flatten(blocks)[Start(blocks, b)..Start(blocks, b + 1)] == blocks[b]
  {
    FlattenAt(blocks, b);
  }

  lemma Ends(blocks: seq<seq<Pair>>)
    ensures Start(blocks, 0) == 0 && Start(blocks, |blocks|) == |Flatten(blocks)|
  {
    assert blocks[..|blocks|] == blocks;
  }

  /** The index key of a block is not before its pairs, and is before the pairs of
      the blocks behind it. */
  ghost predicate KeysApart(less: Less, blocks: seq<seq<Pair>>, keys: seq<Bytes>) {
    && |keys| == |blocks|
    && (forall b, i :: 0 <= b < |blocks| && 0 <= i < |blocks[b]| ==> !less(keys[b], blocks[b][i].0))
    && (forall a, b, i :: 0 <= a < b < |blocks| && 0 <= i < |blocks[b]| ==> less(keys[a], blocks[b][i].0))
  }

  /** A position among the pairs stands in a block; blocks in front of it end
      before it. */
  lemma {:induction false} BlockOf(blocks: seq<seq<Pair>>, p: nat) returns (b: nat)
    requires p < |Flatten(blocks)|
    ensures b < |blocks| && Start(blocks, b) <= p < Start(blocks, b + 1) && p - Start(blocks, b) < |blocks[b]|
    ensures Flatten(blocks)[p] == blocks[b][p - Start(blocks, b)]
    decreases |blocks|
  {
    var n := |blocks| - 1;
    FlattenAt(blocks, n);
    Ends(blocks);
    if p >= Start(blocks, n) {
      b := n;
      assert Flatten(blocks)[Start(blocks, n)..][p - Start(blocks, n)] == Flatten(blocks)[p];
    } else {
      b := BlockOf(blocks[..n], p);
      assert blocks[..n][..b] == blocks[..b] && blocks[..n][..b + 1] == blocks[..b + 1];
    }
  }

  lemma {:induction false} StartsMonotone(blocks: seq<seq<Pair>>, a: nat, b: nat)
    requires a <= b <= |blocks|
    ensures Start(blocks, a) <= Start(blocks, b) <= |Flatten(blocks)|
    decreases b
  {
    hide Flatten;
    if b > 0 {
      FlattenAt(blocks, b - 1);
    }
    if a < b {
      StartsMonotone(blocks, a, b - 1);
    } else if b == 0 {
      Ends(blocks);
    }
  }

  class TwoLevelIterator {
    const blocks: seq<seq<Pair>>
    const keys: seq<Bytes>
    const less: Less
    /** Where the index iterator stands; past the end when invalid. */
    var index: nat
    /** The data iterator, if any: its block, and where it stands in it. */
    var data: Option<nat>
    var block: nat

    ghost predicate Sound()
      reads this
    {
      |keys| == |blocks| && index <= |blocks| && (data.Some? ==> block < |blocks| && data.value <= |blocks[block]|)
    }

    /** Between calls: on a pair of the index's block, or invalid. */
    ghost predicate Valid()
      reads this
    {
      Sound() && (data.Some? ==> block == index && index < |blocks| && data.value < |blocks[index]|)
    }

    /** The position among all pairs; their number when invalid. */
    ghost function Cursor(): nat
      requires Valid()
      reads this
    {
      if data.Some? then Start(blocks, index) + data.value else |Flatten(blocks)|
    }

    constructor (blocks: seq<seq<Pair>>, keys: seq<Bytes>, less: Less)
      requires |keys| == |blocks|
      ensures Valid() && Cursor() == |Flatten(blocks)|
      ensures this.blocks == blocks && this.keys == keys && this.less == less
    {
      this.blocks, this.keys, this.less := blocks, keys, less;
      index, data, block := |blocks|, None, 0;
    }

    function Current(): Pair
      requires Valid() && data.Some?
      reads this
      ensures Cursor() < |Flatten(blocks)| && Current() == Flatten(blocks)[Cursor()]
    {
      FlattenAt(blocks, index);
      assert blocks[index][data.value] == Flatten(blocks)[Start(blocks, index)..Start(blocks, index + 1)][data.value];
      blocks[index][data.value]
    }

    /** A data iterator for the index's block; one that is there already is kept
        where it stands. */
    method InitDataBlock()
      requires Sound()
      modifies `data, `block
      ensures Sound() && (data.Some? <==> index < |blocks|) && (data.Some? ==> block == index)
    {
      if index == |blocks| {
        data := None;
      } else if data.Some? && block == index {
      } else {
        block := index;
        data := Some(|blocks[index]|);
      }
    }

    /** Goes on to the first pair of a later block when the current one is used up. */
    method SkipEmptyDataBlocksForward()
      requires Sound() && (data.Some? ==> block == index && index < |blocks|) && (data.None? ==> index == |blocks|)
      modifies this
      ensures Valid()
      ensures Cursor() == if old(data).Some? then Start(blocks, old(index)) + old(data).value else |Flatten(blocks)|
    {
      hide Flatten;
      Ends(blocks);
      ghost var p := if data.Some? then Start(blocks, index) + data.value else |Flatten(blocks)|;
      while data.None? || data.value == |blocks[block]|
        invariant Sound() && (data.Some? ==> block == index && index < |blocks|) && (data.None? ==> index == |blocks|)
        invariant p == if data.Some? then Start(blocks, index) + data.value else |Flatten(blocks)|
        decreases |blocks| - index, data
      {
        if index == |blocks| {
          data := None;
          return;
        }
        FlattenAt(blocks, index);
        index := index + 1;
        InitDataBlock();
        if data.Some? {
          data := Some(0);
        }
      }
    }

    /** Goes back to the last pair of an earlier block when the current one has
        none in front. */
    method SkipEmptyDataBlocksBackward()
      requires Sound() && (data.Some? ==> block == index && index < |blocks|) && (data.None? ==> index == |blocks|)
      modifies this
      ensures Valid()
      ensures Cursor() == if old(data).Some? && old(data).value < |blocks[old(index)]| then
                            Start(blocks, old(index)) + old(data).value
                          else if old(data).None? || Start(blocks, old(index)) == 0 then |Flatten(blocks)|
                          else Start(blocks, old(index)) - 1
    {
      hide Flatten;
      Ends(blocks);
      ghost var found := data.Some? && data.value < |blocks[index]|;
      ghost var start := if data.Some? then Start(blocks, index) else 0;
      while data.None? || data.value == |blocks[block]|
        invariant Sound() && (data.Some? ==> block == index && index < |blocks|) && (data.None? ==> index == |blocks|)
        invariant found ==> index == old(index) && data == old(data)
        invariant !found && data.None? ==> start == 0
        invariant !found && data.Some? && data.value < |blocks[index]| ==>
                    start > 0 && Start(blocks, index) + data.value == start - 1
        invariant !found && data.Some? && data.value == |blocks[index]| ==> Start(blocks, index) == start
        decreases data.Some?, index
      {
        if index == |blocks| {
          data := None;
          return;
        }
        index := if index == 0 then |blocks| else index - 1;
        InitDataBlock();
        if data.Some? {
          FlattenAt(blocks, index);
          data := Some(if |blocks[block]| == 0 then 0 else |blocks[block]| - 1);
        }
      }
    }

    method SeekToFirst()
      requires Valid()
      modifies this
      ensures Valid() && Cursor() == 0
    {
      hide Flatten;
      Ends(blocks);
      index := 0;
      InitDataBlock();
      if data.Some? {
        data := Some(0);
      }
      SkipEmptyDataBlocksForward();
    }

    method SeekToLast()
      requires Valid()
      modifies this
      ensures Valid() && Cursor() == if Flatten(blocks) == [] then 0 else |Flatten(blocks)| - 1
    {
      hide Flatten;
      Ends(blocks);
      index := if |blocks| == 0 then 0 else |blocks| - 1;
      InitDataBlock();
      if data.Some? {
        FlattenAt(blocks, index);
        data := Some(if |blocks[block]| == 0 then 0 else |blocks[block]| - 1);
      }
      SkipEmptyDataBlocksBackward();
    }

    method Next()
      requires Valid() && data.Some?
      modifies this
      ensures Valid() && Cursor() == old(Cursor()) + 1
    {
      data := Some(data.value + 1);
      SkipEmptyDataBlocksForward();
    }

    method Prev()
      requires Valid() && data.Some?
      modifies this
      ensures Valid() && Cursor() == if old(Cursor()) == 0 then |Flatten(blocks)| else old(Cursor()) - 1
    {
      data := Some(if data.value == 0 then |blocks[block]| else data.value - 1);
      SkipEmptyDataBlocksBackward();
    }

    /** The index iterator's own seek: the first block whose key is not before
        target, found in order. */
    method SeekIndex(target: Bytes) returns (b: nat)
      requires |keys| == |blocks|
      ensures b <= |blocks| && (forall a :: 0 <= a < b ==> less(keys[a], target))
      ensures (b < |blocks| ==> !less(keys[b], target))
    {
      b := 0;
      while b < |keys| && less(keys[b], target)
        invariant 0 <= b <= |keys| && forall a :: 0 <= a < b ==> less(keys[a], target)
      {
        b := b + 1;
      }
    }

    /** The data iterator's own seek. */
    method SeekData(target: Bytes) returns (i: nat)
      requires Sound() && data.Some?
      ensures SeekPairs(less, blocks[block], target, i)
    {
      i := 0;
      while i < |blocks[block]| && less(blocks[block][i].0, target)
        invariant 0 <= i <= |blocks[block]| && forall j :: 0 <= j < i ==> less(blocks[block][j].0, target)
      {
        i := i + 1;
      }
    }

    method Seek(target: Bytes)
      requires Valid() && WeakOrder(less) && KeysApart(less, blocks, keys) && SortedPairs(less, Flatten(blocks))
      modifies this
      ensures Valid() && SeekPairs(less, Flatten(blocks), target, Cursor())
    {
      hide Flatten, WeakOrder, SortedPairs, KeysApart, SeekPairs;
      index := SeekIndex(target);
      InitDataBlock();
      if data.Some? {
        var i := SeekData(target);
        data := Some(i);
        SeekInBlock(less, blocks, keys, target, index, i);
      } else {
        SeekPast(less, blocks, keys, target);
      }
      SkipEmptyDataBlocksForward();
    }
  }

  lemma EarlierBlocks(less: Less, blocks: seq<seq<Pair>>, keys: seq<Bytes>, target: Bytes, b: nat, p: nat)
    requires WeakOrder(less) && KeysApart(less, blocks, keys)
    requires b <= |blocks| && p < Start(blocks, b) <= |Flatten(blocks)|
    requires forall a :: 0 <= a < b ==> less(keys[a], target)
    ensures less(Flatten(blocks)[p].0, target)
  {
    hide Flatten, WeakOrder;
    var a := BlockOf(blocks, p);
    if a >= b {
      StartsMonotone(blocks, b, a);
    } else {
      Order(less, keys[a], blocks[a][p - Start(blocks, a)].0, target);
    }
  }

  lemma FlatElement(blocks: seq<seq<Pair>>, b: nat, i: nat)
    requires b < |blocks| && i < |blocks[b]|
    ensures Start(blocks, b) + i < |Flatten(blocks)| && Flatten(blocks)[Start(blocks, b) + i] == blocks[b][i]
  {
    hide Flatten;
    FlattenAt(blocks, b);
    assert Flatten(blocks)[Start(blocks, b)..Start(blocks, b + 1)][i] == Flatten(blocks)[Start(blocks, b) + i];
  }

  lemma BeforePosition(less: Less, blocks: seq<seq<Pair>>, keys: seq<Bytes>, target: Bytes, b: nat, i: nat, p: nat)
    requires WeakOrder(less) && KeysApart(less, blocks, keys) && b < |blocks| && SeekPairs(less, blocks[b], target, i)
    requires (forall a :: 0 <= a < b ==> less(keys[a], target)) && p < Start(blocks, b) + i
    ensures p < |Flatten(blocks)| && less(Flatten(blocks)[p].0, target)
  {
    hide Flatten, WeakOrder, KeysApart;
    FlattenAt(blocks, b);
    if p < Start(blocks, b) {
      EarlierBlocks(less, blocks, keys, target, b, p);
    } else {
      FlatElement(blocks, b, p - Start(blocks, b));
    }
  }

  lemma SeekInBlock(less: Less, blocks: seq<seq<Pair>>, keys: seq<Bytes>, target: Bytes, b: nat, i: nat)
    requires WeakOrder(less) && KeysApart(less, blocks, keys) && b < |blocks|
    requires (forall a :: 0 <= a < b ==> less(keys[a], target)) && !less(keys[b], target)
    requires SeekPairs(less, blocks[b], target, i)
    ensures SeekPairs(less, Flatten(blocks), target, Start(blocks, b) + i)
  {
    hide Flatten, WeakOrder, KeysApart, Start;
    var flat, start := Flatten(blocks), Start(blocks, b);
    StartAt(blocks, b);
    forall p: nat | p < start + i ensures p < |flat| && less(flat[p].0, target) {
      BeforePosition(less, blocks, keys, target, b, i, p);
    }
    if i < |blocks[b]| {
      FlatElement(blocks, b, i);
    } else if start + i < |flat| {
      var a := BlockOf(blocks, start + i);
      StartAt(blocks, a);
      LaterBlock(less, blocks, keys, target, b, a, start + i);
    }
  }

  lemma LaterBlock(less: Less, blocks: seq<seq<Pair>>, keys: seq<Bytes>, target: Bytes, b: nat, a: nat, p: nat)
    requires WeakOrder(less) && KeysApart(less, blocks, keys) && b < |blocks| && !less(keys[b], target)
    requires a < |blocks| && Start(blocks, b + 1) <= p
    requires Start(blocks, a) <= p < Start(blocks, a + 1) <= |Flatten(blocks)|
    requires p - Start(blocks, a) < |blocks[a]| && Flatten(blocks)[p] == blocks[a][p - Start(blocks, a)]
    ensures !less(Flatten(blocks)[p].0, target)
  {
    hide Flatten, WeakOrder;
    if a <= b {
      StartsMonotone(blocks, a + 1, b + 1);
    } else {
      Order(less, keys[b], blocks[a][p - Start(blocks, a)].0, target);
    }
  }

  lemma SeekPast(less: Less, blocks: seq<seq<Pair>>, keys: seq<Bytes>, target: Bytes)
    requires WeakOrder(less) && KeysApart(less, blocks, keys) && forall a :: 0 <= a < |blocks| ==> less(keys[a], target)
    ensures SeekPairs(less, Flatten(blocks), target, |Flatten(blocks)|)
  {
    hide Flatten, WeakOrder;
    Ends(blocks);
    forall p | 0 <= p < |Flatten(blocks)| ensures less(Flatten(blocks)[p].0, target) {
      EarlierBlocks(less, blocks, keys, target, |blocks|, p);
    }
  }
}
