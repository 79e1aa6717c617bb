/** Tables (table/table_builder.cc, table/table.cc): data blocks in a file, an
    index of shortened keys, and a filter. */
module TableIndex {
  import opened Options
  import opened Coding
  import opened BlockFormat
  import opened BlockIters
  import opened Comparators
  import opened Sequences

  type Pair = (Bytes, Bytes)

  function Pairs(cells: seq<Cell>): seq<Pair> {
    seq(|cells|, i requires 0 <= i < |cells| => (cells[i].key, cells[i].value))
  }

  ghost predicate SortedPairs(less: Less, pairs: seq<Pair>) {
    forall i, j :: 0 <= i < j < |pairs| ==> less(pairs[i].0, pairs[j].0)
  }

  /** i is the first pair whose key is not before target, or the end. */
  ghost predicate SeekPairs(less: Less, pairs: seq<Pair>, target: Bytes, i: nat) {
    && i <= |pairs|
    && (forall j :: 0 <= j < i ==> less(pairs[j].0, target))
    && (i < |pairs| ==> !less(pairs[i].0, target))
  }

  function BlocksOf(blocks: seq<seq<Cell>>): seq<seq<Pair>> {
    seq(|blocks|, i requires 0 <= i < |blocks| => Pairs(blocks[i]))
  }

  /** The pairs of data blocks, one block after the other. */
  function AllPairs(blocks: seq<seq<Cell>>): seq<Pair> { Flatten(BlocksOf(blocks)) }

  lemma AllPairsNext(blocks: seq<seq<Cell>>, cells: seq<Cell>)
    ensures AllPairs(blocks + [cells]) == AllPairs(blocks) + Pairs(cells)
  {
    assert BlocksOf(blocks + [cells])[..|blocks|] == BlocksOf(blocks);
  }

  /** Block b is a stretch of all the pairs. */
  lemma BlockAt(blocks: seq<seq<Cell>>, b: nat)
    requires b < |blocks|
    ensures AllPairs(blocks[..b]) + Pairs(blocks[b]) == AllPairs(blocks[..b + 1]) <= AllPairs(blocks)
  {
    hide Pairs, Flatten;
    AllPairsNext(blocks[..b], blocks[b]);
    assert blocks[..b + 1] == blocks[..b] + [blocks[b]];
    FlattenPrefix(BlocksOf(blocks), b + 1);
    assert BlocksOf(blocks)[..b + 1] == BlocksOf(blocks[..b + 1]);
  }

  /** Index keys keep the blocks apart: no key of a block is past its index key,
      and its index key is before every key of the next block. */
  ghost predicate Indexed(c: Comparator, user: Bytes -> Bytes, blocks: seq<seq<Cell>>, keys: seq<Bytes>) {
    && |keys| == |blocks|
    && (forall b :: 0 <= b < |blocks| ==> blocks[b] != [])
    && (forall b :: 0 <= b < |blocks| ==> !c.less(keys[b], Last(blocks[b])))
    && (forall b :: 0 < b < |blocks| ==> Separates(c.less, user, Last(blocks[b - 1]), keys[b - 1], blocks[b][0].key))
  }

  function Last(cells: seq<Cell>): Bytes
    requires cells != []
  {
    cells[|cells| - 1].key
  }

  /** The positions of a block's first and last pairs. */
  lemma BlockEnds(blocks: seq<seq<Cell>>, b: nat)
    requires b < |blocks| && blocks[b] != []
    ensures |AllPairs(blocks[..b])| < |AllPairs(blocks[..b + 1])| <= |AllPairs(blocks)|
    ensures AllPairs(blocks)[|AllPairs(blocks[..b])|].0 == blocks[b][0].key
    ensures AllPairs(blocks)[|AllPairs(blocks[..b + 1])| - 1].0 == Last(blocks[b])
  {
    BlockAt(blocks, b);
    hide AllPairs;
    var p := AllPairs(blocks[..b + 1]);
    assert p[|AllPairs(blocks[..b])|] == Pairs(blocks[b])[0];
    assert p[|p| - 1] == Pairs(blocks[b])[|blocks[b]| - 1];
  }

  /** Keys up to position i are not past the key there. */
  lemma UpTo(less: Less, pairs: seq<Pair>, i: nat, target: Bytes)
    requires WeakOrder(less) && SortedPairs(less, pairs) && i < |pairs| && less(pairs[i].0, target)
    ensures forall j :: 0 <= j <= i ==> less(pairs[j].0, target)
  {
    forall j | 0 <= j < i ensures less(pairs[j].0, target) {
      Order(less, pairs[j].0, pairs[i].0, target);
    }
  }

  lemma From(less: Less, pairs: seq<Pair>, i: nat, target: Bytes)
    requires WeakOrder(less) && SortedPairs(less, pairs) && i < |pairs| && !less(pairs[i].0, target)
    ensures forall j :: i <= j < |pairs| ==> !less(pairs[j].0, target)
  {
    forall j | i < j < |pairs| ensures !less(pairs[j].0, target) {
      Order(less, pairs[i].0, pairs[j].0, target);
    }
  }

  /** The index seek picks the only block that can hold the answer: pairs of
      earlier blocks are before target, pairs of later ones are not. */
  lemma SeekPicksBlock(c: Comparator, user: Bytes -> Bytes, blocks: seq<seq<Cell>>, keys: seq<Bytes>, target: Bytes,
                       b: nat)
    requires WeakOrder(c.less) && Indexed(c, user, blocks, keys) && SortedPairs(c.less, AllPairs(blocks))
    requires b <= |keys| && (forall a :: 0 <= a < b ==> c.less(keys[a], target))
    requires (b < |keys| ==> !c.less(keys[b], target))
    ensures |AllPairs(blocks[..b])| <= |AllPairs(blocks)|
    ensures forall j :: 0 <= j < |AllPairs(blocks[..b])| ==> c.less(AllPairs(blocks)[j].0, target)
    ensures b < |blocks| ==> |AllPairs(blocks[..b + 1])| <= |AllPairs(blocks)|
    ensures b < |blocks| ==> forall j :: |AllPairs(blocks[..b + 1])| <= j < |AllPairs(blocks)| ==>
              !c.less(AllPairs(blocks)[j].0, target)
  {
    hide AllPairs, Separates;
    var pairs := AllPairs(blocks);
    if b > 0 {
      BlockEnds(blocks, b - 1);
      var last := Last(blocks[b - 1]);
      Order(c.less, keys[b - 1], last, target);
      UpTo(c.less, pairs, |AllPairs(blocks[..b])| - 1, target);
    } else {
      NoBlocks(blocks);
    }
    if b < |blocks| {
      BlockEnds(blocks, b);
      if b + 1 < |blocks| {
        BlockEnds(blocks, b + 1);
        SeparatorBefore(c.less, user, Last(blocks[b]), keys[b], blocks[b + 1][0].key);
        Order(c.less, keys[b], blocks[b + 1][0].key, target);
        Order(c.less, blocks[b + 1][0].key, keys[b], target);
        assert !c.less(blocks[b + 1][0].key, target) by {
          Classes(c.less, keys[b], blocks[b + 1][0].key, target);
        }
        From(c.less, pairs, |AllPairs(blocks[..b + 1])|, target);
      } else {
        assert blocks[..b + 1] == blocks;
      }
    } else {
      assert blocks[..b] == blocks;
    }
  }

  lemma NoBlocks(blocks: seq<seq<Cell>>)
    ensures AllPairs(blocks[..0]) == []
  {
  }

  lemma SeparatorBefore(less: Less, user: Bytes -> Bytes, a: Bytes, s: Bytes, b: Bytes)
    requires Separates(less, user, a, s, b)
    ensures less(s, b)
  {
  }

  /** What a lookup owes its caller: nothing but the first pair at or past target,
      and that pair whenever it has target's user key. */
  ghost predicate Answers(less: Less, user: Bytes -> Bytes, pairs: seq<Pair>, target: Bytes, r: Option<Pair>) {
    forall i: nat :: SeekPairs(less, pairs, target, i) ==> AnswersAt(user, pairs, target, r, i)
  }

  ghost predicate AnswersAt(user: Bytes -> Bytes, pairs: seq<Pair>, target: Bytes, r: Option<Pair>, i: nat) {
    if r.Some? then i < |pairs| && r.value == pairs[i]
    else i >= |pairs| || user(pairs[i].0) != user(target)
  }

  /** Where a block's pairs are among all pairs. */
  lemma BlockPairs(blocks: seq<seq<Cell>>, b: nat)
    requires b < |blocks|
    ensures |AllPairs(blocks[..b + 1])| == |AllPairs(blocks[..b])| + |blocks[b]| <= |AllPairs(blocks)|
    ensures forall q :: 0 <= q < |blocks[b]| ==>
              AllPairs(blocks)[|AllPairs(blocks[..b])| + q] == (blocks[b][q].key, blocks[b][q].value)
  {
    hide AllPairs;
    BlockAt(blocks, b);
    var start, upto := |AllPairs(blocks[..b])|, AllPairs(blocks[..b + 1]);
    assert forall q :: 0 <= q < |blocks[b]| ==> upto[start + q] == Pairs(blocks[b])[q];
  }

  /** The first pair at or past target is in the picked block, or follows it. */
  lemma SeekUnique(less: Less, pairs: seq<Pair>, target: Bytes, i: nat, start: nat, j: nat, cells: seq<Cell>)
    requires SeekPairs(less, pairs, target, i) && IsSeekIndex(less, cells, target, j) && start + |cells| <= |pairs|
    requires forall q :: 0 <= q < start ==> less(pairs[q].0, target)
    requires forall q :: 0 <= q < |cells| ==> pairs[start + q] == (cells[q].key, cells[q].value)
    requires forall q :: start + |cells| <= q < |pairs| ==> !less(pairs[q].0, target)
    ensures i == start + j
  {
    forall q | 0 <= q < start + j ensures less(pairs[q].0, target) {
      if q >= start {
        assert pairs[start + (q - start)].0 == cells[q - start].key;
      }
    }
    assert start + j < |pairs| ==> !less(pairs[start + j].0, target);
  }

  /** Looking in the picked block alone is enough. */
  lemma BlockAnswers(c: Comparator, user: Bytes -> Bytes, blocks: seq<seq<Cell>>, keys: seq<Bytes>, target: Bytes,
                     b: nat, j: nat, i: nat)
    requires WeakOrder(c.less) && Indexed(c, user, blocks, keys) && SortedPairs(c.less, AllPairs(blocks))
    requires b < |keys| && (forall a :: 0 <= a < b ==> c.less(keys[a], target)) && !c.less(keys[b], target)
    requires IsSeekIndex(c.less, blocks[b], target, j) && SeekPairs(c.less, AllPairs(blocks), target, i)
    ensures j < |blocks[b]| ==> i < |AllPairs(blocks)| && AllPairs(blocks)[i] == (blocks[b][j].key, blocks[b][j].value)
    ensures j == |blocks[b]| ==> i >= |AllPairs(blocks)| || user(AllPairs(blocks)[i].0) != user(target)
  {
    hide AllPairs, SeekPairs, SortedPairs, WeakOrder;
    SeekPicksBlock(c, user, blocks, keys, target, b);
    BlockPairs(blocks, b);
    SeekUnique(c.less, AllPairs(blocks), target, i, |AllPairs(blocks[..b])|, j, blocks[b]);
    if j == |blocks[b]| {
      if b + 1 < |blocks| {
        BlockEnds(blocks, b + 1);
        Behind(c.less, user, Last(blocks[b]), keys[b], blocks[b + 1][0].key, target);
      } else {
        assert blocks[..b + 1] == blocks;
      }
    }
  }

  lemma Behind(less: Less, user: Bytes -> Bytes, a: Bytes, s: Bytes, b: Bytes, target: Bytes)
    requires Separates(less, user, a, s, b) && less(a, target) && !less(s, target)
    ensures user(target) != user(b)
  {
  }
}
