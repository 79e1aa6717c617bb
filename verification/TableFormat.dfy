/** A finished table in its file (table/format.cc, table/table.cc): block handles, stored
    blocks, and the point lookup through the index and the filter. */
module TableFormat {
  import opened Options
  import opened Coding
  import opened BlockFormat
  import opened BlockIters
  import opened Comparators
  import opened FilterPolicies
  import FB = FilterBlocks
  import opened TableIndex

  /** A data block in the file. */
  datatype Stored = Stored(cells: seq<Cell>, starts: seq<nat>, offset: nat, data: Bytes)

  ghost predicate StoredIn(file: Bytes, s: Stored)
    ensures StoredIn(file, s) ==> s.cells != []
  {
    && IsBlock(s.data, s.cells, s.starts) && s.cells != []
    && s.offset + |s.data| <= |file| < TWO64
    && file[s.offset..s.offset + |s.data|] == s.data
  }

  lemma StoredStays(file: Bytes, more: Bytes, s: Stored)
    requires StoredIn(file, s) && |file + more| < TWO64
    ensures StoredIn(file + more, s)
  {
    hide IsBlock;
    assert (file + more)[s.offset..s.offset + |s.data|] == file[s.offset..s.offset + |s.data|];
  }

  ghost function CellsOf(blocks: seq<Stored>): seq<seq<Cell>> {
    seq(|blocks|, i requires 0 <= i < |blocks| => blocks[i].cells)
  }

  ghost function KeysOf(cells: seq<Cell>): seq<Bytes> {
    seq(|cells|, i requires 0 <= i < |cells| => cells[i].key)
  }

  /** A block's place in the file, as an index value. */
  function EncodeHandle(offset: Uint64, size: Uint64): Bytes { Varint(offset) + Varint(size) }

  function DecodeHandle(s: Bytes): Option<(Uint64, Uint64)> {
    match GetVarint64(s)
    case None => None
    case Some((offset, rest)) =>
      match GetVarint64(rest)
      case None => None
      case Some((size, _)) => Some((offset, size))
  }

  lemma HandleRoundTrip(offset: Uint64, size: Uint64)
    ensures DecodeHandle(EncodeHandle(offset, size)) == Some((offset, size))
  {
    hide GetVarint64, Varint;
    Varint64RoundTrip(offset, Varint(size));
    assert Varint(size) + [] == Varint(size);
    Varint64RoundTrip(size, []);
  }

  ghost predicate HasHandle(c: Cell, s: Stored) {
    s.offset < TWO64 && |s.data| < TWO64 && c.value == EncodeHandle(s.offset, |s.data|)
  }

  /** A finished table: its blocks, its index block, and its filter block, if any. */
  datatype Table = Table(file: Bytes, indexData: Bytes, filter: Option<Bytes>)

  ghost predicate FilterCovers(policy: Policy, user: Bytes -> Bytes, filter: Bytes, s: Stored) {
    forall i, k: Bytes {:trigger s.cells[i], FB.KeyMayMatch(policy, filter, s.offset, k)} ::
      0 <= i < |s.cells| && user(s.cells[i].key) == user(k) ==> FB.KeyMayMatch(policy, filter, s.offset, k)
  }

  ghost predicate IsTable(t: Table, c: Comparator, user: Bytes -> Bytes, policy: Policy,
                          blocks: seq<Stored>, index: seq<Cell>, starts: seq<nat>, entries: seq<Pair>) {
    && WeakOrder(c.less) && SortedPairs(c.less, entries)
    && entries == AllPairs(CellsOf(blocks))
    && (forall b :: 0 <= b < |blocks| ==> StoredIn(t.file, blocks[b]))
    && (forall b :: 0 <= b < |blocks| ==> t.filter.Some? ==> FilterCovers(policy, user, t.filter.value, blocks[b]))
    && IsBlock(t.indexData, index, starts) && |index| == |blocks|
    && (forall b :: 0 <= b < |blocks| ==> HasHandle(index[b], blocks[b]))
    && Indexed(c, user, CellsOf(blocks), KeysOf(index))
  }

  // ----- what the two seeks need -----

  /** The index keys are in order. */
  lemma {:induction false} IndexOrdered(c: Comparator, user: Bytes -> Bytes, blocks: seq<seq<Cell>>, keys: seq<Bytes>,
                                        a: nat, b: nat)
    requires WeakOrder(c.less) && Indexed(c, user, blocks, keys)
    requires SortedPairs(c.less, AllPairs(blocks)) && a < b < |keys|
    ensures c.less(keys[a], keys[b])
    decreases b
  {
    hide AllPairs, WeakOrder, Separates;
    var first, last := blocks[b][0].key, Last(blocks[b]);
    SeparatorBefore(c.less, user, Last(blocks[b - 1]), keys[b - 1], first);
    FirstBeforeLast(c.less, blocks, b);
    Classes(c.less, keys[b - 1], first, last);
    Order(c.less, keys[b - 1], keys[b], first);
    Order(c.less, keys[b], last, first);
    Classes(c.less, keys[b - 1], last, keys[b]);
    assert c.less(keys[b - 1], keys[b]) by {
      Order(c.less, keys[b - 1], keys[b], last);
    }
    if a < b - 1 {
      IndexOrdered(c, user, blocks, keys, a, b - 1);
      Order(c.less, keys[a], keys[b - 1], keys[b]);
    }
  }

  lemma FirstBeforeLast(less: Less, blocks: seq<seq<Cell>>, b: nat)
    requires WeakOrder(less) && SortedPairs(less, AllPairs(blocks)) && b < |blocks| && blocks[b] != []
    ensures !less(Last(blocks[b]), blocks[b][0].key)
  {
    BlockSorted(less, blocks, b);
    hide AllPairs;
    Order(less, blocks[b][0].key, blocks[b][0].key, Last(blocks[b]));
    if |blocks[b]| > 1 {
      Asymmetric(less, blocks[b][0].key, Last(blocks[b]));
    }
  }

  lemma BlockSorted(less: Less, blocks: seq<seq<Cell>>, b: nat)
    requires SortedPairs(less, AllPairs(blocks)) && b < |blocks|
    ensures SortedCells(less, blocks[b])
  {
    hide AllPairs;
    BlockPairs(blocks, b);
    var start, pairs := |AllPairs(blocks[..b])|, AllPairs(blocks);
    forall i, j | 0 <= i < j < |blocks[b]| ensures less(blocks[b][i].key, blocks[b][j].key) {
      assert pairs[start + i].0 == blocks[b][i].key && pairs[start + j].0 == blocks[b][j].key;
    }
  }

  lemma IndexSorted(c: Comparator, user: Bytes -> Bytes, blocks: seq<seq<Cell>>, index: seq<Cell>)
    requires WeakOrder(c.less) && Indexed(c, user, blocks, KeysOf(index)) && SortedPairs(c.less, AllPairs(blocks))
    ensures SortedCells(c.less, index)
  {
    hide AllPairs, WeakOrder, Indexed;
    forall i, j | 0 <= i < j < |index| ensures c.less(index[i].key, index[j].key) {
      IndexOrdered(c, user, blocks, KeysOf(index), i, j);
      assert KeysOf(index)[i] == index[i].key && KeysOf(index)[j] == index[j].key;
    }
  }

  /** A sorted block has a place for every target. */
  lemma {:induction false} SeekExists(less: Less, cells: seq<Cell>, target: Bytes) returns (j: nat)
    ensures IsSeekIndex(less, cells, target, j)
    decreases |cells|
  {
    if cells == [] || !less(cells[0].key, target) {
      j := 0;
    } else {
      var k := SeekExists(less, cells[1..], target);
      j := k + 1;
      forall q | 0 <= q < j ensures less(cells[q].key, target) {
        if q > 0 {
          assert cells[q] == cells[1..][q - 1];
        }
      }
      assert j < |cells| ==> cells[j] == cells[1..][k];
    }
  }
}

module Tables {
  import opened Options
  import opened Coding
  import opened BlockFormat
  import opened BlockIters
  import opened Comparators
  import opened FilterPolicies
  import FB = FilterBlocks
  import opened TableIndex
  import opened TableFormat

  /** InternalGet: one seek in the index, one look at the filter, one seek in one
      data block. */
  method InternalGet(t: Table, c: Comparator, ghost user: Bytes -> Bytes, policy: Policy,
                     ghost blocks: seq<Stored>, ghost index: seq<Cell>, ghost starts: seq<nat>,
                     ghost entries: seq<Pair>, k: Bytes)
    returns (r: Option<Pair>)
    requires IsTable(t, c, user, policy, blocks, index, starts, entries)
    ensures Answers(c.less, user, entries, k, r)
  {
    hide AllPairs, WeakOrder, IsBlock, SortedPairs, Indexed, SeekPairs, FB.KeyMayMatch, DecodeHandle, EncodeHandle;
    ghost var cells := CellsOf(blocks);
    IndexSorted(c, user, cells, index);
    var entry, b := SeekBlock(t.indexData, c.less, index, starts, k);
    IndexSeek(c.less, index, k, b);
    if entry == None {
      PastIndex(c, user, cells, KeysOf(index), k);
      return None;
    }
    assert HasHandle(index[b], blocks[b]) && StoredIn(t.file, blocks[b]) && cells[b] == blocks[b].cells;
    HandleRoundTrip(blocks[b].offset, |blocks[b].data|);
    var handle := DecodeHandle(entry.value.1);
    if t.filter.Some? && !FB.KeyMayMatch(policy, t.filter.value, handle.value.0, k) {
      FilterMiss(t, c, user, policy, blocks, index, starts, entries, k, b);
      return None;
    }
    BlockSorted(c.less, cells, b);
    ghost var j;
    r, j := SeekBlock(t.file[handle.value.0..handle.value.0 + handle.value.1], c.less, blocks[b].cells,
                      blocks[b].starts, k);
    forall i: nat | SeekPairs(c.less, entries, k, i) ensures AnswersAt(user, entries, k, r, i) {
      BlockAnswers(c, user, cells, KeysOf(index), k, b, j, i);
    }
  }

  /** A new iterator on a block, and what it finds. */
  method SeekBlock(data: Bytes, less: Less, ghost cells: seq<Cell>, ghost starts: seq<nat>, k: Bytes)
    returns (r: Option<Pair>, ghost j: nat)
    requires IsBlock(data, cells, starts) && WeakOrder(less) && SortedCells(less, cells)
    ensures IsSeekIndex(less, cells, k, j)
    ensures r == if j < |cells| then Some((cells[j].key, cells[j].value)) else None
  {
    hide IsBlock, WeakOrder, SortedCells, RestartOf, Chained, RestartsAt, Buffer;
    var iter := new Iter(data, less, cells, starts);
    iter.Seek(k);
    j := iter.index;
    if iter.current < iter.restarts {
      return Some((iter.key, iter.data[iter.valueStart..iter.valueEnd])), j;
    }
    return None, j;
  }

  lemma IndexSeek(less: Less, index: seq<Cell>, k: Bytes, b: nat)
    requires IsSeekIndex(less, index, k, b)
    ensures forall a :: 0 <= a < b ==> less(KeysOf(index)[a], k)
    ensures b < |index| ==> !less(KeysOf(index)[b], k)
  {
  }

  lemma PastIndex(c: Comparator, user: Bytes -> Bytes, blocks: seq<seq<Cell>>, keys: seq<Bytes>, k: Bytes)
    requires WeakOrder(c.less) && Indexed(c, user, blocks, keys) && SortedPairs(c.less, AllPairs(blocks))
    requires forall a :: 0 <= a < |keys| ==> c.less(keys[a], k)
    ensures Answers(c.less, user, AllPairs(blocks), k, None)
  {
    hide AllPairs, WeakOrder, SortedPairs;
    SeekPicksBlock(c, user, blocks, keys, k, |keys|);
    assert blocks[..|keys|] == blocks;
  }

  /** A filter that says no is right about the user key. */
  lemma FilterMiss(t: Table, c: Comparator, user: Bytes -> Bytes, policy: Policy,
                   blocks: seq<Stored>, index: seq<Cell>, starts: seq<nat>, entries: seq<Pair>, k: Bytes, b: nat)
    requires IsTable(t, c, user, policy, blocks, index, starts, entries)
    requires IsSeekIndex(c.less, index, k, b) && b < |blocks|
    requires t.filter.Some? && !FB.KeyMayMatch(policy, t.filter.value, blocks[b].offset, k)
    ensures Answers(c.less, user, entries, k, None)
  {
    hide AllPairs, WeakOrder, IsBlock, SortedPairs, Indexed, SeekPairs, FB.KeyMayMatch, StoredIn, HasHandle;
    var cells := CellsOf(blocks);
    IndexSeek(c.less, index, k, b);
    assert cells[b] == blocks[b].cells && FilterCovers(policy, user, t.filter.value, blocks[b]);
    var j := SeekExists(c.less, cells[b], k);
    forall i: nat | SeekPairs(c.less, entries, k, i) ensures AnswersAt(user, entries, k, None, i) {
      BlockAnswers(c, user, cells, KeysOf(index), k, b, j, i);
      if j < |cells[b]| {
        assert blocks[b].cells[j].key == entries[i].0;
      }
    }
  }
}
