/** Walking a table (Table::NewIterator, table/table.cc): the two-level iterator over
    the blocks of a finished table. */
module TableWalks {
  import opened Coding
  import opened BlockFormat
  import opened BlockIters
  import opened Comparators
  import opened FilterPolicies
  import opened Sequences
  import opened TableIndex
  import opened TableFormat
  import opened TwoLevelIterators

  /** The keys of a block are not past its index key. */
  lemma NotPastIndex(c: Comparator, user: Bytes -> Bytes, blocks: seq<seq<Cell>>, keys: seq<Bytes>, b: nat, i: nat)
    requires WeakOrder(c.less) && Indexed(c, user, blocks, keys) && SortedPairs(c.less, AllPairs(blocks))
    requires b < |blocks| && i < |blocks[b]|
    ensures !c.less(keys[b], blocks[b][i].key)
  {
    hide AllPairs, WeakOrder, Separates;
    BlockSorted(c.less, blocks, b);
    if i < |blocks[b]| - 1 {
      Order(c.less, keys[b], blocks[b][i].key, Last(blocks[b]));
    }
  }

  /** An index key is before the keys of all later blocks. */
  lemma BeforeLater(c: Comparator, user: Bytes -> Bytes, blocks: seq<seq<Cell>>, keys: seq<Bytes>, a: nat, b: nat,
                    i: nat)
    requires WeakOrder(c.less) && Indexed(c, user, blocks, keys) && SortedPairs(c.less, AllPairs(blocks))
    requires a < b < |blocks| && i < |blocks[b]|
    ensures c.less(keys[a], blocks[b][i].key)
  {
    hide AllPairs, WeakOrder, Separates;
    SeparatorBefore(c.less, user, Last(blocks[b - 1]), keys[b - 1], blocks[b][0].key);
    BlockSorted(c.less, blocks, b);
    if i > 0 {
      Order(c.less, keys[b - 1], blocks[b][0].key, blocks[b][i].key);
    }
    if a < b - 1 {
      IndexOrdered(c, user, blocks, keys, a, b - 1);
      Order(c.less, keys[a], keys[b - 1], blocks[b][i].key);
    }
  }

  /** The index of a finished table keeps its blocks apart, and the blocks hold its
      entries in order. */
  lemma TableApart(t: Table, c: Comparator, user: Bytes -> Bytes, policy: Policy,
                   blocks: seq<Stored>, index: seq<Cell>, starts: seq<nat>, entries: seq<Pair>)
    requires IsTable(t, c, user, policy, blocks, index, starts, entries)
    ensures KeysApart(c.less, BlocksOf(CellsOf(blocks)), KeysOf(index)) && Flatten(BlocksOf(CellsOf(blocks))) == entries
  {
    hide Flatten, WeakOrder, IsBlock, SortedPairs, Indexed, StoredIn, FilterCovers, HasHandle;
    var cells, keys := CellsOf(blocks), KeysOf(index);
    forall b, i | 0 <= b < |cells| && 0 <= i < |cells[b]| ensures !c.less(keys[b], BlocksOf(cells)[b][i].0) {
      NotPastIndex(c, user, cells, keys, b, i);
    }
    forall a, b, i | 0 <= a < b < |cells| && 0 <= i < |cells[b]| ensures c.less(keys[a], BlocksOf(cells)[b][i].0) {
      BeforeLater(c, user, cells, keys, a, b, i);
    }
  }

  /** An iterator on a finished table is a cursor on its entries. Blocks are read here
      all at once, and by the code when the iterator gets to them. */
  method NewIterator(t: Table, c: Comparator, ghost user: Bytes -> Bytes, ghost policy: Policy,
                     ghost blocks: seq<Stored>, ghost index: seq<Cell>, ghost starts: seq<nat>,
                     ghost entries: seq<Pair>)
    returns (it: TwoLevelIterator)
    requires IsTable(t, c, user, policy, blocks, index, starts, entries)
    ensures fresh(it) && it.Valid() && it.less == c.less && Flatten(it.blocks) == entries
    ensures WeakOrder(it.less) && KeysApart(it.less, it.blocks, it.keys) && SortedPairs(it.less, Flatten(it.blocks))
  {
    hide AllPairs, WeakOrder, IsBlock, SortedPairs, Indexed, FilterCovers, DecodeHandle, EncodeHandle;
    hide KeysApart, Flatten;
    TableApart(t, c, user, policy, blocks, index, starts, entries);
    var handles := ReadBlock(t.indexData, c.less, index, starts);
    var keys: seq<Bytes>, data: seq<seq<Pair>> := [], [];
    for b := 0 to |handles|
      invariant |keys| == |data| == b
      invariant forall a :: 0 <= a < b ==> keys[a] == KeysOf(index)[a] && data[a] == BlocksOf(CellsOf(blocks))[a]
    {
      assert HasHandle(index[b], blocks[b]) && StoredIn(t.file, blocks[b]);
      HandleRoundTrip(blocks[b].offset, |blocks[b].data|);
      var handle := DecodeHandle(handles[b].1);
      var pairs := ReadBlock(t.file[handle.value.0..handle.value.0 + handle.value.1], c.less, blocks[b].cells,
                             blocks[b].starts);
      assert pairs == BlocksOf(CellsOf(blocks))[b];
      keys, data := keys + [handles[b].0], data + [pairs];
    }
    assert keys == KeysOf(index) && data == BlocksOf(CellsOf(blocks));
    it := new TwoLevelIterator(data, keys, c.less);
  }
}
