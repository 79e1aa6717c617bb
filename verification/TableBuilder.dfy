/** The table builder (table/table_builder.cc), without compression. */
module TableBuilders {
  import opened Options
  import opened Coding
  import opened BlockFormat
  import opened BlockBuilders
  import opened BlockIters
  import opened Comparators
  import opened FilterPolicies
  import FB = FilterBlocks
  import opened TableIndex
  import opened TableFormat
  import opened LogChecksum
  import opened Tables
  import opened InternalKeys
  import DbFormat
  import Bloom

  const TRAILER_SIZE: nat := 5

  /** The key that follows block b: the next block's first, or the current one's. */
  ghost function NextKey(blocks: seq<Stored>, current: seq<Cell>, b: nat): Bytes
    requires b < |blocks| && (b + 1 < |blocks| ==> blocks[b + 1].cells != []) && (b + 1 == |blocks| ==> current != [])
  {
    if b + 1 < |blocks| then blocks[b + 1].cells[0].key else current[0].key
  }

  ghost predicate AllStored(file: Bytes, blocks: seq<Stored>) {
    forall b :: 0 <= b < |blocks| ==> StoredIn(file, blocks[b])
  }

  /** The blocks written and the block being filled hold the entries, in order. */
  ghost predicate HoldsAll(less: Less, blocks: seq<Stored>, current: seq<Cell>, entries: seq<Pair>) {
    entries == AllPairs(CellsOf(blocks)) + Pairs(current) && SortedPairs(less, entries)
  }

  /** The index so far. The entry of the last block waits for the first key of the
      next one. */
  ghost predicate IndexedSoFar(c: Comparator, user: Bytes -> Bytes, blocks: seq<Stored>, current: seq<Cell>,
                               index: seq<Cell>, pending: bool)
    requires forall b :: 0 <= b < |blocks| ==> blocks[b].cells != []
  {
    && (pending ==> current == [] && blocks != [])
    && (!pending && blocks != [] ==> current != [])
    && |index| == |blocks| - (if pending then 1 else 0)
    && (forall b :: 0 <= b < |index| ==> HasHandle(index[b], blocks[b]))
    && (forall b :: 0 <= b < |index| ==>
        Separates(c.less, user, Last(blocks[b].cells), index[b].key, NextKey(blocks, current, b)))
  }

  ghost predicate Shape(c: Comparator, user: Bytes -> Bytes, file: Bytes, blocks: seq<Stored>, current: seq<Cell>,
                        index: seq<Cell>, pending: bool, entries: seq<Pair>) {
    && AllStored(file, blocks) && HoldsAll(c.less, blocks, current, entries)
    && IndexedSoFar(c, user, blocks, current, index, pending)
  }

  /** Every key written, under the filter index of its block. */
  ghost predicate Filtered(file: Bytes, blocks: seq<Stored>, current: seq<Cell>, added: set<(nat, Bytes)>) {
    && (forall b, i :: 0 <= b < |blocks| && 0 <= i < |blocks[b].cells| ==>
        (blocks[b].offset / FB.BASE, blocks[b].cells[i].key) in added)
    && (forall i :: 0 <= i < |current| ==> (|file| / FB.BASE, current[i].key) in added)
  }

  // ----- one entry -----

  lemma PairsNext(cells: seq<Cell>, cell: Cell)
    ensures Pairs(cells + [cell]) == Pairs(cells) + [(cell.key, cell.value)]
  {
  }

  lemma SortedNext(less: Less, pairs: seq<Pair>, p: Pair)
    requires WeakOrder(less) && SortedPairs(less, pairs) && (pairs != [] ==> less(pairs[|pairs| - 1].0, p.0))
    ensures SortedPairs(less, pairs + [p])
  {
    forall i | 0 <= i < |pairs| ensures less(pairs[i].0, p.0) {
      Order(less, pairs[i].0, pairs[|pairs| - 1].0, p.0);
    }
  }

  /** The last pair of a table whose last block is full. */
  lemma LastPair(blocks: seq<Stored>)
    requires blocks != [] && blocks[|blocks| - 1].cells != []
    ensures var pairs := AllPairs(CellsOf(blocks));
            pairs != [] && pairs[|pairs| - 1].0 == Last(blocks[|blocks| - 1].cells)
  {
    var n := |blocks| - 1;
    BlockEnds(CellsOf(blocks), n);
    assert CellsOf(blocks)[..n + 1] == CellsOf(blocks);
  }

  lemma HoldsAdd(less: Less, blocks: seq<Stored>, current: seq<Cell>, entries: seq<Pair>, cell: Cell)
    requires WeakOrder(less) && HoldsAll(less, blocks, current, entries)
    requires entries != [] ==> less(entries[|entries| - 1].0, cell.key)
    ensures HoldsAll(less, blocks, current + [cell], entries + [(cell.key, cell.value)])
  {
    hide AllPairs, WeakOrder, SortedPairs, Pairs;
    PairsNext(current, cell);
    SortedNext(less, entries, (cell.key, cell.value));
    assert AllPairs(CellsOf(blocks)) + (Pairs(current) + [(cell.key, cell.value)])
           == entries + [(cell.key, cell.value)];
  }

  lemma IndexAdd(c: Comparator, user: Bytes -> Bytes, blocks: seq<Stored>, current: seq<Cell>, index: seq<Cell>,
                 pending: bool, cell: Cell, more: seq<Cell>)
    requires forall b :: 0 <= b < |blocks| ==> blocks[b].cells != []
    requires IndexedSoFar(c, user, blocks, current, index, pending)
    requires if pending then
               && |more| == 1 && HasHandle(more[0], blocks[|blocks| - 1])
               && Separates(c.less, user, Last(blocks[|blocks| - 1].cells), more[0].key, cell.key)
             else more == []
    ensures IndexedSoFar(c, user, blocks, current + [cell], index + more, false)
  {
    hide HasHandle, Separates;
    forall b | 0 <= b < |index + more|
      ensures Separates(c.less, user, Last(blocks[b].cells), (index + more)[b].key,
                        NextKey(blocks, current + [cell], b))
    {
      if b < |index| {
        assert Separates(c.less, user, Last(blocks[b].cells), index[b].key, NextKey(blocks, current, b));
      }
    }
  }

  /** An entry added to the current block, after the index entry that waited. */
  lemma ShapeAdd(c: Comparator, user: Bytes -> Bytes, file: Bytes, blocks: seq<Stored>, current: seq<Cell>,
                 index: seq<Cell>, pending: bool, entries: seq<Pair>, cell: Cell, more: seq<Cell>)
    requires TableLaws(c, user) && Shape(c, user, file, blocks, current, index, pending, entries)
    requires entries != [] ==> c.less(entries[|entries| - 1].0, cell.key)
    requires if pending then
               && entries != [] && |more| == 1 && HasHandle(more[0], blocks[|blocks| - 1])
               && more[0].key == c.separator(entries[|entries| - 1].0, cell.key)
             else more == []
    ensures Shape(c, user, file, blocks, current + [cell], index + more, false, entries + [(cell.key, cell.value)])
  {
    hide AllPairs, StoredIn, HasHandle, Separates, WeakOrder, SortedPairs;
    HoldsAdd(c.less, blocks, current, entries, cell);
    if pending {
      LastPair(blocks);
      assert Pairs(current) == [];
      assert entries == AllPairs(CellsOf(blocks));
    }
    IndexAdd(c, user, blocks, current, index, pending, cell, more);
  }

  // ----- one block -----

  lemma CellsOfNext(blocks: seq<Stored>, s: Stored)
    ensures CellsOf(blocks + [s]) == CellsOf(blocks) + [s.cells]
  {
  }

  lemma StoredFlush(file: Bytes, blocks: seq<Stored>, s: Stored, tail: Bytes)
    requires AllStored(file, blocks) && s.cells != [] && IsBlock(s.data, s.cells, s.starts)
    requires s.offset == |file| && |file + s.data + tail| < TWO64
    ensures AllStored(file + s.data + tail, blocks + [s])
  {
    hide IsBlock;
    var after := file + s.data + tail;
    assert after == file + (s.data + tail);
    forall b | 0 <= b < |blocks + [s]| ensures StoredIn(after, (blocks + [s])[b]) {
      if b < |blocks| {
        StoredStays(file, s.data + tail, blocks[b]);
      } else {
        assert after[s.offset..s.offset + |s.data|] == s.data;
      }
    }
  }

  lemma IndexFlush(c: Comparator, user: Bytes -> Bytes, blocks: seq<Stored>, s: Stored, index: seq<Cell>)
    requires (forall b :: 0 <= b < |blocks| ==> blocks[b].cells != []) && s.cells != []
    requires IndexedSoFar(c, user, blocks, s.cells, index, false)
    ensures forall b :: 0 <= b < |blocks + [s]| ==> (blocks + [s])[b].cells != []
    ensures IndexedSoFar(c, user, blocks + [s], [], index, true)
  {
    hide HasHandle, Separates;
    forall b | 0 <= b < |index|
      ensures Separates(c.less, user, Last((blocks + [s])[b].cells), index[b].key, NextKey(blocks + [s], [], b))
    {
      assert Separates(c.less, user, Last(blocks[b].cells), index[b].key, NextKey(blocks, s.cells, b));
    }
  }

  /** The current block written to the file. */
  lemma ShapeFlush(c: Comparator, user: Bytes -> Bytes, file: Bytes, blocks: seq<Stored>, index: seq<Cell>,
                   entries: seq<Pair>, s: Stored, tail: Bytes)
    requires s.cells != [] && Shape(c, user, file, blocks, s.cells, index, false, entries)
    requires IsBlock(s.data, s.cells, s.starts) && s.offset == |file| && |file + s.data + tail| < TWO64
    ensures Shape(c, user, file + s.data + tail, blocks + [s], [], index, true, entries)
  {
    hide AllPairs, IsBlock, StoredIn, IndexedSoFar;
    StoredFlush(file, blocks, s, tail);
    IndexFlush(c, user, blocks, s, index);
    CellsOfNext(blocks, s);
    AllPairsNext(CellsOf(blocks), s.cells);
    assert Pairs([]) == [];
  }

  lemma SomeEntry(less: Less, blocks: seq<Stored>, current: seq<Cell>, entries: seq<Pair>)
    requires HoldsAll(less, blocks, current, entries) && current != []
    ensures entries != []
  {
    hide AllPairs, SortedPairs;
    assert |Pairs(current)| > 0;
  }

  lemma FilteredAdd(file: Bytes, blocks: seq<Stored>, current: seq<Cell>, added: set<(nat, Bytes)>, cell: Cell)
    requires Filtered(file, blocks, current, added)
    ensures Filtered(file, blocks, current + [cell], added + {(|file| / FB.BASE, cell.key)})
  {
  }

  lemma FilteredFlush(file: Bytes, blocks: seq<Stored>, s: Stored, added: set<(nat, Bytes)>, after: Bytes)
    requires Filtered(file, blocks, s.cells, added) && s.offset == |file|
    ensures Filtered(after, blocks + [s], [], added)
  {
  }

  // ----- the finished table -----

  lemma IndexComplete(c: Comparator, user: Bytes -> Bytes, blocks: seq<Stored>, index: seq<Cell>, more: seq<Cell>)
    requires forall b :: 0 <= b < |blocks| ==> blocks[b].cells != []
    requires IndexedSoFar(c, user, blocks, [], index, blocks != [])
    requires if blocks != [] then
               && |more| == 1 && HasHandle(more[0], blocks[|blocks| - 1])
               && !c.less(more[0].key, Last(blocks[|blocks| - 1].cells))
             else more == []
    ensures Indexed(c, user, CellsOf(blocks), KeysOf(index + more))
    ensures |index + more| == |blocks| && forall b :: 0 <= b < |blocks| ==> HasHandle((index + more)[b], blocks[b])
  {
    hide HasHandle, Separates;
    var cells: seq<seq<Cell>>, keys := CellsOf(blocks), KeysOf(index + more);
    forall b | 0 < b < |blocks| ensures Separates(c.less, user, Last(cells[b - 1]), keys[b - 1], cells[b][0].key) {
      assert Separates(c.less, user, Last(blocks[b - 1].cells), index[b - 1].key, NextKey(blocks, [], b - 1));
    }
    forall b | 0 <= b < |blocks| ensures !c.less(keys[b], Last(cells[b])) {
      if b + 1 < |blocks| {
        assert Separates(c.less, user, Last(blocks[b].cells), index[b].key, NextKey(blocks, [], b));
        SeparatorAfter(c.less, user, Last(blocks[b].cells), index[b].key, NextKey(blocks, [], b));
      }
    }
  }

  /** With the last index entry added, the index is complete. */
  lemma ShapeIndexed(c: Comparator, user: Bytes -> Bytes, file: Bytes, blocks: seq<Stored>, index: seq<Cell>,
                     entries: seq<Pair>, more: seq<Cell>)
    requires TableLaws(c, user) && Shape(c, user, file, blocks, [], index, blocks != [], entries)
    requires if blocks != [] then
               && entries != [] && |more| == 1 && more[0].key == c.successor(entries[|entries| - 1].0)
               && HasHandle(more[0], blocks[|blocks| - 1])
             else more == []
    ensures entries == AllPairs(CellsOf(blocks)) && Indexed(c, user, CellsOf(blocks), KeysOf(index + more))
    ensures |index + more| == |blocks| && forall b :: 0 <= b < |blocks| ==> HasHandle((index + more)[b], blocks[b])
  {
    hide AllPairs, StoredIn, HasHandle, WeakOrder, SortedPairs, Separates, Indexed, IndexedSoFar;
    assert Pairs([]) == [];
    assert entries == AllPairs(CellsOf(blocks));
    if blocks != [] {
      LastPair(blocks);
    }
    IndexComplete(c, user, blocks, index, more);
  }

  lemma SeparatorAfter(less: Less, user: Bytes -> Bytes, a: Bytes, s: Bytes, b: Bytes)
    requires Separates(less, user, a, s, b)
    ensures !less(s, a)
  {
  }

  /** What follows a block: its type, no compression, and a checksum. */
  function Trailer(extend: Extend, data: Bytes): (r: Bytes)
    ensures |r| == TRAILER_SIZE
  {
    [0] + StampOf(extend(extend(0, data), [0]))
  }

  class TableBuilder {
    const cmp: Comparator
    const extend: Extend
    const blockSize: nat
    const dataBlock: BlockBuilder
    const indexBlock: BlockBuilder
    const filterBlock: FB.FilterBlockBuilder
    ghost const user: Bytes -> Bytes
    var file: Bytes
    var lastKey: Bytes
    var pendingIndexEntry: bool
    var pendingHandle: (Uint64, Uint64)
    ghost var blocks: seq<Stored>
    ghost var entries: seq<Pair>

    ghost predicate Valid()
      reads this, dataBlock, indexBlock, filterBlock
    {
      Consistent() && |dataBlock.buffer| + 4 * |dataBlock.restarts| + 4 <= blockSize + 8
    }

    ghost predicate Consistent()
      reads this, dataBlock, indexBlock, filterBlock
    {
      && dataBlock != indexBlock && dataBlock.Valid() && indexBlock.Valid() && filterBlock.Valid()
      && Shape(cmp, user, file, blocks, dataBlock.cells, indexBlock.cells, pendingIndexEntry, entries)
      && Filtered(file, blocks, dataBlock.cells, filterBlock.added) && |filterBlock.groups| == |file| / FB.BASE
      && (entries != [] ==> lastKey == entries[|entries| - 1].0)
      && (pendingIndexEntry ==> entries != [] && HandleOf(blocks, pendingHandle))
    }

    /** An empty table, with a restart point at every entry of its index. */
    constructor (cmp: Comparator, extend: Extend, policy: Policy, blockSize: nat, interval: nat,
                 ghost user: Bytes -> Bytes)
      requires interval >= 1 && TableLaws(cmp, user)
      ensures Valid() && entries == [] && fresh(dataBlock) && fresh(indexBlock) && fresh(filterBlock)
      ensures this.cmp == cmp && this.user == user && this.filterBlock.policy == policy
    {
      var data := new BlockBuilder(interval);
      var index := new BlockBuilder(1);
      var filter := new FB.FilterBlockBuilder(policy);
      this.cmp, this.extend, this.blockSize, this.user := cmp, extend, blockSize, user;
      dataBlock, indexBlock, filterBlock := data, index, filter;
      file, lastKey, pendingIndexEntry, pendingHandle := [], [], false, (0, 0);
      blocks, entries := [], [];
    }

    /** The index entry of the last block, with a key that comes before next. */
    method AddIndexEntry(key: Bytes)
      requires indexBlock.Valid() && HandleOf(blocks, pendingHandle) && |indexBlock.buffer| < TWO32 && |key| < TWO32
      modifies indexBlock
      ensures |indexBlock.buffer| <= |old(indexBlock.buffer)| + |key| + 35
      ensures |indexBlock.restarts| <= |old(indexBlock.restarts)| + 1
      ensures indexBlock.Valid() && |indexBlock.cells| == old(|indexBlock.cells|) + 1
      ensures indexBlock.cells[..|old(indexBlock.cells)|] == old(indexBlock.cells)
      ensures indexBlock.cells[|indexBlock.cells| - 1].key == key
      ensures HasHandle(indexBlock.cells[|indexBlock.cells| - 1], blocks[|blocks| - 1])
    {
      hide Shape, Filtered, Varint;
      var handle := EncodeHandle(pendingHandle.0, pendingHandle.1);
      HandleSize(pendingHandle.0, pendingHandle.1);
      indexBlock.Add(key, handle);
    }

    /** Adds an entry behind all others. The index entry of the block before waits
        until now, so that its key can be a short one. */
    method Add(key: Bytes, value: Bytes)
      requires Valid() && TableLaws(cmp, user) && (entries != [] ==> cmp.less(lastKey, key))
      requires |key| + |value| + blockSize + 64 < TWO32
      requires |indexBlock.buffer| < TWO32 && |file| + TWO32 + TRAILER_SIZE < TWO64
      requires |cmp.separator(lastKey, key)| < TWO32
      modifies this, dataBlock, indexBlock, filterBlock
      ensures Valid() && entries == old(entries) + [(key, value)]
    {
      hide Shape, Filtered, TableLaws, FB.FilterBlockBuilder.Valid, BlockBuilder.Valid;
      ghost var more := [];
      ghost var index := indexBlock.cells;
      if pendingIndexEntry {
        AddIndexEntry(cmp.separator(lastKey, key));
        Snoc(index, indexBlock.cells);
        more := [indexBlock.cells[|index|]];
      }
      assert indexBlock.cells == index + more;
      filterBlock.AddKey(key);
      lastKey := key;
      ghost var current := dataBlock.cells;
      dataBlock.Add(key, value);
      Snoc(current, dataBlock.cells);
      ghost var cell := dataBlock.cells[|current|];
      ShapeAdd(cmp, user, file, blocks, current, index, pendingIndexEntry, entries, cell, more);
      FilteredAdd(file, blocks, current, old(filterBlock.added), cell);
      pendingIndexEntry := false;
      entries := entries + [(key, value)];
      var estimate := |dataBlock.buffer| + 4 * |dataBlock.restarts| + 4;
      if estimate >= blockSize {
        Flush();
      }
    }

    /** Writes the current block, if it holds anything. */
    method Flush()
      requires Consistent() && |dataBlock.buffer| + 4 * |dataBlock.restarts| + 4 < TWO32
      requires |file| + TWO32 + TRAILER_SIZE < TWO64
      modifies this, dataBlock, filterBlock
      ensures Consistent() && dataBlock.cells == [] && |dataBlock.buffer| == 0 && |dataBlock.restarts| == 1
      ensures entries == old(entries) && (pendingIndexEntry <==> blocks != [])
      ensures filterBlock.FilterBytes() == old(filterBlock.FilterBytes())
    {
      hide Filtered, FB.FilterBlockBuilder.Valid, BlockBuilder.Valid, IsBlock, Trailer, AllStored, HoldsAll;
      if dataBlock.Empty() {
        return;
      }
      var data := dataBlock.Finish();
      ghost var s := Stored(dataBlock.cells, dataBlock.starts, |file|, data);
      IsChained(data, s.cells, s.starts);
      SomeEntry(cmp.less, blocks, s.cells, entries);
      var tail := Trailer(extend, data);
      ShapeFlush(cmp, user, file, blocks, indexBlock.cells, entries, s, tail);
      FilteredFlush(file, blocks, s, filterBlock.added, file + data + tail);
      pendingHandle := (|file|, |data|);
      file := file + data + tail;
      dataBlock.Reset();
      blocks := blocks + [s];
      pendingIndexEntry := true;
      filterBlock.StartBlock(|file|);
    }

    /** The finished table. Its filter serves as long as its offsets fit. */
    method Finish() returns (t: Table)
      requires Valid() && TableLaws(cmp, user) && NoFalseNegatives(filterBlock.policy, user)
      requires blockSize + 64 < TWO32 && |file| + TWO32 + TRAILER_SIZE < TWO64
      requires |indexBlock.buffer| + 4 * |indexBlock.restarts| + |cmp.successor(lastKey)| + 64 < TWO32
      modifies this, dataBlock, indexBlock, filterBlock
      ensures entries == old(entries)
      ensures old(filterBlock.FilterBytes()) < TWO32 ==>
                IsTable(t, cmp, user, filterBlock.policy, blocks, indexBlock.cells, indexBlock.starts, entries)
    {
      hide Filtered, TableLaws, NoFalseNegatives, FB.FilterBlockBuilder.Valid, BlockBuilder.Valid, IsBlock;
      hide HoldsAll, AllStored, IndexedSoFar;
      ghost var bytes := filterBlock.FilterBytes();
      Flush();
      var filter := filterBlock.Finish();
      ghost var more := [];
      ghost var index := indexBlock.cells;
      if pendingIndexEntry {
        AddIndexEntry(cmp.successor(lastKey));
        Snoc(index, indexBlock.cells);
        more := [indexBlock.cells[|index|]];
      }
      assert indexBlock.cells == index + more;
      var indexData := indexBlock.Finish();
      ShapeIndexed(cmp, user, file, blocks, index, entries, more);
      t := Table(file, indexData, Some(filter));
      if bytes < TWO32 {
        CoverAll(cmp, user, filterBlock.policy, filter, file, blocks, filterBlock.added);
        TableIs(t, cmp, user, filterBlock.policy, blocks, indexBlock.cells, indexBlock.starts, entries);
      }
    }
  }

  /** What the filter block promises, block by block. */
  lemma CoverAll(c: Comparator, user: Bytes -> Bytes, policy: Policy, filter: Bytes, file: Bytes, blocks: seq<Stored>,
                 added: set<(nat, Bytes)>)
    requires NoFalseNegatives(policy, user) && Filtered(file, blocks, [], added)
    requires forall offset: nat, key: Bytes, k: Bytes ::
               (offset / FB.BASE, key) in added && user(key) == user(k) ==> FB.KeyMayMatch(policy, filter, offset, k)
    ensures forall b :: 0 <= b < |blocks| ==> FilterCovers(policy, user, filter, blocks[b])
  {
    hide FB.KeyMayMatch, NoFalseNegatives;
    forall b, i, k: Bytes | 0 <= b < |blocks| && 0 <= i < |blocks[b].cells| && user(blocks[b].cells[i].key) == user(k)
      ensures FB.KeyMayMatch(policy, filter, blocks[b].offset, k)
    {
      assert (blocks[b].offset / FB.BASE, blocks[b].cells[i].key) in added;
    }
  }

  lemma TableIs(t: Table, c: Comparator, user: Bytes -> Bytes, policy: Policy, blocks: seq<Stored>, index: seq<Cell>,
                starts: seq<nat>, entries: seq<Pair>)
    requires TableLaws(c, user) && AllStored(t.file, blocks)
    requires HoldsAll(c.less, blocks, [], entries) && entries == AllPairs(CellsOf(blocks))
    requires forall b :: 0 <= b < |blocks| ==> t.filter.Some? ==> FilterCovers(policy, user, t.filter.value, blocks[b])
    requires IsBlock(t.indexData, index, starts) && |index| == |blocks|
    requires Indexed(c, user, CellsOf(blocks), KeysOf(index))
    requires forall b :: 0 <= b < |blocks| ==> HasHandle(index[b], blocks[b])
    ensures IsTable(t, c, user, policy, blocks, index, starts, entries)
  {
    hide WeakOrder, SortedPairs, AllPairs, FilterCovers, StoredIn, HasHandle, Indexed, IsBlock;
  }

  /** Looking a key up in the table that a builder makes. */
  method FinishAndGet(b: TableBuilder, k: Bytes) returns (r: Option<Pair>)
    requires b.Valid() && TableLaws(b.cmp, b.user) && NoFalseNegatives(b.filterBlock.policy, b.user)
    requires b.blockSize + 64 < TWO32 && |b.file| + TWO32 + TRAILER_SIZE < TWO64
    requires |b.indexBlock.buffer| + 4 * |b.indexBlock.restarts| + |b.cmp.successor(b.lastKey)| + 64 < TWO32
    requires b.filterBlock.FilterBytes() < TWO32
    modifies b, b.dataBlock, b.indexBlock, b.filterBlock
    ensures Answers(b.cmp.less, b.user, old(b.entries), k, r)
  {
    hide TableLaws, NoFalseNegatives, IsTable, Answers, BlockBuilder.Valid, FB.FilterBlockBuilder.Valid;
    hide Shape, Filtered;
    var t := b.Finish();
    r := InternalGet(t, b.cmp, b.user, b.filterBlock.policy, b.blocks, b.indexBlock.cells, b.indexBlock.starts,
                     b.entries, k);
  }

  /** Version::Get on one table of internal keys: Get and SaveValue on the table of any
      builder find the newest of a user key's entries that the snapshot sees. */
  method FinishAndRead(b: TableBuilder, user: Comparator, ghost keys: seq<Parsed>, u: Bytes,
                       s: DbFormat.SequenceNumber)
    returns (r: Saver)
    requires b.Valid() && b.cmp == Internal(user) && b.user == UserPart && UserLaws(user)
    requires NoFalseNegatives(b.filterBlock.policy, UserPart)
    requires Keys(b.entries, keys) && Told(user.less, keys, u)
    requires b.blockSize + 64 < TWO32 && |b.file| + TWO32 + TRAILER_SIZE < TWO64
    requires |b.indexBlock.buffer| + 4 * |b.indexBlock.restarts| + |b.cmp.successor(b.lastKey)| + 64 < TWO32
    requires b.filterBlock.FilterBytes() < TWO32
    modifies b, b.dataBlock, b.indexBlock, b.filterBlock
    ensures |keys| == |old(b.entries)| && Reads(old(b.entries), keys, u, s, r)
  {
    hide TableLaws, NoFalseNegatives, Answers, BlockBuilder.Valid, FB.FilterBlockBuilder.Valid, WeakOrder;
    hide Filtered, Told, Reads, Encoded, UserPart, SaveValue;
    ghost var entries := b.entries;
    InternalForTables(user);
    assert SortedPairs(b.cmp.less, entries);
    var reported := FinishAndGet(b, Encoded(Parsed(u, s, DbFormat.TypeValue)));
    LookupReads(user, entries, keys, u, s, reported);
    r := SaveValue(user.less, u, reported);
  }

  /** The tables of a database meet what lookups need: internal keys over the
      bytewise order, and a bloom filter on user keys. */
  lemma DatabaseTables(hash: Bloom.Hash, bitsPerKey: nat)
    ensures TableLaws(Internal(Bytewise()), UserPart)
    ensures NoFalseNegatives(ViewPolicy(Bloom.BloomPolicy(hash, bitsPerKey), UserPart), UserPart)
    ensures forall keys: seq<Parsed>, u: Bytes :: Told(Bytewise().less, keys, u)
  {
    forall keys: seq<Parsed>, u: Bytes ensures Told(Bytewise().less, keys, u) {
      forall i | 0 <= i < |keys| && Same(Bytewise().less, keys[i].user, u) ensures keys[i].user == u {
        BytesTotal(keys[i].user, u);
      }
    }
    hide TableLaws, NoFalseNegatives, UserLaws;
    BytewiseLaws();
    InternalForTables(Bytewise());
    Bloom.BloomHasNoFalseNegatives(hash, bitsPerKey);
    ViewPolicyKeeps(Bloom.BloomPolicy(hash, bitsPerKey), UserPart);
  }

  /** When the filter of a finished block keeps a lookup from reading: exactly when its
      block's group of keys is empty or leaves a bit of the key's probes unset. */
  lemma FilterSaysNo(hash: Bloom.Hash, bitsPerKey: nat, groups: seq<seq<Bytes>>, contents: Bytes, offset: nat, k: Bytes)
    requires FB.IsFilterBlock(Bloom.BloomPolicy(hash, bitsPerKey), groups, contents)
    ensures !FB.KeyMayMatch(Bloom.BloomPolicy(hash, bitsPerKey), contents, offset, k) <==>
              && offset / FB.BASE < |groups|
              && var keys := groups[offset / FB.BASE];
              && var n, bits := Bloom.NumProbes(bitsPerKey), 8 * Bloom.NumBytes(|keys|, bitsPerKey);
              && (keys == [] || exists j: nat ::
                                  j < n && !Bloom.SetBySome(hash, keys, n, bits, Bloom.ProbeAt(hash, k, j, bits)))
  {
    hide Bloom.KeyMayMatch, Bloom.Filter, Bloom.SetBySome, Bloom.ProbeAt, FB.IsFilterBlock, FB.KeyMayMatch;
    FB.ReaderExact(Bloom.BloomPolicy(hash, bitsPerKey), groups, contents, offset, k);
    if offset / FB.BASE < |groups| {
      Bloom.MatchMeans(hash, bitsPerKey, groups[offset / FB.BASE], k);
      Bloom.EmptySaysNo(hash, k);
    }
  }

  /** Sequences that agree up to their last element. */
  lemma Snoc<T>(before: seq<T>, after: seq<T>)
    requires |after| == |before| + 1 && after[..|before|] == before
    ensures after == before + [after[|before|]]
  {
  }

  ghost predicate HandleOf(blocks: seq<Stored>, handle: (Uint64, Uint64)) {
    blocks != [] && handle.0 == blocks[|blocks| - 1].offset && handle.1 == |blocks[|blocks| - 1].data|
  }

  lemma HandleSize(offset: Uint64, size: Uint64)
    ensures |EncodeHandle(offset, size)| <= 20
  {
    hide Varint;
    VarintLength(offset, 10);
    VarintLength(size, 10);
  }
}
