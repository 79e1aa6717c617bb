/** The memtable (db/memtable.cc): a skip list of entries. */
module MemTables {
  import opened Options
  import opened DbFormat
  import opened SkipLinks
  import opened SkipList

  ghost predicate HasNode(keys: seq<Key>, nodes: set<nat>, e: Entry) {
    exists x: nat :: x in nodes && x < |keys| && keys[x] == e
  }

  /** A level's nodes hold a list's entries. */
  ghost predicate Holds(a: Arena, nodes: set<nat>, entries: seq<Entry>) {
    && InArena(a, nodes) && SortedEntries(entries)
    && (forall x :: x in nodes ==> a.keys[x] in entries)
    && (forall i :: 0 <= i < |entries| ==> HasNode(a.keys, nodes, entries[i]))
  }

  lemma NodeOf(a: Arena, nodes: set<nat>, entries: seq<Entry>, i: nat) returns (x: nat)
    requires Holds(a, nodes, entries) && i < |entries|
    ensures x in nodes && a.keys[x] == entries[i]
  {
    assert HasNode(a.keys, nodes, entries[i]);
    x :| x in nodes && x < |a.keys| && a.keys[x] == entries[i];
  }

  lemma IndexOf(a: Arena, nodes: set<nat>, entries: seq<Entry>, x: nat) returns (i: nat)
    requires Holds(a, nodes, entries) && x in nodes
    ensures i < |entries| && a.keys[x] == entries[i]
  {
    i :| 0 <= i < |entries| && entries[i] == a.keys[x];
  }

  /** Sorted entries compare as their places do. */
  lemma PlacesCompare(entries: seq<Entry>, i: nat, j: nat)
    requires SortedEntries(entries) && i < |entries| && j < |entries|
    ensures Lt(entries[i], entries[j]) <==> i < j
  {
    if i > j {
      assert Less(entries[j].key, entries[i].key);
    } else if i < j {
      assert Less(entries[i].key, entries[j].key);
    }
  }

  /** The node after the one for place i - 1, or after the head, is for place i. */
  lemma NextPlace(a: Arena, nodes: set<nat>, entries: seq<Entry>, x: nat, i: nat, n: Option<nat>)
    requires Holds(a, nodes, entries) && i <= |entries|
    requires if i == 0 then x == HEAD else x in nodes && a.keys[x] == entries[i - 1]
    requires Successor(a, nodes, x, n)
    ensures n == None <==> i == |entries|
    ensures n.Some? ==> n.value in nodes && i < |entries| && a.keys[n.value] == entries[i]
  {
    hide Lt;
    if i < |entries| {
      var y := NodeOf(a, nodes, entries, i);
      if i > 0 {
        PlacesCompare(entries, i - 1, i);
      }
      assert After(a, x, y);
    }
    if n.Some? {
      var j := IndexOf(a, nodes, entries, n.value);
      if i > 0 {
        PlacesCompare(entries, i - 1, j);
      }
      if i < |entries| {
        PlacesCompare(entries, i, j);
      }
    }
  }

  /** A search for a key ends at the place where a seek of the list does. */
  lemma SeekPlace(a: Arena, nodes: set<nat>, entries: seq<Entry>, target: Entry, n: Option<nat>)
    requires Holds(a, nodes, entries) && FirstFrom(a, nodes, Some(target), n)
    ensures var i := SeekIndex(entries, target.key);
            n.Some? <==> i < |entries|
    ensures n.Some? ==> a.keys[n.value] == entries[SeekIndex(entries, target.key)]
  {
    var i := SeekIndex(entries, target.key);
    if i < |entries| {
      var y := NodeOf(a, nodes, entries, i);
      assert !Below(Some(target), a.keys[y]);
    }
    if n.Some? {
      var j := IndexOf(a, nodes, entries, n.value);
      assert j >= i;
      if i < |entries| {
        PlacesCompare(entries, i, j);
      }
    }
  }

  /** RandomHeight, from what the generator gives. */
  function HeightOf(random: nat): (height: nat)
    ensures 0 < height <= MAX_HEIGHT
  {
    1 + random % MAX_HEIGHT
  }

  class MemTable {
    const table: List
    ghost var entries: seq<Entry>

    ghost predicate Valid()
      reads this, table
      ensures Valid() ==> SortedEntries(entries)
    {
      table.Valid() && Holds(table.arena, table.levels[0], entries)
    }

    constructor ()
      ensures Valid() && fresh(table) && entries == []
    {
      table := new List();
      entries := [];
    }

    method Add(e: Entry, random: nat)
      requires Valid() && forall x :: x in entries ==> x.key != e.key
      modifies this, table
      ensures Valid() && entries == InsertEntry(old(entries), e)
    {
      hide InsertEntry, SkipLinks.Valid;
      ghost var nodes, keys := table.levels[0], table.arena.keys;
      InsertEntrySorted(entries, e);
      table.Insert(e, HeightOf(random));
      AddHolds(keys, nodes, entries, table.arena, e);
      entries := InsertEntry(entries, e);
    }

    /** The newest entry for a key that a snapshot sees, if the list has one. */
    method Get(k: UserKey, s: SequenceNumber) returns (hit: Option<Entry>)
      requires Valid()
      ensures hit == ListGet(entries, k, s)
    {
      hide SkipLinks.Valid;
      var target := Entry(SeekKey(k, s), "");
      var iter := new Iterator(table);
      iter.Seek(target);
      SeekPlace(table.arena, table.levels[0], entries, target, iter.node);
      if iter.node.Some? && table.arena.keys[iter.node.value].key.user == k {
        return Some(table.arena.keys[iter.node.value]);
      }
      return None;
    }

    /** The entries as an iterator gives them, from the first on. */
    method Contents() returns (es: seq<Entry>)
      requires Valid()
      ensures es == entries
    {
      hide SkipLinks.Valid, Holds, Successor, List.Valid;
      var iter := new Iterator(table);
      iter.SeekToFirst();
      es := [];
      ghost var i := 0;
      NextPlace(table.arena, table.levels[0], entries, HEAD, 0, iter.node);
      while iter.node.Some?
        invariant fresh(iter) && iter.list == table && iter.Valid() && i <= |entries| && es == entries[..i]
        invariant Holds(table.arena, table.levels[0], entries)
        invariant iter.node == None <==> i == |entries|
        invariant iter.node.Some? ==> iter.node.value in table.levels[0] && iter.node.value < |table.arena.keys|
        invariant iter.node.Some? ==> i < |entries| && table.arena.keys[iter.node.value] == entries[i]
        decreases |entries| - i
      {
        es := es + [table.arena.keys[iter.node.value]];
        ghost var x := iter.node.value;
        iter.Next();
        i := i + 1;
        NextPlace(table.arena, table.levels[0], entries, x, i, iter.node);
      }
    }
  }

  lemma AddHolds(keys: seq<Key>, nodes: set<nat>, entries: seq<Entry>, a: Arena, e: Entry)
    requires SortedEntries(entries) && SortedEntries(InsertEntry(entries, e))
    requires EntrySet(InsertEntry(entries, e)) == EntrySet(entries) + {e}
    requires (forall x :: x in nodes ==> x < |keys| && keys[x] in entries)
    requires (forall i :: 0 <= i < |entries| ==> HasNode(keys, nodes, entries[i]))
    requires a.keys == keys + [e] && InArena(a, nodes + {|keys|})
    ensures Holds(a, nodes + {|keys|}, InsertEntry(entries, e))
  {
    hide InsertEntry;
    var all := InsertEntry(entries, e);
    forall x | x in nodes + {|keys|} ensures a.keys[x] in all {
      assert a.keys[x] in EntrySet(all);
    }
    forall i | 0 <= i < |all| ensures HasNode(a.keys, nodes + {|keys|}, all[i]) {
      assert all[i] in EntrySet(all);
      if all[i] == e {
        assert a.keys[|keys|] == e;
      } else {
        assert all[i] in EntrySet(entries);
        var j :| 0 <= j < |entries| && entries[j] == all[i];
        var x: nat :| x in nodes && x < |keys| && keys[x] == entries[j];
        assert a.keys[x] == all[i];
      }
    }
  }
}
