/** MergingIterator (table/merger.cc): a cursor over the sorted merge of its
    children, in both directions. */
module Merger {
  import opened Options
  import opened DbFormat

  /** Entries of list before merged[m]. */
  ghost function Below(merged: seq<Entry>, list: seq<Entry>, m: nat): nat
    requires SortedEntries(list) && m <= |merged|
  {
    if m == |merged| then |list| else SeekIndex(list, merged[m].key)
  }

  /** merged is the sorted merge of the lists, whose keys are all distinct. */
  ghost predicate IsMerge(merged: seq<Entry>, lists: seq<seq<Entry>>) {
    && SortedEntries(merged)
    && (forall i :: 0 <= i < |lists| ==> SortedEntries(lists[i]))
    && (forall i, e :: 0 <= i < |lists| && e in lists[i] ==> e in merged)
    && (forall e :: e in merged ==> exists i :: 0 <= i < |lists| && e in lists[i])
    && (forall i, j, e :: 0 <= i < j < |lists| && e in lists[i] ==> e !in lists[j])
  }

  lemma SeekIndexIs(es: seq<Entry>, target: InternalKey, i: nat)
    requires SortedEntries(es) && i <= |es|
    requires i > 0 ==> Less(es[i - 1].key, target)
    requires i < |es| ==> AtMost(target, es[i].key)
    ensures SeekIndex(es, target) == i
  {
  }

  lemma Owner(merged: seq<Entry>, lists: seq<seq<Entry>>, m: nat) returns (c: nat, j: nat)
    requires IsMerge(merged, lists) && m < |merged|
    ensures c < |lists| && j < |lists[c]| && lists[c][j] == merged[m]
    ensures Below(merged, lists[c], m) == j
  {
    assert merged[m] in merged;
    c :| 0 <= c < |lists| && merged[m] in lists[c];
    j :| 0 <= j < |lists[c]| && lists[c][j] == merged[m];
    if j > 0 { assert Less(lists[c][j - 1].key, lists[c][j].key); }
    SeekIndexIs(lists[c], merged[m].key, j);
  }

  /** Where an entry of a child sits in the merge. */
  lemma AtIndex(merged: seq<Entry>, lists: seq<seq<Entry>>, i: nat, j: nat) returns (x: nat)
    requires IsMerge(merged, lists) && i < |lists| && j < |lists[i]|
    ensures x < |merged| && merged[x] == lists[i][j]
  {
    assert lists[i][j] in lists[i];
    assert lists[i][j] in merged;
    x :| 0 <= x < |merged| && merged[x] == lists[i][j];
  }

  /** Below in terms of positions in the merge. */
  lemma BelowIs(merged: seq<Entry>, lists: seq<seq<Entry>>, m: nat, i: nat, j: nat) returns (x: nat)
    requires IsMerge(merged, lists) && m <= |merged| && i < |lists| && j < |lists[i]|
    ensures x < |merged| && merged[x] == lists[i][j]
    ensures j < Below(merged, lists[i], m) <==> x < m
  {
    x := AtIndex(merged, lists, i, j);
    if m < |merged| {
      if x < m { assert Less(merged[x].key, merged[m].key); }
      if m < x { assert Less(merged[m].key, merged[x].key); }
    }
  }

  /** Moving past merged[m] moves only the child that holds it. */
  lemma BelowStep(merged: seq<Entry>, lists: seq<seq<Entry>>, m: nat, c: nat, i: nat)
    requires IsMerge(merged, lists) && m < |merged| && c < |lists| && i < |lists|
    requires merged[m] in lists[c]
    ensures Below(merged, lists[i], m + 1) == Below(merged, lists[i], m) + (if i == c then 1 else 0)
  {
    var list, b := lists[i], Below(merged, lists[i], m);
    var b' := Below(merged, list, m + 1);
    // b' cannot be smaller than b, and what lies between is exactly merged[m].
    if b' < b {
      var _ := BelowIs(merged, lists, m, i, b');
    }
    if b < b' {
      var x := BelowIs(merged, lists, m, i, b);
      var y := BelowIs(merged, lists, m + 1, i, b);
      Same(merged, x, y);
      assert list[b] == merged[m];
      assert i == c;
      if b + 1 < b' {
        var _ := BelowIs(merged, lists, m + 1, i, b + 1);
      }
    } else if i == c {
      var j :| 0 <= j < |list| && list[j] == merged[m];
      var x := BelowIs(merged, lists, m, i, j);
      var y := BelowIs(merged, lists, m + 1, i, j);
      Same(merged, x, m);
      Same(merged, y, m);
    }
  }

  lemma Same(merged: seq<Entry>, x: nat, y: nat)
    requires SortedEntries(merged) && x < |merged| && y < |merged| && merged[x] == merged[y]
    ensures x == y
  {
  }

  // ----- child cursors -----

  /** Position that marks a child of length n as not valid after stepping back
      from the first entry. */
  function StepBack(p: nat, n: nat): nat {
    if p == 0 then n else p - 1
  }

  /** Steps over an entry with the given key, if the child stands on one. */
  function SkipKey(list: seq<Entry>, p: nat, key: InternalKey): nat {
    if p < |list| && list[p].key == key then p + 1 else p
  }

  /** Where a child stands when the iterator runs backwards at merged[..m]:
      on its last entry before merged[m], or not valid. */
  ghost function LastBelow(merged: seq<Entry>, list: seq<Entry>, m: nat): nat
    requires SortedEntries(list) && m <= |merged|
  {
    StepBack(Below(merged, list, m), |list|)
  }

  lemma SmallestIsNext(merged: seq<Entry>, lists: seq<seq<Entry>>, pos: seq<nat>, m: nat, smallest: Option<nat>)
    requires IsMerge(merged, lists) && |pos| == |lists| && m <= |merged|
    requires forall i :: 0 <= i < |lists| ==> pos[i] == Below(merged, lists[i], m)
    requires smallest.None? ==> forall i :: 0 <= i < |lists| ==> pos[i] >= |lists[i]|
    requires smallest.Some? ==>
               && smallest.value < |lists| && pos[smallest.value] < |lists[smallest.value]|
               && forall i :: 0 <= i < |lists| && pos[i] < |lists[i]| ==>
                    AtMost(lists[smallest.value][pos[smallest.value]].key, lists[i][pos[i]].key)
    ensures smallest.Some? <==> m < |merged|
    ensures smallest.Some? ==> lists[smallest.value][pos[smallest.value]] == merged[m]
  {
    if m < |merged| {
      var c, j := Owner(merged, lists, m);
      if smallest.Some? {
        var _ := BelowIs(merged, lists, m, smallest.value, pos[smallest.value]);
      }
    }
  }

  lemma LargestIsPrevious(merged: seq<Entry>, lists: seq<seq<Entry>>, pos: seq<nat>, m: nat, largest: Option<nat>)
    requires IsMerge(merged, lists) && |pos| == |lists| && m <= |merged|
    requires forall i :: 0 <= i < |lists| ==> pos[i] == LastBelow(merged, lists[i], m)
    requires largest.None? ==> forall i :: 0 <= i < |lists| ==> pos[i] >= |lists[i]|
    requires largest.Some? ==>
               && largest.value < |lists| && pos[largest.value] < |lists[largest.value]|
               && forall i :: 0 <= i < |lists| && pos[i] < |lists[i]| ==>
                    AtMost(lists[i][pos[i]].key, lists[largest.value][pos[largest.value]].key)
    ensures largest.Some? <==> m > 0
    ensures largest.Some? ==> lists[largest.value][pos[largest.value]] == merged[m - 1]
  {
    if m > 0 {
      var c, j := Owner(merged, lists, m - 1);
      BelowStep(merged, lists, m - 1, c, c);
      assert pos[c] == j;
      var _ := BelowIs(merged, lists, m, largest.value, pos[largest.value]);
    } else {
      forall i | 0 <= i < |lists| ensures pos[i] == |lists[i]| { NothingBelow(merged, lists, i); }
    }
  }

  datatype Direction = Forward | Reverse

  class MergingIterator {
    const lists: seq<seq<Entry>>
    const pos: array<nat>
    var current: Option<nat>
    var direction: Direction
    /** The merge and the iterator's place in it; |merged| when not valid. */
    ghost const merged: seq<Entry>
    ghost var cursor: nat

    ghost predicate Valid()
      reads this, pos
      ensures Valid() ==> SortedEntries(merged) && cursor <= |merged| && (current.Some? <==> cursor < |merged|)
    {
      && IsMerge(merged, lists) && pos.Length == |lists| && cursor <= |merged|
      && (current.Some? <==> cursor < |merged|)
      && (current.Some? ==>
            && current.value < |lists| && pos[current.value] < |lists[current.value]|
            && lists[current.value][pos[current.value]] == merged[cursor]
            && (direction.Forward? ==> forall i :: 0 <= i < |lists| ==> pos[i] == Below(merged, lists[i], cursor))
            && (direction.Reverse? ==>
                  forall i :: 0 <= i < |lists| ==> pos[i] == LastBelow(merged, lists[i], cursor + 1)))
    }

    constructor (lists: seq<seq<Entry>>, ghost merged: seq<Entry>)
      requires IsMerge(merged, lists)
      ensures Valid() && fresh(pos) && cursor == |merged|
      ensures this.lists == lists && this.merged == merged
    {
      this.lists := lists;
      this.pos := new nat[|lists|](_ => 0);
      this.merged := merged;
      current, direction, cursor := None, Forward, |merged|;
    }

    function Current(): (e: Entry)
      requires Valid() && current.Some?
      reads this, pos
      ensures e == merged[cursor]
    {
      lists[current.value][pos[current.value]]
    }

    method FindSmallest(ghost m: nat)
      requires IsMerge(merged, lists) && pos.Length == |lists| && m <= |merged|
      requires forall i :: 0 <= i < |lists| ==> pos[i] == Below(merged, lists[i], m)
      modifies this`current, this`cursor, this`direction
      ensures direction == Forward && cursor == m && Valid()
    {
      var smallest: Option<nat> := None;
      for i := 0 to |lists|
        invariant smallest.None? ==> forall j :: 0 <= j < i ==> pos[j] >= |lists[j]|
        invariant smallest.Some? ==>
                    && smallest.value < i && pos[smallest.value] < |lists[smallest.value]|
                    && forall j :: 0 <= j < i && pos[j] < |lists[j]| ==>
                         AtMost(lists[smallest.value][pos[smallest.value]].key, lists[j][pos[j]].key)
      {
        if pos[i] < |lists[i]| {
          if smallest.None? {
            smallest := Some(i);
          } else if Less(lists[i][pos[i]].key, lists[smallest.value][pos[smallest.value]].key) {
            smallest := Some(i);
          }
        }
      }
      SmallestIsNext(merged, lists, pos[..], m, smallest);
      current, direction, cursor := smallest, Forward, m;
    }

    method FindLargest(ghost m: nat)
      requires IsMerge(merged, lists) && pos.Length == |lists| && m <= |merged|
      requires forall i :: 0 <= i < |lists| ==> pos[i] == LastBelow(merged, lists[i], m)
      modifies this`current, this`cursor, this`direction
      ensures direction == Reverse && cursor == (if m == 0 then |merged| else m - 1) && Valid()
    {
      var largest: Option<nat> := None;
      var i := |lists|;
      while i > 0
        invariant 0 <= i <= |lists|
        invariant largest.None? ==> forall j :: i <= j < |lists| ==> pos[j] >= |lists[j]|
        invariant largest.Some? ==>
                    && i <= largest.value < |lists| && pos[largest.value] < |lists[largest.value]|
                    && forall j :: i <= j < |lists| && pos[j] < |lists[j]| ==>
                         AtMost(lists[j][pos[j]].key, lists[largest.value][pos[largest.value]].key)
      {
        i := i - 1;
        if pos[i] < |lists[i]| {
          if largest.None? {
            largest := Some(i);
          } else if Less(lists[largest.value][pos[largest.value]].key, lists[i][pos[i]].key) {
            largest := Some(i);
          }
        }
      }
      LargestIsPrevious(merged, lists, pos[..], m, largest);
      current, direction, cursor := largest, Reverse, if m == 0 then |merged| else m - 1;
    }

    method SeekToFirst()
      requires Valid()
      modifies this`current, this`cursor, this`direction, pos
      ensures Valid() && cursor == 0
    {
      for i := 0 to |lists|
        invariant forall j :: 0 <= j < i ==> pos[j] == 0
      {
        pos[i] := 0;
      }
      forall i | 0 <= i < |lists| ensures pos[i] == Below(merged, lists[i], 0) {
        NothingBelow(merged, lists, i);
      }
      FindSmallest(0);
    }

    method SeekToLast()
      requires Valid()
      modifies this`current, this`cursor, this`direction, pos
      ensures Valid() && cursor == (if merged == [] then 0 else |merged| - 1)
    {
      for i := 0 to |lists|
        invariant forall j :: 0 <= j < i ==> pos[j] == StepBack(|lists[j]|, |lists[j]|)
      {
        pos[i] := if lists[i] == [] then 0 else |lists[i]| - 1;
      }
      FindLargest(|merged|);
    }

    method Seek(target: InternalKey)
      requires Valid()
      modifies this`current, this`cursor, this`direction, pos
      ensures Valid() && cursor == SeekIndex(merged, target)
    {
      ghost var m := SeekIndex(merged, target);
      for i := 0 to |lists|
        invariant forall j :: 0 <= j < i ==> pos[j] == Below(merged, lists[j], m)
      {
        pos[i] := SeekIndex(lists[i], target);
        SeekChild(merged, lists, i, target);
      }
      FindSmallest(m);
    }

    method Next()
      requires Valid() && current.Some?
      modifies this`current, this`cursor, this`direction, pos
      ensures Valid() && cursor == old(cursor) + 1
    {
      ghost var m := cursor;
      var c := current.value;
      var key := Current().key;
      OwnerKnown(merged, lists, m, c, pos[c]);
      if direction != Forward {
        for i := 0 to |lists|
          modifies pos
          invariant forall j :: 0 <= j < i && j != c ==> pos[j] == Below(merged, lists[j], m)
          invariant pos[c] == Below(merged, lists[c], m)
        {
          if i != c {
            pos[i] := SkipKey(lists[i], SeekIndex(lists[i], key), key);
            OtherChild(merged, lists, m, c, i);
          }
        }
      }
      pos[c] := pos[c] + 1;
      forall i | 0 <= i < |lists| ensures pos[i] == Below(merged, lists[i], m + 1) {
        BelowStep(merged, lists, m, c, i);
      }
      FindSmallest(m + 1);
    }

    method Prev()
      requires Valid() && current.Some?
      modifies this`current, this`cursor, this`direction, pos
      ensures Valid() && cursor == (if old(cursor) == 0 then |merged| else old(cursor) - 1)
    {
      ghost var m := cursor;
      var c := current.value;
      var key := Current().key;
      OwnerKnown(merged, lists, m, c, pos[c]);
      if direction != Reverse {
        for i := 0 to |lists|
          modifies pos
          invariant forall j :: 0 <= j < i && j != c ==> pos[j] == LastBelow(merged, lists[j], m)
          invariant pos[c] == Below(merged, lists[c], m)
        {
          if i != c {
            pos[i] := SeekIndex(lists[i], key);
            if pos[i] < |lists[i]| {
              pos[i] := StepBack(pos[i], |lists[i]|);
            } else {
              pos[i] := if lists[i] == [] then 0 else |lists[i]| - 1;
            }
          }
        }
      } else {
        forall i | 0 <= i < |lists| && i != c ensures pos[i] == LastBelow(merged, lists[i], m) {
          BelowStep(merged, lists, m, c, i);
        }
      }
      pos[c] := StepBack(pos[c], |lists[c]|);
      FindLargest(m);
    }
  }

  lemma NothingBelow(merged: seq<Entry>, lists: seq<seq<Entry>>, i: nat)
    requires IsMerge(merged, lists) && i < |lists|
    ensures Below(merged, lists[i], 0) == 0
  {
    if lists[i] != [] {
      var _ := BelowIs(merged, lists, 0, i, 0);
    }
  }

  lemma SeekChild(merged: seq<Entry>, lists: seq<seq<Entry>>, i: nat, target: InternalKey)
    requires IsMerge(merged, lists) && i < |lists|
    ensures SeekIndex(lists[i], target) == Below(merged, lists[i], SeekIndex(merged, target))
  {
    var m := SeekIndex(merged, target);
    var b := Below(merged, lists[i], m);
    if b > 0 { var _ := BelowIs(merged, lists, m, i, b - 1); }
    if b < |lists[i]| { var _ := BelowIs(merged, lists, m, i, b); }
    SeekIndexIs(lists[i], target, b);
  }

  lemma OwnerKnown(merged: seq<Entry>, lists: seq<seq<Entry>>, m: nat, c: nat, p: nat)
    requires IsMerge(merged, lists) && m < |merged| && c < |lists| && p < |lists[c]| && lists[c][p] == merged[m]
    ensures p == Below(merged, lists[c], m) && merged[m] in lists[c]
  {
    if p > 0 { assert Less(lists[c][p - 1].key, lists[c][p].key); }
    SeekIndexIs(lists[c], merged[m].key, p);
  }

  /** Keys are distinct across children, so no other child stands on the key. */
  lemma OtherChild(merged: seq<Entry>, lists: seq<seq<Entry>>, m: nat, c: nat, i: nat)
    requires IsMerge(merged, lists) && m < |merged| && c < |lists| && merged[m] in lists[c]
    requires i < |lists| && i != c
    ensures SkipKey(lists[i], SeekIndex(lists[i], merged[m].key), merged[m].key) == Below(merged, lists[i], m)
  {
    var p := SeekIndex(lists[i], merged[m].key);
    if p < |lists[i]| {
      var x := AtIndex(merged, lists, i, p);
      assert lists[i][p] in lists[i];
      if m < x { assert Less(merged[m].key, merged[x].key); }
    }
  }
}
