/** Circular doubly linked lists with a dummy head (db/snapshot.h, util/cache.cc),
    as next and prev links of numbered nodes. */
module Rings {

  datatype Links = Links(next: seq<nat>, prev: seq<nat>)

  /** The way round a ring, from its head back to its head. */
  function Way(head: nat, items: seq<nat>): seq<nat> { [head] + items + [head] }

  predicate Distinct(s: seq<nat>) { forall i, j :: 0 <= i < j < |s| ==> s[i] != s[j] }

  ghost predicate LinkedAt(l: Links, a: nat, b: nat) {
    a < |l.next| && b < |l.prev| && l.next[a] == b && l.prev[b] == a
  }

  /** The items in order after the head, linked both ways, none twice. */
  ghost predicate Ring(l: Links, head: nat, items: seq<nat>)
    ensures Ring(l, head, items) ==> |l.next| == |l.prev|
  {
    && |l.next| == |l.prev|
    && Distinct([head] + items)
    && (forall i :: 0 <= i <= |items| ==> LinkedAt(l, Way(head, items)[i], Way(head, items)[i + 1]))
  }

  lemma RingMembers(l: Links, head: nat, items: seq<nat>)
    requires Ring(l, head, items)
    ensures head < |l.next| && head !in items && forall x :: x in items ==> x < |l.next|
    ensures l.next[head] == (if items == [] then head else items[0])
    ensures l.prev[head] == (if items == [] then head else items[|items| - 1]) < |l.next|
  {
    var w := Way(head, items);
    assert LinkedAt(l, w[0], w[1]) && LinkedAt(l, w[|items|], w[|items| + 1]);
    forall x | x in items ensures x < |l.next| && x != head {
      var i :| 0 <= i < |items| && items[i] == x;
      assert w[i + 1] == x && LinkedAt(l, w[i + 1], w[i + 2]);
      assert ([head] + items)[i + 1] == x && ([head] + items)[0] == head;
    }
  }

  /** Links of nodes outside a ring do not matter to it. */
  lemma RingStays(l: Links, m: Links, head: nat, items: seq<nat>)
    requires Ring(l, head, items) && |m.next| == |m.prev| >= |l.next|
    requires forall x {:trigger m.next[x]} {:trigger m.prev[x]} :: (x == head || x in items) && x < |l.next| ==>
               m.next[x] == l.next[x] && m.prev[x] == l.prev[x]
    ensures Ring(m, head, items)
  {
    var w := Way(head, items);
    forall i | 0 <= i <= |items| ensures LinkedAt(m, w[i], w[i + 1]) {
      assert LinkedAt(l, w[i], w[i + 1]);
      WayMember(head, items, i);
      WayMember(head, items, i + 1);
    }
  }

  lemma WayMember(head: nat, items: seq<nat>, i: nat)
    requires i <= |items| + 1
    ensures var x := Way(head, items)[i]; x == head || x in items
  {
    if 0 < i <= |items| {
      assert Way(head, items)[i] == items[i - 1];
    }
  }

  /** Inserts node e just before the head: the newest entry. */
  function Append(l: Links, head: nat, e: nat): Links
    requires |l.next| == |l.prev| && head < |l.next| && e < |l.next| && l.prev[head] < |l.next|
  {
    var last := l.prev[head];
    var next := l.next[e := head];
    var prev := l.prev[e := last];
    Links(next[last := e], prev[head := e])
  }

  lemma AppendRing(l: Links, head: nat, items: seq<nat>, e: nat)
    requires Ring(l, head, items) && e < |l.next| && e != head && e !in items
    ensures head < |l.next| && l.prev[head] < |l.next| && Ring(Append(l, head, e), head, items + [e])
  {
    RingMembers(l, head, items);
    var m := Append(l, head, e);
    var n, w, v := |items|, Way(head, items), Way(head, items + [e]);
    assert forall i :: 0 <= i <= n ==> v[i] == w[i];
    assert v[n + 1] == e && v[n + 2] == head && w[n + 1] == head;
    assert Distinct([head] + (items + [e])) by {
      assert [head] + (items + [e]) == ([head] + items) + [e];
    }
    forall i | 0 <= i <= n + 1 ensures LinkedAt(m, v[i], v[i + 1]) {
      if i < n {
        assert LinkedAt(l, w[i], w[i + 1]);
        Apart(head, items, i, n);
        WayMember(head, items, i);
        WayMember(head, items, i + 1);
        assert w[i + 1] == items[i];
      }
    }
  }

  /** Two places on the way, not both the head, hold different nodes. */
  lemma Apart(head: nat, items: seq<nat>, i: nat, j: nat)
    requires Distinct([head] + items) && i < j <= |items|
    ensures Way(head, items)[i] != Way(head, items)[j]
  {
    var s := [head] + items;
    assert Way(head, items)[i] == s[i] && Way(head, items)[j] == s[j];
  }

  /** Takes node e out: its neighbours are linked to each other. */
  function Remove(l: Links, e: nat): Links
    requires |l.next| == |l.prev| && e < |l.next| && l.next[e] < |l.next| && l.prev[e] < |l.next|
  {
    Links(l.next[l.prev[e] := l.next[e]], l.prev[l.next[e] := l.prev[e]])
  }

  function Without(items: seq<nat>, k: nat): seq<nat>
    requires k < |items|
  {
    items[..k] + items[k + 1..]
  }

  lemma Neighbours(l: Links, head: nat, items: seq<nat>, k: nat)
    requires Ring(l, head, items) && k < |items|
    ensures items[k] < |l.next| && l.prev[items[k]] == Way(head, items)[k] < |l.next|
    ensures l.next[items[k]] == Way(head, items)[k + 2] < |l.next|
  {
    var w := Way(head, items);
    assert w[k + 1] == items[k];
    assert LinkedAt(l, w[k], w[k + 1]) && LinkedAt(l, w[k + 1], w[k + 2]);
  }

  lemma RemoveRing(l: Links, head: nat, items: seq<nat>, k: nat)
    requires Ring(l, head, items) && k < |items|
    ensures items[k] < |l.next| && l.prev[items[k]] < |l.next| && l.next[items[k]] < |l.next|
    ensures Ring(Remove(l, items[k]), head, Without(items, k))
  {
    Neighbours(l, head, items, k);
    var m, rest := Remove(l, items[k]), Without(items, k);
    var n, w, v := |items|, Way(head, items), Way(head, rest);
    assert forall i :: 0 <= i <= k ==> v[i] == w[i];
    assert forall i :: k < i <= n ==> v[i] == w[i + 1];
    assert Distinct([head] + rest) by {
      var s, t := [head] + items, [head] + rest;
      forall i, j | 0 <= i < j < |t| ensures t[i] != t[j] {
        assert t[i] == (if i <= k then s[i] else s[i + 1]) && t[j] == if j <= k then s[j] else s[j + 1];
      }
    }
    forall i | 0 <= i < n ensures LinkedAt(m, v[i], v[i + 1]) {
      StepKept(l, head, items, k, i);
    }
  }

  lemma StepKept(l: Links, head: nat, items: seq<nat>, k: nat, i: nat)
    requires Ring(l, head, items) && k < |items| && i < |items|
    requires items[k] < |l.next| && l.prev[items[k]] == Way(head, items)[k] < |l.next|
    requires l.next[items[k]] == Way(head, items)[k + 2] < |l.next|
    ensures var w := Way(head, items);
      if i < k then LinkedAt(Remove(l, items[k]), w[i], w[i + 1])
      else if i == k then LinkedAt(Remove(l, items[k]), w[k], w[k + 2])
      else LinkedAt(Remove(l, items[k]), w[i + 1], w[i + 2])
  {
    var w := Way(head, items);
    if i < k {
      assert LinkedAt(l, w[i], w[i + 1]);
      Apart(head, items, i, k);
      if k + 2 <= |items| {
        Apart(head, items, i + 1, k + 2);
      } else {
        assert w[i + 1] == items[i] && w[k + 2] == head;
        assert ([head] + items)[0] != ([head] + items)[i + 1];
      }
    } else if i > k {
      assert LinkedAt(l, w[i + 1], w[i + 2]);
      Apart(head, items, k, i + 1);
      if i + 2 <= |items| {
        Apart(head, items, k + 2, i + 2);
      } else {
        assert w[k + 2] == items[k + 1] && w[i + 2] == head;
        assert ([head] + items)[0] != ([head] + items)[k + 2];
      }
    }
  }
}
