/** One shard of the cache (util/cache.cc, LRUCache). Handles are numbered; 0 and 1
    are the dummy heads of the two lists. */
module LruCaches {
  import opened Options
  import opened Coding
  import opened Rings
  import HT = HandleTables

  const LRU: nat := 0
  const IN_USE: nat := 1

  // ----- two rings -----

  ghost predicate TwoRings(l: Links, lru: seq<nat>, inUse: seq<nat>) {
    && Ring(l, LRU, lru) && Ring(l, IN_USE, inUse)
    && (forall x :: x in lru ==> x !in inUse && x > IN_USE)
    && (forall x :: x in inUse ==> x > IN_USE)
  }

  /** Taking a node out of one ring, or putting one in, leaves a ring without common
      nodes alone. */
  lemma RemoveOther(l: Links, head: nat, items: seq<nat>, k: nat, other: nat, others: seq<nat>)
    requires Ring(l, head, items) && Ring(l, other, others) && k < |items| && head != other
    requires head !in others && other !in items && forall x :: x in items ==> x !in others
    ensures items[k] < |l.next| && l.prev[items[k]] < |l.next| && l.next[items[k]] < |l.next|
    ensures Ring(Remove(l, items[k]), other, others)
  {
    RemoveRing(l, head, items, k);
    Neighbours(l, head, items, k);
    WayMember(head, items, k);
    WayMember(head, items, k + 2);
    hide Ring;
    RingStays(l, Remove(l, items[k]), other, others);
  }

  lemma AppendOther(l: Links, head: nat, items: seq<nat>, e: nat, other: nat, others: seq<nat>)
    requires Ring(l, head, items) && Ring(l, other, others)
    requires e < |l.next| && e != other && e !in others && head != other
    requires head !in others && other !in items && forall x :: x in items ==> x !in others
    ensures head < |l.next| && l.prev[head] < |l.next| && Ring(Append(l, head, e), other, others)
  {
    RingMembers(l, head, items);
    hide Ring;
    RingStays(l, Append(l, head, e), other, others);
  }

  lemma WithoutMembers(items: seq<nat>, k: nat)
    requires k < |items| && Distinct(items)
    ensures forall x :: x in Without(items, k) <==> x in items && x != items[k]
  {
    var rest := Without(items, k);
    assert forall i :: 0 <= i < |rest| ==> rest[i] == if i < k then items[i] else items[i + 1];
    forall x | x in items && x != items[k] ensures x in rest {
      var i :| 0 <= i < |items| && items[i] == x;
      assert rest[if i < k then i else i - 1] == x;
    }
  }

  lemma RingDistinct(l: Links, head: nat, items: seq<nat>)
    requires Ring(l, head, items)
    ensures Distinct(items)
  {
    var s := [head] + items;
    assert forall i :: 0 <= i < |items| ==> s[i + 1] == items[i];
  }

  // ----- charges -----

  function Charge(charges: seq<nat>, x: nat): nat { if x < |charges| then charges[x] else 0 }

  function Sum(charges: seq<nat>, items: seq<nat>): nat {
    if items == [] then 0 else Charge(charges, items[0]) + Sum(charges, items[1..])
  }

  lemma {:induction false} SumConcat(charges: seq<nat>, a: seq<nat>, b: seq<nat>)
    ensures Sum(charges, a + b) == Sum(charges, a) + Sum(charges, b)
  {
    if a == [] {
      assert a + b == b;
    } else {
      assert (a + b)[1..] == a[1..] + b;
      SumConcat(charges, a[1..], b);
    }
  }

  lemma SumOne(charges: seq<nat>, x: nat)
    ensures Sum(charges, [x]) == Charge(charges, x)
  {
    assert Sum(charges, [x][1..]) == 0;
  }

  lemma SumWithout(charges: seq<nat>, items: seq<nat>, k: nat)
    requires k < |items|
    ensures Sum(charges, items) == Sum(charges, Without(items, k)) + Charge(charges, items[k])
  {
    hide Sum;
    var a, b := items[..k], items[k + 1..];
    assert items == a + ([items[k]] + b);
    SumConcat(charges, a, [items[k]] + b);
    SumConcat(charges, [items[k]], b);
    SumConcat(charges, a, b);
    SumOne(charges, items[k]);
  }

  lemma SumSnoc(charges: seq<nat>, items: seq<nat>, e: nat)
    ensures Sum(charges, items + [e]) == Sum(charges, items) + Charge(charges, e)
  {
    hide Sum;
    SumConcat(charges, items, [e]);
    SumOne(charges, e);
  }

  lemma {:induction false} SumGrows(charges: seq<nat>, more: nat, items: seq<nat>)
    requires forall i :: 0 <= i < |items| ==> items[i] < |charges|
    ensures Sum(charges + [more], items) == Sum(charges, items)
  {
    if items != [] {
      SumGrows(charges, more, items[1..]);
    }
  }

  // ----- the state between calls -----

  /** What the handles are: refs counts the clients' handles and the cache's own. */
  datatype Core = Core(charges: seq<nat>, inCache: seq<bool>, refs: seq<nat>, links: Links, usage: nat,
                       deleted: seq<nat>)

  ghost predicate Sized(c: Core) {
    2 <= |c.charges| == |c.inCache| == |c.refs| == |c.links.next| == |c.links.prev|
  }

  ghost predicate Handle(c: Core, x: nat) { IN_USE < x < |c.refs| }

  /** In the cache and unused: on the LRU list. In the cache and in use: on the
      other. Each entry in the cache is on exactly one. */
  ghost predicate Placed(c: Core, lru: seq<nat>, inUse: seq<nat>)
    requires Sized(c)
  {
    && (forall x: nat {:trigger x in lru} :: x in lru <==> Handle(c, x) && c.inCache[x] && c.refs[x] == 1)
    && (forall x: nat {:trigger x in inUse} :: x in inUse <==> Handle(c, x) && c.inCache[x] && c.refs[x] >= 2)
  }

  /** A reference for each client's handle and one for the cache. */
  ghost predicate Counted(c: Core, clients: seq<nat>)
    requires Sized(c)
  {
    |clients| == |c.refs| && forall x: nat :: Handle(c, x) ==> c.refs[x] == clients[x] + if c.inCache[x] then 1 else 0
  }

  /** A deleter has run exactly for the handles without references, and once. */
  ghost predicate Deleted(c: Core)
    requires Sized(c)
  {
    Distinct(c.deleted) && forall x: nat {:trigger x in c.deleted} :: x in c.deleted <==> Handle(c, x) && c.refs[x] == 0
  }

  ghost predicate Inv(c: Core, lru: seq<nat>, inUse: seq<nat>, clients: seq<nat>) {
    && Sized(c) && TwoRings(c.links, lru, inUse) && Placed(c, lru, inUse) && Counted(c, clients) && Deleted(c)
    && c.usage == Sum(c.charges, lru) + Sum(c.charges, inUse)
  }

  // ----- moves between the lists -----

  lemma MoveRings(l: Links, lru: seq<nat>, inUse: seq<nat>, k: nat)
    requires TwoRings(l, lru, inUse) && k < |lru|
    ensures lru[k] < |l.next| && l.prev[lru[k]] < |l.next| && l.next[lru[k]] < |l.next|
    ensures TwoRings(Remove(l, lru[k]), Without(lru, k), inUse) && lru[k] !in Without(lru, k)
  {
    RingMembers(l, LRU, lru);
    RingMembers(l, IN_USE, inUse);
    RingDistinct(l, LRU, lru);
    WithoutMembers(lru, k);
    RemoveRing(l, LRU, lru, k);
    RemoveOther(l, LRU, lru, k, IN_USE, inUse);
  }

  lemma MoveRingsBack(l: Links, lru: seq<nat>, inUse: seq<nat>, k: nat)
    requires TwoRings(l, lru, inUse) && k < |inUse|
    ensures inUse[k] < |l.next| && l.prev[inUse[k]] < |l.next| && l.next[inUse[k]] < |l.next|
    ensures TwoRings(Remove(l, inUse[k]), lru, Without(inUse, k)) && inUse[k] !in Without(inUse, k)
  {
    RingMembers(l, LRU, lru);
    RingMembers(l, IN_USE, inUse);
    RingDistinct(l, IN_USE, inUse);
    WithoutMembers(inUse, k);
    RemoveRing(l, IN_USE, inUse, k);
    RemoveOther(l, IN_USE, inUse, k, LRU, lru);
  }

  lemma JoinInUse(l: Links, lru: seq<nat>, inUse: seq<nat>, e: nat)
    requires TwoRings(l, lru, inUse) && IN_USE < e < |l.next| && e !in lru && e !in inUse
    ensures IN_USE < |l.next| && l.prev[IN_USE] < |l.next| && TwoRings(Append(l, IN_USE, e), lru, inUse + [e])
  {
    RingMembers(l, LRU, lru);
    RingMembers(l, IN_USE, inUse);
    AppendRing(l, IN_USE, inUse, e);
    AppendOther(l, IN_USE, inUse, e, LRU, lru);
  }

  lemma JoinLru(l: Links, lru: seq<nat>, inUse: seq<nat>, e: nat)
    requires TwoRings(l, lru, inUse) && IN_USE < e < |l.next| && e !in lru && e !in inUse
    ensures LRU < |l.next| && l.prev[LRU] < |l.next| && TwoRings(Append(l, LRU, e), lru + [e], inUse)
  {
    RingMembers(l, LRU, lru);
    RingMembers(l, IN_USE, inUse);
    AppendRing(l, LRU, lru, e);
    AppendOther(l, LRU, lru, e, IN_USE, inUse);
  }

  // ----- references -----

  /** One reference of e is about to go: it is counted in refs, and by no one. */
  ghost predicate OneTooMany(c: Core, clients: seq<nat>, e: nat)
    requires Sized(c) && Handle(c, e)
  {
    && |clients| == |c.refs| && c.refs[e] == clients[e] + (if c.inCache[e] then 1 else 0) + 1
    && (forall x: nat :: Handle(c, x) && x != e ==> c.refs[x] == clients[x] + if c.inCache[x] then 1 else 0)
  }

  ghost predicate Losing(c: Core, lru: seq<nat>, inUse: seq<nat>, clients: seq<nat>, e: nat) {
    && Sized(c) && Handle(c, e) && TwoRings(c.links, lru, inUse)
    && Placed(c, lru, inUse) && OneTooMany(c, clients, e) && Deleted(c)
    && c.usage == Sum(c.charges, lru) + Sum(c.charges, inUse)
  }

  lemma LastReference(c: Core, lru: seq<nat>, inUse: seq<nat>, clients: seq<nat>, e: nat)
    requires Losing(c, lru, inUse, clients, e) && c.refs[e] == 1
    ensures Inv(c.(refs := c.refs[e := 0], deleted := c.deleted + [e]), lru, inUse, clients)
  {
    hide TwoRings, Sum;
    assert e !in c.deleted;
  }

  lemma LeavesUse(c: Core, lru: seq<nat>, inUse: seq<nat>, clients: seq<nat>, e: nat, k: nat)
    requires Losing(c, lru, inUse, clients, e) && c.refs[e] == 2 && c.inCache[e] && k < |inUse| && inUse[k] == e
    ensures c.links.prev[e] < |c.refs| && c.links.next[e] < |c.refs| && Remove(c.links, e).prev[LRU] < |c.refs|
    ensures Inv(c.(refs := c.refs[e := 1], links := Append(Remove(c.links, e), LRU, e)),
                lru + [e], Without(inUse, k), clients)
  {
    hide Sum;
    MoveRingsBack(c.links, lru, inUse, k);
    RingDistinct(c.links, IN_USE, inUse);
    WithoutMembers(inUse, k);
    hide TwoRings;
    JoinLru(Remove(c.links, e), lru, Without(inUse, k), e);
    SumWithout(c.charges, inUse, k);
    SumSnoc(c.charges, lru, e);
  }

  lemma StillReferenced(c: Core, lru: seq<nat>, inUse: seq<nat>, clients: seq<nat>, e: nat)
    requires Losing(c, lru, inUse, clients, e) && c.refs[e] > 1 && (c.inCache[e] ==> c.refs[e] > 2)
    ensures Inv(c.(refs := c.refs[e := c.refs[e] - 1]), lru, inUse, clients)
  {
    hide TwoRings, Sum;
  }

  lemma EntersUse(c: Core, lru: seq<nat>, inUse: seq<nat>, clients: seq<nat>, e: nat, k: nat)
    requires Inv(c, lru, inUse, clients) && Handle(c, e) && c.refs[e] == 1 && c.inCache[e] && k < |lru| && lru[k] == e
    ensures c.links.prev[e] < |c.refs| && c.links.next[e] < |c.refs| && Remove(c.links, e).prev[IN_USE] < |c.refs|
    ensures Inv(c.(refs := c.refs[e := 2], links := Append(Remove(c.links, e), IN_USE, e)),
                Without(lru, k), inUse + [e], clients[e := clients[e] + 1])
  {
    hide Sum;
    MoveRings(c.links, lru, inUse, k);
    RingDistinct(c.links, LRU, lru);
    WithoutMembers(lru, k);
    hide TwoRings;
    JoinInUse(Remove(c.links, e), Without(lru, k), inUse, e);
    SumWithout(c.charges, lru, k);
    SumSnoc(c.charges, inUse, e);
  }

  lemma OneMore(c: Core, lru: seq<nat>, inUse: seq<nat>, clients: seq<nat>, e: nat)
    requires Inv(c, lru, inUse, clients) && Handle(c, e) && c.refs[e] > 0 && (c.inCache[e] ==> c.refs[e] > 1)
    ensures Inv(c.(refs := c.refs[e := c.refs[e] + 1]), lru, inUse, clients[e := clients[e] + 1])
  {
    hide TwoRings, Sum;
  }

  /** A client gives its handle back. */
  lemma GivenBack(c: Core, lru: seq<nat>, inUse: seq<nat>, clients: seq<nat>, e: nat)
    requires Inv(c, lru, inUse, clients) && Handle(c, e) && clients[e] > 0
    ensures Losing(c, lru, inUse, clients[e := clients[e] - 1], e) && c.refs[e] > 0
  {
    hide TwoRings, Sum;
  }

  /** The cache drops an entry, from either list. */
  lemma DropUnused(c: Core, lru: seq<nat>, inUse: seq<nat>, clients: seq<nat>, e: nat, k: nat)
    requires Inv(c, lru, inUse, clients) && k < |lru| && lru[k] == e
    ensures Handle(c, e) && c.links.prev[e] < |c.refs| && c.links.next[e] < |c.refs| && c.usage >= c.charges[e]
    ensures Losing(c.(links := Remove(c.links, e), inCache := c.inCache[e := false], usage := c.usage - c.charges[e]),
                   Without(lru, k), inUse, clients, e)
  {
    hide Sum;
    assert e in lru;
    MoveRings(c.links, lru, inUse, k);
    RingDistinct(c.links, LRU, lru);
    WithoutMembers(lru, k);
    hide TwoRings;
    SumWithout(c.charges, lru, k);
  }

  lemma DropUsed(c: Core, lru: seq<nat>, inUse: seq<nat>, clients: seq<nat>, e: nat, k: nat)
    requires Inv(c, lru, inUse, clients) && k < |inUse| && inUse[k] == e
    ensures Handle(c, e) && c.links.prev[e] < |c.refs| && c.links.next[e] < |c.refs| && c.usage >= c.charges[e]
    ensures Losing(c.(links := Remove(c.links, e), inCache := c.inCache[e := false], usage := c.usage - c.charges[e]),
                   lru, Without(inUse, k), clients, e)
  {
    hide Sum;
    assert e in inUse;
    MoveRingsBack(c.links, lru, inUse, k);
    RingDistinct(c.links, IN_USE, inUse);
    WithoutMembers(inUse, k);
    hide TwoRings;
    SumWithout(c.charges, inUse, k);
  }

  // ----- new handles -----

  /** A handle for a client alone. */
  function Fresh(c: Core, charge: nat): Core {
    c.(charges := c.charges + [charge], inCache := c.inCache + [false], refs := c.refs + [1],
       links := Links(c.links.next + [LRU], c.links.prev + [LRU]))
  }

  lemma FreshInv(c: Core, lru: seq<nat>, inUse: seq<nat>, clients: seq<nat>, charge: nat)
    requires Inv(c, lru, inUse, clients)
    ensures Inv(Fresh(c, charge), lru, inUse, clients + [1])
  {
    var d := Fresh(c, charge);
    RingMembers(c.links, LRU, lru);
    RingMembers(c.links, IN_USE, inUse);
    RingStays(c.links, d.links, LRU, lru);
    RingStays(c.links, d.links, IN_USE, inUse);
    assert forall i :: 0 <= i < |lru| ==> lru[i] in lru;
    assert forall i :: 0 <= i < |inUse| ==> inUse[i] in inUse;
    SumGrows(c.charges, charge, lru);
    SumGrows(c.charges, charge, inUse);
    hide TwoRings, Sum, Ring;
    assert TwoRings(d.links, lru, inUse) by {
      TwoRingsOf(c.links, d.links, lru, inUse);
    }
  }

  lemma TwoRingsOf(l: Links, m: Links, lru: seq<nat>, inUse: seq<nat>)
    requires TwoRings(l, lru, inUse) && Ring(m, LRU, lru) && Ring(m, IN_USE, inUse)
    ensures TwoRings(m, lru, inUse)
  {
  }

  /** The cache takes a reference of its own on a new handle. */
  lemma Cached(c: Core, lru: seq<nat>, inUse: seq<nat>, clients: seq<nat>, e: nat)
    requires Inv(c, lru, inUse, clients) && Handle(c, e) && c.refs[e] == 1 && !c.inCache[e]
    ensures c.links.prev[IN_USE] < |c.refs|
    ensures Inv(c.(refs := c.refs[e := 2], inCache := c.inCache[e := true], links := Append(c.links, IN_USE, e),
                   usage := c.usage + c.charges[e]),
                lru, inUse + [e], clients)
  {
    hide Sum;
    assert e !in lru && e !in inUse;
    JoinInUse(c.links, lru, inUse, e);
    hide TwoRings;
    SumSnoc(c.charges, inUse, e);
  }

  // ----- the cache -----

  /** The table holds exactly the handles in the cache. */
  ghost predicate InTable(c: Core, ids: set<nat>)
    requires Sized(c)
  {
    forall x: nat {:trigger x in ids} :: x in ids <==> Handle(c, x) && c.inCache[x]
  }

  /** after is before without e, where that is in it. */
  ghost predicate Took(before: seq<nat>, after: seq<nat>, e: nat) {
    if e in before then exists k :: 0 <= k < |before| && before[k] == e && after == Without(before, k)
    else after == before
  }

  /** The same for an entry that there may not be. */
  ghost predicate TookIf(before: seq<nat>, after: seq<nat>, e: Option<nat>) {
    if e.Some? then Took(before, after, e.value) else after == before
  }

  ghost predicate IsSuffix(rest: seq<nat>, items: seq<nat>) {
    |rest| <= |items| && rest == items[|items| - |rest|..]
  }

  /** Entries were dropped from the front, one after the other, until the usage fit
      or none was left, and not one more than it took. */
  ghost predicate EvictedTo(c: Core, before: seq<nat>, after: seq<nat>, limit: nat) {
    && IsSuffix(after, before) && (c.usage <= limit || after == [])
    && (|after| < |before| ==> c.usage + Charge(c.charges, before[|before| - |after| - 1]) > limit)
  }

  lemma SuffixNext(rest: seq<nat>, items: seq<nat>)
    requires IsSuffix(rest, items) && rest != []
    ensures IsSuffix(rest[1..], items) && items[|items| - |rest|] == rest[0]
  {
  }

  lemma IndexOf(items: seq<nat>, e: nat) returns (k: nat)
    requires e in items
    ensures k < |items| && items[k] == e
  {
    k :| 0 <= k < |items| && items[k] == e;
  }

  class LRUCache {
    const capacity: nat
    const table: HT.HandleTable
    var keys: seq<Bytes>
    var core: Core
    ghost var lru: seq<nat>
    ghost var inUse: seq<nat>
    /** How many handles clients hold of each entry. */
    ghost var clients: seq<nat>

    ghost predicate Valid()
      reads this, table
    {
      && Inv(core, lru, inUse, clients)
      && |keys| == |core.refs| && table.Valid(keys) && InTable(core, HT.Ids(table.list))
    }

    constructor (capacity: nat, hash: HT.Hash)
      ensures Valid() && fresh(table) && this.capacity == capacity && core.usage == 0
    {
      var t := new HT.HandleTable(hash);
      HT.TableGrows(hash, [], [], t.list);
      HT.TableGrows(hash, [] + [[]], [], t.list);
      this.capacity, table, keys := capacity, t, [] + [[]] + [[]];
      core := Core([0, 0], [false, false], [0, 0], Links([LRU, IN_USE], [LRU, IN_USE]), 0, []);
      lru, inUse, clients := [], [], [0, 0];
    }

    method Ref(e: nat)
      requires Inv(core, lru, inUse, clients) && Handle(core, e) && core.refs[e] > 0
      modifies `core, `lru, `inUse, `clients
      ensures Inv(core, lru, inUse, clients) && |core.refs| == |old(core.refs)|
      ensures clients == old(clients)[e := old(clients)[e] + 1]
      ensures core.inCache == old(core.inCache) && core.charges == old(core.charges)
      ensures core.usage == old(core.usage) && core.deleted == old(core.deleted)
      ensures Took(old(lru), lru, e)
    {
      hide TwoRings, Sum, Deleted, Counted;
      ClientsSized(core, lru, inUse, clients);
      if core.refs[e] == 1 && core.inCache[e] {
        ghost var k := IndexOf(lru, e);
        EntersUse(core, lru, inUse, clients, e, k);
        core := core.(links := Append(Remove(core.links, e), IN_USE, e), refs := core.refs[e := 2]);
        lru, inUse, clients := Without(lru, k), inUse + [e], clients[e := clients[e] + 1];
      } else {
        OneMore(core, lru, inUse, clients, e);
        core := core.(refs := core.refs[e := core.refs[e] + 1]);
        clients := clients[e := clients[e] + 1];
      }
    }

    method Unref(e: nat)
      requires Losing(core, lru, inUse, clients, e) && core.refs[e] > 0
      modifies `core, `lru, `inUse
      ensures Inv(core, lru, inUse, clients) && |core.refs| == |old(core.refs)|
      ensures core.inCache == old(core.inCache) && core.charges == old(core.charges) && core.usage == old(core.usage)
      ensures core.deleted == old(core.deleted) + if clients[e] == 0 && !core.inCache[e] then [e] else []
      ensures lru == old(lru) + if clients[e] == 0 && core.inCache[e] then [e] else []
      ensures !core.inCache[e] ==> inUse == old(inUse)
    {
      hide TwoRings, Sum, Deleted;
      if core.refs[e] == 1 {
        LastReference(core, lru, inUse, clients, e);
        core := core.(refs := core.refs[e := 0], deleted := core.deleted + [e]);
      } else if core.inCache[e] && core.refs[e] == 2 {
        ghost var k := IndexOf(inUse, e);
        LeavesUse(core, lru, inUse, clients, e, k);
        core := core.(refs := core.refs[e := 1], links := Append(Remove(core.links, e), LRU, e));
        lru, inUse := lru + [e], Without(inUse, k);
      } else {
        StillReferenced(core, lru, inUse, clients, e);
        core := core.(refs := core.refs[e := core.refs[e] - 1]);
      }
    }

    /** Drops an entry that is no longer in the table. */
    method FinishErase(e: nat)
      requires Inv(core, lru, inUse, clients) && Handle(core, e) && core.inCache[e]
      modifies `core, `lru, `inUse
      ensures Inv(core, lru, inUse, clients) && |core.refs| == |old(core.refs)|
      ensures core.inCache == old(core.inCache)[e := false] && core.charges == old(core.charges)
      ensures core.usage + core.charges[e] == old(core.usage)
      ensures core.deleted == old(core.deleted) + if clients[e] == 0 then [e] else []
      ensures Took(old(lru), lru, e) && Took(old(inUse), inUse, e)
    {
      hide TwoRings, Sum, Deleted, Counted, OneTooMany;
      ghost var k;
      if core.refs[e] == 1 {
        k := IndexOf(lru, e);
        DropUnused(core, lru, inUse, clients, e, k);
        lru := Without(lru, k);
      } else {
        InUseIf(core, lru, inUse, clients, e);
        k := IndexOf(inUse, e);
        DropUsed(core, lru, inUse, clients, e, k);
        inUse := Without(inUse, k);
      }
      core := core.(links := Remove(core.links, e), inCache := core.inCache[e := false],
                    usage := core.usage - core.charges[e]);
      LosingRefs(core, lru, inUse, clients, e);
      Unref(e);
    }

    /** Adds an entry and hands it to the caller. An entry with the same key leaves
        the cache; so do unused ones, oldest first, while the cache is too full.
        Without capacity the entry is the caller's alone. */
    method Insert(key: Bytes, charge: nat) returns (e: nat, ghost replaced: Option<nat>, ghost left: seq<nat>)
      requires Valid()
      modifies this, table
      ensures Valid() && e == |old(keys)| && keys == old(keys) + [key] && clients == old(clients) + [1]
      ensures core.charges == old(core.charges) + [charge]
      ensures Handle(core, e) && (core.inCache[e] <==> capacity > 0)
      ensures replaced.Some? ==> replaced.value < e && old(core.inCache)[replaced.value] && keys[replaced.value] == key
      ensures capacity > 0 ==> forall x: nat :: Handle(core, x) && core.inCache[x] && x != e ==> keys[x] != key
      ensures if capacity > 0 then TookIf(old(inUse) + [e], inUse, replaced)
              else inUse == old(inUse) && replaced == None
      ensures TookIf(old(lru), left, replaced) && EvictedTo(core, left, lru, capacity)
    {
      hide TwoRings, Sum, Deleted, HT.Ids, HT.Table, Counted, Inv, InTable, Took, EvictedTo;
      e := NewHandle(key, charge);
      replaced := None;
      if capacity > 0 {
        replaced := CacheHandle(e);
      }
      left := lru;
      ListsAreCache(core, lru, inUse, clients, e);
      Evict(capacity);
      if capacity > 0 {
        CachedOnce(core, lru, inUse, clients, table.hash, keys, table.list, e);
      } else {
        EvictedWere(core, left, lru, capacity, e);
        ListsAreCache(core, lru, inUse, clients, e);
      }
    }

    method NewHandle(key: Bytes, charge: nat) returns (e: nat)
      requires Valid()
      modifies this
      ensures Valid() && e == |old(keys)| && keys == old(keys) + [key] && clients == old(clients) + [1]
      ensures Sized(core) && Handle(core, e) && core.refs[e] == 1 && !core.inCache[e] && clients[e] > 0
      ensures lru == old(lru) && inUse == old(inUse) && core.charges == old(core.charges) + [charge]
      ensures core.inCache == old(core.inCache) + [false]
    {
      hide TwoRings, Sum, Deleted, HT.Ids, HT.Table, Placed;
      e := |core.refs|;
      FreshInv(core, lru, inUse, clients, charge);
      HT.TableGrows(table.hash, keys, key, table.list);
      core, clients, keys := Fresh(core, charge), clients + [1], keys + [key];
    }

    method CacheHandle(e: nat) returns (ghost replaced: Option<nat>)
      requires Valid() && Sized(core) && Handle(core, e) && core.refs[e] == 1 && !core.inCache[e] && clients[e] > 0
      modifies this, table
      ensures Valid() && keys == old(keys) && clients == old(clients)
      ensures core.charges == old(core.charges) && Handle(core, e) && e in inUse
      ensures replaced.Some? ==>
                && replaced.value < |keys| && replaced.value != e && old(core.inCache)[replaced.value]
                && keys[replaced.value] == keys[e]
      ensures TookIf(old(lru), lru, replaced) && TookIf(old(inUse) + [e], inUse, replaced)
    {
      hide TwoRings, Sum, Deleted, HT.Ids, HT.Table, Placed;
      Cached(core, lru, inUse, clients, e);
      core := core.(refs := core.refs[e := 2], inCache := core.inCache[e := true],
                    links := Append(core.links, IN_USE, e),
                    usage := core.usage + core.charges[e]);
      inUse := inUse + [e];
      var was := table.Insert(keys, e);
      replaced := was;
      if was.Some? {
        FinishErase(was.value);
      }
      HeldInUse(core, lru, inUse, clients, e);
    }

    method Lookup(key: Bytes) returns (r: Option<nat>)
      requires Valid()
      modifies `core, `lru, `inUse, `clients
      ensures Valid() && keys == old(keys) && core.usage == old(core.usage) && core.deleted == old(core.deleted)
      ensures core.inCache == old(core.inCache) && core.charges == old(core.charges) && TookIf(old(lru), lru, r)
      ensures match r
              case Some(e) =>
                && Handle(core, e) && core.inCache[e] && keys[e] == key
                && clients == old(clients)[e := old(clients)[e] + 1]
              case None =>
                clients == old(clients) && forall x: nat :: Handle(core, x) && core.inCache[x] ==> keys[x] != key
    {
      hide TwoRings, Sum, Deleted, HT.Ids;
      r := table.Lookup(keys, key);
      if r.Some? {
        InCacheHasRefs(core, lru, inUse, clients, r.value);
        Ref(r.value);
      }
    }

    /** A client gives back a handle that it holds. */
    method Release(e: nat)
      requires Valid() && Handle(core, e) && clients[e] > 0
      modifies `core, `lru, `inUse, `clients
      ensures Valid() && keys == old(keys) && core.usage == old(core.usage) && core.inCache == old(core.inCache)
      ensures clients == old(clients)[e := old(clients)[e] - 1]
      ensures core.charges == old(core.charges)
      ensures core.deleted == old(core.deleted) + if clients[e] == 0 && !core.inCache[e] then [e] else []
      ensures lru == old(lru) + if clients[e] == 0 && core.inCache[e] then [e] else []
    {
      hide TwoRings, Sum, Deleted, HT.Ids;
      GivenBack(core, lru, inUse, clients, e);
      clients := clients[e := clients[e] - 1];
      Unref(e);
    }

    method Erase(key: Bytes) returns (ghost erased: Option<nat>)
      requires Valid()
      modifies this, table
      ensures Valid() && keys == old(keys) && clients == old(clients)
      ensures forall x: nat :: Handle(core, x) && core.inCache[x] ==> keys[x] != key
      ensures erased.Some? ==> erased.value < |keys| && keys[erased.value] == key
      ensures core.charges == old(core.charges) && TookIf(old(lru), lru, erased) && TookIf(old(inUse), inUse, erased)
    {
      hide TwoRings, Sum, Deleted, HT.Ids, HT.Table;
      ghost var ids := HT.Ids(table.list);
      ghost var list := table.list;
      var r := table.Remove(keys, key);
      erased := r;
      if r.Some? {
        OthersDiffer(table.hash, keys, list, r.value);
        FinishErase(r.value);
      }
    }

    /** Drops unused entries, the least recently used first, until the rest fits. */
    method Evict(limit: nat)
      requires Valid()
      modifies this, table
      ensures Valid() && keys == old(keys) && clients == old(clients) && core.charges == old(core.charges)
      ensures inUse == old(inUse) && EvictedTo(core, old(lru), lru, limit)
    {
      hide TwoRings, Deleted, HT.Ids, HT.Table, Inv, InTable, HT.Total;
      InvRings(core, lru, inUse, clients);
      while core.usage > limit && core.links.next[LRU] != LRU
        invariant Valid() && keys == old(keys) && clients == old(clients)
        invariant core.charges == old(core.charges) && inUse == old(inUse)
        invariant Sized(core) && core.links.next[LRU] == (if lru == [] then LRU else lru[0])
        invariant (lru != [] ==> lru[0] > IN_USE)
        invariant IsSuffix(lru, old(lru))
        invariant |lru| < |old(lru)| ==> core.usage + Charge(core.charges, old(lru)[|old(lru)| - |lru| - 1]) > limit
        decreases |lru|
      {
        SuffixNext(lru, old(lru));
        EvictOldest();
        InvRings(core, lru, inUse, clients);
      }
    }

    method EvictOldest()
      requires Valid() && lru != [] && Sized(core) && core.links.next[LRU] == lru[0]
      modifies this, table
      ensures Valid() && keys == old(keys) && clients == old(clients) && inUse == old(inUse) && lru == old(lru)[1..]
      ensures core.charges == old(core.charges) && core.usage + Charge(core.charges, old(lru)[0]) == old(core.usage)
    {
      hide TwoRings, Sum, Deleted, HT.Ids, HT.Table;
      var oldest := core.links.next[LRU];
      assert oldest in lru;
      ghost var list := table.list;
      var r := table.Remove(keys, keys[oldest]);
      SameKey(table.hash, keys, list, oldest, r);
      ghost var items := lru;
      assert TwoRings(core.links, lru, inUse);
      LruDistinct(core.links, lru, inUse);
      FinishErase(oldest);
      ghost var k :| 0 <= k < |items| && items[k] == oldest && lru == Without(items, k);
    }

    method Prune()
      requires Valid()
      modifies this, table
      ensures Valid() && keys == old(keys) && clients == old(clients)
      ensures core.charges == old(core.charges) && inUse == old(inUse) && lru == []
    {
      hide TwoRings, Deleted, HT.Ids, HT.Table, Inv, InTable, HT.Total;
      InvRings(core, lru, inUse, clients);
      while core.links.next[LRU] != LRU
        invariant Valid() && keys == old(keys) && clients == old(clients)
        invariant core.charges == old(core.charges) && inUse == old(inUse)
        invariant Sized(core) && core.links.next[LRU] == (if lru == [] then LRU else lru[0])
        invariant (lru != [] ==> lru[0] > IN_USE)
        decreases |lru|
      {
        EvictOldest();
        InvRings(core, lru, inUse, clients);
      }
    }
  }

  /** The entries in the cache are those of the two lists. */
  lemma ListsAreCache(c: Core, lru: seq<nat>, inUse: seq<nat>, clients: seq<nat>, e: nat)
    requires Inv(c, lru, inUse, clients) && Handle(c, e)
    ensures Sized(c) && (c.inCache[e] <==> e in lru || e in inUse)
  {
    hide TwoRings, Sum, Deleted;
  }

  lemma EvictedWere(c: Core, before: seq<nat>, after: seq<nat>, limit: nat, e: nat)
    requires EvictedTo(c, before, after, limit)
    ensures e in after ==> e in before
  {
  }

  lemma ClientsSized(c: Core, lru: seq<nat>, inUse: seq<nat>, clients: seq<nat>)
    requires Inv(c, lru, inUse, clients)
    ensures |clients| == |c.refs|
  {
    hide TwoRings, Sum, Placed, Deleted;
  }

  lemma InvRings(c: Core, lru: seq<nat>, inUse: seq<nat>, clients: seq<nat>)
    requires Inv(c, lru, inUse, clients)
    ensures Sized(c) && c.links.next[LRU] == (if lru == [] then LRU else lru[0]) && (lru != [] ==> lru[0] > IN_USE)
  {
    RingMembers(c.links, LRU, lru);
    hide Ring;
    assert lru != [] ==> lru[0] in lru;
  }

  lemma LruDistinct(l: Links, lru: seq<nat>, inUse: seq<nat>)
    requires TwoRings(l, lru, inUse)
    ensures Distinct(lru)
  {
    RingDistinct(l, LRU, lru);
  }

  lemma HeldInUse(c: Core, lru: seq<nat>, inUse: seq<nat>, clients: seq<nat>, e: nat)
    requires Inv(c, lru, inUse, clients) && Handle(c, e) && c.inCache[e] && clients[e] > 0
    ensures e in inUse
  {
    hide TwoRings, Sum;
  }

  lemma InUseIf(c: Core, lru: seq<nat>, inUse: seq<nat>, clients: seq<nat>, e: nat)
    requires Inv(c, lru, inUse, clients) && Handle(c, e) && c.inCache[e] && c.refs[e] != 1
    ensures e in inUse && e !in lru
  {
    hide TwoRings, Sum;
  }

  lemma InCacheHasRefs(c: Core, lru: seq<nat>, inUse: seq<nat>, clients: seq<nat>, e: nat)
    requires Inv(c, lru, inUse, clients) && Handle(c, e) && c.inCache[e]
    ensures c.refs[e] > 0
  {
    hide TwoRings, Sum;
  }

  lemma LosingRefs(c: Core, lru: seq<nat>, inUse: seq<nat>, clients: seq<nat>, e: nat)
    requires Losing(c, lru, inUse, clients, e)
    ensures c.refs[e] > 0
  {
    hide TwoRings, Sum;
  }

  lemma KeyOnce(hash: HT.Hash, keys: seq<Bytes>, list: seq<seq<nat>>)
    requires HT.Table(hash, keys, list)
    ensures forall x, y :: x in HT.Ids(list) && y in HT.Ids(list) && x != y ==>
              x < |keys| && y < |keys| && keys[x] != keys[y]
  {
    hide HT.Table, HT.Ids;
    forall x, y | x in HT.Ids(list) && y in HT.Ids(list) && x != y
      ensures x < |keys| && y < |keys| && keys[x] != keys[y]
    {
      HT.KeysDiffer(hash, keys, list, x, y);
    }
  }

  lemma CachedOnce(c: Core, lru: seq<nat>, inUse: seq<nat>, clients: seq<nat>, hash: HT.Hash, keys: seq<Bytes>,
                   list: seq<seq<nat>>, e: nat)
    requires Inv(c, lru, inUse, clients) && InTable(c, HT.Ids(list))
    requires HT.Table(hash, keys, list) && e in inUse && |keys| == |c.refs|
    ensures Sized(c) && Handle(c, e) && c.inCache[e]
    ensures forall x: nat :: Handle(c, x) && c.inCache[x] && x != e ==> keys[x] != keys[e]
  {
    hide TwoRings, Sum, HT.Table, HT.Ids;
    KeyOnce(hash, keys, list);
    forall x: nat | Handle(c, x) && c.inCache[x] && x != e ensures keys[x] != keys[e] {
      assert x in HT.Ids(list) && e in HT.Ids(list);
    }
  }

  lemma OthersDiffer(hash: HT.Hash, keys: seq<Bytes>, list: seq<seq<nat>>, e: nat)
    requires HT.Table(hash, keys, list) && e in HT.Ids(list)
    ensures e < |keys| && forall x :: x in HT.Ids(list) && x != e ==> x < |keys| && keys[x] != keys[e]
  {
    hide HT.Table, HT.Ids;
    var _ := HT.ChainOf(hash, keys, list, e);
    forall x | x in HT.Ids(list) && x != e ensures x < |keys| && keys[x] != keys[e] {
      HT.KeysDiffer(hash, keys, list, x, e);
    }
  }

  /** Removing by an entry's key removes that entry. */
  lemma SameKey(hash: HT.Hash, keys: seq<Bytes>, list: seq<seq<nat>>, e: nat, r: Option<nat>)
    requires HT.Table(hash, keys, list) && e in HT.Ids(list) && e < |keys|
    requires r.Some? ==> r.value in HT.Ids(list) && r.value < |keys| && keys[r.value] == keys[e]
    requires r.None? ==> forall x :: x in HT.Ids(list) ==> x < |keys| && keys[x] != keys[e]
    ensures r == Some(e)
  {
    hide HT.Table, HT.Ids;
    if r.Some? && r.value != e {
      HT.KeysDiffer(hash, keys, list, r.value, e);
    }
  }
}
