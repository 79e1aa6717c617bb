/** The hash table of the cache (util/cache.cc, HandleTable): the handles of each
    chain, and the table that links them. */
module HandleTables {
  import opened Options
  import opened Coding
  import opened HashChains

  type Hash = Bytes -> nat

  ghost predicate PowerOfTwo(n: nat) { n == 1 || (n > 1 && n % 2 == 0 && PowerOfTwo(n / 2)) }

  /** hash & (length - 1), for a length that is a power of two. */
  function Slot(h: nat, length: nat): (r: nat)
    requires length > 0
    ensures r < length
  {
    h % length
  }

  ghost predicate Chained(hash: Hash, keys: seq<Bytes>, list: seq<seq<nat>>, b: nat)
    requires b < |list|
  {
    && (forall p :: 0 <= p < |list[b]| ==> list[b][p] < |keys| && Slot(hash(keys[list[b][p]]), |list|) == b)
    && (forall p, q :: 0 <= p < q < |list[b]| ==> keys[list[b][p]] != keys[list[b][q]])
  }

  /** Every handle is in the chain of its hash, and no two handles have one key. */
  ghost predicate Table(hash: Hash, keys: seq<Bytes>, list: seq<seq<nat>>)
    ensures Table(hash, keys, list) ==> |list| > 0
  {
    |list| > 0 && forall b :: 0 <= b < |list| ==> Chained(hash, keys, list, b)
  }

  ghost function Ids(list: seq<seq<nat>>): set<nat> {
    set b, p | 0 <= b < |list| && 0 <= p < |list[b]| :: list[b][p]
  }

  lemma InChain(list: seq<seq<nat>>, b: nat, p: nat)
    requires b < |list| && p < |list[b]|
    ensures list[b][p] in Ids(list)
  {
  }

  lemma ChainOf(hash: Hash, keys: seq<Bytes>, list: seq<seq<nat>>, x: nat) returns (p: nat)
    requires Table(hash, keys, list) && x in Ids(list)
    ensures x < |keys| && var b := Slot(hash(keys[x]), |list|); p < |list[b]| && list[b][p] == x
  {
    var b, q :| 0 <= b < |list| && 0 <= q < |list[b]| && list[b][q] == x;
    assert Chained(hash, keys, list, b);
    p := q;
  }

  lemma KeysDiffer(hash: Hash, keys: seq<Bytes>, list: seq<seq<nat>>, x: nat, y: nat)
    requires Table(hash, keys, list) && x in Ids(list) && y in Ids(list) && x != y
    ensures x < |keys| && y < |keys| && keys[x] != keys[y]
  {
    var p := ChainOf(hash, keys, list, x);
    var q := ChainOf(hash, keys, list, y);
    var b := Slot(hash(keys[x]), |list|);
    assert Chained(hash, keys, list, b);
  }

  /** The handles of the other chains. */
  ghost function Elsewhere(list: seq<seq<nat>>, b: nat): set<nat> {
    set c, p | 0 <= c < |list| && 0 <= p < |list[c]| && c != b :: list[c][p]
  }

  ghost function Members(chain: seq<nat>): set<nat> { set x | x in chain }

  /** A chain put in the place of another. */
  lemma IdsUpdate(list: seq<seq<nat>>, b: nat, chain: seq<nat>)
    requires b < |list|
    ensures Ids(list[b := chain]) == Elsewhere(list, b) + Members(chain)
  {
    var m := list[b := chain];
    forall x | x in Ids(m) ensures x in Elsewhere(list, b) + Members(chain) {
      var c, p :| 0 <= c < |m| && 0 <= p < |m[c]| && m[c][p] == x;
      if c != b {
        assert list[c][p] == x;
      }
    }
    forall x | x in Elsewhere(list, b) + Members(chain) ensures x in Ids(m) {
      if x in chain {
        var p :| 0 <= p < |chain| && chain[p] == x;
        assert m[b][p] == x;
      } else {
        var c, p :| 0 <= c < |list| && 0 <= p < |list[c]| && c != b && list[c][p] == x;
        assert m[c][p] == x;
      }
    }
  }

  lemma IdsParts(list: seq<seq<nat>>, b: nat)
    requires b < |list|
    ensures Ids(list) == Elsewhere(list, b) + Members(list[b])
  {
    IdsUpdate(list, b, list[b]);
    assert list[b := list[b]] == list;
  }

  lemma TableUpdate(hash: Hash, keys: seq<Bytes>, list: seq<seq<nat>>, b: nat, chain: seq<nat>)
    requires Table(hash, keys, list) && b < |list| && Chained(hash, keys, list[b := chain], b)
    ensures Table(hash, keys, list[b := chain])
  {
    var m := list[b := chain];
    forall c | 0 <= c < |list| ensures Chained(hash, keys, m, c) {
      assert Chained(hash, keys, list, c);
    }
  }

  /** Keys of new handles do not matter to the table. */
  lemma TableGrows(hash: Hash, keys: seq<Bytes>, key: Bytes, list: seq<seq<nat>>)
    requires Table(hash, keys, list)
    ensures Table(hash, keys + [key], list)
  {
    forall b | 0 <= b < |list| ensures Chained(hash, keys + [key], list, b) {
      assert Chained(hash, keys, list, b);
    }
  }

  // ----- one handle more or less -----

  /** An update of one chain that trades handle x for others, or drops x. */
  lemma IdsTrade(hash: Hash, keys: seq<Bytes>, list: seq<seq<nat>>, b: nat, p: nat, chain: seq<nat>, more: set<nat>)
    requires Table(hash, keys, list) && b < |list| && p < |list[b]|
    requires Members(chain) == Members(list[b]) - {list[b][p]} + more
    ensures Ids(list[b := chain]) == Ids(list) - {list[b][p]} + more
  {
    hide Ids, Members;
    IdsUpdate(list, b, chain);
    IdsParts(list, b);
    NotElsewhere(hash, keys, list, b, p);
  }

  lemma NotElsewhere(hash: Hash, keys: seq<Bytes>, list: seq<seq<nat>>, b: nat, p: nat)
    requires Table(hash, keys, list) && b < |list| && p < |list[b]|
    ensures list[b][p] !in Elsewhere(list, b)
  {
    hide Slot;
    assert Chained(hash, keys, list, b);
    forall c, q | 0 <= c < |list| && c != b && 0 <= q < |list[c]| ensures list[c][q] != list[b][p] {
      assert Chained(hash, keys, list, c);
    }
  }

  function Put(chain: seq<nat>, p: nat, h: nat): seq<nat>
    requires p < |chain|
  {
    chain[p := h]
  }

  lemma ReplaceAt(hash: Hash, keys: seq<Bytes>, list: seq<seq<nat>>, b: nat, p: nat, h: nat)
    requires Table(hash, keys, list) && b < |list| && p < |list[b]|
    requires h < |keys| && list[b][p] < |keys| && keys[h] == keys[list[b][p]]
    ensures Table(hash, keys, list[b := Put(list[b], p, h)])
    ensures Ids(list[b := Put(list[b], p, h)]) == Ids(list) - {list[b][p]} + {h}
  {
    var chain := Put(list[b], p, h);
    assert Chained(hash, keys, list, b);
    var m := list[b := chain];
    assert Chained(hash, keys, m, b);
    TableUpdate(hash, keys, list, b, chain);
    assert Members(chain) == Members(list[b]) - {list[b][p]} + {h} by {
      assert chain[p] == h;
      forall x | x in list[b] && x != list[b][p] ensures x in chain {
        var q :| 0 <= q < |list[b]| && list[b][q] == x;
        assert chain[q] == x;
      }
    }
    IdsTrade(hash, keys, list, b, p, chain, {h});
  }

  lemma DropAt(hash: Hash, keys: seq<Bytes>, list: seq<seq<nat>>, b: nat, p: nat)
    requires Table(hash, keys, list) && b < |list| && p < |list[b]|
    ensures Table(hash, keys, list[b := list[b][..p] + list[b][p + 1..]])
    ensures Ids(list[b := list[b][..p] + list[b][p + 1..]]) == Ids(list) - {list[b][p]}
  {
    var full := list[b];
    var chain := full[..p] + full[p + 1..];
    assert Chained(hash, keys, list, b);
    var m := list[b := chain];
    assert Chained(hash, keys, m, b) by {
      assert forall q :: 0 <= q < |chain| ==> chain[q] == if q < p then full[q] else full[q + 1];
    }
    TableUpdate(hash, keys, list, b, chain);
    forall x | x in full && x != full[p] ensures x in chain {
      var q :| 0 <= q < |full| && full[q] == x;
      assert chain[if q < p then q else q - 1] == x;
    }
    forall x | x in chain ensures x in full && x != full[p] {
      var q :| 0 <= q < |chain| && chain[q] == x;
      var r := if q < p then q else q + 1;
      assert full[r] == x && keys[full[r]] != keys[full[p]];
    }
    IdsTrade(hash, keys, list, b, p, chain, {});
  }

  /** A handle with a new key, at either end of its chain. */
  lemma ExtendAt(hash: Hash, keys: seq<Bytes>, list: seq<seq<nat>>, h: nat, chain: seq<nat>)
    requires Table(hash, keys, list) && h < |keys| && forall x :: x in Ids(list) ==> x < |keys| && keys[x] != keys[h]
    requires var b := Slot(hash(keys[h]), |list|); chain == list[b] + [h] || chain == [h] + list[b]
    ensures var b := Slot(hash(keys[h]), |list|);
            Table(hash, keys, list[b := chain]) && Ids(list[b := chain]) == Ids(list) + {h}
  {
    hide Ids, Slot;
    var b := Slot(hash(keys[h]), |list|);
    assert Chained(hash, keys, list, b);
    forall p | 0 <= p < |list[b]| ensures keys[list[b][p]] != keys[h] { InChain(list, b, p); }
    var m := list[b := chain];
    assert Chained(hash, keys, m, b);
    TableUpdate(hash, keys, list, b, chain);
    IdsUpdate(list, b, chain);
    IdsParts(list, b);
    assert Members(chain) == Members(list[b]) + {h};
  }

  function Total(list: seq<seq<nat>>): nat {
    if list == [] then 0 else Total(list[..|list| - 1]) + |list[|list| - 1]|
  }

  lemma {:induction false} TotalUpdate(list: seq<seq<nat>>, b: nat, chain: seq<nat>)
    requires b < |list|
    ensures Total(list[b := chain]) == Total(list) - |list[b]| + |chain|
    decreases |list|
  {
    var n := |list| - 1;
    if b < n {
      TotalUpdate(list[..n], b, chain);
      assert list[b := chain][..n] == list[..n][b := chain];
    } else {
      assert list[b := chain][..n] == list[..n];
    }
  }

  /** The handles in front of place p of chain i. */
  ghost function IdsBefore(list: seq<seq<nat>>, i: nat, p: nat): set<nat> {
    set c, q | 0 <= c < |list| && 0 <= q < |list[c]| && (c < i || (c == i && q < p)) :: list[c][q]
  }

  lemma AllBefore(list: seq<seq<nat>>)
    ensures IdsBefore(list, |list|, 0) == Ids(list)
  {
    assert IdsBefore(list, |list|, 0) <= Ids(list);
    forall x | x in Ids(list) ensures x in IdsBefore(list, |list|, 0) {
      var b, p :| 0 <= b < |list| && 0 <= p < |list[b]| && list[b][p] == x;
    }
  }

  lemma ChainDone(list: seq<seq<nat>>, i: nat)
    requires i < |list|
    ensures IdsBefore(list, i, |list[i]|) == IdsBefore(list, i + 1, 0)
  {
    forall x | x in IdsBefore(list, i, |list[i]|) ensures x in IdsBefore(list, i + 1, 0) {
      var c, q :| 0 <= c < |list| && 0 <= q < |list[c]| && (c < i || (c == i && q < |list[i]|)) && list[c][q] == x;
    }
    forall x | x in IdsBefore(list, i + 1, 0) ensures x in IdsBefore(list, i, |list[i]|) {
      var c, q :| 0 <= c < |list| && 0 <= q < |list[c]| && (c < i + 1 || (c == i + 1 && q < 0)) && list[c][q] == x;
    }
  }

  /** The handle at place p of chain i has a key of its own. */
  lemma NewKey(hash: Hash, keys: seq<Bytes>, list: seq<seq<nat>>, i: nat, p: nat)
    requires Table(hash, keys, list) && i < |list| && p < |list[i]|
    ensures list[i][p] < |keys| && forall x :: x in IdsBefore(list, i, p) ==> x < |keys| && keys[x] != keys[list[i][p]]
    ensures IdsBefore(list, i, p + 1) == IdsBefore(list, i, p) + {list[i][p]}
  {
    hide Slot;
    var h := list[i][p];
    assert Chained(hash, keys, list, i);
    forall x | x in IdsBefore(list, i, p) ensures x < |keys| && keys[x] != keys[h] {
      var c, q :| 0 <= c < |list| && 0 <= q < |list[c]| && (c < i || (c == i && q < p)) && list[c][q] == x;
      assert Chained(hash, keys, list, c);
    }
    forall x | x in IdsBefore(list, i, p + 1) ensures x in IdsBefore(list, i, p) + {h} {
      var c, q :| 0 <= c < |list| && 0 <= q < |list[c]| && (c < i || (c == i && q < p + 1)) && list[c][q] == x;
    }
    forall x | x in IdsBefore(list, i, p) + {h} ensures x in IdsBefore(list, i, p + 1) {
      if x != h {
        var c, q :| 0 <= c < |list| && 0 <= q < |list[c]| && (c < i || (c == i && q < p)) && list[c][q] == x;
      }
    }
  }

  lemma NoneBefore(list: seq<seq<nat>>)
    ensures Total(list[..0]) == 0 && IdsBefore(list, 0, 0) == {}
  {
  }

  lemma TotalPrefix(list: seq<seq<nat>>, i: nat)
    requires i < |list|
    ensures Total(list[..i + 1]) == Total(list[..i]) + |list[i]|
  {
    assert list[..i + 1][..i] == list[..i];
  }

  lemma {:induction false} TotalNothing(n: nat)
    ensures Total(seq(n, _ => [])) == 0
  {
    if n > 0 {
      TotalNothing(n - 1);
      assert seq<seq<nat>>(n, _ => [])[..n - 1] == seq<seq<nat>>(n - 1, _ => []);
    }
  }

  lemma TableApart(hash: Hash, keys: seq<Bytes>, list: seq<seq<nat>>)
    requires Table(hash, keys, list)
    ensures Apart(list)
  {
    hide Slot;
    forall b, p, c, q |
      0 <= b < |list| && 0 <= p < |list[b]| && 0 <= c < |list| && 0 <= q < |list[c]| && list[b][p] == list[c][q]
      ensures b == c && p == q
    {
      assert Chained(hash, keys, list, b) && Chained(hash, keys, list, c);
    }
  }

  lemma NotThere(list: seq<seq<nat>>, h: nat)
    requires h !in Ids(list)
    ensures Absent(list, h)
  {
  }

  class HandleTable {
    const hash: Hash
    var elems: nat
    var heads: seq<Option<nat>>
    /** The next_hash field of each handle. */
    var nextHash: Links
    ghost var list: seq<seq<nat>>

    ghost predicate Valid(keys: seq<Bytes>)
      reads this
    {
      && Table(hash, keys, list) && Linked(heads, nextHash, list)
      && elems == Total(list) <= |list| && PowerOfTwo(|list|)
    }

    constructor (hash: Hash)
      ensures Valid([]) && Ids(list) == {} && this.hash == hash
    {
      this.hash, elems, heads, nextHash, list := hash, 0, seq(4, _ => None), map[], seq(4, _ => []);
      TotalNothing(4);
      assert PowerOfTwo(1) && PowerOfTwo(2);
    }

    /** The pointer to the link to the handle with a key, or to the link at the
        end of the chain. */
    method FindPointer(keys: seq<Bytes>, key: Bytes) returns (ptr: Pointer, ghost b: nat, ghost p: nat)
      requires Valid(keys)
      ensures b < |list| && b == Slot(hash(key), |list|) && p <= |list[b]| && Chained(hash, keys, list, b)
      ensures ptr == PointerTo(b, list[b], p) && Points(heads, nextHash, ptr)
      ensures Load(heads, nextHash, ptr) == At(list[b], p)
      ensures forall q :: 0 <= q < p ==> keys[list[b][q]] != key
      ensures p < |list[b]| ==> list[b][p] in Ids(list) && keys[list[b][p]] == key
      ensures p == |list[b]| ==> forall x :: x in Ids(list) ==> x < |keys| && keys[x] != key
    {
      hide Slot, Linked;
      LinkedLength(heads, nextHash, list);
      ptr := Bucket(Slot(hash(key), |heads|));
      b, p := Slot(hash(key), |list|), 0;
      assert Chained(hash, keys, list, b);
      LoadAt(heads, nextHash, list, b, p);
      while Load(heads, nextHash, ptr) != None && keys[Load(heads, nextHash, ptr).value] != key
        invariant p <= |list[b]| && ptr == PointerTo(b, list[b], p) && Points(heads, nextHash, ptr)
        invariant Load(heads, nextHash, ptr) == At(list[b], p)
        invariant forall q :: 0 <= q < p ==> keys[list[b][q]] != key
        decreases |list[b]| - p
      {
        ptr := NextHash(Load(heads, nextHash, ptr).value);
        p := p + 1;
        LoadAt(heads, nextHash, list, b, p);
      }
      if p == |list[b]| {
        forall x | x in Ids(list) ensures x < |keys| && keys[x] != key {
          var q := ChainOf(hash, keys, list, x);
        }
      }
    }

    /** Puts a handle in, in the place of the one with its key if there is one. */
    method Insert(keys: seq<Bytes>, h: nat) returns (was: Option<nat>)
      requires Valid(keys) && h < |keys| && h !in Ids(list)
      modifies this
      ensures Valid(keys)
      ensures was.Some? ==> was.value in old(Ids(list)) && was.value < |keys| && keys[was.value] == keys[h]
      ensures was.Some? ==> Ids(list) == old(Ids(list)) - {was.value} + {h}
      ensures was.None? ==> Ids(list) == old(Ids(list)) + {h}
      ensures was.None? ==> forall x :: x in old(Ids(list)) ==> x < |keys| && keys[x] != keys[h]
    {
      hide Slot, Total, Ids, Linked, Apart, Absent, Table, PointerTo, Points, Load, Store;
      ghost var b, p;
      var ptr;
      ptr, b, p := FindPointer(keys, keys[h]);
      was := Load(heads, nextHash, ptr);
      TableApart(hash, keys, list);
      NotThere(list, h);
      ghost var r := if was.None? then p else p + 1;
      PutLink(heads, nextHash, list, b, p, r, h);
      LinkAfter(heads, nextHash, list, b, p);
      nextHash := nextHash[h := if was.None? then None else nextHash[was.value]];
      var stored := Store(heads, nextHash, ptr, Some(h));
      heads, nextHash := stored.0, stored.1;
      ghost var chain := list[b][..p] + ([h] + list[b][r..]);
      TotalUpdate(list, b, chain);
      if was.None? {
        assert chain == list[b] + [h];
        ExtendAt(hash, keys, list, h, chain);
        list := list[b := chain];
        elems := elems + 1;
        LinkedLength(heads, nextHash, list);
        if elems > |heads| {
          Resize(keys);
        }
      } else {
        assert chain == Put(list[b], p, h);
        ReplaceAt(hash, keys, list, b, p, h);
        list := list[b := chain];
      }
    }

    method Remove(keys: seq<Bytes>, key: Bytes) returns (r: Option<nat>)
      requires Valid(keys)
      modifies this
      ensures Valid(keys)
      ensures r.Some? ==> r.value in old(Ids(list)) && r.value < |keys| && keys[r.value] == key
      ensures r.Some? ==> Ids(list) == old(Ids(list)) - {r.value}
      ensures r.None? ==> Ids(list) == old(Ids(list)) && forall x :: x in Ids(list) ==> x < |keys| && keys[x] != key
    {
      hide Slot, Total, Ids, Linked, Apart, Table, PointerTo, Points, Load, Store;
      ghost var b, p;
      var ptr;
      ptr, b, p := FindPointer(keys, key);
      r := Load(heads, nextHash, ptr);
      if r != None {
        TableApart(hash, keys, list);
        CutLink(heads, nextHash, list, b, p);
        var stored := Store(heads, nextHash, ptr, nextHash[r.value]);
        heads, nextHash := stored.0, stored.1;
        DropAt(hash, keys, list, b, p);
        TotalUpdate(list, b, list[b][..p] + list[b][p + 1..]);
        list := list[b := list[b][..p] + list[b][p + 1..]];
        elems := elems - 1;
      }
    }

    /** Moves every handle to a longer array of chains. */
    method Resize(keys: seq<Bytes>)
      requires Table(hash, keys, list) && Linked(heads, nextHash, list) && elems == Total(list)
      modifies this
      ensures Valid(keys) && Ids(list) == old(Ids(list)) && elems == old(elems)
    {
      hide Slot, Total, Ids, IdsBefore, Table, Linked, Rest, PowerOfTwo;
      var newLength := LengthFor(elems);
      var newHeads: seq<Option<nat>> := seq(newLength, _ => None);
      ghost var newList: seq<seq<nat>> := seq(newLength, _ => []);
      EmptyTable(hash, keys, newLength, nextHash);
      NoneBefore(list);
      AllRest(heads, nextHash, list);
      var count := 0;
      var i := 0;
      while i < |heads|
        modifies `nextHash
        invariant 0 <= i <= |heads| == |list| && |newList| == newLength && Table(hash, keys, newList)
        invariant Total(newList) == count == Total(list[..i])
        invariant Ids(newList) == IdsBefore(list, i, 0)
        invariant Linked(newHeads, nextHash, newList) && Rest(heads, nextHash, list, i)
      {
        newHeads, newList, count := MoveChain(keys, i, newHeads, newList, count);
        TotalPrefix(list, i);
        i := i + 1;
      }
      LinkedLength(newHeads, nextHash, newList);
      assert list[..i] == list;
      AllBefore(list);
      heads, list := newHeads, newList;
    }

    /** The handles of one chain, each put in front of its new chain. */
    method MoveChain(keys: seq<Bytes>, i: nat, into: seq<Option<nat>>, ghost intoList: seq<seq<nat>>, start: nat)
      returns (newHeads: seq<Option<nat>>, ghost newList: seq<seq<nat>>, count: nat)
      requires Table(hash, keys, list) && i < |heads| == |list| && Rest(heads, nextHash, list, i)
      requires Table(hash, keys, intoList) && Linked(into, nextHash, intoList)
      requires Total(intoList) == start && Ids(intoList) == IdsBefore(list, i, 0)
      modifies `nextHash
      ensures |newList| == |intoList| && Table(hash, keys, newList) && Linked(newHeads, nextHash, newList)
      ensures Total(newList) == count == start + |list[i]| && Ids(newList) == IdsBefore(list, i + 1, 0)
      ensures Rest(heads, nextHash, list, i + 1)
    {
      hide Slot, Total, Ids, IdsBefore, Table, Linked, Rest, Apart, Absent, Runs, PointerTo, Points, Store;
      newHeads, newList, count := into, intoList, start;
      TableApart(hash, keys, list);
      RestSplit(heads, nextHash, list, i);
      var h := heads[i];
      ghost var p := 0;
      while h != None
        invariant 0 <= p <= |list[i]| && |newList| == |intoList| && Table(hash, keys, newList)
        invariant Total(newList) == count == start + p && Ids(newList) == IdsBefore(list, i, p)
        invariant Linked(newHeads, nextHash, newList)
        invariant Rest(heads, nextHash, list, i + 1) && Runs(nextHash, h, list[i][p..])
        decreases |list[i]| - p
      {
        RunsHead(nextHash, h, list[i], p);
        ghost var links := nextHash;
        var next := nextHash[h.value];
        newHeads, newList := MoveHandle(keys, i, p, h.value, newHeads, newList);
        RestFrame(heads, links, list, i, p, h, nextHash[h.value]);
        h, p, count := next, p + 1, count + 1;
      }
      RunsEnd(nextHash, h, list[i], p);
      ChainDone(list, i);
    }

    /** The handle at place p of chain i put in front of its new chain. */
    method MoveHandle(keys: seq<Bytes>, ghost i: nat, ghost p: nat, h: nat, into: seq<Option<nat>>,
                      ghost intoList: seq<seq<nat>>)
      returns (newHeads: seq<Option<nat>>, ghost newList: seq<seq<nat>>)
      requires Table(hash, keys, list) && i < |list| && p < |list[i]| && h == list[i][p]
      requires Table(hash, keys, intoList) && Linked(into, nextHash, intoList) && Ids(intoList) == IdsBefore(list, i, p)
      modifies `nextHash
      ensures |newList| == |intoList| && Table(hash, keys, newList) && Linked(newHeads, nextHash, newList)
      ensures Total(newList) == Total(intoList) + 1 && Ids(newList) == IdsBefore(list, i, p + 1)
      ensures h in nextHash && nextHash == old(nextHash)[h := nextHash[h]]
    {
      hide Slot, Total, Ids, IdsBefore, Table, Apart, Absent, Runs;
      NewKey(hash, keys, list, i, p);
      LinkedLength(into, nextHash, intoList);
      var b := Slot(hash(keys[h]), |into|);
      TableApart(hash, keys, intoList);
      NotThere(intoList, h);
      PutLink(into, nextHash, intoList, b, 0, 0, h);
      LoadAt(into, nextHash, intoList, b, 0);
      nextHash := nextHash[h := into[b]];
      newHeads := into[b := Some(h)];
      ghost var chain := intoList[b][..0] + ([h] + intoList[b][0..]);
      assert chain == [h] + intoList[b];
      ExtendAt(hash, keys, intoList, h, chain);
      TotalUpdate(intoList, b, chain);
      newList := intoList[b := chain];
    }

    method Lookup(keys: seq<Bytes>, key: Bytes) returns (r: Option<nat>)
      requires Valid(keys)
      ensures r.Some? ==> r.value in Ids(list) && r.value < |keys| && keys[r.value] == key
      ensures r.None? ==> forall x :: x in Ids(list) ==> x < |keys| && keys[x] != key
    {
      ghost var b, p;
      var ptr;
      ptr, b, p := FindPointer(keys, key);
      r := Load(heads, nextHash, ptr);
    }
  }

  /** The least power of two that is 4 or more and not less than the elements. */
  method LengthFor(elems: nat) returns (length: nat)
    ensures PowerOfTwo(length) && length >= 4 && length >= elems && (length == 4 || length / 2 < elems)
  {
    hide PowerOfTwo;
    length := 4;
    Powers(1);
    Powers(2);
    while length < elems
      invariant length >= 4 && PowerOfTwo(length) && (length == 4 || length / 2 < elems)
    {
      Powers(length);
      length := length * 2;
    }
  }

  lemma Powers(n: nat)
    ensures PowerOfTwo(1) && (PowerOfTwo(n) ==> PowerOfTwo(n * 2))
  {
    assert n * 2 / 2 == n && n * 2 % 2 == 0;
  }

  lemma LinkAfter(heads: seq<Option<nat>>, next: Links, list: seq<seq<nat>>, b: nat, p: nat)
    requires Linked(heads, next, list) && b < |list| && p <= |list[b]|
    ensures p < |list[b]| ==> list[b][p] in next && next[list[b][p]] == At(list[b], p + 1)
  {
    assert Runs(next, heads[b], list[b]);
  }

  lemma LinkedLength(heads: seq<Option<nat>>, next: Links, list: seq<seq<nat>>)
    requires Linked(heads, next, list)
    ensures |heads| == |list|
  {
  }

  lemma EmptyTable(hash: Hash, keys: seq<Bytes>, n: nat, next: Links)
    requires n > 0
    ensures var list: seq<seq<nat>> := seq(n, _ => []);
            Table(hash, keys, list) && Ids(list) == {} && Total(list) == 0 && Linked(seq(n, _ => None), next, list)
  {
    TotalNothing(n);
  }

  lemma AllRest(heads: seq<Option<nat>>, next: Links, list: seq<seq<nat>>)
    requires Linked(heads, next, list)
    ensures |heads| == |list| && Rest(heads, next, list, 0)
  {
  }

  lemma RestSplit(heads: seq<Option<nat>>, next: Links, list: seq<seq<nat>>, i: nat)
    requires Rest(heads, next, list, i) && i < |list|
    ensures |heads| == |list| && Rest(heads, next, list, i + 1) && Runs(next, heads[i], list[i][0..])
  {
    assert list[i][0..] == list[i];
  }

  lemma RunsHead(next: Links, h: Option<nat>, chain: seq<nat>, p: nat)
    requires p <= |chain| && Runs(next, h, chain[p..]) && h != None
    ensures p < |chain| && h.value == chain[p] && h.value in next
  {
    assert chain[p..][0] in next;
  }

  lemma RunsEnd(next: Links, h: Option<nat>, chain: seq<nat>, p: nat)
    requires p <= |chain| && Runs(next, h, chain[p..]) && h == None
    ensures p == |chain|
  {
  }
}
