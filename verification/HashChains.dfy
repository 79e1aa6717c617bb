/** Chains of a hash table as linked lists (util/cache.cc, LRUHandle::next_hash):
    the heads, the links, and what a store through a pointer to a link does. */
module HashChains {
  import opened Options

  /** The address of a link: a cell of the array of heads, or the next_hash
      field of a handle. */
  datatype Pointer = Bucket(b: nat) | NextHash(h: nat)

  type Links = map<nat, Option<nat>>

  function At(chain: seq<nat>, p: nat): Option<nat> { if p < |chain| then Some(chain[p]) else None }

  /** The links from head on run through a chain. */
  ghost predicate Runs(next: Links, head: Option<nat>, chain: seq<nat>) {
    && head == At(chain, 0)
    && forall p :: 0 <= p < |chain| ==> chain[p] in next && next[chain[p]] == At(chain, p + 1)
  }

  ghost predicate Linked(heads: seq<Option<nat>>, next: Links, list: seq<seq<nat>>) {
    |heads| == |list| && forall b :: 0 <= b < |list| ==> Runs(next, heads[b], list[b])
  }

  /** No handle is in two places. */
  ghost predicate Apart(list: seq<seq<nat>>) {
    forall b, p, c, q ::
      0 <= b < |list| && 0 <= p < |list[b]| && 0 <= c < |list| && 0 <= q < |list[c]| && list[b][p] == list[c][q] ==>
        b == c && p == q
  }

  ghost predicate Absent(list: seq<seq<nat>>, h: nat) {
    forall b, p :: 0 <= b < |list| && 0 <= p < |list[b]| ==> list[b][p] != h
  }

  /** The address of the link to place p of a chain. */
  function PointerTo(b: nat, chain: seq<nat>, p: nat): Pointer
    requires p <= |chain|
  {
    if p == 0 then Bucket(b) else NextHash(chain[p - 1])
  }

  predicate Points(heads: seq<Option<nat>>, next: Links, ptr: Pointer) {
    match ptr
    case Bucket(b) => b < |heads|
    case NextHash(h) => h in next
  }

  function Load(heads: seq<Option<nat>>, next: Links, ptr: Pointer): Option<nat>
    requires Points(heads, next, ptr)
  {
    match ptr
    case Bucket(b) => heads[b]
    case NextHash(h) => next[h]
  }

  function Store(heads: seq<Option<nat>>, next: Links, ptr: Pointer, to: Option<nat>): (seq<Option<nat>>, Links)
    requires Points(heads, next, ptr)
  {
    match ptr
    case Bucket(b) => (heads[b := to], next)
    case NextHash(h) => (heads, next[h := to])
  }

  lemma LoadAt(heads: seq<Option<nat>>, next: Links, list: seq<seq<nat>>, b: nat, p: nat)
    requires Linked(heads, next, list) && b < |list| && p <= |list[b]|
    ensures var ptr := PointerTo(b, list[b], p); Points(heads, next, ptr) && Load(heads, next, ptr) == At(list[b], p)
  {
    assert Runs(next, heads[b], list[b]);
  }

  /** Links of handles that are not in a chain do not matter to it. */
  lemma RunsFrame(next: Links, other: Links, head: Option<nat>, chain: seq<nat>)
    requires Runs(next, head, chain)
    requires forall p :: 0 <= p < |chain| ==> chain[p] in other && other[chain[p]] == next[chain[p]]
    ensures Runs(other, head, chain)
  {
  }

  lemma LinkedFrame(heads: seq<Option<nat>>, next: Links, list: seq<seq<nat>>, h: nat, to: Option<nat>)
    requires Linked(heads, next, list) && Absent(list, h)
    ensures Linked(heads, next[h := to], list)
  {
    forall b | 0 <= b < |list| ensures Runs(next[h := to], heads[b], list[b]) {
      RunsFrame(next, next[h := to], heads[b], list[b]);
    }
  }

  lemma RunsTail(next: Links, head: Option<nat>, chain: seq<nat>, r: nat)
    requires Runs(next, head, chain) && r <= |chain|
    ensures Runs(next, At(chain, r), chain[r..])
  {
  }

  /** A store through the pointer to place p gives the chain a new tail there,
      and leaves the other chains alone. */
  lemma StoreAt(heads: seq<Option<nat>>, next: Links, list: seq<seq<nat>>, b: nat, p: nat, to: Option<nat>,
                tail: seq<nat>)
    requires Linked(heads, next, list) && Apart(list) && b < |list| && p <= |list[b]|
    requires Runs(next, to, tail) && (p > 0 ==> list[b][p - 1] !in tail)
    requires Points(heads, next, PointerTo(b, list[b], p))
    ensures var s := Store(heads, next, PointerTo(b, list[b], p), to);
            Linked(s.0, s.1, list[b := list[b][..p] + tail])
  {
    var s := Store(heads, next, PointerTo(b, list[b], p), to);
    var m := list[b := list[b][..p] + tail];
    forall c | 0 <= c < |list| && c != b ensures Runs(s.1, s.0[c], m[c]) {
      RunsFrame(next, s.1, heads[c], list[c]);
    }
    StoreRuns(next, heads[b], list[b], p, to, tail, s.0[b], s.1);
  }

  lemma StoreRuns(next: Links, head: Option<nat>, chain: seq<nat>, p: nat, to: Option<nat>, tail: seq<nat>,
                  newHead: Option<nat>, newNext: Links)
    requires Runs(next, head, chain) && Runs(next, to, tail) && p <= |chain|
    requires p > 0 ==> chain[p - 1] !in tail && chain[p - 1] !in chain[..p - 1]
    requires if p == 0 then newHead == to && newNext == next else newHead == head && newNext == next[chain[p - 1] := to]
    ensures Runs(newNext, newHead, chain[..p] + tail)
  {
    var all := chain[..p] + tail;
    forall i | 0 <= i < |all| ensures all[i] in newNext && newNext[all[i]] == At(all, i + 1) {
      if i < p - 1 {
        assert all[i] == chain[..p - 1][i];
      } else if i >= p {
        assert all[i] == tail[i - p];
      }
    }
  }

  /** A handle linked in at place p, in front of the chain's rest from place r on. */
  lemma PutLink(heads: seq<Option<nat>>, next: Links, list: seq<seq<nat>>, b: nat, p: nat, r: nat, h: nat)
    requires Linked(heads, next, list) && Apart(list) && Absent(list, h) && b < |list| && p <= r <= |list[b]|
    ensures var ptr := PointerTo(b, list[b], p);
            var links := next[h := At(list[b], r)];
            && Points(heads, links, ptr)
            && var s := Store(heads, links, ptr, Some(h));
            && Linked(s.0, s.1, list[b := list[b][..p] + ([h] + list[b][r..])])
  {
    var links := next[h := At(list[b], r)];
    LinkedFrame(heads, next, list, h, At(list[b], r));
    RunsTail(links, heads[b], list[b], r);
    var tail := [h] + list[b][r..];
    assert Runs(links, Some(h), tail) by { RunsCons(links, h, list[b][r..]); }
    LoadAt(heads, links, list, b, p);
    StoreAt(heads, links, list, b, p, Some(h), tail);
  }

  lemma RunsCons(next: Links, h: nat, rest: seq<nat>)
    requires Runs(next, At(rest, 0), rest) && h in next && next[h] == At(rest, 0)
    ensures Runs(next, Some(h), [h] + rest)
  {
    var all := [h] + rest;
    forall p | 0 <= p < |all| ensures all[p] in next && next[all[p]] == At(all, p + 1) {
      if p > 0 {
        assert all[p] == rest[p - 1];
      }
    }
  }

  /** The handle at place p linked out. */
  lemma CutLink(heads: seq<Option<nat>>, next: Links, list: seq<seq<nat>>, b: nat, p: nat)
    requires Linked(heads, next, list) && Apart(list) && b < |list| && p < |list[b]|
    ensures var ptr, h := PointerTo(b, list[b], p), list[b][p];
            && Points(heads, next, ptr) && h in next
            && var s := Store(heads, next, ptr, next[h]);
            && Linked(s.0, s.1, list[b := list[b][..p] + list[b][p + 1..]])
  {
    LoadAt(heads, next, list, b, p);
    assert Runs(next, heads[b], list[b]);
    RunsTail(next, heads[b], list[b], p + 1);
    StoreAt(heads, next, list, b, p, next[list[b][p]], list[b][p + 1..]);
  }

  /** The chains from i on, which a move to other heads has not reached. */
  ghost predicate Rest(heads: seq<Option<nat>>, next: Links, list: seq<seq<nat>>, i: nat) {
    |heads| == |list| && forall b :: i <= b < |list| ==> Runs(next, heads[b], list[b])
  }

  /** Linking a handle of chain i anew leaves what follows it as it was. */
  lemma RestFrame(heads: seq<Option<nat>>, next: Links, list: seq<seq<nat>>, i: nat, p: nat, h: Option<nat>,
                  to: Option<nat>)
    requires Rest(heads, next, list, i + 1) && Apart(list) && i < |list| && p < |list[i]| && Runs(next, h, list[i][p..])
    ensures h == Some(list[i][p]) && h.value in next
    ensures var links := next[h.value := to];
            Rest(heads, links, list, i + 1) && Runs(links, next[h.value], list[i][p + 1..])
  {
    var rest := list[i][p..];
    assert rest[0] == list[i][p] && next[rest[0]] == At(rest, 1) && rest[1..] == list[i][p + 1..];
    var links := next[h.value := to];
    RunsTail(next, h, rest, 1);
    forall b | i + 1 <= b < |list| ensures Runs(links, heads[b], list[b]) {
      RunsFrame(next, links, heads[b], list[b]);
    }
    RunsFrame(next, links, next[h.value], list[i][p + 1..]);
  }
}
