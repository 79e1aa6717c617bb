/** The skip list (db/skiplist.h) as an arena of nodes and links. Node 0 is the
    head. Nodes are never removed, and a link is changed by one store. */
module SkipLinks {
  import opened Options
  import opened DbFormat

  /** What a node holds: the memtable's encoding of an entry. */
  type Key = Entry

  /** MemTable::KeyComparator: the order of internal keys. */
  predicate Lt(a: Key, b: Key) { Less(a.key, b.key) }

  predicate Le(a: Key, b: Key) { !Lt(b, a) }

  predicate Same(a: Key, b: Key) { a.key == b.key }

  const MAX_HEIGHT: nat := 12
  const HEAD: nat := 0

  /** next[x][i] is the link of node x at level i; a node's height is the number
      of its links. */
  datatype Arena = Arena(keys: seq<Key>, next: seq<seq<Option<nat>>>)

  /** The nodes of one level. */
  predicate Member(nodes: set<nat>, x: nat) { x == HEAD || x in nodes }

  /** Node y comes after node x; the head comes before every node. */
  predicate After(a: Arena, x: nat, y: nat)
    requires x < |a.keys| && y < |a.keys|
  {
    y != HEAD && (x == HEAD || Lt(a.keys[x], a.keys[y]))
  }

  ghost predicate InArena(a: Arena, nodes: set<nat>) {
    && 0 < |a.keys| == |a.next|
    && (forall x :: x in nodes ==> 0 < x < |a.keys|)
  }

  /** Nodes of a level have different keys. */
  ghost predicate DistinctKeys(a: Arena, nodes: set<nat>)
    requires InArena(a, nodes)
  {
    forall x, y :: x in nodes && y in nodes && Same(a.keys[x], a.keys[y]) ==> x == y
  }

  /** n is the first of the nodes after x. */
  ghost predicate Successor(a: Arena, nodes: set<nat>, x: nat, n: Option<nat>)
    requires InArena(a, nodes) && x < |a.keys|
  {
    && (n.Some? ==> n.value in nodes && After(a, x, n.value))
    && (forall y :: y in nodes && After(a, x, y) ==> n.Some? && Le(a.keys[n.value], a.keys[y]))
  }

  /** The links of level i are the order of its nodes. */
  ghost predicate Linked(a: Arena, nodes: set<nat>, i: nat)
    requires InArena(a, nodes)
  {
    forall x: nat {:trigger Member(nodes, x)} ::
      Member(nodes, x) ==> i < |a.next[x]| && Successor(a, nodes, x, a.next[x][i])
  }

  /** Every level is linked in order, and its nodes are nodes of the level below. */
  ghost predicate Valid(a: Arena, levels: seq<set<nat>>) {
    && |levels| == MAX_HEIGHT
    && (forall i :: 0 <= i < MAX_HEIGHT ==> InArena(a, levels[i]) && Linked(a, levels[i], i))
    && (forall i :: 0 < i < MAX_HEIGHT ==> levels[i] <= levels[i - 1])
    && DistinctKeys(a, levels[0])
  }

  /** The keys before a search's target; no target stands past every key. */
  predicate Below(target: Option<Key>, key: Key) { target.None? || Lt(key, target.value) }

  /** p is the last node of the level before target: where target would be linked. */
  ghost predicate Predecessor(a: Arena, nodes: set<nat>, p: nat, target: Option<Key>)
    requires InArena(a, nodes)
  {
    && Member(nodes, p)
    && (p == HEAD || Below(target, a.keys[p]))
    && (forall y :: y in nodes && After(a, p, y) ==> !Below(target, a.keys[y]))
  }

  /** n is the first node of the level at or after target. */
  ghost predicate FirstFrom(a: Arena, nodes: set<nat>, target: Option<Key>, n: Option<nat>)
    requires InArena(a, nodes)
  {
    && (n.Some? ==> n.value in nodes && !Below(target, a.keys[n.value]))
    && (forall y :: y in nodes && !Below(target, a.keys[y]) ==> n.Some? && Le(a.keys[n.value], a.keys[y]))
  }

  /** KeyIsAfterNode: a search for target goes on past n. */
  predicate GoesPast(a: Arena, target: Option<Key>, n: Option<nat>)
    requires n.Some? ==> n.value < |a.keys|
  {
    n.Some? && Below(target, a.keys[n.value])
  }

  /** A search that cannot go on stands at the answer. */
  lemma SearchEnds(a: Arena, nodes: set<nat>, i: nat, x: nat, target: Option<Key>)
    requires InArena(a, nodes) && Linked(a, nodes, i) && Member(nodes, x)
    requires x == HEAD || Below(target, a.keys[x])
    requires var n := a.next[x][i]; n.Some? ==> !Below(target, a.keys[n.value])
    ensures Predecessor(a, nodes, x, target) && FirstFrom(a, nodes, target, a.next[x][i])
  {
    assert Successor(a, nodes, x, a.next[x][i]);
  }

  /** The lower levels hold the nodes of the higher ones. */
  lemma {:induction false} LevelsNest(a: Arena, levels: seq<set<nat>>, i: nat, j: nat)
    requires Valid(a, levels) && i <= j < MAX_HEIGHT
    ensures levels[j] <= levels[i]
    decreases j
  {
    if i < j {
      LevelsNest(a, levels, i, j - 1);
    }
  }

  // ----- stores -----

  /** One link store. */
  function Store(a: Arena, x: nat, i: nat, n: Option<nat>): Arena
    requires x < |a.next| && i < |a.next[x]|
  {
    a.(next := a.next[x := a.next[x][i := n]])
  }

  /** A store changes nothing for a level that does not use the link. */
  lemma StoreElsewhere(a: Arena, nodes: set<nat>, j: nat, x: nat, i: nat, n: Option<nat>)
    requires InArena(a, nodes) && Linked(a, nodes, j) && x < |a.next| && i < |a.next[x]|
    requires j != i || !Member(nodes, x)
    ensures InArena(a, nodes) && Linked(Store(a, x, i, n), nodes, j)
  {
    var b := Store(a, x, i, n);
    forall y: nat | Member(nodes, y) ensures j < |b.next[y]| && Successor(b, nodes, y, b.next[y][j]) {
      assert Successor(a, nodes, y, a.next[y][j]);
    }
  }

  /** Storing a link that leads to y, whose own link is set, adds y to the level. */
  lemma StoreLinks(a: Arena, nodes: set<nat>, i: nat, p: nat, y: nat)
    requires InArena(a, nodes) && Linked(a, nodes, i) && DistinctKeys(a, nodes)
    requires 0 < y < |a.keys| && y !in nodes && i < |a.next[y]|
    requires Predecessor(a, nodes, p, Some(a.keys[y])) && (forall z :: z in nodes ==> !Same(a.keys[z], a.keys[y]))
    requires a.next[y][i] == a.next[p][i]
    ensures InArena(a, nodes + {y}) && Linked(Store(a, p, i, Some(y)), nodes + {y}, i)
  {
    var b := Store(a, p, i, Some(y));
    var more := nodes + {y};
    assert Member(nodes, p);
    forall x: nat | Member(more, x) ensures i < |b.next[x]| && Successor(b, more, x, b.next[x][i]) {
      if x == p {
        assert Successor(b, more, p, Some(y));
      } else if x == y {
        AfterNew(a, nodes, i, p, y);
      } else {
        assert Member(nodes, x);
        BeforeNew(a, nodes, i, p, y, x);
      }
    }
  }

  lemma AfterNew(a: Arena, nodes: set<nat>, i: nat, p: nat, y: nat)
    requires InArena(a, nodes) && Linked(a, nodes, i) && 0 < y < |a.keys| && y !in nodes
    requires Predecessor(a, nodes, p, Some(a.keys[y])) && (forall z :: z in nodes ==> !Same(a.keys[z], a.keys[y]))
    ensures Successor(a, nodes + {y}, y, a.next[p][i])
  {
    assert Member(nodes, p);
    assert Successor(a, nodes, p, a.next[p][i]);
  }

  lemma BeforeNew(a: Arena, nodes: set<nat>, i: nat, p: nat, y: nat, x: nat)
    requires InArena(a, nodes) && Linked(a, nodes, i) && DistinctKeys(a, nodes) && 0 < y < |a.keys| && y !in nodes
    requires Predecessor(a, nodes, p, Some(a.keys[y])) && Member(nodes, x) && x != p
    requires forall z :: z in nodes ==> !Same(a.keys[z], a.keys[y])
    ensures Successor(a, nodes + {y}, x, a.next[x][i])
  {
    assert Successor(a, nodes, x, a.next[x][i]);
    if After(a, x, y) {
      assert p != HEAD && After(a, x, p);
    }
  }
}

/** One inserting thread and any number of searching threads, store by store and
    load by load. A search may start while an insertion is under way, at any level. */
module SkipRuns {
  import opened Options
  import opened SkipLinks

  /** Between two stores of Insert: node is to be linked after prev[level], and
      ready says that its own link at that level is set. */
  datatype Writer = Idle | Linking(node: nat, prev: seq<nat>, level: nat, ready: bool)

  datatype Reader = Resting
                  | Searching(target: Option<Key>, at: nat, height: nat)
                  | Done(goal: Option<Key>, last: nat, first: Option<nat>)

  /** levels lists the nodes linked at each level; no step reads it. */
  datatype Config = Config(a: Arena, levels: seq<set<nat>>, writer: Writer, readers: seq<Reader>)

  // ----- what every step keeps -----

  ghost predicate WriterInv(a: Arena, levels: seq<set<nat>>, w: Writer)
    requires Valid(a, levels) && w.Linking?
  {
    && 0 < w.node < |a.keys|
    && w.level < |w.prev| == |a.next[w.node]| <= MAX_HEIGHT
    && (forall x :: x in levels[0] && x != w.node ==> !Same(a.keys[x], a.keys[w.node]))
    && (forall i :: 0 <= i < MAX_HEIGHT ==> (w.node in levels[i] <==> i < w.level))
    && (forall i :: w.level <= i < |w.prev| ==> Predecessor(a, levels[i], w.prev[i], Some(a.keys[w.node])))
    && Member(levels[w.level], w.prev[w.level])
    && (w.ready ==> a.next[w.node][w.level] == a.next[w.prev[w.level]][w.level])
  }

  ghost predicate ReaderInv(a: Arena, levels: seq<set<nat>>, r: Reader)
    requires Valid(a, levels) && r.Searching?
  {
    r.height < MAX_HEIGHT && Member(levels[r.height], r.at) && (r.at == HEAD || Below(r.target, a.keys[r.at]))
  }

  ghost predicate Inv(c: Config) {
    && Valid(c.a, c.levels)
    && (c.writer.Linking? ==> WriterInv(c.a, c.levels, c.writer))
    && (forall t :: 0 <= t < |c.readers| && c.readers[t].Searching? ==> ReaderInv(c.a, c.levels, c.readers[t]))
  }

  // ----- steps -----

  /** The insertion of a new key has found its predecessors and made its node,
      whose links hold anything. */
  ghost predicate Started(c: Config, d: Config, key: Key, links: seq<Option<nat>>, prev: seq<nat>)
    requires Inv(c)
  {
    && c.writer.Idle? && 0 < |prev| == |links| <= MAX_HEIGHT
    && (forall x :: x in c.levels[0] ==> !Same(c.a.keys[x], key))
    && (forall i :: 0 <= i < |prev| ==> Predecessor(c.a, c.levels[i], prev[i], Some(key)))
    && d == c.(a := NewNode(c.a, key, links), writer := Linking(|c.a.keys|, prev, 0, false))
  }

  function NewNode(a: Arena, key: Key, links: seq<Option<nat>>): Arena {
    Arena(a.keys + [key], a.next + [links])
  }

  /** x->NoBarrier_SetNext(i, prev[i]->NoBarrier_Next(i)). */
  ghost function OwnStored(c: Config): Config
    requires Inv(c) && c.writer.Linking? && !c.writer.ready
  {
    var w := c.writer;
    c.(a := Store(c.a, w.node, w.level, c.a.next[w.prev[w.level]][w.level]), writer := w.(ready := true))
  }

  /** prev[i]->SetNext(i, x). */
  ghost function PrevStored(c: Config): Config
    requires Inv(c) && c.writer.Linking? && c.writer.ready
  {
    var w := c.writer;
    c.(a := Store(c.a, w.prev[w.level], w.level, Some(w.node)),
       levels := c.levels[w.level := c.levels[w.level] + {w.node}],
       writer := if w.level + 1 == |w.prev| then Idle else Linking(w.node, w.prev, w.level + 1, false))
  }

  /** A search that is under way in thread t. */
  ghost predicate Searches(c: Config, t: nat) { t < |c.readers| && c.readers[t].Searching? }

  /** The search of thread t loads one link and goes right, goes down, or ends. */
  ghost function Loaded(c: Config, t: nat): Config
    requires Inv(c) && Searches(c, t)
  {
    var r := c.readers[t];
    var n := c.a.next[r.at][r.height];
    assert Successor(c.a, c.levels[r.height], r.at, n);
    c.(readers := c.readers[t :=
      if GoesPast(c.a, r.target, n) then Searching(r.target, n.value, r.height)
      else if r.height > 0 then Searching(r.target, r.at, r.height - 1)
      else Done(r.target, r.at, n)])
  }

  /** A search starts, at a level that max_height_ gave or will give. */
  ghost predicate Began(c: Config, d: Config, t: nat, target: Option<Key>, height: nat) {
    t < |c.readers| && height < MAX_HEIGHT && d == c.(readers := c.readers[t := Searching(target, HEAD, height)])
  }

  ghost predicate Next(c: Config, d: Config)
    requires Inv(c)
  {
    || (exists key: Key, links, prev :: Started(c, d, key, links, prev))
    || (c.writer.Linking? && !c.writer.ready && d == OwnStored(c))
    || (c.writer.Linking? && c.writer.ready && d == PrevStored(c))
    || (exists t, target, height :: Began(c, d, t, target, height))
    || (exists t :: Searches(c, t) && d == Loaded(c, t))
  }

  // ----- each step keeps the invariant -----

  lemma GrowLevel(a: Arena, nodes: set<nat>, i: nat, key: Key, links: seq<Option<nat>>)
    requires InArena(a, nodes) && Linked(a, nodes, i)
    ensures InArena(NewNode(a, key, links), nodes) && Linked(NewNode(a, key, links), nodes, i)
  {
    var b := NewNode(a, key, links);
    forall x: nat | Member(nodes, x) ensures i < |b.next[x]| && Successor(b, nodes, x, b.next[x][i]) {
      assert Successor(a, nodes, x, a.next[x][i]);
    }
  }

  lemma GrowKeeps(a: Arena, levels: seq<set<nat>>, key: Key, links: seq<Option<nat>>)
    requires Valid(a, levels)
    ensures Valid(NewNode(a, key, links), levels)
  {
    var b := NewNode(a, key, links);
    forall i | 0 <= i < MAX_HEIGHT ensures InArena(b, levels[i]) && Linked(b, levels[i], i) {
      GrowLevel(a, levels[i], i, key, links);
    }
  }

  lemma StartedInv(c: Config, d: Config, key: Key, links: seq<Option<nat>>, prev: seq<nat>)
    requires Inv(c) && Started(c, d, key, links, prev)
    ensures Inv(d)
  {
    GrowKeeps(c.a, c.levels, key, links);
    forall i | 0 <= i < MAX_HEIGHT ensures |c.a.keys| !in c.levels[i] {
      assert InArena(c.a, c.levels[i]);
    }
    forall i | 0 <= i < |prev| ensures Predecessor(d.a, d.levels[i], prev[i], Some(key)) {
      assert Predecessor(c.a, c.levels[i], prev[i], Some(key));
    }
  }

  /** The new node's own link is read by no level yet. */
  lemma OwnStoredInv(c: Config)
    requires Inv(c) && c.writer.Linking? && !c.writer.ready
    ensures Inv(OwnStored(c))
  {
    var d, w := OwnStored(c), c.writer;
    var n := c.a.next[w.prev[w.level]][w.level];
    forall i | 0 <= i < MAX_HEIGHT ensures InArena(d.a, d.levels[i]) && Linked(d.a, d.levels[i], i) {
      StoreElsewhere(c.a, c.levels[i], i, w.node, w.level, n);
    }
    forall i | w.level <= i < |w.prev| ensures Predecessor(d.a, d.levels[i], w.prev[i], Some(d.a.keys[w.node])) {
      assert Predecessor(c.a, c.levels[i], w.prev[i], Some(c.a.keys[w.node]));
    }
  }

  lemma PrevStoredValid(c: Config)
    requires Inv(c) && c.writer.Linking? && c.writer.ready
    ensures Valid(PrevStored(c).a, PrevStored(c).levels)
  {
    var d, w := PrevStored(c), c.writer;
    LevelsNest(c.a, c.levels, 0, w.level);
    assert Predecessor(c.a, c.levels[w.level], w.prev[w.level], Some(c.a.keys[w.node]));
    forall i | 0 <= i < MAX_HEIGHT ensures InArena(d.a, d.levels[i]) && Linked(d.a, d.levels[i], i) {
      if i == w.level {
        StoreLinks(c.a, c.levels[i], i, w.prev[i], w.node);
      } else {
        StoreElsewhere(c.a, c.levels[i], i, w.prev[w.level], w.level, Some(w.node));
      }
    }
  }

  lemma PrevStoredWriter(c: Config)
    requires Inv(c) && c.writer.Linking? && c.writer.ready && Valid(PrevStored(c).a, PrevStored(c).levels)
    ensures PrevStored(c).writer.Linking? ==> WriterInv(PrevStored(c).a, PrevStored(c).levels, PrevStored(c).writer)
  {
    var d, w := PrevStored(c), c.writer;
    forall i | w.level < i < |w.prev| ensures Predecessor(d.a, d.levels[i], w.prev[i], Some(d.a.keys[w.node])) {
      assert Predecessor(c.a, c.levels[i], w.prev[i], Some(c.a.keys[w.node]));
    }
  }

  lemma LoadedInv(c: Config, t: nat)
    requires Inv(c) && Searches(c, t)
    ensures Inv(Loaded(c, t))
  {
    var r := c.readers[t];
    assert Successor(c.a, c.levels[r.height], r.at, c.a.next[r.at][r.height]);
  }

  lemma NextInv(c: Config, d: Config)
    requires Inv(c) && Next(c, d)
    ensures Inv(d)
  {
    if key: Key, links, prev :| Started(c, d, key, links, prev) {
      StartedInv(c, d, key, links, prev);
    } else if c.writer.Linking? && !c.writer.ready && d == OwnStored(c) {
      OwnStoredInv(c);
    } else if c.writer.Linking? && c.writer.ready && d == PrevStored(c) {
      PrevStoredValid(c);
      PrevStoredWriter(c);
    } else if t :| Searches(c, t) && d == Loaded(c, t) {
      LoadedInv(c, t);
    }
  }

  /** An empty list, nothing under way. */
  ghost predicate Init(c: Config) {
    && |c.a.keys| == 1 && c.a.next == [seq(MAX_HEIGHT, _ => None)]
    && c.levels == seq(MAX_HEIGHT, _ => {})
    && c.writer == Idle && (forall t :: 0 <= t < |c.readers| ==> c.readers[t] == Resting)
  }

  /** A run: an empty list, and steps. */
  ghost predicate Run(run: seq<Config>) {
    && |run| > 0 && Init(run[0])
    && (forall k :: 0 <= k < |run| - 1 ==> Inv(run[k]) ==> Next(run[k], run[k + 1]))
  }

  lemma {:induction false} RunInv(run: seq<Config>, k: nat)
    requires Run(run) && k < |run|
    ensures Inv(run[k])
    decreases k
  {
    if k > 0 {
      RunInv(run, k - 1);
      NextInv(run[k - 1], run[k]);
    }
  }

  /** Where a search that ends at step k stands: at the answer for the nodes
      linked at that very step, whatever was inserted while it ran. */
  lemma SearchAnswers(run: seq<Config>, k: nat, t: nat)
    requires Run(run) && k + 1 < |run| && Searches(run[k], t) && t < |run[k + 1].readers| && run[k + 1].readers[t].Done?
    ensures Inv(run[k + 1]) && run[k + 1].readers[t].goal == run[k].readers[t].target
    ensures var c, r := run[k + 1], run[k + 1].readers[t];
            Predecessor(c.a, c.levels[0], r.last, r.goal) && FirstFrom(c.a, c.levels[0], r.goal, r.first)
  {
    var c := run[k];
    RunInv(run, k);
    RunInv(run, k + 1);
    assert run[k + 1] == Loaded(c, t) by { OwnStep(c, run[k + 1], t); }
    SearchEnds(c.a, c.levels[0], 0, c.readers[t].at, c.readers[t].target);
  }

  /** A search ends by its own load. */
  lemma OwnStep(c: Config, d: Config, t: nat)
    requires Inv(c) && Next(c, d) && Searches(c, t) && t < |d.readers| && d.readers[t].Done?
    ensures d == Loaded(c, t)
  {
  }

  /** The set of nodes changes in one store per insertion, the one at level 0. */
  lemma OldOrNew(c: Config, d: Config)
    requires Inv(c) && Next(c, d)
    ensures || d.levels[0] == c.levels[0]
            || (c.writer.Linking? && c.writer.level == 0 && d.levels[0] == c.levels[0] + {c.writer.node})
    ensures c.a.keys <= d.a.keys
  {
  }

  /** Nodes stay, with their keys, for the rest of a run. */
  lemma {:induction false} NodesStay(run: seq<Config>, i: nat, k: nat)
    requires Run(run) && i <= k < |run|
    ensures Inv(run[i]) && Inv(run[k]) && run[i].levels[0] <= run[k].levels[0] && run[i].a.keys <= run[k].a.keys
    decreases k
  {
    RunInv(run, i);
    RunInv(run, k);
    if i < k {
      NodesStay(run, i, k - 1);
      OldOrNew(run[k - 1], run[k]);
    }
  }

  /** A search finds every key whose insertion had reached level 0 when it began:
      what it ends at is no later than the first such key from its target on. */
  lemma FindsEarlier(run: seq<Config>, i: nat, k: nat, t: nat, x: nat)
    requires Run(run) && i <= k && k + 1 < |run| && Searches(run[k], t)
    requires t < |run[k + 1].readers| && run[k + 1].readers[t].Done?
    requires |run[i].levels| > 0 && x in run[i].levels[0]
    ensures Inv(run[i]) && x < |run[i].a.keys| && Inv(run[k + 1])
    ensures var r, key := run[k + 1].readers[t], run[i].a.keys[x];
            !Below(r.goal, key) ==>
              r.first.Some? && r.first.value in run[k + 1].levels[0] && Le(run[k + 1].a.keys[r.first.value], key)
  {
    NodesStay(run, i, k + 1);
    SearchAnswers(run, k, t);
  }
}

module SkipList {
  import opened Options
  import opened DbFormat
  import opened SkipLinks
  import opened SkipRuns

  class List {
    var arena: Arena
    var maxHeight: nat
    ghost var levels: seq<set<nat>>

    ghost predicate Valid()
      reads this
      ensures Valid() ==> |levels| == MAX_HEIGHT && InArena(arena, levels[0])
    {
      && SkipLinks.Valid(arena, levels)
      && 0 < maxHeight <= MAX_HEIGHT
      && (forall i :: maxHeight <= i < MAX_HEIGHT ==> levels[i] == {})
    }

    /** The nodes of the list, and its keys. */
    ghost function Nodes(): set<nat>
      requires Valid()
      reads this
    {
      levels[0]
    }

    ghost function Keys(): set<Key>
      requires Valid()
      reads this
    {
      set x | x in levels[0] :: arena.keys[x]
    }

    constructor ()
      ensures Valid() && Nodes() == {} && Keys() == {}
    {
      arena := Arena([Entry(InternalKey(0.0, 0, TypeDeletion), "")], [seq(MAX_HEIGHT, _ => None)]);
      maxHeight := 1;
      levels := seq(MAX_HEIGHT, _ => {});
    }

    /** The first node at or after key, and the last node before key at every
        level in use. */
    method FindGreaterOrEqual(key: Key) returns (node: Option<nat>, prev: seq<nat>)
      requires Valid()
      ensures FirstFrom(arena, Nodes(), Some(key), node)
      ensures |prev| == MAX_HEIGHT
      ensures forall i :: 0 <= i < maxHeight ==> Predecessor(arena, levels[i], prev[i], Some(key))
    {
      var x: nat, level := HEAD, maxHeight - 1;
      prev := seq(MAX_HEIGHT, _ => HEAD);
      while true
        invariant 0 <= level < maxHeight && |prev| == MAX_HEIGHT
        invariant Member(levels[level], x) && (x == HEAD || Lt(arena.keys[x], key))
        invariant forall i :: level < i < maxHeight ==> Predecessor(arena, levels[i], prev[i], Some(key))
        decreases level, Ahead(arena, levels[level], x)
      {
        var next := arena.next[x][level];
        Goes(arena, levels, level, x, Some(key));
        if GoesPast(arena, Some(key), next) {
          x := next.value;
        } else {
          prev := prev[level := x];
          if level == 0 {
            return next, prev;
          }
          level := level - 1;
        }
      }
    }

    /** The last node before key, or the head. */
    method FindLessThan(key: Key) returns (x: nat)
      requires Valid()
      ensures Predecessor(arena, Nodes(), x, Some(key))
    {
      var level := maxHeight - 1;
      x := HEAD;
      while true
        invariant 0 <= level < maxHeight
        invariant Member(levels[level], x) && (x == HEAD || Lt(arena.keys[x], key))
        decreases level, Ahead(arena, levels[level], x)
      {
        var next := arena.next[x][level];
        Goes(arena, levels, level, x, Some(key));
        if next == None || Le(key, arena.keys[next.value]) {
          if level == 0 {
            return;
          }
          level := level - 1;
        } else {
          x := next.value;
        }
      }
    }

    /** The last node, or the head of an empty list. */
    method FindLast() returns (x: nat)
      requires Valid()
      ensures Predecessor(arena, Nodes(), x, None)
    {
      var level := maxHeight - 1;
      x := HEAD;
      while true
        invariant 0 <= level < maxHeight && Member(levels[level], x)
        decreases level, Ahead(arena, levels[level], x)
      {
        var next := arena.next[x][level];
        Goes(arena, levels, level, x, None);
        if next == None {
          if level == 0 {
            return;
          }
          level := level - 1;
        } else {
          x := next.value;
        }
      }
    }

    /** Adds a key at a height that RandomHeight chose. Every store of the loop
        leaves a valid list. */
    method Insert(key: Key, height: nat)
      requires Valid() && 0 < height <= MAX_HEIGHT && (forall k :: k in Keys() ==> !Same(k, key))
      modifies this
      ensures Valid() && Keys() == old(Keys()) + {key}
      ensures arena.keys == old(arena.keys) + [key] && Nodes() == old(Nodes()) + {|old(arena.keys)|}
    {
      hide Linked, DistinctKeys, Predecessor;
      var found, prev: seq<nat> := FindGreaterOrEqual(key);
      if height > maxHeight {
        var i := maxHeight;
        while i < height
          modifies {}
          invariant maxHeight <= i <= height && |prev| == MAX_HEIGHT
          invariant forall j :: 0 <= j < i ==> Predecessor(arena, levels[j], prev[j], Some(key))
        {
          HeadOfEmpty(arena, key);
          prev := prev[i := HEAD];
          i := i + 1;
        }
        maxHeight := height;
      }
      ghost var before := Config(arena, levels, Idle, []);
      var node := |arena.keys|;
      arena := NewNode(arena, key, seq(height, _ => None));
      LinkNode(key, node, prev[..height], before);
    }

    /** The two stores of Insert at one level. */
    method LinkLevel(node: nat, prev: seq<nat>, i: nat)
      requires i < |prev| && Inv(Config(arena, levels, Linking(node, prev, i, false), []))
      modifies `arena, `levels
      ensures Inv(Config(arena, levels, if i + 1 == |prev| then Idle else Linking(node, prev, i + 1, false), []))
      ensures arena.keys == old(arena.keys) && i < |old(levels)| && levels == old(levels)[i := old(levels[i]) + {node}]
    {
      hide DistinctKeys, Predecessor;
      ghost var c := Config(arena, levels, Linking(node, prev, i, false), []);
      OwnStoredInv(c);
      arena := Store(arena, node, i, arena.next[prev[i]][i]);
      c := OwnStored(c);
      PrevStoredValid(c);
      PrevStoredWriter(c);
      arena := Store(arena, prev[i], i, Some(node));
      levels := levels[i := levels[i] + {node}];
    }

    /** The stores of Insert, from the lowest level up. */
    method LinkNode(key: Key, node: nat, prev: seq<nat>, ghost before: Config)
      requires Inv(before) && before.levels == levels && node == |before.a.keys| && |prev| <= maxHeight <= MAX_HEIGHT
      requires node < |arena.next|
      requires Started(before, Config(arena, levels, Linking(node, prev, 0, false), []), key, arena.next[node], prev)
      requires forall i :: maxHeight <= i < MAX_HEIGHT ==> levels[i] == {}
      modifies `arena, `levels
      ensures Valid() && arena.keys == old(arena.keys) && Nodes() == old(levels[0]) + {node}
    {
      hide WriterInv, DistinctKeys, Predecessor, Linked;
      StartedInv(before, Config(arena, levels, Linking(node, prev, 0, false), []), key, arena.next[node], prev);
      var i := 0;
      while i < |prev|
        invariant 0 <= i <= |prev| && arena.keys == old(arena.keys)
        invariant Inv(Config(arena, levels, if i == |prev| then Idle else Linking(node, prev, i, false), []))
        invariant levels[0] == if i == 0 then old(levels[0]) else old(levels[0]) + {node}
        invariant forall j :: maxHeight <= j < MAX_HEIGHT ==> levels[j] == {}
      {
        LinkLevel(node, prev, i);
        i := i + 1;
      }
    }

    method Contains(key: Key) returns (found: bool)
      requires Valid()
      ensures found <==> exists k :: k in Keys() && Same(k, key)
    {
      var x, _ := FindGreaterOrEqual(key);
      found := x != None && Same(arena.keys[x.value], key);
    }
  }

  lemma HeadOfEmpty(a: Arena, key: Key)
    requires InArena(a, {})
    ensures Predecessor(a, {}, HEAD, Some(key))
  {
  }

  /** A position on a list: a node, or none. */
  class Iterator {
    const list: List
    var node: Option<nat>

    constructor (list: List)
      ensures this.list == list && node == None
    {
      this.list := list;
      node := None;
    }

    ghost predicate Valid()
      reads this, list
    {
      list.Valid() && (node.Some? ==> node.value in list.Nodes())
    }

    method Next()
      requires Valid() && node.Some?
      modifies this
      ensures Valid() && Successor(list.arena, list.Nodes(), old(node).value, node)
    {
      assert Member(list.levels[0], node.value);
      node := list.arena.next[node.value][0];
    }

    /** Searches for the last node before the current key. */
    method Prev()
      requires Valid() && node.Some?
      modifies this
      ensures Valid()
      ensures match node
              case Some(x) => Successor(list.arena, list.Nodes(), x, old(node))
              case None => forall y :: y in list.Nodes() ==> Le(list.arena.keys[old(node).value], list.arena.keys[y])
    {
      var x := list.FindLessThan(list.arena.keys[node.value]);
      node := if x == HEAD then None else Some(x);
    }

    method Seek(target: Key)
      requires list.Valid()
      modifies this
      ensures Valid() && FirstFrom(list.arena, list.Nodes(), Some(target), node)
    {
      var x, _ := list.FindGreaterOrEqual(target);
      node := x;
    }

    method SeekToFirst()
      requires list.Valid()
      modifies this
      ensures Valid() && Successor(list.arena, list.Nodes(), HEAD, node)
    {
      assert Member(list.levels[0], HEAD);
      node := list.arena.next[HEAD][0];
    }

    method SeekToLast()
      requires list.Valid()
      modifies this
      ensures Valid()
      ensures match node
              case Some(x) => Successor(list.arena, list.Nodes(), x, None)
              case None => list.Nodes() == {}
    {
      var x := list.FindLast();
      assert Member(list.levels[0], x);
      node := if x == HEAD then None else Some(x);
    }
  }

  /** The nodes of a level that a search at x has in front of it. */
  ghost function Ahead(a: Arena, nodes: set<nat>, x: nat): set<nat>
    requires InArena(a, nodes) && x < |a.keys|
  {
    set y | y in nodes && After(a, x, y)
  }

  /** One turn of a search loop: right to a node of the level, nearer the end; or
      no further, and then the node is one of the level below. */
  lemma Goes(a: Arena, levels: seq<set<nat>>, level: nat, x: nat, target: Option<Key>)
    requires Valid(a, levels) && level < MAX_HEIGHT && Member(levels[level], x)
    requires x == HEAD || Below(target, a.keys[x])
    ensures var n := a.next[x][level];
            n.Some? ==> n.value in levels[level] && Ahead(a, levels[level], n.value) < Ahead(a, levels[level], x)
    ensures !GoesPast(a, target, a.next[x][level]) ==>
              Predecessor(a, levels[level], x, target) && FirstFrom(a, levels[level], target, a.next[x][level])
    ensures level > 0 ==> Member(levels[level - 1], x)
  {
    var n := a.next[x][level];
    assert Successor(a, levels[level], x, n);
    if n.Some? {
      assert n.value in Ahead(a, levels[level], x) && n.value !in Ahead(a, levels[level], n.value);
    }
    if !GoesPast(a, target, n) {
      SearchEnds(a, levels[level], level, x, target);
    }
  }
}
