/** DBImpl::DoCompactionWork (db/db_impl.cc): which entries of the merged input
    survive a compaction, and how they are cut into output files. */
module CompactionWork {
  import opened Options
  import opened DbFormat
  import opened Versions
  import opened Sequences

  ghost predicate CoversKey(f: File, k: UserKey) {
    Smallest(f).user <= k <= Largest(f).user
  }

  /** No file below the output level can hold `k`. */
  ghost predicate IsBase(v: Version, level: nat, k: UserKey) {
    forall l, f :: level + 2 <= l < NUM_LEVELS && f in v[l] ==> !CoversKey(f, k)
  }

  lemma BaseMeans(v: Version, level: nat, k: UserKey)
    ensures IsBase(v, level, k) <==>
              forall l, f :: level + 2 <= l < NUM_LEVELS && f in v[l] ==> k < Smallest(f).user || Largest(f).user < k
  {
    if IsBase(v, level, k) {
      forall l, f | level + 2 <= l < NUM_LEVELS && f in v[l] ensures k < Smallest(f).user || Largest(f).user < k {
        assert !CoversKey(f, k);
      }
    }
  }

  /** The part of Compaction that IsBaseLevelForKey updates: per level, how many
      files are already known to end before every key still to come. */
  class Compaction {
    const version: Version
    const level: nat
    const levelPtrs: array<nat>

    constructor (version: Version, level: nat)
      ensures this.version == version && this.level == level
      ensures fresh(levelPtrs) && levelPtrs.Length == NUM_LEVELS
      ensures forall k :: Behind(k)
    {
      this.version := version;
      this.level := level;
      levelPtrs := new nat[NUM_LEVELS](_ => 0);
    }

    /** Files skipped so far all end before `k`. */
    ghost predicate Behind(k: UserKey)
      reads levelPtrs
    {
      && levelPtrs.Length == NUM_LEVELS
      && forall l :: level + 2 <= l < NUM_LEVELS ==> Skipped(version[l], levelPtrs[l], k)
    }

    method IsBaseLevelForKey(k: UserKey) returns (r: bool)
      requires Behind(k)
      requires forall l :: 1 <= l < NUM_LEVELS ==> DisjointLevel(version[l])
      modifies levelPtrs
      ensures Behind(k)
      ensures r <==> IsBase(version, level, k)
      ensures r <==> forall l, f :: level + 2 <= l < NUM_LEVELS && f in version[l] ==>
                       k < Smallest(f).user || Largest(f).user < k
    {
      BaseMeans(version, level, k);
      var lvl := level + 2;
      while lvl < NUM_LEVELS
        invariant lvl >= level + 2
        invariant Behind(k)
        invariant forall l, f :: level + 2 <= l < lvl && l < NUM_LEVELS && f in version[l] ==> !CoversKey(f, k)
      {
        var files := version[lvl];
        var p := AdvancePast(files, levelPtrs[lvl], k);
        levelPtrs[lvl] := p;
        NextDecides(files, p, k);
        if p < |files| && k >= Smallest(files[p]).user {
          assert files[p] in version[lvl];
          return false;
        }
        lvl := lvl + 1;
      }
      return true;
    }
  }

  ghost predicate Skipped(files: seq<File>, p: nat, k: UserKey) {
    p <= |files| && forall i :: 0 <= i < p ==> Largest(files[i]).user < k
  }

  /** The inner loop of IsBaseLevelForKey on one level. */
  method AdvancePast(files: seq<File>, from: nat, k: UserKey) returns (p: nat)
    requires Skipped(files, from, k)
    ensures Skipped(files, p, k)
    ensures p < |files| ==> k <= Largest(files[p]).user
  {
    p := from;
    while p < |files| && !(k <= Largest(files[p]).user)
      invariant Skipped(files, p, k)
    {
      p := p + 1;
    }
  }

  lemma NextDecides(files: seq<File>, p: nat, k: UserKey)
    requires DisjointLevel(files) && Skipped(files, p, k)
    requires p < |files| ==> k <= Largest(files[p]).user
    ensures (exists f :: f in files && CoversKey(f, k)) <==> p < |files| && Smallest(files[p]).user <= k
  {
    forall f | f in files && CoversKey(f, k)
      ensures p < |files| && Smallest(files[p]).user <= k
    {
      var i :| 0 <= i < |files| && files[i] == f;
      assert p <= i;
      if p < i {
        BoundsOrdered(files[p]);
        assert Before(files[p], files[i]);
      }
    }
    if p < |files| && Smallest(files[p]).user <= k {
      assert files[p] in files;
    }
  }

  // ----- drop rules -----

  /** last_sequence_for_key when the loop reaches entry i. */
  function LastSequence(input: seq<Entry>, i: nat): SequenceNumber
    requires i < |input|
  {
    if i > 0 && input[i - 1].key.user == input[i].key.user then input[i - 1].key.sequence else MAX_SEQUENCE
  }

  /** Rule (A): hidden by a newer entry that every snapshot can see; or an
      obsolete deletion marker with nothing left below to hide. */
  ghost predicate Dropped(v: Version, level: nat, input: seq<Entry>, smallest: SequenceNumber, i: nat)
    requires i < |input|
  {
    || LastSequence(input, i) <= smallest
    || (input[i].key.kind.TypeDeletion? && input[i].key.sequence <= smallest && IsBase(v, level, input[i].key.user))
  }

  ghost function Kept(v: Version, level: nat, input: seq<Entry>, smallest: SequenceNumber, n: nat): seq<Entry>
    requires n <= |input|
  {
    if n == 0 then []
    else Kept(v, level, input, smallest, n - 1) +
         (if Dropped(v, level, input, smallest, n - 1) then [] else [input[n - 1]])
  }

  /** Finished output files and the entries of the one being built; an output
      file is only opened to receive an entry. */
  datatype OutputState = OutputState(outputs: seq<seq<Entry>>, builder: seq<Entry>)

  ghost function Contents(o: OutputState): seq<Entry> {
    Flatten(o.outputs) + o.builder
  }

  ghost predicate NoEmptyOutput(o: OutputState) {
    forall f :: f in o.outputs ==> f != []
  }

  function FinishOutput(o: OutputState): (r: OutputState)
    ensures Contents(r) == Contents(o) && r.builder == []
    ensures NoEmptyOutput(o) ==> NoEmptyOutput(r)
  {
    if o.builder == [] then o
    else
      assert (o.outputs + [o.builder])[..|o.outputs|] == o.outputs;
      OutputState(o.outputs + [o.builder], [])
  }

  /** Adds an entry to the open output, closing it when it is big enough. */
  function AddOutput(o: OutputState, e: Entry, full: bool): (r: OutputState)
    ensures Contents(r) == Contents(o) + [e]
    ensures NoEmptyOutput(o) ==> NoEmptyOutput(r)
  {
    assert Flatten(o.outputs) + (o.builder + [e]) == Contents(o) + [e];
    var added := o.(builder := o.builder + [e]);
    if full then FinishOutput(added) else added
  }

  /** Decides whether the loop drops an entry, given the loop's state. */
  method ShouldDrop(c: Compaction, ikey: InternalKey, lastSequenceForKey: SequenceNumber, smallest: SequenceNumber)
    returns (drop: bool)
    requires c.Behind(ikey.user)
    requires forall l :: 1 <= l < NUM_LEVELS ==> DisjointLevel(c.version[l])
    modifies c.levelPtrs
    ensures c.Behind(ikey.user)
    ensures drop <==> || lastSequenceForKey <= smallest
                      || (ikey.kind.TypeDeletion? && ikey.sequence <= smallest && IsBase(c.version, c.level, ikey.user))
  {
    drop := false;
    if lastSequenceForKey <= smallest {
      drop := true;  // (A)
    } else if ikey.kind.TypeDeletion? && ikey.sequence <= smallest {
      drop := c.IsBaseLevelForKey(ikey.user);
    }
  }

  /** The compaction loop. Where output files are cut (ShouldStopBefore, file
      size) is given by stopBefore and full; the theorems hold for every
      choice. */
  method DoCompactionWork(c: Compaction, input: seq<Entry>, smallest: SequenceNumber,
                          stopBefore: nat -> bool, full: nat -> bool)
    returns (outputs: seq<seq<Entry>>)
    requires SortedEntries(input)
    requires forall k :: c.Behind(k)
    requires forall l :: 1 <= l < NUM_LEVELS ==> DisjointLevel(c.version[l])
    modifies c.levelPtrs
    ensures Flatten(outputs) == Kept(c.version, c.level, input, smallest, |input|)
    ensures forall o :: o in outputs ==> o != []
    ensures Minimal(c.version, c.level, smallest, EntrySet(Flatten(outputs)))
  {
    hide Minimal;
    var o := OutputState([], []);
    var currentUserKey: Option<UserKey> := None;
    var lastSequenceForKey: SequenceNumber := MAX_SEQUENCE;
    for i := 0 to |input|
      invariant i == 0 ==> currentUserKey.None? && forall k :: c.Behind(k)
      invariant i > 0 ==>
                  && currentUserKey == Some(input[i - 1].key.user)
                  && lastSequenceForKey == input[i - 1].key.sequence
                  && c.Behind(input[i - 1].key.user)
      invariant Contents(o) == Kept(c.version, c.level, input, smallest, i)
      invariant NoEmptyOutput(o)
    {
      BehindLater(c, input, i);
      o := if stopBefore(i) then FinishOutput(o) else o;
      if currentUserKey.None? || input[i].key.user != currentUserKey.value {
        currentUserKey := Some(input[i].key.user);
        lastSequenceForKey := MAX_SEQUENCE;
      }
      assert lastSequenceForKey == LastSequence(input, i);
      var drop := ShouldDrop(c, input[i].key, lastSequenceForKey, smallest);
      lastSequenceForKey := input[i].key.sequence;
      o := if drop then o else AddOutput(o, input[i], full(i));
    }
    o := FinishOutput(o);
    outputs := o.outputs;
    KeptMinimal(c.version, c.level, input, smallest);
  }

  lemma BehindLater(c: Compaction, input: seq<Entry>, i: nat)
    requires i < |input| && SortedEntries(input)
    requires if i == 0 then forall k :: c.Behind(k) else c.Behind(input[i - 1].key.user)
    ensures c.Behind(input[i].key.user)
  {
    if i > 0 {
      assert Less(input[i - 1].key, input[i].key);
    }
  }

  // ----- what survives -----

  lemma {:induction false} KeptMembers(v: Version, level: nat, input: seq<Entry>, smallest: SequenceNumber, n: nat)
    requires n <= |input|
    ensures forall e :: e in Kept(v, level, input, smallest, n) <==>
              exists i :: 0 <= i < n && input[i] == e && !Dropped(v, level, input, smallest, i)
  {
    if n > 0 {
      KeptMembers(v, level, input, smallest, n - 1);
    }
  }

  lemma {:induction false} KeptSorted(v: Version, level: nat, input: seq<Entry>, smallest: SequenceNumber, n: nat)
    requires n <= |input| && SortedEntries(input)
    ensures SortedEntries(Kept(v, level, input, smallest, n))
  {
    if n > 0 {
      KeptSorted(v, level, input, smallest, n - 1);
      KeptMembers(v, level, input, smallest, n - 1);
      var kept := Kept(v, level, input, smallest, n - 1);
      forall j | 0 <= j < |kept| ensures Less(kept[j].key, input[n - 1].key) {
        assert kept[j] in kept;
      }
    }
  }

  /** Nothing obsolete is left: a deletion marker that every snapshot sees stays only
      when a file two levels down or deeper has its key in its range, and of one user
      key at most one entry is that old. */
  ghost predicate Minimal(v: Version, level: nat, smallest: SequenceNumber, es: set<Entry>) {
    && (forall e :: e in es && e.key.kind.TypeDeletion? && e.key.sequence <= smallest ==>
          exists l, f :: level + 2 <= l < NUM_LEVELS && f in v[l]
                         && Smallest(f).user <= e.key.user && e.key.user <= Largest(f).user)
    && (forall x, y :: x in es && y in es && x != y && x.key.user == y.key.user ==>
          x.key.sequence > smallest || y.key.sequence > smallest)
  }

  /** An entry that is kept behind another of its user key is behind one that some
      snapshot does not see. */
  lemma NewerUnseen(v: Version, level: nat, input: seq<Entry>, smallest: SequenceNumber, a: nat, b: nat)
    requires SortedEntries(input) && a < b < |input| && input[a].key.user == input[b].key.user
    requires !Dropped(v, level, input, smallest, b)
    ensures input[a].key.sequence > smallest
  {
    AdjacentVersions(input, a, b);
  }

  lemma KeptMarker(v: Version, level: nat, input: seq<Entry>, smallest: SequenceNumber, a: nat)
    requires a < |input| && !Dropped(v, level, input, smallest, a)
    requires input[a].key.kind.TypeDeletion? && input[a].key.sequence <= smallest
    ensures exists l, f :: level + 2 <= l < NUM_LEVELS && f in v[l]
              && Smallest(f).user <= input[a].key.user && input[a].key.user <= Largest(f).user
  {
  }

  lemma KeptMinimal(v: Version, level: nat, input: seq<Entry>, smallest: SequenceNumber)
    requires SortedEntries(input)
    ensures Minimal(v, level, smallest, EntrySet(Kept(v, level, input, smallest, |input|)))
  {
    hide Kept, Dropped, SortedEntries;
    var kept := Kept(v, level, input, smallest, |input|);
    KeptMembers(v, level, input, smallest, |input|);
    forall e | e in kept && e.key.kind.TypeDeletion? && e.key.sequence <= smallest
      ensures exists l, f :: level + 2 <= l < NUM_LEVELS && f in v[l]
                && Smallest(f).user <= e.key.user && e.key.user <= Largest(f).user
    {
      var a :| 0 <= a < |input| && input[a] == e && !Dropped(v, level, input, smallest, a);
      KeptMarker(v, level, input, smallest, a);
    }
    forall x, y | x in kept && y in kept && x != y && x.key.user == y.key.user
      ensures x.key.sequence > smallest || y.key.sequence > smallest
    {
      var a :| 0 <= a < |input| && input[a] == x && !Dropped(v, level, input, smallest, a);
      var b :| 0 <= b < |input| && input[b] == y && !Dropped(v, level, input, smallest, b);
      if a < b {
        NewerUnseen(v, level, input, smallest, a, b);
      } else {
        NewerUnseen(v, level, input, smallest, b, a);
      }
    }
  }

  /** The deletion rule needs every entry outside the inputs, for a key with
      nothing below, to be newer than the input entries for that key. */
  ghost predicate OthersNewer(v: Version, level: nat, others: set<Entry>, input: seq<Entry>) {
    forall x, y :: x in others && y in input && x.key.user == y.key.user && IsBase(v, level, y.key.user) ==>
      x.key.sequence > y.key.sequence
  }

  /** Dropping entries changes no read at or above the smallest live snapshot. */
  lemma DropsPreserveLookup(v: Version, level: nat, others: set<Entry>, input: seq<Entry>,
                            smallest: SequenceNumber, k: UserKey, s: SequenceNumber)
    requires SortedEntries(input) && UniqueSequences(others + EntrySet(input))
    requires OthersNewer(v, level, others, input)
    requires smallest < MAX_SEQUENCE && smallest <= s
    ensures Lookup(others + EntrySet(Kept(v, level, input, smallest, |input|)), k, s)
         == Lookup(others + EntrySet(input), k, s)
  {
    var all := others + EntrySet(input);
    var kept := Kept(v, level, input, smallest, |input|);
    var rest := others + EntrySet(kept);
    KeptMembers(v, level, input, smallest, |input|);
    assert rest <= all;
    if x :| x in all && x.key.user == k && x.key.sequence <= s {
      var e := NewestExists(all, k, s, x);
      LookupNewest(all, k, s, e);
      if e in rest {
        assert NewestAt(rest, k, s, e);
        LookupNewest(rest, k, s, e);
      } else {
        DroppedNewest(v, level, others, input, smallest, k, s, e);
        LookupNothing(rest, k, s);
      }
    } else {
      LookupNothing(all, k, s);
      LookupNothing(rest, k, s);
    }
  }

  /** If the newest visible entry is dropped it is an obsolete deletion marker,
      and then nothing visible for the key survives. */
  lemma DroppedNewest(v: Version, level: nat, others: set<Entry>, input: seq<Entry>,
                      smallest: SequenceNumber, k: UserKey, s: SequenceNumber, e: Entry)
    requires SortedEntries(input) && UniqueSequences(others + EntrySet(input))
    requires OthersNewer(v, level, others, input)
    requires smallest < MAX_SEQUENCE && smallest <= s
    requires NewestAt(others + EntrySet(input), k, s, e)
    requires e !in others + EntrySet(Kept(v, level, input, smallest, |input|))
    ensures e.key.kind.TypeDeletion?
    ensures forall x :: x in others + EntrySet(Kept(v, level, input, smallest, |input|)) && x.key.user == k ==>
              s < x.key.sequence
  {
    KeptMembers(v, level, input, smallest, |input|);
    var i :| 0 <= i < |input| && input[i] == e;
    assert Dropped(v, level, input, smallest, i);
    NewestNotHidden(others, input, smallest, k, s, i);
    forall j | 0 <= j < |input| && input[j].key.user == k && !Dropped(v, level, input, smallest, j)
      ensures s < input[j].key.sequence
    {
      SurvivorNewer(v, level, others, input, smallest, k, s, i, j);
    }
    forall x | x in others && x.key.user == k ensures s < x.key.sequence {
      assert x in others + EntrySet(input);
    }
  }

  /** Below a dropped deletion marker rule (A) takes everything, so what
      survives for the key lies above the snapshot. */
  lemma SurvivorNewer(v: Version, level: nat, others: set<Entry>, input: seq<Entry>,
                      smallest: SequenceNumber, k: UserKey, s: SequenceNumber, i: nat, j: nat)
    requires SortedEntries(input) && i < |input| && j < |input|
    requires smallest < LastSequence(input, i) && Dropped(v, level, input, smallest, i)
    requires NewestAt(others + EntrySet(input), k, s, input[i])
    requires input[j].key.user == k && !Dropped(v, level, input, smallest, j)
    ensures s < input[j].key.sequence
  {
    hide IsBase;
    if i < j {
      AdjacentVersions(input, i, j);
    } else {
      assert j < i && Less(input[j].key, input[i].key);
      assert input[j] in EntrySet(input);
    }
  }

  lemma NewestNotHidden(others: set<Entry>, input: seq<Entry>, smallest: SequenceNumber, k: UserKey, s: SequenceNumber,
                        i: nat)
    requires SortedEntries(input) && UniqueSequences(others + EntrySet(input))
    requires smallest < MAX_SEQUENCE && smallest <= s
    requires i < |input| && NewestAt(others + EntrySet(input), k, s, input[i])
    ensures smallest < LastSequence(input, i)
  {
    if i > 0 {
      assert Less(input[i - 1].key, input[i].key);
      assert input[i - 1] in EntrySet(input);
    }
  }

  // ----- the limit of the drop rules -----

  /** At the greatest sequence number the mark for "no entry of this key yet" passes
      rule (A), and every entry is dropped. */
  lemma {:induction false} LimitDropsAll(v: Version, level: nat, input: seq<Entry>, n: nat)
    requires n <= |input|
    ensures Kept(v, level, input, MAX_SEQUENCE, n) == []
    decreases n
  {
    if n > 0 {
      LimitDropsAll(v, level, input, n - 1);
    }
  }

  /** Every read from the smallest snapshot on answers the same after the drops. */
  ghost predicate DropsSafe(smallest: SequenceNumber) {
    forall v: Version, level: nat, others: set<Entry>, input: seq<Entry>, k: UserKey, s: SequenceNumber
      {:trigger Lookup(others + EntrySet(Kept(v, level, input, smallest, |input|)), k, s)} ::
      && SortedEntries(input) && UniqueSequences(others + EntrySet(input))
      && OthersNewer(v, level, others, input) && smallest <= s ==>
        Lookup(others + EntrySet(Kept(v, level, input, smallest, |input|)), k, s)
          == Lookup(others + EntrySet(input), k, s)
  }

  /** The drop rules are safe exactly while the smallest snapshot is below the
      greatest sequence number there is. */
  lemma SafeBelowLimit(smallest: SequenceNumber)
    ensures DropsSafe(smallest) <==> smallest < MAX_SEQUENCE
  {
    if smallest < MAX_SEQUENCE {
      forall v: Version, level: nat, others: set<Entry>, input: seq<Entry>, k: UserKey, s: SequenceNumber
        | && SortedEntries(input) && UniqueSequences(others + EntrySet(input))
          && OthersNewer(v, level, others, input) && smallest <= s
        ensures Lookup(others + EntrySet(Kept(v, level, input, smallest, |input|)), k, s)
             == Lookup(others + EntrySet(input), k, s)
      {
        DropsPreserveLookup(v, level, others, input, smallest, k, s);
      }
    } else {
      LimitLoses();
    }
  }

  /** One value, compacted at the limit, is gone. */
  lemma LimitLoses()
    ensures !DropsSafe(MAX_SEQUENCE)
  {
    var v: Version := [[], [], [], [], [], [], []];
    var e := Entry(InternalKey(0.0, 1, TypeValue), "value");
    var input := [e];
    var kept := Kept(v, 0, input, MAX_SEQUENCE, |input|);
    LimitDropsAll(v, 0, input, |input|);
    assert {} + EntrySet(input) == {e} && {} + EntrySet(kept) == {};
    assert NewestAt({e}, 0.0, MAX_SEQUENCE, e);
    LookupNewest({e}, 0.0, MAX_SEQUENCE, e);
    LookupNothing({}, 0.0, MAX_SEQUENCE);
    assert Lookup({} + EntrySet(Kept(v, 0, input, MAX_SEQUENCE, |input|)), 0.0, MAX_SEQUENCE) == None;
    assert Lookup({} + EntrySet(input), 0.0, MAX_SEQUENCE) == Some("value");
  }
}
