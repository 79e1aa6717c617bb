/** Choosing the files of a compaction (db/version_set.cc): the
    overlap queries and GetOverlappingInputs. */
module CompactionInputs {
  import opened Options
  import opened DbFormat
  import opened Versions

  const MAX_MEM_COMPACT_LEVEL: nat := 2

  /** A missing begin lies before all keys, a missing end after all keys. */
  predicate AfterFile(k: Option<UserKey>, f: File) {
    k.Some? && k.value > Largest(f).user
  }

  predicate BeforeFile(k: Option<UserKey>, f: File) {
    k.Some? && k.value < Smallest(f).user
  }

  predicate Overlaps(f: File, b: Option<UserKey>, e: Option<UserKey>) {
    !AfterFile(b, f) && !BeforeFile(e, f)
  }

  lemma LevelOrder(files: seq<File>, i: nat, j: nat)
    requires DisjointLevel(files) && i <= j < |files|
    ensures Smallest(files[i]).user <= Smallest(files[j]).user
    ensures Largest(files[i]).user <= Largest(files[j]).user
    ensures i < j ==> Largest(files[i]).user <= Smallest(files[j]).user
  {
    BoundsOrdered(files[i]);
    BoundsOrdered(files[j]);
    if i < j { assert Before(files[i], files[j]); }
  }

  /** The binary search used on disjoint levels agrees with the linear scan. */
  method SomeFileOverlapsRange(disjoint: bool, files: seq<File>, b: Option<UserKey>, e: Option<UserKey>)
    returns (r: bool)
    requires disjoint ==> DisjointLevel(files)
    ensures r <==> exists f :: f in files && Overlaps(f, b, e)
  {
    if !disjoint {
      for i := 0 to |files|
        invariant forall j :: 0 <= j < i ==> !Overlaps(files[j], b, e)
      {
        if AfterFile(b, files[i]) || BeforeFile(e, files[i]) {
          // No overlap.
        } else {
          assert files[i] in files;
          return true;
        }
      }
      return false;
    }
    var index := 0;
    if b.Some? {
      index := FindFile(files, InternalKey(b.value, MAX_SEQUENCE, TypeValue));
    }
    assert forall i :: 0 <= i < index ==> AfterFile(b, files[i]);
    if index >= |files| {
      return false;
    }
    assert !AfterFile(b, files[index]);
    r := !BeforeFile(e, files[index]);
    if r {
      assert files[index] in files;
    } else {
      forall i | index <= i < |files| ensures BeforeFile(e, files[i]) {
        LevelOrder(files, index, i);
      }
    }
  }

  // ----- GetOverlappingInputs -----

  function FilterOverlap(files: seq<File>, b: Option<UserKey>, e: Option<UserKey>): seq<File> {
    if files == [] then []
    else
      var last := files[|files| - 1];
      FilterOverlap(files[..|files| - 1], b, e) + (if Overlaps(last, b, e) then [last] else [])
  }

  lemma {:induction false} FilterMembers(files: seq<File>, b: Option<UserKey>, e: Option<UserKey>)
    ensures forall f :: f in FilterOverlap(files, b, e) <==> f in files && Overlaps(f, b, e)
  {
    if files != [] {
      var n := |files| - 1;
      FilterMembers(files[..n], b, e);
      assert files == files[..n] + [files[n]];
    }
  }

  /** [b2, e2] contains [b, e]. */
  predicate Wider(b2: Option<UserKey>, e2: Option<UserKey>, b: Option<UserKey>, e: Option<UserKey>) {
    && (b2.Some? ==> b.Some? && b2.value <= b.value)
    && (e2.Some? ==> e.Some? && e.value <= e2.value)
  }

  /** Every file that overlaps [b, e] lies inside it. */
  ghost predicate ClosedRange(files: seq<File>, b: Option<UserKey>, e: Option<UserKey>) {
    forall f :: f in files && Overlaps(f, b, e) ==> !StartsBefore(f, b) && !EndsAfter(f, e)
  }

  ghost predicate LeastClosed(files: seq<File>, b: Option<UserKey>, e: Option<UserKey>,
                              lo: Option<UserKey>, hi: Option<UserKey>) {
    && Wider(lo, hi, b, e)
    && ClosedRange(files, lo, hi)
    && forall b2, e2 :: Wider(b2, e2, b, e) && ClosedRange(files, b2, e2) ==> Wider(b2, e2, lo, hi)
  }

  ghost predicate StartsBefore(f: File, b: Option<UserKey>) {
    b.Some? && Smallest(f).user < b.value
  }

  ghost predicate EndsAfter(f: File, e: Option<UserKey>) {
    e.Some? && e.value < Largest(f).user
  }

  ghost function StartsBelow(files: seq<File>, b: Option<UserKey>): set<int> {
    set i | 0 <= i < |files| && StartsBefore(files[i], b) :: i
  }

  ghost function EndsAbove(files: seq<File>, e: Option<UserKey>): set<int> {
    set i | 0 <= i < |files| && EndsAfter(files[i], e) :: i
  }

  /** The range [ub, ue] is forced: every closed range around [b, e] contains it. */
  ghost predicate Forced(files: seq<File>, b: Option<UserKey>, e: Option<UserKey>,
                         ub: Option<UserKey>, ue: Option<UserKey>) {
    && Wider(ub, ue, b, e)
    && forall b2, e2 :: Wider(b2, e2, b, e) && ClosedRange(files, b2, e2) ==> Wider(b2, e2, ub, ue)
  }

  lemma ForcedBegin(files: seq<File>, b: Option<UserKey>, e: Option<UserKey>,
                    ub: Option<UserKey>, ue: Option<UserKey>, i: nat)
    requires Forced(files, b, e, ub, ue)
    requires i < |files| && Overlaps(files[i], ub, ue) && StartsBefore(files[i], ub)
    ensures Forced(files, b, e, Some(Smallest(files[i]).user), ue)
    ensures StartsBelow(files, Some(Smallest(files[i]).user)) < StartsBelow(files, ub)
  {
    assert i in StartsBelow(files, ub);
    forall b2, e2 | Wider(b2, e2, b, e) && ClosedRange(files, b2, e2)
      ensures Wider(b2, e2, Some(Smallest(files[i]).user), ue)
    {
      assert Wider(b2, e2, ub, ue);
      assert Overlaps(files[i], b2, e2);
    }
  }

  lemma ForcedEnd(files: seq<File>, b: Option<UserKey>, e: Option<UserKey>,
                  ub: Option<UserKey>, ue: Option<UserKey>, i: nat)
    requires Forced(files, b, e, ub, ue)
    requires i < |files| && Overlaps(files[i], ub, ue) && EndsAfter(files[i], ue)
    ensures Forced(files, b, e, ub, Some(Largest(files[i]).user))
    ensures EndsAbove(files, Some(Largest(files[i]).user)) < EndsAbove(files, ue)
  {
    assert i in EndsAbove(files, ue);
    forall b2, e2 | Wider(b2, e2, b, e) && ClosedRange(files, b2, e2)
      ensures Wider(b2, e2, ub, Some(Largest(files[i]).user))
    {
      assert Wider(b2, e2, ub, ue);
      assert Overlaps(files[i], b2, e2);
    }
  }

  lemma FilterStep(files: seq<File>, i: nat, b: Option<UserKey>, e: Option<UserKey>)
    requires i < |files|
    ensures FilterOverlap(files[..i + 1], b, e)
         == FilterOverlap(files[..i], b, e) + (if Overlaps(files[i], b, e) then [files[i]] else [])
  {
    assert files[..i + 1][..i] == files[..i];
  }

  /** Files that overlap [b, e]. Level-0 files may overlap each other, so there
      the range grows to the least closed one and the search restarts. */
  method GetOverlappingInputs(files: seq<File>, levelZero: bool, b: Option<UserKey>, e: Option<UserKey>)
    returns (inputs: seq<File>, ghost lo: Option<UserKey>, ghost hi: Option<UserKey>)
    ensures inputs == FilterOverlap(files, lo, hi)
    ensures !levelZero ==> lo == b && hi == e
    ensures levelZero ==> LeastClosed(files, b, e, lo, hi)
  {
    inputs := [];
    var ub, ue := b, e;
    var i := 0;
    while i < |files|
      invariant 0 <= i <= |files|
      invariant inputs == FilterOverlap(files[..i], ub, ue)
      invariant !levelZero ==> ub == b && ue == e
      invariant Forced(files, b, e, ub, ue)
      invariant levelZero ==> forall j :: 0 <= j < i && Overlaps(files[j], ub, ue) ==>
                                !StartsBefore(files[j], ub) && !EndsAfter(files[j], ue)
      decreases StartsBelow(files, ub), EndsAbove(files, ue), |files| - i
    {
      var f := files[i];
      FilterStep(files, i, ub, ue);
      i := i + 1;
      if ub.Some? && Largest(f).user < ub.value {
        // f is completely before the range.
      } else if ue.Some? && Smallest(f).user > ue.value {
        // f is completely after the range.
      } else {
        inputs := inputs + [f];
        if levelZero {
          if ub.Some? && Smallest(f).user < ub.value {
            ForcedBegin(files, b, e, ub, ue, i - 1);
            ub := Some(Smallest(f).user);
            inputs := [];
            i := 0;
          } else if ue.Some? && Largest(f).user > ue.value {
            ForcedEnd(files, b, e, ub, ue, i - 1);
            ue := Some(Largest(f).user);
            inputs := [];
            i := 0;
          }
        }
      }
    }
    assert files[..|files|] == files;
    lo, hi := ub, ue;
  }

  /** sub is the contiguous run of files from a to c. */
  ghost predicate Slice(files: seq<File>, sub: seq<File>, a: nat, c: nat) {
    a <= c <= |files| && sub == files[a..c]
  }

  lemma OverlapConvex(files: seq<File>, b: Option<UserKey>, e: Option<UserKey>, i: nat, j: nat, k: nat)
    requires DisjointLevel(files) && i <= j <= k < |files|
    requires Overlaps(files[i], b, e) && Overlaps(files[k], b, e)
    ensures Overlaps(files[j], b, e)
  {
    LevelOrder(files, i, j);
    LevelOrder(files, j, k);
  }

  /** On a disjoint level the overlapping files are a contiguous run. */
  lemma {:induction false} OverlapRun(files: seq<File>, b: Option<UserKey>, e: Option<UserKey>, n: nat)
    returns (a: nat, c: nat)
    requires DisjointLevel(files) && n <= |files|
    ensures a <= c <= n
    ensures forall i :: 0 <= i < n ==> (a <= i < c <==> Overlaps(files[i], b, e))
  {
    if n == 0 {
      return 0, 0;
    }
    a, c := OverlapRun(files, b, e, n - 1);
    if Overlaps(files[n - 1], b, e) {
      if a == c {
        a := n - 1;
      } else {
        OverlapConvex(files, b, e, a, c, n - 1);
      }
      c := n;
    }
  }

  lemma {:induction false} FilterRun(files: seq<File>, b: Option<UserKey>, e: Option<UserKey>, a: nat, c: nat, n: nat)
    requires a <= c <= |files| && n <= |files|
    requires forall i :: 0 <= i < |files| ==> (a <= i < c <==> Overlaps(files[i], b, e))
    ensures FilterOverlap(files[..n], b, e) == RunPart(files, a, c, n)
  {
    if n > 0 {
      hide FilterOverlap, Overlaps, RunPart;
      FilterRun(files, b, e, a, c, n - 1);
      FilterStep(files, n - 1, b, e);
      RunPartNext(files, a, c, n - 1);
    }
  }

  /** The files of the run from a to c among the first n. */
  function RunPart(files: seq<File>, a: nat, c: nat, n: nat): seq<File>
    requires a <= c <= |files| && n <= |files|
  {
    if n <= a then [] else if n <= c then files[a..n] else files[a..c]
  }

  lemma RunPartNext(files: seq<File>, a: nat, c: nat, n: nat)
    requires a <= c <= |files| && n < |files|
    ensures RunPart(files, a, c, n + 1) == RunPart(files, a, c, n) + if a <= n < c then [files[n]] else []
  {
  }

  lemma FilterIsSlice(files: seq<File>, b: Option<UserKey>, e: Option<UserKey>) returns (a: nat, c: nat)
    requires DisjointLevel(files)
    ensures Slice(files, FilterOverlap(files, b, e), a, c)
    ensures forall i :: 0 <= i < |files| ==> (a <= i < c <==> Overlaps(files[i], b, e))
  {
    a, c := OverlapRun(files, b, e, |files|);
    FilterRun(files, b, e, a, c, |files|);
    assert files[..|files|] == files;
  }
}
