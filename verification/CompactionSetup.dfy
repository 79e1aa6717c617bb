/** The range of a set of files and its boundary files (db/version_set.cc). */
module CompactionSetup {
  import opened Options
  import opened DbFormat
  import opened Versions
  import opened CompactionInputs

  // ----- key range of a set of files -----

  function SmallestOf(files: seq<File>): InternalKey
    requires files != []
  {
    var last := files[|files| - 1];
    if |files| == 1 then Smallest(last)
    else
      var k := SmallestOf(files[..|files| - 1]);
      if Less(Smallest(last), k) then Smallest(last) else k
  }

  function LargestOf(files: seq<File>): InternalKey
    requires files != []
  {
    var last := files[|files| - 1];
    if |files| == 1 then Largest(last)
    else
      var k := LargestOf(files[..|files| - 1]);
      if Less(k, Largest(last)) then Largest(last) else k
  }

  lemma {:induction false} SmallestOfLeast(files: seq<File>) returns (w: nat)
    requires files != []
    ensures w < |files| && Smallest(files[w]) == SmallestOf(files)
    ensures forall i :: 0 <= i < |files| ==> AtMost(SmallestOf(files), Smallest(files[i]))
  {
    var n := |files| - 1;
    w := n;
    if n > 0 {
      var u := SmallestOfLeast(files[..n]);
      assert forall i :: 0 <= i < n ==> files[..n][i] == files[i];
      if !Less(Smallest(files[n]), SmallestOf(files[..n])) { w := u; }
    }
  }

  lemma {:induction false} LargestOfGreatest(files: seq<File>) returns (w: nat)
    requires files != []
    ensures w < |files| && Largest(files[w]) == LargestOf(files)
    ensures forall i :: 0 <= i < |files| ==> AtMost(Largest(files[i]), LargestOf(files))
  {
    var n := |files| - 1;
    w := n;
    if n > 0 {
      var u := LargestOfGreatest(files[..n]);
      assert forall i :: 0 <= i < n ==> files[..n][i] == files[i];
      if !Less(LargestOf(files[..n]), Largest(files[n])) { w := u; }
    }
  }

  method GetRange(files: seq<File>) returns (smallest: InternalKey, largest: InternalKey)
    requires files != []
    ensures smallest == SmallestOf(files) && largest == LargestOf(files)
  {
    smallest, largest := Smallest(files[0]), Largest(files[0]);
    for i := 0 to |files|
      invariant i == 0 ==> smallest == Smallest(files[0]) && largest == Largest(files[0])
      invariant i > 0 ==> smallest == SmallestOf(files[..i]) && largest == LargestOf(files[..i])
    {
      assert files[..i + 1][..i] == files[..i];
      if i > 0 {
        if Less(Smallest(files[i]), smallest) {
          smallest := Smallest(files[i]);
        }
        if Less(largest, Largest(files[i])) {
          largest := Largest(files[i]);
        }
      }
    }
    assert files[..|files|] == files;
  }

  // ----- boundary files -----

  /** The file starts after `key` but with the same user key. */
  predicate IsBoundary(f: File, key: InternalKey) {
    Less(key, Smallest(f)) && Smallest(f).user == key.user
  }

  ghost predicate SmallestBoundary(files: seq<File>, key: InternalKey, f: File) {
    && f in files && IsBoundary(f, key)
    && forall g :: g in files && IsBoundary(g, key) ==> AtMost(Smallest(f), Smallest(g))
  }

  method FindSmallestBoundaryFile(files: seq<File>, key: InternalKey) returns (r: Option<File>)
    ensures r.Some? ==> SmallestBoundary(files, key, r.value)
    ensures r.None? ==> forall g :: g in files ==> !IsBoundary(g, key)
  {
    r := None;
    for i := 0 to |files|
      invariant r.Some? ==> SmallestBoundary(files[..i], key, r.value)
      invariant r.None? ==> forall g :: g in files[..i] ==> !IsBoundary(g, key)
    {
      var f := files[i];
      assert files[..i + 1] == files[..i] + [f];
      if Less(key, Smallest(f)) && Smallest(f).user == key.user {
        if r.None? || Less(Smallest(f), Smallest(r.value)) {
          r := Some(f);
        }
      }
    }
    assert files[..|files|] == files;
  }

  /** result extends start by repeatedly taking the smallest boundary file of
      everything chosen so far. */
  ghost predicate BoundaryChain(files: seq<File>, start: seq<File>, result: seq<File>) {
    && start <= result
    && forall i :: 0 < |start| <= i < |result| ==> SmallestBoundary(files, LargestOf(result[..i]), result[i])
  }

  ghost function FilesAfter(files: seq<File>, key: InternalKey): set<int> {
    set i | 0 <= i < |files| && Less(key, Smallest(files[i])) :: i
  }

  lemma FilesAfterShrinks(files: seq<File>, key: InternalKey, f: File)
    requires f in files && Less(key, Smallest(f))
    ensures FilesAfter(files, Largest(f)) < FilesAfter(files, key)
  {
    BoundsOrdered(f);
    var i :| 0 <= i < |files| && files[i] == f;
    assert i in FilesAfter(files, key) && i !in FilesAfter(files, Largest(f));
  }

  lemma LargestOfExtended(files: seq<File>, f: File)
    requires files != [] && Less(LargestOf(files), Smallest(f))
    ensures LargestOf(files + [f]) == Largest(f)
  {
    BoundsOrdered(f);
    assert (files + [f])[..|files|] == files;
  }

  /** Adds boundary files until none is left; the largest key only grows, so
      the search ends. */
  method AddBoundaryInputs(files: seq<File>, start: seq<File>) returns (result: seq<File>)
    ensures BoundaryChain(files, start, result)
    ensures start == [] ==> result == []
    ensures result != [] ==> forall g :: g in files ==> !IsBoundary(g, LargestOf(result))
  {
    result := start;
    if start == [] {
      return;
    }
    var _, largest := GetRange(start);
    var searching := true;
    while searching
      invariant BoundaryChain(files, start, result) && result != []
      invariant largest == LargestOf(result)
      invariant !searching ==> forall g :: g in files ==> !IsBoundary(g, largest)
      decreases FilesAfter(files, largest), searching
    {
      var next := FindSmallestBoundaryFile(files, largest);
      if next.Some? {
        FilesAfterShrinks(files, largest, next.value);
        LargestOfExtended(result, next.value);
        ChainStep(files, start, result, next.value);
        result := result + [next.value];
        largest := Largest(next.value);
      } else {
        searching := false;
      }
    }
  }

  lemma ChainStep(files: seq<File>, start: seq<File>, result: seq<File>, f: File)
    requires start != [] && BoundaryChain(files, start, result)
    requires SmallestBoundary(files, LargestOf(result), f)
    ensures BoundaryChain(files, start, result + [f])
  {
    var r := result + [f];
    forall i | |start| <= i < |r| ensures SmallestBoundary(files, LargestOf(r[..i]), r[i]) {
      assert i < |result| ==> r[..i] == result[..i];
      assert i == |result| ==> r[..i] == result;
    }
  }

  /** Every added file starts after everything chosen before it, so none is
      added twice. */
  lemma ChainDistinct(files: seq<File>, start: seq<File>, result: seq<File>, i: nat, j: nat)
    requires start != [] && BoundaryChain(files, start, result)
    requires |start| <= j < |result| && i < j
    ensures result[i] != result[j]
    ensures result[j] in files
  {
    assert SmallestBoundary(files, LargestOf(result[..j]), result[j]);
    var _ := LargestOfGreatest(result[..j]);
    assert result[..j][i] == result[i];
    BoundsOrdered(result[j]);
  }

  lemma LargestOfSlice(files: seq<File>, a: nat, c: nat)
    requires DisjointLevel(files) && a < c <= |files|
    ensures LargestOf(files[a..c]) == Largest(files[c - 1])
  {
    var w := LargestOfGreatest(files[a..c]);
    assert files[a..c][c - 1 - a] == files[c - 1];
    if a + w < c - 1 {
      assert Before(files[a + w], files[c - 1]);
      BoundsOrdered(files[c - 1]);
    }
  }

  /** On a disjoint level the next boundary file is the next file. */
  lemma NextBoundary(files: seq<File>, c: nat, f: File)
    requires DisjointLevel(files) && 0 < c <= |files|
    requires SmallestBoundary(files, Largest(files[c - 1]), f)
    ensures c < |files| && f == files[c]
  {
    forall i | 0 <= i < c ensures !IsBoundary(files[i], Largest(files[c - 1])) {
      BoundsOrdered(files[c - 1]);
      BoundsOrdered(files[i]);
      assert i < c - 1 ==> Before(files[i], files[c - 1]);
    }
    var j :| 0 <= j < |files| && files[j] == f;
    assert Before(files[c - 1], files[c]);
    if c < j {
      assert Before(files[c], files[j]);
      BoundsOrdered(files[c]);
      assert files[c] in files && IsBoundary(files[c], Largest(files[c - 1]));
    }
  }

  lemma {:induction false} ChainIsSlice(files: seq<File>, start: seq<File>, result: seq<File>, a: nat, c: nat, n: nat)
    returns (d: nat)
    requires DisjointLevel(files) && a < c && Slice(files, start, a, c)
    requires BoundaryChain(files, start, result) && |start| <= n <= |result|
    ensures c <= d && Slice(files, result[..n], a, d)
  {
    hide SmallestBoundary, LargestOf, DisjointLevel;
    if n == |start| {
      assert result[..n] == start;
      return c;
    }
    d := ChainIsSlice(files, start, result, a, c, n - 1);
    assert SmallestBoundary(files, LargestOf(result[..n - 1]), result[n - 1]);
    LargestOfSlice(files, a, d);
    NextBoundary(files, d, result[n - 1]);
    assert result[..n] == result[..n - 1] + [result[n - 1]];
    SliceNext(files, result[..n - 1], a, d);
    d := d + 1;
  }

  lemma SliceNext(files: seq<File>, part: seq<File>, a: nat, d: nat)
    requires Slice(files, part, a, d) && d < |files|
    ensures Slice(files, part + [files[d]], a, d + 1)
  {
  }
}
