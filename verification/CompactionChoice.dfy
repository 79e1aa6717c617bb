/** SetupOtherInputs, PickCompaction and CompactRange (db/version_set.cc), and
    the closure of the chosen inputs that makes a compaction sound. */
module CompactionChoice {
  import opened Options
  import opened DbFormat
  import opened Versions
  import opened CompactionInputs
  import opened CompactionSetup

  ghost predicate Distinct(files: seq<File>) {
    forall i, j :: 0 <= i < j < |files| ==> files[i] != files[j]
  }

  ghost predicate ClosedSelection(files: seq<File>, sel: seq<File>, lo: Option<UserKey>, hi: Option<UserKey>) {
    ClosedRange(files, lo, hi) && sel == FilterOverlap(files, lo, hi)
  }

  /** Starting set of a compaction: level 0, all files overlapping a closed
      range; deeper levels, a contiguous run of files. */
  ghost predicate Selected(files: seq<File>, levelZero: bool, sel: seq<File>) {
    && sel != []
    && if levelZero then exists lo, hi :: ClosedSelection(files, sel, lo, hi)
       else exists a: nat, c: nat :: Slice(files, sel, a, c)
  }

  /** No file follows position c with the user key that ends position c - 1. */
  ghost predicate BoundaryFree(files: seq<File>, c: nat)
    requires 0 < c <= |files|
  {
    c == |files| || Largest(files[c - 1]).user != Smallest(files[c]).user
  }

  /** A selection that needs no further boundary file. */
  ghost predicate Chosen(files: seq<File>, levelZero: bool, sel: seq<File>) {
    && sel != []
    && if levelZero then exists lo, hi :: ClosedSelection(files, sel, lo, hi)
       else exists a: nat, c: nat :: Slice(files, sel, a, c) && a < c && BoundaryFree(files, c)
  }

  lemma LevelZeroNeedsNoBoundary(files: seq<File>, sel: seq<File>, lo: Option<UserKey>, hi: Option<UserKey>, g: File)
    requires sel != [] && ClosedSelection(files, sel, lo, hi) && g in files
    ensures !IsBoundary(g, LargestOf(sel))
  {
    FilterMembers(files, lo, hi);
    var w := LargestOfGreatest(sel);
    BoundsOrdered(sel[w]);
    BoundsOrdered(g);
    assert sel[w] in sel;
    if g in sel {
      var i :| 0 <= i < |sel| && sel[i] == g;
    } else {
      assert !Overlaps(g, lo, hi);
    }
  }

  lemma SliceBoundaryFree(files: seq<File>, a: nat, d: nat)
    requires DisjointLevel(files) && a < d <= |files|
    requires forall g :: g in files ==> !IsBoundary(g, LargestOf(files[a..d]))
    ensures BoundaryFree(files, d)
  {
    LargestOfSlice(files, a, d);
    if d < |files| {
      assert Before(files[d - 1], files[d]);
      assert files[d] in files;
    }
  }

  lemma BoundaryCompletes(files: seq<File>, levelZero: bool, sel: seq<File>, result: seq<File>)
    requires !levelZero ==> DisjointLevel(files)
    requires Selected(files, levelZero, sel) && BoundaryChain(files, sel, result)
    requires forall g :: g in files ==> !IsBoundary(g, LargestOf(result))
    ensures Chosen(files, levelZero, result)
  {
    if levelZero {
      var lo, hi :| ClosedSelection(files, sel, lo, hi);
      if |sel| < |result| {
        assert SmallestBoundary(files, LargestOf(result[..|sel|]), result[|sel|]);
        assert result[..|sel|] == sel;
        LevelZeroNeedsNoBoundary(files, sel, lo, hi, result[|sel|]);
        assert false;
      }
      assert result == sel;
    } else {
      var a: nat, c: nat :| Slice(files, sel, a, c);
      var d := ChainIsSlice(files, sel, result, a, c, |result|);
      assert result[..|result|] == result;
      SliceBoundaryFree(files, a, d);
      assert Slice(files, result, a, d);
    }
  }

  lemma {:induction false} FilterDistinct(files: seq<File>, b: Option<UserKey>, e: Option<UserKey>)
    requires Distinct(files)
    ensures Distinct(FilterOverlap(files, b, e))
  {
    if files != [] {
      var n := |files| - 1;
      FilterDistinct(files[..n], b, e);
      FilterMembers(files[..n], b, e);
    }
  }

  lemma ChosenDistinct(v: Version, level: nat, sel: seq<File>)
    requires LsmInvariant(v) && level < NUM_LEVELS && Chosen(v[level], level == 0, sel)
    ensures Distinct(v[level]) && Distinct(sel)
    ensures forall f :: f in sel ==> f in v[level]
  {
    var files := v[level];
    forall i, j | 0 <= i < j < |files| ensures files[i] != files[j] {
      if level == 0 {
        assert BySmallest(files[i], files[j]);
      } else {
        assert Before(files[i], files[j]);
        BoundsOrdered(files[i]);
      }
    }
    if level == 0 {
      var lo, hi :| ClosedSelection(files, sel, lo, hi);
      FilterDistinct(files, lo, hi);
      FilterMembers(files, lo, hi);
    }
  }

  /** No file left behind at the level holds an older entry for a user key of a
      chosen file. */
  ghost predicate NoOlderLeft(files: seq<File>, sel: seq<File>) {
    forall f, g {:trigger NewerThan(g, f)} :: f in sel && g in files && g !in sel ==> NewerThan(g, f)
  }

  lemma SharesUser(f: File, g: File) returns (a: Entry, b: Entry)
    requires !NewerThan(g, f)
    ensures a in f.entries && b in g.entries && a.key.user == b.key.user && b.key.sequence <= a.key.sequence
    ensures Smallest(g).user <= a.key.user <= Largest(g).user
    ensures Smallest(f).user <= a.key.user <= Largest(f).user
  {
    b, a :| b in g.entries && a in f.entries && b.key.user == a.key.user && !(b.key.sequence > a.key.sequence);
    FileBounds(f, a);
    FileBounds(g, b);
  }

  lemma SliceNoOlder(v: Version, level: nat, a: nat, c: nat, i: nat, j: nat)
    requires LsmInvariant(v) && 1 <= level < NUM_LEVELS
    requires a < c <= |v[level]| && BoundaryFree(v[level], c)
    requires a <= i < c && j < |v[level]| && !(a <= j < c)
    ensures NewerThan(v[level][j], v[level][i])
  {
    var files := v[level];
    if j < i {
      EarlierFileNewer(v, level, j, i);
    } else if !NewerThan(files[j], files[i]) {
      var x, y := SharesUser(files[i], files[j]);
      LevelOrder(files, i, c - 1);
      LevelOrder(files, c - 1, c);
      LevelOrder(files, c, j);
    }
  }

  lemma SliceMember(files: seq<File>, sub: seq<File>, a: nat, c: nat, j: nat)
    requires Slice(files, sub, a, c) && a <= j < c
    ensures files[j] in sub
  {
    assert sub[j - a] == files[j];
  }

  lemma LevelZeroNoOlder(files: seq<File>, sel: seq<File>, lo: Option<UserKey>, hi: Option<UserKey>)
    requires ClosedSelection(files, sel, lo, hi)
    ensures NoOlderLeft(files, sel)
  {
    FilterMembers(files, lo, hi);
    forall f, g | f in sel && g in files && g !in sel ensures NewerThan(g, f) {
      if !NewerThan(g, f) {
        var _, _ := SharesUser(f, g);
      }
    }
  }

  lemma RunNoOlder(v: Version, level: nat, sel: seq<File>, a: nat, c: nat)
    requires LsmInvariant(v) && 1 <= level < NUM_LEVELS
    requires Slice(v[level], sel, a, c) && a < c && BoundaryFree(v[level], c)
    ensures NoOlderLeft(v[level], sel)
  {
    var files := v[level];
    forall f, g | f in sel && g in files && g !in sel ensures NewerThan(g, f) {
      var i :| 0 <= i < |sel| && sel[i] == f;
      var j :| 0 <= j < |files| && files[j] == g;
      if !(a <= j < c) {
        SliceNoOlder(v, level, a, c, a + i, j);
      } else {
        SliceMember(files, sel, a, c, j);
      }
    }
  }

  lemma ChosenNoOlder(v: Version, level: nat, sel: seq<File>)
    requires LsmInvariant(v) && level < NUM_LEVELS && Chosen(v[level], level == 0, sel)
    ensures NoOlderLeft(v[level], sel)
  {
    if level == 0 {
      var lo, hi :| ClosedSelection(v[level], sel, lo, hi);
      LevelZeroNoOlder(v[level], sel, lo, hi);
    } else {
      var a: nat, c: nat :| Slice(v[level], sel, a, c) && a < c && BoundaryFree(v[level], c);
      RunNoOlder(v, level, sel, a, c);
    }
  }

  /** What SetupOtherInputs makes true of the inputs of a compaction from level
      to level + 1: nothing left at either level holds an older entry for a
      chosen user key, nothing left at level + 1 meets the user range of the
      level inputs, and every file left at level + 1 lies wholly before or
      wholly after all inputs. */
  ghost predicate ClosedInputs(v: Version, level: nat, in0: seq<File>, in1: seq<File>) {
    && level + 1 < NUM_LEVELS
    && in0 != [] && Distinct(in0) && Distinct(in1)
    && (level > 0 ==> DisjointLevel(in0)) && DisjointLevel(in1)
    && (forall f :: f in in0 ==> f in v[level])
    && (forall f :: f in in1 ==> f in v[level + 1])
    && NoOlderLeft(v[level], in0)
    && NoOlderLeft(v[level + 1], in1)
    && (forall g :: g in v[level + 1] && g !in in1 ==>
          !Overlaps(g, Some(SmallestOf(in0).user), Some(LargestOf(in0).user)))
    && (forall g :: g in v[level + 1] && g !in in1 ==> LeftOfAll(g, in0 + in1) || RightOfAll(g, in0 + in1))
  }

  ghost predicate LeftOfAll(g: File, fs: seq<File>) {
    forall f :: f in fs ==> Before(g, f)
  }

  ghost predicate RightOfAll(g: File, fs: seq<File>) {
    forall f :: f in fs ==> Before(f, g)
  }

  /** in1 is the run of files overlapping [b, e], extended to the right by
      boundary files. */
  ghost predicate Covering(files: seq<File>, in1: seq<File>, b: UserKey, e: UserKey, a: nat, c: nat, d: nat) {
    && a <= c <= d && Slice(files, in1, a, d)
    && (forall i :: 0 <= i < |files| ==> (a <= i < c <==> Overlaps(files[i], Some(b), Some(e))))
    && (a == c ==> c == d)
    && (a < d ==> BoundaryFree(files, d))
  }

  ghost predicate Covers(files: seq<File>, in1: seq<File>, b: UserKey, e: UserKey) {
    exists a: nat, c: nat, d: nat :: Covering(files, in1, b, e, a, c, d)
  }

  method GetParentInputs(files: seq<File>, b: UserKey, e: UserKey) returns (in1: seq<File>)
    requires DisjointLevel(files)
    ensures Covers(files, in1, b, e)
  {
    var sel, _, _ := GetOverlappingInputs(files, false, Some(b), Some(e));
    in1 := AddBoundaryInputs(files, sel);
    ghost var a, c := FilterIsSlice(files, Some(b), Some(e));
    ghost var d := c;
    if sel != [] {
      d := ChainIsSlice(files, sel, in1, a, c, |in1|);
      assert in1[..|in1|] == in1;
      SliceBoundaryFree(files, a, d);
    }
    assert Covering(files, in1, b, e, a, c, d);
  }

  /** Where a file left out of the covering run lies. */
  lemma OutsideRun(files: seq<File>, b: UserKey, e: UserKey, a: nat, c: nat, d: nat, j: nat)
    requires DisjointLevel(files) && a <= d <= |files| && Covering(files, files[a..d], b, e, a, c, d)
    requires j < |files| && !(a <= j < d)
    ensures Largest(files[j]).user < b || e < Smallest(files[j]).user
    ensures a < d && Largest(files[j]).user < b ==> j < a
    ensures a < d && e < Smallest(files[j]).user ==> d <= j
  {
    if a < d {
      assert Overlaps(files[a], Some(b), Some(e));
      if a <= j { LevelOrder(files, a, j); } else { LevelOrder(files, j, a); }
    }
  }

  lemma SidesOfInputs(files: seq<File>, in0: seq<File>, in1: seq<File>, b: UserKey, e: UserKey,
                      a: nat, c: nat, d: nat, j: nat)
    requires DisjointLevel(files) && Covering(files, in1, b, e, a, c, d)
    requires forall f :: f in in0 ==> b <= Smallest(f).user && Largest(f).user <= e
    requires j < |files| && !(a <= j < d)
    ensures !Overlaps(files[j], Some(b), Some(e))
    ensures LeftOfAll(files[j], in0 + in1) || RightOfAll(files[j], in0 + in1)
  {
    OutsideRun(files, b, e, a, c, d, j);
    forall f | f in in0 + in1
      ensures if Largest(files[j]).user < b then Before(files[j], f) else Before(f, files[j])
    {
      if f !in in0 {
        var i :| a <= i < d && files[i] == f;
        assert if j < a then Before(files[j], files[i]) else Before(files[i], files[j]);
      }
    }
  }

  lemma ParentsClosed(files: seq<File>, in0: seq<File>, in1: seq<File>, a: nat, c: nat, d: nat, g: File)
    requires in0 != [] && DisjointLevel(files)
    requires Covering(files, in1, SmallestOf(in0).user, LargestOf(in0).user, a, c, d)
    requires g in files && g !in in1
    ensures !Overlaps(g, Some(SmallestOf(in0).user), Some(LargestOf(in0).user))
    ensures LeftOfAll(g, in0 + in1) || RightOfAll(g, in0 + in1)
  {
    var _ := SmallestOfLeast(in0);
    var _ := LargestOfGreatest(in0);
    var j :| 0 <= j < |files| && files[j] == g;
    if !(a <= j < d) {
      SidesOfInputs(files, in0, in1, SmallestOf(in0).user, LargestOf(in0).user, a, c, d, j);
    } else {
      SliceMember(files, in1, a, d, j);
    }
  }

  lemma SliceDisjoint(files: seq<File>, sub: seq<File>, a: nat, c: nat)
    requires DisjointLevel(files) && Slice(files, sub, a, c)
    ensures DisjointLevel(sub)
  {
    forall i, j | 0 <= i < j < |sub| ensures Before(sub[i], sub[j]) {
      assert Before(files[a + i], files[a + j]);
    }
  }

  lemma InputsClosed(v: Version, level: nat, in0: seq<File>, in1: seq<File>)
    requires LsmInvariant(v) && level + 1 < NUM_LEVELS && Chosen(v[level], level == 0, in0)
    requires Covers(v[level + 1], in1, SmallestOf(in0).user, LargestOf(in0).user)
    ensures ClosedInputs(v, level, in0, in1)
  {
    var a: nat, c: nat, d: nat :| Covering(v[level + 1], in1, SmallestOf(in0).user, LargestOf(in0).user, a, c, d);
    ChosenDistinct(v, level, in0);
    ChosenNoOlder(v, level, in0);
    if in1 != [] {
      assert Chosen(v[level + 1], false, in1);
      ChosenDistinct(v, level + 1, in1);
      ChosenNoOlder(v, level + 1, in1);
    }
    assert DisjointLevel(v[level + 1]);
    SliceDisjoint(v[level + 1], in1, a, d);
    if level > 0 {
      var x: nat, y: nat :| Slice(v[level], in0, x, y) && x < y && BoundaryFree(v[level], y);
      SliceDisjoint(v[level], in0, x, y);
    }
    forall g | g in v[level + 1] && g !in in1
      ensures !Overlaps(g, Some(SmallestOf(in0).user), Some(LargestOf(in0).user))
      ensures LeftOfAll(g, in0 + in1) || RightOfAll(g, in0 + in1)
    {
      ParentsClosed(v[level + 1], in0, in1, a, c, d, g);
    }
  }

  // ----- the compaction pickers -----

  function TotalFileSize(files: seq<File>): nat {
    if files == [] then 0 else files[0].size + TotalFileSize(files[1..])
  }

  /** The inputs before the level inputs are grown: boundary files and the
      overlapping files of the next level. */
  ghost predicate FirstInputs(v: Version, level: nat, sel: seq<File>, first0: seq<File>, first1: seq<File>)
    requires level + 1 < NUM_LEVELS
  {
    && first0 != [] && BoundaryChain(v[level], sel, first0)
    && Covers(v[level + 1], first1, SmallestOf(first0).user, LargestOf(first0).user)
  }

  /** wide0 is everything of the level that meets a range, level 0 with the least
      range closed under overlap, and boundary files. */
  ghost predicate Widened(files: seq<File>, levelZero: bool, b: UserKey, e: UserKey, wide0: seq<File>) {
    exists lo, hi ::
      && (if levelZero then LeastClosed(files, Some(b), Some(e), lo, hi) else lo == Some(b) && hi == Some(e))
      && BoundaryChain(files, FilterOverlap(files, lo, hi), wide0)
  }

  /** More files of the level would fit. */
  predicate Fits(first0: seq<File>, first1: seq<File>, wide0: seq<File>, limit: nat) {
    first1 != [] && |first0| < |wide0| && TotalFileSize(first1) + TotalFileSize(wide0) < limit
  }

  /** What the level inputs could be grown to, and the files below that they meet
      then. */
  ghost predicate CouldGrow(v: Version, level: nat, first0: seq<File>, first1: seq<File>,
                            wide0: seq<File>, wide1: seq<File>, limit: nat)
    requires level + 1 < NUM_LEVELS
  {
    var all := first0 + first1;
    && (first1 != [] ==> Widened(v[level], level == 0, SmallestOf(all).user, LargestOf(all).user, wide0))
    && (Fits(first0, first1, wide0, limit) ==>
        Covers(v[level + 1], wide1, SmallestOf(wide0).user, LargestOf(wide0).user))
  }

  /** The files two levels down that the compaction meets. */
  function Grandparents(v: Version, level: nat, in0: seq<File>, in1: seq<File>): seq<File>
    requires in0 != []
  {
    if level + 2 >= NUM_LEVELS then []
    else FilterOverlap(v[level + 2], Some(SmallestOf(in0 + in1).user), Some(LargestOf(in0 + in1).user))
  }

  /** SetupOtherInputs: completes the level inputs with boundary files, adds the
      overlapping files of the next level, and then grows the level inputs exactly
      when that does not pull in more files below. `pointer` is where the next
      compaction of the level starts. */
  method SetupOtherInputs(v: Version, level: nat, sel: seq<File>, maxFileSize: nat)
    returns (in0: seq<File>, in1: seq<File>, grandparents: seq<File>, pointer: InternalKey,
             ghost first0: seq<File>, ghost first1: seq<File>, ghost wide0: seq<File>, ghost wide1: seq<File>)
    requires LsmInvariant(v) && level + 1 < NUM_LEVELS && Selected(v[level], level == 0, sel)
    ensures ClosedInputs(v, level, in0, in1)
    ensures FirstInputs(v, level, sel, first0, first1)
    ensures CouldGrow(v, level, first0, first1, wide0, wide1, 25 * maxFileSize)
    ensures (in0, in1) == if Fits(first0, first1, wide0, 25 * maxFileSize) && |wide1| == |first1| then (wide0, wide1)
                          else (first0, first1)
    ensures forall f :: f in sel ==> f in in0
    ensures pointer == LargestOf(in0) && grandparents == Grandparents(v, level, in0, in1)
  {
    hide SmallestOf, LargestOf, Covers, BoundaryFree, Slice, ClosedSelection, ClosedInputs, BoundaryChain;
    hide TotalFileSize, Widened;
    in0 := AddBoundaryInputs(v[level], sel);
    ChainStarts(v[level], sel, in0);
    BoundaryCompletes(v[level], level == 0, sel, in0);
    var smallest, largest := GetRange(in0);
    in1 := GetParentInputs(v[level + 1], smallest.user, largest.user);
    first0, first1, wide0, wide1 := in0, in1, in0, in1;
    var allStart, allLimit := GetRange(in0 + in1);
    if in1 != [] {
      var expanded0 := ExpandLevelInputs(v, level, in0, in1, allStart.user, allLimit.user);
      wide0 := expanded0;
      if |expanded0| > |in0| && TotalFileSize(in1) + TotalFileSize(expanded0) < 25 * maxFileSize {
        var newStart, newLimit := GetRange(expanded0);
        var expanded1 := GetParentInputs(v[level + 1], newStart.user, newLimit.user);
        wide1 := expanded1;
        if |expanded1| == |in1| {
          smallest, largest := newStart, newLimit;
          in0, in1 := expanded0, expanded1;
          allStart, allLimit := GetRange(in0 + in1);
        }
      }
    }
    InputsClosed(v, level, in0, in1);
    grandparents := [];
    if level + 2 < NUM_LEVELS {
      var below, _, _ := GetOverlappingInputs(v[level + 2], false, Some(allStart.user), Some(allLimit.user));
      grandparents := below;
    }
    pointer := largest;
  }

  lemma ChainStarts(files: seq<File>, start: seq<File>, result: seq<File>)
    requires BoundaryChain(files, start, result)
    ensures start != [] ==> result != []
    ensures forall f :: f in start ==> f in result
  {
    forall f | f in start ensures f in result {
      var i :| 0 <= i < |start| && start[i] == f;
      assert result[i] == f;
    }
  }

  /** The level inputs grown to everything that overlaps the whole compaction. */
  method ExpandLevelInputs(v: Version, level: nat, in0: seq<File>, in1: seq<File>, b: UserKey, e: UserKey)
    returns (expanded: seq<File>)
    requires LsmInvariant(v) && level + 1 < NUM_LEVELS && Chosen(v[level], level == 0, in0)
    requires b == SmallestOf(in0 + in1).user && e == LargestOf(in0 + in1).user
    ensures Chosen(v[level], level == 0, expanded) && Widened(v[level], level == 0, b, e, expanded)
    ensures forall f :: f in in0 ==> f in expanded
  {
    var sel, lo, hi := GetOverlappingInputs(v[level], level == 0, Some(b), Some(e));
    FilterMembers(v[level], lo, hi);
    ChosenDistinct(v, level, in0);
    forall f | f in in0 ensures f in sel {
      InRange(in0 + in1, f);
      BoundsOrdered(f);
    }
    assert in0[0] in sel;
    if level == 0 {
      assert ClosedSelection(v[level], sel, lo, hi);
    } else {
      ghost var a, c := FilterIsSlice(v[level], lo, hi);
      assert Slice(v[level], sel, a, c);
    }
    expanded := AddBoundaryInputs(v[level], sel);
    BoundaryCompletes(v[level], level == 0, sel, expanded);
  }

  lemma InRange(files: seq<File>, f: File)
    requires f in files
    ensures SmallestOf(files).user <= Smallest(f).user && Largest(f).user <= LargestOf(files).user
  {
    var i :| 0 <= i < |files| && files[i] == f;
    var _ := SmallestOfLeast(files);
    var _ := LargestOfGreatest(files);
  }

  /** A file past the level's compaction pointer. */
  predicate PastPointer(pointer: Option<InternalKey>, f: File) {
    pointer.None? || Less(pointer.value, Largest(f))
  }

  /** File i is the first past the pointer, or the first of all when none is. */
  ghost predicate IsPick(files: seq<File>, pointer: Option<InternalKey>, i: nat) {
    && i < |files|
    && (forall j :: 0 <= j < i ==> !PastPointer(pointer, files[j]))
    && (PastPointer(pointer, files[i]) || (i == 0 && forall f :: f in files ==> !PastPointer(pointer, f)))
  }

  /** Compactions of a level go round: a pointer at the end of one file picks the next
      one, and the first after the last. */
  lemma RoundRobin(files: seq<File>, m: nat, i: nat)
    requires DisjointLevel(files) && m < |files| && IsPick(files, Some(Largest(files[m])), i)
    ensures i == if m + 1 < |files| then m + 1 else 0
  {
    forall a, b | 0 <= a < b < |files| ensures Less(Largest(files[a]), Largest(files[b])) {
      assert Before(files[a], files[b]);
      BoundsOrdered(files[b]);
    }
    if m + 1 < |files| {
      assert files[m + 1] in files;
    }
  }

  method PickFile(files: seq<File>, pointer: Option<InternalKey>) returns (i: nat)
    requires files != []
    ensures IsPick(files, pointer, i)
  {
    i := 0;
    while i < |files|
      invariant 0 <= i <= |files| && forall j :: 0 <= j < i ==> !PastPointer(pointer, files[j])
    {
      if PastPointer(pointer, files[i]) {
        return;
      }
      i := i + 1;
    }
    i := 0;
  }

  const LEVEL_ZERO_TRIGGER: real := 4.0

  function MaxBytesForLevel(level: nat): (r: real)
    ensures r > 0.0
  {
    if level <= 1 then 10.0 * 1048576.0 else 10.0 * MaxBytesForLevel(level - 1)
  }

  /** How far a level is over its limit: in files at level 0, in bytes below. */
  function Score(v: Version, level: nat): real
    requires level < NUM_LEVELS
  {
    if level == 0 then |v[0]| as real / LEVEL_ZERO_TRIGGER
    else TotalFileSize(v[level]) as real / MaxBytesForLevel(level)
  }

  /** VersionSet::Finalize: the first of the levels that is furthest over its
      limit, the last level left out. */
  method Finalize(v: Version) returns (level: nat, score: real)
    ensures level + 1 < NUM_LEVELS && score == Score(v, level)
    ensures forall l :: 0 <= l < NUM_LEVELS - 1 ==> Score(v, l) <= score && (l < level ==> Score(v, l) < score)
  {
    hide TotalFileSize;
    level, score := 0, Score(v, 0);
    for i := 1 to NUM_LEVELS - 1
      invariant level < i && score == Score(v, level)
      invariant forall l :: 0 <= l < i ==> Score(v, l) <= score && (l < level ==> Score(v, l) < score)
    {
      if Score(v, i) > score {
        level, score := i, Score(v, i);
      }
    }
  }

  lemma DueIsNotEmpty(v: Version, level: nat)
    requires level < NUM_LEVELS && Score(v, level) >= 1.0
    ensures v[level] != []
  {
  }

  /** The inputs of a compaction, and the level's pointer after it. */
  datatype Inputs = Inputs(level: nat, in0: seq<File>, in1: seq<File>, grandparents: seq<File>, pointer: InternalKey)

  /** A level is due by its size. */
  ghost predicate Due(v: Version) {
    exists l :: 0 <= l < NUM_LEVELS - 1 && Score(v, l) >= 1.0
  }

  /** File f of a level is the one to compact: by size, the first past the pointer
      of the level furthest over its limit, and otherwise the file that used up its
      seeks. */
  ghost predicate Picked(v: Version, pointers: seq<Option<InternalKey>>, seek: Option<(nat, File)>, level: nat, f: File)
    requires |pointers| == NUM_LEVELS
  {
    if Due(v) then
      && level < NUM_LEVELS - 1
      && (forall l :: 0 <= l < NUM_LEVELS - 1 ==> Score(v, l) <= Score(v, level))
      && (exists i: nat :: IsPick(v[level], pointers[level], i) && f == v[level][i])
    else seek == Some((level, f))
  }

  /** PickCompaction: the file to compact and the other files of level 0 that meet
      it, then SetupOtherInputs; nothing when no level is due and no file is. */
  method PickCompaction(v: Version, pointers: seq<Option<InternalKey>>, seek: Option<(nat, File)>, maxFileSize: nat)
    returns (c: Option<Inputs>, ghost picked: Option<File>)
    requires LsmInvariant(v) && |pointers| == NUM_LEVELS
    requires seek.Some? ==> seek.value.0 + 1 < NUM_LEVELS && seek.value.1 in v[seek.value.0]
    ensures c.None? <==> !Due(v) && seek.None?
    ensures c.Some? ==> c.value.level + 1 < NUM_LEVELS && ClosedInputs(v, c.value.level, c.value.in0, c.value.in1)
    ensures c.Some? ==>
              picked.Some? && Picked(v, pointers, seek, c.value.level, picked.value) && picked.value in c.value.in0
    ensures c.Some? ==> c.value.pointer == LargestOf(c.value.in0)
    ensures c.Some? ==> c.value.grandparents == Grandparents(v, c.value.level, c.value.in0, c.value.in1)
  {
    hide LsmInvariant, Score, ClosedInputs, Grandparents, LargestOf;
    var level, score := Finalize(v);
    var f;
    if score >= 1.0 {
      DueIsNotEmpty(v, level);
      var i := PickFile(v[level], pointers[level]);
      f := v[level][i];
    } else if seek.Some? {
      level, f := seek.value.0, seek.value.1;
    } else {
      return None, None;
    }
    var sel := FirstSelection(v[level], level == 0, f);
    var in0, in1, grandparents, pointer, _, _, _, _ := SetupOtherInputs(v, level, sel, maxFileSize);
    return Some(Inputs(level, in0, in1, grandparents, pointer)), Some(f);
  }

  /** One file, and at level 0 what meets it too. */
  method FirstSelection(files: seq<File>, levelZero: bool, f: File) returns (sel: seq<File>)
    requires f in files
    ensures Selected(files, levelZero, sel) && f in sel
  {
    ghost var at :| 0 <= at < |files| && files[at] == f;
    sel := [f];
    if levelZero {
      var smallest, largest := GetRange(sel);
      ghost var lo, hi;
      sel, lo, hi := GetOverlappingInputs(files, true, Some(smallest.user), Some(largest.user));
      FilterMembers(files, lo, hi);
      BoundsOrdered(f);
      assert f in sel;
      assert ClosedSelection(files, sel, lo, hi);
    } else {
      assert Slice(files, sel, at, at + 1);
    }
  }

  lemma {:induction false} TotalNext(files: seq<File>, i: nat)
    requires i < |files|
    ensures TotalFileSize(files[..i + 1]) == TotalFileSize(files[..i]) + files[i].size
    decreases |files|
  {
    if i == 0 {
      assert files[..1] == [files[0]];
    } else {
      TotalNext(files[1..], i - 1);
      assert files[..i + 1][1..] == files[1..][..i] && files[..i][1..] == files[1..][..i - 1];
    }
  }

  /** The shortest nonempty prefix of at least `limit` bytes, or all of them. */
  ghost predicate CutAt(files: seq<File>, cut: seq<File>, limit: nat) {
    && cut != [] && cut <= files
    && (|cut| > 1 ==> TotalFileSize(cut[..|cut| - 1]) < limit)
    && (cut == files || TotalFileSize(cut) >= limit)
  }

  /** The prefix of the files that one manual compaction takes. */
  method LimitInputs(files: seq<File>, limit: nat) returns (cut: seq<File>)
    requires files != []
    ensures CutAt(files, cut, limit)
  {
    var total, i := 0, 0;
    while i < |files|
      invariant 0 <= i <= |files| && total == TotalFileSize(files[..i]) && (i > 0 ==> total < limit)
    {
      TotalNext(files, i);
      total := total + files[i].size;
      if total >= limit {
        assert files[..i + 1][..i] == files[..i];
        return files[..i + 1];
      }
      i := i + 1;
    }
    assert files[..|files|] == files;
    TotalNext(files, |files| - 1);
    return files;
  }

  /** VersionSet::CompactRange: a manual compaction of the files overlapping
      [begin, end]; above level 0 only a prefix of them when they are large. */
  method CompactRange(v: Version, level: nat, begin: Option<InternalKey>, end: Option<InternalKey>, maxFileSize: nat)
    returns (c: Option<Inputs>, ghost sel: seq<File>)
    requires LsmInvariant(v) && level + 1 < NUM_LEVELS
    ensures c.Some? ==> c.value.level == level && ClosedInputs(v, level, c.value.in0, c.value.in1)
    ensures c.Some? ==> (forall f :: f in sel ==> f in c.value.in0) && c.value.pointer == LargestOf(c.value.in0)
    ensures c.Some? && level > 0 ==> CutAt(FilterOverlap(v[level], UserOf(begin), UserOf(end)), sel, maxFileSize)
    ensures c.Some? && level == 0 ==> forall f :: f in v[0] && Overlaps(f, UserOf(begin), UserOf(end)) ==> f in sel
    ensures c.None? <==> forall f :: f in v[level] ==> !Overlaps(f, UserOf(begin), UserOf(end))
  {
    hide LsmInvariant, ClosedInputs, Selected, CutAt, FilterOverlap, Overlaps, LargestOf, Grandparents, CouldGrow, Fits;
    var inputs := RangeInputs(v, level, begin, end, maxFileSize);
    if inputs == [] {
      return None, [];
    }
    var in0, in1, grandparents, pointer, _, _, _, _ := SetupOtherInputs(v, level, inputs, maxFileSize);
    return Some(Inputs(level, in0, in1, grandparents, pointer)), inputs;
  }

  /** The files that a manual compaction starts from. */
  method RangeInputs(v: Version, level: nat, begin: Option<InternalKey>, end: Option<InternalKey>, maxFileSize: nat)
    returns (inputs: seq<File>)
    requires LsmInvariant(v) && level + 1 < NUM_LEVELS
    ensures inputs == [] <==> forall f :: f in v[level] ==> !Overlaps(f, UserOf(begin), UserOf(end))
    ensures inputs != [] ==> Selected(v[level], level == 0, inputs)
    ensures inputs != [] && level > 0 ==>
              CutAt(FilterOverlap(v[level], UserOf(begin), UserOf(end)), inputs, maxFileSize)
    ensures inputs != [] && level == 0 ==>
              forall f :: f in v[0] && Overlaps(f, UserOf(begin), UserOf(end)) ==> f in inputs
  {
    hide LsmInvariant, SortedFiles, TotalFileSize, Slice;
    ghost var lo, hi;
    inputs, lo, hi := GetOverlappingInputs(v[level], level == 0, UserOf(begin), UserOf(end));
    FilterMembers(v[level], lo, hi);
    if inputs == [] {
      return;
    }
    SomeOverlap(v[level], level == 0, UserOf(begin), UserOf(end), lo, hi, inputs[0]);
    if level > 0 {
      LevelIsDisjoint(v, level);
      ghost var a, e := FilterIsSlice(v[level], lo, hi);
      inputs := LimitInputs(inputs, maxFileSize);
      SlicePrefix(v[level], FilterOverlap(v[level], lo, hi), inputs, a, e);
    } else {
      assert ClosedSelection(v[level], inputs, lo, hi);
    }
  }

  lemma SlicePrefix(files: seq<File>, sub: seq<File>, cut: seq<File>, a: nat, c: nat)
    requires Slice(files, sub, a, c) && cut <= sub
    ensures Slice(files, cut, a, a + |cut|)
  {
  }

  lemma LevelIsDisjoint(v: Version, level: nat)
    requires LsmInvariant(v) && 0 < level < NUM_LEVELS
    ensures DisjointLevel(v[level])
  {
  }

  /** The range only grows because of files that overlap it. */
  lemma SomeOverlap(files: seq<File>, levelZero: bool, b: Option<UserKey>, e: Option<UserKey>,
                    lo: Option<UserKey>, hi: Option<UserKey>, f: File)
    requires if levelZero then LeastClosed(files, b, e, lo, hi) else lo == b && hi == e
    requires f in files && Overlaps(f, lo, hi)
    ensures exists g :: g in files && Overlaps(g, b, e)
  {
    if forall g :: g in files ==> !Overlaps(g, b, e) {
      assert Wider(b, e, b, e) && ClosedRange(files, b, e);
    }
  }

  function UserOf(k: Option<InternalKey>): Option<UserKey> {
    if k.Some? then Some(k.value.user) else None
  }
}
