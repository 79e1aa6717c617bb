/** The stride form of a checksum (util/crc32c.cc, Extend), for any register
    whose step over a byte is linear over exclusive or. */
module CrcStrides {

  /** A register machine: exclusive or and its zero, the step over a zero byte,
      STEP1, a word and its four bytes, lowest first, and the zero byte. */
  datatype Machine<!W, !B> = Machine(
    xor: (W, W) -> W, zero: W, zero1: W -> W, step1: (W, B) -> W,
    join: (B, B, B, B) -> W, split: W -> (B, B, B, B), none: B)

  /** Names the instance of a law that a proof uses. */
  predicate At<T>(a: T, b: T, c: T) { true }

  ghost predicate XorLaws<W(!new), B>(m: Machine<W, B>) {
    && (forall a, b, c {:trigger At(a, b, c)} :: m.xor(m.xor(a, b), c) == m.xor(a, m.xor(b, c)))
    && (forall a, b {:trigger At(a, b, b)} :: m.xor(a, b) == m.xor(b, a))
    && (forall a {:trigger At(a, a, a)} :: m.xor(a, m.zero) == a && m.xor(a, a) == m.zero)
  }

  ghost predicate StepLaws<W(!new), B(!new)>(m: Machine<W, B>) {
    && (forall a, b {:trigger At(a, b, b)} :: m.zero1(m.xor(a, b)) == m.xor(m.zero1(a), m.zero1(b)))
    && (forall x, b0, b1, b2, b3 {:trigger At(x, x, x), At(b0, b1, b2), At(b3, b3, b3)} ::
          m.zero1(m.xor(x, m.join(b0, b1, b2, b3))) == m.xor(m.step1(x, b0), m.join(b1, b2, b3, m.none)))
    && m.join(m.none, m.none, m.none, m.none) == m.zero
    && (forall x {:trigger At(x, x, x)} :: Sum(m, m.split(x)) == x)
  }

  /** A word as the sum of its bytes, each in its place. */
  function Sum<W, B>(m: Machine<W, B>, b: (B, B, B, B)): W {
    m.xor(m.xor(m.xor(Place(m, b.0, 0), Place(m, b.1, 1)), Place(m, b.2, 2)), Place(m, b.3, 3))
  }

  /** c << (8 * j), for j < 4. */
  function Place<W, B>(m: Machine<W, B>, c: B, j: nat): W {
    m.join(if j == 0 then c else m.none, if j == 1 then c else m.none,
           if j == 2 then c else m.none, if j == 3 then c else m.none)
  }

  ghost predicate Lawful<W(!new), B(!new)>(m: Machine<W, B>) {
    XorLaws(m) && StepLaws(m)
  }

  /** The register after four and after sixteen zero bytes. */
  function Zero4<W, B>(m: Machine<W, B>, x: W): W { m.zero1(m.zero1(m.zero1(m.zero1(x)))) }
  function Zero16<W, B>(m: Machine<W, B>, x: W): W { Zero4(m, Zero4(m, Zero4(m, Zero4(m, x)))) }

  lemma Assoc<W(!new), B(!new)>(m: Machine<W, B>, a: W, b: W, c: W)
    requires XorLaws(m)
    ensures m.xor(m.xor(a, b), c) == m.xor(a, m.xor(b, c))
  {
    assert At(a, b, c);
  }

  lemma Comm<W(!new), B(!new)>(m: Machine<W, B>, a: W, b: W)
    requires XorLaws(m)
    ensures m.xor(a, b) == m.xor(b, a)
  {
    assert At(a, b, b);
  }

  lemma Unit<W(!new), B(!new)>(m: Machine<W, B>, a: W)
    requires XorLaws(m)
    ensures m.xor(a, m.zero) == a && m.xor(m.zero, a) == a && m.xor(a, a) == m.zero
  {
    assert At(a, a, a);
    Comm(m, m.zero, a);
  }

  lemma Swap<W(!new), B(!new)>(m: Machine<W, B>, a: W, b: W, c: W, d: W)
    requires XorLaws(m)
    ensures m.xor(m.xor(a, b), m.xor(c, d)) == m.xor(m.xor(a, c), m.xor(b, d))
  {
    Assoc(m, a, b, m.xor(c, d));
    Assoc(m, b, c, d);
    Comm(m, b, c);
    Assoc(m, c, b, d);
    Assoc(m, a, c, m.xor(b, d));
  }

  lemma Linear1<W(!new), B(!new)>(m: Machine<W, B>, a: W, b: W)
    requires Lawful(m)
    ensures m.zero1(m.xor(a, b)) == m.xor(m.zero1(a), m.zero1(b))
  {
    assert At(a, b, b);
  }

  lemma Linear4<W(!new), B(!new)>(m: Machine<W, B>, a: W, b: W)
    requires Lawful(m)
    ensures Zero4(m, m.xor(a, b)) == m.xor(Zero4(m, a), Zero4(m, b))
  {
    Linear1(m, a, b);
    Linear1(m, m.zero1(a), m.zero1(b));
    Linear1(m, m.zero1(m.zero1(a)), m.zero1(m.zero1(b)));
    Linear1(m, m.zero1(m.zero1(m.zero1(a))), m.zero1(m.zero1(m.zero1(b))));
  }

  lemma Linear16<W(!new), B(!new)>(m: Machine<W, B>, a: W, b: W)
    requires Lawful(m)
    ensures Zero16(m, m.xor(a, b)) == m.xor(Zero16(m, a), Zero16(m, b))
  {
    Linear4(m, a, b);
    Linear4(m, Zero4(m, a), Zero4(m, b));
    Linear4(m, Zero4(m, Zero4(m, a)), Zero4(m, Zero4(m, b)));
    Linear4(m, Zero4(m, Zero4(m, Zero4(m, a))), Zero4(m, Zero4(m, Zero4(m, b))));
  }

  /** kStrideExtensionTable<k>[c]: the byte's share of a register moved over 16
      zero bytes. */
  function StrideTable<W, B>(m: Machine<W, B>, k: nat, c: B): W
    requires k < 4
  {
    Zero16(m, Place(m, c, 3 - k))
  }

  /** STEP4: the next word of the stride, plus the register moved by the tables. */
  function Step4<W, B>(m: Machine<W, B>, c: W, w: W): W {
    var b := m.split(c);
    m.xor(m.xor(m.xor(m.xor(w, StrideTable(m, 3, b.0)), StrideTable(m, 2, b.1)), StrideTable(m, 1, b.2)),
          StrideTable(m, 0, b.3))
  }

  /** The tables add up to sixteen zero bytes. */
  lemma Stride<W(!new), B(!new)>(m: Machine<W, B>, c: W, w: W)
    requires Lawful(m)
    ensures Step4(m, c, w) == m.xor(w, Zero16(m, c))
  {
    SplitSum(m, c);
    var b := m.split(c);
    var p0, p1, p2, p3 := Place(m, b.0, 0), Place(m, b.1, 1), Place(m, b.2, 2), Place(m, b.3, 3);
    LinearSum(m, p0, p1, p2, p3);
    Sum4(m, w, Zero16(m, p0), Zero16(m, p1), Zero16(m, p2), Zero16(m, p3));
  }

  lemma SplitSum<W(!new), B(!new)>(m: Machine<W, B>, x: W)
    requires Lawful(m)
    ensures Sum(m, m.split(x)) == x
  {
    assert At(x, x, x);
  }

  lemma LinearSum<W(!new), B(!new)>(m: Machine<W, B>, a: W, b: W, c: W, d: W)
    requires Lawful(m)
    ensures Zero16(m, m.xor(m.xor(m.xor(a, b), c), d))
         == m.xor(m.xor(m.xor(Zero16(m, a), Zero16(m, b)), Zero16(m, c)), Zero16(m, d))
  {
    Linear16(m, m.xor(m.xor(a, b), c), d);
    Linear16(m, m.xor(a, b), c);
    Linear16(m, a, b);
  }

  lemma Sum4<W(!new), B(!new)>(m: Machine<W, B>, w: W, a: W, b: W, c: W, d: W)
    requires XorLaws(m)
    ensures m.xor(m.xor(m.xor(m.xor(w, a), b), c), d) == m.xor(w, m.xor(m.xor(m.xor(a, b), c), d))
  {
    Assoc(m, w, a, b);
    Assoc(m, w, m.xor(a, b), c);
    Assoc(m, w, m.xor(m.xor(a, b), c), d);
  }

  /** A byte above the lowest one waits for its turn. */
  lemma Peel<W(!new), B(!new)>(m: Machine<W, B>, x: W, b0: B, b1: B, b2: B, b3: B)
    requires Lawful(m)
    ensures m.zero1(m.xor(x, m.join(b0, b1, b2, b3))) == m.xor(m.step1(x, b0), m.join(b1, b2, b3, m.none))
  {
    assert At(x, x, x) && At(b0, b1, b2) && At(b3, b3, b3);
  }

  // ----- the simple form -----

  /** The register after all of data, one byte at a time. */
  function Fold<W, B>(m: Machine<W, B>, l: W, data: seq<B>): W
    decreases |data|
  {
    if data == [] then l else Fold(m, m.step1(l, data[0]), data[1..])
  }

  lemma {:induction false} FoldConcat<W, B>(m: Machine<W, B>, l: W, a: seq<B>, b: seq<B>)
    ensures Fold(m, l, a + b) == Fold(m, Fold(m, l, a), b)
    decreases |a|
  {
    if a == [] {
      assert a + b == b;
    } else {
      FoldConcat(m, m.step1(l, a[0]), a[1..], b);
      assert (a + b)[1..] == a[1..] + b;
    }
  }

  lemma FoldSplit<W, B>(m: Machine<W, B>, l: W, data: seq<B>, a: nat, b: nat, c: nat)
    requires a <= b <= c <= |data|
    ensures Fold(m, l, data[a..c]) == Fold(m, Fold(m, l, data[a..b]), data[b..c])
  {
    FoldConcat(m, l, data[a..b], data[b..c]);
    assert data[a..c] == data[a..b] + data[b..c];
  }

  lemma FoldNext<W, B>(m: Machine<W, B>, l: W, data: seq<B>, p: nat)
    requires p < |data|
    ensures Fold(m, l, data[0..p + 1]) == m.step1(Fold(m, l, data[0..p]), data[p])
  {
    FoldSplit(m, l, data, 0, p, p + 1);
    var x := Fold(m, l, data[0..p]);
    assert data[p..p + 1] == [data[p]];
    assert Fold(m, m.step1(x, data[p]), []) == m.step1(x, data[p]);
  }

  /** Four bytes one at a time. */
  function Bytes4<W, B>(m: Machine<W, B>, l: W, b0: B, b1: B, b2: B, b3: B): W {
    m.step1(m.step1(m.step1(m.step1(l, b0), b1), b2), b3)
  }

  lemma FourSteps<W(!new), B(!new)>(m: Machine<W, B>, l: W, b0: B, b1: B, b2: B, b3: B)
    requires Lawful(m)
    ensures Zero4(m, m.xor(l, m.join(b0, b1, b2, b3))) == Bytes4(m, l, b0, b1, b2, b3)
  {
    var l1 := m.step1(l, b0);
    var l2 := m.step1(l1, b1);
    var l3 := m.step1(l2, b2);
    Peel(m, l, b0, b1, b2, b3);
    Peel(m, l1, b1, b2, b3, m.none);
    Peel(m, l2, b2, b3, m.none, m.none);
    Peel(m, l3, b3, m.none, m.none, m.none);
    Unit(m, m.step1(l3, b3));
  }

  /** ReadUint32LE. */
  function ReadWord<W, B>(m: Machine<W, B>, data: seq<B>, p: nat): W
    requires p + 4 <= |data|
  {
    m.join(data[p], data[p + 1], data[p + 2], data[p + 3])
  }

  lemma FoldFour<W, B>(m: Machine<W, B>, l: W, data: seq<B>, p: nat)
    requires p + 4 <= |data|
    ensures Fold(m, l, data[p..p + 4]) == Bytes4(m, l, data[p], data[p + 1], data[p + 2], data[p + 3])
  {
    var l1 := m.step1(l, data[p]);
    var l2 := m.step1(l1, data[p + 1]);
    var l3 := m.step1(l2, data[p + 2]);
    assert data[p..p + 4][1..] == data[p + 1..p + 4];
    assert data[p + 1..p + 4][1..] == data[p + 2..p + 4];
    assert data[p + 2..p + 4][1..] == data[p + 3..p + 4];
    assert data[p + 3..p + 4][1..] == [];
    assert Fold(m, l2, data[p + 2..p + 4]) == Fold(m, l3, data[p + 3..p + 4]);
    assert Fold(m, l1, data[p + 1..p + 4]) == Fold(m, l2, data[p + 2..p + 4]);
  }

  lemma FoldWord<W(!new), B(!new)>(m: Machine<W, B>, l: W, data: seq<B>, p: nat)
    requires Lawful(m) && p + 4 <= |data|
    ensures Zero4(m, m.xor(ReadWord(m, data, p), l)) == Fold(m, l, data[p..p + 4])
  {
    Comm(m, l, ReadWord(m, data, p));
    FourSteps(m, l, data[p], data[p + 1], data[p + 2], data[p + 3]);
    FoldFour(m, l, data, p);
  }

  // ----- four strides -----

  /** The four STEP4W at the end: the strides folded into one register. */
  function Combine<W, B>(m: Machine<W, B>, c0: W, c1: W, c2: W, c3: W): W {
    Zero4(m, m.xor(c3, Zero4(m, m.xor(c2, Zero4(m, m.xor(c1, Zero4(m, m.xor(c0, m.zero))))))))
  }

  lemma LinearStep<W(!new), B(!new)>(m: Machine<W, B>, a: W, b: W, x: W, y: W)
    requires Lawful(m)
    ensures Zero4(m, m.xor(m.xor(a, b), m.xor(x, y))) == m.xor(Zero4(m, m.xor(a, x)), Zero4(m, m.xor(b, y)))
  {
    Swap(m, a, b, x, y);
    Linear4(m, m.xor(a, x), m.xor(b, y));
  }

  lemma CombineLinear<W(!new), B(!new)>(m: Machine<W, B>, a0: W, a1: W, a2: W, a3: W, b0: W, b1: W, b2: W, b3: W)
    requires Lawful(m)
    ensures Combine(m, m.xor(a0, b0), m.xor(a1, b1), m.xor(a2, b2), m.xor(a3, b3))
         == m.xor(Combine(m, a0, a1, a2, a3), Combine(m, b0, b1, b2, b3))
  {
    Unit(m, a0);
    Unit(m, b0);
    Unit(m, m.xor(a0, b0));
    Linear4(m, a0, b0);
    LinearStep(m, a1, b1, Zero4(m, a0), Zero4(m, b0));
    var a, b := Zero4(m, m.xor(a1, Zero4(m, a0))), Zero4(m, m.xor(b1, Zero4(m, b0)));
    LinearStep(m, a2, b2, a, b);
    LinearStep(m, a3, b3, Zero4(m, m.xor(a2, a)), Zero4(m, m.xor(b2, b)));
  }

  /** Moving every stride over 16 zero bytes moves the combined register. */
  lemma CombineMoves<W(!new), B(!new)>(m: Machine<W, B>, c0: W, c1: W, c2: W, c3: W)
    requires Lawful(m)
    ensures Combine(m, Zero16(m, c0), Zero16(m, c1), Zero16(m, c2), Zero16(m, c3))
         == Zero16(m, Combine(m, c0, c1, c2, c3))
  {
    Unit(m, c0);
    Unit(m, Zero16(m, c0));
    var x1 := Zero4(m, c0);
    Linear16(m, c1, x1);
    var x2 := Zero4(m, m.xor(c1, x1));
    Linear16(m, c2, x2);
    var x3 := Zero4(m, m.xor(c2, x2));
    Linear16(m, c3, x3);
  }

  /** Loading the first swath, with the register in stride 0. */
  lemma CombineStart<W(!new), B(!new)>(m: Machine<W, B>, l: W, data: seq<B>, p: nat)
    requires Lawful(m) && p + 16 <= |data|
    ensures Combine(m, m.xor(ReadWord(m, data, p), l), ReadWord(m, data, p + 4), ReadWord(m, data, p + 8),
                    ReadWord(m, data, p + 12))
         == Fold(m, l, data[p..p + 16])
  {
    var l1 := Fold(m, l, data[p..p + 4]);
    var l2 := Fold(m, l1, data[p + 4..p + 8]);
    var l3 := Fold(m, l2, data[p + 8..p + 12]);
    Unit(m, m.xor(ReadWord(m, data, p), l));
    FoldWord(m, l, data, p);
    FoldWord(m, l1, data, p + 4);
    FoldWord(m, l2, data, p + 8);
    FoldWord(m, l3, data, p + 12);
    FoldSplit(m, l, data, p, p + 4, p + 8);
    FoldSplit(m, l, data, p, p + 8, p + 12);
    FoldSplit(m, l, data, p, p + 12, p + 16);
  }

  /** A register in stride 0 moves over the whole swath. */
  lemma CombineFirst<W(!new), B(!new)>(m: Machine<W, B>, w0: W, w1: W, w2: W, w3: W, l: W)
    requires Lawful(m)
    ensures Combine(m, m.xor(w0, l), w1, w2, w3) == m.xor(Combine(m, w0, w1, w2, w3), Zero16(m, l))
  {
    CombineLinear(m, w0, w1, w2, w3, l, m.zero, m.zero, m.zero);
    Unit(m, w1);
    Unit(m, w2);
    Unit(m, w3);
    Unit(m, l);
    Unit(m, Zero4(m, l));
    Unit(m, Zero4(m, Zero4(m, l)));
    Unit(m, Zero4(m, Zero4(m, Zero4(m, l))));
  }

  /** STEP16: one more swath. */
  lemma CombineSwath<W(!new), B(!new)>(m: Machine<W, B>, c0: W, c1: W, c2: W, c3: W, data: seq<B>, p: nat)
    requires Lawful(m) && p + 16 <= |data|
    ensures Combine(m, Step4(m, c0, ReadWord(m, data, p)), Step4(m, c1, ReadWord(m, data, p + 4)),
                    Step4(m, c2, ReadWord(m, data, p + 8)), Step4(m, c3, ReadWord(m, data, p + 12)))
         == Fold(m, Combine(m, c0, c1, c2, c3), data[p..p + 16])
  {
    var w0, w1, w2, w3 := ReadWord(m, data, p), ReadWord(m, data, p + 4), ReadWord(m, data, p + 8),
      ReadWord(m, data, p + 12);
    var l := Combine(m, c0, c1, c2, c3);
    Stride(m, c0, w0);
    Stride(m, c1, w1);
    Stride(m, c2, w2);
    Stride(m, c3, w3);
    CombineLinear(m, w0, w1, w2, w3, Zero16(m, c0), Zero16(m, c1), Zero16(m, c2), Zero16(m, c3));
    CombineMoves(m, c0, c1, c2, c3);
    CombineStart(m, l, data, p);
    CombineFirst(m, w0, w1, w2, w3, l);
  }

  /** The combined register: the last three strides moved once more, plus
      stride 0 moved over 16 bytes. */
  lemma CombineThree<W(!new), B(!new)>(m: Machine<W, B>, c0: W, c1: W, c2: W, c3: W)
    requires Lawful(m)
    ensures Combine(m, c0, c1, c2, c3)
         == m.xor(Zero4(m, m.xor(c3, Zero4(m, m.xor(c2, Zero4(m, m.xor(c1, m.zero)))))), Zero16(m, c0))
  {
    Unit(m, c0);
    Unit(m, c1);
    var c := Zero4(m, c0);
    Linear4(m, c1, c);
    var a, b := Zero4(m, c1), Zero4(m, c);
    Assoc(m, c2, a, b);
    Linear4(m, m.xor(c2, a), b);
    Assoc(m, c3, Zero4(m, m.xor(c2, a)), Zero4(m, b));
    Linear4(m, m.xor(c3, Zero4(m, m.xor(c2, a))), Zero4(m, b));
  }

  /** One word at a time, rotating the strides. */
  lemma CombineWord<W(!new), B(!new)>(m: Machine<W, B>, c0: W, c1: W, c2: W, c3: W, data: seq<B>, p: nat)
    requires Lawful(m) && p + 4 <= |data|
    ensures Combine(m, c1, c2, c3, Step4(m, c0, ReadWord(m, data, p)))
         == Fold(m, Combine(m, c0, c1, c2, c3), data[p..p + 4])
  {
    var w := ReadWord(m, data, p);
    var three := Zero4(m, m.xor(c3, Zero4(m, m.xor(c2, Zero4(m, m.xor(c1, m.zero))))));
    Stride(m, c0, w);
    CombineThree(m, c0, c1, c2, c3);
    Comm(m, three, Zero16(m, c0));
    Assoc(m, w, Zero16(m, c0), three);
    FoldWord(m, Combine(m, c0, c1, c2, c3), data, p);
  }

  // ----- Extend -----

  /** Bytes up to position q, one at a time. */
  method Bytes<W, B>(m: Machine<W, B>, l0: W, start: W, data: seq<B>, from: nat, q: nat) returns (l: W)
    requires from <= q <= |data| && start == Fold(m, l0, data[0..from])
    ensures l == Fold(m, l0, data[0..q])
  {
    l := start;
    var p := from;
    while p != q
      invariant from <= p <= q && l == Fold(m, l0, data[0..p])
    {
      FoldNext(m, l0, data, p);
      l := m.step1(l, data[p]);
      p := p + 1;
    }
  }

  /** STEP16. */
  method Step16<W(!new), B(!new)>(m: Machine<W, B>, ghost l0: W, c0: W, c1: W, c2: W, c3: W, data: seq<B>, p: nat)
    returns (d0: W, d1: W, d2: W, d3: W)
    requires Lawful(m) && p + 16 <= |data| && Combine(m, c0, c1, c2, c3) == Fold(m, l0, data[0..p])
    ensures Combine(m, d0, d1, d2, d3) == Fold(m, l0, data[0..p + 16])
  {
    d0 := Step4(m, c0, ReadWord(m, data, p));
    d1 := Step4(m, c1, ReadWord(m, data, p + 4));
    d2 := Step4(m, c2, ReadWord(m, data, p + 8));
    d3 := Step4(m, c3, ReadWord(m, data, p + 12));
    CombineSwath(m, c0, c1, c2, c3, data, p);
    FoldSplit(m, l0, data, 0, p, p + 16);
  }

  /** STEP16 while 16 bytes are left. */
  method Swaths<W(!new), B(!new)>(m: Machine<W, B>, ghost l0: W, l: W, data: seq<B>, from: nat)
    returns (c0: W, c1: W, c2: W, c3: W, p: nat)
    requires Lawful(m) && from + 16 <= |data| && l == Fold(m, l0, data[0..from])
    ensures from <= p <= |data| && |data| - p < 16
    ensures Combine(m, c0, c1, c2, c3) == Fold(m, l0, data[0..p])
  {
    c0 := m.xor(ReadWord(m, data, from), l);
    c1, c2, c3 := ReadWord(m, data, from + 4), ReadWord(m, data, from + 8), ReadWord(m, data, from + 12);
    CombineStart(m, l, data, from);
    FoldSplit(m, l0, data, 0, from, from + 16);
    p := from + 16;
    while |data| - p >= 16
      invariant from <= p <= |data| && Combine(m, c0, c1, c2, c3) == Fold(m, l0, data[0..p])
    {
      c0, c1, c2, c3 := Step16(m, l0, c0, c1, c2, c3, data, p);
      p := p + 16;
    }
  }

  /** Single words, rotating the strides, while 4 bytes are left, and the four
      strides combined. */
  method Words<W(!new), B(!new)>(m: Machine<W, B>, ghost l0: W, s0: W, s1: W, s2: W, s3: W, data: seq<B>, from: nat)
    returns (l: W, p: nat)
    requires Lawful(m) && from <= |data| && Combine(m, s0, s1, s2, s3) == Fold(m, l0, data[0..from])
    ensures from <= p <= |data| && |data| - p < 4
    ensures l == Fold(m, l0, data[0..p])
  {
    var c0, c1, c2, c3 := s0, s1, s2, s3;
    p := from;
    while |data| - p >= 4
      invariant from <= p <= |data| && Combine(m, c0, c1, c2, c3) == Fold(m, l0, data[0..p])
    {
      CombineWord(m, c0, c1, c2, c3, data, p);
      FoldSplit(m, l0, data, 0, p, p + 4);
      c0 := Step4(m, c0, ReadWord(m, data, p));
      c0, c1, c2, c3 := c1, c2, c3, c0;
      p := p + 4;
    }
    l := Zero4(m, m.xor(c0, m.zero));
    l := Zero4(m, m.xor(c1, l));
    l := Zero4(m, m.xor(c2, l));
    l := Zero4(m, m.xor(c3, l));
  }

  /** The register after data held at an address: bytes up to 4-byte alignment,
      16-byte swaths in four strides, single words, then bytes. */
  method Run<W(!new), B(!new)>(m: Machine<W, B>, l0: W, data: seq<B>, address: nat) returns (l: W)
    requires Lawful(m)
    ensures l == Fold(m, l0, data)
  {
    var x := (4 - address % 4) % 4;
    var p := 0;
    l := l0;
    if x <= |data| {
      l := Bytes(m, l0, l, data, 0, x);
      p := x;
    }
    if |data| - p >= 16 {
      var c0, c1, c2, c3, q := Swaths(m, l0, l, data, p);
      l, p := Words(m, l0, c0, c1, c2, c3, data, q);
    }
    l := Bytes(m, l0, l, data, p, |data|);
    assert data[0..|data|] == data;
  }
}
