/** The format of a block (table/block_builder.cc, table/block.cc): entries with
    shared key prefixes, then the offsets of the restart points and their number. */
module BlockFormat {
  import opened Options
  import opened Coding

  /** An entry that takes the first `shared` bytes of its key from the entry before. */
  datatype Cell = Cell(shared: nat, key: Bytes, value: Bytes)

  predicate Sized(c: Cell) { c.shared <= |c.key| < TWO32 && |c.value| < TWO32 }

  function CellBytes(c: Cell): Bytes
    requires Sized(c)
  {
    Varint(c.shared) + (Varint(|c.key| - c.shared) + (Varint(|c.value|) + (c.key[c.shared..] + c.value)))
  }

  ghost predicate AllSized(cells: seq<Cell>) { forall i :: 0 <= i < |cells| ==> Sized(cells[i]) }

  /** The bytes of the first n cells; its length is the offset of cell n. */
  ghost function Buffer(cells: seq<Cell>, n: nat): Bytes
    requires AllSized(cells) && n <= |cells|
  {
    if n == 0 then [] else Buffer(cells, n - 1) + CellBytes(cells[n - 1])
  }

  ghost function Offset(cells: seq<Cell>, n: nat): nat
    requires AllSized(cells) && n <= |cells|
  {
    |Buffer(cells, n)|
  }

  /** What a cell takes from the one before it is there. */
  ghost predicate Follows(key: Bytes, c: Cell) {
    c.shared <= |key| && c.shared <= |c.key| && key[..c.shared] == c.key[..c.shared]
  }

  ghost predicate Chained(cells: seq<Cell>) {
    && AllSized(cells)
    && (forall i :: 0 < i < |cells| ==> Follows(cells[i - 1].key, cells[i]))
  }

  /** starts lists the restart cells, which share nothing, from cell 0 on. */
  ghost predicate RestartsAt(cells: seq<Cell>, starts: seq<nat>) {
    && |starts| > 0 && starts[0] == 0
    && (forall j :: 0 < j < |starts| ==> starts[j - 1] < starts[j] < |cells|)
    && (forall j :: 0 <= j < |starts| && starts[j] < |cells| ==> cells[starts[j]].shared == 0)
  }

  function FixedAll(xs: seq<Uint32>): (r: Bytes)
    ensures |r| == 4 * |xs|
  {
    if xs == [] then [] else FixedAll(xs[..|xs| - 1]) + EncodeFixed32(xs[|xs| - 1])
  }

  /** A finished block. */
  ghost predicate IsBlock(data: Bytes, cells: seq<Cell>, starts: seq<nat>) {
    && Chained(cells) && RestartsAt(cells, starts) && |data| < TWO32
    && (forall j :: 0 <= j < |starts| ==> starts[j] <= |cells| && Offset(cells, starts[j]) < TWO32)
    && |starts| < TWO32
    && data == Buffer(cells, |cells|) + (FixedAll(RestartOffsets(cells, starts)) + EncodeFixed32(|starts|))
  }

  ghost function RestartOffsets(cells: seq<Cell>, starts: seq<nat>): seq<Uint32>
    requires AllSized(cells)
    requires forall j :: 0 <= j < |starts| ==> starts[j] <= |cells| && Offset(cells, starts[j]) < TWO32
  {
    seq(|starts|, j requires 0 <= j < |starts| => Offset(cells, starts[j]))
  }

  // ----- offsets -----

  lemma CellLength(c: Cell)
    requires Sized(c)
    ensures |CellBytes(c)| >= 3
  {
    hide Sized;
  }

  lemma {:induction false} OffsetsAscend(cells: seq<Cell>, i: nat, j: nat)
    requires AllSized(cells) && i < j <= |cells|
    ensures Offset(cells, i) + 3 <= Offset(cells, j) && Buffer(cells, i) <= Buffer(cells, j)
    decreases j
  {
    hide CellBytes, Sized;
    CellLength(cells[j - 1]);
    if i < j - 1 {
      OffsetsAscend(cells, i, j - 1);
    }
  }

  /** The cell at an offset is in the bytes of the block. */
  lemma CellInBlock(data: Bytes, cells: seq<Cell>, starts: seq<nat>, i: nat)
    requires IsBlock(data, cells, starts) && i < |cells|
    ensures Offset(cells, i + 1) <= Offset(cells, |cells|) <= |data|
    ensures data[Offset(cells, i)..Offset(cells, i + 1)] == CellBytes(cells[i])
  {
    hide CellBytes, FixedAll, EncodeFixed32, RestartOffsets, RestartsAt;
    var b := Buffer(cells, |cells|);
    if i + 1 < |cells| {
      OffsetsAscend(cells, i + 1, |cells|);
    }
    assert data[..|b|] == b;
    assert Buffer(cells, i + 1) == Buffer(cells, i) + CellBytes(cells[i]);
    assert data[..Offset(cells, i + 1)] == Buffer(cells, i + 1);
  }

  // ----- the restart array -----

  lemma {:induction false} FixedAt(xs: seq<Uint32>, i: nat)
    requires i < |xs|
    ensures FixedAll(xs)[4 * i..4 * i + 4] == EncodeFixed32(xs[i])
    decreases |xs|
  {
    hide EncodeFixed32;
    var n := |xs| - 1;
    if i < n {
      FixedAt(xs[..n], i);
      assert FixedAll(xs)[4 * i..4 * i + 4] == FixedAll(xs[..n])[4 * i..4 * i + 4];
    }
  }

  lemma NoFixed()
    ensures FixedAll([]) == []
  {
  }

  lemma FixedSnoc(xs: seq<Uint32>, x: Uint32)
    ensures FixedAll(xs + [x]) == FixedAll(xs) + EncodeFixed32(x)
  {
    hide EncodeFixed32;
    assert (xs + [x])[..|xs|] == xs;
  }

  lemma SliceInside(a: Bytes, f: Bytes, tail: Bytes, q: nat)
    requires q + 4 <= |f|
    ensures (a + (f + tail))[|a| + q..|a| + q + 4] == f[q..q + 4]
  {
  }

  lemma FixedHere(s: Bytes, p: nat, x: Uint32)
    requires p + 4 <= |s| && s[p..p + 4] == EncodeFixed32(x)
    ensures DecodeFixed32(s[p..]) == x
  {
    hide EncodeFixed32, DecodeFixed32;
    assert s[p..] == s[p..p + 4] + s[p + 4..];
    Fixed32RoundTrip(x, s[p + 4..]);
  }

  /** An array of 32-bit numbers inside other bytes. */
  lemma FixedAfter(a: Bytes, xs: seq<Uint32>, tail: Bytes, i: nat)
    requires i < |xs|
    ensures DecodeFixed32((a + (FixedAll(xs) + tail))[|a| + 4 * i..]) == xs[i]
  {
    hide EncodeFixed32, DecodeFixed32, FixedAll;
    FixedAt(xs, i);
    SliceInside(a, FixedAll(xs), tail, 4 * i);
    FixedHere(a + (FixedAll(xs) + tail), |a| + 4 * i, xs[i]);
  }

  /** Block: the number of restarts and where their array starts. */
  function NumRestarts(data: Bytes): Uint32
    requires |data| >= 4
  {
    DecodeFixed32(data[|data| - 4..])
  }

  function RestartOffset(data: Bytes): int
    requires |data| >= 4
  {
    |data| - (1 + NumRestarts(data)) * 4
  }

  function RestartPoint(data: Bytes, restarts: nat, j: nat): Uint32
    requires restarts + 4 * j + 4 <= |data|
  {
    DecodeFixed32(data[restarts + 4 * j..])
  }

  lemma OpenBlock(data: Bytes, cells: seq<Cell>, starts: seq<nat>)
    requires IsBlock(data, cells, starts)
    ensures |data| == Offset(cells, |cells|) + 4 * |starts| + 4
    ensures NumRestarts(data) == |starts| && RestartOffset(data) == Offset(cells, |cells|)
  {
    hide EncodeFixed32, DecodeFixed32, Chained, RestartsAt, Buffer;
    var tail := EncodeFixed32(|starts|);
    assert data[|data| - 4..] == tail + [];
    Fixed32RoundTrip(|starts|, []);
  }

  lemma RestartPointAt(data: Bytes, cells: seq<Cell>, starts: seq<nat>, j: nat)
    requires IsBlock(data, cells, starts) && j < |starts|
    ensures Offset(cells, |cells|) + 4 * j + 4 <= |data|
    ensures RestartPoint(data, Offset(cells, |cells|), j) == Offset(cells, starts[j])
  {
    hide EncodeFixed32, DecodeFixed32, RestartsAt, FixedAll;
    FixedAfter(Buffer(cells, |cells|), RestartOffsets(cells, starts), EncodeFixed32(|starts|), j);
  }

  // ----- one entry -----

  /** DecodeEntry: the three lengths in front of the bytes up to the limit, and
      what follows them. */
  function DecodeEntry(s: Bytes): Option<(Uint32, Uint32, Uint32, Bytes)> {
    if |s| < 3 then None
    else if s[0] < 128 && s[1] < 128 && s[2] < 128 then
      Room(s[0], s[1], s[2], s[3..])
    else
      match GetVarint32(s)
      case None => None
      case Some((shared, a)) =>
        match GetVarint32(a)
        case None => None
        case Some((nonShared, b)) =>
          match GetVarint32(b)
          case None => None
          case Some((valueLength, rest)) => Room(shared, nonShared, valueLength, rest)
  }

  /** The check that key and value fit; the sum of their lengths is a 32-bit one. */
  function Room(shared: Uint32, nonShared: Uint32, valueLength: Uint32, rest: Bytes)
    : Option<(Uint32, Uint32, Uint32, Bytes)>
  {
    if |rest| % TWO32 < (nonShared + valueLength) % TWO32 then None else Some((shared, nonShared, valueLength, rest))
  }

  lemma RoomFits(shared: Uint32, nonShared: Uint32, valueLength: Uint32, rest: Bytes)
    requires nonShared + valueLength <= |rest| < TWO32
    ensures Room(shared, nonShared, valueLength, rest) == Some((shared, nonShared, valueLength, rest))
  {
  }

  /** Three lengths below 128 are the first three bytes. */
  lemma ThreeHeads(a: nat, b: nat, c: nat, rest: Bytes)
    ensures |Varint(a) + (Varint(b) + (Varint(c) + rest))| >= 3
    ensures var s := Varint(a) + (Varint(b) + (Varint(c) + rest));
            s[0] < 128 && s[1] < 128 && s[2] < 128 ==> a == s[0] && b == s[1] && c == s[2] && s[3..] == rest
  {
    hide Varint;
    var s2 := Varint(c) + rest;
    var s1 := Varint(b) + s2;
    var s := Varint(a) + s1;
    Heads(a, s1);
    Heads(b, s2);
    Heads(c, rest);
    if s[0] < 128 {
      assert s[1] == s[1..][0] && s[2] == s[1..][1];
      if s[1] < 128 {
        assert s1[1] == s1[1..][0] && s1[1..][1..] == s[3..];
      }
    }
  }

  /** The fast path for three one-byte lengths agrees with the general one. */
  lemma FastPath(a: nat, b: nat, c: nat, rest: Bytes)
    requires a < TWO32 && b < TWO32 && c < TWO32
    requires b + c <= |rest| < TWO32
    ensures DecodeEntry(Varint(a) + (Varint(b) + (Varint(c) + rest))) == Some((a, b, c, rest))
  {
    hide GetVarint32, Varint, Room;
    RoomFits(a, b, c, rest);
    ThreeHeads(a, b, c, rest);
    Varint32RoundTrip(a, Varint(b) + (Varint(c) + rest));
    Varint32RoundTrip(b, Varint(c) + rest);
    Varint32RoundTrip(c, rest);
  }

  /** The first byte of a varint tells whether it is the only one. */
  lemma Heads(v: nat, rest: Bytes)
    ensures |Varint(v)| >= 1
    ensures var s := Varint(v) + rest; if s[0] < 128 then v == s[0] && s[1..] == rest else v >= 128
  {
  }

  lemma DecodeCell(c: Cell, rest: Bytes)
    requires Sized(c) && |CellBytes(c) + rest| < TWO32
    ensures DecodeEntry(CellBytes(c) + rest)
         == Some((c.shared, |c.key| - c.shared, |c.value|, c.key[c.shared..] + c.value + rest))
  {
    hide Varint, DecodeEntry;
    var tail := c.key[c.shared..] + c.value + rest;
    assert CellBytes(c) + rest == Varint(c.shared) + (Varint(|c.key| - c.shared) + (Varint(|c.value|) + tail));
    FastPath(c.shared, |c.key| - c.shared, |c.value|, tail);
  }
}
