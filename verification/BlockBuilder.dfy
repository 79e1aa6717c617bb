/** Building a block (table/block_builder.cc): entries with shared key prefixes and
    restart points. */
module BlockBuilders {
  import opened Coding
  import opened BlockFormat

  lemma {:induction false} BufferKept(cells: seq<Cell>, c: Cell, n: nat)
    requires AllSized(cells) && Sized(c) && n <= |cells|
    ensures AllSized(cells + [c]) && Buffer(cells + [c], n) == Buffer(cells, n)
    decreases n
  {
    hide CellBytes;
    if n > 0 {
      BufferKept(cells, c, n - 1);
    }
  }

  /** The length of the longest common prefix. */
  method SharedLength(a: Bytes, b: Bytes) returns (n: nat)
    ensures n <= |a| && n <= |b| && a[..n] == b[..n]
    ensures n < |a| && n < |b| ==> a[n] != b[n]
  {
    n := 0;
    var minLength := if |a| < |b| then |a| else |b|;
    while n < minLength && a[n] == b[n]
      invariant 0 <= n <= minLength && a[..n] == b[..n]
    {
      n := n + 1;
    }
  }

  ghost predicate OffsetsAre(cells: seq<Cell>, starts: seq<nat>, restarts: seq<Uint32>) {
    && AllSized(cells) && |restarts| == |starts|
    && (forall j :: 0 <= j < |starts| ==> starts[j] <= |cells| && restarts[j] == Offset(cells, starts[j]))
  }

  lemma OffsetsKept(cells: seq<Cell>, c: Cell, starts: seq<nat>, restarts: seq<Uint32>)
    requires OffsetsAre(cells, starts, restarts) && Sized(c)
    ensures OffsetsAre(cells + [c], starts, restarts)
  {
    hide Buffer, Sized;
    forall j | 0 <= j < |starts| ensures restarts[j] == Offset(cells + [c], starts[j]) {
      BufferKept(cells, c, starts[j]);
    }
  }

  /** The builder's fields describe the cells added so far; in the middle of Add,
      the last restart point may be the cell still to come. */
  ghost predicate Describes(cells: seq<Cell>, starts: seq<nat>, interval: nat, restarts: seq<Uint32>, counter: nat,
                            lastKey: Bytes)
    ensures Describes(cells, starts, interval, restarts, counter, lastKey) ==>
              AllSized(cells) && counter <= interval && interval > 0
  {
    && interval > 0 && Chained(cells)
    && OffsetsAre(cells, starts, restarts)
    && |starts| > 0 && starts[0] == 0
    && (forall j :: 0 < j < |starts| ==> starts[j] == starts[j - 1] + interval)
    && (forall j :: 0 <= j < |starts| && starts[j] < |cells| ==> cells[starts[j]].shared == 0)
    && |cells| == starts[|starts| - 1] + counter && counter <= interval
    && lastKey == (if cells == [] then [] else cells[|cells| - 1].key)
  }

  lemma RestartAdded(cells: seq<Cell>, starts: seq<nat>, interval: nat, restarts: seq<Uint32>, lastKey: Bytes,
                     offset: Uint32)
    requires Describes(cells, starts, interval, restarts, interval, lastKey) && offset == Offset(cells, |cells|)
    ensures Describes(cells, starts + [|cells|], interval, restarts + [offset], 0, lastKey)
  {
    hide Buffer, Chained;
  }

  lemma CellAdded(cells: seq<Cell>, starts: seq<nat>, interval: nat, restarts: seq<Uint32>, counter: nat,
                  lastKey: Bytes, c: Cell)
    requires Describes(cells, starts, interval, restarts, counter, lastKey) && counter < interval
    requires Sized(c) && Follows(lastKey, c) && (counter == 0 ==> c.shared == 0)
    ensures Describes(cells + [c], starts, interval, restarts, counter + 1, c.key)
    ensures Buffer(cells + [c], |cells| + 1) == Buffer(cells, |cells|) + CellBytes(c)
    ensures RestartsAt(cells + [c], starts)
  {
    hide CellBytes, Follows, Sized, Buffer, Chained, OffsetsAre, RestartsAt;
    OffsetsKept(cells, c, starts, restarts);
    BufferKept(cells, c, |cells|);
    LastCell(cells + [c]);
    ChainedKept(cells, c);
    RestartsKept(cells, starts, interval, counter, c);
  }

  lemma RestartsKept(cells: seq<Cell>, starts: seq<nat>, interval: nat, counter: nat, c: Cell)
    requires interval > 0 && |starts| > 0 && starts[0] == 0
    requires |cells| == starts[|starts| - 1] + counter && (counter == 0 ==> c.shared == 0)
    requires forall j :: 0 < j < |starts| ==> starts[j] == starts[j - 1] + interval
    requires forall j :: 0 <= j < |starts| && starts[j] < |cells| ==> cells[starts[j]].shared == 0
    ensures RestartsAt(cells + [c], starts)
    ensures forall j :: 0 <= j < |starts| ==> starts[j] <= |cells|
  {
    StartsInside(starts, interval);
  }

  lemma ChainedKept(cells: seq<Cell>, c: Cell)
    requires Chained(cells) && Sized(c) && (cells != [] ==> Follows(cells[|cells| - 1].key, c))
    ensures Chained(cells + [c])
  {
    hide Follows, Sized;
    forall i | 0 < i < |cells + [c]| ensures Follows((cells + [c])[i - 1].key, (cells + [c])[i]) {
      if i < |cells| {
        assert Follows(cells[i - 1].key, cells[i]);
      }
    }
  }

  /** Only the first cell of all comes when nothing has been counted. */
  lemma NothingCounted(cells: seq<Cell>, starts: seq<nat>, interval: nat, restarts: seq<Uint32>, lastKey: Bytes)
    requires Describes(cells, starts, interval, restarts, 0, lastKey) && RestartsAt(cells, starts)
    ensures lastKey == []
  {
    hide Chained, OffsetsAre;
  }

  /** A cell shares the longest prefix it has in common with the key before it. */
  ghost predicate SharesMost(key: Bytes, c: Cell) {
    Follows(key, c) && (c.shared < |key| && c.shared < |c.key| ==> key[c.shared] != c.key[c.shared])
  }

  class BlockBuilder {
    const interval: nat
    var buffer: Bytes
    var restarts: seq<Uint32>
    var counter: nat
    var lastKey: Bytes
    ghost var cells: seq<Cell>
    ghost var starts: seq<nat>

    ghost predicate Valid()
      reads this
    {
      && Describes(cells, starts, interval, restarts, counter, lastKey)
      && RestartsAt(cells, starts)
      && buffer == Buffer(cells, |cells|)
    }

    constructor (interval: nat)
      requires interval >= 1
      ensures Valid() && cells == [] && this.interval == interval && |buffer| == 0 && |restarts| == 1
    {
      this.interval := interval;
      buffer, restarts, counter, lastKey := [], [0], 0, [];
      cells, starts := [], [0];
    }

    method Reset()
      requires Valid()
      modifies this
      ensures Valid() && cells == [] && |buffer| == 0 && |restarts| == 1
    {
      hide CellBytes, Sized, Follows;
      buffer, restarts, counter, lastKey := [], [0], 0, [];
      cells, starts := [], [0];
    }

    predicate Empty()
      requires Valid()
      reads this
      ensures Empty() <==> cells == []
      ensures Empty() ==> |restarts| == 1
    {
      EmptyBuffer(cells, starts);
      buffer == []
    }

    /** Adds an entry, sharing as much of the last key as possible unless the
        interval is full, when it starts a new restart point. */
    method Add(key: Bytes, value: Bytes)
      requires Valid() && |key| < TWO32 && |value| < TWO32 && |buffer| < TWO32
      modifies this
      ensures Valid()
      ensures |cells| == |old(cells)| + 1 && cells[..|old(cells)|] == old(cells)
      ensures cells[|cells| - 1].key == key && cells[|cells| - 1].value == value
      ensures if old(counter) < interval then starts == old(starts) && SharesMost(old(lastKey), cells[|cells| - 1])
              else starts == old(starts) + [|old(cells)|]
      ensures |buffer| <= |old(buffer)| + 15 + |key| + |value| && |restarts| <= |old(restarts)| + 1
    {
      hide CellBytes, Buffer, RestartsAt, Describes, Varint;
      var shared := 0;
      if counter < interval {
        if counter == 0 {
          NothingCounted(cells, starts, interval, restarts, lastKey);
        }
        shared := SharedLength(lastKey, key);
      } else {
        RestartAdded(cells, starts, interval, restarts, lastKey, |buffer|);
        restarts := restarts + [|buffer|];
        starts := starts + [|cells|];
        counter := 0;
      }
      ghost var c := Cell(shared, key, value);
      CellAdded(cells, starts, interval, restarts, counter, lastKey, c);
      buffer := buffer + (Varint(shared) + (Varint(|key| - shared) + (Varint(|value|) + (key[shared..] + value))));
      CellIs(c);
      CellSize(c);
      lastKey := lastKey[..shared] + key[shared..];
      assert lastKey == key[..shared] + key[shared..] == key;
      counter := counter + 1;
      cells := cells + [c];
    }

    /** The block, and how it reads. */
    method Finish() returns (data: Bytes)
      requires Valid() && |buffer| + 4 * |restarts| + 4 < TWO32
      ensures IsBlock(data, cells, starts)
    {
      hide Buffer, RestartsAt, FixedAll, EncodeFixed32;
      data := buffer;
      var i := 0;
      NoFixed();
      assert restarts[..0] == [];
      while i < |restarts|
        invariant 0 <= i <= |restarts| && data == buffer + FixedAll(restarts[..i])
      {
        assert restarts[..i + 1] == restarts[..i] + [restarts[i]];
        FixedSnoc(restarts[..i], restarts[i]);
        data := data + EncodeFixed32(restarts[i]);
        i := i + 1;
      }
      assert restarts[..i] == restarts == RestartOffsets(cells, starts);
      data := data + EncodeFixed32(|restarts|);
    }
  }

  lemma CellIs(c: Cell)
    requires Sized(c)
    ensures CellBytes(c)
         == Varint(c.shared) + (Varint(|c.key| - c.shared) + (Varint(|c.value|) + (c.key[c.shared..] + c.value)))
  {
    hide Varint;
  }

  lemma EmptyBuffer(cells: seq<Cell>, starts: seq<nat>)
    requires AllSized(cells) && RestartsAt(cells, starts)
    ensures Buffer(cells, |cells|) == [] <==> cells == []
    ensures cells == [] ==> |starts| == 1
  {
    if cells != [] {
      OffsetsAscend(cells, 0, |cells|);
    }
    assert |starts| > 1 ==> starts[0] < starts[1] < |cells|;
  }

  lemma CellSize(c: Cell)
    requires Sized(c)
    ensures |CellBytes(c)| <= 15 + |c.key| + |c.value|
  {
    hide Varint;
    VarintLength(c.shared, 5);
    VarintLength(|c.key| - c.shared, 5);
    VarintLength(|c.value|, 5);
  }

  lemma LastCell(cells: seq<Cell>)
    requires AllSized(cells) && cells != []
    ensures Buffer(cells, |cells|) == Buffer(cells, |cells| - 1) + CellBytes(cells[|cells| - 1])
  {
    hide CellBytes;
  }

  lemma {:induction false} StartsInside(starts: seq<nat>, interval: nat)
    requires |starts| > 0 && interval > 0 && forall j :: 0 < j < |starts| ==> starts[j] == starts[j - 1] + interval
    ensures forall j :: 0 <= j < |starts| ==> starts[j] <= starts[|starts| - 1]
  {
    if |starts| > 1 {
      var n := |starts| - 1;
      StartsInside(starts[..n], interval);
      assert forall j :: 0 <= j < n ==> starts[..n][j] == starts[j];
    }
  }
}
