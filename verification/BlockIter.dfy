/** The block iterator (table/block.cc, Block::Iter). */
module BlockIters {
  import opened Options
  import opened Coding
  import opened BlockFormat
  import opened BlockBuilders
  import opened Comparators

  ghost predicate SortedCells(less: Less, cells: seq<Cell>) {
    forall i, j :: 0 <= i < j < |cells| ==> less(cells[i].key, cells[j].key)
  }

  /** i is the first cell whose key is not before target, or the end. */
  ghost predicate IsSeekIndex(less: Less, cells: seq<Cell>, target: Bytes, i: nat) {
    && i <= |cells|
    && (forall j :: 0 <= j < i ==> less(cells[j].key, target))
    && (i < |cells| ==> !less(cells[i].key, target))
  }

  /** restart is a restart point at or before cell i, and the next one is not
      before it: the one of i's own interval, or, when i is a restart cell
      itself, possibly the one before. */
  ghost predicate RestartOf(starts: seq<nat>, restart: nat, i: nat) {
    && restart < |starts| && starts[restart] <= i
    && (restart + 1 < |starts| ==> i <= starts[restart + 1])
  }

  lemma {:induction false} RestartsAscend(cells: seq<Cell>, starts: seq<nat>, i: nat, j: nat)
    requires RestartsAt(cells, starts) && i < j < |starts|
    ensures starts[i] < starts[j] < |cells|
    decreases j
  {
    if i < j - 1 {
      RestartsAscend(cells, starts, i, j - 1);
    }
  }

  /** Offsets of cells compare as their indices. */
  lemma OffsetOrder(cells: seq<Cell>, i: nat, j: nat)
    requires AllSized(cells) && i <= |cells| && j <= |cells|
    ensures Offset(cells, i) < Offset(cells, j) <==> i < j
    ensures Offset(cells, i) == Offset(cells, j) ==> i == j
  {
    hide Buffer, Sized;
    if i < j {
      OffsetsAscend(cells, i, j);
    } else if j < i {
      OffsetsAscend(cells, j, i);
    }
  }

  /** The entry that starts at the offset of cell i, decoded. */
  lemma DecodeAt(data: Bytes, cells: seq<Cell>, starts: seq<nat>, i: nat)
    requires IsBlock(data, cells, starts) && i < |cells|
    ensures Offset(cells, i + 1) <= Offset(cells, |cells|) <= |data| && Offset(cells, i) < Offset(cells, i + 1)
    ensures var c, limit := cells[i], Offset(cells, |cells|);
            var rest := c.key[c.shared..] + c.value + data[Offset(cells, i + 1)..limit];
            && DecodeEntry(data[Offset(cells, i)..limit]) == Some((c.shared, |c.key| - c.shared, |c.value|, rest))
            && limit - |rest| + (|c.key| - c.shared) + |c.value| == Offset(cells, i + 1)
            && limit - |rest| >= 0
            && data[limit - |rest| + (|c.key| - c.shared)..Offset(cells, i + 1)] == c.value
  {
    hide Buffer, DecodeEntry, IsBlock;
    IsChained(data, cells, starts);
    var c, limit := cells[i], Offset(cells, |cells|);
    CellInBlock(data, cells, starts, i);
    OffsetOrder(cells, i, i + 1);
    var a, b := Offset(cells, i), Offset(cells, i + 1);
    assert data[a..limit] == data[a..b] + data[b..limit];
    DecodeCell(c, data[b..limit]);
    CellTail(data, a, b, c);
  }

  lemma IsChained(data: Bytes, cells: seq<Cell>, starts: seq<nat>)
    requires IsBlock(data, cells, starts)
    ensures Chained(cells) && RestartsAt(cells, starts) && |data| < TWO32
  {
  }

  lemma CellTail(data: Bytes, a: nat, b: nat, c: Cell)
    requires a <= b <= |data| && Sized(c) && data[a..b] == CellBytes(c)
    ensures |c.value| <= b && data[b - |c.value|..b] == c.value
  {
    hide Varint;
    assert data[b - |c.value|..b] == data[a..b][|data[a..b]| - |c.value|..];
  }

  /** A restart cell shares nothing, so any key will do before it. */
  lemma RestartFollows(cells: seq<Cell>, starts: seq<nat>, j: nat)
    requires Chained(cells) && RestartsAt(cells, starts) && j < |starts|
    ensures starts[j] <= |cells| && (starts[j] < |cells| ==> Follows([], cells[starts[j]]))
  {
    if j > 0 {
      RestartsAscend(cells, starts, 0, j);
    }
    if starts[j] < |cells| {
      assert Sized(cells[starts[j]]);
    }
  }

  class Iter {
    const data: Bytes
    const restarts: nat
    const numRestarts: nat
    const less: Less
    var current: nat
    var restartIndex: nat
    var key: Bytes
    var valueStart: nat
    var valueEnd: nat
    var corrupt: bool
    ghost const cells: seq<Cell>
    ghost const starts: seq<nat>
    ghost var index: nat

    ghost predicate OfBlock() {
      && IsBlock(data, cells, starts) && Chained(cells) && RestartsAt(cells, starts)
      && restarts == Offset(cells, |cells|) && numRestarts == |starts| && restarts + 4 * numRestarts <= |data|
    }

    /** The iterator stands at cell index, or past the end. */
    ghost predicate Valid()
      reads this
    {
      && OfBlock() && !corrupt && index <= |cells|
      && if index < |cells| then
           && current == Offset(cells, index) && current < restarts
           && key == cells[index].key
           && RestartOf(starts, restartIndex, index)
           && valueStart <= valueEnd == Offset(cells, index + 1) && valueEnd <= |data|
           && data[valueStart..valueEnd] == cells[index].value
         else
           current == restarts && restartIndex == numRestarts
    }

    /** The next cell to be read is cell m. */
    ghost predicate Ready(m: nat)
      reads this
    {
      && OfBlock() && !corrupt && m <= |cells| && valueEnd == Offset(cells, m)
      && restartIndex < |starts| && starts[restartIndex] <= m
      && (m < |cells| ==> Follows(key, cells[m]))
    }

    /** An iterator on a finished block, by the numbers at its end. */
    constructor (data: Bytes, less: Less, ghost cells: seq<Cell>, ghost starts: seq<nat>)
      requires IsBlock(data, cells, starts)
      ensures Valid() && index == |cells| && this.data == data
      ensures this.cells == cells && this.starts == starts && this.less == less
    {
      hide IsBlock, Chained, RestartsAt, Buffer;
      OpenBlock(data, cells, starts);
      IsChained(data, cells, starts);
      this.data, this.less, this.cells, this.starts := data, less, cells, starts;
      restarts, numRestarts := RestartOffset(data), NumRestarts(data);
      current, restartIndex := RestartOffset(data), NumRestarts(data);
      key, valueStart, valueEnd, corrupt := [], 0, 0, false;
      index := |cells|;
    }

    method SeekToRestartPoint(j: nat)
      requires OfBlock() && !corrupt && j < numRestarts
      modifies this
      ensures Ready(starts[j]) && key == [] && corrupt == old(corrupt)
    {
      hide IsBlock, Chained, RestartsAt, Buffer, RestartPoint;
      RestartPointAt(data, cells, starts, j);
      RestartFollows(cells, starts, j);
      key := [];
      restartIndex := j;
      var offset := RestartPoint(data, restarts, j);
      valueStart, valueEnd := offset, offset;
    }

    method ParseNextKey(ghost m: nat) returns (ok: bool)
      requires Ready(m)
      modifies this
      ensures Valid() && index == m && ok == (m < |cells|)
    {
      hide IsBlock, Chained, RestartsAt, Buffer, DecodeEntry, Sized;
      index := m;
      current := valueEnd;
      AllAreSized(cells);
      OffsetOrder(cells, m, |cells|);
      if current >= restarts {
        current := restarts;
        restartIndex := numRestarts;
        return false;
      }
      DecodeAt(data, cells, starts, m);
      var e := DecodeEntry(data[current..restarts]);
      var (shared, nonShared, valueLength, rest) := e.value;
      JoinKey(key, cells[m], rest);
      key := key[..shared] + rest[..nonShared];
      valueStart := restarts - |rest| + nonShared;
      valueEnd := valueStart + valueLength;
      AdvanceRestart();
      ok := true;
    }

    method Next()
      requires Valid() && index < |cells|
      modifies this
      ensures Valid() && index == old(index) + 1
    {
      hide IsBlock, Chained, RestartsAt, Buffer, RestartOf;
      NextReady();
      var _ := ParseNextKey(index + 1);
    }

    lemma NextReady()
      requires Valid() && index < |cells|
      ensures Ready(index + 1)
    {
      hide IsBlock, RestartsAt, Buffer;
    }

    method SeekToFirst()
      requires Valid()
      modifies this
      ensures Valid() && index == 0
    {
      hide IsBlock, Chained, RestartsAt, Buffer;
      FirstStart(cells, starts);
      SeekToRestartPoint(0);
      var _ := ParseNextKey(0);
    }

    /** Reads on from the last restart point to the last cell. */
    method SeekToLast()
      requires Valid()
      modifies this
      ensures Valid() && index == if cells == [] then 0 else |cells| - 1
    {
      hide IsBlock, Chained, RestartsAt, Buffer, RestartOf;
      FirstStart(cells, starts);
      SeekToRestartPoint(numRestarts - 1);
      ghost var m := starts[numRestarts - 1];
      StartsBefore(cells, starts, numRestarts - 1);
      ReadUntil(m, restarts, |cells|);
    }

    /** Reads cells from m on until one ends at or past the offset of cell end. */
    method ReadUntil(ghost m: nat, limit: nat, ghost end: nat)
      requires Ready(m) && end <= |cells| && limit == Offset(cells, end) && (m < end || m == end == |cells|)
      modifies this
      ensures Valid() && index == if m < end then end - 1 else end
    {
      hide IsBlock, Chained, RestartsAt, Buffer, RestartOf;
      AllAreSized(cells);
      ghost var n := m;
      while true
        invariant Ready(n) && m <= n && (n < end || m == n == end)
        decreases end - n
      {
        var ok := ParseNextKey(n);
        if !ok {
          return;
        }
        OffsetOrder(cells, index + 1, end);
        if valueEnd >= limit {
          return;
        }
        NextReady();
        n := n + 1;
      }
    }

    /** Goes back to a restart point before the current cell, and reads on from
        there to the cell in front of it; past the end when there is none. */
    method Prev()
      requires Valid() && index < |cells|
      modifies this
      ensures Valid() && index == if old(index) == 0 then |cells| else old(index) - 1
    {
      hide IsBlock, Chained, RestartsAt, Buffer, RestartPoint;
      var original := current;
      ghost var i := index;
      AllAreSized(cells);
      FirstStart(cells, starts);
      while true
        invariant OfBlock() && !corrupt && restartIndex < |starts|
        invariant original == Offset(cells, i) && starts[restartIndex] <= i
        decreases restartIndex
      {
        RestartPointAt(data, cells, starts, restartIndex);
        RestartFollows(cells, starts, restartIndex);
        OffsetOrder(cells, starts[restartIndex], i);
        if RestartPoint(data, restarts, restartIndex) < original {
          break;
        }
        if restartIndex == 0 {
          current, restartIndex, index := restarts, numRestarts, |cells|;
          return;
        }
        StartsStep(cells, starts, restartIndex);
        restartIndex := restartIndex - 1;
      }
      ghost var m := starts[restartIndex];
      SeekToRestartPoint(restartIndex);
      ReadUntil(m, original, i);
    }

    /** The binary search among the restart points: the cells before restart left
        are before target, and so is its own first cell unless left is 0. */
    method SearchRestarts(target: Bytes, low: nat, high: nat) returns (left: nat)
      requires OfBlock() && SortedCells(less, cells) && low <= high < numRestarts
      requires low > 0 ==> starts[low] < |cells| && less(cells[starts[low]].key, target)
      requires high + 1 < numRestarts ==> starts[high + 1] < |cells| && !less(cells[starts[high + 1]].key, target)
      ensures low <= left <= high
      ensures left > 0 ==> starts[left] < |cells| && less(cells[starts[left]].key, target)
      ensures left + 1 < numRestarts ==> starts[left + 1] < |cells| && !less(cells[starts[left + 1]].key, target)
    {
      hide IsBlock, Chained, RestartsAt, Buffer, RestartPoint, DecodeEntry, SortedCells;
      left := low;
      var right := high;
      while left < right
        invariant low <= left <= right <= high
        invariant left > 0 ==> starts[left] < |cells| && less(cells[starts[left]].key, target)
        invariant right + 1 < numRestarts ==> starts[right + 1] < |cells| && !less(cells[starts[right + 1]].key, target)
      {
        var mid := (left + right + 1) / 2;
        RestartsAscend(cells, starts, 0, mid);
        RestartKey(data, cells, starts, mid);
        var e := DecodeEntry(data[RestartPoint(data, restarts, mid)..restarts]);
        var midKey := e.value.3[..e.value.1];
        if less(midKey, target) {
          left := mid;
        } else {
          right := mid - 1;
        }
      }
    }

    /** Seek, from any position: the current one is used when it helps. */
    method Seek(target: Bytes)
      requires Valid() && SortedCells(less, cells) && WeakOrder(less)
      modifies this
      ensures Valid() && IsSeekIndex(less, cells, target, index)
    {
      hide IsBlock, Chained, RestartsAt, Buffer, SortedCells, WeakOrder;
      var left, right := 0, numRestarts - 1;
      FirstStart(cells, starts);
      var before := false;
      if current < restarts {
        if less(key, target) {
          before := true;
          left := restartIndex;
          EarlierBefore(less, cells, target, starts[restartIndex], index);
        } else if less(target, key) {
          right := restartIndex;
          if restartIndex + 1 < numRestarts {
            RestartsAscend(cells, starts, restartIndex, restartIndex + 1);
            LaterPast(less, cells, target, index, starts[restartIndex + 1]);
          }
        } else {
          SeekHere(less, cells, target, index);
          return;
        }
      }
      left := SearchRestarts(target, left, right);
      var skipSeek := left == restartIndex && before;
      ghost var m;
      if skipSeek {
        m := index + 1;
        AllBefore(less, cells, target, index);
        NextReady();
      } else {
        m := starts[left];
        if left > 0 {
          AllBefore(less, cells, target, m);
        }
        SeekToRestartPoint(left);
      }
      Scan(target, m);
    }

    /** The linear search for the first key not before target. */
    method Scan(target: Bytes, ghost m: nat)
      requires Ready(m) && forall j :: 0 <= j < m ==> less(cells[j].key, target)
      modifies this
      ensures Valid() && IsSeekIndex(less, cells, target, index)
    {
      hide IsBlock, Chained, RestartsAt, Buffer, RestartOf;
      ghost var n := m;
      while true
        invariant Ready(n) && forall j :: 0 <= j < n ==> less(cells[j].key, target)
        decreases |cells| - n
      {
        var ok := ParseNextKey(n);
        if !ok {
          return;
        }
        if !less(key, target) {
          return;
        }
        NextReady();
        n := n + 1;
      }
    }

    method AdvanceRestart()
      requires OfBlock() && index < |cells| && current == Offset(cells, index)
      requires restartIndex < |starts| && starts[restartIndex] <= index
      modifies `restartIndex
      ensures RestartOf(starts, restartIndex, index)
    {
      hide IsBlock, Chained, RestartsAt, Buffer, RestartPoint;
      AllAreSized(cells);
      while restartIndex + 1 < numRestarts
        invariant restartIndex < |starts| && starts[restartIndex] <= index
      {
        RestartPointAt(data, cells, starts, restartIndex + 1);
        RestartFollows(cells, starts, restartIndex + 1);
        OffsetOrder(cells, starts[restartIndex + 1], index);
        if RestartPoint(data, restarts, restartIndex + 1) >= current {
          break;
        }
        restartIndex := restartIndex + 1;
      }
    }
  }

  /** The key of the restart cell in the middle, as Seek reads it. */
  lemma RestartKey(data: Bytes, cells: seq<Cell>, starts: seq<nat>, j: nat)
    requires IsBlock(data, cells, starts) && j < |starts| && starts[j] < |cells|
    ensures Offset(cells, |cells|) + 4 * j + 4 <= |data|
    ensures RestartPoint(data, Offset(cells, |cells|), j) <= Offset(cells, |cells|)
    ensures var e := DecodeEntry(data[RestartPoint(data, Offset(cells, |cells|), j)..Offset(cells, |cells|)]);
            e.Some? && e.value.0 == 0 && e.value.1 <= |e.value.3| && e.value.3[..e.value.1] == cells[starts[j]].key
  {
    hide IsBlock, RestartPoint, DecodeEntry, Buffer;
    IsChained(data, cells, starts);
    RestartPointAt(data, cells, starts, j);
    DecodeAt(data, cells, starts, starts[j]);
    var c := cells[starts[j]];
    assert c.shared == 0 && c.key[0..] == c.key;
  }

  /** Everything up to a cell before target is before target. */
  lemma AllBefore(less: Less, cells: seq<Cell>, target: Bytes, i: nat)
    requires WeakOrder(less) && SortedCells(less, cells) && i < |cells| && less(cells[i].key, target)
    ensures forall j :: 0 <= j <= i ==> less(cells[j].key, target)
  {
    forall j | 0 <= j < i ensures less(cells[j].key, target) {
      Order(less, cells[j].key, cells[i].key, target);
    }
  }

  /** A cell at or before one that is before target is before target. */
  lemma EarlierBefore(less: Less, cells: seq<Cell>, target: Bytes, i: nat, j: nat)
    requires WeakOrder(less) && SortedCells(less, cells) && i <= j < |cells| && less(cells[j].key, target)
    ensures less(cells[i].key, target)
  {
    AllBefore(less, cells, target, j);
  }

  /** A cell at or after one that is past target is not before target. */
  lemma LaterPast(less: Less, cells: seq<Cell>, target: Bytes, i: nat, j: nat)
    requires WeakOrder(less) && SortedCells(less, cells) && i <= j < |cells| && less(target, cells[i].key)
    ensures !less(cells[j].key, target)
  {
    Order(less, target, cells[i].key, cells[j].key);
    Order(less, target, cells[j].key, target);
  }

  lemma SeekHere(less: Less, cells: seq<Cell>, target: Bytes, i: nat)
    requires WeakOrder(less) && SortedCells(less, cells) && i < |cells|
    requires !less(cells[i].key, target) && !less(target, cells[i].key)
    ensures IsSeekIndex(less, cells, target, i)
  {
    forall j | 0 <= j < i ensures less(cells[j].key, target) {
      Order(less, cells[j].key, target, cells[i].key);
    }
  }

  lemma FirstStart(cells: seq<Cell>, starts: seq<nat>)
    requires RestartsAt(cells, starts)
    ensures |starts| > 0 && starts[0] == 0
  {
  }

  lemma StartsBefore(cells: seq<Cell>, starts: seq<nat>, j: nat)
    requires RestartsAt(cells, starts) && j < |starts|
    ensures starts[j] < |cells| || (cells == [] && starts[j] == 0)
  {
    if j > 0 {
      RestartsAscend(cells, starts, 0, j);
    }
  }

  lemma StartsStep(cells: seq<Cell>, starts: seq<nat>, j: nat)
    requires RestartsAt(cells, starts) && 0 < j < |starts|
    ensures starts[j - 1] < starts[j]
  {
  }

  lemma AllAreSized(cells: seq<Cell>)
    requires Chained(cells)
    ensures AllSized(cells)
  {
  }

  /** The shared part and the rest make up the key. */
  lemma JoinKey(key: Bytes, c: Cell, rest: Bytes)
    requires Follows(key, c) && c.key[c.shared..] <= rest
    ensures key[..c.shared] + rest[..|c.key| - c.shared] == c.key
  {
    assert rest[..|c.key| - c.shared] == c.key[c.shared..];
    assert c.key == c.key[..c.shared] + c.key[c.shared..];
  }

  /** Iterating over a block gives its pairs, in order. */
  method ReadBlock(data: Bytes, less: Less, ghost cells: seq<Cell>, ghost starts: seq<nat>)
    returns (pairs: seq<(Bytes, Bytes)>)
    requires IsBlock(data, cells, starts)
    ensures |pairs| == |cells| && forall i :: 0 <= i < |pairs| ==> pairs[i] == (cells[i].key, cells[i].value)
  {
    hide IsBlock, Chained, RestartsAt, Buffer;
    var iter := new Iter(data, less, cells, starts);
    pairs := [];
    iter.SeekToFirst();
    while iter.current < iter.restarts
      invariant fresh(iter) && iter.Valid() && iter.cells == cells && |pairs| == iter.index
      invariant forall i :: 0 <= i < |pairs| ==> pairs[i] == (cells[i].key, cells[i].value)
      decreases |iter.cells| - iter.index
    {
      pairs := pairs + [(iter.key, iter.data[iter.valueStart..iter.valueEnd])];
      iter.Next();
    }
  }

  /** In particular those that a builder was given, for every restart interval. */
  method ReadBack(builder: BlockBuilder, less: Less) returns (pairs: seq<(Bytes, Bytes)>)
    requires builder.Valid() && |builder.buffer| + 4 * |builder.restarts| + 4 < TWO32
    ensures |pairs| == |builder.cells|
    ensures forall i :: 0 <= i < |pairs| ==> pairs[i] == (builder.cells[i].key, builder.cells[i].value)
  {
    hide IsBlock;
    var data := builder.Finish();
    pairs := ReadBlock(data, less, builder.cells, builder.starts);
  }
}
