/** Sequences of sequences. */
module Sequences {
  /** The parts one after the other. */
  function Flatten<T>(parts: seq<seq<T>>): seq<T> {
    if parts == [] then [] else Flatten(parts[..|parts| - 1]) + parts[|parts| - 1]
  }

  /** Part b is a stretch of the whole. */
  lemma {:induction false} FlattenAt<T>(parts: seq<seq<T>>, b: nat)
    requires b < |parts|
    ensures |Flatten(parts[..b])| + |parts[b]| == |Flatten(parts[..b + 1])| <= |Flatten(parts)|
    ensures Flatten(parts)[|Flatten(parts[..b])|..|Flatten(parts[..b + 1])|] == parts[b]
    decreases |parts|
  {
    var n := |parts| - 1;
    assert parts[..b + 1][..b] == parts[..b];
    if b < n {
      FlattenAt(parts[..n], b);
      assert parts[..n][..b] == parts[..b] && parts[..n][..b + 1] == parts[..b + 1];
    } else {
      assert parts[..b + 1] == parts;
    }
  }

  lemma {:induction false} FlattenPrefix<T>(parts: seq<seq<T>>, n: nat)
    requires n <= |parts|
    ensures Flatten(parts[..n]) <= Flatten(parts)
    decreases |parts|
  {
    if n == |parts| {
      assert parts[..n] == parts;
    } else {
      FlattenPrefix(parts[..|parts| - 1], n);
      assert parts[..|parts| - 1][..n] == parts[..n];
    }
  }

  lemma {:induction false} FlattenMembers<T>(parts: seq<seq<T>>)
    ensures forall e :: e in Flatten(parts) <==> exists i :: 0 <= i < |parts| && e in parts[i]
  {
    if parts != [] {
      var n := |parts| - 1;
      FlattenMembers(parts[..n]);
      forall e | exists i :: 0 <= i < |parts| && e in parts[i] ensures e in Flatten(parts) {
        var i :| 0 <= i < |parts| && e in parts[i];
        if i < n {
          assert e in parts[..n][i];
        }
      }
    }
  }
}
