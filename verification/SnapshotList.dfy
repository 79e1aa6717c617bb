/** The snapshot list (db/snapshot.h): a ring in order of sequence numbers. */
module SnapshotLists {
  import opened DbFormat
  import opened Rings

  const HEAD: nat := 0

  function SequencesOf(sequences: seq<SequenceNumber>, items: seq<nat>): seq<SequenceNumber>
    requires forall i :: 0 <= i < |items| ==> items[i] < |sequences|
  {
    seq(|items|, i requires 0 <= i < |items| => sequences[items[i]])
  }

  class SnapshotList {
    var links: Links
    var sequences: seq<SequenceNumber>
    /** The snapshots that are held, oldest first. */
    ghost var items: seq<nat>

    ghost predicate Valid()
      reads this
    {
      && Ring(links, HEAD, items) && |sequences| == |links.next|
      && (forall i :: 0 <= i < |items| ==> items[i] < |sequences|)
      && (forall i, j :: 0 <= i < j < |items| ==> sequences[items[i]] <= sequences[items[j]])
    }

    /** Their sequence numbers. */
    ghost function Held(): (r: seq<SequenceNumber>)
      requires Valid()
      reads this
      ensures |r| == |items| && forall i, j :: 0 <= i < j < |r| ==> r[i] <= r[j]
    {
      SequencesOf(sequences, items)
    }

    constructor ()
      ensures Valid() && items == []
    {
      links, sequences, items := Links([HEAD], [HEAD]), [0], [];
    }

    function Empty(): bool
      requires Valid()
      reads this
      ensures Empty() <==> items == []
    {
      RingMembers(links, HEAD, items);
      links.next[HEAD] == HEAD
    }

    /** The held snapshot with the least sequence number. */
    function Oldest(): (x: nat)
      requires Valid() && items != []
      reads this
      ensures x in items && forall y :: y in items ==> sequences[x] <= sequences[y]
    {
      RingMembers(links, HEAD, items);
      links.next[HEAD]
    }

    function Newest(): (x: nat)
      requires Valid() && items != []
      reads this
      ensures x in items && forall y :: y in items ==> sequences[y] <= sequences[x]
    {
      RingMembers(links, HEAD, items);
      links.prev[HEAD]
    }

    method New(sequence: SequenceNumber) returns (x: nat)
      requires Valid() && (items != [] ==> sequences[Newest()] <= sequence)
      modifies this
      ensures Valid() && x == |old(sequences)| && items == old(items) + [x] && sequences == old(sequences) + [sequence]
      ensures Held() == old(Held()) + [sequence]
    {
      hide Ring;
      RingMembers(links, HEAD, items);
      x := |sequences|;
      var grown := Links(links.next + [HEAD], links.prev + [HEAD]);
      RingStays(links, grown, HEAD, items);
      AppendRing(grown, HEAD, items, x);
      if items != [] {
        assert items[|items| - 1] == Newest();
      }
      links := Append(grown, HEAD, x);
      sequences := sequences + [sequence];
      items := items + [x];
    }

    method Delete(x: nat) returns (ghost k: nat)
      requires Valid() && x in items
      modifies this
      ensures Valid() && sequences == old(sequences) && k < |old(items)| && old(items)[k] == x
      ensures items == Without(old(items), k) && Held() == old(Held())[..k] + old(Held())[k + 1..]
    {
      hide Ring;
      k :| 0 <= k < |items| && items[k] == x;
      RemoveRing(links, HEAD, items, k);
      links := Remove(links, x);
      items := Without(items, k);
    }
  }
}
