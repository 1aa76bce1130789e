/**
 * Snapshots and the newest-first sort of main.go:80-91 and 156-157.
 */
module Snapshots {

  /** An input snapshot: its name (the whole input line) and the time parsed from it, in Unix seconds. */
  datatype Snap = Snap(name: string, timestamp: int)

  /** Newest first: timestamps never increase along the sequence. */
  predicate NewestFirst(s: seq<Snap>) {
    forall i, j :: 0 <= i < j < |s| ==> s[i].timestamp >= s[j].timestamp
  }

  /**
   * `snapSorter`: the `sort.Interface` view of the snapshot slice.  It
   * shares the array with its creator, so sorting it sorts the caller's
   * snapshots in place.
   */
  class SnapSorter {
    const snaps: array<Snap>

    constructor (snaps: array<Snap>)
      ensures this.snaps == snaps
    {
      this.snaps := snaps;
    }

    function Len(): int {
      snaps.Length
    }

    /** Snapshot x is older than snapshot y. */
    predicate Less(x: int, y: int)
      requires 0 <= x < snaps.Length && 0 <= y < snaps.Length
      reads snaps
    {
      snaps[x].timestamp < snaps[y].timestamp
    }

    /** Exchange snapshots x and y; nothing else moves. */
    method Swap(x: int, y: int)
      requires 0 <= x < snaps.Length && 0 <= y < snaps.Length
      modifies snaps
      ensures snaps[..] == old(snaps[..])[x := old(snaps[y])][y := old(snaps[x])]
      ensures multiset(snaps[..]) == old(multiset(snaps[..]))
    {
      snaps[x], snaps[y] := snaps[y], snaps[x];
    }

    /**
     * `sort.Sort(sort.Reverse(sorter))`: sort through `Less` with its
     * arguments exchanged and `Swap`, so the newest snapshot comes first.  Go
     * does not fix the algorithm nor the order of snapshots with equal
     * timestamps; this is an insertion sort.
     */
    method SortNewestFirst()
      modifies snaps
      ensures NewestFirst(snaps[..])
      ensures multiset(snaps[..]) == old(multiset(snaps[..]))
    {
      var i := 0;
      while i < Len()
        invariant 0 <= i <= Len()
        invariant NewestFirst(snaps[..i])
        invariant multiset(snaps[..]) == old(multiset(snaps[..]))
      {
        InsertAt(i);
        i := i + 1;
      }
      assert snaps[..i] == snaps[..];
    }

    /** Move the snapshot at i left, past every older one, into the newest-first prefix before it. */
    method InsertAt(i: int)
      requires 0 <= i < Len() && NewestFirst(snaps[..i])
      modifies snaps
      ensures NewestFirst(snaps[..i + 1])
      ensures snaps[i + 1..] == old(snaps[i + 1..])
      ensures multiset(snaps[..]) == old(multiset(snaps[..]))
    {
      var j := i;
      while j > 0 && Less(j - 1, j)
        invariant 0 <= j <= i
        invariant forall a, b :: 0 <= a < b <= i && a != j && b != j ==> snaps[a].timestamp >= snaps[b].timestamp
        invariant forall b :: j < b <= i ==> snaps[j].timestamp > snaps[b].timestamp
        invariant forall k :: i < k < snaps.Length ==> snaps[k] == old(snaps[k])
        invariant multiset(snaps[..]) == old(multiset(snaps[..]))
      {
        Swap(j - 1, j);
        j := j - 1;
      }
    }
  }
}
