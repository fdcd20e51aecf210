/** Peers by distance (p2p/libp2p/networksharding/sorting/peerDistances.go). */
module Sorting {
  type PeerID = string

  datatype PeerDistance = PeerDistance(id: PeerID, distance: nat)

  predicate Less(a: PeerDistance, b: PeerDistance) {
    a.distance < b.distance
  }

  predicate Sorted(s: seq<PeerDistance>) {
    forall i, j :: 0 <= i < j < |s| ==> !Less(s[j], s[i])
  }

  predicate Permuted(s: seq<PeerDistance>, t: seq<PeerDistance>) {
    multiset(s) == multiset(t)
  }

  method Swap(a: array<PeerDistance>, i: nat, j: nat)
    requires i < a.Length && j < a.Length
    modifies a
    ensures a[..] == old(a[..][i := a[j]][j := a[i]])
    ensures Permuted(a[..], old(a[..]))
  {
    a[i], a[j] := a[j], a[i];
  }

  /** sort.Sort over Less and Swap. Callers rely on the contract alone, so the order it gives
      to peers at equal distance stays open, as it does for the unstable sort of the source. */
  method Sort(a: array<PeerDistance>)
    modifies a
    ensures Sorted(a[..]) && Permuted(a[..], old(a[..]))
  {
    for i := 0 to a.Length
      invariant Sorted(a[..i])
      invariant Permuted(a[..], old(a[..]))
    {
      var j := i;
      while j > 0 && Less(a[j], a[j - 1])
        invariant 0 <= j <= i
        invariant forall p, q :: 0 <= p < q <= i && q != j ==> !Less(a[q], a[p])
        invariant Permuted(a[..], old(a[..]))
      {
        Swap(a, j, j - 1);
        j := j - 1;
      }
    }
    assert a[..a.Length] == a[..];
  }
}
