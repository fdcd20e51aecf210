/** The two places that use the eviction list: the admission test before connecting
    (discovery/hostWithConnectionManagement.go) and the connection monitor
    (connectionMonitor/libp2pConnectionMonitorSimple.go). */
module Admission {
  import opened Basics
  import opened Distance
  import opened Sorting
  import opened Eviction
  import opened EvictionLaws
  import opened PeerVerdicts
  import PeersHolders

  /** `list` names every peer of `peers` once, in some order. */
  ghost predicate Lists(list: seq<PeerID>, peers: set<PeerID>) {
    NoRepeats(list) && (forall p :: p in list <==> p in peers)
  }

  /** The connected peers of a libp2p network. */
  class Network {
    var connected: set<PeerID>

    /** Lists the connected peers in an order callers cannot rely on. */
    method Peers() returns (list: seq<PeerID>)
      ensures Lists(list, connected)
    {
      list := [];
      var rest := connected;
      while rest != {}
        invariant rest <= connected && Lists(list, connected - rest)
        decreases rest
      {
        var p :| p in rest;
        list, rest := list + [p], rest - {p};
      }
    }

    method ClosePeer(p: PeerID)
      modifies this
      ensures connected == old(connected) - {p}
    {
      connected := connected - {p};
    }
  }

  /** Would the eviction step keep this peer if it connected now? */
  method CanConnectToPeer(network: Network, sharder: ListsSharder, pid: PeerID) returns (ok: bool)
    requires Sound(sharder.View())
    ensures exists peers, evicted ::
              (Lists(peers, network.connected + {pid}) && Verdict(sharder.View(), peers, evicted)
               && (ok <==> pid !in evicted))
  {
    hide Verdict, Sound;
    var allPeers := network.Peers();
    var found := Has(pid, allPeers);
    if !found {
      allPeers := allPeers + [pid];
    }
    assert Lists(allPeers, network.connected + {pid});
    var evicted := sharder.ComputeEvictionList(allPeers);
    var unwanted := Has(pid, evicted);
    return !unwanted;
  }

  /** What the sharder takes for preferred is what the holder contains. */
  ghost predicate SamePreferred(k: Knowledge, holder: PeersHolders.Holder) {
    forall p :: k.preferred(p) <==> p in holder.data
  }

  /** The event of a new connection: a denied peer is dropped, any other is recorded with the
      holder of preferred peers and makes room for itself. The record does not make anybody
      preferred, so it does not change the verdict. */
  method Connected(network: Network, sharder: ListsSharder, holder: PeersHolders.PeersHolder,
                   denied: PeerID -> bool, pid: PeerID, connection: string)
    requires Sound(sharder.View())
    requires PeersHolders.Linked(holder.View()) && SamePreferred(sharder.View(), holder.View())
    modifies network, holder
    ensures PeersHolders.Linked(holder.View()) && SamePreferred(sharder.View(), holder.View())
    ensures holder.View() == if denied(pid) then old(holder.View())
                             else PeersHolders.WithConnectionAddress(old(holder.View()), pid, connection)
    ensures denied(pid) ==> network.connected == old(network.connected) - {pid}
    ensures !denied(pid) ==> exists peers, evicted ::
              (Lists(peers, old(network.connected)) && Verdict(sharder.View(), peers, evicted)
               && network.connected == old(network.connected) - (set p | p in evicted))
  {
    hide Verdict, Sound, NoRepeats, PeersHolders.Linked, PeersHolders.WithConnectionAddress;
    if denied(pid) {
      network.ClosePeer(pid);
      return;
    }
    var allPeers := network.Peers();
    PeersHolders.PutConnectionAddressKeeps(holder.View(), pid, connection);
    holder.PutConnectionAddress(pid, connection);
    var evictedList := sharder.ComputeEvictionList(allPeers);
    ghost var k, h := sharder.View(), holder.View();
    for i := 0 to |evictedList|
      invariant sharder.View() == k && holder.View() == h
      invariant network.connected == old(network.connected) - (set p | p in evictedList[..i])
    {
      network.ClosePeer(evictedList[i]);
      assert evictedList[..i + 1] == evictedList[..i] + [evictedList[i]];
    }
    assert evictedList[..|evictedList|] == evictedList;
  }

  /** The periodic sweep closes exactly the denied peers. */
  method CheckConnectionsBlocking(network: Network, denied: PeerID -> bool)
    modifies network
    ensures network.connected == set p | p in old(network.connected) && !denied(p)
  {
    var peers := network.Peers();
    for i := 0 to |peers|
      invariant network.connected
             == set p | p in old(network.connected) && !(p in peers[..i] && denied(p))
    {
      assert peers[..i + 1] == peers[..i] + [peers[i]];
      if denied(peers[i]) {
        network.ClosePeer(peers[i]);
      }
    }
    assert peers[..|peers|] == peers;
  }

  lemma {:induction false} ListsPermuted(a: seq<PeerID>, b: seq<PeerID>, peers: set<PeerID>)
    requires Lists(a, peers) && Lists(b, peers)
    ensures multiset(a) == multiset(b)
  {
    forall p ensures multiset(a)[p] == multiset(b)[p] {
      OccursOnce(a, p);
      OccursOnce(b, p);
      assert p in multiset(a) <==> p in a;
      assert p in multiset(b) <==> p in b;
    }
  }

  /** The admission test and the eviction step that follows it agree on a peer, whatever order
      each of them lists the peers in, where the fate of the peer is settled. */
  lemma AdmittedIsKept(k: Knowledge, connected: set<PeerID>, pid: PeerID,
                       testPeers: seq<PeerID>, testEvicted: seq<PeerID>,
                       peers: seq<PeerID>, evicted: seq<PeerID>)
    requires Lists(testPeers, connected + {pid}) && Verdict(k, testPeers, testEvicted)
    requires Lists(peers, connected + {pid}) && Verdict(k, peers, evicted)
    requires FateOf(k, testPeers, pid) != Open
    ensures pid !in testEvicted <==> pid !in evicted
  {
    hide Verdict, FateOf;
    ListsPermuted(testPeers, peers, connected + {pid});
    FatePermuted(k, testPeers, peers, pid);
    FateDecides(k, testPeers, testEvicted, pid);
    FateDecides(k, peers, evicted, pid);
  }

  /** Every eviction step agrees with the admission test on the tested peer if and only if the cut
      of its own list does not fall among the peers at its distance. */
  lemma AdmissionAgreesIff(k: Knowledge, connected: set<PeerID>, pid: PeerID, testPeers: seq<PeerID>, testEvicted: seq<PeerID>)
    requires Lists(testPeers, connected + {pid}) && Verdict(k, testPeers, testEvicted)
    ensures (forall peers, evicted | Lists(peers, connected + {pid}) && Verdict(k, peers, evicted) ::
               pid in evicted <==> pid in testEvicted)
       <==> FateOf(k, testPeers, pid) != Open
  {
    hide Verdict, FateOf;
    if FateOf(k, testPeers, pid) == Open {
      var other := OpenFateTurns(k, testPeers, testEvicted, pid);
    } else {
      forall peers, evicted | Lists(peers, connected + {pid}) && Verdict(k, peers, evicted)
        ensures pid in evicted <==> pid in testEvicted
      {
        AdmittedIsKept(k, connected, pid, testPeers, testEvicted, peers, evicted);
      }
    }
  }

  /** The same for the sharder that knows one list only. */
  lemma OneListAdmissionAgreesIff(selfPeerId: PeerID, hash: PeerID -> Hash, maxPeerCount: int, connected: set<PeerID>,
                                  pid: PeerID, testPeers: seq<PeerID>, testEvicted: seq<PeerID>)
    requires Lists(testPeers, connected + {pid}) && OneListVerdict(selfPeerId, hash, maxPeerCount, testPeers, testEvicted)
    ensures (forall peers, evicted | Lists(peers, connected + {pid})
                                   && OneListVerdict(selfPeerId, hash, maxPeerCount, peers, evicted) ::
               pid in evicted <==> pid in testEvicted)
       <==> OneListFate(selfPeerId, hash, maxPeerCount, testPeers, pid) != Open
  {
    hide OneListVerdict, OneListFate;
    OneListTreatedAlikeIff(selfPeerId, hash, maxPeerCount, testPeers, testEvicted, pid);
    if OneListFate(selfPeerId, hash, maxPeerCount, testPeers, pid) == Open {
      var other := OneListTurns(selfPeerId, hash, maxPeerCount, testPeers, testEvicted, pid);
    } else {
      forall peers, evicted | Lists(peers, connected + {pid}) && OneListVerdict(selfPeerId, hash, maxPeerCount, peers, evicted)
        ensures pid in evicted <==> pid in testEvicted
      {
        ListsPermuted(testPeers, peers, connected + {pid});
      }
    }
  }

  /** Where it does, the eviction step can turn against the test over the very same list. */
  lemma TieLetsThemDisagree(k: Knowledge, connected: set<PeerID>, pid: PeerID, peers: seq<PeerID>, evicted: seq<PeerID>)
    returns (other: seq<PeerID>)
    requires Lists(peers, connected + {pid}) && Verdict(k, peers, evicted) && FateOf(k, peers, pid) == Open
    ensures Verdict(k, peers, other) && (pid in other <==> pid !in evicted)
  {
    other := OpenFateTurns(k, peers, evicted, pid);
  }

  lemma EvictedIsListed(k: Knowledge, peers: seq<PeerID>, evicted: seq<PeerID>, p: PeerID)
    requires Verdict(k, peers, evicted) && p in evicted
    ensures p in peers
  {
    hide Cut, Keeps, Members, Counts, Ids, Gone, Kept, ClassIds;
    var parts: Parts :| IsCut(k, peers, parts) && evicted == Gone(parts);
    VerdictPartitions(k, peers, parts);
    assert p in multiset(evicted);
    assert p in multiset(peers);
  }

  /** After an eviction step the monitor is at rest: the same step over the peers that stayed
      closes nobody. */
  lemma EvictionSettles(k: Knowledge, connected: set<PeerID>, peers: seq<PeerID>, evicted: seq<PeerID>,
                        left: seq<PeerID>, again: seq<PeerID>)
    requires Sound(k) && Lists(peers, connected) && Verdict(k, peers, evicted)
    requires Lists(left, connected - (set p | p in evicted)) && Verdict(k, left, again)
    ensures again == []
  {
    hide Verdict;
    forall p ensures multiset(peers)[p] == multiset(left + evicted)[p] {
      OccursOnce(peers, p);
      OccursOnce(left, p);
      EvictedOnce(k, peers, evicted, p);
      if p in evicted { EvictedIsListed(k, peers, evicted, p); }
      assert p in multiset(peers) <==> p in peers;
      assert p in multiset(left) <==> p in left;
      assert p in multiset(evicted) <==> p in evicted;
    }
    SurvivorsStay(k, peers, evicted, left, again);
  }

  lemma EvictedOnce(k: Knowledge, peers: seq<PeerID>, evicted: seq<PeerID>, p: PeerID)
    requires NoRepeats(peers) && Verdict(k, peers, evicted)
    ensures multiset(evicted)[p] <= 1
  {
    hide Cut, Keeps, Members, Counts, Ids, Gone, Kept, ClassIds;
    var parts: Parts :| IsCut(k, peers, parts) && evicted == Gone(parts);
    VerdictPartitions(k, peers, parts);
    OccursOnce(peers, p);
  }
}
