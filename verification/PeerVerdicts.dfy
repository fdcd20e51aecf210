/** What an eviction means for one peer: when every verdict treats it alike, and how. */
module PeerVerdicts {
  import opened Basics
  import opened Distance
  import opened Sorting
  import opened Eviction
  import opened EvictionLaws

  /** What any cut does to a peer: it stays, it goes, or the sort's treatment of ties decides. */
  datatype Fate = Stays | Goes | Open

  /** A peer at distance `d` stays when all peers up to its distance fit, goes when those nearer
      than it fill the list, and is open when the cut falls among the peers at its distance. */
  function CutFate(members: seq<PeerDistance>, numKeep: int, d: int): Fate {
    if numKeep <= CountBelow(members, d) then Goes
    else if numKeep >= CountBelow(members, d + 1) then Stays
    else Open
  }

  // ---------------------------------------------------------------- one list

  lemma CutCounts(members: seq<PeerDistance>, numKeep: int, s: Split, t: int)
    requires Cut(members, numKeep, s)
    ensures CountBelow(members, t) == CountBelow(s.kept, t) + CountBelow(s.gone, t)
    ensures |members| == |s.kept| + |s.gone|
  {
    CountBelowPermuted(s.kept + s.gone, members, t);
    CountBelowAppend(s.kept, s.gone, t);
    assert |multiset(s.kept + s.gone)| == |multiset(members)|;
  }

  /** A settled fate is what every cut does. */
  lemma CutFateDecides(members: seq<PeerDistance>, numKeep: int, s: Split, m: PeerDistance)
    requires Cut(members, numKeep, s)
    ensures CutFate(members, numKeep, m.distance) == Goes ==> m !in s.kept
    ensures CutFate(members, numKeep, m.distance) == Stays ==> m !in s.gone
  {
    hide CountBelow;
    var d := m.distance;
    if m in s.kept {
      CutCounts(members, numKeep, s, d);
      CountBelowBounds(s.kept, d);
      CountBelowBounds(s.gone, d);
    }
    if m in s.gone {
      CutCounts(members, numKeep, s, d + 1);
      CountBelowBounds(s.kept, d + 1);
      CountBelowBounds(s.gone, d + 1);
    }
  }

  /** Where the fate is open, another cut treats the peer the other way. */
  lemma OpenCutTurns(members: seq<PeerDistance>, numKeep: int, s: Split, m: PeerDistance) returns (s': Split)
    requires Cut(members, numKeep, s) && CutFate(members, numKeep, m.distance) == Open
    requires m in s.kept || m in s.gone
    ensures Cut(members, numKeep, s') && (if m in s.kept then m in s'.gone else m in s'.kept)
  {
    hide CountBelow;
    var d := m.distance;
    if m in s.kept {
      var j := TiedGone(members, numKeep, s, m);
      var i :| 0 <= i < |s.kept| && s.kept[i] == m;
      ExchangedCut(members, numKeep, s, i, j);
      s' := Split(s.kept[i := s.gone[j]], s.gone[j := m]);
      assert s'.gone[j] == m;
    } else {
      var i := TiedKept(members, numKeep, s, m);
      var j :| 0 <= j < |s.gone| && s.gone[j] == m;
      ExchangedCut(members, numKeep, s, i, j);
      s' := Split(s.kept[i := m], s.gone[j := s.kept[i]]);
      assert s'.kept[i] == m;
    }
  }

  lemma TiedGone(members: seq<PeerDistance>, numKeep: int, s: Split, m: PeerDistance) returns (j: nat)
    requires Cut(members, numKeep, s) && CutFate(members, numKeep, m.distance) == Open && m in s.kept
    ensures j < |s.gone| && s.gone[j].distance == m.distance
  {
    hide CountBelow;
    var t := m.distance + 1;
    CutCounts(members, numKeep, s, t);
    CountBelowBounds(s.kept, t);
    CountBelowBounds(s.gone, t);
    var g :| g in s.gone && g.distance < t;
    j :| 0 <= j < |s.gone| && s.gone[j] == g;
  }

  lemma TiedKept(members: seq<PeerDistance>, numKeep: int, s: Split, m: PeerDistance) returns (i: nat)
    requires Cut(members, numKeep, s) && CutFate(members, numKeep, m.distance) == Open && m in s.gone
    ensures i < |s.kept| && s.kept[i].distance == m.distance
  {
    hide CountBelow;
    var t := m.distance;
    CutCounts(members, numKeep, s, t);
    CutCounts(members, numKeep, s, t + 1);
    CountBelowBounds(members, t + 1);
    CountBelowBounds(s.kept, t);
    CountBelowBounds(s.gone, t);
    var g :| g in s.kept && g.distance >= t;
    i :| 0 <= i < |s.kept| && s.kept[i] == g;
  }

  // ---------------------------------------------------------------- six lists

  /** The fate of a peer: it depends on its own list only. */
  function FateOf(k: Knowledge, pids: seq<PeerID>, p: PeerID): Fate {
    var c := ClassOf(k, p);
    if c !in LISTS then Stays
    else CutFate(Members(k, c, pids), Keeps(k.connections.quotas, Counts(k, pids)).Of(c), Measured(k, p).distance)
  }

  lemma MemberOfClass(k: Knowledge, pids: seq<PeerID>, p: PeerID)
    requires p in pids
    ensures Measured(k, p) in Members(k, ClassOf(k, p), pids)
  {
    hide Members, ClassOf, Measured;
    MeasuredId(k, p);
    MembersCount(k, ClassOf(k, p), pids, Measured(k, p));
    assert p in multiset(pids);
    assert Measured(k, p) in multiset(Members(k, ClassOf(k, p), pids));
  }

  /** A peer is evicted exactly if it is cut from the list of its class. */
  lemma EvictedIffGone(k: Knowledge, pids: seq<PeerID>, parts: Parts, p: PeerID)
    requires IsCut(k, pids, parts)
    ensures p in Gone(parts) <==> ClassOf(k, p) in LISTS && Measured(k, p) in parts[ClassOf(k, p)].gone
  {
    hide Members, ClassOf, Measured, Keeps, Counts, Cut, Gone, Ids;
    MeasuredId(k, p);
    if p in Gone(parts) {
      var c := EvictedFrom(parts, p);
      var m :| m in parts[c].gone && m.id == p;
      GoneIsMember(k, pids, parts, c, m);
    }
    if ClassOf(k, p) in LISTS && Measured(k, p) in parts[ClassOf(k, p)].gone {
      GoneHas(parts, ClassOf(k, p), Measured(k, p));
    }
  }

  lemma KeptOrGone(k: Knowledge, pids: seq<PeerID>, parts: Parts, p: PeerID)
    requires IsCut(k, pids, parts) && p in pids && ClassOf(k, p) in LISTS
    ensures var s := parts[ClassOf(k, p)]; Measured(k, p) in s.kept || Measured(k, p) in s.gone
  {
    hide Members, ClassOf, Measured, Keeps, Counts;
    MemberOfClass(k, pids, p);
    var s := parts[ClassOf(k, p)];
    assert Measured(k, p) in multiset(s.kept + s.gone);
  }

  /** A settled fate is what every verdict does to a listed peer. */
  lemma FateDecides(k: Knowledge, pids: seq<PeerID>, evicted: seq<PeerID>, p: PeerID)
    requires p in pids && Verdict(k, pids, evicted)
    ensures FateOf(k, pids, p) == Goes ==> p in evicted
    ensures FateOf(k, pids, p) == Stays ==> p !in evicted
  {
    hide Members, ClassOf, Measured, Keeps, Counts, Cut, Gone, CutFate;
    var parts: Parts :| IsCut(k, pids, parts) && evicted == Gone(parts);
    EvictedIffGone(k, pids, parts, p);
    var c := ClassOf(k, p);
    if c in LISTS {
      KeptOrGone(k, pids, parts, p);
      CutFateDecides(Members(k, c, pids), Keeps(k.connections.quotas, Counts(k, pids)).Of(c), parts[c], Measured(k, p));
    }
  }

  /** The fate does not depend on the order of the list. */
  lemma FatePermuted(k: Knowledge, pids: seq<PeerID>, pids': seq<PeerID>, p: PeerID)
    requires multiset(pids) == multiset(pids')
    ensures FateOf(k, pids, p) == FateOf(k, pids', p)
  {
    hide Members, ClassOf, Measured, Keeps, Counts, CountBelow;
    CountsPermuted(k, pids, pids');
    var c, d := ClassOf(k, p), Measured(k, p).distance;
    MembersPermuted(k, c, pids, pids');
    CountBelowPermuted(Members(k, c, pids), Members(k, c, pids'), d);
    CountBelowPermuted(Members(k, c, pids), Members(k, c, pids'), d + 1);
  }

  /** Where the fate is open, another verdict over the same list treats the peer the other way. */
  lemma OpenFateTurns(k: Knowledge, pids: seq<PeerID>, evicted: seq<PeerID>, p: PeerID) returns (other: seq<PeerID>)
    requires NoRepeats(pids) && p in pids && Verdict(k, pids, evicted) && FateOf(k, pids, p) == Open
    ensures Verdict(k, pids, other) && (p in other <==> p !in evicted)
  {
    hide Members, ClassOf, Measured, Keeps, Counts, Cut, Gone, CutFate, NoRepeats;
    var parts: Parts :| IsCut(k, pids, parts) && evicted == Gone(parts);
    var c, m := ClassOf(k, p), Measured(k, p);
    MeasuredId(k, p);
    KeptOrGone(k, pids, parts, p);
    var s' := OpenCutTurns(Members(k, c, pids), Keeps(k.connections.quotas, Counts(k, pids)).Of(c), parts[c], m);
    var parts' := parts[c := s'];
    other := Gone(parts');
    assert IsCut(k, pids, parts');
    EvictedIffGone(k, pids, parts, p);
    EvictedIffGone(k, pids, parts', p);
    if m in parts[c].kept {
      KeptAndGone(k, pids, parts, c, m);
    } else {
      KeptAndGone(k, pids, parts', c, m);
    }
  }

  /** For distinct peers: every verdict, in whatever order the peers are listed and whatever the
      sort does with ties, treats this peer alike if and only if its own fate is settled. */
  lemma TreatedAlikeIff(k: Knowledge, pids: seq<PeerID>, evicted: seq<PeerID>, p: PeerID)
    requires NoRepeats(pids) && p in pids && Verdict(k, pids, evicted)
    ensures (forall pids', evicted' | multiset(pids') == multiset(pids) && Verdict(k, pids', evicted') ::
               p in evicted' <==> p in evicted)
       <==> FateOf(k, pids, p) != Open
  {
    hide Verdict, FateOf, NoRepeats;
    if FateOf(k, pids, p) == Open {
      var other := OpenFateTurns(k, pids, evicted, p);
    } else {
      forall pids', evicted' | multiset(pids') == multiset(pids) && Verdict(k, pids', evicted')
        ensures p in evicted' <==> p in evicted
      {
        assert p in multiset(pids');
        FatePermuted(k, pids, pids', p);
        FateDecides(k, pids, evicted, p);
        FateDecides(k, pids', evicted', p);
      }
    }
  }

  // ---------------------------------------------------------------- one list only

  function OneListFate(selfPeerId: PeerID, hash: PeerID -> Hash, maxPeerCount: int, pids: seq<PeerID>, p: PeerID): Fate {
    CutFate(Convert(selfPeerId, hash, pids), maxPeerCount, MeasuredFrom(selfPeerId, hash, p).distance)
  }

  lemma {:induction false} ConvertCount(selfPeerId: PeerID, hash: PeerID -> Hash, pids: seq<PeerID>, m: PeerDistance)
    ensures multiset(Convert(selfPeerId, hash, pids))[m]
         == if m == MeasuredFrom(selfPeerId, hash, m.id) then multiset(pids)[m.id] else 0
    decreases |pids|
  {
    hide CountDistance;
    var all := Convert(selfPeerId, hash, pids);
    if pids == [] {
      assert all == [];
    } else {
      var n := |pids| - 1;
      ConvertCount(selfPeerId, hash, pids[..n], m);
      assert pids == pids[..n] + [pids[n]];
      assert all == Convert(selfPeerId, hash, pids[..n]) + [MeasuredFrom(selfPeerId, hash, pids[n])];
    }
  }

  lemma ConvertPermuted(selfPeerId: PeerID, hash: PeerID -> Hash, pids: seq<PeerID>, pids': seq<PeerID>)
    requires multiset(pids) == multiset(pids')
    ensures multiset(Convert(selfPeerId, hash, pids)) == multiset(Convert(selfPeerId, hash, pids'))
  {
    hide Convert, MeasuredFrom;
    var a, b := multiset(Convert(selfPeerId, hash, pids)), multiset(Convert(selfPeerId, hash, pids'));
    forall m ensures a[m] == b[m] {
      ConvertCount(selfPeerId, hash, pids, m);
      ConvertCount(selfPeerId, hash, pids', m);
    }
  }

  /** In a cut of distinct peers, a listed peer is on exactly one side, and evicted exactly if it
      is on the far one. */
  lemma OneListSides(selfPeerId: PeerID, hash: PeerID -> Hash, pids: seq<PeerID>, numKeep: int, s: Split, p: PeerID)
    requires NoRepeats(pids) && p in pids && Cut(Convert(selfPeerId, hash, pids), numKeep, s)
    ensures var m := MeasuredFrom(selfPeerId, hash, p); (m in s.gone <==> m !in s.kept) && (p in Ids(s.gone) <==> m in s.gone)
  {
    hide Convert, CountDistance, NoRepeats;
    var m := MeasuredFrom(selfPeerId, hash, p);
    var all := multiset(Convert(selfPeerId, hash, pids));
    assert all == multiset(s.kept) + multiset(s.gone);
    ConvertCount(selfPeerId, hash, pids, m);
    OccursOnce(pids, p);
    assert p in multiset(pids);
    assert all[m] == multiset(s.kept)[m] + multiset(s.gone)[m] == 1;
    if p in Ids(s.gone) {
      var i :| 0 <= i < |s.gone| && Ids(s.gone)[i] == p;
      ConvertCount(selfPeerId, hash, pids, s.gone[i]);
      assert s.gone[i] in all;
    }
    if m in s.gone {
      var i :| 0 <= i < |s.gone| && s.gone[i] == m;
      assert Ids(s.gone)[i] == p;
    }
  }

  lemma OneListDecides(selfPeerId: PeerID, hash: PeerID -> Hash, maxPeerCount: int, pids: seq<PeerID>, evicted: seq<PeerID>, p: PeerID)
    requires NoRepeats(pids) && p in pids && OneListVerdict(selfPeerId, hash, maxPeerCount, pids, evicted)
    ensures OneListFate(selfPeerId, hash, maxPeerCount, pids, p) == Goes ==> p in evicted
    ensures OneListFate(selfPeerId, hash, maxPeerCount, pids, p) == Stays ==> p !in evicted
  {
    hide Convert, MeasuredFrom, Cut, Ids, NoRepeats, CutFate;
    var s: Split :| Cut(Convert(selfPeerId, hash, pids), maxPeerCount, s) && evicted == Ids(s.gone);
    OneListSides(selfPeerId, hash, pids, maxPeerCount, s, p);
    CutFateDecides(Convert(selfPeerId, hash, pids), maxPeerCount, s, MeasuredFrom(selfPeerId, hash, p));
  }

  lemma OneListTurns(selfPeerId: PeerID, hash: PeerID -> Hash, maxPeerCount: int, pids: seq<PeerID>, evicted: seq<PeerID>, p: PeerID)
    returns (other: seq<PeerID>)
    requires NoRepeats(pids) && p in pids && OneListVerdict(selfPeerId, hash, maxPeerCount, pids, evicted)
    requires OneListFate(selfPeerId, hash, maxPeerCount, pids, p) == Open
    ensures OneListVerdict(selfPeerId, hash, maxPeerCount, pids, other) && (p in other <==> p !in evicted)
  {
    hide Convert, MeasuredFrom, Cut, Ids, NoRepeats, CutFate;
    var s: Split :| Cut(Convert(selfPeerId, hash, pids), maxPeerCount, s) && evicted == Ids(s.gone);
    OneListSides(selfPeerId, hash, pids, maxPeerCount, s, p);
    var s' := OpenCutTurns(Convert(selfPeerId, hash, pids), maxPeerCount, s, MeasuredFrom(selfPeerId, hash, p));
    OneListSides(selfPeerId, hash, pids, maxPeerCount, s', p);
    other := Ids(s'.gone);
  }

  /** The same for the sharder that knows one list only. */
  lemma OneListTreatedAlikeIff(selfPeerId: PeerID, hash: PeerID -> Hash, maxPeerCount: int, pids: seq<PeerID>, evicted: seq<PeerID>, p: PeerID)
    requires NoRepeats(pids) && p in pids && OneListVerdict(selfPeerId, hash, maxPeerCount, pids, evicted)
    ensures (forall pids', evicted' | NoRepeats(pids') && multiset(pids') == multiset(pids)
                                    && OneListVerdict(selfPeerId, hash, maxPeerCount, pids', evicted') ::
               p in evicted' <==> p in evicted)
       <==> OneListFate(selfPeerId, hash, maxPeerCount, pids, p) != Open
  {
    hide OneListVerdict, NoRepeats, Convert, MeasuredFrom, CountBelow;
    if OneListFate(selfPeerId, hash, maxPeerCount, pids, p) == Open {
      var other := OneListTurns(selfPeerId, hash, maxPeerCount, pids, evicted, p);
    } else {
      forall pids', evicted' | NoRepeats(pids') && multiset(pids') == multiset(pids)
                             && OneListVerdict(selfPeerId, hash, maxPeerCount, pids', evicted')
        ensures p in evicted' <==> p in evicted
      {
        assert p in multiset(pids');
        var d := MeasuredFrom(selfPeerId, hash, p).distance;
        ConvertPermuted(selfPeerId, hash, pids, pids');
        CountBelowPermuted(Convert(selfPeerId, hash, pids), Convert(selfPeerId, hash, pids'), d);
        CountBelowPermuted(Convert(selfPeerId, hash, pids), Convert(selfPeerId, hash, pids'), d + 1);
        OneListDecides(selfPeerId, hash, maxPeerCount, pids, evicted, p);
        OneListDecides(selfPeerId, hash, maxPeerCount, pids', evicted', p);
      }
    }
  }
}
