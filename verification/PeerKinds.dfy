/** Who is evicted, in terms of what is known of a peer: its address, its type, its shard, its
    distance, and whether it is preferred. */
module PeerKinds {
  import opened Basics
  import opened Distance
  import opened Sorting
  import opened Eviction
  import opened EvictionLaws
  import opened PeerVerdicts

  predicate OnSeederAddress(k: Knowledge, p: PeerID) {
    exists address :: address in k.seeders && Contains(address, k.pretty(p))
  }

  predicate Plain(k: Knowledge, p: PeerID) {
    !OnSeederAddress(k, p) && !k.preferred(p)
  }

  predicate OwnShard(k: Knowledge, p: PeerID) {
    k.info(p).shardID == k.info(k.selfPeerId).shardID
  }

  /** The kinds of peers: seeders, preferred or not, and by type and shard those that are neither
      seeders nor preferred. The shard of a peer of unknown type does not matter. */
  predicate OfKind(k: Knowledge, c: Class, p: PeerID) {
    match c
    case Seeders => OnSeederAddress(k, p)
    case Unknown => Plain(k, p) && k.info(p).peerType == UnknownPeer
    case IntraValidators => Plain(k, p) && k.info(p).peerType == ValidatorPeer && OwnShard(k, p)
    case CrossValidators => Plain(k, p) && k.info(p).peerType == ValidatorPeer && !OwnShard(k, p)
    case IntraObservers => Plain(k, p) && k.info(p).peerType == ObserverPeer && OwnShard(k, p)
    case CrossObservers => Plain(k, p) && k.info(p).peerType == ObserverPeer && !OwnShard(k, p)
    case Uncounted => !OnSeederAddress(k, p) && (k.preferred(p) || k.info(p).peerType == OtherPeer)
  }

  /** Every peer is of exactly one kind, and is put on the list of that kind. */
  lemma ListOfKind(k: Knowledge, c: Class, p: PeerID)
    ensures ClassOf(k, p) == c <==> OfKind(k, c, p)
  {
    if i :| 0 <= i < |k.seeders| && Contains(k.seeders[i], k.pretty(p)) {
      assert k.seeders[i] in k.seeders;
    }
  }

  function HowMany(k: Knowledge, c: Class, pids: seq<PeerID>): nat {
    if pids == [] then 0
    else HowMany(k, c, pids[..|pids| - 1]) + if OfKind(k, c, pids[|pids| - 1]) then 1 else 0
  }

  lemma {:induction false} HowManyMembers(k: Knowledge, c: Class, pids: seq<PeerID>)
    ensures HowMany(k, c, pids) == |Members(k, c, pids)|
    decreases |pids|
  {
    hide ClassOf, OfKind;
    if pids != [] {
      HowManyMembers(k, c, pids[..|pids| - 1]);
      ListOfKind(k, c, pids[|pids| - 1]);
    }
  }

  lemma HowManyCounts(k: Knowledge, pids: seq<PeerID>)
    ensures Counts(k, pids)
         == PerList(HowMany(k, IntraValidators, pids), HowMany(k, CrossValidators, pids), HowMany(k, IntraObservers, pids),
                    HowMany(k, CrossObservers, pids), HowMany(k, Seeders, pids), HowMany(k, Unknown, pids))
  {
    hide Members, HowMany;
    forall c ensures HowMany(k, c, pids) == |Members(k, c, pids)| { HowManyMembers(k, c, pids); }
  }

  function Min(a: int, b: int): int { if a < b then a else b }

  /** How many peers of every kind stay when `n` of it are listed: along the chain, as many as fit
      into the quotas so far, less those who already stay; seeders within their own quota only. */
  function Stay(q: PerList, n: PerList): PerList {
    var iv := Min(n.iv, q.iv);
    var cv := Min(n.cv, q.iv + q.cv - iv);
    var io := Min(n.io, q.iv + q.cv + q.io - iv - cv);
    var co := Min(n.co, q.iv + q.cv + q.io + q.co - iv - cv - io);
    var un := Min(n.un, q.iv + q.cv + q.io + q.co + q.un - iv - cv - io - co);
    PerList(iv, cv, io, co, Min(n.sd, q.sd), un)
  }

  lemma KeepsAreStay(q: PerList, n: PerList)
    ensures Keeps(q, n) == Stay(q, n)
  {
  }

  /** The evicted peers of every kind are those beyond the number that stays, and nobody outside
      the six kinds is evicted. */
  lemma EvictedOfKind(k: Knowledge, pids: seq<PeerID>, evicted: seq<PeerID>)
    requires QuotasFit(k.connections) && Verdict(k, pids, evicted)
    ensures var n := PerList(HowMany(k, IntraValidators, pids), HowMany(k, CrossValidators, pids), HowMany(k, IntraObservers, pids),
                             HowMany(k, CrossObservers, pids), HowMany(k, Seeders, pids), HowMany(k, Unknown, pids));
            var stay := Stay(k.connections.quotas, n);
            && HowMany(k, IntraValidators, evicted) == n.iv - stay.iv
            && HowMany(k, CrossValidators, evicted) == n.cv - stay.cv
            && HowMany(k, IntraObservers, evicted) == n.io - stay.io
            && HowMany(k, CrossObservers, evicted) == n.co - stay.co
            && HowMany(k, Seeders, evicted) == n.sd - stay.sd
            && HowMany(k, Unknown, evicted) == n.un - stay.un
    ensures forall p | p in evicted :: p in pids && !OfKind(k, Uncounted, p)
  {
    hide Members, Counts, Keeps, Stay, HowMany, OfKind, Cut, Gone, ClassOf;
    var parts: Parts :| IsCut(k, pids, parts) && evicted == Gone(parts);
    HowManyCounts(k, pids);
    KeepsAreStay(k.connections.quotas, Counts(k, pids));
    forall c | c in LISTS
      ensures HowMany(k, c, evicted) == HowMany(k, c, pids) - Keeps(k.connections.quotas, Counts(k, pids)).Of(c)
    {
      HowManyMembers(k, c, evicted);
      HowManyMembers(k, c, pids);
      GoneMembers(k, pids, parts, c);
      KeptIsKeeps(k, pids, parts, c);
    }
    assert IntraValidators in LISTS && CrossValidators in LISTS && IntraObservers in LISTS;
    assert CrossObservers in LISTS && Seeders in LISTS && Unknown in LISTS;
    forall p | p in evicted ensures p in pids && !OfKind(k, Uncounted, p) {
      EvictedListed(k, pids, parts, p);
      EvictedIffGone(k, pids, parts, p);
      ListOfKind(k, Uncounted, p);
    }
  }

  lemma EvictedListed(k: Knowledge, pids: seq<PeerID>, parts: Parts, p: PeerID)
    requires IsCut(k, pids, parts) && p in Gone(parts)
    ensures p in pids
  {
    hide Members, Keeps, Counts, Gone, ClassOf, Ids;
    var c := EvictedFrom(parts, p);
    var m :| m in parts[c].gone && m.id == p;
    assert m in multiset(parts[c].kept + parts[c].gone);
    assert m in multiset(Members(k, c, pids));
    MembersHaveClass(k, c, pids, m);
  }

  /** The quota of a kind by itself, without the spare slots of others. */
  function QuotaOf(q: PerList, c: Class): int
    requires c in LISTS
  {
    match c
    case IntraValidators => q.iv
    case CrossValidators => q.cv
    case IntraObservers => q.io
    case CrossObservers => q.co
    case Seeders => q.sd
    case Unknown => q.un
  }

  lemma {:induction false} SomeOfKind(k: Knowledge, c: Class, pids: seq<PeerID>, p: PeerID)
    requires p in pids && OfKind(k, c, p)
    ensures HowMany(k, c, pids) >= 1
    decreases |pids|
  {
    hide OfKind;
    var n := |pids| - 1;
    if pids[n] != p {
      assert pids == pids[..n] + [pids[n]];
      SomeOfKind(k, c, pids[..n], p);
    }
  }

  /** While no more peers of a kind are listed than its own quota, none of them is evicted,
      whatever the other kinds take. */
  lemma NobodyGoesWithinQuota(k: Knowledge, pids: seq<PeerID>, evicted: seq<PeerID>, c: Class, p: PeerID)
    requires QuotasFit(k.connections) && Verdict(k, pids, evicted) && c in LISTS
    requires OfKind(k, c, p) && HowMany(k, c, pids) <= QuotaOf(k.connections.quotas, c)
    ensures p !in evicted
  {
    hide Verdict, HowMany, OfKind, Stay;
    EvictedOfKind(k, pids, evicted);
    var n := PerList(HowMany(k, IntraValidators, pids), HowMany(k, CrossValidators, pids), HowMany(k, IntraObservers, pids),
                     HowMany(k, CrossObservers, pids), HowMany(k, Seeders, pids), HowMany(k, Unknown, pids));
    var q := k.connections.quotas;
    assert q.iv >= 0 && q.cv >= 0 && q.io >= 0 && q.co >= 0 && q.sd >= 0 && q.un >= 0 by { NonNegative(q); }
    StayAll(q, n);
    if p in evicted { SomeOfKind(k, c, evicted, p); }
  }

  /** Every kind keeps at least its own quota of slots. */
  lemma StayAll(q: PerList, n: PerList)
    requires q.iv >= 0 && q.cv >= 0 && q.io >= 0 && q.co >= 0 && q.sd >= 0 && q.un >= 0
    requires n.iv >= 0 && n.cv >= 0 && n.io >= 0 && n.co >= 0 && n.sd >= 0 && n.un >= 0
    ensures var stay := Stay(q, n);
            && (n.iv <= q.iv ==> stay.iv == n.iv) && (n.cv <= q.cv ==> stay.cv == n.cv) && (n.io <= q.io ==> stay.io == n.io)
            && (n.co <= q.co ==> stay.co == n.co) && (n.sd <= q.sd ==> stay.sd == n.sd) && (n.un <= q.un ==> stay.un == n.un)
  {
  }

  /** Seeders are cut only when more than their quota are listed, and then to exactly the quota. */
  lemma SeedersCut(k: Knowledge, pids: seq<PeerID>, evicted: seq<PeerID>)
    requires QuotasFit(k.connections) && Verdict(k, pids, evicted)
    ensures HowMany(k, Seeders, pids) <= k.connections.quotas.sd ==> HowMany(k, Seeders, evicted) == 0
    ensures HowMany(k, Seeders, pids) > k.connections.quotas.sd ==>
              HowMany(k, Seeders, evicted) == HowMany(k, Seeders, pids) - k.connections.quotas.sd
  {
    hide Verdict, HowMany;
    EvictedOfKind(k, pids, evicted);
  }

  /** Of one kind, nobody who stays has more differing bits to the own identity than anybody who goes. */
  lemma FarthestGo(k: Knowledge, pids: seq<PeerID>, evicted: seq<PeerID>, c: Class, p: PeerID, q: PeerID)
    requires Verdict(k, pids, evicted) && c in LISTS && OfKind(k, c, p) && OfKind(k, c, q)
    requires p in evicted && q in pids && q !in evicted
    ensures CountDistance(k.hash(q), k.hash(k.selfPeerId)) <= CountDistance(k.hash(p), k.hash(k.selfPeerId))
  {
    hide Members, Keeps, Counts, Gone, ClassOf, OfKind, CountDistance, Ids;
    var parts: Parts :| IsCut(k, pids, parts) && evicted == Gone(parts);
    ListOfKind(k, c, p);
    ListOfKind(k, c, q);
    EvictedIffGone(k, pids, parts, p);
    EvictedIffGone(k, pids, parts, q);
    KeptOrGone(k, pids, parts, q);
  }
}
