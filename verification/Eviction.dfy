/** Which peers to disconnect: p2p/libp2p/networksharding/listsSharder.go and oneListSharder.go. */
module Eviction {
  import opened Basics
  import opened Bits
  import opened Distance
  import opened Sorting

  datatype PeerType = UnknownPeer | ValidatorPeer | ObserverPeer | OtherPeer

  datatype PeerInfo = PeerInfo(peerType: PeerType, shardID: uint32)

  /** The six lists of the source, and the peers that are on none of them. */
  datatype Class = IntraValidators | CrossValidators | IntraObservers | CrossObservers | Seeders | Unknown | Uncounted

  const LISTS: set<Class> := {IntraValidators, CrossValidators, IntraObservers, CrossObservers, Seeders, Unknown}

  /** A number for each of the six lists. */
  datatype PerList = PerList(iv: int, cv: int, io: int, co: int, sd: int, un: int) {
    function Of(c: Class): int
      requires c in LISTS
    {
      match c
      case IntraValidators => iv
      case CrossValidators => cv
      case IntraObservers => io
      case CrossObservers => co
      case Seeders => sd
      case Unknown => un
    }

    /** The sum over the first `k` links of the chain that passes spare slots on: intra
        validators, cross validators, intra observers, cross observers, unknown. */
    function Upto(k: nat): int
      requires k <= 5
    {
      (if k > 0 then iv else 0) + (if k > 1 then cv else 0) + (if k > 2 then io else 0)
      + (if k > 3 then co else 0) + (if k > 4 then un else 0)
    }

    function Total(): int { Upto(5) + sd }
  }

  const CHAIN: seq<Class> := [IntraValidators, CrossValidators, IntraObservers, CrossObservers, Unknown]

  // ---------------------------------------------------------------- configuration

  /** The limits of the configuration; all are unsigned 32-bit numbers. */
  datatype Config = Config(
    targetPeerCount: uint32, maxIntraShardValidators: uint32, maxCrossShardValidators: uint32,
    maxIntraShardObservers: uint32, maxCrossShardObservers: uint32, maxSeeders: uint32)

  datatype Connections = Connections(maxPeerCount: nat, quotas: PerList)

  /** The checks of NewListsSharder, then processNumConnections: what the five quotas leave of
      the peer count is for unknown peers, and at least one slot must be left. */
  function ProcessNumConnections(c: Config): (r: Option<Connections>)
    ensures r.Some? ==> QuotasFit(r.value)
    ensures r.Some? ==> r.value.maxPeerCount == c.targetPeerCount && r.value.quotas.un >= 1
    ensures r.Some? ==> r.value.quotas.iv == c.maxIntraShardValidators && r.value.quotas.cv == c.maxCrossShardValidators
                        && r.value.quotas.io == c.maxIntraShardObservers && r.value.quotas.co == c.maxCrossShardObservers
                        && r.value.quotas.sd == c.maxSeeders
    ensures r.None? <==>
            || c.targetPeerCount < 5
            || c.maxIntraShardValidators < 1 || c.maxCrossShardValidators < 1
            || c.maxIntraShardObservers < 1 || c.maxCrossShardObservers < 1
            || c.maxIntraShardValidators + c.maxCrossShardValidators + c.maxIntraShardObservers
               + c.maxCrossShardObservers + c.maxSeeders >= c.targetPeerCount
  {
    if c.targetPeerCount < 5 then None
    else if c.maxIntraShardValidators < 1 || c.maxCrossShardValidators < 1 then None
    else if c.maxIntraShardObservers < 1 || c.maxCrossShardObservers < 1 then None
    else
      var provided := c.maxIntraShardValidators + c.maxCrossShardValidators
                    + c.maxIntraShardObservers + c.maxCrossShardObservers + c.maxSeeders;
      if provided + 1 > c.targetPeerCount then None
      else Some(Connections(c.targetPeerCount,
                            PerList(c.maxIntraShardValidators, c.maxCrossShardValidators,
                                    c.maxIntraShardObservers, c.maxCrossShardObservers,
                                    c.maxSeeders, c.targetPeerCount - provided)))
  }

  /** No quota is negative, and together they are the peer count. */
  predicate QuotasFit(c: Connections) {
    && (forall l | l in LISTS :: c.quotas.Of(l) >= 0)
    && c.quotas.Total() == c.maxPeerCount
  }

  // ---------------------------------------------------------------- classification

  /** What a sharder knows: its limits, its own identity, its seeders, and the answers it gets
      from the shard resolver, the preferred peers holder and the hash of a peer ID. */
  datatype Knowledge = Knowledge(
    connections: Connections,
    selfPeerId: PeerID,
    seeders: seq<string>,
    info: PeerID -> PeerInfo,
    preferred: PeerID -> bool,
    pretty: PeerID -> string,
    hash: PeerID -> Hash)

  /** kbucket.ConvertPeerID gives hashes of one length, and the limits passed the checks. */
  ghost predicate Sound(k: Knowledge) {
    && QuotasFit(k.connections)
    && forall p :: |k.hash(p)| == 32
  }

  predicate IsSeeder(k: Knowledge, p: PeerID) {
    exists i :: 0 <= i < |k.seeders| && Contains(k.seeders[i], k.pretty(p))
  }

  function ClassOf(k: Knowledge, p: PeerID): Class {
    var info := k.info(p);
    if IsSeeder(k, p) then Seeders
    else if k.preferred(p) then Uncounted
    else if info.peerType == UnknownPeer then Unknown
    else if info.shardID != k.info(k.selfPeerId).shardID then
      match info.peerType
      case ValidatorPeer => CrossValidators
      case ObserverPeer => CrossObservers
      case _ => Uncounted
    else
      match info.peerType
      case ValidatorPeer => IntraValidators
      case ObserverPeer => IntraObservers
      case _ => Uncounted
  }

  function Measured(k: Knowledge, p: PeerID): PeerDistance {
    MeasuredFrom(k.selfPeerId, k.hash, p)
  }

  function MeasuredFrom(selfPeerId: PeerID, hash: PeerID -> Hash, p: PeerID): PeerDistance {
    PeerDistance(p, CountDistance(hash(p), hash(selfPeerId)))
  }

  /** The peers of one class, in list order. */
  function Members(k: Knowledge, c: Class, pids: seq<PeerID>): seq<PeerDistance> {
    if pids == [] then []
    else
      var n := |pids| - 1;
      Members(k, c, pids[..n]) + if ClassOf(k, pids[n]) == c then [Measured(k, pids[n])] else []
  }

  type PeerLists = map<Class, seq<PeerDistance>>

  /** Every list holds the peers of its class, in list order. */
  predicate IsSplit(k: Knowledge, pids: seq<PeerID>, lists: PeerLists) {
    lists.Keys == LISTS && forall c | c in LISTS :: lists[c] == Members(k, c, pids)
  }

  /** One more peer, at the end of the list of its class. */
  function WithPeer(k: Knowledge, lists: PeerLists, p: PeerID): PeerLists
    requires lists.Keys == LISTS
  {
    var c := ClassOf(k, p);
    if c in LISTS then lists[c := lists[c] + [Measured(k, p)]] else lists
  }

  lemma EmptySplit(k: Knowledge)
    ensures IsSplit(k, [], map c | c in LISTS :: [])
  {
  }

  lemma SplitNext(k: Knowledge, pids: seq<PeerID>, i: nat, lists: PeerLists)
    requires i < |pids| && lists.Keys == LISTS && IsSplit(k, pids[..i], lists)
    ensures WithPeer(k, lists, pids[i]).Keys == LISTS && IsSplit(k, pids[..i + 1], WithPeer(k, lists, pids[i]))
  {
    hide ClassOf, Measured;
    assert pids[..i + 1][..i] == pids[..i];
  }

  function Counts(k: Knowledge, pids: seq<PeerID>): PerList {
    PerList(|Members(k, IntraValidators, pids)|, |Members(k, CrossValidators, pids)|,
            |Members(k, IntraObservers, pids)|, |Members(k, CrossObservers, pids)|,
            |Members(k, Seeders, pids)|, |Members(k, Unknown, pids)|)
  }

  // ---------------------------------------------------------------- quotas

  function ComputeUsedAndSpare(existing: int, maximum: int): (r: (int, int))
    ensures 0 <= existing && 0 <= maximum ==> 0 <= r.0 <= existing && 0 <= r.1 && r.0 + r.1 == maximum
    ensures r.0 < existing ==> r.1 == 0 && r.0 == maximum
  {
    if existing < maximum then (existing, maximum - existing) else (maximum, 0)
  }

  /** How many peers of each list are kept, when `n` exist: spare slots move down the chain,
      but neither to nor from the seeders. */
  function Keeps(q: PerList, n: PerList): PerList {
    var (iv, r1) := ComputeUsedAndSpare(n.iv, q.iv);
    var (cv, r2) := ComputeUsedAndSpare(n.cv, q.cv + r1);
    var (io, r3) := ComputeUsedAndSpare(n.io, q.io + r2);
    var (co, r4) := ComputeUsedAndSpare(n.co, q.co + r3);
    var (sd, _) := ComputeUsedAndSpare(n.sd, q.sd);
    var (un, _) := ComputeUsedAndSpare(n.un, q.un + r4);
    PerList(iv, cv, io, co, sd, un)
  }

  // ---------------------------------------------------------------- verdicts

  datatype Split = Split(kept: seq<PeerDistance>, gone: seq<PeerDistance>)

  function Clamp(numKeep: int, n: nat): nat {
    if numKeep < 0 then 0 else if numKeep > n then n else numKeep
  }

  /** A list is cut after its `numKeep` nearest peers. Where the cut falls between peers at
      equal distance, any of them may stay. */
  predicate Cut(members: seq<PeerDistance>, numKeep: int, s: Split) {
    && multiset(s.kept + s.gone) == multiset(members)
    && |s.kept| == Clamp(numKeep, |members|)
    && forall a, b | a in s.kept && b in s.gone :: a.distance <= b.distance
  }

  function Ids(s: seq<PeerDistance>): (r: seq<PeerID>)
    ensures |r| == |s|
  {
    seq(|s|, i requires 0 <= i < |s| => s[i].id)
  }

  type Parts = map<Class, Split>

  predicate IsCut(k: Knowledge, pids: seq<PeerID>, parts: Parts) {
    parts.Keys == LISTS
    && forall c | c in LISTS ::
         Cut(Members(k, c, pids), Keeps(k.connections.quotas, Counts(k, pids)).Of(c), parts[c])
  }

  function Gone(parts: Parts): seq<PeerID>
    requires parts.Keys == LISTS
  {
    Ids(parts[IntraValidators].gone) + Ids(parts[CrossValidators].gone)
    + Ids(parts[IntraObservers].gone) + Ids(parts[CrossObservers].gone)
    + Ids(parts[Seeders].gone) + Ids(parts[Unknown].gone)
  }

  function Kept(parts: Parts): seq<PeerID>
    requires parts.Keys == LISTS
  {
    Ids(parts[IntraValidators].kept) + Ids(parts[CrossValidators].kept)
    + Ids(parts[IntraObservers].kept) + Ids(parts[CrossObservers].kept)
    + Ids(parts[Seeders].kept) + Ids(parts[Unknown].kept)
  }

  /** `evicted` is an eviction list for `pids`. */
  ghost predicate Verdict(k: Knowledge, pids: seq<PeerID>, evicted: seq<PeerID>) {
    exists parts: Parts :: IsCut(k, pids, parts) && evicted == Gone(parts)
  }

  // ---------------------------------------------------------------- the code

  /** Sorts in place and returns the IDs behind the first `numKeep` peers. */
  method Evict(distances: array<PeerDistance>, numKeep: int) returns (evicted: seq<PeerID>)
    modifies distances
    ensures Permuted(distances[..], old(distances[..]))
    ensures Clamp(numKeep, distances.Length) < distances.Length ==> Sorted(distances[..])
    ensures evicted == Ids(distances[Clamp(numKeep, distances.Length)..])
    ensures Cut(old(distances[..]), numKeep,
                Split(distances[..Clamp(numKeep, distances.Length)], distances[Clamp(numKeep, distances.Length)..]))
  {
    hide Cut, Sorted;
    var keep := if numKeep < 0 then 0 else numKeep;
    if keep >= distances.Length {
      WholeIsCut(distances[..], numKeep);
      return [];
    }
    Sort(distances);
    SortedIsCut(old(distances[..]), distances[..], numKeep);
    var evictedPD := distances[keep..];
    evicted := [];
    for i := 0 to |evictedPD|
      invariant evicted == Ids(evictedPD[..i])
    {
      evicted := evicted + [evictedPD[i].id];
    }
    assert evictedPD[..|evictedPD|] == evictedPD;
  }

  lemma WholeIsCut(s: seq<PeerDistance>, numKeep: int)
    requires Clamp(numKeep, |s|) == |s|
    ensures Cut(s, numKeep, Split(s[..|s|], s[|s|..]))
  {
    assert s[..|s|] + s[|s|..] == s;
  }

  lemma SortedIsCut(members: seq<PeerDistance>, s: seq<PeerDistance>, numKeep: int)
    requires Sorted(s) && Permuted(s, members)
    ensures |s| == |members|
    ensures Cut(members, numKeep, Split(s[..Clamp(numKeep, |s|)], s[Clamp(numKeep, |s|)..]))
  {
    assert |multiset(s)| == |multiset(members)|;
    assert s[..Clamp(numKeep, |s|)] + s[Clamp(numKeep, |s|)..] == s;
    SortedCut(s, Clamp(numKeep, |s|));
  }

  lemma SortedCut(s: seq<PeerDistance>, keep: nat)
    requires Sorted(s) && keep <= |s|
    ensures forall a, b | a in s[..keep] && b in s[keep..] :: a.distance <= b.distance
  {
    forall a, b | a in s[..keep] && b in s[keep..] ensures a.distance <= b.distance {
      var i :| 0 <= i < keep && s[..keep][i] == a;
      var j :| 0 <= j < |s| - keep && s[keep..][j] == b;
      assert !Less(s[keep + j], s[i]);
    }
  }

  class ListsSharder {
    const connections: Connections
    const selfPeerId: PeerID
    const preferred: PeerID -> bool
    const pretty: PeerID -> string
    const hash: PeerID -> Hash
    var seeders: seq<string>
    var peerShardResolver: PeerID -> PeerInfo

    function View(): Knowledge
      reads this
    {
      Knowledge(connections, selfPeerId, seeders, peerShardResolver, preferred, pretty, hash)
    }

    constructor (config: Config, selfPeerId: PeerID, resolver: PeerID -> PeerInfo,
                 preferred: PeerID -> bool, pretty: PeerID -> string, hash: PeerID -> Hash)
      requires ProcessNumConnections(config).Some?
      ensures View() == Knowledge(ProcessNumConnections(config).value, selfPeerId, [], resolver, preferred, pretty, hash)
    {
      this.connections, this.selfPeerId, this.preferred := ProcessNumConnections(config).value, selfPeerId, preferred;
      this.pretty, this.hash := pretty, hash;
      this.seeders, this.peerShardResolver := [], resolver;
    }

    method SetSeeders(addresses: seq<string>)
      modifies this
      ensures View() == old(View()).(seeders := addresses)
    {
      seeders := addresses;
    }

    /** A nil resolver is refused. */
    method SetPeerShardResolver(resolver: Option<PeerID -> PeerInfo>) returns (ok: bool)
      modifies this
      ensures ok <==> resolver.Some?
      ensures View() == if ok then old(View()).(info := resolver.value) else old(View())
    {
      if resolver.None? {
        return false;
      }
      peerShardResolver := resolver.value;
      return true;
    }

    /** Appends every peer to the list of its class. */
    method SplitPeerIds(peers: seq<PeerID>) returns (peerDistances: PeerLists)
      requires Sound(View())
      ensures IsSplit(View(), peers, peerDistances)
    {
      hide IsSplit, Sound;
      peerDistances := map c | c in LISTS :: [];
      EmptySplit(View());
      var selfPeerInfo := peerShardResolver(selfPeerId);
      for i := 0 to |peers|
        invariant peerDistances.Keys == LISTS && IsSplit(View(), peers[..i], peerDistances)
      {
        SplitNext(View(), peers, i, peerDistances);
        peerDistances := SplitPeer(peerDistances, selfPeerInfo, peers[i]);
      }
      assert peers[..|peers|] == peers;
    }

    /** One round of the loop. */
    method SplitPeer(lists: PeerLists, selfPeerInfo: PeerInfo, p: PeerID) returns (peerDistances: PeerLists)
      requires Sound(View()) && lists.Keys == LISTS && selfPeerInfo == peerShardResolver(selfPeerId)
      ensures peerDistances == WithPeer(View(), lists, p)
    {
      hide IsSeeder, CountDistance;
      peerDistances := lists;
      var d := ComputeDistanceByCountingBits(hash(p), hash(selfPeerId));
      var pd := PeerDistance(p, d);
      if IsSeeder(View(), p) {
        peerDistances := peerDistances[Seeders := peerDistances[Seeders] + [pd]];
        return;
      }
      var peerInfo := peerShardResolver(p);
      if preferred(p) {
        return;
      }
      if peerInfo.peerType == UnknownPeer {
        peerDistances := peerDistances[Unknown := peerDistances[Unknown] + [pd]];
        return;
      }
      var isCrossShard := peerInfo.shardID != selfPeerInfo.shardID;
      if isCrossShard {
        match peerInfo.peerType {
          case ValidatorPeer => peerDistances := peerDistances[CrossValidators := peerDistances[CrossValidators] + [pd]];
          case ObserverPeer => peerDistances := peerDistances[CrossObservers := peerDistances[CrossObservers] + [pd]];
          case _ =>
        }
        return;
      }
      match peerInfo.peerType {
        case ValidatorPeer => peerDistances := peerDistances[IntraValidators := peerDistances[IntraValidators] + [pd]];
        case ObserverPeer => peerDistances := peerDistances[IntraObservers := peerDistances[IntraObservers] + [pd]];
        case _ =>
      }
    }

    method ComputeEvictionList(pidList: seq<PeerID>) returns (evicted: seq<PeerID>)
      requires Sound(View())
      ensures Verdict(View(), pidList, evicted)
    {
      hide Cut, Members, Keeps, Ids;
      var peerDistances := SplitPeerIds(pidList);
      var keeps := Keeps(connections.quotas,
                         PerList(|peerDistances[IntraValidators]|, |peerDistances[CrossValidators]|,
                                 |peerDistances[IntraObservers]|, |peerDistances[CrossObservers]|,
                                 |peerDistances[Seeders]|, |peerDistances[Unknown]|));
      var e;
      ghost var iv, cv, io, co, sd, un;
      e, iv := EvictList(peerDistances[IntraValidators], keeps.iv);
      evicted := e;
      e, cv := EvictList(peerDistances[CrossValidators], keeps.cv);
      evicted := evicted + e;
      e, io := EvictList(peerDistances[IntraObservers], keeps.io);
      evicted := evicted + e;
      e, co := EvictList(peerDistances[CrossObservers], keeps.co);
      evicted := evicted + e;
      e, sd := EvictList(peerDistances[Seeders], keeps.sd);
      evicted := evicted + e;
      e, un := EvictList(peerDistances[Unknown], keeps.un);
      evicted := evicted + e;
      ghost var parts: Parts := map[IntraValidators := iv, CrossValidators := cv, IntraObservers := io,
                                    CrossObservers := co, Seeders := sd, Unknown := un];
      assert IsCut(View(), pidList, parts);
    }
  }

  /** Eviction from one list of the map. */
  method EvictList(list: seq<PeerDistance>, numKeep: int) returns (evicted: seq<PeerID>, ghost split: Split)
    ensures Cut(list, numKeep, split) && evicted == Ids(split.gone)
  {
    var distances := new PeerDistance[|list|](i requires 0 <= i < |list| => list[i]);
    assert distances[..] == list;
    evicted := Evict(distances, numKeep);
    split := Split(distances[..Clamp(numKeep, distances.Length)], distances[Clamp(numKeep, distances.Length)..]);
  }

  /** Distances of all peers to the own identity, in list order. */
  function Convert(selfPeerId: PeerID, hash: PeerID -> Hash, peers: seq<PeerID>): (r: seq<PeerDistance>)
    ensures |r| == |peers|
  {
    seq(|peers|, i requires 0 <= i < |peers| => MeasuredFrom(selfPeerId, hash, peers[i]))
  }

  /** `evicted` is an eviction list for `pids` where all peers are on one list. */
  ghost predicate OneListVerdict(selfPeerId: PeerID, hash: PeerID -> Hash, maxPeerCount: int, pids: seq<PeerID>, evicted: seq<PeerID>) {
    exists s: Split :: Cut(Convert(selfPeerId, hash, pids), maxPeerCount, s) && evicted == Ids(s.gone)
  }

  /** The sharder that knows one list only: the nearest `maxPeerCount` peers stay. */
  class OneListSharder {
    const selfPeerId: PeerID
    const maxPeerCount: int
    const hash: PeerID -> Hash

    constructor (selfPeerId: PeerID, maxPeerCount: int, hash: PeerID -> Hash)
      requires maxPeerCount >= 3
      ensures this.selfPeerId == selfPeerId && this.maxPeerCount == maxPeerCount && this.hash == hash
    {
      this.selfPeerId, this.maxPeerCount, this.hash := selfPeerId, maxPeerCount, hash;
    }

    method ConvertList(peers: seq<PeerID>) returns (list: seq<PeerDistance>)
      requires forall p :: |hash(p)| == 32
      ensures list == Convert(selfPeerId, hash, peers)
    {
      list := [];
      for i := 0 to |peers|
        invariant list == Convert(selfPeerId, hash, peers[..i])
      {
        var d := ComputeDistanceByCountingBits(hash(peers[i]), hash(selfPeerId));
        list := list + [PeerDistance(peers[i], d)];
      }
      assert peers[..|peers|] == peers;
    }

    /** The evicted peers and the kept ones are the input, as many stay as are allowed, and
        nobody who stays is farther away than anybody who is evicted. */
    method ComputeEvictionList(pidList: seq<PeerID>) returns (evicted: seq<PeerID>)
      requires forall p :: |hash(p)| == 32
      ensures OneListVerdict(selfPeerId, hash, maxPeerCount, pidList, evicted)
    {
      var list := ConvertList(pidList);
      ghost var s;
      evicted, s := EvictList(list, maxPeerCount);
    }
  }

  /** Construction fails exactly when the limits do not pass the checks. */
  method NewListsSharder(config: Config, selfPeerId: PeerID, resolver: PeerID -> PeerInfo,
                         preferred: PeerID -> bool, pretty: PeerID -> string, hash: PeerID -> Hash)
    returns (ls: Option<ListsSharder>)
    ensures ls.Some? <==> ProcessNumConnections(config).Some?
    ensures ls.Some? ==> fresh(ls.value)
    ensures ls.Some? ==> ls.value.View() == Knowledge(ProcessNumConnections(config).value, selfPeerId, [], resolver, preferred, pretty, hash)
  {
    if ProcessNumConnections(config).None? {
      return None;
    }
    var sharder := new ListsSharder(config, selfPeerId, resolver, preferred, pretty, hash);
    return Some(sharder);
  }

  method NewOneListSharder(selfPeerId: PeerID, maxPeerCount: int, hash: PeerID -> Hash) returns (ols: Option<OneListSharder>)
    ensures ols.Some? <==> maxPeerCount >= 3
    ensures ols.Some? ==> fresh(ols.value) && ols.value.maxPeerCount == maxPeerCount
                          && ols.value.selfPeerId == selfPeerId && ols.value.hash == hash
  {
    if maxPeerCount < 3 {
      return None;
    }
    var sharder := new OneListSharder(selfPeerId, maxPeerCount, hash);
    return Some(sharder);
  }

  method Has(pid: PeerID, list: seq<PeerID>) returns (found: bool)
    ensures found <==> pid in list
  {
    for i := 0 to |list|
      invariant pid !in list[..i]
    {
      if list[i] == pid {
        return true;
      }
    }
    return false;
  }
}
