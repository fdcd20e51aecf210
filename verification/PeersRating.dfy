/** The two-tier rating of peers (p2p/rating/peersRatingHandler.go). */
module PeersRating {
  import opened Basics

  type PeerID = string

  const DEFAULT_RATING := 0
  const MIN_RATING := -100
  const MAX_RATING := 100
  const INCREASE_FACTOR := 2
  const DECREASE_FACTOR := -1
  const MIN_NUM_OF_PEERS := 1

  /** A cache of ratings. One that evicts may lose any entries whenever it takes a new one. */
  class Cache {
    var entries: map<PeerID, int>
    const evicts: bool

    constructor (evicts: bool)
      ensures entries == map[] && this.evicts == evicts
    {
      this.entries, this.evicts := map[], evicts;
    }

    method Put(p: PeerID, rating: int)
      modifies this
      ensures forall q | q in entries :: (q == p && entries[q] == rating) || (q != p && q in old(entries) && entries[q] == old(entries)[q])
      ensures !evicts ==> entries == old(entries)[p := rating]
    {
      entries := entries[p := rating];
      if evicts {
        var lost: set<PeerID> :| lost <= entries.Keys;
        entries := entries - lost;
      }
    }

    method Remove(p: PeerID)
      modifies this
      ensures entries == old(entries) - {p}
    {
      entries := entries - {p};
    }
  }

  function Clamp(rating: int): int {
    if rating > MAX_RATING then MAX_RATING else if rating < MIN_RATING then MIN_RATING else rating
  }

  /** A sum inside the range is kept, and one beyond an end becomes that end. */
  lemma ClampMeans(rating: int)
    ensures -100 <= rating <= 100 ==> Clamp(rating) == rating
    ensures rating > 100 ==> Clamp(rating) == 100
    ensures rating < -100 ==> Clamp(rating) == -100
  {
  }

  /** Every rating in `a` is the one in `b`. */
  predicate Within(a: map<PeerID, int>, b: map<PeerID, int>) {
    forall p | p in a :: p in b && a[p] == b[p]
  }

  /** Every known peer's rating, after one update: a peer first seen gets the default rating and
      the update itself is not counted. */
  function Updated(ratings: map<PeerID, int>, p: PeerID, factor: int): map<PeerID, int> {
    ratings[p := if p in ratings then Clamp(ratings[p] + factor) else DEFAULT_RATING]
  }

  /** Every known peer's rating, after peers were only looked up. */
  function Seen(ratings: map<PeerID, int>, peers: seq<PeerID>): map<PeerID, int> {
    if peers == [] then ratings
    else
      var before := Seen(ratings, peers[..|peers| - 1]);
      var p := peers[|peers| - 1];
      if p in before then before else before[p := DEFAULT_RATING]
  }

  /** The peers of the list inside, or outside, a set, in list order. */
  function Filter(peers: seq<PeerID>, s: set<PeerID>, inside: bool): seq<PeerID> {
    if peers == [] then []
    else
      var p := peers[|peers| - 1];
      Filter(peers[..|peers| - 1], s, inside) + if (p in s) == inside then [p] else []
  }

  class PeersRatingHandler {
    const topRatedCache: Cache
    const badRatedCache: Cache

    /** No peer is in both tiers, and ratings lie in the range of their tier. */
    ghost predicate Valid()
      reads topRatedCache, badRatedCache
    {
      && topRatedCache != badRatedCache
      && topRatedCache.entries.Keys !! badRatedCache.entries.Keys
      && (forall p | p in topRatedCache.entries :: DEFAULT_RATING <= topRatedCache.entries[p] <= MAX_RATING)
      && (forall p | p in badRatedCache.entries :: MIN_RATING <= badRatedCache.entries[p] < DEFAULT_RATING)
    }

    /** The rating of every known peer. */
    function Ratings(): map<PeerID, int>
      reads topRatedCache, badRatedCache
    {
      topRatedCache.entries + badRatedCache.entries
    }

    ghost predicate Keeps()
    {
      !topRatedCache.evicts && !badRatedCache.evicts
    }

    constructor (topRatedCache: Cache, badRatedCache: Cache)
      requires topRatedCache != badRatedCache && topRatedCache.entries == badRatedCache.entries == map[]
      ensures Valid() && this.topRatedCache == topRatedCache && this.badRatedCache == badRatedCache
    {
      this.topRatedCache, this.badRatedCache := topRatedCache, badRatedCache;
    }

    method IncreaseRating(p: PeerID)
      requires Valid()
      modifies topRatedCache, badRatedCache
      ensures Valid()
      ensures Within(Ratings(), Updated(old(Ratings()), p, 2))
      ensures Keeps() ==> Ratings() == Updated(old(Ratings()), p, 2)
    {
      UpdateRating(p, INCREASE_FACTOR);
    }

    method DecreaseRating(p: PeerID)
      requires Valid()
      modifies topRatedCache, badRatedCache
      ensures Valid()
      ensures Within(Ratings(), Updated(old(Ratings()), p, -1))
      ensures Keeps() ==> Ratings() == Updated(old(Ratings()), p, -1)
    {
      UpdateRating(p, DECREASE_FACTOR);
    }

    method GetOldRating(p: PeerID) returns (rating: int, found: bool)
      requires Valid()
      ensures found <==> p in Ratings()
      ensures rating == if found then Ratings()[p] else DEFAULT_RATING
    {
      if p in topRatedCache.entries {
        return topRatedCache.entries[p], true;
      }
      if p in badRatedCache.entries {
        return badRatedCache.entries[p], true;
      }
      return DEFAULT_RATING, false;
    }

    method UpdateRating(p: PeerID, updateFactor: int)
      requires Valid()
      modifies topRatedCache, badRatedCache
      ensures Valid()
      ensures Within(Ratings(), Updated(old(Ratings()), p, updateFactor))
      ensures Keeps() ==> Ratings() == Updated(old(Ratings()), p, updateFactor)
    {
      var oldRating, found := GetOldRating(p);
      if !found {
        topRatedCache.Put(p, DEFAULT_RATING);
        return;
      }
      var newRating := oldRating + updateFactor;
      if newRating > MAX_RATING {
        newRating := MAX_RATING;
      }
      if newRating < MIN_RATING {
        newRating := MIN_RATING;
      }
      UpdateRatingCacher(p, oldRating, newRating);
    }

    method UpdateRatingCacher(p: PeerID, oldRating: int, newRating: int)
      requires Valid() && p in Ratings() && Ratings()[p] == oldRating && MIN_RATING <= newRating <= MAX_RATING
      modifies topRatedCache, badRatedCache
      ensures Valid()
      ensures Within(Ratings(), old(Ratings())[p := newRating])
      ensures Keeps() ==> Ratings() == old(Ratings())[p := newRating]
    {
      var oldTop, newTop := oldRating >= DEFAULT_RATING, newRating >= DEFAULT_RATING;
      if newTop == oldTop {
        if newTop {
          topRatedCache.Put(p, newRating);
        } else {
          badRatedCache.Put(p, newRating);
        }
        return;
      }
      MovePeerToNewTier(newRating, newTop, p);
    }

    method MovePeerToNewTier(newRating: int, newTop: bool, p: PeerID)
      requires Valid() && MIN_RATING <= newRating <= MAX_RATING && (newTop <==> newRating >= DEFAULT_RATING)
      modifies topRatedCache, badRatedCache
      ensures Valid()
      ensures Within(Ratings(), old(Ratings())[p := newRating])
      ensures Keeps() ==> Ratings() == old(Ratings())[p := newRating]
    {
      if newTop {
        badRatedCache.Remove(p);
        topRatedCache.Put(p, newRating);
      } else {
        topRatedCache.Remove(p);
        badRatedCache.Put(p, newRating);
      }
    }

    /** The bad peers of the list are those in the bad tier, all others are top rated, even when
        the top tier evicts peers on the way. */
    method SplitPeersByTiers(peers: seq<PeerID>) returns (topRated: seq<PeerID>, badRated: seq<PeerID>)
      requires Valid()
      modifies topRatedCache
      ensures Valid()
      ensures topRated == Filter(peers, badRatedCache.entries.Keys, false)
      ensures badRated == Filter(peers, badRatedCache.entries.Keys, true)
      ensures Keeps() ==> Ratings() == Seen(old(Ratings()), peers)
    {
      topRated, badRated := [], [];
      for i := 0 to |peers|
        invariant Valid()
        invariant topRated == Filter(peers[..i], badRatedCache.entries.Keys, false)
        invariant badRated == Filter(peers[..i], badRatedCache.entries.Keys, true)
        invariant Keeps() ==> Ratings() == Seen(old(Ratings()), peers[..i])
      {
        assert peers[..i + 1][..i] == peers[..i];
        var peer, isNewPeer := peers[i], true;
        if peer in topRatedCache.entries {
          topRated := topRated + [peer];
          isNewPeer := false;
        }
        if peer in badRatedCache.entries {
          badRated := badRated + [peer];
          isNewPeer := false;
        }
        if isNewPeer {
          topRatedCache.Put(peer, DEFAULT_RATING);
          topRated := topRated + [peer];
        }
      }
      assert peers[..|peers|] == peers;
    }

    method GetTopRatedPeersFromList(peers: seq<PeerID>, minNumOfPeersExpected: int) returns (list: seq<PeerID>)
      requires Valid()
      modifies topRatedCache
      ensures Valid()
      ensures list == Selection(peers, badRatedCache.entries.Keys, minNumOfPeersExpected)
      ensures Keeps() ==> Ratings() == if minNumOfPeersExpected < MIN_NUM_OF_PEERS then old(Ratings()) else Seen(old(Ratings()), peers)
    {
      if minNumOfPeersExpected < MIN_NUM_OF_PEERS || |peers| == 0 {
        return [];
      }
      var peersTopRated, peersBadRated := SplitPeersByTiers(peers);
      if |peersTopRated| < minNumOfPeersExpected {
        peersTopRated := peersTopRated + peersBadRated;
      }
      return peersTopRated;
    }
  }

  function Selection(peers: seq<PeerID>, bad: set<PeerID>, minNum: int): seq<PeerID> {
    if minNum < MIN_NUM_OF_PEERS then []
    else if |Filter(peers, bad, false)| < minNum then Filter(peers, bad, false) + Filter(peers, bad, true)
    else Filter(peers, bad, false)
  }

  lemma {:induction false} FilterPartitions(peers: seq<PeerID>, s: set<PeerID>)
    ensures multiset(peers) == multiset(Filter(peers, s, false)) + multiset(Filter(peers, s, true))
    ensures forall p | p in Filter(peers, s, false) :: p !in s
    ensures forall p | p in Filter(peers, s, true) :: p in s
    decreases |peers|
  {
    if peers != [] {
      var n := |peers| - 1;
      FilterPartitions(peers[..n], s);
      assert peers == peers[..n] + [peers[n]];
    }
  }

  /** Both lists keep the order of the input. */
  lemma {:induction false} FilterKeepsOrder(a: seq<PeerID>, b: seq<PeerID>, s: set<PeerID>, inside: bool)
    ensures Filter(a + b, s, inside) == Filter(a, s, inside) + Filter(b, s, inside)
    decreases |b|
  {
    if b == [] {
      assert a + b == a;
    } else {
      var n := |b| - 1;
      assert (a + b)[..|a + b| - 1] == a + b[..n] && (a + b)[|a + b| - 1] == b[n];
      FilterKeepsOrder(a, b[..n], s, inside);
      var last := if (b[n] in s) == inside then [b[n]] else [];
      assert Filter(a + b, s, inside) == (Filter(a, s, inside) + Filter(b[..n], s, inside)) + last;
      assert Filter(b, s, inside) == Filter(b[..n], s, inside) + last;
    }
  }

  /** Without a request for at least one peer nobody is returned. */
  lemma NothingRequested(peers: seq<PeerID>, bad: set<PeerID>, minNum: int)
    requires minNum < 1
    ensures Selection(peers, bad, minNum) == []
  {
  }

  /** Requested peers, at least one wanted: every top rated peer of the list comes before any bad
      one; with too few top rated ones everybody is returned, otherwise nobody bad is. */
  lemma SelectionOrder(peers: seq<PeerID>, bad: set<PeerID>, minNum: int)
    requires minNum >= 1
    ensures var r := Selection(peers, bad, minNum);
            && (forall i, j :: 0 <= i < j < |r| && r[i] in bad ==> r[j] in bad)
            && (forall p | p in peers && p !in bad :: p in r)
            && (|Filter(peers, bad, false)| < minNum ==> multiset(r) == multiset(peers))
            && (|Filter(peers, bad, false)| >= minNum ==> r == Filter(peers, bad, false) && forall p | p in r :: p !in bad)
  {
    FilterPartitions(peers, bad);
    var top, low := Filter(peers, bad, false), Filter(peers, bad, true);
    forall p | p in peers && p !in bad ensures p in top {
      assert p in multiset(peers);
      assert p in multiset(low) <==> p in low;
      assert p in multiset(top);
    }
    var r := Selection(peers, bad, minNum);
    assert forall k | 0 <= k < |top| :: top[k] in top && r[k] == top[k];
    assert forall k | |top| <= k < |r| :: r[k] in low;
  }

  // ---------------------------------------------------------------- ratings over a run

  datatype Event = Update(p: PeerID, factor: int) | LookUp(peers: seq<PeerID>)

  /** All ratings after a run of calls, when nothing is evicted. */
  function After(run: seq<Event>): map<PeerID, int> {
    if run == [] then map[]
    else
      var before := After(run[..|run| - 1]);
      match run[|run| - 1]
      case Update(p, factor) => Updated(before, p, factor)
      case LookUp(peers) => Seen(before, peers)
  }

  /** The updates of a peer that count: those after it was first seen, by an update or a look-up. */
  function Counted(run: seq<Event>, p: PeerID): Option<seq<int>> {
    if run == [] then None
    else
      var before := Counted(run[..|run| - 1], p);
      match run[|run| - 1]
      case Update(q, factor) =>
        if q != p then before else if before.None? then Some([]) else Some(before.value + [factor])
      case LookUp(peers) => if before.None? && p in peers then Some([]) else before
  }

  /** The updates added up from the default rating, each sum kept in range. */
  function ClampedSum(factors: seq<int>): int {
    if factors == [] then DEFAULT_RATING
    else Clamp(ClampedSum(factors[..|factors| - 1]) + factors[|factors| - 1])
  }

  lemma {:induction false} SeenKeeps(ratings: map<PeerID, int>, peers: seq<PeerID>, p: PeerID)
    ensures p in Seen(ratings, peers) <==> p in ratings || p in peers
    ensures p in Seen(ratings, peers) ==>
              Seen(ratings, peers)[p] == if p in ratings then ratings[p] else DEFAULT_RATING
    decreases |peers|
  {
    if peers != [] {
      var n := |peers| - 1;
      SeenKeeps(ratings, peers[..n], p);
      assert peers == peers[..n] + [peers[n]];
    }
  }

  /** Without eviction a peer's rating is the clamped sum of its updates after first sight. */
  lemma {:induction false} RatingIsClampedSum(run: seq<Event>, p: PeerID)
    ensures p in After(run) <==> Counted(run, p).Some?
    ensures p in After(run) ==> After(run)[p] == ClampedSum(Counted(run, p).value)
    decreases |run|
  {
    if run != [] {
      var n := |run| - 1;
      RatingIsClampedSum(run[..n], p);
      match run[n]
      case Update(q, factor) =>
        if q == p && p in After(run[..n]) {
          var f := Counted(run[..n], p).value;
          assert (f + [factor])[..|f|] == f;
        }
      case LookUp(peers) => SeenKeeps(After(run[..n]), peers, p);
    }
  }
}
