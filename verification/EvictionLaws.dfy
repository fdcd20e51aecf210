/** Laws of peer eviction: the survivors fit the limits, no slot is wasted, nobody is lost, the
    survivors stay, and when the verdict is the same in whatever order the peers are listed. */
module EvictionLaws {
  import opened Basics
  import opened Sorting
  import opened Eviction

  // ---------------------------------------------------------------- lists as multisets

  lemma {:induction false} MembersAppend(k: Knowledge, c: Class, a: seq<PeerID>, b: seq<PeerID>)
    ensures Members(k, c, a + b) == Members(k, c, a) + Members(k, c, b)
    decreases |b|
  {
    hide ClassOf, Measured;
    if b == [] {
      assert a + b == a;
    } else {
      var n := |b| - 1;
      MembersAppend(k, c, a, b[..n]);
      assert (a + b)[..|a + b| - 1] == a + b[..n];
    }
  }

  /** How often a measured peer occurs in a class. */
  lemma {:induction false} MembersCount(k: Knowledge, c: Class, s: seq<PeerID>, m: PeerDistance)
    ensures multiset(Members(k, c, s))[m]
         == if ClassOf(k, m.id) == c && Measured(k, m.id) == m then multiset(s)[m.id] else 0
    decreases |s|
  {
    hide ClassOf, Measured;
    if s != [] {
      var n := |s| - 1;
      MembersCount(k, c, s[..n], m);
      assert s == s[..n] + [s[n]];
      MeasuredId(k, s[n]);
    }
  }

  lemma MeasuredId(k: Knowledge, p: PeerID)
    ensures Measured(k, p).id == p
  {
  }

  /** Reordering the peers reorders every class. */
  lemma MembersPermuted(k: Knowledge, c: Class, a: seq<PeerID>, b: seq<PeerID>)
    requires multiset(a) == multiset(b)
    ensures multiset(Members(k, c, a)) == multiset(Members(k, c, b))
  {
    hide Members;
    forall m ensures multiset(Members(k, c, a))[m] == multiset(Members(k, c, b))[m] {
      MembersCount(k, c, a, m);
      MembersCount(k, c, b, m);
    }
  }

  /** In a list of measured peers, IDs occur as often as their entries. */
  lemma {:induction false} IdsCount(k: Knowledge, s: seq<PeerDistance>, p: PeerID)
    requires forall m | m in s :: m == Measured(k, m.id)
    ensures multiset(Ids(s))[p] == multiset(s)[Measured(k, p)]
    decreases |s|
  {
    hide Measured;
    MeasuredId(k, p);
    if s != [] {
      var n := |s| - 1;
      assert forall m | m in s[..n] :: m in s;
      assert s[n] in s;
      IdsCount(k, s[..n], p);
      assert s == s[..n] + [s[n]];
      assert Ids(s) == Ids(s[..n]) + [s[n].id];
    }
  }

  function ClassIds(k: Knowledge, pids: seq<PeerID>, c: Class): multiset<PeerID> {
    multiset(Ids(Members(k, c, pids)))
  }

  lemma ClassIdsCount(k: Knowledge, pids: seq<PeerID>, c: Class, p: PeerID)
    ensures ClassIds(k, pids, c)[p] == if ClassOf(k, p) == c then multiset(pids)[p] else 0
  {
    hide Members, Ids, ClassOf, Measured;
    forall m | m in Members(k, c, pids) ensures m == Measured(k, m.id) { MembersHaveClass(k, c, pids, m); }
    IdsCount(k, Members(k, c, pids), p);
    MembersCount(k, c, pids, Measured(k, p));
    MeasuredId(k, p);
  }

  /** Every peer belongs to exactly one class. */
  lemma ClassesPartition(k: Knowledge, pids: seq<PeerID>)
    ensures multiset(pids)
         == ClassIds(k, pids, IntraValidators) + ClassIds(k, pids, CrossValidators)
          + ClassIds(k, pids, IntraObservers) + ClassIds(k, pids, CrossObservers)
          + ClassIds(k, pids, Seeders) + ClassIds(k, pids, Unknown) + ClassIds(k, pids, Uncounted)
  {
    hide ClassIds, ClassOf;
    forall p, c ensures ClassIds(k, pids, c)[p] == if ClassOf(k, p) == c then multiset(pids)[p] else 0 {
      ClassIdsCount(k, pids, c, p);
    }
  }

  lemma CutIds(k: Knowledge, c: Class, pids: seq<PeerID>, numKeep: int, s: Split)
    requires Cut(Members(k, c, pids), numKeep, s)
    ensures multiset(Ids(s.kept)) + multiset(Ids(s.gone)) == ClassIds(k, pids, c)
  {
    hide Members, ClassOf, Measured;
    var members := Members(k, c, pids);
    forall m | m in members ensures m == Measured(k, m.id) { MembersHaveClass(k, c, pids, m); }
    forall m | m in s.kept + s.gone ensures m == Measured(k, m.id) {
      assert m in multiset(s.kept + s.gone);
      assert m in multiset(members);
    }
    forall p ensures multiset(Ids(s.kept + s.gone))[p] == multiset(Ids(members))[p] {
      IdsCount(k, s.kept + s.gone, p);
      IdsCount(k, members, p);
    }
    assert Ids(s.kept + s.gone) == Ids(s.kept) + Ids(s.gone);
  }

  /** Evicted, kept and uncounted peers are the input, each as often as it occurs there. */
  lemma VerdictPartitions(k: Knowledge, pids: seq<PeerID>, parts: Parts)
    requires IsCut(k, pids, parts)
    ensures multiset(pids) == multiset(Gone(parts)) + multiset(Kept(parts)) + ClassIds(k, pids, Uncounted)
  {
    hide Cut, Keeps, Ids, Members, Counts;
    ClassesPartition(k, pids);
    forall c | c in LISTS
      ensures multiset(Ids(parts[c].kept)) + multiset(Ids(parts[c].gone)) == ClassIds(k, pids, c)
    {
      CutIds(k, c, pids, Keeps(k.connections.quotas, Counts(k, pids)).Of(c), parts[c]);
    }
    assert IntraValidators in LISTS && CrossValidators in LISTS && IntraObservers in LISTS;
    assert CrossObservers in LISTS && Seeders in LISTS && Unknown in LISTS;
  }

  lemma {:induction false} MembersHaveClass(k: Knowledge, c: Class, pids: seq<PeerID>, m: PeerDistance)
    requires m in Members(k, c, pids)
    ensures m.id in pids && ClassOf(k, m.id) == c && m == Measured(k, m.id)
    decreases |pids|
  {
    var n := |pids| - 1;
    if m in Members(k, c, pids[..n]) { MembersHaveClass(k, c, pids[..n], m); }
  }

  lemma GoneIsMember(k: Knowledge, pids: seq<PeerID>, parts: Parts, c: Class, m: PeerDistance)
    requires IsCut(k, pids, parts) && c in LISTS && m in parts[c].gone
    ensures ClassOf(k, m.id) == c && m == Measured(k, m.id)
  {
    hide Keeps;
    assert m in multiset(parts[c].kept + parts[c].gone);
    assert m in multiset(Members(k, c, pids));
    MembersHaveClass(k, c, pids, m);
  }

  /** An evicted peer is a seeder, or it is not preferred. */
  lemma PreferredNotEvicted(k: Knowledge, pids: seq<PeerID>, evicted: seq<PeerID>, p: PeerID)
    requires Verdict(k, pids, evicted) && p in evicted
    ensures k.preferred(p) ==> IsSeeder(k, p)
  {
    hide Cut, Keeps, Members, Counts, IsSeeder, Measured, Gone;
    var parts: Parts :| IsCut(k, pids, parts) && evicted == Gone(parts);
    var c := EvictedFrom(parts, p);
    var m :| m in parts[c].gone && m.id == p;
    GoneIsMember(k, pids, parts, c, m);
  }

  lemma EvictedFrom(parts: Parts, p: PeerID) returns (c: Class)
    requires parts.Keys == LISTS && p in Gone(parts)
    ensures c in LISTS && exists m :: m in parts[c].gone && m.id == p
  {
    if c' :| c' in LISTS && p in Ids(parts[c'].gone) {
      c := c';
      var i :| 0 <= i < |parts[c].gone| && Ids(parts[c].gone)[i] == p;
      assert parts[c].gone[i] in parts[c].gone;
    }
  }

  // ---------------------------------------------------------------- limits

  /** How many of each list stay is what the quota chain allows. */
  lemma KeptIsKeeps(k: Knowledge, pids: seq<PeerID>, parts: Parts, c: Class)
    requires QuotasFit(k.connections) && IsCut(k, pids, parts) && c in LISTS
    ensures 0 <= Keeps(k.connections.quotas, Counts(k, pids)).Of(c) <= |Members(k, c, pids)|
    ensures |parts[c].kept| == Keeps(k.connections.quotas, Counts(k, pids)).Of(c)
    ensures |parts[c].gone| == |Members(k, c, pids)| - |parts[c].kept|
  {
    hide Members, Keeps, Counts;
    CountsNonNegative(k, pids);
    KeepsWithin(k.connections.quotas, Counts(k, pids));
    var s := parts[c];
    assert |multiset(s.kept + s.gone)| == |s.kept| + |s.gone|;
    assert |multiset(Members(k, c, pids))| == |Members(k, c, pids)|;
  }

  lemma NonNegative(q: PerList)
    requires forall l | l in LISTS :: q.Of(l) >= 0
    ensures q.iv >= 0 && q.cv >= 0 && q.io >= 0 && q.co >= 0 && q.sd >= 0 && q.un >= 0
  {
    assert q.iv == q.Of(IntraValidators) && q.cv == q.Of(CrossValidators) && q.io == q.Of(IntraObservers);
    assert q.co == q.Of(CrossObservers) && q.sd == q.Of(Seeders) && q.un == q.Of(Unknown);
  }

  lemma KeepsWithin(q: PerList, n: PerList)
    requires forall l | l in LISTS :: q.Of(l) >= 0 && n.Of(l) >= 0
    ensures forall l | l in LISTS :: 0 <= Keeps(q, n).Of(l) <= n.Of(l)
  {
    NonNegative(q);
    NonNegative(n);
  }

  /** The chain never gives out more than its quotas, and a class that is cut short has used up
      every spare slot handed down to it. */
  lemma ChainBudget(q: PerList, n: PerList, j: nat)
    requires forall l | l in LISTS :: q.Of(l) >= 0 && n.Of(l) >= 0
    requires 1 <= j <= 5
    ensures Keeps(q, n).Upto(j) <= q.Upto(j)
    ensures Keeps(q, n).sd <= q.sd
    ensures Keeps(q, n).Of(CHAIN[j - 1]) < n.Of(CHAIN[j - 1]) ==> Keeps(q, n).Upto(j) == q.Upto(j)
  {
    NonNegative(q);
    NonNegative(n);
  }

  lemma CountsNonNegative(k: Knowledge, pids: seq<PeerID>)
    ensures forall l | l in LISTS :: Counts(k, pids).Of(l) >= 0
    ensures forall l | l in LISTS :: Counts(k, pids).Of(l) == |Members(k, l, pids)|
  {
  }

  lemma KeptTotal(k: Knowledge, pids: seq<PeerID>, parts: Parts)
    requires QuotasFit(k.connections) && IsCut(k, pids, parts)
    ensures |Kept(parts)| == Keeps(k.connections.quotas, Counts(k, pids)).Total()
  {
    hide Members, Cut, Keeps, Ids;
    KeptIsKeeps(k, pids, parts, IntraValidators);
    KeptIsKeeps(k, pids, parts, CrossValidators);
    KeptIsKeeps(k, pids, parts, IntraObservers);
    KeptIsKeeps(k, pids, parts, CrossObservers);
    KeptIsKeeps(k, pids, parts, Seeders);
    KeptIsKeeps(k, pids, parts, Unknown);
  }

  /** The counted peers that stay never exceed the configured peer count. */
  lemma SurvivorsFit(k: Knowledge, pids: seq<PeerID>, parts: Parts)
    requires QuotasFit(k.connections) && IsCut(k, pids, parts)
    ensures |Kept(parts)| <= k.connections.maxPeerCount
  {
    hide Members, Cut, Keeps;
    CountsNonNegative(k, pids);
    KeptTotal(k, pids, parts);
    ChainBudget(k.connections.quotas, Counts(k, pids), 5);
  }

  /** If a class of the chain loses a peer, the classes up to it hold exactly the sum of their
      quotas: no spare slot is wasted. */
  lemma NoSlotWasted(k: Knowledge, pids: seq<PeerID>, parts: Parts, j: nat)
    requires QuotasFit(k.connections) && IsCut(k, pids, parts) && 1 <= j <= 5
    requires parts[CHAIN[j - 1]].gone != []
    ensures PerList(|parts[IntraValidators].kept|, |parts[CrossValidators].kept|, |parts[IntraObservers].kept|,
                    |parts[CrossObservers].kept|, |parts[Seeders].kept|, |parts[Unknown].kept|).Upto(j)
         == k.connections.quotas.Upto(j)
  {
    hide Members, Cut, Keeps;
    CountsNonNegative(k, pids);
    KeptIsKeeps(k, pids, parts, CHAIN[j - 1]);
    ChainBudget(k.connections.quotas, Counts(k, pids), j);
    KeptIsKeeps(k, pids, parts, IntraValidators);
    KeptIsKeeps(k, pids, parts, CrossValidators);
    KeptIsKeeps(k, pids, parts, IntraObservers);
    KeptIsKeeps(k, pids, parts, CrossObservers);
    KeptIsKeeps(k, pids, parts, Unknown);
  }

  // ---------------------------------------------------------------- eviction is idempotent

  lemma {:induction false} MembersOfIds(k: Knowledge, c: Class, c': Class, s: seq<PeerDistance>)
    requires forall m | m in s :: ClassOf(k, m.id) == c'
    ensures |Members(k, c, Ids(s))| == if c == c' then |s| else 0
    decreases |s|
  {
    if s != [] {
      var n := |s| - 1;
      assert s[n] in s;
      MembersOfIds(k, c, c', s[..n]);
      assert Ids(s)[..n] == Ids(s[..n]);
    }
  }

  lemma GoneMembers(k: Knowledge, pids: seq<PeerID>, parts: Parts, c: Class)
    requires IsCut(k, pids, parts) && c in LISTS
    ensures |Members(k, c, Gone(parts))| == |parts[c].gone|
  {
    hide Members, Keeps, Cut, Ids, ClassOf, Counts;
    forall c' | c' in LISTS
      ensures |Members(k, c, Ids(parts[c'].gone))| == if c == c' then |parts[c'].gone| else 0
    {
      forall m | m in parts[c'].gone ensures ClassOf(k, m.id) == c' { GoneIsMember(k, pids, parts, c', m); }
      MembersOfIds(k, c, c', parts[c'].gone);
    }
    var iv, cv := Ids(parts[IntraValidators].gone), Ids(parts[CrossValidators].gone);
    var io, co := Ids(parts[IntraObservers].gone), Ids(parts[CrossObservers].gone);
    var sd, un := Ids(parts[Seeders].gone), Ids(parts[Unknown].gone);
    MembersAppend(k, c, iv, cv);
    MembersAppend(k, c, iv + cv, io);
    MembersAppend(k, c, iv + cv + io, co);
    MembersAppend(k, c, iv + cv + io + co, sd);
    MembersAppend(k, c, iv + cv + io + co + sd, un);
  }

  lemma SurvivorMembers(k: Knowledge, pids: seq<PeerID>, parts: Parts, rest: seq<PeerID>, c: Class)
    requires QuotasFit(k.connections) && IsCut(k, pids, parts) && c in LISTS
    requires multiset(pids) == multiset(rest + Gone(parts))
    ensures Counts(k, rest).Of(c) == Keeps(k.connections.quotas, Counts(k, pids)).Of(c)
  {
    hide Members, Keeps, Cut, Gone;
    MembersPermuted(k, c, pids, rest + Gone(parts));
    MembersAppend(k, c, rest, Gone(parts));
    GoneMembers(k, pids, parts, c);
    assert |multiset(Members(k, c, pids))| == |multiset(Members(k, c, rest + Gone(parts)))|;
    KeptIsKeeps(k, pids, parts, c);
    CountsNonNegative(k, pids);
    CountsNonNegative(k, rest);
  }

  lemma KeepsIdempotent(q: PerList, n: PerList)
    requires forall l | l in LISTS :: q.Of(l) >= 0 && n.Of(l) >= 0
    ensures Keeps(q, Keeps(q, n)) == Keeps(q, n)
  {
    NonNegative(q);
    NonNegative(n);
  }

  lemma SurvivorCounts(k: Knowledge, pids: seq<PeerID>, parts: Parts, rest: seq<PeerID>)
    requires QuotasFit(k.connections) && IsCut(k, pids, parts)
    requires multiset(pids) == multiset(rest + Gone(parts))
    ensures Counts(k, rest) == Keeps(k.connections.quotas, Counts(k, pids))
  {
    hide Keeps, Counts, IsCut, Gone;
    SurvivorMembers(k, pids, parts, rest, IntraValidators);
    SurvivorMembers(k, pids, parts, rest, CrossValidators);
    SurvivorMembers(k, pids, parts, rest, IntraObservers);
    SurvivorMembers(k, pids, parts, rest, CrossObservers);
    SurvivorMembers(k, pids, parts, rest, Seeders);
    SurvivorMembers(k, pids, parts, rest, Unknown);
  }

  /** Running eviction again on the survivors evicts nobody. */
  lemma SurvivorsStay(k: Knowledge, pids: seq<PeerID>, evicted: seq<PeerID>, rest: seq<PeerID>, again: seq<PeerID>)
    requires QuotasFit(k.connections) && Verdict(k, pids, evicted) && Verdict(k, rest, again)
    requires multiset(pids) == multiset(rest + evicted)
    ensures again == []
  {
    hide Keeps, Counts, Cut, Members, Ids;
    var parts: Parts :| IsCut(k, pids, parts) && evicted == Gone(parts);
    var parts': Parts :| IsCut(k, rest, parts') && again == Gone(parts');
    CountsNonNegative(k, pids);
    CountsNonNegative(k, rest);
    SurvivorCounts(k, pids, parts, rest);
    KeepsIdempotent(k.connections.quotas, Counts(k, pids));
    forall c | c in LISTS ensures |parts'[c].gone| == 0 {
      KeptIsKeeps(k, rest, parts', c);
    }
  }

  // ---------------------------------------------------------------- when the verdict is determined

  function CountBelow(s: seq<PeerDistance>, t: int): nat {
    if s == [] then 0 else CountBelow(s[..|s| - 1], t) + if s[|s| - 1].distance < t then 1 else 0
  }

  /** The cut after `numKeep` peers does not fall between peers at equal distance: nobody or
      everybody stays, or exactly `numKeep` peers are nearer than some distance. */
  ghost predicate Determined(members: seq<PeerDistance>, numKeep: int) {
    || numKeep <= 0
    || numKeep >= |members|
    || exists t :: CountBelow(members, t) == numKeep
  }

  lemma {:induction false} CountBelowAppend(a: seq<PeerDistance>, b: seq<PeerDistance>, t: int)
    ensures CountBelow(a + b, t) == CountBelow(a, t) + CountBelow(b, t)
    decreases |b|
  {
    if b == [] {
      assert a + b == a;
    } else {
      var n := |b| - 1;
      assert (a + b)[..|a + b| - 1] == a + b[..n];
      CountBelowAppend(a, b[..n], t);
    }
  }

  lemma {:induction false} CountBelowBounds(s: seq<PeerDistance>, t: int)
    ensures CountBelow(s, t) <= |s|
    ensures CountBelow(s, t) == |s| <==> forall m | m in s :: m.distance < t
    ensures CountBelow(s, t) == 0 <==> forall m | m in s :: m.distance >= t
    decreases |s|
  {
    if s != [] {
      var n := |s| - 1;
      CountBelowBounds(s[..n], t);
      assert s == s[..n] + [s[n]];
    }
  }

  /** Taking one occurrence of `p` out of a list. */
  lemma TakingOut(b: seq<PeerDistance>, p: PeerDistance, t: int) returns (rest: seq<PeerDistance>)
    requires p in b
    ensures multiset(b) == multiset(rest) + multiset{p} && |b| == |rest| + 1
    ensures CountBelow(b, t) == CountBelow(rest, t) + if p.distance < t then 1 else 0
  {
    var i :| 0 <= i < |b| && b[i] == p;
    rest := b[..i] + b[i + 1..];
    assert b == b[..i] + ([p] + b[i + 1..]);
    CountBelowAppend(b[..i], [p] + b[i + 1..], t);
    CountBelowAppend([p], b[i + 1..], t);
    CountBelowAppend(b[..i], b[i + 1..], t);
    assert [p][..0] == [];
  }

  lemma {:induction false} CountBelowPermuted(a: seq<PeerDistance>, b: seq<PeerDistance>, t: int)
    requires multiset(a) == multiset(b)
    ensures CountBelow(a, t) == CountBelow(b, t)
    decreases |a|
  {
    hide CountBelow;
    if a == [] {
      assert |multiset(b)| == 0;
    } else {
      var p := a[0];
      assert p in multiset(b);
      var a' := TakingOut(a, p, t);
      var b' := TakingOut(b, p, t);
      Cancel(multiset(a'), multiset(b'), p);
      CountBelowPermuted(a', b', t);
    }
  }

  lemma Cancel(a: multiset<PeerDistance>, b: multiset<PeerDistance>, p: PeerDistance)
    requires a + multiset{p} == b + multiset{p}
    ensures a == b
  {
    assert a == a + multiset{p} - multiset{p} && b == b + multiset{p} - multiset{p};
  }

  /** A cut at a distance separates the two sides. */
  lemma CutSeparates(members: seq<PeerDistance>, numKeep: int, s: Split, t: int)
    requires Cut(members, numKeep, s) && 0 < numKeep < |members| && CountBelow(members, t) == numKeep
    ensures forall m | m in s.kept :: m.distance < t
    ensures forall m | m in s.gone :: m.distance >= t
  {
    CountBelowPermuted(s.kept + s.gone, members, t);
    CountBelowAppend(s.kept, s.gone, t);
    CountBelowBounds(s.kept, t);
    CountBelowBounds(s.gone, t);
    assert |s.kept| == numKeep == CountBelow(s.kept, t) + CountBelow(s.gone, t);
    assert forall a, b | a in s.kept && b in s.gone && a.distance >= t :: b.distance >= t;
  }

  /** Whoever is listed, and in whatever order: a determined cut always loses the same peers. */
  lemma DeterminedCutUnique(members: seq<PeerDistance>, members': seq<PeerDistance>, numKeep: int, s: Split, s': Split)
    requires multiset(members) == multiset(members') && Cut(members, numKeep, s) && Cut(members', numKeep, s')
    requires Determined(members, numKeep)
    ensures multiset(s.gone) == multiset(s'.gone)
  {
    assert |multiset(members)| == |multiset(members')|;
    var all := multiset(members);
    assert multiset(s.kept) + multiset(s.gone) == all == multiset(s'.kept) + multiset(s'.gone);
    assert |multiset(s.kept + s.gone)| == |members|;
    assert |multiset(s'.kept + s'.gone)| == |members|;
    if numKeep <= 0 {
      assert s.kept == [] && s'.kept == [];
      assert multiset(s.gone) == all == multiset(s'.gone);
    } else if numKeep >= |members| {
      assert s.gone == [] && s'.gone == [];
    } else {
      var t :| CountBelow(members, t) == numKeep;
      CountBelowPermuted(members, members', t);
      CutSeparates(members, numKeep, s, t);
      CutSeparates(members', numKeep, s', t);
      forall m ensures multiset(s.gone)[m] == multiset(s'.gone)[m] {
        if m.distance < t {
          assert m !in s.gone && m !in s'.gone;
        } else {
          assert m !in s.kept && m !in s'.kept;
          assert all[m] == multiset(s.gone)[m] == multiset(s'.gone)[m];
        }
      }
    }
  }

  /** The nearest of a non-empty list. */
  lemma {:induction false} Nearest(s: seq<PeerDistance>) returns (i: nat)
    requires s != []
    ensures i < |s| && forall m | m in s :: s[i].distance <= m.distance
    decreases |s|
  {
    if |s| == 1 {
      i := 0;
    } else {
      var n := |s| - 1;
      i := Nearest(s[..n]);
      assert s == s[..n] + [s[n]];
      if s[n].distance < s[i].distance { i := n; }
    }
  }

  /** Where a cut falls between peers at equal distance, exchanging two of them is as good a cut. */
  lemma UndeterminedCutExchange(members: seq<PeerDistance>, numKeep: int, s: Split) 
    returns (s': Split, lost: PeerDistance, gained: PeerDistance)
    requires Cut(members, numKeep, s) && !Determined(members, numKeep)
    ensures Cut(members, numKeep, s') && lost in s'.gone && lost in s.kept
    ensures gained in s.gone && gained.distance == lost.distance
  {
    assert |multiset(s.kept + s.gone)| == |multiset(members)|;
    var j := Nearest(s.gone);
    gained := s.gone[j];
    var t := gained.distance;
    assert gained in s.gone;
    assert CountBelow(members, t) != numKeep;
    CountBelowPermuted(s.kept + s.gone, members, t);
    CountBelowAppend(s.kept, s.gone, t);
    CountBelowBounds(s.kept, t);
    CountBelowBounds(s.gone, t);
    lost :| lost in s.kept && lost.distance >= t;
    var i :| 0 <= i < |s.kept| && s.kept[i] == lost;
    s' := Split(s.kept[i := gained], s.gone[j := lost]);
    assert s'.gone[j] == lost;
    ExchangedCut(members, numKeep, s, i, j);
  }

  lemma ExchangedCut(members: seq<PeerDistance>, numKeep: int, s: Split, i: nat, j: nat)
    requires Cut(members, numKeep, s) && i < |s.kept| && j < |s.gone|
    requires s.kept[i].distance == s.gone[j].distance
    ensures Cut(members, numKeep, Split(s.kept[i := s.gone[j]], s.gone[j := s.kept[i]]))
  {
    var s' := Split(s.kept[i := s.gone[j]], s.gone[j := s.kept[i]]);
    Exchanged(s.kept, s.gone, i, j);
    assert s.kept[i] in s.kept && s.gone[j] in s.gone;
    forall a, b | a in s'.kept && b in s'.gone ensures a.distance <= b.distance {
      assert a in s.kept || a == s.gone[j];
      assert b in s.gone || b == s.kept[i];
    }
  }

  lemma Exchanged(a: seq<PeerDistance>, b: seq<PeerDistance>, i: nat, j: nat)
    requires i < |a| && j < |b|
    ensures multiset(a[i := b[j]] + b[j := a[i]]) == multiset(a + b)
  {
    assert multiset(a[i := b[j]]) == multiset(a) - multiset{a[i]} + multiset{b[j]};
    assert multiset(b[j := a[i]]) == multiset(b) - multiset{b[j]} + multiset{a[i]};
    assert a[i] in multiset(a) && b[j] in multiset(b);
  }

  lemma MembersOnce(members: seq<PeerDistance>)
    requires NoRepeats(Ids(members))
    ensures NoRepeats(members)
  {
    forall i, j | 0 <= i < j < |members| ensures members[i] != members[j] {
      assert Ids(members)[i] != Ids(members)[j];
    }
  }

  /** For distinct peers, the lost ones are the same whatever the sort does with ties if and only
      if the cut does not fall between peers at equal distance. */
  lemma CutUniqueIff(members: seq<PeerDistance>, numKeep: int, s: Split)
    requires NoRepeats(Ids(members)) && Cut(members, numKeep, s)
    ensures (forall s': Split | Cut(members, numKeep, s') :: multiset(s'.gone) == multiset(s.gone))
       <==> Determined(members, numKeep)
  {
    if Determined(members, numKeep) {
      forall s': Split | Cut(members, numKeep, s') ensures multiset(s'.gone) == multiset(s.gone) {
        DeterminedCutUnique(members, members, numKeep, s', s);
      }
    } else {
      var s', lost, _ := UndeterminedCutExchange(members, numKeep, s);
      assert lost in multiset(s'.gone);
      if lost in multiset(s.gone) {
        assert multiset(members)[lost] == multiset(s.kept)[lost] + multiset(s.gone)[lost] >= 2;
        MembersOnce(members);
        OccursOnce(members, lost);
      }
    }
  }

  /** Distinct distances determine every cut. */
  lemma DistinctDistancesDetermine(members: seq<PeerDistance>, numKeep: int, s: Split)
    requires Cut(members, numKeep, s)
    requires forall i, j :: 0 <= i < j < |members| ==> members[i].distance != members[j].distance
    ensures Determined(members, numKeep)
  {
    if !Determined(members, numKeep) {
      var _, lost, gained := UndeterminedCutExchange(members, numKeep, s);
      TiedPair(members, s, lost, gained);
    }
  }

  lemma TiedPair(members: seq<PeerDistance>, s: Split, a: PeerDistance, b: PeerDistance)
    requires multiset(s.kept + s.gone) == multiset(members)
    requires a in s.kept && b in s.gone && a.distance == b.distance
    ensures exists i, j :: 0 <= i < j < |members| && members[i].distance == members[j].distance
  {
    assert a in multiset(s.kept) && b in multiset(s.gone);
    assert multiset(members) == multiset(s.kept) + multiset(s.gone);
    if a == b {
      assert multiset(members)[a] >= 2;
      if NoRepeats(members) { OccursOnce(members, a); }
    } else {
      assert a in multiset(members) && b in multiset(members);
      var i :| 0 <= i < |members| && members[i] == a;
      var j :| 0 <= j < |members| && members[j] == b;
      if j < i { assert members[j].distance == members[i].distance; }
    }
  }

  // ---------------------------------------------------------------- whole verdicts

  ghost predicate AllDetermined(k: Knowledge, pids: seq<PeerID>) {
    forall c | c in LISTS ::
      Determined(Members(k, c, pids), Keeps(k.connections.quotas, Counts(k, pids)).Of(c))
  }

  lemma CountsPermuted(k: Knowledge, pids: seq<PeerID>, pids': seq<PeerID>)
    requires multiset(pids) == multiset(pids')
    ensures Counts(k, pids) == Counts(k, pids')
  {
    hide Members;
    forall c ensures |Members(k, c, pids)| == |Members(k, c, pids')| {
      MembersPermuted(k, c, pids, pids');
      assert |multiset(Members(k, c, pids))| == |multiset(Members(k, c, pids'))|;
    }
  }

  lemma GoneIdsPermuted(k: Knowledge, c: Class, pids: seq<PeerID>, s: Split, s': Split)
    requires multiset(s.gone) == multiset(s'.gone)
    requires forall m | m in s.gone :: m == Measured(k, m.id)
    ensures multiset(Ids(s.gone)) == multiset(Ids(s'.gone))
  {
    hide Measured;
    forall m | m in s'.gone ensures m == Measured(k, m.id) {
      assert m in multiset(s'.gone);
      assert m in multiset(s.gone);
    }
    forall p ensures multiset(Ids(s.gone))[p] == multiset(Ids(s'.gone))[p] {
      IdsCount(k, s.gone, p);
      IdsCount(k, s'.gone, p);
    }
  }

  /** Where no cut falls between peers at equal distance, the evicted peers do not depend on the
      order of the list, nor on what the sort does with ties. */
  lemma VerdictUnique(k: Knowledge, pids: seq<PeerID>, evicted: seq<PeerID>, pids': seq<PeerID>, evicted': seq<PeerID>)
    requires multiset(pids) == multiset(pids') && AllDetermined(k, pids)
    requires Verdict(k, pids, evicted) && Verdict(k, pids', evicted')
    ensures multiset(evicted) == multiset(evicted')
  {
    hide Members, Cut, Keeps, Ids, ClassOf, Measured, Counts, Determined;
    var parts: Parts :| IsCut(k, pids, parts) && evicted == Gone(parts);
    var parts': Parts :| IsCut(k, pids', parts') && evicted' == Gone(parts');
    CountsPermuted(k, pids, pids');
    forall c | c in LISTS ensures multiset(Ids(parts[c].gone)) == multiset(Ids(parts'[c].gone)) {
      MembersPermuted(k, c, pids, pids');
      DeterminedCutUnique(Members(k, c, pids), Members(k, c, pids'),
                          Keeps(k.connections.quotas, Counts(k, pids)).Of(c), parts[c], parts'[c]);
      forall m | m in parts[c].gone ensures m == Measured(k, m.id) { GoneIsMember(k, pids, parts, c, m); }
      GoneIdsPermuted(k, c, pids, parts[c], parts'[c]);
    }
    assert IntraValidators in LISTS && CrossValidators in LISTS && IntraObservers in LISTS;
    assert CrossObservers in LISTS && Seeders in LISTS && Unknown in LISTS;
  }

  lemma GoneHas(parts: Parts, c: Class, m: PeerDistance)
    requires parts.Keys == LISTS && c in LISTS && m in parts[c].gone
    ensures m.id in Gone(parts)
  {
    var i :| 0 <= i < |parts[c].gone| && parts[c].gone[i] == m;
    assert Ids(parts[c].gone)[i] == m.id;
  }

  /** A tie across a cut leaves the verdict open: another verdict evicts a peer this one keeps. */
  lemma TieLeavesVerdictOpen(k: Knowledge, pids: seq<PeerID>, evicted: seq<PeerID>)
    returns (other: seq<PeerID>, p: PeerID)
    requires NoRepeats(pids) && Verdict(k, pids, evicted) && !AllDetermined(k, pids)
    ensures Verdict(k, pids, other) && p in other && p !in evicted
  {
    hide Members, Cut, Keeps, Ids, ClassOf, Measured, Counts, Determined, Gone;
    var parts: Parts :| IsCut(k, pids, parts) && evicted == Gone(parts);
    var keeps := Keeps(k.connections.quotas, Counts(k, pids));
    var c :| c in LISTS && !Determined(Members(k, c, pids), keeps.Of(c));
    var s', lost, _ := UndeterminedCutExchange(Members(k, c, pids), keeps.Of(c), parts[c]);
    var parts' := parts[c := s'];
    other, p := Gone(parts'), lost.id;
    assert IsCut(k, pids, parts');
    GoneHas(parts', c, lost);
    if p in evicted {
      KeptAndGone(k, pids, parts, c, lost);
    }
  }

  /** In a list of distinct peers nobody is both kept and evicted. */
  lemma KeptAndGone(k: Knowledge, pids: seq<PeerID>, parts: Parts, c: Class, m: PeerDistance)
    requires NoRepeats(pids) && IsCut(k, pids, parts) && c in LISTS && m in parts[c].kept
    ensures m.id !in Gone(parts)
  {
    hide Members, Keeps, ClassOf, Measured, Counts, Gone, Ids;
    assert m in multiset(parts[c].kept + parts[c].gone);
    assert m in multiset(Members(k, c, pids));
    MembersHaveClass(k, c, pids, m);
    if m.id in Gone(parts) {
      var c' := EvictedFrom(parts, m.id);
      var m' :| m' in parts[c'].gone && m'.id == m.id;
      GoneIsMember(k, pids, parts, c', m');
      MembersCount(k, c, pids, m);
      OccursOnce(pids, m.id);
    }
  }

  /** For distinct peers: the verdict is the same in whatever order they are listed, and whatever
      the sort does with ties, if and only if no cut falls between peers at equal distance. */
  lemma VerdictUniqueIff(k: Knowledge, pids: seq<PeerID>, evicted: seq<PeerID>)
    requires NoRepeats(pids) && Verdict(k, pids, evicted)
    ensures (forall pids', evicted' | multiset(pids') == multiset(pids) && Verdict(k, pids', evicted') ::
               multiset(evicted') == multiset(evicted))
       <==> AllDetermined(k, pids)
  {
    hide Verdict, AllDetermined, NoRepeats;
    if AllDetermined(k, pids) {
      forall pids', evicted' | multiset(pids') == multiset(pids) && Verdict(k, pids', evicted')
        ensures multiset(evicted') == multiset(evicted)
      {
        VerdictUnique(k, pids, evicted, pids', evicted');
      }
    } else {
      var other, p := TieLeavesVerdictOpen(k, pids, evicted);
      assert p in multiset(other) && p !in multiset(evicted);
    }
  }
}
