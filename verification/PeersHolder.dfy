/** The holder of preferred peers (p2p/peersHolder/peersHolder.go): four linked maps. */
module PeersHolders {
  import opened Basics
  import opened Bits

  type PeerID = string

  /** core.AllShardId, the shard of a peer whose shard is not known yet. */
  const ALL_SHARD_ID: uint32 := 0xFFFF_FFF0

  datatype PeerRecord = PeerRecord(pid: PeerID, shardID: uint32)

  datatype PeerIDData = PeerIDData(connectionAddress: string, shardID: uint32, index: nat)

  /** The preferred addresses, and the maps: the peers seen under each address, the address under
      which a peer waits for its shard, the preferred peers of each shard, and for each preferred
      peer its address, its shard and its place among the peers of that shard. */
  datatype Holder = Holder(
    preferred: seq<string>,
    records: map<string, seq<PeerRecord>>,
    waiting: map<PeerID, string>,
    perShard: map<uint32, seq<PeerID>>,
    data: map<PeerID, PeerIDData>)

  /** The first preferred address that the connection address contains, or nothing. */
  function KnownConnection(preferred: seq<string>, connection: string): (r: string)
    ensures r != "" ==> r in preferred && Contains(connection, r)
  {
    if preferred == [] then ""
    else if Contains(connection, preferred[0]) then preferred[0]
    else KnownConnection(preferred[1..], connection)
  }

  /** The answer is the first preferred address the connection contains, or nothing if it contains
      none. */
  lemma {:induction false} FirstContained(preferred: seq<string>, connection: string)
    ensures (exists i :: 0 <= i < |preferred| && Contains(connection, preferred[i])
                      && (forall j :: 0 <= j < i ==> !Contains(connection, preferred[j]))
                      && KnownConnection(preferred, connection) == preferred[i])
         || ((forall i :: 0 <= i < |preferred| ==> !Contains(connection, preferred[i])) && KnownConnection(preferred, connection) == "")
    decreases |preferred|
  {
    hide Contains;
    if preferred != [] && !Contains(connection, preferred[0]) {
      var rest := preferred[1..];
      FirstContained(rest, connection);
      if i :| 0 <= i < |rest| && Contains(connection, rest[i]) && (forall j :: 0 <= j < i ==> !Contains(connection, rest[j]))
              && KnownConnection(rest, connection) == rest[i] {
        assert preferred[i + 1] == rest[i];
        forall j | 0 <= j < i + 1 ensures !Contains(connection, preferred[j]) {
          if j > 0 { assert preferred[j] == rest[j - 1]; }
        }
        assert Contains(connection, preferred[i + 1]);
      } else {
        forall i | 0 <= i < |preferred| ensures !Contains(connection, preferred[i]) {
          if i > 0 { assert preferred[i] == rest[i - 1]; }
        }
      }
    }
  }

  /** A missing entry and a nil slice are both no records. */
  function RecordsAt(records: map<string, seq<PeerRecord>>, address: string): seq<PeerRecord> {
    if address in records then records[address] else []
  }

  /** The place of a peer among the records, or their number if it has none. */
  function PlaceOf(list: seq<PeerRecord>, p: PeerID): (i: nat)
    ensures i <= |list| && forall j :: 0 <= j < i ==> list[j].pid != p
    ensures i < |list| ==> list[i].pid == p
  {
    if list == [] || list[0].pid == p then 0 else PlaceOf(list[1..], p) + 1
  }

  predicate HasRecord(records: map<string, seq<PeerRecord>>, address: string, p: PeerID) {
    exists i :: 0 <= i < |RecordsAt(records, address)| && RecordsAt(records, address)[i].pid == p
  }

  predicate HasRecordOf(records: map<string, seq<PeerRecord>>, address: string, r: PeerRecord) {
    r in RecordsAt(records, address)
  }

  // ---------------------------------------------------------------- operations

  function WithConnectionAddress(h: Holder, p: PeerID, connection: string): Holder {
    var known := KnownConnection(h.preferred, connection);
    var list := RecordsAt(h.records, known);
    if known == "" || PlaceOf(list, p) < |list| then h
    else h.(waiting := h.waiting[p := known], records := h.records[known := list + [PeerRecord(p, ALL_SHARD_ID)]])
  }

  function Shard(h: Holder, shard: uint32): seq<PeerID> {
    if shard in h.perShard then h.perShard[shard] else []
  }

  function WithShardID(h: Holder, p: PeerID, shard: uint32): Holder {
    if p !in h.waiting then h
    else
      var known := h.waiting[p];
      var list := RecordsAt(h.records, known);
      var i := PlaceOf(list, p);
      if i == |list| then h
      else h.(records := h.records[known := list[i := PeerRecord(p, shard)]],
              perShard := h.perShard[shard := Shard(h, shard) + [p]],
              data := h.data[p := PeerIDData(known, shard, |Shard(h, shard)|)],
              waiting := h.waiting - {p})
  }

  /** The slice expression of the removal panics when the stored place lies beyond the shard's
      peers; nothing has been changed by then. */
  predicate RemovePanics(h: Holder, p: PeerID) {
    p in h.data && h.data[p].index >= |Shard(h, h.data[p].shardID)|
  }

  function Removed(h: Holder, p: PeerID): Holder {
    if p !in h.data || RemovePanics(h, p) then h
    else
      var d := h.data[p];
      var shard := Without(Shard(h, d.shardID), d.index);
      var list := RecordsAt(h.records, d.connectionAddress);
      var i := PlaceOf(list, p);
      h.(perShard := if shard == [] then h.perShard - {d.shardID} else h.perShard[d.shardID := shard],
         data := h.data - {p},
         records := if i == |list| then h.records else h.records[d.connectionAddress := Without(list, i)],
         waiting := h.waiting - {p})
  }

  function Cleared(h: Holder): Holder {
    Holder(h.preferred, map[], map[], map[], map[])
  }

  class PeersHolder {
    const preferredConnAddresses: seq<string>
    var connAddrToPeersInfo: map<string, seq<PeerRecord>>
    var tempPeerIDsWaitingForShard: map<PeerID, string>
    var peerIDsPerShard: map<uint32, seq<PeerID>>
    var peerIDs: map<PeerID, PeerIDData>

    function View(): Holder
      reads this
    {
      Holder(preferredConnAddresses, connAddrToPeersInfo, tempPeerIDsWaitingForShard, peerIDsPerShard, peerIDs)
    }

    constructor (preferred: seq<string>)
      ensures View() == NewHolder(preferred)
      ensures Linked(View()) && Located(View())
    {
      preferredConnAddresses := preferred;
      connAddrToPeersInfo := map a | a in preferred :: [];
      tempPeerIDsWaitingForShard, peerIDsPerShard, peerIDs := map[], map[], map[];
    }

    method PutConnectionAddress(p: PeerID, connection: string)
      requires Linked(View())
      modifies this
      ensures View() == WithConnectionAddress(old(View()), p, connection)
      ensures Linked(View()) && (old(Located(View())) ==> Located(View()))
    {
      hide Linked, Located, PlaceOf, KnownConnection, Contains;
      PutConnectionAddressKeeps(View(), p, connection);
      var known := GetKnownConnection(connection);
      if |known| == 0 {
        return;
      }
      var peersInfo := RecordsAt(connAddrToPeersInfo, known);
      var i := GetPeerInfoForPeerID(p, peersInfo);
      if i == |peersInfo| {
        tempPeerIDsWaitingForShard := tempPeerIDsWaitingForShard[p := known];
        connAddrToPeersInfo := connAddrToPeersInfo[known := peersInfo + [PeerRecord(p, ALL_SHARD_ID)]];
      }
    }

    method GetKnownConnection(connection: string) returns (known: string)
      ensures known == KnownConnection(preferredConnAddresses, connection)
    {
      var i := 0;
      while i < |preferredConnAddresses|
        invariant 0 <= i <= |preferredConnAddresses|
        invariant KnownConnection(preferredConnAddresses[i..], connection) == KnownConnection(preferredConnAddresses, connection)
      {
        if Contains(connection, preferredConnAddresses[i]) {
          return preferredConnAddresses[i];
        }
        assert preferredConnAddresses[i..][1..] == preferredConnAddresses[i + 1..];
        i := i + 1;
      }
      return "";
    }

    method GetPeerInfoForPeerID(p: PeerID, peersInfo: seq<PeerRecord>) returns (i: nat)
      ensures i == PlaceOf(peersInfo, p)
    {
      i := 0;
      while i < |peersInfo|
        invariant 0 <= i <= |peersInfo| && forall j :: 0 <= j < i ==> peersInfo[j].pid != p
      {
        if peersInfo[i].pid == p {
          return;
        }
        i := i + 1;
      }
    }

    method PutShardID(p: PeerID, shard: uint32)
      requires Linked(View())
      modifies this
      ensures View() == WithShardID(old(View()), p, shard)
      ensures Linked(View()) && (old(Located(View())) ==> Located(View()))
    {
      hide Linked, Located, PlaceOf;
      PutShardIDKeeps(View(), p, shard);
      if p !in tempPeerIDsWaitingForShard {
        return;
      }
      var known := tempPeerIDsWaitingForShard[p];
      var peersInfo := RecordsAt(connAddrToPeersInfo, known);
      var i := GetPeerInfoForPeerID(p, peersInfo);
      if i == |peersInfo| {
        return;
      }
      connAddrToPeersInfo := connAddrToPeersInfo[known := peersInfo[i := PeerRecord(p, shard)]];
      var peers := if shard in peerIDsPerShard then peerIDsPerShard[shard] else [];
      peerIDsPerShard := peerIDsPerShard[shard := peers + [p]];
      peerIDs := peerIDs[p := PeerIDData(known, shard, |peerIDsPerShard[shard]| - 1)];
      tempPeerIDsWaitingForShard := tempPeerIDsWaitingForShard - {p};
    }

    method HasPeer(p: PeerID) returns (found: bool)
      ensures found <==> p in View().data
    {
      return p in peerIDs;
    }

    method Remove(p: PeerID) returns (panics: bool)
      requires Linked(View())
      modifies this
      ensures panics <==> RemovePanics(old(View()), p)
      ensures View() == Removed(old(View()), p)
      ensures Linked(View())
      ensures old(Located(View())) ==> !panics && (Located(View()) <==> TakesLast(old(View()), p))
    {
      hide Linked, Located, TakesLast, PlaceOf;
      RemoveKeepsLinked(View(), p);
      if Located(View()) { RemoveKeepsLocatedIff(View(), p); }
      if p !in peerIDs {
        return false;
      }
      var pidData := peerIDs[p];
      var peers := if pidData.shardID in peerIDsPerShard then peerIDsPerShard[pidData.shardID] else [];
      if pidData.index >= |peers| {
        return true;
      }
      peers := peers[..pidData.index] + peers[pidData.index + 1..];
      if |peers| == 0 {
        peerIDsPerShard := peerIDsPerShard - {pidData.shardID};
      } else {
        peerIDsPerShard := peerIDsPerShard[pidData.shardID := peers];
      }
      peerIDs := peerIDs - {p};
      var peersInfo := RecordsAt(connAddrToPeersInfo, pidData.connectionAddress);
      var i := GetPeerInfoForPeerID(p, peersInfo);
      if i < |peersInfo| {
        connAddrToPeersInfo := connAddrToPeersInfo[pidData.connectionAddress := peersInfo[..i] + peersInfo[i + 1..]];
      }
      tempPeerIDsWaitingForShard := tempPeerIDsWaitingForShard - {p};
      return false;
    }

    method Clear()
      modifies this
      ensures View() == Cleared(old(View()))
      ensures connAddrToPeersInfo == map[] && tempPeerIDsWaitingForShard == map[] && peerIDsPerShard == map[] && peerIDs == map[]
      ensures Linked(View()) && Located(View())
    {
      connAddrToPeersInfo, tempPeerIDsWaitingForShard, peerIDsPerShard, peerIDs := map[], map[], map[], map[];
    }
  }

  /** Construction fails exactly if an address is neither an IP address nor a peer ID. */
  method NewPeersHolder(preferred: seq<string>, valid: string -> bool) returns (holder: Option<PeersHolder>)
    ensures holder.Some? <==> forall a | a in preferred :: valid(a)
    ensures holder.Some? ==> fresh(holder.value) && holder.value.View() == NewHolder(preferred)
                             && Linked(holder.value.View()) && Located(holder.value.View())
  {
    for i := 0 to |preferred|
      invariant forall a | a in preferred[..i] :: valid(a)
    {
      if !valid(preferred[i]) {
        return None;
      }
      assert preferred[..i + 1] == preferred[..i] + [preferred[i]];
    }
    assert preferred[..|preferred|] == preferred;
    var created := new PeersHolder(preferred);
    return Some(created);
  }

  // ---------------------------------------------------------------- what every call keeps

  function Pids(list: seq<PeerRecord>): (r: seq<PeerID>)
    ensures |r| == |list|
  {
    seq(|list|, i requires 0 <= i < |list| => list[i].pid)
  }

  predicate Once(list: seq<PeerRecord>) {
    NoRepeats(Pids(list))
  }

  lemma OnceMeans(list: seq<PeerRecord>)
    ensures Once(list) <==> forall i, j :: 0 <= i < j < |list| ==> list[i].pid != list[j].pid
  {
    assert forall i :: 0 <= i < |list| ==> Pids(list)[i] == list[i].pid;
  }

  /** No peer is recorded twice under one address; a waiting peer has a record under the address
      it waits for; a preferred peer has a record, with its shard, under its address, and does
      not wait for that address. */
  predicate Linked(h: Holder) {
    RecordedOnce(h) && WaitingRecorded(h) && PreferredRecorded(h) && WaitsElsewhere(h)
  }

  predicate RecordedOnce(h: Holder) {
    forall a | a in h.records :: Once(h.records[a])
  }

  predicate WaitingRecorded(h: Holder) {
    forall p | p in h.waiting :: HasRecord(h.records, h.waiting[p], p)
  }

  predicate PreferredRecorded(h: Holder) {
    forall p | p in h.data :: HasRecordOf(h.records, h.data[p].connectionAddress, PeerRecord(p, h.data[p].shardID))
  }

  predicate WaitsElsewhere(h: Holder) {
    forall p | p in h.data && p in h.waiting :: h.waiting[p] != h.data[p].connectionAddress
  }

  /** The stored shard and place of a preferred peer locate it, at its last mention there. */
  predicate Located(h: Holder) {
    forall p | p in h.data :: LocatesAt(h, p)
  }

  predicate LocatesAt(h: Holder, p: PeerID)
    requires p in h.data
  {
    var d := h.data[p];
    && d.shardID in h.perShard && d.index < |h.perShard[d.shardID]|
    && h.perShard[d.shardID][d.index] == p && p !in h.perShard[d.shardID][d.index + 1..]
  }

  /** No other preferred peer of the shard has a later place. */
  predicate TakesLast(h: Holder, p: PeerID) {
    p in h.data ==>
      forall q | q in h.data && q != p && h.data[q].shardID == h.data[p].shardID :: h.data[q].index < h.data[p].index
  }

  lemma PutConnectionAddressKeeps(h: Holder, p: PeerID, connection: string)
    requires Linked(h)
    ensures Linked(WithConnectionAddress(h, p, connection))
    ensures Located(h) ==> Located(WithConnectionAddress(h, p, connection))
    ensures WithConnectionAddress(h, p, connection).data == h.data
  {
    hide Contains, KnownConnection, HasRecord, HasRecordOf, LocatesAt;
    var h' := WithConnectionAddress(h, p, connection);
    var known := KnownConnection(h.preferred, connection);
    var list := RecordsAt(h.records, known);
    if h' != h {
      var list' := list + [PeerRecord(p, ALL_SHARD_ID)];
      assert h'.records == h.records[known := list'];
      assert Once(list);
      OnceMeans(list);
      OnceMeans(list');
      RecordsKept(h.records, known, list', p);
      assert HasRecord(h'.records, known, p) by { assert list'[|list|].pid == p; HasRecordAt(h'.records, known, p, |list|); }
      assert known != "" && p in h.data ==> h.data[p].connectionAddress != known by {
        if p in h.data && h.data[p].connectionAddress == known {
          NotRecorded(h.records, known, PeerRecord(p, h.data[p].shardID));
        }
      }
    }
    assert forall q | q in h'.data && LocatesAt(h, q) :: LocatesAt(h', q) by { SameShardsLocate(h, h'); }
  }

  lemma SameShardsLocate(h: Holder, h': Holder)
    requires h'.perShard == h.perShard && h'.data == h.data
    ensures forall q | q in h'.data && LocatesAt(h, q) :: LocatesAt(h', q)
  {
  }

  lemma HasRecordAt(records: map<string, seq<PeerRecord>>, address: string, p: PeerID, i: nat)
    requires i < |RecordsAt(records, address)| && RecordsAt(records, address)[i].pid == p
    ensures HasRecord(records, address, p)
  {
  }

  lemma NotRecorded(records: map<string, seq<PeerRecord>>, address: string, r: PeerRecord)
    requires PlaceOf(RecordsAt(records, address), r.pid) == |RecordsAt(records, address)|
    ensures !HasRecordOf(records, address, r)
  {
  }

  predicate SameButFor(list: seq<PeerRecord>, list': seq<PeerRecord>, p: PeerID) {
    forall r | r in list && r.pid != p :: r in list'
  }

  /** Changing only the records of one peer leaves the records of every other peer. */
  lemma RecordsKept(records: map<string, seq<PeerRecord>>, a: string, list: seq<PeerRecord>, p: PeerID)
    requires SameButFor(RecordsAt(records, a), list, p)
    ensures forall b, q | q != p && HasRecord(records, b, q) :: HasRecord(records[a := list], b, q)
    ensures forall b, r: PeerRecord | (r.pid != p || b != a) && HasRecordOf(records, b, r) :: HasRecordOf(records[a := list], b, r)
    ensures forall b, q | b != a && HasRecord(records, b, q) :: HasRecord(records[a := list], b, q)
  {
    forall b, q | (q != p || b != a) && HasRecord(records, b, q) ensures HasRecord(records[a := list], b, q) {
      var j :| 0 <= j < |RecordsAt(records, b)| && RecordsAt(records, b)[j].pid == q;
      assert RecordsAt(records, b)[j] in RecordsAt(records[a := list], b);
    }
  }

  lemma PutShardIDRecords(h: Holder, p: PeerID, shard: uint32)
    requires Linked(h) && p in h.waiting
    ensures Linked(WithShardID(h, p, shard))
    ensures WithShardID(h, p, shard).data ==
            h.data[p := PeerIDData(h.waiting[p], shard, |Shard(h, shard)|)]
    ensures WithShardID(h, p, shard).perShard == h.perShard[shard := Shard(h, shard) + [p]]
  {
    hide HasRecord, HasRecordOf, PlaceOf;
    var known := h.waiting[p];
    var list := RecordsAt(h.records, known);
    var i := PlaceOf(list, p);
    assert i < |list| && list[i].pid == p by { PlaceFound(h.records, known, p); }
    var list' := list[i := PeerRecord(p, shard)];
    var h' := WithShardID(h, p, shard);
    assert h'.records == h.records[known := list'];
    assert Once(list);
    OnceMeans(list);
    OnceMeans(list');
    UpdateKeeps(list, i, PeerRecord(p, shard));
    RecordsKept(h.records, known, list', p);
    assert HasRecordOf(h'.records, known, PeerRecord(p, shard)) by { assert list'[i] == PeerRecord(p, shard); IsRecord(h'.records, known, i); }
  }

  lemma IsRecord(records: map<string, seq<PeerRecord>>, address: string, i: nat)
    requires i < |RecordsAt(records, address)|
    ensures HasRecordOf(records, address, RecordsAt(records, address)[i])
  {
  }

  lemma PlaceFound(records: map<string, seq<PeerRecord>>, address: string, p: PeerID)
    requires HasRecord(records, address, p)
    ensures PlaceOf(RecordsAt(records, address), p) < |RecordsAt(records, address)|
    ensures RecordsAt(records, address)[PlaceOf(RecordsAt(records, address), p)].pid == p
  {
  }

  lemma UpdateKeeps(list: seq<PeerRecord>, i: nat, r: PeerRecord)
    requires i < |list| && list[i].pid == r.pid
    ensures SameButFor(list, list[i := r], r.pid)
  {
    forall x | x in list && x.pid != r.pid ensures x in list[i := r] {
      var j :| 0 <= j < |list| && list[j] == x;
      assert list[i := r][j] == x;
    }
  }

  /** The peer given a shard is the last of that shard, at the place stored for it. */
  lemma PutShardIDKeeps(h: Holder, p: PeerID, shard: uint32)
    requires Linked(h)
    ensures Linked(WithShardID(h, p, shard))
    ensures Located(h) ==> Located(WithShardID(h, p, shard))
    ensures p in WithShardID(h, p, shard).data <==> p in h.data || p in h.waiting
  {
    hide Linked, WithShardID;
    var h' := WithShardID(h, p, shard);
    if p in h.waiting {
      PutShardIDRecords(h, p, shard);
      if Located(h) {
        forall q | q in h'.data ensures LocatesAt(h', q) {
          if q != p {
            assert LocatesAt(h, q);
            if h.data[q].shardID == shard { AppendLocates(h.perShard[shard], h.data[q].index, p, q); }
          }
        }
      }
    } else {
      assert h' == h by { NotWaiting(h, p, shard); }
    }
  }

  lemma NotWaiting(h: Holder, p: PeerID, shard: uint32)
    requires p !in h.waiting
    ensures WithShardID(h, p, shard) == h
  {
  }

  lemma AppendLocates(list: seq<PeerID>, i: nat, p: PeerID, q: PeerID)
    requires i < |list| && list[i] == q && q !in list[i + 1..] && p != q
    ensures (list + [p])[i] == q && q !in (list + [p])[i + 1..]
  {
    assert (list + [p])[i + 1..] == list[i + 1..] + [p];
  }

  lemma WithoutKeeps(list: seq<PeerRecord>, i: nat)
    requires i < |list| && Once(list)
    ensures SameButFor(list, Without(list, i), list[i].pid) && Once(Without(list, i))
  {
    OnceMeans(list);
    OnceMeans(Without(list, i));
    forall x | x in list && x.pid != list[i].pid ensures x in Without(list, i) {
      var j :| 0 <= j < |list| && list[j] == x;
      assert Without(list, i)[if j < i then j else j - 1] == x;
    }
  }

  lemma RemoveKeepsLinked(h: Holder, p: PeerID)
    requires Linked(h)
    ensures Linked(Removed(h, p))
    ensures !RemovePanics(h, p) ==> p !in Removed(h, p).data
    ensures p in h.waiting && !RemovePanics(h, p) ==> (p in Removed(h, p).waiting <==> p !in h.data)
  {
    hide HasRecord, HasRecordOf, PlaceOf, Without, RecordsAt, Once;
    var h' := Removed(h, p);
    if p in h.data && !RemovePanics(h, p) {
      var a := h.data[p].connectionAddress;
      var list := RecordsAt(h.records, a);
      var i := PlaceOf(list, p);
      assert i < |list| && list[i].pid == p && Once(list) by { RecordFound(h, a, PeerRecord(p, h.data[p].shardID)); }
      assert h'.records == h.records[a := Without(list, i)];
      WithoutKeeps(list, i);
      RecordsKept(h.records, a, Without(list, i), p);
    }
  }

  /** A removed peer that is seen again and given a shard becomes preferred again exactly if it
      comes under a preferred address without a record of it: the address it was removed from,
      or one it was never seen under. A record left at another address shuts it out there. */
  lemma ReturnsIff(h: Holder, p: PeerID, connection: string, shard: uint32)
    requires Linked(h) && p in h.data && !RemovePanics(h, p)
    ensures var known := KnownConnection(h.preferred, connection);
            (p in WithShardID(WithConnectionAddress(Removed(h, p), p, connection), p, shard).data <==>
               known != "" && (known == h.data[p].connectionAddress || !HasRecord(h.records, known, p)))
  {
    hide Linked, KnownConnection, Contains, WithShardID, PlaceOf, Without, HasRecord;
    var known, h' := KnownConnection(h.preferred, connection), Removed(h, p);
    RemoveKeepsLinked(h, p);
    PutConnectionAddressKeeps(h', p, connection);
    PutShardIDKeeps(WithConnectionAddress(h', p, connection), p, shard);
    var a := h.data[p].connectionAddress;
    assert RecordsAt(h'.records, a) == Without(RecordsAt(h.records, a), PlaceOf(RecordsAt(h.records, a), p))
        && PlaceOf(RecordsAt(h'.records, a), p) == |RecordsAt(h'.records, a)| by { RemovedFrom(h, p); }
    Placed(h.records, known, p);
    assert p !in h'.waiting;
  }

  lemma Placed(records: map<string, seq<PeerRecord>>, address: string, p: PeerID)
    ensures HasRecord(records, address, p) <==> PlaceOf(RecordsAt(records, address), p) < |RecordsAt(records, address)|
  {
  }

  /** No record of the peer is left at the address it was preferred under. */
  lemma RemovedFrom(h: Holder, p: PeerID)
    requires Linked(h) && p in h.data && !RemovePanics(h, p)
    ensures var a, h' := h.data[p].connectionAddress, Removed(h, p);
            && PlaceOf(RecordsAt(h.records, a), p) < |RecordsAt(h.records, a)|
            && RecordsAt(h'.records, a) == Without(RecordsAt(h.records, a), PlaceOf(RecordsAt(h.records, a), p))
            && PlaceOf(RecordsAt(h'.records, a), p) == |RecordsAt(h'.records, a)|
  {
    hide HasRecord, HasRecordOf, PlaceOf, Once;
    var a := h.data[p].connectionAddress;
    RecordFound(h, a, PeerRecord(p, h.data[p].shardID));
    var list := RecordsAt(h.records, a);
    OnceMeans(list);
    var left := Without(list, PlaceOf(list, p));
    assert forall j :: 0 <= j < |left| ==> left[j] == list[if j < PlaceOf(list, p) then j else j + 1];
    assert RecordsAt(Removed(h, p).records, a) == left;
  }

  lemma RecordFound(h: Holder, a: string, r: PeerRecord)
    requires HasRecordOf(h.records, a, r) && RecordedOnce(h)
    ensures PlaceOf(RecordsAt(h.records, a), r.pid) < |RecordsAt(h.records, a)|
    ensures RecordsAt(h.records, a)[PlaceOf(RecordsAt(h.records, a), r.pid)].pid == r.pid
    ensures Once(RecordsAt(h.records, a))
  {
  }

  /** What seeing a peer does: under a preferred address that holds no record of it, the peer gets
      one there, without a shard yet, and waits for that address; otherwise nothing. */
  lemma PutConnectionAddressMeans(h: Holder, p: PeerID, connection: string)
    ensures var known, h' := KnownConnection(h.preferred, connection), WithConnectionAddress(h, p, connection);
            if known == "" || HasRecord(h.records, known, p) then h' == h
            else h' == h.(waiting := h.waiting[p := known],
                          records := h.records[known := RecordsAt(h.records, known) + [PeerRecord(p, 0xFFFF_FFF0)]])
  {
    hide KnownConnection, HasRecord;
    Placed(h.records, KnownConnection(h.preferred, connection), p);
  }

  /** What learning a shard does to a waiting peer: it comes last in the shard, is preferred under
      the address it waited for, and its record there has the shard. To others it does nothing. */
  lemma PutShardIDMeans(h: Holder, p: PeerID, shard: uint32)
    requires Linked(h)
    ensures var h' := WithShardID(h, p, shard);
            if p !in h.waiting then h' == h
            else
              var known := h.waiting[p];
              && h'.data == h.data[p := PeerIDData(known, shard, |Shard(h, shard)|)]
              && h'.perShard == h.perShard[shard := Shard(h, shard) + [p]]
              && h'.waiting == h.waiting - {p} && h'.preferred == h.preferred
              && HasRecordOf(h'.records, known, PeerRecord(p, shard))
              && (forall r: PeerRecord | r.pid != p :: HasRecordOf(h.records, known, r) ==> HasRecordOf(h'.records, known, r))
              && (forall a | a != known :: RecordsAt(h'.records, a) == RecordsAt(h.records, a))
              && |RecordsAt(h'.records, known)| == |RecordsAt(h.records, known)|
  {
    hide HasRecord, PlaceOf;
    if p in h.waiting {
      var known := h.waiting[p];
      var list := RecordsAt(h.records, known);
      PlaceFound(h.records, known, p);
      var i := PlaceOf(list, p);
      UpdateKeeps(list, i, PeerRecord(p, shard));
      assert list[i := PeerRecord(p, shard)][i] == PeerRecord(p, shard);
    }
  }

  /** What a removal does to a preferred peer: it leaves its shard, by its place there, the map of
      preferred peers, the waiting ones, and the records of its address. */
  lemma RemoveMeans(h: Holder, p: PeerID)
    requires Linked(h)
    ensures p !in h.data || RemovePanics(h, p) ==> Removed(h, p) == h
    ensures p in h.data && !RemovePanics(h, p) ==>
              var d, h' := h.data[p], Removed(h, p);
              var shard := Shard(h, d.shardID);
              && h'.data == h.data - {p} && h'.waiting == h.waiting - {p} && h'.preferred == h.preferred
              && Shard(h', d.shardID) == shard[..d.index] + shard[d.index + 1..]
              && (d.shardID in h'.perShard <==> |shard| > 1)
              && (forall s: uint32 | s != d.shardID :: Shard(h', s) == Shard(h, s))
              && PlaceOf(RecordsAt(h'.records, d.connectionAddress), p) == |RecordsAt(h'.records, d.connectionAddress)|
              && (forall a | a != d.connectionAddress :: RecordsAt(h'.records, a) == RecordsAt(h.records, a))
              && |RecordsAt(h'.records, d.connectionAddress)| == |RecordsAt(h.records, d.connectionAddress)| - 1
  {
    hide HasRecord, HasRecordOf, PlaceOf, Linked;
    if p in h.data && !RemovePanics(h, p) {
      RemovedFrom(h, p);
    }
  }

  /** While the stored places locate the peers, a removal does not panic, and the places still
      locate the peers afterwards exactly when the removed peer was the last one of its shard. */
  lemma RemoveKeepsLocatedIff(h: Holder, p: PeerID)
    requires Located(h)
    ensures !RemovePanics(h, p)
    ensures Located(Removed(h, p)) <==> TakesLast(h, p)
  {
    if p in h.data {
      var d := h.data[p];
      var list := h.perShard[d.shardID];
      var h' := Removed(h, p);
      var list' := Without(list, d.index);
      if TakesLast(h, p) {
        forall q | q in h'.data ensures LocatesAt(h', q) {
          assert LocatesAt(h, q);
          if h.data[q].shardID == d.shardID { WithoutLocates(list, h.data[q].index, d.index, q); }
        }
      } else {
        var q :| q in h.data && q != p && h.data[q].shardID == d.shardID && h.data[q].index >= d.index;
        assert LocatesAt(h, p) && LocatesAt(h, q);
        WithoutMisplaces(list, h.data[q].index, d.index, q);
        assert !LocatesAt(h', q);
      }
    }
  }

  lemma WithoutLocates(list: seq<PeerID>, i: nat, k: nat, q: PeerID)
    requires i < k < |list| && list[i] == q && q !in list[i + 1..]
    ensures Without(list, k)[i] == q && q !in Without(list, k)[i + 1..]
  {
    assert Without(list, k)[i + 1..] == list[i + 1..k] + list[k + 1..];
    assert list[i + 1..] == list[i + 1..k] + [list[k]] + list[k + 1..];
  }

  lemma WithoutMisplaces(list: seq<PeerID>, i: nat, k: nat, q: PeerID)
    requires k < i < |list| && q !in list[i + 1..]
    ensures i < |Without(list, k)| ==> Without(list, k)[i] != q
  {
    if i < |list| - 1 { assert Without(list, k)[i] == list[i + 1..][0]; }
  }

  // ---------------------------------------------------------------- runs

  datatype Step = Address(p: PeerID, connection: string) | ShardOf(p: PeerID, shard: uint32) | Removal(p: PeerID) | Clearing

  function After(h: Holder, step: Step): Holder {
    match step
    case Address(p, connection) => WithConnectionAddress(h, p, connection)
    case ShardOf(p, shard) => WithShardID(h, p, shard)
    case Removal(p) => Removed(h, p)
    case Clearing => Cleared(h)
  }

  function Run(h: Holder, steps: seq<Step>): Holder
    decreases |steps|
  {
    if steps == [] then h else Run(After(h, steps[0]), steps[1..])
  }

  function NewHolder(preferred: seq<string>): Holder {
    Holder(preferred, map a | a in preferred :: [], map[], map[], map[])
  }

  /** Every removal of the run takes the last peer of its shard. */
  predicate RemovesLast(h: Holder, steps: seq<Step>)
    decreases |steps|
  {
    steps == [] || ((steps[0].Removal? ==> TakesLast(h, steps[0].p)) && RemovesLast(After(h, steps[0]), steps[1..]))
  }

  lemma {:induction false} RunKeeps(h: Holder, steps: seq<Step>)
    requires Linked(h)
    ensures Linked(Run(h, steps))
    ensures Located(h) && RemovesLast(h, steps) ==> Located(Run(h, steps))
    decreases |steps|
  {
    hide Linked, Located, TakesLast, WithConnectionAddress, WithShardID, Removed;
    if steps != [] {
      match steps[0] {
        case Address(p, connection) => PutConnectionAddressKeeps(h, p, connection);
        case ShardOf(p, shard) => PutShardIDKeeps(h, p, shard);
        case Removal(p) => RemoveKeepsLinked(h, p); if Located(h) { RemoveKeepsLocatedIff(h, p); }
        case Clearing => EmptyKeeps(Cleared(h));
      }
      RunKeeps(After(h, steps[0]), steps[1..]);
    }
  }

  lemma EmptyKeeps(h: Holder)
    requires h.waiting == map[] && h.data == map[] && forall a | a in h.records :: h.records[a] == []
    ensures Linked(h) && Located(h)
  {
  }

  /** From a new holder, whatever the calls: the maps stay linked, and while every removal took the
      last peer of its shard the stored places locate every preferred peer, so no removal panics. */
  lemma NewHolderRuns(preferred: seq<string>, steps: seq<Step>)
    ensures Linked(Run(NewHolder(preferred), steps))
    ensures RemovesLast(NewHolder(preferred), steps) ==>
              Located(Run(NewHolder(preferred), steps)) && forall p :: !RemovePanics(Run(NewHolder(preferred), steps), p)
  {
    EmptyKeeps(NewHolder(preferred));
    RunKeeps(NewHolder(preferred), steps);
    var h := Run(NewHolder(preferred), steps);
    if Located(h) {
      forall p ensures !RemovePanics(h, p) {
        assert p in h.data ==> LocatesAt(h, p);
      }
    }
  }

  /** Any two peers of one shard behind one preferred address, removed in the order they came:
      the second removal slices beyond the shard's peers. */
  lemma RemovalInOrderPanics(preferred: seq<string>, connection: string, p: PeerID, q: PeerID, shard: uint32)
    requires KnownConnection(preferred, connection) != "" && p != q
    ensures RemovePanics(
              Run(NewHolder(preferred),
                  [Address(p, connection), Address(q, connection), ShardOf(p, shard), ShardOf(q, shard), Removal(p)]), q)
  {
    hide KnownConnection, Run, WithShardID, Removed;
    var known := KnownConnection(preferred, connection);
    var h0 := NewHolder(preferred);
    assert known in h0.records by { KnownIsPreferred(preferred, connection); }
    var h1 := After(h0, Address(p, connection));
    assert h1.records[known] == [PeerRecord(p, ALL_SHARD_ID)];
    var h2 := After(h1, Address(q, connection));
    assert h2.records[known] == [PeerRecord(p, ALL_SHARD_ID), PeerRecord(q, ALL_SHARD_ID)];
    ShardMatesPanic(h2, known, p, q, shard);
    RunFive(h0, Address(p, connection), Address(q, connection), ShardOf(p, shard), ShardOf(q, shard), Removal(p));
  }

  lemma ShardMatesPanic(h: Holder, known: string, p: PeerID, q: PeerID, shard: uint32)
    requires p in h.waiting && q in h.waiting && h.waiting[p] == h.waiting[q] == known && p != q
    requires known in h.records && h.records[known] == [PeerRecord(p, ALL_SHARD_ID), PeerRecord(q, ALL_SHARD_ID)]
    requires shard !in h.perShard
    ensures RemovePanics(Removed(WithShardID(WithShardID(h, p, shard), q, shard), p), q)
  {
    var h3 := WithShardID(h, p, shard);
    assert h3.records[known] == [PeerRecord(p, shard), PeerRecord(q, ALL_SHARD_ID)];
    assert PlaceOf(h3.records[known], q) == 1;
    var h4 := WithShardID(h3, q, shard);
    assert h4.perShard[shard] == [p, q] && h4.data[q].index == 1 && h4.data[p] == PeerIDData(known, shard, 0);
    FirstRemoved(h4, p, q, shard);
  }

  lemma FirstRemoved(h: Holder, p: PeerID, q: PeerID, shard: uint32)
    requires p in h.data && q in h.data && p != q
    requires h.data[p].shardID == h.data[q].shardID == shard && h.data[p].index == 0 && h.data[q].index == 1
    requires shard in h.perShard && |h.perShard[shard]| == 2
    ensures RemovePanics(Removed(h, p), q)
  {
  }

  lemma KnownIsPreferred(preferred: seq<string>, connection: string)
    requires KnownConnection(preferred, connection) != ""
    ensures KnownConnection(preferred, connection) in preferred
  {
  }

  lemma RunFive(h: Holder, a: Step, b: Step, c: Step, d: Step, e: Step)
    ensures Run(h, [a, b, c, d, e]) == After(After(After(After(After(h, a), b), c), d), e)
  {
    hide After;
    assert [a, b, c, d, e][1..] == [b, c, d, e] && [b, c, d, e][1..] == [c, d, e];
    assert [c, d, e][1..] == [d, e] && [d, e][1..] == [e] && [e][1..] == [];
    var h2 := After(After(h, a), b);
    assert Run(h, [a, b, c, d, e]) == Run(After(h, a), [b, c, d, e]) == Run(h2, [c, d, e]);
    assert Run(h2, [c, d, e]) == Run(After(h2, c), [d, e]);
    var h4 := After(After(h2, c), d);
    assert Run(After(h2, c), [d, e]) == Run(h4, [e]);
    assert Run(h4, [e]) == Run(After(h4, e), []);
  }
}
