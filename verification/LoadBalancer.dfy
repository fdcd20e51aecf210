/** The outgoing channel load balancer (p2p/libp2p/outgoingChannelLoadBalancer.go): its three
    parallel structures, and the forwarder goroutine behind every channel. */
module LoadBalancer {
  import opened Basics

  const DEFAULT_SEND_CHANNEL := "default send channel"

  /** A Go channel, by the order in which it was made. */
  type Chan = nat

  datatype ChannelError = CanNotBeReAdded | CanNotBeDeleted | DoesNotExist

  /** The names and channels of the load balancer, the index by name, the number of channels
      made so far and the closed ones among them. */
  datatype Balancer = Balancer(names: seq<string>, chans: seq<Chan>, namesChans: map<string, Chan>, made: nat, closed: set<Chan>)

  /** The three structures describe one bijection between names and open channels, in which the
      default channel comes first. */
  ghost predicate Coherent(b: Balancer) {
    && |b.names| == |b.chans| >= 1 && b.names[0] == DEFAULT_SEND_CHANNEL
    && NoRepeats(b.names) && NoRepeats(b.chans)
    && (forall n :: n in b.namesChans <==> n in b.names)
    && (forall i :: 0 <= i < |b.names| ==> b.namesChans[b.names[i]] == b.chans[i])
    && (forall i :: 0 <= i < |b.chans| ==> b.chans[i] < b.made && b.chans[i] !in b.closed)
    && (forall ch | ch in b.closed :: ch < b.made)
    && (forall ch :: 0 <= ch < b.made ==> ch in b.chans || ch in b.closed)
  }

  function Appended(b: Balancer, channel: string): Balancer {
    Balancer(b.names + [channel], b.chans + [b.made], b.namesChans[channel := b.made], b.made + 1, b.closed)
  }

  function Add(b: Balancer, channel: string): Balancer {
    if channel == DEFAULT_SEND_CHANNEL || channel in b.namesChans then b else Appended(b, channel)
  }

  function Position(names: seq<string>, channel: string): (i: nat)
    ensures i <= |names| && forall j :: 0 <= j < i ==> names[j] != channel
    ensures i < |names| ==> names[i] == channel
  {
    if names == [] || names[0] == channel then 0 else Position(names[1..], channel) + 1
  }

  function Remove(b: Balancer, channel: string): Balancer {
    var i := Position(b.names, channel);
    if channel == DEFAULT_SEND_CHANNEL || i == |b.names| || i >= |b.chans| then b
    else Balancer(Without(b.names, i), Without(b.chans, i), b.namesChans - {channel}, b.made, b.closed + {b.chans[i]})
  }

  /** `c` is `b` without the name, its channel taken from the same place and closed. */
  predicate TakenOut(b: Balancer, c: Balancer, channel: string) {
    && channel !in c.names && c.made == b.made
    && exists i :: 0 <= i < |b.names| && b.names[i] == channel && TakenOutAt(b, c, i)
  }

  predicate TakenOutAt(b: Balancer, c: Balancer, i: nat)
    requires i < |b.names|
  {
    i < |b.chans| && c.names == b.names[..i] + b.names[i + 1..] && c.chans == b.chans[..i] + b.chans[i + 1..]
    && c.closed == b.closed + {b.chans[i]}
  }

  function Lookup(b: Balancer, channel: string): Chan {
    if channel in b.namesChans then b.namesChans[channel] else if b.chans == [] then 0 else b.chans[0]
  }

  class OutgoingChannelLoadBalancer {
    var names: seq<string>
    var chans: seq<Chan>
    var namesChans: map<string, Chan>
    var made: nat
    var closed: set<Chan>

    function View(): Balancer
      reads this
    {
      Balancer(names, chans, namesChans, made, closed)
    }

    constructor ()
      ensures Coherent(View()) && names == [DEFAULT_SEND_CHANNEL] && made == 1
    {
      names, chans, namesChans := [DEFAULT_SEND_CHANNEL], [0], map[DEFAULT_SEND_CHANNEL := 0];
      made, closed := 1, {};
    }

    method AppendChannel(channel: string)
      modifies this
      ensures View() == Appended(old(View()), channel)
    {
      names := names + [channel];
      var ch := made;
      made := made + 1;
      chans := chans + [ch];
      namesChans := namesChans[channel := ch];
    }

    method AddChannel(channel: string) returns (err: Option<ChannelError>)
      requires Coherent(View())
      modifies this
      ensures View() == Add(old(View()), channel) && Coherent(View())
      ensures err == if channel == DEFAULT_SEND_CHANNEL then Some(CanNotBeReAdded) else None
      ensures channel in names && (channel in old(names) ==> View() == old(View()))
      ensures channel !in old(names) ==> names == old(names) + [channel] && chans == old(chans) + [old(made)]
      ensures channel !in old(names) ==> old(made) !in old(chans) && old(made) !in closed
      ensures channel !in old(names) ==> made == old(made) + 1 && closed == old(closed)
    {
      hide Coherent;
      AddCoherent(View(), channel);
      AddAdds(View(), channel);
      if channel == DEFAULT_SEND_CHANNEL {
        return Some(CanNotBeReAdded);
      }
      if channel in namesChans {
        return None;
      }
      AppendChannel(channel);
      return None;
    }

    method RemoveChannel(channel: string) returns (err: Option<ChannelError>)
      requires Coherent(View())
      modifies this
      ensures View() == Remove(old(View()), channel) && Coherent(View())
      ensures err == if channel == DEFAULT_SEND_CHANNEL then Some(CanNotBeDeleted)
                     else if channel !in old(names) then Some(DoesNotExist) else None
      ensures err.Some? ==> View() == old(View())
      ensures err.None? ==> TakenOut(old(View()), View(), channel)
    {
      hide Coherent;
      RemoveCoherent(View(), channel);
      if channel == DEFAULT_SEND_CHANNEL {
        return Some(CanNotBeDeleted);
      }
      var index := -1;
      for idx := 0 to |names|
        invariant index == -1 && forall k :: 0 <= k < idx ==> names[k] != channel
      {
        if names[idx] == channel {
          index := idx;
          break;
        }
      }
      assert index != -1 ==> index == Position(names, channel);
      if index == -1 {
        return Some(DoesNotExist);
      }
      var sendableChan := chans[index];
      chans := chans[..index] + chans[index + 1..];
      names := names[..index] + names[index + 1..];
      closed := closed + {sendableChan};
      namesChans := namesChans - {channel};
      return None;
    }

    method GetChannelOrDefault(channel: string) returns (ch: Chan)
      requires Coherent(View())
      ensures ch in chans && ch !in closed
      ensures forall i :: 0 <= i < |names| ==> (ch == chans[i] <==> i == (if channel in names then Position(names, channel) else 0))
    {
      LookupFinds(View(), channel);
      if channel in namesChans {
        return namesChans[channel];
      }
      return chans[0];
    }
  }

  lemma LookupFinds(b: Balancer, channel: string)
    requires Coherent(b)
    ensures var p := if channel in b.names then Position(b.names, channel) else 0;
            p < |b.names| && Lookup(b, channel) == b.chans[p]
  {
  }

  lemma AddCoherent(b: Balancer, channel: string)
    requires Coherent(b)
    ensures Coherent(Add(b, channel))
  {
    hide NoRepeats;
    if channel !in b.namesChans {
      AppendFresh(b.names, channel);
      AppendFresh(b.chans, b.made);
    }
  }

  /** A new name comes last, with an open channel made for it; a known one changes nothing. */
  lemma AddAdds(b: Balancer, channel: string)
    requires Coherent(b)
    ensures channel in Add(b, channel).names && DEFAULT_SEND_CHANNEL in b.names
    ensures channel in b.names ==> Add(b, channel) == b
    ensures channel !in b.names ==>
              Add(b, channel) == Balancer(b.names + [channel], b.chans + [b.made], b.namesChans[channel := b.made], b.made + 1, b.closed)
              && b.made !in b.chans && b.made !in b.closed
    ensures channel in b.namesChans <==> channel in b.names
  {
    if channel !in b.names { assert (b.names + [channel])[|b.names|] == channel; }
  }

  lemma AppendFresh<T>(s: seq<T>, x: T)
    requires NoRepeats(s) && x !in s
    ensures NoRepeats(s + [x]) && forall i :: 0 <= i < |s| ==> (s + [x])[i] == s[i]
    ensures forall y :: y in s + [x] <==> y in s || y == x
  {
  }

  lemma WithoutHas<T>(s: seq<T>, i: nat)
    requires i < |s| && NoRepeats(s)
    ensures NoRepeats(Without(s, i))
    ensures forall x :: x in Without(s, i) <==> x in s && x != s[i]
  {
    var t := Without(s, i);
    assert forall k :: 0 <= k < |t| ==> t[k] == s[if k < i then k else k + 1];
    forall x ensures x in t <==> x in s && x != s[i] {
      if x in s && x != s[i] {
        var k :| 0 <= k < |s| && s[k] == x;
        assert t[if k < i then k else k - 1] == x;
      }
    }
  }

  lemma RemoveCoherent(b: Balancer, channel: string)
    requires Coherent(b)
    ensures Coherent(Remove(b, channel))
    ensures channel != DEFAULT_SEND_CHANNEL ==> channel !in Remove(b, channel).names
    ensures |b.names| == |b.chans|
  {
    hide NoRepeats, Without;
    var i := Position(b.names, channel);
    if channel != DEFAULT_SEND_CHANNEL && i < |b.names| {
      WithoutHas(b.names, i);
      WithoutHas(b.chans, i);
      RemovePairs(b, channel, i);
    }
  }

  lemma RemovePairs(b: Balancer, channel: string, i: nat)
    requires Coherent(b) && channel != DEFAULT_SEND_CHANNEL && i < |b.names| && b.names[i] == channel
    ensures |Without(b.names, i)| == |b.names| - 1 && |Without(b.chans, i)| == |b.names| - 1 && |b.names| >= 2
    ensures Without(b.names, i)[0] == DEFAULT_SEND_CHANNEL
    ensures forall k :: 0 <= k < |b.names| - 1 ==>
              Without(b.names, i)[k] in b.namesChans && b.namesChans[Without(b.names, i)[k]] == Without(b.chans, i)[k]
    ensures forall k :: 0 <= k < |b.names| - 1 ==>
              Without(b.chans, i)[k] < b.made && Without(b.chans, i)[k] !in b.closed
  {
    var names, chans := Without(b.names, i), Without(b.chans, i);
    forall k | 0 <= k < |names|
      ensures names[k] in b.namesChans && b.namesChans[names[k]] == chans[k]
      ensures chans[k] < b.made && chans[k] !in b.closed
    {
      var j := if k < i then k else k + 1;
      assert names[k] == b.names[j] && chans[k] == b.chans[j];
    }
  }

  /** Adding and removing a name leaves every other name its channel; a removed name is served
      by the default channel, and different names never share one. */
  lemma OthersUndisturbed(b: Balancer, channel: string, other: string)
    requires Coherent(b) && other != channel && other in b.names
    ensures Lookup(Add(b, channel), other) == Lookup(b, other) == Lookup(Remove(b, channel), other)
    ensures channel != DEFAULT_SEND_CHANNEL ==> Lookup(Remove(b, channel), channel) == Lookup(b, DEFAULT_SEND_CHANNEL)
    ensures channel in b.names ==> Lookup(b, channel) != Lookup(b, other)
  {
    hide Coherent;
    RemoveCoherent(b, channel);
    LookupOf(b, other);
    LookupOf(b, channel);
    LookupOf(b, DEFAULT_SEND_CHANNEL);
    LookupOf(Remove(b, channel), channel);
    LookupOf(Remove(b, channel), DEFAULT_SEND_CHANNEL);
    if channel in b.names { NamesDiffer(b, channel, other); }
  }

  lemma LookupOf(b: Balancer, name: string)
    requires Coherent(b)
    ensures name in b.namesChans <==> name in b.names
    ensures name in b.names ==> Lookup(b, name) == b.namesChans[name]
    ensures name !in b.names || name == DEFAULT_SEND_CHANNEL ==> Lookup(b, name) == b.chans[0]
    ensures DEFAULT_SEND_CHANNEL in b.names && b.chans != []
  {
  }

  lemma NamesDiffer(b: Balancer, channel: string, other: string)
    requires Coherent(b) && channel != other && channel in b.names && other in b.names
    ensures Lookup(b, channel) != Lookup(b, other)
  {
    var i :| 0 <= i < |b.names| && b.names[i] == channel;
    var j :| 0 <= j < |b.names| && b.names[j] == other;
    assert b.namesChans[b.names[i]] == b.chans[i] && b.namesChans[b.names[j]] == b.chans[j];
  }

  // ---------------------------------------------------------------- forwarders

  datatype SendableData = SendableData(buff: seq<int>, topic: string)

  /** What travels to the main channel: an item, or the nil that a closed channel yields. */
  type Received = Option<SendableData>

  /** One channel's traffic: the items sent on it, what its forwarder holds, and what was
      collected from it. */
  datatype Lane = Lane(sent: seq<SendableData>, held: Option<Received>, got: seq<Received>)

  /** The load balancer with the traffic of every channel ever made. */
  datatype Traffic = Traffic(b: Balancer, lanes: seq<Lane>)

  datatype Action =
    | AddName(name: string)
    | RemoveName(name: string)
    | Send(name: string, item: SendableData)  // a sender meets the idle forwarder of the channel it looked up
    | ReadClosed(ch: Chan)                    // an idle forwarder receives from its closed channel
    | Collect(ch: Chan)                       // a collector meets a forwarder on the main channel

  function Opened(lanes: seq<Lane>, made: nat): (r: seq<Lane>)
    ensures |lanes| <= made ==> |r| == made && lanes <= r
    ensures forall j :: |lanes| <= j < |r| ==> r[j] == Lane([], None, [])
  {
    lanes + seq(if |lanes| <= made then made - |lanes| else 0, _ => Lane([], None, []))
  }

  predicate Enabled(t: Traffic, a: Action) {
    match a
    case AddName(_) => true
    case RemoveName(_) => true
    case Send(name, _) => Lookup(t.b, name) < |t.lanes| && t.lanes[Lookup(t.b, name)].held.None?
    case ReadClosed(ch) => ch < |t.lanes| && ch in t.b.closed && t.lanes[ch].held.None?
    case Collect(ch) => ch < |t.lanes| && t.lanes[ch].held.Some?
  }

  function Apply(t: Traffic, a: Action): Traffic
    requires Enabled(t, a)
  {
    match a
    case AddName(name) => var b := Add(t.b, name); Traffic(b, Opened(t.lanes, b.made))
    case RemoveName(name) => t.(b := Remove(t.b, name))
    case Send(name, item) =>
      var ch := Lookup(t.b, name);
      var lane := t.lanes[ch];
      t.(lanes := t.lanes[ch := lane.(sent := lane.sent + [item], held := Some(Some(item)))])
    case ReadClosed(ch) => t.(lanes := t.lanes[ch := t.lanes[ch].(held := Some(None))])
    case Collect(ch) =>
      var lane := t.lanes[ch];
      t.(lanes := t.lanes[ch := lane.(held := None, got := lane.got + [lane.held.value])])
  }

  /** The items among the collected ones. */
  function Items(got: seq<Received>): seq<SendableData> {
    if got == [] then []
    else Items(got[..|got| - 1]) + if got[|got| - 1].Some? then [got[|got| - 1].value] else []
  }

  function InHand(lane: Lane): seq<SendableData> {
    if lane.held.Some? && lane.held.value.Some? then [lane.held.value.value] else []
  }

  /** No nil was collected, and none is on its way. */
  predicate NoNil(lane: Lane) {
    None !in lane.got && lane.held != Some(None)
  }

  /** What was collected from a channel, and what its forwarder holds, is what was sent on it, in
      order; nils come only from a closed channel. */
  predicate LaneOk(lane: Lane, closed: bool) {
    && Items(lane.got) + InHand(lane) == lane.sent
    && (!closed ==> NoNil(lane))
  }

  ghost predicate Inv(t: Traffic) {
    && Coherent(t.b) && |t.lanes| == t.b.made
    && forall ch :: 0 <= ch < |t.lanes| ==> LaneOk(t.lanes[ch], ch in t.b.closed)
  }

  lemma StepKeeps(t: Traffic, a: Action)
    requires Inv(t) && Enabled(t, a)
    ensures Inv(Apply(t, a))
  {
    hide Coherent, Items;
    match a
    case AddName(name) =>
      AddCoherent(t.b, name);
      AddKeepsChannels(t.b, name);
    case RemoveName(name) =>
      RemoveCoherent(t.b, name);
    case Send(name, item) => SendOpen(t.b, name);
    case ReadClosed(ch) =>
    case Collect(ch) => CollectKeeps(t.lanes[ch]);
  }

  lemma AddKeepsChannels(b: Balancer, name: string)
    requires Coherent(b)
    ensures Add(b, name).closed == b.closed && b.made <= Add(b, name).made
    ensures b.made !in b.closed && Items([]) == []
  {
  }

  lemma SendOpen(b: Balancer, name: string)
    requires Coherent(b)
    ensures Lookup(b, name) !in b.closed && Lookup(b, name) in b.chans
  {
    LookupFinds(b, name);
  }

  lemma CollectKeeps(lane: Lane)
    requires lane.held.Some?
    ensures Items(lane.got + [lane.held.value]) == Items(lane.got) + InHand(lane)
  {
    assert (lane.got + [lane.held.value])[..|lane.got|] == lane.got;
  }

  /** A sent item goes to the channel of its name, and is the next one collected from it; no
      other channel is concerned. */
  lemma SentIsCollected(t: Traffic, name: string, item: SendableData)
    requires Inv(t) && Enabled(t, Send(name, item))
    ensures var ch, u := Lookup(t.b, name), Apply(t, Send(name, item));
            && u.lanes[ch].sent == t.lanes[ch].sent + [item] && Enabled(u, Collect(ch))
            && Apply(u, Collect(ch)).lanes[ch].got == t.lanes[ch].got + [Some(item)]
            && Apply(u, Collect(ch)).lanes[ch].held.None?
            && |Apply(u, Collect(ch)).lanes| == |t.lanes|
            && (forall c | 0 <= c < |t.lanes| && c != ch :: Apply(u, Collect(ch)).lanes[c] == t.lanes[c])
  {
    hide Inv;
  }

  const START := Traffic(Balancer([DEFAULT_SEND_CHANNEL], [0], map[DEFAULT_SEND_CHANNEL := 0], 1, {}), [Lane([], None, [])])

  function Exec(t: Traffic, run: seq<Action>): Option<Traffic> {
    if run == [] then Some(t)
    else
      match Exec(t, run[..|run| - 1])
      case None => None
      case Some(u) => if Enabled(u, run[|run| - 1]) then Some(Apply(u, run[|run| - 1])) else None
  }

  lemma {:induction false} RunKeeps(t: Traffic, run: seq<Action>)
    requires Inv(t) && Exec(t, run).Some?
    ensures Inv(Exec(t, run).value)
  {
    hide Inv, Apply, Enabled;
    if run != [] {
      RunKeeps(t, run[..|run| - 1]);
      StepKeeps(Exec(t, run[..|run| - 1]).value, run[|run| - 1]);
    }
  }

  lemma {:induction false} ItemsAll(got: seq<Received>)
    requires None !in got
    ensures |Items(got)| == |got| && forall k :: 0 <= k < |got| ==> got[k] == Some(Items(got)[k])
    decreases |got|
  {
    if got != [] {
      var n := |got| - 1;
      ItemsAll(got[..n]);
      assert got[n] in got;
    }
  }

  /** In every run: what was collected from a channel that was not removed is a prefix of what was
      sent on it, item by item, with at most one item still held by its forwarder. */
  lemma CollectedIsPrefix(run: seq<Action>, ch: Chan)
    requires Exec(START, run).Some?
    requires ch < |Exec(START, run).value.lanes| && ch !in Exec(START, run).value.b.closed
    ensures var lane := Exec(START, run).value.lanes[ch];
            && |lane.got| <= |lane.sent| <= |lane.got| + 1
            && forall k :: 0 <= k < |lane.got| ==> lane.got[k] == Some(lane.sent[k])
  {
    hide Exec;
    assert Inv(START);
    RunKeeps(START, run);
    ItemsAll(Exec(START, run).value.lanes[ch].got);
  }

  /** In every run, for every channel, removed or not: no item is lost, repeated, invented or
      overtaken on its way. */
  lemma ItemsConserved(run: seq<Action>, ch: Chan)
    requires Exec(START, run).Some? && ch < |Exec(START, run).value.lanes|
    ensures var lane := Exec(START, run).value.lanes[ch]; Items(lane.got) + InHand(lane) == lane.sent
  {
    hide Exec;
    assert Inv(START);
    RunKeeps(START, run);
  }

  predicate Removes(a: Action) { a.RemoveName? }

  /** Runs in which no channel is removed. */
  predicate Steady(run: seq<Action>) {
    forall k :: 0 <= k < |run| ==> !Removes(run[k])
  }

  lemma {:induction false} SteadyKeepsOpen(t: Traffic, run: seq<Action>)
    requires Inv(t) && Exec(t, run).Some? && Steady(run)
    ensures Exec(t, run).value.b.closed == t.b.closed && |t.lanes| <= |Exec(t, run).value.lanes|
  {
    hide Inv, Enabled;
    if run != [] {
      assert !Removes(run[|run| - 1]);
      SteadyKeepsOpen(t, run[..|run| - 1]);
      RunKeeps(t, run[..|run| - 1]);
      StepKeepsOpen(Exec(t, run[..|run| - 1]).value, run[|run| - 1]);
    }
  }

  lemma StepKeepsOpen(t: Traffic, a: Action)
    requires Inv(t) && Enabled(t, a) && !Removes(a)
    ensures Apply(t, a).b.closed == t.b.closed && |t.lanes| <= |Apply(t, a).lanes|
  {
    hide Coherent, LaneOk;
  }

  /** A channel can yield nil if and only if it was removed: its forwarder keeps receiving from
      the closed channel. */
  lemma NilComesIffRemoved(t: Traffic, ch: Chan)
    requires Inv(t) && ch < |t.lanes| && NoNil(t.lanes[ch])
    ensures (exists run :: Steady(run) && Exec(t, run).Some? && ch < |Exec(t, run).value.lanes|
                         && None in Exec(t, run).value.lanes[ch].got)
       <==> ch in t.b.closed
  {
    if ch in t.b.closed {
      var run := NilRun(t, ch);
    } else {
      forall run | Steady(run) && Exec(t, run).Some? && ch < |Exec(t, run).value.lanes|
        ensures None !in Exec(t, run).value.lanes[ch].got
      {
        RunKeeps(t, run);
        SteadyKeepsOpen(t, run);
      }
    }
  }

  lemma ExecStep(t: Traffic, run: seq<Action>, a: Action)
    requires Exec(t, run).Some? && Enabled(Exec(t, run).value, a)
    ensures Exec(t, run + [a]) == Some(Apply(Exec(t, run).value, a))
  {
    assert (run + [a])[..|run|] == run;
  }

  lemma Extend(t: Traffic, run: seq<Action>, a: Action) returns (run': seq<Action>)
    requires Exec(t, run).Some? && Enabled(Exec(t, run).value, a) && Steady(run) && !Removes(a)
    ensures Steady(run') && Exec(t, run') == Some(Apply(Exec(t, run).value, a))
  {
    hide Apply, Enabled, Exec;
    ExecStep(t, run, a);
    run' := run + [a];
  }

  lemma EmptyRun(t: Traffic)
    ensures Exec(t, []) == Some(t)
  {
  }

  lemma NilRun(t: Traffic, ch: Chan) returns (run: seq<Action>)
    requires ch < |t.lanes| && ch in t.b.closed
    ensures Steady(run) && Exec(t, run).Some? && ch < |Exec(t, run).value.lanes|
    ensures None in Exec(t, run).value.lanes[ch].got
  {
    hide Exec, Steady;
    run := [];
    EmptyRun(t);
    assert Steady([]) by { SteadyEmpty(); }
    if t.lanes[ch].held.Some? {
      run := Extend(t, run, Collect(ch));
    }
    run := Extend(t, run, ReadClosed(ch));
    var u := Exec(t, run).value;
    run := Extend(t, run, Collect(ch));
    assert Exec(t, run).value.lanes[ch].got == u.lanes[ch].got + [None];
  }

  lemma SteadyEmpty()
    ensures Steady([])
  {
  }
}
