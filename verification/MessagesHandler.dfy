/** Registration of message processors on topics, and the two ways messages reach them
    (p2p/libp2p/messagesHandler.go, p2p/libp2p/topicProcessors.go). */
module MessagesHandlers {
  import opened Basics

  type Topic = string

  type Identifier = string

  type PeerID = string

  /** A message processor, by identity. */
  type Processor = int

  datatype HandlerError =
    | NilValidator | ProcessorAlreadyDefined | ProcessorDoesNotExist | MessageTooNew | MessageTooOld
    | ValidatorRefused

  class TopicProcessors {
    var processors: map<Identifier, Processor>

    constructor ()
      ensures processors == map[]
    {
      processors := map[];
    }

    method AddTopicProcessor(identifier: Identifier, processor: Processor) returns (err: Option<HandlerError>)
      modifies this
      ensures err == if identifier in old(processors) then Some(ProcessorAlreadyDefined) else None
      ensures processors == if err.Some? then old(processors) else old(processors)[identifier := processor]
    {
      if identifier in processors {
        return Some(ProcessorAlreadyDefined);
      }
      processors := processors[identifier := processor];
      return None;
    }

    method RemoveTopicProcessor(identifier: Identifier) returns (err: Option<HandlerError>)
      modifies this
      ensures err == if identifier !in old(processors) then Some(ProcessorDoesNotExist) else None
      ensures processors == if err.Some? then old(processors) else old(processors) - {identifier}
    {
      if identifier !in processors {
        return Some(ProcessorDoesNotExist);
      }
      processors := processors - {identifier};
      return None;
    }

    /** Every identifier once, with its processor, in an order callers cannot rely on. */
    method GetList() returns (identifiers: seq<Identifier>, list: seq<Processor>)
      ensures Enumerates(identifiers, list, processors)
    {
      identifiers, list := [], [];
      var rest := processors.Keys;
      while rest != {}
        invariant rest <= processors.Keys && |identifiers| == |list|
        invariant NoRepeats(identifiers)
        invariant forall i :: 0 <= i < |identifiers| ==>
                    identifiers[i] in processors && identifiers[i] !in rest && list[i] == processors[identifiers[i]]
        invariant forall id :: id in processors ==> id in identifiers || id in rest
        decreases rest
      {
        var id :| id in rest;
        rest := rest - {id};
        identifiers, list := identifiers + [id], list + [processors[id]];
      }
    }
  }

  ghost predicate Enumerates(identifiers: seq<Identifier>, list: seq<Processor>, m: map<Identifier, Processor>) {
    && |identifiers| == |list|
    && NoRepeats(identifiers)
    && (forall i :: 0 <= i < |identifiers| ==> identifiers[i] in m && list[i] == m[identifiers[i]])
    && (forall id :: id in m ==> id in identifiers)
  }

  /** The validators of gossipsub: it takes a validator for a topic without one, and gives up
      the validator of a topic that has one. A validator is known by the set its callback captured. */
  class PubSub {
    var validators: map<Topic, TopicProcessors>

    constructor ()
      ensures validators == map[]
    {
      validators := map[];
    }

    method RegisterTopicValidator(topic: Topic, captured: TopicProcessors) returns (err: Option<HandlerError>)
      modifies this
      ensures err == if topic in old(validators) then Some(ValidatorRefused) else None
      ensures validators == if err.Some? then old(validators) else old(validators)[topic := captured]
    {
      if topic in validators {
        return Some(ValidatorRefused);
      }
      validators := validators[topic := captured];
      return None;
    }

    method UnregisterTopicValidator(topic: Topic) returns (err: Option<HandlerError>)
      modifies this
      ensures err == if topic !in old(validators) then Some(ValidatorRefused) else None
      ensures validators == old(validators) - {topic}
    {
      if topic !in validators {
        return Some(ValidatorRefused);
      }
      validators := validators - {topic};
      return None;
    }
  }

  const ACCEPT_IN_ADVANCE := 20
  const TIME_CACHE := 600

  /** validateMessageByTimestamp, in Unix seconds. The accepted interval is closed. */
  function CheckTimestamp(now: int, timestamp: int): (r: Option<HandlerError>)
    ensures r.None? <==> now - 600 <= timestamp <= now + 20
    ensures r == Some(MessageTooNew) <==> timestamp > now + 20
    ensures r == Some(MessageTooOld) <==> timestamp < now - 600
  {
    if now + ACCEPT_IN_ADVANCE < timestamp then Some(MessageTooNew)
    else if timestamp < now - TIME_CACHE then Some(MessageTooOld)
    else None
  }

  /** A message without a timestamp is one that cannot be read. */
  predicate Timely(now: int, timestamp: Option<int>) {
    timestamp.Some? && CheckTimestamp(now, timestamp.value).None?
  }

  /** A broadcast message: its originator, and its timestamp if it can be read. */
  datatype BroadcastMessage = BroadcastMessage(from: PeerID, timestamp: Option<int>)

  datatype DirectMessage = DirectMessage(topic: Topic, timestamp: int)

  /** Which processors serve a topic: what the registrations so far amount to. */
  type Registry = map<Topic, map<Identifier, Processor>>

  function Registered(r: Registry, topic: Topic, identifier: Identifier, p: Processor): Registry {
    if topic !in r then r[topic := map[identifier := p]]
    else if identifier in r[topic] then r
    else r[topic := r[topic][identifier := p]]
  }

  lemma FirstRegistered(r: Registry, topic: Topic, identifier: Identifier, p: Processor)
    requires topic !in r
    ensures Registered(r[topic := map[]], topic, identifier, p) == Registered(r, topic, identifier, p)
  {
    assert map[][identifier := p] == map[identifier := p];
  }

  function Unregistered(r: Registry, topic: Topic, identifier: Identifier): Registry {
    if topic !in r || identifier !in r[topic] then r
    else if r[topic].Keys == {identifier} then r - {topic}
    else r[topic := r[topic] - {identifier}]
  }

  lemma UnregisteredCases(r: Registry, topic: Topic, identifier: Identifier)
    ensures topic !in r || identifier !in r[topic] ==> Unregistered(r, topic, identifier) == r
    ensures topic in r && identifier in r[topic] ==>
              var left := r[topic := r[topic] - {identifier}];
              Unregistered(r, topic, identifier) == if r[topic].Keys == {identifier} then left - {topic} else left
  {
  }

  /** The entries that are not nil are the sets the validators captured, a different one for
      every topic. */
  ghost predicate MapsAgree(processors: map<Topic, TopicProcessors?>, validators: map<Topic, TopicProcessors>) {
    && (forall t :: t in validators <==> t in processors && processors[t] != null)
    && (forall t | t in validators :: processors[t] == validators[t])
    && (forall t, t' | t in validators && t' in validators && t != t' :: validators[t] != validators[t'])
  }

  lemma MapsOpened(processors: map<Topic, TopicProcessors?>, validators: map<Topic, TopicProcessors>, topic: Topic, p: TopicProcessors)
    requires MapsAgree(processors, validators) && topic !in validators && p !in validators.Values
    ensures MapsAgree(processors[topic := p], validators[topic := p])
    ensures validators[topic := p].Values <= validators.Values + {p}
  {
    assert forall t | t in validators :: validators[t] in validators.Values;
  }

  lemma MapsDropped(processors: map<Topic, TopicProcessors?>, validators: map<Topic, TopicProcessors>, topic: Topic)
    requires MapsAgree(processors, validators)
    ensures MapsAgree(processors[topic := null], validators - {topic}) && MapsAgree(processors - {topic}, validators - {topic})
    ensures topic in validators <==> topic in processors && processors[topic] != null
    ensures (validators - {topic}).Values <= validators.Values
    ensures topic !in validators ==> validators - {topic} == validators
  {
  }

  class MessagesHandler {
    var processors: map<Topic, TopicProcessors?>
    const pubSub: PubSub

    /** What the calls so far amount to. */
    ghost var Served: Registry

    /** A validator exists for a topic exactly when its entry is not nil; that entry is the set
        the validator's callback captured, it is not empty, and no other topic shares it. */
    ghost predicate Valid()
      reads this, pubSub, pubSub.validators.Values
    {
      ValidBut({})
    }

    /** The sets of the topics in `open` may be empty. */
    ghost predicate ValidBut(open: set<Topic>)
      reads this, pubSub, pubSub.validators.Values
    {
      && MapsAgree(processors, pubSub.validators)
      && Served.Keys == pubSub.validators.Keys
      && forall t | t in pubSub.validators ::
           pubSub.validators[t].processors == Served[t] && (t in open || Served[t] != map[])
    }

    constructor ()
      ensures Valid() && fresh(pubSub) && Served == map[] && processors == map[] && pubSub.validators == map[]
    {
      processors := map[];
      pubSub := new PubSub();
      Served := map[];
    }

    method RegisterMessageProcessor(topic: Topic, identifier: Identifier, msgProcessor: Option<Processor>)
      returns (err: Option<HandlerError>)
      requires Valid()
      modifies this, pubSub, pubSub.validators.Values
      ensures Valid()
      ensures Served == if msgProcessor.None? then old(Served) else Registered(old(Served), topic, identifier, msgProcessor.value)
      ensures err == if msgProcessor.None? then Some(NilValidator)
                     else if topic in old(Served) && identifier in old(Served)[topic] then Some(ProcessorAlreadyDefined)
                     else None
      ensures processors.Keys == old(processors.Keys) + if msgProcessor.None? then {} else {topic}
      ensures fresh(pubSub.validators.Values - old(pubSub.validators.Values))
    {
      hide ValidBut, Registered;
      NilEntries();
      if msgProcessor.None? {
        return Some(NilValidator);
      }
      var topicProcs := if topic in processors then processors[topic] else null;
      ghost var served := Served;
      if topicProcs == null {
        topicProcs, err := OpenTopic(topic);
        if err.Some? {
          return;
        }
        FirstRegistered(served, topic, identifier, msgProcessor.value);
      } else {
        ValidThenValidBut({topic});
      }
      err := Join(topic, topicProcs, identifier, msgProcessor.value);
    }

    /** A topic without processors: a new set, still empty, and a validator that captures it. */
    method OpenTopic(topic: Topic) returns (topicProcs: TopicProcessors, err: Option<HandlerError>)
      requires Valid() && topic !in Served
      modifies this, pubSub
      ensures ValidBut({topic}) && err.None? && Served == old(Served)[topic := map[]]
      ensures processors == old(processors)[topic := topicProcs]
      ensures topicProcs in pubSub.validators.Values && fresh(topicProcs)
      ensures pubSub.validators.Values <= old(pubSub.validators.Values) + {topicProcs}
    {
      hide MapsAgree;
      ghost var before := pubSub.validators;
      assert topic !in before && Served.Keys == before.Keys;
      topicProcs := new TopicProcessors();
      MapsOpened(processors, before, topic, topicProcs);
      processors := processors[topic := topicProcs];
      err := pubSub.RegisterTopicValidator(topic, topicProcs);
      if err.Some? {
        return;
      }
      Served := Served[topic := map[]];
      assert pubSub.validators == before[topic := topicProcs];
      forall t | t in pubSub.validators ensures pubSub.validators[t].processors == Served[t] {
        if t != topic { assert t in before; }
      }
      assert MapsAgree(processors, pubSub.validators) && Served.Keys == pubSub.validators.Keys;
    }

    /** The set in use grows. */
    method Join(topic: Topic, topicProcs: TopicProcessors, identifier: Identifier, msgProcessor: Processor)
      returns (err: Option<HandlerError>)
      requires ValidBut({topic}) && topic in processors && processors[topic] == topicProcs
      modifies this`Served, topicProcs
      ensures Valid()
      ensures Served == Registered(old(Served), topic, identifier, msgProcessor)
      ensures err == if identifier in old(Served)[topic] then Some(ProcessorAlreadyDefined) else None
    {
      err := topicProcs.AddTopicProcessor(identifier, msgProcessor);
      Served := Registered(Served, topic, identifier, msgProcessor);
      assert identifier in topicProcs.processors;
    }

    method UnregisterMessageProcessor(topic: Topic, identifier: Identifier) returns (err: Option<HandlerError>)
      requires Valid()
      modifies this, pubSub, pubSub.validators.Values
      ensures Valid()
      ensures Served == Unregistered(old(Served), topic, identifier)
      ensures err == if topic in old(Served) && identifier !in old(Served)[topic] then Some(ProcessorDoesNotExist) else None
      ensures processors.Keys == old(processors.Keys)
      ensures topic in old(Served) && topic !in Served ==> topic in processors && processors[topic] == null
      ensures pubSub.validators.Values <= old(pubSub.validators.Values)
    {
      hide ValidBut, Unregistered;
      UnregisteredCases(Served, topic, identifier);
      NilEntries();
      var topicProcs := if topic in processors then processors[topic] else null;
      if topicProcs == null {
        return None;
      }
      var empty;
      err, empty := RemoveFrom(topic, topicProcs, identifier);
      if err.None? && empty {
        err := DropTopic(topic);
      }
    }

    /** The set in use shrinks; it may be left empty. */
    method RemoveFrom(topic: Topic, topicProcs: TopicProcessors, identifier: Identifier)
      returns (err: Option<HandlerError>, empty: bool)
      requires Valid() && topic in processors && processors[topic] == topicProcs
      modifies this`Served, topicProcs
      ensures err == if identifier in old(Served)[topic] then None else Some(ProcessorDoesNotExist)
      ensures err.Some? ==> Valid() && Served == old(Served)
      ensures err.None? ==> Served == old(Served)[topic := old(Served)[topic] - {identifier}]
      ensures err.None? ==> ValidBut({topic}) && (empty <==> old(Served)[topic].Keys == {identifier})
      ensures err.None? && !empty ==> Valid()
    {
      empty := false;
      ghost var before := Served[topic];
      err := topicProcs.RemoveTopicProcessor(identifier);
      if err.Some? {
        return;
      }
      Served := Served[topic := before - {identifier}];
      var identifiers, _ := topicProcs.GetList();
      EmptyList(identifiers, topicProcs.processors, before, identifier);
      empty := |identifiers| == 0;
    }

    /** The set of the topic is empty: its entry becomes nil, and its validator goes. */
    method DropTopic(topic: Topic) returns (err: Option<HandlerError>)
      requires ValidBut({topic}) && topic in Served
      modifies this, pubSub
      ensures Valid() && err.None? && Served == old(Served) - {topic}
      ensures processors == old(processors)[topic := null] && topic in old(processors)
      ensures pubSub.validators.Values <= old(pubSub.validators.Values)
    {
      hide MapsAgree;
      MapsDropped(processors, pubSub.validators, topic);
      processors := processors[topic := null];
      err := pubSub.UnregisterTopicValidator(topic);
      Served := Served - {topic};
    }

    /** One round of the loop below; pubsub refuses exactly where the entry is nil. */
    method UnregisterTopic(topic: Topic) returns (err: Option<HandlerError>)
      requires Valid() && topic in processors
      modifies this, pubSub
      ensures Valid() && (err.Some? <==> old(processors)[topic] == null)
      ensures err.Some? ==> processors == old(processors) && Served == old(Served)
      ensures err.None? ==> processors == old(processors) - {topic} && Served == old(Served) - {topic}
    {
      hide MapsAgree;
      MapsDropped(processors, pubSub.validators, topic);
      err := pubSub.UnregisterTopicValidator(topic);
      if err.Some? {
        return;
      }
      Served := Served - {topic};
      processors := processors - {topic};
      assert MapsAgree(processors, pubSub.validators) && Served.Keys == pubSub.validators.Keys;
    }

    /** Stops at the first topic whose entry is nil, because its validator is gone already. So it
        succeeds, and leaves nothing behind, exactly when no entry is nil; the order of the map
        decides how many topics are unregistered before it stops. */
    method UnregisterAllMessageProcessors() returns (err: Option<HandlerError>)
      requires Valid()
      modifies this, pubSub
      ensures Valid()
      ensures err.None? <==> forall t | t in old(processors) :: old(processors)[t] != null
      ensures err.None? ==> processors == map[] && pubSub.validators == map[]
      ensures forall t | t in Served :: t in old(Served) && Served[t] == old(Served)[t]
    {
      hide Valid;
      ghost var gone: set<Topic> := {};
      while processors != map[]
        invariant Valid() && NonNil(old(processors), gone)
        invariant processors == old(processors) - gone && Served == old(Served) - gone
        decreases processors.Keys
      {
        var topic :| topic in processors;
        err := UnregisterTopic(topic);
        if err.Some? {
          return;
        }
        OneMoreGone(old(processors), gone, topic);
        gone := gone + {topic};
      }
      AllGone(old(processors), gone);
      NoEntries();
      return None;
    }

    lemma NoEntries()
      requires Valid() && processors == map[]
      ensures pubSub.validators == map[]
    {
      assert processors.Keys == {} && pubSub.validators.Keys == {};
    }

    lemma ValidThenValidBut(open: set<Topic>)
      requires Valid()
      ensures ValidBut(open)
    {
    }

    /** The topics whose entry is nil are those with an entry and without processors. */
    lemma NilEntries()
      requires Valid()
      ensures Served.Keys <= processors.Keys
      ensures forall t | t in processors :: processors[t] == null <==> t !in Served
      ensures forall t | t in Served :: processors[t] in pubSub.validators.Values
    {
      assert forall t | t in pubSub.validators :: pubSub.validators[t] in pubSub.validators.Values;
    }

    /** A broadcast message on a topic: gossipsub calls the validator, if there is one, and the
        message passes if it can be read, is timely, and every processor accepts it. A message
        that cannot be read has both its originator and its bearer blacklisted. */
    method ReceiveBroadcast(topic: Topic, connected: PeerID, message: BroadcastMessage, now: int, accepts: Processor -> bool)
      returns (validated: bool, ok: bool, called: seq<Processor>, blacklisted: set<PeerID>)
      requires Valid()
      ensures validated <==> topic in Served
      ensures validated && message.timestamp.None? ==> blacklisted == {connected, message.from} - {""}
      ensures !validated || message.timestamp.Some? ==> blacklisted == {}
      ensures validated && Timely(now, message.timestamp) ==>
                (exists ids :: Enumerates(ids, called, Served[topic])) && (ok <==> forall p | p in called :: accepts(p))
      ensures !Timely(now, message.timestamp) ==> called == [] && (validated ==> !ok)
    {
      blacklisted, called, ok := {}, [], true;
      if topic !in pubSub.validators {
        return false, ok, called, blacklisted;
      }
      validated := true;
      if message.timestamp.None? {
        blacklisted := BlacklistPid(blacklisted, connected);
        blacklisted := BlacklistPid(blacklisted, message.from);
        return true, false, called, blacklisted;
      }
      if CheckTimestamp(now, message.timestamp.value).Some? {
        return true, false, called, blacklisted;
      }
      var identifiers, msgProcessors := pubSub.validators[topic].GetList();
      ok, called := RunProcessors(msgProcessors, accepts);
    }

    /** A direct message; without a message or a source nothing happens. */
    method ProcessReceivedMessage(message: Option<DirectMessage>, hasSource: bool, now: int, accepts: Processor -> bool)
      returns (err: Option<HandlerError>, ok: bool, called: seq<Processor>)
      requires Valid()
      ensures message.None? || !hasSource ==> err.None? && called == []
      ensures message.Some? && hasSource ==>
                err == if CheckTimestamp(now, message.value.timestamp).Some? then CheckTimestamp(now, message.value.timestamp)
                       else if message.value.topic !in Served then Some(NilValidator) else None
      ensures message.Some? && hasSource && err.None? ==>
                (exists ids :: Enumerates(ids, called, Served[message.value.topic])) && (ok <==> forall p | p in called :: accepts(p))
      ensures err.Some? ==> called == []
    {
      err, ok, called := None, false, [];
      if message.None? || !hasSource {
        return;
      }
      var topic := message.value.topic;
      err := CheckTimestamp(now, message.value.timestamp);
      if err.Some? {
        return;
      }
      var topicProcs := if topic in processors then processors[topic] else null;
      if topicProcs == null {
        return Some(NilValidator), ok, called;
      }
      var identifiers, msgProcessors := topicProcs.GetList();
      ok, called := RunProcessors(msgProcessors, accepts);
    }
  }

  /** An empty ID is never blacklisted. */
  function BlacklistPid(blacklisted: set<PeerID>, pid: PeerID): set<PeerID> {
    if pid == "" then blacklisted else blacklisted + {pid}
  }

  // ---------------------------------------------------------------- sequences of calls

  datatype Registration =
    | Register(topic: Topic, identifier: Identifier, msgProcessor: Option<Processor>)
    | Unregister(topic: Topic, identifier: Identifier)

  /** The registry after one call. */
  function After(r: Registry, call: Registration): Registry {
    match call
    case Register(topic, identifier, msgProcessor) =>
      if msgProcessor.None? then r else Registered(r, topic, identifier, msgProcessor.value)
    case Unregister(topic, identifier) => Unregistered(r, topic, identifier)
  }

  function AfterAll(r: Registry, calls: seq<Registration>): Registry {
    if calls == [] then r else After(AfterAll(r, calls[..|calls| - 1]), calls[|calls| - 1])
  }

  /** The topics a processor was ever registered on. */
  function Touched(calls: seq<Registration>): set<Topic> {
    set k | 0 <= k < |calls| && calls[k].Register? && calls[k].msgProcessor.Some? :: calls[k].topic
  }

  /** Who serves a topic under an identifier, looking only at the calls about the two: whoever
      registered while the identifier was free and was not unregistered since. */
  function Holder(calls: seq<Registration>, topic: Topic, identifier: Identifier): Option<Processor> {
    if calls == [] then None
    else
      var before, call := Holder(calls[..|calls| - 1], topic, identifier), calls[|calls| - 1];
      if call.topic != topic || call.identifier != identifier then before
      else if call.Unregister? then None
      else if before.Some? then before
      else call.msgProcessor
  }

  predicate Holds(calls: seq<Registration>, topic: Topic, identifier: Identifier, p: Processor) {
    Holder(calls, topic, identifier) == Some(p)
  }

  /** Other topics and identifiers do not matter: the registry has exactly the holders, and a topic
      exactly while somebody serves it. */
  lemma {:induction false} RegistryHasHolders(calls: seq<Registration>, topic: Topic, identifier: Identifier)
    ensures var r := AfterAll(map[], calls);
            && (topic in r ==> r[topic] != map[])
            && Holder(calls, topic, identifier)
               == if topic in r && identifier in r[topic] then Some(r[topic][identifier]) else None
  {
    if calls != [] {
      var r := AfterAll(map[], calls[..|calls| - 1]);
      RegistryHasHolders(calls[..|calls| - 1], topic, identifier);
      StepHasHolder(r, calls[|calls| - 1], topic, identifier);
    }
  }

  lemma StepHasHolder(r: Registry, call: Registration, topic: Topic, identifier: Identifier)
    requires topic in r ==> r[topic] != map[]
    ensures var r' := After(r, call);
            var before := if topic in r && identifier in r[topic] then Some(r[topic][identifier]) else None;
            && (topic in r' ==> r'[topic] != map[])
            && (if topic in r' && identifier in r'[topic] then Some(r'[topic][identifier]) else None)
               == if call.topic != topic || call.identifier != identifier then before
                  else if call.Unregister? then None
                  else if before.Some? then before
                  else call.msgProcessor
  {
    if call.Unregister? && topic in r && call.topic == topic && call.identifier in r[topic] {
      var left := r[topic] - {call.identifier};
      assert left.Keys == r[topic].Keys - {call.identifier};
      assert left == map[] ==> left.Keys == {};
      assert r[topic].Keys == left.Keys + {call.identifier};
    }
    if call.Register? && call.msgProcessor.Some? && call.topic == topic {
      assert call.identifier in After(r, call)[topic];
    }
  }

  /** Any sequence of calls: the registry is the one the calls amount to, and a topic keeps an
      entry once a processor was registered on it. */
  method Perform(handler: MessagesHandler, calls: seq<Registration>)
    requires handler.Valid()
    modifies handler, handler.pubSub, handler.pubSub.validators.Values
    ensures handler.Valid()
    ensures fresh(handler.pubSub.validators.Values - old(handler.pubSub.validators.Values))
    ensures handler.Served == AfterAll(old(handler.Served), calls)
    ensures handler.processors.Keys == old(handler.processors.Keys) + Touched(calls)
  {
    hide *;
    NoCalls(handler.Served, calls);
    for i := 0 to |calls|
      invariant handler.Valid()
      invariant fresh(handler.pubSub.validators.Values - old(handler.pubSub.validators.Values))
      invariant handler.Served == AfterAll(old(handler.Served), calls[..i])
      invariant handler.processors.Keys == old(handler.processors.Keys) + Touched(calls[..i])
    {
      OneMoreCall(old(handler.Served), calls, i);
      match calls[i] {
        case Register(topic, identifier, msgProcessor) =>
          var err := handler.RegisterMessageProcessor(topic, identifier, msgProcessor);
        case Unregister(topic, identifier) =>
          var err := handler.UnregisterMessageProcessor(topic, identifier);
      }
    }
    assert calls[..|calls|] == calls;
  }

  lemma OneMoreCall(r: Registry, calls: seq<Registration>, i: nat)
    requires i < |calls|
    ensures AfterAll(r, calls[..i + 1]) == After(AfterAll(r, calls[..i]), calls[i])
    ensures calls[i].Register? ==>
              After(AfterAll(r, calls[..i]), calls[i])
              == if calls[i].msgProcessor.None? then AfterAll(r, calls[..i])
                 else Registered(AfterAll(r, calls[..i]), calls[i].topic, calls[i].identifier, calls[i].msgProcessor.value)
    ensures calls[i].Unregister? ==>
              After(AfterAll(r, calls[..i]), calls[i]) == Unregistered(AfterAll(r, calls[..i]), calls[i].topic, calls[i].identifier)
    ensures Touched(calls[..i + 1])
         == Touched(calls[..i]) + if calls[i].Register? && calls[i].msgProcessor.Some? then {calls[i].topic} else {}
  {
    assert calls[..i + 1][..i] == calls[..i];
  }

  lemma NoCalls(r: Registry, calls: seq<Registration>)
    ensures AfterAll(r, calls[..0]) == r && Touched(calls[..0]) == {}
  {
  }

  /** After any sequence of calls, a timely message that arrives both ways is taken by both or by
      neither, and reaches the same processors, each as often, with the same answer. */
  method DispatchBothWays(calls: seq<Registration>, topic: Topic, connected: PeerID, from: PeerID, timestamp: int,
                          now: int, accepts: Processor -> bool)
    returns (validated: bool, broadcastOk: bool, broadcast: seq<Processor>,
             err: Option<HandlerError>, directOk: bool, direct: seq<Processor>)
    requires CheckTimestamp(now, timestamp).None?
    ensures validated <==> topic in AfterAll(map[], calls)
    ensures err == if validated then None else Some(NilValidator)
    ensures validated ==> multiset(broadcast) == multiset(direct) && broadcastOk == directOk && broadcast != []
    ensures validated ==> forall p :: p in broadcast <==> exists id :: Holds(calls, topic, id, p)
  {
    hide AfterAll, Holds, Enumerates, CheckTimestamp, MessagesHandler.ValidBut;
    var handler := new MessagesHandler();
    Perform(handler, calls);
    var blacklisted;
    validated, broadcastOk, broadcast, blacklisted :=
      handler.ReceiveBroadcast(topic, connected, BroadcastMessage(from, Some(timestamp)), now, accepts);
    err, directOk, direct := handler.ProcessReceivedMessage(Some(DirectMessage(topic, timestamp)), true, now, accepts);
    if validated {
      BothReach(calls, topic, broadcast, direct);
    }
  }

  lemma BothReach(calls: seq<Registration>, topic: Topic, broadcast: seq<Processor>, direct: seq<Processor>)
    requires var r := AfterAll(map[], calls);
             topic in r && (exists ids :: Enumerates(ids, broadcast, r[topic])) && (exists ids :: Enumerates(ids, direct, r[topic]))
    ensures multiset(broadcast) == multiset(direct) && broadcast != []
    ensures forall p :: p in broadcast <==> p in direct
    ensures forall p :: p in broadcast <==> exists id :: Holds(calls, topic, id, p)
  {
    hide AfterAll, Holds, Enumerates;
    var m := AfterAll(map[], calls)[topic];
    var ids :| Enumerates(ids, broadcast, m);
    var ids' :| Enumerates(ids', direct, m);
    SameProcessors(m, ids, broadcast, ids', direct);
    Reached(calls, topic, ids, broadcast);
    forall p ensures p in broadcast <==> p in direct {
      assert p in multiset(broadcast) <==> p in multiset(direct);
    }
  }

  lemma Reached(calls: seq<Registration>, topic: Topic, ids: seq<Identifier>, list: seq<Processor>)
    requires var r := AfterAll(map[], calls); topic in r && Enumerates(ids, list, r[topic])
    ensures list != [] && forall p :: p in list <==> exists id :: Holds(calls, topic, id, p)
  {
    hide AfterAll, Holder, NoRepeats;
    var m := AfterAll(map[], calls)[topic];
    forall id ensures Holder(calls, topic, id) == if id in m then Some(m[id]) else None {
      RegistryHasHolders(calls, topic, id);
    }
    RegistryHasHolders(calls, topic, "");
    assert m.Keys != {};
    var some :| some in m.Keys;
    assert some in ids;
    forall p ensures p in list <==> exists id :: Holds(calls, topic, id, p) {
      if p in list {
        var k :| 0 <= k < |list| && list[k] == p;
        assert Holds(calls, topic, ids[k], p);
      }
      if id :| Holds(calls, topic, id, p) {
        var k :| 0 <= k < |ids| && ids[k] == id;
        assert list[k] == p;
      }
    }
  }

  /** After any sequence of calls, UnregisterAllMessageProcessors succeeds exactly when every topic a
      processor was ever registered on still has one. */
  method UnregisterAllAfter(calls: seq<Registration>) returns (err: Option<HandlerError>)
    ensures err.None? <==> Touched(calls) == AfterAll(map[], calls).Keys
  {
    hide *;
    var handler := new MessagesHandler();
    Perform(handler, calls);
    handler.NilEntries();
    err := handler.UnregisterAllMessageProcessors();
  }

  lemma TwoCalls(topic: Topic, identifier: Identifier, p: Processor)
    ensures AfterAll(map[], [Register(topic, identifier, Some(p)), Unregister(topic, identifier)]) == map[]
  {
    var a, b := Register(topic, identifier, Some(p)), Unregister(topic, identifier);
    assert [a, b][..1] == [a] && [a][..0] == [];
    assert AfterAll(map[], [a]) == After(AfterAll(map[], []), a) == map[topic := map[identifier := p]];
    assert map[identifier := p].Keys == {identifier};
    assert AfterAll(map[], [a, b]) == After(map[topic := map[identifier := p]], b);
    assert (map[topic := map[identifier := p]] - {topic}).Keys == {};
  }

  /** One processor registered and unregistered again, and UnregisterAllMessageProcessors fails. */
  method UnregisterAllFails(topic: Topic, identifier: Identifier, p: Processor) returns (err: Option<HandlerError>)
    ensures err.Some?
  {
    var calls := [Register(topic, identifier, Some(p)), Unregister(topic, identifier)];
    err := UnregisterAllAfter(calls);
    assert calls[0].topic in Touched(calls);
    TwoCalls(topic, identifier, p);
  }

  predicate NonNil(m: map<Topic, TopicProcessors?>, topics: set<Topic>) {
    forall t | t in topics :: t in m && m[t] != null
  }

  lemma OneMoreGone(m: map<Topic, TopicProcessors?>, gone: set<Topic>, topic: Topic)
    requires NonNil(m, gone) && topic in m - gone && (m - gone)[topic] != null
    ensures NonNil(m, gone + {topic}) && m - gone - {topic} == m - (gone + {topic})
  {
  }

  lemma AllGone(m: map<Topic, TopicProcessors?>, gone: set<Topic>)
    requires m - gone == map[] && NonNil(m, gone)
    ensures forall t | t in m :: m[t] != null
  {
    assert forall t | t in m :: t in m - gone || t in gone;
  }

  /** Every processor gets the message, also after one has refused it. */
  method RunProcessors(msgProcessors: seq<Processor>, accepts: Processor -> bool) returns (messageOk: bool, called: seq<Processor>)
    ensures called == msgProcessors && (messageOk <==> forall p | p in called :: accepts(p))
  {
    messageOk, called := true, [];
    for index := 0 to |msgProcessors|
      invariant called == msgProcessors[..index]
      invariant messageOk <==> forall k :: 0 <= k < index ==> accepts(msgProcessors[k])
    {
      called := called + [msgProcessors[index]];
      if !accepts(msgProcessors[index]) {
        messageOk := false;
      }
    }
    assert called == msgProcessors;
    if !messageOk {
      var k :| 0 <= k < |msgProcessors| && !accepts(msgProcessors[k]);
      var p := msgProcessors[k];
      assert p in called && !accepts(p);
    } else {
      forall p | p in called ensures accepts(p) {
        var k :| 0 <= k < |called| && called[k] == p;
        assert accepts(msgProcessors[k]);
      }
    }
  }

  /** The identifiers among `ids` that `p` serves. */
  function Serving(m: map<Identifier, Processor>, ids: set<Identifier>, p: Processor): set<Identifier> {
    set id | id in ids && id in m && m[id] == p
  }

  function Members(ids: seq<Identifier>): set<Identifier> {
    set id | id in ids
  }

  lemma ServingOneMore(m: map<Identifier, Processor>, ids: set<Identifier>, id: Identifier, p: Processor)
    requires id in m && id !in ids
    ensures |Serving(m, ids + {id}, p)| == |Serving(m, ids, p)| + if m[id] == p then 1 else 0
  {
    assert Serving(m, ids + {id}, p) == if m[id] == p then Serving(m, ids, p) + {id} else Serving(m, ids, p);
  }

  /** How often a processor is listed: once for every identifier it serves. */
  lemma {:induction false} ListedPerIdentifier(m: map<Identifier, Processor>, ids: seq<Identifier>, list: seq<Processor>, p: Processor)
    requires |ids| == |list|
    requires NoRepeats(ids)
    requires forall i :: 0 <= i < |ids| ==> ids[i] in m && list[i] == m[ids[i]]
    ensures multiset(list)[p] == |Serving(m, Members(ids), p)|
    decreases |ids|
  {
    hide Serving;
    if ids == [] {
      assert Serving(m, {}, p) == {} by { NoneServing(m, p); }
      assert Members(ids) == {};
    } else {
      var n := |ids| - 1;
      ListedPerIdentifier(m, ids[..n], list[..n], p);
      assert list == list[..n] + [list[n]];
      assert ids == ids[..n] + [ids[n]];
      assert Members(ids) == Members(ids[..n]) + {ids[n]};
      ServingOneMore(m, Members(ids[..n]), ids[n], p);
    }
  }

  lemma NoneServing(m: map<Identifier, Processor>, p: Processor)
    ensures Serving(m, {}, p) == {}
  {
  }

  /** Both ways reach the same processors, each as often, whatever order the lists come in. */
  lemma SameProcessors(m: map<Identifier, Processor>, ids: seq<Identifier>, list: seq<Processor>,
                       ids': seq<Identifier>, list': seq<Processor>)
    requires Enumerates(ids, list, m) && Enumerates(ids', list', m)
    ensures multiset(list) == multiset(list')
  {
    assert Members(ids) == m.Keys == Members(ids');
    forall p ensures multiset(list)[p] == multiset(list')[p] {
      ListedPerIdentifier(m, ids, list, p);
      ListedPerIdentifier(m, ids', list', p);
    }
  }

  lemma EmptyList(identifiers: seq<Identifier>, m: map<Identifier, Processor>, before: map<Identifier, Processor>, identifier: Identifier)
    requires forall id :: id in m ==> id in identifiers
    requires forall i :: 0 <= i < |identifiers| ==> identifiers[i] in m
    requires identifier in before && m == before - {identifier}
    ensures identifiers == [] <==> m == map[]
    ensures m == map[] <==> before.Keys == {identifier}
  {
    assert m.Keys == before.Keys - {identifier};
    assert m == map[] <==> m.Keys == {};
    if identifiers == [] {
      assert forall id :: id !in m.Keys;
    } else {
      assert identifiers[0] in m.Keys;
    }
  }
}
