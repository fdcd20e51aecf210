/** One websocket transceiver: the acknowledgement bookkeeping of websocket/transceiver/transceiver.go. */
module Transceivers {
  import opened Basics
  import opened Bits
  import opened Codec
  import opened CodecLaws
  import opened WsCodec

  const ACK_MESSAGE: int32 := 1
  const PAYLOAD_MESSAGE: int32 := 2

  datatype Config = Config(withAcknowledge: bool, blockingAckOnError: bool, payloadVersion: uint32)

  /** A Go channel that is only ever closed: its identity. */
  type Chan = nat

  /** The mutable state: `chans` channels were made, those in `closed` are closed. */
  datatype Acks = Acks(counter: uint64, mapAck: map<uint64, Chan>, closed: set<Chan>, chans: nat)

  const NO_ACKS := Acks(0, map[], {}, 0)

  /** `counter++` on 64 bits. */
  function Increment(counter: uint64): uint64 {
    (counter + 1) % TWO_64
  }

  function Prepare(a: Acks, withAcknowledge: bool): Acks {
    var c := Increment(a.counter);
    Acks(c, if withAcknowledge then a.mapAck[c := a.chans] else a.mapAck, a.closed, a.chans + 1)
  }

  function HandleAck(a: Acks, counter: uint64): Acks {
    if counter in a.mapAck
    then a.(mapAck := a.mapAck - {counter}, closed := a.closed + {a.mapAck[counter]})
    else a
  }

  /** Every pending channel exists, is open, and is pending under one counter only. */
  predicate Tidy(a: Acks) {
    && (forall c | c in a.mapAck :: a.mapAck[c] < a.chans && a.mapAck[c] !in a.closed)
    && (forall c, c' | c in a.mapAck && c' in a.mapAck && a.mapAck[c] == a.mapAck[c'] :: c == c')
    && (forall ch | ch in a.closed :: ch < a.chans)
  }

  lemma PrepareTidy(a: Acks, withAcknowledge: bool)
    requires Tidy(a)
    ensures Tidy(Prepare(a, withAcknowledge))
  {
  }

  /** The acknowledgement of a pending counter closes its channel and forgets it; everything else,
      and everything for any other counter, stays as it was. */
  lemma AckCloses(a: Acks, counter: uint64)
    requires Tidy(a)
    ensures var b := HandleAck(a, counter);
            && counter !in b.mapAck && (counter in a.mapAck ==> a.mapAck[counter] in b.closed)
            && (forall c: uint64 | c != counter :: c in b.mapAck <==> c in a.mapAck)
            && (forall c | c in b.mapAck :: b.mapAck[c] == a.mapAck[c])
            && (forall ch | counter !in a.mapAck || ch != a.mapAck[counter] :: ch in b.closed <==> ch in a.closed)
            && b.counter == a.counter && b.chans == a.chans
  {
  }

  lemma HandleAckTidy(a: Acks, counter: uint64)
    requires Tidy(a)
    ensures Tidy(HandleAck(a, counter))
  {
  }

  /** One call of the payload handler: what it was given and whether it succeeded, and the counter
      of the message that led to it, which the handler is not given. */
  datatype Call = Call(payload: seq<byte>, topic: seq<byte>, version: uint32, ok: bool, counter: uint64)

  /** What receiving one websocket message leads to: a call of the payload handler, an
      acknowledgement to write, and the new bookkeeping. */
  datatype Reaction = Reaction(acks: Acks, call: Option<Call>, ack: Option<uint64>)

  /** A decoded message, field by field. */
  datatype Parsed = Parsed(withAcknowledge: bool, counter: uint64, type_: int32,
                           payload: seq<byte>, topic: seq<byte>, version: uint32)

  /** ExtractWsMessage with the protobuf marshaller. */
  function Extract(message: seq<byte>): (r: Option<Parsed>)
    requires |message| <= MAX_INT
  {
    var o := Decode(WS, Zeros(WS), message);
    if o.err.Some? then None
    else
      ReencodeBound(WS, message);
      ViewOf(o.msg);
      var m := o.msg;
      Some(Parsed(m[0].v == 1, m[1].v, m[2].v, m[3].bytes, m[4].bytes, m[5].v))
  }

  lemma ViewOf(m: Message)
    requires Valid(WS, m)
    ensures m[0].Scalar? && m[1].Scalar? && m[2].Scalar? && m[3].Blob? && m[4].Blob? && m[5].Scalar?
    ensures 0 <= m[1].v < TWO_64 && -TWO_31 <= m[2].v < TWO_31 && 0 <= m[5].v < TWO_32
  {
    assert WS[0].Holds(m[0]) && WS[1].Holds(m[1]) && WS[2].Holds(m[2]);
    assert WS[3].Holds(m[3]) && WS[4].Holds(m[4]) && WS[5].Holds(m[5]);
  }

  /** verifyPayloadAndSendAckIfNeeded; `ok` is what the payload handler returns if it is called. */
  function Receive(config: Config, a: Acks, message: seq<byte>, ok: bool): Reaction
    requires |message| <= MAX_INT
  {
    if message == [] then Reaction(a, None, None)
    else
      match Extract(message)
      case None => Reaction(a, None, None)
      case Some(m) =>
        if m.type_ == ACK_MESSAGE then Reaction(HandleAck(a, m.counter), None, None)
        else if m.type_ != PAYLOAD_MESSAGE then Reaction(a, None, None)
        else
          var call := Call(m.payload, m.topic, m.version, ok, m.counter);
          if !ok && config.blockingAckOnError then Reaction(a, Some(call), None)
          else Reaction(a, Some(call), if m.withAcknowledge then Some(m.counter) else None)
  }

  /** What is not a payload and not an acknowledgement has no effect: nothing, bytes that do not
      decode, and messages of another type. */
  lemma ReceiveIgnores(config: Config, a: Acks, message: seq<byte>, ok: bool)
    requires |message| <= MAX_INT
    requires message == [] || Decode(WS, Zeros(WS), message).err.Some?
             || Decode(WS, Zeros(WS), message).msg[2] !in {Scalar(1), Scalar(2)}
    ensures Receive(config, a, message, ok) == Reaction(a, None, None)
  {
    hide Decode, Valid;
    if Decode(WS, Zeros(WS), message).err.None? {
      ReencodeBound(WS, message);
      ViewOf(Decode(WS, Zeros(WS), message).msg);
    }
  }

  class Transceiver {
    const config: Config
    var counter: uint64
    var mapAck: map<uint64, Chan>
    var closed: set<Chan>
    var chans: nat

    function View(): Acks
      reads this
    {
      Acks(counter, mapAck, closed, chans)
    }

    constructor (config: Config)
      ensures this.config == config && View() == NO_ACKS && Tidy(View())
    {
      this.config := config;
      counter, mapAck, closed, chans := 0, map[], {}, 0;
    }

    method PrepareChanAndCounter() returns (ch: Chan, localCounter: uint64)
      requires Tidy(View())
      modifies this
      ensures View() == Prepare(old(View()), config.withAcknowledge) && Tidy(View())
      ensures ch == old(chans) && localCounter == counter && ch !in closed
      ensures counter == (old(counter) + 1) % TWO_64 && chans == old(chans) + 1 && closed == old(closed)
      ensures mapAck == if config.withAcknowledge then old(mapAck)[counter := ch] else old(mapAck)
    {
      counter := (counter + 1) % TWO_64;
      localCounter := counter;
      ch, chans := chans, chans + 1;
      if config.withAcknowledge {
        mapAck := mapAck[localCounter := ch];
      }
    }

    /** `close(ch)`, which panics on a closed channel. */
    method CloseChan(ch: Chan)
      requires ch !in closed
      modifies this`closed
      ensures closed == old(closed) + {ch}
    {
      closed := closed + {ch};
    }

    method HandleAckMessage(ackCounter: uint64)
      requires Tidy(View())
      modifies this
      ensures View() == HandleAck(old(View()), ackCounter) && Tidy(View())
      ensures ackCounter in old(mapAck) ==> mapAck == old(mapAck) - {ackCounter} && closed == old(closed) + {old(mapAck)[ackCounter]}
      ensures ackCounter !in old(mapAck) ==> mapAck == old(mapAck) && closed == old(closed)
      ensures counter == old(counter) && chans == old(chans)
    {
      if ackCounter !in mapAck {
        return;
      }
      var ch := mapAck[ackCounter];
      CloseChan(ch);
      mapAck := mapAck - {ackCounter};
    }

    /** `ok` stands for the answer of the payload handler; the acknowledgement is returned for
        the connection to write. */
    method VerifyPayloadAndSendAckIfNeeded(message: seq<byte>, ok: bool) returns (call: Option<Call>, ack: Option<uint64>)
      requires Tidy(View()) && |message| <= MAX_INT
      modifies this
      ensures Reaction(View(), call, ack) == Receive(config, old(View()), message, ok) && Tidy(View())
    {
      call, ack := None, None;
      if |message| == 0 {
        return;
      }
      var wsMessage := new WsMessage();
      var err := wsMessage.Unmarshal(message);
      if err.Some? {
        return;
      }
      if wsMessage.Type == ACK_MESSAGE {
        HandleAckMessage(wsMessage.Counter);
        return;
      }
      if wsMessage.Type != PAYLOAD_MESSAGE {
        return;
      }
      call := Some(Call(wsMessage.Payload.Elems(), wsMessage.Topic, wsMessage.Version, ok, wsMessage.Counter));
      if !ok && config.blockingAckOnError {
        return;
      }
      if wsMessage.WithAcknowledge {
        ack := Some(wsMessage.Counter);
      }
    }
  }
}
