/** Two transceivers over one connection, as a state machine: concurrent senders and a listener
    on each side, and a network that may lose, delay, reorder and repeat messages. */
module AckProtocol {
  import opened Basics
  import opened Bits
  import opened Varint
  import opened Codec
  import opened WsCodec
  import opened Writing
  import opened Transceivers

  datatype Side = A | B {
    function Other(): Side { if A? then B else A }
  }

  /** Where a call of Send stands: before the write, waiting for the acknowledgement, or returned. */
  datatype Phase = Prepared | Waiting | Returned(ok: bool)

  /** A call of Send; the channel it waits on is its index among the calls of its side. */
  datatype SendCall = SendCall(payload: Slice, topic: seq<byte>, counter: uint64, phase: Phase)

  /** A side: its bookkeeping, its calls of Send, the calls of its payload handler so far, and
      the counters it has decided to acknowledge. */
  datatype Endpoint = Endpoint(config: Config, acks: Acks, sends: seq<SendCall>, calls: seq<Call>, owed: set<uint64>)

  /** Both sides, and every message each of them has written to the connection. */
  datatype System = System(a: Endpoint, b: Endpoint, fromA: set<seq<byte>>, fromB: set<seq<byte>>) {
    function End(side: Side): Endpoint { if side.A? then a else b }
    function Written(side: Side): set<seq<byte>> { if side.A? then fromA else fromB }
    function With(side: Side, e: Endpoint): System { if side.A? then this.(a := e) else this.(b := e) }
    function Writing(side: Side, message: seq<byte>): System {
      if side.A? then this.(fromA := fromA + {message}) else this.(fromB := fromB + {message})
    }
  }

  function Start(config: Config): Endpoint {
    Endpoint(config, NO_ACKS, [], [], {})
  }

  function Initial(configA: Config, configB: Config): System {
    System(Start(configA), Start(configB), {}, {})
  }

  predicate Fits(send: SendCall) {
    |send.payload.Elems()| <= MAX_INT && |send.topic| <= MAX_INT
  }

  /** ConstructPayload for a call of Send. */
  function PayloadBytes(config: Config, send: SendCall): seq<byte>
    requires Fits(send)
  {
    MessageIsValid(config.withAcknowledge, send.counter, PAYLOAD_MESSAGE, send.payload, send.topic, config.payloadVersion);
    Encode(WS, MessageOf(config.withAcknowledge, send.counter, PAYLOAD_MESSAGE, send.payload, send.topic, config.payloadVersion))
  }

  function AckBytes(counter: uint64): seq<byte> {
    MessageIsValid(false, counter, ACK_MESSAGE, NilSlice, [], 0);
    Encode(WS, MessageOf(false, counter, ACK_MESSAGE, NilSlice, [], 0))
  }

  datatype Action =
    | Begin(side: Side, payload: Slice, topic: seq<byte>)  // Send takes a counter and a channel
    | Write(side: Side, i: nat, out: bool, ok: bool)       // Send writes its message; an error may come after it went out
    | Deliver(from: Side, message: seq<byte>, ok: bool)    // the other side's listener reads a message
    | WriteAck(side: Side, counter: uint64)                // a listener writes an acknowledgement
    | Return(side: Side, i: nat)                           // Send finds its channel closed
    | GiveUp(side: Side, i: nat)                           // Send times out, or its side is closed

  predicate Enabled(s: System, action: Action) {
    match action
    case Begin(side, payload, topic) => |payload.Elems()| <= MAX_INT && |topic| <= MAX_INT
    case Write(side, i, out, ok) =>
      var e := s.End(side);
      i < |e.sends| && e.sends[i].phase.Prepared? && Fits(e.sends[i])
      && (ok ==> out) && (out ==> |PayloadBytes(e.config, e.sends[i])| <= MAX_INT)
    case Deliver(from, message, ok) => message in s.Written(from) && |message| <= MAX_INT
    case WriteAck(side, counter) => counter in s.End(side).owed
    case Return(side, i) =>
      var e := s.End(side);
      i < |e.sends| && e.sends[i].phase.Waiting? && i in e.acks.closed
    case GiveUp(side, i) => i < |s.End(side).sends| && s.End(side).sends[i].phase.Waiting?
  }

  function BeginSend(e: Endpoint, payload: Slice, topic: seq<byte>): Endpoint {
    var acks := Prepare(e.acks, e.config.withAcknowledge);
    e.(acks := acks, sends := e.sends + [SendCall(payload, topic, acks.counter, Prepared)])
  }

  function SetPhase(e: Endpoint, i: nat, phase: Phase): Endpoint
    requires i < |e.sends|
  {
    e.(sends := e.sends[i := e.sends[i].(phase := phase)])
  }

  function ReceiveAt(e: Endpoint, message: seq<byte>, ok: bool): Endpoint
    requires |message| <= MAX_INT
  {
    var r := Receive(e.config, e.acks, message, ok);
    e.(acks := r.acks,
       calls := if r.call.Some? then e.calls + [r.call.value] else e.calls,
       owed := if r.ack.Some? then e.owed + {r.ack.value} else e.owed)
  }

  function Apply(s: System, action: Action): System
    requires Enabled(s, action)
  {
    match action
    case Begin(side, payload, topic) => s.With(side, BeginSend(s.End(side), payload, topic))
    case Write(side, i, out, ok) =>
      var e := s.End(side);
      var t := s.With(side, SetPhase(e, i, if ok && e.config.withAcknowledge then Waiting else Returned(ok)));
      if out then t.Writing(side, PayloadBytes(e.config, e.sends[i])) else t
    case Deliver(from, message, ok) =>
      s.With(from.Other(), ReceiveAt(s.End(from.Other()), message, ok))
    case WriteAck(side, counter) => s.Writing(side, AckBytes(counter))
    case Return(side, i) => s.With(side, SetPhase(s.End(side), i, Returned(true)))
    case GiveUp(side, i) => s.With(side, SetPhase(s.End(side), i, Returned(false)))
  }

  /** The state after a run of actions, if each of them is enabled in turn. */
  function Exec(s: System, run: seq<Action>): Option<System> {
    if run == [] then Some(s)
    else
      match Exec(s, run[..|run| - 1])
      case None => None
      case Some(t) => if Enabled(t, run[|run| - 1]) then Some(Apply(t, run[|run| - 1])) else None
  }

  // ---------------------------------------------------------------- messages

  lemma ExtractEncoded(ack: bool, counter: uint64, type_: int32, payload: Slice, topic: seq<byte>, version: uint32)
    requires |payload.Elems()| <= MAX_INT && |topic| <= MAX_INT
    requires var m := MessageOf(ack, counter, type_, payload, topic, version);
             Valid(WS, m) && |Encode(WS, m)| <= MAX_INT
    ensures Extract(Encode(WS, MessageOf(ack, counter, type_, payload, topic, version)))
         == Some(Parsed(ack, counter, type_, payload.Elems(), topic, version))
    ensures type_ != 0 ==> Encode(WS, MessageOf(ack, counter, type_, payload, topic, version)) != []
  {
    hide Encode, Decode, Valid, Size;
    WsRoundTrip(ack, counter, type_, payload, topic, version);
    if Encode(WS, MessageOf(ack, counter, type_, payload, topic, version)) == [] {
      EmptyDecodes();
    }
  }

  lemma EmptyDecodes()
    ensures Decode(WS, Zeros(WS), []) == Outcome(None, Zeros(WS)) && Zeros(WS)[2] == Scalar(0)
  {
  }

  /** What is written: type 2 with the content of the send, and type 1 with nothing but the counter. */
  lemma WrittenMessages(config: Config, send: SendCall, counter: uint64)
    requires Fits(send)
    ensures Valid(WS, MessageOf(config.withAcknowledge, send.counter, 2, send.payload, send.topic, config.payloadVersion))
    ensures PayloadBytes(config, send)
         == Encode(WS, MessageOf(config.withAcknowledge, send.counter, 2, send.payload, send.topic, config.payloadVersion))
    ensures Valid(WS, MessageOf(false, counter, 1, NilSlice, [], 0))
    ensures AckBytes(counter) == Encode(WS, MessageOf(false, counter, 1, NilSlice, [], 0))
  {
    hide Encode, Valid;
    MessageIsValid(config.withAcknowledge, send.counter, 2, send.payload, send.topic, config.payloadVersion);
    MessageIsValid(false, counter, 1, NilSlice, [], 0);
  }

  lemma ReceivePayload(config: Config, acks: Acks, from: Config, send: SendCall, ok: bool)
    requires Fits(send) && |PayloadBytes(from, send)| <= MAX_INT
    ensures Receive(config, acks, PayloadBytes(from, send), ok)
         == Reaction(acks, Some(Call(send.payload.Elems(), send.topic, from.payloadVersion, ok, send.counter)),
                     if from.withAcknowledge && (ok || !config.blockingAckOnError) then Some(send.counter) else None)
  {
    hide Encode, Extract, Valid;
    MessageIsValid(from.withAcknowledge, send.counter, PAYLOAD_MESSAGE, send.payload, send.topic, from.payloadVersion);
    ExtractEncoded(from.withAcknowledge, send.counter, PAYLOAD_MESSAGE, send.payload, send.topic, from.payloadVersion);
  }

  lemma ReceiveAck(config: Config, acks: Acks, counter: uint64, ok: bool)
    requires |AckBytes(counter)| <= MAX_INT
    ensures Receive(config, acks, AckBytes(counter), ok) == Reaction(HandleAck(acks, counter), None, None)
  {
    hide Encode, Extract, Valid, HandleAck;
    MessageIsValid(false, counter, ACK_MESSAGE, NilSlice, [], 0);
    ExtractEncoded(false, counter, ACK_MESSAGE, NilSlice, [], 0);
  }

  // ---------------------------------------------------------------- the invariant

  /** The payload handler of `p` was called with exactly what send `i` of `e` carries; where `p`
      acknowledges only on success, that call succeeded. */
  predicate Processed(p: Endpoint, e: Endpoint, i: nat)
    requires i < |e.sends|
  {
    exists k :: 0 <= k < |p.calls| && Matches(p.calls[k], p.config, e.config, e.sends[i])
  }

  predicate Matches(call: Call, receiver: Config, sender: Config, send: SendCall) {
    && call.payload == send.payload.Elems() && call.topic == send.topic
    && call.version == sender.payloadVersion && call.counter == send.counter
    && (receiver.blockingAckOnError ==> call.ok)
  }

  /** No more calls of Send than there are counters, so that each has its own. */
  predicate NoWrap(e: Endpoint) {
    |e.sends| <= TWO_64
  }

  /** The call of Send that got counter `c`: the counters run 1, 2, ..., and 0 comes last. */
  function IndexOf(c: uint64): nat {
    if c == 0 then TWO_64 - 1 else c - 1
  }

  /** The counters issued so far split into the pending ones, whose channel is open, and the
      acknowledged ones, whose channel is closed. */
  predicate Split(e: Endpoint) {
    && e.acks.counter == |e.sends| % TWO_64
    && (forall i :: 0 <= i < |e.sends| ==> IndexOf(e.sends[i].counter) == i)
    && (forall c | c in e.acks.mapAck :: IndexOf(c) < |e.sends| && e.acks.mapAck[c] == IndexOf(c))
    && (e.config.withAcknowledge ==>
          forall i :: 0 <= i < |e.sends| ==> (e.sends[i].counter in e.acks.mapAck <==> i !in e.acks.closed))
  }

  predicate Bookkeeping(e: Endpoint) {
    && Tidy(e.acks) && e.acks.chans == |e.sends|
    && (NoWrap(e) ==> Split(e))
    && (forall i :: 0 <= i < |e.sends| ==> Fits(e.sends[i]))
    && (forall i :: 0 <= i < |e.sends| && e.sends[i].phase == Returned(true) && e.config.withAcknowledge
          ==> i in e.acks.closed)
  }

  predicate IsSend(e: Endpoint, i: nat, message: seq<byte>)
    requires i < |e.sends|
  {
    Fits(e.sends[i]) && message == PayloadBytes(e.config, e.sends[i])
  }

  /** Only sends and acknowledgements are ever written. */
  predicate Genuine(e: Endpoint, written: set<seq<byte>>) {
    forall m | m in written ::
      || (exists i :: 0 <= i < |e.sends| && IsSend(e, i, m))
      || (exists c :: c in e.owed && m == AckBytes(c))
  }

  /** `p` acknowledges, and `e` takes as acknowledged, only what `p` has processed. */
  predicate Honest(e: Endpoint, p: Endpoint) {
    NoWrap(e) ==>
      && (forall c | c in p.owed :: IndexOf(c) < |e.sends| && Processed(p, e, IndexOf(c)))
      && (forall i | i in e.acks.closed :: i < |e.sends| && Processed(p, e, i))
  }

  predicate Good(e: Endpoint, p: Endpoint, written: set<seq<byte>>) {
    Bookkeeping(e) && Genuine(e, written) && Honest(e, p)
  }

  predicate Inv(s: System) {
    Good(s.a, s.b, s.fromA) && Good(s.b, s.a, s.fromB)
  }

  // ---------------------------------------------------------------- every step keeps it

  lemma ProcessedLater(p: Endpoint, p': Endpoint, e: Endpoint, e': Endpoint, i: nat)
    requires i < |e.sends| <= |e'.sends| && Processed(p, e, i)
    requires p'.config == p.config && p.calls <= p'.calls && e'.config == e.config
    requires e'.sends[i] == e.sends[i].(phase := e'.sends[i].phase)
    ensures Processed(p', e', i)
  {
    var k :| 0 <= k < |p.calls| && Matches(p.calls[k], p.config, e.config, e.sends[i]);
    assert p'.calls[k] == p.calls[k];
  }

  /** The two sides of `Honest` survive as long as calls and acknowledgements only accumulate. */
  lemma HonestLater(e: Endpoint, p: Endpoint, e': Endpoint, p': Endpoint)
    requires Honest(e, p) && |e.sends| <= |e'.sends| && e'.config == e.config && p'.config == p.config
    requires p.calls <= p'.calls && p'.owed <= p.owed && e'.acks.closed <= e.acks.closed
    requires forall i :: 0 <= i < |e.sends| ==> e'.sends[i] == e.sends[i].(phase := e'.sends[i].phase)
    ensures Honest(e', p')
  {
    if NoWrap(e') {
      forall c | c in p'.owed ensures IndexOf(c) < |e'.sends| && Processed(p', e', IndexOf(c)) {
        ProcessedLater(p, p', e, e', IndexOf(c));
      }
      forall i | i in e'.acks.closed ensures i < |e'.sends| && Processed(p', e', i) {
        ProcessedLater(p, p', e, e', i);
      }
    }
  }

  lemma PhaseNotWritten(config: Config, send: SendCall, phase: Phase)
    requires Fits(send)
    ensures PayloadBytes(config, send.(phase := phase)) == PayloadBytes(config, send)
  {
    hide Encode, Valid;
  }

  lemma GenuineLater(e: Endpoint, e': Endpoint, written: set<seq<byte>>)
    requires Genuine(e, written) && e'.config == e.config && |e.sends| <= |e'.sends| && e.owed <= e'.owed
    requires forall i :: 0 <= i < |e.sends| ==> e'.sends[i] == e.sends[i].(phase := e'.sends[i].phase)
    ensures Genuine(e', written)
  {
    hide PayloadBytes, AckBytes, Fits;
    forall m | m in written && exists i :: 0 <= i < |e.sends| && IsSend(e, i, m)
      ensures exists i :: 0 <= i < |e'.sends| && IsSend(e', i, m)
    {
      var i :| 0 <= i < |e.sends| && IsSend(e, i, m);
      PhaseNotWritten(e.config, e.sends[i], e'.sends[i].phase);
      assert Fits(e'.sends[i]) by { assert Fits(e.sends[i]); FitsLater(e.sends[i], e'.sends[i].phase); }
      assert IsSend(e', i, m);
    }
  }

  lemma FitsLater(send: SendCall, phase: Phase)
    requires Fits(send)
    ensures Fits(send.(phase := phase))
  {
  }

  lemma BeginKeeps(e: Endpoint, p: Endpoint, written: set<seq<byte>>, written': set<seq<byte>>, payload: Slice, topic: seq<byte>)
    requires Good(e, p, written) && Good(p, e, written')
    requires |payload.Elems()| <= MAX_INT && |topic| <= MAX_INT
    ensures var e' := BeginSend(e, payload, topic); Good(e', p, written) && Good(p, e', written')
  {
    hide Encode, Valid, Genuine, Honest, Bookkeeping;
    var e' := BeginSend(e, payload, topic);
    BeginBookkeeping(e, payload, topic);
    GenuineLater(e, e', written);
    HonestLater(e, p, e', p);
    HonestLater(p, e, p, e');
  }

  lemma BeginBookkeeping(e: Endpoint, payload: Slice, topic: seq<byte>)
    requires Bookkeeping(e) && |payload.Elems()| <= MAX_INT && |topic| <= MAX_INT
    ensures Bookkeeping(BeginSend(e, payload, topic))
  {
    hide Split;
    PrepareTidy(e.acks, e.config.withAcknowledge);
    if |e.sends| + 1 <= TWO_64 { BeginSplit(e, payload, topic); }
  }

  lemma BeginSplit(e: Endpoint, payload: Slice, topic: seq<byte>)
    requires Split(e) && e.acks.chans == |e.sends| && |e.sends| + 1 <= TWO_64
    requires forall ch | ch in e.acks.closed :: ch < e.acks.chans
    ensures Split(BeginSend(e, payload, topic))
  {
    var e' := BeginSend(e, payload, topic);
    assert IndexOf(Increment(e.acks.counter)) == |e.sends|;
  }

  lemma PhaseKeeps(e: Endpoint, p: Endpoint, written: set<seq<byte>>, written': set<seq<byte>>, i: nat, phase: Phase)
    requires Good(e, p, written) && Good(p, e, written') && i < |e.sends|
    requires phase == Returned(true) && e.config.withAcknowledge ==> i in e.acks.closed
    ensures Good(SetPhase(e, i, phase), p, written) && Good(p, SetPhase(e, i, phase), written')
  {
    hide Encode, Valid, Genuine, Honest, Tidy;
    var e' := SetPhase(e, i, phase);
    GenuineLater(e, e', written);
    HonestLater(e, p, e', p);
    HonestLater(p, e, p, e');
  }

  lemma WriteKeeps(e: Endpoint, written: set<seq<byte>>, i: nat)
    requires Genuine(e, written) && i < |e.sends| && Fits(e.sends[i])
    ensures Genuine(e, written + {PayloadBytes(e.config, e.sends[i])})
  {
    hide Encode, Valid;
    assert IsSend(e, i, PayloadBytes(e.config, e.sends[i]));
  }

  /** Reading a send: the receiver calls its handler with what was sent, and what it then owes
      an acknowledgement for is what it has processed. */
  lemma DeliverSendKeeps(e: Endpoint, p: Endpoint, written: set<seq<byte>>, written': set<seq<byte>>, i: nat, ok: bool)
    requires Good(e, p, written) && Good(p, e, written') && i < |e.sends|
    requires |PayloadBytes(e.config, e.sends[i])| <= MAX_INT
    ensures var p' := ReceiveAt(p, PayloadBytes(e.config, e.sends[i]), ok);
            Good(e, p', written) && Good(p', e, written')
  {
    hide Encode, Valid, Genuine, Receive, PayloadBytes, Tidy;
    var send := e.sends[i];
    ReceivePayload(p.config, p.acks, e.config, send, ok);
    var p' := ReceiveAt(p, PayloadBytes(e.config, send), ok);
    GenuineLater(p, p', written');
    HonestLater(p, e, p', e);
    if NoWrap(e) {
      forall c | c in p'.owed ensures IndexOf(c) < |e.sends| && Processed(p', e, IndexOf(c)) {
        if c in p.owed {
          ProcessedLater(p, p', e, e, IndexOf(c));
        } else {
          assert Matches(p'.calls[|p.calls|], p'.config, e.config, send);
        }
      }
      forall j | j in e.acks.closed ensures j < |e.sends| && Processed(p', e, j) {
        ProcessedLater(p, p', e, e, j);
      }
    }
  }

  /** Reading an acknowledgement: `e` owed it, so it had processed the send that `p` now takes
      as acknowledged. */
  lemma DeliverAckKeeps(e: Endpoint, p: Endpoint, written: set<seq<byte>>, written': set<seq<byte>>, counter: uint64, ok: bool)
    requires Good(e, p, written) && Good(p, e, written') && counter in e.owed
    requires |AckBytes(counter)| <= MAX_INT
    ensures var p' := ReceiveAt(p, AckBytes(counter), ok); Good(e, p', written) && Good(p', e, written')
  {
    hide Encode, Valid, Genuine, Receive, AckBytes;
    ReceiveAck(p.config, p.acks, counter, ok);
    HandleAckTidy(p.acks, counter);
    var p' := ReceiveAt(p, AckBytes(counter), ok);
    GenuineLater(p, p', written');
    HonestLater(e, p, e, p');
    AckSplit(p, p', counter);
    if NoWrap(p) {
      forall c | c in e.owed ensures IndexOf(c) < |p'.sends| && Processed(e, p', IndexOf(c)) {
        ProcessedLater(e, e, p, p', IndexOf(c));
      }
      forall i | i in p'.acks.closed ensures i < |p'.sends| && Processed(e, p', i) {
        assert i in p.acks.closed || i == IndexOf(counter);
        ProcessedLater(e, e, p, p', i);
      }
    }
  }

  lemma AckSplit(p: Endpoint, p': Endpoint, counter: uint64)
    requires Bookkeeping(p) && p' == p.(acks := HandleAck(p.acks, counter))
    ensures Bookkeeping(p')
    ensures NoWrap(p) ==> forall i | i in p'.acks.closed :: i in p.acks.closed || i == IndexOf(counter)
  {
    hide Tidy, Split;
    HandleAckTidy(p.acks, counter);
    if NoWrap(p) { AckSplits(p, p', counter); }
  }

  lemma AckSplits(p: Endpoint, p': Endpoint, counter: uint64)
    requires Split(p) && p' == p.(acks := HandleAck(p.acks, counter))
    ensures Split(p')
    ensures forall i | i in p'.acks.closed :: i in p.acks.closed || i == IndexOf(counter)
  {
    if counter in p.acks.mapAck {
      assert p.acks.mapAck[counter] == IndexOf(counter);
    }
  }

  lemma DeliverKeeps(e: Endpoint, p: Endpoint, written: set<seq<byte>>, written': set<seq<byte>>, message: seq<byte>, ok: bool)
    requires Good(e, p, written) && Good(p, e, written') && message in written && |message| <= MAX_INT
    ensures Good(e, ReceiveAt(p, message, ok), written) && Good(ReceiveAt(p, message, ok), e, written')
  {
    hide Encode, Valid, Bookkeeping, Honest, ReceiveAt, PayloadBytes, AckBytes;
    if i :| 0 <= i < |e.sends| && IsSend(e, i, message) {
      DeliverSendKeeps(e, p, written, written', i, ok);
    } else {
      var c :| c in e.owed && message == AckBytes(c);
      DeliverAckKeeps(e, p, written, written', c, ok);
    }
  }

  lemma StepKeeps(s: System, action: Action)
    requires Inv(s) && Enabled(s, action)
    ensures Inv(Apply(s, action))
  {
    hide Encode, Valid, Bookkeeping, Honest, Genuine, ReceiveAt, PayloadBytes, AckBytes, BeginSend, SetPhase;
    match action
    case Begin(side, payload, topic) =>
      BeginKeeps(s.End(side), s.End(side.Other()), s.Written(side), s.Written(side.Other()), payload, topic);
    case Write(side, i, out, ok) => WriteStepKeeps(s, side, i, out, ok);
    case Deliver(from, message, ok) =>
      DeliverKeeps(s.End(from), s.End(from.Other()), s.Written(from), s.Written(from.Other()), message, ok);
    case WriteAck(side, counter) => WriteAckKeeps(s.End(side), s.Written(side), counter);
    case Return(side, i) =>
      PhaseKeeps(s.End(side), s.End(side.Other()), s.Written(side), s.Written(side.Other()), i, Returned(true));
    case GiveUp(side, i) =>
      PhaseKeeps(s.End(side), s.End(side.Other()), s.Written(side), s.Written(side.Other()), i, Returned(false));
  }

  lemma WriteAckKeeps(e: Endpoint, written: set<seq<byte>>, counter: uint64)
    requires Genuine(e, written) && counter in e.owed
    ensures Genuine(e, written + {AckBytes(counter)})
  {
    hide Encode, Valid, PayloadBytes;
  }

  lemma WriteStepKeeps(s: System, side: Side, i: nat, out: bool, ok: bool)
    requires Inv(s) && Enabled(s, Write(side, i, out, ok))
    ensures Inv(Apply(s, Write(side, i, out, ok)))
  {
    hide Encode, Valid, Bookkeeping, Honest, Genuine;
    var e, p := s.End(side), s.End(side.Other());
    var phase := if ok && e.config.withAcknowledge then Waiting else Returned(ok);
    if out { WriteKeeps(e, s.Written(side), i); }
    var written := if out then s.Written(side) + {PayloadBytes(e.config, e.sends[i])} else s.Written(side);
    PhaseKeeps(e, p, written, s.Written(side.Other()), i, phase);
  }

  lemma {:induction false} RunKeeps(configA: Config, configB: Config, run: seq<Action>)
    requires Exec(Initial(configA, configB), run).Some?
    ensures Inv(Exec(Initial(configA, configB), run).value)
    ensures Exec(Initial(configA, configB), run).value.a.config == configA
    ensures Exec(Initial(configA, configB), run).value.b.config == configB
  {
    hide Apply, Enabled;
    if run != [] {
      RunKeeps(configA, configB, run[..|run| - 1]);
      StepKeeps(Exec(Initial(configA, configB), run[..|run| - 1]).value, run[|run| - 1]);
      StepConfigs(Exec(Initial(configA, configB), run[..|run| - 1]).value, run[|run| - 1]);
    }
  }

  lemma StepConfigs(s: System, action: Action)
    requires Enabled(s, action)
    ensures Apply(s, action).a.config == s.a.config && Apply(s, action).b.config == s.b.config
  {
    hide Encode, Valid, PayloadBytes, Receive;
  }

  // ---------------------------------------------------------------- what every run guarantees

  /** In every run with at most 2^64 calls of Send on a side: a Send with acknowledgement that
      returned nil was processed by the other side, with exactly its payload, topic and version,
      and successfully if that side acknowledges only on success. */
  lemma AcknowledgedWasProcessed(configA: Config, configB: Config, run: seq<Action>, side: Side, i: nat)
    requires Exec(Initial(configA, configB), run).Some?
    requires var e := Exec(Initial(configA, configB), run).value.End(side);
             e.config.withAcknowledge && NoWrap(e) && i < |e.sends| && e.sends[i].phase == Returned(true)
    ensures var s := Exec(Initial(configA, configB), run).value;
            Processed(s.End(side.Other()), s.End(side), i)
  {
    hide Exec;
    RunKeeps(configA, configB, run);
  }

  /** No call of the handler stands for two calls of Send, however alike they are: so every
      acknowledged Send has a processing of its own. */
  lemma OwnProcessing(configA: Config, configB: Config, run: seq<Action>, side: Side, i: nat, j: nat, call: Call)
    requires Exec(Initial(configA, configB), run).Some?
    requires var s := Exec(Initial(configA, configB), run).value;
             var e, p := s.End(side), s.End(side.Other());
             && NoWrap(e) && i < |e.sends| && j < |e.sends|
             && Matches(call, p.config, e.config, e.sends[i]) && Matches(call, p.config, e.config, e.sends[j])
    ensures i == j
  {
    hide Exec;
    RunKeeps(configA, configB, run);
    var e := Exec(Initial(configA, configB), run).value.End(side);
    assert IndexOf(e.sends[i].counter) == i && IndexOf(e.sends[j].counter) == j;
  }

  /** In every run with fewer than 2^64 calls of Send on a side that uses acknowledgements: the
      counters issued, 1 up to the current one, are the pending ones and the acknowledged ones,
      each one of the two; a counter's channel is open while pending and closed from then on. */
  lemma CountersSplit(configA: Config, configB: Config, run: seq<Action>, side: Side, c: int)
    requires Exec(Initial(configA, configB), run).Some?
    requires var e := Exec(Initial(configA, configB), run).value.End(side);
             e.config.withAcknowledge && |e.sends| < TWO_64
    ensures var e := Exec(Initial(configA, configB), run).value.End(side);
            && (1 <= c <= e.acks.counter <==> (c in e.acks.mapAck || c - 1 in e.acks.closed))
            && !(c in e.acks.mapAck && c - 1 in e.acks.closed)
            && (c in e.acks.mapAck ==> e.acks.mapAck[c] == c - 1)
  {
    hide Exec, Bookkeeping;
    RunKeeps(configA, configB, run);
    SplitCounters(Exec(Initial(configA, configB), run).value.End(side), c);
  }

  lemma SplitCounters(e: Endpoint, c: int)
    requires Bookkeeping(e) && e.config.withAcknowledge && |e.sends| < TWO_64
    ensures 1 <= c <= e.acks.counter <==> (c in e.acks.mapAck || c - 1 in e.acks.closed)
    ensures !(c in e.acks.mapAck && c - 1 in e.acks.closed)
    ensures c in e.acks.mapAck ==> e.acks.mapAck[c] == c - 1
  {
    if 1 <= c <= |e.sends| { assert e.sends[c - 1].counter == c; }
  }

  /** In a run without counter wrap, a Send that waits returns nil once its acknowledgement is read,
      whether it was read before or not. */
  lemma AckEnablesReturn(configA: Config, configB: Config, run: seq<Action>, side: Side, i: nat, ok: bool)
    requires Exec(Initial(configA, configB), run).Some?
    requires var s := Exec(Initial(configA, configB), run).value;
             var e := s.End(side);
             && e.config.withAcknowledge && NoWrap(e) && i < |e.sends| && e.sends[i].phase.Waiting?
             && AckBytes(e.sends[i].counter) in s.Written(side.Other())
    ensures var s := Exec(Initial(configA, configB), run).value;
            var read := Deliver(side.Other(), AckBytes(s.End(side).sends[i].counter), ok);
            Enabled(s, read) && Enabled(Apply(s, read), Return(side, i))
  {
    hide Exec, AckBytes, PayloadBytes, Receive;
    RunKeeps(configA, configB, run);
    var s := Exec(Initial(configA, configB), run).value;
    var e := s.End(side);
    AckFits(e.sends[i].counter);
    ReceiveAck(e.config, e.acks, e.sends[i].counter, ok);
    AckCloses(e.acks, e.sends[i].counter);
    assert IndexOf(e.sends[i].counter) == i;
  }

  lemma AckFits(counter: uint64)
    ensures |AckBytes(counter)| <= MAX_INT
  {
    SmallMessageFits(SendCall(NilSlice, [], counter, Prepared));
  }

  /** In every run, however long: a pending channel is open, so no channel is closed twice. */
  lemma NoChannelClosedTwice(configA: Config, configB: Config, run: seq<Action>, side: Side, c: uint64)
    requires Exec(Initial(configA, configB), run).Some?
    ensures var a := Exec(Initial(configA, configB), run).value.End(side).acks;
            c in a.mapAck ==> a.mapAck[c] !in a.closed
  {
    hide Exec;
    RunKeeps(configA, configB, run);
  }

  /** Once an acknowledgement was handled, the same one, or one for a counter that is not
      pending, changes nothing. */
  lemma RepeatedAckChangesNothing(config: Config, acks: Acks, counter: uint64, ok: bool)
    requires |AckBytes(counter)| <= MAX_INT
    ensures var once := Receive(config, acks, AckBytes(counter), ok).acks;
            Receive(config, once, AckBytes(counter), ok).acks == once
    ensures counter !in acks.mapAck ==> Receive(config, acks, AckBytes(counter), ok).acks == acks
  {
    hide Receive;
    ReceiveAck(config, acks, counter, ok);
    ReceiveAck(config, HandleAck(acks, counter), counter, ok);
  }

  // ---------------------------------------------------------------- counter wrap

  lemma ExecStep(s: System, run: seq<Action>, action: Action)
    requires Exec(s, run).Some? && Enabled(Exec(s, run).value, action)
    ensures Exec(s, run + [action]) == Some(Apply(Exec(s, run).value, action))
  {
    assert (run + [action])[..|run|] == run;
  }

  /** A Send whose write fails uses up a counter and leaves everything but its own entry as it was. */
  predicate OnlyFailedSends(s: System, t: System, n: nat) {
    && t.b == s.b && t.fromA == s.fromA && t.fromB == s.fromB
    && t.a.config == s.a.config && t.a.calls == s.a.calls && t.a.owed == s.a.owed
    && t.a.acks.closed == s.a.acks.closed && t.a.acks.counter == (s.a.acks.counter + n) % TWO_64
    && t.a.acks.chans == s.a.acks.chans + n
    && |t.a.sends| == |s.a.sends| + n
  }

  lemma FailedSend(start: System, run: seq<Action>) returns (run': seq<Action>)
    requires Exec(start, run).Some? && |Exec(start, run).value.a.sends| == Exec(start, run).value.a.acks.chans
    ensures Exec(start, run').Some? && OnlyFailedSends(Exec(start, run).value, Exec(start, run').value, 1)
  {
    hide Exec, PayloadBytes;
    var s := Exec(start, run).value;
    var begin := Begin(A, NilSlice, []);
    ExecStep(start, run, begin);
    var write := Write(A, |s.a.sends|, false, false);
    ExecStep(start, run + [begin], write);
    run' := run + [begin] + [write];
  }

  lemma {:induction false} ManyFailedSends(start: System, run: seq<Action>, n: nat) returns (run': seq<Action>)
    requires Exec(start, run).Some? && |Exec(start, run).value.a.sends| == Exec(start, run).value.a.acks.chans
    ensures Exec(start, run').Some? && OnlyFailedSends(Exec(start, run).value, Exec(start, run').value, n)
    decreases n
  {
    hide Exec;
    if n == 0 {
      run' := run;
    } else {
      var before := ManyFailedSends(start, run, n - 1);
      run' := FailedSend(start, before);
      AddMod(Exec(start, run).value.a.acks.counter, n - 1);
    }
  }

  lemma AddMod(a: nat, n: nat)
    ensures ((a + n) % TWO_64 + 1) % TWO_64 == (a + (n + 1)) % TWO_64
  {
  }

  lemma SmallMessageFits(send: SendCall)
    requires send.payload.Elems() == [] && |send.topic| <= 1
    ensures |PayloadBytes(Config(true, false, 0), send)| <= MAX_INT
    ensures |AckBytes(send.counter)| <= MAX_INT
  {
    hide NumberBytes, BlobBytes, Encode, EncodeFrom;
    Layout(true, send.counter, PAYLOAD_MESSAGE, send.payload, send.topic, 0);
    Layout(false, send.counter, ACK_MESSAGE, NilSlice, [], 0);
    NumberShort(0x10, send.counter);
    NumberShort(0x18, PAYLOAD_MESSAGE);
    NumberShort(0x18, ACK_MESSAGE);
    NumberShort(0x30, 0);
    BlobShort(0x2a, send.topic);
    BlobShort(0x2a, []);
    BlobShort(0x22, []);
  }

  lemma NumberShort(tag: byte, v: int)
    requires -TWO_63 <= v < TWO_64
    ensures |NumberBytes(tag, v)| <= 11
  {
    UvarintIsVarint(ToUint64(v));
  }

  lemma BlobShort(tag: byte, b: seq<byte>)
    requires |b| <= 1
    ensures |BlobBytes(tag, b)| <= 3
  {
  }

  /** With one Send more than there are counters the guarantee is lost: a late acknowledgement of the first Send is
      taken for one of a Send that reuses its counter, so this Send returns nil although the other
      side processed nothing but the first one. */
  lemma WrapBreaksGuarantee(topic: seq<byte>) returns (run: seq<Action>)
    requires |topic| == 1
    ensures var config := Config(true, false, 0);
            && Exec(Initial(config, config), run).Some?
            && var s := Exec(Initial(config, config), run).value;
               && |s.a.sends| == TWO_64 + 1
               && s.a.sends[TWO_64].phase == Returned(true)
               && !Processed(s.b, s.a, TWO_64)
  {
    hide Exec, Processed;
    var start := Initial(Config(true, false, 0), Config(true, false, 0));
    var first := AcknowledgeFirst(start);
    var wrapped := ManyFailedSends(start, first, TWO_64 - 1);
    run := ReuseCounter(start, wrapped, topic);
  }

  /** The first Send, of nothing, is processed; its acknowledgement is written but not yet read. */
  lemma AcknowledgeFirst(start: System) returns (run: seq<Action>)
    requires start == Initial(Config(true, false, 0), Config(true, false, 0))
    ensures Exec(start, run).Some?
    ensures var s := Exec(start, run).value;
            && |s.a.sends| == 1 == s.a.acks.chans && s.a.acks.counter == 1
            && s.a.acks.closed == {} && s.a.config == Config(true, false, 0)
            && s.b.calls == [Call([], [], 0, true, 1)] && s.b.config == Config(true, false, 0)
            && AckBytes(1) in s.fromB
  {
    hide Exec, PayloadBytes, AckBytes, Receive;
    var send := SendCall(NilSlice, [], 1, Prepared);
    SmallMessageFits(send);
    assert Exec(start, []) == Some(start) by { EmptyRun(start); }
    run := [];
    run := Extend(start, run, Begin(A, NilSlice, []));
    run := Extend(start, run, Write(A, 0, true, true));
    ReceivePayload(start.b.config, start.b.acks, start.a.config, send, true);
    run := Extend(start, run, Deliver(A, PayloadBytes(start.a.config, send), true));
    run := Extend(start, run, WriteAck(B, 1));
  }

  lemma EmptyRun(start: System)
    ensures Exec(start, []) == Some(start)
  {
  }

  lemma Extend(start: System, run: seq<Action>, action: Action) returns (run': seq<Action>)
    requires Exec(start, run).Some? && Enabled(Exec(start, run).value, action)
    ensures Exec(start, run') == Some(Apply(Exec(start, run).value, action))
  {
    ExecStep(start, run, action);
    run' := run + [action];
  }

  lemma ReuseCounter(start: System, run: seq<Action>, topic: seq<byte>) returns (run': seq<Action>)
    requires |topic| == 1 && Exec(start, run).Some?
    requires var s := Exec(start, run).value;
             && |s.a.sends| == TWO_64 == s.a.acks.chans && s.a.acks.counter == 0
             && s.a.acks.closed == {} && s.a.config == Config(true, false, 0)
             && s.b.calls == [Call([], [], 0, true, 1)] && AckBytes(1) in s.fromB
    ensures Exec(start, run').Some?
    ensures var s := Exec(start, run').value;
            && |s.a.sends| == TWO_64 + 1 && s.a.sends[TWO_64].phase == Returned(true)
            && !Processed(s.b, s.a, TWO_64)
  {
    hide Exec, PayloadBytes, AckBytes, Receive;
    var s := Exec(start, run).value;
    var send := SendCall(NilSlice, topic, 1, Prepared);
    SmallMessageFits(send);
    run' := Extend(start, run, Begin(A, NilSlice, topic));
    run' := Extend(start, run', Write(A, TWO_64, true, true));
    var acks := Exec(start, run').value.a.acks;
    ReceiveAck(s.a.config, acks, 1, true);
    run' := Extend(start, run', Deliver(B, AckBytes(1), true));
    run' := Extend(start, run', Return(A, TWO_64));
  }
}
