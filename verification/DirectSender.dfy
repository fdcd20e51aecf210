/** Direct messages: sequence numbers and the filter for repeated messages (p2p/libp2p/directSender.go). */
module DirectSender {
  import opened Basics
  import opened Bits
  import opened Distance

  const SEQUENCE_NUMBER_SIZE := 8

  type Bytes = seq<byte>

  /** binary.BigEndian.PutUint64, for `n` bytes. */
  function BigEndian(v: nat, n: nat): (s: Bytes)
    ensures |s| == n
  {
    if n == 0 then [] else BigEndian(v / 256, n - 1) + [v % 256]
  }

  datatype Message = Message(from: Bytes, seqno: Bytes, hasTopic: bool, hasKey: bool, signatureOk: bool, payloadOk: bool)

  datatype DirectError =
    | NilHandler | NilMessage | NilTopic | FromMismatch | KeyPresent | SeqnoTooLong | AlreadySeen
    | BadSignature | BadPayload | HandlerRefused

  /** The ID under which a message is remembered. */
  function MsgId(m: Message): Bytes {
    m.from + m.seqno
  }

  class DirectSender {
    var counter: uint64
    var hasHandler: bool
    /** The IDs in the time cache that have not expired yet. */
    var seenMessages: set<Bytes>
    /** The messages given to the handler so far. */
    ghost var handled: seq<Message>

    constructor (start: uint64)
      ensures counter == start && seenMessages == {} && handled == [] && !hasHandler
    {
      counter, seenMessages, handled, hasHandler := start, {}, [], false;
    }

    method NextSequenceNumber() returns (seqno: array<byte>)
      modifies this`counter
      ensures counter == (old(counter) + 1) % TWO_64
      ensures fresh(seqno) && seqno[..] == BigEndian(counter, SEQUENCE_NUMBER_SIZE)
    {
      seqno := new byte[SEQUENCE_NUMBER_SIZE](_ => 0);
      counter := (counter + 1) % TWO_64;
      PutUint64(seqno, counter);
    }

    /** Time passes: IDs leave the time cache. */
    method Expire(ids: set<Bytes>)
      modifies this`seenMessages
      ensures seenMessages == old(seenMessages) - ids
    {
      seenMessages := seenMessages - ids;
    }

    method CheckAndSetSeenMessage(m: Message) returns (seen: bool)
      modifies this`seenMessages
      ensures seen <==> MsgId(m) in old(seenMessages)
      ensures seenMessages == old(seenMessages) + {MsgId(m)}
    {
      var msgId := m.from + m.seqno;
      if msgId in seenMessages {
        return true;
      }
      seenMessages := seenMessages + {msgId};
      return false;
    }

    /** The checks in their order; `message` may be nil. The repeated-message filter takes note of
        a message before its signature and payload are looked at. */
    method ProcessReceivedDirectMessage(message: Option<Message>, fromConnectedPeer: Bytes, accepted: bool)
      returns (err: Option<DirectError>)
      modifies this
      ensures counter == old(counter) && hasHandler == old(hasHandler)
      ensures err == Verdict(old(hasHandler), message, fromConnectedPeer, old(seenMessages), accepted)
      ensures Filter(seenMessages, handled)
           == Received(Filter(old(seenMessages), old(handled)), old(hasHandler), message, fromConnectedPeer, accepted)
      ensures handled == old(handled) + if Delivers(old(hasHandler), message, fromConnectedPeer, old(seenMessages)) then [message.value] else []
      ensures seenMessages == old(seenMessages)
                            + if WellAddressed(old(hasHandler), message, fromConnectedPeer) then {message.value.from + message.value.seqno} else {}
      ensures err.None? <==> accepted && Delivers(old(hasHandler), message, fromConnectedPeer, old(seenMessages))
    {
      if !hasHandler {
        return Some(NilHandler);
      }
      if message.None? {
        return Some(NilMessage);
      }
      var m := message.value;
      if !m.hasTopic {
        return Some(NilTopic);
      }
      if m.from != fromConnectedPeer {
        return Some(FromMismatch);
      }
      if m.hasKey {
        return Some(KeyPresent);
      }
      if |m.seqno| > SEQUENCE_NUMBER_SIZE {
        return Some(SeqnoTooLong);
      }
      var seen := CheckAndSetSeenMessage(m);
      if seen {
        return Some(AlreadySeen);
      }
      if !m.signatureOk {
        return Some(BadSignature);
      }
      if !m.payloadOk {
        return Some(BadPayload);
      }
      handled := handled + [m];
      return if accepted then None else Some(HandlerRefused);
    }
  }

  /** Writes the eight bytes, the highest first. */
  method PutUint64(b: array<byte>, v: uint64)
    requires b.Length == 8
    modifies b
    ensures b[..] == BigEndian(v, 8)
  {
    var i, rest := 8, v as nat;
    while i > 0
      invariant 0 <= i <= 8
      invariant BigEndian(rest, i) + b[i..] == BigEndian(v, 8)
    {
      i := i - 1;
      ghost var tail := b[i + 1..];
      b[i] := rest % 256;
      assert b[i..] == [rest % 256] + tail;
      rest := rest / 256;
    }
  }

  function Stage(e: DirectError): nat {
    match e
    case NilHandler => 0
    case NilMessage => 1
    case NilTopic => 2
    case FromMismatch => 3
    case KeyPresent => 4
    case SeqnoTooLong => 5
    case AlreadySeen => 6
    case BadSignature => 7
    case BadPayload => 8
    case HandlerRefused => 9
  }

  /** The check that can fail with `e` was reached. */
  predicate Reaches(err: Option<DirectError>, e: DirectError) {
    err.None? || Stage(err.value) >= Stage(e)
  }

  /** The error a message meets, given the IDs already seen. */
  function Verdict(hasHandler: bool, message: Option<Message>, peer: Bytes, seen: set<Bytes>, accepted: bool): (r: Option<DirectError>)
    ensures r.None? ==> message.Some?
    ensures r.Some? && Stage(r.value) >= 2 ==> message.Some?
  {
    if !hasHandler then Some(NilHandler)
    else if message.None? then Some(NilMessage)
    else
      var m := message.value;
      if !m.hasTopic then Some(NilTopic)
      else if m.from != peer then Some(FromMismatch)
      else if m.hasKey then Some(KeyPresent)
      else if |m.seqno| > SEQUENCE_NUMBER_SIZE then Some(SeqnoTooLong)
      else if MsgId(m) in seen then Some(AlreadySeen)
      else if !m.signatureOk then Some(BadSignature)
      else if !m.payloadOk then Some(BadPayload)
      else if !accepted then Some(HandlerRefused)
      else None
  }

  /** A message from the connected peer itself, with a topic, without a key, and with a sequence
      number of at most eight bytes, for a sender with a handler. */
  predicate WellAddressed(hasHandler: bool, message: Option<Message>, peer: Bytes) {
    && hasHandler && message.Some? && message.value.hasTopic && message.value.from == peer
    && !message.value.hasKey && |message.value.seqno| <= 8
  }

  /** The message reaches the handler. */
  predicate Delivers(hasHandler: bool, message: Option<Message>, peer: Bytes, seen: set<Bytes>) {
    && WellAddressed(hasHandler, message, peer)
    && message.value.from + message.value.seqno !in seen
    && message.value.signatureOk && message.value.payloadOk
  }

  /** Each error is given exactly if its check fails and none before it does. */
  lemma FirstError(hasHandler: bool, message: Option<Message>, peer: Bytes, seen: set<Bytes>, accepted: bool)
    ensures var err := Verdict(hasHandler, message, peer, seen, accepted);
            && (err == Some(NilHandler) <==> !hasHandler)
            && (err == Some(NilMessage) <==> hasHandler && message.None?)
            && (message.None? ==> err in {Some(NilHandler), Some(NilMessage)})
            && (message.Some? ==>
                  var m := message.value;
                  && (err == Some(NilTopic) <==> hasHandler && !m.hasTopic)
                  && (err == Some(FromMismatch) <==> hasHandler && m.hasTopic && m.from != peer)
                  && (err == Some(KeyPresent) <==> hasHandler && m.hasTopic && m.from == peer && m.hasKey)
                  && (err == Some(SeqnoTooLong) <==>
                        hasHandler && m.hasTopic && m.from == peer && !m.hasKey && |m.seqno| > 8)
                  && (err == Some(AlreadySeen) <==> WellAddressed(hasHandler, message, peer) && m.from + m.seqno in seen)
                  && (err == Some(BadSignature) <==>
                        WellAddressed(hasHandler, message, peer) && m.from + m.seqno !in seen && !m.signatureOk)
                  && (err == Some(BadPayload) <==>
                        WellAddressed(hasHandler, message, peer) && m.from + m.seqno !in seen && m.signatureOk && !m.payloadOk)
                  && (err == Some(HandlerRefused) <==> Delivers(hasHandler, message, peer, seen) && !accepted)
                  && (err == None <==> Delivers(hasHandler, message, peer, seen) && accepted))
  {
  }

  // ---------------------------------------------------------------- repeated messages

  /** The remembered IDs, and the messages given to the handler. */
  datatype Filter = Filter(seen: set<Bytes>, handled: seq<Message>)

  function Received(f: Filter, hasHandler: bool, message: Option<Message>, peer: Bytes, accepted: bool): Filter {
    var err := Verdict(hasHandler, message, peer, f.seen, accepted);
    Filter(if Reaches(err, AlreadySeen) then f.seen + {MsgId(message.value)} else f.seen,
           if Reaches(err, HandlerRefused) then f.handled + [message.value] else f.handled)
  }

  datatype Event =
    | Arrives(message: Option<Message>, peer: Bytes, accepted: bool)
    | Expires(ids: set<Bytes>)

  function Next(f: Filter, e: Event): Filter {
    match e
    case Arrives(message, peer, accepted) => Received(f, true, message, peer, accepted)
    case Expires(ids) => f.(seen := f.seen - ids)
  }

  /** The filter after a run of events, with a handler registered. */
  function Run(f: Filter, run: seq<Event>): Filter {
    if run == [] then f else Next(Run(f, run[..|run| - 1]), run[|run| - 1])
  }

  /** What an arrival does to the filter: the ID of a well addressed message is remembered, and the
      message is handled if it is delivered. */
  lemma ArrivalMeans(f: Filter, message: Option<Message>, peer: Bytes, accepted: bool)
    ensures var g := Next(f, Arrives(message, peer, accepted));
            && g.handled == f.handled + (if Delivers(true, message, peer, f.seen) then [message.value] else [])
            && g.seen == f.seen + (if WellAddressed(true, message, peer) then {message.value.from + message.value.seqno} else {})
  {
  }

  /** An ID that expires is free again, and only those that expire are. */
  lemma ExpiredIsFree(f: Filter, ids: set<Bytes>, id: Bytes)
    ensures id in Next(f, Expires(ids)).seen <==> id in f.seen && id !in ids
    ensures Next(f, Expires(ids)).handled == f.handled
  {
  }

  /** How many handled messages have this ID. */
  function HandledCount(handled: seq<Message>, id: Bytes): nat {
    if handled == [] then 0
    else HandledCount(handled[..|handled| - 1], id) + if MsgId(handled[|handled| - 1]) == id then 1 else 0
  }

  /** While an ID does not expire, at most one message with it reaches the handler, and none if
      it is remembered from before. */
  lemma {:induction false} AtMostOncePerWindow(f: Filter, run: seq<Event>, id: Bytes)
    requires forall k :: 0 <= k < |run| && run[k].Expires? ==> id !in run[k].ids
    ensures var g := Run(f, run);
            && HandledCount(g.handled, id) <= HandledCount(f.handled, id) + (if id in f.seen then 0 else 1)
            && (id in f.seen ==> id in g.seen)
            && (HandledCount(g.handled, id) > HandledCount(f.handled, id) ==> id in g.seen)
    decreases |run|
  {
    hide Next, HandledCount;
    if run != [] {
      var n := |run| - 1;
      AtMostOncePerWindow(f, run[..n], id);
      NextOnce(Run(f, run[..n]), run[n], id);
    }
  }

  lemma NextOnce(f: Filter, e: Event, id: Bytes)
    requires e.Expires? ==> id !in e.ids
    ensures var g := Next(f, e);
            && HandledCount(f.handled, id) <= HandledCount(g.handled, id)
            && HandledCount(g.handled, id) <= HandledCount(f.handled, id) + (if id in f.seen then 0 else 1)
            && (id in f.seen ==> id in g.seen)
            && (HandledCount(g.handled, id) > HandledCount(f.handled, id) ==> id in g.seen)
  {
    var g := Next(f, e);
    if g.handled != f.handled {
      assert g.handled[..|g.handled| - 1] == f.handled;
    }
  }

  /** The message passed every check in front of the filter. */
  predicate Examined(e: Event) {
    e.Arrives? && Reaches(Verdict(true, e.message, e.peer, {}, e.accepted), AlreadySeen)
  }

  lemma {:induction false} SeenWasExamined(run: seq<Event>, id: Bytes) returns (k: nat)
    requires id in Run(Filter({}, []), run).seen
    ensures k < |run| && Examined(run[k]) && MsgId(run[k].message.value) == id
    decreases |run|
  {
    var n := |run| - 1;
    if id in Run(Filter({}, []), run[..n]).seen {
      k := SeenWasExamined(run[..n], id);
    } else {
      k := n;
    }
  }

  /** Where the sequence numbers of all examined messages have eight bytes, a message is refused
      as already seen only after one with the same sender and sequence number. */
  lemma UnseenNotRefused(run: seq<Event>, m: Message, peer: Bytes, accepted: bool) returns (k: nat)
    requires forall k :: 0 <= k < |run| && Examined(run[k]) ==> |run[k].message.value.seqno| == SEQUENCE_NUMBER_SIZE
    requires |m.seqno| == SEQUENCE_NUMBER_SIZE
    requires Verdict(true, Some(m), peer, Run(Filter({}, []), run).seen, accepted) == Some(AlreadySeen)
    ensures k < |run| && Examined(run[k])
    ensures run[k].message.value.from == m.from && run[k].message.value.seqno == m.seqno
  {
    k := SeenWasExamined(run, MsgId(m));
    MsgIdInjective(run[k].message.value, m);
  }

  lemma MsgIdInjective(m: Message, m': Message)
    requires |m.seqno| == |m'.seqno| && MsgId(m) == MsgId(m')
    ensures m.from == m'.from && m.seqno == m'.seqno
  {
    assert |m.from| == |m'.from|;
    assert m.from == MsgId(m)[..|m.from|] && m'.from == MsgId(m')[..|m.from|];
    assert m.seqno == MsgId(m)[|m.from|..] && m'.seqno == MsgId(m')[|m.from|..];
  }

  /** `m` has the longer sender: what it has more, `m'` has in front of its sequence number. */
  predicate Overhangs(m: Message, m': Message) {
    |m.from| > |m'.from| && m'.from <= m.from && m'.seqno == m.from[|m'.from|..] + m.seqno
  }

  /** Shorter sequence numbers are accepted too, and then different messages can share an ID:
      exactly when the end of one sender is the start of the other's sequence number. */
  lemma MsgIdsCollideIff(m: Message, m': Message)
    requires m.from != m'.from || m.seqno != m'.seqno
    ensures MsgId(m) == MsgId(m') <==> Overhangs(m, m') || Overhangs(m', m)
  {
    if MsgId(m) == MsgId(m') {
      if |m.seqno| == |m'.seqno| {
        MsgIdInjective(m, m');
      } else if |m.from| > |m'.from| {
        CollisionShape(m, m');
      } else {
        CollisionShape(m', m);
      }
    }
    if Overhangs(m, m') { ShapeCollides(m, m'); }
    if Overhangs(m', m) { ShapeCollides(m', m); }
  }

  lemma CollisionShape(m: Message, m': Message)
    requires MsgId(m) == MsgId(m') && |m.from| > |m'.from|
    ensures Overhangs(m, m')
  {
    var n := |m'.from|;
    assert MsgId(m)[..n] == m.from[..n] && MsgId(m')[..n] == m'.from;
    assert MsgId(m)[n..] == m.from[n..] + m.seqno && MsgId(m')[n..] == m'.seqno;
  }

  lemma ShapeCollides(m: Message, m': Message)
    requires Overhangs(m, m')
    ensures MsgId(m) == MsgId(m')
  {
    assert m.from == m'.from + m.from[|m'.from|..];
  }

  // ---------------------------------------------------------------- sequence numbers

  lemma {:induction false} BigEndianNumber(v: nat, n: nat)
    requires v < Pow2(8 * n)
    ensures Number(BigEndian(v, n)) == v
    decreases n
  {
    if n > 0 {
      Pow2Add(8, 8 * (n - 1));
      assert Pow2(8) == 256;
      BigEndianNumber(v / 256, n - 1);
      var s := BigEndian(v / 256, n - 1);
      assert (s + [v % 256])[..|s|] == s;
    }
  }

  /** The `i`-th sequence number issued after the counter stood at `start`. */
  function SequenceNumber(start: uint64, i: nat): Bytes {
    BigEndian((start + i) % TWO_64, SEQUENCE_NUMBER_SIZE)
  }

  lemma SameModulo(start: nat, i: nat, j: nat)
    ensures (start + i) % TWO_64 == (start + j) % TWO_64 <==> i % TWO_64 == j % TWO_64
    ensures i < j < i + TWO_64 ==> i % TWO_64 != j % TWO_64
  {
  }

  /** Two sequence numbers of one sender are equal exactly when a multiple of 2^64 others lies
      between them; so any 2^64 in a row are pairwise distinct. */
  lemma SequenceNumbersRepeatIff(start: uint64, i: nat, j: nat)
    ensures SequenceNumber(start, i) == SequenceNumber(start, j) <==> i % TWO_64 == j % TWO_64
    ensures i < j < i + TWO_64 ==> SequenceNumber(start, i) != SequenceNumber(start, j)
  {
    hide BigEndian, Number, Pow2;
    SameModulo(start, i, j);
    WordPowers();
    BigEndianNumber((start + i) % TWO_64, 8);
    BigEndianNumber((start + j) % TWO_64, 8);
  }
}
