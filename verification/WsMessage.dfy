/** The websocket message and its generated codec (websocket/data/wsMessage.pb.go). */
module WsCodec {
  import opened Basics
  import opened Bits
  import opened Varint
  import opened SkipField
  import opened Codec
  import opened CodecLaws
  import opened Writing

  const WS: Schema := [Bool, Uint(W64), Int(W32), Bytes, Str, Uint(W32)]

  /** The message as a value of the schema. */
  function MessageOf(withAcknowledge: bool, counter: uint64, type_: int32, payload: Slice, topic: seq<byte>, version: uint32): Message {
    [Scalar(if withAcknowledge then 1 else 0), Scalar(counter), Scalar(type_), payload.Datum(),
     Blob(false, topic), Scalar(version)]
  }

  class WsMessage {
    var WithAcknowledge: bool
    var Counter: uint64
    var Type: int32
    var Payload: Slice
    var Topic: seq<byte>
    var Version: uint32

    function View(): (m: Message)
      reads this
      ensures |m| == |WS|
    {
      MessageOf(WithAcknowledge, Counter, Type, Payload, Topic, Version)
    }

    /** Byte slices and strings are no longer than Go's `int` can count. */
    predicate Fits()
      reads this
    {
      |Payload.Elems()| <= MAX_INT && |Topic| <= MAX_INT
    }

    lemma ViewIsValid()
      requires Fits()
      ensures Valid(WS, View())
    {
    }

    constructor ()
      ensures View() == Zeros(WS)
    {
      WithAcknowledge, Counter, Type, Payload, Topic, Version := false, 0, 0, NilSlice, [], 0;
    }

    method Reset()
      modifies this
      ensures View() == Zeros(WS)
    {
      WithAcknowledge, Counter, Type, Payload, Topic, Version := false, 0, 0, NilSlice, [], 0;
    }

    method Unmarshal(dAtA: seq<byte>) returns (err: Option<Error>)
      requires |dAtA| <= MAX_INT
      modifies this
      ensures Outcome(err, View()) == Decode(WS, old(View()), dAtA)
    {
      hide ReadVarint, SkipFrom, MessageOf;
      var l, iNdEx := |dAtA|, 0;
      while iNdEx < l
        invariant 0 <= iNdEx <= l
        invariant DecodeFrom(WS, View(), dAtA, iNdEx) == Decode(WS, old(View()), dAtA)
        decreases l - iNdEx
      {
        err, iNdEx := UnmarshalField(dAtA, iNdEx);
        if err.Some? {
          return;
        }
      }
      return None;
    }

    /** One round of the loop: the tag and the switch over field numbers. */
    method UnmarshalField(dAtA: seq<byte>, preIndex: nat) returns (err: Option<Error>, iNdEx: nat)
      requires preIndex < |dAtA| <= MAX_INT
      modifies this
      ensures var step := DecodeField(WS, old(View()), dAtA, preIndex);
              err == step.err && View() == step.msg && (err.None? ==> iNdEx == step.next)
    {
      hide ReadVarint, SkipFrom;
      var l := |dAtA|;
      var wire;
      err, wire, iNdEx := DecodeVarint(dAtA, preIndex, W64);
      if err.Some? {
        return;
      }
      var fieldNum, wireType := FieldNumber(wire), wire % 8;
      if wireType == 4 {
        return Some(EndGroupTag), iNdEx;
      }
      if fieldNum <= 0 {
        return Some(IllegalTag), iNdEx;
      }
      match fieldNum {
        case 1 =>
          if wireType != 0 {
            return Some(WrongWireType), iNdEx;
          }
          var v;
          err, v, iNdEx := DecodeVarint(dAtA, iNdEx, W64);
          if err.Some? {
            return;
          }
          WithAcknowledge := v != 0;
        case 2 =>
          if wireType != 0 {
            return Some(WrongWireType), iNdEx;
          }
          var v;
          err, v, iNdEx := DecodeVarint(dAtA, iNdEx, W64);
          Counter := v;
        case 3 =>
          if wireType != 0 {
            return Some(WrongWireType), iNdEx;
          }
          var v;
          err, v, iNdEx := DecodeVarint(dAtA, iNdEx, W32);
          Type := W32.Signed(v);
        case 4 =>
          if wireType != 2 {
            return Some(WrongWireType), iNdEx;
          }
          var bytes;
          err, bytes, iNdEx := DecodeBytes(dAtA, iNdEx);
          if err.Some? {
            return;
          }
          Payload := Slice(bytes);
        case 5 =>
          if wireType != 2 {
            return Some(WrongWireType), iNdEx;
          }
          var bytes;
          err, bytes, iNdEx := DecodeBytes(dAtA, iNdEx);
          if err.Some? {
            return;
          }
          Topic := bytes;
        case 6 =>
          if wireType != 0 {
            return Some(WrongWireType), iNdEx;
          }
          var v;
          err, v, iNdEx := DecodeVarint(dAtA, iNdEx, W32);
          Version := v;
        case _ =>
          var skip := SkipUnknown(dAtA[preIndex..]);
          if skip.SkipFailed? {
            return Some(skip.err), iNdEx;
          }
          var post := AddInt(preIndex, skip.n);
          if post < 0 {
            return Some(InvalidLength), iNdEx;
          }
          if post > l {
            return Some(UnexpectedEOF), iNdEx;
          }
          iNdEx := post;
      }
    }

    method ComputeSize() returns (n: nat)
      requires Fits()
      ensures Valid(WS, View()) && n == Size(WS, View())
    {
      hide NumberBytes, BlobBytes, Valid, Encode, EncodeFrom, Size, SizeFrom, Sov;
      Layout(WithAcknowledge, Counter, Type, Payload, Topic, Version);
      NumberLength(0x10, Counter);
      NumberLength(0x18, Type);
      BlobLength(0x22, Payload.Elems());
      BlobLength(0x2a, Topic);
      NumberLength(0x30, Version);
      n := 0;
      if WithAcknowledge {
        n := n + 2;
      }
      if Counter != 0 {
        n := n + 1 + Sov(Counter);
      }
      if Type != 0 {
        n := n + 1 + Sov(ToUint64(Type));
      }
      var l := |Payload.Elems()|;
      if l > 0 {
        n := n + 1 + l + Sov(l);
      }
      l := |Topic|;
      if l > 0 {
        n := n + 1 + l + Sov(l);
      }
      if Version != 0 {
        n := n + 1 + Sov(Version);
      }
    }

    /** Fills the end of the buffer, from the last field back to the first. */
    method MarshalToSizedBuffer(dAtA: array<byte>) returns (n: nat)
      requires Fits() && (ViewIsValid(); Size(WS, View()) <= dAtA.Length)
      modifies dAtA
      ensures Valid(WS, View()) && n == Size(WS, View())
      ensures dAtA[..] == old(dAtA[..dAtA.Length - n]) + Encode(WS, View())
    {
      hide NumberBytes, BlobBytes, Valid, Encode, EncodeFrom, Size, SizeFrom;
      Layout(WithAcknowledge, Counter, Type, Payload, Topic, Version);
      ghost var original := dAtA[..];
      var i := dAtA.Length;
      i := WriteNumber(dAtA, i, 0x30, Version);
      i := WriteBytes(dAtA, i, 0x2a, Topic);
      i := WriteBytes(dAtA, i, 0x22, Payload.Elems());
      i := WriteNumber(dAtA, i, 0x18, Type);
      i := WriteNumber(dAtA, i, 0x10, Counter);
      i := WriteBool(dAtA, i, 0x8, WithAcknowledge);
      assert dAtA[i..] == EncodeFrom(WS, View(), 0) && forall j :: 0 <= j < i ==> dAtA[j] == original[j];
      n := dAtA.Length - i;
    }

    method Marshal() returns (dAtA: array<byte>)
      requires Fits()
      ensures Valid(WS, View()) && dAtA[..] == Encode(WS, View())
    {
      var size := ComputeSize();
      dAtA := new byte[size](_ => 0);
      var n := MarshalToSizedBuffer(dAtA);
    }

    method IsEqual(that: WsMessage) returns (equal: bool)
      ensures equal <==> Equal(View(), that.View())
    {
      equal := WithAcknowledge == that.WithAcknowledge
            && Counter == that.Counter
            && Type == that.Type
            && Payload.Elems() == that.Payload.Elems()
            && Topic == that.Topic
            && Version == that.Version;
      ghost var a, b := View(), that.View();
      assert Equal(a, b) ==>
        a[0].v == b[0].v && a[1].v == b[1].v && a[2].v == b[2].v && a[3].bytes == b[3].bytes
        && a[4].bytes == b[4].bytes && a[5].v == b[5].v;
    }
  }

  /** What a message can be compared with: a Go interface that is nil, holds a pointer or a value
      of the type, or holds something else. */
  datatype Comparand = NilInterface | Pointer(p: WsMessage?) | Struct(m: WsMessage) | Other

  /** The generated Equal: nil is equal to nil only, and anything else by its fields. */
  method EqualTo(message: WsMessage?, that: Comparand) returns (equal: bool)
    ensures that == NilInterface || that == Pointer(null) ==> (equal <==> message == null)
    ensures that.Other? ==> !equal
    ensures that.Struct? ==> (equal <==> message != null && Equal(message.View(), that.m.View()))
    ensures that.Pointer? && that.p != null ==> (equal <==> message != null && Equal(message.View(), that.p.View()))
  {
    if that.NilInterface? {
      return message == null;
    }
    var that1: WsMessage?;
    match that {
      case Pointer(p) => that1 := p;
      case Struct(m) => that1 := m;
      case _ => return false;
    }
    if that1 == null {
      return message == null;
    } else if message == null {
      return false;
    }
    equal := message.IsEqual(that1);
  }

  lemma MessageIsValid(ack: bool, counter: uint64, type_: int32, payload: Slice, topic: seq<byte>, version: uint32)
    requires |payload.Elems()| <= MAX_INT && |topic| <= MAX_INT
    ensures Valid(WS, MessageOf(ack, counter, type_, payload, topic, version))
  {
  }

  /** The layout of the message: from every field on, its bytes and then the rest. */
  lemma Layout(ack: bool, counter: uint64, type_: int32, payload: Slice, topic: seq<byte>, version: uint32)
    requires |payload.Elems()| <= MAX_INT && |topic| <= MAX_INT
    ensures var m := MessageOf(ack, counter, type_, payload, topic, version);
            Valid(WS, m) && Encode(WS, m) == EncodeFrom(WS, m, 0) && EncodeFrom(WS, m, 6) == []
            && EncodeFrom(WS, m, 5) == NumberBytes(0x30, version) + EncodeFrom(WS, m, 6)
            && EncodeFrom(WS, m, 4) == BlobBytes(0x2a, topic) + EncodeFrom(WS, m, 5)
            && EncodeFrom(WS, m, 3) == BlobBytes(0x22, payload.Elems()) + EncodeFrom(WS, m, 4)
            && EncodeFrom(WS, m, 2) == NumberBytes(0x18, type_) + EncodeFrom(WS, m, 3)
            && EncodeFrom(WS, m, 1) == NumberBytes(0x10, counter) + EncodeFrom(WS, m, 2)
            && EncodeFrom(WS, m, 0) == (if ack then [0x8, 1] else []) + EncodeFrom(WS, m, 1)
  {
    hide EncodeField, EncodeFrom, SizeFrom, NumberBytes, BlobBytes, Kind.Holds;
    MessageIsValid(ack, counter, type_, payload, topic, version);
    var m := MessageOf(ack, counter, type_, payload, topic, version);
    assert NumberBytes(0x8, if ack then 1 else 0) == if ack then [0x8, 1] else [] by {
      BoolBytes(0x8);
    }
    FieldBytes(WS, m, 0);
    FieldBytes(WS, m, 1);
    FieldBytes(WS, m, 2);
    FieldBytes(WS, m, 3);
    FieldBytes(WS, m, 4);
    FieldBytes(WS, m, 5);
    EncodeEnds(WS, m);
  }

  /** Decoding a marshalled message into a reset one succeeds, and every field comes back;
      a payload without bytes comes back nil. */
  lemma WsRoundTrip(ack: bool, counter: uint64, type_: int32, payload: Slice, topic: seq<byte>, version: uint32)
    requires |payload.Elems()| <= MAX_INT && |topic| <= MAX_INT
    requires var m := MessageOf(ack, counter, type_, payload, topic, version);
             Valid(WS, m) && Size(WS, m) <= MAX_INT
    ensures var m := MessageOf(ack, counter, type_, payload, topic, version);
            var back := MessageOf(ack, counter, type_, NilIfEmpty(payload), topic, version);
            Decode(WS, Zeros(WS), Encode(WS, m)) == Outcome(None, back) && Equal(back, m)
  {
    hide Decode, Encode, Size;
    var m := MessageOf(ack, counter, type_, payload, topic, version);
    RoundTrip(WS, m);
    assert CanonicalMessage(WS, m) == MessageOf(ack, counter, type_, NilIfEmpty(payload), topic, version);
  }

  /** Re-encoding a decoded message can grow it, by 5 bytes, exactly when its type is negative. */
  lemma WsReencodeNeverGrowsIff(m: Message)
    requires Valid(WS, m) && m == CanonicalMessage(WS, m) && Size(WS, m) <= MAX_INT
    ensures (forall data: seq<byte> | |data| <= MAX_INT && Decode(WS, Zeros(WS), data) == Outcome(None, m) ::
               Size(WS, m) <= |data|)
       <==> m[2].v >= 0
  {
    ReencodeNeverGrowsIff(WS, m);
    assert WidenedFields(WS, m) == if m[2].v < 0 then 1 else 0 by { assert WidenedFrom(WS, m, 3) == 0; }
  }
}
