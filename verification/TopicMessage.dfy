/** The topic message and its generated codec (p2p/data/topicMessage.pb.go). */
module TopicCodec {
  import opened Basics
  import opened Bits
  import opened Varint
  import opened SkipField
  import opened Codec
  import opened CodecLaws
  import opened Writing

  const TOPIC: Schema := [Uint(W32), Bytes, Int(W64), Bytes, Bytes]

  /** The message as a value of the schema. */
  function MessageOf(version: uint32, payload: Slice, timestamp: int64, pk: Slice, signature: Slice): Message {
    [Scalar(version), payload.Datum(), Scalar(timestamp), pk.Datum(), signature.Datum()]
  }

  class TopicMessage {
    var Version: uint32
    var Payload: Slice
    var Timestamp: int64
    var Pk: Slice
    var SignatureOnPid: Slice

    function View(): (m: Message)
      reads this
      ensures |m| == |TOPIC|
    {
      MessageOf(Version, Payload, Timestamp, Pk, SignatureOnPid)
    }

    /** Byte slices are no longer than Go's `int` can count. */
    predicate Fits()
      reads this
    {
      |Payload.Elems()| <= MAX_INT && |Pk.Elems()| <= MAX_INT && |SignatureOnPid.Elems()| <= MAX_INT
    }

    lemma ViewIsValid()
      requires Fits()
      ensures Valid(TOPIC, View())
    {
    }

    constructor ()
      ensures View() == Zeros(TOPIC)
    {
      Version, Payload, Timestamp, Pk, SignatureOnPid := 0, NilSlice, 0, NilSlice, NilSlice;
    }

    method Reset()
      modifies this
      ensures View() == Zeros(TOPIC)
    {
      Version, Payload, Timestamp, Pk, SignatureOnPid := 0, NilSlice, 0, NilSlice, NilSlice;
    }

    method Unmarshal(dAtA: seq<byte>) returns (err: Option<Error>)
      requires |dAtA| <= MAX_INT
      modifies this
      ensures Outcome(err, View()) == Decode(TOPIC, old(View()), dAtA)
    {
      hide ReadVarint, SkipFrom, MessageOf;
      var l, iNdEx := |dAtA|, 0;
      while iNdEx < l
        invariant 0 <= iNdEx <= l
        invariant DecodeFrom(TOPIC, View(), dAtA, iNdEx) == Decode(TOPIC, old(View()), dAtA)
        decreases l - iNdEx
      {
        err, iNdEx := UnmarshalField(dAtA, iNdEx);
        if err.Some? {
          return;
        }
      }
      return None;
    }

    /** One round of the loop: the tag and the switch over field numbers. */
    method UnmarshalField(dAtA: seq<byte>, preIndex: nat) returns (err: Option<Error>, iNdEx: nat)
      requires preIndex < |dAtA| <= MAX_INT
      modifies this
      ensures var step := DecodeField(TOPIC, old(View()), dAtA, preIndex);
              err == step.err && View() == step.msg && (err.None? ==> iNdEx == step.next)
    {
      hide ReadVarint, SkipFrom;
      var l := |dAtA|;
      var wire;
      err, wire, iNdEx := DecodeVarint(dAtA, preIndex, W64);
      if err.Some? {
        return;
      }
      var fieldNum, wireType := FieldNumber(wire), wire % 8;
      if wireType == 4 {
        return Some(EndGroupTag), iNdEx;
      }
      if fieldNum <= 0 {
        return Some(IllegalTag), iNdEx;
      }
      match fieldNum {
        case 1 =>
          if wireType != 0 {
            return Some(WrongWireType), iNdEx;
          }
          var v;
          err, v, iNdEx := DecodeVarint(dAtA, iNdEx, W32);
          Version := v;
        case 2 =>
          if wireType != 2 {
            return Some(WrongWireType), iNdEx;
          }
          var bytes;
          err, bytes, iNdEx := DecodeBytes(dAtA, iNdEx);
          if err.Some? {
            return;
          }
          Payload := Slice(bytes);
        case 3 =>
          if wireType != 0 {
            return Some(WrongWireType), iNdEx;
          }
          var v;
          err, v, iNdEx := DecodeVarint(dAtA, iNdEx, W64);
          Timestamp := W64.Signed(v);
        case 4 =>
          if wireType != 2 {
            return Some(WrongWireType), iNdEx;
          }
          var bytes;
          err, bytes, iNdEx := DecodeBytes(dAtA, iNdEx);
          if err.Some? {
            return;
          }
          Pk := Slice(bytes);
        case 5 =>
          if wireType != 2 {
            return Some(WrongWireType), iNdEx;
          }
          var bytes;
          err, bytes, iNdEx := DecodeBytes(dAtA, iNdEx);
          if err.Some? {
            return;
          }
          SignatureOnPid := Slice(bytes);
        case _ =>
          var skip := SkipUnknown(dAtA[preIndex..]);
          if skip.SkipFailed? {
            return Some(skip.err), iNdEx;
          }
          var post := AddInt(preIndex, skip.n);
          if post < 0 {
            return Some(InvalidLength), iNdEx;
          }
          if post > l {
            return Some(UnexpectedEOF), iNdEx;
          }
          iNdEx := post;
      }
    }

    method ComputeSize() returns (n: nat)
      requires Fits()
      ensures Valid(TOPIC, View()) && n == Size(TOPIC, View())
    {
      hide NumberBytes, BlobBytes, Valid, Encode, EncodeFrom, Size, SizeFrom, Sov;
      Layout(Version, Payload, Timestamp, Pk, SignatureOnPid);
      NumberLength(0x8, Version);
      BlobLength(0x12, Payload.Elems());
      NumberLength(0x18, Timestamp);
      BlobLength(0x22, Pk.Elems());
      BlobLength(0x2a, SignatureOnPid.Elems());
      n := 0;
      if Version != 0 {
        n := n + 1 + Sov(Version);
      }
      var l := |Payload.Elems()|;
      if l > 0 {
        n := n + 1 + l + Sov(l);
      }
      if Timestamp != 0 {
        n := n + 1 + Sov(ToUint64(Timestamp));
      }
      l := |Pk.Elems()|;
      if l > 0 {
        n := n + 1 + l + Sov(l);
      }
      l := |SignatureOnPid.Elems()|;
      if l > 0 {
        n := n + 1 + l + Sov(l);
      }
    }

    /** Fills the end of the buffer, from the last field back to the first. */
    method MarshalToSizedBuffer(dAtA: array<byte>) returns (n: nat)
      requires Fits() && (ViewIsValid(); Size(TOPIC, View()) <= dAtA.Length)
      modifies dAtA
      ensures Valid(TOPIC, View()) && n == Size(TOPIC, View())
      ensures dAtA[..] == old(dAtA[..dAtA.Length - n]) + Encode(TOPIC, View())
    {
      hide NumberBytes, BlobBytes, Valid, Encode, EncodeFrom, Size, SizeFrom;
      Layout(Version, Payload, Timestamp, Pk, SignatureOnPid);
      ghost var original := dAtA[..];
      var i := dAtA.Length;
      i := WriteBytes(dAtA, i, 0x2a, SignatureOnPid.Elems());
      i := WriteBytes(dAtA, i, 0x22, Pk.Elems());
      i := WriteNumber(dAtA, i, 0x18, Timestamp);
      i := WriteBytes(dAtA, i, 0x12, Payload.Elems());
      i := WriteNumber(dAtA, i, 0x8, Version);
      assert dAtA[i..] == EncodeFrom(TOPIC, View(), 0) && forall j :: 0 <= j < i ==> dAtA[j] == original[j];
      n := dAtA.Length - i;
    }

    method Marshal() returns (dAtA: array<byte>)
      requires Fits()
      ensures Valid(TOPIC, View()) && dAtA[..] == Encode(TOPIC, View())
    {
      var size := ComputeSize();
      dAtA := new byte[size](_ => 0);
      var n := MarshalToSizedBuffer(dAtA);
    }

    method IsEqual(that: TopicMessage) returns (equal: bool)
      ensures equal <==> Equal(View(), that.View())
    {
      equal := Version == that.Version
            && Payload.Elems() == that.Payload.Elems()
            && Timestamp == that.Timestamp
            && Pk.Elems() == that.Pk.Elems()
            && SignatureOnPid.Elems() == that.SignatureOnPid.Elems();
      ghost var a, b := View(), that.View();
      assert Equal(a, b) ==>
        a[0].v == b[0].v && a[1].bytes == b[1].bytes && a[2].v == b[2].v && a[3].bytes == b[3].bytes
        && a[4].bytes == b[4].bytes;
    }
  }

  /** What a message can be compared with: a Go interface that is nil, holds a pointer or a value
      of the type, or holds something else. */
  datatype Comparand = NilInterface | Pointer(p: TopicMessage?) | Struct(m: TopicMessage) | Other

  /** The generated Equal: nil is equal to nil only, and anything else by its fields. */
  method EqualTo(message: TopicMessage?, that: Comparand) returns (equal: bool)
    ensures that == NilInterface || that == Pointer(null) ==> (equal <==> message == null)
    ensures that.Other? ==> !equal
    ensures that.Struct? ==> (equal <==> message != null && Equal(message.View(), that.m.View()))
    ensures that.Pointer? && that.p != null ==> (equal <==> message != null && Equal(message.View(), that.p.View()))
  {
    if that.NilInterface? {
      return message == null;
    }
    var that1: TopicMessage?;
    match that {
      case Pointer(p) => that1 := p;
      case Struct(m) => that1 := m;
      case _ => return false;
    }
    if that1 == null {
      return message == null;
    } else if message == null {
      return false;
    }
    equal := message.IsEqual(that1);
  }

  lemma MessageIsValid(version: uint32, payload: Slice, timestamp: int64, pk: Slice, signature: Slice)
    requires |payload.Elems()| <= MAX_INT && |pk.Elems()| <= MAX_INT && |signature.Elems()| <= MAX_INT
    ensures Valid(TOPIC, MessageOf(version, payload, timestamp, pk, signature))
  {
  }

  /** The layout of the message: from every field on, its bytes and then the rest. */
  lemma Layout(version: uint32, payload: Slice, timestamp: int64, pk: Slice, signature: Slice)
    requires |payload.Elems()| <= MAX_INT && |pk.Elems()| <= MAX_INT && |signature.Elems()| <= MAX_INT
    ensures var m := MessageOf(version, payload, timestamp, pk, signature);
            Valid(TOPIC, m) && Encode(TOPIC, m) == EncodeFrom(TOPIC, m, 0) && EncodeFrom(TOPIC, m, 5) == []
            && EncodeFrom(TOPIC, m, 4) == BlobBytes(0x2a, signature.Elems()) + EncodeFrom(TOPIC, m, 5)
            && EncodeFrom(TOPIC, m, 3) == BlobBytes(0x22, pk.Elems()) + EncodeFrom(TOPIC, m, 4)
            && EncodeFrom(TOPIC, m, 2) == NumberBytes(0x18, timestamp) + EncodeFrom(TOPIC, m, 3)
            && EncodeFrom(TOPIC, m, 1) == BlobBytes(0x12, payload.Elems()) + EncodeFrom(TOPIC, m, 2)
            && EncodeFrom(TOPIC, m, 0) == NumberBytes(0x8, version) + EncodeFrom(TOPIC, m, 1)
  {
    hide EncodeField, EncodeFrom, SizeFrom, NumberBytes, BlobBytes, Kind.Holds;
    MessageIsValid(version, payload, timestamp, pk, signature);
    var m := MessageOf(version, payload, timestamp, pk, signature);
    FieldBytes(TOPIC, m, 0);
    FieldBytes(TOPIC, m, 1);
    FieldBytes(TOPIC, m, 2);
    FieldBytes(TOPIC, m, 3);
    FieldBytes(TOPIC, m, 4);
    EncodeEnds(TOPIC, m);
  }

  /** Decoding a marshalled message into a reset one succeeds, and every field comes back;
      slices without bytes come back nil. */
  lemma TopicRoundTrip(version: uint32, payload: Slice, timestamp: int64, pk: Slice, signature: Slice)
    requires |payload.Elems()| <= MAX_INT && |pk.Elems()| <= MAX_INT && |signature.Elems()| <= MAX_INT
    requires var m := MessageOf(version, payload, timestamp, pk, signature);
             Valid(TOPIC, m) && Size(TOPIC, m) <= MAX_INT
    ensures var m := MessageOf(version, payload, timestamp, pk, signature);
            var back := MessageOf(version, NilIfEmpty(payload), timestamp, NilIfEmpty(pk), NilIfEmpty(signature));
            Decode(TOPIC, Zeros(TOPIC), Encode(TOPIC, m)) == Outcome(None, back) && Equal(back, m)
  {
    hide Decode, Encode, Size;
    var m := MessageOf(version, payload, timestamp, pk, signature);
    RoundTrip(TOPIC, m);
    assert CanonicalMessage(TOPIC, m)
        == MessageOf(version, NilIfEmpty(payload), timestamp, NilIfEmpty(pk), NilIfEmpty(signature));
  }

  /** Re-encoding never grows a topic message, and gives back an equal message when decoded again. */
  lemma TopicReencode(data: seq<byte>)
    requires |data| <= MAX_INT && Decode(TOPIC, Zeros(TOPIC), data).err.None?
    ensures var m := Decode(TOPIC, Zeros(TOPIC), data).msg;
            && Valid(TOPIC, m) && Size(TOPIC, m) <= |data|
            && var again := Decode(TOPIC, Zeros(TOPIC), Encode(TOPIC, m));
               again.err.None? && Equal(again.msg, m)
  {
    var m := Decode(TOPIC, Zeros(TOPIC), data).msg;
    ReencodeBound(TOPIC, data);
    assert WidenedFrom(TOPIC, m, 3) == 0;
    assert WidenedFields(TOPIC, m) == 0;
    RoundTrip(TOPIC, m);
  }
}
