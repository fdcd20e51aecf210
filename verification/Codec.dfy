/** The wire format of the generated codecs, for any message of up to 15 fields: what Size,
    MarshalToSizedBuffer and Unmarshal compute, and the laws that tie them together.
    WsMessage and TopicMessage are two schemas of this format. */
module Codec {
  import opened Basics
  import opened Bits
  import opened Varint
  import opened SkipField

  /** The kinds of fields in use. Field `f` of a schema has number `f + 1`. */
  datatype Kind = Bool | Uint(w: Width) | Int(w: Width) | Bytes | Str {
    predicate IsBlob() { Bytes? || Str? }

    /** The register the decoder accumulates this kind in. */
    function Register(): Width { if Uint? || Int? then w else W64 }

    /** The field value for a decoded register. */
    function FromPattern(p: nat): (v: Datum)
      requires !IsBlob() && p < Register().Modulus()
      ensures Holds(v)
    {
      match this
      case Bool => Scalar(if p != 0 then 1 else 0)
      case Uint(_) => Scalar(p)
      case Int(w) => Scalar(w.Signed(p))
    }

    predicate Holds(v: Datum) {
      match this
      case Bool => v.Scalar? && 0 <= v.v <= 1
      case Uint(w) => v.Scalar? && 0 <= v.v < w.Modulus()
      case Int(w) => v.Scalar? && -(w.Modulus() as int) <= 2 * v.v < w.Modulus()
      case Bytes => v.Blob? && |v.bytes| <= MAX_INT && (v.isNil ==> v.bytes == [])
      case Str => v.Blob? && |v.bytes| <= MAX_INT && !v.isNil
    }

    function Zero(): (v: Datum)
      ensures Holds(v) && IsZero(v)
    {
      if IsBlob() then Blob(Bytes?, []) else Scalar(0)
    }
  }

  type Schema = s: seq<Kind> | |s| <= 15

  /** A field's value: a number (booleans are 0 and 1), or bytes, where nil and empty differ. */
  datatype Datum = Scalar(v: int) | Blob(isNil: bool, bytes: seq<byte>)

  /** A Go byte slice: nil, or bytes. */
  datatype Slice = NilSlice | Slice(elems: seq<byte>) {
    function Elems(): seq<byte> { if NilSlice? then [] else elems }
    function Datum(): Datum { Blob(NilSlice?, Elems()) }
  }

  function NilIfEmpty(b: Slice): Slice { if b.Elems() == [] then NilSlice else b }

  type Message = seq<Datum>

  predicate Valid(s: Schema, m: Message) {
    |m| == |s| && forall f :: 0 <= f < |s| ==> s[f].Holds(m[f])
  }

  /** The value a message has after Reset. */
  function Zeros(s: Schema): (m: Message)
    ensures Valid(s, m)
  {
    seq(|s|, f requires 0 <= f < |s| => s[f].Zero())
  }

  predicate IsZero(d: Datum) {
    match d
    case Scalar(v) => v == 0
    case Blob(_, bytes) => bytes == []
  }

  /** The generated Equal: nil and empty byte slices are equal. */
  predicate Equal(m: Message, m': Message) {
    |m| == |m'| && forall f :: 0 <= f < |m| ==>
      match (m[f], m'[f])
      case (Scalar(v), Scalar(v')) => v == v'
      case (Blob(_, b), Blob(_, b')) => b == b'
      case _ => false
  }

  // ---------------------------------------------------------------- decoding

  datatype Step = Step(err: Option<Error>, msg: Message, next: nat)

  function DecodeScalar(s: Schema, m: Message, data: seq<byte>, i: nat, f: nat): (r: Step)
    requires |m| == |s| && f < |s| && !s[f].IsBlob() && i <= |data|
    ensures |r.msg| == |s| && (r.err.None? ==> i < r.next <= |data|)
  {
    var v := ReadVarint(data, i, s[f].Register());
    // a failing loop has already stored the bits it read, except into the boolean's local variable
    if v.err.Some? && s[f].Bool? then Step(v.err, m, v.next)
    else Step(v.err, m[f := s[f].FromPattern(v.value)], v.next)
  }

  function DecodeBlob(s: Schema, m: Message, data: seq<byte>, i: nat, f: nat): (r: Step)
    requires |m| == |s| && f < |s| && i <= |data| <= MAX_INT
    ensures |r.msg| == |s| && (r.err.None? ==> i < r.next <= |data|)
  {
    var v := ReadVarint(data, i, W64);
    if v.err.Some? then Step(v.err, m, v.next)
    else
      var byteLen := W64.Signed(v.value);
      if byteLen < 0 then Step(Some(InvalidLength), m, v.next)
      else
        var post := AddInt(v.next, byteLen);
        if post < 0 then Step(Some(InvalidLength), m, v.next)
        else if post > |data| then Step(Some(UnexpectedEOF), m, v.next)
        else Step(None, m[f := Blob(false, data[v.next..post])], post)
  }

  function DecodeUnknown(m: Message, data: seq<byte>, i: nat): (r: Step)
    requires i < |data| <= MAX_INT
    ensures r.msg == m && (r.err.None? ==> i < r.next <= |data|)
  {
    match SkipFrom(data[i..], 0, 0)
    case SkipFailed(e) => Step(Some(e), m, i)
    case Skipped(n) =>
      var post := AddInt(i, n);
      if post < 0 then Step(Some(InvalidLength), m, i)
      else if post > |data| then Step(Some(UnexpectedEOF), m, i)
      else Step(None, m, post)
  }

  /** `int32(wire >> 3)`. */
  function FieldNumber(wire: nat): int {
    W32.Signed(wire / 8 % W32.Modulus())
  }

  /** The switch over field numbers. */
  function DecodeBody(s: Schema, m: Message, data: seq<byte>, i: nat, tag: Read): (r: Step)
    requires |m| == |s| && i < tag.next <= |data| <= MAX_INT
    ensures |r.msg| == |s| && (r.err.None? ==> i < r.next <= |data|)
  {
    var fieldNum, wireType := FieldNumber(tag.value), tag.value % 8;
    if wireType == 4 then Step(Some(EndGroupTag), m, tag.next)
    else if fieldNum <= 0 then Step(Some(IllegalTag), m, tag.next)
    else if fieldNum > |s| then DecodeUnknown(m, data, i)
    else
      var f := fieldNum - 1;
      if wireType != (if s[f].IsBlob() then 2 else 0) then Step(Some(WrongWireType), m, tag.next)
      else if s[f].IsBlob() then DecodeBlob(s, m, data, tag.next, f)
      else DecodeScalar(s, m, data, tag.next, f)
  }

  /** One round of the Unmarshal loop. */
  function DecodeField(s: Schema, m: Message, data: seq<byte>, i: nat): (r: Step)
    requires |m| == |s| && i < |data| <= MAX_INT
    ensures |r.msg| == |s| && (r.err.None? ==> i < r.next <= |data|)
  {
    var tag := ReadVarint(data, i, W64);
    if tag.err.Some? then Step(tag.err, m, tag.next) else DecodeBody(s, m, data, i, tag)
  }

  /** An error, if any, and the message as decoding left it. */
  datatype Outcome = Outcome(err: Option<Error>, msg: Message)

  function DecodeFrom(s: Schema, m: Message, data: seq<byte>, i: nat): (r: Outcome)
    requires |m| == |s| && i <= |data| <= MAX_INT
    ensures |r.msg| == |s|
    decreases |data| - i
  {
    if i >= |data| then Outcome(None, m)
    else
      var step := DecodeField(s, m, data, i);
      if step.err.Some? then Outcome(step.err, step.msg) else DecodeFrom(s, step.msg, data, step.next)
  }

  /** Unmarshal of `data` onto the message `m`. */
  function Decode(s: Schema, m: Message, data: seq<byte>): (r: Outcome)
    requires |m| == |s| && |data| <= MAX_INT
    ensures |r.msg| == |s|
  {
    DecodeFrom(s, m, data, 0)
  }

  // ---------------------------------------------------------------- encoding

  /** The tag byte the generated code writes as a constant. */
  function Tag(k: Kind, f: nat): byte
    requires f < 15
  {
    (f + 1) * 8 + if k.IsBlob() then 2 else 0
  }

  /** `uint64(v)`: negative numbers are sign-extended to 64 bits. */
  function ToUint64(v: int): uint64
    requires -TWO_63 <= v < TWO_64
  {
    if v >= 0 then v else v + TWO_64
  }

  function FieldSize(k: Kind, d: Datum): nat
    requires k.Holds(d)
  {
    if IsZero(d) then 0
    else
      match d
      case Scalar(v) => if k.Bool? then 2 else 1 + Sov(ToUint64(v))
      case Blob(_, bytes) => 1 + |bytes| + Sov(|bytes|)
  }

  function SizeFrom(s: Schema, m: Message, f: nat): nat
    requires Valid(s, m) && f <= |s|
    decreases |s| - f
  {
    if f == |s| then 0 else FieldSize(s[f], m[f]) + SizeFrom(s, m, f + 1)
  }

  function Size(s: Schema, m: Message): nat
    requires Valid(s, m)
  {
    SizeFrom(s, m, 0)
  }

  function EncodeField(k: Kind, f: nat, d: Datum): (r: seq<byte>)
    requires f < 15 && k.Holds(d)
    ensures |r| == FieldSize(k, d)
  {
    if IsZero(d) then []
    else
      match d
      case Scalar(v) => SovIsLength(ToUint64(v)); [Tag(k, f)] + Uvarint(ToUint64(v))
      case Blob(_, bytes) => SovIsLength(|bytes|); [Tag(k, f)] + Uvarint(|bytes|) + bytes
  }

  /** The fields from number `f + 1` on, in ascending order. */
  function EncodeFrom(s: Schema, m: Message, f: nat): (r: seq<byte>)
    requires Valid(s, m) && f <= |s|
    ensures |r| == SizeFrom(s, m, f)
    decreases |s| - f
  {
    if f == |s| then [] else EncodeField(s[f], f, m[f]) + EncodeFrom(s, m, f + 1)
  }

  lemma EncodeEnds(s: Schema, m: Message)
    requires Valid(s, m)
    ensures EncodeFrom(s, m, |s|) == [] && Encode(s, m) == EncodeFrom(s, m, 0)
  {
  }

  /** The encoding; `Size` is exactly its length. */
  function Encode(s: Schema, m: Message): (r: seq<byte>)
    requires Valid(s, m)
    ensures |r| == Size(s, m)
  {
    EncodeFrom(s, m, 0)
  }
}
