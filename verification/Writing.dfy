/** The statements the generated codecs repeat for every field: reading a length-delimited
    field, and writing a field backwards, payload first and tag last. */
module Writing {
  import opened Basics
  import opened Bits
  import opened Varint
  import opened Codec

  /** Length, bounds checks and slice of a length-delimited field. */
  method DecodeBytes(dAtA: seq<byte>, start: nat) returns (err: Option<Error>, bytes: seq<byte>, iNdEx: nat)
    requires start <= |dAtA| <= MAX_INT
    ensures forall s: Schema, m: Message, f: nat | f < |m| == |s| ::
              DecodeBlob(s, m, dAtA, start, f)
              == Step(err, if err.None? then m[f := Blob(false, bytes)] else m, iNdEx)
    ensures iNdEx <= |dAtA|
  {
    hide ReadVarint;
    var byteLenBits;
    err, byteLenBits, iNdEx := DecodeVarint(dAtA, start, W64);
    if err.Some? {
      return err, [], iNdEx;
    }
    var byteLen := W64.Signed(byteLenBits);
    if byteLen < 0 {
      return Some(InvalidLength), [], iNdEx;
    }
    var postIndex := AddInt(iNdEx, byteLen);
    if postIndex < 0 {
      return Some(InvalidLength), [], iNdEx;
    }
    if postIndex > |dAtA| {
      return Some(UnexpectedEOF), [], iNdEx;
    }
    return None, dAtA[iNdEx..postIndex], postIndex;
  }

  /** The bytes of a number field and of a bytes field with the given tag; zero and empty are not written. */
  function NumberBytes(tag: byte, v: int): seq<byte>
    requires -TWO_63 <= v < TWO_64
  {
    if v == 0 then [] else [tag] + Uvarint(ToUint64(v))
  }

  function BlobBytes(tag: byte, b: seq<byte>): seq<byte> {
    if b == [] then [] else [tag] + Uvarint(|b|) + b
  }

  /** One field of an encoding, by its tag. */
  lemma FieldBytes(s: Schema, m: Message, f: nat)
    requires Valid(s, m) && f < |s|
    ensures m[f].Scalar? ==>
              EncodeFrom(s, m, f) == NumberBytes(Tag(s[f], f), m[f].v) + EncodeFrom(s, m, f + 1)
    ensures m[f].Blob? ==>
              EncodeFrom(s, m, f) == BlobBytes(Tag(s[f], f), m[f].bytes) + EncodeFrom(s, m, f + 1)
  {
    assert s[f].Holds(m[f]);
  }

  lemma BoolBytes(tag: byte)
    ensures NumberBytes(tag, 0) == [] && NumberBytes(tag, 1) == [tag, 1]
  {
    assert Uvarint(1) == [1];
  }

  lemma BlobIsNumber(tag: byte, b: seq<byte>)
    requires |b| <= MAX_INT
    ensures BlobBytes(tag, b) == if b == [] then [] else NumberBytes(tag, |b|) + b
  {
  }

  lemma NumberLength(tag: byte, v: int)
    requires -TWO_63 <= v < TWO_64
    ensures |NumberBytes(tag, v)| == if v == 0 then 0 else 1 + Sov(ToUint64(v))
  {
    SovIsLength(ToUint64(v));
  }

  lemma BlobLength(tag: byte, b: seq<byte>)
    ensures |BlobBytes(tag, b)| == if |b| == 0 then 0 else 1 + |b| + Sov(|b|)
  {
    SovIsLength(|b|);
  }

  /** `if v != 0 { i = encodeVarint(dAtA, i, uint64(v)); i--; dAtA[i] = tag }`. */
  method WriteNumber(dAtA: array<byte>, end: nat, tag: byte, v: int) returns (i: nat)
    requires -TWO_63 <= v < TWO_64 && |NumberBytes(tag, v)| <= end <= dAtA.Length
    modifies dAtA
    ensures i == end - |NumberBytes(tag, v)|
    ensures dAtA[i..] == NumberBytes(tag, v) + old(dAtA[end..])
    ensures forall j :: 0 <= j < i ==> dAtA[j] == old(dAtA[j])
  {
    hide Uvarint, Sov;
    i := end;
    if v != 0 {
      SovIsLength(ToUint64(v));
      i := EncodeVarint(dAtA, i, ToUint64(v));
      ghost var rest := dAtA[i..];
      i := i - 1;
      dAtA[i] := tag;
      assert dAtA[i + 1..] == rest;
      assert dAtA[i..] == [tag] + rest;
    }
  }

  /** `if v { i--; dAtA[i] = 1; i--; dAtA[i] = tag }`. */
  method WriteBool(dAtA: array<byte>, end: nat, tag: byte, v: bool) returns (i: nat)
    requires 2 <= end <= dAtA.Length || (!v && end <= dAtA.Length)
    modifies dAtA
    ensures i == if v then end - 2 else end
    ensures dAtA[i..] == (if v then [tag, 1] else []) + old(dAtA[end..])
    ensures forall j :: 0 <= j < i ==> dAtA[j] == old(dAtA[j])
  {
    i := end;
    if v {
      i := i - 1;
      dAtA[i] := 1;
      i := i - 1;
      dAtA[i] := tag;
    }
  }

  /** `copy(dAtA[i:], b)`. */
  method Copy(dAtA: array<byte>, i: nat, b: seq<byte>)
    requires i + |b| <= dAtA.Length
    modifies dAtA
    ensures dAtA[i..i + |b|] == b
    ensures forall j :: 0 <= j < i || i + |b| <= j < dAtA.Length ==> dAtA[j] == old(dAtA[j])
  {
    forall j | 0 <= j < |b| {
      dAtA[i + j] := b[j];
    }
  }

  /** `if len(b) > 0 { i -= len(b); copy(dAtA[i:], b); ... }`, then the length and the tag. */
  method WriteBytes(dAtA: array<byte>, end: nat, tag: byte, b: seq<byte>) returns (i: nat)
    requires |b| <= MAX_INT && |BlobBytes(tag, b)| <= end <= dAtA.Length
    modifies dAtA
    ensures i == end - |BlobBytes(tag, b)|
    ensures dAtA[i..] == BlobBytes(tag, b) + old(dAtA[end..])
    ensures forall j :: 0 <= j < i ==> dAtA[j] == old(dAtA[j])
  {
    hide NumberBytes, BlobBytes;
    BlobIsNumber(tag, b);
    i := end;
    if |b| > 0 {
      i := i - |b|;
      Copy(dAtA, i, b);
      assert dAtA[i..] == b + old(dAtA[end..]);
      i := WriteNumber(dAtA, i, tag, |b|);
    }
  }
}
