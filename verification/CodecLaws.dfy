/** Laws of the wire format: concatenation is merge, the accepted inputs are exactly the
    well-formed field sequences, decoding undoes encoding, and how far re-encoding can grow. */
module CodecLaws {
  import opened Basics
  import opened Bits
  import opened Varint
  import opened SkipField
  import opened Codec

  // ---------------------------------------------------------------- merge

  /** Two outcomes agree when they leave the same message and report the same error, where a
      length that overruns the input may be reported as end of input or as an invalid length:
      which of the two depends on the absolute index, through the wrapped sum. */
  predicate Agree(a: Outcome, b: Outcome) {
    a.msg == b.msg && SameError(a.err, b.err)
  }

  predicate SameError(a: Option<Error>, b: Option<Error>) {
    a == b || (Overrun(a) && Overrun(b))
  }

  predicate Overrun(e: Option<Error>) {
    e == Some(UnexpectedEOF) || e == Some(InvalidLength)
  }

  lemma ReadVarintShift(pre: seq<byte>, data: seq<byte>, i: nat, w: Width)
    requires i <= |data|
    ensures var r := ReadVarint(data, i, w);
            ReadVarint(pre + data, |pre| + i, w) == r.(next := |pre| + r.next)
  {
    ReadFromShift(pre, data, i, 0, 0, w);
  }

  lemma ReadVarintExtend(data: seq<byte>, post: seq<byte>, i: nat, w: Width)
    requires i <= |data| && ReadVarint(data, i, w).err.None?
    ensures ReadVarint(data + post, i, w) == ReadVarint(data, i, w)
  {
    ReadFromExtend(data, post, i, 0, 0, w);
  }

  /** `b` is the step `a`, taken behind `n` other bytes. */
  predicate Shifted(a: Step, b: Step, n: nat) {
    a.msg == b.msg && SameError(a.err, b.err) && (a.err.None? ==> b.next == n + a.next)
  }

  lemma BlobShift(s: Schema, m: Message, pre: seq<byte>, data: seq<byte>, i: nat, f: nat)
    requires |m| == |s| && f < |s| && i <= |data| && |pre| + |data| <= MAX_INT
    ensures Shifted(DecodeBlob(s, m, data, i, f), DecodeBlob(s, m, pre + data, |pre| + i, f), |pre|)
  {
    hide ReadVarint;
    ReadVarintShift(pre, data, i, W64);
    var v := ReadVarint(data, i, W64);
    var n := W64.Signed(v.value);
    if 0 <= n && v.next + n <= |data| {
      assert (pre + data)[|pre| + v.next..|pre| + v.next + n] == data[v.next..v.next + n];
    }
  }

  lemma UnknownShift(m: Message, pre: seq<byte>, data: seq<byte>, i: nat)
    requires i < |data| && |pre| + |data| <= MAX_INT
    ensures Shifted(DecodeUnknown(m, data, i), DecodeUnknown(m, pre + data, |pre| + i), |pre|)
  {
    hide SkipFrom;
    assert (pre + data)[|pre| + i..] == data[i..];
  }

  lemma ScalarShift(s: Schema, m: Message, pre: seq<byte>, data: seq<byte>, i: nat, f: nat)
    requires |m| == |s| && f < |s| && !s[f].IsBlob() && i <= |data|
    ensures Shifted(DecodeScalar(s, m, data, i, f), DecodeScalar(s, m, pre + data, |pre| + i, f), |pre|)
  {
    hide ReadVarint;
    ReadVarintShift(pre, data, i, s[f].Register());
  }

  /** A field decodes alike wherever it stands. */
  lemma FieldShift(s: Schema, m: Message, pre: seq<byte>, data: seq<byte>, i: nat)
    requires |m| == |s| && i < |data| && |pre| + |data| <= MAX_INT
    ensures Shifted(DecodeField(s, m, data, i), DecodeField(s, m, pre + data, |pre| + i), |pre|)
  {
    hide ReadVarint, FieldNumber, DecodeBlob, DecodeUnknown, DecodeScalar;
    ReadVarintShift(pre, data, i, W64);
    var tag := ReadVarint(data, i, W64);
    var f := FieldNumber(tag.value) - 1;
    if f >= |s| {
      UnknownShift(m, pre, data, i);
    } else if f >= 0 {
      if s[f].IsBlob() { BlobShift(s, m, pre, data, tag.next, f); } else { ScalarShift(s, m, pre, data, tag.next, f); }
    }
  }

  lemma BlobExtend(s: Schema, m: Message, data: seq<byte>, post: seq<byte>, i: nat, f: nat)
    requires |m| == |s| && f < |s| && i <= |data| && |data| + |post| <= MAX_INT && DecodeBlob(s, m, data, i, f).err.None?
    ensures DecodeBlob(s, m, data + post, i, f) == DecodeBlob(s, m, data, i, f)
  {
    hide ReadVarint;
    ReadVarintExtend(data, post, i, W64);
    var v := ReadVarint(data, i, W64);
    var n := W64.Signed(v.value);
    assert (data + post)[v.next..v.next + n] == data[v.next..v.next + n];
  }

  lemma UnknownExtend(m: Message, data: seq<byte>, post: seq<byte>, i: nat)
    requires i < |data| && |data| + |post| <= MAX_INT && DecodeUnknown(m, data, i).err.None?
    ensures DecodeUnknown(m, data + post, i) == DecodeUnknown(m, data, i)
  {
    hide SkipFrom;
    SkipExtend(data[i..], post);
    assert (data + post)[i..] == data[i..] + post;
  }

  /** A field that decodes does not look at what follows it. */
  lemma FieldExtend(s: Schema, m: Message, data: seq<byte>, post: seq<byte>, i: nat)
    requires |m| == |s| && i < |data| && |data| + |post| <= MAX_INT
    requires DecodeField(s, m, data, i).err.None?
    ensures DecodeField(s, m, data + post, i) == DecodeField(s, m, data, i)
  {
    hide ReadVarint, FieldNumber, DecodeBlob, DecodeUnknown;
    ReadVarintExtend(data, post, i, W64);
    var tag := ReadVarint(data, i, W64);
    var f := FieldNumber(tag.value) - 1;
    if f >= |s| {
      UnknownExtend(m, data, post, i);
    } else if s[f].IsBlob() {
      BlobExtend(s, m, data, post, tag.next, f);
    } else {
      ReadVarintExtend(data, post, tag.next, s[f].Register());
    }
  }

  lemma {:induction false} DecodeShift(s: Schema, m: Message, pre: seq<byte>, data: seq<byte>, i: nat)
    requires |m| == |s| && i <= |data| && |pre| + |data| <= MAX_INT
    ensures Agree(DecodeFrom(s, m, pre + data, |pre| + i), DecodeFrom(s, m, data, i))
    decreases |data| - i
  {
    hide DecodeField;
    if i < |data| {
      FieldShift(s, m, pre, data, i);
      var step := DecodeField(s, m, data, i);
      if step.err.None? { DecodeShift(s, step.msg, pre, data, step.next); }
    }
  }

  lemma {:induction false} DecodeExtend(s: Schema, m: Message, data: seq<byte>, post: seq<byte>, i: nat)
    requires |m| == |s| && i <= |data| && |data| + |post| <= MAX_INT
    requires DecodeFrom(s, m, data, i).err.None?
    ensures DecodeFrom(s, m, data + post, i)
         == DecodeFrom(s, DecodeFrom(s, m, data, i).msg, data + post, |data|)
    decreases |data| - i
  {
    hide DecodeField;
    if i < |data| {
      FieldExtend(s, m, data, post, i);
      var step := DecodeField(s, m, data, i);
      DecodeExtend(s, step.msg, data, post, step.next);
    }
  }

  /** Concatenation is merge: where `a` decodes onto `m`, decoding `a + b` onto `m` is
      decoding `b` onto the result. */
  lemma ConcatenationIsMerge(s: Schema, m: Message, a: seq<byte>, b: seq<byte>)
    requires |m| == |s| && |a| + |b| <= MAX_INT && Decode(s, m, a).err.None?
    ensures Agree(Decode(s, m, a + b), Decode(s, Decode(s, m, a).msg, b))
  {
    DecodeExtend(s, m, a, b, 0);
    DecodeShift(s, Decode(s, m, a).msg, a, b, 0);
  }

  /** Where the bytes of the field at `i` would end, were `int` unbounded: for byte fields and
      unknown fields whose length was read. */
  function AnnouncedEnd(s: Schema, data: seq<byte>, i: nat): Option<nat>
    requires i < |data| <= MAX_INT
  {
    var tag := ReadVarint(data, i, W64);
    var f, wireType := FieldNumber(tag.value) - 1, tag.value % 8;
    if tag.err.Some? || wireType == 4 || f < 0 then None
    else if f >= |s| then
      var skip := SkipFrom(data[i..], 0, 0);
      if skip.Skipped? then Some(i + skip.n) else None
    else if !s[f].IsBlob() || wireType != 2 then None
    else
      var v := ReadVarint(data, tag.next, W64);
      if v.err.Some? || W64.Signed(v.value) < 0 then None else Some(v.next + W64.Signed(v.value))
  }

  /** The field fails because of its announced end exactly if that lies behind the input, and
      the error tells whether it fits in `int`. */
  lemma EndDecides(s: Schema, m: Message, data: seq<byte>, i: nat)
    requires |m| == |s| && i < |data| <= MAX_INT && AnnouncedEnd(s, data, i).Some?
    ensures var e := AnnouncedEnd(s, data, i).value;
            DecodeField(s, m, data, i).err
            == if e > MAX_INT then Some(InvalidLength) else if e > |data| then Some(UnexpectedEOF) else None
  {
    hide ReadVarint, SkipFrom, FieldNumber;
  }

  /** The announced end moves with the field; without one, so does the error. */
  lemma EndShift(s: Schema, m: Message, pre: seq<byte>, data: seq<byte>, i: nat)
    requires |m| == |s| && i < |data| && |pre| + |data| <= MAX_INT
    ensures var e, e' := AnnouncedEnd(s, data, i), AnnouncedEnd(s, pre + data, |pre| + i);
            && (e.Some? <==> e'.Some?)
            && (e.Some? ==> e'.value == |pre| + e.value)
            && (e.None? ==> DecodeField(s, m, pre + data, |pre| + i).err == DecodeField(s, m, data, i).err)
  {
    hide ReadVarint, SkipFrom, FieldNumber;
    ReadVarintShift(pre, data, i, W64);
    var tag := ReadVarint(data, i, W64);
    var f := FieldNumber(tag.value) - 1;
    assert (pre + data)[|pre| + i..] == data[i..];
    if 0 <= f < |s| {
      ReadVarintShift(pre, data, tag.next, s[f].Register());
    }
  }

  /** The announced end of the field at which decoding fails. */
  function StopEnd(s: Schema, m: Message, data: seq<byte>, i: nat): Option<nat>
    requires |m| == |s| && i <= |data| <= MAX_INT
    decreases |data| - i
  {
    if i == |data| then None
    else
      var step := DecodeField(s, m, data, i);
      if step.err.Some? then AnnouncedEnd(s, data, i) else StopEnd(s, step.msg, data, step.next)
  }

  /** An end that fits in `int` does not fit any more behind `n` other bytes. */
  predicate Overflows(end: Option<nat>, n: nat) {
    end.Some? && end.value <= MAX_INT < n + end.value
  }

  lemma FieldShiftIff(s: Schema, m: Message, pre: seq<byte>, data: seq<byte>, i: nat)
    requires |m| == |s| && i < |data| && |pre| + |data| <= MAX_INT
    ensures DecodeField(s, m, pre + data, |pre| + i).err == DecodeField(s, m, data, i).err
       <==> !Overflows(AnnouncedEnd(s, data, i), |pre|)
    ensures Overflows(AnnouncedEnd(s, data, i), |pre|) ==> DecodeField(s, m, data, i).err.Some?
  {
    hide DecodeField, AnnouncedEnd;
    EndShift(s, m, pre, data, i);
    if AnnouncedEnd(s, data, i).Some? {
      EndDecides(s, m, data, i);
      EndDecides(s, m, pre + data, |pre| + i);
    }
  }

  lemma {:induction false} DecodeShiftIff(s: Schema, m: Message, pre: seq<byte>, data: seq<byte>, i: nat)
    requires |m| == |s| && i <= |data| && |pre| + |data| <= MAX_INT
    ensures DecodeFrom(s, m, pre + data, |pre| + i) == DecodeFrom(s, m, data, i)
       <==> !Overflows(StopEnd(s, m, data, i), |pre|)
    decreases |data| - i
  {
    hide DecodeField, AnnouncedEnd;
    if i < |data| {
      FieldShift(s, m, pre, data, i);
      FieldShiftIff(s, m, pre, data, i);
      var step := DecodeField(s, m, data, i);
      if step.err.None? { DecodeShiftIff(s, step.msg, pre, data, step.next); }
    }
  }

  /** For any two inputs: the concatenation gives exactly the message and the error of decoding in
      turn, unless the field of `b` that fails announces an end that fits in `int` by itself
      and does not fit behind `a`. */
  lemma MergeIsExactIff(s: Schema, m: Message, a: seq<byte>, b: seq<byte>)
    requires |m| == |s| && |a| + |b| <= MAX_INT && Decode(s, m, a).err.None?
    ensures Decode(s, m, a + b) == Decode(s, Decode(s, m, a).msg, b)
       <==> !Overflows(StopEnd(s, Decode(s, m, a).msg, b, 0), |a|)
  {
    hide DecodeFrom, StopEnd;
    DecodeExtend(s, m, a, b, 0);
    DecodeShiftIff(s, Decode(s, m, a).msg, a, b, 0);
  }

  /** A byte field that announces MAX_INT - 10 bytes and carries none. */
  function Announced(k: Kind, f: nat): seq<byte>
    requires f < 15
  {
    [Tag(k, f)] + Uvarint(MAX_INT - 10)
  }

  lemma PowersOfGroups()
    ensures Pow2(56) * 128 == Pow2(63) == TWO_63
  {
    WordPowers();
    Pow2Add(56, 7);
    assert Pow2(7) == 128;
  }

  lemma AnnouncedLength(k: Kind, f: nat)
    requires f < 15
    ensures |Announced(k, f)| == 10
  {
    hide Uvarint, Value, Pow2;
    var v := MAX_INT - 10;
    assert Pow2(56) * 128 == Pow2(63) == TWO_63 by { PowersOfGroups(); }
    UvarintLength(v, 9);
    UvarintIsVarint(v);
    ValueBound(Uvarint(v));
    if |Uvarint(v)| < 9 { Pow2Add(7 * |Uvarint(v)|, 56 - 7 * |Uvarint(v)|); }
  }

  lemma AnnouncedReads(k: Kind, f: nat, pre: seq<byte>)
    requires f < 15 && k.IsBlob()
    ensures var data := pre + Announced(k, f);
            && |data| == |pre| + 10 && FieldNumber(Tag(k, f)) == f + 1 && Tag(k, f) % 8 == 2
            && ReadVarint(data, |pre|, W64) == Read(None, Tag(k, f), |pre| + 1)
            && ReadVarint(data, |pre| + 1, W64) == Read(None, MAX_INT - 10, |pre| + 10)
  {
    hide Uvarint, ReadVarint;
    var tag: byte, v := Tag(k, f), MAX_INT - 10;
    AnnouncedLength(k, f);
    assert Uvarint(tag) == [tag] by { TagIsShort(k, f); }
    ReadWritten(pre, tag, Uvarint(v), W64);
    ReadWritten(pre + [tag], v, [], W64);
    var data := pre + Announced(k, f);
    assert data == pre + Uvarint(tag) + Uvarint(v) && data == pre + [tag] + Uvarint(v) + [];
  }

  /** Alone it runs past the end of the input; behind anything else, its end overflows `int`. */
  lemma AnnouncedErrs(s: Schema, m: Message, pre: seq<byte>, f: nat)
    requires |m| == |s| && f < |s| && f < 15 && s[f].IsBlob() && |pre| + 10 <= MAX_INT
    ensures |Announced(s[f], f)| == 10
    ensures DecodeFrom(s, m, pre + Announced(s[f], f), |pre|)
         == Outcome(Some(if pre == [] then UnexpectedEOF else InvalidLength), m)
  {
    hide Tag, Announced, FieldNumber, ReadVarint, SkipFrom;
    AnnouncedReads(s[f], f, pre);
  }

  lemma TagIsShort(k: Kind, f: nat)
    requires f < 15
    ensures Uvarint(Tag(k, f)) == [Tag(k, f)]
  {
  }

  /** Which of the two errors an overrun reports is all that concatenation can change, and it does
      so behind every input but the empty one. */
  lemma MergeKeepsErrorsIff(s: Schema, m: Message, a: seq<byte>, f: nat)
    requires |m| == |s| && f < |s| && f < 15 && s[f].IsBlob()
    requires |a| + 10 <= MAX_INT && Decode(s, m, a).err.None?
    ensures (forall b: seq<byte> | |a| + |b| <= MAX_INT :: Decode(s, m, a + b) == Decode(s, Decode(s, m, a).msg, b))
       <==> a == []
  {
    hide DecodeFrom, Announced;
    if a == [] {
      assert Decode(s, m, a).msg == m by { DecodeNothing(s, m); }
      assert forall b: seq<byte> :: [] + b == b;
    } else {
      var b, m' := Announced(s[f], f), Decode(s, m, a).msg;
      AnnouncedErrs(s, m', [], f);
      AnnouncedErrs(s, m', a, f);
      DecodeExtend(s, m, a, b, 0);
      assert [] + b == b;
      assert Decode(s, m, a + b) != Decode(s, m', b);
    }
  }

  lemma DecodeNothing(s: Schema, m: Message)
    requires |m| == |s|
    ensures Decode(s, m, []) == Outcome(None, m)
  {
  }

  // ---------------------------------------------------------------- the refused fields

  /** Why a field with a readable tag is refused before its payload is looked at, in the order of
      the checks: it ends a group, its number is not positive, or its wire type is not the one of
      its kind. */
  lemma TagRefused(s: Schema, m: Message, data: seq<byte>, i: nat, tag: seq<byte>)
    requires |m| == |s| && i < |data| <= MAX_INT && StartsAt(data, i, tag) && IsVarint(tag)
    ensures var n, w, err := NumberIn(Value(tag)), Value(tag) % 8, DecodeField(s, m, data, i).err;
            && (w == 4 ==> err == Some(EndGroupTag))
            && (w != 4 && n <= 0 ==> err == Some(IllegalTag))
            && (w != 4 && 1 <= n <= |s| && w != (if s[n - 1].IsBlob() then 2 else 0) ==> err == Some(WrongWireType))
            && (err == Some(EndGroupTag) ==> w == 4)
            && (err == Some(IllegalTag) ==> n <= 0)
            && (err == Some(WrongWireType) ==> 1 <= n <= |s| && w != (if s[n - 1].IsBlob() then 2 else 0))
  {
    hide ReadVarint, SkipFrom, Value, FieldNumber, NumberIn, IsVarint, StartsAt;
    ReadAt(data, i, tag);
    NumberRead(Value(tag));
    LowBits(Value(tag));
    SkipErrors(data[i..], 0, 0);
    var n := NumberIn(Value(tag)) - 1;
    if 0 <= n < |s| { ReadErrors(data, i + |tag|, s[n].Register()); ReadErrors(data, i + |tag|, W64); }
  }

  /** What a refused field leaves behind: the message as it was, except that a number that is cut
      off, or too long, has already stored the groups that were read. A boolean has not. */
  lemma FailureLeaves(s: Schema, m: Message, data: seq<byte>, i: nat, tag: seq<byte>)
    requires |m| == |s| && i < |data| <= MAX_INT && StartsAt(data, i, tag) && IsVarint(tag)
    requires DecodeField(s, m, data, i).err.Some?
    ensures var n, j := NumberIn(Value(tag)) - 1, i + |tag|;
            var stop := if |data| < j + 10 then |data| else j + 10;
            DecodeField(s, m, data, i).msg
            == if 0 <= n < |s| && (s[n].Uint? || s[n].Int?) && Value(tag) % 8 == 0
               then m[n := s[n].FromPattern(Value(data[j..stop]) % s[n].Register().Modulus())] else m
  {
    hide ReadVarint, SkipFrom, Value, FieldNumber, NumberIn, IsVarint, StartsAt, Kind.FromPattern;
    ReadAt(data, i, tag);
    NumberRead(Value(tag));
    LowBits(Value(tag));
    var n := NumberIn(Value(tag)) - 1;
    if 0 <= n < |s| && !s[n].IsBlob() { ReadMeaning(data, i + |tag|, s[n].Register()); }
  }

  /** Where the tag itself cannot be read, nothing has changed. */
  lemma NoTagLeaves(s: Schema, m: Message, data: seq<byte>, i: nat)
    requires |m| == |s| && i < |data| <= MAX_INT && forall n :: !VarintAt(data, i, n)
    ensures DecodeField(s, m, data, i).msg == m
    ensures DecodeField(s, m, data, i).err == Some(if i + 10 <= |data| then IntOverflow else UnexpectedEOF)
  {
    hide ReadVarint, VarintAt;
    ReadMeaning(data, i, W64);
  }

  lemma LowBits(v: nat)
    ensures v % TWO_64 % 8 == v % 8
  {
    var q, r := v / TWO_64, v % TWO_64;
    ModUnique(v, 8, q * 0x2000_0000_0000_0000 + r / 8, r % 8);
  }

  /** A varint fails only because the input ends or by too many groups. */
  lemma ReadErrors(data: seq<byte>, i: nat, w: Width)
    requires i <= |data|
    ensures ReadVarint(data, i, w).err in {None, Some(UnexpectedEOF), Some(IntOverflow)}
  {
    ReadMeaning(data, i, w);
  }

  /** Skipping never reports an error of the fields it does not decode. */
  lemma {:induction false} SkipErrors(data: seq<byte>, i: nat, depth: nat)
    requires |data| <= MAX_INT && i <= MAX_INT
    ensures SkipFrom(data, i, depth).SkipFailed? ==> SkipFrom(data, i, depth).err !in {EndGroupTag, IllegalTag, WrongWireType}
    decreases if i <= |data| then |data| - i else 0
  {
    hide ReadVarint;
    if i < |data| {
      ReadErrors(data, i, W64);
      var tag := ReadVarint(data, i, W64);
      if tag.err.None? {
        ReadErrors(data, tag.next, W64);
        var wireType := tag.value % 8;
        if !(wireType == 4 && depth == 0) {
          var after := AfterPayload(data, tag.next, wireType);
          if after.Skipped? && NewDepth(depth, wireType) > 0 { SkipErrors(data, after.n, NewDepth(depth, wireType)); }
        }
      }
    }
  }

  // ---------------------------------------------------------------- the accepted inputs

  /** The field number in the tag of a field. */
  function NumberOf(f: Field): int {
    NumberIn(Value(f.tag))
  }

  /** The number in a tag of this value: what stands in front of the three bits of the wire type,
      of which the low 32 bits count, in two's complement. */
  function NumberIn(value: nat): int {
    var low := value / 8 % TWO_32;
    if low < TWO_31 then low else low - TWO_32
  }

  /** A tag of value 8n + w has number n and wire type w, for every positive 32-bit number. */
  lemma NumberAndType(n: nat, w: nat)
    requires n < TWO_31 && w < 8
    ensures NumberIn(8 * n + w) == n && (8 * n + w) % TWO_64 % 8 == w
  {
  }

  /** The decoder reads the number in the tag, also when the tag is a varint beyond 64 bits. */
  lemma NumberRead(value: nat)
    ensures FieldNumber(value % TWO_64) == NumberIn(value)
  {
    var q, r := value / TWO_64, value % TWO_64;
    assert value == q * TWO_64 + r;
    assert value / 8 == q * 0x2000_0000_0000_0000 + r / 8;
    ModUnique(value / 8, TWO_32, q * 0x2000_0000 + r / 8 / TWO_32, r / 8 % TWO_32);
  }

  function WireTypeOf(f: Field): nat {
    Value(f.tag) % TWO_64 % 8
  }

  /** A known field carries the wire type of its kind; any other positive number is unknown. */
  predicate Admissible(s: Schema, f: Field) {
    && NumberOf(f) >= 1
    && (NumberOf(f) <= |s| ==> WireTypeOf(f) == if s[NumberOf(f) - 1].IsBlob() then 2 else 0)
  }

  predicate Accepted(s: Schema, fs: Fields) {
    match fs
    case Nil => true
    case Cons(head, tail) => WellFormed(head) && Admissible(s, head) && Accepted(s, tail)
  }

  /** What one field means: numbers are truncated to the field's width, bytes replace bytes,
      unknown fields mean nothing. */
  function Apply(s: Schema, m: Message, f: Field): (r: Message)
    requires |m| == |s| && WellFormed(f) && Admissible(s, f)
    ensures |r| == |s|
  {
    var n := NumberOf(f) - 1;
    if n >= |s| then m
    else if s[n].IsBlob() then m[n := Blob(false, f.payload)]
    else m[n := s[n].FromPattern(Value(f.payload) % s[n].Register().Modulus())]
  }

  /** What a sequence of fields means: each in turn, so the last one wins. */
  function ApplyAll(s: Schema, m: Message, fs: Fields): (r: Message)
    requires |m| == |s| && Accepted(s, fs)
    ensures |r| == |s|
    decreases fs
  {
    match fs
    case Nil => m
    case Cons(head, tail) => ApplyAll(s, Apply(s, m, head), tail)
  }

  lemma SingleField(s: Schema, m: Message, data: seq<byte>, m': Message)
    requires |m| == |s| && 0 < |data| <= MAX_INT && DecodeField(s, m, data, 0) == Step(None, m', |data|)
    ensures Decode(s, m, data) == Outcome(None, m')
  {
    hide DecodeField;
    assert DecodeFrom(s, m', data, |data|) == Outcome(None, m');
  }

  lemma WrittenTag(f: Field)
    ensures StartsAt(Written(f), 0, f.tag)
    ensures f.Plain? ==> StartsAt(Written(f), |f.tag|, f.payload) && Written(f)[|f.tag|..] == f.payload
    ensures f.Delimited? ==> StartsAt(Written(f), |f.tag|, f.length)
    ensures f.Delimited? ==> Written(f)[|f.tag| + |f.length|..] == f.payload
  {
    assert Written(f)[..|f.tag|] == f.tag;
    if f.Delimited? { assert Written(f)[|f.tag|..|f.tag| + |f.length|] == f.length; }
  }

  lemma FieldDecodes(s: Schema, m: Message, f: Field)
    requires |m| == |s| && WellFormed(f) && Admissible(s, f) && |Written(f)| <= MAX_INT
    ensures Decode(s, m, Written(f)) == Outcome(None, Apply(s, m, f))
  {
    hide ReadVarint, SkipFrom, Value, FieldNumber, NumberIn, Decode, StartsAt, Written;
    WrittenTag(f);
    NumberRead(Value(f.tag));
    ReadAt(Written(f), 0, f.tag);
    if NumberOf(f) > |s| {
      SkipAccepts(f, []);
      assert Written(f)[0..] == Written(f) == Written(f) + [];
    } else if s[NumberOf(f) - 1].IsBlob() {
      ReadAt(Written(f), |f.tag|, f.length);
      WrittenLength(f);
      assert Written(f)[|f.tag| + |f.length|..|Written(f)|] == f.payload;
    } else {
      ReadAt(Written(f), |f.tag|, f.payload, s[NumberOf(f) - 1].Register());
      WrittenLength(f);
    }
    SingleField(s, m, Written(f), Apply(s, m, f));
  }

  lemma WrittenLength(f: Field)
    ensures f.Plain? ==> |Written(f)| == |f.tag| + |f.payload|
    ensures f.Delimited? ==> |Written(f)| == |f.tag| + |f.length| + |f.payload|
  {
  }

  /** Every sequence of well-formed, admissible fields decodes, to what the fields mean. */
  lemma {:induction false} DecodeAccepts(s: Schema, m: Message, fs: Fields)
    requires |m| == |s| && Accepted(s, fs) && |WrittenAll(fs)| <= MAX_INT
    ensures Decode(s, m, WrittenAll(fs)) == Outcome(None, ApplyAll(s, m, fs))
    decreases fs
  {
    hide DecodeField, Apply, Written, Admissible;
    if fs.Cons? {
      FieldDecodes(s, m, fs.head);
      ConcatenationIsMerge(s, m, Written(fs.head), WrittenAll(fs.tail));
      DecodeAccepts(s, Apply(s, m, fs.head), fs.tail);
    }
  }

  lemma FieldGives(s: Schema, m: Message, data: seq<byte>, i: nat) returns (f: Field)
    requires |m| == |s| && i < |data| <= MAX_INT && DecodeField(s, m, data, i).err.None?
    ensures WellFormed(f) && Admissible(s, f)
    ensures data[i..DecodeField(s, m, data, i).next] == Written(f)
  {
    hide ReadVarint, SkipFrom, Value, FieldNumber, NumberIn, VarintAt;
    var tag := ReadGives(data, i);
    NumberRead(Value(tag));
    var n, j := FieldNumber(Value(tag) % TWO_64) - 1, i + |tag|;
    var next := DecodeField(s, m, data, i).next;
    if n >= |s| {
      f := SkipOnlyFields(data[i..]);
      assert data[i..][..next - i] == data[i..next];
      TagIsFirst(f, data, i, tag);
    } else if s[n].IsBlob() {
      var length := ReadGives(data, j);
      SliceAfter(data, i, tag, next);
      SliceAfter(data, j, length, next);
      f := Delimited(tag, length, data[j + |length|..next]);
    } else {
      ReadGives'(data, j, s[n].Register());
      f := Plain(tag, data[j..next]);
      SliceAfter(data, i, tag, next);
    }
  }

  lemma ReadGives'(data: seq<byte>, i: nat, w: Width)
    requires i <= |data| && ReadVarint(data, i, w).err.None?
    ensures IsVarint(data[i..ReadVarint(data, i, w).next])
  {
    ReadMeaning(data, i, w);
  }

  /** Two varints that start at the same place are the same. */
  lemma TagIsFirst(f: Field, data: seq<byte>, i: nat, tag: seq<byte>)
    requires WellFormed(f) && StartsAt(data, i, Written(f)) && StartsAt(data, i, tag) && IsVarint(tag)
    ensures f.tag == tag
  {
    hide ReadVarint, Value;
    WrittenTag(f);
    assert data[i..i + |Written(f)|][..|f.tag|] == data[i..i + |f.tag|];
    ReadAt(data, i, f.tag);
    ReadAt(data, i, tag);
  }

  lemma {:induction false} DecodeFromOnlyFields(s: Schema, m: Message, data: seq<byte>, i: nat) returns (fs: Fields)
    requires |m| == |s| && i <= |data| <= MAX_INT && DecodeFrom(s, m, data, i).err.None?
    ensures Accepted(s, fs) && data[i..] == WrittenAll(fs)
    decreases |data| - i
  {
    hide DecodeField, Admissible, WellFormed, Written;
    if i == |data| {
      fs := Nil;
    } else {
      var step := DecodeField(s, m, data, i);
      var f := FieldGives(s, m, data, i);
      var tail := DecodeFromOnlyFields(s, step.msg, data, step.next);
      fs := Cons(f, tail);
      assert data[i..] == data[i..step.next] + data[step.next..];
    }
  }

  /** Conversely, an input that decodes is, to its last byte, a sequence of well-formed,
      admissible fields, and the message is what they mean. */
  lemma DecodeOnlyFields(s: Schema, m: Message, data: seq<byte>) returns (fs: Fields)
    requires |m| == |s| && |data| <= MAX_INT && Decode(s, m, data).err.None?
    ensures Accepted(s, fs) && data == WrittenAll(fs)
    ensures Decode(s, m, data).msg == ApplyAll(s, m, fs)
  {
    fs := DecodeFromOnlyFields(s, m, data, 0);
    assert data[0..] == data;
    DecodeAccepts(s, m, fs);
  }

  /** A well-formed field with an unknown number, a balanced group included, changes nothing
      when it is inserted at a field boundary. */
  lemma UnknownFieldIgnored(s: Schema, m: Message, a: seq<byte>, f: Field, b: seq<byte>)
    requires |m| == |s| && WellFormed(f) && NumberOf(f) > |s|
    requires |a| + |Written(f)| + |b| <= MAX_INT && Decode(s, m, a).err.None?
    ensures Agree(Decode(s, m, a + Written(f) + b), Decode(s, m, a + b))
  {
    hide Decode, Written, WellFormed;
    FieldDecodes(s, Decode(s, m, a).msg, f);
    ConcatenationIsMerge(s, m, a, Written(f));
    ConcatenationIsMerge(s, m, a + Written(f), b);
    ConcatenationIsMerge(s, m, a, b);
  }

  /** The same, by the number in the tag: any from the one behind the schema up to 2^31 - 1. */
  lemma UnknownNumberIgnored(s: Schema, m: Message, a: seq<byte>, f: Field, b: seq<byte>)
    requires |m| == |s| && WellFormed(f) && |s| < Value(f.tag) / 8 < TWO_31
    requires |a| + |Written(f)| + |b| <= MAX_INT && Decode(s, m, a).err.None?
    ensures Agree(Decode(s, m, a + Written(f) + b), Decode(s, m, a + b))
  {
    hide Decode, Written, WellFormed, Value, NumberIn;
    NumberAndType(Value(f.tag) / 8, Value(f.tag) % 8);
    UnknownFieldIgnored(s, m, a, f, b);
  }

  // ---------------------------------------------------------------- round trip

  /** The number a scalar is written as. `narrow` chooses the shorter of the two encodings
      a decoder accepts for a negative 32-bit number; the generated code never writes it. */
  function NumberToWrite(k: Kind, v: int, narrow: bool): uint64
    requires k.Holds(Scalar(v))
  {
    if narrow && k == Int(W32) && v < 0 then v + TWO_32 else ToUint64(v)
  }

  /** What a register means: a boolean is true for any set bit, an unsigned number is the register,
      and a signed one differs from it by a multiple of its modulus and lies in its range. */
  lemma PatternMeans(k: Kind, p: nat)
    requires !k.IsBlob() && p < k.Register().Modulus()
    ensures var v := k.FromPattern(p);
            && v.Scalar? && (k.Bool? ==> v == Scalar(if p == 0 then 0 else 1)) && (k.Uint? ==> v.v == p)
            && (k.Int? ==> -(k.w.Modulus() / 2) <= v.v < k.w.Modulus() / 2 && (v.v == p || v.v == p - k.w.Modulus()))
  {
  }

  lemma NumberReadsBack(k: Kind, v: int, narrow: bool)
    requires k.Holds(Scalar(v))
    ensures k.FromPattern(NumberToWrite(k, v, narrow) % k.Register().Modulus()) == Scalar(v)
  {
    match k
    case Bool =>
    case Uint(w) =>
    case Int(w) =>
      if w == W32 && v < 0 { ModUnique(v + TWO_64, TWO_32, TWO_32 - 1, v + TWO_32); }
  }

  function AsField(k: Kind, f: nat, d: Datum, narrow: bool): Field
    requires f < 15 && k.Holds(d)
  {
    match d
    case Scalar(v) => Plain([Tag(k, f)], Uvarint(NumberToWrite(k, v, narrow)))
    case Blob(_, bytes) => Delimited([Tag(k, f)], Uvarint(|bytes|), bytes)
  }

  /** The message as a sequence of fields, from number `f + 1` on. */
  function AsFields(s: Schema, m: Message, f: nat, narrow: bool): Fields
    requires Valid(s, m) && f <= |s|
    decreases |s| - f
  {
    if f == |s| then Nil
    else
      var rest := AsFields(s, m, f + 1, narrow);
      if IsZero(m[f]) then rest else Cons(AsField(s[f], f, m[f], narrow), rest)
  }

  lemma {:induction false} EncodeAsFields(s: Schema, m: Message, f: nat)
    requires Valid(s, m) && f <= |s|
    ensures WrittenAll(AsFields(s, m, f, false)) == EncodeFrom(s, m, f)
    decreases |s| - f
  {
    hide EncodeField, AsField, Written;
    if f < |s| {
      EncodeAsFields(s, m, f + 1);
      FieldEncodes(s[f], f, m[f]);
    }
  }

  lemma FieldEncodes(k: Kind, f: nat, d: Datum)
    requires f < 15 && k.Holds(d)
    ensures EncodeField(k, f, d) == if IsZero(d) then [] else Written(AsField(k, f, d, false))
  {
    hide Uvarint, Tag;
  }

  lemma TagReads(k: Kind, f: nat)
    requires f < 15
    ensures var t := Tag(k, f);
            IsTag([t], if k.IsBlob() then 2 else 0) && NumberIn(Value([t])) == f + 1
  {
    assert Value([Tag(k, f)]) == Tag(k, f) by { assert [Tag(k, f)][1..] == []; }
  }

  lemma AsFieldApplies(s: Schema, m: Message, f: nat, d: Datum, narrow: bool)
    requires |m| == |s| && f < |s| && s[f].Holds(d) && !IsZero(d)
    ensures var field := AsField(s[f], f, d, narrow);
            && WellFormed(field) && Admissible(s, field)
            && Apply(s, m, field) == m[f := if d.Blob? then d.(isNil := false) else d]
  {
    hide Tag, Uvarint, Value, NumberIn, IsVarint;
    TagReads(s[f], f);
    match d
    case Scalar(v) =>
      UvarintIsVarint(NumberToWrite(s[f], v, narrow));
      NumberReadsBack(s[f], v, narrow);
    case Blob(_, bytes) => UvarintIsVarint(|bytes|);
  }

  /** What decoding makes of an encoded value: empty bytes are not written, so they become the zero. */
  function Canonical(k: Kind, d: Datum): (c: Datum)
    requires k.Holds(d)
    ensures k.Holds(c)
  {
    if IsZero(d) then k.Zero() else d
  }

  function CanonicalMessage(s: Schema, m: Message): (c: Message)
    requires Valid(s, m)
    ensures Valid(s, c) && Equal(c, m)
  {
    seq(|s|, f requires 0 <= f < |s| => Canonical(s[f], m[f]))
  }

  /** The message with the fields below `f` already decoded and the others still zero. */
  function Partly(s: Schema, m: Message, f: nat): (p: Message)
    requires Valid(s, m) && f <= |s|
    ensures |p| == |s|
  {
    CanonicalMessage(s, m)[..f] + Zeros(s)[f..]
  }

  lemma PartlyNext(s: Schema, m: Message, f: nat)
    requires Valid(s, m) && f < |s|
    ensures Partly(s, m, f + 1) == if IsZero(m[f]) then Partly(s, m, f) else Partly(s, m, f)[f := m[f]]
  {
  }

  lemma {:induction false} AsFieldsApply(s: Schema, m: Message, f: nat, narrow: bool)
    requires Valid(s, m) && f <= |s|
    ensures Accepted(s, AsFields(s, m, f, narrow))
    ensures ApplyAll(s, Partly(s, m, f), AsFields(s, m, f, narrow)) == CanonicalMessage(s, m)
    decreases |s| - f
  {
    hide AsField, Apply, WellFormed, Admissible;
    if f < |s| {
      PartlyNext(s, m, f);
      AsFieldsApply(s, m, f + 1, narrow);
      if !IsZero(m[f]) { AsFieldApplies(s, Partly(s, m, f), f, m[f], narrow); }
    } else {
      assert Partly(s, m, f) == CanonicalMessage(s, m);
    }
  }

  lemma AsFieldsDecode(s: Schema, m: Message, narrow: bool)
    requires Valid(s, m) && |WrittenAll(AsFields(s, m, 0, narrow))| <= MAX_INT
    ensures Decode(s, Zeros(s), WrittenAll(AsFields(s, m, 0, narrow)))
         == Outcome(None, CanonicalMessage(s, m))
  {
    assert Partly(s, m, 0) == Zeros(s);
    AsFieldsApply(s, m, 0, narrow);
    DecodeAccepts(s, Zeros(s), AsFields(s, m, 0, narrow));
  }

  /** Decoding an encoded message into a reset one succeeds and gives an equal message. */
  lemma RoundTrip(s: Schema, m: Message)
    requires Valid(s, m) && Size(s, m) <= MAX_INT
    ensures var r := Decode(s, Zeros(s), Encode(s, m));
            r == Outcome(None, CanonicalMessage(s, m)) && Equal(r.msg, m)
  {
    EncodeAsFields(s, m, 0);
    AsFieldsDecode(s, m, false);
  }

  // ---------------------------------------------------------------- re-encoding

  lemma {:induction false} EqualEncodes(s: Schema, m: Message, m': Message, f: nat)
    requires Valid(s, m) && Valid(s, m') && Equal(m, m') && f <= |s|
    ensures EncodeFrom(s, m, f) == EncodeFrom(s, m', f)
    decreases |s| - f
  {
    hide Uvarint, Tag;
    if f < |s| {
      EqualEncodes(s, m, m', f + 1);
      assert EncodeField(s[f], f, m[f]) == EncodeField(s[f], f, m'[f]);
    }
  }

  /** Two messages that can be encoded are equal exactly if their encodings are the same bytes. */
  lemma EqualIffSameBytes(s: Schema, m: Message, m': Message)
    requires Valid(s, m) && Valid(s, m') && Size(s, m) <= MAX_INT
    ensures Equal(m, m') <==> Encode(s, m) == Encode(s, m')
  {
    hide Encode, Decode, EncodeFrom, CanonicalMessage;
    if Equal(m, m') {
      EqualEncodes(s, m, m', 0);
      EncodeEnds(s, m);
      EncodeEnds(s, m');
    }
    if Encode(s, m) == Encode(s, m') {
      RoundTrip(s, m);
      RoundTrip(s, m');
      var c := CanonicalMessage(s, m);
      assert Equal(c, m) && Equal(c, m');
    }
  }

  /** A negative 32-bit number: the decoder takes it in 5 bytes, the encoder writes 10. */
  predicate Widened(k: Kind, d: Datum) {
    k == Int(W32) && d.Scalar? && d.v < 0
  }

  function WidenedFrom(s: Schema, m: Message, f: nat): nat
    requires |m| == |s| && f <= |s|
    decreases |s| - f
  {
    if f == |s| then 0 else (if Widened(s[f], m[f]) then 1 else 0) + WidenedFrom(s, m, f + 1)
  }

  /** How many fields of the message re-encode wider than they need to be read. */
  function WidenedFields(s: Schema, m: Message): nat
    requires |m| == |s|
  {
    WidenedFrom(s, m, 0)
  }

  /** The least number of bytes a field can have been read from. */
  function LeastSize(k: Kind, d: Datum): int
    requires k.Holds(d)
  {
    FieldSize(k, d) - if Widened(k, d) then 5 else 0
  }

  function LeastFrom(s: Schema, m: Message, f: nat): int
    requires Valid(s, m) && f <= |s|
    decreases |s| - f
  {
    if f == |s| then 0 else LeastSize(s[f], m[f]) + LeastFrom(s, m, f + 1)
  }

  lemma {:induction false} LeastFromIs(s: Schema, m: Message, f: nat)
    requires Valid(s, m) && f <= |s|
    ensures LeastFrom(s, m, f) == SizeFrom(s, m, f) - 5 * WidenedFrom(s, m, f)
    decreases |s| - f
  {
    if f < |s| { LeastFromIs(s, m, f + 1); }
  }

  lemma {:induction false} LeastFromUpdate(s: Schema, m: Message, f: nat, n: nat, d: Datum)
    requires Valid(s, m) && f <= |s| && n < |s| && s[n].Holds(d)
    ensures Valid(s, m[n := d])
    ensures LeastFrom(s, m[n := d], f)
         == LeastFrom(s, m, f) + if f <= n then LeastSize(s[n], d) - LeastSize(s[n], m[n]) else 0
    decreases |s| - f
  {
    hide LeastSize;
    if f < |s| { LeastFromUpdate(s, m, f + 1, n, d); }
  }

  lemma NegativeIsLong(x: nat)
    requires x >= 0x1000_0000
    ensures |Uvarint(x)| == 4 + |Uvarint(x / 128 / 128 / 128 / 128)| >= 5
  {
    assert |Uvarint(x / 128 / 128)| == 2 + |Uvarint(x / 128 / 128 / 128 / 128)|;
    assert |Uvarint(x)| == 2 + |Uvarint(x / 128 / 128)|;
  }

  lemma LeastSizeOfNumber(k: Kind, payload: seq<byte>)
    requires !k.IsBlob() && IsVarint(payload)
    ensures LeastSize(k, k.FromPattern(Value(payload) % k.Register().Modulus())) <= 1 + |payload|
  {
    hide Value, Uvarint;
    var x := Value(payload);
    var r := x % k.Register().Modulus();
    var v := k.FromPattern(r).v;
    UvarintMinimal(payload);
    UvarintMonotone(r, x);
    SovIsLength(ToUint64(v));
    if k == Int(W32) && v < 0 {
      NegativeIsLong(r);
    } else {
      assert v >= 0 || k == Int(W64);
      assert !k.Bool? ==> ToUint64(v) == r;
    }
  }

  lemma LeastSizeNonNegative(k: Kind, d: Datum)
    requires k.Holds(d)
    ensures LeastSize(k, d) >= 0
  {
    if Widened(k, d) {
      SovIsLength(ToUint64(d.v));
      NegativeIsLong(ToUint64(d.v));
    }
  }

  /** No field adds more to the least size than the bytes it was read from. */
  lemma ApplyPays(s: Schema, m: Message, f: Field)
    requires Valid(s, m) && WellFormed(f) && Admissible(s, f)
    ensures Valid(s, Apply(s, m, f))
    ensures LeastFrom(s, Apply(s, m, f), 0) <= LeastFrom(s, m, 0) + |Written(f)|
  {
    hide Value, NumberIn, LeastSize, LeastFrom;
    var n := NumberOf(f) - 1;
    if n < |s| {
      var d := Apply(s, m, f)[n];
      LeastFromUpdate(s, m, 0, n, d);
      LeastSizeNonNegative(s[n], m[n]);
      if s[n].IsBlob() {
        LeastSizeOfBytes(s[n], f.length, f.payload);
      } else {
        LeastSizeOfNumber(s[n], f.payload);
      }
    }
  }

  lemma LeastSizeOfBytes(k: Kind, length: seq<byte>, payload: seq<byte>)
    requires k.IsBlob() && IsVarint(length) && Value(length) % TWO_64 == |payload| <= MAX_INT
    ensures LeastSize(k, Blob(false, payload)) <= 1 + |length| + |payload|
  {
    hide Value;
    UvarintMinimal(length);
    UvarintMonotone(|payload|, Value(length));
    SovIsLength(|payload|);
  }

  lemma {:induction false} ApplyAllPays(s: Schema, m: Message, fs: Fields)
    requires Valid(s, m) && Accepted(s, fs)
    ensures Valid(s, ApplyAll(s, m, fs))
    ensures LeastFrom(s, ApplyAll(s, m, fs), 0) <= LeastFrom(s, m, 0) + |WrittenAll(fs)|
    decreases fs
  {
    hide Apply, LeastFrom, Written, WellFormed, Admissible;
    if fs.Cons? {
      ApplyPays(s, m, fs.head);
      ApplyAllPays(s, Apply(s, m, fs.head), fs.tail);
    }
  }

  lemma {:induction false} ZerosLeast(s: Schema, f: nat)
    requires f <= |s|
    ensures LeastFrom(s, Zeros(s), f) == 0
    decreases |s| - f
  {
    if f < |s| { ZerosLeast(s, f + 1); }
  }

  /** An input decoded into a reset message gives a valid message, and encoding that again
      grows by at most 5 bytes for every negative 32-bit field. */
  lemma ReencodeBound(s: Schema, data: seq<byte>)
    requires |data| <= MAX_INT && Decode(s, Zeros(s), data).err.None?
    ensures var m := Decode(s, Zeros(s), data).msg;
            Valid(s, m) && Size(s, m) <= |data| + 5 * WidenedFields(s, m)
  {
    var fs := DecodeOnlyFields(s, Zeros(s), data);
    ApplyAllPays(s, Zeros(s), fs);
    ZerosLeast(s, 0);
    LeastFromIs(s, ApplyAll(s, Zeros(s), fs), 0);
  }

  lemma {:induction false} NarrowLength(s: Schema, m: Message, f: nat)
    requires Valid(s, m) && f <= |s|
    ensures |WrittenAll(AsFields(s, m, f, true))| == LeastFrom(s, m, f)
    decreases |s| - f
  {
    hide Uvarint, Tag;
    if f < |s| {
      NarrowLength(s, m, f + 1);
      NarrowFieldLength(s[f], f, m[f]);
    }
  }

  lemma NarrowFieldLength(k: Kind, f: nat, d: Datum)
    requires f < 15 && k.Holds(d)
    ensures !IsZero(d) ==> |Written(AsField(k, f, d, true))| == LeastSize(k, d)
    ensures IsZero(d) ==> LeastSize(k, d) == 0
  {
    hide Sov;
    match d
    case Scalar(v) =>
      SovIsLength(ToUint64(v));
      if Widened(k, d) {
        NarrowLengths(v);
      }
    case Blob(_, bytes) => SovIsLength(|bytes|);
  }

  lemma NarrowLengths(v: int32)
    requires v < 0
    ensures |Uvarint(v + TWO_32)| == 5 && |Uvarint(v + TWO_64)| == 10
  {
    assert Pow2(35) >= TWO_32 by { WordPowers(); Pow2Add(32, 3); }
    UvarintLength(v + TWO_32, 5);
    NegativeIsLong(v + TWO_32);
    UvarintIsVarint(v + TWO_64);
    var x := (v + TWO_64) / 128 / 128 / 128 / 128;
    NegativeIsLong(v + TWO_64);
    NegativeIsLong(x);
    assert x / 128 / 128 / 128 / 128 >= 128;
  }

  /** The bound is reached: a message's narrow encoding decodes to it and is shorter than its
      encoding by 5 bytes for every negative 32-bit field. */
  lemma ReencodeReached(s: Schema, m: Message) returns (data: seq<byte>)
    requires Valid(s, m) && Size(s, m) <= MAX_INT
    ensures |data| == Size(s, m) - 5 * WidenedFields(s, m)
    ensures Decode(s, Zeros(s), data) == Outcome(None, CanonicalMessage(s, m))
  {
    data := WrittenAll(AsFields(s, m, 0, true));
    NarrowLength(s, m, 0);
    LeastFromIs(s, m, 0);
    AsFieldsDecode(s, m, true);
  }

  /** When re-encoding can grow: no input that decodes to `m` is shorter than the encoding of
      `m` if and only if `m` has no negative 32-bit field. */
  lemma ReencodeNeverGrowsIff(s: Schema, m: Message)
    requires Valid(s, m) && m == CanonicalMessage(s, m) && Size(s, m) <= MAX_INT
    ensures (forall data: seq<byte> | |data| <= MAX_INT && Decode(s, Zeros(s), data) == Outcome(None, m) ::
               Size(s, m) <= |data|)
       <==> WidenedFields(s, m) == 0
  {
    forall data: seq<byte> | |data| <= MAX_INT && Decode(s, Zeros(s), data) == Outcome(None, m)
      ensures Size(s, m) <= |data| + 5 * WidenedFields(s, m)
    {
      ReencodeBound(s, data);
    }
    var shortest := ReencodeReached(s, m);
    assert Decode(s, Zeros(s), shortest) == Outcome(None, m);
  }
}
