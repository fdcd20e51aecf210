/** Skipping one unknown field: the depth-counting loop of skipWsMessage and skipTopicMessage,
    and the grammar of balanced fields it recognises. */
module SkipField {
  import opened Basics
  import opened Bits
  import opened Varint

  datatype Skip = Skipped(n: nat) | SkipFailed(err: Error)

  /** `iNdEx += n` followed by the sign test that catches a wrapped sum. */
  function Advance(i: nat, n: nat): (r: Skip)
    requires i <= MAX_INT && n <= MAX_INT
    ensures r.Skipped? ==> r.n == i + n <= MAX_INT
    ensures r.Skipped? <==> i + n <= MAX_INT
  {
    var k := AddInt(i, n);
    if k < 0 then SkipFailed(InvalidLength) else Skipped(k)
  }

  /** The index behind the payload of a field whose tag ends at `i`. Indices may pass the end of `data`. */
  function AfterPayload(data: seq<byte>, i: nat, wireType: nat): (r: Skip)
    requires i <= |data| <= MAX_INT
    ensures r.Skipped? ==> i <= r.n <= MAX_INT
  {
    match wireType
    case 0 =>
      var v := ReadVarint(data, i, W64);
      if v.err.Some? then SkipFailed(v.err.value) else Skipped(v.next)
    case 1 => Advance(i, 8)
    case 2 =>
      var v := ReadVarint(data, i, W64);
      if v.err.Some? then SkipFailed(v.err.value)
      else
        var length := W64.Signed(v.value);
        if length < 0 then SkipFailed(InvalidLength) else Advance(v.next, length)
    case 3 => Skipped(i)
    case 4 => Skipped(i)
    case 5 => Advance(i, 4)
    case _ => SkipFailed(IllegalWireType)
  }

  /** The loop from index `i` on, inside `depth` open groups. */
  function SkipFrom(data: seq<byte>, i: nat, depth: nat): (r: Skip)
    requires |data| <= MAX_INT && i <= MAX_INT
    ensures r.Skipped? ==> i < r.n <= MAX_INT
    decreases if i <= |data| then |data| - i else 0, 0
  {
    if i >= |data| then SkipFailed(UnexpectedEOF)
    else
      var tag := ReadVarint(data, i, W64);
      if tag.err.Some? then SkipFailed(tag.err.value)
      else
        var wireType := tag.value % 8;
        if wireType == 4 && depth == 0 then SkipFailed(UnexpectedEndOfGroup)
        else
          var after := AfterPayload(data, tag.next, wireType);
          if after.SkipFailed? then after else Continue(data, after.n, NewDepth(depth, wireType))
  }

  function NewDepth(depth: nat, wireType: nat): nat
    requires wireType == 4 ==> depth > 0
  {
    if wireType == 3 then depth + 1 else if wireType == 4 then depth - 1 else depth
  }

  function Continue(data: seq<byte>, i: nat, depth: nat): (r: Skip)
    requires |data| <= MAX_INT && i <= MAX_INT
    ensures r.Skipped? ==> i <= r.n <= MAX_INT
    decreases if i <= |data| then |data| - i else 0, 1
  {
    if depth == 0 then Skipped(i) else SkipFrom(data, i, depth)
  }

  /** Case 0 of the switch: a varint whose value is not kept. */
  method SkipVarint(dAtA: seq<byte>, start: nat) returns (err: Option<Error>, i: nat)
    requires start <= |dAtA|
    ensures err == ReadVarint(dAtA, start, W64).err && i == ReadVarint(dAtA, start, W64).next
  {
    hide Or;
    i := start;
    var shift := 0;
    ghost var acc: nat := 0;
    while true
      invariant start <= i <= |dAtA| && acc < W64.Modulus()
      invariant ReadFrom(dAtA, i, shift, acc, W64) == ReadVarint(dAtA, start, W64)
      decreases |dAtA| - i
    {
      if shift >= 64 {
        return Some(IntOverflow), i;
      }
      if i >= |dAtA| {
        return Some(UnexpectedEOF), i;
      }
      RegisterBound(acc, Shl(W64, dAtA[i] % 128, shift), W64);
      acc := Or(acc, Shl(W64, dAtA[i] % 128, shift));
      i := i + 1;
      if dAtA[i - 1] < 128 {
        return None, i;
      }
      shift := shift + 7;
    }
  }

  method SkipUnknown(dAtA: seq<byte>) returns (r: Skip)
    requires |dAtA| <= MAX_INT
    ensures r == SkipFrom(dAtA, 0, 0)
  {
    hide ReadVarint;
    var l, iNdEx, depth := |dAtA|, 0, 0;
    while iNdEx < l
      invariant 0 <= iNdEx <= MAX_INT && 0 <= depth
      invariant SkipFrom(dAtA, iNdEx, depth) == SkipFrom(dAtA, 0, 0)
      decreases l - iNdEx
    {
      var err, wire;
      err, wire, iNdEx := DecodeVarint(dAtA, iNdEx, W64);
      if err.Some? {
        return SkipFailed(err.value);
      }
      var wireType := wire % 8;
      match wireType {
        case 0 =>
          err, iNdEx := SkipVarint(dAtA, iNdEx);
          if err.Some? {
            return SkipFailed(err.value);
          }
        case 1 => iNdEx := AddInt(iNdEx, 8);
        case 2 =>
          var pattern;
          err, pattern, iNdEx := DecodeVarint(dAtA, iNdEx, W64);
          if err.Some? {
            return SkipFailed(err.value);
          }
          var length := W64.Signed(pattern);
          if length < 0 {
            return SkipFailed(InvalidLength);
          }
          iNdEx := AddInt(iNdEx, length);
        case 3 => depth := depth + 1;
        case 4 =>
          if depth == 0 {
            return SkipFailed(UnexpectedEndOfGroup);
          }
          depth := depth - 1;
        case 5 => iNdEx := AddInt(iNdEx, 4);
        case _ => return SkipFailed(IllegalWireType);
      }
      if iNdEx < 0 {
        return SkipFailed(InvalidLength);
      }
      if depth == 0 {
        return Skipped(iNdEx);
      }
    }
    return SkipFailed(UnexpectedEOF);
  }

  // ---------------------------------------------------------------- the grammar of fields

  /** A field as the Protocol Buffers encoding writes it: a tag and a payload, or a group of
      fields between a start-group and an end-group tag. */
  datatype Field =
    | Plain(tag: seq<byte>, payload: seq<byte>)
    | Delimited(tag: seq<byte>, length: seq<byte>, payload: seq<byte>)
    | Group(tag: seq<byte>, body: Fields, end: seq<byte>)
  datatype Fields = Nil | Cons(head: Field, tail: Fields)

  function Written(f: Field): seq<byte> {
    match f
    case Plain(tag, payload) => tag + payload
    case Delimited(tag, length, payload) => tag + length + payload
    case Group(tag, body, end) => tag + WrittenAll(body) + end
  }

  function WrittenAll(fs: Fields): seq<byte> {
    match fs
    case Nil => []
    case Cons(head, tail) => Written(head) + WrittenAll(tail)
  }

  predicate IsTag(s: seq<byte>, wireType: nat) {
    IsVarint(s) && Value(s) % TWO_64 % 8 == wireType
  }

  predicate WellFormed(f: Field) {
    match f
    case Plain(tag, payload) =>
      || (IsTag(tag, 0) && IsVarint(payload))
      || (IsTag(tag, 1) && |payload| == 8)
      || (IsTag(tag, 5) && |payload| == 4)
    case Delimited(tag, length, payload) =>
      IsTag(tag, 2) && IsVarint(length) && Value(length) % TWO_64 == |payload| <= MAX_INT
    case Group(tag, body, end) => IsTag(tag, 3) && AllWellFormed(body) && IsTag(end, 4)
  }

  predicate AllWellFormed(fs: Fields) {
    match fs
    case Nil => true
    case Cons(head, tail) => WellFormed(head) && AllWellFormed(tail)
  }

  predicate StartsAt(data: seq<byte>, i: nat, s: seq<byte>) {
    i + |s| <= |data| && data[i..i + |s|] == s
  }

  lemma SliceAfter(data: seq<byte>, i: nat, s: seq<byte>, n: nat)
    requires StartsAt(data, i, s) && i + |s| <= n <= |data|
    ensures data[i..n] == s + data[i + |s|..n]
  {
    assert data[i..n] == data[i..i + |s|] + data[i + |s|..n];
  }

  lemma StartsSplit(data: seq<byte>, i: nat, a: seq<byte>, b: seq<byte>)
    requires StartsAt(data, i, a + b)
    ensures StartsAt(data, i, a) && StartsAt(data, i + |a|, b)
  {
    assert data[i..i + |a + b|][..|a|] == a;
    assert data[i..i + |a + b|][|a|..] == b;
  }

  lemma ReadAt(data: seq<byte>, i: nat, s: seq<byte>, w: Width := W64)
    requires StartsAt(data, i, s) && IsVarint(s)
    ensures ReadVarint(data, i, w) == Read(None, Value(s) % w.Modulus(), i + |s|)
  {
    hide ReadVarint, Value;
    assert forall j {:trigger data[j]} :: i <= j < i + |s| ==> data[j] == s[j - i];
    ReadSucceeds(data, i, |s|, w);
  }

  lemma SkipStep(data: seq<byte>, i: nat, depth: nat, tag: seq<byte>, wireType: nat)
    requires |data| <= MAX_INT && StartsAt(data, i, tag) && IsTag(tag, wireType)
    requires wireType == 4 ==> depth > 0
    requires AfterPayload(data, i + |tag|, wireType).Skipped?
    ensures SkipFrom(data, i, depth)
         == Continue(data, AfterPayload(data, i + |tag|, wireType).n, NewDepth(depth, wireType))
  {
    ReadAt(data, i, tag);
  }

  /** What a readable tag is refused for: an end of group without a group, a wire type that does
      not exist, a negative length, a payload whose end does not fit in `int`. */
  lemma SkipRefused(data: seq<byte>, i: nat, depth: nat, tag: seq<byte>, wireType: nat)
    requires |data| <= MAX_INT && StartsAt(data, i, tag) && IsTag(tag, wireType)
    ensures wireType == 4 && depth == 0 ==> SkipFrom(data, i, depth) == SkipFailed(UnexpectedEndOfGroup)
    ensures wireType > 5 ==> SkipFrom(data, i, depth) == SkipFailed(IllegalWireType)
    ensures wireType == 1 && i + |tag| + 8 > MAX_INT ==> SkipFrom(data, i, depth) == SkipFailed(InvalidLength)
    ensures wireType == 5 && i + |tag| + 4 > MAX_INT ==> SkipFrom(data, i, depth) == SkipFailed(InvalidLength)
    ensures forall s | wireType == 2 && StartsAt(data, i + |tag|, s) && IsVarint(s) ::
              var length := Value(s) % TWO_64;
              length >= TWO_63 || i + |tag| + |s| + length > MAX_INT ==> SkipFrom(data, i, depth) == SkipFailed(InvalidLength)
  {
    hide ReadVarint, Value, IsVarint, Continue;
    ReadAt(data, i, tag);
    forall s | wireType == 2 && StartsAt(data, i + |tag|, s) && IsVarint(s)
      ensures var length := Value(s) % TWO_64;
              length >= TWO_63 || i + |tag| + |s| + length > MAX_INT ==> SkipFrom(data, i, depth) == SkipFailed(InvalidLength)
    {
      ReadAt(data, i + |tag|, s);
    }
  }

  lemma SkipConsumesFlat(data: seq<byte>, i: nat, depth: nat, f: Field)
    requires |data| <= MAX_INT && WellFormed(f) && !f.Group? && StartsAt(data, i, Written(f))
    ensures SkipFrom(data, i, depth) == Continue(data, i + |Written(f)|, depth)
  {
    hide ReadVarint, Value, IsVarint, SkipFrom, Continue;
    match f
    case Plain(tag, payload) =>
      StartsSplit(data, i, tag, payload);
      var wireType := Value(tag) % TWO_64 % 8;
      if wireType == 0 { ReadAt(data, i + |tag|, payload); }
      SkipStep(data, i, depth, tag, wireType);
    case Delimited(tag, length, payload) =>
      StartsSplit(data, i, tag + length, payload);
      StartsSplit(data, i, tag, length);
      ReadAt(data, i + |tag|, length);
      SkipStep(data, i, depth, tag, 2);
  }

  /** One field is consumed whole, whatever surrounds it and however deep it stands. */
  lemma {:induction false} SkipConsumes(data: seq<byte>, i: nat, depth: nat, f: Field)
    requires |data| <= MAX_INT && WellFormed(f) && StartsAt(data, i, Written(f))
    ensures SkipFrom(data, i, depth) == Continue(data, i + |Written(f)|, depth)
    decreases f
  {
    hide ReadVarint, Value, IsVarint, SkipFrom;
    if f.Group? {
      var written := WrittenAll(f.body);
      StartsSplit(data, i, f.tag + written, f.end);
      StartsSplit(data, i, f.tag, written);
      SkipStep(data, i, depth, f.tag, 3);
      SkipConsumesAll(data, i + |f.tag|, depth + 1, f.body);
      SkipStep(data, i + |f.tag| + |written|, depth + 1, f.end, 4);
    } else {
      SkipConsumesFlat(data, i, depth, f);
    }
  }

  lemma {:induction false} SkipConsumesAll(data: seq<byte>, i: nat, depth: nat, fs: Fields)
    requires |data| <= MAX_INT && AllWellFormed(fs) && StartsAt(data, i, WrittenAll(fs)) && depth > 0
    ensures SkipFrom(data, i, depth) == SkipFrom(data, i + |WrittenAll(fs)|, depth)
    decreases fs
  {
    hide ReadVarint, Value, IsVarint, SkipFrom, StartsAt;
    if fs.Cons? {
      var first, rest := Written(fs.head), WrittenAll(fs.tail);
      StartsSplit(data, i, first, rest);
      SkipConsumes(data, i, depth, fs.head);
      SkipConsumesAll(data, i + |first|, depth, fs.tail);
    }
  }

  /** Fields still to come and the end tag that closes them. */
  datatype Level = Level(fields: Fields, end: seq<byte>)

  function WrittenLevels(levels: seq<Level>): seq<byte> {
    if levels == [] then []
    else WrittenAll(levels[0].fields) + levels[0].end + WrittenLevels(levels[1..])
  }

  predicate LevelsWellFormed(levels: seq<Level>) {
    forall l | l in levels :: AllWellFormed(l.fields) && IsTag(l.end, 4)
  }

  lemma ReadGives(data: seq<byte>, i: nat) returns (s: seq<byte>)
    requires i <= |data| && ReadVarint(data, i, W64).err.None?
    ensures IsVarint(s) && ReadVarint(data, i, W64) == Read(None, Value(s) % TWO_64, i + |s|)
    ensures StartsAt(data, i, s)
  {
    ReadMeaning(data, i, W64);
    s := data[i..ReadVarint(data, i, W64).next];
  }

  /** A tag with a payload that ends inside the data is a field of the grammar. */
  lemma PayloadGives(data: seq<byte>, i: nat, tag: seq<byte>, wireType: nat) returns (f: Field)
    requires |data| <= MAX_INT && StartsAt(data, i, tag) && IsTag(tag, wireType)
    requires wireType != 3 && wireType != 4
    requires var after := AfterPayload(data, i + |tag|, wireType); after.Skipped? && after.n <= |data|
    ensures WellFormed(f) && data[i..AfterPayload(data, i + |tag|, wireType).n] == Written(f)
  {
    hide ReadVarint, Value, IsVarint;
    var start, n := i + |tag|, AfterPayload(data, i + |tag|, wireType).n;
    SliceAfter(data, i, tag, n);
    if wireType == 2 {
      var length := ReadGives(data, start);
      SliceAfter(data, start, length, n);
      f := Delimited(tag, length, data[start + |length|..n]);
    } else {
      if wireType == 0 { var payload := ReadGives(data, start); }
      f := Plain(tag, data[start..n]);
    }
  }

  function InFront(f: Field, levels: seq<Level>): seq<Level>
    requires levels != []
  {
    [Level(Cons(f, levels[0].fields), levels[0].end)] + levels[1..]
  }

  lemma WrittenInFront(f: Field, levels: seq<Level>)
    requires levels != []
    ensures WrittenLevels(InFront(f, levels)) == Written(f) + WrittenLevels(levels)
  {
    hide Written;
    assert InFront(f, levels)[1..] == levels[1..];
    assert WrittenAll(Cons(f, levels[0].fields)) == Written(f) + WrittenAll(levels[0].fields);
  }

  /** A start tag turns the innermost level into a group at the front of the next one. */
  lemma WrittenGroup(tag: seq<byte>, levels: seq<Level>)
    requires levels != []
    ensures tag + WrittenLevels(levels)
         == Written(Group(tag, levels[0].fields, levels[0].end)) + WrittenLevels(levels[1..])
  {
  }

  /** What the loop accepts inside `depth` groups is `depth` levels of well-formed fields. */
  lemma {:induction false} SkipGivesLevels(data: seq<byte>, i: nat, depth: nat) returns (levels: seq<Level>)
    requires |data| <= MAX_INT && i <= |data| && depth > 0
    requires SkipFrom(data, i, depth).Skipped? && SkipFrom(data, i, depth).n <= |data|
    ensures |levels| == depth && LevelsWellFormed(levels)
    ensures data[i..SkipFrom(data, i, depth).n] == WrittenLevels(levels)
    decreases |data| - i
  {
    hide ReadVarint, Value, IsVarint, Written, WrittenAll;
    var n := SkipFrom(data, i, depth).n;
    var tag := ReadGives(data, i);
    var wireType, j := Value(tag) % TWO_64 % 8, i + |tag|;
    SkipStep(data, i, depth, tag, wireType);
    var m := AfterPayload(data, j, wireType).n;
    assert data[i..n] == data[i..m] + data[m..n];
    if wireType == 3 {
      var inner := SkipGivesLevels(data, j, depth + 1);
      levels := GroupLevels(tag, inner);
    } else if wireType == 4 {
      var outer: seq<Level> := [];
      if depth > 1 { outer := SkipGivesLevels(data, j, depth - 1); }
      levels := EndLevel(tag, outer);
    } else {
      var f := PayloadGives(data, i, tag, wireType);
      var rest := SkipGivesLevels(data, m, depth);
      levels := InFront(f, rest);
      WrittenInFront(f, rest);
    }
  }

  lemma GroupLevels(tag: seq<byte>, inner: seq<Level>) returns (levels: seq<Level>)
    requires |inner| >= 2 && LevelsWellFormed(inner) && IsTag(tag, 3)
    ensures |levels| == |inner| - 1 && LevelsWellFormed(levels)
    ensures WrittenLevels(levels) == tag + WrittenLevels(inner)
  {
    var g := Group(tag, inner[0].fields, inner[0].end);
    assert WellFormed(g) && inner[0] in inner;
    levels := InFront(g, inner[1..]);
    WrittenGroup(tag, inner);
    WrittenInFront(g, inner[1..]);
  }

  lemma EndLevel(tag: seq<byte>, outer: seq<Level>) returns (levels: seq<Level>)
    requires LevelsWellFormed(outer) && IsTag(tag, 4)
    ensures |levels| == |outer| + 1 && LevelsWellFormed(levels)
    ensures WrittenLevels(levels) == tag + WrittenLevels(outer)
  {
    levels := [Level(Nil, tag)] + outer;
    assert levels[1..] == outer;
  }

  /** A well-formed field, groups balanced, is skipped whole whatever follows it. */
  lemma SkipAccepts(f: Field, rest: seq<byte>)
    requires WellFormed(f) && |Written(f)| + |rest| <= MAX_INT
    ensures SkipFrom(Written(f) + rest, 0, 0) == Skipped(|Written(f)|)
  {
    hide SkipFrom, Written, WellFormed;
    assert StartsAt(Written(f) + rest, 0, Written(f));
    SkipConsumes(Written(f) + rest, 0, 0, f);
  }

  /** The numbers inside a group are not looked at: whatever the numbers of the group, of a field
      in it and of its end tag, 0 included, the group is skipped. */
  lemma GroupNumbersIgnored(group: nat, field: nat, end: nat, payload: seq<byte>, rest: seq<byte>)
    requires group < 16 && field < 16 && end < 16 && IsVarint(payload)
    requires 3 + |payload| + |rest| <= MAX_INT
    ensures SkipFrom([8 * group + 3, 8 * field] + payload + [8 * end + 4] + rest, 0, 0) == Skipped(3 + |payload|)
  {
    hide SkipFrom, IsTag, IsVarint, Written, WellFormed;
    OneByteTag(group, 3);
    OneByteTag(field, 0);
    OneByteTag(end, 4);
    OneFieldGroup([8 * group + 3], [8 * field], payload, [8 * end + 4]);
    var f := Group([8 * group + 3], Cons(Plain([8 * field], payload), Nil), [8 * end + 4]);
    assert Written(f) == [8 * group + 3, 8 * field] + payload + [8 * end + 4];
    SkipAccepts(f, rest);
  }

  lemma OneByteTag(number: nat, wireType: nat)
    requires number < 16 && wireType < 8
    ensures IsTag([8 * number + wireType], wireType)
  {
    var s: seq<byte> := [8 * number + wireType];
    assert s[1..] == [];
    assert Value(s) == 8 * number + wireType;
  }

  lemma OneFieldGroup(start: seq<byte>, tag: seq<byte>, payload: seq<byte>, end: seq<byte>)
    requires IsTag(start, 3) && IsTag(tag, 0) && IsVarint(payload) && IsTag(end, 4)
    ensures WellFormed(Group(start, Cons(Plain(tag, payload), Nil), end))
    ensures Written(Group(start, Cons(Plain(tag, payload), Nil), end)) == start + (tag + payload) + end
  {
    hide IsTag, IsVarint;
    var inner := Cons(Plain(tag, payload), Nil);
    assert AllWellFormed(Nil) && WellFormed(inner.head);
    assert AllWellFormed(inner);
    assert WrittenAll(Nil) == [];
    assert WrittenAll(inner) == tag + payload;
  }

  /** Conversely, whatever is skipped and ends inside the data is exactly one well-formed field. */
  lemma SkipOnlyFields(data: seq<byte>) returns (f: Field)
    requires |data| <= MAX_INT && SkipFrom(data, 0, 0).Skipped? && SkipFrom(data, 0, 0).n <= |data|
    ensures WellFormed(f) && data[..SkipFrom(data, 0, 0).n] == Written(f)
  {
    hide Value, IsVarint, Continue, WellFormed, Written, ReadVarint;
    var tag, wireType := SkippedTag(data);
    if wireType == 3 {
      f := SkippedGroup(data, tag);
    } else {
      f := PayloadGives(data, 0, tag, wireType);
    }
  }

  /** What is skipped starts with a tag, and is that tag with its payload or opens a group. */
  lemma SkippedTag(data: seq<byte>) returns (tag: seq<byte>, wireType: nat)
    requires |data| <= MAX_INT && SkipFrom(data, 0, 0).Skipped? && SkipFrom(data, 0, 0).n <= |data|
    ensures StartsAt(data, 0, tag) && IsTag(tag, wireType) && wireType != 4
    ensures wireType == 3 ==> SkipFrom(data, 0, 0) == SkipFrom(data, |tag|, 1)
    ensures wireType != 3 ==> SkipFrom(data, 0, 0) == AfterPayload(data, |tag|, wireType)
  {
    tag := ReadGives(data, 0);
    wireType := Value(tag) % TWO_64 % 8;
    SkipStep(data, 0, 0, tag, wireType);
  }

  lemma SkippedGroup(data: seq<byte>, tag: seq<byte>) returns (f: Field)
    requires |data| <= MAX_INT && StartsAt(data, 0, tag) && IsTag(tag, 3)
    requires SkipFrom(data, |tag|, 1).Skipped? && SkipFrom(data, |tag|, 1).n <= |data|
    ensures WellFormed(f) && data[..SkipFrom(data, |tag|, 1).n] == Written(f)
  {
    hide SkipFrom, IsTag;
    var n := SkipFrom(data, |tag|, 1).n;
    var levels := SkipGivesLevels(data, |tag|, 1);
    f := Group(tag, levels[0].fields, levels[0].end);
    assert WrittenLevels(levels[1..]) == [];
    SliceAfter(data, 0, tag, n);
  }

  /** Skipping looks at nothing behind the field it skips. */
  lemma SkipExtend(data: seq<byte>, post: seq<byte>)
    requires |data| + |post| <= MAX_INT
    requires SkipFrom(data, 0, 0).Skipped? && SkipFrom(data, 0, 0).n <= |data|
    ensures SkipFrom(data + post, 0, 0) == SkipFrom(data, 0, 0)
  {
    hide *;
    var n := SkipFrom(data, 0, 0).n;
    var f := SkipOnlyFields(data);
    assert data + post == Written(f) + (data[n..] + post);
    SkipAccepts(f, data[n..] + post);
  }
}
