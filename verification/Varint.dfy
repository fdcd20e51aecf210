/** Base 128 varints: the shared inner loops of the generated codecs
    (websocket/data/wsMessage.pb.go and p2p/data/topicMessage.pb.go inline the same code). */
module Varint {
  import opened Basics
  import opened Bits

  /** The errors the generated decoders return. */
  datatype Error =
    | IntOverflow
    | UnexpectedEOF
    | InvalidLength
    | UnexpectedEndOfGroup
    | IllegalWireType
    | EndGroupTag
    | IllegalTag
    | WrongWireType

  /** What one run of the varint loop leaves behind: the accumulator holds the bits read
      so far even when the loop fails, because the source accumulates into message fields. */
  datatype Read = Read(err: Option<Error>, value: nat, next: nat)

  /** The varint loop from a given loop state on. */
  function ReadFrom(data: seq<byte>, i: nat, shift: nat, acc: nat, w: Width): (r: Read)
    requires i <= |data| && acc < w.Modulus()
    ensures i <= r.next <= |data| && r.value < w.Modulus()
    ensures r.err.None? ==> i < r.next
    decreases |data| - i
  {
    if shift >= 64 then Read(Some(IntOverflow), acc, i)
    else if i >= |data| then Read(Some(UnexpectedEOF), acc, i)
    else
      var group := Shl(w, data[i] % 128, shift);
      RegisterBound(acc, group, w);
      var acc' := Or(acc, group);
      if data[i] < 128 then Read(None, acc', i + 1)
      else ReadFrom(data, i + 1, shift + 7, acc', w)
  }

  function ReadVarint(data: seq<byte>, i: nat, w: Width): (r: Read)
    requires i <= |data|
    ensures i <= r.next <= |data| && r.value < w.Modulus()
    ensures r.err.None? ==> i < r.next
  {
    ReadFrom(data, i, 0, 0, w)
  }

  /** The loop itself: `for shift := 0; ; shift += 7 { ... acc |= uint(b & 0x7F) << shift ... }`. */
  method DecodeVarint(data: seq<byte>, start: nat, w: Width)
    returns (err: Option<Error>, acc: nat, i: nat)
    requires start <= |data|
    ensures Read(err, acc, i) == ReadVarint(data, start, w)
  {
    hide Or;
    acc, i := 0, start;
    var shift := 0;
    while true
      invariant start <= i <= |data| && acc < w.Modulus()
      invariant ReadFrom(data, i, shift, acc, w) == ReadVarint(data, start, w)
      decreases |data| - i
    {
      if shift >= 64 {
        return Some(IntOverflow), acc, i;
      }
      if i >= |data| {
        return Some(UnexpectedEOF), acc, i;
      }
      var b := data[i];
      i := i + 1;
      RegisterBound(acc, Shl(w, b % 128, shift), w);
      acc := Or(acc, Shl(w, b % 128, shift));
      if b < 128 {
        return None, acc, i;
      }
      shift := shift + 7;
    }
  }

  /** The canonical varint of `v`, least significant group first. */
  function Uvarint(v: nat): (s: seq<byte>)
    ensures |s| >= 1
  {
    if v < 128 then [v] else [v % 128 + 128] + Uvarint(v / 128)
  }

  /** `(math_bits.Len64(x|1) + 6) / 7`. */
  function Sov(x: nat): nat {
    (BitLen(Or(x, 1)) + 6) / 7
  }

  /** Writes the varint of `v` so that it ends just before `offset`, and returns where it starts. */
  method EncodeVarint(dAtA: array<byte>, offset: nat, v: uint64) returns (base: nat)
    requires Sov(v) <= offset <= dAtA.Length
    modifies dAtA
    ensures base == offset - |Uvarint(v)|
    ensures dAtA[base..] == Uvarint(v) + old(dAtA[offset..])
    ensures forall j :: 0 <= j < base ==> dAtA[j] == old(dAtA[j])
  {
    hide Sov, Uvarint;
    SovIsLength(v);
    base := offset - Sov(v);
    var i, rest := base, v as nat;
    ghost var written, behind := Uvarint(v), dAtA[offset..];
    while rest >= 128
      invariant base <= i < offset
      invariant written[i - base..] == Uvarint(rest)
      invariant dAtA[base..i] == written[..i - base]
      invariant dAtA[offset..] == behind
      invariant forall j :: 0 <= j < base ==> dAtA[j] == old(dAtA[j])
      decreases rest
    {
      UvarintTail(written, i - base, rest);
      dAtA[i] := rest % 128 + 128;
      rest := rest / 128;
      i := i + 1;
    }
    UvarintTail(written, i - base, rest);
    dAtA[i] := rest;
    assert dAtA[base..offset] == written;
    assert dAtA[base..] == dAtA[base..offset] + dAtA[offset..];
  }

  /** Behind `k` written groups stands the next one, and then the varint of what is left. */
  lemma UvarintTail(written: seq<byte>, k: nat, rest: nat)
    requires k < |written| && written[k..] == Uvarint(rest)
    ensures written[k] == if rest < 128 then rest else rest % 128 + 128
    ensures rest < 128 ==> k + 1 == |written|
    ensures rest >= 128 ==> k + 1 < |written| && written[k + 1..] == Uvarint(rest / 128)
  {
    assert written[k] == written[k..][0];
    if rest >= 128 { assert written[k + 1..] == written[k..][1..]; }
  }

  // ---------------------------------------------------------------- reference meaning

  /** The number a group sequence denotes: little endian, base 128. */
  function Value(s: seq<byte>): nat {
    if s == [] then 0 else s[0] % 128 + 128 * Value(s[1..])
  }

  /** The bytes from `lo` up to `hi` have their continuation bits set. */
  predicate Continued(data: seq<byte>, lo: nat, hi: nat)
    requires hi <= |data|
  {
    forall j :: lo <= j < hi ==> data[j] >= 128
  }

  /** A well-formed varint of `n` bytes stands at position `i`: at most ten groups, and only
      the last has its continuation bit clear. */
  predicate VarintAt(data: seq<byte>, i: nat, n: nat) {
    1 <= n <= 10 && i + n <= |data| && data[i + n - 1] < 128 && Continued(data, i, i + n - 1)
  }

  predicate IsVarint(s: seq<byte>) {
    VarintAt(s, 0, |s|)
  }

  lemma {:induction false} OrBound(a: nat, b: nat, k: nat)
    requires a < Pow2(k) && b < Pow2(k)
    ensures Or(a, b) < Pow2(k)
  {
    if k > 0 { OrBound(a / 2, b / 2, k - 1); }
  }

  lemma RegisterBound(a: nat, b: nat, w: Width)
    requires a < w.Modulus() && b < w.Modulus()
    ensures Or(a, b) < w.Modulus()
  {
    w.ModulusIsPower();
    OrBound(a, b, w.Bits());
  }

  lemma {:induction false} ValueAppend(s: seq<byte>, b: byte)
    ensures Value(s + [b]) == Value(s) + (b % 128) * Pow2(7 * |s|)
  {
    if s == [] {
      assert Value([b]) == b % 128 + 128 * Value([b][1..]);
    } else {
      ValueAppend(s[1..], b);
      assert (s + [b])[1..] == s[1..] + [b];
      var p := Pow2(7 * |s[1..]|);
      assert Pow2(7 * |s|) == 128 * p by { Pow2Add(7, 7 * |s[1..]|); assert Pow2(7) == 128; }
      assert (b % 128) * (128 * p) == 128 * ((b % 128) * p);
    }
  }

  lemma {:induction false} ValueBound(s: seq<byte>)
    ensures Value(s) < Pow2(7 * |s|)
  {
    if s != [] {
      ValueBound(s[1..]);
      Pow2Add(7, 7 * |s[1..]|);
      assert Pow2(7) == 128;
    }
  }

  /** What a run of the loop that began at `i` must have seen; even where it fails, the register
      holds what was read. */
  predicate Explained(data: seq<byte>, i: nat, w: Width, r: Read)
    requires i <= r.next <= |data|
  {
    && r.value == Value(data[i..r.next]) % w.Modulus()
    && match r.err
       case None => VarintAt(data, i, r.next - i)
       case Some(IntOverflow) => r.next == i + 10 && Continued(data, i, r.next)
       case Some(UnexpectedEOF) => r.next == |data| < i + 10 && Continued(data, i, r.next)
       case Some(_) => false
  }

  lemma AccumulateGroup(data: seq<byte>, i: nat, k: nat, w: Width)
    requires i + k < |data|
    ensures Or(Value(data[i..i + k]) % w.Modulus(), Shl(w, data[i + k] % 128, 7 * k))
         == Value(data[i..i + k + 1]) % w.Modulus()
  {
    var s := data[i..i + k];
    assert data[i..i + k + 1] == s + [data[i + k]];
    ValueAppend(s, data[i + k]);
    ValueBound(s);
    OrShlAdds(w, Value(s), data[i + k] % 128, 7 * k);
  }

  /** The loop stops after `k` groups: too many, no more input, or a last group. */
  lemma StopExplained(data: seq<byte>, i: nat, k: nat, w: Width)
    requires i + k <= |data| && k <= 10 && Continued(data, i, i + k)
    requires k == 10 || i + k == |data| || data[i + k] < 128
    ensures Explained(data, i, w, ReadFrom(data, i + k, 7 * k, Value(data[i..i + k]) % w.Modulus(), w))
  {
    hide Value, Or, Shl;
    if k < 10 && i + k < |data| { AccumulateGroup(data, i, k, w); }
  }

  /** The loop goes on behind a continued group, with its bits in the register. */
  lemma NextGroup(data: seq<byte>, i: nat, k: nat, w: Width)
    requires i + k < |data| && k < 10 && data[i + k] >= 128
    ensures ReadFrom(data, i + k, 7 * k, Value(data[i..i + k]) % w.Modulus(), w)
         == ReadFrom(data, i + (k + 1), 7 * (k + 1), Value(data[i..i + (k + 1)]) % w.Modulus(), w)
  {
    hide Value, Or, Shl;
    AccumulateGroup(data, i, k, w);
  }

  lemma {:induction false} ReadMeaningFrom(data: seq<byte>, i: nat, k: nat, w: Width)
    requires i + k <= |data| && k <= 10 && Continued(data, i, i + k)
    ensures Explained(data, i, w, ReadFrom(data, i + k, 7 * k, Value(data[i..i + k]) % w.Modulus(), w))
    decreases 10 - k
  {
    hide Explained, ReadFrom, Value;
    if k == 10 || i + k == |data| || data[i + k] < 128 {
      StopExplained(data, i, k, w);
    } else {
      NextGroup(data, i, k, w);
      ReadMeaningFrom(data, i, k + 1, w);
    }
  }

  /** The decoding loop succeeds exactly on well-formed varints, and then returns their
      value truncated to the register's width and stops right behind them. */
  lemma ReadMeaning(data: seq<byte>, i: nat, w: Width)
    requires i <= |data|
    ensures Explained(data, i, w, ReadVarint(data, i, w))
  {
    hide Explained, ReadFrom;
    assert data[i..i + 0] == [];
    assert Value([]) % w.Modulus() == 0;
    ReadMeaningFrom(data, i, 0, w);
  }

  lemma ReadSucceeds(data: seq<byte>, i: nat, n: nat, w: Width)
    requires VarintAt(data, i, n)
    ensures ReadVarint(data, i, w) == Read(None, Value(data[i..i + n]) % w.Modulus(), i + n)
  {
    ReadMeaning(data, i, w);
  }

  lemma {:induction false} UvarintLength(v: nat, k: nat)
    requires 1 <= k && v < Pow2(7 * k)
    ensures |Uvarint(v)| <= k
  {
    if v >= 128 {
      assert Pow2(7) == 128;
      Pow2Add(7, 7 * (k - 1));
      assert k > 1;
      UvarintLength(v / 128, k - 1);
    }
  }

  lemma {:induction false} UvarintGroups(v: nat)
    ensures var s := Uvarint(v);
            Value(s) == v && s[|s| - 1] < 128 && Continued(s, 0, |s| - 1)
  {
    if v >= 128 {
      UvarintGroups(v / 128);
      var s, t := Uvarint(v), Uvarint(v / 128);
      assert s[1..] == t;
      assert forall j :: 1 <= j < |s| ==> s[j] == t[j - 1];
    } else {
      assert Uvarint(v)[1..] == [];
    }
  }

  /** What `encodeVarint` writes for any 64-bit value is a well-formed varint of that value. */
  lemma UvarintIsVarint(v: uint64)
    ensures IsVarint(Uvarint(v)) && Value(Uvarint(v)) == v
  {
    assert Pow2(70) >= TWO_64 by { WordPowers(); Pow2Add(64, 6); }
    UvarintLength(v, 10);
    UvarintGroups(v);
  }

  /** `sov` is the number of bytes `encodeVarint` emits, between 1 and 10 for 64-bit values. */
  lemma {:induction false} SovIsLength(x: nat)
    ensures Sov(x) == |Uvarint(x)|
    ensures x < TWO_64 ==> 1 <= Sov(x) <= 10
  {
    BitLenOrOne(x);
    if x >= 128 {
      SovIsLength(x / 128);
      BitLenOrOne(x / 128);
      BitLenShift7(x);
    } else {
      BitLenSmall(x);
    }
    if x < TWO_64 { UvarintIsVarint(x); }
  }

  lemma BitLenShift7(x: nat)
    requires x >= 128
    ensures BitLen(x) == 7 + BitLen(x / 128)
  {
    BitLenStep(x);
    BitLenStep(x / 8);
    assert x / 8 / 8 / 2 == x / 128;
  }

  lemma BitLenSmall(x: nat)
    requires x < 128
    ensures 0 < x ==> 1 <= BitLen(x) <= 7
  {
    BitLenStep(x);
    BitLenStep(x / 8);
    assert BitLen(x / 8 / 8) <= 1;
  }

  lemma BitLenStep(x: nat)
    ensures x < 8 ==> BitLen(x) <= 3
    ensures x >= 8 ==> BitLen(x) == 3 + BitLen(x / 8)
  {
    assert x / 2 / 2 == x / 4 && x / 4 / 2 == x / 8;
    assert x >= 2 ==> BitLen(x) == 2 + BitLen(x / 4);
    assert x >= 4 ==> BitLen(x / 4) == 1 + BitLen(x / 8);
  }

  lemma {:induction false} UvarintMonotone(a: nat, b: nat)
    requires a <= b
    ensures |Uvarint(a)| <= |Uvarint(b)|
  {
    if a >= 128 { UvarintMonotone(a / 128, b / 128); }
  }

  /** No varint of a number is shorter than the one `encodeVarint` writes. */
  lemma UvarintMinimal(s: seq<byte>)
    requires s != []
    ensures |Uvarint(Value(s))| <= |s|
  {
    ValueBound(s);
    UvarintLength(Value(s), |s|);
  }

  /** Reading back a written varint, anywhere inside a buffer and into either width. */
  lemma ReadWritten(pre: seq<byte>, v: uint64, post: seq<byte>, w: Width)
    ensures ReadVarint(pre + Uvarint(v) + post, |pre|, w)
         == Read(None, v % w.Modulus(), |pre| + |Uvarint(v)|)
  {
    UvarintIsVarint(v);
    var data, n := pre + Uvarint(v) + post, |Uvarint(v)|;
    assert data[|pre|..|pre| + n] == Uvarint(v);
    ReadSucceeds(data, |pre|, n, w);
  }

  // ---------------------------------------------------------------- locality

  lemma {:induction false} ReadFromShift(pre: seq<byte>, data: seq<byte>, i: nat, shift: nat, acc: nat, w: Width)
    requires i <= |data| && acc < w.Modulus()
    ensures var r := ReadFrom(data, i, shift, acc, w);
            ReadFrom(pre + data, |pre| + i, shift, acc, w) == r.(next := |pre| + r.next)
    decreases |data| - i
  {
    if shift < 64 && i < |data| {
      assert (pre + data)[|pre| + i] == data[i];
      if data[i] >= 128 {
        RegisterBound(acc, Shl(w, data[i] % 128, shift), w);
        ReadFromShift(pre, data, i + 1, shift + 7, Or(acc, Shl(w, data[i] % 128, shift)), w);
      }
    }
  }

  lemma {:induction false} ReadFromExtend(data: seq<byte>, post: seq<byte>, i: nat, shift: nat, acc: nat, w: Width)
    requires i <= |data| && acc < w.Modulus()
    requires ReadFrom(data, i, shift, acc, w).err != Some(UnexpectedEOF)
    ensures ReadFrom(data + post, i, shift, acc, w) == ReadFrom(data, i, shift, acc, w)
    decreases |data| - i
  {
    if shift < 64 {
      assert (data + post)[i] == data[i];
      if data[i] >= 128 {
        RegisterBound(acc, Shl(w, data[i] % 128, shift), w);
        ReadFromExtend(data, post, i + 1, shift + 7, Or(acc, Shl(w, data[i] % 128, shift)), w);
      }
    }
  }
}
