/** The two distances bit by bit: how many bits differ, and where the first difference is. */
module DistanceBits {
  import opened Bits
  import opened Distance

  /** Bit `j` of a number, counted from the lowest. */
  function BitOf(x: nat, j: nat): nat {
    x / Pow2(j) % 2
  }

  /** Bit `i` of a hash, counted from the highest bit of its first byte. */
  function Bit(h: Hash, i: nat): nat
    requires i < 8 * |h|
  {
    BitOf(h[i / 8], 7 - i % 8)
  }

  /** In how many of the first `n` bits two hashes differ. */
  function Differing(a: Hash, b: Hash, n: nat): nat
    requires |a| == |b| && n <= 8 * |a|
  {
    if n == 0 then 0 else Differing(a, b, n - 1) + if Bit(a, n - 1) != Bit(b, n - 1) then 1 else 0
  }

  /** In how many of their highest `t` of `k` bits two numbers differ. */
  function Tops(x: nat, y: nat, k: nat, t: nat): nat
    requires t <= k
  {
    if t == 0 then 0 else Tops(x, y, k, t - 1) + if BitOf(x, k - t) != BitOf(y, k - t) then 1 else 0
  }

  lemma HalfBit(x: nat, j: nat)
    requires j > 0
    ensures BitOf(x, j) == BitOf(x / 2, j - 1)
  {
    var p := Pow2(j - 1);
    var q, r := x / 2 / p, x / 2 % p;
    assert x / 2 == q * p + r;
    assert x == q * (2 * p) + (2 * r + x % 2) by {
      assert x == 2 * (x / 2) + x % 2;
      assert 2 * (q * p) == q * (2 * p);
    }
    ModUnique(x, 2 * p, q, 2 * r + x % 2);
  }

  lemma {:induction false} HalfTops(x: nat, y: nat, k: nat, t: nat)
    requires t < k
    ensures Tops(x, y, k, t) == Tops(x / 2, y / 2, k - 1, t)
    decreases t
  {
    hide BitOf;
    if t > 0 {
      HalfTops(x, y, k, t - 1);
      HalfBit(x, k - t);
      HalfBit(y, k - t);
    }
  }

  lemma {:induction false} TopsAreOnes(x: nat, y: nat, k: nat)
    requires x < Pow2(k) && y < Pow2(k)
    ensures Tops(x, y, k, k) == OnesCount(Xor(x, y))
    decreases k
  {
    hide Xor, OnesCount, BitOf;
    if k == 0 {
      XorZero(x, y);
      OnesCountZero(Xor(x, y));
    } else {
      TopsAreOnes(x / 2, y / 2, k - 1);
      HalfTops(x, y, k, k - 1);
      XorHalf(x, y);
      OnesCountHalf(Xor(x, y));
      assert BitOf(x, 0) == x % 2 && BitOf(y, 0) == y % 2 by { LowestBit(x); LowestBit(y); }
    }
  }

  lemma LowestBit(x: nat)
    ensures BitOf(x, 0) == x % 2
  {
  }

  lemma {:induction false} ByteDiffering(a: Hash, b: Hash, m: nat, t: nat)
    requires m < |a| == |b| && t <= 8
    ensures Differing(a, b, 8 * m + t) == Differing(a, b, 8 * m) + Tops(a[m], b[m], 8, t)
    decreases t
  {
    hide BitOf;
    if t > 0 { ByteDiffering(a, b, m, t - 1); }
  }

  lemma {:induction false} CountIsDifferingUpto(a: Hash, b: Hash, m: nat)
    requires m <= |a| == |b|
    ensures CountDistance(a[..m], b[..m]) == Differing(a, b, 8 * m)
  {
    hide CountDistance, OnesCount, Xor, Tops, Differing;
    if m == 0 {
      CountNothing();
      assert a[..0] == [] && b[..0] == [];
      NoBits(a, b);
    } else {
      CountIsDifferingUpto(a, b, m - 1);
      CountStep(a, b, m - 1);
      ByteDiffering(a, b, m - 1, 8);
      ByteShift(0);
      TopsAreOnes(a[m - 1], b[m - 1], 8);
    }
  }

  lemma NoBits(a: Hash, b: Hash)
    requires |a| == |b|
    ensures Differing(a, b, 0) == 0
  {
  }

  /** The bit-count distance is the number of bits in which the two hashes differ. */
  lemma CountIsDiffering(a: Hash, b: Hash)
    requires |a| == |b|
    ensures CountDistance(a, b) == Differing(a, b, 8 * |a|)
  {
    CountIsDifferingUpto(a, b, |a|);
    assert a[..|a|] == a && b[..|b|] == b;
  }

  // ---------------------------------------------------------------- the first difference

  lemma {:induction false} SameBits(x: nat, y: nat, k: nat)
    requires x < Pow2(k) && y < Pow2(k) && forall j :: 0 <= j < k ==> BitOf(x, j) == BitOf(y, j)
    ensures x == y
    decreases k
  {
    hide BitOf;
    if k > 0 {
      forall j | 0 <= j < k - 1 ensures BitOf(x / 2, j) == BitOf(y / 2, j) {
        HalfBit(x, j + 1);
        HalfBit(y, j + 1);
      }
      SameBits(x / 2, y / 2, k - 1);
      LowestBit(x);
      LowestBit(y);
      assert BitOf(x, 0) == BitOf(y, 0);
    }
  }

  /** The exclusive or is as long as the highest bit in which the numbers differ is high. */
  lemma {:induction false} HighestDifference(x: nat, y: nat, k: nat, e: nat)
    requires x < Pow2(k) && y < Pow2(k) && e < k && BitOf(x, e) != BitOf(y, e)
    requires forall j :: e < j < k ==> BitOf(x, j) == BitOf(y, j)
    ensures BitLen(Xor(x, y)) == e + 1
    decreases e
  {
    hide BitOf, Xor;
    forall j | 0 < j < k ensures BitOf(x, j) == BitOf(x / 2, j - 1) && BitOf(y, j) == BitOf(y / 2, j - 1) {
      HalfBit(x, j);
      HalfBit(y, j);
    }
    XorHalf(x, y);
    if e == 0 {
      forall j | 0 <= j < k - 1 ensures BitOf(x / 2, j) == BitOf(y / 2, j) { assert BitOf(x, j + 1) == BitOf(y, j + 1); }
      SameBits(x / 2, y / 2, k - 1);
      XorZero(x / 2, y / 2);
      LowestBit(x);
      LowestBit(y);
    } else {
      forall j | e - 1 < j < k - 1 ensures BitOf(x / 2, j) == BitOf(y / 2, j) { assert BitOf(x, j + 1) == BitOf(y, j + 1); }
      HighestDifference(x / 2, y / 2, k - 1, e - 1);
    }
  }

  lemma SameBytes(a: Hash, b: Hash, m: nat)
    requires m <= |a| == |b| && forall j :: 0 <= j < 8 * m ==> Bit(a, j) == Bit(b, j)
    ensures a[..m] == b[..m]
  {
    hide BitOf;
    forall r | 0 <= r < m ensures a[r] == b[r] {
      forall j | 0 <= j < 8 ensures BitOf(a[r], j) == BitOf(b[r], j) {
        assert Bit(a, 8 * r + (7 - j)) == Bit(b, 8 * r + (7 - j));
      }
      ByteShift(0);
      SameBits(a[r], b[r], 8);
    }
  }

  /** Where the first `i` bits agree and the next ones differ, the log2 distance is the number of
      bits behind those: all bits less the leading zeros of the exclusive or. */
  lemma Log2IsFirstDifference(a: Hash, b: Hash, i: nat)
    requires |a| == |b| && i < 8 * |a| && Bit(a, i) != Bit(b, i)
    requires forall j :: 0 <= j < i ==> Bit(a, j) == Bit(b, j)
    ensures Log2Distance(a, b) == 8 * |a| - i
  {
    hide BitOf, Xor, BitLen, Log2Distance;
    var m, t := i / 8, i % 8;
    SameBytes(a, b, m);
    Log2DistanceIsUltrametric(a[..m], b[..m], b[..m]);
    ByteShift(0);
    forall j | 7 - t < j < 8 ensures BitOf(a[m], j) == BitOf(b[m], j) {
      assert Bit(a, 8 * m + (7 - j)) == Bit(b, 8 * m + (7 - j));
    }
    HighestDifference(a[m], b[m], 8, 7 - t);
    XorZero(a[m], b[m]);
    Log2DistanceFixed(a, b, m);
  }

  /** Where no bit differs it is zero. */
  lemma Log2WithoutDifference(a: Hash, b: Hash)
    requires |a| == |b| && forall j :: 0 <= j < 8 * |a| ==> Bit(a, j) == Bit(b, j)
    ensures a == b && Log2Distance(a, b) == 0
  {
    SameBytes(a, b, |a|);
    assert a[..|a|] == a && b[..|b|] == b;
    Log2DistanceIsUltrametric(a, b, b);
  }
}
