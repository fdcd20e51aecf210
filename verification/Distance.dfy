/** The two Kademlia distances of p2p/libp2p/networksharding/listsSharder.go, on peer hashes
    of equal length (kbucket.ConvertPeerID gives 32 bytes). */
module Distance {
  import opened Bits

  type Hash = seq<byte>

  /** Bitwise exclusive or. */
  function Xor(a: nat, b: nat): nat
    decreases a + b
  {
    if a == 0 && b == 0 then 0
    else (if a % 2 != b % 2 then 1 else 0) + 2 * Xor(a / 2, b / 2)
  }

  /** The number of set bits (math/bits.OnesCount8, on numbers of any size). */
  function OnesCount(x: nat): nat {
    if x == 0 then 0 else x % 2 + OnesCount(x / 2)
  }

  /** A hash read as one big-endian number. */
  function Number(h: Hash): nat {
    if h == [] then 0 else 256 * Number(h[..|h| - 1]) + h[|h| - 1]
  }

  function CountDistance(a: Hash, b: Hash): nat {
    OnesCount(Xor(Number(a), Number(b)))
  }

  function Log2Distance(a: Hash, b: Hash): nat {
    BitLen(Xor(Number(a), Number(b)))
  }

  /** `n` times the value `v`. */
  function Run(n: nat, v: nat): (s: seq<nat>)
    ensures |s| == n && forall j :: 0 <= j < n ==> s[j] == v
  {
    seq(n, _ => v)
  }

  /** The leading zeros of every byte, run by run. */
  const LEADING_ZEROS: seq<nat> :=
    [8] + Run(1, 7) + Run(2, 6) + Run(4, 5) + Run(8, 4) + Run(16, 3) + Run(32, 2) + Run(64, 1) + Run(128, 0)

  method ComputeDistanceByCountingBits(src: Hash, dest: Hash) returns (d: nat)
    requires |src| == |dest|
    ensures d == CountDistance(src, dest)
  {
    hide Xor, Number;
    d := 0;
    assert CountDistance(src[..0], dest[..0]) == 0 by { CountNothing(); }
    for i := 0 to |src|
      invariant d == CountDistance(src[..i], dest[..i])
    {
      CountStep(src, dest, i);
      var result := Xor(src[i], dest[i]);
      d := d + OnesCount(result);
    }
    assert src[..|src|] == src && dest[..|src|] == dest;
  }

  lemma CountNothing()
    ensures CountDistance([], []) == 0
  {
  }

  /** One more byte adds the bits in which the two bytes differ. */
  lemma CountStep(a: Hash, b: Hash, i: nat)
    requires i < |a| == |b|
    ensures CountDistance(a[..i + 1], b[..i + 1]) == CountDistance(a[..i], b[..i]) + OnesCount(Xor(a[i], b[i]))
  {
    hide Xor, OnesCount, Number;
    var x := Xor(Number(a[..i]), Number(b[..i]));
    NumberStep(a, b, i);
    ByteShift(x);
    OnesCountShifted(x, Xor(a[i], b[i]), 8);
  }

  method ComputeDistanceLog2Based(src: Hash, dest: Hash) returns (d: nat)
    requires |src| == |dest|
    ensures d == Log2Distance(src, dest)
  {
    var val, i := 0, 0;
    while i < |src|
      invariant 0 <= i <= |src| && val == 8 * i
      invariant Log2Distance(src[..i], dest[..i]) == 0
    {
      NumberStep(src, dest, i);
      var result := Xor(src[i], dest[i]);
      LeadingZerosTable(result);
      val := val + LEADING_ZEROS[result];
      if result != 0 {
        Log2DistanceFixed(src, dest, i);
        break;
      }
      i := i + 1;
    }
    assert i == |src| ==> src[..i] == src && dest[..i] == dest;
    d := |src| * 8 - val;
  }

  lemma {:induction false} XorBound(a: nat, b: nat, k: nat)
    requires a < Pow2(k) && b < Pow2(k)
    ensures Xor(a, b) < Pow2(k)
  {
    if k > 0 { XorBound(a / 2, b / 2, k - 1); }
  }

  lemma XorHalf(a: nat, b: nat)
    ensures Xor(a, b) / 2 == Xor(a / 2, b / 2)
    ensures Xor(a, b) % 2 == if a % 2 != b % 2 then 1 else 0
  {
  }

  /** The exclusive or of two numbers works byte by byte. */
  lemma NumberStep(a: Hash, b: Hash, i: nat)
    requires i < |a| == |b|
    ensures Xor(a[i], b[i]) < 256
    ensures Xor(Number(a[..i + 1]), Number(b[..i + 1]))
         == 256 * Xor(Number(a[..i]), Number(b[..i])) + Xor(a[i], b[i])
  {
    assert a[..i + 1][..i] == a[..i] && b[..i + 1][..i] == b[..i];
    hide Xor, Shifted;
    var x, y := Number(a[..i]), Number(b[..i]);
    ByteShift(x);
    ByteShift(y);
    ByteShift(Xor(x, y));
    XorBound(a[i], b[i], 8);
    XorShifted(x, y, a[i], b[i], 8);
  }

  /** `x` moved `k` bits to the left. */
  function Shifted(x: nat, k: nat): (r: nat)
    ensures x > 0 ==> r > 0
  {
    if k == 0 then x else 2 * Shifted(x, k - 1)
  }

  lemma ByteShift(x: nat)
    ensures Shifted(x, 8) == 256 * x && Pow2(8) == 256
  {
    assert Shifted(x, 1) == 2 * x && Shifted(x, 2) == 2 * Shifted(x, 1) && Shifted(x, 3) == 2 * Shifted(x, 2);
    assert Shifted(x, 4) == 2 * Shifted(x, 3) && Shifted(x, 5) == 2 * Shifted(x, 4);
    assert Shifted(x, 6) == 2 * Shifted(x, 5) && Shifted(x, 7) == 2 * Shifted(x, 6);
  }

  lemma {:induction false} XorShifted(x: nat, y: nat, a: nat, b: nat, k: nat)
    requires a < Pow2(k) && b < Pow2(k)
    ensures Xor(Shifted(x, k) + a, Shifted(y, k) + b) == Shifted(Xor(x, y), k) + Xor(a, b)
    decreases k
  {
    hide Xor;
    if k == 0 {
      assert Xor(0, 0) == 0 by { XorDouble(0, 0, 0, 0); }
    } else {
      XorShifted(x, y, a / 2, b / 2, k - 1);
      XorDouble(Shifted(x, k - 1), a, Shifted(y, k - 1), b);
      XorDouble(0, a, 0, b);
    }
  }

  lemma XorDouble(u: nat, a: nat, v: nat, b: nat)
    ensures Xor(2 * u + a, 2 * v + b) == (if a % 2 != b % 2 then 1 else 0) + 2 * Xor(u + a / 2, v + b / 2)
  {
    assert (2 * u + a) / 2 == u + a / 2 && (2 * v + b) / 2 == v + b / 2;
    XorHalf(2 * u + a, 2 * v + b);
  }

  lemma {:induction false} OnesCountShifted(x: nat, r: nat, k: nat)
    requires r < Pow2(k)
    ensures OnesCount(Shifted(x, k) + r) == OnesCount(x) + OnesCount(r)
    decreases k
  {
    if k > 0 {
      var u := Shifted(x, k - 1);
      assert (2 * u + r) / 2 == u + r / 2 && (2 * u + r) % 2 == r % 2;
      OnesCountHalf(2 * u + r);
      OnesCountHalf(r);
      OnesCountShifted(x, r / 2, k - 1);
    }
  }

  lemma {:induction false} BitLenShifted(x: nat, r: nat, k: nat)
    requires r < Pow2(k) && x > 0
    ensures BitLen(Shifted(x, k) + r) == k + BitLen(x)
    decreases k
  {
    if k > 0 {
      var u := Shifted(x, k - 1);
      assert (2 * u + r) / 2 == u + r / 2;
      BitLenShifted(x, r / 2, k - 1);
    }
  }

  lemma BitLenZero(x: nat)
    ensures BitLen(x) == 0 <==> x == 0
  {
  }

  /** Once the hashes differ at byte `i`, the distance is the length of the rest of that byte
      and of the bytes behind it. */
  lemma {:induction false} Log2DistanceFixedAt(a: Hash, b: Hash, i: nat, n: nat)
    requires i < n <= |a| == |b| && Log2Distance(a[..i], b[..i]) == 0 && Xor(a[i], b[i]) != 0
    ensures Log2Distance(a[..n], b[..n]) == BitLen(Xor(a[i], b[i])) + 8 * (n - i - 1)
    ensures Xor(Number(a[..n]), Number(b[..n])) > 0
    decreases n
  {
    hide Xor, BitLen, Number;
    NumberStep(a, b, n - 1);
    if n > i + 1 {
      Log2DistanceFixedAt(a, b, i, n - 1);
      var x := Xor(Number(a[..n - 1]), Number(b[..n - 1]));
      ByteShift(x);
      BitLenShifted(x, Xor(a[n - 1], b[n - 1]), 8);
    } else {
      BitLenZero(Xor(Number(a[..i]), Number(b[..i])));
    }
  }

  lemma Log2DistanceFixed(a: Hash, b: Hash, i: nat)
    requires i < |a| == |b| && Log2Distance(a[..i], b[..i]) == 0 && Xor(a[i], b[i]) != 0
    ensures Log2Distance(a, b) == BitLen(Xor(a[i], b[i])) + 8 * (|a| - i - 1)
  {
    assert a[..|a|] == a && b[..|b|] == b;
    Log2DistanceFixedAt(a, b, i, |a|);
  }

  lemma {:induction false} BitLenRange(x: nat, k: nat)
    requires Pow2(k) <= x < Pow2(k + 1)
    ensures BitLen(x) == k + 1
  {
    if k > 0 { BitLenRange(x / 2, k - 1); }
  }

  /** The table holds, for every byte, the zeros in front of its highest set bit. */
  lemma LeadingZerosTable(x: nat)
    requires x < 256
    ensures |LEADING_ZEROS| == 256 && LEADING_ZEROS[x] == 8 - BitLen(x)
  {
    var k := if x < 2 then 0 else if x < 4 then 1 else if x < 8 then 2 else if x < 16 then 3
             else if x < 32 then 4 else if x < 64 then 5 else if x < 128 then 6 else 7;
    assert Pow2(7) == 128;
    if x > 0 { BitLenRange(x, k); }
  }

  // ---------------------------------------------------------------- the metrics

  lemma {:induction false} XorSymmetric(a: nat, b: nat)
    ensures Xor(a, b) == Xor(b, a)
    decreases a + b
  {
    if a > 0 || b > 0 { XorSymmetric(a / 2, b / 2); }
  }

  lemma {:induction false} XorZero(a: nat, b: nat)
    ensures Xor(a, b) == 0 <==> a == b
    decreases a + b
  {
    if a > 0 || b > 0 { XorZero(a / 2, b / 2); }
  }

  lemma {:induction false} OnesCountZero(x: nat)
    ensures OnesCount(x) == 0 <==> x == 0
    ensures OnesCount(x) <= BitLen(x)
  {
    if x > 0 { OnesCountZero(x / 2); }
  }

  lemma {:induction false} OnesCountTriangle(a: nat, b: nat, c: nat)
    ensures OnesCount(Xor(a, c)) <= OnesCount(Xor(a, b)) + OnesCount(Xor(b, c))
    decreases a + b + c
  {
    if a > 0 || b > 0 || c > 0 {
      OnesCountTriangle(a / 2, b / 2, c / 2);
      XorHalf(a, b);
      XorHalf(b, c);
      XorHalf(a, c);
      OnesCountHalf(Xor(a, b));
      OnesCountHalf(Xor(b, c));
      OnesCountHalf(Xor(a, c));
    }
  }

  lemma OnesCountHalf(x: nat)
    ensures OnesCount(x) == x % 2 + OnesCount(x / 2)
  {
  }

  lemma {:induction false} BitLenUltrametric(a: nat, b: nat, c: nat)
    ensures BitLen(Xor(a, c)) <= BitLen(Xor(a, b)) || BitLen(Xor(a, c)) <= BitLen(Xor(b, c))
    decreases a + b + c
  {
    if a > 0 || b > 0 || c > 0 {
      BitLenUltrametric(a / 2, b / 2, c / 2);
      XorHalf(a, b);
      XorHalf(b, c);
      XorHalf(a, c);
      if Xor(a, c) != 0 && Xor(a, b) == 0 {
        XorZero(a, b);
      }
    }
  }

  lemma {:induction false} NumberInjective(a: Hash, b: Hash)
    requires |a| == |b|
    ensures Number(a) == Number(b) <==> a == b
    decreases |a|
  {
    if a != [] {
      var n := |a| - 1;
      NumberInjective(a[..n], b[..n]);
      assert a == a[..n] + [a[n]] && b == b[..n] + [b[n]];
    }
  }

  /** Counting differing bits is a metric on hashes of equal length. */
  lemma CountDistanceIsMetric(a: Hash, b: Hash, c: Hash)
    requires |a| == |b| == |c|
    ensures CountDistance(a, b) == 0 <==> a == b
    ensures CountDistance(a, b) == CountDistance(b, a)
    ensures CountDistance(a, c) <= CountDistance(a, b) + CountDistance(b, c)
  {
    var x, y, z := Number(a), Number(b), Number(c);
    NumberInjective(a, b);
    XorZero(x, y);
    OnesCountZero(Xor(x, y));
    XorSymmetric(x, y);
    OnesCountTriangle(x, y, z);
  }

  /** The position of the highest differing bit is an ultrametric. */
  lemma Log2DistanceIsUltrametric(a: Hash, b: Hash, c: Hash)
    requires |a| == |b| == |c|
    ensures Log2Distance(a, b) == 0 <==> a == b
    ensures Log2Distance(a, b) == Log2Distance(b, a)
    ensures Log2Distance(a, c) <= Log2Distance(a, b) || Log2Distance(a, c) <= Log2Distance(b, c)
  {
    var x, y, z := Number(a), Number(b), Number(c);
    NumberInjective(a, b);
    XorZero(x, y);
    XorSymmetric(x, y);
    BitLenUltrametric(x, y, z);
  }

  /** No more bits differ than lie behind the highest one that does. */
  lemma CountWithinLog2(a: Hash, b: Hash)
    ensures CountDistance(a, b) <= Log2Distance(a, b)
  {
    OnesCountZero(Xor(Number(a), Number(b)));
  }
}
