/** Machine integers as mathematical integers: widths, two's complement, and the bitwise
    operations of Go that the codecs and the distance functions use. */
module Bits {

  const TWO_31: int := 0x8000_0000
  const TWO_32: int := 0x1_0000_0000
  const TWO_63: int := 0x8000_0000_0000_0000
  const TWO_64: int := 0x1_0000_0000_0000_0000
  const MAX_INT: int := TWO_63 - 1

  type byte = x: int | 0 <= x < 256
  type uint32 = x: int | 0 <= x < TWO_32
  type uint64 = x: int | 0 <= x < TWO_64
  type int32 = x: int | -TWO_31 <= x < TWO_31
  type int64 = x: int | -TWO_63 <= x < TWO_63

  /** The two integer widths the generated codecs use. */
  datatype Width = W32 | W64 {
    function Bits(): (n: nat) { if W32? then 32 else 64 }

    /** The number of bit patterns of this width. */
    function Modulus(): (n: nat) { if W32? then TWO_32 else TWO_64 }

    lemma ModulusIsPower()
      ensures Modulus() == Pow2(Bits())
    {
      WordPowers();
    }

    /** The two's complement reading of a bit pattern. */
    function Signed(pattern: nat): (v: int)
      requires pattern < Modulus()
    {
      if 2 * pattern < Modulus() then pattern else pattern - Modulus()
    }
  }

  /** Go's `+` on its 64-bit `int`, for operands that are both non-negative: the sum wraps. */
  function AddInt(a: nat, b: nat): (r: int)
    requires a <= MAX_INT && b <= MAX_INT
    ensures r >= 0 <==> a + b <= MAX_INT
    ensures r >= 0 ==> r == a + b
  {
    if a + b <= MAX_INT then a + b else a + b - TWO_64
  }

  function Pow2(k: nat): (p: nat)
    ensures p >= 1
  {
    if k == 0 then 1 else 2 * Pow2(k - 1)
  }

  /** Bitwise or of two bit patterns. */
  function Or(a: nat, b: nat): nat
    decreases a + b
  {
    if a == 0 && b == 0 then 0
    else (if a % 2 == 1 || b % 2 == 1 then 1 else 0) + 2 * Or(a / 2, b / 2)
  }

  /** `x << shift` in a register of width `w`: bits beyond the width are lost. */
  function Shl(w: Width, x: nat, shift: nat): nat {
    x * Pow2(shift) % w.Modulus()
  }

  /** The number of bits needed to write `x` (math/bits.Len64). */
  function BitLen(x: nat): nat {
    if x == 0 then 0 else 1 + BitLen(x / 2)
  }

  lemma WordPowers()
    ensures Pow2(32) == TWO_32 && Pow2(63) == TWO_63 && Pow2(64) == TWO_64
  {
    assert Pow2(7) == 128;
    assert Pow2(14) == 16384 by { Pow2Add(7, 7); }
    assert Pow2(28) == 268435456 by { Pow2Add(14, 14); }
    assert Pow2(32) == TWO_32;
    assert Pow2(63) == TWO_63 by { Pow2Add(32, 31); assert Pow2(31) == TWO_31; }
  }

  lemma {:induction false} Pow2Add(a: nat, b: nat)
    ensures Pow2(a + b) == Pow2(a) * Pow2(b)
  {
    if a > 0 {
      Pow2Add(a - 1, b);
      assert Pow2(a + b) == 2 * (Pow2(a - 1) * Pow2(b));
    }
  }

  lemma {:induction false} OrZero(x: nat)
    ensures Or(0, x) == x == Or(x, 0)
  {
    if x > 0 { OrZero(x / 2); }
  }

  /** Where the set bits do not overlap, bitwise or is addition. */
  lemma {:induction false} OrDisjoint(a: nat, x: nat, k: nat)
    requires a < Pow2(k)
    ensures Or(a, x * Pow2(k)) == a + x * Pow2(k)
  {
    if k == 0 {
      OrZero(x);
    } else {
      var h := x * Pow2(k - 1);
      assert x * Pow2(k) == 2 * h;
      OrDisjoint(a / 2, x, k - 1);
      assert (2 * h) % 2 == 0 && (2 * h) / 2 == h;
      if a == 0 && 2 * h == 0 {
      } else {
        assert Or(a, 2 * h) == a % 2 + 2 * Or(a / 2, h);
      }
    }
  }

  /** Setting the lowest bit changes only zero's bit length. */
  lemma BitLenOrOne(x: nat)
    ensures BitLen(Or(x, 1)) == if x == 0 then 1 else BitLen(x)
  {
    OrZero(x / 2);
    assert Or(x, 1) == 1 + 2 * (x / 2);
  }

  lemma QuotientUnique(m: nat, q: int, r: nat, q': int, r': nat)
    requires r < m && r' < m && q * m + r == q' * m + r'
    ensures q == q' && r == r'
  {
    var d := q - q';
    assert d * m == r' - r by { assert d * m == q * m - q' * m; }
    MulAtLeast(d, m);
    MulAtLeast(-d, m);
  }

  lemma MulAtLeast(k: int, m: nat)
    ensures k >= 1 ==> k * m >= m
    ensures (-k) * m == -(k * m)
  {
    if k >= 1 { assert k * m == (k - 1) * m + m; }
  }

  lemma ModUnique(a: nat, m: nat, q: nat, r: nat)
    requires r < m && a == q * m + r
    ensures a % m == r && a / m == q
  {
    QuotientUnique(m, q, r, a / m, a % m);
  }

  /** Accumulating one 7-bit group into a register: the or of the shifted group is
      exact addition modulo the register's width, even when the shift overflows it. */
  lemma OrShlAdds(w: Width, v: nat, x: nat, shift: nat)
    requires v < Pow2(shift)
    ensures Or(v % w.Modulus(), Shl(w, x, shift)) == (v + x * Pow2(shift)) % w.Modulus()
  {
    w.ModulusIsPower();
    if shift <= w.Bits() {
      Pow2Add(w.Bits() - shift, shift);
      OrShlWithin(w.Modulus(), Pow2(w.Bits() - shift), shift, v, x);
    } else {
      Pow2Add(shift - w.Bits(), w.Bits());
      OrShlBeyond(w.Modulus(), Pow2(shift - w.Bits()), shift, v, x);
    }
  }

  lemma OrShlBeyond(m: nat, h: nat, shift: nat, v: nat, x: nat)
    requires m >= 1 && Pow2(shift) == h * m
    ensures Or(v % m, x * Pow2(shift) % m) == (v + x * Pow2(shift)) % m
  {
    assert x * (h * m) == (x * h) * m;
    assert (x * h + v / m) * m == (x * h) * m + (v / m) * m;
    ModUnique(x * Pow2(shift), m, x * h, 0);
    ModUnique(v + x * Pow2(shift), m, x * h + v / m, v % m);
    OrZero(v % m);
  }

  lemma OrShlWithin(m: nat, h: nat, shift: nat, v: nat, x: nat)
    requires h >= 1 && m == h * Pow2(shift) && v < Pow2(shift)
    ensures m > 0 && Or(v % m, x * Pow2(shift) % m) == (v + x * Pow2(shift)) % m
  {
    var q, r := x / h, x % h;
    ShiftSplits(m, h, Pow2(shift), q, r);
    ModUnique(x * Pow2(shift), m, q, r * Pow2(shift));
    ModUnique(v + x * Pow2(shift), m, q, v + r * Pow2(shift));
    ModUnique(v, m, 0, v);
    OrDisjoint(v, r, shift);
  }

  lemma ShiftSplits(m: nat, h: nat, p: nat, q: nat, r: nat)
    requires r < h && m == h * p
    ensures (q * h + r) * p == q * m + r * p
    ensures r * p + p <= m
  {
    assert (q * h + r) * p == (q * h) * p + r * p;
    assert (q * h) * p == q * (h * p);
    MulAtLeast(h - r, p);
    assert (h - r) * p == h * p - r * p;
  }
}
