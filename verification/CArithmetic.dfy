/**
  The integer arithmetic of C that Dafny's operators do not give directly:
  truncating division and remainder, powers of two, bit lengths and single
  bits of a 32-bit word.
 */
module CArithmetic {

  const TWO_32: nat := 0x1_0000_0000
  const TWO_31: nat := 0x8000_0000

  function Pow2(n: nat): (r: nat)
    ensures r >= 1
  {
    if n == 0 then 1 else 2 * Pow2(n - 1)
  }

  /** C's `a / m` for a positive divisor: rounds toward zero. */
  function TruncDiv(a: int, m: nat): (q: int)
    requires m > 0
  {
    if a >= 0 then a / m else -((-a) / m)
  }

  /** C's `a % m` for a positive divisor: has the sign of a. */
  function TruncMod(a: int, m: nat): (r: int)
    requires m > 0
    ensures 0 - m < r < m
    ensures a >= 0 ==> r >= 0
    ensures a <= 0 ==> r <= 0
    ensures 0 <= a < m ==> r == a
    ensures 0 - m < a <= 0 ==> r == a
  {
    SmallRemainder(if a >= 0 then a else -a, m);
    if a >= 0 then a % m else -((-a) % m)
  }

  lemma SmallRemainder(a: nat, m: nat)
    requires m > 0
    ensures 0 <= a % m < m && (a < m ==> a % m == a)
  {
    if a < m {
      DivisionIsUnique(a, m, 0, a);
    }
  }

  /** The value an int has after conversion to uint32_t. */
  function Uint32(v: int): (r: nat)
    ensures r < TWO_32
    ensures 0 <= v < TWO_32 ==> r == v
  {
    if 0 <= v < TWO_32 then v else v % TWO_32
  }

  /** The value a uint32_t has after conversion to int32_t. */
  function Int32(u: nat): (r: int)
    requires u < TWO_32
    ensures 0 - TWO_31 <= r < TWO_31
    ensures u < TWO_31 ==> r == u
  {
    if u < TWO_31 then u else u - TWO_32
  }

  /** v >> k. */
  function Shr(v: nat, k: nat): (r: nat)
  {
    if k == 0 then v else Shr(v / 2, k - 1)
  }

  /** Bit k of v, counted from the least significant one. */
  predicate BitOf(v: nat, k: nat) {
    Shr(v, k) % 2 == 1
  }

  /** The number of binary digits of x; zero has none. */
  function BitLen(x: nat): (n: nat)
    ensures n == 0 <==> x == 0
  {
    if x == 0 then 0 else 1 + BitLen(x / 2)
  }

  /** The number of zero bits below the lowest one bit of x. */
  function TrailingZeros(x: nat): (n: nat)
    requires x > 0
  {
    if x % 2 == 1 then 0 else 1 + TrailingZeros(x / 2)
  }

  lemma {:induction false} ShrSplit(v: nat, j: nat, k: nat)
    ensures Shr(v, j + k) == Shr(Shr(v, j), k)
  {
    if j > 0 {
      ShrSplit(v / 2, j - 1, k);
    }
  }

  lemma ShrNext(v: nat, k: nat)
    ensures Shr(v, k + 1) == Shr(v, k) / 2
  {
    ShrSplit(v, k, 1);
    assert Shr(Shr(v, k), 1) == Shr(Shr(v, k) / 2, 0);
  }

  lemma {:induction false} ShrVanishes(v: nat, n: nat, k: nat)
    requires v < Pow2(n) && n <= k
    ensures Shr(v, k) == 0
    decreases k
  {
    if n > 0 {
      ShrVanishes(v / 2, n - 1, k - 1);
    } else if k > 0 {
      ShrVanishes(0, 0, k - 1);
    }
  }

  /** The shifts by 8, 16 and 24 are divisions by a constant. */
  lemma ShrByBytes(v: nat)
    ensures Shr(v, 8) == v / 0x100 && Shr(v, 16) == v / 0x1_0000 && Shr(v, 24) == v / 0x100_0000
  {
    ShrBy8(v);
    ShrSplit(v, 8, 8);
    ShrBy8(v / 0x100);
    ShrSplit(v, 16, 8);
    ShrBy8(v / 0x1_0000);
  }

  lemma ShrByTwo(v: nat, k: nat)
    ensures Shr(v, k + 2) == Shr(v / 4, k)
  {
    assert Shr(v, k + 2) == Shr(v / 2, k + 1) == Shr(v / 2 / 2, k);
  }

  lemma ShrBy8(v: nat)
    ensures Shr(v, 8) == v / 0x100
  {
    ShrByTwo(v, 6);
    ShrByTwo(v / 4, 4);
    ShrByTwo(v / 4 / 4, 2);
    ShrByTwo(v / 4 / 4 / 4, 0);
    hide Shr;
    NoShift(v / 4 / 4 / 4 / 4);
  }

  lemma NoShift(v: nat)
    ensures Shr(v, 0) == v
  {
  }

  lemma {:induction false} BitLenBounds(x: nat)
    requires x > 0
    ensures Pow2(BitLen(x) - 1) <= x < Pow2(BitLen(x))
  {
    if x > 1 {
      BitLenBounds(x / 2);
      var n := BitLen(x / 2);
      assert BitLen(x) == n + 1 && n > 0;
      assert Pow2(n) == 2 * Pow2(n - 1) && Pow2(n + 1) == 2 * Pow2(n);
    } else {
      assert BitLen(x / 2) == 0 && Pow2(1) == 2 && Pow2(0) == 1;
    }
  }

  lemma {:induction false} Pow2Monotonic(a: nat, b: nat)
    requires a <= b
    ensures Pow2(a) <= Pow2(b)
    decreases b - a
  {
    if a < b {
      Pow2Monotonic(a, b - 1);
    }
  }

  lemma Pow2Values()
    ensures Pow2(4) == 0x10 && Pow2(8) == 0x100 && Pow2(16) == 0x1_0000
    ensures Pow2(31) == TWO_31 && Pow2(32) == TWO_32
  {
    assert Pow2(8) == 0x100;
    assert Pow2(16) == 0x100 * Pow2(8);
    assert Pow2(24) == 0x100 * Pow2(16);
    assert Pow2(32) == 0x100 * Pow2(24);
  }

  /** The bit length is the only n with 2^(n-1) <= x < 2^n. */
  lemma BitLenUnique(x: nat, n: nat)
    requires n > 0 && Pow2(n - 1) <= x < Pow2(n)
    ensures BitLen(x) == n
  {
    BitLenBounds(x);
    if BitLen(x) < n {
      Pow2Monotonic(BitLen(x), n - 1);
    } else if n < BitLen(x) {
      Pow2Monotonic(n, BitLen(x) - 1);
    }
  }

  /** Shifting out k digits of a number that has more than k of them. */
  lemma {:induction false} BitLenOfShift(x: nat, k: nat)
    requires k < BitLen(x)
    ensures BitLen(x) == k + BitLen(Shr(x, k))
  {
    if k > 0 {
      BitLenOfShift(x / 2, k - 1);
    }
  }

  lemma BitLenOfWord(w: nat)
    requires 0 < w < TWO_32
    ensures 1 <= BitLen(w) <= 32
  {
    BitLenBounds(w);
    Pow2Values();
    if BitLen(w) > 32 {
      Pow2Monotonic(32, BitLen(w) - 1);
    }
  }

  /** The leading digit is one. */
  lemma {:induction false} LeadingDigit(x: nat)
    requires x > 0
    ensures BitOf(x, BitLen(x) - 1)
  {
    if x > 1 {
      LeadingDigit(x / 2);
    }
  }

  lemma {:induction false} TrailingZerosAreZeros(x: nat, n: nat)
    requires x > 0
    ensures TrailingZeros(x) >= n <==> forall k: nat :: k < n ==> !BitOf(x, k)
  {
    if x % 2 == 1 {
      assert BitOf(x, 0);
    } else if n > 0 {
      TrailingZerosAreZeros(x / 2, n - 1);
      forall k: nat | 0 < k < n
        ensures BitOf(x, k) == BitOf(x / 2, k - 1)
      {
      }
      assert !BitOf(x, 0);
      if forall k: nat :: k < n ==> !BitOf(x, k) {
        forall k: nat | k < n - 1
          ensures !BitOf(x / 2, k)
        {
          assert BitOf(x, k + 1) == BitOf(x / 2, k);
        }
      }
    }
  }

  lemma Multiples(d: int, n: int)
    requires n > 0
    ensures d >= 1 ==> d * n >= n
    ensures d <= -1 ==> d * n <= -n
  {
  }

  /** Quotient and remainder are the only ones that fit. */
  lemma DivisionIsUnique(x: nat, n: nat, q: int, r: nat)
    requires n > 0 && x == q * n + r && r < n
    ensures x / n == q && x % n == r
  {
    var d, m := x / n - q, x % n;
    assert x == n * (x / n) + m;
    assert d * n == n * (x / n) - q * n;
    Multiples(d, n);
  }
}
