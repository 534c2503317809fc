/**
 * Unbounded-integer stand-ins for the bit operations the PMP checker uses.
 * A shift right by k is division by Pow2(k), a mask of k low bits is the
 * remainder modulo Pow2(k), and "trailing ones" counts the low 1 bits.
 */
module Bits {

  /** 2 to the power k. */
  function Pow2(k: nat): (p: nat)
    ensures p >= 1
  {
    if k == 0 then 1 else 2 * Pow2(k - 1)
  }

  /** Bit k of n, i.e. (n >> k) & 1. */
  function Bit(n: nat, k: nat): (b: nat)
    ensures b < 2
  {
    (n / Pow2(k)) % 2
  }

  /** v with its low bits cleared down to a multiple of size, i.e. v & ~(size - 1) for a power-of-two size. */
  function AlignDown(v: nat, size: nat): (r: nat)
    requires size > 0
    ensures r % size == 0 && r <= v < r + size
    ensures v - r == v % size
  {
    var q := v / size;
    MulAtLeast(q + 1, size);
    DivModUnique(q * size, size, q, 0);
    q * size
  }

  /** x lies in the size-block that AlignDown(v, size) starts iff x and v have the same quotient by size. */
  lemma AlignDownBlock(v: nat, size: nat, x: nat)
    requires size > 0
    ensures AlignDown(v, size) <= x < AlignDown(v, size) + size <==> x / size == v / size
  {
    var base, q := AlignDown(v, size), v / size;
    if base <= x < base + size {
      DivModUnique(x, size, q, x - base);
    }
    if x / size == q {
      DivModUnique(x, size, x / size, x % size);
    }
  }

  /**
   * The number t of consecutive 1 bits at the low end of n (0 for n == 0).
   * t ones at the low end need n >= 2^t - 1, so t never exceeds the bit
   * width of n; the exact characterisation is TrailingOnesCharacterised.
   */
  function TrailingOnes(n: nat): (t: nat)
    ensures Pow2(t) <= n + 1
  {
    if n % 2 == 1 then 1 + TrailingOnes(n / 2) else 0
  }

  // ---------------------------------------------------------------------
  // Division facts (Dafny's / and % on nat agree with Python's >> and &)
  // ---------------------------------------------------------------------

  /** k * d is at least d for a positive factor k. */
  lemma {:induction false} MulAtLeast(k: nat, d: nat)
    requires k >= 1
    ensures k * d >= d
  {
    if k > 1 {
      MulAtLeast(k - 1, d);
      assert k * d == (k - 1) * d + d;
    }
  }

  /** Quotient and remainder are determined by n == q * d + r, 0 <= r < d. */
  lemma DivModUnique(n: nat, d: nat, q: nat, r: nat)
    requires d > 0 && r < d && n == q * d + r
    ensures q == n / d && r == n % d
  {
    var q', r' := n / d, n % d;
    assert q' * d + r' == n;
    if q > q' {
      assert (q - q') * d == r' - r;
      MulAtLeast(q - q', d);
    } else if q < q' {
      assert (q' - q) * d == r - r';
      MulAtLeast(q' - q, d);
    }
  }

  /** A two-level mixed-radix decomposition of n is one in radix a * b. */
  lemma Recombine(n: nat, a: nat, b: nat, m: nat, q: nat, r2: nat, r1: nat)
    requires a > 0 && b > 0 && r1 < a && r2 < b
    requires m == q * b + r2 && n == m * a + r1
    ensures n == q * (a * b) + (a * r2 + r1) && a * r2 + r1 < a * b
  {
    assert (q * b + r2) * a == q * (a * b) + a * r2;
    if r2 < b - 1 {
      MulAtLeast(b - 1 - r2, a);
      assert (b - 1 - r2) * a == a * b - a - a * r2;
    } else {
      assert a * r2 == a * b - a;
    }
  }

  /** Dividing by a then by b is dividing by a * b; the remainder splits likewise. */
  lemma DivDiv(n: nat, a: nat, b: nat)
    requires a > 0 && b > 0
    ensures (n / a) / b == n / (a * b)
    ensures n % (a * b) == n % a + a * ((n / a) % b)
  {
    var m := n / a;
    Recombine(n, a, b, m, m / b, m % b, n % a);
    DivModUnique(n, a * b, m / b, a * (m % b) + n % a);
  }

  // ---------------------------------------------------------------------
  // Trailing ones
  // ---------------------------------------------------------------------

  /**
   * The defining property of the trailing-ones count t of n: the low t bits
   * are all 1 and bit t is 0, i.e. n mod 2^(t+1) == 2^t - 1. Both directions:
   * t is the only k with this property.
   */
  lemma {:induction false} TrailingOnesCharacterised(n: nat, k: nat)
    ensures n % Pow2(k + 1) == Pow2(k) - 1 <==> k == TrailingOnes(n)
  {
    DivDiv(n, 2, Pow2(k));
    assert Pow2(k + 1) == 2 * Pow2(k);
    if k == 0 {
    } else {
      TrailingOnesCharacterised(n / 2, k - 1);
      if n % 2 == 1 {
        assert Pow2(k) == 2 * Pow2(k - 1);
      }
    }
  }

  /** The trailing-ones count of n, as a single fact about n's low bits. */
  lemma TrailingOnesLowBits(n: nat)
    ensures n % Pow2(TrailingOnes(n) + 1) == Pow2(TrailingOnes(n)) - 1
  {
    TrailingOnesCharacterised(n, TrailingOnes(n));
  }

  /**
   * count_trailing_ones: shift n right while its low bit is 1, counting the
   * shifts. A zero argument returns 0 straight away.
   */
  method CountTrailingOnes(n: nat) returns (count: nat)
    ensures count == TrailingOnes(n)
    ensures n % Pow2(count + 1) == Pow2(count) - 1
  {
    if n == 0 {
      TrailingOnesLowBits(n);
      return 0;
    }
    count := 0;
    var m := n;
    while m % 2 == 1
      invariant count + TrailingOnes(m) == TrailingOnes(n)
      decreases m
    {
      count := count + 1;
      m := m / 2;
    }
    TrailingOnesLowBits(n);
  }
}
