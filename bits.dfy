/**
 * Bytes and the `UInt8` bit operations the codecs use, written as arithmetic.
 * Swift's `<<` on `UInt8` silently drops the bits shifted past bit 7, `>>`
 * is division by a power of two, `&` with `2^k - 1` keeps the low k bits,
 * and `|` is a genuine bitwise or.
 */
module Bits {

  type byte = x: int | 0 <= x < 256

  function Pow2(n: nat): (r: nat)
    ensures r >= 1
  {
    if n == 0 then 1 else 2 * Pow2(n - 1)
  }

  /** The powers of two the codecs shift by. */
  lemma Pow2Values()
    ensures Pow2(1) == 2 && Pow2(2) == 4 && Pow2(3) == 8 && Pow2(4) == 16
    ensures Pow2(5) == 32 && Pow2(6) == 64 && Pow2(7) == 128 && Pow2(8) == 256
    ensures Pow2(16) == 65536 && Pow2(24) == 16777216
  {
    assert Pow2(8) == 256;
    assert Pow2(12) == 4096;
    assert Pow2(16) == 65536;
    assert Pow2(20) == 1048576;
  }

  /** `x << k` on a `UInt8`: overflowing bits are discarded. */
  function Shl(x: nat, k: nat): byte {
    (x * Pow2(k)) % 256
  }

  /** `x >> k` on an unsigned integer. */
  function Shr(x: nat, k: nat): (r: nat)
    ensures r <= x
  {
    DivAtMost(x, Pow2(k));
    x / Pow2(k)
  }

  /** `x & (2^k - 1)`: the k low bits of x. */
  function Low(x: nat, k: nat): (r: nat)
    ensures r <= x && r < Pow2(k)
  {
    ModAtMost(x, Pow2(k));
    x % Pow2(k)
  }

  /** `a | b`: bitwise or, one binary digit at a time from the lowest. */
  function Or(a: nat, b: nat): nat
    decreases a + b
  {
    if a == 0 then b
    else if b == 0 then a
    else 2 * Or(a / 2, b / 2) + (if a % 2 == 1 || b % 2 == 1 then 1 else 0)
  }

  /** Or-ing two values of n bits gives a value of n bits. */
  lemma {:induction false} OrBound(a: nat, b: nat, n: nat)
    requires a < Pow2(n) && b < Pow2(n)
    ensures Or(a, b) < Pow2(n)
    decreases a + b
  {
    if a != 0 && b != 0 {
      assert n > 0;
      OrBound(a / 2, b / 2, n - 1);
    }
  }

  /** When no bit is set in both operands, `|` is addition. */
  lemma {:induction false} OrDisjoint(a: nat, b: nat, k: nat)
    requires a % Pow2(k) == 0 && b < Pow2(k)
    ensures Or(a, b) == a + b
    decreases k
  {
    if a != 0 && b != 0 {
      assert k > 0;
      var p := Pow2(k - 1);
      var m := a / Pow2(k);
      assert a == m * Pow2(k);
      assert a == (m * p) * 2;
      DivModUnique(a, 2, m * p, 0);
      DivModUnique(m * p, p, m, 0);
      OrDisjoint(a / 2, b / 2, k - 1);
    }
  }

  lemma MulAtLeast(x: int, p: int)
    requires x >= 1 && p > 0
    ensures x * p >= p
  {
  }

  lemma DivAtMost(x: nat, p: nat)
    requires p >= 1
    ensures 0 <= x / p <= x
  {
    var q := x / p;
    if q > 0 {
      MulAtLeast(p, q);
      assert p * q <= x;
    }
  }

  lemma ModAtMost(x: nat, p: nat)
    requires p >= 1
    ensures 0 <= x % p <= x && x % p < p
  {
    if x < p {
      DivModUnique(x, p, 0, x);
    }
  }

  /** Below n times the divisor, the quotient is below n. */
  lemma DivBelow(x: nat, p: nat, n: nat)
    requires p > 0 && x < n * p
    ensures x / p < n
  {
    var q := x / p;
    if q >= n {
      MulDistributes(q, n, p);
      if q > n {
        MulAtLeast(q - n, p);
      }
    }
  }

  /** Taking k away from a multiple of k leaves a multiple of k. */
  lemma MultipleDown(n: nat, k: nat)
    requires k > 0 && n >= k && n % k == 0
    ensures (n - k) % k == 0
  {
    DivModUnique(n - k, k, n / k - 1, 0);
  }

  /** The sum of two multiples of k is a multiple of k. */
  lemma MultipleSum(a: nat, b: nat, k: nat)
    requires k > 0 && a % k == 0 && b % k == 0
    ensures (a + b) % k == 0
  {
    var p := a / k;
    var q := b / k;
    MulDistributes(p + q, q, k);
    DivModUnique(a + b, k, p + q, 0);
  }

  /** Adding the divisor adds one to the quotient. */
  lemma DivStep(a: int, p: int)
    requires p > 0 && a >= 0
    ensures (a + p) / p == a / p + 1
  {
    var q := a / p;
    var r := a % p;
    MulDistributes(q + 1, 1, p);
    DivModUnique(a + p, p, q + 1, r);
  }

  lemma MulDistributes(q: int, d: int, p: int)
    ensures (q - d) * p == q * p - d * p
  {
  }

  /** Quotient and remainder are determined by any decomposition `a == q * p + r` with `0 <= r < p`. */
  lemma DivModUnique(a: int, p: int, q: int, r: int)
    requires p > 0 && 0 <= r < p && a == q * p + r
    ensures a / p == q && a % p == r
  {
    var d := a / p;
    var e := a % p;
    assert a == d * p + e;
    MulDistributes(q, d, p);
    if q > d {
      MulAtLeast(q - d, p);
    } else if q < d {
      MulDistributes(d, q, p);
      MulAtLeast(d - q, p);
    }
  }

  /** `a | b` of two bytes, still a byte. */
  function OrByte(a: byte, b: byte): (r: byte)
    ensures r >= a && r >= b
  {
    OrBound(a, b, 8);
    OrAtLeast(a, b);
    Pow2Values();
    Or(a, b)
  }

  /** Or never clears a bit, so it is at least as large as either operand. */
  lemma {:induction false} OrAtLeast(a: nat, b: nat)
    ensures Or(a, b) >= a && Or(a, b) >= b
    decreases a + b
  {
    if a != 0 && b != 0 {
      OrAtLeast(a / 2, b / 2);
    }
  }

  /**
   * Shifting `hi` left by k within a byte and or-ing in a value of fewer
   * than k bits places the two side by side.
   */
  lemma SideBySide(hi: nat, k: nat, lo: nat)
    requires hi * Pow2(k) < 256 && lo < Pow2(k)
    ensures Shl(hi, k) == hi * Pow2(k)
    ensures Or(Shl(hi, k), lo) == hi * Pow2(k) + lo
  {
    DivModUnique(hi * Pow2(k), Pow2(k), hi, 0);
    OrDisjoint(hi * Pow2(k), lo, k);
  }

  /** How many elements must be added to n to reach a multiple of k (`n.isMultiple(of: k) ? 0 : k - n % k`). */
  function FillCount(n: nat, k: nat): (r: nat)
    requires k > 0
    ensures r < k && (n + r) % k == 0
    ensures r == 0 <==> n % k == 0
  {
    if n % k == 0 then 0
    else
      FillCountFills(n, k);
      k - n % k
  }

  lemma FillCountFills(n: nat, k: nat)
    requires k > 0 && n % k != 0
    ensures (n + (k - n % k)) % k == 0
  {
    var q := n / k;
    MulDistributes(q + 1, 1, k);
    DivModUnique(n + (k - n % k), k, q + 1, 0);
  }
}
