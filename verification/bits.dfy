// Integer helpers the ring buffer's index arithmetic rests on: powers of two,
// rounding up to one, and Go's bitwise AND against a mask.

module Bits {

  /** n is 2^k for some k >= 0. */
  predicate IsPow2(n: int)
    decreases n
  {
    if n < 1 then false else n == 1 || (n % 2 == 0 && IsPow2(n / 2))
  }

  /** Halving a power of two (Go's `size >> 1`) yields 0 or again a power of two. */
  lemma HalfOfPow2(n: int)
    requires IsPow2(n)
    ensures n / 2 == 0 <==> n == 1
    ensures n > 1 ==> IsPow2(n / 2) && n == 2 * (n / 2)
  {
  }

  /**
   * The smallest power of two that is at least x (1 when x <= 1).
   * The repository calls a helper of this name but does not contain it;
   * this definition is the one the model assumes.
   */
  function CeilToPowerOfTwo(x: int): (p: int)
    ensures IsPow2(p) && p >= x
    ensures p == 1 || p < 2 * x
  {
    CeilFrom(1, x)
  }

  /** The first power of two in p, 2p, 4p, ... that is at least x. */
  function CeilFrom(p: int, x: int): (q: int)
    requires IsPow2(p)
    ensures IsPow2(q) && q >= x && q >= p
    ensures q == p || q < 2 * x
    decreases x - p
  {
    if p >= x then p else CeilFrom(2 * p, x)
  }

  /** Go's `a & b` on non-negative integers, bit by bit from the least significant end. */
  function BitAnd(a: nat, b: nat): (c: nat)
    ensures c <= a && c <= b
  {
    if a == 0 || b == 0 then 0
    else 2 * BitAnd(a / 2, b / 2) + (if a % 2 == 1 && b % 2 == 1 then 1 else 0)
  }

  /** Masking with size - 1 is reduction modulo size when size is a power of two. */
  lemma {:induction false} MaskIsMod(x: nat, size: int)
    requires IsPow2(size)
    ensures BitAnd(x, size - 1) == x % size
  {
    if size == 1 || x == 0 {
    } else {
      var t := size / 2;
      HalfOfPow2(size);
      MaskIsMod(x / 2, t);
      assert (size - 1) / 2 == t - 1 && (size - 1) % 2 == 1;
      assert BitAnd(x, size - 1) == 2 * BitAnd(x / 2, t - 1) + x % 2;
      DoubleMod(x, t);
    }
  }

  /** x mod 2t is twice (x/2 mod t) plus the low bit of x. */
  lemma DoubleMod(x: nat, t: int)
    requires t > 0
    ensures x % (2 * t) == 2 * ((x / 2) % t) + x % 2
  {
    var q, b := x / 2, x % 2;
    var k, m := q / t, q % t;
    assert q == t * k + m && 0 <= m < t;
    assert x == 2 * q + b;
    assert 2 * (t * k) == (2 * t) * k;
    ModUnique(x, 2 * t, k, 2 * m + b);
  }

  /** Euclidean division is unique: a remainder in range is the remainder. */
  lemma ModUnique(x: int, d: int, k: int, m: int)
    requires d > 0 && 0 <= m < d && x == d * k + m
    ensures x % d == m
  {
    var k', m' := x / d, x % d;
    assert x == d * k' + m' && 0 <= m' < d;
    if k < k' {
      assert d * (k' - k) == d * k' - d * k;
      MulAtLeast(d, k' - k);
    } else if k > k' {
      assert d * (k - k') == d * k - d * k';
      MulAtLeast(d, k - k');
    }
  }

  lemma MulAtLeast(d: int, j: int)
    requires d > 0 && j >= 1
    ensures d * j >= d
  {
    assert d * j == d * (j - 1) + d;
    assert d * (j - 1) >= 0;
  }
}
