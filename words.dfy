/**
 * Fixed-width integer behaviour of C on the target (LP64 macOS):
 * `u_int32_t` wrap-around, the reinterpretation of a `u_int32_t` as an
 * `int`, and `/` and `%` on `int`, which truncate toward zero.
 */
module Words {
  const TWO_31: int := 0x8000_0000
  const TWO_32: int := 0x1_0000_0000

  /** The values of a `u_int32_t` (also `natural_t`). */
  type u32 = x: int | 0 <= x < 0x1_0000_0000

  function Abs(x: int): nat { if x < 0 then -x else x }

  /** Conversion to `u_int32_t`: the unique value in range congruent to x modulo 2^32. */
  function Wrap32(x: int): (r: u32)
    ensures 0 <= x < TWO_32 ==> r == x
  {
    x % TWO_32
  }

  /** The wrapped value differs from x by a whole number of 2^32 steps. */
  lemma Wrap32Congruent(x: int)
    ensures exists q :: x == Wrap32(x) + q * TWO_32
  {
    assert x == Wrap32(x) + (x / TWO_32) * TWO_32;
  }

  /** `(int)u` for a `u_int32_t` u: the unique 32-bit signed value with the same bits. */
  function ToInt32(u: u32): (r: int)
    ensures -TWO_31 <= r < TWO_31
    ensures Wrap32(r) == u
  {
    if u < TWO_31 then u else u - TWO_32
  }

  /** C's `a / b` on integers: the quotient truncated toward zero. */
  function TruncDiv(a: int, b: int): (q: int)
    requires b > 0
    ensures Abs(q) * b <= Abs(a) < (Abs(q) + 1) * b
    ensures a >= 0 ==> q >= 0
    ensures a <= 0 ==> q <= 0
  {
    if a >= 0 then a / b else -((-a) / b)
  }

  /** C's `a % b` on integers: the remainder takes the sign of the dividend. */
  function TruncRem(a: int, b: int): (r: int)
    requires b > 0
    ensures a == TruncDiv(a, b) * b + r
    ensures Abs(r) < b
    ensures a >= 0 ==> r >= 0
    ensures a <= 0 ==> r <= 0
  {
    a - TruncDiv(a, b) * b
  }

  /** Adding to an already wrapped value wraps like adding to the original. */
  lemma WrapAdd(a: int, b: int)
    ensures Wrap32(Wrap32(a) + b) == Wrap32(a + b)
  {
    var q := a / TWO_32;
    assert a == q * TWO_32 + Wrap32(a);
    assert a + b == (Wrap32(a) + b) + q * TWO_32;
    ModShift(Wrap32(a) + b, q);
  }

  /** Multiplying an already wrapped value wraps like multiplying the original. */
  lemma WrapScale(k: int, x: int)
    ensures Wrap32(k * Wrap32(x)) == Wrap32(k * x)
  {
    var q := x / TWO_32;
    assert x == Wrap32(x) + q * TWO_32;
    assert k * x == k * Wrap32(x) + (k * q) * TWO_32;
    ModShift(k * Wrap32(x), k * q);
  }

  /** Wrapping both addends first gives the same wrapped sum. */
  lemma WrapSum(a: int, b: int)
    ensures Wrap32(a + b) == Wrap32(Wrap32(a) + Wrap32(b))
  {
    WrapAdd(a, b);
    WrapAdd(b, Wrap32(a));
    assert Wrap32(a) + b == b + Wrap32(a);
    assert Wrap32(b) + Wrap32(a) == Wrap32(a) + Wrap32(b);
  }

  /** Shifting by a multiple of 2^32 does not change the wrapped value. */
  lemma ModShift(x: int, q: int)
    ensures (x + q * TWO_32) % TWO_32 == x % TWO_32
  {
    var r := x % TWO_32;
    var k := x / TWO_32;
    assert x + q * TWO_32 == (k + q) * TWO_32 + r;
  }

  /** Adding a wrapped difference moves a wrapped offset along by that difference. */
  lemma WrapChain(s: int, before: int, last: int, seed: int)
    requires Wrap32(s) == Wrap32(before - seed)
    ensures Wrap32(s + Wrap32(last - before)) == Wrap32(last - seed)
  {
    var d := Wrap32(last - before);
    WrapAdd(s, d);
    WrapAdd(before - seed, d);
    WrapAdd(last - before, before - seed);
    assert before - seed + (last - before) == last - seed;
  }

  /** Euclidean division by a positive divisor brackets the dividend. */
  lemma DivBracket(n: nat, t: nat)
    requires t > 0
    ensures (n / t) * t <= n < (n / t + 1) * t
  {
    assert n == (n / t) * t + n % t;
    assert (n / t + 1) * t == (n / t) * t + t;
  }

  /** The quotient of a division by a positive divisor, with its bracket. */
  function FloorDiv(n: nat, t: nat): (q: nat)
    requires t > 0
    ensures q * t <= n < (q + 1) * t
  {
    var q := n / t;
    assert n == q * t + n % t;
    assert (q + 1) * t == q * t + t;
    q
  }

  /** A quotient is at most k when the dividend is at most k times the divisor. */
  lemma DivAtMost(n: nat, t: nat, k: nat)
    requires t > 0 && n <= k * t
    ensures n / t <= k
  {
    DivBracket(n, t);
    assert (n / t - k) * t == (n / t) * t - k * t <= 0;
    FactorSign(n / t - k, t);
  }

  lemma FactorSign(x: int, t: int)
    requires t > 0 && x * t <= 0
    ensures x <= 0
  {
  }
}
