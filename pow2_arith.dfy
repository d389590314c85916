/**
 * Powers of two and the facts about Euclidean division and remainder by
 * them that the bit-field arithmetic rests on.
 */
module Pow2Arith {

  /** 2 to the power k. */
  function Pow2(k: nat): (r: int)
    ensures r >= 1
  {
    if k == 0 then 1 else 2 * Pow2(k - 1)
  }

  lemma {:induction false} Pow2Add(a: nat, b: nat)
    ensures Pow2(a + b) == Pow2(a) * Pow2(b)
  {
    if a > 0 {
      Pow2Add(a - 1, b);
      var p, q := Pow2(a - 1), Pow2(b);
      assert Pow2(a - 1 + b) == p * q;
      assert Pow2(a + b) == 2 * Pow2(a - 1 + b);
      assert Pow2(a) == 2 * p;
      assert 2 * (p * q) == (2 * p) * q;
    }
  }

  lemma Pow2Split(n: nat, k: nat)
    requires k <= n
    ensures Pow2(n) == Pow2(n - k) * Pow2(k)
  {
    Pow2Add(n - k, k);
  }

  /** Pow2 is strictly increasing. */
  lemma Pow2Lt(a: nat, b: nat)
    requires a < b
    ensures Pow2(a) < Pow2(b)
  {
  }

  lemma Pow2Le(a: nat, b: nat)
    requires a <= b
    ensures Pow2(a) <= Pow2(b)
  {
  }

  lemma MulLe(a: int, x: int, y: int)
    requires 0 <= a && x <= y
    ensures a * x <= a * y
  {
  }

  lemma MulLt(a: int, x: int, y: int)
    requires 0 < a && x < y
    ensures a * x < a * y
  {
  }

  /** A nonzero multiple of d is at least d away from zero. */
  lemma MulSign(k: int, d: int)
    requires 0 < d
    ensures 1 <= k ==> d <= k * d
    ensures k <= -1 ==> k * d <= -d
  {
  }

  /** Quotient and remainder are the only pair with x == q * d + r and 0 <= r < d. */
  lemma DivModUnique(x: int, d: int, q: int, r: int)
    requires 0 < d && 0 <= r < d && x == q * d + r
    ensures x / d == q && x % d == r
  {
    var q0, r0 := x / d, x % d;
    assert x == q0 * d + r0 && 0 <= r0 < d;
    assert (q - q0) * d == r0 - r;
    MulSign(q - q0, d);
  }

  /**
   * Ring identities, given to callers as named facts: without them the
   * solver's search for the same rewriting in a larger context runs long.
   */
  lemma Regroup(hi: int, f: int, a: int, b: int, m: int)
    requires m == b * a
    ensures hi * m + f * a == (hi * b + f) * a
  {
  }

  lemma Reassociate(u: int, a: int, b: int)
    ensures u * (b * a) == (u * a) * b
  {
  }

  /** A natural number is its own remainder by d exactly when it is below d. */
  lemma ModSelf(n: int, d: int)
    requires 0 <= n && 0 < d
    ensures n % d == n <==> n < d
  {
  }

  lemma MulDivCancel(y: int, d: int)
    requires 0 < d
    ensures (y * d) / d == y && (y * d) % d == 0
  {
    DivModUnique(y * d, d, y, 0);
  }

  /** A difference of two multiples of d divides exactly. */
  lemma SubMulDiv(u: int, w: int, d: int)
    requires 0 < d
    ensures (u * d - w * d) / d == u - w
  {
    assert u * d - w * d == (u - w) * d;
    MulDivCancel(u - w, d);
  }

  /** Dividing by a positive number moves toward zero without crossing it (rounding down). */
  lemma DivBounds(x: int, d: int)
    requires 1 <= d
    ensures 0 <= x ==> 0 <= x / d <= x
    ensures x < 0 ==> x <= x / d < 0
  {
    if 0 <= x {
      DivNonNegative(x, d);
    } else {
      DivNegative(x, d);
    }
  }

  lemma DivNonNegative(x: int, d: int)
    requires 1 <= d && 0 <= x
    ensures 0 <= x / d <= x
  {
    var q, r := x / d, x % d;
    assert x == q * d + r && 0 <= r < d;
    MulSign(q, d);
    assert 0 <= q;
    MulLe(q, 1, d);
  }

  lemma DivNegative(x: int, d: int)
    requires 1 <= d && x < 0
    ensures x <= x / d < 0
  {
    var q, r := x / d, x % d;
    assert x == q * d + r && 0 <= r < d;
    MulSign(q, d);
    assert q < 0;
    MulLe(-x, 0, d - 1);
    assert (x - q) * d == x * (d - 1) + r;
    MulSign(x - q, d);
  }

  /** Division and remainder by a product a * b, in terms of a and then b. */
  lemma DivModSplit(x: int, a: int, b: int)
    requires 0 < a && 0 < b
    ensures x / (a * b) == (x / a) / b
    ensures x % (a * b) == a * ((x / a) % b) + x % a
  {
    var q1, r1 := x / a, x % a;
    var q2, r2 := q1 / b, q1 % b;
    assert x == a * q1 + r1;
    assert q1 == b * q2 + r2;
    assert a * q1 == (a * b) * q2 + a * r2;
    MulLe(a, r2, b - 1);
    assert a * (b - 1) == a * b - a;
    DivModUnique(x, a * b, q2, a * r2 + r1);
  }

  lemma ModDivSplit(x: int, a: int, b: int)
    requires 0 < a && 0 < b
    ensures (x % (a * b)) / a == (x / a) % b
    ensures (x % (a * b)) % a == x % a
  {
    DivModSplit(x, a, b);
    DivModUnique(x % (a * b), a, (x / a) % b, x % a);
  }

  /** Scaling by a positive b keeps a number in [0, a) inside [0, a * b). */
  lemma ScaledBelow(v: int, a: int, b: int)
    requires 0 <= v < a && 0 < b
    ensures 0 <= v * b < a * b
  {
  }

  /** Scaling by a positive b preserves order. */
  lemma ScaledCompare(u: int, h: int, b: int)
    requires 0 < b
    ensures u < h <==> u * b < h * b
  {
  }

  /**
   * The number hi * m + f * a + low, where m == b * a, f < b and low < a:
   * its digits by a, then b, are low, f and hi.
   */
  lemma MixedRadix(hi: int, f: int, low: int, a: int, b: int, m: int)
    requires 0 < a && 0 < b && m == b * a && 0 <= f < b && 0 <= low < a
    ensures (hi * m + f * a + low) % a == low
    ensures ((hi * m + f * a + low) / a) % b == f
    ensures (hi * m + f * a + low) / m == hi
  {
    var s := hi * m + f * a + low;
    assert s == (hi * b + f) * a + low;
    DivModUnique(s, a, hi * b + f, low);
    DivModUnique(hi * b + f, b, hi, f);
    DivModSplit(s, a, b);
    assert a * b == m;
  }

  /** Scaling by b commutes with taking quotient and remainder by a. */
  lemma MulMod(y: int, a: int, b: int)
    requires 0 < a && 0 < b
    ensures (y * b) % (a * b) == (y % a) * b
    ensures (y * b) / (a * b) == y / a
  {
    var q, r := y / a, y % a;
    assert y == a * q + r;
    assert y * b == q * (a * b) + r * b;
    MulLt(b, r, a);
    DivModUnique(y * b, a * b, q, r * b);
  }

  /**
   * Multiplying by 2^s and reducing modulo 2^n keeps the low n - s bits
   * of y, moved up by s places; what falls off the top is y / 2^(n - s).
   */
  lemma MulPow2Mod(y: int, s: nat, n: nat)
    requires s <= n
    ensures (y * Pow2(s)) % Pow2(n) == (y % Pow2(n - s)) * Pow2(s)
    ensures (y * Pow2(s)) / Pow2(n) == y / Pow2(n - s)
  {
    Pow2Add(n - s, s);
    MulMod(y, Pow2(n - s), Pow2(s));
  }
}
