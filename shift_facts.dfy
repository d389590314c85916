/**
 * The shift idioms the codec is built from, each proved equal to its
 * arithmetic meaning.
 *
 * - `(x << (64 - width - lsb)) >> (64 - width)` on u64 isolates a field;
 * - `(x << (64 - width)) >> (64 - width)` on i64 sign-extends the low width bits;
 * - `(x >> k) << k` clears the low k bits;
 * - or-ing the part above a field, the field and the part below it splices.
 */
module ShiftFacts {
  import opened Pow2Arith
  import opened Machine
  import opened FieldSpec

  /** Shifting the field's top bit up to bit 63 and back down, logically, leaves just the field. */
  lemma ShiftPairUnsigned(x: U64, width: nat, lsb: nat)
    requires 1 <= width && width + lsb <= 64
    ensures Shr(Shl(x, 64 - width - lsb), 64 - width) == Field(x, width, lsb)
  {
    Pow2Word();
    var s := 64 - width - lsb;
    MulPow2Mod(x, s, 64);
    var z := x % Pow2(width + lsb);
    assert Shl(x, s) == z * Pow2(s);
    Pow2Split(64 - width, s);
    MulMod(z, Pow2(lsb), Pow2(s));
    FieldOfLow(x, width, lsb);
  }

  /**
   * `x << (64 - width)` on i64 moves the low width bits of x to the top; the
   * result is negative exactly when bit width - 1 of x is set.
   */
  lemma ShlSignedTop(x: I64, width: nat)
    requires 1 <= width <= 64
    ensures 0 <= (x % Pow2(width)) * Pow2(64 - width) < TWO64
    ensures ShlSigned(x, 64 - width) ==
      if x % Pow2(width) < Pow2(width - 1) then (x % Pow2(width)) * Pow2(64 - width)
      else (x % Pow2(width)) * Pow2(64 - width) - TWO64
  {
    var s := 64 - width;
    var u, d := x % Pow2(width), Pow2(s);
    MulPow2Mod(x, s, 64);
    Pow2Split(64, s);
    Pow2Split(63, s);
    Pow2Word();
    ScaledBelow(u, Pow2(width), d);
    ScaledCompare(u, Pow2(width - 1), d);
  }

  /** Shifting left then arithmetically right by 64 - width sign-extends the low width bits. */
  lemma ShiftPairSigned(x: I64, width: nat)
    requires 1 <= width <= 64
    ensures Sar(ShlSigned(x, 64 - width), 64 - width) == SignExtend(x % Pow2(width), width)
  {
    if x % Pow2(width) < Pow2(width - 1) {
      ShiftPairSignedPositive(x, width);
    } else {
      ShiftPairSignedNegative(x, width);
    }
  }

  lemma ShiftPairSignedPositive(x: I64, width: nat)
    requires 1 <= width <= 64 && x % Pow2(width) < Pow2(width - 1)
    ensures Sar(ShlSigned(x, 64 - width), 64 - width) == x % Pow2(width)
  {
    var s := 64 - width;
    var u, d := x % Pow2(width), Pow2(s);
    ShlSignedTop(x, width);
    var t := ShlSigned(x, s);
    assert t == u * d;
    MulDivCancel(u, d);
    assert Sar(t, s) == t / d;
  }

  lemma ShiftPairSignedNegative(x: I64, width: nat)
    requires 1 <= width <= 64 && Pow2(width - 1) <= x % Pow2(width)
    ensures Sar(ShlSigned(x, 64 - width), 64 - width) == x % Pow2(width) - Pow2(width)
  {
    var s := 64 - width;
    var u, d := x % Pow2(width), Pow2(s);
    ShlSignedTop(x, width);
    var t := ShlSigned(x, s);
    var w := Pow2(width);
    WordSplit(width);
    assert t == u * d - w * d;
    SubMulDiv(u, w, d);
    assert Sar(t, s) == t / d;
  }

  /** A left shift that pushes no set bit past bit 63 is multiplication by 2^k. */
  lemma ShlExact(x: U64, k: nat, width: nat)
    requires k < 64 && width + k <= 64 && x < Pow2(width)
    ensures Shl(x, k) == x * Pow2(k)
  {
    Pow2Word();
    MulPow2Mod(x, k, 64);
    Pow2Le(width, 64 - k);
    DivModUnique(x, Pow2(64 - k), 0, x);
  }

  /** A logical right shift by s - lsb of a word u * 2^s leaves u * 2^lsb. */
  lemma ShrOfShifted(u: int, s: nat, lsb: nat)
    requires lsb <= s < 64 && 0 <= u * Pow2(s) < TWO64
    ensures Shr(u * Pow2(s), s - lsb) == u * Pow2(lsb)
  {
    var a, b := Pow2(lsb), Pow2(s - lsb);
    Pow2Split(s, lsb);
    Reassociate(u, a, b);
    MulDivCancel(u * a, b);
    assert Shr(u * Pow2(s), s - lsb) == ((u * a) * b) / b;
  }

  /** `(x >> k) << k` on u64 clears the low k bits. */
  lemma ShrShlClearsLow(x: U64, k: nat)
    requires k < 64
    ensures Shl(Shr(x, k), k) == (x / Pow2(k)) * Pow2(k)
  {
    var d := Pow2(k);
    var q := x / d;
    DivBounds(x, d);
    assert Shr(x, k) == q;
    MulLe(d, 0, q);
    assert x == q * d + x % d;
    assert 0 <= q * d <= x;
    DivModUnique(q * d, TWO64, 0, q * d);
  }

  /**
   * Or-ing the bits of x above the field, the width-bit f moved to lsb,
   * and the bits of x below the field splices f into x: the three parts
   * have no set bit in common.
   */
  lemma OrSplice(x: U64, width: nat, lsb: nat, f: int)
    requires width + lsb <= 64 && 0 <= f < Pow2(width)
    ensures 0 <= f * Pow2(lsb) && 0 <= (x / Pow2(width + lsb)) * Pow2(width + lsb)
    ensures Or(Or((x / Pow2(width + lsb)) * Pow2(width + lsb), f * Pow2(lsb)), x % Pow2(lsb))
            == Splice(x, width, lsb, f)
  {
    var k := width + lsb;
    var a, b, m := Pow2(lsb), Pow2(width), Pow2(k);
    var hi, mid, low := x / m, f * a, x % a;
    Pow2Add(width, lsb);
    assert m == b * a;
    DivBounds(x, m);
    MulLe(m, 0, hi);
    MulLe(a, 0, f);
    MulLt(a, f, b);
    assert 0 <= mid < m;
    OrDisjoint(hi, k, mid);
    MulLe(b, 0, hi);
    Regroup(hi, f, a, b, m);
    OrDisjoint(hi * b + f, lsb, low);
  }
}
