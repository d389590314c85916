/**
 * Rust's fixed-width integers u64 and i64 and the operators the codec
 * applies to them, written out over unbounded integers: shifts lose the
 * bits pushed past bit 63, `>>` is logical on u64 and arithmetic on i64,
 * `!` is bitwise complement, `|` is bitwise or, and a checked conversion
 * (`try_into().unwrap()`) demands that the value is in range.
 */
module Machine {
  import opened Pow2Arith

  const TWO63: int := 0x8000_0000_0000_0000
  const TWO64: int := 0x1_0000_0000_0000_0000

  /** A value of Rust's u64. */
  type U64 = x: int | 0 <= x < TWO64

  /** A value of Rust's i64. */
  type I64 = x: int | -TWO63 <= x < TWO63

  lemma Pow2Byte()
    ensures Pow2(8) == 0x100
  {
  }

  lemma Pow2Short()
    ensures Pow2(16) == 0x1_0000
  {
    Pow2Byte();
    Pow2Add(8, 8);
  }

  lemma Pow2HalfWord()
    ensures Pow2(32) == 0x1_0000_0000
  {
    Pow2Short();
    Pow2Add(16, 16);
  }

  /** 2^63 and 2^64, the bounds of i64 and u64. */
  lemma Pow2Word()
    ensures Pow2(63) == TWO63 && Pow2(64) == TWO64
  {
    Pow2HalfWord();
    Pow2Add(32, 32);
    assert Pow2(64) == 2 * Pow2(63);
  }

  /** 2^64 split at bit width. */
  lemma WordSplit(width: nat)
    requires width <= 64
    ensures TWO64 == Pow2(width) * Pow2(64 - width)
  {
    Pow2Word();
    Pow2Split(64, 64 - width);
  }

  /** `x << k` on u64 (k < 64): the bits shifted past bit 63 are lost. */
  function Shl(x: U64, k: nat): U64
    requires k < 64
  {
    (x * Pow2(k)) % TWO64
  }

  /** `x >> k` on u64 (k < 64): a logical, zero-filling shift. */
  function Shr(x: U64, k: nat): U64
    requires k < 64
  {
    DivBounds(x, Pow2(k));
    x / Pow2(k)
  }

  /** The i64 with the same 64-bit two's-complement pattern as `u`. */
  function AsSigned(u: U64): I64
  {
    if u < TWO63 then u else u - TWO64
  }

  /** `x << k` on i64 (k < 64): the bit pattern is shifted as for u64 and read back as i64. */
  function ShlSigned(x: I64, k: nat): I64
    requires k < 64
  {
    AsSigned((x * Pow2(k)) % TWO64)
  }

  /** `x >> k` on i64 (k < 64): an arithmetic, sign-propagating shift, i.e. division rounding down. */
  function Sar(x: I64, k: nat): I64
    requires k < 64
  {
    DivBounds(x, Pow2(k));
    x / Pow2(k)
  }

  /** `!x` on u64. */
  function NotU(x: U64): U64
  {
    TWO64 - 1 - x
  }

  /** `!x` on i64. */
  function NotI(x: I64): I64
  {
    -1 - x
  }

  /** `x.try_into().unwrap()` from i64 to u64, which panics on a negative x. */
  function I64ToU64(x: I64): U64
    requires 0 <= x
  {
    x
  }

  /** `x.try_into().unwrap()` from u64 to i64, which panics when x is 2^63 or more. */
  function U64ToI64(x: U64): I64
    requires x < TWO63
  {
    x
  }

  /** Bitwise or of two naturals, one binary digit at a time. */
  function Or(a: nat, b: nat): nat
    decreases a + b
  {
    if a == 0 && b == 0 then 0
    else 2 * Or(a / 2, b / 2) + (if a % 2 == 1 || b % 2 == 1 then 1 else 0)
  }

  /** `a | b` on u64. */
  function BitOr(a: U64, b: U64): U64
  {
    Pow2Word();
    OrBound(a, b, 64);
    Or(a, b)
  }

  /** The or of two k-bit numbers is a k-bit number. */
  lemma {:induction false} OrBound(a: nat, b: nat, k: nat)
    requires a < Pow2(k) && b < Pow2(k)
    ensures Or(a, b) < Pow2(k)
    decreases k
  {
    if a == 0 && b == 0 {
    } else {
      assert k > 0;
      OrBound(a / 2, b / 2, k - 1);
    }
  }

  lemma {:induction false} OrZero(a: nat)
    ensures Or(a, 0) == a
    decreases a
  {
    if a != 0 {
      OrZero(a / 2);
    }
  }

  /**
   * Or-ing a multiple of 2^k with a number below 2^k is addition: the two
   * have no set bit in common.
   */
  lemma {:induction false} OrDisjoint(hi: nat, k: nat, lo: nat)
    requires lo < Pow2(k)
    ensures Or(hi * Pow2(k), lo) == hi * Pow2(k) + lo
    decreases k
  {
    if k == 0 {
      OrZero(hi);
    } else {
      var x := hi * Pow2(k - 1);
      assert hi * Pow2(k) == 2 * x;
      OrDisjoint(hi, k - 1, lo / 2);
      if x != 0 || lo != 0 {
        assert (2 * x) / 2 == x && (2 * x) % 2 == 0;
        assert Or(2 * x, lo) == 2 * Or(x, lo / 2) + lo % 2;
      }
    }
  }
}
