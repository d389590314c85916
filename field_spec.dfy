/**
 * What a bit field means, stated arithmetically: the reference definitions
 * that the shift-based codec is proved against.
 *
 * A field (width, lsb) of a word x covers bits lsb .. lsb + width - 1; its
 * unsigned content is (x / 2^lsb) mod 2^width, and a signed field is that
 * content read as a width-bit two's-complement number.
 */
module FieldSpec {
  import opened Pow2Arith

  /** The unsigned content of bits [lsb, lsb + width) of x. */
  function Field(x: int, width: nat, lsb: nat): int
  {
    (x / Pow2(lsb)) % Pow2(width)
  }

  /** Bit i of x (of its two's-complement expansion when x is negative). */
  function Bit(x: int, i: nat): int
  {
    (x / Pow2(i)) % 2
  }

  /** n is representable in `width` unsigned bits; no value fits zero bits. */
  predicate InUnsignedRange(n: int, width: nat)
  {
    1 <= width && 0 <= n < Pow2(width)
  }

  /** n is representable in `width` two's-complement bits; no value fits zero bits. */
  predicate InSignedRange(n: int, width: nat)
  {
    1 <= width && -Pow2(width - 1) <= n < Pow2(width - 1)
  }

  /** The width-bit pattern u read as a two's-complement number: bit width - 1 is the sign. */
  function SignExtend(u: int, width: nat): int
    requires 1 <= width
  {
    if u < Pow2(width - 1) then u else u - Pow2(width)
  }

  /** x with bits [lsb, lsb + width) replaced by the width-bit pattern f. */
  function Splice(x: int, width: nat, lsb: nat, f: int): int
  {
    (x / Pow2(width + lsb)) * Pow2(width + lsb) + f * Pow2(lsb) + x % Pow2(lsb)
  }

  /**
   * Sign extension of a width-bit pattern lands in the signed range, and
   * reducing it modulo 2^width gives the pattern back.
   */
  lemma SignExtendRange(u: int, width: nat)
    requires 1 <= width && 0 <= u < Pow2(width)
    ensures InSignedRange(SignExtend(u, width), width)
    ensures SignExtend(u, width) % Pow2(width) == u
  {
    assert Pow2(width) == 2 * Pow2(width - 1);
    if u < Pow2(width - 1) {
      DivModUnique(u, Pow2(width), 0, u);
    } else {
      DivModUnique(u - Pow2(width), Pow2(width), -1, u);
    }
  }

  /**
   * Taking the low width bits of n and sign-extending them gives n back
   * exactly when n is in the signed width-bit range.
   */
  lemma SignExtendFixpoint(n: int, width: nat)
    requires 1 <= width
    ensures SignExtend(n % Pow2(width), width) == n <==> InSignedRange(n, width)
  {
    SignExtendRange(n % Pow2(width), width);
    assert Pow2(width) == 2 * Pow2(width - 1);
    if InSignedRange(n, width) {
      if 0 <= n {
        DivModUnique(n, Pow2(width), 0, n);
      } else {
        DivModUnique(n, Pow2(width), -1, n + Pow2(width));
      }
    }
  }

  /**
   * Splicing a width-bit f into x puts f in the field and keeps the bits
   * below and above the field.
   */
  lemma SpliceParts(x: int, width: nat, lsb: nat, f: int)
    requires 0 <= f < Pow2(width)
    ensures Field(Splice(x, width, lsb, f), width, lsb) == f
    ensures Splice(x, width, lsb, f) % Pow2(lsb) == x % Pow2(lsb)
    ensures Splice(x, width, lsb, f) / Pow2(width + lsb) == x / Pow2(width + lsb)
  {
    Pow2Add(width, lsb);
    MixedRadix(x / Pow2(width + lsb), f, x % Pow2(lsb), Pow2(lsb), Pow2(width), Pow2(width + lsb));
  }

  /** A field at bit 0 is a remainder. */
  lemma FieldAtZero(x: int, width: nat)
    ensures Field(x, width, 0) == x % Pow2(width)
  {
  }

  /** The field is what remains of the low width + lsb bits after dropping the low lsb bits. */
  lemma FieldOfLow(x: int, width: nat, lsb: nat)
    ensures (x % Pow2(width + lsb)) / Pow2(lsb) == Field(x, width, lsb)
  {
    Pow2Add(lsb, width);
    ModDivSplit(x, Pow2(lsb), Pow2(width));
  }

  /** The low i bits of x (i < n) survive reduction modulo 2^n. */
  lemma BitOfMod(x: int, n: nat, i: nat)
    requires i < n
    ensures Bit(x % Pow2(n), i) == Bit(x, i)
  {
    Pow2Add(i, n - i);
    ModDivSplit(x, Pow2(i), Pow2(n - i));
    assert Pow2(n - i) == 2 * Pow2(n - i - 1);
    ModDivSplit(x / Pow2(i), 2, Pow2(n - i - 1));
  }

  /** Bit i of x / 2^n is bit n + i of x. */
  lemma BitOfDiv(x: int, n: nat, i: nat)
    ensures Bit(x / Pow2(n), i) == Bit(x, n + i)
  {
    Pow2Add(n, i);
    DivModSplit(x, Pow2(n), Pow2(i));
  }

  /**
   * A word that agrees with x below lsb and from width + lsb up, and holds
   * the low width bits of f in between, has, bit by bit, x's bits outside
   * the field and f's bits inside it.
   */
  lemma SplicedBits(y: int, x: int, width: nat, lsb: nat, f: int, i: nat)
    requires y % Pow2(lsb) == x % Pow2(lsb)
    requires y / Pow2(width + lsb) == x / Pow2(width + lsb)
    requires Field(y, width, lsb) == f % Pow2(width)
    ensures Bit(y, i) == if lsb <= i < width + lsb then Bit(f, i - lsb) else Bit(x, i)
  {
    if i < lsb {
      BitOfMod(y, lsb, i);
      BitOfMod(x, lsb, i);
    } else if i < width + lsb {
      BitOfDiv(y, lsb, i - lsb);
      BitOfMod(y / Pow2(lsb), width, i - lsb);
      BitOfMod(f, width, i - lsb);
    } else {
      BitOfDiv(y, width + lsb, i - (width + lsb));
      BitOfDiv(x, width + lsb, i - (width + lsb));
    }
  }
}
