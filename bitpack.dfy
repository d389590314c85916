/**
 * The bit-field codec: fit predicates, field extraction and field
 * insertion on one 64-bit word.
 *
 * Each function follows the shift expressions of the codec and is proved,
 * in its postcondition, to mean what the arithmetic field definitions of
 * FieldSpec say. A malformed field descriptor or any other panic is a
 * precondition; a value that does not fit is the recoverable None.
 */
module Bitpack {
  import opened Pow2Arith
  import opened Machine
  import opened FieldSpec
  import opened ShiftFacts

  datatype Option<T> = None | Some(value: T)

  /** The descriptor check every extractor and inserter makes first; it panics when false. */
  predicate WellFormed(width: U64, lsb: U64): (r: bool)
    ensures r <==> !(width > 64 || width + lsb > 64)
    ensures r ==> 0 <= 64 - width - lsb <= 64 - width <= 64 && 64 - lsb <= 64
  {
    width <= 64 && width + lsb <= 64
  }

  /** fitss: does the signed n fit in width two's-complement bits? (`64 - width` underflows for width > 64.) */
  function Fitss(n: I64, width: U64): (r: bool)
    requires width <= 64
    ensures r <==> InSignedRange(n, width)
  {
    if width == 0 then false
    else
      ShiftPairSigned(n, width);
      SignExtendFixpoint(n, width);
      Sar(ShlSigned(n, 64 - width), 64 - width) == n
  }

  /** fitsu: does the unsigned n fit in width bits? */
  function Fitsu(n: U64, width: U64): (r: bool)
    requires width <= 64
    ensures r <==> InUnsignedRange(n, width)
  {
    if width == 0 then false
    else
      ShiftPairUnsigned(n, width, 0);
      ModSelf(n, Pow2(width));
      Shr(Shl(n, 64 - width), 64 - width) == n
  }

  /**
   * gets: the field read as a signed width-bit number. Width 0 would shift
   * by 64, and at width 64 a word of 2^63 or more fails the conversion to
   * i64; both panic.
   */
  function Gets(word: U64, width: U64, lsb: U64): (r: I64)
    requires WellFormed(width, lsb)
    requires 1 <= width
    requires width < 64 || word < TWO63
    ensures r == SignExtend(Field(word, width, lsb), width)
    ensures InSignedRange(r, width)
  {
    ShiftPairUnsigned(word, width, lsb);
    FieldFitsI64(word, width, lsb);
    var extracted := Shr(Shl(word, 64 - width - lsb), 64 - width);
    var signed := U64ToI64(extracted);
    ShiftPairSigned(signed, width);
    DivModUnique(signed, Pow2(width), 0, signed);
    SignExtendRange(signed, width);
    Sar(ShlSigned(signed, 64 - width), 64 - width)
  }

  /** getu: the field read as an unsigned number. Width 0 would shift by 64 and panic. */
  function Getu(word: U64, width: U64, lsb: U64): (r: U64)
    requires WellFormed(width, lsb)
    requires 1 <= width
    ensures r == Field(word, width, lsb)
    ensures r < Pow2(width)
  {
    ShiftPairUnsigned(word, width, lsb);
    Shr(Shl(word, 64 - width - lsb), 64 - width)
  }

  /** newu: word with the field replaced by the unsigned value, or None when it does not fit. */
  function Newu(word: U64, width: U64, lsb: U64, value: U64): (r: Option<U64>)
    requires WellFormed(width, lsb)
    ensures r.None? <==> !InUnsignedRange(value, width)
    ensures r.Some? ==> r.value == Splice(word, width, lsb, value)
  {
    if !Fitsu(value, width) then None
    else
      var right := Right(word, lsb);
      var left := Left(word, width, lsb);
      ShlExact(value, lsb, width);
      OrSplice(word, width, lsb, value);
      Some(BitOr(BitOr(left, Shl(value, lsb)), right))
  }

  /**
   * news: word with the field replaced by the two's-complement pattern of
   * the signed value, or None when it does not fit.
   */
  function News(word: U64, width: U64, lsb: U64, value: I64): (r: Option<U64>)
    requires WellFormed(width, lsb)
    ensures r.None? <==> !InSignedRange(value, width)
    ensures r.Some? ==> r.value == Splice(word, width, lsb, value % Pow2(width))
  {
    if !Fitss(value, width) then None
    else
      var right := Right(word, lsb);
      var left := Left(word, width, lsb);
      var middle := Middle(width, lsb, value);
      OrSplice(word, width, lsb, value % Pow2(width));
      Some(BitOr(BitOr(left, middle), right))
  }

  /** The bits of word below the field, in place (`right` in newu and news). */
  function Right(word: U64, lsb: U64): (r: U64)
    requires lsb <= 64
    ensures r == word % Pow2(lsb)
  {
    if lsb == 0 then
      DivModUnique(word, 1, word, 0);
      0
    else
      ShiftPairUnsigned(word, lsb, 0);
      FieldAtZero(word, lsb);
      Shr(Shl(word, 64 - lsb), 64 - lsb)
  }

  /** The bits of word above the field, in place (`left` in newu and news). */
  function Left(word: U64, width: U64, lsb: U64): (r: U64)
    requires width + lsb <= 64
    ensures r == (word / Pow2(width + lsb)) * Pow2(width + lsb)
  {
    if width + lsb == 64 then
      Pow2Word();
      DivModUnique(word, TWO64, 0, word);
      0
    else
      ShrShlClearsLow(word, width + lsb);
      Shl(Shr(word, width + lsb), width + lsb)
  }

  /**
   * The signed value's low width bits moved up to lsb (`middle` in news):
   * a negative value goes through invert, shift, invert, shift; the
   * conversions to u64 are proved never to panic.
   */
  function Middle(width: U64, lsb: U64, value: I64): (r: U64)
    requires width + lsb <= 64 && InSignedRange(value, width)
    ensures r == (value % Pow2(width)) * Pow2(lsb)
  {
    if value < 0 then
      NegativeMiddle(width, lsb, value);
      var inverted := I64ToU64(NotI(ShlSigned(value, 64 - width)));
      Shr(NotU(inverted), 64 - width - lsb)
    else
      PositiveMiddle(width, lsb, value);
      I64ToU64(ShlSigned(value, lsb))
  }

  /** The field fits an i64 unless it is a full-width field whose top bit is set. */
  lemma FieldFitsI64(word: U64, width: nat, lsb: nat)
    requires 1 <= width && width + lsb <= 64
    requires width < 64 || word < TWO63
    ensures 0 <= Field(word, width, lsb) < TWO63
  {
    Pow2Word();
    if width < 64 {
      Pow2Le(width, 63);
    } else {
      assert Pow2(lsb) == 1;
      DivModUnique(word, TWO64, 0, word);
    }
  }

  /** For a negative value the invert-shift-invert-shift path yields its low width bits at lsb. */
  lemma NegativeMiddle(width: nat, lsb: nat, value: I64)
    requires width + lsb <= 64 && InSignedRange(value, width) && value < 0
    ensures 0 <= NotI(ShlSigned(value, 64 - width))
    ensures NotU(I64ToU64(NotI(ShlSigned(value, 64 - width)))) == (value % Pow2(width)) * Pow2(64 - width)
    ensures Shr((value % Pow2(width)) * Pow2(64 - width), 64 - width - lsb) == (value % Pow2(width)) * Pow2(lsb)
  {
    var u := value % Pow2(width);
    NegativeLowBits(value, width);
    ShlSignedTop(value, width);
    assert ShlSigned(value, 64 - width) == u * Pow2(64 - width) - TWO64;
    ShrOfShifted(u, 64 - width, lsb);
  }

  /** The low width bits of a negative value that fits: value + 2^width, with the sign bit set. */
  lemma NegativeLowBits(value: int, width: nat)
    requires InSignedRange(value, width) && value < 0
    ensures value % Pow2(width) == value + Pow2(width)
    ensures Pow2(width - 1) <= value % Pow2(width)
  {
    assert Pow2(width) == 2 * Pow2(width - 1);
    DivModUnique(value, Pow2(width), -1, value + Pow2(width));
  }

  /** For a non-negative value that fits, `value << lsb` on i64 loses nothing and stays non-negative. */
  lemma PositiveMiddle(width: nat, lsb: nat, value: I64)
    requires width + lsb <= 64 && InSignedRange(value, width) && 0 <= value
    ensures lsb < 64
    ensures ShlSigned(value, lsb) == value * Pow2(lsb) == (value % Pow2(width)) * Pow2(lsb)
  {
    Pow2Lt(width - 1, width);
    DivModUnique(value, Pow2(width), 0, value);
    ShiftedBelowSignBit(value, width - 1, lsb);
    var p := value * Pow2(lsb);
    DivModUnique(p, TWO64, 0, p);
    assert ShlSigned(value, lsb) == AsSigned(p);
  }

  /** A value below 2^m moved up by lsb places, m + lsb <= 63, stays below bit 63. */
  lemma ShiftedBelowSignBit(value: int, m: nat, lsb: nat)
    requires 0 <= value < Pow2(m) && m + lsb <= 63
    ensures 0 <= value * Pow2(lsb) < TWO63
  {
    Pow2Add(m, lsb);
    ScaledBelow(value, Pow2(m), Pow2(lsb));
    Pow2Le(m + lsb, 63);
    Pow2Word();
  }
}
