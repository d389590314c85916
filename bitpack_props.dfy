/**
 * What the codec promises across calls: a field written by newu or news
 * reads back unchanged through getu or gets, the rest of the word is
 * untouched bit for bit, the fit predicates have the right boundaries,
 * and the concrete cases of the unit tests.
 */
module BitpackProperties {
  import opened Pow2Arith
  import opened Machine
  import opened FieldSpec
  import opened Bitpack

  /** getu reads back exactly the value newu wrote. */
  lemma NewuGetuRoundTrip(word: U64, width: U64, lsb: U64, value: U64)
    requires WellFormed(width, lsb) && InUnsignedRange(value, width)
    ensures Newu(word, width, lsb, value).Some?
    ensures Getu(Newu(word, width, lsb, value).value, width, lsb) == value
  {
    SpliceParts(word, width, lsb, value);
  }

  /**
   * gets reads back exactly the value news wrote. At width 64 only for a
   * non-negative value: a negative one leaves bit 63 set, and gets then
   * panics (NewsFullWidthNegative).
   */
  lemma NewsGetsRoundTrip(word: U64, width: U64, lsb: U64, value: I64)
    requires WellFormed(width, lsb) && InSignedRange(value, width)
    requires width < 64 || 0 <= value
    ensures News(word, width, lsb, value).Some?
    ensures width < 64 || News(word, width, lsb, value).value < TWO63
    ensures Gets(News(word, width, lsb, value).value, width, lsb) == value
  {
    var f := value % Pow2(width);
    SpliceParts(word, width, lsb, f);
    SignExtendFixpoint(value, width);
    if width == 64 {
      FullWidthSplice(word, value);
    }
  }

  /** At width 64 the written word is the value's own bit pattern. */
  lemma FullWidthSplice(word: U64, value: int)
    requires -TWO63 <= value < TWO64
    ensures Splice(word, 64, 0, value % Pow2(64)) == value % TWO64
    ensures 0 <= value ==> value % TWO64 == value
    ensures value < 0 ==> value % TWO64 == value + TWO64
  {
    Pow2Word();
    DivModUnique(word, TWO64, 0, word);
    if 0 <= value {
      DivModUnique(value, TWO64, 0, value);
    } else {
      DivModUnique(value, TWO64, -1, value + TWO64);
    }
  }

  /**
   * news at full width with a negative value succeeds, but its result has
   * bit 63 set, which gets(_, 64, 0) does not accept.
   */
  lemma NewsFullWidthNegative(word: U64, value: I64)
    requires value < 0
    ensures News(word, 64, 0, value) == Some(value + TWO64)
    ensures TWO63 <= value + TWO64
  {
    Pow2Word();
    assert Pow2(63) == TWO63;
    FullWidthSplice(word, value);
  }

  /** newu writes value's bits into the field and keeps every other bit of word. */
  lemma NewuKeepsOtherBits(word: U64, width: U64, lsb: U64, value: U64)
    requires WellFormed(width, lsb) && InUnsignedRange(value, width)
    ensures Newu(word, width, lsb, value).Some?
    ensures forall i: nat :: i < 64 ==>
      Bit(Newu(word, width, lsb, value).value, i) ==
        if lsb <= i < width + lsb then Bit(value, i - lsb) else Bit(word, i)
  {
    var r := Newu(word, width, lsb, value).value;
    SpliceParts(word, width, lsb, value);
    DivModUnique(value, Pow2(width), 0, value);
    forall i: nat | i < 64
      ensures Bit(r, i) == if lsb <= i < width + lsb then Bit(value, i - lsb) else Bit(word, i)
    {
      SplicedBits(r, word, width, lsb, value, i);
    }
  }

  /**
   * news writes the low width bits of value's two's-complement expansion
   * into the field and keeps every other bit of word.
   */
  lemma NewsKeepsOtherBits(word: U64, width: U64, lsb: U64, value: I64)
    requires WellFormed(width, lsb) && InSignedRange(value, width)
    ensures News(word, width, lsb, value).Some?
    ensures forall i: nat :: i < 64 ==>
      Bit(News(word, width, lsb, value).value, i) ==
        if lsb <= i < width + lsb then Bit(value, i - lsb) else Bit(word, i)
  {
    var r := News(word, width, lsb, value).value;
    SpliceParts(word, width, lsb, value % Pow2(width));
    forall i: nat | i < 64
      ensures Bit(r, i) == if lsb <= i < width + lsb then Bit(value, i - lsb) else Bit(word, i)
    {
      SplicedBits(r, word, width, lsb, value, i);
    }
  }

  /** For a non-negative value that fits the signed field, news and newu write the same word. */
  lemma NewsAgreesWithNewu(word: U64, width: U64, lsb: U64, value: I64)
    requires WellFormed(width, lsb) && InSignedRange(value, width) && 0 <= value
    ensures News(word, width, lsb, value) == Newu(word, width, lsb, value)
  {
    Pow2Lt(width - 1, width);
    DivModUnique(value, Pow2(width), 0, value);
  }

  /**
   * fitsu's boundary: 2^width - 1 fits in width bits and 2^width does not;
   * at width 64 the largest u64 fits.
   */
  lemma FitsuBoundary(width: U64)
    requires 1 <= width <= 63
    ensures Pow2(width) < TWO64
    ensures Fitsu(Pow2(width) - 1, width)
    ensures !Fitsu(Pow2(width), width)
    ensures Fitsu(TWO64 - 1, 64)
  {
    Pow2Word();
    Pow2Lt(width, 64);
  }

  /**
   * fitss's boundaries: -2^(width-1) and 2^(width-1) - 1 fit in width bits,
   * one less and one more do not (where they are i64 values at all).
   */
  lemma FitssBoundary(width: U64)
    requires 1 <= width <= 64
    ensures Pow2(width - 1) <= TWO63
    ensures Fitss(Pow2(width - 1) - 1, width)
    ensures Fitss(-Pow2(width - 1), width)
    ensures width < 64 ==> !Fitss(Pow2(width - 1), width) && !Fitss(-Pow2(width - 1) - 1, width)
  {
    Pow2Word();
    Pow2Le(width - 1, 63);
    if width < 64 {
      Pow2Lt(width - 1, 63);
    }
  }

  /** Nothing fits in zero bits, not even 0. */
  lemma ZeroWidthFitsNothing(u: U64, s: I64)
    ensures !Fitsu(u, 0) && !Fitss(s, 0)
  {
  }

  /** The fit cases of the unit tests. */
  lemma FitsExamples()
    ensures !Fitsu(17, 0)
    ensures Fitsu(23, 5) && !Fitsu(23, 4)
    ensures Fitss(23, 6) && !Fitss(23, 5)
  {
  }

  /** The extraction cases of the unit tests. */
  lemma GetExamples()
    ensures Getu(23, 3, 2) == 5 && Getu(23, 3, 3) == 2
    ensures Gets(23, 3, 2) == -3 && Gets(23, 3, 3) == 2
  {
    assert Pow2(2) == 4 && Pow2(3) == 8;
    assert Field(23, 3, 2) == 5 && Field(23, 3, 3) == 2;
    assert SignExtend(5, 3) == -3 && SignExtend(2, 3) == 2;
  }

  /** The unsigned insertion cases of the unit tests. */
  lemma NewuExamples()
    ensures Newu(23, 3, 3, 7) == Some(63) && Newu(23, 3, 3, 6) == Some(55)
  {
    assert Pow2(3) == 8 && Pow2(6) == 64;
    assert Splice(23, 3, 3, 7) == 63 && Splice(23, 3, 3, 6) == 55;
  }

  /** The non-negative signed insertion cases of the unit tests. */
  lemma NewsExamples()
    ensures News(23, 3, 3, 0) == Some(7) && News(23, 3, 2, 3) == Some(15)
  {
    assert Pow2(2) == 4 && Pow2(3) == 8 && Pow2(5) == 32 && Pow2(6) == 64;
    assert Splice(23, 3, 3, 0) == 7 && Splice(23, 3, 2, 3) == 15;
  }

  /** The negative signed insertion case of the unit tests. */
  lemma NewsNegativeExample()
    ensures News(23, 4, 2, -3) == Some(55)
  {
    assert Pow2(2) == 4 && Pow2(4) == 16 && Pow2(6) == 64;
    assert (-3) % 16 == 13;
    assert Splice(23, 4, 2, 13) == 55;
  }
}
