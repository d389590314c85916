# Bitpack: a verified model of a 64-bit bit-field codec

The codec reads and writes fixed-width integer fields inside one 64-bit
word. A field is described by its `width` and its least-significant bit
`lsb`, and covers bits `lsb .. lsb + width - 1`. The codec has six
functions:

- `fitsu` and `fitss` decide whether an unsigned or signed value fits in
  `width` bits;
- `getu` and `gets` extract a field, unsigned or sign-extended;
- `newu` and `news` return the word with one field replaced. They return
  `None` when the value does not fit.

The codec works only with shifts, `!` and `|` on Rust's `u64` and `i64`.
This model writes those operators out over unbounded integers, in module
`Machine`:

- `<<` drops every bit pushed past bit 63;
- `>>` is logical on `u64` and arithmetic (rounding down) on `i64`;
- `|` is a bit-by-bit recursive `Or`;
- `try_into().unwrap()` is a function whose precondition is that the value
  is in range.

Each codec function keeps the codec's own shift expressions and branches,
in module `Bitpack`. Its postcondition proves what the expression means in
terms of the plain arithmetic definitions of module `FieldSpec`:

- `Field(x, w, lsb) = (x / 2^lsb) mod 2^w`;
- `SignExtend`;
- `Splice`, which replaces a field;
- `Bit`;
- the unsigned and signed `w`-bit ranges.

Every `panic!` becomes a precondition. So does every shift by 64 or
unsigned underflow, because Rust's debug build panics on them. A value
that does not fit is the recoverable `None`.

The modules are:

- `Pow2Arith`: powers of two, and Euclidean division and remainder by them;
- `Machine`: the `u64`/`i64` operators;
- `FieldSpec`: the reference meaning of a field;
- `ShiftFacts`: each shift idiom of the codec proved equal to its meaning;
- `Bitpack`: the six functions;
- `BitpackProperties`: the properties that relate several calls, and the
  cases of the unit tests.

## Model

| member | source | states |
|---|---|---|
| Bitpack.Fitss | src/bitpack.rs:9-18 | `fitss(n, width)` is true exactly when width ≥ 1 and -2^(width-1) ≤ n < 2^(width-1); width 0 admits nothing; width > 64 (underflow of `64 - width`) is excluded |
| Bitpack.Fitsu | src/bitpack.rs:25-33 | `fitsu(n, width)` is true exactly when width ≥ 1 and n < 2^width |
| Bitpack.Gets | src/bitpack.rs:42-54 | for a well-formed descriptor with width ≥ 1 (and word < 2^63 at width 64, where the conversion to i64 would panic), the result is the field (word / 2^lsb) mod 2^width sign-extended from bit width-1, and it lies in the signed width-bit range |
| Bitpack.Getu | src/bitpack.rs:63-73 | for a well-formed descriptor with width ≥ 1, the result is (word / 2^lsb) mod 2^width, hence below 2^width |
| Bitpack.Newu | src/bitpack.rs:86-101 | `None` exactly when value is not in the unsigned width-bit range; otherwise `Some` of word with bits [lsb, lsb+width) replaced by value |
| Bitpack.News | src/bitpack.rs:114-139 | `None` exactly when value is not in the signed width-bit range; otherwise `Some` of word with bits [lsb, lsb+width) replaced by value mod 2^width (its two's-complement pattern) |
| Bitpack.WellFormed | src/bitpack.rs:44 | true exactly when the descriptor check (width above 64, or width + lsb above 64) does not panic, over unbounded integers; the same check is at lines 65, 88 and 116; when it holds, the shift amounts `64 - width - lsb`, `64 - width` and `64 - lsb` all lie in 0..64 |
| Bitpack.Right | src/bitpack.rs:95 | the `right` part, including the lsb = 0 case, is word mod 2^lsb: the bits below the field |
| Bitpack.Left | src/bitpack.rs:96 | the `left` part, including the width + lsb = 64 case, is word with every bit below width + lsb cleared |
| Bitpack.Middle | src/bitpack.rs:127-134 | the `middle` part of `news`, on both the negative and the non-negative branch, is (value mod 2^width) · 2^lsb |
| Bitpack.FieldFitsI64 | src/bitpack.rs:46-48 | the extracted field is below 2^63, so the `try_into().unwrap()` in `gets` does not panic under its precondition |
| Bitpack.NegativeMiddle | src/bitpack.rs:127-129 | for a negative value, `!(value << (64-width))` is non-negative (the conversion never panics); inverting it back gives the low width bits at the top of the word; the final shift moves them down to lsb |
| Bitpack.NegativeLowBits | src/bitpack.rs:127-129 | a negative value in the signed range has value mod 2^width = value + 2^width, with bit width-1 set |
| Bitpack.PositiveMiddle | src/bitpack.rs:132-134 | for a non-negative value that fits, `value << lsb` on i64 loses no bit and stays non-negative, so the conversion never panics |
| Bitpack.ShiftedBelowSignBit | src/bitpack.rs:133 | a value below 2^m shifted left by lsb, with m + lsb ≤ 63, stays below 2^63 |
| ShiftFacts.ShiftPairUnsigned | src/bitpack.rs:28 | `(x << (64-width-lsb)) >> (64-width)` on u64 equals Field(x, width, lsb); the same expression appears at lines 46, 69, 95 and 124 |
| ShiftFacts.ShiftPairSigned | src/bitpack.rs:50 | `(x << (64-width)) >> (64-width)` on i64 equals the sign extension of x mod 2^width; the same expression appears at line 13 |
| ShiftFacts.ShiftPairSignedPositive | src/bitpack.rs:13 | the case where bit width-1 is clear: the result is x mod 2^width |
| ShiftFacts.ShiftPairSignedNegative | src/bitpack.rs:13 | the case where bit width-1 is set: the result is x mod 2^width - 2^width |
| ShiftFacts.ShlSignedTop | src/bitpack.rs:128 | `x << (64-width)` on i64 puts the low width bits of x at the top, and is negative exactly when bit width-1 of x is set |
| ShiftFacts.ShlExact | src/bitpack.rs:98 | `value << lsb` on u64 is exact multiplication by 2^lsb when value has at most 64-lsb bits |
| ShiftFacts.ShrOfShifted | src/bitpack.rs:129 | a logical right shift by s - lsb of u · 2^s gives u · 2^lsb |
| ShiftFacts.ShrShlClearsLow | src/bitpack.rs:96 | `(x >> k) << k` on u64 clears the low k bits and keeps the rest |
| ShiftFacts.OrSplice | src/bitpack.rs:136 | or-ing `left`, `middle` and `right`, three parts with no set bit in common, gives the arithmetic splice |
| Machine.OrDisjoint | src/bitpack.rs:98 | or-ing a multiple of 2^k with a number below 2^k is addition |
| Machine.OrBound | src/bitpack.rs:98 | the or of two k-bit numbers has at most k bits, so the bitwise or stays within u64 |
| FieldSpec.SignExtendRange | src/bitpack.rs:50 | the sign extension of a width-bit pattern is in the signed width-bit range and reduces back to the pattern modulo 2^width |
| FieldSpec.SignExtendFixpoint | src/bitpack.rs:13-15 | sign-extending the low width bits of n gives n back exactly when n is in the signed width-bit range; this is the comparison `fitss` makes |
| FieldSpec.SpliceParts | src/bitpack.rs:75-77 | after a splice of a width-bit f the field holds f, and the bits below and above the field are those of the original word |
| FieldSpec.SplicedBits | src/bitpack.rs:103-107 | a word that agrees with x outside the field and holds f's low width bits in it has, bit by bit, f's bits inside and x's bits outside |
| BitpackProperties.NewuGetuRoundTrip | src/bitpack.rs:75-101 | for a value that fits, `newu` succeeds and `getu` reads the value back |
| BitpackProperties.NewsGetsRoundTrip | src/bitpack.rs:103-139 | for a value that fits, `news` succeeds and `gets` reads the value back (at width 64 for a non-negative value, see Left out) |
| BitpackProperties.FullWidthSplice | src/bitpack.rs:124-125 | at width 64 both parts are 0 and the written word is value mod 2^64 |
| BitpackProperties.NewsFullWidthNegative | src/bitpack.rs:48 | `news(word, 64, 0, v)` for a negative v returns v + 2^64, which has bit 63 set, so `gets(_, 64, 0)` of it panics |
| BitpackProperties.NewuKeepsOtherBits | src/bitpack.rs:75-79 | every bit in [lsb, lsb+width) of `newu`'s result is the matching bit of value, and every other bit below 64 is the bit of word |
| BitpackProperties.NewsKeepsOtherBits | src/bitpack.rs:103-107 | the same for `news`, with the two's-complement bits of value in the field |
| BitpackProperties.NewsAgreesWithNewu | src/bitpack.rs:132-134 | for a non-negative value in the signed range, `news` and `newu` write the same word |
| BitpackProperties.FitsuBoundary | src/bitpack.rs:25-33 | 2^width - 1 fits in width unsigned bits and 2^width does not |
| BitpackProperties.FitssBoundary | src/bitpack.rs:9-18 | -2^(width-1) and 2^(width-1) - 1 fit in width signed bits, and one less or one more does not |
| BitpackProperties.ZeroWidthFitsNothing | src/bitpack.rs:11 | no value fits zero bits, not even 0 |
| BitpackProperties.FitsExamples | src/bitpack.rs:153-165 | `fitsu(17,0)` is false, `fitsu(23,5)` true, `fitsu(23,4)` false, `fitss(23,6)` true and `fitss(23,5)` false |
| BitpackProperties.GetExamples | src/bitpack.rs:167-176 | `getu(23,3,2)=5`, `getu(23,3,3)=2`, `gets(23,3,2)=-3` and `gets(23,3,3)=2` |
| BitpackProperties.NewuExamples | src/bitpack.rs:178-181 | `newu(23,3,3,7)=63` and `newu(23,3,3,6)=55` |
| BitpackProperties.NewsExamples | src/bitpack.rs:183-186 | `news(23,3,3,0)=7` and `news(23,3,2,3)=15` |
| BitpackProperties.NewsNegativeExample | src/bitpack.rs:188-190 | `news(23,4,2,-3)=55`, by the invert-shift-invert path |

## Left out

- Gets: width 0 is a precondition. The code shifts by 64 there (src/bitpack.rs:46, 50), which panics in a debug build and masks the shift amount in a release build. The model does not invent a result for it.
- Getu: width 0 is a precondition, for the same reason (src/bitpack.rs:69).
- Gets: at width 64 a word of 2^63 or more is a precondition, because the `try_into().unwrap()` at src/bitpack.rs:48 panics on it.
- NewsGetsRoundTrip: at width 64 the round trip is stated only for a non-negative value. For a negative value `news` writes a word with bit 63 set, and `gets` then panics. NewsFullWidthNegative shows this.
- Fitss: width > 64 is a precondition, because `64 - width` underflows (src/bitpack.rs:13).
- Fitsu: width > 64 is a precondition, for the same reason (src/bitpack.rs:28).
- The descriptor check `width > 64 || width + lsb > 64` is the precondition `WellFormed`, with `width + lsb` taken over unbounded integers. An `lsb` near 2^64 makes the `u64` sum overflow. That panics in a debug build and can wrap past the check in a release build. Neither outcome is modelled.
- Release-build behaviour is not modelled: wrapping arithmetic and masked shift amounts. Every overflow is a precondition.
- The test `it_works` (src/bitpack.rs:148-151) is not modelled. It does not call the codec.
