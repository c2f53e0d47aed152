# as-bignumber: a Dafny model of `BigNumber`

`BigNumber` is an arbitrary-precision decimal for AssemblyScript, ported from Java's
`BigDecimal`. A number is an integer mantissa `m` and an i32 scale `e`, with the value
`m · 10^-e`. This project models the class in `assembly/BigNumber.ts`:

- reading a decimal string (`fromString`, with its exponent parser `parseExp` and
  `adjustScale`);
- printing it (`toString`, `toFixed`, `toSignificant`);
- comparison (`compareTo`, `magCompareTo`, `eq` … `gte`);
- arithmetic (`add`, `sub`, `mul`, `div`, `fromFraction`);
- scale changes (`setScale`, `floor`, `ceil`, `toBigInt`);
- the rounding machinery under all of them: `divideAndRound`, `needIncrement`,
  `commonNeedIncrement`, `doRound`, `roundToPlaces`, `trimZeros`, `intLength`;
- the tables of powers of ten (`tenToThe`, `expandBigIntTenPowers`, `mulPowTen`).

The model is pure. A BigNumber is the datatype `BigNumber(m: int, e: int)`, valid when `e`
fits an i32. Every `throw` of the source is an `Err` of the `Results.Result` type, carrying
an error code rather than the message text. Integer widths are explicit:

- `Int32.OverflowGuard` narrows an i64 to i32 the way `overflowGuard` does.
- `Int32.Wrap32` is the wrap-around of the source's unguarded i32 sums and differences: the
  scale difference in `div` and in its magnitude comparison, the scale gap in
  `roundToPlaces`, and the lengths `toString` and `toFixed` pad or cut to.
- The `BigInt` mantissa is an unbounded `int`.
- `divMod` is the truncating pair `Powers.TDiv` / `Powers.TRem`.
- `BigInt.toString` / `BigInt.fromString` are `DigitStrings.NatToString` /
  `DigitStrings.DigitsValue`.

The exact value of a BigNumber is the ghost real `BigNumbers.Value`. The properties are
stated against three things:

- this value;
- a reference definition of correct rounding: `RoundingEngine.Rounded` for integer
  quotients, and `Scaling.RoundedAt` / `Division.QuotientRounded` for BigNumbers;
- the parser, for everything the printer produces (`RoundTrip`).

Modules follow the source's sections: `Int32`, `Powers`, `TenTable`, `DigitStrings`,
`RoundingEngine`, `BigNumbers`, `Scaling` (doRound, roundToPlaces, trimZeros), `Parser`,
`Formatter`, `Comparison`, `Arithmetic`, `Division`, `ScaleAdjust`, `RoundTrip`, and
`Examples` (cases from the library's test suite, and the inputs behind the findings below).

## Model

| member | source | states |
|---|---|---|
| Int32.OverflowGuard | assembly/BigNumber.ts:771-780 | Fails with integer overflow exactly when k does not fit an i32 and the value is not zero. A k that fits comes back unchanged; any success is an i32. |
| Int32.OverflowGuardNearest | assembly/BigNumber.ts:777 | A zero's out-of-range scale is clamped to the i32 nearest to k. |
| Int32.Wrap32 | assembly/BigNumber.ts:387-393 | `this.e - other.e` in `div` (like the sums at lines 208, 220, 247-254, 847 and 919) is unguarded i32 arithmetic. The result is the i32 congruent to the exact difference modulo 2^32, and equals it whenever that fits. |
| Int32.AdjustScale | assembly/BigNumber.ts:763-769 | Succeeds exactly when scale - exp fits an i32, and then result + exp == scale. Otherwise it fails with "scale out of range". |
| TenTable.TenPowersTable | assembly/BigNumber.ts:34-45 | Entry i of TEN_POWERS is 10^i. |
| TenTable.ExpandBigIntTenPowers | assembly/BigNumber.ts:830-841 | The table stays a list of consecutive powers of ten and keeps its old entries. Its length at least doubles, stops at the first doubling past n, and 10^n is returned. |
| TenTable.TenToThe | assembly/BigNumber.ts:808-820 | Returns 0 for k < 0 and 10^k otherwise; the cache only grows, as a prefix of the powers. From BI_TEN_POWERS_MAX up, it reads slot MAX - 1, which exists only when the table was already expanded that far; otherwise it fails (index out of range). |
| TenTable.MulPowTen | assembly/BigNumber.ts:782-790 | val for k <= 0, and val · 10^k otherwise, by either path. |
| RoundingEngine.CommonNeedIncrement | assembly/BigNumber.ts:947-977 | NONE fails with "rounding necessary". UP always steps, DOWN never, CEIL when the quotient is positive, FLOOR when negative. HALF modes step when the remainder is above half; at exactly half, HALF_UP steps and HALF_EVEN steps on an odd quotient. |
| RoundingEngine.NeedIncrement | assembly/BigNumber.ts:932-942 | HALF modes step when 2·rem > divisor, or when 2·rem is the divisor or the divisor less one with the mode's tie rule allowing it (`div2` floors). The other modes behave as in `commonNeedIncrement`. |
| RoundingEngine.DivideAndRound | assembly/BigNumber.ts:860-884 | An exact division returns the quotient. It fails only for NONE with a nonzero remainder. Otherwise it returns the truncated quotient or that plus one step away from zero. |
| RoundingEngine.DivideAndRoundByPowTen | assembly/BigNumber.ts:795-800 | The small-table path and the big-power path divide by the same 10^k. |
| RoundingEngine.DivideAndRoundIsRounded | assembly/BigNumber.ts:860-884 | The result is n / d correctly rounded in the mode under two conditions. First, the truncated quotient carries the true sign: a zero dividend, operands of one sign, or a dividend at least as large as the divisor. Second, in a HALF mode, the remainder is not (d - 1) / 2 of an odd divisor. |
| RoundingEngine.DivideAndRoundNonNegative | assembly/BigNumber.ts:860-870 | For d > 0 and n >= 0 (odd-divisor near-ties aside) the result is correctly rounded. |
| RoundingEngine.DivideAndRoundNegative | assembly/BigNumber.ts:860-870 | The same for n <= -d, where the truncated quotient is negative. |
| RoundingEngine.DivideAndRoundNegativeDivisor | assembly/BigNumber.ts:860-870 | The same for a negative divisor. |
| RoundingEngine.DivideAndRoundNegateBoth | assembly/BigNumber.ts:861-867 | Negating dividend and divisor leaves the result unchanged and negates the remainder. |
| RoundingEngine.ZeroQuotientSteppedUp | assembly/BigNumber.ts:866-867 | For -d < n < 0 the zero quotient counts as positive. So a step goes to +1: UP gives 1 and FLOOR gives 0. |
| RoundingEngine.ZeroQuotientExample | assembly/BigNumber.ts:866-867 | -5 / 100 rounded UP gives 1. The correctly rounded result is -1. |
| RoundingEngine.OddDivisorTieExample | assembly/BigNumber.ts:939 | 1 / 3 rounded HALF_UP gives 1, not 0: remainder 1 equals `div2(3)` and is taken for a tie. |
| BigNumbers.IntLength | assembly/BigNumber.ts:988-995 | The number of decimal digits of \|b\|: 10^(r-1) <= \|b\| < 10^r, and 1 for zero. |
| BigNumbers.Precision | assembly/BigNumber.ts:23-28 | The digit count of the mantissa, with the same bounds. |
| BigNumbers.Copy | assembly/BigNumber.ts:180-182 | Same scale, same value. |
| BigNumbers.Opposite | assembly/BigNumber.ts:185-187 | Same scale, value negated; negative exactly when the input was positive. |
| BigNumbers.Abs | assembly/BigNumber.ts:190-192 | Same scale, never negative, value \|x\|. |
| BigNumbers.SignOfValue | assembly/BigNumber.ts:624-630 | `isNegative` iff the value is below zero; `isZero` iff it is zero. |
| BigNumbers.ValueRescale | assembly/BigNumber.ts:782-790 | Multiplying the mantissa by 10^k and raising the scale by k keeps the value. |
| Powers.TDiv | assembly/BigNumber.ts:861-862 | `divMod`'s quotient truncates: \|q\|·\|d\| <= \|n\| < (\|q\|+1)·\|d\|, and a nonzero q is negative iff the operand signs differ. |
| Powers.TRem | assembly/BigNumber.ts:861-863 | n == d·q + r with \|r\| < \|d\|; a nonzero r has the dividend's sign. |
| Scaling.RoundStep | assembly/BigNumber.ts:902-904 | One division of a (p+k)-digit mantissa by 10^k is correctly rounded. It leaves p digits, or p+1 only when the carry makes it exactly 10^p. A power of ten divides exactly. |
| Scaling.RoundPass | assembly/BigNumber.ts:900-905 | One pass of the loop lowers the scale by the excess digits and rounds correctly. It fails only on scale overflow or NONE, and succeeds whenever the new scale fits. |
| Scaling.RoundDigits | assembly/BigNumber.ts:900-908 | The whole loop gives exactly `precision` digits, correctly rounded from the input. The scale drops by the excess, or by one more after a carry. It fails only on overflow or NONE. |
| Scaling.RoundThenExact | assembly/BigNumber.ts:900-906 | A correct rounding followed by an exact division by 10^j is still a correct rounding, which is why the carry pass keeps the result right. |
| Scaling.DoRound | assembly/BigNumber.ts:891-909 | A value with precision <= 0 or few enough digits comes back unchanged. Otherwise the result has exactly `precision` digits, is x correctly rounded at a scale lower by the excess (or one more), and fails only on overflow or NONE. |
| Scaling.RoundToPlaces | assembly/BigNumber.ts:911-927 | A value already at or below `digits` places, zero, or one whose gap `x.e - digits` exceeds the i32 range (the wrapped gap at line 919 is negative, so no digit is dropped) is unchanged. Otherwise (`x.e - digits <= I32_MAX`) the result is at scale `digits`; it fails (NONE only) exactly when the dropped digits are not all zero. |
| Scaling.PlacesRounded | assembly/BigNumber.ts:920-924 | The result of that division is x correctly rounded to `digits` places whenever the truncated quotient has x's sign. |
| Scaling.TrimLoop | assembly/BigNumber.ts:1012-1026 | Stops at the preferred scale or at a mantissa that does not end in zero. |
| Scaling.TrimZeros | assembly/BigNumber.ts:1008-1027 | At or below the preferred scale, or for a mantissa with one digit (zero included), it changes nothing. Otherwise the scale stays at or above the preferred one, and it stops there or at a mantissa not divisible by ten. |
| Scaling.TrimZerosValue | assembly/BigNumber.ts:1008-1027 | The value is unchanged. |
| Scaling.TrimZerosNonzero | assembly/BigNumber.ts:1008-1027 | The mantissa is zero after trimming iff it was before. |
| Scaling.TrimmedDigits | assembly/BigNumber.ts:1008-1027 | Trimming never adds digits. |
| Arithmetic.Add | assembly/BigNumber.ts:347-361 | Fails exactly when the scale gap overflows an i32 and the operand being rescaled is nonzero. The result is at the larger scale. |
| Arithmetic.RescaledValue | assembly/BigNumber.ts:351-358 | The operand raised to the common scale keeps its value. |
| Arithmetic.AddExact | assembly/BigNumber.ts:347-361 | The sum is exact: Value(a + b) == Value(a) + Value(b). |
| Arithmetic.AddCommutative | assembly/BigNumber.ts:347-361 | a + b == b + a, outcome for outcome. |
| Arithmetic.Sub | assembly/BigNumber.ts:364-366 | a - b is a + (-b). |
| Arithmetic.SubExact | assembly/BigNumber.ts:364-366 | The difference is exact. |
| Arithmetic.Mul | assembly/BigNumber.ts:369-376 | Fails on a scale sum outside i32 for a nonzero left operand. Otherwise it is doRound of the exact mantissa product, with at most `precision` digits. |
| Arithmetic.ProductValue | assembly/BigNumber.ts:372-374 | The unrounded product has value Value(a)·Value(b). |
| Arithmetic.MulRounded | assembly/BigNumber.ts:369-376 | The result is the exact product correctly rounded. |
| Arithmetic.MulPinned | assembly/BigNumber.ts:369-376 | When the exact product has more than `precision` digits, the result has exactly `precision` digits and is the product rounded at the scale that keeps `precision` digits (`RoundedAtScale`). |
| Division.CompareMagnitudeNormalized | assembly/BigNumber.ts:846-853 | Compares \|left\|·10^rightE with \|right\|·10^leftE. |
| Division.PlanDiv | assembly/BigNumber.ts:389-407 | The rescaled operands stand for a·10^k and b (k the scale above eDiff). The divisor fits between left / 10^precision and left / 10^(precision-1), so the quotient has precision or precision+1 digits. |
| Division.Div | assembly/BigNumber.ts:382-412 | Divide by zero exactly when b is zero. A zero dividend gives zero at the wrapped scale difference. Results have at most `precision` digits; the other errors are overflow and NONE. |
| Division.DivRounded | assembly/BigNumber.ts:382-412 | For nonzero operands, the result's mantissa is a / b correctly rounded at its scale (QuotientRounded). That scale is pinned (RoundedToDigits): written out with the digits it lacks, r is the quotient rounded to exactly `precision` digits, or one scale further when rounding carried to 10^precision. |
| Division.FromFraction | assembly/BigNumber.ts:68-72 | Divide by zero exactly when d is zero; 0 / d is 0; at most `precision` digits. |
| Division.FromFractionRounded | assembly/BigNumber.ts:68-72 | n / d is correctly rounded to its scale, and that scale keeps exactly `precision` digits before trailing zeros are dropped. |
| Comparison.MagCompareTo | assembly/BigNumber.ts:318-342 | At equal scales it compares the mantissas. Otherwise a shorter integer part is smaller and a longer one larger. |
| Comparison.MagCompareToCorrect | assembly/BigNumber.ts:318-342 | For nonzero mantissas the result is the order of \|x\| and \|y\| at their common scale. |
| Comparison.CompareTo | assembly/BigNumber.ts:305-316 | Opposite signs are ordered by sign. Two negatives compare by reversed magnitude and two non-negatives by magnitude. |
| Comparison.CompareToCorrect | assembly/BigNumber.ts:305-342 | On every pair it orders, the result is the sign of x - y computed exactly. |
| Comparison.CompareToValue | assembly/BigNumber.ts:305-342 | 0, < 0 and > 0 each hold iff the values are equal, less, greater. |
| Comparison.CompareToAntisymmetric | assembly/BigNumber.ts:305-342 | compareTo(x, y) == -compareTo(y, x). |
| Comparison.CompareToTransitive | assembly/BigNumber.ts:305-342 | x < y and y < z give x < z. |
| Comparison.CompareToRange | assembly/BigNumber.ts:305-342 | The result is -1, 0 or 1. |
| Comparison.Eq | assembly/BigNumber.ts:276-278 | On every pair the source orders (`Comparison.Ordered`), true exactly when the values are equal. |
| Comparison.Ne | assembly/BigNumber.ts:281-283 | On every pair the source orders (`Comparison.Ordered`), true exactly when the values are different. |
| Comparison.Lt | assembly/BigNumber.ts:286-288 | On every pair the source orders (`Comparison.Ordered`), true exactly when by value x is smaller. |
| Comparison.Lte | assembly/BigNumber.ts:291-293 | On every pair the source orders (`Comparison.Ordered`), true exactly when by value x is no larger. |
| Comparison.Gt | assembly/BigNumber.ts:296-298 | On every pair the source orders (`Comparison.Ordered`), true exactly when by value x is larger. |
| Comparison.Gte | assembly/BigNumber.ts:301-303 | On every pair the source orders (`Comparison.Ordered`), true exactly when by value x is no smaller. |
| Comparison.ZeroMisordered | assembly/BigNumber.ts:318-342 | 0 compares above 0.5, and 0 at scale 0 is not `eq` to 0 at scale 1: a zero mantissa still counts as one digit. |
| ScaleAdjust.SetScale | assembly/BigNumber.ts:644-662 | The same scale gives a copy, and a zero is relabelled. Raising the scale fails only when the gap overflows; lowering it fails on overflow or an inexact NONE. Any success is at the requested scale. |
| ScaleAdjust.SetScaleExact | assembly/BigNumber.ts:651-655 | Raising the scale keeps the value. |
| ScaleAdjust.SetScaleRounded | assembly/BigNumber.ts:656-661 | Lowering the scale rounds correctly when the truncated quotient has x's sign. |
| ScaleAdjust.IntegerDigits | assembly/BigNumber.ts:633-634 | The digits before the point, clamped at 0; it fails when they overflow an i32. |
| ScaleAdjust.FloorOf | assembly/BigNumber.ts:632-636 | Unchanged without an integer part or a fraction. Otherwise it is the mathematical floor x.m div 10^e, written as a mantissa at scale 0 or below. |
| ScaleAdjust.FloorResult | assembly/BigNumber.ts:632-636 | Rounding to the integer digits with FLOOR yields x.m div 10^e. |
| ScaleAdjust.CeilOf | assembly/BigNumber.ts:638-642 | As `floor`, giving the mathematical ceiling. |
| ScaleAdjust.CeilResult | assembly/BigNumber.ts:638-642 | Rounding to the integer digits with CEIL yields -((-x.m) div 10^e). |
| ScaleAdjust.FloorCorrected | assembly/BigNumber.ts:632-636 | The intended `floor`: an integer stays as it is; otherwise the result r at scale 0 satisfies r·10^e <= m < (r+1)·10^e. |
| ScaleAdjust.CeilCorrected | assembly/BigNumber.ts:638-642 | The intended `ceil`: (r-1)·10^e < m <= r·10^e at scale 0. |
| ScaleAdjust.FloorAgrees | assembly/BigNumber.ts:632-636 | Where x has integer digits and a fraction, `floor` has the value of the corrected floor. |
| ScaleAdjust.CeilAgrees | assembly/BigNumber.ts:638-642 | The same for `ceil`. |
| ScaleAdjust.ToBigInt | assembly/BigNumber.ts:269-271 | The mantissa of `floor`, unscaled. It is the floor itself or a tenth of it when there is an integer part and a fraction, and the raw mantissa otherwise. |
| ScaleAdjust.ToBigIntCorrected | assembly/BigNumber.ts:269-271 | The integer part truncated toward zero: exact for integers; otherwise \|r\|·10^e <= \|m\| < (\|r\|+1)·10^e with m's sign. |
| Parser.DigitStep | assembly/BigNumber.ts:108-132 | One digit: leading zeros are dropped, other digits are appended, and the scale grows after the point. p becomes at least 1. |
| Parser.ScanPrecision | assembly/BigNumber.ts:108-128 | The counter p equals the number of digits of the mantissa read. |
| Parser.Scan | assembly/BigNumber.ts:105-150 | The only errors are a second point, a bad character, and the exponent errors; the exponent read fits an i32. |
| Parser.SkipExpZeros | assembly/BigNumber.ts:727-732 | Skips only zeros, and stops at 10 characters or a nonzero digit. |
| Parser.ParseExp | assembly/BigNumber.ts:711-759 | Fails with no digits, too many digits, a non-digit or overflow. A success is an i32 and is the signed value of the digits after the mark and sign, all of which are digits. |
| Parser.ParseExpReads | assembly/BigNumber.ts:711-759 | Conversely, an exponent whose part after the sign is a nonempty run of digits reads as its signed value: it fails only with too many digits when that value reaches 10^10, and with overflow when the signed value leaves the i32 range. |
| Parser.ReadDecimal | assembly/BigNumber.ts:80-162 | A valid BigNumber and its digit count, or a parse error other than divide by zero or NONE; `Reading.ReadNumber` states which number. |
| Parser.Finish | assembly/BigNumber.ts:163-176 | Zero comes out as 0 at scale 0, and only from zero. Without rounding (precision <= 0 or few enough digits) it succeeds with x's value, trimmed. With rounding it is x correctly rounded by the mode at the scale that keeps `precision` digits, trailing zeros then dropped; it fails only on overflow or NONE. |
| Parser.FromString | assembly/BigNumber.ts:80-177 | A valid result with no trailing zeros in the mantissa and at most `precision` digits; `Reading.FromStringReads` states its value. |
| Reading.ReadNumber | assembly/BigNumber.ts:80-162 | A sign ("", "+" or "-"), digits with at most one point and at least one digit, and an optional exponent read as the signed digits at scale (fraction digits - exponent). It fails with too many exponent digits when the exponent's digits reach 10^10, with overflow when the exponent leaves i32, and with scale out of range when the scale does; nothing else. |
| Reading.FromStringReads | assembly/BigNumber.ts:80-177 | For such a text whose exponent fits: with no rounding needed the result has the denoted number's value; otherwise it is that number correctly rounded at the scale that keeps `precision` digits, and it fails only on overflow or NONE. An exponent that does not fit fails with one of the three reading errors. |
| DigitStrings.NatToStringValue | assembly/BigNumber.ts:199 | The decimal text of n reads back as n. |
| DigitStrings.CanonicalRoundTrip | assembly/BigNumber.ts:162 | Canonical digit text printed from its value is the same text. |
| Formatter.Render | assembly/BigNumber.ts:198-221 | Fails only for a nonzero mantissa at scale I32_MIN, whose trailing-zero count overflows. |
| Formatter.RenderDecimals | assembly/BigNumber.ts:210-221 | A positive scale prints a point followed by exactly e digits. |
| Formatter.ToString | assembly/BigNumber.ts:196-222 | Fails exactly when trimming reaches scale I32_MIN. |
| Formatter.ToFixed | assembly/BigNumber.ts:224-256 | NONE rounds down. A value with more scale than digits (below 0.1) prints the rounded text unpadded. Positive places pad it only with zeros and points; otherwise the text is "0" or a prefix of the rounded text. Fails exactly on overflow. |
| Formatter.ToFixedCorrected | assembly/BigNumber.ts:224-256 | The intended `toFixed`: positive places give text ending in a point and exactly `places` digits; other places give a plain integer. |
| Formatter.ToSignificant | assembly/BigNumber.ts:258-267 | "0" for digits <= 0. Otherwise it is the text of the trimmed value correctly rounded to at most `digits` significant digits. When the trimmed value has more than `digits` digits, the rounded value has exactly `digits` and is rounded at the scale that keeps `digits` digits (`RoundedAtScale`). |
| RoundTrip.DigitStepsState | assembly/BigNumber.ts:105-132 | Scanning a run of digits keeps them minus leading zeros, and counts those after the point. |
| RoundTrip.ReadInteger | assembly/BigNumber.ts:80-162 | The text of m followed by k zeros reads as m·10^k at scale 0. |
| RoundTrip.ReadFraction | assembly/BigNumber.ts:80-162 | "a.b" reads as the digits of ab at scale \|b\|. |
| RoundTrip.RenderReadInteger | assembly/BigNumber.ts:198-208 | The text printed for scale <= 0 reads back as the same integer. |
| RoundTrip.RenderReadFraction | assembly/BigNumber.ts:210-221 | The text printed for a positive scale reads back as the same mantissa and scale. |
| RoundTrip.ReadRendered | assembly/BigNumber.ts:80-222 | `fromString` of the printed text gives back the trimmed number. |
| RoundTrip.ToStringRoundTrip | assembly/BigNumber.ts:80-222 | fromString(toString(x)) is x with trailing zeros trimmed, or 0 at scale 0. |
| RoundTrip.ToStringValue | assembly/BigNumber.ts:80-222 | fromString(toString(x)) has x's value. |
| RoundTrip.ToStringStable | assembly/BigNumber.ts:80-222 | toString(fromString(toString(x))) == toString(x). |
| RoundTrip.ToFixedCorrectedReads | assembly/BigNumber.ts:224-256 | With positive places, the corrected text reads back at scale `places` with the value of x rounded to `places`. |
| RoundTrip.ToFixedCorrectedUnits | assembly/BigNumber.ts:224-256 | With places <= 0, the corrected text reads back as the rounded value counted in units of 10^-places. |
| RoundTrip.ToSignificantReads | assembly/BigNumber.ts:258-267 | The text reads back with the rounded value and at most `digits` digits. |
| Examples.OneThirdDown | assembly/__tests__/read_write.spec.ts:450-455 | fromFraction(1, 3, 5, DOWN) is 0.33333. |
| Examples.OneThirdUp | assembly/__tests__/read_write.spec.ts:457-458 | fromFraction(1, 3, 5, UP) is 0.33334. |
| Examples.OneThirdText | assembly/__tests__/read_write.spec.ts:455-458 | They print as "0.33333" and "0.33334". |
| Examples.SignRule | assembly/__tests__/read_write.spec.ts:431-447 | ±123456789 / ±1234567890 is ±0.1 with the sign rule of division, at every precision up to 1000. |
| Examples.ToFixedTieHalfUp | assembly/__tests__/read_write.spec.ts:179-181 | 1234.012345 to 5 places HALF_UP is "1234.01235". |
| Examples.ToFixedTieHalfDown | assembly/__tests__/read_write.spec.ts:203-205 | HALF_DOWN gives "1234.01234". |
| Examples.ToFixedTieHalfEven | assembly/__tests__/read_write.spec.ts:227-229 | HALF_EVEN gives "1234.01234". |
| Examples.ToFixedCorrectedTie | assembly/__tests__/read_write.spec.ts:179-181 | The corrected `toFixed` agrees on that case. |
| Examples.CompareFractions | assembly/__tests__/comparison_operators.spec.ts:52-62 | 0.9857463 > 0.87846543859709. |
| Examples.TwoPoints | assembly/BigNumber.ts:136-139 | "1.2.3" fails with a second decimal point. |
| Examples.BadCharacter | assembly/BigNumber.ts:145-147 | "12a" fails with an invalid character. |
| Examples.OnlyAPoint | assembly/BigNumber.ts:153-155 | "-." fails with no digits. |
| Examples.EmptyExponent | assembly/BigNumber.ts:724-726 | "1e+" fails with no exponent digits. |
| Examples.ExponentNotADigit | assembly/BigNumber.ts:741-745 | "1e1x" fails with "not a digit". |
| Examples.LongExponent | assembly/BigNumber.ts:728-735 | An 11-digit exponent fails with too many exponent digits. |
| Examples.OddDivisorHalfUp | assembly/BigNumber.ts:939 | fromFraction(1, 3, 1, HALF_UP) is 0.4, which is not 1/3 correctly rounded. |
| Examples.NegativeRoundsUpToPositive | assembly/BigNumber.ts:866-867 | -0.05 to 1 place UP prints "0.1". |
| Examples.DivScaleWraps | assembly/BigNumber.ts:386-387 | 0 at scale I32_MIN divided by 1 at scale 1 gives 0 at scale I32_MAX. |
| Examples.PlacesGapWraps | assembly/BigNumber.ts:911-927 | 5 at scale 10 rounded to I32_MIN places comes back unchanged, in every mode: the gap wraps negative and the loop never runs. |
| Examples.FloorCarry | assembly/BigNumber.ts:632-636 | floor(-9.5) is -1 at scale -1 (that is -10), so toBigInt gives -1. |
| Examples.FloorBelowOne | assembly/BigNumber.ts:633-635 | floor(0.5) is 0.5 and ceil(-0.5) is -0.5. |
| Examples.FloorCorrectedBelowOne | assembly/__tests__/utils.spec.ts:35-49 | The corrected versions give floor(0.5) = 0, floor(-0.5) = -1, ceil(-0.5) = 0 and ceil(0.5) = 1. |
| Examples.ToBigIntUnscaled | assembly/BigNumber.ts:269-271 | toBigInt of 0.1234 is 1234, and of 1.2e3 (12 at scale -2) is 12. |
| Examples.ToBigIntCorrectedCases | assembly/__tests__/read_write.spec.ts:482-502 | The corrected toBigInt gives 0 for ±0.1234 and ±0.9876, and -123456789 for -123456789.1234, as the tests expect. The integer 1.2e3 (12 at scale -2) giving 1200 is this model's own case. |
| Examples.ToBigIntNegativeFloor | assembly/BigNumber.ts:269-271 | As written, toBigInt of -123456789.1234 is -123456790, the floor; read_write.spec.ts line 484 expects -123456789. |
| Examples.ToFixedDropsPoint | assembly/BigNumber.ts:249-250 | 1.0001 to 2 places DOWN prints "1000". |
| Examples.ToFixedCorrectedKeepsPoint | assembly/BigNumber.ts:244-251 | The corrected version prints "1.00". |
| Examples.ToFixedShortBelowOne | assembly/BigNumber.ts:236-250 | 0.5 to 3 places prints "0.50". |
| Examples.ToFixedCorrectedBelowOne | assembly/BigNumber.ts:236-250 | The corrected version prints "0.500". |
| Examples.ToFixedUnpadded | assembly/BigNumber.ts:230-232 | 0.05 to 3 places prints "0.05". |
| Examples.ToFixedCorrectedPadsSmall | assembly/BigNumber.ts:230-232 | The corrected version prints "0.050". |
| Examples.ToFixedCarryCut | assembly/BigNumber.ts:254 | 999.5 to 0 places UP prints "100". |
| Examples.ToFixedCorrectedCarry | assembly/BigNumber.ts:254 | The corrected version prints "1000". |
| Examples.ReadIntegerExponent | assembly/__tests__/read_write.spec.ts:38 | "1234E5" reads as 1234 at scale -5. |
| Examples.ShiftedIntegerText | assembly/__tests__/read_write.spec.ts:38 | 1234 at scale -5 prints as "123400000". |
| Examples.ReadFractionExponent | assembly/__tests__/read_write.spec.ts:41 | "1234.42E-5" reads as 123442 at scale 7. |
| Examples.PaddedFractionText | assembly/__tests__/read_write.spec.ts:41 | 123442 at scale 7 prints as "0.0123442". |
| Examples.ReadBarePoint | assembly/__tests__/read_write.spec.ts:23-24 | ".1234" and "-.1234" read as ±1234 at scale 4. |
| Examples.PureFractionText | assembly/__tests__/read_write.spec.ts:23-24 | ±1234 at scale 4 print as "0.1234" and "-0.1234". |
| Examples.ReadPlusSign | assembly/__tests__/read_write.spec.ts:25 | "+1234.42" reads as 123442 at scale 2. |
| Examples.SplitFractionText | assembly/__tests__/read_write.spec.ts:25 | 123442 at scale 2 prints as "1234.42". |
| Examples.ReadPaddedZeros | assembly/__tests__/read_write.spec.ts:55 | "00.123400" reads as 1234 at scale 4: leading zeros skipped, trailing ones trimmed. |
| Examples.ThirdPinned | assembly/__tests__/read_write.spec.ts:450-455 | The pinned division contract admits 0.33333 for 1/3 to five digits rounded down, and rejects 0 and 0.3. |

## Left out

- The `as-bigint` library is not part of this model. Its integers are Dafny `int`. `divMod` is truncating division (`Powers.TDiv` / `Powers.TRem`), `div2` is floor halving, and `toString` / `fromString` are plain decimal text.
- `intLength`'s bit-count estimate (line 993) is not modelled: `BigNumbers.IntLength` is the digit count itself, which is what the estimate plus its correction at line 994 returns.
- The cached `_precision` field is not modelled. Every use recomputes the digit count, which is what the getter at lines 23-28 returns whenever the cache is unset or right.
- `mulPowTen` and `divideAndRoundByPowTen` multiply by the exact 10^k in the arithmetic. `TenTable.MulPowTen` and `RoundingEngine.DivideAndRoundByPowTen` show the table and big-power paths agree.
- The sharing and growth of the static `BI_TEN_POWERS` cache between calls are only modelled in `TenTable` (as state passed in and out). The other operations take 10^k exactly, as if the cache were large enough.
- `sqrt`, `square` and `pow` (lines 414-618) and the static operator wrappers (lines 666-704) are not modelled. Every operation takes precision and rounding as parameters; the defaults of lines 31-32 are the constants `Parser.DefaultPrecision` (155) and `Parser.DefaultRounding` (HALF_UP).
- Reading.ReadNumber: proved for every text of the shape it names; that every text `fromString` accepts has that shape (sign, digits with at most one point, exponent) is not proved.
- Error messages are modelled as error codes. Two tests expect texts the code does not produce: read_write.spec.ts line 74 expects "a value that is not a digit", while the code says "a character". The model follows the code.
- The toBigInt tests (read_write.spec.ts lines 478-502) expect the integer part. The code returns the unscaled mantissa of `floor` (see Findings); the model follows the code in `ScaleAdjust.ToBigInt`.
- Reading a string requires its length to fit an i32 (`Parser.FromString`), as an AssemblyScript string's length does.
- Division.DivRounded: proved only for a divisor with an even mantissa under the HALF modes, and for operands whose digit counts fit an i32. An odd divisor can make the HALF modes misjudge a near-tie (see Quirks), so correct rounding does not hold there.
- Division.FromFractionRounded: the same restrictions as `Division.DivRounded`.
- Comparison.CompareToCorrect: proved only for the pairs `Comparison.Ordered` admits (opposite signs, or nonzero mantissas with i32 digit counts), since zero mantissas are misordered (see Quirks).
- Formatter.ToFixedCorrected: requires x.e - places to fit an i32, and states the decimal-text shape only for places <= I32_MAX - 2. The source has no corrected version to compare against.
- RoundTrip.ToStringRoundTrip: requires the printed text and its digit count to stay below I32_MAX, so that the parser's i32 counters cannot overflow.
- ScaleAdjust.SetScaleRounded: proved only when the truncated quotient carries x's sign, since the zero-quotient step (see Quirks) otherwise rounds a negative value to +1.
- Scaling.PlacesRounded: the same restriction as `ScaleAdjust.SetScaleRounded`.

## Findings

| source | as written | input that shows it | evidently intended | confidence | as-written member | corrected member |
|---|---|---|---|---|---|---|
| assembly/BigNumber.ts:249-250 | the rounded text is padded to the length of the unrounded integer part plus places; when trimming removed the point, zeros are appended to the integer | 1.0001.toFixed(2, DOWN) | "1.00" | high; not executed | Examples.ToFixedDropsPoint | Formatter.ToFixedCorrected, Examples.ToFixedCorrectedKeepsPoint, RoundTrip.ToFixedCorrectedReads |
| assembly/BigNumber.ts:236-250 | the pad length counts the integer digits as 0 for a value below one, one short of the "0" it prints | 0.5.toFixed(3, DOWN) | "0.500" | high; not executed | Examples.ToFixedShortBelowOne | Formatter.ToFixedCorrected, Examples.ToFixedCorrectedBelowOne |
| assembly/BigNumber.ts:230-232 | a value with more scale than digits returns the rounded text unpadded | 0.05.toFixed(3, DOWN) | "0.050" | high; not executed | Examples.ToFixedUnpadded | Formatter.ToFixedCorrected, Examples.ToFixedCorrectedPadsSmall |
| assembly/BigNumber.ts:254 | the integer text is cut to the digit count before rounding, so a carry loses the last digit | 999.5.toFixed(0, UP) | "1000" | high; not executed | Examples.ToFixedCarryCut | Formatter.ToFixedCorrected, Examples.ToFixedCorrectedCarry, RoundTrip.ToFixedCorrectedUnits |
| assembly/BigNumber.ts:632-642 | a value below one has no integer digits, so rounding to precision 0 leaves it unchanged | floor(0.5) | 0, as the floor test at utils.spec.ts lines 35-49 expects | high; not executed | Examples.FloorBelowOne | ScaleAdjust.FloorCorrected, ScaleAdjust.CeilCorrected, ScaleAdjust.FloorAgrees, Examples.FloorCorrectedBelowOne |
| assembly/BigNumber.ts:269-271 | returns the mantissa of `floor` without its scale: `floor` leaves a value below one unchanged, and floors a negative value down | toBigInt of 0.1234 (1234), and of -123456789.1234 (-123456790) | 0 and -123456789, as the tests at read_write.spec.ts lines 482-502 expect | medium; not executed | Examples.ToBigIntUnscaled, Examples.ToBigIntNegativeFloor | ScaleAdjust.ToBigIntCorrected, Examples.ToBigIntCorrectedCases |

## Quirks kept from the source

These behaviours look unintended but are modelled as written, each exhibited by a member:

1. In `divideAndRound` a zero quotient counts as positive, so a negative dividend smaller than the divisor steps to +1 under UP or CEIL (`RoundingEngine.ZeroQuotientSteppedUp`, `RoundingEngine.ZeroQuotientExample`, `Examples.NegativeRoundsUpToPositive`).
2. `needIncrement` compares the remainder with `div2` of the divisor, which floors. With an odd divisor a remainder just under half is taken for a tie (`RoundingEngine.OddDivisorTieExample`, `Examples.OddDivisorHalfUp`).
3. `magCompareTo` treats a zero mantissa as one digit long, so 0 compares above 0.5 and 0 at different scales is not `eq` (`Comparison.ZeroMisordered`).
4. `tenToThe` from `BI_TEN_POWERS_MAX` up reads table slot MAX - 1, which exists only after an earlier expansion (`TenTable.TenToThe`).
5. In `div`, `this.e - other.e` is i32 arithmetic and wraps before `overflowGuard` sees it (`Int32.Wrap32`, `Examples.DivScaleWraps`).
6. The "Remainder is zero" throw in `needIncrement` cannot be reached: both callers test the remainder first. `RoundingEngine.NeedIncrement` requires a nonzero remainder.
7. `floor` of -9.5 carries to -1 at scale -1 rather than -10 at scale 0. The value is right, but `toBigInt` then drops the scale (`Examples.FloorCarry`).
8. In `roundToPlaces`, `e - digits` is i32 arithmetic too. A gap above the i32 range wraps negative, so the value is returned unrounded (`Scaling.RoundToPlaces`, `Examples.PlacesGapWraps`).
