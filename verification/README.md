# Fraction calculator, modelled in Dafny

Fraction.swift is a small command-line calculator for fractions. Its core is
a `Fraction` value type with two fields: a numerator and a denominator. The
type has:

- two initialisers: `init(whole:)`, and `init(numerator:denominator:)`, which
  normalises;
- two private helpers, `greatestCommonDivisor` and `leastCommonMultiple`;
- two renderings: `description` ("n/d") and `mixedNumber()` ("w&r/d");
- the four operators `+ - * /`.

Around the type, `performOperation` dispatches on an operator symbol, and
`parseFraction` turns a token such as `-3/4` or `7` into a `Fraction`.

This project models that core as pure Dafny: datatypes, functions and
lemmas. It does so because the source is pure: no field is changed after
construction, and the gcd is recursive, not a loop. The modules are:

- `Numbers`: absolute value and sign; Swift's truncating `/` and `%` on `Int`
  (`TDiv`, `TRem`), written out because Dafny's own are Euclidean; and
  divisibility.
- `Decimal`: the text of an `Int` (`"\(n)"`), and Swift's failable `Int(String)`,
  which accepts an optional single `+` or `-` followed by one or more ASCII
  digits.
- `Divisors`: `greatestCommonDivisor` and `leastCommonMultiple`, with the
  number theory that reduction to lowest terms relies on (Euclid's lemma, and
  gcd of a scaled pair).
- `Fractions`: the struct, its initialisers, renderings and operators.
- `Calculator`: `components(separatedBy:)` for one separator character,
  `parseFraction`, and `performOperation`.

Each `fatalError` in the source is a `Failure` result carrying one of
`DivisionByZero`, `InvalidOperator` and `InvalidFractionFormat`.

The model follows the code where the code departs from rational arithmetic.
`init(numerator:denominator:)` takes the sign of the result from the
denominator argument alone. It computes `sign * |numerator| / gcd` with `sign`
taken from the denominator. So (-3, 4) becomes 3/4 and (3, -4) becomes -3/4.
Because every operator goes through this initialiser, the results are as
follows:

- `+` and `-` give the absolute value of the exact sum and difference.
- `*` does the same for operands with positive denominators.
- `0 + f` and `1 * f` equal `f` only when `f`'s numerator is non-negative.
- `parseFraction("-1/2")` is one half.

So (3, -4) and (-3, 4) build different values, and `0 + f` is not `f` when
`f` is negative. The model states and proves this behaviour
(`FromPartsSignExamples`, `AddZeroLeft`, `MulOneLeft`, `ParseHalf`).

## Model

| member | source | states |
|---|---|---|
| Numbers.TDivTowardZero | Fraction.swift:32-37 | the contract of `Numbers.TDiv`, Swift's `Int` `/` as used in the initialiser, in `mixedNumber` and in `+`/`-` (lines 57 and 63): the quotient's magnitude is the quotient of the magnitudes, and a non-zero quotient is negative exactly when the operands' signs differ, i.e. it rounds toward zero |
| Numbers.TRem | Fraction.swift:37-38 | Swift's truncating remainder: dividend = divisor * truncated quotient + remainder, the remainder is smaller than the divisor in magnitude, and a non-zero remainder has the dividend's sign |
| Divisors.Gcd | Fraction.swift:5-13 | the recursion terminates because the second argument shrinks in magnitude; the result is a positive common divisor of both arguments that every positive common divisor divides |
| Divisors.GcdZero | Fraction.swift:11 | gcd(0, b) is \|b\| |
| Divisors.GcdAbs | Fraction.swift:30 | the gcd ignores the signs of its arguments |
| Divisors.GcdScale | Fraction.swift:5-13 | gcd(k*a, k*b) = k * gcd(a, b) for k > 0 |
| Divisors.ReducedCoprime | Fraction.swift:30-33 | dividing both arguments by their gcd leaves a coprime pair |
| Divisors.Euclid | Fraction.swift:5-13 | a divisor of a product that is coprime to one factor divides the other |
| Divisors.Lcm | Fraction.swift:15-17 | for a non-zero first argument, a positive common multiple of both magnitudes; 0 when the first argument is 0 |
| Divisors.LcmLeast | Fraction.swift:15-17 | for non-zero arguments, every common multiple of \|a\| and \|b\| is a multiple of `Lcm(a, b)`: with `Divisors.Lcm`'s contract, the result is the least common multiple |
| Fractions.FromWhole | Fraction.swift:19-22 | `init(whole:)` gives exactly (whole, 1), which is normalised |
| Fractions.FromParts | Fraction.swift:24-34 | fails with DivisionByZero exactly when the denominator is 0; otherwise the result is normalised (positive denominator, coprime pair), denotes sign(denominator) * \|numerator\| / \|denominator\|, and is negative exactly when the denominator is negative and the numerator non-zero |
| Fractions.NormalisedUnique | Fraction.swift:29-33 | two normalised fractions denoting the same rational are equal: the normal form is canonical |
| Fractions.FromPartsCanonical | Fraction.swift:24-34 | any normalised fraction denoting sign(d) * \|n\| / \|d\| is exactly what the initialiser builds from (n, d) |
| Fractions.FromPartsOfNormalised | Fraction.swift:24-34 | rebuilding a normalised fraction from its own fields gives its absolute value |
| Fractions.FromPartsSignFromDenominator | Fraction.swift:29-32 | the numerator's sign is discarded: (-n, d) and (n, d) build the same value, and (n, -d) builds its negation |
| Fractions.FromPartsSignExamples | Fraction.swift:29-33 | (-3, 4) is 3/4 and (3, -4) is -3/4 |
| Fractions.FromPartsExamples | Fraction.swift:24-34 | (6, 3) is 2/1, (0, 5) is 0/1, and (0, 0) fails with DivisionByZero |
| Fractions.Description | Fraction.swift:48-51 | the numerator's text, one '/', then the denominator's text, and that '/' is the only one |
| Fractions.MixedNumber | Fraction.swift:36-45 | an '&' appears exactly when the truncating remainder is non-zero |
| Fractions.MixedNumberOfWhole | Fraction.swift:36-45 | for a normalised fraction, the rendering is a bare whole number exactly when the denominator is 1, and that number is the numerator |
| Fractions.MixedNumberParts | Fraction.swift:36-45 | with a remainder the rendering is "whole&part/den" with 0 < part < den, and whole * den + sign(num) * part recovers the numerator |
| Fractions.MixedNumberDropsSign | Fraction.swift:37-43 | a fraction strictly between -1 and 1 renders the same as its negation: the sign is lost |
| Fractions.MixedNumberSevenHalves | Fraction.swift:36-45 | 7/2 is "3&1/2" |
| Fractions.MixedNumberTwo | Fraction.swift:36-45 | 2/1 is "2" |
| Fractions.MixedNumberFiveSixths | Fraction.swift:36-45 | 5/6 is "0&5/6" |
| Fractions.MixedNumberUnreducedExample | Fraction.swift:36-45 | 6/3 is "2" |
| Fractions.MixedNumberNegativeExamples | Fraction.swift:36-45 | -1/2 is "0&1/2" and -7/2 is "-3&1/2" |
| Fractions.Add | Fraction.swift:55-59 | for non-zero denominators, the result is normalised, has a non-negative numerator, and denotes \|lhs + rhs\| |
| Fractions.Sub | Fraction.swift:61-65 | for non-zero denominators, the result is normalised, has a non-negative numerator, and denotes \|lhs - rhs\| |
| Fractions.CommonDenominator | Fraction.swift:56-58 | the lcm is positive, and dividing it by either denominator is exact; re-normalising the scaled numerator over it denotes \|an/ad + bn/bd\| |
| Fractions.Mul | Fraction.swift:67-69 | fails with DivisionByZero exactly when a denominator is 0; otherwise the result is normalised and denotes sign(product of denominators) * \|product of numerators\| / \|product of denominators\| |
| Fractions.Div | Fraction.swift:71-73 | fails with DivisionByZero exactly when lhs.den * rhs.num is 0; otherwise the result is normalised and denotes sign(lhs.den * rhs.num) * \|lhs.num * rhs.den\| / \|lhs.den * rhs.num\| |
| Fractions.AddMatchesCrossMultiplication | Fraction.swift:55-59 | the lcm route gives the same value as reducing \|a.n*b.d + b.n*a.d\| over \|a.d*b.d\| |
| Fractions.AddCommutes | Fraction.swift:55-59 | a + b = b + a |
| Fractions.SubSymmetric | Fraction.swift:61-65 | a - b = b - a, both being \|a - b\| |
| Fractions.SubSelf | Fraction.swift:61-65 | f - f is the whole number 0 |
| Fractions.AddZeroLeft | Fraction.swift:55-59 | 0 + f is \|f\|, so it equals f exactly when f's numerator is non-negative |
| Fractions.MulCommutes | Fraction.swift:67-69 | a * b = b * a, failures included |
| Fractions.MulOneLeft | Fraction.swift:67-69 | 1 * f is \|f\|, so it equals f exactly when f's numerator is non-negative |
| Fractions.MulOfNormalised | Fraction.swift:67-69 | on normalised operands `*` never fails and denotes \|a * b\| with a non-negative numerator |
| Fractions.ExactOnNonNegative | Fraction.swift:55-69 | for normalised operands with non-negative numerators, `+` and `*` are the exact rational sum and product |
| Fractions.DivOfNormalised | Fraction.swift:71-73 | on normalised operands `/` fails exactly when the divisor's numerator is 0; otherwise the quotient is negative exactly when the divisor is negative and the dividend non-zero, and it denotes sign(b.n) * \|a.n\| * b.d / (a.d * \|b.n\|) |
| Fractions.DivByWholeZero | Fraction.swift:71-73 | dividing by the whole number 0 fails with DivisionByZero |
| Decimal.NatToString | Fraction.swift:41 | the digits spell the number, and only the text of 0 starts with '0' |
| Decimal.IntToString | Fraction.swift:41-43 | non-empty text with a leading '-' exactly for negative values; the digits after any sign spell the magnitude, with no leading zero except in "0" |
| Decimal.ParseInt | Fraction.swift:127 | succeeds exactly on an optional single sign followed by one or more ASCII digits; the value is the number those digits spell, negated after a '-' |
| Decimal.ParseIntExamples | Fraction.swift:127 | "+5" is 5, "007" is 7 and "-12" is -12; "-" and "1 2" are not integers |
| Decimal.ParseIntToString | Fraction.swift:127 | reading back an integer's text gives the integer |
| Calculator.Split | Fraction.swift:126 | the pieces hold no separator, joining them with the separator gives the input back, and there is more than one piece exactly when the input holds the separator |
| Calculator.SplitAround | Fraction.swift:126 | a separator after a separator-free prefix ends the first piece |
| Calculator.ParseFraction | Fraction.swift:124-137 | every result is normalised; failures are InvalidFractionFormat, or DivisionByZero for a token with a '/'; a token without '/' succeeds exactly when it is an integer, and then gives that integer over 1 |
| Calculator.ParseTwoPieces | Fraction.swift:125-130 | a token "a/b" is `init(numerator:denominator:)` of the two integers, or InvalidFractionFormat when either piece is not an integer |
| Calculator.ParseWholeNumber | Fraction.swift:131-135 | reading a whole number's text gives `init(whole:)` of it |
| Calculator.ParseDescription | Fraction.swift:124-137 | reading back `description` gives the absolute value of the fraction, so the same fraction exactly when its numerator is non-negative |
| Calculator.ParseMixedNumberOfWhole | Fraction.swift:124-137 | a result with denominator 1 renders as text that reads back as the same fraction |
| Calculator.ParseIgnoresExtraPieces | Fraction.swift:126-127 | pieces after the second are ignored: "a/b/c" reads as "a/b" |
| Calculator.ParseDigit | Fraction.swift:127 | a one-digit piece reads as its digit's value, and after a '-' as the negation |
| Calculator.ParseDigitOverDigit | Fraction.swift:125-130 | "x/y" and "-x/y" for digits x, y are `init(numerator:denominator:)` of the digits' values |
| Calculator.ParseHalf | Fraction.swift:124-137 | "1/2" is one half, and so is "-1/2", because the numerator's sign is dropped |
| Calculator.ParseZeroDenominator | Fraction.swift:125-130 | "3/0" fails with DivisionByZero |
| Calculator.ParseMalformed | Fraction.swift:127-134 | "1/" and "x" fail with InvalidFractionFormat |
| Calculator.PerformOperation | Fraction.swift:76-88 | "+", "-", "*" and "/" select the matching operator; the result is InvalidOperator exactly for any other symbol |
| Calculator.PerformOperationOnNormalised | Fraction.swift:76-88 | on normalised operands every success is normalised; only "/" can give a negative numerator; the call fails exactly for an unknown symbol or for "/" with a zero divisor, and the latter is DivisionByZero |
| Calculator.ScenarioAddParse | Fraction.swift:124-137 | "1/3" is one third |
| Calculator.ScenarioAdd | Fraction.swift:55-59 | 1/2 + 1/3 is 5/6, rendered "0&5/6" |
| Calculator.ScenarioMulParse | Fraction.swift:124-137 | "3" is 3/1 and "2/3" is 2/3 |
| Calculator.ScenarioMul | Fraction.swift:67-69 | 3 * 2/3 is 2/1, rendered "2" |
| Calculator.ScenarioDiv | Fraction.swift:76-88 | 1/2 / 1/2 is 1/1, rendered "1", and "%" is InvalidOperator |

## Left out

- `promptUser` (Fraction.swift:91-111) and the top-level call (Fraction.swift:139) are left out. They are console I/O (`readLine`, `print`) in an unbounded interactive loop. The split of a line into three tokens and the `exit` check belong to that loop.
- The file-scope `greatestCommonDivisor` (Fraction.swift:113-121) is left out. It is a copy of the private method and nothing in the core calls it; `Divisors.Gcd` models the method.
- Fixed-width `Int` is modelled as unbounded `int`. Overflow traps are not modelled: `a * b` in `leastCommonMultiple`, the products and sums in the operators, `abs(Int.min)`, and `Int.min / -1` in `mixedNumber()`. Neither is `Int(String)` rejecting numbers outside the 64-bit range.
- `fatalError` is a `Failure` result, not process termination.
- Fractions.Add: requires both denominators to be non-zero. The source reaches `%` or `/` by zero there, which traps, and a `fatalError` is not involved, so the trap is a precondition and not an error result.
- Fractions.Sub: requires both denominators to be non-zero, for the same reason as `Add`.
- Fractions.MixedNumber: requires a non-zero denominator, because the source traps on division by zero.
- Calculator.PerformOperation: requires non-zero denominators for "+" and "-" only, because those are the operators that trap.
- Calculator.Split models `components(separatedBy:)` for a one-character separator only, which is the only way the core uses it. Swift `String` comparison under Unicode canonical equivalence is not modelled: characters are compared one by one.
