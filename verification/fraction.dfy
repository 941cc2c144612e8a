/** The `Fraction` struct of Fraction.swift: its two initialisers, its two
    renderings and the four arithmetic operators.

    The model keeps the code's behaviour, including where it departs from
    the arithmetic of rationals: the normalising initialiser takes the sign of
    the result from the denominator argument alone, and every operator goes
    through that initialiser, so `+`, `-` and (for positive denominators) `*`
    produce the absolute value of the exact result. */
module Fractions {
  import opened Numbers
  import opened Divisors
  import opened Decimal

  /** The conditions under which the Swift code calls `fatalError`. */
  datatype Error = DivisionByZero | InvalidOperator | InvalidFractionFormat

  datatype Result<T> = Success(value: T) | Failure(error: Error)

  /** A `Fraction` value. Its fields are `var`s in Swift, so any pair of
      integers can be stored; the initialisers only ever build `Normalised`
      ones. */
  datatype Fraction = Fraction(numerator: int, denominator: int)

  /** The invariant of every value the initialisers build: a positive
      denominator, and numerator and denominator in lowest terms. */
  predicate Normalised(f: Fraction) {
    f.denominator > 0 && Gcd(Abs(f.numerator), f.denominator) == 1
  }

  /** `init(whole:)`: the whole number over 1. */
  function FromWhole(whole: int): (f: Fraction)
    ensures Normalised(f)
    ensures f.numerator == whole && f.denominator == 1
  {
    GcdOne(Abs(whole), 1);
    Fraction(whole, 1)
  }

  /** `init(numerator:denominator:)`. A zero denominator is the `fatalError`
      path. Otherwise the result is in lowest terms, has a positive
      denominator, and denotes sign(denominator) * |numerator| / |denominator|:
      the sign of the numerator argument is discarded. */
  function FromParts(numerator: int, denominator: int): (r: Result<Fraction>)
    ensures r.Failure? <==> denominator == 0
    ensures r.Failure? ==> r.error == DivisionByZero
    ensures r.Success? ==> Normalised(r.value)
    ensures r.Success? ==>
      r.value.numerator * Abs(denominator) == Sign(denominator) * Abs(numerator) * r.value.denominator
    ensures r.Success? ==> (r.value.numerator < 0 <==> denominator < 0 && numerator != 0)
  {
    if denominator == 0 then
      Failure(DivisionByZero)
    else
      var sign := if denominator < 0 then -1 else 1;
      var gcd := Gcd(Abs(numerator), Abs(denominator));
      var f := Fraction(TDiv(sign * Abs(numerator), gcd), TDiv(Abs(denominator), gcd));
      ReducedFacts(numerator, denominator, f);
      Success(f)
  }

  lemma ReducedFacts(n: int, d: int, f: Fraction)
    requires d != 0
    requires f == Fraction(TDiv(Sign(d) * Abs(n), Gcd(Abs(n), Abs(d))), TDiv(Abs(d), Gcd(Abs(n), Abs(d))))
    ensures Normalised(f)
    ensures f.numerator * Abs(d) == Sign(d) * Abs(n) * f.denominator
    ensures f.numerator < 0 <==> d < 0 && n != 0
  {
    var N, D := Abs(n), Abs(d);
    var g := Gcd(N, D);
    DividesElim(g, N);
    DividesElim(g, D);
    ReducedCoprime(N, D);
    ReduceArith(Sign(d), N, D, g, N / g, D / g);
  }

  /** Two normalised fractions that denote the same rational number n/d are
      the same pair: the normal form is canonical. */
  lemma NormalisedUnique(f: Fraction, h: Fraction, n: int, d: int)
    requires d != 0 && Normalised(f) && Normalised(h)
    requires f.numerator * d == n * f.denominator && h.numerator * d == n * h.denominator
    ensures f == h
  {
    CrossCancel(d, n, f.numerator, f.denominator, h.numerator, h.denominator);
    CrossEqualUnique(f, h);
  }

  lemma CrossEqualUnique(f: Fraction, h: Fraction)
    requires Normalised(f) && Normalised(h)
    requires f.numerator * h.denominator == h.numerator * f.denominator
    ensures f == h
  {
    if f.numerator == 0 {
      BothZero(f, h);
    } else {
      SameDenominator(f, h);
    }
  }

  lemma BothZero(f: Fraction, h: Fraction)
    requires Normalised(f) && Normalised(h) && f.numerator == 0
    requires f.numerator * h.denominator == h.numerator * f.denominator
    ensures f == h
  {
    ZeroCross(f.numerator, h.denominator, h.numerator, f.denominator);
    NormalisedZero(f);
    NormalisedZero(h);
  }

  /** The only normalised zero is 0/1. */
  lemma NormalisedZero(f: Fraction)
    requires Normalised(f) && f.numerator == 0
    ensures f == Fraction(0, 1)
  {
    assert Abs(f.numerator) == 0;
    GcdZero(f.denominator);
  }

  lemma SameDenominator(f: Fraction, h: Fraction)
    requires Normalised(f) && Normalised(h)
    requires f.numerator * h.denominator == h.numerator * f.denominator
    ensures f.denominator == h.denominator && f.numerator == h.numerator
  {
    DenominatorDivides(f, h);
    DenominatorDivides(h, f);
    DividesAntisym(f.denominator, h.denominator);
    Cancel(f.denominator, f.numerator, h.numerator);
  }

  lemma DenominatorDivides(f: Fraction, h: Fraction)
    requires Normalised(f) && h.denominator > 0
    requires f.numerator * h.denominator == h.numerator * f.denominator
    ensures Divides(f.denominator, h.denominator)
  {
    AbsCross(f.numerator, h.denominator, h.numerator, f.denominator);
    DividesIntro(f.denominator, Abs(f.numerator) * h.denominator, Abs(h.numerator));
    Euclid(f.denominator, Abs(f.numerator), h.denominator);
  }

  /** A normalised fraction denoting what `init(numerator:denominator:)` makes of
      (n, d) is exactly what it makes. */
  lemma FromPartsCanonical(n: int, d: int, f: Fraction)
    requires d != 0 && Normalised(f)
    requires f.numerator * Abs(d) == Sign(d) * Abs(n) * f.denominator
    ensures FromParts(n, d) == Success(f)
  {
    var r := FromParts(n, d).value;
    NormalisedUnique(r, f, Sign(d) * Abs(n), Abs(d));
  }

  /** Feeding a stored fraction back through `init(numerator:denominator:)`
      gives its absolute value: the identity on non-negative values, a sign
      flip on negative ones. */
  lemma FromPartsOfNormalised(f: Fraction)
    requires Normalised(f)
    ensures FromParts(f.numerator, f.denominator) == Success(Fraction(Abs(f.numerator), f.denominator))
  {
    FromPartsCanonical(f.numerator, f.denominator, Fraction(Abs(f.numerator), f.denominator));
  }

  /** The initialiser reads only the magnitude of its numerator argument and
      the sign of its denominator argument. */
  lemma FromPartsSignFromDenominator(n: int, d: int)
    requires d != 0
    ensures FromParts(-n, d) == FromParts(n, d)
    ensures FromParts(n, -d).value == Fraction(-FromParts(n, d).value.numerator, FromParts(n, d).value.denominator)
  {
    var r := FromParts(n, d).value;
    var s := Fraction(-r.numerator, r.denominator);
    assert Abs(-r.numerator) == Abs(r.numerator);
    NegateDenominator(r.numerator, r.denominator, n, d);
    FromPartsCanonical(n, -d, s);
  }

  /** The sign rule on an example: the denominator's sign wins. */
  lemma FromPartsSignExamples()
    ensures FromParts(-3, 4) == Success(Fraction(3, 4))
    ensures FromParts(3, -4) == Success(Fraction(-3, 4))
  {
    assert Gcd(3, 4) == 1;
    FromPartsCanonical(-3, 4, Fraction(3, 4));
    FromPartsCanonical(3, -4, Fraction(-3, 4));
  }

  /** Reduction to lowest terms, and the zero-denominator guard, on examples. */
  lemma FromPartsExamples()
    ensures FromParts(6, 3) == Success(Fraction(2, 1))
    ensures FromParts(0, 5) == Success(Fraction(0, 1))
    ensures FromParts(0, 0) == Failure(DivisionByZero)
  {
    GcdOne(2, 1);
    GcdOne(0, 1);
    FromPartsCanonical(6, 3, Fraction(2, 1));
    FromPartsCanonical(0, 5, Fraction(0, 1));
  }

  /** `description`: "numerator/denominator" of the stored fields. The text
      starts with the numerator's digits, and its only '/' follows them. */
  function Description(f: Fraction): (s: string)
    ensures |s| == |IntToString(f.numerator)| + 1 + |IntToString(f.denominator)|
    ensures s[..|IntToString(f.numerator)|] == IntToString(f.numerator)
    ensures s[|IntToString(f.numerator)| + 1..] == IntToString(f.denominator)
    ensures forall i :: 0 <= i < |s| && s[i] == '/' ==> i == |IntToString(f.numerator)|
    ensures s[|IntToString(f.numerator)|] == '/'
  {
    var num, den := IntToString(f.numerator), IntToString(f.denominator);
    var s := num + "/" + den;
    assert forall i :: 0 <= i < |num| ==> s[i] == num[i];
    assert forall i :: |num| < i < |s| ==> s[i] == den[i - |num| - 1];
    s
  }

  /** `mixedNumber()`: the truncated whole part, and, when the truncating
      remainder is not zero, "&" followed by the remainder's magnitude over the
      denominator. An '&' appears exactly when the denominator does not divide
      the numerator. */
  function MixedNumber(f: Fraction): (s: string)
    requires f.denominator != 0
    ensures '&' in s <==> TRem(f.numerator, f.denominator) != 0
  {
    var whole := TDiv(f.numerator, f.denominator);
    var remainder := TRem(f.numerator, f.denominator);
    if remainder == 0 then
      NoAmpersand(whole);
      IntToString(whole)
    else
      var s := IntToString(whole) + "&" + IntToString(Abs(remainder)) + "/" + IntToString(f.denominator);
      assert s[|IntToString(whole)|] == '&';
      s
  }

  lemma NoAmpersand(n: int)
    ensures '&' !in IntToString(n) && '/' !in IntToString(n)
  {
    var s := IntToString(n);
    forall i | 0 <= i < |s|
      ensures s[i] != '&' && s[i] != '/'
    {
    }
  }

  /** For a normalised fraction the mixed number is a bare whole number exactly
      when the denominator is 1, and then it is the numerator. */
  lemma MixedNumberOfWhole(f: Fraction)
    requires Normalised(f)
    ensures '&' !in MixedNumber(f) <==> f.denominator == 1
    ensures f.denominator == 1 ==> MixedNumber(f) == IntToString(f.numerator)
  {
    var n, d := f.numerator, f.denominator;
    if TRem(n, d) == 0 {
      DividesIntro(d, n, TDiv(n, d));
      DividesAbs(d, n);
      DividesIntro(d, d, 1);
      GcdGreatest(Abs(n), d, d);
      DividesLe(d, 1);
    }
    if d == 1 {
      TDivExact(n, 1, n);
    }
  }

  /** A mixed number with a fractional part: whole * den + sign(num) * part
      recovers the numerator, with 0 < part < den. The sign of the value lives
      in the whole part only. */
  lemma MixedNumberParts(f: Fraction)
    requires f.denominator > 0 && TRem(f.numerator, f.denominator) != 0
    ensures var whole, part := TDiv(f.numerator, f.denominator), Abs(TRem(f.numerator, f.denominator));
      && MixedNumber(f) == IntToString(whole) + "&" + IntToString(part) + "/" + IntToString(f.denominator)
      && 0 < part < f.denominator
      && whole * f.denominator + Sign(f.numerator) * part == f.numerator
  {
    RemainderParts(f.numerator, f.denominator);
  }

  /** Between -1 and 1 the whole part is 0, so a negative proper fraction
      renders exactly like its absolute value. */
  lemma MixedNumberDropsSign(f: Fraction)
    requires f.denominator > 0 && Abs(f.numerator) < f.denominator
    ensures MixedNumber(f) == MixedNumber(Fraction(-f.numerator, f.denominator))
  {
    var n, d := f.numerator, f.denominator;
    ProperQuotient(n, d);
    ProperQuotient(-n, d);
    assert Abs(-n) == Abs(n);
  }

  /** 7/2 renders as "3&1/2". */
  lemma MixedNumberSevenHalves()
    ensures MixedNumber(Fraction(7, 2)) == "3&1/2"
  {
    assert TDiv(7, 2) == 3 && TRem(7, 2) == 1;
  }

  /** 2/1 renders as "2". */
  lemma MixedNumberTwo()
    ensures MixedNumber(Fraction(2, 1)) == "2"
  {
    assert TDiv(2, 1) == 2 && TRem(2, 1) == 0;
  }

  /** 5/6 renders as "0&5/6". */
  lemma MixedNumberFiveSixths()
    ensures MixedNumber(Fraction(5, 6)) == "0&5/6"
  {
    assert TDiv(5, 6) == 0 && TRem(5, 6) == 5;
  }

  /** Nothing reduces the fraction before rendering: 6/3 prints as "2". */
  lemma MixedNumberUnreducedExample()
    ensures MixedNumber(Fraction(6, 3)) == "2"
  {
    assert TDiv(6, 3) == 2 && TRem(6, 3) == 0;
  }

  /** Negative values: the whole part carries the sign, and between -1 and 0
      nothing does. */
  lemma MixedNumberNegativeExamples()
    ensures MixedNumber(Fraction(-1, 2)) == "0&1/2"
    ensures MixedNumber(Fraction(-7, 2)) == "-3&1/2"
  {
    MixedNumberMinusHalf();
    MixedNumberMinusSevenHalves();
  }

  lemma MixedNumberMinusHalf()
    ensures MixedNumber(Fraction(-1, 2)) == "0&1/2"
  {
    assert TDiv(-1, 2) == 0 && TRem(-1, 2) == -1;
  }

  lemma MixedNumberMinusSevenHalves()
    ensures MixedNumber(Fraction(-7, 2)) == "-3&1/2"
  {
    assert TDiv(-7, 2) == -3 && TRem(-7, 2) == -1;
  }

  /** `+`: both sides are brought to the denominator lcm(lhs.den, rhs.den)
      and the result is re-normalised. Swift traps (remainder or division by
      zero) when either denominator is 0. The result denotes the absolute value
      of the exact sum lhs + rhs. */
  function Add(lhs: Fraction, rhs: Fraction): (r: Fraction)
    requires lhs.denominator != 0 && rhs.denominator != 0
    ensures Normalised(r) && r.numerator >= 0
    ensures r.numerator * Abs(lhs.denominator * rhs.denominator)
         == Abs(lhs.numerator * rhs.denominator + rhs.numerator * lhs.denominator) * r.denominator
  {
    var lcd := Lcm(lhs.denominator, rhs.denominator);
    var numerator := lhs.numerator * TDiv(lcd, lhs.denominator) + rhs.numerator * TDiv(lcd, rhs.denominator);
    CommonDenominator(lhs.numerator, lhs.denominator, rhs.numerator, rhs.denominator, lcd, numerator);
    FromParts(numerator, lcd).value
  }

  /** `-`: as `+` with the second term subtracted. The result denotes the
      absolute value of the exact difference lhs - rhs. */
  function Sub(lhs: Fraction, rhs: Fraction): (r: Fraction)
    requires lhs.denominator != 0 && rhs.denominator != 0
    ensures Normalised(r) && r.numerator >= 0
    ensures r.numerator * Abs(lhs.denominator * rhs.denominator)
         == Abs(lhs.numerator * rhs.denominator - rhs.numerator * lhs.denominator) * r.denominator
  {
    var lcd := Lcm(lhs.denominator, rhs.denominator);
    var numerator := lhs.numerator * TDiv(lcd, lhs.denominator) - rhs.numerator * TDiv(lcd, rhs.denominator);
    MinusAsPlus(lhs.numerator, rhs.numerator, TDiv(lcd, lhs.denominator), TDiv(lcd, rhs.denominator),
                lhs.denominator, rhs.denominator);
    CommonDenominator(lhs.numerator, lhs.denominator, -rhs.numerator, rhs.denominator, lcd, numerator);
    FromParts(numerator, lcd).value
  }

  /** The common-denominator computation shared by `+` and `-`: the lcm is a
      positive multiple of both denominators, dividing it by either one is
      exact, and the re-normalised result denotes |an/ad + bn/bd|. */
  lemma CommonDenominator(an: int, ad: int, bn: int, bd: int, lcd: int, n: int)
    requires ad != 0 && bd != 0 && lcd == Lcm(ad, bd)
    requires n == an * TDiv(lcd, ad) + bn * TDiv(lcd, bd)
    ensures lcd > 0 && FromParts(n, lcd).Success?
    ensures ad * TDiv(lcd, ad) == lcd && bd * TDiv(lcd, bd) == lcd
    ensures var f := FromParts(n, lcd).value;
      && Normalised(f) && f.numerator >= 0
      && f.numerator * Abs(ad * bd) == Abs(an * bd + bn * ad) * f.denominator
  {
    var ka, kb := TDiv(lcd, ad), TDiv(lcd, bd);
    TDivOfMultiple(lcd, ad);
    TDivOfMultiple(lcd, bd);
    CrossScale(an, bn, ad, bd, ka, kb, lcd);
    CancelScaled(lcd, FromParts(n, lcd).value.numerator, FromParts(n, lcd).value.denominator,
                 n, an * bd + bn * ad, ad * bd);
  }

  /** `*`: numerators times numerators over denominators times denominators,
      re-normalised. Fails exactly when a denominator is 0. */
  function Mul(lhs: Fraction, rhs: Fraction): (r: Result<Fraction>)
    ensures r.Failure? <==> lhs.denominator == 0 || rhs.denominator == 0
    ensures r.Failure? ==> r.error == DivisionByZero
    ensures r.Success? ==> Normalised(r.value)
    ensures r.Success? ==>
      r.value.numerator * Abs(lhs.denominator * rhs.denominator)
      == Sign(lhs.denominator * rhs.denominator) * Abs(lhs.numerator * rhs.numerator) * r.value.denominator
  {
    ZeroProduct(lhs.denominator, rhs.denominator);
    FromParts(lhs.numerator * rhs.numerator, lhs.denominator * rhs.denominator)
  }

  /** `/`: multiplication by the reciprocal, re-normalised. Fails exactly
      when lhs.den * rhs.num is 0; the sign of the result is the sign of that
      product. */
  function Div(lhs: Fraction, rhs: Fraction): (r: Result<Fraction>)
    ensures r.Failure? <==> lhs.denominator * rhs.numerator == 0
    ensures r.Failure? ==> r.error == DivisionByZero
    ensures r.Success? ==> Normalised(r.value)
    ensures r.Success? ==>
      r.value.numerator * Abs(lhs.denominator * rhs.numerator)
      == Sign(lhs.denominator * rhs.numerator) * Abs(lhs.numerator * rhs.denominator) * r.value.denominator
  {
    FromParts(lhs.numerator * rhs.denominator, lhs.denominator * rhs.numerator)
  }

  /** `+` agrees with the textbook definition: reduce |a.n*b.d + b.n*a.d| over
      |a.d*b.d|. The lcm route of the source and the cross-multiplication route
      give the same normalised value. */
  lemma AddMatchesCrossMultiplication(a: Fraction, b: Fraction)
    requires a.denominator != 0 && b.denominator != 0
    ensures var x, y := a.numerator * b.denominator + b.numerator * a.denominator, a.denominator * b.denominator;
      y != 0 && Success(Add(a, b)) == FromParts(Abs(x), Abs(y))
  {
    var x, y := a.numerator * b.denominator + b.numerator * a.denominator, a.denominator * b.denominator;
    FromPartsCanonical(Abs(x), Abs(y), Add(a, b));
  }

  lemma AddCommutes(a: Fraction, b: Fraction)
    requires a.denominator != 0 && b.denominator != 0
    ensures Add(a, b) == Add(b, a)
  {
    AddMatchesCrossMultiplication(a, b);
    AddMatchesCrossMultiplication(b, a);
    assert a.numerator * b.denominator + b.numerator * a.denominator
        == b.numerator * a.denominator + a.numerator * b.denominator;
    assert a.denominator * b.denominator == b.denominator * a.denominator;
  }

  /** `-` is symmetric: a - b and b - a are both |a - b|. */
  lemma SubSymmetric(a: Fraction, b: Fraction)
    requires a.denominator != 0 && b.denominator != 0
    ensures Sub(a, b) == Sub(b, a)
  {
    var x := a.numerator * b.denominator - b.numerator * a.denominator;
    var y := Abs(a.denominator * b.denominator);
    assert Abs(b.numerator * a.denominator - a.numerator * b.denominator) == Abs(x);
    assert Abs(b.denominator * a.denominator) == y;
    AbsMul(a.denominator, b.denominator);
    NormalisedUnique(Sub(a, b), Sub(b, a), Abs(x), y);
  }

  lemma SubSelf(f: Fraction)
    requires f.denominator != 0
    ensures Sub(f, f) == FromWhole(0)
  {
    var r := Sub(f, f);
    AbsMul(f.denominator, f.denominator);
    assert r.numerator * Abs(f.denominator * f.denominator) == 0;
    assert r.numerator == 0;
    GcdZero(r.denominator);
  }

  /** 0 + f is |f|: the identity only on non-negative fractions. */
  lemma AddZeroLeft(f: Fraction)
    requires Normalised(f)
    ensures Add(FromWhole(0), f) == Fraction(Abs(f.numerator), f.denominator)
    ensures Add(FromWhole(0), f) == f <==> f.numerator >= 0
  {
    var r := Add(FromWhole(0), f);
    assert r.numerator * f.denominator == Abs(f.numerator) * r.denominator;
    NormalisedUnique(r, Fraction(Abs(f.numerator), f.denominator), Abs(f.numerator), f.denominator);
  }

  lemma MulCommutes(a: Fraction, b: Fraction)
    ensures Mul(a, b) == Mul(b, a)
  {
    assert a.numerator * b.numerator == b.numerator * a.numerator;
    assert a.denominator * b.denominator == b.denominator * a.denominator;
  }

  /** 1 * f is |f|: the identity only on non-negative fractions. */
  lemma MulOneLeft(f: Fraction)
    requires Normalised(f)
    ensures Mul(FromWhole(1), f) == Success(Fraction(Abs(f.numerator), f.denominator))
    ensures Mul(FromWhole(1), f) == Success(f) <==> f.numerator >= 0
  {
    FromPartsOfNormalised(f);
  }

  /** On normalised operands `*` never fails and denotes |a * b|. */
  lemma MulOfNormalised(a: Fraction, b: Fraction)
    requires Normalised(a) && Normalised(b)
    ensures Mul(a, b).Success? && Mul(a, b).value.numerator >= 0
    ensures Mul(a, b).value.numerator * (a.denominator * b.denominator)
         == Abs(a.numerator * b.numerator) * Mul(a, b).value.denominator
  {
    assert a.denominator * b.denominator > 0;
  }

  /** On normalised operands `/` fails exactly when the divisor's numerator
      is 0; otherwise the quotient's sign is the divisor's sign alone, and the
      quotient denotes sign(b.n) * |a.n| * b.d / (a.d * |b.n|). */
  lemma DivOfNormalised(a: Fraction, b: Fraction)
    requires Normalised(a) && Normalised(b)
    ensures Div(a, b).Failure? <==> b.numerator == 0
    ensures b.numerator != 0 ==>
      var r := Div(a, b).value;
      && (r.numerator < 0 <==> b.numerator < 0 && a.numerator != 0)
      && r.numerator * (a.denominator * Abs(b.numerator))
         == Sign(b.numerator) * Abs(a.numerator) * b.denominator * r.denominator
  {
    PositiveFactor(a.denominator, b.numerator);
    PositiveFactor(b.denominator, a.numerator);
    assert Sign(b.numerator) * (Abs(a.numerator) * b.denominator)
        == Sign(b.numerator) * Abs(a.numerator) * b.denominator;
  }

  /** For normalised operands with non-negative numerators the sign quirk
      never shows: `+` and `*` denote the exact rational sum and product. */
  lemma ExactOnNonNegative(a: Fraction, b: Fraction)
    requires Normalised(a) && Normalised(b) && a.numerator >= 0 && b.numerator >= 0
    ensures Add(a, b).numerator * (a.denominator * b.denominator)
         == (a.numerator * b.denominator + b.numerator * a.denominator) * Add(a, b).denominator
    ensures Mul(a, b).Success?
    ensures Mul(a, b).value.numerator * (a.denominator * b.denominator)
         == (a.numerator * b.numerator) * Mul(a, b).value.denominator
  {
    NonNegativeCross(a.numerator, a.denominator, b.numerator, b.denominator);
    MulOfNormalised(a, b);
  }

  lemma DivByWholeZero(f: Fraction)
    ensures Div(f, FromWhole(0)) == Failure(DivisionByZero)
  {
  }
}
