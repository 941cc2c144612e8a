/** The free functions of Fraction.swift around the struct: the operator
    dispatch `performOperation` and the token reader `parseFraction`, with
    Foundation's `components(separatedBy:)` written out as `Split`. */
module Calculator {
  import opened Numbers
  import opened Divisors
  import opened Decimal
  import opened Fractions

  /** The pieces glued back together with `sep` between consecutive ones. */
  function Join(parts: seq<string>, sep: char): string
    requires |parts| > 0
  {
    if |parts| == 1 then parts[0] else parts[0] + [sep] + Join(parts[1..], sep)
  }

  /** `components(separatedBy:)` with a one-character separator: the
      separator-free pieces between separators, empty ones included, in order.
      Joining them with the separator gives the input back, and there is more
      than one piece exactly when the input contains the separator. */
  function Split(s: string, sep: char): (parts: seq<string>)
    ensures |parts| > 0
    ensures forall i :: 0 <= i < |parts| ==> sep !in parts[i]
    ensures Join(parts, sep) == s
    ensures |parts| == 1 <==> sep !in s
    decreases |s|
  {
    if |s| == 0 then
      [""]
    else
      var rest := Split(s[1..], sep);
      assert s == [s[0]] + s[1..];
      if s[0] == sep then
        var parts := [""] + rest;
        assert parts[1..] == rest;
        parts
      else
        var parts := [[s[0]] + rest[0]] + rest[1..];
        JoinCons(s[0], rest, sep);
        parts
  }

  lemma JoinCons(c: char, rest: seq<string>, sep: char)
    requires |rest| > 0
    ensures Join([[c] + rest[0]] + rest[1..], sep) == [c] + Join(rest, sep)
  {
    var parts := [[c] + rest[0]] + rest[1..];
    if |rest| > 1 {
      assert parts[1..] == rest[1..];
      assert Join(parts, sep) == ([c] + rest[0]) + [sep] + Join(rest[1..], sep);
    }
  }

  /** A separator after a separator-free prefix ends the first piece. */
  lemma {:induction false} SplitAround(a: string, b: string, sep: char)
    requires sep !in a
    ensures Split(a + [sep] + b, sep) == [a] + Split(b, sep)
    decreases |a|
  {
    var s := a + [sep] + b;
    if |a| == 0 {
      assert s[1..] == b;
    } else {
      assert s[1..] == a[1..] + [sep] + b;
      SplitAround(a[1..], b, sep);
      assert [s[0]] + a[1..] == a;
    }
  }

  /** `parseFraction`. A token containing '/' is split on every '/', and only
      the first two pieces are read, as integers, then handed to
      `init(numerator:denominator:)`; any other token is read as one integer
      and handed to `init(whole:)`. A piece that is not an integer is the
      invalid-format error; a zero denominator is the division-by-zero error.
      Every fraction it returns is normalised. */
  function ParseFraction(token: string): (r: Result<Fraction>)
    ensures r.Success? ==> Normalised(r.value)
    ensures r.Failure? ==> r.error == InvalidFractionFormat || (r.error == DivisionByZero && '/' in token)
    ensures '/' !in token ==> (r.Success? <==> ParseInt(token).Some?)
    ensures '/' !in token && r.Success? ==> r.value == Fraction(ParseInt(token).value, 1)
  {
    if '/' in token then
      var components := Split(token, '/');
      var numerator, denominator := ParseInt(components[0]), ParseInt(components[1]);
      if numerator.Some? && denominator.Some? then
        FromParts(numerator.value, denominator.value)
      else
        Failure(InvalidFractionFormat)
    else
      match ParseInt(token)
      case Some(value) => Success(FromWhole(value))
      case None => Failure(InvalidFractionFormat)
  }

  /** Reading back a whole number's text gives `init(whole:)` of it. */
  lemma ParseWholeNumber(n: int)
    ensures ParseFraction(IntToString(n)) == Success(FromWhole(n))
  {
    NoAmpersand(n);
    ParseIntToString(n);
  }

  /** `description` read back by `parseFraction`: the same fraction when its
      numerator is non-negative, its absolute value otherwise, because
      `init(numerator:denominator:)` drops the numerator's sign. */
  lemma ParseDescription(f: Fraction)
    requires Normalised(f)
    ensures ParseFraction(Description(f)) == Success(Fraction(Abs(f.numerator), f.denominator))
    ensures ParseFraction(Description(f)) == Success(f) <==> f.numerator >= 0
  {
    var num, den := IntToString(f.numerator), IntToString(f.denominator);
    NoAmpersand(f.numerator);
    NoAmpersand(f.denominator);
    assert Description(f) == num + ['/'] + den;
    SplitAround(num, den, '/');
    assert Split(den, '/') == [den];
    ParseIntToString(f.numerator);
    ParseIntToString(f.denominator);
    FromPartsOfNormalised(f);
  }

  /** A result with denominator 1 renders as a bare integer, which reads back
      as the same fraction. */
  lemma ParseMixedNumberOfWhole(f: Fraction)
    requires Normalised(f) && f.denominator == 1
    ensures ParseFraction(MixedNumber(f)) == Success(f)
  {
    MixedNumberOfWhole(f);
    ParseWholeNumber(f.numerator);
  }

  /** Pieces after the second are never read: "a/b/c" parses as "a/b". */
  lemma ParseIgnoresExtraPieces(a: string, b: string, c: string)
    requires '/' !in a && '/' !in b
    ensures ParseFraction(a + "/" + b + "/" + c) == ParseFraction(a + "/" + b)
  {
    var long, short := a + "/" + b + "/" + c, a + "/" + b;
    assert long == a + ['/'] + (b + ['/'] + c);
    assert short == a + ['/'] + b;
    SplitAround(b, c, '/');
    SplitAround(a, b + ['/'] + c, '/');
    SplitAround(a, b, '/');
    assert Split(b, '/') == [b];
    assert long[|a|] == '/' && short[|a|] == '/';
    ParseFirstTwoPieces(long, short);
  }

  /** Two tokens containing '/' whose first two pieces agree parse alike. */
  lemma ParseFirstTwoPieces(t: string, u: string)
    requires '/' in t && '/' in u
    requires Split(t, '/')[0] == Split(u, '/')[0] && Split(t, '/')[1] == Split(u, '/')[1]
    ensures ParseFraction(t) == ParseFraction(u)
  {
  }

  /** A token with exactly one '/' is read as numerator text over
      denominator text. */
  lemma ParseTwoPieces(a: string, b: string)
    requires '/' !in a && '/' !in b
    ensures ParseFraction(a + "/" + b) ==
      if ParseInt(a).Some? && ParseInt(b).Some? then FromParts(ParseInt(a).value, ParseInt(b).value)
      else Failure(InvalidFractionFormat)
  {
    SplitAround(a, b, '/');
    assert Split(b, '/') == [b];
    assert a + "/" + b == a + ['/'] + b;
    assert '/' in a + "/" + b by {
      assert (a + "/" + b)[|a|] == '/';
    }
  }

  /** A single digit reads as its value, and after a '-' as its negation. */
  lemma ParseDigit(x: char)
    requires IsDigit(x)
    ensures ParseInt([x]) == Some(DigitValue(x) as int)
    ensures ParseInt(['-', x]) == Some(-(DigitValue(x) as int))
  {
    assert [x][..0] == [];
    assert AllDigits([x]) && DigitsValue([x]) == DigitValue(x);
    assert ['-', x][1..] == [x];
  }

  /** A one-digit numerator, possibly negated, over a one-digit denominator. */
  lemma ParseDigitOverDigit(x: char, y: char)
    requires IsDigit(x) && IsDigit(y)
    ensures ParseFraction([x, '/', y]) == FromParts(DigitValue(x), DigitValue(y))
    ensures ParseFraction(['-', x, '/', y]) == FromParts(-(DigitValue(x) as int), DigitValue(y))
  {
    ParseDigit(x);
    ParseDigit(y);
    ParseTokenOverDigit([x], y);
    assert [x] + ['/', y] == [x, '/', y];
    ParseTokenOverDigit(['-', x], y);
    assert ['-', x] + ['/', y] == ['-', x, '/', y];
  }

  lemma ParseTokenOverDigit(a: string, y: char)
    requires '/' !in a && IsDigit(y) && ParseInt(a).Some? && ParseInt([y]).Some?
    ensures ParseFraction(a + ['/', y]) == FromParts(ParseInt(a).value, ParseInt([y]).value)
  {
    ParseTwoPieces(a, [y]);
    assert a + "/" + [y] == a + ['/', y];
  }

  /** "1/2" and "-1/2" both read as one half: the numerator's sign is lost. */
  lemma ParseHalf()
    ensures ParseFraction("1/2") == Success(Fraction(1, 2))
    ensures ParseFraction("-1/2") == Success(Fraction(1, 2))
  {
    ParseDigitOverDigit('1', '2');
    assert DigitValue('1') == 1 && DigitValue('2') == 2;
    FromPartsHalf();
  }

  lemma FromPartsHalf()
    ensures FromParts(1, 2) == Success(Fraction(1, 2))
    ensures FromParts(-1, 2) == Success(Fraction(1, 2))
  {
    GcdOne(1, 2);
    FromPartsCanonical(1, 2, Fraction(1, 2));
    FromPartsSignFromDenominator(1, 2);
  }

  lemma ParseZeroDenominator()
    ensures ParseFraction("3/0") == Failure(DivisionByZero)
  {
    ParseDigitOverDigit('3', '0');
    assert DigitValue('3') == 3 && DigitValue('0') == 0;
  }

  lemma ParseMalformed()
    ensures ParseFraction("1/") == Failure(InvalidFractionFormat)
    ensures ParseFraction("x") == Failure(InvalidFractionFormat)
  {
    ParseTwoPieces("1", "");
    assert ParseInt("") == None;
    assert "x"[0] == 'x';
    assert ParseInt("x") == None;
  }

  /** `performOperation`: dispatch on the operator text. Swift traps inside
      `+` and `-` when a denominator is 0, so those two need non-zero
      denominators; any text other than the four operators is the
      invalid-operator error, which no operator itself produces. */
  function PerformOperation(lhs: Fraction, rhs: Fraction, operatorSymbol: string): (r: Result<Fraction>)
    requires operatorSymbol == "+" || operatorSymbol == "-" ==> lhs.denominator != 0 && rhs.denominator != 0
    ensures operatorSymbol == "+" ==> r == Success(Add(lhs, rhs))
    ensures operatorSymbol == "-" ==> r == Success(Sub(lhs, rhs))
    ensures operatorSymbol == "*" ==> r == Mul(lhs, rhs)
    ensures operatorSymbol == "/" ==> r == Div(lhs, rhs)
    ensures r == Failure(InvalidOperator) <==> operatorSymbol !in {"+", "-", "*", "/"}
  {
    if operatorSymbol == "+" then Success(Add(lhs, rhs))
    else if operatorSymbol == "-" then Success(Sub(lhs, rhs))
    else if operatorSymbol == "*" then Mul(lhs, rhs)
    else if operatorSymbol == "/" then Div(lhs, rhs)
    else Failure(InvalidOperator)
  }

  /** On normalised operands (all that `parseFraction` produces) every
      successful result is normalised again, and the operation fails only for
      an unknown operator or a division by a zero numerator. */
  lemma PerformOperationOnNormalised(lhs: Fraction, rhs: Fraction, operatorSymbol: string)
    requires Normalised(lhs) && Normalised(rhs)
    ensures var r := PerformOperation(lhs, rhs, operatorSymbol);
      && (r.Success? ==> Normalised(r.value))
      && (r.Success? && operatorSymbol != "/" ==> r.value.numerator >= 0)
      && (r.Failure? <==> operatorSymbol !in {"+", "-", "*", "/"} || (operatorSymbol == "/" && rhs.numerator == 0))
      && (r.Failure? && operatorSymbol == "/" ==> r.error == DivisionByZero)
  {
    MulOfNormalised(lhs, rhs);
    DivOfNormalised(lhs, rhs);
  }

  /** The right operand of "1/2 + 1/3" parses to 1/3. */
  lemma ScenarioAddParse()
    ensures ParseFraction("1/3") == Success(Fraction(1, 3))
  {
    ParseDigitOverDigit('1', '3');
    assert DigitValue('1') == 1 && DigitValue('3') == 3;
    GcdOne(1, 3);
    FromPartsCanonical(1, 3, Fraction(1, 3));
  }

  /** "1/2 + 1/3" prints "0&5/6". */
  lemma ScenarioAdd()
    ensures PerformOperation(Fraction(1, 2), Fraction(1, 3), "+") == Success(Fraction(5, 6))
    ensures MixedNumber(Fraction(5, 6)) == "0&5/6"
  {
    HalfPlusThird();
    MixedNumberFiveSixths();
  }

  lemma HalfPlusThird()
    ensures Add(Fraction(1, 2), Fraction(1, 3)) == Fraction(5, 6)
  {
    var sum := Add(Fraction(1, 2), Fraction(1, 3));
    assert Abs(2 * 3) == 6 && Abs(1 * 3 + 1 * 2) == 5;
    var g := Gcd(5, 6);
    DividesLinear(g, 6, 5, -1);
    DividesLe(g, 1);
    NormalisedUnique(sum, Fraction(5, 6), 5, 6);
  }

  /** "3 * 2/3" prints "2". */
  lemma ScenarioMulParse()
    ensures ParseFraction("3") == Success(Fraction(3, 1))
    ensures ParseFraction("2/3") == Success(Fraction(2, 3))
  {
    ParseThree();
    ParseTwoThirds();
  }

  lemma ParseThree()
    ensures ParseFraction("3") == Success(Fraction(3, 1))
  {
    ParseDigit('3');
    assert "3" == ['3'] && DigitValue('3') == 3;
  }

  lemma ParseTwoThirds()
    ensures ParseFraction("2/3") == Success(Fraction(2, 3))
  {
    ParseDigitOverDigit('2', '3');
    assert "2/3" == ['2', '/', '3'];
    assert DigitValue('2') == 2 && DigitValue('3') == 3;
    var g := Gcd(2, 3);
    DividesLinear(g, 3, 2, -1);
    DividesLe(g, 1);
    FromPartsCanonical(2, 3, Fraction(2, 3));
  }

  lemma ScenarioMul()
    ensures PerformOperation(Fraction(3, 1), Fraction(2, 3), "*") == Success(Fraction(2, 1))
    ensures MixedNumber(Fraction(2, 1)) == "2"
  {
    GcdOne(2, 1);
    FromPartsCanonical(6, 3, Fraction(2, 1));
    MixedNumberTwo();
  }

  /** "1/2 / 1/2" prints "1", and an unknown operator is reported. */
  lemma ScenarioDiv()
    ensures PerformOperation(Fraction(1, 2), Fraction(1, 2), "/") == Success(Fraction(1, 1))
    ensures MixedNumber(Fraction(1, 1)) == "1"
    ensures PerformOperation(Fraction(1, 2), Fraction(1, 3), "%") == Failure(InvalidOperator)
  {
    GcdOne(1, 1);
    FromPartsCanonical(2, 2, Fraction(1, 1));
    MixedNumberOfWhole(Fraction(1, 1));
    assert IntToString(1) == "1";
  }
}
