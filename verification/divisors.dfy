/** The two private helpers of the `Fraction` struct: Euclid's greatest common
    divisor, written with Swift's truncating remainder, and the product-based
    least common multiple; with the facts about them that reduction to lowest
    terms relies on. */
module Divisors {
  import opened Numbers

  /** `greatestCommonDivisor(a, b)`. Every call shrinks `|b|`, since the
      truncating remainder is smaller than the divisor in magnitude, so the
      recursion ends. The result is a positive common divisor of `a` and `b`
      that every positive common divisor divides. */
  function Gcd(a: int, b: int): (g: int)
    requires b != 0
    ensures g > 0 && Divides(g, a) && Divides(g, b)
    ensures forall c :: Divides(c, a) && Divides(c, b) ==> Divides(c, g)
    decreases Abs(b)
  {
    var remainder := TRem(a, b);
    if remainder != 0 then
      var g := Gcd(b, remainder);
      GcdStep(a, b, g);
      g
    else
      GcdBase(a, b);
      Abs(b)
  }

  lemma GcdStep(a: int, b: int, g: int)
    requires b != 0
    requires Divides(g, b) && Divides(g, TRem(a, b))
    requires forall c :: Divides(c, b) && Divides(c, TRem(a, b)) ==> Divides(c, g)
    ensures Divides(g, a)
    ensures forall c :: Divides(c, a) && Divides(c, b) ==> Divides(c, g)
  {
    var q, r := TDiv(a, b), TRem(a, b);
    assert r + b * q == a;
    DividesLinear(g, r, b, q);
    NegMul(b, q);
    assert a + b * -q == r;
    forall c | Divides(c, a) && Divides(c, b)
      ensures Divides(c, g)
    {
      DividesLinear(c, a, b, -q);
    }
  }

  lemma GcdBase(a: int, b: int)
    requires b != 0 && TRem(a, b) == 0
    ensures Abs(b) > 0 && Divides(Abs(b), a) && Divides(Abs(b), b)
    ensures forall c :: Divides(c, a) && Divides(c, b) ==> Divides(c, Abs(b))
  {
    var q := TDiv(a, b);
    assert a == b * q;
    assert a == Abs(b) * (Sign(b) * q) by {
      assert b == Abs(b) * Sign(b);
    }
    DividesIntro(Abs(b), a, Sign(b) * q);
    DividesIntro(Abs(b), b, Sign(b));
    forall c | Divides(c, a) && Divides(c, b)
      ensures Divides(c, Abs(b))
    {
      DividesAbs(c, b);
    }
  }

  /** The divisibility properties in Gcd's contract pin the result down. */
  lemma GcdUnique(a: int, b: int, h: int)
    requires b != 0 && h > 0 && Divides(h, a) && Divides(h, b)
    requires forall c :: Divides(c, a) && Divides(c, b) ==> Divides(c, h)
    ensures Gcd(a, b) == h
  {
    DividesAntisym(Gcd(a, b), h);
  }

  /** Signs of the arguments do not matter. */
  lemma GcdAbs(a: int, b: int)
    requires b != 0
    ensures Gcd(a, b) == Gcd(Abs(a), Abs(b))
  {
    var g := Gcd(a, b);
    DividesAbs(g, a);
    DividesAbs(g, b);
    forall c | Divides(c, Abs(a)) && Divides(c, Abs(b))
      ensures Divides(c, g)
    {
      DividesAbs(c, a);
      DividesAbs(c, b);
    }
    GcdUnique(Abs(a), Abs(b), g);
  }

  /** gcd(0, b) is |b|. */
  lemma GcdZero(b: int)
    requires b != 0
    ensures Gcd(0, b) == Abs(b)
  {
  }

  /** Only 1 divides 1. */
  lemma GcdOne(a: int, b: int)
    requires b != 0 && (Abs(a) == 1 || Abs(b) == 1)
    ensures Gcd(a, b) == 1
  {
    var g := Gcd(a, b);
    if Abs(a) == 1 {
      DividesAbs(g, a);
      DividesLe(g, 1);
    } else {
      DividesAbs(g, b);
      DividesLe(g, 1);
    }
  }

  /** gcd(k*a, k*b) == k*gcd(a, b) for a positive factor k, following the
      Euclidean recursion step by step. */
  lemma {:induction false} GcdScale(k: int, a: int, b: int)
    requires k > 0 && b != 0
    ensures Gcd(k * a, k * b) == k * Gcd(a, b)
    decreases Abs(b)
  {
    var r := TRem(a, b);
    RemScale(k, a, b);
    PositiveFactor(k, r);
    PositiveFactor(k, b);
    if r != 0 {
      GcdScale(k, b, r);
    }
  }

  /** Dividing both arguments by their gcd leaves a coprime pair. */
  lemma ReducedCoprime(a: int, b: int)
    requires b > 0
    ensures Gcd(a / Gcd(a, b), b / Gcd(a, b)) == 1
  {
    var g := Gcd(a, b);
    var a', b' := a / g, b / g;
    DividesElim(g, a);
    DividesElim(g, b);
    assert b' != 0;
    GcdScale(g, a', b');
    Cancel(g, Gcd(a', b'), 1);
  }

  /** Euclid's lemma: a divisor of a product that shares nothing with one
      factor divides the other. */
  lemma Euclid(d: int, a: int, b: int)
    requires d > 0 && b > 0 && Divides(d, a * b) && Gcd(a, d) == 1
    ensures Divides(d, b)
  {
    var x, y := b * a, b * d;
    assert x == a * b;
    DividesIntro(d, y, b);
    GcdScale(b, a, d);
    assert Gcd(x, y) == b;
    GcdGreatest(x, y, d);
  }

  /** The universal half of Gcd's contract, for one divisor. */
  lemma GcdGreatest(a: int, b: int, c: int)
    requires b != 0 && Divides(c, a) && Divides(c, b)
    ensures Divides(c, Gcd(a, b))
  {
  }

  /** `leastCommonMultiple(a, b)`: |a*b| / gcd(a, b). Both operands of the
      division are non-negative, so Swift's and Dafny's `/` agree. For a
      non-zero `a` it is a positive common multiple of |a| and |b|. */
  function Lcm(a: int, b: int): (l: int)
    requires b != 0
    ensures a == 0 ==> l == 0
    ensures a != 0 ==> l > 0 && Divides(Abs(a), l) && Divides(Abs(b), l)
  {
    LcmFacts(a, b);
    Abs(a * b) / Gcd(a, b)
  }

  lemma LcmFacts(a: int, b: int)
    requires b != 0
    ensures a == 0 ==> Abs(a * b) / Gcd(a, b) == 0
    ensures a != 0 ==> var l := Abs(a * b) / Gcd(a, b);
      l > 0 && Divides(Abs(a), l) && Divides(Abs(b), l)
  {
    CommonDivisorQuotient(a, b, Gcd(a, b));
  }

  lemma CommonDivisorQuotient(a: int, b: int, g: int)
    requires b != 0 && Divides(g, a) && Divides(g, b)
    ensures a == 0 ==> Abs(a * b) / g == 0
    ensures a != 0 ==> var l := Abs(a * b) / g;
      l > 0 && Divides(Abs(a), l) && Divides(Abs(b), l)
  {
    DividesAbs(g, a);
    DividesAbs(g, b);
    var a', b' := Abs(a) / g, Abs(b) / g;
    DividesElim(g, Abs(a));
    DividesElim(g, Abs(b));
    LcmQuotient(a, b, g, a');
    if a != 0 {
      LcmMultiple(Abs(a), Abs(b), g, a', b');
    }
  }

  lemma LcmQuotient(a: int, b: int, g: int, a': int)
    requires g > 0 && Abs(a) == g * a'
    ensures Abs(a * b) / g == a' * Abs(b)
  {
    AbsMul(a, b);
    assert Abs(a * b) == g * (a' * Abs(b));
    DivUnique(Abs(a * b), g, a' * Abs(b), 0);
  }

  /** `Lcm` is the least common multiple: every common multiple of |a| and
      |b| is a multiple of it. With g = gcd(a, b), |a| = g*a' and
      |b| = g*b' for coprime a' and b'; a common multiple |a|*j needs b' to
      divide a'*j, so by Euclid's lemma b' divides j. */
  lemma LcmLeast(a: int, b: int, m: int)
    requires a != 0 && b != 0 && Divides(Abs(a), m) && Divides(Abs(b), m)
    ensures Divides(Lcm(a, b), m)
  {
    var A, B := Abs(a), Abs(b);
    LcmOfMagnitudes(a, b);
    DividesAbs(A, m);
    DividesAbs(B, m);
    DividesAbs(Lcm(a, b), m);
    if m == 0 {
      DividesZero(Lcm(a, b));
    } else {
      LcmLeastPositive(A, B, Abs(m));
    }
  }

  lemma LcmOfMagnitudes(a: int, b: int)
    requires b != 0
    ensures Lcm(a, b) == Lcm(Abs(a), Abs(b))
  {
    AbsMul(a, b);
    AbsMul(Abs(a), Abs(b));
    GcdAbs(a, b);
  }

  lemma LcmLeastPositive(A: int, B: int, M: int)
    requires A > 0 && B > 0 && M > 0 && Divides(A, M) && Divides(B, M)
    ensures Divides(Lcm(A, B), M)
  {
    var g := Gcd(A, B);
    var a', b' := A / g, B / g;
    DividesElim(g, A);
    DividesElim(g, B);
    LcmQuotient(A, B, g, a');
    ReducedCoprime(A, B);
    var j, k := M / A, M / B;
    DividesElim(A, M);
    DividesElim(B, M);
    CommonMultipleCofactors(g, a', b', j, k, M);
    DividesIntro(b', a' * j, k);
    Euclid(b', a', j);
    var t := j / b';
    DividesElim(b', j);
    LcmMultipleOf(g, a', b', j, t, M);
    DividesIntro(Lcm(A, B), M, t);
  }

  lemma CommonMultipleCofactors(g: int, a': int, b': int, j: int, k: int, M: int)
    requires g > 0 && a' > 0 && b' > 0 && M > 0
    requires M == (g * a') * j && M == (g * b') * k
    ensures j > 0 && b' * k == a' * j
  {
    assert g * a' > 0;
    assert j > 0 by {
      if j <= 0 {
        NonPositiveProduct(g * a', j);
      }
    }
    assert g * (b' * k) == g * (a' * j);
    Cancel(g, b' * k, a' * j);
  }

  lemma LcmMultipleOf(g: int, a': int, b': int, j: int, t: int, M: int)
    requires M == (g * a') * j && j == b' * t
    ensures M == (a' * (g * b')) * t
  {
    assert (g * a') * (b' * t) == (a' * (g * b')) * t;
  }

  lemma LcmMultiple(A: int, B: int, g: int, a': int, b': int)
    requires A > 0 && B > 0 && g > 0 && A == g * a' && B == g * b'
    ensures a' * B > 0 && Divides(A, a' * B) && Divides(B, a' * B)
  {
    assert a' > 0;
    assert a' * B == A * b' by {
      assert a' * (g * b') == (g * a') * b';
    }
    DividesIntro(A, a' * B, b');
    DividesIntro(B, a' * B, a');
  }
}
