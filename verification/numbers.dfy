/** Integer arithmetic under the fraction model.

    Swift's `/` and `%` on `Int` truncate toward zero (the remainder takes the
    sign of the dividend), whereas Dafny's are Euclidean; `TDiv` and `TRem`
    write Swift's pair out. `Divides` is divisibility by a positive divisor,
    which is all the greatest-common-divisor theory needs. */
module Numbers {

  function Abs(x: int): (r: nat)
    ensures r == x || r == -x
  {
    if x < 0 then -x else x
  }

  /** -1, 0 or 1 according to the sign of `x`. */
  function Sign(x: int): (s: int)
    ensures s * Abs(x) == x
    ensures x != 0 ==> s == 1 || s == -1
    ensures x == 0 ==> s == 0
  {
    if x < 0 then -1 else if x > 0 then 1 else 0
  }

  lemma AbsMul(x: int, y: int)
    ensures Abs(x * y) == Abs(x) * Abs(y)
  {
    if x < 0 && y < 0 {
      assert x * y == (-x) * (-y);
    } else if x < 0 {
      assert x * y == -((-x) * y);
    } else if y < 0 {
      assert x * y == -(x * (-y));
    }
  }

  lemma SignMul(x: int, y: int)
    requires y > 0
    ensures Sign(x * y) == Sign(x)
  {
    if x < 0 {
      assert (-x) * y > 0;
    } else if x > 0 {
      assert x * y > 0;
    }
  }

  /** Multiplying by a non-zero factor can be undone. */
  lemma Cancel(c: int, x: int, y: int)
    requires c != 0 && c * x == c * y
    ensures x == y
  {
    assert c * (x - y) == 0;
  }

  lemma MulAtLeast(d: int, k: int)
    requires d > 0 && k >= 1
    ensures d * k >= d
  {
    assert d * k == d * (k - 1) + d;
  }

  /** Euclidean quotient and remainder are determined by the division identity. */
  lemma DivUnique(n: int, d: int, q: int, r: int)
    requires d > 0 && n == d * q + r && 0 <= r < d
    ensures n / d == q && n % d == r
  {
    var q', r' := n / d, n % d;
    assert d * (q - q') == r' - r;
    if q > q' {
      MulAtLeast(d, q - q');
    } else if q < q' {
      MulAtLeast(d, q' - q);
    }
  }

  /** Swift's `Int` division: the quotient rounded toward zero. */
  function TDiv(a: int, b: int): int
    requires b != 0
  {
    if (a < 0) == (b < 0) then Abs(a) / Abs(b) else -(Abs(a) / Abs(b))
  }

  /** What rounding toward zero means: the quotient's magnitude is the
      Euclidean quotient of the magnitudes, and a non-zero quotient is
      negative exactly when the operands' signs differ. */
  lemma TDivTowardZero(a: int, b: int)
    requires b != 0
    ensures Abs(TDiv(a, b)) == Abs(a) / Abs(b)
    ensures TDiv(a, b) != 0 ==> (TDiv(a, b) < 0 <==> (a < 0) != (b < 0))
  {
    var q: int := Abs(a) / Abs(b);
    assert q >= 0;
    if (a < 0) == (b < 0) {
      assert TDiv(a, b) == q;
    } else {
      assert TDiv(a, b) == -q;
    }
  }

  /** Swift's `Int` remainder: what the truncating quotient leaves over. Its
      magnitude is the Euclidean remainder of the magnitudes, and a non-zero
      remainder has the sign of the dividend. */
  function TRem(a: int, b: int): (r: int)
    requires b != 0
    ensures a == b * TDiv(a, b) + r
    ensures Abs(r) == Abs(a) % Abs(b) && Abs(r) < Abs(b)
    ensures r != 0 ==> (r < 0 <==> a < 0)
  {
    TruncationFacts(a, b);
    a - b * TDiv(a, b)
  }

  lemma TruncationFacts(a: int, b: int)
    requires b != 0
    ensures Abs(a - b * TDiv(a, b)) == Abs(a) % Abs(b)
    ensures a - b * TDiv(a, b) != 0 ==> (a - b * TDiv(a, b) < 0 <==> a < 0)
  {
    var A: int, B: int := Abs(a), Abs(b);
    var q: int, m: int := A / B, A % B;
    var t := TDiv(a, b);
    assert A == B * q + m;
    assert t == q || t == -q;
    assert b * t == B * q || b * t == -(B * q) by {
      assert b == B || b == -B;
      NegMul(B, q);
      NegMul(q, B);
    }
    if a >= 0 {
      assert b * t == B * q;
    } else {
      assert b * t == -(B * q);
    }
  }

  lemma NegMul(x: int, y: int)
    ensures (-x) * y == -(x * y) && x * (-y) == -(x * y) && (-x) * (-y) == x * y
  {
  }

  /** A division that leaves nothing over gives the exact cofactor. */
  lemma TDivExact(a: int, b: int, k: int)
    requires b != 0 && a == b * k
    ensures TDiv(a, b) == k
  {
    AbsMul(b, k);
    DivUnique(Abs(a), Abs(b), Abs(k), 0);
    if k < 0 {
      if b < 0 { assert a == (-b) * (-k); } else { assert a == -(b * (-k)); }
    } else if k > 0 {
      if b < 0 { assert a == -((-b) * k); }
    }
  }

  /** Below the divisor in magnitude, the truncating quotient is 0 and the
      remainder is the dividend itself. */
  lemma ProperQuotient(n: int, d: int)
    requires d > 0 && Abs(n) < d
    ensures TDiv(n, d) == 0 && TRem(n, d) == n
  {
    DivUnique(Abs(n), d, 0, Abs(n));
  }

  /** Scaling both operands by the same positive factor keeps the truncating quotient. */
  lemma TDivScale(k: int, a: int, b: int)
    requires k > 0 && b != 0
    ensures TDiv(k * a, k * b) == TDiv(a, b)
  {
    AbsMul(k, a);
    AbsMul(k, b);
    ScaledDiv(k, Abs(a), Abs(b));
    assert (k * a < 0) == (a < 0) by { SignMul(a, k); }
    assert (k * b < 0) == (b < 0) by { SignMul(b, k); }
  }

  /** Scaling both operands by k > 0 scales the truncating remainder by k. */
  lemma RemScale(k: int, a: int, b: int)
    requires k > 0 && b != 0
    ensures k * b != 0 && TRem(k * a, k * b) == k * TRem(a, b)
  {
    var q, r := TDiv(a, b), TRem(a, b);
    PositiveFactor(k, b);
    TDivScale(k, a, b);
    ScaleSum(k, a, b, q, r);
    assert k * a == (k * b) * TDiv(k * a, k * b) + TRem(k * a, k * b);
  }

  lemma ScaleSum(k: int, a: int, b: int, q: int, r: int)
    requires a == b * q + r
    ensures k * a == (k * b) * q + k * r
  {
    assert k * (b * q) == (k * b) * q;
  }

  lemma ScaledDiv(k: int, A: int, B: int)
    requires k > 0 && A >= 0 && B > 0
    ensures (k * A) / (k * B) == A / B
  {
    var q, m := A / B, A % B;
    assert k * A == (k * B) * q + k * m by {
      assert A == B * q + m;
    }
    assert k * m < k * B by {
      assert k * B - k * m == k * (B - m);
      MulAtLeast(k, B - m);
    }
    DivUnique(k * A, k * B, q, k * m);
  }

  /** `d` is a positive divisor of `n`. */
  predicate Divides(d: int, n: int) {
    d > 0 && n % d == 0
  }

  lemma DividesIntro(d: int, n: int, k: int)
    requires d > 0 && n == d * k
    ensures Divides(d, n)
  {
    DivUnique(n, d, k, 0);
  }

  lemma DividesElim(d: int, n: int)
    requires Divides(d, n)
    ensures n == d * (n / d)
  {
  }

  /** Common divisors of `x` and `y` divide every combination of them. */
  lemma DividesLinear(d: int, x: int, y: int, q: int)
    requires Divides(d, x) && Divides(d, y)
    ensures Divides(d, x + y * q)
  {
    var kx, ky := x / d, y / d;
    assert y * q == d * (ky * q) by {
      assert y == d * ky;
    }
    assert x + y * q == d * (kx + ky * q);
    DividesIntro(d, x + y * q, kx + ky * q);
  }

  lemma DividesZero(d: int)
    requires d > 0
    ensures Divides(d, 0)
  {
  }

  lemma DividesAbs(d: int, n: int)
    requires d > 0
    ensures Divides(d, n) <==> Divides(d, Abs(n))
  {
    DividesZero(d);
    if Divides(d, n) {
      DividesLinear(d, 0, n, Sign(n));
      assert 0 + n * Sign(n) == Abs(n);
    }
    if Divides(d, Abs(n)) {
      DividesLinear(d, 0, Abs(n), Sign(n));
      assert 0 + Abs(n) * Sign(n) == n;
    }
  }

  lemma DividesLe(d: int, n: int)
    requires Divides(d, n) && n > 0
    ensures d <= n
  {
    var k := n / d;
    assert n == d * k;
    MulAtLeast(d, k);
  }

  lemma DividesAntisym(a: int, b: int)
    requires Divides(a, b) && Divides(b, a)
    ensures a == b
  {
    DividesLe(a, b);
    DividesLe(b, a);
  }

  /** `Abs(d)` divides `n` exactly, so the truncating quotient multiplies back. */
  lemma TDivOfMultiple(n: int, d: int)
    requires d != 0 && Divides(Abs(d), n)
    ensures d * TDiv(n, d) == n
  {
    var k := n / Abs(d);
    assert n == Abs(d) * k;
    if d < 0 {
      assert n == d * (-k);
      TDivExact(n, d, -k);
    } else {
      TDivExact(n, d, k);
    }
  }

  /** Bringing x/A and y/B to the common denominator L = A*ka = B*kb. */
  lemma CrossScale(x: int, y: int, A: int, B: int, ka: int, kb: int, L: int)
    requires A * ka == L && B * kb == L
    ensures (x * ka + y * kb) * (A * B) == L * (x * B + y * A)
  {
    assert (x * ka) * (A * B) == (x * B) * (A * ka);
    assert (y * kb) * (A * B) == (y * A) * (B * kb);
  }

  /** Dividing N and D by a common positive factor g, the numerator carrying
      the sign s. */
  lemma ReduceArith(s: int, N: int, D: int, g: int, n': int, d': int)
    requires g > 0 && N >= 0 && D > 0 && (s == 1 || s == -1)
    requires N == g * n' && D == g * d'
    ensures TDiv(s * N, g) == s * n' && TDiv(D, g) == d' && d' > 0
    ensures Abs(s * n') == n'
    ensures (s * n') * D == s * N * d'
    ensures s * n' < 0 <==> s < 0 && N > 0
  {
    SameSign(g, D, d');
    SameSign(g, N, n');
    TDivExact(D, g, d');
    assert n' * D == N * d' by {
      assert n' * (g * d') == (g * n') * d';
    }
    if s == 1 {
      assert s * N == N && s * n' == n';
      TDivExact(N, g, n');
    } else {
      assert s * N == -N && s * n' == -n';
      NegMul(g, n');
      TDivExact(-N, g, -n');
      NegMul(n', D);
      NegMul(N, d');
    }
  }

  /** A positive factor keeps the sign of the other factor. */
  lemma SameSign(g: int, x: int, y: int)
    requires g > 0 && x == g * y
    ensures x > 0 <==> y > 0
    ensures x == 0 <==> y == 0
  {
    if y > 0 {
      MulAtLeast(g, y);
    } else if y < 0 {
      MulAtLeast(g, -y);
      NegMul(g, y);
    }
  }

  /** A non-zero truncating remainder, split into the sign of the dividend
      and a magnitude strictly between 0 and the divisor. */
  lemma RemainderParts(n: int, d: int)
    requires d > 0 && TRem(n, d) != 0
    ensures 0 < Abs(TRem(n, d)) < d
    ensures TDiv(n, d) * d + Sign(n) * Abs(TRem(n, d)) == n
  {
    var q, r := TDiv(n, d), TRem(n, d);
    assert n == d * q + r;
    assert n != 0;
    SignAbs(n, r);
    assert d * q == q * d;
  }

  /** Two fractions that both equal n/d cross-multiply to each other. */
  lemma CrossCancel(d: int, n: int, fn: int, fd: int, hn: int, hd: int)
    requires d != 0 && fn * d == n * fd && hn * d == n * hd
    ensures fn * hd == hn * fd
  {
    assert d * (fn * hd) == (fn * d) * hd;
    assert (n * fd) * hd == fd * (n * hd);
    assert fd * (hn * d) == d * (hn * fd);
    Cancel(d, fn * hd, hn * fd);
  }

  lemma AbsCross(fn: int, hd: int, hn: int, fd: int)
    requires fn * hd == hn * fd && hd > 0 && fd > 0
    ensures Abs(fn) * hd == fd * Abs(hn)
  {
    AbsMul(fn, hd);
    AbsMul(hn, fd);
  }

  /** If 0 * b == c * d with d non-zero, then c is zero. */
  lemma ZeroCross(a: int, b: int, c: int, d: int)
    requires a == 0 && a * b == c * d && d != 0
    ensures c == 0
  {
  }

  /** f = |N| / L and N / L = X / P give f = |X| / |P|. */
  lemma CancelScaled(L: int, fn: int, fd: int, N: int, X: int, P: int)
    requires L > 0 && fn * L == Abs(N) * fd && N * P == L * X
    ensures fn * Abs(P) == Abs(X) * fd
  {
    AbsMul(N, P);
    AbsMul(L, X);
    assert Abs(N) * Abs(P) == L * Abs(X);
    assert L * (fn * Abs(P)) == (fn * L) * Abs(P);
    assert (Abs(N) * fd) * Abs(P) == fd * (Abs(N) * Abs(P));
    assert fd * (L * Abs(X)) == L * (Abs(X) * fd);
    Cancel(L, fn * Abs(P), Abs(X) * fd);
  }

  /** A non-zero remainder with the dividend's sign is sign(dividend) * |remainder|. */
  lemma SignAbs(a: int, r: int)
    requires a != 0 && r != 0 && (r < 0 <==> a < 0)
    ensures Sign(a) * Abs(r) == r
  {
  }

  lemma NegateDenominator(fn: int, fd: int, n: int, d: int)
    requires d != 0 && fn * Abs(d) == Sign(d) * Abs(n) * fd
    ensures (-fn) * Abs(-d) == Sign(-d) * Abs(n) * fd
  {
    assert Abs(-d) == Abs(d) && Sign(-d) == -Sign(d);
    assert (-fn) * Abs(d) == -(fn * Abs(d));
    assert -Sign(d) * Abs(n) * fd == -(Sign(d) * Abs(n) * fd);
  }

  /** The factors of a divisor's sign and size when one factor is positive. */
  lemma PositiveFactor(p: int, x: int)
    requires p > 0
    ensures Abs(p * x) == p * Abs(x) && Abs(x * p) == Abs(x) * p
    ensures Sign(p * x) == Sign(x)
    ensures p * x == 0 <==> x == 0
  {
    AbsMul(p, x);
    AbsMul(x, p);
    SignMul(x, p);
    assert p * x == x * p;
  }

  lemma NonPositiveProduct(p: int, x: int)
    requires p > 0 && x <= 0
    ensures p * x <= 0
  {
  }

  lemma ZeroProduct(x: int, y: int)
    ensures x * y == 0 <==> x == 0 || y == 0
  {
    if x != 0 && y != 0 {
      AbsMul(x, y);
      MulAtLeast(Abs(x), Abs(y));
    }
  }

  /** With non-negative numerators and positive denominators the cross
      products are non-negative, so taking magnitudes changes nothing. */
  lemma NonNegativeCross(an: int, ad: int, bn: int, bd: int)
    requires an >= 0 && ad > 0 && bn >= 0 && bd > 0
    ensures Abs(an * bd + bn * ad) == an * bd + bn * ad
    ensures Abs(ad * bd) == ad * bd && Abs(an * bn) == an * bn
  {
    assert an * bd >= 0 && bn * ad >= 0;
    assert ad * bd > 0 && an * bn >= 0;
  }

  /** Subtracting a term is adding its negation, in both cross products. */
  lemma MinusAsPlus(a: int, b: int, x: int, y: int, p: int, q: int)
    ensures a * x - b * y == a * x + (-b) * y
    ensures a * q - b * p == a * q + (-b) * p
  {
    NegMul(b, y);
    NegMul(b, p);
  }
}
