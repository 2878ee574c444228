/**
 * Fractions of integers, following `RationalNumber` of
 * src/coefficients/rational_numbers.rs.
 *
 * A value is the raw pair (numerator, denominator) and equality compares the
 * raw fields, so `New(2, 4)` and `New(1, 2)` differ. Addition and
 * multiplication bring their result to lowest terms with a positive
 * denominator; `New` and `Neg` do not.
 */
module Rationals {

  datatype Rational = Rational(numerator: int, denominator: int)

  function Abs(x: int): nat {
    if x < 0 then -x else x
  }

  /** The number a fraction with a non-zero denominator stands for. */
  ghost function Value(r: Rational): real
    requires r.denominator != 0
  {
    r.numerator as real / r.denominator as real
  }

  /** Cross-multiplication: the integer form of "same value". */
  predicate SameValue(x: Rational, y: Rational) {
    x.numerator * y.denominator == y.numerator * x.denominator
  }

  /** Lowest terms with a strictly positive denominator. */
  predicate IsNormalized(r: Rational) {
    r.denominator > 0 && Gcd(Abs(r.numerator), Abs(r.denominator)) == 1
  }

  // ---------------------------------------------------------------- divisibility and gcd

  predicate Divides(d: nat, n: int) {
    d > 0 && n % d == 0
  }

  /**
   * Greatest common divisor of two magnitudes, by Euclid's subtraction
   * algorithm; `Gcd(0, 0) == 0` as in the `num` crate.
   */
  function Gcd(a: nat, b: nat): (g: nat)
    ensures a != 0 || b != 0 ==> g > 0
    decreases a + b
  {
    if a == 0 then b
    else if b == 0 then a
    else if a >= b then Gcd(a - b, b)
    else Gcd(a, b - a)
  }

  lemma DividesIntro(d: nat, k: int)
    requires d > 0
    ensures Divides(d, d * k)
  {
    var n := d * k;
    var q, r := n / d, n % d;
    assert n == d * q + r && 0 <= r < d;
    assert d * (k - q) == r;
    SmallMultiple(d, k - q);
  }

  /** A multiple of `d` that lies in `[0, d)` is zero. */
  lemma SmallMultiple(d: int, m: int)
    requires d > 0 && 0 <= d * m < d
    ensures m == 0
  {
    if m >= 1 {
      MulMonotone(d, 1, m);
    } else if m <= -1 {
      MulMonotone(d, m, -1);
    }
  }

  lemma MulMonotone(d: int, x: int, y: int)
    requires d > 0 && x <= y
    ensures d * x <= d * y
  {
  }

  lemma DividesElim(d: nat, n: int)
    requires Divides(d, n)
    ensures n == d * (n / d)
  {
  }

  lemma DividesAbs(d: nat, n: int)
    requires d > 0
    ensures Divides(d, n) <==> Divides(d, Abs(n))
  {
    if n < 0 {
      if Divides(d, n) {
        DividesElim(d, n);
        var q := n / d;
        assert -n == d * -q;
        DividesIntro(d, -q);
      }
      if Divides(d, -n) {
        DividesElim(d, -n);
        var q := -n / d;
        assert n == d * -q;
        DividesIntro(d, -q);
      }
    }
  }

  /** A divisor of a positive number is at most that number. */
  lemma DividesLe(d: nat, n: int)
    requires Divides(d, n) && n > 0
    ensures d <= n
  {
    DividesElim(d, n);
    var k := n / d;
    if k <= 0 {
      MulMonotone(d, k, 0);
    } else {
      MulMonotone(d, 1, k);
    }
  }

  lemma DividesSum(g: nat, x: int, y: int)
    requires Divides(g, x) && Divides(g, y)
    ensures Divides(g, x + y) && Divides(g, x - y)
  {
    DividesElim(g, x);
    DividesElim(g, y);
    assert x + y == g * (x / g + y / g);
    assert x - y == g * (x / g - y / g);
    DividesIntro(g, x / g + y / g);
    DividesIntro(g, x / g - y / g);
  }

  /** The gcd divides both arguments. */
  lemma {:induction false} GcdDivides(a: nat, b: nat)
    requires a != 0 || b != 0
    ensures Divides(Gcd(a, b), a) && Divides(Gcd(a, b), b)
    decreases a + b
  {
    var g := Gcd(a, b);
    if a == 0 || b == 0 {
      DividesIntro(g, 0);
      DividesIntro(g, 1);
    } else if a >= b {
      GcdDivides(a - b, b);
      DividesSum(g, a - b, b);
    } else {
      GcdDivides(a, b - a);
      DividesSum(g, b - a, a);
    }
  }

  /** Every common divisor of the arguments divides their gcd. */
  lemma {:induction false} GcdGreatest(c: nat, a: nat, b: nat)
    requires Divides(c, a) && Divides(c, b)
    ensures Divides(c, Gcd(a, b))
    decreases a + b
  {
    if a != 0 && b != 0 {
      if a >= b {
        DividesSum(c, a, b);
        GcdGreatest(c, a - b, b);
      } else {
        DividesSum(c, b, a);
        GcdGreatest(c, a, b - a);
      }
    }
  }

  /** Bezout coefficients: `s * a + t * b == Gcd(a, b)`. */
  lemma {:induction false} Bezout(a: nat, b: nat) returns (s: int, t: int)
    ensures s * a + t * b == Gcd(a, b)
    decreases a + b
  {
    if a == 0 {
      s, t := 0, 1;
    } else if b == 0 {
      s, t := 1, 0;
    } else if a >= b {
      var s', t' := Bezout(a - b, b);
      s, t := s', t' - s';
      assert s' * (a - b) == s' * a - s' * b;
      assert (t' - s') * b == t' * b - s' * b;
    } else {
      var s', t' := Bezout(a, b - a);
      s, t := s' - t', t';
      assert t' * (b - a) == t' * b - t' * a;
      assert (s' - t') * a == s' * a - t' * a;
    }
  }

  /** Conversely, an integer combination of `a` and `b` equal to one makes them coprime. */
  lemma CoprimeByWitness(a: nat, b: nat, s: int, t: int)
    requires s * a + t * b == 1
    ensures Gcd(a, b) == 1
  {
    var g := Gcd(a, b);
    GcdDivides(a, b);
    DividesElim(g, a);
    DividesElim(g, b);
    var u, v := a / g, b / g;
    assert s * a + t * b == g * (s * u + t * v) by {
      assert s * a == s * (g * u);
      assert t * b == t * (g * v);
    }
    DividesIntro(g, s * u + t * v);
    DividesLe(g, 1);
  }

  /** Euclid's lemma: a number coprime to `b` that divides `b * c` divides `c`. */
  lemma Gauss(a: nat, b: int, c: int)
    requires Gcd(Abs(b), a) == 1 && Divides(a, b * c)
    ensures Divides(a, c)
  {
    var s, t := Bezout(Abs(b), a);
    DividesElim(a, b * c);
    var m := (b * c) / a;
    var m' := if b < 0 then -m else m;
    assert Abs(b) * c == a * m' by {
      if b < 0 {
        assert Abs(b) * c == -(b * c);
      }
    }
    CombineMultiple(a, Abs(b), c, s, t, m');
    DividesIntro(a, s * m' + t * c);
  }

  /** If `s * b + t * a == 1` and `b * c == a * m`, then `c` is a multiple of `a`. */
  lemma CombineMultiple(a: int, b: int, c: int, s: int, t: int, m: int)
    requires s * b + t * a == 1 && b * c == a * m
    ensures c == a * (s * m + t * c)
  {
    calc {
      c;
      (s * b + t * a) * c;
      s * (b * c) + t * a * c;
      s * (a * m) + t * a * c;
      a * (s * m + t * c);
    }
  }

  /** `g` divides `n` exactly, whatever the sign of `n`, when it divides `|n|`. */
  lemma ExactQuotient(g: nat, n: int)
    requires Divides(g, Abs(n))
    ensures Divides(g, n) && n == g * (n / g)
  {
    DividesAbs(g, n);
    DividesElim(g, n);
  }

  /** A common factor of two multiples of `g` yields a larger common divisor. */
  lemma ScaledDivisor(g: nat, h: nat, m: int)
    requires g > 0 && Divides(h, m)
    ensures Divides(g * h, Abs(g * m))
  {
    DividesElim(h, m);
    var u := m / h;
    assert g * m == (g * h) * u;
    DividesIntro(g * h, u);
    DividesAbs(g * h, g * m);
  }

  /** If `g * h` divides `g` then `h` is one. */
  lemma DividesOwnFactor(g: nat, h: nat)
    requires g > 0 && h > 0 && Divides(g * h, g)
    ensures h == 1
  {
    DividesLe(g * h, g);
    if h >= 2 {
      MulMonotone(g, 2, h);
    }
  }

  /**
   * Dividing both parts by their gcd `g` keeps the denominator non-zero,
   * keeps the value and leaves the parts coprime.
   */
  lemma ReduceByGcd(n: int, d: int, g: nat)
    requires d != 0 && g == Gcd(Abs(n), Abs(d))
    ensures g > 0 && d / g != 0
    ensures n * (d / g) == (n / g) * d
    ensures Gcd(Abs(n / g), Abs(d / g)) == 1
  {
    GcdDivides(Abs(n), Abs(d));
    ExactQuotient(g, n);
    ExactQuotient(g, d);
    QuotientsCross(n, d, g, n / g, d / g);
    QuotientsCoprime(n, d, g, n / g, d / g);
  }

  lemma QuotientsCross(n: int, d: int, g: nat, n': int, d': int)
    requires n == g * n' && d == g * d'
    ensures n * d' == n' * d
  {
    assert n * d' == g * (n' * d');
    assert n' * d == g * (n' * d');
  }

  lemma QuotientsCoprime(n: int, d: int, g: nat, n': int, d': int)
    requires d != 0 && g == Gcd(Abs(n), Abs(d)) && g > 0
    requires n == g * n' && d == g * d'
    ensures Gcd(Abs(n'), Abs(d')) == 1
  {
    assert d' != 0;
    var h := Gcd(Abs(n'), Abs(d'));
    GcdDivides(Abs(n'), Abs(d'));
    DividesAbs(h, n');
    DividesAbs(h, d');
    ScaledDivisor(g, h, n');
    ScaledDivisor(g, h, d');
    GcdGreatest(g * h, Abs(n), Abs(d));
    DividesOwnFactor(g, h);
  }


  // ---------------------------------------------------------------- values

  /** Cross-multiplication agrees with equality of values. */
  lemma SameValueIsEqualValue(x: Rational, y: Rational)
    requires x.denominator != 0 && y.denominator != 0
    ensures SameValue(x, y) <==> Value(x) == Value(y)
  {
    var xn, xd, yn, yd := x.numerator as real, x.denominator as real, y.numerator as real, y.denominator as real;
    assert Value(x) * xd == xn;
    assert Value(y) * yd == yn;
    assert (x.numerator * y.denominator) as real == xn * yd;
    assert (y.numerator * x.denominator) as real == yn * xd;
    if Value(x) == Value(y) {
      assert xn * yd == Value(x) * xd * yd;
      assert yn * xd == Value(y) * yd * xd;
    }
    if SameValue(x, y) {
      assert xn * yd == yn * xd;
      assert xn / xd == yn / yd;
    }
  }

  lemma CancelFactor(a: int, b: int, d: int)
    requires d != 0 && a * d == b * d
    ensures a == b
  {
    assert (a - b) * d == 0;
  }

  /** In lowest terms, the denominator divides the denominator of every other fraction of the same value. */
  lemma DenominatorDivides(x: Rational, y: Rational)
    requires IsNormalized(x) && y.denominator > 0 && SameValue(x, y)
    ensures Divides(x.denominator, y.denominator)
  {
    DividesIntro(x.denominator, y.numerator);
    assert x.numerator * y.denominator == x.denominator * y.numerator;
    Gauss(x.denominator, x.numerator, y.denominator);
  }

  /** Two fractions in lowest terms with positive denominators and the same value are identical. */
  lemma NormalFormUnique(x: Rational, y: Rational)
    requires IsNormalized(x) && IsNormalized(y) && SameValue(x, y)
    ensures x == y
  {
    DenominatorDivides(x, y);
    DenominatorDivides(y, x);
    DividesLe(x.denominator, y.denominator);
    DividesLe(y.denominator, x.denominator);
    CancelFactor(x.numerator, y.numerator, x.denominator);
  }

  lemma NormalFormUniqueByValue(x: Rational, y: Rational)
    requires IsNormalized(x) && IsNormalized(y) && Value(x) == Value(y)
    ensures x == y
  {
    SameValueIsEqualValue(x, y);
    NormalFormUnique(x, y);
  }

  // ---------------------------------------------------------------- operations

  /** `new`: the pair stored exactly as given, not reduced. */
  function New(numerator: int, denominator: int): (r: Rational)
    ensures r.numerator == numerator && r.denominator == denominator
  {
    Rational(numerator, denominator)
  }

  /**
   * `normalize`: divide both parts by their gcd, then flip both signs when the
   * denominator is negative. The source divides with Rust's truncating `/`;
   * the gcd divides both parts exactly, so Dafny's `/` gives the same quotient.
   */
  function Normalize(r: Rational): (s: Rational)
    requires r.denominator != 0
    ensures IsNormalized(s)
    ensures Value(s) == Value(r)
    ensures r.numerator == 0 <==> s == Zero()
  {
    var g := Gcd(Abs(r.numerator), Abs(r.denominator));
    ReduceByGcd(r.numerator, r.denominator, g);
    var n, d := r.numerator / g, r.denominator / g;
    FixSign(r, n, d);
    if d < 0 then Rational(-n, -d) else Rational(n, d)
  }

  /** Flipping both signs of a coprime pair of the value of `r` gives `r` in lowest terms. */
  lemma FixSign(r: Rational, n: int, d: int)
    requires r.denominator != 0 && d != 0
    requires Gcd(Abs(n), Abs(d)) == 1 && r.numerator * d == n * r.denominator
    ensures var s := if d < 0 then Rational(-n, -d) else Rational(n, d);
      IsNormalized(s) && Value(s) == Value(r) && (r.numerator == 0 <==> s == Zero())
  {
    var s := if d < 0 then Rational(-n, -d) else Rational(n, d);
    assert Abs(s.numerator) == Abs(n) && Abs(s.denominator) == Abs(d);
    assert SameValue(r, s);
    SameValueIsEqualValue(r, s);
    ZeroNormalForm(s);
    if r.numerator == 0 {
      CancelFactor(s.numerator, 0, r.denominator);
    }
    if s.numerator == 0 {
      CancelFactor(r.numerator, 0, s.denominator);
    }
  }

  lemma ZeroNormalForm(s: Rational)
    requires IsNormalized(s)
    ensures s.numerator == 0 <==> s == Rational(0, 1)
  {
    if s.numerator == 0 {
      assert Gcd(0, s.denominator) == s.denominator;
    }
  }

  /** `zero()`, the fraction 0/1. */
  function Zero(): (r: Rational)
    ensures IsNormalized(r) && Value(r) == 0.0
  {
    Rational(0, 1)
  }

  /** `one()`, the fraction 1/1. */
  function One(): (r: Rational)
    ensures IsNormalized(r) && Value(r) == 1.0
  {
    Rational(1, 1)
  }

  /** `is_zero` looks at the numerator only. */
  predicate IsZero(r: Rational) {
    r.numerator == 0
  }

  /** `a + b`: cross-multiply, then normalize; the result is the sum of the values in lowest terms. */
  function Add(a: Rational, b: Rational): (r: Rational)
    requires a.denominator != 0 && b.denominator != 0
    ensures IsNormalized(r)
    ensures Value(r) == Value(a) + Value(b)
  {
    var d := a.denominator * b.denominator;
    assert d != 0;
    var r := Normalize(Rational(a.numerator * b.denominator + b.numerator * a.denominator, d));
    SumValue(a, b);
    r
  }

  lemma SumValue(a: Rational, b: Rational)
    requires a.denominator != 0 && b.denominator != 0
    ensures a.denominator * b.denominator != 0
    ensures Value(Rational(a.numerator * b.denominator + b.numerator * a.denominator, a.denominator * b.denominator))
         == Value(a) + Value(b)
  {
    var an, ad, bn, bd := a.numerator as real, a.denominator as real, b.numerator as real, b.denominator as real;
    assert (a.numerator * b.denominator + b.numerator * a.denominator) as real == an * bd + bn * ad;
    assert (a.denominator * b.denominator) as real == ad * bd;
    assert (an * bd + bn * ad) / (ad * bd) == an / ad + bn / bd;
  }

  /** `-a`: the numerator negated, the denominator kept, nothing reduced. */
  function Neg(a: Rational): (r: Rational)
    ensures r.numerator == -a.numerator && r.denominator == a.denominator
    ensures a.denominator != 0 ==> Value(r) == -Value(a)
  {
    Rational(-a.numerator, a.denominator)
  }

  /** `a - b` is `a + (-b)`, so its result is normalized. */
  function Sub(a: Rational, b: Rational): (r: Rational)
    requires a.denominator != 0 && b.denominator != 0
    ensures IsNormalized(r)
    ensures Value(r) == Value(a) - Value(b)
  {
    Add(a, Neg(b))
  }

  /** `a * b`: multiply the parts, then normalize; the result is the product of the values in lowest terms. */
  function Mul(a: Rational, b: Rational): (r: Rational)
    requires a.denominator != 0 && b.denominator != 0
    ensures IsNormalized(r)
    ensures Value(r) == Value(a) * Value(b)
  {
    var d := a.denominator * b.denominator;
    assert d != 0;
    var r := Normalize(Rational(a.numerator * b.numerator, d));
    ProductValue(a, b);
    r
  }

  lemma ProductValue(a: Rational, b: Rational)
    requires a.denominator != 0 && b.denominator != 0
    ensures a.denominator * b.denominator != 0
    ensures Value(Rational(a.numerator * b.numerator, a.denominator * b.denominator)) == Value(a) * Value(b)
  {
    var an, ad, bn, bd := a.numerator as real, a.denominator as real, b.numerator as real, b.denominator as real;
    assert (a.numerator * b.numerator) as real == an * bn;
    assert (a.denominator * b.denominator) as real == ad * bd;
    assert (an * bn) / (ad * bd) == (an / ad) * (bn / bd);
  }

  // ---------------------------------------------------------------- laws

  /** `normalize` leaves a fraction already in lowest terms unchanged, so it is idempotent. */
  lemma NormalizeFixesNormalized(r: Rational)
    requires IsNormalized(r)
    ensures Normalize(r) == r
  {
    NormalFormUniqueByValue(Normalize(r), r);
  }

  lemma NormalizeIdempotent(r: Rational)
    requires r.denominator != 0
    ensures Normalize(Normalize(r)) == Normalize(r)
  {
    NormalizeFixesNormalized(Normalize(r));
  }

  /** Fractions of equal value normalize to the same pair. */
  lemma NormalizeRespectsValue(x: Rational, y: Rational)
    requires x.denominator != 0 && y.denominator != 0 && SameValue(x, y)
    ensures Normalize(x) == Normalize(y)
  {
    SameValueIsEqualValue(x, y);
    NormalFormUniqueByValue(Normalize(x), Normalize(y));
  }

  /** For a fraction with a non-zero denominator, `is_zero` is exactly "has value zero". */
  lemma IsZeroIffValueZero(r: Rational)
    requires r.denominator != 0
    ensures IsZero(r) <==> Value(r) == 0.0
  {
    if Value(r) == 0.0 {
      assert r.numerator as real == Value(r) * r.denominator as real;
    }
  }

  /** Addition and multiplication are commutative. */
  lemma Commutative(a: Rational, b: Rational)
    requires a.denominator != 0 && b.denominator != 0
    ensures Add(a, b) == Add(b, a)
    ensures Mul(a, b) == Mul(b, a)
  {
    NormalFormUniqueByValue(Add(a, b), Add(b, a));
    NormalFormUniqueByValue(Mul(a, b), Mul(b, a));
  }

  lemma AddAssoc(a: Rational, b: Rational, c: Rational)
    requires a.denominator != 0 && b.denominator != 0 && c.denominator != 0
    ensures Add(Add(a, b), c) == Add(a, Add(b, c))
  {
    NormalFormUniqueByValue(Add(Add(a, b), c), Add(a, Add(b, c)));
  }

  /** Scaling both parts of two equal-valued fractions by the same factors keeps them equal-valued. */
  lemma ScaleSameValue(x: Rational, y: Rational, k: int, l: int)
    requires SameValue(x, y)
    ensures SameValue(Rational(x.numerator * k, x.denominator * l), Rational(y.numerator * k, y.denominator * l))
  {
    assert (x.numerator * k) * (y.denominator * l) == (x.numerator * y.denominator) * (k * l);
    assert (y.numerator * k) * (x.denominator * l) == (y.numerator * x.denominator) * (k * l);
  }

  /** Multiplying by a normalized product is multiplying by the raw product, then normalizing once. */
  lemma MulOfProduct(a: Rational, b: Rational, c: Rational)
    requires a.denominator != 0 && b.denominator != 0 && c.denominator != 0
    ensures Mul(Mul(a, b), c) == Normalize(Rational(a.numerator * b.numerator * c.numerator, a.denominator * b.denominator * c.denominator))
  {
    var p := Rational(a.numerator * b.numerator, a.denominator * b.denominator);
    var m := Mul(a, b);
    assert m == Normalize(p);
    SameValueIsEqualValue(m, p);
    ScaleSameValue(m, p, c.numerator, c.denominator);
    NormalizeRespectsValue(Rational(m.numerator * c.numerator, m.denominator * c.denominator),
                           Rational(p.numerator * c.numerator, p.denominator * c.denominator));
  }

  /** Multiplication is associative. */
  lemma MulAssoc(a: Rational, b: Rational, c: Rational)
    requires a.denominator != 0 && b.denominator != 0 && c.denominator != 0
    ensures Mul(Mul(a, b), c) == Mul(a, Mul(b, c))
  {
    MulOfProduct(a, b, c);
    MulOfProduct(b, c, a);
    var bc := Mul(b, c);
    Commutative(a, bc);
    Rotate(a.numerator, b.numerator, c.numerator);
    Rotate(a.denominator, b.denominator, c.denominator);
  }

  lemma Rotate(x: int, y: int, z: int)
    ensures x * y * z == y * z * x
  {
  }

  /** Adding two normalized fractions is adding the raw fractions, then normalizing once. */
  lemma AddOfNormalized(p: Rational, q: Rational)
    requires p.denominator != 0 && q.denominator != 0
    ensures p.denominator * q.denominator != 0
    ensures Add(Normalize(p), Normalize(q))
         == Normalize(Rational(p.numerator * q.denominator + q.numerator * p.denominator, p.denominator * q.denominator))
  {
    SumValue(p, q);
    var r := Rational(p.numerator * q.denominator + q.numerator * p.denominator, p.denominator * q.denominator);
    NormalFormUniqueByValue(Add(Normalize(p), Normalize(q)), Normalize(r));
  }

  /** Multiplication distributes over addition. */
  lemma Distributes(a: Rational, b: Rational, c: Rational)
    requires a.denominator != 0 && b.denominator != 0 && c.denominator != 0
    ensures Mul(a, Add(b, c)) == Add(Mul(a, b), Mul(a, c))
  {
    var s := Rational(b.numerator * c.denominator + c.numerator * b.denominator, b.denominator * c.denominator);
    var p := Rational(a.numerator * b.numerator, a.denominator * b.denominator);
    var q := Rational(a.numerator * c.numerator, a.denominator * c.denominator);
    assert Add(b, c) == Normalize(s);
    assert Mul(a, b) == Normalize(p) && Mul(a, c) == Normalize(q);
    MulOfNormalized(a, s);
    AddOfNormalized(p, q);
    var x := Rational(a.numerator * s.numerator, a.denominator * s.denominator);
    var y := Rational(p.numerator * q.denominator + q.numerator * p.denominator, p.denominator * q.denominator);
    DistributesCross(a, b, c);
    NormalizeRespectsValue(x, y);
  }

  /** The cross-multiplied forms of `a * (b + c)` and `a * b + a * c` differ by the factor `a.denominator`. */
  lemma DistributesCross(a: Rational, b: Rational, c: Rational)
    ensures
      var s := Rational(b.numerator * c.denominator + c.numerator * b.denominator, b.denominator * c.denominator);
      var p := Rational(a.numerator * b.numerator, a.denominator * b.denominator);
      var q := Rational(a.numerator * c.numerator, a.denominator * c.denominator);
      SameValue(Rational(a.numerator * s.numerator, a.denominator * s.denominator),
                Rational(p.numerator * q.denominator + q.numerator * p.denominator, p.denominator * q.denominator))
  {
    var an, ad, bn, bd, cn, cd := a.numerator, a.denominator, b.numerator, b.denominator, c.numerator, c.denominator;
    var x1, d1 := an * (bn * cd + cn * bd), ad * (bd * cd);
    var x2, d2 := (an * bn) * (ad * cd) + (an * cn) * (ad * bd), (ad * bd) * (ad * cd);
    assert x2 == ad * x1 && d2 == ad * d1;
    assert x1 * d2 == x1 * (ad * d1) == (ad * x1) * d1;
  }

  /** Multiplying by a normalized fraction is multiplying by the raw fraction, then normalizing once. */
  lemma MulOfNormalized(a: Rational, p: Rational)
    requires a.denominator != 0 && p.denominator != 0
    ensures a.denominator * p.denominator != 0
    ensures Mul(a, Normalize(p)) == Normalize(Rational(a.numerator * p.numerator, a.denominator * p.denominator))
  {
    var m := Normalize(p);
    SameValueIsEqualValue(m, p);
    ScaleSameValue(m, p, a.numerator, a.denominator);
    Commutative(a, m);
    assert Mul(m, a) == Normalize(Rational(m.numerator * a.numerator, m.denominator * a.denominator));
    NormalizeRespectsValue(Rational(m.numerator * a.numerator, m.denominator * a.denominator),
                           Rational(p.numerator * a.numerator, p.denominator * a.denominator));
    assert p.numerator * a.numerator == a.numerator * p.numerator;
    assert p.denominator * a.denominator == a.denominator * p.denominator;
  }

  /** Identities and inverses: adding zero or multiplying by one only normalizes; `a - a` and `a * 0` are `zero()`. */
  lemma IdentityLaws(a: Rational)
    requires a.denominator != 0
    ensures Add(a, Zero()) == Normalize(a)
    ensures Mul(a, One()) == Normalize(a)
    ensures Sub(a, a) == Zero()
    ensures Add(a, Neg(a)) == Zero()
    ensures Mul(a, Zero()) == Zero()
  {
    NormalFormUniqueByValue(Add(a, Zero()), Normalize(a));
    NormalFormUniqueByValue(Mul(a, One()), Normalize(a));
    NormalFormUniqueByValue(Sub(a, a), Zero());
    NormalFormUniqueByValue(Mul(a, Zero()), Zero());
  }

  /** `neg` is an involution and never touches the denominator. */
  lemma NegNeg(a: Rational)
    ensures Neg(Neg(a)) == a
  {
  }

  /** Zero is a left identity on fractions already in lowest terms. */
  lemma ZeroSumLeft(x: Rational)
    requires IsNormalized(x)
    ensures Add(Zero(), x) == x
  {
    NormalFormUniqueByValue(Add(Zero(), x), x);
  }

  /** Equality is structural: `new(2, 4)` is not `new(1, 2)` though they have the same value and normalize alike. */
  lemma NewDoesNotNormalize()
    ensures New(2, 4) != New(1, 2)
    ensures SameValue(New(2, 4), New(1, 2))
    ensures Normalize(New(2, 4)) == New(1, 2)
  {
    NormalizeRespectsValue(New(2, 4), New(1, 2));
    assert IsNormalized(New(1, 2));
    NormalizeFixesNormalized(New(1, 2));
  }

  // ---------------------------------------------------------------- worked values

  /**
   * `normalize(p)` is `r` when `r` has the value of `p`, a positive
   * denominator, and numerator and denominator with an integer combination
   * equal to one.
   */
  lemma NormalizesTo(p: Rational, r: Rational, s: int, t: int)
    requires p.denominator != 0 && r.denominator > 0
    requires s * r.numerator + t * r.denominator == 1
    requires SameValue(p, r)
    ensures Normalize(p) == r
  {
    var s' := if r.numerator < 0 then -s else s;
    assert s' * Abs(r.numerator) + t * Abs(r.denominator) == 1;
    CoprimeByWitness(Abs(r.numerator), Abs(r.denominator), s', t);
    NormalizeFixesNormalized(r);
    NormalizeRespectsValue(p, r);
  }

  /** The entrywise sums of the two rational matrices of the integration test, and `1/2 + 1/3`. */
  lemma SumExamples()
    ensures Add(New(1, 2), New(1, 6)) == New(2, 3)
    ensures Add(New(1, 3), New(1, 7)) == New(10, 21)
    ensures Add(New(1, 4), New(1, 8)) == New(3, 8)
    ensures Add(New(1, 5), New(1, 9)) == New(14, 45)
    ensures Add(New(1, 2), New(1, 3)) == New(5, 6)
  {
    NormalizesTo(Rational(1 * 6 + 1 * 2, 2 * 6), New(2, 3), -1, 1);
    NormalizesTo(Rational(1 * 7 + 1 * 3, 3 * 7), New(10, 21), -2, 1);
    NormalizesTo(Rational(1 * 8 + 1 * 4, 4 * 8), New(3, 8), 3, -1);
    NormalizesTo(Rational(1 * 9 + 1 * 5, 5 * 9), New(14, 45), -16, 5);
    NormalizesTo(Rational(1 * 3 + 1 * 2, 2 * 3), New(5, 6), -1, 1);
  }

  /** The entrywise differences of the two rational matrices of the integration test, and `1/2 - 1/3`. */
  lemma DifferenceExamples()
    ensures Sub(New(1, 2), New(1, 6)) == New(1, 3)
    ensures Sub(New(1, 3), New(1, 7)) == New(4, 21)
    ensures Sub(New(1, 4), New(1, 8)) == New(1, 8)
    ensures Sub(New(1, 5), New(1, 9)) == New(4, 45)
    ensures Sub(New(1, 2), New(1, 3)) == New(1, 6)
  {
    NormalizesTo(Rational(1 * 6 + -1 * 2, 2 * 6), New(1, 3), 1, 0);
    NormalizesTo(Rational(1 * 7 + -1 * 3, 3 * 7), New(4, 21), -5, 1);
    NormalizesTo(Rational(1 * 8 + -1 * 4, 4 * 8), New(1, 8), 1, 0);
    NormalizesTo(Rational(1 * 9 + -1 * 5, 5 * 9), New(4, 45), -11, 1);
    NormalizesTo(Rational(1 * 3 + -1 * 2, 2 * 3), New(1, 6), 1, 0);
  }

  /** `3/2 * 1/3` reduces to `1/2`, and the sign of a negative denominator moves to the numerator. */
  lemma ProductExamples()
    ensures Mul(New(3, 2), New(1, 3)) == New(1, 2)
    ensures Mul(New(-2, 4), New(2, -3)) == New(1, 3)
    ensures Mul(New(1, 2), New(-1, 3)) == New(-1, 6)
  {
    NormalizesTo(Rational(3 * 1, 2 * 3), New(1, 2), 1, 0);
    NormalizesTo(Rational(-2 * 2, 4 * -3), New(1, 3), 1, 0);
    NormalizesTo(Rational(1 * -1, 2 * 3), New(-1, 6), -1, 0);
  }

  /*
   * The four entries of the product of the two rational matrices of the
   * integration test, each accumulated as the matrix product does: start at
   * zero, then add the products of the row by the column in turn.
   */

  lemma ProductEntryTopLeft()
    ensures Add(Add(Zero(), Mul(New(1, 2), New(1, 6))), Mul(New(1, 3), New(1, 8))) == New(1, 8)
  {
    ProductEntryTopLeftProducts();
    CoprimeByWitness(1, 12, 1, 0);
    ZeroSumLeft(New(1, 12));
    NormalizesTo(Rational(1 * 24 + 1 * 12, 12 * 24), New(1, 8), 1, 0);
  }

  /** The two products summed into entry (0, 0). */
  lemma ProductEntryTopLeftProducts()
    ensures Mul(New(1, 2), New(1, 6)) == New(1, 12)
    ensures Mul(New(1, 3), New(1, 8)) == New(1, 24)
  {
    NormalizesTo(Rational(1 * 1, 2 * 6), New(1, 12), 1, 0);
    NormalizesTo(Rational(1 * 1, 3 * 8), New(1, 24), 1, 0);
  }

  lemma ProductEntryTopRight()
    ensures Add(Add(Zero(), Mul(New(1, 2), New(1, 7))), Mul(New(1, 3), New(1, 9))) == New(41, 378)
  {
    ProductEntryTopRightProducts();
    CoprimeByWitness(1, 14, 1, 0);
    ZeroSumLeft(New(1, 14));
    NormalizesTo(Rational(1 * 27 + 1 * 14, 14 * 27), New(41, 378), 83, -9);
  }

  /** The two products summed into entry (0, 1). */
  lemma ProductEntryTopRightProducts()
    ensures Mul(New(1, 2), New(1, 7)) == New(1, 14)
    ensures Mul(New(1, 3), New(1, 9)) == New(1, 27)
  {
    NormalizesTo(Rational(1 * 1, 2 * 7), New(1, 14), 1, 0);
    NormalizesTo(Rational(1 * 1, 3 * 9), New(1, 27), 1, 0);
  }

  lemma ProductEntryBottomLeft()
    ensures Add(Add(Zero(), Mul(New(1, 4), New(1, 6))), Mul(New(1, 5), New(1, 8))) == New(1, 15)
  {
    ProductEntryBottomLeftProducts();
    CoprimeByWitness(1, 24, 1, 0);
    ZeroSumLeft(New(1, 24));
    NormalizesTo(Rational(1 * 40 + 1 * 24, 24 * 40), New(1, 15), 1, 0);
  }

  /** The two products summed into entry (1, 0). */
  lemma ProductEntryBottomLeftProducts()
    ensures Mul(New(1, 4), New(1, 6)) == New(1, 24)
    ensures Mul(New(1, 5), New(1, 8)) == New(1, 40)
  {
    NormalizesTo(Rational(1 * 1, 4 * 6), New(1, 24), 1, 0);
    NormalizesTo(Rational(1 * 1, 5 * 8), New(1, 40), 1, 0);
  }

  lemma ProductEntryBottomRight()
    ensures Add(Add(Zero(), Mul(New(1, 4), New(1, 7))), Mul(New(1, 5), New(1, 9))) == New(73, 1260)
  {
    ProductEntryBottomRightProducts();
    CoprimeByWitness(1, 28, 1, 0);
    ZeroSumLeft(New(1, 28));
    NormalizesTo(Rational(1 * 45 + 1 * 28, 28 * 45), New(73, 1260), 397, -23);
  }

  /** The two products summed into entry (1, 1). */
  lemma ProductEntryBottomRightProducts()
    ensures Mul(New(1, 4), New(1, 7)) == New(1, 28)
    ensures Mul(New(1, 5), New(1, 9)) == New(1, 45)
  {
    NormalizesTo(Rational(1 * 1, 4 * 7), New(1, 28), 1, 0);
    NormalizesTo(Rational(1 * 1, 5 * 9), New(1, 45), 1, 0);
  }
}
