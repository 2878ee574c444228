/**
 * Univariate polynomials with `int` coefficients, following `Polynomial<T>`
 * of src/polynomials/polynomial.rs.
 *
 * A polynomial is its coefficient vector, lowest degree first. No operation
 * ever removes trailing zeros, and equality is the derived structural equality
 * of the raw vector: `[1, 0]` and `[1]` are different values, and the lengths
 * stated below are exact.
 */
module Polynomials {

  datatype Polynomial = Polynomial(coefficients: seq<int>)

  /** Every constructor builds a non-empty vector and every operation keeps it non-empty. */
  predicate Valid(p: Polynomial) {
    |p.coefficients| > 0
  }

  function Len(p: Polynomial): nat {
    |p.coefficients|
  }

  /** Entry `i` of `s`, an index outside `s` read as zero (`get(i).unwrap_or(zero)`). */
  function Coef(s: seq<int>, i: int): int {
    if 0 <= i < |s| then s[i] else 0
  }

  function Max(a: nat, b: nat): nat {
    if a < b then b else a
  }

  function Tail(s: seq<int>): (r: seq<int>)
    ensures |r| == if |s| == 0 then 0 else |s| - 1
    ensures forall i :: 0 <= i ==> Coef(r, i) == Coef(s, i + 1)
  {
    if |s| == 0 then [] else s[1..]
  }

  /** Two polynomials with the same length and the same coefficients are equal. */
  lemma Ext(p: Polynomial, q: Polynomial)
    requires Len(p) == Len(q)
    requires forall k :: 0 <= k < Len(p) ==> Coef(p.coefficients, k) == Coef(q.coefficients, k)
    ensures p == q
  {
    forall k | 0 <= k < Len(p)
      ensures p.coefficients[k] == q.coefficients[k]
    {
      assert Coef(p.coefficients, k) == Coef(q.coefficients, k);
    }
  }

  // ---------------------------------------------------------------- constructors

  /** `from_constant(c)`: the degree-0 polynomial `c`. */
  function FromConstant(c: int): (r: Polynomial)
    ensures Valid(r) && Len(r) == 1
    ensures forall i :: Coef(r.coefficients, i) == (if i == 0 then c else 0)
  {
    Polynomial([c])
  }

  /** `x_pow(n)`: `n` zeros followed by a one. */
  function XPow(n: nat): (r: Polynomial)
    ensures Valid(r) && Len(r) == n + 1
    ensures forall i :: Coef(r.coefficients, i) == (if i == n then 1 else 0)
  {
    Polynomial(seq(n + 1, i => if i == n then 1 else 0))
  }

  /** `x()`: the indeterminate `[0, 1]`, which is `x_pow(1)`. */
  function X(): (r: Polynomial)
    ensures r == XPow(1)
  {
    var r := Polynomial([0, 1]);
    Ext(r, XPow(1));
    r
  }

  /** `zero()`: the single coefficient zero. */
  function Zero(): (r: Polynomial)
    ensures r == FromConstant(0) && IsZero(r)
  {
    Polynomial([0])
  }

  /** `one()`: the single coefficient one. */
  function One(): (r: Polynomial)
    ensures r == FromConstant(1) && !IsZero(r)
  {
    Polynomial([1])
  }

  /** `iter().all(is_zero)` over a coefficient vector, element by element. */
  function AllZero(s: seq<int>): (b: bool)
    ensures b <==> forall i :: 0 <= i < |s| ==> s[i] == 0
  {
    if |s| == 0 then true else s[0] == 0 && AllZero(s[1..])
  }

  /** `is_zero`: every coefficient is zero, whatever the length. */
  predicate IsZero(p: Polynomial) {
    AllZero(p.coefficients)
  }

  // ---------------------------------------------------------------- additive operations

  /** `-p`: every coefficient negated, the length kept. */
  function Neg(p: Polynomial): (r: Polynomial)
    ensures Len(r) == Len(p)
    ensures forall i :: Coef(r.coefficients, i) == -Coef(p.coefficients, i)
  {
    Polynomial(seq(Len(p), i requires 0 <= i < Len(p) => -p.coefficients[i]))
  }

  /** `p + c` for a scalar `c`: only the constant term changes. */
  function AddScalar(p: Polynomial, c: int): (r: Polynomial)
    requires Valid(p)
    ensures Valid(r) && Len(r) == Len(p)
    ensures Coef(r.coefficients, 0) == Coef(p.coefficients, 0) + c
    ensures forall i :: i != 0 ==> Coef(r.coefficients, i) == Coef(p.coefficients, i)
  {
    Polynomial(p.coefficients[0 := p.coefficients[0] + c])
  }

  /** `p - c` for a scalar `c`: only the constant term changes. */
  function SubScalar(p: Polynomial, c: int): (r: Polynomial)
    requires Valid(p)
    ensures Valid(r) && Len(r) == Len(p)
    ensures Coef(r.coefficients, 0) == Coef(p.coefficients, 0) - c
    ensures forall i :: i != 0 ==> Coef(r.coefficients, i) == Coef(p.coefficients, i)
  {
    Polynomial(p.coefficients[0 := p.coefficients[0] - c])
  }

  /** `a + b`: as long as the longer operand, the shorter one padded with zeros, nothing trimmed. */
  function Add(a: Polynomial, b: Polynomial): (r: Polynomial)
    ensures Len(r) == Max(Len(a), Len(b))
    ensures forall i :: Coef(r.coefficients, i) == Coef(a.coefficients, i) + Coef(b.coefficients, i)
  {
    Polynomial(seq(Max(Len(a), Len(b)), i => Coef(a.coefficients, i) + Coef(b.coefficients, i)))
  }

  /** `a - b`: as long as the longer operand, the shorter one padded with zeros, nothing trimmed. */
  function Sub(a: Polynomial, b: Polynomial): (r: Polynomial)
    ensures Len(r) == Max(Len(a), Len(b))
    ensures forall i :: Coef(r.coefficients, i) == Coef(a.coefficients, i) - Coef(b.coefficients, i)
  {
    Polynomial(seq(Max(Len(a), Len(b)), i => Coef(a.coefficients, i) - Coef(b.coefficients, i)))
  }

  /** `p * c` for a scalar `c`: every coefficient multiplied, the length kept even when `c` is zero. */
  function MulScalar(p: Polynomial, c: int): (r: Polynomial)
    ensures Len(r) == Len(p)
    ensures forall i :: Coef(r.coefficients, i) == Coef(p.coefficients, i) * c
  {
    Polynomial(seq(Len(p), i requires 0 <= i < Len(p) => p.coefficients[i] * c))
  }

  // ---------------------------------------------------------------- multiplication

  /**
   * The convolution sum: coefficient `k` of the product of `a` and `b` is the
   * sum, over every index `i` of `a`, of `a[i] * b[k - i]`, that is the sum of
   * `a[i] * b[j]` over all `i + j == k`.
   */
  function Conv(a: seq<int>, b: seq<int>, k: int): int
    decreases |a|
  {
    if |a| == 0 then 0 else a[0] * Coef(b, k) + Conv(a[1..], b, k - 1)
  }

  lemma {:induction false} ConvVanishes(a: seq<int>, b: seq<int>, k: int)
    requires k < 0 || k >= |a| + |b| - 1
    ensures Conv(a, b, k) == 0
    decreases |a|
  {
    if |a| > 0 {
      ConvVanishes(a[1..], b, k - 1);
    }
  }

  lemma ConvVanishesOutside(a: seq<int>, b: seq<int>)
    ensures forall k :: k < 0 || k >= |a| + |b| - 1 ==> Conv(a, b, k) == 0
  {
    forall k | k < 0 || k >= |a| + |b| - 1 {
      ConvVanishes(a, b, k);
    }
  }

  /**
   * The product as a convolution: length `Len(a) + Len(b) - 1` and coefficient
   * `k` the convolution sum; coefficients beyond the end are zero as well.
   */
  function Product(a: Polynomial, b: Polynomial): (r: Polynomial)
    requires Valid(a) && Valid(b)
    ensures Valid(r) && Len(r) == Len(a) + Len(b) - 1
    ensures forall k :: Coef(r.coefficients, k) == Conv(a.coefficients, b.coefficients, k)
  {
    ConvVanishesOutside(a.coefficients, b.coefficients);
    Polynomial(seq(Len(a) + Len(b) - 1, k => Conv(a.coefficients, b.coefficients, k)))
  }

  /** Appending `v` to `x` adds `v * y[k - |x|]` to every convolution sum. */
  lemma {:induction false} ConvSnoc(x: seq<int>, v: int, y: seq<int>, k: int)
    ensures Conv(x + [v], y, k) == Conv(x, y, k) + v * Coef(y, k - |x|)
    decreases |x|
  {
    if |x| > 0 {
      assert (x + [v])[1..] == x[1..] + [v];
      ConvSnoc(x[1..], v, y, k - 1);
    }
  }

  /**
   * `a * b`: the double loop of the source, which adds `a[i] * b[j]` into
   * slot `i + j` of a zero vector of length `len(a) + len(b) - 1`.
   */
  method Mul(a: Polynomial, b: Polynomial) returns (r: Polynomial)
    requires Valid(a) && Valid(b)
    ensures r == Product(a, b)
  {
    var x, y := a.coefficients, b.coefficients;
    var c := seq(|x| + |y| - 1, _ => 0);
    for i := 0 to |x|
      invariant |c| == |x| + |y| - 1
      invariant forall k :: 0 <= k < |c| ==> c[k] == Conv(x[..i], y, k)
    {
      for j := 0 to |y|
        invariant |c| == |x| + |y| - 1
        invariant forall k :: 0 <= k < |c| ==> c[k] == Conv(x[..i], y, k) + x[i] * Coef(y[..j], k - i)
      {
        forall t
          ensures Coef(y[..j + 1], t) == Coef(y[..j], t) + (if t == j then y[j] else 0)
        {
        }
        c := c[i + j := c[i + j] + x[i] * y[j]];
      }
      assert y[..|y|] == y;
      assert x[..i + 1] == x[..i] + [x[i]];
      forall k | 0 <= k < |c|
        ensures c[k] == Conv(x[..i + 1], y, k)
      {
        ConvSnoc(x[..i], x[i], y, k);
      }
    }
    assert x[..|x|] == x;
    r := Polynomial(c);
    Ext(r, Product(a, b));
  }

  // ---------------------------------------------------------------- exponentiation

  /** The reference power: `one()` multiplied by `p` on the right `n` times. */
  function Power(p: Polynomial, n: nat): (r: Polynomial)
    requires Valid(p)
    ensures Valid(r)
  {
    if n == 0 then One() else Product(Power(p, n - 1), p)
  }

  /** `p^n` has degree `n` times the degree of `p`: length `n * (len(p) - 1) + 1`. */
  lemma {:induction false} PowerLength(p: Polynomial, n: nat)
    requires Valid(p)
    ensures Len(Power(p, n)) == n * (Len(p) - 1) + 1
  {
    if n > 0 {
      PowerLength(p, n - 1);
      assert n * (Len(p) - 1) == (n - 1) * (Len(p) - 1) + (Len(p) - 1);
    }
  }

  /**
   * `p ^ n`: square-and-multiply. The accumulator starts at `one()`; each round
   * multiplies the base into it when the low bit of the exponent is set, then
   * squares the base and halves the exponent.
   */
  method Pow(p: Polynomial, n: nat) returns (result: Polynomial)
    requires Valid(p)
    ensures result == Power(p, n)
  {
    result := One();
    var a := p;
    var exp := n;
    ProductOne(Power(p, n));
    while exp > 0
      invariant Valid(a) && Valid(result)
      invariant Product(result, Power(a, exp)) == Power(p, n)
      decreases exp
    {
      PowStep(result, a, exp);
      if exp % 2 == 1 {
        result := Mul(result, a);
      }
      a := Mul(a, a);
      exp := exp / 2;
    }
    ProductOne(result);
  }

  /** One round of `Pow` keeps `result * a^exp` unchanged. */
  lemma PowStep(result: Polynomial, a: Polynomial, e: nat)
    requires Valid(result) && Valid(a)
    ensures e % 2 == 1 ==>
      Product(result, Power(a, e)) == Product(Product(result, a), Power(Product(a, a), e / 2))
    ensures e % 2 == 0 ==>
      Product(result, Power(a, e)) == Product(result, Power(Product(a, a), e / 2))
  {
    var q := e / 2;
    PowerOfSquare(a, q);
    if e % 2 == 1 {
      assert e == 2 * q + 1;
      ProductAssoc(result, a, Power(a, 2 * q));
      PowerOne(a);
      PowerAdd(a, 1, 2 * q);
    } else {
      assert e == 2 * q;
    }
  }

  // ---------------------------------------------------------------- linearity of the convolution

  lemma ConvUnfold(x: seq<int>, c: seq<int>, k: int)
    ensures Conv(x, c, k) == Coef(x, 0) * Coef(c, k) + Conv(Tail(x), c, k - 1)
  {
  }

  /** The convolution is additive in its first operand, judged coefficient by coefficient. */
  lemma {:induction false} ConvLinearFirst(x: seq<int>, y: seq<int>, z: seq<int>, c: seq<int>, k: int)
    requires forall i :: Coef(z, i) == Coef(x, i) + Coef(y, i)
    ensures Conv(z, c, k) == Conv(x, c, k) + Conv(y, c, k)
    decreases |x| + |y| + |z|
  {
    if |x| + |y| + |z| > 0 {
      ConvUnfold(x, c, k);
      ConvUnfold(y, c, k);
      ConvUnfold(z, c, k);
      forall i
        ensures Coef(Tail(z), i) == Coef(Tail(x), i) + Coef(Tail(y), i)
      {
        if i >= 0 {
          assert Coef(z, i + 1) == Coef(x, i + 1) + Coef(y, i + 1);
        }
      }
      ConvLinearFirst(Tail(x), Tail(y), Tail(z), c, k - 1);
      assert Coef(z, 0) == Coef(x, 0) + Coef(y, 0);
    }
  }

  lemma ScaleStep(s: int, z0: int, x0: int, c0: int, rz: int, rx: int)
    requires z0 == s * x0 && rz == s * rx
    ensures z0 * c0 + rz == s * (x0 * c0 + rx)
  {
    assert z0 * c0 == s * (x0 * c0);
  }

  /** The convolution is homogeneous in its first operand. */
  lemma {:induction false} ConvScaleFirst(x: seq<int>, z: seq<int>, s: int, c: seq<int>, k: int)
    requires forall i :: Coef(z, i) == s * Coef(x, i)
    ensures Conv(z, c, k) == s * Conv(x, c, k)
    decreases |x| + |z|
  {
    if |x| + |z| > 0 {
      ConvUnfold(x, c, k);
      ConvUnfold(z, c, k);
      forall i
        ensures Coef(Tail(z), i) == s * Coef(Tail(x), i)
      {
        if i >= 0 {
          assert Coef(z, i + 1) == s * Coef(x, i + 1);
        }
      }
      ConvScaleFirst(Tail(x), Tail(z), s, c, k - 1);
      ScaleStep(s, Coef(z, 0), Coef(x, 0), Coef(c, k), Conv(Tail(z), c, k - 1), Conv(Tail(x), c, k - 1));
    }
  }

  /** The convolution is additive in its second operand. */
  lemma {:induction false} ConvLinearSecond(b: seq<int>, y: seq<int>, w: seq<int>, z: seq<int>, k: int)
    requires forall j :: Coef(z, j) == Coef(y, j) + Coef(w, j)
    ensures Conv(b, z, k) == Conv(b, y, k) + Conv(b, w, k)
    decreases |b|
  {
    if |b| > 0 {
      ConvLinearSecond(b[1..], y, w, z, k - 1);
      assert Coef(z, k) == Coef(y, k) + Coef(w, k);
    }
  }

  /** Prepending a zero to the second operand shifts the convolution by one place. */
  lemma {:induction false} ConvShiftSecond(b: seq<int>, y: seq<int>, k: int)
    ensures Conv(b, [0] + y, k) == Conv(b, y, k - 1)
    decreases |b|
  {
    if |b| > 0 {
      ConvShiftSecond(b[1..], y, k - 1);
      assert Coef([0] + y, k) == Coef(y, k - 1);
    }
  }

  /** Convolving with a one-element second operand scales the first. */
  lemma {:induction false} ConvConstSecond(b: seq<int>, s: int, k: int)
    ensures Conv(b, [s], k) == Coef(b, k) * s
    decreases |b|
  {
    if |b| > 0 {
      ConvConstSecond(b[1..], s, k - 1);
      if k == 0 {
        assert Coef(b[1..], k - 1) == 0;
      } else {
        assert Coef([s], k) == 0;
      }
    }
  }

  lemma {:induction false} ConvEmptySecond(b: seq<int>, k: int)
    ensures Conv(b, [], k) == 0
    decreases |b|
  {
    if |b| > 0 {
      ConvEmptySecond(b[1..], k - 1);
    }
  }

  /** A non-empty coefficient list is its head as a constant plus its tail shifted up by one. */
  lemma SplitHead(a: seq<int>)
    requires |a| > 0
    ensures forall j :: Coef(a, j) == Coef([a[0]], j) + Coef([0] + a[1..], j)
  {
    forall j
      ensures Coef(a, j) == Coef([a[0]], j) + Coef([0] + a[1..], j)
    {
      if 0 < j < |a| {
        assert ([0] + a[1..])[j] == a[j];
      }
    }
  }

  /** The convolution sum is symmetric in its operands. */
  lemma {:induction false} ConvComm(a: seq<int>, b: seq<int>, k: int)
    ensures Conv(a, b, k) == Conv(b, a, k)
    decreases |a|
  {
    if |a| == 0 {
      ConvEmptySecond(b, k);
    } else {
      var rest := a[1..];
      SplitHead(a);
      ConvLinearSecond(b, [a[0]], [0] + rest, a, k);
      ConvConstSecond(b, a[0], k);
      ConvShiftSecond(b, rest, k);
      ConvComm(rest, b, k - 1);
      assert Conv(a, b, k) == a[0] * Coef(b, k) + Conv(rest, b, k - 1);
    }
  }

  /**
   * The heart of associativity: convolving `c` with any vector `m` whose
   * coefficients are those of `a * b` equals convolving `a` with `b * c`.
   */
  lemma {:induction false} ConvAssoc(a: seq<int>, b: seq<int>, c: seq<int>, m: seq<int>, k: int)
    requires |b| > 0 && |c| > 0
    requires forall i :: Coef(m, i) == Conv(a, b, i)
    ensures Conv(m, c, k) == Conv(a, Product(Polynomial(b), Polynomial(c)).coefficients, k)
    decreases |a|
  {
    var bc := Product(Polynomial(b), Polynomial(c)).coefficients;
    if |a| == 0 {
      ConvLinearFirst([], [], m, c, k);
    } else {
      var a0, rest := a[0], a[1..];
      ConvVanishesOutside(rest, b);
      var m' := seq(|rest| + |b|, i => Conv(rest, b, i));
      assert forall i :: Coef(m', i) == Conv(rest, b, i);
      var sb := seq(|b|, i requires 0 <= i < |b| => a0 * b[i]);
      var sh := [0] + m';
      forall i
        ensures Coef(m, i) == Coef(sb, i) + Coef(sh, i)
      {
        assert Coef(sh, i) == Coef(m', i - 1);
      }
      ConvLinearFirst(sb, sh, m, c, k);
      ConvScaleFirst(b, sb, a0, c, k);
      assert sh[1..] == m';
      assert Conv(sh, c, k) == Conv(m', c, k - 1);
      ConvAssoc(rest, b, c, m', k - 1);
      assert Conv(b, c, k) == Coef(bc, k);
    }
  }

  // ---------------------------------------------------------------- ring laws of the product

  /** Multiplication is associative, lengths included. */
  lemma ProductAssoc(a: Polynomial, b: Polynomial, c: Polynomial)
    requires Valid(a) && Valid(b) && Valid(c)
    ensures Product(Product(a, b), c) == Product(a, Product(b, c))
  {
    var lhs, rhs := Product(Product(a, b), c), Product(a, Product(b, c));
    forall k | 0 <= k < Len(lhs)
      ensures Coef(lhs.coefficients, k) == Coef(rhs.coefficients, k)
    {
      ConvAssoc(a.coefficients, b.coefficients, c.coefficients, Product(a, b).coefficients, k);
    }
    Ext(lhs, rhs);
  }

  /** Multiplication is commutative, lengths included. */
  lemma ProductComm(a: Polynomial, b: Polynomial)
    requires Valid(a) && Valid(b)
    ensures Product(a, b) == Product(b, a)
  {
    forall k | 0 <= k < Len(a) + Len(b) - 1
      ensures Coef(Product(a, b).coefficients, k) == Coef(Product(b, a).coefficients, k)
    {
      ConvComm(a.coefficients, b.coefficients, k);
    }
    Ext(Product(a, b), Product(b, a));
  }

  /** Multiplying by a constant polynomial, on either side, is scalar multiplication. */
  lemma ProductConstant(p: Polynomial, c: int)
    requires Valid(p)
    ensures Product(p, FromConstant(c)) == MulScalar(p, c)
    ensures Product(FromConstant(c), p) == MulScalar(p, c)
  {
    forall k | 0 <= k < Len(p)
      ensures Coef(Product(p, FromConstant(c)).coefficients, k) == Coef(MulScalar(p, c).coefficients, k)
    {
      ConvConstSecond(p.coefficients, c, k);
    }
    Ext(Product(p, FromConstant(c)), MulScalar(p, c));
    ProductComm(p, FromConstant(c));
  }

  /** `one()` is a two-sided identity of multiplication. */
  lemma ProductOne(p: Polynomial)
    requires Valid(p)
    ensures Product(p, One()) == p && Product(One(), p) == p
  {
    ProductConstant(p, 1);
    Ext(MulScalar(p, 1), p);
  }

  /** Multiplying by `zero()` gives a zero polynomial of the other operand's length, not `zero()` itself. */
  lemma ProductZero(p: Polynomial)
    requires Valid(p)
    ensures IsZero(Product(p, Zero())) && Len(Product(p, Zero())) == Len(p)
    ensures Len(p) > 1 ==> Product(p, Zero()) != Zero()
  {
    ProductConstant(p, 0);
    var r := Product(p, Zero());
    forall i | 0 <= i < Len(r)
      ensures r.coefficients[i] == 0
    {
      assert Coef(r.coefficients, i) == Coef(p.coefficients, i) * 0;
    }
  }

  /** Multiplication distributes over addition, lengths included. */
  lemma ProductDistributes(a: Polynomial, b: Polynomial, c: Polynomial)
    requires Valid(a) && Valid(b) && Valid(c)
    ensures Product(a, Add(b, c)) == Add(Product(a, b), Product(a, c))
  {
    var lhs, rhs := Product(a, Add(b, c)), Add(Product(a, b), Product(a, c));
    forall k | 0 <= k < Len(lhs)
      ensures Coef(lhs.coefficients, k) == Coef(rhs.coefficients, k)
    {
      ConvLinearSecond(a.coefficients, b.coefficients, c.coefficients, Add(b, c).coefficients, k);
    }
    Ext(lhs, rhs);
  }

  // ---------------------------------------------------------------- powers

  lemma PowerOne(p: Polynomial)
    requires Valid(p)
    ensures Power(p, 1) == p
  {
    ProductOne(p);
  }

  /** `p^m * p^n == p^(m+n)`. */
  lemma {:induction false} PowerAdd(p: Polynomial, m: nat, n: nat)
    requires Valid(p)
    ensures Product(Power(p, m), Power(p, n)) == Power(p, m + n)
    decreases n
  {
    if n == 0 {
      ProductOne(Power(p, m));
    } else {
      ProductAssoc(Power(p, m), Power(p, n - 1), p);
      PowerAdd(p, m, n - 1);
    }
  }

  /** `(p * p)^k == p^(2k)`: squaring the base doubles the exponent. */
  lemma {:induction false} PowerOfSquare(p: Polynomial, k: nat)
    requires Valid(p)
    ensures Power(Product(p, p), k) == Power(p, 2 * k)
    decreases k
  {
    if k > 0 {
      var pp, j := Product(p, p), 2 * (k - 1);
      assert j + 2 == 2 * k;
      PowerOfSquare(p, k - 1);
      PowerOne(p);
      assert Power(p, 2) == pp;
      PowerAdd(p, j, 2);
      assert Power(pp, k) == Product(Power(p, j), Power(p, 2));
    }
  }

  /** `p ^ 0` is `one()` whatever `p` is, the zero polynomial included. */
  lemma PowZero(p: Polynomial)
    requires Valid(p)
    ensures Power(p, 0) == One()
  {
  }

  // ---------------------------------------------------------------- monomials

  lemma XPowStep(n: nat)
    ensures XPow(n + 1).coefficients == [0] + XPow(n).coefficients
  {
    Ext(XPow(n + 1), Polynomial([0] + XPow(n).coefficients));
  }

  /** Convolving with `x^n` shifts by `n` places. */
  lemma {:induction false} ConvMonomial(n: nat, y: seq<int>, k: int)
    ensures Conv(XPow(n).coefficients, y, k) == Coef(y, k - n)
    decreases n
  {
    if n == 0 {
      assert XPow(0).coefficients == [1];
    } else {
      XPowStep(n - 1);
      ConvMonomial(n - 1, y, k - 1);
    }
  }

  /** `x_pow(n)` is the n-th power of `x()`. */
  lemma {:induction false} XPowIsPowerOfX(n: nat)
    ensures XPow(n) == Power(X(), n)
    decreases n
  {
    if n == 0 {
      Ext(XPow(0), One());
    } else {
      XPowIsPowerOfX(n - 1);
      var r := Product(XPow(n - 1), X());
      forall k | 0 <= k < Len(r)
        ensures Coef(r.coefficients, k) == Coef(XPow(n).coefficients, k)
      {
        ConvMonomial(n - 1, X().coefficients, k);
      }
      Ext(r, XPow(n));
    }
  }

  // ---------------------------------------------------------------- additive laws

  lemma AddComm(a: Polynomial, b: Polynomial)
    ensures Add(a, b) == Add(b, a)
  {
    Ext(Add(a, b), Add(b, a));
  }

  lemma AddAssoc(a: Polynomial, b: Polynomial, c: Polynomial)
    ensures Add(Add(a, b), c) == Add(a, Add(b, c))
  {
    Ext(Add(Add(a, b), c), Add(a, Add(b, c)));
  }

  /** `zero()` is a two-sided identity of addition on valid polynomials. */
  lemma AddZero(p: Polynomial)
    requires Valid(p)
    ensures Add(p, Zero()) == p && Add(Zero(), p) == p
  {
    Ext(Add(p, Zero()), p);
    Ext(Add(Zero(), p), p);
  }

  /** Subtraction is addition of the negation. */
  lemma SubIsAddNeg(a: Polynomial, b: Polynomial)
    ensures Sub(a, b) == Add(a, Neg(b))
  {
    Ext(Sub(a, b), Add(a, Neg(b)));
  }

  lemma NegNeg(p: Polynomial)
    ensures Neg(Neg(p)) == p
  {
    Ext(Neg(Neg(p)), p);
  }

  /** `p - p` is a zero polynomial as long as `p`; for a longer `p` it is not `zero()`. */
  lemma SubSelf(p: Polynomial)
    ensures IsZero(Sub(p, p)) && Len(Sub(p, p)) == Len(p)
    ensures Len(p) > 1 ==> Sub(p, p) != Zero()
  {
    var r := Sub(p, p);
    forall i | 0 <= i < Len(r)
      ensures r.coefficients[i] == 0
    {
      assert Coef(r.coefficients, i) == Coef(p.coefficients, i) - Coef(p.coefficients, i);
    }
  }

  /** Adding or subtracting a scalar is adding or subtracting the constant polynomial. */
  lemma ScalarIsConstant(p: Polynomial, c: int)
    requires Valid(p)
    ensures AddScalar(p, c) == Add(p, FromConstant(c))
    ensures SubScalar(p, c) == Sub(p, FromConstant(c))
    ensures SubScalar(p, c) == AddScalar(p, -c)
  {
    Ext(AddScalar(p, c), Add(p, FromConstant(c)));
    Ext(SubScalar(p, c), Sub(p, FromConstant(c)));
    Ext(SubScalar(p, c), AddScalar(p, -c));
  }

  /** `from_constant` carries the sum and product of coefficients to those of polynomials. */
  lemma ConstantsEmbed(a: int, b: int)
    ensures Add(FromConstant(a), FromConstant(b)) == FromConstant(a + b)
    ensures Sub(FromConstant(a), FromConstant(b)) == FromConstant(a - b)
    ensures Product(FromConstant(a), FromConstant(b)) == FromConstant(a * b)
  {
    Ext(Add(FromConstant(a), FromConstant(b)), FromConstant(a + b));
    Ext(Sub(FromConstant(a), FromConstant(b)), FromConstant(a - b));
    assert Conv([a], [b], 0) == a * b;
    Ext(Product(FromConstant(a), FromConstant(b)), FromConstant(a * b));
  }

  // ---------------------------------------------------------------- worked values

  /** The polynomial built in the natural-number integration test: `x^3 + x*2 + 5 == [5, 2, 0, 1]`. */
  lemma BuiltPolynomial()
    ensures X() == Polynomial([0, 1])
    ensures XPow(3) == Polynomial([0, 0, 0, 1])
    ensures FromConstant(5) == Polynomial([5])
    ensures Add(Add(XPow(3), MulScalar(X(), 2)), FromConstant(5)) == Polynomial([5, 2, 0, 1])
  {
    Ext(XPow(3), Polynomial([0, 0, 0, 1]));
    var r := Add(Add(XPow(3), MulScalar(X(), 2)), FromConstant(5));
    var s := Add(XPow(3), MulScalar(X(), 2));
    assert Len(r) == 4 && Len(s) == 4;
    assert Coef(s.coefficients, 0) == 0 && Coef(s.coefficients, 1) == 2;
    assert Coef(s.coefficients, 2) == 0 && Coef(s.coefficients, 3) == 1;
    assert Coef(r.coefficients, 0) == 5 && Coef(r.coefficients, 1) == 2;
    assert Coef(r.coefficients, 2) == 0 && Coef(r.coefficients, 3) == 1;
    Ext(r, Polynomial([5, 2, 0, 1]));
  }

  /** Nothing is trimmed: `x - x` is `[0, 0]`, a zero polynomial that differs from `zero()`. */
  lemma NoTrimming()
    ensures Sub(X(), X()) == Polynomial([0, 0])
    ensures IsZero(Sub(X(), X())) && Sub(X(), X()) != Zero()
  {
    Ext(Sub(X(), X()), Polynomial([0, 0]));
  }
}
