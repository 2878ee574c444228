/**
 * Natural numbers held in a `u64`, following `NaturalNumber` of
 * src/coefficients/natural_numbers.rs.
 *
 * The source adds and multiplies with Rust's `+` and `*` on `u64`, which stop
 * the program when the result leaves the range; here that is the
 * precondition of `Add` and `Mul`.
 */
module Naturals {

  const U64_LIMIT: int := 0x1_0000_0000_0000_0000

  newtype U64 = x: int | 0 <= x < U64_LIMIT

  datatype Natural = Natural(val: U64)

  /** `new(v)`: the value stored as given. */
  function New(v: U64): (r: Natural)
    ensures r.val == v
  {
    Natural(v)
  }

  /** `val()`: the stored value. */
  function Val(x: Natural): (v: U64)
    ensures v == x.val
  {
    x.val
  }

  /** Whether `a + b` stays inside `u64`. */
  predicate SumFits(a: Natural, b: Natural) {
    a.val as int + b.val as int < U64_LIMIT
  }

  /** Whether `a * b` stays inside `u64`. */
  predicate ProductFits(a: Natural, b: Natural) {
    a.val as int * b.val as int < U64_LIMIT
  }

  /** `a + b`: the sum of the values. */
  function Add(a: Natural, b: Natural): (r: Natural)
    requires SumFits(a, b)
    ensures r.val as int == a.val as int + b.val as int
  {
    Natural(a.val + b.val)
  }

  /** `a * b`: the product of the values. */
  function Mul(a: Natural, b: Natural): (r: Natural)
    requires ProductFits(a, b)
    ensures r.val as int == a.val as int * b.val as int
  {
    Natural(a.val * b.val)
  }

  /** `zero()`: the value 0. */
  function Zero(): (r: Natural)
    ensures r.val == 0
  {
    Natural(0)
  }

  /** `is_zero()`: whether the value is 0. */
  predicate IsZero(x: Natural) {
    x.val == 0
  }

  /** `one()`: the value 1. */
  function One(): (r: Natural)
    ensures r.val == 1
  {
    Natural(1)
  }

  // ---------------------------------------------------------------- laws

  /** `new` and `val` are inverse to each other. */
  lemma NewValRoundTrip(v: U64, x: Natural)
    ensures Val(New(v)) == v
    ensures New(Val(x)) == x
  {
  }

  /** `is_zero` holds exactly of `zero()`. */
  lemma IsZeroIffZero(x: Natural)
    ensures IsZero(x) <==> x == Zero()
  {
  }

  /** `zero()` is the additive identity and annihilates under `mul`; `one()` is the multiplicative identity. */
  lemma Identities(x: Natural)
    ensures Add(x, Zero()) == x && Add(Zero(), x) == x
    ensures Mul(x, One()) == x && Mul(One(), x) == x
    ensures Mul(x, Zero()) == Zero() && Mul(Zero(), x) == Zero()
  {
  }

  /** Addition and multiplication are commutative, whenever one side is in range. */
  lemma Commutative(a: Natural, b: Natural)
    ensures SumFits(a, b) ==> SumFits(b, a) && Add(a, b) == Add(b, a)
    ensures ProductFits(a, b) ==> ProductFits(b, a) && Mul(a, b) == Mul(b, a)
  {
  }

  /** Addition is associative when every intermediate sum is in range. */
  lemma AddAssoc(a: Natural, b: Natural, c: Natural)
    requires SumFits(a, b) && SumFits(Add(a, b), c)
    ensures SumFits(b, c) && SumFits(a, Add(b, c))
    ensures Add(Add(a, b), c) == Add(a, Add(b, c))
  {
  }

  /** Multiplication is associative when every intermediate product is in range. */
  lemma MulAssoc(a: Natural, b: Natural, c: Natural)
    requires ProductFits(a, b) && ProductFits(Mul(a, b), c)
    requires ProductFits(b, c) && ProductFits(a, Mul(b, c))
    ensures Mul(Mul(a, b), c) == Mul(a, Mul(b, c))
  {
    assert (a.val as int * b.val as int) * c.val as int == a.val as int * (b.val as int * c.val as int);
  }

  /** Multiplication distributes over addition when every intermediate result is in range. */
  lemma Distributes(a: Natural, b: Natural, c: Natural)
    requires SumFits(b, c) && ProductFits(a, Add(b, c))
    ensures ProductFits(a, b) && ProductFits(a, c) && SumFits(Mul(a, b), Mul(a, c))
    ensures Mul(a, Add(b, c)) == Add(Mul(a, b), Mul(a, c))
  {
    var x, y, z := a.val as int, b.val as int, c.val as int;
    assert x * (y + z) == x * y + x * z;
    assert x * y <= x * (y + z) && x * z <= x * (y + z) by {
      assert x * (y + z) - x * y == x * z;
    }
  }

  /** Small values: `2 + 3 == 5`, `2 * 3 == 6`, and `one()` is not zero. */
  lemma Examples()
    ensures Add(New(2), New(3)) == New(5)
    ensures Mul(New(2), New(3)) == New(6)
    ensures !IsZero(One()) && IsZero(Zero())
  {
  }
}
