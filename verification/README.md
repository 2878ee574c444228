# rust-polynomials-lib in Dafny

This project models the four value types of the library:

- **`Polynomial<T>`** is a coefficient vector, lowest degree first. It has:
  - constructors `from_constant`, `x` and `x_pow`;
  - `zero`, `one` and `is_zero`;
  - negation;
  - adding or subtracting a scalar on the constant term;
  - padded pointwise addition and subtraction;
  - scalar multiplication;
  - convolution product;
  - square-and-multiply power `^`.
- **`SquareMatrix<T, N>`** is an `N`-by-`N` grid. It has entrywise `+`, `-`, negation and scalar `*`, the triple-loop product, `zero`, `is_zero` and `one`.
- **`RationalNumber`** is a fraction with `new` and `normalize`. Addition and multiplication normalize their result. Negation flips the sign of the numerator and keeps the denominator, without normalizing. Subtraction adds the negation, so its result is normalized. It also has `zero`, `is_zero` and `one`.
- **`NaturalNumber`** is a `u64` with `new`, `val`, `+`, `*`, `zero`, `is_zero` and `one`.

Modelling choices:

- Every type is an immutable datatype.
- Every operation is a function, except the loop-based algorithms.
  - The polynomial product and the matrix product are methods that follow the source's loops. Each is proved equal to a reference function.
  - The power `^` is a method that follows the source's square-and-multiply loop. It is proved equal to the naive `n`-fold product.
- Polynomial and matrix coefficients are `int`.
- The matrix size `N` is the parameter `n` of each matrix operation.
- Equality is structural everywhere, as the derived `PartialEq` of the source.

Files and modules:

| file | module | models |
|---|---|---|
| `polynomial.dfy` | `Polynomials` | src/polynomials/polynomial.rs |
| `matrix.dfy` | `Matrices` | src/coefficients/matrices.rs |
| `rational.dfy` | `Rationals` | src/coefficients/rational_numbers.rs |
| `natural.dfy` | `Naturals` | src/coefficients/natural_numbers.rs |

Two behaviours of the source are easy to miss:

- No polynomial operation removes trailing zeros. The code has no normalization routine. `Polynomials.NoTrimming` shows that `x - x` is `[0, 0]`: it satisfies `is_zero`, but it is not `zero()`.
- `RationalNumber::new` stores its arguments as given. It does not reduce them. `Rationals.NewDoesNotNormalize` shows that `new(2, 4)` differs from `new(1, 2)`.

Rational values are stated through the ghost real `Value(r) = numerator / denominator`. Lowest terms means:

- the denominator is positive, and
- the gcd of the magnitudes is one.

Two fractions in lowest terms with equal values are equal. This is proved from Bezout's identity and Euclid's lemma, and it carries most of the rational laws.

## Model

| member | source | states |
|---|---|---|
| Polynomials.FromConstant | src/polynomials/polynomial.rs:17-21 | the result has length one and its only coefficient is `c` |
| Polynomials.X | src/polynomials/polynomial.rs:23-27 | `x()` is the monomial `x_pow(1)` |
| Polynomials.XPow | src/polynomials/polynomial.rs:29-33 | `x_pow(n)` has length `n + 1`, a one at index `n` and zeros everywhere else |
| Polynomials.XPowIsPowerOfX | src/polynomials/polynomial.rs:23-33 | `x_pow(n)` equals the `n`-th power of `x()` under the convolution product |
| Polynomials.Zero | src/polynomials/polynomial.rs:40-44 | `zero()` is the constant polynomial 0 and satisfies `is_zero` |
| Polynomials.AllZero | src/polynomials/polynomial.rs:46-48 | the element-by-element scan behind `is_zero` (the predicate `Polynomials.IsZero`) is true exactly when every coefficient is zero, whatever the length |
| Polynomials.One | src/polynomials/polynomial.rs:56-60 | `one()` is the constant polynomial 1 and does not satisfy `is_zero` |
| Polynomials.Neg | src/polynomials/polynomial.rs:69-73 | negation keeps the length and negates every coefficient |
| Polynomials.NegNeg | src/polynomials/polynomial.rs:69-73 | negating twice gives back the operand |
| Polynomials.AddScalar | src/polynomials/polynomial.rs:83-87 | adding a scalar keeps the length and non-emptiness; only coefficient 0 changes, by `+ c` |
| Polynomials.SubScalar | src/polynomials/polynomial.rs:97-101 | subtracting a scalar keeps the length; only coefficient 0 changes, by `- c` |
| Polynomials.ScalarIsConstant | src/polynomials/polynomial.rs:83-133 | adding or subtracting a scalar equals adding or subtracting `from_constant(c)`; subtracting `c` equals adding `-c` |
| Polynomials.Add | src/polynomials/polynomial.rs:110-117 | the sum is as long as the longer operand; coefficient `i` is the sum of the operands' coefficients, a missing one counted as zero |
| Polynomials.Sub | src/polynomials/polynomial.rs:126-133 | the difference is as long as the longer operand; coefficient `i` is the difference, a missing one counted as zero |
| Polynomials.AddComm | src/polynomials/polynomial.rs:110-117 | addition is commutative |
| Polynomials.AddAssoc | src/polynomials/polynomial.rs:110-117 | addition is associative |
| Polynomials.AddZero | src/polynomials/polynomial.rs:110-117 | `zero()` is a two-sided additive identity on non-empty polynomials |
| Polynomials.SubIsAddNeg | src/polynomials/polynomial.rs:126-133 | `a - b` equals `a + (-b)` |
| Polynomials.SubSelf | src/polynomials/polynomial.rs:126-133 | `p - p` satisfies `is_zero` and keeps the length of `p`, so for a longer `p` it is not `zero()` |
| Polynomials.NoTrimming | src/polynomials/polynomial.rs:126-133 | `x - x` is the vector `[0, 0]`: it is zero by `is_zero` yet differs from `zero()` |
| Polynomials.MulScalar | src/polynomials/polynomial.rs:147-155 | scalar multiplication keeps the length, even for the scalar 0, and multiplies every coefficient |
| Polynomials.ProductConstant | src/polynomials/polynomial.rs:147-178 | multiplying by `from_constant(c)`, on either side, is scalar multiplication by `c` |
| Polynomials.ConstantsEmbed | src/polynomials/polynomial.rs:17-21 | `from_constant` carries the sum, difference and product of coefficients to polynomials |
| Polynomials.Product | src/polynomials/polynomial.rs:169-178 | the product has length `len(a) + len(b) - 1`; coefficient `k` is the sum of `a[i] * b[j]` over `i + j == k` |
| Polynomials.Mul | src/polynomials/polynomial.rs:169-178 | the double loop accumulating into slot `i + j` yields the convolution product |
| Polynomials.ProductAssoc | src/polynomials/polynomial.rs:169-178 | the product is associative, lengths included |
| Polynomials.ProductComm | src/polynomials/polynomial.rs:169-178 | the product is commutative, lengths included |
| Polynomials.ProductDistributes | src/polynomials/polynomial.rs:169-178 | the product distributes over addition, lengths included |
| Polynomials.ProductOne | src/polynomials/polynomial.rs:169-178 | `one()` is a two-sided multiplicative identity |
| Polynomials.ProductZero | src/polynomials/polynomial.rs:169-178 | multiplying by `zero()` gives an all-zero vector as long as the other operand, which is not `zero()` when that operand is longer than one |
| Polynomials.PowerLength | src/polynomials/polynomial.rs:188-203 | the `n`-fold product of `p`, started from `one()`, has length `n * (len(p) - 1) + 1` |
| Polynomials.Pow | src/polynomials/polynomial.rs:188-203 | square-and-multiply yields exactly the `n`-fold repeated product; the loop keeps `result * a^exp == p^n` |
| Polynomials.PowZero | src/polynomials/polynomial.rs:188-203 | `p ^ 0` is `one()` for every `p`, the zero polynomial included |
| Polynomials.PowerOne | src/polynomials/polynomial.rs:188-203 | `p ^ 1` is `p` |
| Polynomials.PowerAdd | src/polynomials/polynomial.rs:188-203 | `p^m * p^n == p^(m+n)` |
| Polynomials.PowerOfSquare | src/polynomials/polynomial.rs:198 | squaring the base doubles the exponent: `(p * p)^k == p^(2k)` |
| Polynomials.BuiltPolynomial | tests/integration_test.rs:26-58 | `x()` is `[0, 1]`, `x_pow(3)` is `[0, 0, 0, 1]`, `from_constant(5)` is `[5]`, and `x^3 + x*2 + 5` is `[5, 2, 0, 1]` |
| Matrices.New | src/coefficients/matrices.rs:18-20 | `new` stores the grid as given |
| Matrices.Data | src/coefficients/matrices.rs:23-25 | `new` rebuilds the matrix from what `data()` returns |
| Matrices.DataOfNew | src/coefficients/matrices.rs:18-25 | `data()` returns exactly what `new` was given |
| Matrices.Add | src/coefficients/matrices.rs:34-44 | the sum is `n` by `n` and entry `(i, j)` is the sum of the operands' entries |
| Matrices.Sub | src/coefficients/matrices.rs:53-63 | the difference is `n` by `n` and entry `(i, j)` is the difference of the operands' entries |
| Matrices.Neg | src/coefficients/matrices.rs:72-82 | negation is `n` by `n` and negates every entry |
| Matrices.AddComm | src/coefficients/matrices.rs:34-44 | addition is commutative |
| Matrices.AdditiveLaws | src/coefficients/matrices.rs:34-82 | `zero()` is the additive identity, `a + (-a)` is `zero()`, and negation is an involution |
| Matrices.SubIsAddNeg | src/coefficients/matrices.rs:34-82 | `a - b` equals `a + (-b)` |
| Matrices.Product | src/coefficients/matrices.rs:91-105 | the product is `n` by `n` and entry `(i, j)` is the sum over `k` of `a[i][k] * b[k][j]` |
| Matrices.Mul | src/coefficients/matrices.rs:91-105 | the triple loop, with the running sum started at zero for each entry, yields the matrix product |
| Matrices.ProductAssoc | src/coefficients/matrices.rs:91-105 | the matrix product is associative |
| Matrices.ProductDistributes | src/coefficients/matrices.rs:91-105 | the product distributes over addition on both sides |
| Matrices.Zero | src/coefficients/matrices.rs:112-116 | `zero()` is `n` by `n` with every entry zero |
| Matrices.IsZeroIffZero | src/coefficients/matrices.rs:112-122 | for an `n`-by-`n` matrix, `is_zero` (the predicate `Matrices.IsZero`) holds exactly when the matrix equals `zero()` |
| Matrices.ProductZero | src/coefficients/matrices.rs:91-116 | `zero()` annihilates the product on both sides |
| Matrices.One | src/coefficients/matrices.rs:129-135 | `one()` is `n` by `n` with ones on the diagonal and zeros elsewhere |
| Matrices.ProductOne | src/coefficients/matrices.rs:91-105 | `one()` is a left and a right identity of the product |
| Matrices.Scale | src/coefficients/matrices.rs:144-154 | scalar multiplication keeps the shape and multiplies every entry by the scalar |
| Matrices.ScaleIsProduct | src/coefficients/matrices.rs:144-154 | scaling by `c` equals multiplying, on either side, by the scalar matrix `one() * c` |
| Matrices.SizeTwoExamples | tests/integration_test.rs:99-115 | `zero()` and `one()` of size two are the grids of the integration test; only the former satisfies `is_zero` |
| Matrices.ProductExample | src/coefficients/matrices.rs:91-105 | `[[1,2],[3,4]] * [[5,6],[7,8]] == [[19,22],[43,50]]` and their sum is `[[6,8],[10,12]]` |
| Rationals.New | src/coefficients/rational_numbers.rs:10-12 | `new` stores numerator and denominator as given |
| Rationals.NewDoesNotNormalize | src/coefficients/rational_numbers.rs:10-12 | `new(2, 4)` differs from `new(1, 2)`, though the two have the same value and normalize alike |
| Rationals.Normalize | src/coefficients/rational_numbers.rs:22-30 | for a non-zero denominator the result is in lowest terms and has the same value; it is `0/1` exactly when the numerator is zero |
| Rationals.NormalizeFixesNormalized | src/coefficients/rational_numbers.rs:22-30 | a fraction already in lowest terms is left unchanged |
| Rationals.NormalizeIdempotent | src/coefficients/rational_numbers.rs:22-30 | normalizing twice is normalizing once |
| Rationals.NormalizeRespectsValue | src/coefficients/rational_numbers.rs:22-30 | fractions equal by cross-multiplication normalize to the same pair |
| Rationals.Add | src/coefficients/rational_numbers.rs:36-43 | the sum is in lowest terms and its value is the sum of the values |
| Rationals.Neg | src/coefficients/rational_numbers.rs:49-54 | negation negates the numerator and keeps the denominator, so for a non-zero denominator it negates the value |
| Rationals.NegNeg | src/coefficients/rational_numbers.rs:49-54 | negating twice gives back the operand, unreduced |
| Rationals.Sub | src/coefficients/rational_numbers.rs:60-62 | the difference is in lowest terms and its value is the difference of the values |
| Rationals.Mul | src/coefficients/rational_numbers.rs:68-75 | the product is in lowest terms and its value is the product of the values |
| Rationals.Commutative | src/coefficients/rational_numbers.rs:36-75 | addition and multiplication are commutative |
| Rationals.AddAssoc | src/coefficients/rational_numbers.rs:36-43 | addition is associative |
| Rationals.MulAssoc | src/coefficients/rational_numbers.rs:68-75 | multiplication is associative |
| Rationals.Distributes | src/coefficients/rational_numbers.rs:36-75 | multiplication distributes over addition |
| Rationals.Zero | src/coefficients/rational_numbers.rs:79-84 | `zero()` is in lowest terms with value 0 |
| Rationals.IsZeroIffValueZero | src/coefficients/rational_numbers.rs:86-88 | for a non-zero denominator, `is_zero` (the predicate `Rationals.IsZero`) holds exactly when the value is zero |
| Rationals.ZeroSumLeft | src/coefficients/rational_numbers.rs:36-43 | `zero() + x` is `x` for every `x` in lowest terms |
| Rationals.One | src/coefficients/rational_numbers.rs:92-97 | `one()` is in lowest terms with value 1 |
| Rationals.IdentityLaws | src/coefficients/rational_numbers.rs:36-97 | `a + zero()` and `a * one()` are `a` normalized; `a - a`, `a + (-a)` and `a * zero()` are `zero()` |
| Rationals.SumExamples | tests/integration_test.rs:74-81 | the entrywise sums of the test matrices are 2/3, 10/21, 3/8 and 14/45, and `1/2 + 1/3` is 5/6 |
| Rationals.DifferenceExamples | tests/integration_test.rs:90-97 | the entrywise differences of the test matrices are 1/3, 4/21, 1/8 and 4/45, and `1/2 - 1/3` is 1/6 |
| Rationals.ProductExamples | src/coefficients/rational_numbers.rs:68-75 | `3/2 * 1/3` is 1/2; `-2/4 * 2/-3` is 1/3, with the sign moved off the denominator; `1/2 * -1/3` is -1/6 |
| Rationals.ProductEntryTopLeft | tests/integration_test.rs:82-89 | entry (0,0) of the test matrix product, accumulated from `zero()`, is 1/8 |
| Rationals.ProductEntryTopRight | tests/integration_test.rs:82-89 | entry (0,1) of the test matrix product, accumulated from `zero()`, is 41/378 |
| Rationals.ProductEntryBottomLeft | tests/integration_test.rs:82-89 | entry (1,0) of the test matrix product, accumulated from `zero()`, is 1/15 |
| Rationals.ProductEntryBottomRight | tests/integration_test.rs:82-89 | entry (1,1) of the test matrix product, accumulated from `zero()`, is 73/1260 |
| Naturals.New | src/coefficients/natural_numbers.rs:9-11 | `new(v)` holds `v` |
| Naturals.Val | src/coefficients/natural_numbers.rs:13-15 | `val()` returns the held value |
| Naturals.NewValRoundTrip | src/coefficients/natural_numbers.rs:9-15 | `val(new(v)) == v` and `new(val(x)) == x` |
| Naturals.Add | src/coefficients/natural_numbers.rs:21-25 | when the sum fits in `u64`, the result holds the sum of the values |
| Naturals.Mul | src/coefficients/natural_numbers.rs:31-35 | when the product fits in `u64`, the result holds the product of the values |
| Naturals.Zero | src/coefficients/natural_numbers.rs:39-41 | `zero()` holds 0 |
| Naturals.IsZeroIffZero | src/coefficients/natural_numbers.rs:39-45 | `is_zero` (the predicate `Naturals.IsZero`) holds exactly of `zero()` |
| Naturals.One | src/coefficients/natural_numbers.rs:49-51 | `one()` holds 1 |
| Naturals.Identities | src/coefficients/natural_numbers.rs:21-51 | `zero()` is the additive identity and annihilates under `*`; `one()` is the multiplicative identity |
| Naturals.Commutative | src/coefficients/natural_numbers.rs:21-35 | `+` and `*` are commutative |
| Naturals.AddAssoc | src/coefficients/natural_numbers.rs:21-25 | `+` is associative when the intermediate sums fit |
| Naturals.MulAssoc | src/coefficients/natural_numbers.rs:31-35 | `*` is associative when the intermediate products fit |
| Naturals.Distributes | src/coefficients/natural_numbers.rs:21-35 | `*` distributes over `+` when `a * (b + c)` fits, and then every intermediate value fits |
| Naturals.Examples | src/coefficients/natural_numbers.rs:21-51 | `2 + 3 == 5`, `2 * 3 == 6`, `one()` is not zero and `zero()` is |

## Left out

- `Polynomial::from_vector` and `Polynomial::eval` are called by tests/integration_test.rs and src/main.rs. Neither is defined in src/polynomials/polynomial.rs, so trimming, Horner evaluation and composition are not part of this model. The test expectations that rely on them (tests/integration_test.rs:11-24, 60-61, 118-206) are not modelled.
- src/main.rs only prints, and src/coefficients/mod.rs only re-exports modules.
- The Rust generics are not modelled. Polynomials and matrices have `int` coefficients, not an arbitrary type with `num::Zero`/`num::One` and the operator traits.
  - The rational matrices of the integration test are covered entry by entry in `Rationals`, using the same accumulation order as the matrix product.
- `RationalNumber::numerator()` and `denominator()` are the datatype's fields.
- The const generic `N` becomes a parameter `n` together with the predicate `Shaped`. Rust's type checker enforces this shape, so it appears as a precondition.
- Polynomial vectors are never empty (`Valid`). `AddScalar`, `SubScalar` and the product require it, as the source's `coefficients[0]` and `len(a) + len(b) - 1` do. `MulScalar` maps over the vector and needs no such requirement.
- `usize` bounds are not modelled. The `n + 1` of `x_pow(n)` could overflow, and the exponent of `^` is an unbounded `nat` rather than at most `usize::MAX`. The exponent loop itself only takes `% 2` and `/ 2`, which cannot overflow.
- Rationals.Normalize: the denominator must be non-zero. Two source behaviours are excluded by this. For `0/0`, `num::integer::gcd(0, 0)` is 0, and the source divides by it and panics. For `n/0` with `n` non-zero, the gcd is `|n|`, and the source returns `sign(n)/0` without panicking; the model does not describe that result. `Add`, `Sub` and `Mul` carry the same precondition on their operands.
- Rationals.Add: numerators and denominators are unbounded integers. The `i64` overflow of the cross-multiplication is not modelled, and neither is the `i64::MIN` sign flip in `normalize`. The same holds for Rationals.Mul.
- Rationals.Neg and Rationals.Sub: `-i64::MIN` overflows in the source (`neg` negates the numerator, and `sub` goes through `neg`); the model negates unbounded integers and does not model this overflow.
- Rationals.Neg: the value is stated only for a non-zero denominator, since a zero denominator has no value. The result's fields, the numerator negated and the denominator kept, are stated for every input.
- Rationals.Gcd is Euclid's subtraction algorithm on magnitudes. It stands in for `num::integer::gcd`, whose result is the same non-negative gcd.
- Naturals.Add: an overflowing `u64` sum is excluded by the precondition. This matches the debug-build panic; release-build wrap-around is not modelled. The same holds for Naturals.Mul.
- Polynomials.Mul and Matrices.Mul build their result by updating or appending to sequences, not by overwriting a preallocated array in place. The values computed are the same.
