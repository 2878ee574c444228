/**
 * Square matrices with `int` entries, following `SquareMatrix<T, N>` of
 * src/coefficients/matrices.rs.
 *
 * The source fixes the size `N` in the type; here it is the parameter `n`
 * of every operation, and `Shaped(m, n)` says that `m` is `n` rows of `n`
 * entries. Equality is the derived structural equality of the grid.
 */
module Matrices {

  datatype SquareMatrix = SquareMatrix(data: seq<seq<int>>)

  /** `n` rows, each of `n` entries: the shape `[[T; N]; N]`. */
  predicate Shaped(m: SquareMatrix, n: nat) {
    |m.data| == n && forall i :: 0 <= i < n ==> |m.data[i]| == n
  }

  /** Two matrices of the same shape with the same entries are equal. */
  lemma Ext(n: nat, a: SquareMatrix, b: SquareMatrix)
    requires Shaped(a, n) && Shaped(b, n)
    requires forall i, j :: 0 <= i < n && 0 <= j < n ==> a.data[i][j] == b.data[i][j]
    ensures a == b
  {
    forall i | 0 <= i < n
      ensures a.data[i] == b.data[i]
    {
    }
  }

  /** Column `j` of `m`, top to bottom. */
  function Column(n: nat, m: SquareMatrix, j: nat): (c: seq<int>)
    requires Shaped(m, n) && j < n
    ensures |c| == n && forall k :: 0 <= k < n ==> c[k] == m.data[k][j]
  {
    seq(n, k requires 0 <= k < n => m.data[k][j])
  }

  // ---------------------------------------------------------------- dot products

  /**
   * `u[0] * v[0] + ... + u[k-1] * v[k-1]`, accumulated from the left as the
   * innermost loop of the matrix product does.
   */
  function Dot(u: seq<int>, v: seq<int>): int
    requires |u| == |v|
    decreases |u|
  {
    if |u| == 0 then 0
    else Dot(u[..|u| - 1], v[..|v| - 1]) + u[|u| - 1] * v[|v| - 1]
  }

  /** One more step of the accumulation. */
  lemma DotSnoc(u: seq<int>, v: seq<int>, k: nat)
    requires |u| == |v| && k < |u|
    ensures Dot(u[..k + 1], v[..k + 1]) == Dot(u[..k], v[..k]) + u[k] * v[k]
  {
    assert u[..k + 1][..k] == u[..k];
    assert v[..k + 1][..k] == v[..k];
  }

  /** A vector of zeros on either side gives zero. */
  lemma {:induction false} DotZero(u: seq<int>, v: seq<int>)
    requires |u| == |v|
    requires (forall k :: 0 <= k < |u| ==> u[k] == 0) || (forall k :: 0 <= k < |v| ==> v[k] == 0)
    ensures Dot(u, v) == 0
    decreases |u|
  {
    if |u| > 0 {
      DotZero(u[..|u| - 1], v[..|v| - 1]);
    }
  }

  /** Against the unit vector with its one at `j`, the dot product picks out entry `j`. */
  lemma {:induction false} DotUnit(u: seq<int>, e: seq<int>, j: nat)
    requires |u| == |e| && j < |u|
    requires forall k :: 0 <= k < |e| ==> e[k] == (if k == j then 1 else 0)
    ensures Dot(u, e) == u[j] && Dot(e, u) == u[j]
    decreases |u|
  {
    var m := |u| - 1;
    if j == m {
      DotZero(u[..m], e[..m]);
      DotZero(e[..m], u[..m]);
    } else {
      DotUnit(u[..m], e[..m], j);
    }
  }

  lemma LinearStep(c: int, d: int, su: int, sw: int, um: int, wm: int, vm: int, sm: int)
    requires sm == c * um + d * wm
    ensures c * su + d * sw + sm * vm == c * (su + um * vm) + d * (sw + wm * vm)
  {
    assert sm * vm == c * (um * vm) + d * (wm * vm);
  }

  /** The dot product is linear in its first argument. */
  lemma {:induction false} DotLinearLeft(u: seq<int>, w: seq<int>, v: seq<int>, c: int, d: int, s: seq<int>)
    requires |u| == |w| == |v| == |s|
    requires forall k :: 0 <= k < |s| ==> s[k] == c * u[k] + d * w[k]
    ensures Dot(s, v) == c * Dot(u, v) + d * Dot(w, v)
    decreases |u|
  {
    if |u| > 0 {
      var m := |u| - 1;
      DotLinearLeft(u[..m], w[..m], v[..m], c, d, s[..m]);
      LinearStep(c, d, Dot(u[..m], v[..m]), Dot(w[..m], v[..m]), u[m], w[m], v[m], s[m]);
    }
  }

  /** The dot product is symmetric. */
  lemma {:induction false} DotComm(u: seq<int>, v: seq<int>)
    requires |u| == |v|
    ensures Dot(u, v) == Dot(v, u)
    decreases |u|
  {
    if |u| > 0 {
      DotComm(u[..|u| - 1], v[..|v| - 1]);
    }
  }

  /** The dot product is linear in its second argument. */
  lemma DotLinearRight(u: seq<int>, v: seq<int>, w: seq<int>, c: int, d: int, s: seq<int>)
    requires |u| == |w| == |v| == |s|
    requires forall k :: 0 <= k < |s| ==> s[k] == c * v[k] + d * w[k]
    ensures Dot(u, s) == c * Dot(u, v) + d * Dot(u, w)
  {
    DotComm(u, s);
    DotComm(u, v);
    DotComm(u, w);
    DotLinearLeft(v, w, u, c, d, s);
  }

  // ---------------------------------------------------------------- construction

  /** `new(data)`: the grid stored as given. */
  function New(data: seq<seq<int>>): (r: SquareMatrix)
    ensures r.data == data
  {
    SquareMatrix(data)
  }

  /** `data()`: the stored grid. */
  function Data(m: SquareMatrix): (r: seq<seq<int>>)
    ensures New(r) == m
  {
    m.data
  }

  /** `data()` returns exactly what `new` was given. */
  lemma DataOfNew(data: seq<seq<int>>)
    ensures Data(New(data)) == data
  {
  }

  /** `zero()`: every entry zero. */
  function Zero(n: nat): (r: SquareMatrix)
    ensures Shaped(r, n)
    ensures forall i, j :: 0 <= i < n && 0 <= j < n ==> r.data[i][j] == 0
  {
    SquareMatrix(seq(n, i => seq(n, j => 0)))
  }

  /** `is_zero()`: every entry of every row is zero. */
  predicate IsZero(m: SquareMatrix) {
    forall i, j :: 0 <= i < |m.data| && 0 <= j < |m.data[i]| ==> m.data[i][j] == 0
  }

  /** `one()`: ones on the diagonal, zeros elsewhere. */
  function One(n: nat): (r: SquareMatrix)
    ensures Shaped(r, n)
    ensures forall i, j :: 0 <= i < n && 0 <= j < n ==> r.data[i][j] == (if i == j then 1 else 0)
  {
    SquareMatrix(seq(n, i => seq(n, j => if i == j then 1 else 0)))
  }

  // ---------------------------------------------------------------- entrywise operations

  /** `a + b`, entry by entry. */
  function Add(n: nat, a: SquareMatrix, b: SquareMatrix): (r: SquareMatrix)
    requires Shaped(a, n) && Shaped(b, n)
    ensures Shaped(r, n)
    ensures forall i, j :: 0 <= i < n && 0 <= j < n ==> r.data[i][j] == a.data[i][j] + b.data[i][j]
  {
    SquareMatrix(seq(n, i requires 0 <= i < n => seq(n, j requires 0 <= j < n => a.data[i][j] + b.data[i][j])))
  }

  /** `a - b`, entry by entry. */
  function Sub(n: nat, a: SquareMatrix, b: SquareMatrix): (r: SquareMatrix)
    requires Shaped(a, n) && Shaped(b, n)
    ensures Shaped(r, n)
    ensures forall i, j :: 0 <= i < n && 0 <= j < n ==> r.data[i][j] == a.data[i][j] - b.data[i][j]
  {
    SquareMatrix(seq(n, i requires 0 <= i < n => seq(n, j requires 0 <= j < n => a.data[i][j] - b.data[i][j])))
  }

  /** `-a`, entry by entry. */
  function Neg(n: nat, a: SquareMatrix): (r: SquareMatrix)
    requires Shaped(a, n)
    ensures Shaped(r, n)
    ensures forall i, j :: 0 <= i < n && 0 <= j < n ==> r.data[i][j] == -a.data[i][j]
  {
    SquareMatrix(seq(n, i requires 0 <= i < n => seq(n, j requires 0 <= j < n => -a.data[i][j])))
  }

  /** `a * c` for a scalar `c`: every entry multiplied by `c`. */
  function Scale(n: nat, a: SquareMatrix, c: int): (r: SquareMatrix)
    requires Shaped(a, n)
    ensures Shaped(r, n)
    ensures forall i, j :: 0 <= i < n && 0 <= j < n ==> r.data[i][j] == a.data[i][j] * c
  {
    SquareMatrix(seq(n, i requires 0 <= i < n => seq(n, j requires 0 <= j < n => a.data[i][j] * c)))
  }

  // ---------------------------------------------------------------- product

  /** The matrix product: entry `(i, j)` is row `i` of `a` against column `j` of `b`. */
  function Product(n: nat, a: SquareMatrix, b: SquareMatrix): (r: SquareMatrix)
    requires Shaped(a, n) && Shaped(b, n)
    ensures Shaped(r, n)
    ensures forall i, j :: 0 <= i < n && 0 <= j < n ==> r.data[i][j] == Dot(a.data[i], Column(n, b, j))
  {
    SquareMatrix(seq(n, i requires 0 <= i < n => seq(n, j requires 0 <= j < n => Dot(a.data[i], Column(n, b, j)))))
  }

  /**
   * `a * b` as the source computes it: for each row and each column, start
   * a sum at zero and add `a[i][k] * b[k][j]` for `k` from `0` to `n - 1`.
   */
  method Mul(n: nat, a: SquareMatrix, b: SquareMatrix) returns (r: SquareMatrix)
    requires Shaped(a, n) && Shaped(b, n)
    ensures r == Product(n, a, b)
  {
    var data: seq<seq<int>> := [];
    for i := 0 to n
      invariant |data| == i
      invariant forall i' :: 0 <= i' < i ==> data[i'] == Product(n, a, b).data[i']
    {
      var row: seq<int> := [];
      for j := 0 to n
        invariant |row| == j
        invariant forall j' :: 0 <= j' < j ==> row[j'] == Dot(a.data[i], Column(n, b, j'))
      {
        var col := Column(n, b, j);
        var sum := 0;
        for k := 0 to n
          invariant sum == Dot(a.data[i][..k], col[..k])
        {
          DotSnoc(a.data[i], col, k);
          sum := sum + a.data[i][k] * b.data[k][j];
        }
        assert a.data[i][..n] == a.data[i] && col[..n] == col;
        row := row + [sum];
      }
      data := data + [row];
    }
    r := SquareMatrix(data);
  }

  // ---------------------------------------------------------------- laws

  /** `is_zero` holds of an `n`-by-`n` matrix exactly when it is `zero()`. */
  lemma IsZeroIffZero(n: nat, m: SquareMatrix)
    requires Shaped(m, n)
    ensures IsZero(m) <==> m == Zero(n)
  {
    if IsZero(m) {
      Ext(n, m, Zero(n));
    }
  }

  lemma AddComm(n: nat, a: SquareMatrix, b: SquareMatrix)
    requires Shaped(a, n) && Shaped(b, n)
    ensures Add(n, a, b) == Add(n, b, a)
  {
    Ext(n, Add(n, a, b), Add(n, b, a));
  }

  /** `zero()` is the additive identity and `-a` the additive inverse. */
  lemma AdditiveLaws(n: nat, a: SquareMatrix)
    requires Shaped(a, n)
    ensures Add(n, a, Zero(n)) == a
    ensures Add(n, a, Neg(n, a)) == Zero(n)
    ensures Neg(n, Neg(n, a)) == a
  {
    Ext(n, Add(n, a, Zero(n)), a);
    Ext(n, Add(n, a, Neg(n, a)), Zero(n));
    Ext(n, Neg(n, Neg(n, a)), a);
  }

  /** Subtraction is addition of the negation. */
  lemma SubIsAddNeg(n: nat, a: SquareMatrix, b: SquareMatrix)
    requires Shaped(a, n) && Shaped(b, n)
    ensures Sub(n, a, b) == Add(n, a, Neg(n, b))
  {
    Ext(n, Sub(n, a, b), Add(n, a, Neg(n, b)));
  }

  /** Row `i` of `one()` and column `j` of `one()` are unit vectors. */
  lemma OneRowsAndColumns(n: nat, i: nat)
    requires i < n
    ensures forall k :: 0 <= k < n ==> One(n).data[i][k] == (if k == i then 1 else 0)
    ensures forall k :: 0 <= k < n ==> Column(n, One(n), i)[k] == (if k == i then 1 else 0)
  {
  }

  /** `one()` is a left and a right identity for the product. */
  lemma ProductOne(n: nat, a: SquareMatrix)
    requires Shaped(a, n)
    ensures Product(n, One(n), a) == a
    ensures Product(n, a, One(n)) == a
  {
    forall i, j | 0 <= i < n && 0 <= j < n
      ensures Product(n, One(n), a).data[i][j] == a.data[i][j]
      ensures Product(n, a, One(n)).data[i][j] == a.data[i][j]
    {
      OneRowsAndColumns(n, i);
      OneRowsAndColumns(n, j);
      DotUnit(Column(n, a, j), One(n).data[i], i);
      DotUnit(a.data[i], Column(n, One(n), j), j);
    }
    Ext(n, Product(n, One(n), a), a);
    Ext(n, Product(n, a, One(n)), a);
  }

  /** `zero()` annihilates on both sides. */
  lemma ProductZero(n: nat, a: SquareMatrix)
    requires Shaped(a, n)
    ensures Product(n, Zero(n), a) == Zero(n)
    ensures Product(n, a, Zero(n)) == Zero(n)
  {
    forall i, j | 0 <= i < n && 0 <= j < n
      ensures Product(n, Zero(n), a).data[i][j] == 0
      ensures Product(n, a, Zero(n)).data[i][j] == 0
    {
      DotZero(Zero(n).data[i], Column(n, a, j));
      DotZero(a.data[i], Column(n, Zero(n), j));
    }
    Ext(n, Product(n, Zero(n), a), Zero(n));
    Ext(n, Product(n, a, Zero(n)), Zero(n));
  }

  /** The product distributes over addition on both sides. */
  lemma ProductDistributes(n: nat, a: SquareMatrix, b: SquareMatrix, c: SquareMatrix)
    requires Shaped(a, n) && Shaped(b, n) && Shaped(c, n)
    ensures Product(n, a, Add(n, b, c)) == Add(n, Product(n, a, b), Product(n, a, c))
    ensures Product(n, Add(n, a, b), c) == Add(n, Product(n, a, c), Product(n, b, c))
  {
    DistributesOverRightSum(n, a, b, c);
    DistributesOverLeftSum(n, a, b, c);
  }

  lemma DistributesOverRightSum(n: nat, a: SquareMatrix, b: SquareMatrix, c: SquareMatrix)
    requires Shaped(a, n) && Shaped(b, n) && Shaped(c, n)
    ensures Product(n, a, Add(n, b, c)) == Add(n, Product(n, a, b), Product(n, a, c))
  {
    var lhs, rhs := Product(n, a, Add(n, b, c)), Add(n, Product(n, a, b), Product(n, a, c));
    forall i, j | 0 <= i < n && 0 <= j < n
      ensures lhs.data[i][j] == rhs.data[i][j]
    {
      DotLinearRight(a.data[i], Column(n, b, j), Column(n, c, j), 1, 1, Column(n, Add(n, b, c), j));
    }
    Ext(n, lhs, rhs);
  }

  lemma DistributesOverLeftSum(n: nat, a: SquareMatrix, b: SquareMatrix, c: SquareMatrix)
    requires Shaped(a, n) && Shaped(b, n) && Shaped(c, n)
    ensures Product(n, Add(n, a, b), c) == Add(n, Product(n, a, c), Product(n, b, c))
  {
    var lhs, rhs := Product(n, Add(n, a, b), c), Add(n, Product(n, a, c), Product(n, b, c));
    forall i, j | 0 <= i < n && 0 <= j < n
      ensures lhs.data[i][j] == rhs.data[i][j]
    {
      DotLinearLeft(a.data[i], b.data[i], Column(n, c, j), 1, 1, Add(n, a, b).data[i]);
    }
    Ext(n, lhs, rhs);
  }

  /** Scaling by `c` is multiplying by the scalar matrix `c * one()`, on either side. */
  lemma ScaleIsProduct(n: nat, a: SquareMatrix, c: int)
    requires Shaped(a, n)
    ensures Scale(n, a, c) == Product(n, a, Scale(n, One(n), c))
    ensures Scale(n, a, c) == Product(n, Scale(n, One(n), c), a)
  {
    var s := Scale(n, One(n), c);
    forall i, j | 0 <= i < n && 0 <= j < n
      ensures Product(n, a, s).data[i][j] == a.data[i][j] * c
      ensures Product(n, s, a).data[i][j] == a.data[i][j] * c
    {
      OneRowsAndColumns(n, i);
      OneRowsAndColumns(n, j);
      DotUnit(a.data[i], Column(n, One(n), j), j);
      DotLinearRight(a.data[i], Column(n, One(n), j), Column(n, One(n), j), c, 0, Column(n, s, j));
      DotUnit(Column(n, a, j), One(n).data[i], i);
      DotLinearLeft(One(n).data[i], One(n).data[i], Column(n, a, j), c, 0, s.data[i]);
    }
    Ext(n, Scale(n, a, c), Product(n, a, s));
    Ext(n, Scale(n, a, c), Product(n, s, a));
  }

  /** `u` times the grid `g` (of `|u|` rows of `p` entries): entry `k` is `u` against column `k`. */
  function RowTimes(u: seq<int>, g: seq<seq<int>>, p: nat): (r: seq<int>)
    requires |u| == |g| && forall l :: 0 <= l < |g| ==> |g[l]| == p
    ensures |r| == p
  {
    seq(p, k requires 0 <= k < p => Dot(u, seq(|g|, l requires 0 <= l < |g| => g[l][k])))
  }

  /** The grid `g` times `w`: entry `l` is row `l` against `w`. */
  function TimesColumn(g: seq<seq<int>>, w: seq<int>): (r: seq<int>)
    requires forall l :: 0 <= l < |g| ==> |g[l]| == |w|
    ensures |r| == |g|
  {
    seq(|g|, l requires 0 <= l < |g| => Dot(g[l], w))
  }

  /** The double sum of `u[l] * g[l][k] * w[k]` may be taken row-first or column-first. */
  lemma {:induction false} SumExchange(u: seq<int>, g: seq<seq<int>>, w: seq<int>)
    requires |u| == |g| && forall l :: 0 <= l < |g| ==> |g[l]| == |w|
    ensures Dot(RowTimes(u, g, |w|), w) == Dot(u, TimesColumn(g, w))
    decreases |g|
  {
    var p := |w|;
    if |g| == 0 {
      DotZero(RowTimes(u, g, p), w);
    } else {
      var m := |g| - 1;
      var u', g' := u[..m], g[..m];
      SumExchange(u', g', w);
      var whole, front := RowTimes(u, g, p), RowTimes(u', g', p);
      forall k | 0 <= k < p
        ensures whole[k] == 1 * front[k] + u[m] * g[m][k]
      {
        var col := seq(|g|, l requires 0 <= l < |g| => g[l][k]);
        assert col[..m] == seq(|g'|, l requires 0 <= l < |g'| => g'[l][k]);
      }
      DotLinearLeft(front, g[m], w, 1, u[m], whole);
      assert TimesColumn(g, w)[..m] == TimesColumn(g', w);
    }
  }

  /** The product is associative. */
  lemma ProductAssoc(n: nat, a: SquareMatrix, b: SquareMatrix, c: SquareMatrix)
    requires Shaped(a, n) && Shaped(b, n) && Shaped(c, n)
    ensures Product(n, Product(n, a, b), c) == Product(n, a, Product(n, b, c))
  {
    var ab, bc := Product(n, a, b), Product(n, b, c);
    forall i, j | 0 <= i < n && 0 <= j < n
      ensures Product(n, ab, c).data[i][j] == Product(n, a, bc).data[i][j]
    {
      assert ab.data[i] == RowTimes(a.data[i], b.data, n) by {
        forall k | 0 <= k < n
          ensures Column(n, b, k) == seq(n, l requires 0 <= l < n => b.data[l][k])
        {
        }
      }
      assert Column(n, bc, j) == TimesColumn(b.data, Column(n, c, j));
      SumExchange(a.data[i], b.data, Column(n, c, j));
    }
    Ext(n, Product(n, ab, c), Product(n, a, bc));
  }

  // ---------------------------------------------------------------- worked values

  /** `zero()` and `one()` of size two, as in the integration test. */
  lemma SizeTwoExamples()
    ensures Zero(2) == New([[0, 0], [0, 0]])
    ensures One(2) == New([[1, 0], [0, 1]])
    ensures IsZero(Zero(2)) && !IsZero(One(2))
  {
    Ext(2, Zero(2), New([[0, 0], [0, 0]]));
    Ext(2, One(2), New([[1, 0], [0, 1]]));
    assert One(2).data[0][0] == 1;
  }

  /** A product and a sum of two small matrices. */
  lemma ProductExample()
    ensures Product(2, New([[1, 2], [3, 4]]), New([[5, 6], [7, 8]])) == New([[19, 22], [43, 50]])
    ensures Add(2, New([[1, 2], [3, 4]]), New([[5, 6], [7, 8]])) == New([[6, 8], [10, 12]])
  {
    var a, b := New([[1, 2], [3, 4]]), New([[5, 6], [7, 8]]);
    assert Column(2, b, 0) == [5, 7] && Column(2, b, 1) == [6, 8];
    assert [1, 2][..1] == [1] && [3, 4][..1] == [3] && [5, 7][..1] == [5] && [6, 8][..1] == [6];
    assert Dot([1, 2], [5, 7]) == 19 && Dot([1, 2], [6, 8]) == 22;
    assert Dot([3, 4], [5, 7]) == 43 && Dot([3, 4], [6, 8]) == 50;
    Ext(2, Product(2, a, b), New([[19, 22], [43, 50]]));
    Ext(2, Add(2, a, b), New([[6, 8], [10, 12]]));
  }
}
