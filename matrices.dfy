/**
 * Dense matrices over an algebraic structure: one model for both the
 * dynamically sized DynMatrix and the statically sized Matrix<T, N, M>,
 * which run the same loops and differ only in when their dimension checks
 * happen. A matrix is a value, and no operator changes its operands. New
 * builds the zero-filled matrix row by row; identity, +, binary and unary -
 * and * start from such a matrix and overwrite its cells in nested loops;
 * pow starts from the identity and loops over whole products.
 */
module Matrices {
  import opened Algebra

  /** n rows of m cells each, stored row by row. */
  datatype Matrix<V> = Matrix(values: seq<seq<V>>, n: int, m: int) {

    /** Both dimensions are positive and every row has m cells. */
    ghost predicate Valid() {
      n > 0 && m > 0 && |values| == n && forall i :: 0 <= i < n ==> |values[i]| == m
    }

    predicate IsSquare() {
      n == m
    }

    /** The matrix with cell (i, j) overwritten by v: `result.values[i][j] = v`. */
    function Set(i: int, j: int, v: V): (r: Matrix<V>)
      requires Valid() && 0 <= i < n && 0 <= j < m
      ensures r.Valid() && r.n == n && r.m == m
      ensures r.values[i][j] == v
      ensures forall i', j' :: 0 <= i' < n && 0 <= j' < m && (i', j') != (i, j) ==>
                r.values[i'][j'] == values[i'][j']
    {
      Matrix(values[i := values[i][j := v]], n, m)
    }
  }

  // ---------------------------------------------------------------------
  // The values the operators compute, as functions.
  // ---------------------------------------------------------------------

  function Zeros<V>(s: Structure<V>, n: int, m: int): (r: Matrix<V>)
    requires n > 0 && m > 0
    ensures r.Valid() && r.n == n && r.m == m
  {
    Matrix(seq(n, _ => seq(m, _ => s.zero)), n, m)
  }

  function Unit<V>(s: Structure<V>, n: int): (r: Matrix<V>)
    requires n > 0
    ensures r.Valid() && r.n == n && r.m == n
  {
    Matrix(seq(n, i => seq(n, j => if i == j then s.one else s.zero)), n, n)
  }

  function Sum<V>(s: Structure<V>, a: Matrix<V>, b: Matrix<V>): (r: Matrix<V>)
    requires a.Valid() && b.Valid() && a.n == b.n && a.m == b.m
    ensures r.Valid() && r.n == a.n && r.m == a.m
  {
    Matrix(seq(a.n, i requires 0 <= i < a.n =>
             seq(a.m, j requires 0 <= j < a.m => s.plus(a.values[i][j], b.values[i][j]))),
           a.n, a.m)
  }

  function Difference<V>(s: Structure<V>, a: Matrix<V>, b: Matrix<V>): (r: Matrix<V>)
    requires a.Valid() && b.Valid() && a.n == b.n && a.m == b.m
    ensures r.Valid() && r.n == a.n && r.m == a.m
  {
    Matrix(seq(a.n, i requires 0 <= i < a.n =>
             seq(a.m, j requires 0 <= j < a.m => s.plus(a.values[i][j], s.neg(b.values[i][j])))),
           a.n, a.m)
  }

  function Negation<V>(s: Structure<V>, a: Matrix<V>): (r: Matrix<V>)
    requires a.Valid()
    ensures r.Valid() && r.n == a.n && r.m == a.m
  {
    Matrix(seq(a.n, i requires 0 <= i < a.n =>
             seq(a.m, j requires 0 <= j < a.m => s.neg(a.values[i][j]))),
           a.n, a.m)
  }

  /**
   * The product as the source computes it: the innermost loop assigns
   * mul(a[i][k], b[k][j]) to the cell for every k instead of adding it,
   * so only the last term, k = a.m - 1, survives.
   */
  function Product<V>(s: Structure<V>, a: Matrix<V>, b: Matrix<V>): (r: Matrix<V>)
    requires a.Valid() && b.Valid() && a.m == b.n
    ensures r.Valid() && r.n == a.n && r.m == b.m
  {
    Matrix(seq(a.n, i requires 0 <= i < a.n =>
             seq(b.m, j requires 0 <= j < b.m => s.mul(a.values[i][a.m - 1], b.values[a.m - 1][j]))),
           a.n, b.m)
  }

  /** x multiplied on the right by k copies of b, one at a time, left to right. */
  function Times<V>(s: Structure<V>, x: Matrix<V>, b: Matrix<V>, k: nat): (r: Matrix<V>)
    requires x.Valid() && b.Valid() && b.IsSquare() && x.m == b.n
    ensures r.Valid() && r.n == x.n && r.m == x.m
    decreases k
  {
    if k == 0 then x else Times(s, Product(s, x, b), b, k - 1)
  }

  /** Two matrices of the same shape are equal when all their cells are. */
  lemma Extensionality<V>(a: Matrix<V>, b: Matrix<V>)
    requires a.Valid() && b.Valid() && a.n == b.n && a.m == b.m
    requires forall i, j :: 0 <= i < a.n && 0 <= j < a.m ==> a.values[i][j] == b.values[i][j]
    ensures a == b
  {
    forall i | 0 <= i < a.n ensures a.values[i] == b.values[i] {
      assert forall j :: 0 <= j < a.m ==> a.values[i][j] == b.values[i][j];
    }
  }

  // ---------------------------------------------------------------------
  // The operators.
  // ---------------------------------------------------------------------

  /** `DynMatrix(N, M)` and `Matrix()`: an N x M matrix whose every cell is zero. */
  method New<V>(s: Structure<V>, N: int, M: int) returns (r: Matrix<V>)
    requires N > 0 && M > 0
    ensures r.Valid() && r.n == N && r.m == M
    ensures forall i, j :: 0 <= i < N && 0 <= j < M ==> r.values[i][j] == s.zero
    ensures r == Zeros(s, N, M)
  {
    var rows: seq<seq<V>> := [];
    var i := 0;
    while i < N
      invariant 0 <= i <= N && |rows| == i
      invariant forall i' :: 0 <= i' < i ==> |rows[i']| == M
      invariant forall i', j :: 0 <= i' < i && 0 <= j < M ==> rows[i'][j] == s.zero
    {
      var row: seq<V> := [];
      var j := 0;
      while j < M
        invariant 0 <= j <= M && |row| == j
        invariant forall j' :: 0 <= j' < j ==> row[j'] == s.zero
      {
        row := row + [s.zero];
        j := j + 1;
      }
      rows := rows + [row];
      i := i + 1;
    }
    r := Matrix(rows, N, M);
    Extensionality(r, Zeros(s, N, M));
  }

  /** `identity(n)`: one on the diagonal, zero everywhere else. */
  method Identity<V>(s: Structure<V>, n: int) returns (r: Matrix<V>)
    requires n > 0
    ensures r.Valid() && r.n == n && r.m == n
    ensures forall i, j :: 0 <= i < n && 0 <= j < n ==> r.values[i][j] == if i == j then s.one else s.zero
    ensures r == Unit(s, n)
  {
    r := New(s, n, n);
    var i := 0;
    while i < n
      invariant 0 <= i <= n
      invariant r.Valid() && r.n == n && r.m == n
      invariant forall i', j :: 0 <= i' < n && 0 <= j < n ==>
                  r.values[i'][j] == if i' == j && i' < i then s.one else s.zero
    {
      r := r.Set(i, i, s.one);
      i := i + 1;
    }
    Extensionality(r, Unit(s, n));
  }

  /** `a + b`: cell-wise plus of two matrices of the same shape. */
  method Add<V>(s: Structure<V>, a: Matrix<V>, b: Matrix<V>) returns (r: Matrix<V>)
    requires a.Valid() && b.Valid() && a.n == b.n && a.m == b.m
    ensures r.Valid() && r.n == a.n && r.m == a.m
    ensures forall i, j :: 0 <= i < a.n && 0 <= j < a.m ==> r.values[i][j] == s.plus(a.values[i][j], b.values[i][j])
    ensures r == Sum(s, a, b)
  {
    r := New(s, a.n, a.m);
    var i := 0;
    while i < a.n
      invariant 0 <= i <= a.n
      invariant r.Valid() && r.n == a.n && r.m == a.m
      invariant forall i', j' :: 0 <= i' < i && 0 <= j' < a.m ==>
                  r.values[i'][j'] == s.plus(a.values[i'][j'], b.values[i'][j'])
    {
      var j := 0;
      while j < a.m
        invariant 0 <= j <= a.m
        invariant r.Valid() && r.n == a.n && r.m == a.m
        invariant forall i', j' :: 0 <= i' < i && 0 <= j' < a.m ==>
                    r.values[i'][j'] == s.plus(a.values[i'][j'], b.values[i'][j'])
        invariant forall j' :: 0 <= j' < j ==> r.values[i][j'] == s.plus(a.values[i][j'], b.values[i][j'])
      {
        r := r.Set(i, j, s.plus(a.values[i][j], b.values[i][j]));
        j := j + 1;
      }
      i := i + 1;
    }
    Extensionality(r, Sum(s, a, b));
  }

  /** `a - b`: computed as plus(a[i][j], neg(b[i][j])); there is no primitive minus. */
  method Subtract<V>(s: Structure<V>, a: Matrix<V>, b: Matrix<V>) returns (r: Matrix<V>)
    requires a.Valid() && b.Valid() && a.n == b.n && a.m == b.m
    ensures r.Valid() && r.n == a.n && r.m == a.m
    ensures forall i, j :: 0 <= i < a.n && 0 <= j < a.m ==> r.values[i][j] == s.plus(a.values[i][j], s.neg(b.values[i][j]))
    ensures r == Difference(s, a, b)
  {
    r := New(s, a.n, a.m);
    var i := 0;
    while i < a.n
      invariant 0 <= i <= a.n
      invariant r.Valid() && r.n == a.n && r.m == a.m
      invariant forall i', j' :: 0 <= i' < i && 0 <= j' < a.m ==>
                  r.values[i'][j'] == s.plus(a.values[i'][j'], s.neg(b.values[i'][j']))
    {
      var j := 0;
      while j < a.m
        invariant 0 <= j <= a.m
        invariant r.Valid() && r.n == a.n && r.m == a.m
        invariant forall i', j' :: 0 <= i' < i && 0 <= j' < a.m ==>
                    r.values[i'][j'] == s.plus(a.values[i'][j'], s.neg(b.values[i'][j']))
        invariant forall j' :: 0 <= j' < j ==> r.values[i][j'] == s.plus(a.values[i][j'], s.neg(b.values[i][j']))
      {
        r := r.Set(i, j, s.plus(a.values[i][j], s.neg(b.values[i][j])));
        j := j + 1;
      }
      i := i + 1;
    }
    Extensionality(r, Difference(s, a, b));
  }

  /** Unary `-a`: cell-wise neg, same shape as a. */
  method Negate<V>(s: Structure<V>, a: Matrix<V>) returns (r: Matrix<V>)
    requires a.Valid()
    ensures r.Valid() && r.n == a.n && r.m == a.m
    ensures forall i, j :: 0 <= i < a.n && 0 <= j < a.m ==> r.values[i][j] == s.neg(a.values[i][j])
    ensures r == Negation(s, a)
  {
    r := New(s, a.n, a.m);
    var i := 0;
    while i < a.n
      invariant 0 <= i <= a.n
      invariant r.Valid() && r.n == a.n && r.m == a.m
      invariant forall i', j' :: 0 <= i' < i && 0 <= j' < a.m ==> r.values[i'][j'] == s.neg(a.values[i'][j'])
    {
      var j := 0;
      while j < a.m
        invariant 0 <= j <= a.m
        invariant r.Valid() && r.n == a.n && r.m == a.m
        invariant forall i', j' :: 0 <= i' < i && 0 <= j' < a.m ==> r.values[i'][j'] == s.neg(a.values[i'][j'])
        invariant forall j' :: 0 <= j' < j ==> r.values[i][j'] == s.neg(a.values[i][j'])
      {
        r := r.Set(i, j, s.neg(a.values[i][j]));
        j := j + 1;
      }
      i := i + 1;
    }
    Extensionality(r, Negation(s, a));
  }

  /**
   * `a * b` for an n x m matrix a and an m x k matrix b, with the loops as
   * written: the innermost loop overwrites cell (i, j) for every inner index,
   * so each cell ends as the last term mul(a[i][m-1], b[m-1][j]).
   */
  method Multiply<V>(s: Structure<V>, a: Matrix<V>, b: Matrix<V>) returns (r: Matrix<V>)
    requires a.Valid() && b.Valid() && a.m == b.n
    ensures r.Valid() && r.n == a.n && r.m == b.m
    ensures forall i, j :: 0 <= i < a.n && 0 <= j < b.m ==>
              r.values[i][j] == s.mul(a.values[i][a.m - 1], b.values[a.m - 1][j])
    ensures r == Product(s, a, b)
  {
    r := New(s, a.n, b.m);
    var i := 0;
    while i < a.n
      invariant 0 <= i <= a.n
      invariant r.Valid() && r.n == a.n && r.m == b.m
      invariant forall i', j' :: 0 <= i' < i && 0 <= j' < b.m ==>
                  r.values[i'][j'] == s.mul(a.values[i'][a.m - 1], b.values[a.m - 1][j'])
    {
      var j := 0;
      while j < b.m
        invariant 0 <= j <= b.m
        invariant r.Valid() && r.n == a.n && r.m == b.m
        invariant forall i', j' :: 0 <= i' < i && 0 <= j' < b.m ==>
                    r.values[i'][j'] == s.mul(a.values[i'][a.m - 1], b.values[a.m - 1][j'])
        invariant forall j' :: 0 <= j' < j ==> r.values[i][j'] == s.mul(a.values[i][a.m - 1], b.values[a.m - 1][j'])
      {
        var k := 0;
        while k < a.m
          invariant 0 <= k <= a.m
          invariant r.Valid() && r.n == a.n && r.m == b.m
          invariant forall i', j' :: 0 <= i' < i && 0 <= j' < b.m ==>
                      r.values[i'][j'] == s.mul(a.values[i'][a.m - 1], b.values[a.m - 1][j'])
          invariant forall j' :: 0 <= j' < j ==> r.values[i][j'] == s.mul(a.values[i][a.m - 1], b.values[a.m - 1][j'])
          invariant 0 < k ==> r.values[i][j] == s.mul(a.values[i][k - 1], b.values[k - 1][j])
        {
          r := r.Set(i, j, s.mul(a.values[i][k], b.values[k][j]));
          k := k + 1;
        }
        j := j + 1;
      }
      i := i + 1;
    }
    Extensionality(r, Product(s, a, b));
  }

  /**
   * `pow(e)` by repeated squaring. For e <= 0 the loop does not run and the
   * result is the identity; for e > 0, when mul is associative, the result
   * is the identity multiplied on the right by e copies of a.
   */
  method Pow<V(!new)>(s: Structure<V>, a: Matrix<V>, e: int) returns (r: Matrix<V>)
    requires a.Valid() && a.IsSquare()
    ensures r.Valid() && r.n == a.n && r.m == a.n
    ensures e <= 0 ==> r == Unit(s, a.n)
    ensures e > 0 && Associative(s.mul) ==> r == Times(s, Unit(s, a.n), a, e)
  {
    r := Identity(s, a.n);
    var base := a;
    var x := e;
    while x > 0
      invariant r.Valid() && r.n == a.n && r.m == a.n
      invariant base.Valid() && base.n == a.n && base.m == a.n
      invariant e <= 0 ==> x == e && r == Unit(s, a.n)
      invariant e > 0 ==> 0 <= x
      invariant e > 0 && Associative(s.mul) ==> Times(s, r, base, x) == Times(s, Unit(s, a.n), a, e)
      decreases x
    {
      if x % 2 == 1 {
        if Associative(s.mul) { TimesOdd(s, r, base, x / 2); }
        r := Multiply(s, r, base);
      } else {
        if Associative(s.mul) { TimesEven(s, r, base, x / 2); }
      }
      x := x / 2;
      base := Multiply(s, base, base);
    }
  }

  // ---------------------------------------------------------------------
  // Laws of the operators, each under the element laws it needs.
  // ---------------------------------------------------------------------

  /** The zero matrix is a two-sided identity of matrix addition. */
  lemma SumZero<V(!new)>(s: Structure<V>, a: Matrix<V>)
    requires a.Valid() && Neutral(s.plus, s.zero)
    ensures Sum(s, a, Zeros(s, a.n, a.m)) == a
    ensures Sum(s, Zeros(s, a.n, a.m), a) == a
  {
    Extensionality(Sum(s, a, Zeros(s, a.n, a.m)), a);
    Extensionality(Sum(s, Zeros(s, a.n, a.m), a), a);
  }

  /** Matrix addition is associative when plus is. */
  lemma SumAssociative<V(!new)>(s: Structure<V>, a: Matrix<V>, b: Matrix<V>, c: Matrix<V>)
    requires a.Valid() && b.Valid() && c.Valid()
    requires a.n == b.n == c.n && a.m == b.m == c.m
    requires Associative(s.plus)
    ensures Sum(s, Sum(s, a, b), c) == Sum(s, a, Sum(s, b, c))
  {
    Extensionality(Sum(s, Sum(s, a, b), c), Sum(s, a, Sum(s, b, c)));
  }

  /** With the group law, a + (-a) and (-a) + a are the zero matrix. */
  lemma SumNegation<V(!new)>(s: Structure<V>, a: Matrix<V>)
    requires a.Valid() && Inverse(s)
    ensures Sum(s, a, Negation(s, a)) == Zeros(s, a.n, a.m)
    ensures Sum(s, Negation(s, a), a) == Zeros(s, a.n, a.m)
  {
    Extensionality(Sum(s, a, Negation(s, a)), Zeros(s, a.n, a.m));
    Extensionality(Sum(s, Negation(s, a), a), Zeros(s, a.n, a.m));
  }

  /** Subtraction is addition of the negation, so a - a is the zero matrix. */
  lemma DifferenceIsSumOfNegation<V(!new)>(s: Structure<V>, a: Matrix<V>, b: Matrix<V>)
    requires a.Valid() && b.Valid() && a.n == b.n && a.m == b.m
    ensures Difference(s, a, b) == Sum(s, a, Negation(s, b))
    ensures Inverse(s) ==> Difference(s, a, a) == Zeros(s, a.n, a.m)
  {
    Extensionality(Difference(s, a, b), Sum(s, a, Negation(s, b)));
    if Inverse(s) {
      Extensionality(Difference(s, a, a), Zeros(s, a.n, a.m));
    }
  }

  /** The product as written is associative whenever mul is: the fact pow relies on. */
  lemma ProductAssociative<V(!new)>(s: Structure<V>, a: Matrix<V>, b: Matrix<V>, c: Matrix<V>)
    requires a.Valid() && b.Valid() && c.Valid() && a.m == b.n && b.m == c.n
    requires Associative(s.mul)
    ensures Product(s, Product(s, a, b), c) == Product(s, a, Product(s, b, c))
  {
    var l, r := Product(s, Product(s, a, b), c), Product(s, a, Product(s, b, c));
    forall i, j | 0 <= i < a.n && 0 <= j < c.m ensures l.values[i][j] == r.values[i][j] {
      var x, y, z := a.values[i][a.m - 1], b.values[a.m - 1][b.m - 1], c.values[b.m - 1][j];
      calc {
        l.values[i][j];
        s.mul(Product(s, a, b).values[i][b.m - 1], z);
        s.mul(s.mul(x, y), z);
        s.mul(x, s.mul(y, z));
        s.mul(x, Product(s, b, c).values[a.m - 1][j]);
        r.values[i][j];
      }
    }
    Extensionality(l, r);
  }

  /** j + k factors are j factors followed by k more. */
  lemma {:induction false} TimesSplit<V>(s: Structure<V>, x: Matrix<V>, b: Matrix<V>, j: nat, k: nat)
    requires x.Valid() && b.Valid() && b.IsSquare() && x.m == b.n
    ensures Times(s, x, b, j + k) == Times(s, Times(s, x, b, j), b, k)
    decreases j
  {
    if j > 0 {
      TimesSplit(s, Product(s, x, b), b, j - 1, k);
    }
  }

  /** Multiplying on the left commutes with appending factors on the right, when mul is associative. */
  lemma {:induction false} ProductTimes<V(!new)>(s: Structure<V>, x: Matrix<V>, y: Matrix<V>, b: Matrix<V>, k: nat)
    requires x.Valid() && y.Valid() && b.Valid() && b.IsSquare() && x.m == y.n && y.m == b.n
    requires Associative(s.mul)
    ensures Product(s, x, Times(s, y, b, k)) == Times(s, Product(s, x, y), b, k)
    decreases k
  {
    if k > 0 {
      ProductTimes(s, x, Product(s, y, b), b, k - 1);
      ProductAssociative(s, x, y, b);
    }
  }

  /**
   * A unit factor followed by any other factor drops out of the product as
   * written, when one is neutral for mul: (x * I) * b = x * b.
   */
  lemma UnitThenProduct<V(!new)>(s: Structure<V>, x: Matrix<V>, b: Matrix<V>)
    requires x.Valid() && b.Valid() && x.m == b.n && Neutral(s.mul, s.one)
    ensures Product(s, Product(s, x, Unit(s, x.m)), b) == Product(s, x, b)
  {
    var u := Unit(s, x.m);
    forall i, j | 0 <= i < x.n && 0 <= j < b.m
      ensures Product(s, Product(s, x, u), b).values[i][j] == Product(s, x, b).values[i][j]
    {
      assert Product(s, x, u).values[i][x.m - 1] == s.mul(x.values[i][x.m - 1], s.one);
    }
    Extensionality(Product(s, Product(s, x, u), b), Product(s, x, b));
  }

  /**
   * The power law pow(i) * pow(j) = pow(i + j) for j >= 1, with pow as
   * Pow computes it, for associative mul with neutral one. It fails for
   * j = 0, since pow(0) is the unit, which the product as written does not
   * keep neutral.
   */
  lemma PowAdd<V(!new)>(s: Structure<V>, a: Matrix<V>, i: nat, j: nat)
    requires a.Valid() && a.IsSquare() && Associative(s.mul) && Neutral(s.mul, s.one) && j >= 1
    ensures Product(s, Times(s, Unit(s, a.n), a, i), Times(s, Unit(s, a.n), a, j)) == Times(s, Unit(s, a.n), a, i + j)
  {
    var u := Unit(s, a.n);
    var x := Times(s, u, a, i);
    ProductTimes(s, x, u, a, j);
    UnitThenProduct(s, x, a);
    assert Times(s, Product(s, x, u), a, j) == Times(s, Product(s, Product(s, x, u), a), a, j - 1);
    assert Times(s, x, a, j) == Times(s, Product(s, x, a), a, j - 1);
    TimesSplit(s, u, a, i, j);
  }

  // ---------------------------------------------------------------------
  // The product the source evidently intends: each cell accumulates.
  // ---------------------------------------------------------------------

  /**
   * plus-accumulation, from zero and in ascending t, of mul(a[i][t], b[t][j])
   * for t = 0 .. k - 1.
   */
  function Dot<V>(s: Structure<V>, a: Matrix<V>, b: Matrix<V>, i: int, j: int, k: int): V
    requires a.Valid() && b.Valid() && a.m == b.n && 0 <= i < a.n && 0 <= j < b.m && 0 <= k <= a.m
    decreases k
  {
    if k == 0 then s.zero else s.plus(Dot(s, a, b, i, j, k - 1), s.mul(a.values[i][k - 1], b.values[k - 1][j]))
  }

  /** The accumulating product: cell (i, j) is the full dot product of row i and column j. */
  function SumProduct<V>(s: Structure<V>, a: Matrix<V>, b: Matrix<V>): (r: Matrix<V>)
    requires a.Valid() && b.Valid() && a.m == b.n
    ensures r.Valid() && r.n == a.n && r.m == b.m
  {
    Matrix(seq(a.n, i requires 0 <= i < a.n =>
             seq(b.m, j requires 0 <= j < b.m => Dot(s, a, b, i, j, a.m))),
           a.n, b.m)
  }

  /** Against the unit on the left, the first k terms of the dot product keep only a[i][j], if i < k. */
  lemma {:induction false} DotUnitLeft<V(!new)>(s: Structure<V>, a: Matrix<V>, i: int, j: int, k: int)
    requires a.Valid() && 0 <= i < a.n && 0 <= j < a.m && 0 <= k <= a.n
    requires Neutral(s.plus, s.zero) && Neutral(s.mul, s.one) && Absorbing(s)
    ensures Dot(s, Unit(s, a.n), a, i, j, k) == if i < k then a.values[i][j] else s.zero
    decreases k
  {
    if k > 0 {
      DotUnitLeft(s, a, i, j, k - 1);
      assert Unit(s, a.n).values[i][k - 1] == if i == k - 1 then s.one else s.zero;
    }
  }

  /** Against the unit on the right, the first k terms keep only a[i][j], if j < k. */
  lemma {:induction false} DotUnitRight<V(!new)>(s: Structure<V>, a: Matrix<V>, i: int, j: int, k: int)
    requires a.Valid() && 0 <= i < a.n && 0 <= j < a.m && 0 <= k <= a.m
    requires Neutral(s.plus, s.zero) && Neutral(s.mul, s.one) && Absorbing(s)
    ensures Dot(s, a, Unit(s, a.m), i, j, k) == if j < k then a.values[i][j] else s.zero
    decreases k
  {
    if k > 0 {
      DotUnitRight(s, a, i, j, k - 1);
      assert Unit(s, a.m).values[k - 1][j] == if k - 1 == j then s.one else s.zero;
    }
  }

  /** Over a semiring the identity matrix is neutral on both sides of the accumulating product. */
  lemma SumProductUnit<V(!new)>(s: Structure<V>, a: Matrix<V>)
    requires a.Valid() && IsSemiring(s)
    ensures SumProduct(s, Unit(s, a.n), a) == a
    ensures SumProduct(s, a, Unit(s, a.m)) == a
  {
    forall i, j | 0 <= i < a.n && 0 <= j < a.m
      ensures SumProduct(s, Unit(s, a.n), a).values[i][j] == a.values[i][j]
      ensures SumProduct(s, a, Unit(s, a.m)).values[i][j] == a.values[i][j]
    {
      DotUnitLeft(s, a, i, j, a.n);
      DotUnitRight(s, a, i, j, a.m);
    }
    Extensionality(SumProduct(s, Unit(s, a.n), a), a);
    Extensionality(SumProduct(s, a, Unit(s, a.m)), a);
  }

  /** The product as written agrees with the accumulating one when the inner dimension is 1. */
  lemma ProductOfInnerOne<V(!new)>(s: Structure<V>, a: Matrix<V>, b: Matrix<V>)
    requires a.Valid() && b.Valid() && a.m == b.n == 1 && Neutral(s.plus, s.zero)
    ensures Product(s, a, b) == SumProduct(s, a, b)
  {
    forall i, j | 0 <= i < a.n && 0 <= j < b.m
      ensures Product(s, a, b).values[i][j] == SumProduct(s, a, b).values[i][j]
    {
      assert Dot(s, a, b, i, j, 1) == s.plus(s.zero, s.mul(a.values[i][0], b.values[0][j]));
    }
    Extensionality(Product(s, a, b), SumProduct(s, a, b));
  }

  /** Squaring the base halves an even number of factors. */
  lemma {:induction false} TimesEven<V(!new)>(s: Structure<V>, x: Matrix<V>, b: Matrix<V>, k: nat)
    requires x.Valid() && b.Valid() && b.IsSquare() && x.m == b.n
    requires Associative(s.mul)
    ensures Times(s, x, b, 2 * k) == Times(s, x, Product(s, b, b), k)
    decreases k
  {
    if k > 0 {
      var x' := Product(s, Product(s, x, b), b);
      calc {
        Times(s, x, b, 2 * k);
        Times(s, Product(s, x, b), b, 2 * k - 1);
        Times(s, x', b, 2 * (k - 1));
        { TimesEven(s, x', b, k - 1); }
        Times(s, x', Product(s, b, b), k - 1);
        { ProductAssociative(s, x, b, b); }
        Times(s, Product(s, x, Product(s, b, b)), Product(s, b, b), k - 1);
        Times(s, x, Product(s, b, b), k);
      }
    }
  }

  /** An odd number of factors: one goes into the accumulator, the rest are squared. */
  lemma TimesOdd<V(!new)>(s: Structure<V>, x: Matrix<V>, b: Matrix<V>, k: nat)
    requires x.Valid() && b.Valid() && b.IsSquare() && x.m == b.n
    requires Associative(s.mul)
    ensures Times(s, x, b, 2 * k + 1) == Times(s, Product(s, x, b), Product(s, b, b), k)
  {
    TimesEven(s, Product(s, x, b), b, k);
  }
}
