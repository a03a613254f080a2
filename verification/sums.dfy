// Finite sums, and bilinear and linear forms over matrices and vectors given as functions of
// their indices.

module Sums {

  type Vec = int -> real
  type Mat = (int, int) -> real

  ghost predicate Agree(n: nat, f: Vec, g: Vec) {
    forall i :: 0 <= i < n ==> f(i) == g(i)
  }

  ghost predicate IsSymmetricMat(n: nat, a: Mat) {
    forall i, j :: 0 <= i < n && 0 <= j < n ==> a(i, j) == a(j, i)
  }

  ghost function Sum(n: nat, f: Vec): real {
    if n == 0 then 0.0 else Sum(n - 1, f) + f(n - 1)
  }

  lemma {:induction false} SumEqual(n: nat, f: Vec, g: Vec)
    requires forall i :: 0 <= i < n ==> f(i) == g(i)
    ensures Sum(n, f) == Sum(n, g)
  {
    if n > 0 { SumEqual(n - 1, f, g); }
  }

  lemma {:induction false} SumLinear(n: nat, f: Vec, g: Vec, h: Vec, a: real, b: real)
    requires forall i :: 0 <= i < n ==> h(i) == a * f(i) + b * g(i)
    ensures Sum(n, h) == a * Sum(n, f) + b * Sum(n, g)
  {
    if n > 0 {
      SumLinear(n - 1, f, g, h, a, b);
      assert a * Sum(n, f) == a * Sum(n - 1, f) + a * f(n - 1);
      assert b * Sum(n, g) == b * Sum(n - 1, g) + b * g(n - 1);
    }
  }

  // Only the terms of [at, at + m) count when the others are 0.
  lemma {:induction false} SumWindow(n: nat, at: nat, m: nat, f: Vec, g: Vec)
    requires at + m <= n
    requires forall i :: 0 <= i < n && !(at <= i < at + m) ==> f(i) == 0.0
    requires forall i :: 0 <= i < m ==> g(i) == f(at + i)
    ensures Sum(n, f) == Sum(m, g)
    decreases n
  {
    if n == 0 {
    } else if at + m < n {
      SumWindow(n - 1, at, m, f, g);
    } else if m > 0 {
      assert g(m - 1) == f(at + (m - 1));
      SumWindow(n - 1, at, m - 1, f, g);
    } else {
      SumWindow(n - 1, at - 1, m, f, g);
    }
  }

  ghost function Row(f: Mat, i: int): Vec {
    j => f(i, j)
  }

  ghost function RowSums(m: nat, f: Mat): Vec {
    i => Sum(m, Row(f, i))
  }

  ghost function Flip(f: Mat): Mat {
    (i, j) => f(j, i)
  }

  lemma {:induction false} SumSwap(n: nat, m: nat, f: Mat)
    ensures Sum(n, RowSums(m, f)) == Sum(m, RowSums(n, Flip(f)))
  {
    if n == 0 {
      ZeroSum(m, RowSums(0, Flip(f)));
    } else {
      SumSwap(n - 1, m, f);
      forall j | 0 <= j < m
        ensures RowSums(n, Flip(f))(j) == 1.0 * RowSums(n - 1, Flip(f))(j) + 1.0 * Row(f, n - 1)(j)
      {
        assert Row(Flip(f), j)(n - 1) == f(n - 1, j);
      }
      SumLinear(m, RowSums(n - 1, Flip(f)), Row(f, n - 1), RowSums(n, Flip(f)), 1.0, 1.0);
    }
  }

  lemma {:induction false} ZeroSum(n: nat, f: Vec)
    requires forall i :: 0 <= i < n ==> f(i) == 0.0
    ensures Sum(n, f) == 0.0
  {
    if n > 0 { ZeroSum(n - 1, f); }
  }

  lemma {:induction false} SumNonNegative(n: nat, f: Vec)
    requires forall i :: 0 <= i < n ==> f(i) >= 0.0
    ensures Sum(n, f) >= 0.0
    ensures forall i :: 0 <= i < n ==> Sum(n, f) >= f(i)
  {
    if n > 0 { SumNonNegative(n - 1, f); }
  }

  // ---- forms ----

  ghost function Term(a: Mat, u: Vec, v: Vec): Mat {
    (i, j) => a(i, j) * u(i) * v(j)
  }

  // u' A v over the first n indices.
  ghost function Form(n: nat, a: Mat, u: Vec, v: Vec): real {
    Sum(n, RowSums(n, Term(a, u, v)))
  }

  ghost function Products(b: Vec, x: Vec): Vec {
    i => b(i) * x(i)
  }

  ghost function Linear(n: nat, b: Vec, x: Vec): real {
    Sum(n, Products(b, x))
  }

  // A v.
  ghost function Apply(n: nat, a: Mat, v: Vec): Vec {
    i => Sum(n, Products(Row(a, i), v))
  }

  // The square matrix m put with its corner at (row, col), and 0 elsewhere.
  ghost function Placed(row: int, col: int, m: nat, a: Mat): Mat {
    (i, j) => if row <= i < row + m && col <= j < col + m then a(i - row, j - col) else 0.0
  }

  ghost function PlacedVec(row: int, m: nat, b: Vec): Vec {
    i => if row <= i < row + m then b(i - row) else 0.0
  }

  ghost function Shift(x: Vec, at: int): Vec {
    i => x(at + i)
  }

  // A form is linear in its terms.
  lemma FormOfTerms(n: nat, f: Mat, g: Mat, h: Mat, a: real, b: real)
    requires forall i, j :: 0 <= i < n && 0 <= j < n ==> h(i, j) == a * f(i, j) + b * g(i, j)
    ensures Sum(n, RowSums(n, h)) == a * Sum(n, RowSums(n, f)) + b * Sum(n, RowSums(n, g))
  {
    forall i | 0 <= i < n
      ensures RowSums(n, h)(i) == a * RowSums(n, f)(i) + b * RowSums(n, g)(i)
    {
      SumLinear(n, Row(f, i), Row(g, i), Row(h, i), a, b);
    }
    SumLinear(n, RowSums(n, f), RowSums(n, g), RowSums(n, h), a, b);
  }

  lemma FormLinear(n: nat, f: Mat, g: Mat, h: Mat, a: real, b: real, u: Vec, v: Vec)
    requires forall i, j :: 0 <= i < n && 0 <= j < n ==> h(i, j) == a * f(i, j) + b * g(i, j)
    ensures Form(n, h, u, v) == a * Form(n, f, u, v) + b * Form(n, g, u, v)
  {
    forall i, j | 0 <= i < n && 0 <= j < n
      ensures Term(h, u, v)(i, j) == a * Term(f, u, v)(i, j) + b * Term(g, u, v)(i, j)
    {
      Distribute(a, f(i, j), b, g(i, j), u(i) * v(j));
      assert h(i, j) * u(i) * v(j) == h(i, j) * (u(i) * v(j));
    }
    FormOfTerms(n, Term(f, u, v), Term(g, u, v), Term(h, u, v), a, b);
  }

  lemma Distribute(a: real, f: real, b: real, g: real, w: real)
    ensures (a * f + b * g) * w == a * (f * w) + b * (g * w)
  {
  }

  lemma FormLeft(n: nat, m: Mat, u: Vec, v: Vec, w: Vec, a: real, b: real, x: Vec)
    requires forall i :: 0 <= i < n ==> w(i) == a * u(i) + b * v(i)
    ensures Form(n, m, w, x) == a * Form(n, m, u, x) + b * Form(n, m, v, x)
  {
    forall i, j | 0 <= i < n && 0 <= j < n
      ensures Term(m, w, x)(i, j) == a * Term(m, u, x)(i, j) + b * Term(m, v, x)(i, j)
    {
      Distribute(a, u(i), b, v(i), m(i, j) * x(j));
    }
    FormOfTerms(n, Term(m, u, x), Term(m, v, x), Term(m, w, x), a, b);
  }

  // Swapping the two vectors of a symmetric form.
  lemma FormSymmetric(n: nat, m: Mat, u: Vec, v: Vec)
    requires forall i, j :: 0 <= i < n && 0 <= j < n ==> m(i, j) == m(j, i)
    ensures Form(n, m, u, v) == Form(n, m, v, u)
  {
    SumSwap(n, n, Term(m, u, v));
    FormOfTerms(n, Flip(Term(m, u, v)), Flip(Term(m, u, v)), Term(m, v, u), 1.0, 0.0);
  }

  lemma FormRight(n: nat, m: Mat, u: Vec, v: Vec, w: Vec, a: real, b: real, x: Vec)
    requires forall i, j :: 0 <= i < n && 0 <= j < n ==> m(i, j) == m(j, i)
    requires forall i :: 0 <= i < n ==> w(i) == a * u(i) + b * v(i)
    ensures Form(n, m, x, w) == a * Form(n, m, x, u) + b * Form(n, m, x, v)
  {
    FormLeft(n, m, u, v, w, a, b, x);
    FormSymmetric(n, m, x, w);
    FormSymmetric(n, m, x, u);
    FormSymmetric(n, m, x, v);
  }

  // The form of a placed block is the block's own form, on the parts of the vectors it meets.
  lemma FormPlaced(n: nat, row: nat, col: nat, m: nat, a: Mat, u: Vec, v: Vec)
    requires row + m <= n && col + m <= n
    ensures Form(n, Placed(row, col, m, a), u, v) == Form(m, a, Shift(u, row), Shift(v, col))
  {
    var big, small := Term(Placed(row, col, m, a), u, v), Term(a, Shift(u, row), Shift(v, col));
    forall i | 0 <= i < n && !(row <= i < row + m)
      ensures RowSums(n, big)(i) == 0.0
    {
      ZeroSum(n, Row(big, i));
    }
    forall i | 0 <= i < m
      ensures RowSums(m, small)(i) == RowSums(n, big)(row + i)
    {
      SumWindow(n, col, m, Row(big, row + i), Row(small, i));
    }
    SumWindow(n, row, m, RowSums(n, big), RowSums(m, small));
  }

  lemma LinearPlaced(n: nat, row: nat, m: nat, b: Vec, x: Vec)
    requires row + m <= n
    ensures Linear(n, PlacedVec(row, m, b), x) == Linear(m, b, Shift(x, row))
  {
    SumWindow(n, row, m, Products(PlacedVec(row, m, b), x), Products(b, Shift(x, row)));
  }

  lemma LinearLinear(n: nat, f: Vec, g: Vec, h: Vec, a: real, b: real, x: Vec)
    requires forall i :: 0 <= i < n ==> h(i) == a * f(i) + b * g(i)
    ensures Linear(n, h, x) == a * Linear(n, f, x) + b * Linear(n, g, x)
  {
    forall i | 0 <= i < n
      ensures Products(h, x)(i) == a * Products(f, x)(i) + b * Products(g, x)(i)
    {
      Distribute(a, f(i), b, g(i), x(i));
    }
    SumLinear(n, Products(f, x), Products(g, x), Products(h, x), a, b);
  }

  // (A v) . x = x' A v
  lemma LinearOfApply(n: nat, a: Mat, v: Vec, x: Vec)
    ensures Linear(n, Apply(n, a, v), x) == Form(n, a, x, v)
  {
    forall i | 0 <= i < n
      ensures Products(Apply(n, a, v), x)(i) == RowSums(n, Term(a, x, v))(i)
    {
      forall j | 0 <= j < n
        ensures Row(Term(a, x, v), i)(j) == x(i) * Products(Row(a, i), v)(j) + 0.0 * Products(Row(a, i), v)(j)
      {
      }
      SumLinear(n, Products(Row(a, i), v), Products(Row(a, i), v), Row(Term(a, x, v), i), x(i), 0.0);
    }
    SumEqual(n, Products(Apply(n, a, v), x), RowSums(n, Term(a, x, v)));
  }
}
