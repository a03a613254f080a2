// What solving the smoother's equations gives
// (scripts/localization/restricted_fov/tools/sliding_window_localizer.py), and the window of
// frames they are about.

module SmootherSolution {
  import opened Sums
  import opened Smoother
  import opened Planar

  // ---- shape ----

  // The matrix is symmetric, and 0 where the poses of a row and a column are not neighbours.
  lemma {:induction false} SymmetricTridiagonal(win: Window, k: nat, i: int, j: int)
    requires win.Valid() && k < |win.h| && i >= 0 && j >= 0
    ensures MatUpTo(win, k)(i, j) == MatUpTo(win, k)(j, i)
    ensures i / B > j / B + 1 || j / B > i / B + 1 ==> MatUpTo(win, k)(i, j) == 0.0
  {
    if k > 0 {
      SymmetricTridiagonal(win, k - 1, i, j);
      StepShape(win, k, i, j);
    }
  }

  lemma StepShape(win: Window, k: nat, i: int, j: int)
    requires win.Valid() && 1 <= k < |win.h| && i >= 0 && j >= 0
    ensures MatStep(win, k)(i, j) == MatStep(win, k)(j, i)
    ensures i / B > j / B + 1 || j / B > i / B + 1 ==> MatStep(win, k)(i, j) == 0.0
  {
    hide MatStep, Placed;
    var s, p := At(k), At(k - 1);
    PlacedFlip(s, s, win.h[k], i, j);
    PlacedFlip(s, s, win.motion, i, j);
    PlacedFlip(p, p, win.motion, i, j);
    PlacedFlip(p, s, win.motion, i, j);
    PlacedFlip(s, p, win.motion, i, j);
    if i / B > j / B + 1 || j / B > i / B + 1 {
      PlacedFar(k, k, win.h[k], i, j);
      PlacedFar(k, k, win.motion, i, j);
      PlacedFar(k - 1, k - 1, win.motion, i, j);
      PlacedFar(k - 1, k, win.motion, i, j);
      PlacedFar(k, k - 1, win.motion, i, j);
    }
    StepAt(win, k, i, j);
    StepAt(win, k, j, i);
  }

  lemma StepAt(win: Window, k: nat, i: int, j: int)
    requires win.Valid() && 1 <= k < |win.h|
    ensures var s, p, h, w := At(k), At(k - 1), MatOf(win.h[k]), MatOf(win.motion);
            MatStep(win, k)(i, j) ==
            Placed(s, s, B, h)(i, j) + Placed(s, s, B, w)(i, j)
            + (if k > 1 then Placed(p, p, B, w)(i, j) - Placed(p, s, B, w)(i, j) - Placed(s, p, B, w)(i, j) else 0.0)
  {
    hide Placed, At, MatOf;
    assert win.H(k) == MatOf(win.h[k]) && win.W() == MatOf(win.motion);
  }

  // A block of neighbouring poses has nothing where poses are not neighbours.
  lemma PlacedFar(k: nat, l: nat, m: Block, i: int, j: int)
    requires IsBlock(m) && i >= 0 && j >= 0 && k <= l + 1 && l <= k + 1
    requires i / B > j / B + 1 || j / B > i / B + 1
    ensures Placed(At(k), At(l), B, MatOf(m))(i, j) == 0.0
  {
  }

  lemma PlacedFlip(row: int, col: int, m: Block, i: int, j: int)
    requires IsBlock(m) && IsSymmetric(m)
    ensures Placed(row, col, B, MatOf(m))(i, j) == Placed(col, row, B, MatOf(m))(j, i)
  {
  }

  // The matcher's information, made symmetric and scaled, has the form of the matcher's.
  lemma SymmetrisedForm(m: Mat, n: nat, scale: real, s: Mat, u: Vec)
    requires forall i, j :: 0 <= i < n && 0 <= j < n ==> s(i, j) == scale * (m(i, j) + m(j, i)) * 0.5
    ensures Form(n, s, u, u) == scale * Form(n, m, u, u)
    ensures forall i, j :: 0 <= i < n && 0 <= j < n ==> s(i, j) == s(j, i)
  {
    FormLinear(n, m, Flip(m), s, 0.5 * scale, 0.5 * scale, u, u);
    FlippedForm(n, m, u);
    hide Form;
    var f := Form(n, m, u, u);
    assert 0.5 * scale * f + 0.5 * scale * f == scale * f;
  }

  lemma FlippedForm(n: nat, m: Mat, u: Vec)
    ensures Form(n, Flip(m), u, u) == Form(n, m, u, u)
  {
    SumSwap(n, n, Term(m, u, u));
    FormOfTerms(n, Flip(Term(m, u, u)), Flip(Term(m, u, u)), Term(Flip(m), u, u), 1.0, 0.0);
  }

  // ---- definiteness ----

  ghost predicate IsPsd(n: nat, a: Mat) {
    forall u: Vec :: Form(n, a, u, u) >= 0.0
  }

  ghost predicate AllPsd(win: Window)
    requires win.Valid()
  {
    IsPsd(B, win.W()) && forall k: nat :: 1 <= k < |win.h| ==> IsPsd(B, win.H(k))
  }

  ghost function Diagonal(a: Mat, u: Vec): Vec {
    i => a(i, i) * u(i) * u(i)
  }

  // The motion information is a diagonal of inverse variances.
  lemma DiagonalIsPsd(n: nat, a: Mat)
    requires forall i, j :: 0 <= i < n && 0 <= j < n && i != j ==> a(i, j) == 0.0
    requires forall i :: 0 <= i < n ==> a(i, i) >= 0.0
    ensures IsPsd(n, a)
  {
    forall u: Vec
      ensures Form(n, a, u, u) >= 0.0
    {
      DiagonalForm(n, a, u);
      forall i | 0 <= i < n
        ensures Diagonal(a, u)(i) >= 0.0
      {
        SquareTimes(a(i, i), u(i));
      }
      SumNonNegative(n, Diagonal(a, u));
    }
  }

  lemma SquareTimes(c: real, v: real)
    requires c >= 0.0
    ensures c * v * v >= 0.0
    ensures c > 0.0 && v != 0.0 ==> c * v * v > 0.0
  {
    SquareSign(v);
    assert c * v * v == c * (v * v);
    ProductSign(c, v * v);
    if c > 0.0 && v != 0.0 { ProductPositive(c, v * v); }
  }

  lemma DiagonalForm(n: nat, a: Mat, u: Vec)
    requires forall i, j :: 0 <= i < n && 0 <= j < n && i != j ==> a(i, j) == 0.0
    ensures Form(n, a, u, u) == Sum(n, Diagonal(a, u))
  {
    forall i | 0 <= i < n
      ensures RowSums(n, Term(a, u, u))(i) == Diagonal(a, u)(i)
    {
      var row := Row(Term(a, u, u), i);
      forall j | 0 <= j < n && j != i
        ensures row(j) == 0.0
      {
        assert Term(a, u, u)(i, j) == 0.0 * u(i) * u(j);
      }
      SumWindow(n, i, 1, row, Shift(row, i));
      assert Sum(1, Shift(row, i)) == Sum(0, Shift(row, i)) + row(i);
    }
    SumEqual(n, RowSums(n, Term(a, u, u)), Diagonal(a, u));
  }

  // The matrix before damping is positive semidefinite.
  lemma {:induction false} AssembledIsPsd(win: Window, k: nat, dim: nat, x: Vec)
    requires win.Valid() && k < |win.h| && B * k <= dim && AllPsd(win)
    ensures Form(dim, MatUpTo(win, k), x, x) >= 0.0
  {
    hide Form, MatUpTo, MatStep, AllPsd, Part;
    if k == 0 {
      NothingAssembled(win, dim, x);
    } else {
      var X, Y := Part(x, k), Part(x, k - 1);
      var z: Vec := i => X(i) - Y(i);
      AssembledIsPsd(win, k - 1, dim, x);
      AddedUp(win, k, dim, x);
      MatStepForm(win, k, dim, x);
      SquareOfSum(B, win.W(), X, Y, z, -1.0);
      FormSymmetric(B, win.W(), X, Y);
      PsdOf(win, k, X, z);
      var f := Form(B, win.W(), Y, X);
      assert Form(dim, MatStep(win, k), x, x) ==
             Form(B, win.H(k), X, X) + Form(B, win.W(), X, X) + Form(B, win.W(), Y, Y) - 2.0 * f;
      assert Form(B, win.W(), z, z) == Form(B, win.W(), X, X) - 2.0 * f + Form(B, win.W(), Y, Y);
    }
  }

  lemma NothingAssembled(win: Window, dim: nat, x: Vec)
    requires win.Valid()
    ensures Form(dim, MatUpTo(win, 0), x, x) == 0.0
  {
    FormLinear(dim, Zero(), Zero(), MatUpTo(win, 0), 0.0, 0.0, x, x);
  }

  lemma PsdOf(win: Window, k: nat, u: Vec, v: Vec)
    requires win.Valid() && 1 <= k < |win.h| && AllPsd(win)
    ensures Form(B, win.H(k), u, u) >= 0.0 && Form(B, win.W(), v, v) >= 0.0
  {
    hide Form;
    assert IsPsd(B, win.H(k)) && IsPsd(B, win.W());
  }

  ghost function Eye(): Mat {
    (i, j) => if i == j then 1.0 else 0.0
  }

  // A + 1e-6 I
  ghost function Damped(a: Mat): Mat {
    (i, j) => a(i, j) + DAMPING * Eye()(i, j)
  }

  ghost function Square(dim: nat, x: Vec): real {
    Sum(dim, Products(x, x))
  }

  lemma DampedForm(dim: nat, a: Mat, x: Vec)
    ensures Form(dim, Damped(a), x, x) == Form(dim, a, x, x) + DAMPING * Square(dim, x)
  {
    FormLinear(dim, a, Eye(), Damped(a), 1.0, DAMPING, x, x);
    DiagonalForm(dim, Eye(), x);
    SumEqual(dim, Diagonal(Eye(), x), Products(x, x));
  }

  lemma SquarePositive(dim: nat, x: Vec)
    ensures Square(dim, x) >= 0.0
    ensures !Agree(dim, x, Nought()) ==> Square(dim, x) > 0.0
  {
    forall i | 0 <= i < dim
      ensures Products(x, x)(i) >= 0.0
    {
      SquareTimes(1.0, x(i));
    }
    SumNonNegative(dim, Products(x, x));
    if !Agree(dim, x, Nought()) {
      var i :| 0 <= i < dim && x(i) != Nought()(i);
      PositiveSquare(Products(x, x)(i), x(i));
    }
  }

  lemma PositiveSquare(t: real, v: real)
    requires t == v * v && v != 0.0
    ensures t > 0.0
  {
    SquareSign(v);
  }

  // The damped matrix is positive definite, whatever the residuals and however little the
  // scans constrain.
  lemma DampedIsPositiveDefinite(win: Window, dim: nat, x: Vec)
    requires win.Valid() && AllPsd(win) && dim == B * (|win.h| - 1)
    ensures Form(dim, Damped(MatUpTo(win, |win.h| - 1)), x, x) >= 0.0
    ensures !Agree(dim, x, Nought()) ==> Form(dim, Damped(MatUpTo(win, |win.h| - 1)), x, x) > 0.0
  {
    hide Form, Square, MatUpTo, AllPsd, Damped;
    AssembledIsPsd(win, |win.h| - 1, dim, x);
    DampedForm(dim, MatUpTo(win, |win.h| - 1), x);
    SquarePositive(dim, x);
    ProductSign(DAMPING, Square(dim, x));
    if !Agree(dim, x, Nought()) { ProductPositive(DAMPING, Square(dim, x)); }
  }

  // ---- the solution ----

  // x solves (A + 1e-6 I) x = b.
  ghost predicate Solves(win: Window, dim: nat, x: Vec)
    requires win.Valid()
  {
    Agree(dim, Apply(dim, Damped(MatUpTo(win, |win.h| - 1)), x), VecUpTo(win, |win.h| - 1))
  }

  // The sum of squares with a small pull towards no increment.
  ghost function DampedCost(win: Window, dim: nat, x: Vec): real
    requires win.Valid()
  {
    Cost(win, |win.h| - 1, x) + DAMPING * Square(dim, x)
  }

  lemma DampedCostIs(win: Window, dim: nat, x: Vec)
    requires win.Valid() && dim == B * (|win.h| - 1)
    ensures var k := |win.h| - 1;
            DampedCost(win, dim, x)
            == Form(dim, Damped(MatUpTo(win, k)), x, x) - 2.0 * Linear(dim, VecUpTo(win, k), x) + Rest(win, k)
  {
    hide Form, Square, Linear, MatUpTo, VecUpTo, Cost, Rest;
    NormalEquations(win, |win.h| - 1, dim, x);
    DampedForm(dim, MatUpTo(win, |win.h| - 1), x);
  }

  // The damped form of x + z, and the part of b that z meets.
  lemma IncrementOfSolution(win: Window, dim: nat, x: Vec, y: Vec, z: Vec)
    requires win.Valid() && dim == B * (|win.h| - 1) && Solves(win, dim, x)
    requires forall i :: z(i) == y(i) - x(i)
    ensures var a, b := Damped(MatUpTo(win, |win.h| - 1)), VecUpTo(win, |win.h| - 1);
            && Form(dim, a, y, y) == Form(dim, a, x, x) + 2.0 * Form(dim, a, z, x) + Form(dim, a, z, z)
            && Linear(dim, b, z) == Form(dim, a, z, x)
  {
    hide Form, Linear, MatUpTo, VecUpTo, Apply;
    var a, b := Damped(MatUpTo(win, |win.h| - 1)), VecUpTo(win, |win.h| - 1);
    DampedSymmetric(win, dim);
    SquareOfSum(dim, a, x, z, y, 1.0);
    LinearOfApply(dim, a, x, z);
    LinearLinear(dim, b, b, Apply(dim, a, x), 1.0, 0.0, z);
    hide Damped;
  }

  lemma CostAwayFromSolution(win: Window, dim: nat, x: Vec, y: Vec, z: Vec)
    requires win.Valid() && dim == B * (|win.h| - 1) && Solves(win, dim, x)
    requires forall i :: z(i) == y(i) - x(i)
    ensures DampedCost(win, dim, y) == DampedCost(win, dim, x) + Form(dim, Damped(MatUpTo(win, |win.h| - 1)), z, z)
  {
    hide Form, Linear, MatUpTo, VecUpTo, Rest, DampedCost, Damped, Solves;
    DampedCostIs(win, dim, x);
    DampedCostIs(win, dim, y);
    IncrementOfSolution(win, dim, x, y, z);
    LinearByIncrement(dim, VecUpTo(win, |win.h| - 1), x, y, z);
  }

  lemma LinearByIncrement(dim: nat, b: Vec, x: Vec, y: Vec, z: Vec)
    requires forall i :: z(i) == y(i) - x(i)
    ensures Linear(dim, b, y) == Linear(dim, b, x) + Linear(dim, b, z)
  {
    forall i | 0 <= i < dim
      ensures Products(b, y)(i) == 1.0 * Products(b, x)(i) + 1.0 * Products(b, z)(i)
    {
      assert b(i) * (x(i) + z(i)) == b(i) * x(i) + b(i) * z(i);
      assert y(i) == x(i) + z(i);
    }
    SumLinear(dim, Products(b, x), Products(b, z), Products(b, y), 1.0, 1.0);
  }

  lemma DampedSymmetric(win: Window, dim: nat)
    requires win.Valid()
    ensures IsSymmetricMat(dim, Damped(MatUpTo(win, |win.h| - 1)))
  {
    hide MatUpTo;
    var d := Damped(MatUpTo(win, |win.h| - 1));
    forall i, j | 0 <= i < dim && 0 <= j < dim
      ensures d(i, j) == d(j, i)
    {
      SymmetricTridiagonal(win, |win.h| - 1, i, j);
    }
  }

  // ---- there is one ----

  ghost predicate IsPd(n: nat, a: Mat) {
    forall u: Vec :: !Agree(n, u, Nought()) ==> Form(n, a, u, u) > 0.0
  }

  // u up to n, v there.
  ghost function Put(u: Vec, n: nat, v: real): Vec {
    i => if i == n then v else u(i)
  }

  // One more row and column.
  lemma ApplyMore(n: nat, a: Mat, u: Vec, v: real, i: int)
    ensures Apply(n + 1, a, Put(u, n, v))(i) == Apply(n, a, u)(i) + a(i, n) * v
  {
    SumEqual(n, Products(Row(a, i), Put(u, n, v)), Products(Row(a, i), u));
  }

  lemma LinearMore(n: nat, b: Vec, u: Vec, v: real)
    ensures Linear(n + 1, b, Put(u, n, v)) == Linear(n, b, u) + b(n) * v
  {
    SumEqual(n, Products(b, Put(u, n, v)), Products(b, u));
  }

  lemma FormMore(n: nat, a: Mat, u: Vec, v: real)
    ensures var w := Put(u, n, v); Form(n + 1, a, w, w) == Linear(n, Apply(n + 1, a, w), u) + Apply(n + 1, a, w)(n) * v
  {
    hide Form, Linear, Apply;
    var w := Put(u, n, v);
    LinearOfApply(n + 1, a, w, w);
    LinearMore(n, Apply(n + 1, a, w), u, v);
  }

  // The first rows and columns of a positive definite matrix are one.
  lemma FirstIsPd(n: nat, a: Mat)
    requires IsPd(n + 1, a)
    ensures IsPd(n, a)
  {
    forall u: Vec | !Agree(n, u, Nought())
      ensures Form(n, a, u, u) > 0.0
    {
      var w := Put(u, n, 0.0);
      var i :| 0 <= i < n && u(i) != Nought()(i);
      assert w(i) != Nought()(i);
      assert Form(n + 1, a, w, w) > 0.0;
      hide Form, Linear, Apply, IsPd;
      FormMore(n, a, u, 0.0);
      forall j | 0 <= j < n
        ensures Apply(n + 1, a, w)(j) == Apply(n, a, u)(j)
      {
        ApplyMore(n, a, u, 0.0, j);
      }
      LinearLinear(n, Apply(n, a, u), Apply(n, a, u), Apply(n + 1, a, w), 1.0, 0.0, u);
      LinearOfApply(n, a, u, u);
    }
  }

  // A positive definite system has a solution.  The first rows have one for every value of the last
  // unknown, y + t z, and the last row then decides t.
  lemma {:induction false} Solvable(n: nat, a: Mat, b: Vec) returns (x: Vec)
    requires IsPd(n, a)
    ensures Agree(n, Apply(n, a, x), b)
  {
    if n == 0 {
      x := b;
    } else {
      var m: nat := n - 1;
      FirstIsPd(m, a);
      var y := Solvable(m, a, b);
      var c: Vec := i => -a(i, m);
      var z := Solvable(m, a, c);
      var s := Apply(n, a, Put(z, m, 1.0))(m);
      PivotPositive(m, a, z);
      x := LastUnknown(m, a, b, y, z, s);
    }
  }

  lemma PivotPositive(m: nat, a: Mat, z: Vec)
    requires IsPd(m + 1, a) && forall i :: 0 <= i < m ==> Apply(m, a, z)(i) == -a(i, m)
    ensures Apply(m + 1, a, Put(z, m, 1.0))(m) > 0.0
  {
    var w := Put(z, m, 1.0);
    assert w(m) != Nought()(m);
    assert Form(m + 1, a, w, w) > 0.0;
    hide Form, Linear, Apply, IsPd;
    FormMore(m, a, z, 1.0);
    var rows := Apply(m + 1, a, w);
    forall i | 0 <= i < m
      ensures rows(i) == 0.0
    {
      ApplyMore(m, a, z, 1.0, i);
    }
    LinearLinear(m, z, z, rows, 0.0, 0.0, z);
  }

  lemma LastUnknown(m: nat, a: Mat, b: Vec, y: Vec, z: Vec, s: real) returns (x: Vec)
    requires forall i :: 0 <= i < m ==> Apply(m, a, y)(i) == b(i) && Apply(m, a, z)(i) == -a(i, m)
    requires s == Apply(m + 1, a, Put(z, m, 1.0))(m) && s > 0.0
    ensures Agree(m + 1, Apply(m + 1, a, x), b)
  {
    hide Apply;
    var t := (b(m) - Apply(m, a, y)(m)) / s;
    assert t * s == b(m) - Apply(m, a, y)(m);
    var u: Vec := i => y(i) + t * z(i);
    x := Put(u, m, t);
    forall i | 0 <= i <= m
      ensures Apply(m + 1, a, x)(i) == b(i)
    {
      ApplyMore(m, a, u, t, i);
      ApplyMore(m, a, z, 1.0, i);
      ApplyLine(m, a, y, z, u, t, i);
      var f, g := Apply(m, a, z)(i), a(i, m);
      assert t * f + g * t == t * (f + g * 1.0);
    }
  }

  lemma ApplyLine(m: nat, a: Mat, y: Vec, z: Vec, u: Vec, t: real, i: int)
    requires forall j :: u(j) == y(j) + t * z(j)
    ensures Apply(m, a, u)(i) == Apply(m, a, y)(i) + t * Apply(m, a, z)(i)
  {
    var f, g, h := Products(Row(a, i), y), Products(Row(a, i), z), Products(Row(a, i), u);
    forall j | 0 <= j < m
      ensures h(j) == 1.0 * f(j) + t * g(j)
    {
      Distribute(1.0, y(j), t, z(j), a(i, j));
    }
    SumLinear(m, f, g, h, 1.0, t);
  }

  // So the equations always have a solution, and the solver never stops on a singular matrix.
  lemma SolutionExists(win: Window, dim: nat) returns (x: Vec)
    requires win.Valid() && AllPsd(win) && dim == B * (|win.h| - 1)
    ensures Solves(win, dim, x)
  {
    hide Form, MatUpTo, VecUpTo, AllPsd, Damped, Apply;
    var a := Damped(MatUpTo(win, |win.h| - 1));
    forall u: Vec | !Agree(dim, u, Nought())
      ensures Form(dim, a, u, u) > 0.0
    {
      DampedIsPositiveDefinite(win, dim, u);
    }
    x := Solvable(dim, a, VecUpTo(win, |win.h| - 1));
  }

  // What the solver is asked for is the one increment of least damped cost.
  lemma SolutionIsUniqueMinimiser(win: Window, dim: nat, x: Vec, y: Vec)
    requires win.Valid() && AllPsd(win) && dim == B * (|win.h| - 1) && Solves(win, dim, x)
    ensures DampedCost(win, dim, x) <= DampedCost(win, dim, y)
    ensures DampedCost(win, dim, x) == DampedCost(win, dim, y) <==> Agree(dim, x, y)
  {
    hide Form, Square, MatUpTo, Cost, Solves, AllPsd, DampedCost;
    var z: Vec := i => y(i) - x(i);
    CostAwayFromSolution(win, dim, x, y, z);
    DampedIsPositiveDefinite(win, dim, z);
    if Agree(dim, x, y) {
      SameCost(win, dim, z);
    } else {
      var i :| 0 <= i < dim && x(i) != y(i);
      assert z(i) != Nought()(i);
    }
  }

  lemma SameCost(win: Window, dim: nat, z: Vec)
    requires win.Valid() && forall i :: 0 <= i < dim ==> z(i) == 0.0
    ensures Form(dim, Damped(MatUpTo(win, |win.h| - 1)), z, z) == 0.0
  {
    FormLeft(dim, Damped(MatUpTo(win, |win.h| - 1)), z, z, z, 0.0, 0.0, z);
  }
}
