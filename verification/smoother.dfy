// The fixed-lag smoother's normal equations
// (scripts/localization/restricted_fov/tools/sliding_window_localizer.py): the matrix and vector
// its loops scatter blocks into are those of a sum of squared scan and motion factors.

module Smoother {
  import opened Sums

  const B: nat := 6
  const DAMPING: real := 0.000001

  type Block = seq<seq<real>>

  predicate IsBlock(m: Block) {
    |m| == B && forall i :: 0 <= i < B ==> |m[i]| == B
  }

  ghost predicate IsSymmetric(m: Block)
    requires IsBlock(m)
  {
    forall i, j :: 0 <= i < B && 0 <= j < B ==> m[i][j] == m[j][i]
  }

  ghost function MatOf(m: Block): Mat
    requires IsBlock(m)
  {
    (i, j) => if 0 <= i < B && 0 <= j < B then m[i][j] else 0.0
  }

  ghost function VecOf(v: seq<real>): Vec {
    i => if 0 <= i < |v| then v[i] else 0.0
  }

  // The factors of a window of n poses, pose 0 held fixed: for each pose but that one, the
  // matcher's information and residual and the residual of the motion into it; and the
  // information of motion.  Entry 0 of each list is not used.
  datatype Window = Window(h: seq<Block>, motion: Block, r: seq<seq<real>>, rm: seq<seq<real>>) {
    ghost predicate Valid() {
      && |h| == |r| == |rm| >= 1
      && IsBlock(motion) && IsSymmetric(motion)
      && (forall k :: 0 <= k < |h| ==> IsBlock(h[k]) && IsSymmetric(h[k]) && |r[k]| == B && |rm[k]| == B)
    }

    ghost function H(k: nat): Mat
      requires Valid() && k < |h|
    {
      MatOf(h[k])
    }

    ghost function W(): Mat
      requires Valid()
    {
      MatOf(motion)
    }
  }

  // ---- what is assembled ----

  ghost function Zero(): Mat {
    (i, j) => 0.0
  }

  // Where pose k's block starts.
  function At(k: nat): int {
    B * (k - 1)
  }

  // What the factors into pose k add to the matrix.
  ghost function MatStep(win: Window, k: nat): Mat
    requires win.Valid() && 1 <= k < |win.h|
  {
    var s, p := At(k), At(k - 1);
    (i, j) => Placed(s, s, B, win.H(k))(i, j) + Placed(s, s, B, win.W())(i, j)
              + (if k > 1 then Placed(p, p, B, win.W())(i, j) - Placed(p, s, B, win.W())(i, j)
                               - Placed(s, p, B, win.W())(i, j)
                 else 0.0)
  }

  ghost function VecStep(win: Window, k: nat): Vec
    requires win.Valid() && 1 <= k < |win.h|
  {
    var s, p := At(k), At(k - 1);
    var hr, wr := Apply(B, win.H(k), VecOf(win.r[k])), Apply(B, win.W(), VecOf(win.rm[k]));
    i => (if k > 1 then PlacedVec(p, B, wr)(i) else 0.0) - PlacedVec(s, B, hr)(i) - PlacedVec(s, B, wr)(i)
  }

  // The matrix and the vector after the factors into poses 1 .. k.
  ghost function MatUpTo(win: Window, k: nat): Mat
    requires win.Valid() && k < |win.h|
  {
    if k == 0 then Zero() else
      (i, j) => MatUpTo(win, k - 1)(i, j) + MatStep(win, k)(i, j)
  }

  ghost function VecUpTo(win: Window, k: nat): Vec
    requires win.Valid() && k < |win.h|
  {
    if k == 0 then i => 0.0 else
      i => VecUpTo(win, k - 1)(i) + VecStep(win, k)(i)
  }

  // ---- the loops ----

  // A[row : row + 6, col : col + 6] += c * m
  method AddBlock(a: array2<real>, row: nat, col: nat, m: Block, c: real)
    requires IsBlock(m) && row + B <= a.Length0 && col + B <= a.Length1
    modifies a
    ensures forall i, j :: 0 <= i < a.Length0 && 0 <= j < a.Length1 ==>
              a[i, j] == old(a[i, j]) + c * Placed(row, col, B, MatOf(m))(i, j)
  {
    forall i, j | row <= i < row + B && col <= j < col + B {
      a[i, j] := a[i, j] + c * m[i - row][j - col];
    }
  }

  // b[row : row + 6] += c * v
  method AddVec(b: array<real>, row: nat, v: seq<real>, c: real)
    requires |v| == B && row + B <= b.Length
    modifies b
    ensures forall i :: 0 <= i < b.Length ==> b[i] == old(b[i]) + c * PlacedVec(row, B, VecOf(v))(i)
  {
    forall i | row <= i < row + B {
      b[i] := b[i] + c * v[i - row];
    }
  }

  // m @ v
  method Times(m: Block, v: seq<real>) returns (p: seq<real>)
    requires IsBlock(m) && |v| == B
    ensures |p| == B && forall i :: 0 <= i < B ==> p[i] == Apply(B, MatOf(m), VecOf(v))(i)
  {
    p := [];
    for i := 0 to B
      invariant |p| == i
      invariant forall k :: 0 <= k < i ==> p[k] == Apply(B, MatOf(m), VecOf(v))(k)
    {
      var t := 0.0;
      ghost var row := Products(Row(MatOf(m), i), VecOf(v));
      for j := 0 to B
        invariant t == Sum(j, row)
      {
        assert MatOf(m)(i, j) == m[i][j] && VecOf(v)(j) == v[j];
        t := t + m[i][j] * v[j];
      }
      p := p + [t];
    }
  }

  // Scatters the factors into pose k.
  method AddFactors(win: Window, k: nat, a: array2<real>, b: array<real>)
    requires win.Valid() && 1 <= k < |win.h|
    requires a.Length0 == a.Length1 == b.Length == B * (|win.h| - 1)
    modifies a, b
    ensures forall i, j :: 0 <= i < a.Length0 && 0 <= j < a.Length1 ==> a[i, j] == old(a[i, j]) + MatStep(win, k)(i, j)
    ensures forall i :: 0 <= i < b.Length ==> b[i] == old(b[i]) + VecStep(win, k)(i)
  {
    hide MatStep, VecStep;
    AddToMatrix(win, k, a);
    AddToVector(win, k, b);
  }

  method AddToMatrix(win: Window, k: nat, a: array2<real>)
    requires win.Valid() && 1 <= k < |win.h|
    requires a.Length0 == a.Length1 == B * (|win.h| - 1)
    modifies a
    ensures forall i, j :: 0 <= i < a.Length0 && 0 <= j < a.Length1 ==> a[i, j] == old(a[i, j]) + MatStep(win, k)(i, j)
  {
    hide Placed;
    var s := At(k);
    AddBlock(a, s, s, win.h[k], 1.0);
    AddBlock(a, s, s, win.motion, 1.0);
    assert forall i, j :: 0 <= i < a.Length0 && 0 <= j < a.Length1 ==>
      a[i, j] == old(a[i, j]) + Placed(s, s, B, win.H(k))(i, j) + Placed(s, s, B, win.W())(i, j);
    if k > 1 {
      label Own:
      var p := At(k - 1);
      AddBlock(a, p, p, win.motion, 1.0);
      AddBlock(a, p, s, win.motion, -1.0);
      AddBlock(a, s, p, win.motion, -1.0);
      assert forall i, j :: 0 <= i < a.Length0 && 0 <= j < a.Length1 ==>
        a[i, j] == old@Own(a[i, j])
          + (Placed(p, p, B, win.W())(i, j) - Placed(p, s, B, win.W())(i, j) - Placed(s, p, B, win.W())(i, j));
    }
  }

  method AddToVector(win: Window, k: nat, b: array<real>)
    requires win.Valid() && 1 <= k < |win.h| && b.Length == B * (|win.h| - 1)
    modifies b
    ensures forall i :: 0 <= i < b.Length ==> b[i] == old(b[i]) + VecStep(win, k)(i)
  {
    hide Apply, PlacedVec;
    var s := At(k);
    var hr := Times(win.h[k], win.r[k]);
    var wr := Times(win.motion, win.rm[k]);
    AddVec(b, s, hr, -1.0);
    AddVec(b, s, wr, -1.0);
    VecTimes(win, k, hr, wr);
    if k > 1 {
      AddVec(b, At(k - 1), wr, 1.0);
    }
  }

  lemma VecTimes(win: Window, k: nat, hr: seq<real>, wr: seq<real>)
    requires win.Valid() && 1 <= k < |win.h| && |hr| == |wr| == B
    requires forall i :: 0 <= i < B ==> hr[i] == Apply(B, win.H(k), VecOf(win.r[k]))(i)
    requires forall i :: 0 <= i < B ==> wr[i] == Apply(B, win.W(), VecOf(win.rm[k]))(i)
    ensures forall row, i :: PlacedVec(row, B, VecOf(hr))(i)
              == PlacedVec(row, B, Apply(B, win.H(k), VecOf(win.r[k])))(i)
    ensures forall row, i :: PlacedVec(row, B, VecOf(wr))(i)
              == PlacedVec(row, B, Apply(B, win.W(), VecOf(win.rm[k])))(i)
  {
    hide Apply;
  }

  method Assemble(win: Window) returns (a: array2<real>, b: array<real>)
    requires win.Valid()
    ensures fresh(a) && fresh(b) && a.Length0 == a.Length1 == b.Length == B * (|win.h| - 1)
    ensures forall i, j :: 0 <= i < a.Length0 && 0 <= j < a.Length1 ==> a[i, j] == MatUpTo(win, |win.h| - 1)(i, j)
    ensures forall i :: 0 <= i < b.Length ==> b[i] == VecUpTo(win, |win.h| - 1)(i)
  {
    hide MatStep, VecStep;
    var n := |win.h|;
    var dim := B * (n - 1);
    a := new real[dim, dim]((i, j) => 0.0);
    b := new real[dim](i => 0.0);
    for k := 1 to n
      invariant forall i, j :: 0 <= i < dim && 0 <= j < dim ==> a[i, j] == MatUpTo(win, k - 1)(i, j)
      invariant forall i :: 0 <= i < dim ==> b[i] == VecUpTo(win, k - 1)(i)
    {
      AddFactors(win, k, a, b);
    }
  }

  // ---- what the equations are of ----

  ghost function Nought(): Vec {
    i => 0.0
  }

  // Pose k's part of an increment; the oldest pose has none.
  ghost function Part(x: Vec, k: nat): Vec {
    if k == 0 then Nought() else Shift(x, At(k))
  }

  // The residuals an increment leaves, to first order.
  ghost function ScanResidual(win: Window, k: nat, x: Vec): Vec
    requires win.Valid() && 1 <= k < |win.h|
  {
    i => VecOf(win.r[k])(i) + Part(x, k)(i)
  }

  ghost function MotionResidual(win: Window, k: nat, x: Vec): Vec
    requires win.Valid() && 1 <= k < |win.h|
  {
    i => VecOf(win.rm[k])(i) + Part(x, k)(i) - Part(x, k - 1)(i)
  }

  // The weighted sum of squares of the residuals of the factors into poses 1 .. k.
  ghost function Cost(win: Window, k: nat, x: Vec): real
    requires win.Valid() && k < |win.h|
  {
    if k == 0 then 0.0
    else Cost(win, k - 1, x)
         + Form(B, win.H(k), ScanResidual(win, k, x), ScanResidual(win, k, x))
         + Form(B, win.W(), MotionResidual(win, k, x), MotionResidual(win, k, x))
  }

  lemma SquareOfSum(n: nat, a: Mat, u: Vec, v: Vec, w: Vec, c: real)
    requires forall i, j :: 0 <= i < n && 0 <= j < n ==> a(i, j) == a(j, i)
    requires forall i :: 0 <= i < n ==> w(i) == u(i) + c * v(i)
    ensures Form(n, a, w, w) == Form(n, a, u, u) + 2.0 * c * Form(n, a, v, u) + c * c * Form(n, a, v, v)
  {
    hide Form;
    FormLeft(n, a, u, v, w, 1.0, c, w);
    FormRight(n, a, u, v, w, 1.0, c, u);
    FormRight(n, a, u, v, w, 1.0, c, v);
    FormSymmetric(n, a, u, v);
  }

  lemma FormOfNought(n: nat, a: Mat, v: Vec)
    ensures Form(n, a, Nought(), v) == 0.0
  {
    FormLeft(n, a, Nought(), Nought(), Nought(), 0.0, 0.0, v);
  }

  // The squares of the two factors into pose k, multiplied out.
  lemma FactorSquares(win: Window, k: nat, x: Vec)
    requires win.Valid() && 1 <= k < |win.h|
    ensures var X, Y, r, rm := Part(x, k), Part(x, k - 1), VecOf(win.r[k]), VecOf(win.rm[k]);
            && Form(B, win.H(k), ScanResidual(win, k, x), ScanResidual(win, k, x)) ==
               Form(B, win.H(k), r, r) + 2.0 * Form(B, win.H(k), X, r) + Form(B, win.H(k), X, X)
            && Form(B, win.W(), MotionResidual(win, k, x), MotionResidual(win, k, x)) ==
               Form(B, win.W(), rm, rm) + 2.0 * (Form(B, win.W(), X, rm) - Form(B, win.W(), Y, rm))
               + Form(B, win.W(), X, X) - Form(B, win.W(), X, Y) - Form(B, win.W(), Y, X) + Form(B, win.W(), Y, Y)
  {
    hide Form, Part;
    var X, Y, r, rm := Part(x, k), Part(x, k - 1), VecOf(win.r[k]), VecOf(win.rm[k]);
    SquareOfSum(B, win.H(k), r, X, ScanResidual(win, k, x), 1.0);
    var z: Vec := i => X(i) - Y(i);
    SquareOfSum(B, win.W(), rm, z, MotionResidual(win, k, x), 1.0);
    SquareOfSum(B, win.W(), X, Y, z, -1.0);
    FormLeft(B, win.W(), X, Y, z, 1.0, -1.0, rm);
    FormSymmetric(B, win.W(), X, Y);
  }

  // The form of what the factors into pose k add to the matrix.
  lemma MatStepForm(win: Window, k: nat, dim: nat, x: Vec)
    requires win.Valid() && 1 <= k < |win.h| && B * k <= dim
    ensures var X, Y := Part(x, k), Part(x, k - 1);
            Form(dim, MatStep(win, k), x, x) ==
            Form(B, win.H(k), X, X) + Form(B, win.W(), X, X)
            + Form(B, win.W(), Y, Y) - Form(B, win.W(), Y, X) - Form(B, win.W(), X, Y)
  {
    hide Form, Placed;
    var s, p, w := At(k), At(k - 1), win.W();
    var X, Y := Part(x, k), Part(x, k - 1);
    var a1: Mat := (i, j) => Placed(s, s, B, win.H(k))(i, j) + Placed(s, s, B, w)(i, j);
    FormLinear(dim, Placed(s, s, B, win.H(k)), Placed(s, s, B, w), a1, 1.0, 1.0, x, x);
    FormPlaced(dim, s, s, B, win.H(k), x, x);
    FormPlaced(dim, s, s, B, w, x, x);
    if k == 1 {
      FormLinear(dim, a1, a1, MatStep(win, k), 1.0, 0.0, x, x);
      FormOfNought(B, w, Y);
      FormOfNought(B, w, X);
      FormSymmetric(B, w, X, Y);
    } else {
      var a2: Mat := (i, j) => a1(i, j) + Placed(p, p, B, w)(i, j);
      var a3: Mat := (i, j) => a2(i, j) - Placed(p, s, B, w)(i, j);
      FormLinear(dim, a1, Placed(p, p, B, w), a2, 1.0, 1.0, x, x);
      FormLinear(dim, a2, Placed(p, s, B, w), a3, 1.0, -1.0, x, x);
      FormLinear(dim, a3, Placed(s, p, B, w), MatStep(win, k), 1.0, -1.0, x, x);
      FormPlaced(dim, p, p, B, w, x, x);
      FormPlaced(dim, p, s, B, w, x, x);
      FormPlaced(dim, s, p, B, w, x, x);
    }
  }

  lemma VecStepForm(win: Window, k: nat, dim: nat, x: Vec)
    requires win.Valid() && 1 <= k < |win.h| && B * k <= dim
    ensures var X, Y, r, rm := Part(x, k), Part(x, k - 1), VecOf(win.r[k]), VecOf(win.rm[k]);
            Linear(dim, VecStep(win, k), x) ==
            Form(B, win.W(), Y, rm) - Form(B, win.H(k), X, r) - Form(B, win.W(), X, rm)
  {
    hide Form, Linear, Apply, PlacedVec;
    var s, p := At(k), At(k - 1);
    var X, Y, r, rm := Part(x, k), Part(x, k - 1), VecOf(win.r[k]), VecOf(win.rm[k]);
    var hr, wr := Apply(B, win.H(k), r), Apply(B, win.W(), rm);
    var b1: Vec := i => PlacedVec(s, B, hr)(i) + PlacedVec(s, B, wr)(i);
    LinearLinear(dim, PlacedVec(s, B, hr), PlacedVec(s, B, wr), b1, 1.0, 1.0, x);
    LinearPlaced(dim, s, B, hr, x);
    LinearPlaced(dim, s, B, wr, x);
    LinearOfApply(B, win.H(k), r, X);
    LinearOfApply(B, win.W(), rm, X);
    if k == 1 {
      LinearLinear(dim, b1, b1, VecStep(win, k), -1.0, 0.0, x);
      FormOfNought(B, win.W(), rm);
    } else {
      LinearLinear(dim, PlacedVec(p, B, wr), b1, VecStep(win, k), 1.0, -1.0, x);
      LinearPlaced(dim, p, B, wr, x);
      LinearOfApply(B, win.W(), rm, Y);
    }
  }

  // The cost when nothing is moved.
  ghost function Rest(win: Window, k: nat): real
    requires win.Valid() && k < |win.h|
  {
    Cost(win, k, Nought())
  }

  // x'Ax - 2b'x is the cost of the increment x less the cost of none: the equations are the
  // normal equations of the sum of squares.
  lemma {:induction false} NormalEquations(win: Window, k: nat, dim: nat, x: Vec)
    requires win.Valid() && k < |win.h| && B * k <= dim
    ensures Form(dim, MatUpTo(win, k), x, x) - 2.0 * Linear(dim, VecUpTo(win, k), x) + Rest(win, k) == Cost(win, k, x)
  {
    hide Form, Linear;
    if k == 0 {
      FormLinear(dim, Zero(), Zero(), Zero(), 0.0, 0.0, x, x);
      LinearLinear(dim, VecUpTo(win, 0), VecUpTo(win, 0), VecUpTo(win, 0), 0.0, 0.0, x);
    } else {
      NormalEquations(win, k - 1, dim, x);
      AddedUp(win, k, dim, x);
      MatStepForm(win, k, dim, x);
      VecStepForm(win, k, dim, x);
      FactorSquares(win, k, x);
      RestStep(win, k);
    }
  }

  lemma AddedUp(win: Window, k: nat, dim: nat, x: Vec)
    requires win.Valid() && 1 <= k < |win.h|
    ensures Form(dim, MatUpTo(win, k), x, x) == Form(dim, MatUpTo(win, k - 1), x, x) + Form(dim, MatStep(win, k), x, x)
    ensures Linear(dim, VecUpTo(win, k), x) == Linear(dim, VecUpTo(win, k - 1), x) + Linear(dim, VecStep(win, k), x)
  {
    hide MatStep, VecStep;
    FormLinear(dim, MatUpTo(win, k - 1), MatStep(win, k), MatUpTo(win, k), 1.0, 1.0, x, x);
    LinearLinear(dim, VecUpTo(win, k - 1), VecStep(win, k), VecUpTo(win, k), 1.0, 1.0, x);
  }

  lemma RestStep(win: Window, k: nat)
    requires win.Valid() && 1 <= k < |win.h|
    ensures Rest(win, k) == Rest(win, k - 1) + Form(B, win.H(k), VecOf(win.r[k]), VecOf(win.r[k]))
                            + Form(B, win.W(), VecOf(win.rm[k]), VecOf(win.rm[k]))
  {
    hide Form, Part;
    var x, r, rm := Nought(), VecOf(win.r[k]), VecOf(win.rm[k]);
    NoughtHasNoParts(k);
    FormSame(B, win.H(k), r, ScanResidual(win, k, x));
    FormSame(B, win.W(), rm, MotionResidual(win, k, x));
  }

  lemma NoughtHasNoParts(k: nat)
    requires k >= 1
    ensures forall i :: Part(Nought(), k)(i) == 0.0 && Part(Nought(), k - 1)(i) == 0.0
  {
  }

  lemma FormSame(n: nat, a: Mat, u: Vec, w: Vec)
    requires Agree(n, u, w)
    requires IsSymmetricMat(n, a)
    ensures Form(n, a, w, w) == Form(n, a, u, u)
  {
    hide Form;
    FormLeft(n, a, u, u, w, 1.0, 0.0, w);
    FormRight(n, a, u, u, w, 1.0, 0.0, u);
  }
}
