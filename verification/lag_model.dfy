// The first-order lag with dead time and a rate limit (scripts/testing/sysid/sysid_fit.py), in
// its parallel and its series form.  1 - exp(-h / tau) is a given gain of the step h.

module LagModel {
  import opened Increasing
  import opened Planar

  // ---- dead time ----

  // How many of the times are at or before t.
  function CountUpTo(tU: seq<real>, t: real): (c: nat)
    ensures c <= |tU|
  {
    if tU == [] || tU[0] > t then 0 else 1 + CountUpTo(tU[1..], t)
  }

  lemma {:induction false} CountIsLast(tU: seq<real>, t: real)
    requires IsSorted(tU)
    ensures forall i :: 0 <= i < |tU| ==> (tU[i] <= t <==> i < CountUpTo(tU, t))
  {
    if tU != [] {
      if tU[0] <= t {
        CountIsLast(tU[1..], t);
        forall i | 0 <= i < |tU|
          ensures tU[i] <= t <==> i < CountUpTo(tU, t)
        {
          if i > 0 { assert tU[i] == tU[1..][i - 1]; }
        }
      }
    }
  }

  // i is the last command sample at or before t, or the first sample when all are after it.
  ghost predicate IsHeldIndex(tU: seq<real>, t: real, i: int) {
    && 0 <= i < |tU|
    && (tU[i] <= t || i == 0)
    && forall j :: i < j < |tU| ==> tU[j] > t
  }

  // The index np.searchsorted gives, clipped to the samples.
  function HeldIndex(tU: seq<real>, t: real): (i: nat)
    requires tU != []
    ensures i < |tU| && (IsSorted(tU) ==> IsHeldIndex(tU, t, i))
  {
    var c := CountUpTo(tU, t);
    assert IsSorted(tU) ==> IsHeldIndex(tU, t, if c == 0 then 0 else c - 1) by {
      if IsSorted(tU) { CountIsLast(tU, t); }
    }
    if c == 0 then 0 else c - 1
  }

  lemma HeldIndexUnique(tU: seq<real>, t: real, i: int, j: int)
    requires IsHeldIndex(tU, t, i) && IsHeldIndex(tU, t, j)
    ensures i == j
  {
  }

  // The input at every grid time, delayed.
  function Targets(tGrid: seq<real>, tU: seq<real>, u: seq<real>, delay: real): (target: seq<real>)
    requires |tU| == |u| >= 1
    ensures |target| == |tGrid| && forall k :: 0 <= k < |tGrid| ==> target[k] == u[HeldIndex(tU, tGrid[k] - delay)]
  {
    seq(|tGrid|, k requires 0 <= k < |tGrid| => u[HeldIndex(tU, tGrid[k] - delay)])
  }

  // u held between samples, read late.
  method DelayedInput(tGrid: seq<real>, tU: seq<real>, u: seq<real>, delay: real) returns (target: seq<real>)
    requires IsSorted(tU) && |tU| == |u| >= 1
    ensures target == Targets(tGrid, tU, u, delay)
    ensures forall k :: 0 <= k < |tGrid| ==> IsHeld(tU, u, tGrid[k] - delay, target[k])
  {
    target := [];
    for k := 0 to |tGrid|
      invariant |target| == k
      invariant forall j :: 0 <= j < k ==> target[j] == u[HeldIndex(tU, tGrid[j] - delay)]
      invariant forall j :: 0 <= j < k ==> IsHeld(tU, u, tGrid[j] - delay, target[j])
    {
      var i := HeldIndex(tU, tGrid[k] - delay);
      assert IsHeldIndex(tU, tGrid[k] - delay, i);
      target := target + [u[i]];
    }
  }

  ghost predicate IsHeld(tU: seq<real>, u: seq<real>, t: real, v: real)
    requires |tU| == |u|
  {
    exists i :: IsHeldIndex(tU, t, i) && v == u[i]
  }

  // ---- one step ----

  // The output, and the rate-limited command of the series form.
  datatype State = State(y: real, r: real)
  datatype Model = Model(gain: real -> real, rate: real, series: bool)

  ghost predicate IsModel(m: Model) {
    && m.rate >= 0.0 && m.gain(0.0) == 0.0
    && forall h: real :: h >= 0.0 ==> 0.0 <= m.gain(h) <= 1.0
  }

  function Clip(d: real, lim: real): real {
    if d > lim then lim else if d < -lim then -lim else d
  }

  // The lag's own move towards a target.
  function Move(y: real, target: real, a: real): real {
    (target - y) * a
  }

  function Step(series: bool, s: State, target: real, a: real, lim: real): State {
    if series then
      var r := s.r + Clip(target - s.r, lim);
      State(s.y + Move(s.y, r, a), r)
    else State(s.y + Clip(Move(s.y, target, a), lim), s.r)
  }

  // Steps of the grid: the first one is 0.
  function Steps(tGrid: seq<real>): (h: seq<real>)
    ensures |h| == |tGrid|
  {
    seq(|tGrid|, k requires 0 <= k < |tGrid| => if k == 0 then 0.0 else tGrid[k] - tGrid[k - 1])
  }

  // How far the limit lets a step of h move.
  function Limit(m: Model, h: real): real {
    m.rate * h
  }

  // The state after k steps.
  function StateAt(m: Model, y0: real, targets: seq<real>, h: seq<real>, k: nat): State
    requires k <= |targets| == |h|
  {
    if k == 0 then State(y0, y0)
    else Step(m.series, StateAt(m, y0, targets, h, k - 1), targets[k - 1], m.gain(h[k - 1]), Limit(m, h[k - 1]))
  }

  lemma NextState(m: Model, y0: real, targets: seq<real>, h: seq<real>, k: nat)
    requires k <= |targets| == |h|
    ensures StateAt(m, y0, targets, h, 0) == State(y0, y0)
    ensures k < |h| ==>
              StateAt(m, y0, targets, h, k + 1)
              == Step(m.series, StateAt(m, y0, targets, h, k), targets[k], m.gain(h[k]), Limit(m, h[k]))
  {
  }

  // The gain and the limit are kept from one step to the next while the step is the same.
  method Simulate(tGrid: seq<real>, tU: seq<real>, u: seq<real>, y0: real, delay: real, m: Model)
    returns (out: seq<real>)
    requires IsSorted(tU) && |tU| == |u| >= 1
    ensures |out| == |tGrid|
    ensures forall k :: 0 <= k < |out| ==> out[k] == StateAt(m, y0, Targets(tGrid, tU, u, delay), Steps(tGrid), k + 1).y
  {
    hide Move, Limit, Steps, IsHeld, StateAt, Targets;
    var target := DelayedInput(tGrid, tU, u, delay);
    ghost var targets := target;
    var h := Steps(tGrid);
    var y, r := y0, y0;
    NextState(m, y0, targets, h, 0);
    var a, lim, last, kept := 0.0, 0.0, 0.0, false;
    out := [];
    for k := 0 to |target|
      invariant |out| == k && StateAt(m, y0, targets, h, k) == State(y, r)
      invariant kept ==> a == m.gain(last) && lim == Limit(m, last)
      invariant forall j :: 0 <= j < k ==> out[j] == StateAt(m, y0, targets, h, j + 1).y
    {
      NextState(m, y0, targets, h, k);
      if !kept || h[k] != last {
        a, lim, last, kept := m.gain(h[k]), Limit(m, h[k]), h[k], true;
      }
      if m.series {
        var d := target[k] - r;
        r := r + if d > lim then lim else if d < -lim then -lim else d;
        y := y + Move(y, r, a);
      } else {
        var d := Move(y, target[k], a);
        if d > lim {
          d := lim;
        } else if d < -lim {
          d := -lim;
        }
        y := y + d;
      }
      out := out + [y];
    }
  }

  // ---- facts about one step ----

  lemma MoveSign(y: real, target: real, a: real)
    requires 0.0 <= a <= 1.0
    ensures y <= target ==> 0.0 <= Move(y, target, a) <= target - y
    ensures target <= y ==> target - y <= Move(y, target, a) <= 0.0
  {
    if y <= target {
      ProductSign(a, target - y);
      ProductSign(1.0 - a, target - y);
    } else {
      ProductSign(a, y - target);
      ProductSign(1.0 - a, y - target);
    }
  }

  lemma MoveMonotone(y: real, z: real, u: real, v: real, a: real)
    requires 0.0 <= a <= 1.0 && y <= z && u <= v
    ensures y + Move(y, u, a) <= z + Move(z, v, a)
  {
    ProductSign(a, v - u);
    ProductSign(1.0 - a, z - y);
  }

  // An affine map, and its linear part.
  function Map(k: real, c: real, v: real): real {
    k * v + c
  }

  function Scale(k: real, d: real): real {
    k * d
  }

  lemma MapFacts(k: real, c: real, u: real, v: real, d: real, a: real)
    ensures Map(k, c, u) - Map(k, c, v) == Scale(k, u - v)
    ensures Map(k, c, v) + Scale(k, d) == Map(k, c, v + d)
    ensures Move(Map(k, c, v), Map(k, c, u), a) == Scale(k, Move(v, u, a))
  {
  }

  lemma StepInHull(series: bool, s: State, target: real, a: real, lim: real, lo: real, hi: real)
    requires 0.0 <= a <= 1.0 && lim >= 0.0 && lo <= s.y <= hi && lo <= s.r <= hi && lo <= target <= hi
    ensures var n := Step(series, s, target, a, lim); lo <= n.y <= hi && lo <= n.r <= hi
  {
    hide Move;
    MoveSign(s.y, if series then s.r + Clip(target - s.r, lim) else target, a);
  }

  lemma StepMonotone(series: bool, s: State, t: State, u: real, v: real, a: real, lim: real)
    requires 0.0 <= a <= 1.0 && lim >= 0.0 && s.y <= t.y && s.r <= t.r && u <= v
    ensures var m, n := Step(series, s, u, a, lim), Step(series, t, v, a, lim); m.y <= n.y && m.r <= n.r
  {
    hide Move;
    if series {
      MoveMonotone(s.y, t.y, s.r + Clip(u - s.r, lim), t.r + Clip(v - t.r, lim), a);
    } else {
      MoveMonotone(s.y, t.y, u, v, a);
    }
  }

  function MapState(k: real, c: real, s: State): State {
    State(Map(k, c, s.y), Map(k, c, s.r))
  }

  // Shifting and scaling the state and the target shifts and scales the result, with the limit
  // scaled by the size of the scale.
  lemma StepAffine(series: bool, s: State, u: real, a: real, lim: real, k: real, c: real)
    requires lim >= 0.0
    ensures Step(series, MapState(k, c, s), Map(k, c, u), a, Scale(Abs(k), lim))
              == MapState(k, c, Step(series, s, u, a, lim))
  {
    hide Move, Clip, Map, Scale;
    if series {
      var d := Clip(u - s.r, lim);
      MapFacts(k, c, u, s.r, d, a);
      ClipScaled(u - s.r, lim, k);
      MapFacts(k, c, s.r + d, s.y, Move(s.y, s.r + d, a), a);
    } else {
      MapFacts(k, c, u, s.y, Clip(Move(s.y, u, a), lim), a);
      ClipScaled(Move(s.y, u, a), lim, k);
    }
  }

  lemma ClipScaled(d: real, lim: real, k: real)
    requires lim >= 0.0
    ensures Clip(Scale(k, d), Scale(Abs(k), lim)) == Scale(k, Clip(d, lim))
  {
    if k > 0.0 {
      SignOfProduct(d - lim, k);
      SignOfProduct(lim - d, k);
      SignOfProduct(d + lim, k);
      SignOfProduct(-d - lim, k);
    } else if k < 0.0 {
      SignOfProduct(d - lim, -k);
      SignOfProduct(lim - d, -k);
      SignOfProduct(d + lim, -k);
      SignOfProduct(-d - lim, -k);
    }
  }

  // ---- whole runs ----

  // Every step of the grid forward in time.
  ghost predicate IsForward(h: seq<real>) {
    forall k :: 0 <= k < |h| ==> h[k] >= 0.0
  }

  lemma StepsForward(tGrid: seq<real>)
    requires IsSorted(tGrid)
    ensures IsForward(Steps(tGrid))
  {
  }

  lemma LimitSign(m: Model, h: real)
    requires IsModel(m) && h >= 0.0
    ensures Limit(m, h) >= 0.0 && 0.0 <= m.gain(h) <= 1.0
    ensures h == 0.0 ==> Limit(m, h) == 0.0 && m.gain(h) == 0.0
  {
    ProductSign(m.rate, h);
  }

  // The output, and the limited command, never leave the hull of the start and the inputs.
  lemma {:induction false} StaysInHull(m: Model, y0: real, targets: seq<real>, h: seq<real>, k: nat, lo: real, hi: real)
    requires IsModel(m) && k <= |targets| == |h| && IsForward(h) && lo <= y0 <= hi
    requires forall j :: 0 <= j < |targets| ==> lo <= targets[j] <= hi
    ensures lo <= StateAt(m, y0, targets, h, k).y <= hi && lo <= StateAt(m, y0, targets, h, k).r <= hi
  {
    hide Step, Limit;
    if k > 0 {
      StaysInHull(m, y0, targets, h, k - 1, lo, hi);
      LimitSign(m, h[k - 1]);
      StepInHull(m.series, StateAt(m, y0, targets, h, k - 1), targets[k - 1], m.gain(h[k - 1]),
                 Limit(m, h[k - 1]), lo, hi);
    }
  }

  // A larger start and larger inputs give a larger output.
  lemma {:induction false} MonotoneRun(m: Model, y0: real, z0: real, u: seq<real>, v: seq<real>, h: seq<real>, k: nat)
    requires IsModel(m) && k <= |u| == |v| == |h| && IsForward(h) && y0 <= z0
    requires forall j :: 0 <= j < |u| ==> u[j] <= v[j]
    ensures StateAt(m, y0, u, h, k).y <= StateAt(m, z0, v, h, k).y
    ensures StateAt(m, y0, u, h, k).r <= StateAt(m, z0, v, h, k).r
  {
    hide Step, Limit;
    if k > 0 {
      MonotoneRun(m, y0, z0, u, v, h, k - 1);
      LimitSign(m, h[k - 1]);
      StepMonotone(m.series, StateAt(m, y0, u, h, k - 1), StateAt(m, z0, v, h, k - 1), u[k - 1], v[k - 1],
                   m.gain(h[k - 1]), Limit(m, h[k - 1]));
    }
  }

  // The model with its rate scaled.
  function Scaled(m: Model, k: real): Model {
    m.(rate := k * m.rate)
  }

  lemma ScaledLimit(m: Model, k: real, h: real)
    ensures Limit(Scaled(m, k), h) == Scale(k, Limit(m, h))
  {
  }

  function Affine(u: seq<real>, k: real, c: real): (v: seq<real>)
    ensures |v| == |u| && forall j :: 0 <= j < |u| ==> v[j] == Map(k, c, u[j])
  {
    seq(|u|, j requires 0 <= j < |u| => Map(k, c, u[j]))
  }

  // Normalising does not bend the dynamics: a run commutes with any affine map of start, inputs
  // and output when the rate is scaled by the size of the gain.
  lemma {:induction false} CommutesWithAffine(m: Model, y0: real, u: seq<real>, h: seq<real>, n: nat, k: real, c: real)
    requires IsModel(m) && n <= |u| == |h| && IsForward(h)
    ensures StateAt(Scaled(m, Abs(k)), Map(k, c, y0), Affine(u, k, c), h, n) == MapState(k, c, StateAt(m, y0, u, h, n))
  {
    hide Step, Limit, Map, Scale, MapState;
    if n > 0 {
      CommutesWithAffine(m, y0, u, h, n - 1, k, c);
      LimitSign(m, h[n - 1]);
      StepAffine(m.series, StateAt(m, y0, u, h, n - 1), u[n - 1], m.gain(h[n - 1]), Limit(m, h[n - 1]), k, c);
      ScaledLimit(m, Abs(k), h[n - 1]);
    } else {
      MapStart(k, c, y0);
    }
  }

  lemma MapStart(k: real, c: real, y0: real)
    ensures MapState(k, c, State(y0, y0)) == State(Map(k, c, y0), Map(k, c, y0))
  {
  }

  // The command of an event in the units of its report: y0 + gain (raw - u0).
  function Normalised(raw: seq<real>, gain: real, u0: real, y0: real): (v: seq<real>)
    ensures |v| == |raw| && forall j :: 0 <= j < |v| ==> v[j] == y0 + Scale(gain, raw[j] - u0)
  {
    seq(|raw|, j requires 0 <= j < |raw| => y0 + Scale(gain, raw[j] - u0))
  }

  // So a run on the normalised command, from the report's start, is the raw run from the
  // command's start with the same gain and offset applied to it.
  lemma NormalisedRun(m: Model, raw: seq<real>, h: seq<real>, n: nat, gain: real, u0: real, y0: real)
    requires IsModel(m) && n <= |raw| == |h| && IsForward(h)
    ensures StateAt(Scaled(m, Abs(gain)), y0, Normalised(raw, gain, u0, y0), h, n).y
            == y0 + Scale(gain, StateAt(m, u0, raw, h, n).y - u0)
  {
    var c := y0 - gain * u0;
    forall j | 0 <= j < |raw|
      ensures Normalised(raw, gain, u0, y0)[j] == Affine(raw, gain, c)[j]
    {
      AsMap(raw[j], gain, u0, y0);
    }
    assert Normalised(raw, gain, u0, y0) == Affine(raw, gain, c);
    AsMap(u0, gain, u0, y0);
    AsMap(StateAt(m, u0, raw, h, n).y, gain, u0, y0);
    hide StateAt, Map, Scale;
    CommutesWithAffine(m, u0, raw, h, n, gain, c);
  }

  lemma AsMap(v: real, gain: real, u0: real, y0: real)
    ensures Map(gain, y0 - gain * u0, v) == y0 + Scale(gain, v - u0)
    ensures Map(gain, y0 - gain * u0, u0) == y0
  {
  }

  // A start that is off by less than gap stays off by less than gap.
  lemma NonExpansive(m: Model, y0: real, z0: real, u: seq<real>, h: seq<real>, k: nat)
    requires IsModel(m) && k <= |u| == |h| && IsForward(h) && y0 <= z0
    ensures var s, t := StateAt(m, y0, u, h, k).y, StateAt(m, z0, u, h, k).y; s <= t <= s + (z0 - y0)
  {
    hide StateAt;
    var gap := z0 - y0;
    MonotoneRun(m, y0, z0, u, u, h, k);
    assert Map(1.0, gap, y0) == z0;
    MonotoneRun(m, z0, Map(1.0, gap, y0), u, Affine(u, 1.0, gap), h, k);
    CommutesWithAffine(m, y0, u, h, k, 1.0, gap);
    assert Scaled(m, Abs(1.0)) == m;
  }

  // ---- rates ----

  // The parallel form never moves more than the rate allows.
  lemma ParallelRate(m: Model, y0: real, u: seq<real>, h: seq<real>, k: nat)
    requires IsModel(m) && !m.series && k < |u| == |h| && IsForward(h)
    ensures var d := StateAt(m, y0, u, h, k + 1).y - StateAt(m, y0, u, h, k).y;
            -(Limit(m, h[k])) <= d <= Limit(m, h[k])
  {
    LimitSign(m, h[k]);
  }

  // On a uniform grid neither does the series form: how far the lag is behind the limited
  // command never exceeds what a gain a leaves of the limit for ever.
  lemma {:induction false} SeriesLag(m: Model, y0: real, u: seq<real>, h: seq<real>, k: nat, step: real)
    requires IsModel(m) && m.series && k <= |u| == |h| && step >= 0.0
    requires forall j :: 0 <= j < |h| ==> h[j] == if j == 0 then 0.0 else step
    ensures var s, a, lim := StateAt(m, y0, u, h, k), m.gain(step), Limit(m, step);
            -((1.0 - a) * lim) <= Move(s.y, s.r, a) <= (1.0 - a) * lim
  {
    hide Move, Clip, Limit;
    var a, lim := m.gain(step), Limit(m, step);
    LimitSign(m, step);
    ProductSign(1.0 - a, lim);
    if k == 0 {
      MoveSign(y0, y0, a);
    } else {
      SeriesLag(m, y0, u, h, k - 1, step);
      var s := StateAt(m, y0, u, h, k - 1);
      if k == 1 {
        NextState(m, y0, u, h, 0);
        LimitSign(m, 0.0);
        FirstStepIsNone(y0, u[0], Limit(m, 0.0));
        MoveSign(y0, y0, a);
      } else {
        LagStep(s, u[k - 1], a, lim);
      }
    }
  }

  lemma FirstStepIsNone(y0: real, target: real, lim: real)
    requires lim == 0.0
    ensures Step(true, State(y0, y0), target, 0.0, lim) == State(y0, y0)
  {
  }

  lemma LagStep(s: State, target: real, a: real, lim: real)
    requires 0.0 <= a <= 1.0 && lim >= 0.0 && -((1.0 - a) * lim) <= Move(s.y, s.r, a) <= (1.0 - a) * lim
    ensures var n := Step(true, s, target, a, lim);
            -((1.0 - a) * lim) <= Move(n.y, n.r, a) <= (1.0 - a) * lim && -lim <= n.y - s.y <= lim
  {
    var d := Clip(target - s.r, lim);
    ProductSign(a, lim - d);
    ProductSign(a, lim + d);
    var e := Move(s.y, s.r + d, a);
    assert e == Move(s.y, s.r, a) + a * d;
    assert -lim <= e <= lim;
    ProductSign(1.0 - a, lim - e);
    ProductSign(1.0 - a, lim + e);
    assert Move(s.y + e, s.r + d, a) == (1.0 - a) * e;
  }

  lemma SeriesRateOnUniformGrid(m: Model, y0: real, u: seq<real>, h: seq<real>, k: nat, step: real)
    requires IsModel(m) && m.series && k < |u| == |h| && step >= 0.0
    requires forall j :: 0 <= j < |h| ==> h[j] == if j == 0 then 0.0 else step
    ensures var d := StateAt(m, y0, u, h, k + 1).y - StateAt(m, y0, u, h, k).y;
            -(Limit(m, h[k])) <= d <= Limit(m, h[k])
  {
    hide Move, Clip, Limit;
    LimitSign(m, step);
    if k == 0 {
      NextState(m, y0, u, h, 0);
      LimitSign(m, 0.0);
      FirstStepIsNone(y0, u[0], Limit(m, 0.0));
    } else {
      SeriesLag(m, y0, u, h, k, step);
      LagStep(StateAt(m, y0, u, h, k), u[k], m.gain(step), Limit(m, step));
    }
  }

  // ---- how far a run moves ----

  // One step of the parallel form: where the limit does not bind, what is left of the way to the
  // target is the part 1 - a of it; where it does, the output moves by the limit, towards the target.
  lemma ParallelStep(m: Model, y0: real, u: seq<real>, h: seq<real>, k: nat)
    requires IsModel(m) && !m.series && k < |u| == |h| && h[k] >= 0.0
    ensures var y, next, a, lim := StateAt(m, y0, u, h, k).y, StateAt(m, y0, u, h, k + 1).y, m.gain(h[k]),
              m.rate * h[k];
            && (-lim <= a * (u[k] - y) <= lim ==> u[k] - next == (1.0 - a) * (u[k] - y))
            && (a * (u[k] - y) > lim ==> y <= next == y + lim < u[k])
            && (a * (u[k] - y) < -lim ==> y >= next == y - lim > u[k])
  {
    var y, a := StateAt(m, y0, u, h, k).y, m.gain(h[k]);
    LimitSign(m, h[k]);
    MoveSign(y, u[k], a);
    NextState(m, y0, u, h, k);
    hide StateAt;
  }

  // What a gain leaves of a way.
  function Rest(a: real, way: real): real {
    (1.0 - a) * way
  }

  lemma MoveLeaves(y: real, target: real, a: real)
    ensures target - (y + Move(y, target, a)) == Rest(a, target - y)
  {
  }

  lemma CommandStep(s: State, target: real, a: real, lim: real)
    ensures var next := Step(true, s, target, a, lim);
            && (-lim <= target - s.r <= lim ==> next.r == target)
            && (target - s.r > lim >= 0.0 ==> next.r == s.r + lim)
            && (target - s.r < -lim <= 0.0 ==> next.r == s.r - lim)
            && next.r - next.y == Rest(a, next.r - s.y)
  {
    MoveLeaves(s.y, s.r + Clip(target - s.r, lim), a);
    hide Move, Rest;
  }

  // One step of the series form: the command goes to the target, by the limit at most, and the
  // output then keeps what its gain leaves of the way to the command.
  lemma SeriesStep(m: Model, y0: real, u: seq<real>, h: seq<real>, k: nat)
    requires IsModel(m) && m.series && k < |u| == |h| && h[k] >= 0.0
    ensures var s, next, lim := StateAt(m, y0, u, h, k), StateAt(m, y0, u, h, k + 1), m.rate * h[k];
            && (-lim <= u[k] - s.r <= lim ==> next.r == u[k])
            && (u[k] - s.r > lim ==> next.r == s.r + lim)
            && (u[k] - s.r < -lim ==> next.r == s.r - lim)
            && next.r - next.y == Rest(m.gain(h[k]), next.r - s.y)
  {
    CommandStep(StateAt(m, y0, u, h, k), u[k], m.gain(h[k]), Limit(m, h[k]));
    NextState(m, y0, u, h, k);
    LimitSign(m, h[k]);
    hide StateAt, Step, Rest;
  }

  function Power(b: real, n: nat): real {
    if n == 0 then 1.0 else b * Power(b, n - 1)
  }

  // What n equal steps leave of it: the part (1 - a)^n.
  function RestAfter(a: real, way: real, n: nat): real {
    if n == 0 then way else Rest(a, RestAfter(a, way, n - 1))
  }

  lemma {:induction false} RestAfterIs(a: real, way: real, n: nat)
    ensures RestAfter(a, way, n) == Power(1.0 - a, n) * way
  {
    if n > 0 {
      RestAfterIs(a, way, n - 1);
      var p := Power(1.0 - a, n - 1);
      assert (1.0 - a) * (p * way) == (1.0 - a) * p * way;
    }
  }

  // From step i on the target is held and the grid is even, for n steps.
  ghost predicate IsHeldFrom(u: seq<real>, h: seq<real>, i: nat, n: nat, target: real, step: real) {
    i + n <= |u| == |h| && forall j :: i <= j < i + n ==> u[j] == target && h[j] == step
  }

  // A limit that does not bind on this way.
  ghost predicate IsFree(a: real, way: real, lim: real) {
    -lim <= a * way <= lim
  }

  // Over n equal steps of a held target the parallel output closes in on it as the lag does, once
  // the limit does not bind; it never binds again.
  lemma {:induction false} ParallelSettles(m: Model, y0: real, u: seq<real>, h: seq<real>, i: nat, n: nat,
                                        target: real, step: real)
    requires IsModel(m) && !m.series && step >= 0.0 && IsHeldFrom(u, h, i, n, target, step)
    requires IsFree(m.gain(step), target - StateAt(m, y0, u, h, i).y, m.rate * step)
    ensures var way := target - StateAt(m, y0, u, h, i + n).y;
            && way == RestAfter(m.gain(step), target - StateAt(m, y0, u, h, i).y, n)
            && IsFree(m.gain(step), way, m.rate * step)
  {
    hide StateAt, IsFree, Rest;
    if n > 0 {
      ParallelSettles(m, y0, u, h, i, n - 1, target, step);
      HeldStep(m, y0, u, h, i + n - 1, target, step);
    }
  }

  lemma HeldStep(m: Model, y0: real, u: seq<real>, h: seq<real>, k: nat, target: real, step: real)
    requires IsModel(m) && !m.series && step >= 0.0 && k < |u| == |h| && u[k] == target && h[k] == step
    requires IsFree(m.gain(step), target - StateAt(m, y0, u, h, k).y, m.rate * step)
    ensures var way := target - StateAt(m, y0, u, h, k + 1).y;
            && way == Rest(m.gain(step), target - StateAt(m, y0, u, h, k).y)
            && IsFree(m.gain(step), way, m.rate * step)
  {
    ParallelStep(m, y0, u, h, k);
    Fades(m.gain(step), target - StateAt(m, y0, u, h, k).y, m.rate * step);
    hide StateAt;
  }

  lemma Fades(a: real, way: real, lim: real)
    requires 0.0 <= a <= 1.0 && IsFree(a, way, lim)
    ensures IsFree(a, Rest(a, way), lim)
  {
    var e := a * way;
    assert a * ((1.0 - a) * way) == (1.0 - a) * e;
    if e >= 0.0 {
      ProductSign(a, e);
      ProductSign(1.0 - a, e);
    } else {
      ProductSign(a, -e);
      ProductSign(1.0 - a, -e);
    }
  }

  lemma LimitIs(m: Model, h: real)
    ensures Limit(m, h) == m.rate * h
  {
  }

  // How far a limit allows in n steps.
  function Reached(n: nat, lim: real): real {
    n as real * lim
  }

  lemma OneMoreReached(n: nat, lim: real)
    requires lim >= 0.0
    ensures Reached(0, lim) == 0.0 && Reached(n, lim) >= 0.0 && Reached(n + 1, lim) == Reached(n, lim) + lim
  {
    ProductSign(n as real, lim);
    assert (n + 1) as real == n as real + 1.0;
  }

  // The command of the series form goes the whole way to a held target, by the limit each step, and
  // stays there.
  lemma {:induction false} CommandArrives(m: Model, y0: real, u: seq<real>, h: seq<real>, i: nat, n: nat,
                                          target: real, step: real)
    requires IsModel(m) && m.series && step >= 0.0 && IsHeldFrom(u, h, i, n, target, step)
    ensures var r, after, way := StateAt(m, y0, u, h, i).r, StateAt(m, y0, u, h, i + n).r, Reached(n, m.rate * step);
            after == if target - r > way then r + way else if target - r < -way then r - way else target
  {
    hide StateAt, Reached, Rest, Limit, Step;
    LimitSign(m, step);
    var lim := Limit(m, step);
    LimitIs(m, step);
    OneMoreReached(0, lim);
    if n > 0 {
      var k := i + n - 1;
      CommandArrives(m, y0, u, h, i, n - 1, target, step);
      OneMoreReached(n - 1, lim);
      CommandStep(StateAt(m, y0, u, h, k), target, m.gain(step), lim);
      NextState(m, y0, u, h, k);
    }
  }

  // And once it is there the output closes in on it as the lag does.
  lemma {:induction false} SeriesSettles(m: Model, y0: real, u: seq<real>, h: seq<real>, i: nat, n: nat,
                                      target: real, step: real)
    requires IsModel(m) && m.series && step >= 0.0 && IsHeldFrom(u, h, i, n, target, step)
    requires StateAt(m, y0, u, h, i).r == target
    ensures StateAt(m, y0, u, h, i + n).r == target
    ensures target - StateAt(m, y0, u, h, i + n).y
            == RestAfter(m.gain(step), target - StateAt(m, y0, u, h, i).y, n)
  {
    hide StateAt;
    if n > 0 {
      var k := i + n - 1;
      SeriesSettles(m, y0, u, h, i, n - 1, target, step);
      LimitSign(m, step);
      hide Limit, Rest, Step;
      CommandStep(StateAt(m, y0, u, h, k), target, m.gain(step), Limit(m, step));
      NextState(m, y0, u, h, k);
    }
  }

  ghost function Elapsed(h: seq<real>, k: nat): real
    requires k <= |h|
  {
    if k == 0 then 0.0 else Elapsed(h, k - 1) + h[k - 1]
  }

  // The steps take the grid's time: after step k it is as long since the start as on the grid.
  lemma {:induction false} StepsFollowTheGrid(tGrid: seq<real>, k: nat)
    requires k < |tGrid|
    ensures Elapsed(Steps(tGrid), k + 1) == tGrid[k] - tGrid[0]
  {
    if k > 0 {
      StepsFollowTheGrid(tGrid, k - 1);
    }
  }

  // ---- the two forms ----

  // Where the limit cannot bind, the two forms are one model.
  lemma {:induction false} FormsAgree(gain: real -> real, rate: real, y0: real, u: seq<real>, h: seq<real>, k: nat,
                                      lo: real, hi: real)
    requires IsModel(Model(gain, rate, true)) && k <= |u| == |h| && IsForward(h) && lo <= y0 <= hi
    requires forall j :: 0 <= j < |u| ==> lo <= u[j] <= hi
    requires forall j :: 0 <= j < |h| && h[j] > 0.0 ==> Limit(Model(gain, rate, true), h[j]) >= hi - lo
    ensures StateAt(Model(gain, rate, true), y0, u, h, k).y == StateAt(Model(gain, rate, false), y0, u, h, k).y
  {
    hide StateAt, Step, Limit;
    NextState(Model(gain, rate, true), y0, u, h, 0);
    NextState(Model(gain, rate, false), y0, u, h, 0);
    if k > 0 {
      var ms, mp := Model(gain, rate, true), Model(gain, rate, false);
      FormsAgree(gain, rate, y0, u, h, k - 1, lo, hi);
      StaysInHull(ms, y0, u, h, k - 1, lo, hi);
      var s, p := StateAt(ms, y0, u, h, k - 1), StateAt(mp, y0, u, h, k - 1);
      var a, lim := gain(h[k - 1]), Limit(ms, h[k - 1]);
      LimitSign(ms, h[k - 1]);
      SameLimit(ms, mp, h[k - 1]);
      NextState(ms, y0, u, h, k - 1);
      NextState(mp, y0, u, h, k - 1);
      OneStepAgrees(s, p, u[k - 1], a, lim, hi - lo, h[k - 1] > 0.0);
    }
  }

  lemma SameLimit(m: Model, n: Model, h: real)
    requires m.rate == n.rate
    ensures Limit(m, h) == Limit(n, h)
  {
  }

  lemma OneStepAgrees(s: State, p: State, target: real, a: real, lim: real, spread: real, moving: bool)
    requires 0.0 <= a <= 1.0 && lim >= 0.0 && s.y == p.y
    requires -spread <= target - s.y <= spread && -spread <= target - s.r <= spread
    requires if moving then lim >= spread else a == 0.0 && lim == 0.0
    ensures Step(true, s, target, a, lim).y == Step(false, p, target, a, lim).y
  {
    MoveSign(s.y, target, a);
  }
}
