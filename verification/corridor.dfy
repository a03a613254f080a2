// The lane fitter's free space and the bounds it hands to the solver
// (scripts/map/fit_lane_corridor.py).

module Corridor {
  import opened Options
  import opened Planar
  import opened ObstacleGrid
  import opened Arange

  // ---- free space ----

  const EPS: real := 0.000000001
  const ROW_STEP: real := 0.025
  const STRIP_STEP: real := 0.05

  // The offsets across the path that make a row.
  function Offsets(strip: real): (ts: seq<real>)
  {
    if strip > 0.0 then
      seq(ArangeLength(-strip, strip + EPS, STRIP_STEP), k requires k >= 0 => -strip + k as real * STRIP_STEP)
    else [0.0]
  }

  // r out along the normal and t across it.
  function Sample(p: Point, n: Point, r: real, t: real): Point {
    Point(p.x + r * n.x + t * n.y, p.y + r * n.y - t * n.x)
  }

  // How far out the j-th row is.
  function RowAt(step: real, j: nat): real {
    j as real * step
  }

  // Some sample of the row is in an occupied cell.
  predicate RowHit(g: Grid, p: Point, n: Point, strip: real, step: real, j: nat)
    requires g.cell > 0.0
  {
    exists k :: 0 <= k < |Offsets(strip)| && OccupiedAt(g, Sample(p, n, RowAt(step, j), Offsets(strip)[k]))
  }

  function RowCount(reach: real, step: real): nat
    requires step > 0.0
  {
    ArangeLength(0.0, reach + EPS, step)
  }

  // The first k rows are free.
  ghost predicate RowsFree(g: Grid, p: Point, n: Point, strip: real, step: real, k: nat)
    requires g.cell > 0.0
  {
    forall j: nat :: j < k ==> !RowHit(g, p, n, strip, step, j)
  }

  // d is the distance of the first occupied row, or reach when no row is occupied.
  ghost predicate IsFreeSpace(g: Grid, p: Point, n: Point, reach: real, step: real, strip: real, d: real)
    requires g.cell > 0.0 && step > 0.0
  {
    || (exists j: nat :: j < RowCount(reach, step) && d == RowAt(step, j) && RowHit(g, p, n, strip, step, j)
                         && RowsFree(g, p, n, strip, step, j))
    || (d == reach && RowsFree(g, p, n, strip, step, RowCount(reach, step)))
  }

  method FreeSpace(g: Grid, p: seq<Point>, n: seq<Point>, reach: real, step: real, strip: real) returns (out: seq<real>)
    requires g.cell > 0.0 && step > 0.0 && |p| == |n|
    ensures |out| == |p|
    ensures forall i :: 0 <= i < |p| ==> IsFreeSpace(g, p[i], n[i], reach, step, strip, out[i])
  {
    hide RowHit, RowAt;
    out := seq(|p|, i => reach);
    var rows := RowCount(reach, step);
    for i := 0 to |p|
      invariant |out| == |p|
      invariant forall k :: 0 <= k < i ==> IsFreeSpace(g, p[k], n[k], reach, step, strip, out[k])
      invariant forall k :: i <= k < |p| ==> out[k] == reach
    {
      var j := 0;
      while j < rows && !RowHit(g, p[i], n[i], strip, step, j)
        invariant 0 <= j <= rows && RowsFree(g, p[i], n[i], strip, step, j)
      {
        j := j + 1;
      }
      if j < rows {
        out := out[i := RowAt(step, j)];
      }
    }
  }

  // ---- where the rows are ----

  // How far q is from p out along the normal, and to its right.
  ghost function Out(p: Point, n: Point, q: Point): real {
    (q.x - p.x) * n.x + (q.y - p.y) * n.y
  }

  ghost function Across(p: Point, n: Point, q: Point): real {
    (q.x - p.x) * n.y - (q.y - p.y) * n.x
  }

  predicate IsUnit(n: Point) {
    n.x * n.x + n.y * n.y == 1.0
  }

  lemma SampleIs(p: Point, n: Point, r: real, t: real, q: Point)
    requires IsUnit(n)
    ensures q == Sample(p, n, r, t) <==> Out(p, n, q) == r && Across(p, n, q) == t
  {
    var dx, dy := q.x - p.x, q.y - p.y;
    SplitX(dx, dy, n);
    SplitX(dy, dx, Point(n.y, n.x));
    if q == Sample(p, n, r, t) {
      SplitX(r, t, n);
      assert dx == r * n.x + t * n.y && dy == r * n.y - t * n.x;
      OfSample(r, t, n);
    }
  }

  lemma SplitX(dx: real, dy: real, n: Point)
    requires IsUnit(n)
    ensures (dx * n.x + dy * n.y) * n.x + (dx * n.y - dy * n.x) * n.y == dx
  {
    assert (dx * n.x + dy * n.y) * n.x + (dx * n.y - dy * n.x) * n.y == dx * (n.x * n.x + n.y * n.y);
  }

  lemma OfSample(r: real, t: real, n: Point)
    requires IsUnit(n)
    ensures (r * n.x + t * n.y) * n.x + (r * n.y - t * n.x) * n.y == r
    ensures (r * n.x + t * n.y) * n.y - (r * n.y - t * n.x) * n.x == t
  {
    assert (r * n.x + t * n.y) * n.x + (r * n.y - t * n.x) * n.y == r * (n.x * n.x + n.y * n.y);
    assert (r * n.x + t * n.y) * n.y - (r * n.y - t * n.x) * n.x == t * (n.x * n.x + n.y * n.y);
  }

  // v is the k-th of the values from lo on by step.
  predicate IsNth(lo: real, step: real, k: nat, v: real) {
    v == lo + k as real * step
  }

  // The offsets of a row: 0 alone, or from -strip on by STRIP_STEP as far as strip.
  ghost predicate IsOffset(strip: real, t: real) {
    if strip > 0.0 then
      var lo := -strip;
      t < strip + EPS && exists k: nat :: IsNth(lo, STRIP_STEP, k, t)
    else t == 0.0
  }

  lemma OffsetsAre(strip: real, t: real)
    ensures IsOffset(strip, t) <==> exists k :: 0 <= k < |Offsets(strip)| && Offsets(strip)[k] == t
  {
    hide ArangeLength;
    if strip > 0.0 {
      if IsOffset(strip, t) {
        var k: nat :| IsNth(-strip, STRIP_STEP, k, t);
        ArangeCovers(-strip, strip + EPS, STRIP_STEP, k);
        assert Offsets(strip)[k] == t;
      }
      if k: nat :| k < |Offsets(strip)| && Offsets(strip)[k] == t {
        ArangeCovers(-strip, strip + EPS, STRIP_STEP, k);
        assert IsNth(-strip, STRIP_STEP, k, t);
      }
    } else {
      assert Offsets(strip)[0] == 0.0;
    }
  }

  // How far out the rows are: from 0 on by step as far as the reach.
  ghost predicate IsRow(reach: real, step: real, r: real) {
    r < reach + EPS && exists j: nat :: IsNth(0.0, step, j, r)
  }

  // A point q of the row r out from p: that far along the normal, and within the strip across it.
  ghost predicate IsRowPoint(p: Point, n: Point, strip: real, r: real, q: Point) {
    Out(p, n, q) == r && IsOffset(strip, Across(p, n, q))
  }

  // A row is hit exactly when one of its points is in an occupied cell.
  lemma RowHitIs(g: Grid, p: Point, n: Point, strip: real, step: real, j: nat)
    requires g.cell > 0.0 && IsUnit(n)
    ensures RowHit(g, p, n, strip, step, j) <==>
              exists q :: IsRowPoint(p, n, strip, j as real * step, q) && InOccupied(g, q)
  {
    hide Sample, Out, Across, IsUnit, IsOffset, OccupiedAt, InOccupied, Offsets;
    var r := j as real * step;
    if RowHit(g, p, n, strip, step, j) {
      var k :| 0 <= k < |Offsets(strip)| && OccupiedAt(g, Sample(p, n, r, Offsets(strip)[k]));
      var q := Sample(p, n, r, Offsets(strip)[k]);
      SampleIs(p, n, r, Offsets(strip)[k], q);
      OffsetsAre(strip, Offsets(strip)[k]);
      OccupiedAtIs(g, q);
    }
    if q :| IsRowPoint(p, n, strip, r, q) && InOccupied(g, q) {
      SampleIs(p, n, r, Across(p, n, q), q);
      OffsetsAre(strip, Across(p, n, q));
      OccupiedAtIs(g, q);
    }
  }

  // So short of the free space no row has a point in an occupied cell, and where it is not the reach
  // there is a row at its end that has one.
  lemma FreeSpaceIs(g: Grid, p: Point, n: Point, reach: real, step: real, strip: real, d: real)
    requires g.cell > 0.0 && step > 0.0 && IsUnit(n) && IsFreeSpace(g, p, n, reach, step, strip, d)
    ensures forall r, q :: IsRow(reach, step, r) && r < d && IsRowPoint(p, n, strip, r, q) ==> !InOccupied(g, q)
    ensures d != reach ==> IsRow(reach, step, d) && exists q :: IsRowPoint(p, n, strip, d, q) && InOccupied(g, q)
  {
    hide RowHit, InOccupied, IsRowPoint, IsUnit;
    forall r, q | IsRow(reach, step, r) && r < d && IsRowPoint(p, n, strip, r, q)
      ensures !InOccupied(g, q)
    {
      var j: nat :| IsNth(0.0, step, j, r);
      ArangeCovers(0.0, reach + EPS, step, j);
      NearerRowsFree(g, p, n, reach, step, strip, d, j);
      RowHitIs(g, p, n, strip, step, j);
    }
    if d != reach {
      var j: nat :| j < RowCount(reach, step) && d == RowAt(step, j) && RowHit(g, p, n, strip, step, j)
                    && RowsFree(g, p, n, strip, step, j);
      ArangeCovers(0.0, reach + EPS, step, j);
      assert IsNth(0.0, step, j, d);
      RowHitIs(g, p, n, strip, step, j);
    }
  }

  // Every row nearer than the free space is free.
  lemma NearerRowsFree(g: Grid, p: Point, n: Point, reach: real, step: real, strip: real, d: real, j: nat)
    requires g.cell > 0.0 && step > 0.0 && IsFreeSpace(g, p, n, reach, step, strip, d)
    requires j < RowCount(reach, step) && RowAt(step, j) < d
    ensures !RowHit(g, p, n, strip, step, j)
  {
    hide RowHit, RowCount;
    if !RowsFree(g, p, n, strip, step, RowCount(reach, step)) {
      var h: nat :| h < RowCount(reach, step) && d == RowAt(step, h) && RowHit(g, p, n, strip, step, h)
                    && RowsFree(g, p, n, strip, step, h);
      RowOrder(step, h, j);
    }
  }

  lemma RowOrder(step: real, h: nat, j: nat)
    requires step > 0.0
    ensures h <= j ==> RowAt(step, h) <= RowAt(step, j)
  {
    if h <= j {
      ProductSign((j - h) as real, step);
      assert (j - h) as real * step == j as real * step - h as real * step;
    }
  }

  // ---- one stretch ----

  datatype Band = Band(lo: real, hi: real, margin: real)
  // level and hold say where the cart is level with the pinch and over its hold boxes.
  datatype Pinch = Pinch(level: seq<bool>, hold: seq<bool>, width: real, ease: real,
                         edgeMargin: Option<real>, band: Option<Band>)
  datatype Override = Override(at: seq<bool>, atLeast: Option<real>, atMost: Option<real>)
  datatype Config = Config(reach: real, strip: real, width: real, minWidth: real, margin: real, pin: int,
                           overrides: seq<Override>, pinch: Option<Pinch>)

  ghost predicate IsConfig(cfg: Config, n: seq<Point>) {
    && (forall k :: 0 <= k < |cfg.overrides| ==> |cfg.overrides[k].at| == |n|)
    && (cfg.pinch.Some? ==>
          && |cfg.pinch.value.level| == |cfg.pinch.value.hold| == |n|
          && cfg.pinch.value.ease > 0.0
          && (cfg.pinch.value.band.Some? ==> forall i :: 0 <= i < |n| && cfg.pinch.value.level[i] ==> n[i].y != 0.0))
  }

  // The points of a stretch, which must be some and in one piece.
  method Selected(zone: seq<bool>) returns (range: Option<(nat, nat)>)
    ensures range.Some? ==> range.value.0 < range.value.1 <= |zone|
                            && forall i :: 0 <= i < |zone| ==> (zone[i] <==> range.value.0 <= i < range.value.1)
    ensures range.None? ==> (forall i :: 0 <= i < |zone| ==> !zone[i])
                            || (exists i, j, k :: 0 <= i < j < k < |zone| && zone[i] && !zone[j] && zone[k])
  {
    var i := 0;
    while i < |zone| && !zone[i]
      invariant 0 <= i <= |zone| && forall k :: 0 <= k < i ==> !zone[k]
    {
      i := i + 1;
    }
    if i == |zone| {
      return None;
    }
    var j := i;
    while j < |zone| && zone[j]
      invariant i <= j <= |zone| && forall k :: i <= k < j ==> zone[k]
    {
      j := j + 1;
    }
    var k := j;
    while k < |zone| && !zone[k]
      invariant j <= k <= |zone| && forall l :: j <= l < k ==> !zone[l]
    {
      k := k + 1;
    }
    if k < |zone| {
      assert zone[i] && !zone[j] && zone[k];
      return None;
    }
    range := Some((i, j));
  }

  // Distance along the path to the nearest held point among the first k; none when there is none.
  function NearestHeld(s: seq<real>, hold: seq<bool>, i: nat, k: nat): Option<real>
    requires i < |s| == |hold| && k <= |s|
  {
    if k == 0 then None
    else
      var rest := NearestHeld(s, hold, i, k - 1);
      if !hold[k - 1] then rest
      else
        var d := Abs(s[k - 1] - s[i]);
        Some(if rest.Some? then Min(rest.value, d) else d)
  }

  // The lane width before the free span limits it: the pinch's where held, eased back to the
  // lane's by the square of the distance.
  function Eased(cfg: Config, s: seq<real>, i: nat): real
    requires i < |s| && (cfg.pinch.Some? ==>
                         |cfg.pinch.value.hold| == |cfg.pinch.value.level| == |s| && cfg.pinch.value.ease > 0.0)
  {
    if cfg.pinch.None? then cfg.width
    else
      var pinch := cfg.pinch.value;
      var held := Held(pinch);
      var dmin := if held[i] then Some(0.0) else NearestHeld(s, held, i, |s|);
      var u := if dmin.Some? then Min(1.0, dmin.value / pinch.ease) else 1.0;
      pinch.width + (cfg.width - pinch.width) * (u * u)
  }

  // Never wider than the free span less both margins, nor narrower than the minimum.
  function WidthAt(cfg: Config, s: seq<real>, i: nat, l: real, r: real): real
    requires i < |s| && (cfg.pinch.Some? ==>
                         |cfg.pinch.value.hold| == |cfg.pinch.value.level| == |s| && cfg.pinch.value.ease > 0.0)
  {
    Max(cfg.minWidth, Min(Eased(cfg, s, i), l + r - 2.0 * cfg.margin))
  }

  // d is how far along the path the nearest held point is; none when no point is held.
  ghost predicate IsHeldDistance(s: seq<real>, held: seq<bool>, i: nat, k: nat, d: Option<real>)
    requires i < |s| == |held| && k <= |s|
  {
    match d
    case None => forall j :: 0 <= j < k ==> !held[j]
    case Some(v) =>
      && (forall j :: 0 <= j < k && held[j] ==> v <= Abs(s[j] - s[i]))
      && exists j :: 0 <= j < k && held[j] && v == Abs(s[j] - s[i])
  }

  lemma {:induction false} NearestHeldIs(s: seq<real>, held: seq<bool>, i: nat, k: nat)
    requires i < |s| == |held| && k <= |s|
    ensures IsHeldDistance(s, held, i, k, NearestHeld(s, held, i, k))
  {
    if k > 0 {
      NearestHeldIs(s, held, i, k - 1);
    }
  }

  lemma Blend(w0: real, w1: real, u: real)
    requires 0.0 <= u <= 1.0
    ensures Min(w0, w1) <= w0 + (w1 - w0) * (u * u) <= Max(w0, w1)
    ensures u == 0.0 ==> w0 + (w1 - w0) * (u * u) == w0
    ensures u == 1.0 ==> w0 + (w1 - w0) * (u * u) == w1
  {
    var v := u * u;
    ProductSign(u, u);
    ProductSign(u, 1.0 - u);
    assert v <= u;
    LerpBetween(w0, w1, v);
    assert w0 + (w1 - w0) * v == Lerp(w0, w1, v);
  }

  lemma Share(d: real, ease: real)
    requires d >= 0.0 && ease > 0.0
    ensures 0.0 <= Min(1.0, d / ease) <= 1.0
    ensures d == 0.0 ==> Min(1.0, d / ease) == 0.0
    ensures d >= ease ==> Min(1.0, d / ease) == 1.0
  {
    var q := d / ease;
    assert q * ease == d;
    SignOfProduct(q, ease);
    SignOfProduct(q - 1.0, ease);
    assert (q - 1.0) * ease == d - ease;
  }

  function Held(pinch: Pinch): (held: seq<bool>)
    requires |pinch.hold| == |pinch.level|
    ensures |held| == |pinch.level| && forall k :: 0 <= k < |held| ==> held[k] == (pinch.level[k] || pinch.hold[k])
  {
    seq(|pinch.level|, k requires 0 <= k < |pinch.level| => pinch.level[k] || pinch.hold[k])
  }

  // The cart is level with the pinch at the point, or over its hold boxes.
  ghost predicate IsHeld(pinch: Pinch, j: int) {
    && (0 <= j < |pinch.level| && 0 <= j < |pinch.hold|)
    && (pinch.level[j] || pinch.hold[j])
  }

  // The point is d along the path from the nearest held one.
  ghost predicate IsHeldAt(pinch: Pinch, s: seq<real>, i: nat, d: real)
    requires i < |s| == |pinch.hold| == |pinch.level|
  {
    && (forall j :: 0 <= j < |s| && IsHeld(pinch, j) ==> d <= Abs(s[j] - s[i]))
    && exists j :: 0 <= j < |s| && IsHeld(pinch, j) && d == Abs(s[j] - s[i])
  }

  // What the width is eased to: the pinch's at every held point, the lane's from the ease distance
  // on, and never outside the two ...
  lemma EasedIs(cfg: Config, s: seq<real>, i: nat)
    requires i < |s| && cfg.pinch.Some? && |cfg.pinch.value.hold| == |cfg.pinch.value.level| == |s|
             && cfg.pinch.value.ease > 0.0
    ensures var pinch, v := cfg.pinch.value, Eased(cfg, s, i);
            && Min(pinch.width, cfg.width) <= v <= Max(pinch.width, cfg.width)
            && (IsHeld(pinch, i) ==> v == pinch.width)
            && ((forall j :: 0 <= j < |s| && IsHeld(pinch, j) ==> Abs(s[j] - s[i]) >= pinch.ease) ==> v == cfg.width)
  {
    var pinch := cfg.pinch.value;
    var held := Held(pinch);
    assert forall j :: 0 <= j < |s| ==> held[j] == IsHeld(pinch, j);
    hide IsHeld;
    var dmin := if held[i] then Some(0.0) else NearestHeld(s, held, i, |s|);
    NearestHeldIs(s, held, i, |s|);
    var u := if dmin.Some? then Min(1.0, dmin.value / pinch.ease) else 1.0;
    if dmin.Some? { Share(dmin.value, pinch.ease); }
    if held[i] { assert Abs(s[i] - s[i]) == 0.0; }
    Blend(pinch.width, cfg.width, u);
    hide Abs, Min, Max, NearestHeld;
    assert Eased(cfg, s, i) == pinch.width + (cfg.width - pinch.width) * (u * u);
  }

  // ... and in between it goes back to the lane's as the square of the distance from the nearest held
  // point.
  lemma EasedSquare(cfg: Config, s: seq<real>, i: nat, d: real)
    requires i < |s| && cfg.pinch.Some? && |cfg.pinch.value.hold| == |cfg.pinch.value.level| == |s|
             && cfg.pinch.value.ease > 0.0
    requires IsHeldAt(cfg.pinch.value, s, i, d) && d <= cfg.pinch.value.ease
    ensures var w0, ease := cfg.pinch.value.width, cfg.pinch.value.ease;
            (Eased(cfg, s, i) - w0) * (ease * ease) == (cfg.width - w0) * (d * d)
  {
    var pinch := cfg.pinch.value;
    Eases(cfg.width - pinch.width, d, pinch.ease);
    EasedAt(cfg, s, i, d);
    hide Min, Eased, IsHeldAt;
  }

  lemma EasedAt(cfg: Config, s: seq<real>, i: nat, d: real)
    requires i < |s| && cfg.pinch.Some? && |cfg.pinch.value.hold| == |cfg.pinch.value.level| == |s|
             && cfg.pinch.value.ease > 0.0
    requires IsHeldAt(cfg.pinch.value, s, i, d)
    ensures d >= 0.0
    ensures var u := Min(1.0, d / cfg.pinch.value.ease);
            Eased(cfg, s, i) == cfg.pinch.value.width + (cfg.width - cfg.pinch.value.width) * (u * u)
  {
    var pinch := cfg.pinch.value;
    var held := Held(pinch);
    assert forall j :: 0 <= j < |s| ==> held[j] == IsHeld(pinch, j);
    hide IsHeld;
    NearestHeldIs(s, held, i, |s|);
    if held[i] { assert Abs(s[i] - s[i]) == 0.0; }
    assert (if held[i] then Some(0.0) else NearestHeld(s, held, i, |s|)) == Some(d);
    hide IsHeldAt, NearestHeld, Min;
  }

  lemma Eases(w: real, d: real, ease: real)
    requires d <= ease && ease > 0.0
    ensures var u := Min(1.0, d / ease); w * (u * u) * (ease * ease) == w * (d * d)
  {
    var q := d / ease;
    assert q * ease == d;
    SignOfProduct(1.0 - q, ease);
    assert (1.0 - q) * ease == ease - d;
    assert w * (q * q) * (ease * ease) == w * (q * ease) * (q * ease);
  }

  // The lane width is never under the minimum; where the free span has room for the minimum and
  // both margins it takes no more than the span less the margins; and it is as near the eased width as
  // that allows.
  lemma WidthIs(cfg: Config, s: seq<real>, i: nat, l: real, r: real)
    requires i < |s| && (cfg.pinch.Some? ==>
                         |cfg.pinch.value.hold| == |cfg.pinch.value.level| == |s| && cfg.pinch.value.ease > 0.0)
    ensures var w, span := WidthAt(cfg, s, i, l, r), l + r - 2.0 * cfg.margin;
            && w >= cfg.minWidth && (w <= span <==> cfg.minWidth <= span)
            && (w > Eased(cfg, s, i) ==> w == cfg.minWidth)
            && (cfg.minWidth <= Eased(cfg, s, i) <= span ==> w == Eased(cfg, s, i))
            && (cfg.minWidth <= span < Eased(cfg, s, i) ==> w == span)
  {
  }

  // Whether a point whose edges alone bound it has room to move: exactly when its width and both
  // its margins fit into the free span.
  lemma FeasibleExactly(cfg: Config, p: Point, n: Point, w: real, mg: real, l: real, r: real, half: real)
    ensures Low(cfg, p, n, w, mg, r, false, half) <= High(cfg, p, n, w, mg, l, false, half) <==> w + 2.0 * mg <= l + r
  {
  }

  // Which moves its limits allow: exactly those that keep both edges their margin inside the free space
  // and, where the cart is level with the pinch, its sides the band's margin off both faces.
  lemma AllowedExactly(cfg: Config, p: Point, n: Point, w: real, mg: real, l: real, r: real, banded: bool, half: real,
                       d: real)
    requires banded ==> cfg.pinch.Some? && cfg.pinch.value.band.Some? && n.y != 0.0
    ensures Low(cfg, p, n, w, mg, r, banded, half) <= d <= High(cfg, p, n, w, mg, l, banded, half) <==>
              && d + w / 2.0 + mg <= l && w / 2.0 - d + mg <= r
              && (banded ==> InBand(cfg.pinch.value.band.value, half, p.y + d * n.y))
  {
    if banded {
      var band := cfg.pinch.value.band.value;
      BandAt(band.lo + half + band.margin, band.hi - half - band.margin, p.y, n.y, d);
      hide AlongBand;
    }
  }

  // A cart whose centre is at height y keeps its sides the band's margin off both faces; in a band too
  // narrow for that, past both of them.
  ghost predicate InBand(band: Band, half: real, y: real) {
    var lo, hi := band.lo + half + band.margin, band.hi - half - band.margin;
    if lo <= hi then lo <= y <= hi else hi <= y <= lo
  }

  lemma BandAt(lo: real, hi: real, y: real, ny: real, d: real)
    requires ny != 0.0
    ensures var b0, b1 := AlongBand(lo, y, ny), AlongBand(hi, y, ny);
            Min(b0, b1) <= d <= Max(b0, b1) <==> if lo <= hi then lo <= y + d * ny <= hi else hi <= y + d * ny <= lo
  {
    AlongAt(lo, y, ny, d);
    AlongAt(hi, y, ny, d);
    hide AlongBand;
  }

  lemma AlongAt(v: real, y: real, ny: real, d: real)
    requires ny != 0.0
    ensures ny > 0.0 ==> (AlongBand(v, y, ny) <= d <==> v <= y + d * ny)
    ensures ny > 0.0 ==> (d <= AlongBand(v, y, ny) <==> y + d * ny <= v)
    ensures ny < 0.0 ==> (AlongBand(v, y, ny) <= d <==> y + d * ny <= v)
    ensures ny < 0.0 ==> (d <= AlongBand(v, y, ny) <==> v <= y + d * ny)
  {
    var b := AlongBand(v, y, ny);
    assert b * ny == v - y;
    if ny > 0.0 {
      SignOfProduct(d - b, ny);
      SignOfProduct(b - d, ny);
    } else {
      SignOfProduct(d - b, -ny);
      SignOfProduct(b - d, -ny);
    }
    assert (d - b) * ny == d * ny - (v - y);
  }

  // So where no override touches the margin that is exactly when the span has room for the minimum
  // width and the stretch's margins; and always then where the overrides do not raise it.
  lemma FeasibleBySpan(cfg: Config, s: seq<real>, i: nat, p: Point, n: Point, mg: real, l: real, r: real, half: real)
    requires i < |s| && (cfg.pinch.Some? ==>
                         |cfg.pinch.value.hold| == |cfg.pinch.value.level| == |s| && cfg.pinch.value.ease > 0.0)
    ensures var w := WidthAt(cfg, s, i, l, r);
            var fits := Low(cfg, p, n, w, mg, r, false, half) <= High(cfg, p, n, w, mg, l, false, half);
            && (mg == cfg.margin ==> (fits <==> cfg.minWidth + 2.0 * cfg.margin <= l + r))
            && (mg <= cfg.margin && cfg.minWidth + 2.0 * cfg.margin <= l + r ==> fits)
  {
    WidthIs(cfg, s, i, l, r);
    hide WidthAt;
    FeasibleExactly(cfg, p, n, WidthAt(cfg, s, i, l, r), mg, l, r, half);
  }

  // The margin after the first k overrides: a later one starts from the stretch's own margin
  // where it raises it, and from the margin so far where it caps it.
  function Overridden(cfg: Config, i: nat, k: nat): real
    requires k <= |cfg.overrides| && forall j :: 0 <= j < k ==> i < |cfg.overrides[j].at|
  {
    if k == 0 then cfg.margin
    else
      var o, m := cfg.overrides[k - 1], Overridden(cfg, i, k - 1);
      if !o.at[i] then m
      else
        var raised := if o.atLeast.Some? then Max(cfg.margin, o.atLeast.value) else m;
        if o.atMost.Some? then Min(raised, o.atMost.value) else raised
  }

  // The override at point i raises the margin.
  predicate RaisesAt(cfg: Config, i: nat, j: nat)
    requires j < |cfg.overrides| && i < |cfg.overrides[j].at|
  {
    cfg.overrides[j].at[i] && cfg.overrides[j].atLeast.Some?
  }

  predicate CapsAt(cfg: Config, i: nat, j: nat)
    requires j < |cfg.overrides| && i < |cfg.overrides[j].at|
  {
    cfg.overrides[j].at[i] && cfg.overrides[j].atMost.Some?
  }

  // One after the last of the first k overrides that raises the margin at i; 0 when none does.
  ghost function LastRaise(cfg: Config, i: nat, k: nat): (a: nat)
    requires k <= |cfg.overrides| && forall j :: 0 <= j < k ==> i < |cfg.overrides[j].at|
    ensures a <= k && (a > 0 ==> RaisesAt(cfg, i, a - 1)) && forall j :: a <= j < k ==> !RaisesAt(cfg, i, j)
  {
    if k == 0 then 0 else if RaisesAt(cfg, i, k - 1) then k else LastRaise(cfg, i, k - 1)
  }

  // Where the overrides start from at i: the last raise, or the stretch's margin.
  ghost function RaisedTo(cfg: Config, i: nat, k: nat): real
    requires k <= |cfg.overrides| && forall j :: 0 <= j < k ==> i < |cfg.overrides[j].at|
  {
    var a := LastRaise(cfg, i, k);
    if a == 0 then cfg.margin else Max(cfg.margin, cfg.overrides[a - 1].atLeast.value)
  }

  // A cap that still holds after the first k overrides: not one from before the last raise.
  predicate Survives(cfg: Config, i: nat, k: nat, a: nat, j: int)
    requires k <= |cfg.overrides| && forall j :: 0 <= j < k ==> i < |cfg.overrides[j].at|
  {
    0 <= j < k && j + 1 >= a && CapsAt(cfg, i, j)
  }

  // After the overrides the margin is the least of where the last raise put it and the caps that survive.
  lemma {:induction false} OverriddenIs(cfg: Config, i: nat, k: nat)
    requires k <= |cfg.overrides| && forall j :: 0 <= j < k ==> i < |cfg.overrides[j].at|
    ensures var m, a := Overridden(cfg, i, k), LastRaise(cfg, i, k);
            && m <= RaisedTo(cfg, i, k)
            && (forall j :: Survives(cfg, i, k, a, j) ==> m <= cfg.overrides[j].atMost.value)
            && (m == RaisedTo(cfg, i, k) || exists j :: Survives(cfg, i, k, a, j) && m == cfg.overrides[j].atMost.value)
  {
    if k > 0 {
      OverriddenIs(cfg, i, k - 1);
      var a, b := LastRaise(cfg, i, k - 1), LastRaise(cfg, i, k);
      var o, m := cfg.overrides[k - 1], Overridden(cfg, i, k - 1);
      if CapsAt(cfg, i, k - 1) { assert Survives(cfg, i, k, b, k - 1); }
      if !RaisesAt(cfg, i, k - 1) {
        assert a == b;
        assert forall j :: Survives(cfg, i, k - 1, a, j) ==> Survives(cfg, i, k, b, j);
        assert forall j :: Survives(cfg, i, k, b, j) ==> j == k - 1 || Survives(cfg, i, k - 1, a, j);
      } else {
        assert forall j :: Survives(cfg, i, k, b, j) ==> j == k - 1;
      }
    }
  }

  // A cap of 0.1 that a later raise to 0.4 undoes.
  lemma RaiseUndoesCap(cfg: Config)
    requires cfg.margin == 0.2
    requires cfg.overrides == [Override([true], None, Some(0.1)), Override([true], Some(0.4), None)]
    ensures Overridden(cfg, 0, 1) == 0.1 && Overridden(cfg, 0, 2) == 0.4
  {
    assert Overridden(cfg, 0, 0) == 0.2;
    assert Overridden(cfg, 0, 1) == 0.1;
  }

  // Beside the pinch its own cap comes last.
  predicate EdgeCapped(cfg: Config, i: nat)
    requires cfg.pinch.Some? ==> i < |cfg.pinch.value.level|
  {
    cfg.pinch.Some? && cfg.pinch.value.level[i] && cfg.pinch.value.edgeMargin.Some?
  }

  function MarginAt(cfg: Config, i: nat): real
    requires forall j :: 0 <= j < |cfg.overrides| ==> i < |cfg.overrides[j].at|
    requires cfg.pinch.Some? ==> i < |cfg.pinch.value.level|
  {
    var m := Overridden(cfg, i, |cfg.overrides|);
    if EdgeCapped(cfg, i) then Min(m, cfg.pinch.value.edgeMargin.value) else m
  }

  // The margin is the least of where the last raise put it, the caps that survive, and the pinch's.
  lemma MarginIs(cfg: Config, i: nat)
    requires forall j :: 0 <= j < |cfg.overrides| ==> i < |cfg.overrides[j].at|
    requires cfg.pinch.Some? ==> i < |cfg.pinch.value.level|
    ensures var m, k := MarginAt(cfg, i), |cfg.overrides|;
            var a := LastRaise(cfg, i, k);
            && m <= RaisedTo(cfg, i, k)
            && (forall j :: Survives(cfg, i, k, a, j) ==> m <= cfg.overrides[j].atMost.value)
            && (EdgeCapped(cfg, i) ==> m <= cfg.pinch.value.edgeMargin.value)
            && (|| m == RaisedTo(cfg, i, k)
                || (exists j :: Survives(cfg, i, k, a, j) && m == cfg.overrides[j].atMost.value)
                || (EdgeCapped(cfg, i) && m == cfg.pinch.value.edgeMargin.value))
  {
    OverriddenIs(cfg, i, |cfg.overrides|);
    hide Overridden, RaisedTo, LastRaise, Survives;
  }

  // So it keeps a value c exactly when the last raise does, a surviving cap does or the pinch's
  // does; a cap from before the last raise is no reason.
  lemma MarginKeeps(cfg: Config, i: nat, c: real)
    requires forall j :: 0 <= j < |cfg.overrides| ==> i < |cfg.overrides[j].at|
    requires cfg.pinch.Some? ==> i < |cfg.pinch.value.level|
    ensures var k := |cfg.overrides|;
            MarginAt(cfg, i) <= c <==>
              || RaisedTo(cfg, i, k) <= c
              || (exists j :: Survives(cfg, i, k, LastRaise(cfg, i, k), j) && cfg.overrides[j].atMost.value <= c)
              || (EdgeCapped(cfg, i) && cfg.pinch.value.edgeMargin.value <= c)
  {
    MarginIs(cfg, i);
    hide MarginAt, RaisedTo, LastRaise, Survives;
  }

  // The heights the cart's centre is held between.
  function CentreLow(band: Band, half: real): real {
    band.lo + half + band.margin
  }

  function CentreHigh(band: Band, half: real): real {
    band.hi - half - band.margin
  }

  predicate Banded(cfg: Config, i: nat)
    requires cfg.pinch.Some? ==> i < |cfg.pinch.value.level|
  {
    cfg.pinch.Some? && cfg.pinch.value.band.Some? && cfg.pinch.value.level[i]
  }

  // How far along the normal a height is.
  function AlongBand(v: real, y: real, ny: real): real
    requires ny != 0.0
  {
    (v - y) / ny
  }

  // How far the point may move along its normal: edges, then the band where the cart is level.
  function Low(cfg: Config, p: Point, n: Point, w: real, mg: real, r: real, banded: bool, half: real): real
    requires banded ==> cfg.pinch.Some? && cfg.pinch.value.band.Some? && n.y != 0.0
  {
    var lo := w / 2.0 + mg - r;
    if banded then
      var band := cfg.pinch.value.band.value;
      Max(lo, Min(AlongBand(CentreLow(band, half), p.y, n.y), AlongBand(CentreHigh(band, half), p.y, n.y)))
    else lo
  }

  function High(cfg: Config, p: Point, n: Point, w: real, mg: real, l: real, banded: bool, half: real): real
    requires banded ==> cfg.pinch.Some? && cfg.pinch.value.band.Some? && n.y != 0.0
  {
    var hi := l - w / 2.0 - mg;
    if banded then
      var band := cfg.pinch.value.band.value;
      Min(hi, Max(AlongBand(CentreLow(band, half), p.y, n.y), AlongBand(CentreHigh(band, half), p.y, n.y)))
    else hi
  }

  const LOOSE: real := 0.001
  const PINNED: real := 0.0001

  // Where a slice bound falls in a list of m: a negative one counts from the end.
  function SliceBound(m: nat, at: int): (i: nat)
    ensures i <= m
  {
    var k := if at < 0 then at + m else at;
    if k < 0 then 0 else if k > m then m else k
  }

  // In lb[:pin] or in lb[-pin:].
  predicate IsPinned(pin: int, m: nat, k: nat) {
    k < SliceBound(m, pin) || k >= SliceBound(m, -pin)
  }

  // Which points are pinned: that many at either end; all for 0; and for a negative pin all but as many
  // at the end, and again all but as many at the start.
  lemma PinnedAre(pin: int, m: nat, k: nat)
    requires k < m
    ensures pin > 0 ==> (IsPinned(pin, m, k) <==> k < pin || k >= m - pin)
    ensures pin == 0 ==> IsPinned(pin, m, k)
    ensures pin < 0 ==> (IsPinned(pin, m, k) <==> k < m + pin || k >= -pin)
  {
  }

  // Exactly when a stretch has a point that is not pinned.  A pin of 0 leaves none: its second
  // slice is the whole stretch.
  lemma SomePointFree(pin: int, m: nat)
    requires m >= 1
    ensures (exists k: nat :: k < m && !IsPinned(pin, m, k)) <==> (pin > 0 && 2 * pin < m) || (pin < 0 && m < -2 * pin)
  {
    if pin > 0 && 2 * pin < m {
      assert !IsPinned(pin, m, pin);
    } else if pin < 0 && m < -2 * pin {
      assert !IsPinned(pin, m, SliceBound(m, pin));
    }
  }

  function LowerBound(lo: real, hi: real, pinned: bool): real {
    if pinned then -PINNED
    else if lo > hi then Min((lo + hi) / 2.0 - LOOSE, (lo + hi) / 2.0 + LOOSE - LOOSE)
    else Min(lo, hi - LOOSE)
  }

  function UpperBound(lo: real, hi: real, pinned: bool): real {
    if pinned then PINNED
    else if lo > hi then (lo + hi) / 2.0 + LOOSE
    else hi
  }

  datatype Bounds = Bounds(first: nat, l: seq<real>, r: seq<real>, w: seq<real>, mg: seq<real>,
                           lo: seq<real>, hi: seq<real>, lb: seq<real>, ub: seq<real>)

  // The ring, its normals and arc lengths, the input widths, and half the cart's width.
  datatype Ring = Ring(p: seq<Point>, n: seq<Point>, s: seq<real>, w: seq<real>, half: real)

  ghost predicate IsRing(ring: Ring) {
    |ring.p| == |ring.n| == |ring.s| == |ring.w|
  }

  function Opposite(n: seq<Point>): (m: seq<Point>)
    ensures |m| == |n| && forall i :: 0 <= i < |n| ==> m[i] == Point(-n[i].x, -n[i].y)
  {
    seq(|n|, i requires 0 <= i < |n| => Point(-n[i].x, -n[i].y))
  }

  ghost predicate AreSides(g: Grid, ring: Ring, cfg: Config, l: seq<real>, r: seq<real>)
    requires g.cell > 0.0 && IsRing(ring)
  {
    && |l| == |r| == |ring.p|
    && forall i :: 0 <= i < |ring.p| ==>
         && IsFreeSpace(g, ring.p[i], ring.n[i], cfg.reach, ROW_STEP, cfg.strip, l[i])
         && IsFreeSpace(g, ring.p[i], Opposite(ring.n)[i], cfg.reach, ROW_STEP, cfg.strip, r[i])
  }

  ghost predicate AreLimits(ring: Ring, cfg: Config, m: nat, b: Bounds)
    requires IsRing(ring) && IsConfig(cfg, ring.n)
  {
    && b.first + m <= |ring.p| && |b.l| == |b.r| == |b.w| == |b.mg| == |b.lo| == |b.hi| == |ring.p|
    && forall i :: b.first <= i < b.first + m ==>
         && b.lo[i] == Low(cfg, ring.p[i], ring.n[i], b.w[i], b.mg[i], b.r[i], Banded(cfg, i), ring.half)
         && b.hi[i] == High(cfg, ring.p[i], ring.n[i], b.w[i], b.mg[i], b.l[i], Banded(cfg, i), ring.half)
  }

  // What the bounds of a stretch of m points starting at first are, point by point.
  ghost predicate AreBounds(g: Grid, ring: Ring, cfg: Config, m: nat, b: Bounds)
    requires g.cell > 0.0 && IsRing(ring) && IsConfig(cfg, ring.n)
  {
    && AreSides(g, ring, cfg, b.l, b.r) && AreLimits(ring, cfg, m, b) && |b.lb| == |b.ub| == m
    && (forall i :: 0 <= i < |ring.p| ==>
          b.w[i] == if b.first <= i < b.first + m then WidthAt(cfg, ring.s, i, b.l[i], b.r[i]) else ring.w[i])
    && (forall i :: 0 <= i < |ring.p| ==> b.mg[i] == MarginAt(cfg, i))
    && (forall k :: 0 <= k < m ==>
          && b.lb[k] == LowerBound(b.lo[b.first + k], b.hi[b.first + k], IsPinned(cfg.pin, m, k))
          && b.ub[k] == UpperBound(b.lo[b.first + k], b.hi[b.first + k], IsPinned(cfg.pin, m, k)))
  }

  // ---- the loops ----

  method Widths(cfg: Config, s: seq<real>, first: nat, end: nat, input: seq<real>, l: seq<real>, r: seq<real>)
    returns (w: seq<real>)
    requires |s| == |input| == |l| == |r| && first <= end <= |s|
    requires cfg.pinch.Some? ==> |cfg.pinch.value.hold| == |cfg.pinch.value.level| == |s| && cfg.pinch.value.ease > 0.0
    ensures |w| == |s|
    ensures forall i :: 0 <= i < |s| ==> w[i] == if first <= i < end then WidthAt(cfg, s, i, l[i], r[i]) else input[i]
  {
    w := input;
    for i := first to end
      invariant |w| == |s|
      invariant forall k :: 0 <= k < |s| && !(first <= k < end) ==> w[k] == input[k]
      invariant forall k :: first <= k < i ==> w[k] == Eased(cfg, s, k)
    {
      w := w[i := Eased(cfg, s, i)];
    }
    for i := first to end
      invariant |w| == |s|
      invariant forall k :: 0 <= k < |s| && !(first <= k < end) ==> w[k] == input[k]
      invariant forall k :: first <= k < i ==> w[k] == WidthAt(cfg, s, k, l[k], r[k])
      invariant forall k :: i <= k < end ==> w[k] == Eased(cfg, s, k)
    {
      w := w[i := Max(cfg.minWidth, Min(w[i], l[i] + r[i] - 2.0 * cfg.margin))];
    }
  }

  method Margins(cfg: Config, n: seq<Point>) returns (mg: seq<real>)
    requires IsConfig(cfg, n)
    ensures |mg| == |n| && forall i :: 0 <= i < |n| ==> mg[i] == MarginAt(cfg, i)
  {
    mg := seq(|n|, i => cfg.margin);
    for k := 0 to |cfg.overrides|
      invariant |mg| == |n| && forall i :: 0 <= i < |n| ==> mg[i] == Overridden(cfg, i, k)
    {
      var o := cfg.overrides[k];
      if o.atLeast.Some? {
        mg := seq(|n|, i requires 0 <= i < |n| => if o.at[i] then Max(cfg.margin, o.atLeast.value) else mg[i]);
      }
      if o.atMost.Some? {
        mg := seq(|n|, i requires 0 <= i < |n| => if o.at[i] then Min(mg[i], o.atMost.value) else mg[i]);
      }
    }
    if cfg.pinch.Some? && cfg.pinch.value.edgeMargin.Some? {
      var pinch := cfg.pinch.value;
      mg := seq(|n|, i requires 0 <= i < |n| => if pinch.level[i] then Min(mg[i], pinch.edgeMargin.value) else mg[i]);
    }
  }

  method Sides(g: Grid, ring: Ring, cfg: Config) returns (l: seq<real>, r: seq<real>)
    requires g.cell > 0.0 && IsRing(ring)
    ensures AreSides(g, ring, cfg, l, r)
  {
    hide IsFreeSpace;
    l := FreeSpace(g, ring.p, ring.n, cfg.reach, ROW_STEP, cfg.strip);
    r := FreeSpace(g, ring.p, Opposite(ring.n), cfg.reach, ROW_STEP, cfg.strip);
  }

  // The bounds of the stretch [first, end), ready for the solver.
  method RefineBounds(g: Grid, ring: Ring, cfg: Config, first: nat, end: nat) returns (b: Bounds)
    requires g.cell > 0.0 && IsRing(ring) && IsConfig(cfg, ring.n) && first < end <= |ring.p|
    ensures b.first == first && AreBounds(g, ring, cfg, end - first, b)
  {
    hide IsFreeSpace, WidthAt, MarginAt, Low, High, LowerBound, UpperBound, IsPinned;
    var count, m := |ring.p|, end - first;
    var l, r := Sides(g, ring, cfg);
    var w := Widths(cfg, ring.s, first, end, ring.w, l, r);
    var mg := Margins(cfg, ring.n);
    hide AreSides;
    var lo := seq(count, i requires 0 <= i < count =>
      Low(cfg, ring.p[i], ring.n[i], w[i], mg[i], r[i], Banded(cfg, i), ring.half));
    var hi := seq(count, i requires 0 <= i < count =>
      High(cfg, ring.p[i], ring.n[i], w[i], mg[i], l[i], Banded(cfg, i), ring.half));
    var lb := seq(m, k requires 0 <= k < m => LowerBound(lo[first + k], hi[first + k], IsPinned(cfg.pin, m, k)));
    var ub := seq(m, k requires 0 <= k < m => UpperBound(lo[first + k], hi[first + k], IsPinned(cfg.pin, m, k)));
    b := Bounds(first, l, r, w, mg, lo, hi, lb, ub);
  }

  // ---- what the solver's answer keeps ----

  // No interval handed to the solver is empty, and none is loosened by more than a millimetre
  // at its lower end, nor at all when it is that long.
  lemma IntervalsNonEmpty(lo: real, hi: real, pinned: bool)
    ensures LowerBound(lo, hi, pinned) < UpperBound(lo, hi, pinned)
    ensures !pinned && lo <= hi ==> lo - LOOSE <= LowerBound(lo, hi, pinned) <= lo && UpperBound(lo, hi, pinned) == hi
    ensures !pinned && lo + LOOSE <= hi ==> LowerBound(lo, hi, pinned) == lo
    ensures !pinned && lo > hi ==> LowerBound(lo, hi, pinned) == (lo + hi) / 2.0 - LOOSE
                                   && UpperBound(lo, hi, pinned) == (lo + hi) / 2.0 + LOOSE
    ensures pinned ==> LowerBound(lo, hi, pinned) == -0.0001 && UpperBound(lo, hi, pinned) == 0.0001
  {
  }

  // A point nobody pinned, whose bounds could be met, moved by d within them.
  ghost predicate IsMoved(ring: Ring, cfg: Config, m: nat, b: Bounds, k: nat, d: real)
    requires IsRing(ring) && IsConfig(cfg, ring.n)
  {
    var i := b.first + k;
    && k < m == |b.lb| == |b.ub| && i < |ring.p| == |b.l| == |b.r| == |b.w| == |b.mg| == |b.lo| == |b.hi|
    && b.lo[i] == Low(cfg, ring.p[i], ring.n[i], b.w[i], b.mg[i], b.r[i], Banded(cfg, i), ring.half)
    && b.hi[i] == High(cfg, ring.p[i], ring.n[i], b.w[i], b.mg[i], b.l[i], Banded(cfg, i), ring.half)
    && b.lo[i] <= b.hi[i] && LowerBound(b.lo[i], b.hi[i], false) <= d <= UpperBound(b.lo[i], b.hi[i], false)
  }

  // Any vector within the bounds of a stretch moves each such point so.
  lemma MovedInBounds(g: Grid, ring: Ring, cfg: Config, m: nat, b: Bounds, k: nat, d: real)
    requires g.cell > 0.0 && IsRing(ring) && IsConfig(cfg, ring.n) && AreBounds(g, ring, cfg, m, b)
    requires k < m && !IsPinned(cfg.pin, m, k) && b.lo[b.first + k] <= b.hi[b.first + k] && b.lb[k] <= d <= b.ub[k]
    ensures IsMoved(ring, cfg, m, b, k, d)
    ensures var i := b.first + k;
            && IsFreeSpace(g, ring.p[i], ring.n[i], cfg.reach, ROW_STEP, cfg.strip, b.l[i])
            && IsFreeSpace(g, ring.p[i], Opposite(ring.n)[i], cfg.reach, ROW_STEP, cfg.strip, b.r[i])
  {
    hide IsFreeSpace, WidthAt, MarginAt, Low, High, LowerBound, UpperBound, IsPinned;
  }

  // Both edges stay their margin short of the free space, less a millimetre on the right.
  lemma EdgesKeepMargin(ring: Ring, cfg: Config, m: nat, b: Bounds, k: nat, d: real)
    requires IsRing(ring) && IsConfig(cfg, ring.n) && IsMoved(ring, cfg, m, b, k, d)
    ensures var i := b.first + k;
            d + b.w[i] / 2.0 + b.mg[i] <= b.l[i] && b.w[i] / 2.0 - d + b.mg[i] <= b.r[i] + LOOSE
  {
    hide Low, High, LowerBound, UpperBound;
    var i := b.first + k;
    IntervalsNonEmpty(b.lo[i], b.hi[i], false);
    EdgeLimits(cfg, ring.p[i], ring.n[i], b.w[i], b.mg[i], b.l[i], b.r[i], Banded(cfg, i), ring.half);
  }

  // The band only narrows what the edges allow.
  lemma EdgeLimits(cfg: Config, p: Point, n: Point, w: real, mg: real, l: real, r: real, banded: bool, half: real)
    requires banded ==> cfg.pinch.Some? && cfg.pinch.value.band.Some? && n.y != 0.0
    ensures Low(cfg, p, n, w, mg, r, banded, half) >= w / 2.0 + mg - r
    ensures High(cfg, p, n, w, mg, l, banded, half) <= l - w / 2.0 - mg
  {
  }

  // Where the cart is not level with the pinch, the overrides do not raise the margin and the free
  // span has room for the minimum width and the stretch's margins, that holds of every point that
  // is not pinned, for any solver vector within the bounds.
  lemma RoomyPointKeepsMargin(g: Grid, ring: Ring, cfg: Config, m: nat, b: Bounds, k: nat, d: real)
    requires g.cell > 0.0 && IsRing(ring) && IsConfig(cfg, ring.n) && AreBounds(g, ring, cfg, m, b)
    requires k < m && !IsPinned(cfg.pin, m, k) && b.lb[k] <= d <= b.ub[k]
    requires !Banded(cfg, b.first + k) && b.mg[b.first + k] <= cfg.margin
    requires cfg.minWidth + 2.0 * cfg.margin <= b.l[b.first + k] + b.r[b.first + k]
    ensures var i := b.first + k;
            d + b.w[i] / 2.0 + b.mg[i] <= b.l[i] && b.w[i] / 2.0 - d + b.mg[i] <= b.r[i] + LOOSE
  {
    hide IsFreeSpace, WidthAt, MarginAt, Low, High, LowerBound, UpperBound, IsPinned, IsMoved;
    var i := b.first + k;
    FeasibleBySpan(cfg, ring.s, i, ring.p[i], ring.n[i], b.mg[i], b.l[i], b.r[i], ring.half);
    MovedInBounds(g, ring, cfg, m, b, k, d);
    EdgesKeepMargin(ring, cfg, m, b, k, d);
  }

  // So no row of the strip that the margin reaches past either edge has a point in an occupied cell:
  // to the left of the moved centre, and to its right.
  lemma RowsBesideEdgesFree(g: Grid, ring: Ring, cfg: Config, m: nat, b: Bounds, k: nat, d: real, r: real, q: Point)
    requires g.cell > 0.0 && IsRing(ring) && IsConfig(cfg, ring.n) && AreBounds(g, ring, cfg, m, b)
    requires k < m && !IsPinned(cfg.pin, m, k) && b.lo[b.first + k] <= b.hi[b.first + k] && b.lb[k] <= d <= b.ub[k]
    requires IsUnit(ring.n[b.first + k]) && IsRow(cfg.reach, ROW_STEP, r)
    ensures var i := b.first + k;
            var out, across := Out(ring.p[i], ring.n[i], q), Across(ring.p[i], ring.n[i], q);
            && (r < d + b.w[i] / 2.0 + b.mg[i] && out == r && IsOffset(cfg.strip, across) ==> !InOccupied(g, q))
            && (r < b.w[i] / 2.0 - d + b.mg[i] - LOOSE && out == -r && IsOffset(cfg.strip, -across) ==>
                  !InOccupied(g, q))
  {
    hide IsFreeSpace, WidthAt, MarginAt, IsMoved, InOccupied, IsUnit, IsRow, IsOffset, Out, Across;
    var i := b.first + k;
    MovedInBounds(g, ring, cfg, m, b, k, d);
    EdgesKeepMargin(ring, cfg, m, b, k, d);
    var n, back := ring.n[i], Opposite(ring.n)[i];
    TurnedRound(ring.p[i], n, back, q);
    FreeSpaceIs(g, ring.p[i], n, cfg.reach, ROW_STEP, cfg.strip, b.l[i]);
    FreeSpaceIs(g, ring.p[i], back, cfg.reach, ROW_STEP, cfg.strip, b.r[i]);
    assert Out(ring.p[i], n, q) == r && IsOffset(cfg.strip, Across(ring.p[i], n, q)) ==>
        IsRowPoint(ring.p[i], n, cfg.strip, r, q);
    assert Out(ring.p[i], back, q) == r && IsOffset(cfg.strip, Across(ring.p[i], back, q)) ==>
        IsRowPoint(ring.p[i], back, cfg.strip, r, q);
  }

  lemma RowsNotHit(g: Grid, ring: Ring, cfg: Config, m: nat, b: Bounds, k: nat, d: real, j: nat)
    requires g.cell > 0.0 && IsRing(ring) && IsConfig(cfg, ring.n) && AreBounds(g, ring, cfg, m, b)
    requires k < m && !IsPinned(cfg.pin, m, k) && b.lo[b.first + k] <= b.hi[b.first + k] && b.lb[k] <= d <= b.ub[k]
    requires j < RowCount(cfg.reach, ROW_STEP)
    ensures var i := b.first + k;
            && (RowAt(ROW_STEP, j) < d + b.w[i] / 2.0 + b.mg[i] ==>
                  !RowHit(g, ring.p[i], ring.n[i], cfg.strip, ROW_STEP, j))
            && (RowAt(ROW_STEP, j) < b.w[i] / 2.0 - d + b.mg[i] - LOOSE ==>
                  !RowHit(g, ring.p[i], Opposite(ring.n)[i], cfg.strip, ROW_STEP, j))
  {
    hide IsFreeSpace, WidthAt, MarginAt, RowHit, RowAt, RowCount, IsMoved;
    var i := b.first + k;
    MovedInBounds(g, ring, cfg, m, b, k, d);
    EdgesKeepMargin(ring, cfg, m, b, k, d);
    if RowAt(ROW_STEP, j) < b.l[i] {
      NearerRowsFree(g, ring.p[i], ring.n[i], cfg.reach, ROW_STEP, cfg.strip, b.l[i], j);
    }
    if RowAt(ROW_STEP, j) < b.r[i] {
      NearerRowsFree(g, ring.p[i], Opposite(ring.n)[i], cfg.reach, ROW_STEP, cfg.strip, b.r[i], j);
    }
  }

  lemma TurnedRound(p: Point, n: Point, back: Point, q: Point)
    requires back == Point(-n.x, -n.y)
    ensures Out(p, back, q) == -Out(p, n, q) && Across(p, back, q) == -Across(p, n, q)
    ensures IsUnit(n) ==> IsUnit(back)
  {
  }

  // Where the cart is level with the pinch its centre stays in the band, by the same
  // millimetre; a band narrower than the cart and its margins is read upside down.
  lemma CentreStaysInBand(ring: Ring, cfg: Config, m: nat, b: Bounds, k: nat, d: real)
    requires IsRing(ring) && IsConfig(cfg, ring.n) && IsMoved(ring, cfg, m, b, k, d)
    requires cfg.pinch.Some? && cfg.pinch.value.band.Some? && cfg.pinch.value.level[b.first + k]
    requires Abs(ring.n[b.first + k].y) <= 1.0
    ensures var i, band := b.first + k, cfg.pinch.value.band.value;
            var lo, hi := band.lo + ring.half + band.margin, band.hi - ring.half - band.margin;
            Min(lo, hi) - LOOSE <= ring.p[i].y + d * ring.n[i].y <= Max(lo, hi) + LOOSE
  {
    hide Low, High, AlongBand, LowerBound, UpperBound, Min, Max;
    var i, band := b.first + k, cfg.pinch.value.band.value;
    assert b.lo[i] == Low(cfg, ring.p[i], ring.n[i], b.w[i], b.mg[i], b.r[i], true, ring.half);
    assert b.hi[i] == High(cfg, ring.p[i], ring.n[i], b.w[i], b.mg[i], b.l[i], true, ring.half);
    IntervalsNonEmpty(b.lo[i], b.hi[i], false);
    BandLimits(cfg, ring.p[i], ring.n[i], b.w[i], b.mg[i], b.l[i], b.r[i], ring.half);
    BandAlongNormal(CentreLow(band, ring.half), CentreHigh(band, ring.half), ring.p[i].y, ring.n[i].y, d);
  }

  lemma BandLimits(cfg: Config, p: Point, n: Point, w: real, mg: real, l: real, r: real, half: real)
    requires cfg.pinch.Some? && cfg.pinch.value.band.Some? && n.y != 0.0
    ensures var band := cfg.pinch.value.band.value;
            var b0, b1 := AlongBand(CentreLow(band, half), p.y, n.y), AlongBand(CentreHigh(band, half), p.y, n.y);
            Low(cfg, p, n, w, mg, r, true, half) >= Min(b0, b1) && High(cfg, p, n, w, mg, l, true, half) <= Max(b0, b1)
  {
    hide CentreLow, CentreHigh, AlongBand;
    var band := cfg.pinch.value.band.value;
    var b0, b1 := AlongBand(CentreLow(band, half), p.y, n.y), AlongBand(CentreHigh(band, half), p.y, n.y);
    assert Low(cfg, p, n, w, mg, r, true, half) == Max(w / 2.0 + mg - r, Min(b0, b1));
    assert High(cfg, p, n, w, mg, l, true, half) == Min(l - w / 2.0 - mg, Max(b0, b1));
  }

  lemma BandAlongNormal(lo: real, hi: real, y: real, ny: real, d: real)
    requires ny != 0.0 && Abs(ny) <= 1.0
    requires Min(AlongBand(lo, y, ny), AlongBand(hi, y, ny)) - LOOSE <= d
    requires d <= Max(AlongBand(lo, y, ny), AlongBand(hi, y, ny))
    ensures Min(lo, hi) - LOOSE <= y + d * ny <= Max(lo, hi) + LOOSE
  {
    var b0, b1 := AlongBand(lo, y, ny), AlongBand(hi, y, ny);
    assert b0 * ny == lo - y && b1 * ny == hi - y;
    var low, high := Min(b0, b1), Max(b0, b1);
    if ny > 0.0 {
      ProductSign(high - d, ny);
      ProductSign(d - low + LOOSE, ny);
      ProductSign(LOOSE, 1.0 - ny);
      OrderKept(b0, b1, ny);
    } else {
      ProductSign(high - d, -ny);
      ProductSign(d - low + LOOSE, -ny);
      ProductSign(LOOSE, 1.0 + ny);
      OrderKept(b0, b1, -ny);
    }
  }

  lemma OrderKept(a: real, b: real, c: real)
    requires c > 0.0
    ensures a <= b <==> a * c <= b * c
  {
    SignOfProduct(b - a, c);
    assert (b - a) * c == b * c - a * c;
  }
}
