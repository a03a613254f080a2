// The distance from an obstacle cell's square to the lane's edges
// (scripts/map/check_lane_clearance.py), squared, and the proof that it is exact.

module SquareDistance {
  import opened Planar
  import Minimum

  // ---- the formulas ----

  function Dot(p: Point, a: Point, b: Point): real {
    (p.x - a.x) * (b.x - a.x) + (p.y - a.y) * (b.y - a.y)
  }

  // How far along a -> b the point nearest to p lies; 0 for a degenerate segment.
  function Foot(p: Point, a: Point, b: Point): real {
    Fraction(Dot(p, a, b), Dist2(b, a))
  }

  function Fraction(g: real, ll: real): real {
    Clamp(if ll > 0.0 then g / ll else 0.0, 0.0, 1.0)
  }

  function PointSegment2(p: Point, a: Point, b: Point): real {
    Dist2(p, Along(a, b, Foot(p, a, b)))
  }

  function Excess(v: real, c: real, h: real): real {
    Max(Abs(v - c) - h, 0.0)
  }

  function ToSquare2(p: Point, c: Point, h: real): real {
    Excess(p.x, c.x, h) * Excess(p.x, c.x, h) + Excess(p.y, c.y, h) * Excess(p.y, c.y, h)
  }

  // The corners in the order the source visits them.
  function Corner(c: Point, h: real, i: nat): Point
    requires i < 4
  {
    Point(if i < 2 then c.x - h else c.x + h, if i % 2 == 0 then c.y - h else c.y + h)
  }

  // Which side of the line a -> b the point p is on.
  function Side(p: Point, a: Point, b: Point): real {
    (b.x - a.x) * (p.y - a.y) - (b.y - a.y) * (p.x - a.x)
  }

  function Least4(s: seq<real>): real
    requires |s| == 4
  {
    Min(Min(Min(s[0], s[1]), s[2]), s[3])
  }

  function Greatest4(s: seq<real>): real
    requires |s| == 4
  {
    Max(Max(Max(s[0], s[1]), s[2]), s[3])
  }

  function Sides(c: Point, h: real, a: Point, b: Point): (s: seq<real>)
    ensures |s| == 4
    ensures forall i: nat :: i < 4 ==> s[i] == Side(Corner(c, h, i), a, b)
  {
    [Side(Corner(c, h, 0), a, b), Side(Corner(c, h, 1), a, b),
     Side(Corner(c, h, 2), a, b), Side(Corner(c, h, 3), a, b)]
  }

  predicate Straddles(c: Point, h: real, a: Point, b: Point) {
    Least4(Sides(c, h, a, b)) <= 0.0 && Greatest4(Sides(c, h, a, b)) >= 0.0
  }

  predicate Overlaps(c: Point, h: real, a: Point, b: Point) {
    && Min(a.x, b.x) <= c.x + h && Max(a.x, b.x) >= c.x - h
    && Min(a.y, b.y) <= c.y + h && Max(a.y, b.y) >= c.y - h
  }

  ghost predicate Meets(c: Point, h: real, a: Point, b: Point) {
    exists q: Point :: InSquare(q, c, h) && OnSegment(q, a, b)
  }

  // ---- points and segments, points and squares ----

  lemma PointSegmentNearest(p: Point, a: Point, b: Point, t: real)
    requires 0.0 <= t <= 1.0
    ensures PointSegment2(p, a, b) <= Dist2(p, Along(a, b, t))
  {
    hide Along, Dist2, Dot, Fraction;
    var ll, g, f := Dist2(b, a), Dot(p, a, b), Foot(p, a, b);
    DistAlong(p, a, b, t);
    DistAlong(p, a, b, f);
    Dist2Sign(b, a);
    if ll > 0.0 {
      FootIsBest(ll, g, f, t);
    } else {
      DotWithZero(p, a);
    }
  }

  lemma DistAlong(p: Point, a: Point, b: Point, t: real)
    ensures Dist2(p, Along(a, b, t)) == Dist2(p, a) - 2.0 * t * Dot(p, a, b) + t * t * Dist2(b, a)
  {
    hide Dist2, Dot, Quadratic, Along;
    ByCoordinates(p, a, b, t);
    Collect(p, a, b, t);
  }

  function Quadratic(u: real, d: real, t: real): real {
    u * u - 2.0 * t * (u * d) + t * t * (d * d)
  }

  lemma ByCoordinates(p: Point, a: Point, b: Point, t: real)
    ensures Dist2(p, Along(a, b, t)) == Quadratic(p.x - a.x, b.x - a.x, t) + Quadratic(p.y - a.y, b.y - a.y, t)
  {
    hide Lerp, Quadratic;
    OneCoordinate(p.x, a.x, b.x, t);
    OneCoordinate(p.y, a.y, b.y, t);
  }

  lemma OneCoordinate(p: real, a: real, b: real, t: real)
    ensures (p - Lerp(a, b, t)) * (p - Lerp(a, b, t)) == Quadratic(p - a, b - a, t)
  {
  }

  lemma Collect(p: Point, a: Point, b: Point, t: real)
    ensures Quadratic(p.x - a.x, b.x - a.x, t) + Quadratic(p.y - a.y, b.y - a.y, t)
         == Dist2(p, a) - 2.0 * t * Dot(p, a, b) + t * t * Dist2(b, a)
  {
  }

  lemma DotWithZero(p: Point, a: Point)
    ensures Dot(p, a, a) == 0.0
  {
  }

  lemma FootIsBest(ll: real, g: real, f: real, t: real)
    requires ll > 0.0 && f == Fraction(g, ll) && 0.0 <= t <= 1.0
    ensures f * f * ll - 2.0 * f * g <= t * t * ll - 2.0 * t * g
  {
    var s := g / ll;
    assert g == s * ll;
    var e := (t - f) * (t + f - 2.0 * s);
    assert e >= 0.0 by {
      if s < 0.0 {
        ProductSign(t, t - 2.0 * s);
      } else if s > 1.0 {
        ProductSign(1.0 - t, 2.0 * s - 1.0 - t);
      } else {
        SquareSign(t - s);
        assert e == (t - s) * (t - s);
      }
    }
    ProductSign(e, ll);
    assert e * ll == (t * t * ll - 2.0 * t * (s * ll)) - (f * f * ll - 2.0 * f * (s * ll));
  }

  lemma ExcessNearest(v: real, c: real, h: real, w: real)
    requires h >= 0.0 && c - h <= w <= c + h
    ensures Excess(v, c, h) * Excess(v, c, h) <= (v - w) * (v - w)
    ensures var n := Clamp(v, c - h, c + h);
            Excess(v, c, h) * Excess(v, c, h) == (v - n) * (v - n)
  {
    MonotoneSquare(Excess(v, c, h), Abs(v - w));
  }

  function NearestInSquare(p: Point, c: Point, h: real): Point {
    Point(Clamp(p.x, c.x - h, c.x + h), Clamp(p.y, c.y - h, c.y + h))
  }

  lemma ToSquareNearest(p: Point, c: Point, h: real, q: Point)
    requires h >= 0.0 && InSquare(q, c, h)
    ensures ToSquare2(p, c, h) <= Dist2(p, q)
    ensures InSquare(NearestInSquare(p, c, h), c, h)
    ensures Dist2(p, NearestInSquare(p, c, h)) == ToSquare2(p, c, h)
  {
    hide Excess;
    ExcessNearest(p.x, c.x, h, q.x);
    ExcessNearest(p.y, c.y, h, q.y);
  }

  // ---- the crossing test ----

  lemma SideAlong(u: Point, v: Point, a: Point, b: Point, t: real)
    ensures Side(Along(u, v, t), a, b) == Lerp(Side(u, a, b), Side(v, a, b), t)
  {
    var dx, dy := b.x - a.x, b.y - a.y;
    assert t * (dx * (v.y - u.y) - dy * (v.x - u.x)) == dx * (t * (v.y - u.y)) - dy * (t * (v.x - u.x));
  }

  // A square whose corners are not all strictly on one side of a line has a point on it.
  lemma LineMeetsSquare(c: Point, h: real, a: Point, b: Point) returns (p: Point)
    requires h >= 0.0 && Straddles(c, h, a, b)
    ensures InSquare(p, c, h) && Side(p, a, b) == 0.0
  {
    hide Side, Along;
    var s := Sides(c, h, a, b);
    var i := if s[0] <= 0.0 then 0 else if s[1] <= 0.0 then 1 else if s[2] <= 0.0 then 2 else 3;
    var j := if s[0] >= 0.0 then 0 else if s[1] >= 0.0 then 1 else if s[2] >= 0.0 then 2 else 3;
    var u, v := Corner(c, h, i), Corner(c, h, j);
    var t := Intermediate(s[i], s[j], 0.0);
    p := Along(u, v, t);
    SideAlong(u, v, a, b, t);
    AlongSquare(u, v, t, c, h);
  }

  // A point on the line through two distinct points is a combination of them.
  lemma LineParameter(p: Point, a: Point, b: Point) returns (t: real)
    requires a != b && Side(p, a, b) == 0.0
    ensures p == Along(a, b, t)
  {
    var dx, dy, ux, uy := b.x - a.x, b.y - a.y, p.x - a.x, p.y - a.y;
    assert dx * uy == dy * ux;
    if dx != 0.0 {
      t := ux / dx;
      assert t * dx == ux;
      assert dx * (uy - t * dy) == 0.0;
      assert uy - t * dy == 0.0;
    } else {
      t := uy / dy;
      assert t * dy == uy;
      assert dy * ux == 0.0;
    }
  }

  // An interval that overlaps the values between f0 and f1 is reached on the way.
  lemma Reaches(f0: real, f1: real, lo: real, hi: real) returns (t: real)
    requires lo <= hi && Min(f0, f1) <= hi && Max(f0, f1) >= lo
    ensures 0.0 <= t <= 1.0 && lo <= Lerp(f0, f1, t) <= hi
  {
    if lo <= f0 <= hi {
      t := 0.0;
    } else if f0 < lo {
      t := Intermediate(f0, f1, lo);
    } else {
      t := Intermediate(f0, f1, hi);
    }
  }

  // Three intervals that meet pairwise meet: [0, 1], the parameters whose x is in the
  // square's range, and those whose y is.
  lemma CommonParameter(a: Point, b: Point, c: Point, h: real, tx: real, ty: real, t0: real) returns (t: real)
    requires 0.0 <= tx <= 1.0 && c.x - h <= Along(a, b, tx).x <= c.x + h
    requires 0.0 <= ty <= 1.0 && c.y - h <= Along(a, b, ty).y <= c.y + h
    requires InSquare(Along(a, b, t0), c, h)
    ensures 0.0 <= t <= 1.0 && InSquare(Along(a, b, t), c, h)
  {
    hide Lerp;
    t := if t0 < 0.0 then Min(tx, ty) else if t0 > 1.0 then Max(tx, ty) else t0;
    LerpConvex(a.x, b.x, tx, t, t0, c.x - h, c.x + h);
    LerpConvex(a.y, b.y, ty, t, t0, c.y - h, c.y + h);
  }

  lemma CrossingMeets(c: Point, h: real, a: Point, b: Point)
    requires h >= 0.0 && Straddles(c, h, a, b) && Overlaps(c, h, a, b)
    ensures Meets(c, h, a, b)
  {
    hide Lerp, Side, Straddles;
    var tx := Reaches(a.x, b.x, c.x - h, c.x + h);
    var ty := Reaches(a.y, b.y, c.y - h, c.y + h);
    var t := tx;
    if a == b {
      LerpBetween(a.x, b.x, tx);
      LerpBetween(a.y, b.y, tx);
    } else {
      var p := LineMeetsSquare(c, h, a, b);
      var t0 := LineParameter(p, a, b);
      t := CommonParameter(a, b, c, h, tx, ty, t0);
    }
    var q := Along(a, b, t);
    assert InSquare(q, c, h) && OnSegment(q, a, b);
  }

  lemma MeetsCrosses(c: Point, h: real, a: Point, b: Point)
    requires h >= 0.0 && Meets(c, h, a, b)
    ensures Straddles(c, h, a, b) && Overlaps(c, h, a, b)
  {
    hide Lerp, Straddles;
    var q :| InSquare(q, c, h) && OnSegment(q, a, b);
    var t: real :| 0.0 <= t <= 1.0 && q == Along(a, b, t);
    LerpBetween(a.x, b.x, t);
    LerpBetween(a.y, b.y, t);
    SideOnSegment(a, b, t);
    ExtremeCorners(c, h, a, b, q);
  }

  lemma SideOnSegment(a: Point, b: Point, t: real)
    ensures Side(Along(a, b, t), a, b) == 0.0
  {
    var dx, dy := b.x - a.x, b.y - a.y;
    assert dx * (t * dy) == dy * (t * dx);
  }

  lemma MonotoneTerm(m: real, lo: real, v: real, hi: real)
    requires lo <= v <= hi
    ensures m >= 0.0 ==> m * lo <= m * v <= m * hi
    ensures m <= 0.0 ==> m * hi <= m * v <= m * lo
  {
    if m >= 0.0 {
      ProductSign(m, v - lo);
      ProductSign(m, hi - v);
    } else {
      ProductSign(-m, v - lo);
      ProductSign(-m, hi - v);
    }
  }

  // The signed side is affine: inside the square it lies between two corner values.
  lemma ExtremeCorners(c: Point, h: real, a: Point, b: Point, q: Point)
    requires h >= 0.0 && InSquare(q, c, h) && Side(q, a, b) == 0.0
    ensures Straddles(c, h, a, b)
  {
    var dx, dy := b.x - a.x, b.y - a.y;
    CornerSigns(dx, c.y - h - a.y, q.y - a.y, c.y + h - a.y,
                dy, c.x - h - a.x, q.x - a.x, c.x + h - a.x, Sides(c, h, a, b));
  }

  lemma CornerSigns(m: real, y0: real, y: real, y1: real, n: real, x0: real, x: real, x1: real, s: seq<real>)
    requires y0 <= y <= y1 && x0 <= x <= x1 && m * y == n * x && |s| == 4
    requires s[0] == m * y0 - n * x0 && s[1] == m * y1 - n * x0
    requires s[2] == m * y0 - n * x1 && s[3] == m * y1 - n * x1
    ensures Least4(s) <= 0.0 <= Greatest4(s)
  {
    MonotoneTerm(m, y0, y, y1);
    MonotoneTerm(n, x0, x, x1);
    OppositeSigns(m * y0, m * y, m * y1, n * x0, n * x, n * x1, s);
  }

  lemma OppositeSigns(y0: real, y: real, y1: real, x0: real, x: real, x1: real, s: seq<real>)
    requires y0 <= y <= y1 || y1 <= y <= y0
    requires x0 <= x <= x1 || x1 <= x <= x0
    requires y == x && |s| == 4
    requires s[0] == y0 - x0 && s[1] == y1 - x0 && s[2] == y0 - x1 && s[3] == y1 - x1
    ensures Least4(s) <= 0.0 <= Greatest4(s)
  {
    NoneBeyond(s);
  }

  lemma NoneBeyond(s: seq<real>)
    requires |s| == 4
    ensures forall i | 0 <= i < 4 :: Least4(s) <= s[i] <= Greatest4(s)
  {
  }

  lemma CrossingIsExact(c: Point, h: real, a: Point, b: Point)
    requires h >= 0.0
    ensures Straddles(c, h, a, b) && Overlaps(c, h, a, b) <==> Meets(c, h, a, b)
  {
    hide Straddles, Overlaps, Meets;
    if Straddles(c, h, a, b) && Overlaps(c, h, a, b) {
      CrossingMeets(c, h, a, b);
    }
    if Meets(c, h, a, b) {
      MeetsCrosses(c, h, a, b);
    }
  }

  // ---- sliding a pair of points until one of them is an end ----

  predicate InBox(p: Point, lo: Point, hi: Point) {
    lo.x <= p.x <= hi.x && lo.y <= p.y <= hi.y
  }

  predicate OnBorder(p: Point, lo: Point, hi: Point) {
    InBox(p, lo, hi) && (p.x == lo.x || p.x == hi.x || p.y == lo.y || p.y == hi.y)
  }

  // The last moment at which a coordinate moving from v to v1 is still in [lo, hi].
  lemma ExitTime(v: real, v1: real, lo: real, hi: real) returns (k: real)
    requires lo <= v <= hi
    ensures 0.0 <= k <= 1.0 && lo <= Lerp(v, v1, k) <= hi
    ensures if lo <= v1 <= hi then k == 1.0 else Lerp(v, v1, k) == lo || Lerp(v, v1, k) == hi
  {
    if v1 < lo {
      k := Intermediate(v, v1, lo);
    } else if v1 > hi {
      k := Intermediate(v, v1, hi);
    } else {
      k := 1.0;
    }
  }

  lemma LerpStart(v: real, v1: real)
    ensures Lerp(v, v1, 0.0) == v && Lerp(v, v1, 1.0) == v1
  {
  }

  // A point that leaves a box on a straight line crosses its border.
  lemma FirstExit(p: Point, p1: Point, lo: Point, hi: Point) returns (k: real)
    requires InBox(p, lo, hi) && !InBox(p1, lo, hi)
    ensures 0.0 <= k <= 1.0 && OnBorder(Along(p, p1, k), lo, hi)
  {
    hide Lerp;
    var kx := ExitTime(p.x, p1.x, lo.x, hi.x);
    var ky := ExitTime(p.y, p1.y, lo.y, hi.y);
    k := Min(kx, ky);
    LerpStart(p.x, p1.x);
    LerpStart(p.y, p1.y);
    LerpConvex(p.x, p1.x, 0.0, k, kx, lo.x, hi.x);
    LerpConvex(p.y, p1.y, 0.0, k, ky, lo.y, hi.y);
  }

  // Two points moving so that their difference ends as m times what it was, 0 <= m <= 1,
  // are never farther apart on the way than at the start.
  lemma Contract(p: Point, p1: Point, q: Point, q1: Point, k: real, m: real)
    requires 0.0 <= k <= 1.0 && 0.0 <= m <= 1.0
    requires p1.x - q1.x == m * (p.x - q.x) && p1.y - q1.y == m * (p.y - q.y)
    ensures Dist2(Along(p, p1, k), Along(q, q1, k)) <= Dist2(p, q)
  {
    hide Lerp;
    ContractCoordinate(p.x, p1.x, q.x, q1.x, k, m);
    ContractCoordinate(p.y, p1.y, q.y, q1.y, k, m);
  }

  lemma ContractCoordinate(p: real, p1: real, q: real, q1: real, k: real, m: real)
    requires 0.0 <= k <= 1.0 && 0.0 <= m <= 1.0 && p1 - q1 == m * (p - q)
    ensures var d := Lerp(p, p1, k) - Lerp(q, q1, k); d * d <= (p - q) * (p - q)
  {
    var d, v, f := Lerp(p, p1, k) - Lerp(q, q1, k), p - q, 1.0 - k + k * m;
    ProductSign(k, m);
    ProductSign(k, 1.0 - m);
    assert d == f * v by {
      assert k * (m * v) == (k * m) * v;
    }
    ScaleSquare(d, f, v);
  }

  lemma ScaleSquare(d: real, f: real, v: real)
    requires 0.0 <= f <= 1.0 && d == f * v
    ensures d * d <= v * v
  {
    MonotoneSquare(f, 1.0);
    SquareSign(v);
    ProductSign(1.0 - f * f, v * v);
    assert d * d == (f * f) * (v * v);
  }

  ghost predicate Disjoint(e0: Point, e1: Point, a: Point, b: Point) {
    forall u: real, t: real | 0.0 <= u <= 1.0 && 0.0 <= t <= 1.0 :: Along(e0, e1, u) != Along(a, b, t)
  }

  // Parameters outside the unit square towards which two disjoint, non-degenerate segments
  // can be run without their points drawing apart.
  lemma SlideTarget(e0: Point, e1: Point, a: Point, b: Point, u: real, t: real)
    returns (u1: real, t1: real, m: real)
    requires e0 != e1 && a != b && Disjoint(e0, e1, a, b)
    ensures !(0.0 <= u1 <= 1.0 && 0.0 <= t1 <= 1.0) && 0.0 <= m <= 1.0
    ensures var p, q, p1, q1 := Along(e0, e1, u), Along(a, b, t), Along(e0, e1, u1), Along(a, b, t1);
            p1.x - q1.x == m * (p.x - q.x) && p1.y - q1.y == m * (p.y - q.y)
  {
    var ex, ey, dx, dy := e1.x - e0.x, e1.y - e0.y, b.x - a.x, b.y - a.y;
    var det := ex * dy - ey * dx;
    if det != 0.0 {
      u1, t1 := CrossingParameters(e0, e1, a, b, det);
      m := 0.0;
    } else {
      var k := Proportional(ex, ey, dx, dy);
      u1, t1, m := u + k * (2.0 - t), 2.0, 1.0;
      assert k * (2.0 - t) * ex == (2.0 - t) * dx;
      assert k * (2.0 - t) * ey == (2.0 - t) * dy;
    }
  }

  lemma Proportional(ex: real, ey: real, dx: real, dy: real) returns (k: real)
    requires ex * dy == ey * dx && (ex != 0.0 || ey != 0.0)
    ensures dx == k * ex && dy == k * ey
  {
    if ex != 0.0 {
      k := dx / ex;
      assert ex * (dy - k * ey) == 0.0;
    } else {
      k := dy / ey;
      assert ey * dx == 0.0;
    }
  }

  lemma CrossingParameters(e0: Point, e1: Point, a: Point, b: Point, det: real) returns (u: real, t: real)
    requires det == (e1.x - e0.x) * (b.y - a.y) - (e1.y - e0.y) * (b.x - a.x) && det != 0.0
    ensures Along(e0, e1, u) == Along(a, b, t)
  {
    var ex, ey, dx, dy := e1.x - e0.x, e1.y - e0.y, b.x - a.x, b.y - a.y;
    var wx, wy := a.x - e0.x, a.y - e0.y;
    u, t := (wx * dy - wy * dx) / det, (wx * ey - wy * ex) / det;
    Cramer(ex, dx, wx, wx * dy - wy * dx, wx * ey - wy * ex, det, u, t);
    Cramer(ey, dy, wy, wx * dy - wy * dx, wx * ey - wy * ex, det, u, t);
  }

  lemma Cramer(e: real, d: real, w: real, nu: real, nt: real, det: real, u: real, t: real)
    requires det != 0.0 && u == nu / det && t == nt / det && nu * e - nt * d == w * det
    ensures u * e - t * d == w
  {
    assert u * det == nu && t * det == nt;
    assert det * (u * e - t * d) == det * w;
  }

  lemma AlongParts(p: Point, q: Point, k: real)
    ensures Along(p, q, k) == Point(Lerp(p.x, q.x, k), Lerp(p.y, q.y, k))
  {
  }

  lemma AlongLerp(a: Point, b: Point, s: real, r: real, k: real)
    ensures Along(a, b, Lerp(s, r, k)) == Along(Along(a, b, s), Along(a, b, r), k)
  {
    hide Lerp;
    LerpLerp(a.x, b.x, s, r, k);
    LerpLerp(a.y, b.y, s, r, k);
  }

  // The points at u and t can be moved, not apart, until one of them is an end.
  lemma SlideToEnd(e0: Point, e1: Point, a: Point, b: Point, u: real, t: real) returns (u1: real, t1: real)
    requires 0.0 <= u <= 1.0 && 0.0 <= t <= 1.0 && Disjoint(e0, e1, a, b)
    ensures 0.0 <= u1 <= 1.0 && 0.0 <= t1 <= 1.0
    ensures u1 == 0.0 || u1 == 1.0 || t1 == 0.0 || t1 == 1.0
    ensures Dist2(Along(e0, e1, u1), Along(a, b, t1)) <= Dist2(Along(e0, e1, u), Along(a, b, t))
  {
    hide Lerp, Dist2, Disjoint;
    if e0 == e1 {
      u1, t1 := 0.0, t;
      LerpSame(e0, u);
      LerpSame(e0, 0.0);
    } else if a == b {
      u1, t1 := u, 0.0;
      LerpSame(a, t);
      LerpSame(a, 0.0);
    } else {
      var us, ts, m := SlideTarget(e0, e1, a, b, u, t);
      hide Along;
      var k := FirstExit(Point(u, t), Point(us, ts), Point(0.0, 0.0), Point(1.0, 1.0));
      AlongParts(Point(u, t), Point(us, ts), k);
      u1, t1 := Lerp(u, us, k), Lerp(t, ts, k);
      Contract(Along(e0, e1, u), Along(e0, e1, us), Along(a, b, t), Along(a, b, ts), k, m);
      AlongLerp(e0, e1, u, us, k);
      AlongLerp(a, b, t, ts, k);
    }
  }

  // ---- the distance of one segment is exact ----

  function CornerDistances(c: Point, h: real, a: Point, b: Point): (s: seq<real>)
    ensures |s| == 4
    ensures forall i: nat :: i < 4 ==> s[i] == PointSegment2(Corner(c, h, i), a, b)
  {
    [PointSegment2(Corner(c, h, 0), a, b), PointSegment2(Corner(c, h, 1), a, b),
     PointSegment2(Corner(c, h, 2), a, b), PointSegment2(Corner(c, h, 3), a, b)]
  }

  // The least of the ends to the square and the corners to the segment.
  function VertexDistance2(c: Point, h: real, a: Point, b: Point): real {
    Min(Min(ToSquare2(a, c, h), ToSquare2(b, c, h)), Least4(CornerDistances(c, h, a, b)))
  }

  function Segment2(c: Point, h: real, a: Point, b: Point): real {
    if Straddles(c, h, a, b) && Overlaps(c, h, a, b) then 0.0 else VertexDistance2(c, h, a, b)
  }

  ghost predicate IsPair(c: Point, h: real, a: Point, b: Point, p: Point, q: Point) {
    InSquare(p, c, h) && OnSegment(q, a, b)
  }

  // A point on the border is on a side of the square, between two of its corners.
  lemma BorderSide(c: Point, h: real, p: Point) returns (i: nat, j: nat, u: real)
    requires h >= 0.0 && OnBorder(p, Corner(c, h, 0), Corner(c, h, 3))
    ensures i < 4 && j < 4 && 0.0 <= u <= 1.0 && p == Along(Corner(c, h, i), Corner(c, h, j), u)
  {
    if p.x == c.x - h || p.x == c.x + h {
      i, j := if p.x == c.x - h then 0 else 2, if p.x == c.x - h then 1 else 3;
      u := Intermediate(c.y - h, c.y + h, p.y);
    } else {
      i, j := if p.y == c.y - h then 0 else 1, if p.y == c.y - h then 2 else 3;
      u := Intermediate(c.x - h, c.x + h, p.x);
    }
  }

  lemma NoPairNearer(c: Point, h: real, a: Point, b: Point, p: Point, t: real)
    requires h >= 0.0 && !Meets(c, h, a, b) && InSquare(p, c, h) && 0.0 <= t <= 1.0
    ensures VertexDistance2(c, h, a, b) <= Dist2(p, Along(a, b, t))
  {
    hide Lerp, Dist2, ToSquare2, PointSegment2;
    var q := Along(a, b, t);
    assert OnSegment(q, a, b);
    var lo, hi := Corner(c, h, 0), Corner(c, h, 3);
    var k := FirstExit(p, q, lo, hi);
    Contract(p, q, q, q, k, 0.0);
    LerpSame(q, k);
    var i, j, u := BorderSide(c, h, Along(p, q, k));
    var e0, e1 := Corner(c, h, i), Corner(c, h, j);
    forall u': real, t': real | 0.0 <= u' <= 1.0 && 0.0 <= t' <= 1.0
      ensures Along(e0, e1, u') != Along(a, b, t')
    {
      AlongSquare(e0, e1, u', c, h);
      assert OnSegment(Along(a, b, t'), a, b);
    }
    var u1, t1 := SlideToEnd(e0, e1, a, b, u, t);
    AlongSquare(e0, e1, u1, c, h);
    LerpStart(a.x, b.x);
    LerpStart(a.y, b.y);
    LerpStart(e0.x, e1.x);
    LerpStart(e0.y, e1.y);
    EndBound(c, h, a, b, i, j, u1, t1);
  }

  lemma LerpSame(q: Point, k: real)
    ensures Along(q, q, k) == q
  {
  }

  lemma Dist2Symmetric(p: Point, q: Point)
    ensures Dist2(p, q) == Dist2(q, p)
  {
  }

  // A pair one of whose points is an end or a corner is no nearer than the least of those.
  lemma EndBound(c: Point, h: real, a: Point, b: Point, i: nat, j: nat, u: real, t: real)
    requires h >= 0.0 && i < 4 && j < 4 && 0.0 <= u <= 1.0 && 0.0 <= t <= 1.0
    requires u == 0.0 || u == 1.0 || t == 0.0 || t == 1.0
    ensures VertexDistance2(c, h, a, b) <= Dist2(Along(Corner(c, h, i), Corner(c, h, j), u), Along(a, b, t))
  {
    hide Lerp, Dist2, ToSquare2, PointSegment2;
    var e0, e1 := Corner(c, h, i), Corner(c, h, j);
    var p, q := Along(e0, e1, u), Along(a, b, t);
    LerpStart(a.x, b.x);
    LerpStart(a.y, b.y);
    LerpStart(e0.x, e1.x);
    LerpStart(e0.y, e1.y);
    AlongSquare(e0, e1, u, c, h);
    ToSquareNearest(a, c, h, p);
    ToSquareNearest(b, c, h, p);
    PointSegmentNearest(e0, a, b, t);
    PointSegmentNearest(e1, a, b, t);
    Dist2Symmetric(p, q);
    NoneBeyond(CornerDistances(c, h, a, b));
  }

  lemma VertexDistanceAttained(c: Point, h: real, a: Point, b: Point) returns (p: Point, q: Point)
    requires h >= 0.0
    ensures IsPair(c, h, a, b, p, q) && Dist2(p, q) == VertexDistance2(c, h, a, b)
  {
    hide Lerp, Dist2, ToSquare2;
    var s, v := CornerDistances(c, h, a, b), VertexDistance2(c, h, a, b);
    LerpStart(a.x, b.x);
    LerpStart(a.y, b.y);
    assert OnSegment(a, a, b) by { assert a == Along(a, b, 0.0); }
    assert OnSegment(b, a, b) by { assert b == Along(a, b, 1.0); }
    if v == ToSquare2(a, c, h) || v == ToSquare2(b, c, h) {
      q := if v == ToSquare2(a, c, h) then a else b;
      p := NearestInSquare(q, c, h);
      ToSquareNearest(q, c, h, c);
      Dist2Symmetric(p, q);
    } else {
      var i := if v == s[0] then 0 else if v == s[1] then 1 else if v == s[2] then 2 else 3;
      p := Corner(c, h, i);
      q := Along(a, b, Foot(p, a, b));
      assert OnSegment(q, a, b) by { assert 0.0 <= Foot(p, a, b) <= 1.0; }
    }
  }

  // The value the source computes for a square and a segment is the least squared distance
  // over all pairs of their points, some pair attains it, and it is 0 exactly when the two meet.
  lemma SegmentDistanceExact(c: Point, h: real, a: Point, b: Point)
    requires h >= 0.0
    ensures forall p, q | IsPair(c, h, a, b, p, q) :: Segment2(c, h, a, b) <= Dist2(p, q)
    ensures exists p, q :: IsPair(c, h, a, b, p, q) && Dist2(p, q) == Segment2(c, h, a, b)
    ensures Segment2(c, h, a, b) == 0.0 <==> Meets(c, h, a, b)
  {
    hide Along, Dist2, Straddles, Overlaps, VertexDistance2;
    CrossingIsExact(c, h, a, b);
    forall p, q | IsPair(c, h, a, b, p, q)
      ensures Segment2(c, h, a, b) <= Dist2(p, q)
    {
      var t: real :| 0.0 <= t <= 1.0 && q == Along(a, b, t);
      Dist2Sign(p, q);
      if !Meets(c, h, a, b) {
        NoPairNearer(c, h, a, b, p, t);
      }
    }
    var p, q: Point;
    if Meets(c, h, a, b) {
      q :| InSquare(q, c, h) && OnSegment(q, a, b);
      p := q;
    } else {
      p, q := VertexDistanceAttained(c, h, a, b);
    }
    Dist2Sign(p, q);
    assert IsPair(c, h, a, b, p, q) && Dist2(p, q) == Segment2(c, h, a, b);
  }

  // ---- the loop over the corners ----

  // d2 is the least squared distance from the square to the segments a[k] -> b[k].
  ghost predicate IsNearest(c: Point, h: real, a: seq<Point>, b: seq<Point>, d2: real)
    requires |a| == |b|
  {
    && (forall k, p, q | 0 <= k < |a| && IsPair(c, h, a[k], b[k], p, q) :: d2 <= Dist2(p, q))
    && (exists k, p, q :: 0 <= k < |a| && IsPair(c, h, a[k], b[k], p, q) && Dist2(p, q) == d2)
  }

  ghost predicate MeetsAny(c: Point, h: real, a: seq<Point>, b: seq<Point>)
    requires |a| == |b|
  {
    exists k :: 0 <= k < |a| && Meets(c, h, a[k], b[k])
  }

  // The distances after the first i corners.
  function LoweredTo(c: Point, h: real, a: Point, b: Point, i: nat): real
    requires i <= 4
  {
    if i == 0 then Min(ToSquare2(a, c, h), ToSquare2(b, c, h))
    else Min(LoweredTo(c, h, a, b, i - 1), PointSegment2(Corner(c, h, i - 1), a, b))
  }

  lemma LoweredToLeast(c: Point, h: real, a: Point, b: Point)
    ensures LoweredTo(c, h, a, b, 4) == VertexDistance2(c, h, a, b)
  {
    hide ToSquare2, PointSegment2;
    hide Corner;
    forall i: nat | i < 4
      ensures LoweredTo(c, h, a, b, i + 1) == Min(LoweredTo(c, h, a, b, i), PointSegment2(Corner(c, h, i), a, b))
    {
    }
    assert LoweredTo(c, h, a, b, 0 + 1) == LoweredTo(c, h, a, b, 1);
    assert LoweredTo(c, h, a, b, 1 + 1) == LoweredTo(c, h, a, b, 2);
    assert LoweredTo(c, h, a, b, 2 + 1) == LoweredTo(c, h, a, b, 3);
    assert LoweredTo(c, h, a, b, 3 + 1) == LoweredTo(c, h, a, b, 4);
  }

  // The distances from one square to the segments: to their ends first, then lowered corner
  // by corner; 0 where the square is crossed.
  method SquareRow(c: Point, h: real, a: seq<Point>, b: seq<Point>) returns (d: seq<real>)
    requires h >= 0.0 && |a| == |b|
    ensures |d| == |a| && forall k :: 0 <= k < |a| ==> d[k] == Segment2(c, h, a[k], b[k])
  {
    hide ToSquare2, PointSegment2, Side, Overlaps, VertexDistance2, Corner;
    var n := |a|;
    d := seq(n, k requires 0 <= k < n => Min(ToSquare2(a[k], c, h), ToSquare2(b[k], c, h)));
    var side: seq<seq<real>> := [];
    for i := 0 to 4
      invariant |d| == n && |side| == i
      invariant forall j :: 0 <= j < i ==> |side[j]| == n
      invariant forall j, k :: 0 <= j < i && 0 <= k < n ==> side[j][k] == Side(Corner(c, h, j), a[k], b[k])
      invariant forall k :: 0 <= k < n ==> d[k] == LoweredTo(c, h, a[k], b[k], i)
    {
      d := seq(n, k requires 0 <= k < n => Min(d[k], PointSegment2(Corner(c, h, i), a[k], b[k])));
      side := side + [seq(n, k requires 0 <= k < n => Side(Corner(c, h, i), a[k], b[k]))];
    }
    ghost var lowered := d;
    for k := 0 to n
      invariant |d| == n
      invariant forall j :: 0 <= j < k ==> d[j] == Segment2(c, h, a[j], b[j])
      invariant forall j :: k <= j < n ==> d[j] == lowered[j]
    {
      var s := [side[0][k], side[1][k], side[2][k], side[3][k]];
      assert s == Sides(c, h, a[k], b[k]);
      LoweredToLeast(c, h, a[k], b[k]);
      if Least4(s) <= 0.0 && Greatest4(s) >= 0.0 && Overlaps(c, h, a[k], b[k]) {
        d := d[k := 0.0];
      }
    }
  }

  lemma LeastIsNearest(c: Point, h: real, a: seq<Point>, b: seq<Point>, least: real, at: nat)
    requires h >= 0.0 && |a| == |b| && at < |a| && least == Segment2(c, h, a[at], b[at])
    requires forall k :: 0 <= k < |a| ==> least <= Segment2(c, h, a[k], b[k])
    ensures IsNearest(c, h, a, b, least)
    ensures least == 0.0 <==> MeetsAny(c, h, a, b)
  {
    hide Segment2, Dist2;
    forall k | 0 <= k < |a|
      ensures forall p, q | IsPair(c, h, a[k], b[k], p, q) :: least <= Dist2(p, q)
      ensures least >= 0.0
      ensures Segment2(c, h, a[k], b[k]) == 0.0 <==> Meets(c, h, a[k], b[k])
    {
      SegmentDistanceExact(c, h, a[k], b[k]);
      SegmentDistanceExact(c, h, a[at], b[at]);
      var p, q :| IsPair(c, h, a[at], b[at], p, q) && Dist2(p, q) == least;
      Dist2Sign(p, q);
    }
    SegmentDistanceExact(c, h, a[at], b[at]);
    var p, q :| IsPair(c, h, a[at], b[at], p, q) && Dist2(p, q) == least;
    assert 0 <= at < |a| && IsPair(c, h, a[at], b[at], p, q) && Dist2(p, q) == least;
  }

  // One row of distances per centre.
  method SquareSegmentDistance2(centres: seq<Point>, h: real, a: seq<Point>, b: seq<Point>) returns (d: seq<real>)
    requires h >= 0.0 && |a| == |b| > 0
    ensures |d| == |centres|
    ensures forall i :: 0 <= i < |d| ==> IsNearest(centres[i], h, a, b, d[i])
    ensures forall i :: 0 <= i < |d| ==> (d[i] == 0.0 <==> MeetsAny(centres[i], h, a, b))
  {
    hide IsNearest, MeetsAny, Segment2;
    d := [];
    for i := 0 to |centres|
      invariant |d| == i
      invariant forall j :: 0 <= j < i ==> IsNearest(centres[j], h, a, b, d[j])
      invariant forall j :: 0 <= j < i ==> (d[j] == 0.0 <==> MeetsAny(centres[j], h, a, b))
    {
      var row := SquareRow(centres[i], h, a, b);
      var at := Minimum.ArgMin(row);
      LeastIsNearest(centres[i], h, a, b, row[at], at);
      d := d + [row[at]];
    }
  }
}
