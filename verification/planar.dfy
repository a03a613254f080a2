// Plane geometry shared by the lane-map modules, in exact arithmetic.  Distances are
// kept squared, so that no square root is needed.

module Planar {

  datatype Point = Point(x: real, y: real)

  function Min(a: real, b: real): real {
    if a <= b then a else b
  }

  function Max(a: real, b: real): real {
    if a >= b then a else b
  }

  function Abs(a: real): real {
    if a >= 0.0 then a else -a
  }

  function Clamp(v: real, lo: real, hi: real): real {
    Min(Max(v, lo), hi)
  }

  // The value a fraction t of the way from f0 to f1.
  function Lerp(f0: real, f1: real, t: real): real {
    f0 + t * (f1 - f0)
  }

  function Along(a: Point, b: Point, t: real): Point {
    Point(Lerp(a.x, b.x, t), Lerp(a.y, b.y, t))
  }

  function Dist2(p: Point, q: Point): real {
    (p.x - q.x) * (p.x - q.x) + (p.y - q.y) * (p.y - q.y)
  }

  // q lies on the closed segment from a to b.
  ghost predicate OnSegment(q: Point, a: Point, b: Point) {
    exists t: real :: 0.0 <= t <= 1.0 && q == Along(a, b, t)
  }

  // p lies in the closed axis-aligned square of centre c and half side h.
  predicate InSquare(p: Point, c: Point, h: real) {
    c.x - h <= p.x <= c.x + h && c.y - h <= p.y <= c.y + h
  }

  lemma ProductSign(a: real, b: real)
    requires a >= 0.0 && b >= 0.0
    ensures a * b >= 0.0
  {
  }

  lemma ProductPositive(a: real, b: real)
    requires a > 0.0 && b > 0.0
    ensures a * b > 0.0
  {
  }

  lemma SignOfProduct(t: real, d: real)
    requires d > 0.0
    ensures t * d >= 0.0 <==> t >= 0.0
  {
  }

  lemma SquareSign(u: real)
    ensures u * u >= 0.0
    ensures u * u == 0.0 <==> u == 0.0
  {
    if u != 0.0 {
      assert (u * u) / u == u;
    }
  }

  lemma MonotoneSquare(a: real, b: real)
    requires 0.0 <= a <= b
    ensures a * a <= b * b
  {
    assert a * a <= a * b <= b * b;
  }

  lemma Dist2Sign(p: Point, q: Point)
    ensures Dist2(p, q) >= 0.0
    ensures Dist2(p, q) == 0.0 <==> p == q
  {
    SquareSign(p.x - q.x);
    SquareSign(p.y - q.y);
  }

  // Lerp takes every value between its ends ...
  lemma Intermediate(f0: real, f1: real, v: real) returns (t: real)
    requires f0 <= v <= f1 || f1 <= v <= f0
    ensures 0.0 <= t <= 1.0 && Lerp(f0, f1, t) == v
  {
    if f0 == f1 {
      t := 0.0;
    } else {
      var d := f1 - f0;
      t := (v - f0) / d;
      assert t * d == v - f0;
      assert (1.0 - t) * d == f1 - v;
      assert t >= 0.0 && 1.0 - t >= 0.0 by {
        if d > 0.0 { SignOfProduct(t, d); SignOfProduct(1.0 - t, d); }
        else { SignOfProduct(t, -d); SignOfProduct(1.0 - t, -d); }
      }
    }
  }

  // ... and none outside them.
  lemma LerpBetween(f0: real, f1: real, t: real)
    requires 0.0 <= t <= 1.0
    ensures f0 <= f1 ==> f0 <= Lerp(f0, f1, t) <= f1
    ensures f1 <= f0 ==> f1 <= Lerp(f0, f1, t) <= f0
  {
    if f1 >= f0 {
      ProductSign(t, f1 - f0);
      ProductSign(1.0 - t, f1 - f0);
    } else {
      ProductSign(t, f0 - f1);
      ProductSign(1.0 - t, f0 - f1);
    }
  }

  lemma LerpWithin(f0: real, f1: real, t: real, lo: real, hi: real)
    requires 0.0 <= t <= 1.0 && lo <= f0 <= hi && lo <= f1 <= hi
    ensures lo <= Lerp(f0, f1, t) <= hi
  {
    hide Lerp;
    LerpBetween(f0, f1, t);
  }

  // Moving a fraction k of the way from parameter s to parameter r moves the value so too.
  lemma LerpLerp(f0: real, f1: real, s: real, r: real, k: real)
    ensures Lerp(f0, f1, Lerp(s, r, k)) == Lerp(Lerp(f0, f1, s), Lerp(f0, f1, r), k)
  {
    var d := f1 - f0;
    assert k * (r - s) * d == k * (r * d) - k * (s * d);
  }

  // Lerp has its value in an interval between any two parameters where it has.
  lemma LerpConvex(f0: real, f1: real, s: real, t: real, r: real, lo: real, hi: real)
    requires s <= t <= r || r <= t <= s
    requires lo <= Lerp(f0, f1, s) <= hi && lo <= Lerp(f0, f1, r) <= hi
    ensures lo <= Lerp(f0, f1, t) <= hi
  {
    hide Lerp;
    var k := Intermediate(s, r, t);
    LerpLerp(f0, f1, s, r, k);
    LerpWithin(Lerp(f0, f1, s), Lerp(f0, f1, r), k, lo, hi);
  }

  lemma AlongSquare(u: Point, v: Point, t: real, c: Point, h: real)
    requires 0.0 <= t <= 1.0 && InSquare(u, c, h) && InSquare(v, c, h)
    ensures InSquare(Along(u, v, t), c, h)
  {
    hide Lerp;
    LerpWithin(u.x, v.x, t, c.x - h, c.x + h);
    LerpWithin(u.y, v.y, t, c.y - h, c.y + h);
  }
}
