// Moving along a segment that touches no edge of a ring does not change whether a point is inside
// it.  So a square that touches no edge is wholly inside or wholly outside, and testing a cell's
// centre and its distance from the edges (scripts/map/check_lane_clearance.py) is testing every
// point of the cell.

module SquareInRing {
  import opened Planar
  import opened EvenOdd
  import SquareDistance

  // Where the line through an edge's ends is at height y.
  function XAt(a: Point, b: Point, y: real): real
    requires a.y != b.y
  {
    a.x + (y - a.y) * (b.x - a.x) / (b.y - a.y)
  }

  predicate Spans(a: Point, b: Point, y: real) {
    (a.y > y) != (b.y > y)
  }

  lemma XAtOnSegment(a: Point, b: Point, y: real)
    requires Spans(a, b, y)
    ensures OnSegment(Point(XAt(a, b, y), y), a, b)
  {
    var t := Intermediate(a.y, b.y, y);
    var d := b.y - a.y;
    assert t * d == y - a.y;
    assert (y - a.y) * (b.x - a.x) / d == t * (b.x - a.x) by {
      assert (t * (b.x - a.x)) * d == (y - a.y) * (b.x - a.x);
    }
    assert Point(XAt(a, b, y), y) == Along(a, b, t);
  }

  lemma CrossesAt(a: Point, b: Point, p: Point)
    ensures Crosses(a, b, p) <==> Spans(a, b, p.y) && XAt(a, b, p.y) > p.x
  {
  }

  lemma SubSegment(a: Point, b: Point, u: Point, w: Point, k: real)
    requires OnSegment(u, a, b) && OnSegment(w, a, b) && 0.0 <= k <= 1.0
    ensures OnSegment(Along(u, w, k), a, b)
  {
    hide Lerp;
    var s: real :| 0.0 <= s <= 1.0 && u == Along(a, b, s);
    var r: real :| 0.0 <= r <= 1.0 && w == Along(a, b, r);
    LerpLerp(a.x, b.x, s, r, k);
    LerpLerp(a.y, b.y, s, r, k);
    LerpWithin(s, r, k, 0.0, 1.0);
    assert Along(u, w, k) == Along(a, b, Lerp(s, r, k));
  }

  lemma EndsOnSegment(a: Point, b: Point)
    ensures OnSegment(a, a, b) && OnSegment(b, a, b)
  {
    assert a == Along(a, b, 0.0) && b == Along(a, b, 1.0);
  }

  // ---- one edge and one segment ----

  // The segments p -> q and a -> b have a point in common.
  ghost predicate SegmentsMeet(p: Point, q: Point, a: Point, b: Point) {
    exists v: Point :: OnSegment(v, p, q) && OnSegment(v, a, b)
  }

  // A point level with both ends of a level segment, between them, is on it.
  lemma BetweenIsOn(p: Point, q: Point, v: Point)
    requires p.y == q.y == v.y && (p.x <= v.x <= q.x || q.x <= v.x <= p.x)
    ensures OnSegment(v, p, q)
  {
    hide Lerp;
    var t := Intermediate(p.x, q.x, v.x);
    LerpBetween(p.y, q.y, t);
    assert v == Along(p, q, t);
  }

  // A point of the line through p and q at a height between theirs is on the segment.
  lemma OnLineIsOn(p: Point, q: Point, v: Point)
    requires p.y < q.y && p.y <= v.y <= q.y && SquareDistance.Side(v, p, q) == 0.0
    ensures OnSegment(v, p, q)
  {
    var t := SquareDistance.LineParameter(v, p, q);
    var d := q.y - p.y;
    assert t * d == v.y - p.y;
    SignOfProduct(t, d);
    SignOfProduct(1.0 - t, d);
    assert (1.0 - t) * d == q.y - v.y;
  }

  // Two points of an edge at heights between p's and q's are on the same side of the segment from p
  // up to q, which it does not meet.
  lemma SameSide(a: Point, b: Point, u: Point, w: Point, p: Point, q: Point)
    requires !SegmentsMeet(p, q, a, b) && p.y < q.y && OnSegment(u, a, b) && OnSegment(w, a, b)
    requires p.y <= u.y <= q.y && p.y <= w.y <= q.y
    ensures SquareDistance.Side(u, p, q) < 0.0 <==> SquareDistance.Side(w, p, q) < 0.0
  {
    hide Lerp, SquareDistance.Side;
    var su, sw := SquareDistance.Side(u, p, q), SquareDistance.Side(w, p, q);
    if su <= 0.0 <= sw || sw <= 0.0 <= su {
      var k := Intermediate(su, sw, 0.0);
      var v := Along(u, w, k);
      SquareDistance.SideAlong(u, w, p, q, k);
      LerpWithin(u.y, w.y, k, p.y, q.y);
      OnLineIsOn(p, q, v);
      SubSegment(a, b, u, w, k);
      assert false;
    }
  }

  // At the height of either end of a rising segment, being right of that end is being on its right.
  lemma RightOfEnds(p: Point, q: Point, x: real)
    requires p.y < q.y
    ensures SquareDistance.Side(Point(x, p.y), p, q) < 0.0 <==> x > p.x
    ensures SquareDistance.Side(Point(x, q.y), p, q) < 0.0 <==> x > q.x
  {
    var d := q.y - p.y;
    assert SquareDistance.Side(Point(x, p.y), p, q) == -(x - p.x) * d;
    assert SquareDistance.Side(Point(x, q.y), p, q) == -(x - q.x) * d;
    SignOfProduct(x - p.x, d);
    SignOfProduct(p.x - x, d);
    SignOfProduct(x - q.x, d);
    SignOfProduct(q.x - x, d);
  }

  // Moving level does not pass an edge that the way does not meet.
  lemma Level(a: Point, b: Point, p: Point, q: Point)
    requires !SegmentsMeet(p, q, a, b) && p.y == q.y
    ensures Crosses(a, b, p) == Crosses(a, b, q)
  {
    hide XAt, Crosses;
    CrossesAt(a, b, p);
    CrossesAt(a, b, q);
    if Spans(a, b, p.y) {
      XAtOnSegment(a, b, p.y);
      var u := Point(XAt(a, b, p.y), p.y);
      if p.x <= u.x <= q.x || q.x <= u.x <= p.x {
        BetweenIsOn(p, q, u);
      }
    }
  }

  // The vertices a rising move passes on its right.
  predicate Passes(v: Point, p: Point, q: Point) {
    (v.y > p.y) != (v.y > q.y) && SquareDistance.Side(v, p, q) < 0.0
  }

  // Moving up changes an edge's bit exactly at the vertices passed, since the part of the edge
  // alongside is on one side of the way.
  lemma Rising(a: Point, b: Point, p: Point, q: Point)
    requires !SegmentsMeet(p, q, a, b) && p.y < q.y
    ensures Xor(Crosses(a, b, p), Crosses(a, b, q)) == Xor(Passes(a, p, q), Passes(b, p, q))
  {
    hide XAt, Crosses, SegmentsMeet, SquareDistance.Side;
    CrossesAt(a, b, p);
    CrossesAt(a, b, q);
    EndsOnSegment(a, b);
    if Spans(a, b, p.y) {
      XAtOnSegment(a, b, p.y);
      var u := Point(XAt(a, b, p.y), p.y);
      RightOfEnds(p, q, u.x);
      if Spans(a, b, q.y) {
        XAtOnSegment(a, b, q.y);
        RightOfEnds(p, q, XAt(a, b, q.y));
        SameSide(a, b, u, Point(XAt(a, b, q.y), q.y), p, q);
      } else {
        SameSide(a, b, u, if a.y > p.y then a else b, p, q);
      }
    } else if Spans(a, b, q.y) {
      XAtOnSegment(a, b, q.y);
      RightOfEnds(p, q, XAt(a, b, q.y));
      SameSide(a, b, Point(XAt(a, b, q.y), q.y), if a.y > q.y then b else a, p, q);
    } else if p.y < a.y <= q.y {
      SameSide(a, b, a, b, p, q);
    }
  }

  // ---- rings ----

  // No edge of the chain meets the segment.
  ghost predicate MissedBy(s: seq<Point>, p: Point, q: Point) {
    forall k :: 0 <= k < |s| - 1 ==> !SegmentsMeet(p, q, s[k], s[k + 1])
  }

  lemma {:induction false} ChainLevel(s: seq<Point>, p: Point, q: Point)
    requires MissedBy(s, p, q) && p.y == q.y
    ensures ChainParity(s, p) == ChainParity(s, q)
    decreases |s|
  {
    hide Crosses, SegmentsMeet;
    if |s| >= 2 {
      ChainLevel(s[..|s| - 1], p, q);
      assert !SegmentsMeet(p, q, s[|s| - 2], s[|s| - 2 + 1]);
      Level(s[|s| - 2], s[|s| - 1], p, q);
    }
  }

  lemma {:induction false} ChainRising(s: seq<Point>, p: Point, q: Point)
    requires s != [] && MissedBy(s, p, q) && p.y < q.y
    ensures Xor(ChainParity(s, p), ChainParity(s, q)) == Xor(Passes(s[0], p, q), Passes(s[|s| - 1], p, q))
    decreases |s|
  {
    hide Crosses, SegmentsMeet, Passes;
    if |s| >= 2 {
      ChainRising(s[..|s| - 1], p, q);
      assert !SegmentsMeet(p, q, s[|s| - 2], s[|s| - 2 + 1]);
      Rising(s[|s| - 2], s[|s| - 1], p, q);
    }
  }

  lemma Reversible(p: Point, q: Point)
    ensures forall a, b :: SegmentsMeet(p, q, a, b) == SegmentsMeet(q, p, a, b)
  {
    forall v
      ensures OnSegment(v, p, q) == OnSegment(v, q, p)
    {
      Backwards(v, p, q);
      Backwards(v, q, p);
    }
    hide OnSegment;
  }

  lemma Backwards(v: Point, p: Point, q: Point)
    ensures OnSegment(v, p, q) ==> OnSegment(v, q, p)
  {
    if OnSegment(v, p, q) {
      var t: real :| 0.0 <= t <= 1.0 && v == Along(p, q, t);
      assert v == Along(q, p, 1.0 - t);
    }
  }

  // The two ends of a segment that meets no edge of a ring are both inside it or both outside.
  lemma SegmentOnOneSide(ring: seq<Point>, p: Point, q: Point)
    requires MissedBy(Closed(ring), p, q)
    ensures RingParity(ring, p) == RingParity(ring, q)
  {
    hide Passes, SegmentsMeet;
    if ring != [] {
      var s := Closed(ring);
      assert s[0] == s[|s| - 1];
      Reversible(p, q);
      if p.y == q.y {
        ChainLevel(s, p, q);
      } else if p.y < q.y {
        ChainRising(s, p, q);
      } else {
        ChainRising(s, q, p);
      }
    }
  }

  // No edge of the chain touches the square.
  ghost predicate ClearOf(s: seq<Point>, c: Point, h: real) {
    forall k :: 0 <= k < |s| - 1 ==> !SquareDistance.Meets(c, h, s[k], s[k + 1])
  }

  lemma InsideSquare(c: Point, h: real, p: Point, q: Point, a: Point, b: Point)
    requires InSquare(p, c, h) && InSquare(q, c, h) && SegmentsMeet(p, q, a, b)
    ensures SquareDistance.Meets(c, h, a, b)
  {
    var v :| OnSegment(v, p, q) && OnSegment(v, a, b);
    var t: real :| 0.0 <= t <= 1.0 && v == Along(p, q, t);
    AlongSquare(p, q, t, c, h);
  }

  // Every two points of a square that touches no edge of a ring have the same parity.
  lemma SquareOnOneSide(ring: seq<Point>, c: Point, h: real, p: Point, q: Point)
    requires ClearOf(Closed(ring), c, h) && InSquare(p, c, h) && InSquare(q, c, h)
    ensures RingParity(ring, p) == RingParity(ring, q)
  {
    hide SegmentsMeet, SquareDistance.Meets, RingParity;
    var s := Closed(ring);
    forall k | 0 <= k < |s| - 1
      ensures !SegmentsMeet(p, q, s[k], s[k + 1])
    {
      if SegmentsMeet(p, q, s[k], s[k + 1]) { InsideSquare(c, h, p, q, s[k], s[k + 1]); }
    }
    SegmentOnOneSide(ring, p, q);
  }

  lemma NearerOnTheWay(p: Point, q: Point, v: Point)
    requires OnSegment(v, p, q)
    ensures Dist2(p, v) <= Dist2(p, q)
  {
    var t: real :| 0.0 <= t <= 1.0 && v == Along(p, q, t);
    SquareDistance.ContractCoordinate(p.x, p.x, q.x, p.x, 1.0 - t, 0.0);
    SquareDistance.ContractCoordinate(p.y, p.y, q.y, p.y, 1.0 - t, 0.0);
    assert Lerp(q.x, p.x, 1.0 - t) == v.x && Lerp(q.y, p.y, 1.0 - t) == v.y;
    assert Lerp(p.x, p.x, 1.0 - t) == p.x && Lerp(p.y, p.y, 1.0 - t) == p.y;
  }
}
