// The ends of lanelets inside a lane are among the edges that the clearance check measures to
// (scripts/map/check_lane_clearance.py): when they count for nothing, so that the distance reported
// is that from the lane's outline.

module LaneOutline {
  import opened Planar
  import opened EvenOdd
  import opened LaneVerdict
  import SquareDistance
  import SquareInRing

  ghost predicate OnRing(ring: seq<Point>, q: Point) {
    exists e :: 0 <= e < |Closed(ring)| - 1 && OnSegment(q, Closed(ring)[e], Closed(ring)[e + 1])
  }

  ghost predicate OnEdges(polys: seq<seq<Point>>, q: Point) {
    exists r :: 0 <= r < |polys| && OnRing(polys[r], q)
  }

  // The outline of a lane: one ring round it, or for a loop its two bounds.
  function Outline(left: seq<Point>, right: seq<Point>, closed: bool): seq<seq<Point>>
    requires |left| == |right| >= 2
  {
    var k := |left| - 1;
    if closed then [left[..k], right[..k]] else [LaneletRing(left, right, 0, k)]
  }

  ghost predicate IsLoop(left: seq<Point>, right: seq<Point>) {
    && |left| == |right| >= 2
    && left[|left| - 1] == left[0] && right[|right| - 1] == right[0]
  }

  // p is in the uncut lane.
  ghost predicate InLane(left: seq<Point>, right: seq<Point>, p: Point)
    requires |left| == |right| >= 2
  {
    RingParity(LaneletRing(left, right, 0, |left| - 1), p)
  }

  // ---- which points the edges are made of ----

  ghost predicate OnBound(bound: seq<Point>, i: int, q: Point) {
    0 <= i < |bound| - 1 && OnSegment(q, bound[i], bound[i + 1])
  }

  ghost predicate OnBounds(left: seq<Point>, right: seq<Point>, s0: nat, s1: nat, q: Point) {
    exists i :: s0 <= i < s1 && (OnBound(left, i, q) || OnBound(right, i, q))
  }

  lemma SegmentFlip(q: Point, a: Point, b: Point)
    ensures OnSegment(q, a, b) == OnSegment(q, b, a)
  {
    SquareInRing.Backwards(q, a, b);
    SquareInRing.Backwards(q, b, a);
  }

  // The edges of a lanelet's ring, one by one: down the left bound, across, up the right one, back.
  lemma RingEdge(left: seq<Point>, right: seq<Point>, s0: nat, s1: nat, e: nat)
    requires |left| == |right| && s0 <= s1 < |left|
    ensures var s, m := Closed(LaneletRing(left, right, s0, s1)), s1 - s0;
            && |s| == 2 * m + 3
            && (e < m ==> s[e] == left[s1 - e] && s[e + 1] == left[s1 - e - 1])
            && (e == m ==> s[e] == left[s0] && s[e + 1] == right[s0])
            && (m < e <= 2 * m ==> s[e] == right[s0 + (e - m - 1)] && s[e + 1] == right[s0 + (e - m)])
            && (e == 2 * m + 1 ==> s[e] == right[s1] && s[e + 1] == left[s1])
  {
  }

  lemma OnLaneletRing(left: seq<Point>, right: seq<Point>, s0: nat, s1: nat, q: Point)
    requires |left| == |right| && s0 <= s1 < |left|
    ensures OnRing(LaneletRing(left, right, s0, s1), q) <==>
              || OnBounds(left, right, s0, s1, q)
              || OnSegment(q, left[s0], right[s0]) || OnSegment(q, left[s1], right[s1])
  {
    hide OnSegment, LaneletRing, Closed;
    var ring, m := LaneletRing(left, right, s0, s1), s1 - s0;
    RingEdge(left, right, s0, s1, m);
    RingEdge(left, right, s0, s1, 2 * m + 1);
    SegmentFlip(q, right[s1], left[s1]);
    if OnRing(ring, q) {
      var e :| 0 <= e < |Closed(ring)| - 1 && OnSegment(q, Closed(ring)[e], Closed(ring)[e + 1]);
      RingEdge(left, right, s0, s1, e);
      if e < m {
        SegmentFlip(q, left[s1 - e], left[s1 - e - 1]);
        assert OnBound(left, s1 - e - 1, q);
      } else if m < e <= 2 * m {
        assert OnBound(right, s0 + (e - m - 1), q);
      }
    }
    if OnBounds(left, right, s0, s1, q) {
      var i :| s0 <= i < s1 && (OnBound(left, i, q) || OnBound(right, i, q));
      RingEdge(left, right, s0, s1, s1 - i - 1);
      RingEdge(left, right, s0, s1, m + 1 + (i - s0));
      SegmentFlip(q, left[i + 1], left[i]);
    }
  }

  // Some lanelet of a cut holds the edges from i to i + 1.
  lemma {:induction false} RangeOf(bounds: seq<nat>, i: nat) returns (j: nat)
    requires |bounds| >= 2 && bounds[0] <= i < bounds[|bounds| - 1]
    ensures j < |bounds| - 1 && bounds[j] <= i < bounds[j + 1]
    decreases |bounds|
  {
    var m := |bounds| - 2;
    if bounds[m] <= i {
      j := m;
    } else {
      j := RangeOf(bounds[..m + 1], i);
    }
  }

  // q is on an end of a lanelet.
  ghost predicate OnEnds(left: seq<Point>, right: seq<Point>, bounds: seq<nat>, q: Point)
    requires |left| == |right|
  {
    exists j :: 0 <= j < |bounds| && bounds[j] < |left| && OnSegment(q, left[bounds[j]], right[bounds[j]])
  }

  lemma OnPieces(polys: seq<seq<Point>>, left: seq<Point>, right: seq<Point>, bounds: seq<nat>, q: Point)
    requires |left| == |right| && IsCut(bounds, |left|) && forall k :: 0 <= k < |bounds| ==> bounds[k] < |left|
    requires AreLaneletRings(polys, left, right, bounds)
    ensures OnEdges(polys, q) <==> OnBounds(left, right, 0, |left| - 1, q) || OnEnds(left, right, bounds, q)
  {
    hide OnSegment, LaneletRing, OnRing;
    if OnEdges(polys, q) {
      var r :| 0 <= r < |polys| && OnRing(polys[r], q);
      OnLaneletRing(left, right, bounds[r], bounds[r + 1], q);
    }
    if OnBounds(left, right, 0, |left| - 1, q) {
      var i: nat :| i < |left| - 1 && (OnBound(left, i, q) || OnBound(right, i, q));
      var j := RangeOf(bounds, i);
      OnLaneletRing(left, right, bounds[j], bounds[j + 1], q);
      assert OnRing(polys[j], q);
    }
    if OnEnds(left, right, bounds, q) {
      var j :| 0 <= j < |bounds| && OnSegment(q, left[bounds[j]], right[bounds[j]]);
      var r := if j == |bounds| - 1 then j - 1 else j;
      OnLaneletRing(left, right, bounds[r], bounds[r + 1], q);
      assert OnRing(polys[r], q);
    }
  }

  lemma OnLoop(loop: seq<Point>, q: Point)
    requires |loop| >= 2 && loop[|loop| - 1] == loop[0]
    ensures OnRing(loop[..|loop| - 1], q) <==> exists i :: 0 <= i < |loop| - 1 && OnBound(loop, i, q)
  {
    hide OnSegment;
    assert Closed(loop[..|loop| - 1]) == loop;
    if OnRing(loop[..|loop| - 1], q) {
      var e :| 0 <= e < |loop| - 1 && OnSegment(q, loop[e], loop[e + 1]);
      assert OnBound(loop, e, q);
    }
    if i :| 0 <= i < |loop| - 1 && OnBound(loop, i, q) {
      assert OnSegment(q, Closed(loop[..|loop| - 1])[i], Closed(loop[..|loop| - 1])[i + 1]);
    }
  }

  lemma OnOutline(left: seq<Point>, right: seq<Point>, closed: bool, q: Point)
    requires |left| == |right| >= 2 && (closed ==> IsLoop(left, right))
    ensures var k := |left| - 1;
            OnEdges(Outline(left, right, closed), q) <==>
              || OnBounds(left, right, 0, k, q)
              || (!closed && (OnSegment(q, left[0], right[0]) || OnSegment(q, left[k], right[k])))
  {
    hide OnSegment, LaneletRing;
    var k := |left| - 1;
    var outline := Outline(left, right, closed);
    if closed {
      assert outline[0] == left[..k] && outline[1] == right[..k];
      OnLoop(left, q);
      OnLoop(right, q);
      hide OnRing, OnBound;
    } else {
      assert outline[0] == LaneletRing(left, right, 0, k);
      OnLaneletRing(left, right, 0, k, q);
      hide OnRing;
    }
  }

  // ---- distances are to those points ----

  lemma {:induction false} EdgeOf(polys: seq<seq<Point>>, at: nat) returns (r: nat, e: nat)
    requires at < |Starts(polys)|
    ensures r < |polys| && e + 1 < |Closed(polys[r])|
    ensures Starts(polys)[at] == Closed(polys[r])[e] && Ends(polys)[at] == Closed(polys[r])[e + 1]
    decreases |polys|
  {
    var m := |polys| - 1;
    var before := |Starts(polys[..m])|;
    if at < before {
      hide Rolled, Closed;
      r, e := EdgeOf(polys[..m], at);
    } else {
      r, e := m, at - before;
      RolledEdge(polys[m], e);
      hide Rolled, Closed;
    }
  }

  lemma RolledEdge(ring: seq<Point>, e: nat)
    requires e < |ring|
    ensures e + 1 < |Closed(ring)| && ring[e] == Closed(ring)[e] && Rolled(ring)[e] == Closed(ring)[e + 1]
  {
  }

  lemma OnListed(polys: seq<seq<Point>>, q: Point)
    ensures OnEdges(polys, q) <==> exists at ::
              0 <= at < |Starts(polys)| && OnSegment(q, Starts(polys)[at], Ends(polys)[at])
  {
    hide OnSegment, Starts, Ends, Closed;
    if OnEdges(polys, q) {
      var r :| 0 <= r < |polys| && OnRing(polys[r], q);
      var e :| 0 <= e < |Closed(polys[r])| - 1 && OnSegment(q, Closed(polys[r])[e], Closed(polys[r])[e + 1]);
      var at := EdgeListed(polys, r, e);
    }
    if at :| 0 <= at < |Starts(polys)| && OnSegment(q, Starts(polys)[at], Ends(polys)[at]) {
      var r, e := EdgeOf(polys, at);
      assert OnRing(polys[r], q);
    }
  }

  // d is the squared distance from the square to the edges of the rings.
  ghost predicate IsDistance(c: Point, h: real, polys: seq<seq<Point>>, d: real) {
    SquareDistance.IsNearest(c, h, Starts(polys), Ends(polys), d)
  }

  // Every point of the one set of edges has one of the other that is no farther from the square.
  ghost predicate IsNoNearer(c: Point, h: real, polys: seq<seq<Point>>, others: seq<seq<Point>>) {
    forall p, q | InSquare(p, c, h) && OnEdges(polys, q) :: HasNoFarther(c, h, others, Dist2(p, q))
  }

  ghost predicate HasNoFarther(c: Point, h: real, polys: seq<seq<Point>>, d: real) {
    exists u, v :: InSquare(u, c, h) && OnEdges(polys, v) && Dist2(u, v) <= d
  }

  lemma DistanceIs(c: Point, h: real, polys: seq<seq<Point>>, d: real)
    ensures IsDistance(c, h, polys, d) <==>
              && (forall p, q | InSquare(p, c, h) && OnEdges(polys, q) :: d <= Dist2(p, q))
              && exists p, q :: InSquare(p, c, h) && OnEdges(polys, q) && Dist2(p, q) == d
  {
    hide OnEdges, OnSegment, Starts, Ends, Dist2, InSquare;
    forall q
      ensures OnEdges(polys, q) <==> exists at ::
                0 <= at < |Starts(polys)| && OnSegment(q, Starts(polys)[at], Ends(polys)[at])
    {
      OnListed(polys, q);
    }
    if IsDistance(c, h, polys, d) {
      forall p, q | InSquare(p, c, h) && OnEdges(polys, q)
        ensures d <= Dist2(p, q)
      {
        var at :| 0 <= at < |Starts(polys)| && OnSegment(q, Starts(polys)[at], Ends(polys)[at]);
        assert SquareDistance.IsPair(c, h, Starts(polys)[at], Ends(polys)[at], p, q);
      }
      var at, p, q :| 0 <= at < |Starts(polys)| && SquareDistance.IsPair(c, h, Starts(polys)[at], Ends(polys)[at], p, q)
                      && Dist2(p, q) == d;
      assert OnEdges(polys, q);
    } else if p, q :| InSquare(p, c, h) && OnEdges(polys, q) && Dist2(p, q) == d {
      var at :| 0 <= at < |Starts(polys)| && OnSegment(q, Starts(polys)[at], Ends(polys)[at]);
      assert SquareDistance.IsPair(c, h, Starts(polys)[at], Ends(polys)[at], p, q);
    }
  }

  lemma ClearIs(c: Point, h: real, polys: seq<seq<Point>>, m: real)
    ensures KeepsClear(c, h, polys, m) <==>
              forall p, q | InSquare(p, c, h) && OnEdges(polys, q) ::
                Dist2(p, q) > 0.0 && (m <= 0.0 || Dist2(p, q) >= m * m)
  {
    hide OnEdges, OnSegment, Starts, Ends, Dist2, InSquare;
    forall q
      ensures OnEdges(polys, q) <==> exists at ::
                0 <= at < |Starts(polys)| && OnSegment(q, Starts(polys)[at], Ends(polys)[at])
    {
      OnListed(polys, q);
    }
    if KeepsClear(c, h, polys, m) {
      forall p, q | InSquare(p, c, h) && OnEdges(polys, q)
        ensures Dist2(p, q) > 0.0 && (m <= 0.0 || Dist2(p, q) >= m * m)
      {
        var at :| 0 <= at < |Starts(polys)| && OnSegment(q, Starts(polys)[at], Ends(polys)[at]);
        assert SquareDistance.IsPair(c, h, Starts(polys)[at], Ends(polys)[at], p, q);
      }
    }
  }

  // Edges no nearer than others, on either side, are at the same distance and as clear.
  lemma SameDistance(c: Point, h: real, polys: seq<seq<Point>>, others: seq<seq<Point>>)
    requires IsNoNearer(c, h, polys, others) && IsNoNearer(c, h, others, polys)
    ensures forall d :: IsDistance(c, h, polys, d) <==> IsDistance(c, h, others, d)
    ensures forall m :: KeepsClear(c, h, polys, m) <==> KeepsClear(c, h, others, m)
  {
    hide IsDistance, KeepsClear, IsNoNearer;
    forall d
      ensures IsDistance(c, h, polys, d) <==> IsDistance(c, h, others, d)
    {
      if IsDistance(c, h, polys, d) {
        AtMostFrom(c, h, polys, others, d);
      } else if IsDistance(c, h, others, d) {
        AtMostFrom(c, h, others, polys, d);
      }
    }
    forall m
      ensures KeepsClear(c, h, polys, m) <==> KeepsClear(c, h, others, m)
    {
      if KeepsClear(c, h, polys, m) {
        ClearFrom(c, h, polys, others, m);
      } else if KeepsClear(c, h, others, m) {
        ClearFrom(c, h, others, polys, m);
      }
    }
  }

  lemma AtMostFrom(c: Point, h: real, polys: seq<seq<Point>>, others: seq<seq<Point>>, d: real)
    requires IsNoNearer(c, h, polys, others) && IsNoNearer(c, h, others, polys) && IsDistance(c, h, polys, d)
    ensures IsDistance(c, h, others, d)
  {
    hide OnEdges, Dist2, InSquare, IsDistance;
    DistanceIs(c, h, polys, d);
    DistanceIs(c, h, others, d);
    forall p, q | InSquare(p, c, h) && OnEdges(others, q)
      ensures d <= Dist2(p, q)
    {
      assert HasNoFarther(c, h, polys, Dist2(p, q));
      var u, v :| InSquare(u, c, h) && OnEdges(polys, v) && Dist2(u, v) <= Dist2(p, q);
    }
    var p, q :| InSquare(p, c, h) && OnEdges(polys, q) && Dist2(p, q) == d;
    assert HasNoFarther(c, h, others, Dist2(p, q));
    var u, v :| InSquare(u, c, h) && OnEdges(others, v) && Dist2(u, v) <= Dist2(p, q);
    assert Dist2(u, v) == d;
  }

  lemma ClearFrom(c: Point, h: real, polys: seq<seq<Point>>, others: seq<seq<Point>>, m: real)
    requires IsNoNearer(c, h, others, polys) && KeepsClear(c, h, polys, m)
    ensures KeepsClear(c, h, others, m)
  {
    hide OnEdges, Dist2, InSquare, KeepsClear;
    ClearIs(c, h, polys, m);
    ClearIs(c, h, others, m);
    forall p, q | InSquare(p, c, h) && OnEdges(others, q)
      ensures Dist2(p, q) > 0.0 && (m <= 0.0 || Dist2(p, q) >= m * m)
    {
      assert HasNoFarther(c, h, polys, Dist2(p, q));
      var u, v :| InSquare(u, c, h) && OnEdges(polys, v) && Dist2(u, v) <= Dist2(p, q);
    }
  }

  // ---- the way into a lane crosses its outline ----

  lemma WayIn(left: seq<Point>, right: seq<Point>, closed: bool, p: Point, q: Point) returns (v: Point)
    requires |left| == |right| >= 2 && (closed ==> IsLoop(left, right))
             && InLane(left, right, p) != InLane(left, right, q)
    ensures OnEdges(Outline(left, right, closed), v) && OnSegment(v, p, q)
  {
    hide RingParity, LaneletRing, OnSegment, OnRing;
    var k := |left| - 1;
    var outline := Outline(left, right, closed);
    if closed {
      LoopParity(left, right, p);
      LoopParity(left, right, q);
      if RingParity(left[..k], p) != RingParity(left[..k], q) {
        v := RingCrossed(left[..k], p, q);
        assert OnRing(outline[0], v);
      } else {
        v := RingCrossed(right[..k], p, q);
        assert OnRing(outline[1], v);
      }
    } else {
      v := RingCrossed(LaneletRing(left, right, 0, k), p, q);
      assert OnRing(outline[0], v);
    }
  }

  lemma RingCrossed(ring: seq<Point>, p: Point, q: Point) returns (v: Point)
    requires RingParity(ring, p) != RingParity(ring, q)
    ensures OnRing(ring, v) && OnSegment(v, p, q)
  {
    hide RingParity, Closed;
    if forall e :: 0 <= e < |Closed(ring)| - 1 ==>
         !SquareInRing.SegmentsMeet(p, q, Closed(ring)[e], Closed(ring)[e + 1]) {
      SquareInRing.SegmentOnOneSide(ring, p, q);
      assert false;
    }
    var e :| 0 <= e < |Closed(ring)| - 1 && SquareInRing.SegmentsMeet(p, q, Closed(ring)[e], Closed(ring)[e + 1]);
    hide OnSegment;
    v :| OnSegment(v, p, q) && OnSegment(v, Closed(ring)[e], Closed(ring)[e + 1]);
  }

  // ---- what the inner ends count for ----

  // The ends of the lanelets run inside the lane.
  ghost predicate EndsInside(left: seq<Point>, right: seq<Point>, closed: bool, bounds: seq<nat>)
    requires |left| == |right| >= 2
  {
    forall q :: OnEnds(left, right, bounds, q) ==> InLane(left, right, q) || OnEdges(Outline(left, right, closed), q)
  }

  ghost predicate IsCutLane(polys: seq<seq<Point>>, left: seq<Point>, right: seq<Point>, closed: bool,
                            bounds: seq<nat>) {
    && |left| == |right| >= 2 && (closed ==> IsLoop(left, right))
    && IsCut(bounds, |left|) && (forall k :: 0 <= k < |bounds| ==> bounds[k] < |left|)
    && AreLaneletRings(polys, left, right, bounds)
  }

  // The outline is among the edges.
  lemma OutlineIsListed(polys: seq<seq<Point>>, left: seq<Point>, right: seq<Point>, closed: bool, bounds: seq<nat>,
                        q: Point)
    requires IsCutLane(polys, left, right, closed, bounds) && OnEdges(Outline(left, right, closed), q)
    ensures OnEdges(polys, q)
  {
    hide OnEdges, LaneletRing, OnSegment, OnBounds, AreLaneletRings;
    OnOutline(left, right, closed, q);
    OnPieces(polys, left, right, bounds, q);
    if !OnBounds(left, right, 0, |left| - 1, q) {
      assert OnSegment(q, left[bounds[0]], right[bounds[0]])
          || OnSegment(q, left[bounds[|bounds| - 1]], right[bounds[|bounds| - 1]]);
    }
  }

  lemma InSquareOnWay(c: Point, h: real, p: Point, v: Point)
    requires h >= 0.0 && InSquare(p, c, h) && OnSegment(v, c, p)
    ensures InSquare(v, c, h)
  {
    var t: real :| 0.0 <= t <= 1.0 && v == Along(c, p, t);
    AlongSquare(c, p, t, c, h);
  }

  // From a cell outside the lane an edge is no nearer than the outline: what is not of the outline
  // is inside, and the way there crosses it.
  lemma OutlineNoFarther(polys: seq<seq<Point>>, left: seq<Point>, right: seq<Point>, closed: bool, bounds: seq<nat>,
                         c: Point, h: real, p: Point, q: Point)
    requires IsCutLane(polys, left, right, closed, bounds) && EndsInside(left, right, closed, bounds)
    requires h >= 0.0 && !InLane(left, right, c) && InSquare(p, c, h) && OnEdges(polys, q)
    ensures HasNoFarther(c, h, Outline(left, right, closed), Dist2(p, q))
  {
    hide OnEdges, InLane, OnSegment, Outline, AreLaneletRings, Dist2;
    OnPieces(polys, left, right, bounds, q);
    OnOutline(left, right, closed, q);
    if OnEdges(Outline(left, right, closed), q) {
    } else if InLane(left, right, p) {
      var v := WayIn(left, right, closed, c, p);
      InSquareOnWay(c, h, p, v);
      Dist2Sign(p, q);
      Dist2Sign(v, v);
    } else {
      var v := WayIn(left, right, closed, p, q);
      SquareInRing.NearerOnTheWay(p, q, v);
    }
  }

  // The distance from a cell outside the lane, and whether it keeps clear, are those of the outline
  // when the inner ends run inside the lane.
  lemma OutlineDecides(polys: seq<seq<Point>>, left: seq<Point>, right: seq<Point>, closed: bool, bounds: seq<nat>,
                       c: Point, h: real)
    requires IsCutLane(polys, left, right, closed, bounds) && EndsInside(left, right, closed, bounds)
    requires h >= 0.0 && !InLane(left, right, c)
    ensures forall d :: IsDistance(c, h, polys, d) <==> IsDistance(c, h, Outline(left, right, closed), d)
    ensures forall m :: KeepsClear(c, h, polys, m) <==> KeepsClear(c, h, Outline(left, right, closed), m)
  {
    hide OnEdges, InLane, OnSegment, Outline, AreLaneletRings, Dist2, InSquare, IsDistance, KeepsClear, EndsInside,
           HasNoFarther;
    var outline := Outline(left, right, closed);
    forall p, q | InSquare(p, c, h) && OnEdges(polys, q)
      ensures HasNoFarther(c, h, outline, Dist2(p, q))
    {
      OutlineNoFarther(polys, left, right, closed, bounds, c, h, p, q);
    }
    forall p, q | InSquare(p, c, h) && OnEdges(outline, q)
      ensures HasNoFarther(c, h, polys, Dist2(p, q))
    {
      OutlineIsListed(polys, left, right, closed, bounds, q);
      ItsOwn(c, h, polys, p, q);
    }
    SameDistance(c, h, polys, outline);
  }

  lemma ItsOwn(c: Point, h: real, polys: seq<seq<Point>>, p: Point, q: Point)
    requires InSquare(p, c, h) && OnEdges(polys, q)
    ensures HasNoFarther(c, h, polys, Dist2(p, q))
  {
  }

  // And only then: an end with a point outside the lane, away from the outline, is nearer than the
  // outline to a cell about that point.
  lemma OutlineDecidesExactly(polys: seq<seq<Point>>, left: seq<Point>, right: seq<Point>, closed: bool,
                              bounds: seq<nat>)
    requires IsCutLane(polys, left, right, closed, bounds)
    ensures EndsInside(left, right, closed, bounds) <==>
              forall c, h, d | h >= 0.0 && !InLane(left, right, c) ::
                IsDistance(c, h, polys, d) <==> IsDistance(c, h, Outline(left, right, closed), d)
  {
    hide OnEdges, InLane, OnSegment, Outline, AreLaneletRings, Dist2, IsDistance, OnEnds;
    var outline := Outline(left, right, closed);
    if EndsInside(left, right, closed, bounds) {
      forall c, h, d | h >= 0.0 && !InLane(left, right, c)
        ensures IsDistance(c, h, polys, d) <==> IsDistance(c, h, outline, d)
      {
        OutlineDecides(polys, left, right, closed, bounds, c, h);
      }
    } else {
      var q :| OnEnds(left, right, bounds, q) && !InLane(left, right, q) && !OnEdges(outline, q);
      OnPieces(polys, left, right, bounds, q);
      AtItself(q, polys);
      assert !IsDistance(q, 0.0, outline, 0.0) by {
        if IsDistance(q, 0.0, outline, 0.0) {
          NotAway(q, outline);
          assert false;
        }
      }
    }
  }

  lemma AtItself(q: Point, polys: seq<seq<Point>>)
    requires OnEdges(polys, q)
    ensures IsDistance(q, 0.0, polys, 0.0)
  {
    DistanceIs(q, 0.0, polys, 0.0);
    hide OnEdges, IsDistance;
    forall u, v
      ensures Dist2(u, v) >= 0.0
    {
      Dist2Sign(u, v);
    }
    assert InSquare(q, q, 0.0) && Dist2(q, q) == 0.0;
  }

  lemma NotAway(q: Point, polys: seq<seq<Point>>)
    requires IsDistance(q, 0.0, polys, 0.0)
    ensures OnEdges(polys, q)
  {
    DistanceIs(q, 0.0, polys, 0.0);
    hide OnEdges, IsDistance;
    var u, v :| InSquare(u, q, 0.0) && OnEdges(polys, v) && Dist2(u, v) == 0.0;
    Dist2Sign(u, v);
    assert u == q;
  }
}
