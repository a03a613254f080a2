// The clearance check as a whole (scripts/map/check_lane_clearance.py): which cells are inside
// a lanelet, how far the others are from the lane's edges, the verdict, and what a passing
// verdict says about the lane before it was cut into lanelets.

module LaneVerdict {
  import opened Planar
  import opened EvenOdd
  import opened ObstacleGrid
  import Minimum
  import SquareDistance
  import SquareInRing

  ghost predicate InsideAny(polys: seq<seq<Point>>, p: Point) {
    exists k :: 0 <= k < |polys| && RingParity(polys[k], p)
  }

  // The starts of all edges of the rings, and their ends: each ring rolled by one.
  function Starts(polys: seq<seq<Point>>): seq<Point> {
    if polys == [] then [] else Starts(polys[..|polys| - 1]) + polys[|polys| - 1]
  }

  function Rolled(ring: seq<Point>): (r: seq<Point>)
    ensures |r| == |ring|
  {
    if ring == [] then [] else ring[1..] + [ring[0]]
  }

  function Ends(polys: seq<seq<Point>>): (s: seq<Point>)
    ensures |s| == |Starts(polys)|
  {
    if polys == [] then [] else Ends(polys[..|polys| - 1]) + Rolled(polys[|polys| - 1])
  }

  // Every edge of a ring is one of those.
  lemma {:induction false} EdgeListed(polys: seq<seq<Point>>, k: nat, e: nat) returns (at: nat)
    requires k < |polys| && e + 1 < |Closed(polys[k])|
    ensures at < |Starts(polys)|
    ensures Starts(polys)[at] == Closed(polys[k])[e] && Ends(polys)[at] == Closed(polys[k])[e + 1]
    decreases |polys|
  {
    if k == |polys| - 1 {
      at := |Starts(polys[..k])| + e;
    } else {
      at := EdgeListed(polys[..|polys| - 1], k, e);
    }
  }

  ghost predicate IsClearance(cells: seq<Point>, h: real, polys: seq<seq<Point>>,
                              inside: seq<bool>, outside: seq<Point>, dist: seq<real>) {
    && |inside| == |cells|
    && (forall i :: 0 <= i < |cells| ==> (inside[i] <==> InsideAny(polys, cells[i])))
    && (forall i :: 0 <= i < |cells| && !inside[i] ==> cells[i] in outside)
    && (forall i :: 0 <= i < |outside| ==> outside[i] in cells && !InsideAny(polys, outside[i]))
    && |dist| == |outside|
    && (forall i :: 0 <= i < |dist| ==> SquareDistance.IsNearest(outside[i], h, Starts(polys), Ends(polys), dist[i]))
    && (forall i :: 0 <= i < |dist| ==>
        (dist[i] == 0.0 <==> SquareDistance.MeetsAny(outside[i], h, Starts(polys), Ends(polys))))
  }

  // The flags of all rings, or-ed together.
  method Flags(cells: seq<Point>, polys: seq<seq<Point>>) returns (inside: seq<bool>)
    ensures |inside| == |cells| && forall i :: 0 <= i < |cells| ==> (inside[i] <==> InsideAny(polys, cells[i]))
  {
    hide RingParity, InsideAny;
    inside := seq(|cells|, i => false);
    forall i | 0 <= i < |cells|
      ensures !InsideAny(polys[..0], cells[i])
    {
      InsideNone(cells[i]);
    }
    for k := 0 to |polys|
      invariant |inside| == |cells|
      invariant forall i :: 0 <= i < |cells| ==> (inside[i] <==> InsideAny(polys[..k], cells[i]))
    {
      var hit := Inside(polys[k], cells);
      inside := seq(|cells|, i requires 0 <= i < |cells| => inside[i] || hit[i]);
      forall i | 0 <= i < |cells|
        ensures inside[i] <==> InsideAny(polys[..k + 1], cells[i])
      {
        InsideOneMore(polys, k, cells[i]);
      }
    }
    assert polys[..|polys|] == polys;
  }

  lemma InsideNone(p: Point)
    ensures !InsideAny([], p)
  {
  }

  // The squared distances are taken chunk by chunk.
  method Distances(outside: seq<Point>, h: real, a: seq<Point>, b: seq<Point>, chunk: nat) returns (dist: seq<real>)
    requires h >= 0.0 && chunk >= 1 && |a| == |b| > 0
    ensures |dist| == |outside|
    ensures forall j :: 0 <= j < |dist| ==> SquareDistance.IsNearest(outside[j], h, a, b, dist[j])
    ensures forall j :: 0 <= j < |dist| ==> (dist[j] == 0.0 <==> SquareDistance.MeetsAny(outside[j], h, a, b))
  {
    hide SquareDistance.IsNearest, SquareDistance.MeetsAny;
    dist := [];
    var i := 0;
    while i < |outside|
      invariant |dist| == (if i < |outside| then i else |outside|)
      invariant forall j :: 0 <= j < |dist| ==> SquareDistance.IsNearest(outside[j], h, a, b, dist[j])
      invariant forall j :: 0 <= j < |dist| ==> (dist[j] == 0.0 <==> SquareDistance.MeetsAny(outside[j], h, a, b))
    {
      var stop := if i + chunk < |outside| then i + chunk else |outside|;
      var part := SquareDistance.SquareSegmentDistance2(outside[i..stop], h, a, b);
      dist := dist + part;
      i := i + chunk;
    }
  }

  method Clearance(cells: seq<Point>, h: real, polys: seq<seq<Point>>, chunk: nat)
    returns (inside: seq<bool>, outside: seq<Point>, dist: seq<real>)
    requires h >= 0.0 && chunk >= 1 && Starts(polys) != []
    ensures IsClearance(cells, h, polys, inside, outside, dist)
  {
    hide InsideAny, SquareDistance.IsNearest, SquareDistance.MeetsAny, Starts, Ends;
    inside := Flags(cells, polys);
    outside := [];
    for i := 0 to |cells|
      invariant forall j :: 0 <= j < i && !inside[j] ==> cells[j] in outside
      invariant forall j :: 0 <= j < |outside| ==> outside[j] in cells && !InsideAny(polys, outside[j])
    {
      if !inside[i] {
        outside := outside + [cells[i]];
      }
    }
    dist := Distances(outside, h, Starts(polys), Ends(polys), chunk);
  }

  lemma InsideOneMore(polys: seq<seq<Point>>, k: nat, p: Point)
    requires k < |polys|
    ensures InsideAny(polys[..k + 1], p) <==> InsideAny(polys[..k], p) || RingParity(polys[k], p)
  {
    hide RingParity;
    if RingParity(polys[k], p) {
      assert polys[..k + 1][k] == polys[k];
    }
    if InsideAny(polys[..k], p) {
      var j :| 0 <= j < k && RingParity(polys[..k][j], p);
      assert polys[..k + 1][j] == polys[j];
    }
  }

  // Exit status 0: nothing inside, nothing touching, nothing nearer than minClearance (compared
  // in squares: a negative minimum asks for nothing).
  method Verdict(cells: seq<Point>, h: real, polys: seq<seq<Point>>, chunk: nat, minClearance: real) returns (ok: bool)
    requires h >= 0.0 && chunk >= 1 && Starts(polys) != []
    ensures ok <==> Passes(cells, h, polys, minClearance)
  {
    hide SquareDistance.IsNearest, SquareDistance.MeetsAny;
    var inside, outside, dist := Clearance(cells, h, polys, chunk);
    ok := false;
    if exists i :: 0 <= i < |inside| && inside[i] {
      return;
    }
    if dist != [] {
      var at := Minimum.ArgMin(dist);
      NonNegative(outside[at], h, Starts(polys), Ends(polys), dist[at]);
      FarEnough(cells, h, polys, minClearance, inside, outside, dist, at);
      ok := dist[at] > 0.0 && (minClearance <= 0.0 || dist[at] >= minClearance * minClearance);
    } else {
      ok := true;
    }
  }

  lemma NonNegative(c: Point, h: real, a: seq<Point>, b: seq<Point>, d: real)
    requires |a| == |b| && SquareDistance.IsNearest(c, h, a, b, d)
    ensures d >= 0.0
  {
    hide Dist2;
    var k, p, q :| 0 <= k < |a| && SquareDistance.IsPair(c, h, a[k], b[k], p, q) && Dist2(p, q) == d;
    Dist2Sign(p, q);
  }

  // No point of the square is nearer than m to a point of an edge of the rings.
  ghost predicate KeepsClear(c: Point, h: real, polys: seq<seq<Point>>, m: real) {
    forall k, p, q | 0 <= k < |Starts(polys)| && SquareDistance.IsPair(c, h, Starts(polys)[k], Ends(polys)[k], p, q) ::
      Dist2(p, q) > 0.0 && (m <= 0.0 || Dist2(p, q) >= m * m)
  }

  ghost predicate Passes(cells: seq<Point>, h: real, polys: seq<seq<Point>>, minClearance: real) {
    forall c | c in cells :: !InsideAny(polys, c) && KeepsClear(c, h, polys, minClearance)
  }

  // The nearest distance is beyond the minimum exactly when all pairs are.
  lemma NearestDecides(c: Point, h: real, polys: seq<seq<Point>>, m: real, d: real)
    requires SquareDistance.IsNearest(c, h, Starts(polys), Ends(polys), d)
    ensures KeepsClear(c, h, polys, m) <==> d > 0.0 && (m <= 0.0 || d >= m * m)
  {
    hide Dist2, SquareDistance.IsPair;
    var a, b := Starts(polys), Ends(polys);
    var k, p, q :| 0 <= k < |a| && SquareDistance.IsPair(c, h, a[k], b[k], p, q) && Dist2(p, q) == d;
  }

  lemma FarEnough(cells: seq<Point>, h: real, polys: seq<seq<Point>>, m: real,
                  inside: seq<bool>, outside: seq<Point>, dist: seq<real>, at: nat)
    requires IsClearance(cells, h, polys, inside, outside, dist)
    requires forall i :: 0 <= i < |inside| ==> !inside[i]
    requires at < |dist| && forall i :: 0 <= i < |dist| ==> dist[at] <= dist[i]
    ensures Passes(cells, h, polys, m) <==> dist[at] > 0.0 && (m <= 0.0 || dist[at] >= m * m)
  {
    hide SquareDistance.IsNearest, SquareDistance.MeetsAny, InsideAny, KeepsClear;
    forall i | 0 <= i < |dist|
      ensures KeepsClear(outside[i], h, polys, m) <==> dist[i] > 0.0 && (m <= 0.0 || dist[i] >= m * m)
    {
      NearestDecides(outside[i], h, polys, m, dist[i]);
    }
    assert outside[at] in cells;
    if dist[at] > 0.0 && (m <= 0.0 || dist[at] >= m * m) {
      forall c | c in cells
        ensures !InsideAny(polys, c) && KeepsClear(c, h, polys, m)
      {
        var i :| 0 <= i < |cells| && cells[i] == c;
        assert c in outside;
        var j :| 0 <= j < |outside| && outside[j] == c;
      }
    }
  }

  // ---- what a pass means ----

  lemma PairOfMeeting(c: Point, h: real, a: Point, b: Point) returns (p: Point)
    requires SquareDistance.Meets(c, h, a, b)
    ensures SquareDistance.IsPair(c, h, a, b, p, p)
  {
    p :| InSquare(p, c, h) && OnSegment(p, a, b);
  }

  // A square that passes touches no edge of any ring, so all of it is outside every ring.
  lemma PassedSquareOutside(c: Point, h: real, polys: seq<seq<Point>>, m: real, k: nat, p: Point)
    requires h >= 0.0 && k < |polys| && InSquare(p, c, h)
    requires !InsideAny(polys, c) && KeepsClear(c, h, polys, m)
    ensures !RingParity(polys[k], p)
  {
    hide RingParity, SquareDistance.Meets, Dist2;
    var ring := polys[k];
    forall e | 0 <= e < |Closed(ring)| - 1
      ensures !SquareDistance.Meets(c, h, Closed(ring)[e], Closed(ring)[e + 1])
    {
      if SquareDistance.Meets(c, h, Closed(ring)[e], Closed(ring)[e + 1]) {
        var at := EdgeListed(polys, k, e);
        var q := PairOfMeeting(c, h, Closed(ring)[e], Closed(ring)[e + 1]);
        Dist2Sign(q, q);
        assert false;
      }
    }
    SquareInRing.SquareOnOneSide(ring, c, h, c, p);
  }

  // The rings of the lanelets of a cut.
  ghost predicate AreLaneletRings(polys: seq<seq<Point>>, left: seq<Point>, right: seq<Point>, bounds: seq<nat>)
    requires |left| == |right| && forall i :: 0 <= i < |bounds| ==> bounds[i] < |left|
    requires forall i :: 0 <= i < |bounds| - 1 ==> bounds[i] < bounds[i + 1]
  {
    |polys| == |bounds| - 1
    && forall i :: 0 <= i < |polys| ==> polys[i] == LaneletRing(left, right, bounds[i], bounds[i + 1])
  }

  // When the check passes, no point of any occupied cell is in the lane the lanelets were cut
  // from: testing centres against the pieces tests whole cells against the whole.
  lemma PassMeansLaneClear(g: Grid, cells: seq<Point>, polys: seq<seq<Point>>, m: real, left: seq<Point>,
                           right: seq<Point>, bounds: seq<nat>, i: int, j: int, p: Point)
    requires g.cell > 0.0 && |left| == |right| && IsCut(bounds, |left|)
    requires forall k :: 0 <= k < |bounds| ==> bounds[k] < |left|
    requires AreLaneletRings(polys, left, right, bounds)
    requires Passes(cells, g.cell / 2.0, polys, m)
    requires g.Occupied(i, j) && g.Centre(i, j) in cells
    requires InSquare(p, g.Centre(i, j), g.cell / 2.0)
    ensures !RingParity(LaneletRing(left, right, 0, |left| - 1), p)
    ensures forall k :: 0 <= k < |polys| ==> !RingParity(polys[k], p)
  {
    hide RingParity, LaneletRing, KeepsClear, InsideAny;
    var c, h := g.Centre(i, j), g.cell / 2.0;
    forall k | 0 <= k < |polys|
      ensures !RingParity(polys[k], p)
    {
      PassedSquareOutside(c, h, polys, m, k, p);
    }
    CutKeepsParity(left, right, bounds, p);
    if CutParity(left, right, bounds, p) {
      var _ := OddCutHasLanelet(left, right, bounds, p);
      assert false;
    }
  }

  // Cutting hides nothing: a cell centre inside the uncut lane is inside some lanelet, and so
  // fails the check.
  lemma CutHidesNothing(cells: seq<Point>, h: real, polys: seq<seq<Point>>, m: real,
                        left: seq<Point>, right: seq<Point>, bounds: seq<nat>, c: Point)
    requires |left| == |right| && IsCut(bounds, |left|)
    requires forall k :: 0 <= k < |bounds| ==> bounds[k] < |left|
    requires AreLaneletRings(polys, left, right, bounds)
    requires c in cells && RingParity(LaneletRing(left, right, 0, |left| - 1), c)
    ensures InsideAny(polys, c) && !Passes(cells, h, polys, m)
  {
    hide RingParity, LaneletRing, KeepsClear;
    CutKeepsParity(left, right, bounds, c);
    var k := OddCutHasLanelet(left, right, bounds, c);
    assert RingParity(polys[k], c);
  }
}
