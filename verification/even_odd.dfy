// Even-odd containment (scripts/map/check_lane_clearance.py) of the rings a lane is cut into
// (scripts/map/centerline_to_lanelet.py), and what cutting a lane does to containment.

module EvenOdd {
  import opened Planar

  // The ray from p to the right crosses the edge p1 -> p2.
  predicate Crosses(p1: Point, p2: Point, p: Point) {
    && (p1.y > p.y) != (p2.y > p.y)
    && p.x < p1.x + (p.y - p1.y) * (p2.x - p1.x) / (p2.y - p1.y)
  }

  predicate Xor(a: bool, b: bool) {
    a != b
  }

  // Whether the ray from p crosses an open chain of edges an odd number of times.
  predicate ChainParity(pts: seq<Point>, p: Point) {
    if |pts| < 2 then false
    else Xor(ChainParity(pts[..|pts| - 1], p), Crosses(pts[|pts| - 2], pts[|pts| - 1], p))
  }

  // The chain round a ring and back to its first point.
  function Closed(ring: seq<Point>): seq<Point> {
    if ring == [] then [] else ring + [ring[0]]
  }

  predicate RingParity(ring: seq<Point>, p: Point) {
    ChainParity(Closed(ring), p)
  }

  // The parity of a ring's first k edges.
  predicate PrefixParity(ring: seq<Point>, k: nat, p: Point)
    requires k <= |ring|
  {
    k > 0 && ChainParity(Closed(ring)[..k + 1], p)
  }

  // The ring rolled by one.
  function NextPoint(ring: seq<Point>, k: nat): Point
    requires k < |ring|
  {
    ring[(k + 1) % |ring|]
  }

  lemma NextIsClosed(ring: seq<Point>, k: nat)
    requires k < |ring|
    ensures |Closed(ring)| == |ring| + 1 && Closed(ring)[k] == ring[k] && Closed(ring)[k + 1] == NextPoint(ring, k)
  {
    if k + 1 < |ring| {
      assert (k + 1) % |ring| == k + 1;
    } else {
      assert (k + 1) % |ring| == 0;
    }
  }

  lemma NextEdge(ring: seq<Point>, k: nat, p: Point)
    requires k < |ring|
    ensures PrefixParity(ring, k + 1, p) == Xor(PrefixParity(ring, k, p), Crosses(ring[k], NextPoint(ring, k), p))
  {
    hide Crosses, ChainParity, NextPoint, Closed;
    NextIsClosed(ring, k);
    var c := Closed(ring);
    var d := c[..k + 2];
    assert d[..k + 1] == c[..k + 1] && d[k] == c[k] && d[k + 1] == c[k + 1];
    LastEdge(d, p);
    LastEdge(c[..1], p);
  }

  lemma LastEdge(s: seq<Point>, p: Point)
    ensures |s| < 2 ==> !ChainParity(s, p)
    ensures |s| >= 2 ==> ChainParity(s, p) == Xor(ChainParity(s[..|s| - 1], p), Crosses(s[|s| - 2], s[|s| - 1], p))
  {
    hide Crosses;
  }

  lemma AllEdges(ring: seq<Point>, p: Point)
    ensures PrefixParity(ring, |ring|, p) == RingParity(ring, p)
  {
    hide ChainParity;
    assert Closed(ring)[..|Closed(ring)|] == Closed(ring);
    LastEdge([], p);
  }

  // One bit per point, toggled by every edge of the ring, the closing one included.
  method Inside(ring: seq<Point>, pts: seq<Point>) returns (hit: seq<bool>)
    ensures |hit| == |pts| && forall i :: 0 <= i < |pts| ==> hit[i] == RingParity(ring, pts[i])
  {
    hide Crosses, PrefixParity, RingParity, NextPoint;
    var n := |ring|;
    hit := seq(|pts|, i => false);
    forall i | 0 <= i < |pts|
      ensures !PrefixParity(ring, 0, pts[i])
    {
      NothingYet(ring, pts[i]);
    }
    for k := 0 to n
      invariant |hit| == |pts| && forall i :: 0 <= i < |pts| ==> hit[i] == PrefixParity(ring, k, pts[i])
    {
      var p1, p2 := ring[k], NextPoint(ring, k);
      forall i | 0 <= i < |pts|
        ensures PrefixParity(ring, k + 1, pts[i]) == Xor(PrefixParity(ring, k, pts[i]), Crosses(p1, p2, pts[i]))
      {
        NextEdge(ring, k, pts[i]);
      }
      hit := seq(|pts|, i requires 0 <= i < |pts| => Xor(hit[i], Crosses(p1, p2, pts[i])));
    }
    forall i | 0 <= i < |pts|
      ensures hit[i] == RingParity(ring, pts[i])
    {
      AllEdges(ring, pts[i]);
    }
  }

  lemma NothingYet(ring: seq<Point>, p: Point)
    ensures !PrefixParity(ring, 0, p)
  {
  }

  // ---- chains ----

  lemma CrossesEitherWay(p1: Point, p2: Point, p: Point)
    ensures Crosses(p1, p2, p) == Crosses(p2, p1, p)
  {
  }

  lemma {:induction false} ChainJoin(a: seq<Point>, m: Point, b: seq<Point>, p: Point)
    ensures ChainParity(a + [m] + b, p) == Xor(ChainParity(a + [m], p), ChainParity([m] + b, p))
    decreases |b|
  {
    hide Crosses;
    var whole := a + [m] + b;
    if b == [] {
      assert whole == a + [m] && [m] + b == [m];
    } else {
      var c := b[..|b| - 1];
      ChainJoin(a, m, c, p);
      assert whole[..|whole| - 1] == a + [m] + c;
      assert ([m] + b)[..|b|] == [m] + c;
      assert whole[|whole| - 2] == ([m] + b)[|b| - 1];
    }
  }

  function Reversed<T>(s: seq<T>): (r: seq<T>)
    ensures |r| == |s| && forall i :: 0 <= i < |s| ==> r[i] == s[|s| - 1 - i]
  {
    seq(|s|, i requires 0 <= i < |s| => s[|s| - 1 - i])
  }

  lemma {:induction false} ChainReversed(s: seq<Point>, p: Point)
    ensures ChainParity(Reversed(s), p) == ChainParity(s, p)
    decreases |s|
  {
    hide Crosses;
    if |s| >= 2 {
      var n := |s|;
      var t := s[..n - 1];
      ChainReversed(t, p);
      var e, f := s[n - 1], s[n - 2];
      assert [f] + Reversed(t)[1..] == Reversed(t);
      assert Reversed(s) == [e] + [f] + Reversed(t)[1..];
      ChainJoin([e], f, Reversed(t)[1..], p);
      assert [e] + [f] == [e, f];
      EdgeParity(e, f, p);
      CrossesEitherWay(e, f, p);
    }
  }

  lemma EdgeParity(u: Point, v: Point, p: Point)
    ensures ChainParity([u, v], p) == Crosses(u, v, p)
  {
    assert [u, v][..1] == [u];
  }

  lemma ChainSplit(s: seq<Point>, i: nat, j: nat, k: nat, p: Point)
    requires i <= j <= k < |s|
    ensures ChainParity(s[i..k + 1], p) == Xor(ChainParity(s[i..j + 1], p), ChainParity(s[j..k + 1], p))
  {
    hide ChainParity;
    assert s[i..k + 1] == s[i..j] + [s[j]] + s[j + 1..k + 1];
    assert s[i..j + 1] == s[i..j] + [s[j]];
    assert s[j..k + 1] == [s[j]] + s[j + 1..k + 1];
    ChainJoin(s[i..j], s[j], s[j + 1..k + 1], p);
  }

  // ---- cutting a lane ----

  // The ring of the lanelet between two indices: the left bound as stored (backwards), then
  // the right bound's reverse.
  function LaneletRing(left: seq<Point>, right: seq<Point>, s0: nat, s1: nat): seq<Point>
    requires |left| == |right| && s0 <= s1 < |left|
  {
    Reversed(left[s0..s1 + 1]) + right[s0..s1 + 1]
  }

  // Increasing cut indices, the first and last of them the ends of the lane.
  ghost predicate IsCut(bounds: seq<nat>, n: nat) {
    && |bounds| >= 2
    && bounds[0] == 0 && bounds[|bounds| - 1] == n - 1
    && forall i :: 0 <= i < |bounds| - 1 ==> bounds[i] < bounds[i + 1]
  }

  // The parity over all lanelets of a cut, from index 0 to the last of the bounds.
  ghost predicate CutParity(left: seq<Point>, right: seq<Point>, bounds: seq<nat>, p: Point)
    requires |left| == |right| && forall i :: 0 <= i < |bounds| ==> bounds[i] < |left|
    requires forall i :: 0 <= i < |bounds| - 1 ==> bounds[i] < bounds[i + 1]
  {
    if |bounds| < 2 then false
    else Xor(CutParity(left, right, bounds[..|bounds| - 1], p),
             RingParity(LaneletRing(left, right, bounds[|bounds| - 2], bounds[|bounds| - 1]), p))
  }

  // A ring made of one chain backwards and another forwards is the two chains and the two
  // edges that join them.
  lemma RingOfChains(l: seq<Point>, r: seq<Point>, p: Point)
    requires |l| == |r| >= 1
    ensures var k := |l| - 1;
            RingParity(Reversed(l) + r, p) ==
            Xor(Xor(ChainParity(l, p), ChainParity(r, p)), Xor(Crosses(l[0], r[0], p), Crosses(l[k], r[k], p)))
  {
    hide ChainParity, Crosses;
    var k, m := |l| - 1, Reversed(l);
    assert m == m[..k] + [l[0]];
    assert Closed(m + r) == m[..k] + [l[0]] + (r + [l[k]]);
    ChainJoin(m[..k], l[0], r + [l[k]], p);
    JoinedBackChain(l[0], r, l[k], p);
    ChainReversed(l, p);
    CrossesEitherWay(r[k], l[k], p);
  }

  lemma JoinedBackChain(u: Point, r: seq<Point>, v: Point, p: Point)
    requires |r| >= 1
    ensures ChainParity([u] + (r + [v]), p) ==
            Xor(Xor(Crosses(u, r[0], p), ChainParity(r, p)), Crosses(r[|r| - 1], v, p))
  {
    hide ChainParity, Crosses;
    var k := |r| - 1;
    assert [u] + (r + [v]) == [u] + [r[0]] + (r[1..] + [v]);
    ChainJoin([u], r[0], r[1..] + [v], p);
    assert [r[0]] + (r[1..] + [v]) == r[..k] + [r[k]] + [v];
    ChainJoin(r[..k], r[k], [v], p);
    assert r[..k] + [r[k]] == r && [u] + [r[0]] == [u, r[0]] && [r[k]] + [v] == [r[k], v];
    EdgeParity(u, r[0], p);
    EdgeParity(r[k], v, p);
  }

  lemma LaneletRingParity(left: seq<Point>, right: seq<Point>, s0: nat, s1: nat, p: Point)
    requires |left| == |right| && s0 <= s1 < |left|
    ensures RingParity(LaneletRing(left, right, s0, s1), p) ==
            Xor(Xor(ChainParity(left[s0..s1 + 1], p), ChainParity(right[s0..s1 + 1], p)),
                Xor(Crosses(left[s0], right[s0], p), Crosses(left[s1], right[s1], p)))
  {
    hide ChainParity, Crosses, RingParity;
    RingOfChains(left[s0..s1 + 1], right[s0..s1 + 1], p);
  }

  // Cutting a lanelet in two: the cut's edge is counted twice.
  lemma CutInTwo(left: seq<Point>, right: seq<Point>, i: nat, j: nat, k: nat, p: Point)
    requires |left| == |right| && i <= j <= k < |left|
    ensures RingParity(LaneletRing(left, right, i, k), p) ==
            Xor(RingParity(LaneletRing(left, right, i, j), p), RingParity(LaneletRing(left, right, j, k), p))
  {
    hide ChainParity, Crosses, RingParity;
    LaneletRingParity(left, right, i, j, p);
    LaneletRingParity(left, right, j, k, p);
    LaneletRingParity(left, right, i, k, p);
    ChainSplit(left, i, j, k, p);
    ChainSplit(right, i, j, k, p);
  }

  lemma {:induction false} CutParityPrefix(left: seq<Point>, right: seq<Point>, bounds: seq<nat>, p: Point)
    requires |left| == |right| && |bounds| >= 2 && forall i :: 0 <= i < |bounds| ==> bounds[i] < |left|
    requires forall i :: 0 <= i < |bounds| - 1 ==> bounds[i] < bounds[i + 1]
    ensures bounds[0] < bounds[|bounds| - 1]
    ensures CutParity(left, right, bounds, p) ==
            RingParity(LaneletRing(left, right, bounds[0], bounds[|bounds| - 1]), p)
    decreases |bounds|
  {
    hide RingParity;
    var shorter := bounds[..|bounds| - 1];
    if |bounds| > 2 {
      CutParityPrefix(left, right, shorter, p);
      CutInTwo(left, right, bounds[0], bounds[|bounds| - 2], bounds[|bounds| - 1], p);
    } else {
      assert CutParity(left, right, shorter, p) == false;
    }
  }

  // Over any cut, the lanelets' parities add up to that of the uncut strip.
  lemma CutKeepsParity(left: seq<Point>, right: seq<Point>, bounds: seq<nat>, p: Point)
    requires |left| == |right| && IsCut(bounds, |left|)
    requires forall i :: 0 <= i < |bounds| ==> bounds[i] < |left|
    ensures CutParity(left, right, bounds, p) == RingParity(LaneletRing(left, right, 0, |left| - 1), p)
  {
    CutParityPrefix(left, right, bounds, p);
  }

  // For a closed loop, whose last points are its first ones again, that is the region
  // between the two bounds' rings.
  lemma LoopParity(left: seq<Point>, right: seq<Point>, p: Point)
    requires |left| == |right| >= 2
    requires left[|left| - 1] == left[0] && right[|right| - 1] == right[0]
    ensures var k := |left| - 1;
            RingParity(LaneletRing(left, right, 0, k), p) == Xor(RingParity(left[..k], p), RingParity(right[..k], p))
  {
    var k := |left| - 1;
    LaneletRingParity(left, right, 0, k, p);
    RingOfLoop(left, p);
    RingOfLoop(right, p);
    hide ChainParity, Crosses, RingParity, LaneletRing;
    assert left[0..k + 1] == left && right[0..k + 1] == right;
  }

  lemma RingOfLoop(loop: seq<Point>, p: Point)
    requires |loop| >= 2 && loop[|loop| - 1] == loop[0]
    ensures RingParity(loop[..|loop| - 1], p) == ChainParity(loop, p)
  {
    hide ChainParity;
    assert Closed(loop[..|loop| - 1]) == loop;
  }

  // A point with odd parity over a cut is inside at least one of its lanelets.
  lemma {:induction false} OddCutHasLanelet(left: seq<Point>, right: seq<Point>, bounds: seq<nat>, p: Point)
    returns (i: nat)
    requires |left| == |right| && forall i :: 0 <= i < |bounds| ==> bounds[i] < |left|
    requires forall i :: 0 <= i < |bounds| - 1 ==> bounds[i] < bounds[i + 1]
    requires CutParity(left, right, bounds, p)
    ensures i < |bounds| - 1 && RingParity(LaneletRing(left, right, bounds[i], bounds[i + 1]), p)
    decreases |bounds|
  {
    hide RingParity;
    i := |bounds| - 2;
    if !RingParity(LaneletRing(left, right, bounds[i], bounds[i + 1]), p) {
      i := OddCutHasLanelet(left, right, bounds[..|bounds| - 1], p);
    }
  }
}
