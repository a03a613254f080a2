// Reading back what was built: the rings and the hand-over points the readers find in a built
// document are those of the lane it was built from
// (scripts/map/centerline_to_lanelet.py, scripts/map/check_lane_clearance.py,
// scripts/testing/sim_loop_drive.py).

module RoundTrip {
  import opened Options
  import opened Planar
  import opened LaneletDoc
  import opened LaneletReaders
  import EvenOdd

  // A base document both readers accept, with no lanelets of its own.
  ghost predicate IsBase(base: Doc) {
    TablesReadable(base) && Lanelets(base.relations) == []
  }

  // A bound of the lane as its nodes hold it.
  function AsWritten(bound: seq<Point>, closed: bool): (s: seq<Point>)
    ensures |s| == |bound|
    ensures forall i :: 0 <= i < |s| ==> s[i] == WrittenPoint(bound[Source(|bound|, closed, i)])
  {
    seq(|bound|, i requires 0 <= i < |bound| => WrittenPoint(bound[Source(|bound|, closed, i)]))
  }

  // ---- looking ids up in a document that has grown ----

  lemma {:induction false} PositionInBase(base: seq<Node>, more: seq<Node>, id: int)
    requires forall i :: 0 <= i < |more| ==> more[i].id != id
    ensures Position(base + more, id) == Position(base, id)
    decreases |more|
  {
    if more == [] {
      assert base + more == base;
    } else {
      var k := |more| - 1;
      assert (base + more)[..|base + more| - 1] == base + more[..k];
      PositionInBase(base, more[..k], id);
    }
  }

  lemma {:induction false} PositionOfNew(base: seq<Node>, more: seq<Node>, j: nat)
    requires j < |more| && more[j].localX.Some? && more[j].localY.Some?
    requires forall i :: j < i < |more| ==> more[i].id != more[j].id
    ensures Position(base + more, more[j].id) == Some(Point(more[j].localX.value, more[j].localY.value))
  {
    assert base + more == (base + more[..j + 1]) + more[j + 1..];
    PositionInBase(base + more[..j + 1], more[j + 1..], more[j].id);
    assert (base + more[..j + 1])[..|base| + j] == base + more[..j];
  }

  lemma {:induction false} WayRefsAfter(ways: seq<Way>, more: seq<Way>, id: int)
    requires forall i :: 0 <= i < |more| ==> more[i].id != id
    ensures WayRefs(ways + more, id) == WayRefs(ways, id)
    decreases |more|
  {
    if more == [] {
      assert ways + more == ways;
    } else {
      var k := |more| - 1;
      assert (ways + more)[..|ways + more| - 1] == ways + more[..k];
      WayRefsAfter(ways, more[..k], id);
    }
  }

  lemma WayRefsOfNew(ways: seq<Way>, more: seq<Way>, j: nat)
    requires j < |more| && forall i :: j < i < |more| ==> more[i].id != more[j].id
    ensures WayRefs(ways + more, more[j].id) == Some(more[j].refs)
  {
    assert ways + more == (ways + more[..j + 1]) + more[j + 1..];
    WayRefsAfter(ways + more[..j + 1], more[j + 1..], more[j].id);
  }

  lemma {:induction false} LaneletsAppended(base: seq<Relation>, more: seq<Relation>)
    requires Lanelets(base) == [] && forall i :: 0 <= i < |more| ==> more[i].isLanelet
    ensures Lanelets(base + more) == more
    decreases |more|
  {
    if more == [] {
      assert base + more == base;
    } else {
      var k := |more| - 1;
      assert (base + more)[..|base + more| - 1] == base + more[..k];
      LaneletsAppended(base, more[..k]);
    }
  }

  lemma {:induction false} PositionIsOfId(nodes: seq<Node>, id: int) returns (i: nat)
    requires Position(nodes, id).Some?
    ensures i < |nodes| && nodes[i].id == id
  {
    var k := |nodes| - 1;
    if nodes[k].id == id { i := k; } else { i := PositionIsOfId(nodes[..k], id); }
  }

  // ---- the new elements ----

  lemma {:induction false} LaneNodeIds(nid: int, left: seq<Point>, right: seq<Point>, m: nat)
    requires m <= |left| == |right|
    ensures forall t :: 0 <= t < 2 * m ==> LaneNodes(nid, left, right, m)[t].id == nid + t
    ensures forall t :: 0 <= t < 2 * m ==> LaneNodes(nid, left, right, m)[t].localX.Some?
                                           && LaneNodes(nid, left, right, m)[t].localY.Some?
  {
    if m > 0 {
      LaneNodeIds(nid, left, right, m - 1);
    }
  }

  lemma {:induction false} LaneWayIds(wid: int, leftIds: seq<int>, rightIds: seq<int>, ranges: seq<(int, int)>)
    requires |leftIds| == |rightIds| && AreRanges(ranges, |leftIds|)
    ensures forall t :: 0 <= t < 2 * |ranges| ==> LaneWays(wid, leftIds, rightIds, ranges)[t].id == wid + t
    decreases |ranges|
  {
    if ranges != [] {
      LaneWayIds(wid, leftIds, rightIds, ranges[..|ranges| - 1]);
    }
  }

  // The node of a sample, on either side, holds the bound's point there.
  lemma BoundPosition(doc: Doc, base: Doc, offset: nat, left: seq<Point>, right: seq<Point>, closed: bool,
                      ranges: seq<(int, int)>, speeds: seq<real>, i: nat)
    requires |left| == |right| == |speeds| >= (if closed then 2 else 1) && AreRanges(ranges, |left|)
    requires IsBuilt(doc, base, offset, left, right, closed, ranges, speeds) && i < |left|
    ensures var nid := NODE_ID0 + offset;
            && Position(doc.nodes, BoundIds(nid, |left|, closed, 0)[i]) == Some(AsWritten(left, closed)[i])
            && Position(doc.nodes, BoundIds(nid, |left|, closed, 1)[i]) == Some(AsWritten(right, closed)[i])
  {
    hide LaneNodes;
    var n, nid := |left|, NODE_ID0 + offset;
    var m := if closed then n - 1 else n;
    var more, j := LaneNodes(nid, left, right, m), Source(n, closed, i);
    LaneNodeIds(nid, left, right, m);
    LaneNodesAt(nid, left, right, m, j);
    PositionOfNew(base.nodes, more, 2 * j);
    PositionOfNew(base.nodes, more, 2 * j + 1);
  }

  // The two ways of a lanelet, as the reader finds them.
  lemma RangeWays(doc: Doc, base: Doc, offset: nat, left: seq<Point>, right: seq<Point>, closed: bool,
                  ranges: seq<(int, int)>, speeds: seq<real>, j: nat)
    requires |left| == |right| == |speeds| >= (if closed then 2 else 1) && AreRanges(ranges, |left|)
    requires IsBuilt(doc, base, offset, left, right, closed, ranges, speeds) && j < |ranges|
    ensures var n, nid, wid := |left|, NODE_ID0 + offset, WAY_ID0 + offset;
            && WayRefs(doc.ways, wid + 2 * j) == Some(LaneWay(wid + 2 * j, BoundIds(nid, n, closed, 0), ranges[j]).refs)
            && WayRefs(doc.ways, wid + 2 * j + 1)
                 == Some(LaneWay(wid + 2 * j + 1, BoundIds(nid, n, closed, 1), ranges[j]).refs)
  {
    hide LaneWays;
    var n, nid, wid := |left|, NODE_ID0 + offset, WAY_ID0 + offset;
    var l, r := BoundIds(nid, n, closed, 0), BoundIds(nid, n, closed, 1);
    LaneWayIds(wid, l, r, ranges);
    LaneWaysAt(wid, l, r, ranges, j);
    WayRefsOfNew(base.ways, LaneWays(wid, l, r, ranges), 2 * j);
    WayRefsOfNew(base.ways, LaneWays(wid, l, r, ranges), 2 * j + 1);
  }

  lemma LaneMembers(wid: int, rid: int, j: nat, speed: real)
    ensures var ms := LaneRelation(wid, rid, j, speed).members;
            RoleRef(ms, "left") == Some(wid + 2 * j) && RoleRef(ms, "right") == Some(wid + 2 * j + 1)
  {
    var ms := LaneRelation(wid, rid, j, speed).members;
    assert ms[..1][0].role == "left";
    assert "left"[0] != "right"[0];
  }

  // The points of one bound of a lanelet: the lane's, backwards.
  lemma RangePoints(doc: Doc, base: Doc, offset: nat, left: seq<Point>, right: seq<Point>, closed: bool,
                    ranges: seq<(int, int)>, speeds: seq<real>, j: nat)
    requires |left| == |right| == |speeds| >= (if closed then 2 else 1) && AreRanges(ranges, |left|)
    requires IsBuilt(doc, base, offset, left, right, closed, ranges, speeds) && j < |ranges|
    ensures var rel := LaneRelation(WAY_ID0 + offset, REL_ID0 + offset, j, speeds[ranges[j].0]);
            var (s0, s1) := ranges[j];
            && RingReadable(doc, rel)
            && RolePoints(doc, rel, "left") == Some(EvenOdd.Reversed(AsWritten(left, closed)[s0..s1 + 1]))
            && RolePoints(doc, rel, "right") == Some(EvenOdd.Reversed(AsWritten(right, closed)[s0..s1 + 1]))
  {
    hide Position, WayRefs, RoleRef, PointsOf;
    var rel := LaneRelation(WAY_ID0 + offset, REL_ID0 + offset, j, speeds[ranges[j].0]);
    LaneMembers(WAY_ID0 + offset, REL_ID0 + offset, j, speeds[ranges[j].0]);
    RangeWays(doc, base, offset, left, right, closed, ranges, speeds, j);
    ReversedPoints(doc, base, offset, left, right, closed, ranges, speeds, j, 0);
    ReversedPoints(doc, base, offset, left, right, closed, ranges, speeds, j, 1);
  }

  lemma RangeBounds(ranges: seq<(int, int)>, n: nat, j: nat)
    requires AreRanges(ranges, n) && j < |ranges|
    ensures 0 <= ranges[j].0 < ranges[j].1 < n
  {
  }

  function Side(left: seq<Point>, right: seq<Point>, side: int): seq<Point> {
    if side == 0 then left else right
  }

  lemma ReversedPoints(doc: Doc, base: Doc, offset: nat, left: seq<Point>, right: seq<Point>, closed: bool,
                       ranges: seq<(int, int)>, speeds: seq<real>, j: nat, side: int)
    requires |left| == |right| == |speeds| >= (if closed then 2 else 1) && AreRanges(ranges, |left|)
    requires IsBuilt(doc, base, offset, left, right, closed, ranges, speeds) && j < |ranges| && 0 <= side <= 1
    ensures var ids := BoundIds(NODE_ID0 + offset, |left|, closed, side);
            PointsOf(doc.nodes, LaneWay(WAY_ID0 + offset + 2 * j + side, ids, ranges[j]).refs)
            == Some(EvenOdd.Reversed(AsWritten(Side(left, right, side), closed)[ranges[j].0..ranges[j].1 + 1]))
  {
    hide Position, PointsOf, IsBuilt, BoundIds, AsWritten, AreRanges, EvenOdd.Reversed;
    RangeBounds(ranges, |left|, j);
    var (s0, s1) := ranges[j];
    var ids, pts := BoundIds(NODE_ID0 + offset, |left|, closed, side), AsWritten(Side(left, right, side), closed);
    var refs, back := EvenOdd.Reversed(ids[s0..s1 + 1]), EvenOdd.Reversed(pts[s0..s1 + 1]);
    forall i | 0 <= i < |refs|
      ensures Some(back[i]) == Position(doc.nodes, refs[i])
    {
      BackwardsAt(ids, s0, s1, i);
      BackwardsAt(pts, s0, s1, i);
      BoundPosition(doc, base, offset, left, right, closed, ranges, speeds, s1 - i);
    }
    TheirPoints(doc.nodes, refs, back);
  }

  lemma BackwardsAt<T>(s: seq<T>, s0: nat, s1: nat, i: nat)
    requires s0 <= s1 < |s| && i <= s1 - s0
    ensures EvenOdd.Reversed(s[s0..s1 + 1])[i] == s[s1 - i]
  {
  }

  // ---- the round trips ----

  // Everything the clearance check looks up is found, and each ring is the lanelet's.
  lemma RingsReadBack(doc: Doc, base: Doc, offset: nat, left: seq<Point>, right: seq<Point>, closed: bool,
                      ranges: seq<(int, int)>, speeds: seq<real>)
    requires |left| == |right| == |speeds| >= (if closed then 2 else 1) && AreRanges(ranges, |left|)
    requires IsBuilt(doc, base, offset, left, right, closed, ranges, speeds) && IsBase(base)
    ensures TablesReadable(doc) && |Lanelets(doc.relations)| == |ranges|
    ensures forall j :: 0 <= j < |ranges| ==>
              && RingReadable(doc, Lanelets(doc.relations)[j])
              && IsRing(doc, Lanelets(doc.relations)[j],
                        EvenOdd.LaneletRing(AsWritten(left, closed), AsWritten(right, closed), ranges[j].0,
                                            ranges[j].1))
              && Lanelets(doc.relations)[j].speed == Some(speeds[ranges[j].0])
  {
    hide RingReadable, RolePoints, IsBuilt, TablesReadable;
    BuiltRelations(doc, base, offset, left, right, closed, ranges, speeds);
    BuiltTables(doc, base, offset, left, right, closed, ranges, speeds);
    forall j | 0 <= j < |ranges|
      ensures RingReadable(doc, Lanelets(doc.relations)[j])
      ensures IsRing(doc, Lanelets(doc.relations)[j],
                     EvenOdd.LaneletRing(AsWritten(left, closed), AsWritten(right, closed), ranges[j].0, ranges[j].1))
    {
      RangePoints(doc, base, offset, left, right, closed, ranges, speeds, j);
      var r := AsWritten(right, closed)[ranges[j].0..ranges[j].1 + 1];
      assert EvenOdd.Reversed(EvenOdd.Reversed(r)) == r;
    }
  }

  lemma BuiltRelations(doc: Doc, base: Doc, offset: nat, left: seq<Point>, right: seq<Point>, closed: bool,
                       ranges: seq<(int, int)>, speeds: seq<real>)
    requires |left| == |right| == |speeds| >= (if closed then 2 else 1) && AreRanges(ranges, |left|)
    requires IsBuilt(doc, base, offset, left, right, closed, ranges, speeds) && Lanelets(base.relations) == []
    ensures Lanelets(doc.relations) == LaneRelations(WAY_ID0 + offset, REL_ID0 + offset, ranges, speeds)
  {
    LaneletsAppended(base.relations, LaneRelations(WAY_ID0 + offset, REL_ID0 + offset, ranges, speeds));
  }

  // The base's ways still resolve, to the same nodes, and the new ones do.
  lemma BuiltTables(doc: Doc, base: Doc, offset: nat, left: seq<Point>, right: seq<Point>, closed: bool,
                    ranges: seq<(int, int)>, speeds: seq<real>)
    requires |left| == |right| == |speeds| >= (if closed then 2 else 1) && AreRanges(ranges, |left|)
    requires IsBuilt(doc, base, offset, left, right, closed, ranges, speeds) && TablesReadable(base)
    ensures TablesReadable(doc)
  {
    hide LaneNodes, LaneWays, Position, PointsOf;
    var n, nid, wid := |left|, NODE_ID0 + offset, WAY_ID0 + offset;
    var m, k := if closed then n - 1 else n, |base.ways|;
    var l, r := BoundIds(nid, n, closed, 0), BoundIds(nid, n, closed, 1);
    var more := LaneWays(wid, l, r, ranges);
    LaneNodeIds(nid, left, right, m);
    forall i | 0 <= i < |doc.ways|
      ensures PointsOf(doc.nodes, doc.ways[i].refs).Some?
    {
      if i < k {
        BaseWayResolves(doc, base, offset, LaneNodes(nid, left, right, m), base.ways[i].refs);
      } else {
        var j := (i - k) / 2;
        assert doc.ways[i] == more[i - k];
        LaneWaysAt(wid, l, r, ranges, j);
        ReversedPoints(doc, base, offset, left, right, closed, ranges, speeds, j, (i - k) % 2);
      }
    }
  }

  lemma BaseWayResolves(doc: Doc, base: Doc, offset: nat, more: seq<Node>, refs: seq<int>)
    requires forall i :: i in Ids(base) ==> i < NODE_ID0 + offset
    requires doc.nodes == base.nodes + more && forall t :: 0 <= t < |more| ==> more[t].id >= NODE_ID0 + offset
    requires PointsOf(base.nodes, refs).Some?
    ensures PointsOf(doc.nodes, refs).Some?
  {
    hide Position;
    forall i | 0 <= i < |refs|
      ensures Position(doc.nodes, refs[i]).Some?
    {
      var at := PositionIsOfId(base.nodes, refs[i]);
      assert Ids(base)[at] == refs[i] && Ids(base)[at] in Ids(base);
      PositionInBase(base.nodes, more, refs[i]);
    }
  }

  // What the simulator driver reads: for each lanelet, the written midpoints of its end and
  // its start, in that order since the bounds are stored backwards.
  lemma HandOversReadBack(doc: Doc, base: Doc, offset: nat, left: seq<Point>, right: seq<Point>, closed: bool,
                          ranges: seq<(int, int)>, speeds: seq<real>, j: nat)
    requires |left| == |right| == |speeds| >= (if closed then 2 else 1) && AreRanges(ranges, |left|)
    requires IsBuilt(doc, base, offset, left, right, closed, ranges, speeds) && IsBase(base)
    requires j < |ranges|
    ensures |Lanelets(doc.relations)| == |ranges| && EndsReadable(doc, Lanelets(doc.relations)[j])
    ensures var l, r := AsWritten(left, closed), AsWritten(right, closed);
            var rel, (s0, s1) := Lanelets(doc.relations)[j], ranges[j];
            End(doc, rel, false) == Midpoint(l[s1], r[s1]) && End(doc, rel, true) == Midpoint(l[s0], r[s0])
  {
    hide LaneNodes, LaneWays, Position, WayRefs, RoleRef, LaneWay, BoundIds, AsWritten, IsBuilt;
    var nid, wid := NODE_ID0 + offset, WAY_ID0 + offset;
    BuiltRelations(doc, base, offset, left, right, closed, ranges, speeds);
    LaneMembers(wid, REL_ID0 + offset, j, speeds[ranges[j].0]);
    RangeWays(doc, base, offset, left, right, closed, ranges, speeds, j);
    LaneWayEnds(wid + 2 * j, BoundIds(nid, |left|, closed, 0), ranges[j]);
    LaneWayEnds(wid + 2 * j + 1, BoundIds(nid, |left|, closed, 1), ranges[j]);
    BoundPosition(doc, base, offset, left, right, closed, ranges, speeds, ranges[j].0);
    BoundPosition(doc, base, offset, left, right, closed, ranges, speeds, ranges[j].1);
  }

  lemma LaneWayEnds(wid: int, ids: seq<int>, range: (int, int))
    requires 0 <= range.0 <= range.1 < |ids|
    ensures var refs := LaneWay(wid, ids, range).refs;
            |refs| >= 1 && refs[0] == ids[range.1] && refs[|refs| - 1] == ids[range.0]
  {
  }

  // The node ids of one bound of a lanelet, as the readers find them in the document.
  ghost function BoundRefs(doc: Doc, rel: Relation, role: string): seq<int> {
    var ref := RoleRef(rel.members, role);
    if ref.None? || WayRefs(doc.ways, ref.value).None? then [] else WayRefs(doc.ways, ref.value).value
  }

  lemma BuiltRefs(doc: Doc, base: Doc, offset: nat, left: seq<Point>, right: seq<Point>, closed: bool,
                  ranges: seq<(int, int)>, speeds: seq<real>, j: nat)
    requires |left| == |right| == |speeds| >= (if closed then 2 else 1) && AreRanges(ranges, |left|)
    requires IsBuilt(doc, base, offset, left, right, closed, ranges, speeds) && IsBase(base) && j < |ranges|
    ensures |Lanelets(doc.relations)| == |ranges|
    ensures var n, nid, wid, rel := |left|, NODE_ID0 + offset, WAY_ID0 + offset, Lanelets(doc.relations)[j];
            && BoundRefs(doc, rel, "left") == LaneWay(wid + 2 * j, BoundIds(nid, n, closed, 0), ranges[j]).refs
            && BoundRefs(doc, rel, "right") == LaneWay(wid + 2 * j + 1, BoundIds(nid, n, closed, 1), ranges[j]).refs
  {
    hide WayRefs, RoleRef, LaneWay, BoundIds, IsBuilt, Lanelets;
    BuiltRelations(doc, base, offset, left, right, closed, ranges, speeds);
    LaneMembers(WAY_ID0 + offset, REL_ID0 + offset, j, speeds[ranges[j].0]);
    RangeWays(doc, base, offset, left, right, closed, ranges, speeds, j);
  }

  // In the built document a lanelet that ends at the index the next one starts at shares both of
  // its end nodes with it, and so does the last lanelet of a loop with the first.
  lemma SharedNodes(doc: Doc, base: Doc, offset: nat, left: seq<Point>, right: seq<Point>, closed: bool,
                    ranges: seq<(int, int)>, speeds: seq<real>, i: nat, j: nat)
    requires |left| == |right| == |speeds| >= (if closed then 2 else 1) && AreRanges(ranges, |left|)
    requires IsBuilt(doc, base, offset, left, right, closed, ranges, speeds) && IsBase(base)
    requires i < |ranges| && j < |ranges|
    requires ranges[i].1 == ranges[j].0 || (closed && ranges[i].1 == |left| - 1 && ranges[j].0 == 0)
    ensures |Lanelets(doc.relations)| == |ranges|
    ensures var a, b := Lanelets(doc.relations)[i], Lanelets(doc.relations)[j];
            forall role :: role == "left" || role == "right" ==>
              BoundRefs(doc, a, role) != [] && BoundRefs(doc, b, role) != []
              && BoundRefs(doc, a, role)[0] == BoundRefs(doc, b, role)[|BoundRefs(doc, b, role)| - 1]
  {
    hide LaneWay, IsBuilt, Lanelets, BoundRefs;
    BuiltRefs(doc, base, offset, left, right, closed, ranges, speeds, i);
    BuiltRefs(doc, base, offset, left, right, closed, ranges, speeds, j);
    var n, nid, wid := |left|, NODE_ID0 + offset, WAY_ID0 + offset;
    LaneWayEnds(wid + 2 * i, BoundIds(nid, n, closed, 0), ranges[i]);
    LaneWayEnds(wid + 2 * i + 1, BoundIds(nid, n, closed, 1), ranges[i]);
    LaneWayEnds(wid + 2 * j, BoundIds(nid, n, closed, 0), ranges[j]);
    LaneWayEnds(wid + 2 * j + 1, BoundIds(nid, n, closed, 1), ranges[j]);
  }

  // A hand-over point is the centre point at its index, up to the rounding of what is written.
  lemma HandOverIsCentre(c: Point, t: Point, w: real, l: Point, r: Point)
    requires IsOffset(c, t, w, l, r)
    ensures var m := Midpoint(WrittenPoint(l), WrittenPoint(r));
            Abs(m.x - c.x) <= 0.00005 && Abs(m.y - c.y) <= 0.00005
  {
    hide Written, IsOffset;
    MidpointOf(c, t, w, l, r);
    WrittenIsClose(l.x);
    WrittenIsClose(l.y);
    WrittenIsClose(r.x);
    WrittenIsClose(r.y);
  }

  lemma MidpointOf(c: Point, t: Point, w: real, l: Point, r: Point)
    requires IsOffset(c, t, w, l, r)
    ensures (l.x + r.x) / 2.0 == c.x && (l.y + r.y) / 2.0 == c.y
  {
  }
}
