// The lanelet document (scripts/map/centerline_to_lanelet.py) as records of nodes, ways and
// relations, and how the builder appends a lane to a base document.

module LaneletDoc {
  import opened Options
  import opened Planar
  import EvenOdd
  import Splitting

  // localX and localY are the tags that carry a node's position; a node may lack either.
  datatype Node = Node(id: int, localX: Option<real>, localY: Option<real>)
  datatype Way = Way(id: int, refs: seq<int>)
  datatype Member = Member(role: string, ref: int)
  datatype Relation = Relation(id: int, isLanelet: bool, members: seq<Member>, speed: Option<real>)
  datatype Doc = Doc(nodes: seq<Node>, ways: seq<Way>, relations: seq<Relation>)

  // ---- writing ----

  const NODE_ID0: int := 100000
  const WAY_ID0: int := 200000
  const REL_ID0: int := 300000
  const ID_STEP: int := 1000000

  // A coordinate as written, to four decimals.
  function Written(v: real): real {
    Splitting.Round(v * 10000.0) as real / 10000.0
  }

  function WrittenPoint(p: Point): Point {
    Point(Written(p.x), Written(p.y))
  }

  ghost predicate IsWhole(v: real) {
    v == v.Floor as real
  }

  // A written coordinate has four decimals, and is as near as one can be.
  lemma WrittenIsClose(v: real)
    ensures IsWhole(Written(v) * 10000.0) && Abs(Written(v) - v) <= 0.00005
  {
    var r := Splitting.Round(v * 10000.0);
    assert Written(v) * 10000.0 == r as real;
  }

  function Ids(doc: Doc): seq<int> {
    seq(|doc.nodes|, i requires 0 <= i < |doc.nodes| => doc.nodes[i].id)
    + seq(|doc.ways|, i requires 0 <= i < |doc.ways| => doc.ways[i].id)
    + seq(|doc.relations|, i requires 0 <= i < |doc.relations| => doc.relations[i].id)
  }

  lemma IdsAre(doc: Doc)
    ensures forall i :: 0 <= i < |doc.nodes| ==> doc.nodes[i].id in Ids(doc)
    ensures forall i :: 0 <= i < |doc.ways| ==> doc.ways[i].id in Ids(doc)
    ensures forall i :: 0 <= i < |doc.relations| ==> doc.relations[i].id in Ids(doc)
  {
    var n, w := |doc.nodes|, |doc.ways|;
    forall i | 0 <= i < |doc.nodes|
      ensures doc.nodes[i].id in Ids(doc)
    {
      assert Ids(doc)[i] == doc.nodes[i].id;
    }
    forall i | 0 <= i < |doc.ways|
      ensures doc.ways[i].id in Ids(doc)
    {
      assert Ids(doc)[n + i] == doc.ways[i].id;
    }
    forall i | 0 <= i < |doc.relations|
      ensures doc.relations[i].id in Ids(doc)
    {
      assert Ids(doc)[n + w + i] == doc.relations[i].id;
    }
  }

  // An offset that puts the first new node id above every id in use: the least multiple of
  // ID_STEP that does.
  method FreshOffset(existing: seq<int>) returns (offset: nat)
    ensures forall i :: i in existing ==> i < NODE_ID0 + offset
    ensures offset % ID_STEP == 0
    ensures offset > 0 ==> exists i :: i in existing && i >= NODE_ID0 + offset - ID_STEP
  {
    offset := 0;
    var top := 0;
    for k := 0 to |existing|
      invariant forall i :: i in existing[..k] ==> i <= top
    {
      assert existing[..k + 1] == existing[..k] + [existing[k]];
      if existing[k] > top {
        top := existing[k];
      }
    }
    assert existing[..|existing|] == existing;
    while exists i :: i in existing && i >= NODE_ID0 + offset
      invariant offset % ID_STEP == 0
      invariant offset > 0 ==> exists i :: i in existing && i >= NODE_ID0 + offset - ID_STEP
      decreases top - offset
    {
      offset := offset + ID_STEP;
    }
  }

  // The bounds of a lane, half its width either side of the centre along the normal; none when
  // the widths do not match the points or are not positive.
  method OffsetBounds(center: seq<Point>, tangents: seq<Point>, widths: seq<real>)
    returns (bounds: Option<(seq<Point>, seq<Point>)>)
    requires |tangents| == |center|
    ensures bounds.Some? <==> |widths| == |center| && forall i :: 0 <= i < |widths| ==> widths[i] > 0.0
    ensures bounds.Some? ==> |bounds.value.0| == |bounds.value.1| == |center|
    ensures bounds.Some? ==> forall i :: 0 <= i < |center| ==>
              IsOffset(center[i], tangents[i], widths[i], bounds.value.0[i], bounds.value.1[i])
  {
    if |widths| != |center| || exists i :: 0 <= i < |widths| && widths[i] <= 0.0 {
      return None;
    }
    var left: seq<Point>, right: seq<Point> := [], [];
    for i := 0 to |center|
      invariant |left| == |right| == i
      invariant forall j :: 0 <= j < i ==> IsOffset(center[j], tangents[j], widths[j], left[j], right[j])
    {
      var c, t := center[i], tangents[i];
      var nx, ny, h := -t.y, t.x, widths[i] / 2.0;
      left := left + [Point(c.x + h * nx, c.y + h * ny)];
      right := right + [Point(c.x - h * nx, c.y - h * ny)];
      OffsetHolds(c, t, widths[i]);
    }
    bounds := Some((left, right));
  }

  // l and r are symmetric about c across the tangent t, l on its left; a unit tangent puts
  // them half a width away.
  ghost predicate IsOffset(c: Point, t: Point, w: real, l: Point, r: Point) {
    && (l.x + r.x) / 2.0 == c.x && (l.y + r.y) / 2.0 == c.y
    && (l.x - c.x) * t.x + (l.y - c.y) * t.y == 0.0
    && (t.x * t.x + t.y * t.y == 1.0 ==> Dist2(l, c) == (w / 2.0) * (w / 2.0)
                                         && t.x * (l.y - c.y) - t.y * (l.x - c.x) > 0.0)
  }

  lemma OffsetHolds(c: Point, t: Point, w: real)
    requires w > 0.0
    ensures var h := w / 2.0;
            IsOffset(c, t, w, Point(c.x - h * t.y, c.y + h * t.x), Point(c.x + h * t.y, c.y - h * t.x))
  {
    var h, u := w / 2.0, t.x * t.x + t.y * t.y;
    assert h * t.y * t.x == h * t.x * t.y;
    assert (h * t.y) * (h * t.y) + (h * t.x) * (h * t.x) == h * h * u;
    assert t.x * (h * t.x) + t.y * (h * t.y) == h * u;
  }

  // The point whose node the i-th sample of a lane of n samples uses: a closed loop's last
  // sample is its first.
  function Source(n: nat, closed: bool, i: nat): nat
    requires i < n
  {
    if closed && i == n - 1 then 0 else i
  }

  function NodeFor(id: int, p: Point): Node {
    Node(id, Some(Written(p.x)), Some(Written(p.y)))
  }

  // The nodes of the lane: left and right in turn, once per distinct sample.
  function LaneNodes(nid: int, left: seq<Point>, right: seq<Point>, m: nat): (s: seq<Node>)
    requires m <= |left| == |right|
    ensures |s| == 2 * m
  {
    if m == 0 then []
    else LaneNodes(nid, left, right, m - 1)
         + [NodeFor(nid + 2 * (m - 1), left[m - 1]), NodeFor(nid + 2 * (m - 1) + 1, right[m - 1])]
  }

  lemma {:induction false} LaneNodesAt(nid: int, left: seq<Point>, right: seq<Point>, m: nat, j: nat)
    requires j < m <= |left| == |right|
    ensures var s := LaneNodes(nid, left, right, m);
            s[2 * j] == NodeFor(nid + 2 * j, left[j]) && s[2 * j + 1] == NodeFor(nid + 2 * j + 1, right[j])
  {
    if j < m - 1 {
      LaneNodesAt(nid, left, right, m - 1, j);
    }
  }

  // The node ids of one bound (side 0 is left, 1 is right).
  function BoundIds(nid: int, n: nat, closed: bool, side: int): (s: seq<int>)
    ensures |s| == n && forall i :: 0 <= i < n ==> s[i] == nid + 2 * Source(n, closed, i) + side
  {
    seq(n, i requires 0 <= i < n => nid + 2 * Source(n, closed, i) + side)
  }

  ghost predicate AreRanges(ranges: seq<(int, int)>, n: nat) {
    forall j :: 0 <= j < |ranges| ==> 0 <= ranges[j].0 < ranges[j].1 < n
  }

  function LaneWays(wid: int, leftIds: seq<int>, rightIds: seq<int>, ranges: seq<(int, int)>): (s: seq<Way>)
    requires |leftIds| == |rightIds| && AreRanges(ranges, |leftIds|)
    ensures |s| == 2 * |ranges|
  {
    if ranges == [] then []
    else
      var k := |ranges| - 1;
      LaneWays(wid, leftIds, rightIds, ranges[..k])
      + [LaneWay(wid + 2 * k, leftIds, ranges[k]), LaneWay(wid + 2 * k + 1, rightIds, ranges[k])]
  }

  // One bound of one lanelet, stored against the direction of travel.
  function LaneWay(wid: int, ids: seq<int>, range: (int, int)): Way
    requires 0 <= range.0 <= range.1 < |ids|
  {
    Way(wid, EvenOdd.Reversed(ids[range.0..range.1 + 1]))
  }

  lemma {:induction false} LaneWaysAt(wid: int, leftIds: seq<int>, rightIds: seq<int>, ranges: seq<(int, int)>, j: nat)
    requires |leftIds| == |rightIds| && AreRanges(ranges, |leftIds|) && j < |ranges|
    ensures var s := LaneWays(wid, leftIds, rightIds, ranges);
            && s[2 * j] == LaneWay(wid + 2 * j, leftIds, ranges[j])
            && s[2 * j + 1] == LaneWay(wid + 2 * j + 1, rightIds, ranges[j])
    decreases |ranges|
  {
    if j < |ranges| - 1 {
      LaneWaysAt(wid, leftIds, rightIds, ranges[..|ranges| - 1], j);
    }
  }

  lemma AppendTwo<T>(a: seq<T>, x: seq<T>, p: T, q: T)
    ensures a + (x + [p, q]) == a + x + [p] + [q]
  {
  }

  function LaneRelation(wid: int, rid: int, j: nat, speed: real): Relation {
    Relation(rid + j, true, [Member("left", wid + 2 * j), Member("right", wid + 2 * j + 1)], Some(speed))
  }

  function LaneRelations(wid: int, rid: int, ranges: seq<(int, int)>, speeds: seq<real>): (s: seq<Relation>)
    requires AreRanges(ranges, |speeds|)
    ensures |s| == |ranges|
    ensures forall j :: 0 <= j < |ranges| ==> s[j] == LaneRelation(wid, rid, j, speeds[ranges[j].0])
  {
    seq(|ranges|, j requires 0 <= j < |ranges| => LaneRelation(wid, rid, j, speeds[ranges[j].0]))
  }

  // doc is base with the lane appended, its ids starting above every id of base.
  ghost predicate IsBuilt(doc: Doc, base: Doc, offset: nat, left: seq<Point>, right: seq<Point>, closed: bool,
                          ranges: seq<(int, int)>, speeds: seq<real>)
    requires |left| == |right| == |speeds| >= 1 && AreRanges(ranges, |left|)
  {
    var n := |left|;
    var nid, wid, rid := NODE_ID0 + offset, WAY_ID0 + offset, REL_ID0 + offset;
    && (forall i :: i in Ids(base) ==> i < nid)
    && doc.nodes == base.nodes + LaneNodes(nid, left, right, if closed then n - 1 else n)
    && doc.ways == base.ways + LaneWays(wid, BoundIds(nid, n, closed, 0), BoundIds(nid, n, closed, 1), ranges)
    && doc.relations == base.relations + LaneRelations(wid, rid, ranges, speeds)
  }

  lemma LaneNodesStep(nid: int, left: seq<Point>, right: seq<Point>, m: nat)
    requires m <= |left| == |right|
    ensures LaneNodes(nid, left, right, 0) == []
    ensures m < |left| ==>
              LaneNodes(nid, left, right, m + 1)
              == LaneNodes(nid, left, right, m) + [NodeFor(nid + 2 * m, left[m]), NodeFor(nid + 2 * m + 1, right[m])]
  {
  }

  lemma LaneWaysStep(wid: int, leftIds: seq<int>, rightIds: seq<int>, ranges: seq<(int, int)>, j: nat)
    requires |leftIds| == |rightIds| && AreRanges(ranges, |leftIds|) && j <= |ranges|
    ensures LaneWays(wid, leftIds, rightIds, ranges[..0]) == []
    ensures j < |ranges| ==>
              LaneWays(wid, leftIds, rightIds, ranges[..j + 1])
              == LaneWays(wid, leftIds, rightIds, ranges[..j])
              + [LaneWay(wid + 2 * j, leftIds, ranges[j]), LaneWay(wid + 2 * j + 1, rightIds, ranges[j])]
  {
    if j < |ranges| {
      assert ranges[..j + 1][..j] == ranges[..j];
    }
  }

  // The nodes of both bounds, and the ids each sample's pair of nodes has.
  method AppendNodes(nid0: int, base: seq<Node>, left: seq<Point>, right: seq<Point>, closed: bool)
    returns (nodes: seq<Node>, leftIds: seq<int>, rightIds: seq<int>)
    requires |left| == |right| >= (if closed then 2 else 1)
    ensures nodes == base + LaneNodes(nid0, left, right, if closed then |left| - 1 else |left|)
    ensures leftIds == BoundIds(nid0, |left|, closed, 0) && rightIds == BoundIds(nid0, |left|, closed, 1)
  {
    hide LaneNodes, NodeFor;
    var n, nid := |left|, nid0;
    LaneNodesStep(nid0, left, right, 0);
    nodes, leftIds, rightIds := base, [], [];
    for i := 0 to n
      invariant |leftIds| == |rightIds| == i
      invariant nid == nid0 + 2 * (if closed && i == n then n - 1 else i)
      invariant nodes == base + LaneNodes(nid0, left, right, if closed && i == n then n - 1 else i)
      invariant forall j :: 0 <= j < i ==> leftIds[j] == BoundIds(nid0, n, closed, 0)[j]
      invariant forall j :: 0 <= j < i ==> rightIds[j] == BoundIds(nid0, n, closed, 1)[j]
    {
      if closed && i == n - 1 {
        leftIds := leftIds + [leftIds[0]];
        rightIds := rightIds + [rightIds[0]];
      } else {
        LaneNodesStep(nid0, left, right, i);
        AppendTwo(base, LaneNodes(nid0, left, right, i), NodeFor(nid, left[i]), NodeFor(nid + 1, right[i]));
        nodes := nodes + [NodeFor(nid, left[i])];
        leftIds := leftIds + [nid];
        nid := nid + 1;
        nodes := nodes + [NodeFor(nid, right[i])];
        rightIds := rightIds + [nid];
        nid := nid + 1;
      }
    }
  }

  // Two ways and a relation per range.  The bounds are stored against the direction of travel.
  method AppendLanelets(wid0: int, rid0: int, ways0: seq<Way>, relations0: seq<Relation>, leftIds: seq<int>,
                        rightIds: seq<int>, ranges: seq<(int, int)>, speeds: seq<real>)
    returns (ways: seq<Way>, relations: seq<Relation>)
    requires |leftIds| == |rightIds| == |speeds| && AreRanges(ranges, |leftIds|)
    ensures ways == ways0 + LaneWays(wid0, leftIds, rightIds, ranges)
    ensures relations == relations0 + LaneRelations(wid0, rid0, ranges, speeds)
  {
    hide LaneWays, LaneWay;
    var wid, rid := wid0, rid0;
    ways, relations := ways0, relations0;
    LaneWaysStep(wid0, leftIds, rightIds, ranges, 0);
    for j := 0 to |ranges|
      invariant wid == wid0 + 2 * j && rid == rid0 + j
      invariant ways == ways0 + LaneWays(wid0, leftIds, rightIds, ranges[..j])
      invariant relations == relations0 + LaneRelations(wid0, rid0, ranges, speeds)[..j]
    {
      LaneWaysStep(wid0, leftIds, rightIds, ranges, j);
      AppendTwo(ways0, LaneWays(wid0, leftIds, rightIds, ranges[..j]),
                LaneWay(wid, leftIds, ranges[j]), LaneWay(wid + 1, rightIds, ranges[j]));
      ways := ways + [LaneWay(wid, leftIds, ranges[j])];
      wid := wid + 1;
      ways := ways + [LaneWay(wid, rightIds, ranges[j])];
      wid := wid + 1;
      relations := relations
        + [Relation(rid, true, [Member("left", wid - 2), Member("right", wid - 1)], Some(speeds[ranges[j].0]))];
      rid := rid + 1;
    }
    assert ranges[..|ranges|] == ranges;
  }

  method AppendLane(base: Doc, left: seq<Point>, right: seq<Point>, closed: bool,
                    ranges: seq<(int, int)>, speeds: seq<real>) returns (doc: Doc, offset: nat)
    requires |left| == |right| == |speeds| >= (if closed then 2 else 1) && AreRanges(ranges, |left|)
    ensures IsBuilt(doc, base, offset, left, right, closed, ranges, speeds)
    ensures forall i :: 0 <= i < |base.nodes| ==> base.nodes[i].id < 100000 + offset
    ensures forall i :: 0 <= i < |base.ways| ==> base.ways[i].id < 100000 + offset
    ensures forall i :: 0 <= i < |base.relations| ==> base.relations[i].id < 100000 + offset
  {
    IdsAre(base);
    var shift := FreshOffset(Ids(base));
    offset := shift;
    var nodes, leftIds, rightIds := AppendNodes(NODE_ID0 + shift, base.nodes, left, right, closed);
    var ways, relations := AppendLanelets(WAY_ID0 + shift, REL_ID0 + shift, base.ways, base.relations,
                                          leftIds, rightIds, ranges, speeds);
    doc := Doc(nodes, ways, relations);
  }
}
