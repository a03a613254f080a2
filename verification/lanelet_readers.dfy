// The two programs that read a lanelet document back: the clearance check, which wants rings
// (scripts/map/check_lane_clearance.py), and the simulator driver, which wants the points where
// one lanelet hands over to the next (scripts/testing/sim_loop_drive.py).  A missing key stops
// either of them.

module LaneletReaders {
  import opened Options
  import opened Planar
  import opened LaneletDoc
  import EvenOdd

  // ---- what the dictionaries hold ----

  // The position the last node of that id with one has.
  function Position(nodes: seq<Node>, id: int): Option<Point> {
    if nodes == [] then None
    else
      var n := nodes[|nodes| - 1];
      if n.id == id && n.localX.Some? && n.localY.Some? then Some(Point(n.localX.value, n.localY.value))
      else Position(nodes[..|nodes| - 1], id)
  }

  function WayRefs(ways: seq<Way>, id: int): Option<seq<int>> {
    if ways == [] then None
    else if ways[|ways| - 1].id == id then Some(ways[|ways| - 1].refs)
    else WayRefs(ways[..|ways| - 1], id)
  }

  function RoleRef(members: seq<Member>, role: string): Option<int> {
    if members == [] then None
    else if members[|members| - 1].role == role then Some(members[|members| - 1].ref)
    else RoleRef(members[..|members| - 1], role)
  }

  // The points of a list of node ids; None when one of them has no position.
  function PointsOf(nodes: seq<Node>, refs: seq<int>): (r: Option<seq<Point>>)
    ensures r.Some? <==> forall i :: 0 <= i < |refs| ==> Position(nodes, refs[i]).Some?
    ensures r.Some? ==> |r.value| == |refs|
                        && forall i :: 0 <= i < |refs| ==> Some(r.value[i]) == Position(nodes, refs[i])
  {
    if refs == [] then Some([])
    else
      var k := |refs| - 1;
      var front, last := PointsOf(nodes, refs[..k]), Position(nodes, refs[k]);
      if front.Some? && last.Some? then Some(front.value + [last.value]) else None
  }

  // The nodes' dictionary.
  method NodeTable(nodes: seq<Node>) returns (table: map<int, Point>)
    ensures forall id :: id in table <==> Position(nodes, id).Some?
    ensures forall id :: id in table ==> Some(table[id]) == Position(nodes, id)
  {
    table := map[];
    for k := 0 to |nodes|
      invariant forall id :: id in table <==> Position(nodes[..k], id).Some?
      invariant forall id :: id in table ==> Some(table[id]) == Position(nodes[..k], id)
    {
      assert nodes[..k + 1][..k] == nodes[..k];
      var n := nodes[k];
      if n.localX.Some? && n.localY.Some? {
        table := table[n.id := Point(n.localX.value, n.localY.value)];
      }
    }
    assert nodes[..|nodes|] == nodes;
  }

  method RefsTable(ways: seq<Way>) returns (table: map<int, seq<int>>)
    ensures forall id :: id in table <==> WayRefs(ways, id).Some?
    ensures forall id :: id in table ==> Some(table[id]) == WayRefs(ways, id)
  {
    table := map[];
    for k := 0 to |ways|
      invariant forall id :: id in table <==> WayRefs(ways[..k], id).Some?
      invariant forall id :: id in table ==> Some(table[id]) == WayRefs(ways[..k], id)
    {
      assert ways[..k + 1][..k] == ways[..k];
      table := table[ways[k].id := ways[k].refs];
    }
    assert ways[..|ways|] == ways;
  }

  method RoleTable(members: seq<Member>) returns (table: map<string, int>)
    ensures forall role :: role in table <==> RoleRef(members, role).Some?
    ensures forall role :: role in table ==> Some(table[role]) == RoleRef(members, role)
  {
    table := map[];
    for k := 0 to |members|
      invariant forall role :: role in table <==> RoleRef(members[..k], role).Some?
      invariant forall role :: role in table ==> Some(table[role]) == RoleRef(members[..k], role)
    {
      assert members[..k + 1][..k] == members[..k];
      table := table[members[k].role := members[k].ref];
    }
    assert members[..|members|] == members;
  }

  function Lanelets(relations: seq<Relation>): seq<Relation> {
    if relations == [] then []
    else Lanelets(relations[..|relations| - 1])
         + if relations[|relations| - 1].isLanelet then [relations[|relations| - 1]] else []
  }

  // ---- the rings ----

  // A node with an x but no y, and a way through a node without a position, stop the reader
  // whether or not a lanelet uses them.
  ghost predicate TablesReadable(doc: Doc) {
    && (forall i :: 0 <= i < |doc.nodes| ==> doc.nodes[i].localX.Some? ==> doc.nodes[i].localY.Some?)
    && (forall i :: 0 <= i < |doc.ways| ==> PointsOf(doc.nodes, doc.ways[i].refs).Some?)
  }

  // The way of that role is found and has points.
  ghost predicate RoleReadable(doc: Doc, rel: Relation, role: string) {
    var ref := RoleRef(rel.members, role);
    ref.Some? && var refs := WayRefs(doc.ways, ref.value); refs.Some? && refs.value != []
  }

  // Every member of a lanelet is looked up, whatever its role.  A bound without points stops the
  // program too: beside one with points when they are stacked, and when both have none in the
  // even-odd test.
  ghost predicate RingReadable(doc: Doc, rel: Relation) {
    && (forall i :: 0 <= i < |rel.members| ==> WayRefs(doc.ways, rel.members[i].ref).Some?)
    && RoleReadable(doc, rel, "left") && RoleReadable(doc, rel, "right")
  }

  lemma {:induction false} WayRefsOfSome(ways: seq<Way>, id: int) returns (i: nat)
    requires WayRefs(ways, id).Some?
    ensures i < |ways| && ways[i].id == id && WayRefs(ways, id) == Some(ways[i].refs)
  {
    if ways[|ways| - 1].id == id { i := |ways| - 1; } else { i := WayRefsOfSome(ways[..|ways| - 1], id); }
  }

  lemma {:induction false} RoleRefOfSome(members: seq<Member>, role: string) returns (i: nat)
    requires RoleRef(members, role).Some?
    ensures i < |members| && RoleRef(members, role) == Some(members[i].ref)
  {
    if members[|members| - 1].role == role { i := |members| - 1; }
    else { i := RoleRefOfSome(members[..|members| - 1], role); }
  }

  // The points of the way that has that role in a lanelet.
  ghost function RolePoints(doc: Doc, rel: Relation, role: string): Option<seq<Point>> {
    var ref := RoleRef(rel.members, role);
    if ref.None? then None
    else
      var refs := WayRefs(doc.ways, ref.value);
      if refs.None? then None else PointsOf(doc.nodes, refs.value)
  }

  ghost predicate IsRing(doc: Doc, rel: Relation, ring: seq<Point>) {
    var l, r := RolePoints(doc, rel, "left"), RolePoints(doc, rel, "right");
    l.Some? && r.Some? && ring == l.value + EvenOdd.Reversed(r.value)
  }

  lemma TheirPoints(nodes: seq<Node>, refs: seq<int>, pts: seq<Point>)
    requires |pts| == |refs| && forall i :: 0 <= i < |refs| ==> Some(pts[i]) == Position(nodes, refs[i])
    ensures PointsOf(nodes, refs) == Some(pts)
  {
    var r := PointsOf(nodes, refs);
    forall i | 0 <= i < |refs|
      ensures r.value[i] == pts[i]
    {
    }
    assert r.value == pts;
  }

  method WayTable(doc: Doc, nodes: map<int, Point>) returns (table: map<int, seq<Point>>, ok: bool)
    requires forall id :: id in nodes <==> Position(doc.nodes, id).Some?
    requires forall id :: id in nodes ==> Some(nodes[id]) == Position(doc.nodes, id)
    ensures ok <==> forall i :: 0 <= i < |doc.ways| ==> PointsOf(doc.nodes, doc.ways[i].refs).Some?
    ensures ok ==> forall id :: id in table <==> WayRefs(doc.ways, id).Some?
    ensures ok ==> forall id :: id in table ==> Some(table[id]) == PointsOf(doc.nodes, WayRefs(doc.ways, id).value)
  {
    hide PointsOf, Position;
    table, ok := map[], true;
    for k := 0 to |doc.ways|
      invariant ok && forall i :: 0 <= i < k ==> PointsOf(doc.nodes, doc.ways[i].refs).Some?
      invariant forall id :: id in table <==> WayRefs(doc.ways[..k], id).Some?
      invariant forall id :: id in table ==> Some(table[id]) == PointsOf(doc.nodes, WayRefs(doc.ways[..k], id).value)
    {
      assert doc.ways[..k + 1][..k] == doc.ways[..k];
      var refs := doc.ways[k].refs;
      if exists i :: 0 <= i < |refs| && refs[i] !in nodes {
        ok := false;
        return;
      }
      var pts := seq(|refs|, i requires 0 <= i < |refs| => nodes[refs[i]]);
      TheirPoints(doc.nodes, refs, pts);
      table := table[doc.ways[k].id := pts];
    }
    assert doc.ways[..|doc.ways|] == doc.ways;
  }

  method RingOf(doc: Doc, rel: Relation, ways: map<int, seq<Point>>) returns (ring: seq<Point>, ok: bool)
    requires forall i :: 0 <= i < |doc.ways| ==> PointsOf(doc.nodes, doc.ways[i].refs).Some?
    requires forall id :: id in ways <==> WayRefs(doc.ways, id).Some?
    requires forall id :: id in ways ==> Some(ways[id]) == PointsOf(doc.nodes, WayRefs(doc.ways, id).value)
    ensures ok <==> RingReadable(doc, rel)
    ensures ok ==> IsRing(doc, rel, ring)
  {
    hide EvenOdd.Reversed, WayRefs, PointsOf, RoleRef;
    var m := RoleTable(rel.members);
    ring, ok := [], false;
    if (exists i :: 0 <= i < |rel.members| && rel.members[i].ref !in ways) || "left" !in m || "right" !in m {
      return;
    }
    var l := RoleRefOfSome(rel.members, "left");
    var r := RoleRefOfSome(rel.members, "right");
    var left, right := ways[m["left"]], ways[m["right"]];
    if left == [] || right == [] {
      return;
    }
    ring, ok := left + EvenOdd.Reversed(right), true;
  }

  method LaneletPolygons(doc: Doc) returns (polys: seq<seq<Point>>, ok: bool)
    ensures ok <==> TablesReadable(doc)
                    && forall i :: 0 <= i < |Lanelets(doc.relations)| ==> RingReadable(doc, Lanelets(doc.relations)[i])
    ensures ok ==> |polys| == |Lanelets(doc.relations)|
                   && forall i :: 0 <= i < |polys| ==> IsRing(doc, Lanelets(doc.relations)[i], polys[i])
  {
    hide RingReadable, IsRing;
    polys, ok := [], false;
    if exists i :: 0 <= i < |doc.nodes| && doc.nodes[i].localX.Some? && doc.nodes[i].localY.None? {
      return;
    }
    var nodes := NodeTable(doc.nodes);
    var ways, waysOk := WayTable(doc, nodes);
    if !waysOk {
      return;
    }
    var all := doc.relations;
    for k := 0 to |all|
      invariant |polys| == |Lanelets(all[..k])|
      invariant forall i :: 0 <= i < |polys| ==> RingReadable(doc, Lanelets(all[..k])[i])
      invariant forall i :: 0 <= i < |polys| ==> IsRing(doc, Lanelets(all[..k])[i], polys[i])
    {
      assert all[..k + 1][..k] == all[..k];
      if all[k].isLanelet {
        var ring, ringOk := RingOf(doc, all[k], ways);
        if !ringOk {
          LaneletsPrefix(all, k);
          assert Lanelets(all)[|Lanelets(all[..k])|] == all[k];
          return;
        }
        polys := polys + [ring];
      }
    }
    assert all[..|all|] == all;
    ok := true;
  }

  lemma {:induction false} LaneletsPrefix(all: seq<Relation>, k: nat)
    requires k <= |all|
    ensures Lanelets(all[..k]) <= Lanelets(all)
    ensures k < |all| && all[k].isLanelet ==> Lanelets(all[..k]) + [all[k]] <= Lanelets(all)
    decreases |all|
  {
    if k == |all| {
      assert all[..k] == all;
    } else if k == |all| - 1 {
    } else {
      var shorter := all[..|all| - 1];
      LaneletsPrefix(shorter, k);
      assert shorter[..k] == all[..k];
    }
  }

  // ---- the hand-over points ----

  function Midpoint(a: Point, b: Point): Point {
    Point((a.x + b.x) / 2.0, (a.y + b.y) / 2.0)
  }

  // Only the ends of the bounds of lanelets have to be found.
  ghost predicate EndsReadable(doc: Doc, rel: Relation) {
    var l, r := RoleRef(rel.members, "left"), RoleRef(rel.members, "right");
    && l.Some? && r.Some?
    && WayRefs(doc.ways, l.value).Some? && WayRefs(doc.ways, r.value).Some?
    && var ls, rs := WayRefs(doc.ways, l.value).value, WayRefs(doc.ways, r.value).value;
       && |ls| >= 1 && |rs| >= 1
       && Position(doc.nodes, ls[0]).Some? && Position(doc.nodes, rs[0]).Some?
       && Position(doc.nodes, ls[|ls| - 1]).Some? && Position(doc.nodes, rs[|rs| - 1]).Some?
  }

  ghost function End(doc: Doc, rel: Relation, last: bool): Point
    requires EndsReadable(doc, rel)
  {
    var ls := WayRefs(doc.ways, RoleRef(rel.members, "left").value).value;
    var rs := WayRefs(doc.ways, RoleRef(rel.members, "right").value).value;
    Midpoint(Position(doc.nodes, ls[if last then |ls| - 1 else 0]).value,
             Position(doc.nodes, rs[if last then |rs| - 1 else 0]).value)
  }

  method LaneletBoundaries(doc: Doc) returns (ends: seq<Point>, ok: bool)
    ensures ok <==> forall i :: 0 <= i < |Lanelets(doc.relations)| ==> EndsReadable(doc, Lanelets(doc.relations)[i])
    ensures ok ==> |ends| == 2 * |Lanelets(doc.relations)|
                   && forall i :: 0 <= i < |Lanelets(doc.relations)| ==>
                                ends[2 * i] == End(doc, Lanelets(doc.relations)[i], false)
                                && ends[2 * i + 1] == End(doc, Lanelets(doc.relations)[i], true)
  {
    ends, ok := [], false;
    var nodes := NodeTable(doc.nodes);
    var ways := RefsTable(doc.ways);
    var all := doc.relations;
    for k := 0 to |all|
      invariant |ends| == 2 * |Lanelets(all[..k])|
      invariant forall i :: 0 <= i < |Lanelets(all[..k])| ==>
                  EndsReadable(doc, Lanelets(all[..k])[i])
                  && ends[2 * i] == End(doc, Lanelets(all[..k])[i], false)
                  && ends[2 * i + 1] == End(doc, Lanelets(all[..k])[i], true)
    {
      assert all[..k + 1][..k] == all[..k];
      var rel := all[k];
      if rel.isLanelet {
        var role := RoleTable(rel.members);
        LaneletsPrefix(all, k);
        assert Lanelets(all)[|Lanelets(all[..k])|] == rel;
        if !("left" in role && "right" in role && role["left"] in ways && role["right"] in ways) {
          return;
        }
        var left, right := ways[role["left"]], ways[role["right"]];
        if left == [] || right == [] {
          return;
        }
        var l0, r0, l1, r1 := left[0], right[0], left[|left| - 1], right[|right| - 1];
        if !(l0 in nodes && r0 in nodes && l1 in nodes && r1 in nodes) {
          return;
        }
        ends := ends + [Midpoint(nodes[l0], nodes[r0]), Midpoint(nodes[l1], nodes[r1])];
      }
    }
    assert all[..|all|] == all;
    ok := true;
  }
}
