// The lane-map pipeline end to end: building the document
// (scripts/map/centerline_to_lanelet.py), reading it back, and checking it against the grid
// (scripts/map/check_lane_clearance.py).

module LaneMap {
  import opened Options
  import opened Planar
  import opened LaneletDoc
  import opened LaneletReaders
  import opened RoundTrip
  import opened ObstacleGrid
  import EvenOdd
  import Splitting
  import Profiles
  import LaneVerdict
  import LaneOutline
  import GridBuilding

  // The lane a document was built from: its bounds as computed, and where it was cut.
  datatype Lane = Lane(left: seq<Point>, right: seq<Point>, closed: bool, cuts: seq<nat>, speeds: seq<real>,
                       offset: nat)

  ghost predicate IsLane(lane: Lane, center: seq<Point>, tangents: seq<Point>, widths: seq<real>) {
    && |lane.left| == |lane.right| == |lane.speeds| == |center| == |tangents| == |widths| >= 2
    && (forall i :: 0 <= i < |center| ==> IsOffset(center[i], tangents[i], widths[i], lane.left[i], lane.right[i]))
    && EvenOdd.IsCut(lane.cuts, |center|)
    && (lane.closed ==> center[|center| - 1] == center[0])
  }

  lemma CutBounds(cuts: seq<nat>, n: nat, i: nat)
    requires EvenOdd.IsCut(cuts, n) && i < |cuts|
    ensures cuts[i] < n
    decreases |cuts| - i
  {
    if i < |cuts| - 1 {
      CutBounds(cuts, n, i + 1);
    }
  }

  lemma CutRanges(cuts: seq<nat>, n: nat)
    requires EvenOdd.IsCut(cuts, n)
    ensures AreRanges(Splitting.Pairs(cuts), n)
    ensures forall i :: 0 <= i < |cuts| ==> cuts[i] < n
  {
    forall i | 0 <= i < |cuts|
      ensures cuts[i] < n
    {
      CutBounds(cuts, n, i);
    }
  }

  ghost predicate IsBuiltFrom(doc: Doc, base: Doc, lane: Lane) {
    var ranges := Splitting.Pairs(lane.cuts);
    && |lane.left| == |lane.right| == |lane.speeds| >= 2 && AreRanges(ranges, |lane.left|)
    && IsBuilt(doc, base, lane.offset, lane.left, lane.right, lane.closed, ranges, lane.speeds)
  }

  // Every sample from one cut to the next has the speed of the first of them.
  ghost predicate OneSpeedEach(lane: Lane) {
    forall j, s :: 0 <= j < |lane.cuts| - 1 && lane.cuts[j] <= s < lane.cuts[j + 1] && s < |lane.speeds| ==>
                     lane.speeds[s] == lane.speeds[lane.cuts[j]]
  }

  // The lane is cut where the stride, the ends and the changes of speed say.
  ghost predicate IsCutByStride(lane: Lane, pointsPerSegment: real, breaks: seq<int>) {
    && (forall b :: b in breaks <==> Profiles.ChangesAt(lane.speeds, b))
    && lane.cuts == Splitting.Cuts(|lane.speeds|, Splitting.Stride(pointsPerSegment), breaks)
  }

  // Builds the document, none where the program stops: a profile that cannot be carried onto the
  // samples, or a width that is not positive.  The samples, their unit tangents and the lengths of
  // the edges of the route and between the samples are given.
  method BuildOsm(base: Doc, center: seq<Point>, tangents: seq<Point>, width: Profiles.Profile, speed: Profiles.Profile,
                  route: seq<real>, samples: seq<real>, pointsPerSegment: real, closed: bool)
    returns (doc: Option<Doc>, ghost lane: Lane, ghost widths: seq<real>, ghost breaks: seq<int>)
    requires |center| == |tangents| == |samples| + 1 >= 2 && (closed ==> center[|center| - 1] == center[0])
    requires Profiles.AreLengths(route) && Profiles.AreLengths(samples)
    ensures Profiles.IsCarried(width, route, samples) ==> Profiles.AreWidths(width, route, samples, widths)
    ensures doc.Some? <==> Profiles.IsCarried(width, route, samples) && Profiles.IsCarried(speed, route, samples)
                           && forall i :: 0 <= i < |widths| ==> widths[i] > 0.0
    ensures doc.Some? ==> Profiles.AreSpeeds(speed, route, samples, lane.speeds) && lane.closed == closed
    ensures doc.Some? ==> IsLane(lane, center, tangents, widths) && IsBuiltFrom(doc.value, base, lane)
    ensures doc.Some? ==> IsCutByStride(lane, pointsPerSegment, breaks)
  {
    hide IsBuilt, IsOffset, AreRanges, Profiles.AreWidths, Profiles.AreSpeeds, Profiles.IsCarried, IsCutByStride;
    doc, lane, breaks := None, Lane([], [], closed, [], [], 0), [];
    var w, wOk := Profiles.CarriedWidths(width, route, samples);
    var speeds, sOk := Profiles.CarriedSpeeds(speed, route, samples);
    widths := w;
    if !wOk || !sOk {
      return;
    }
    ProfileSizes(width, speed, route, samples, w, speeds);
    var changes := Profiles.Breaks(speeds);
    breaks := changes;
    var bounds := OffsetBounds(center, tangents, w);
    if bounds.None? {
      return;
    }
    var (left, right) := bounds.value;
    var n := |center|;
    var ranges := Splitting.SplitSegments(n, pointsPerSegment, changes);
    ghost var k := Splitting.Stride(pointsPerSegment);
    ghost var cuts := Splitting.Cuts(n, k, changes);
    Splitting.CutCovers(n, k, changes);
    CutRanges(cuts, n);
    var built, offset := AppendLane(base, left, right, closed, ranges, speeds);
    lane := Lane(left, right, closed, cuts, speeds, offset);
    CutSo(lane, pointsPerSegment, changes);
    doc := Some(built);
  }

  lemma ProfileSizes(width: Profiles.Profile, speed: Profiles.Profile, route: seq<real>, samples: seq<real>,
                     w: seq<real>, v: seq<real>)
    requires Profiles.AreWidths(width, route, samples, w) && Profiles.AreSpeeds(speed, route, samples, v)
    ensures |w| == |v| == |samples| + 1
  {
  }

  lemma CutSo(lane: Lane, pointsPerSegment: real, breaks: seq<int>)
    requires forall b :: b in breaks <==> Profiles.ChangesAt(lane.speeds, b)
    requires lane.cuts == Splitting.Cuts(|lane.speeds|, Splitting.Stride(pointsPerSegment), breaks)
    ensures IsCutByStride(lane, pointsPerSegment, breaks)
  {
  }

  // Cut so, every sample from one cut to the next has the speed of the first of them.
  lemma OneSpeed(lane: Lane, pointsPerSegment: real, breaks: seq<int>)
    requires IsCutByStride(lane, pointsPerSegment, breaks) && |lane.speeds| >= 2
    ensures OneSpeedEach(lane)
  {
    forall j, s | 0 <= j < |lane.cuts| - 1 && lane.cuts[j] <= s < lane.cuts[j + 1] && s < |lane.speeds|
      ensures lane.speeds[s] == lane.speeds[lane.cuts[j]]
    {
      Profiles.OneSpeedPerLanelet(lane.speeds, Splitting.Stride(pointsPerSegment), breaks, j, s);
    }
  }

  // The simulator driver's hand-over points: two per lanelet, in cut order, each the centre
  // point at its cut index up to the rounding to four decimals; and each lanelet's speed is
  // that of every sample it covers.
  lemma HandOversAreCentrePoints(doc: Doc, base: Doc, lane: Lane, center: seq<Point>, tangents: seq<Point>,
                                 widths: seq<real>, j: nat)
    requires IsLane(lane, center, tangents, widths) && IsBuiltFrom(doc, base, lane) && IsBase(base)
    requires OneSpeedEach(lane) && j < |lane.cuts| - 1
    ensures |Lanelets(doc.relations)| == |lane.cuts| - 1 && EndsReadable(doc, Lanelets(doc.relations)[j])
    ensures lane.cuts[j] < |center| && lane.cuts[j + 1] < |center|
    ensures Near(End(doc, Lanelets(doc.relations)[j], true), center[lane.cuts[j]])
    ensures Near(End(doc, Lanelets(doc.relations)[j], false), center[lane.cuts[j + 1]])
    ensures forall s :: lane.cuts[j] <= s < lane.cuts[j + 1] ==>
              Lanelets(doc.relations)[j].speed == Some(lane.speeds[s])
  {
    hide IsBuilt, EndsReadable, RingReadable, IsRing, TablesReadable, IsOffset, End, Lanelets, Written;
    var ranges := Splitting.Pairs(lane.cuts);
    CutRanges(lane.cuts, |center|);
    HandOversReadBack(doc, base, lane.offset, lane.left, lane.right, lane.closed, ranges, lane.speeds, j);
    RingsReadBack(doc, base, lane.offset, lane.left, lane.right, lane.closed, ranges, lane.speeds);
    SampleMidpoint(lane, center, tangents, widths, lane.cuts[j]);
    SampleMidpoint(lane, center, tangents, widths, lane.cuts[j + 1]);
  }

  // So the speed of a lanelet is the route's along the whole of it: at each sample but the shared
  // last one, that of the last route point at or before it.
  lemma LaneletSpeedIsTheRoutes(doc: Doc, base: Doc, lane: Lane, center: seq<Point>, tangents: seq<Point>,
                                widths: seq<real>, pointsPerSegment: real, breaks: seq<int>, values: seq<real>,
                                  route: seq<real>, samples: seq<real>, j: nat, s: nat)
                                    returns (f: seq<real>, g: seq<real>)
    requires IsLane(lane, center, tangents, widths) && IsBuiltFrom(doc, base, lane) && IsBase(base)
    requires IsCutByStride(lane, pointsPerSegment, breaks)
    requires Profiles.AreSpeeds(Profiles.PerPoint(values), route, samples, lane.speeds)
    requires j < |lane.cuts| - 1 && lane.cuts[j] <= s < lane.cuts[j + 1]
    ensures Profiles.IsArc(route, f) && Profiles.IsArc(samples, g) && |values| == |f| && s < |g|
    ensures j < |Lanelets(doc.relations)| && Lanelets(doc.relations)[j].speed.Some?
            && Profiles.IsSpeedAt(f, values, g[s], Lanelets(doc.relations)[j].speed.value)
  {
    hide IsBuiltFrom, Lanelets, Profiles.IsArc, Profiles.IsSpeedAt, IsCutByStride, EndsReadable, End;
    OneSpeed(lane, pointsPerSegment, breaks);
    HandOversAreCentrePoints(doc, base, lane, center, tangents, widths, j);
    var v := lane.speeds[s];
    assert Lanelets(doc.relations)[j].speed == Some(v);
    f, g :| Profiles.AreSpeedsBetween(values, route, samples, f, g, lane.speeds);
  }

  // Consecutive lanelets of a built document share both end nodes, and so do the last and the
  // first of a loop.
  lemma LaneletsJoin(doc: Doc, base: Doc, lane: Lane, i: nat, j: nat)
    requires IsBuiltFrom(doc, base, lane) && IsBase(base) && EvenOdd.IsCut(lane.cuts, |lane.left|)
    requires i < |lane.cuts| - 1 && j < |lane.cuts| - 1
    requires j == i + 1 || (lane.closed && i == |lane.cuts| - 2 && j == 0)
    ensures |Lanelets(doc.relations)| == |lane.cuts| - 1
    ensures var a, b := Lanelets(doc.relations)[i], Lanelets(doc.relations)[j];
            forall role :: role == "left" || role == "right" ==>
              BoundRefs(doc, a, role) != [] && BoundRefs(doc, b, role) != []
              && BoundRefs(doc, a, role)[0] == BoundRefs(doc, b, role)[|BoundRefs(doc, b, role)| - 1]
  {
    hide IsBuilt, Lanelets, BoundRefs;
    SharedNodes(doc, base, lane.offset, lane.left, lane.right, lane.closed, Splitting.Pairs(lane.cuts),
                lane.speeds, i, j);
  }

  predicate Near(p: Point, q: Point) {
    Abs(p.x - q.x) <= 0.00005 && Abs(p.y - q.y) <= 0.00005
  }

  lemma SampleMidpoint(lane: Lane, center: seq<Point>, tangents: seq<Point>, widths: seq<real>, i: nat)
    requires IsLane(lane, center, tangents, widths) && i < |center|
    ensures Near(Midpoint(AsWritten(lane.left, lane.closed)[i], AsWritten(lane.right, lane.closed)[i]), center[i])
  {
    hide IsOffset, Written;
    var at := Source(|center|, lane.closed, i);
    HandOverIsCentre(center[at], tangents[at], widths[at], lane.left[at], lane.right[at]);
  }

  // What the clearance check reads are the rings of the lane as written.
  lemma RingsAreTheLanelets(doc: Doc, base: Doc, lane: Lane, polys: seq<seq<Point>>)
    requires IsBuiltFrom(doc, base, lane) && IsBase(base) && EvenOdd.IsCut(lane.cuts, |lane.left|)
    requires |polys| == |Lanelets(doc.relations)|
    requires forall i :: 0 <= i < |polys| ==> IsRing(doc, Lanelets(doc.relations)[i], polys[i])
    ensures forall i :: 0 <= i < |lane.cuts| ==> lane.cuts[i] < |lane.left|
    ensures LaneVerdict.AreLaneletRings(polys, AsWritten(lane.left, lane.closed), AsWritten(lane.right, lane.closed),
                                        lane.cuts)
  {
    hide IsBuilt, TablesReadable, Lanelets, EvenOdd.LaneletRing, RolePoints;
    CutRanges(lane.cuts, |lane.left|);
    RingsReadBack(doc, base, lane.offset, lane.left, lane.right, lane.closed, Splitting.Pairs(lane.cuts), lane.speeds);
  }

  // The check reads this document: all it looks up is there, and there is a lanelet.
  ghost predicate IsCheckable(doc: Doc) {
    && TablesReadable(doc) && Lanelets(doc.relations) != []
    && forall i :: 0 <= i < |Lanelets(doc.relations)| ==> RingReadable(doc, Lanelets(doc.relations)[i])
  }

  lemma RingHasPoints(doc: Doc, rel: Relation, ring: seq<Point>)
    requires RingReadable(doc, rel) && IsRing(doc, rel, ring)
    ensures ring != []
  {
    hide WayRefs, RoleRef, EvenOdd.Reversed;
  }

  lemma {:induction false} StartsOfSome(polys: seq<seq<Point>>, k: nat)
    requires k < |polys| && polys[k] != []
    ensures LaneVerdict.Starts(polys) != []
    decreases |polys|
  {
    if k < |polys| - 1 { StartsOfSome(polys[..|polys| - 1], k); }
  }

  // Reads a document and checks it against a grid.  None is a document the check cannot read or
  // that has no lanelets.
  method CheckMap(g: Grid, doc: Doc, chunk: nat, minClearance: real)
    returns (ok: Option<bool>, cells: seq<Point>, polys: seq<seq<Point>>)
    requires g.cell > 0.0 && chunk >= 1
    ensures ok.Some? <==> IsCheckable(doc)
    ensures ok.Some? ==> |polys| == |Lanelets(doc.relations)|
                         && forall i :: 0 <= i < |polys| ==> IsRing(doc, Lanelets(doc.relations)[i], polys[i])
    ensures forall i, j :: g.Occupied(i, j) ==> g.Centre(i, j) in cells
    ensures forall k :: 0 <= k < |cells| ==> IsOccupiedCentre(g, cells[k])
    ensures ok.Some? ==> (ok.value <==> LaneVerdict.Passes(cells, g.cell / 2.0, polys, minClearance))
  {
    hide LaneVerdict.Passes, IsRing, RingReadable, TablesReadable, LaneVerdict.Starts, IsOccupiedCentre;
    cells := OccupiedCentres(g);
    var rings, readable := LaneletPolygons(doc);
    polys := rings;
    ok := None;
    if readable && polys != [] {
      RingHasPoints(doc, Lanelets(doc.relations)[0], polys[0]);
      StartsOfSome(polys, 0);
      var pass := LaneVerdict.Verdict(cells, g.cell / 2.0, polys, chunk, minClearance);
      ok := Some(pass);
    }
  }

  // A document the builder made over a base without lanelets is never refused.
  lemma BuiltIsCheckable(doc: Doc, base: Doc, lane: Lane)
    requires IsBuiltFrom(doc, base, lane) && IsBase(base) && EvenOdd.IsCut(lane.cuts, |lane.left|)
    ensures IsCheckable(doc)
  {
    hide IsBuilt, TablesReadable, Lanelets, RingReadable, IsRing;
    RingsReadBack(doc, base, lane.offset, lane.left, lane.right, lane.closed, Splitting.Pairs(lane.cuts), lane.speeds);
  }

  // When a built document fails the check, some occupied cell is at fault: its centre is in a
  // lanelet, or one of its points is too near an edge of one.
  lemma FailureHasACell(g: Grid, cells: seq<Point>, polys: seq<seq<Point>>, m: real) returns (i: int, j: int)
    requires forall k :: 0 <= k < |cells| ==> IsOccupiedCentre(g, cells[k])
    requires !LaneVerdict.Passes(cells, g.cell / 2.0, polys, m)
    ensures g.Occupied(i, j)
    ensures LaneVerdict.InsideAny(polys, g.Centre(i, j))
            || !LaneVerdict.KeepsClear(g.Centre(i, j), g.cell / 2.0, polys, m)
  {
    hide LaneVerdict.InsideAny, LaneVerdict.KeepsClear;
    var c :| c in cells && !(!LaneVerdict.InsideAny(polys, c) && LaneVerdict.KeepsClear(c, g.cell / 2.0, polys, m));
    var k :| 0 <= k < |cells| && cells[k] == c;
    assert IsOccupiedCentre(g, cells[k]);
    i, j :| g.Occupied(i, j) && c == g.Centre(i, j);
  }

  // The rings and cells of a check of the document built for a lane, and that it passed.
  ghost predicate IsPass(g: Grid, doc: Doc, base: Doc, lane: Lane, cells: seq<Point>, polys: seq<seq<Point>>, m: real) {
    && IsReadFrom(doc, base, lane, polys)
    && (forall i, j :: g.Occupied(i, j) ==> g.Centre(i, j) in cells)
    && LaneVerdict.Passes(cells, g.cell / 2.0, polys, m)
  }

  ghost predicate IsReadFrom(doc: Doc, base: Doc, lane: Lane, polys: seq<seq<Point>>) {
    && IsBuiltFrom(doc, base, lane) && IsBase(base) && EvenOdd.IsCut(lane.cuts, |lane.left|)
    && |polys| == |Lanelets(doc.relations)|
    && forall i :: 0 <= i < |polys| ==> IsRing(doc, Lanelets(doc.relations)[i], polys[i])
  }

  // p is in the lane as written and uncut.
  ghost predicate InLane(lane: Lane, p: Point)
    requires |lane.left| == |lane.right| >= 2
  {
    LaneOutline.InLane(AsWritten(lane.left, lane.closed), AsWritten(lane.right, lane.closed), p)
  }

  // The whole pipeline: when the document built for a lane passes the check, no point of any
  // occupied cell lies in the lane as written, uncut.
  lemma PassedMapIsClear(g: Grid, doc: Doc, base: Doc, lane: Lane, cells: seq<Point>, polys: seq<seq<Point>>, m: real,
                         i: int, j: int, p: Point)
    requires g.cell > 0.0 && IsPass(g, doc, base, lane, cells, polys, m)
    requires g.Occupied(i, j) && InSquare(p, g.Centre(i, j), g.cell / 2.0)
    ensures !InLane(lane, p)
  {
    hide IsBuilt, IsRing, LaneVerdict.Passes, EvenOdd.RingParity, EvenOdd.LaneletRing;
    RingsAreTheLanelets(doc, base, lane, polys);
    LaneVerdict.PassMeansLaneClear(g, cells, polys, m, AsWritten(lane.left, lane.closed),
                                   AsWritten(lane.right, lane.closed), lane.cuts, i, j, p);
  }

  // From the cloud to the lane: after a pass no point of the plane that falls in a cell of the grid
  // where enough points were counted is in the lane, so none of those points is.
  lemma CountedIsOutside(e: GridBuilding.Edits, xyz: seq<GridBuilding.Point3>, g: Grid, doc: Doc, base: Doc, lane: Lane,
                         cells: seq<Point>, polys: seq<seq<Point>>, m: real, i: int, j: int, p: Point)
    requires e.cell > 0.0 && GridBuilding.IsGridOf(e, xyz, g) && IsPass(g, doc, base, lane, cells, polys, m)
    requires GridBuilding.OnGrid(e, i, j) && GridBuilding.CellWeight(e, xyz, i, j) >= e.minPoints
    requires GridBuilding.IsIn(e, p, i, j)
    ensures !InLane(lane, p)
  {
    hide InLane, IsPass, GridBuilding.CellWeight, GridBuilding.OnGrid;
    InOwnCell(g, p);
    PassedMapIsClear(g, doc, base, lane, cells, polys, m, i, j, p);
  }

  // Nor is any sample of a line added to the grid, whatever else was removed or counted.
  lemma LineIsOutside(e: GridBuilding.Edits, xyz: seq<GridBuilding.Point3>, g: Grid, doc: Doc, base: Doc, lane: Lane,
                      cells: seq<Point>, polys: seq<seq<Point>>, m: real, k: nat, s: nat, i: int, j: int)
    requires e.cell > 0.0 && e.minPoints >= 0 && GridBuilding.IsGridOf(e, xyz, g)
    requires IsPass(g, doc, base, lane, cells, polys, m)
    requires k < |e.add| && GridBuilding.OnGrid(e, i, j) && GridBuilding.IsSampleIn(e, e.add[k], s, i, j)
    ensures !InLane(lane, GridBuilding.LineSamples(e, e.add[k].a, e.add[k].b, e.add[k].length)[s])
  {
    hide InLane, IsPass, GridBuilding.CellWeight, GridBuilding.CloudWeight, GridBuilding.OnGrid, GridBuilding.IsIn,
           GridBuilding.LineSamples;
    GridBuilding.MarkedExactly(e, xyz, i, j);
    CountedIsOutside(e, xyz, g, doc, base, lane, cells, polys, m, i, j,
                     GridBuilding.LineSamples(e, e.add[k].a, e.add[k].b, e.add[k].length)[s]);
  }

  // The distances the check reports for cells outside the lane are those to its outline when the
  // ends of its lanelets run inside it.
  lemma DistancesAreToTheOutline(doc: Doc, base: Doc, lane: Lane, polys: seq<seq<Point>>, c: Point, h: real, d: real)
    requires IsReadFrom(doc, base, lane, polys) && h >= 0.0 && !InLane(lane, c)
    requires var l, r := AsWritten(lane.left, lane.closed), AsWritten(lane.right, lane.closed);
             LaneOutline.EndsInside(l, r, lane.closed, lane.cuts)
    ensures var l, r := AsWritten(lane.left, lane.closed), AsWritten(lane.right, lane.closed);
            LaneOutline.IsDistance(c, h, polys, d) <==>
              LaneOutline.IsDistance(c, h, LaneOutline.Outline(l, r, lane.closed), d)
  {
    hide IsBuilt, IsRing, LaneOutline.InLane, LaneOutline.IsDistance, LaneOutline.Outline, LaneOutline.EndsInside;
    RingsAreTheLanelets(doc, base, lane, polys);
    hide LaneVerdict.AreLaneletRings;
    LaneOutline.OutlineDecides(polys, AsWritten(lane.left, lane.closed), AsWritten(lane.right, lane.closed),
                               lane.closed, lane.cuts, c, h);
  }

  // For a closed loop the uncut lane is what lies between the two bounds' rings.
  lemma LoopIsBetweenTheBounds(lane: Lane, p: Point)
    requires lane.closed && |lane.left| == |lane.right| >= 2
    ensures var l, r, k := AsWritten(lane.left, true), AsWritten(lane.right, true), |lane.left| - 1;
            EvenOdd.RingParity(EvenOdd.LaneletRing(l, r, 0, k), p)
            == EvenOdd.Xor(EvenOdd.RingParity(l[..k], p), EvenOdd.RingParity(r[..k], p))
  {
    hide EvenOdd.RingParity, EvenOdd.LaneletRing;
    EvenOdd.LoopParity(AsWritten(lane.left, true), AsWritten(lane.right, true), p);
  }
}
