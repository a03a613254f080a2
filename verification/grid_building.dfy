// Building the obstacle grid (scripts/map/obstacle_grid.py): which points count in which cell,
// and which cells a drawn line marks.

module GridBuilding {
  import opened Options
  import opened Planar
  import opened Arange
  import opened ObstacleGrid
  import Splitting

  datatype Point3 = Point3(x: real, y: real, z: real)

  // A missing end is open.
  datatype Range = Range(lo: Option<real>, hi: Option<real>)
  datatype Box = Box(x: Range, y: Range, z: Range)

  // An addition: a box of the cloud, a line of the given length, or neither, which is refused.
  datatype Add = Cloud(box: Box) | Line(a: Point, b: Point, length: real) | Neither

  datatype Edits = Edits(cell: real, minPoints: int, zlo: real, zhi: real, floor: real, x0: real, y0: real,
                         width: real, height: real, remove: seq<Box>, add: seq<Add>)

  predicate InRange(v: real, r: Range) {
    (r.lo.Some? ==> v > r.lo.value) && (r.hi.Some? ==> v < r.hi.value)
  }

  predicate InBox(p: Point3, b: Box) {
    InRange(p.x, b.x) && InRange(p.y, b.y) && InRange(p.z, b.z)
  }

  function Flat(p: Point3): Point {
    Point(p.x, p.y)
  }

  predicate IsIn(e: Edits, p: Point, i: int, j: int)
    requires e.cell > 0.0
  {
    CellIndex(p.x, e.x0, e.cell) == i && CellIndex(p.y, e.y0, e.cell) == j
  }

  // ---- counting ----

  function Filter<T>(s: seq<T>, p: T -> bool): seq<T> {
    if s == [] then [] else Filter(s[..|s| - 1], p) + if p(s[|s| - 1]) then [s[|s| - 1]] else []
  }

  ghost function Count<T>(s: seq<T>, p: T -> bool): (n: nat)
    ensures (exists i :: 0 <= i < |s| && p(s[i])) ==> n > 0
  {
    if s == [] then 0 else Count(s[..|s| - 1], p) + if p(s[|s| - 1]) then 1 else 0
  }

  lemma {:induction false} FilterTwice<T>(s: seq<T>, p: T -> bool, q: T -> bool, r: T -> bool)
    requires forall i :: 0 <= i < |s| ==> r(s[i]) == (p(s[i]) && q(s[i]))
    ensures Filter(Filter(s, p), q) == Filter(s, r)
  {
    if s != [] {
      var m := |s| - 1;
      FilterTwice(s[..m], p, q, r);
      if p(s[m]) {
        assert (Filter(s[..m], p) + [s[m]])[..|Filter(s[..m], p)|] == Filter(s[..m], p);
      } else {
        assert Filter(s, p) == Filter(s[..m], p);
      }
    }
  }

  lemma {:induction false} CountFiltered<T>(s: seq<T>, p: T -> bool, q: T -> bool, r: T -> bool)
    requires forall i :: 0 <= i < |s| ==> r(s[i]) == (p(s[i]) && q(s[i]))
    ensures Count(Filter(s, p), q) == Count(s, r)
  {
    if s != [] {
      var m := |s| - 1;
      CountFiltered(s[..m], p, q, r);
      if p(s[m]) {
        assert (Filter(s[..m], p) + [s[m]])[..|Filter(s[..m], p)|] == Filter(s[..m], p);
      } else {
        assert Filter(s, p) == Filter(s[..m], p);
      }
    }
  }

  lemma {:induction false} CountMapped<T, U>(s: seq<T>, t: seq<U>, p: T -> bool, q: U -> bool)
    requires |s| == |t| && forall i :: 0 <= i < |s| ==> p(s[i]) == q(t[i])
    ensures Count(s, p) == Count(t, q)
  {
    if s != [] { CountMapped(s[..|s| - 1], t[..|t| - 1], p, q); }
  }

  // ---- what a cell holds ----

  // Points of the height band outside the first k removed boxes.
  function KeptBy(e: Edits, k: nat): Point3 -> bool
    requires k <= |e.remove|
  {
    (p: Point3) => e.zlo < p.z - e.floor < e.zhi && forall i :: 0 <= i < k ==> !InBox(p, e.remove[i])
  }

  function LineCount(e: Edits, length: real): nat
    requires e.cell > 0.0
  {
    ArangeLength(0.0, length, e.cell / 2.0)
  }

  // How far along a line its k-th sample is; a line of no length has none.
  function Fraction(e: Edits, length: real, k: nat): real {
    if length == 0.0 then 0.0 else k as real * (e.cell / 2.0) / length
  }

  // Samples every half cell from the first end, the second end excluded.
  function LineSamples(e: Edits, a: Point, b: Point, length: real): (s: seq<Point>)
    requires e.cell > 0.0
    ensures |s| == LineCount(e, length) && forall k :: 0 <= k < |s| ==> s[k] == Along(a, b, Fraction(e, length, k))
  {
    seq(LineCount(e, length), k requires 0 <= k < LineCount(e, length) => Along(a, b, Fraction(e, length, k)))
  }

  ghost function InCell(e: Edits, i: int, j: int): Point -> bool
    requires e.cell > 0.0
  {
    (p: Point) => IsIn(e, p, i, j)
  }

  ghost function CountedIn(e: Edits, keep: Point3 -> bool, i: int, j: int): Point3 -> bool
    requires e.cell > 0.0
  {
    (p: Point3) => keep(p) && IsIn(e, Flat(p), i, j)
  }

  function BoxFilter(box: Box): Point3 -> bool {
    (p: Point3) => InBox(p, box)
  }

  // What an addition adds to a cell: the box's points once each, a line's samples minPoints each.
  ghost function AddedBy(e: Edits, xyz: seq<Point3>, add: Add, i: int, j: int): int
    requires e.cell > 0.0
  {
    match add
    case Cloud(box) => Count(xyz, CountedIn(e, BoxFilter(box), i, j))
    case Line(a, b, length) => e.minPoints * Count(LineSamples(e, a, b, length), InCell(e, i, j))
    case Neither => 0
  }

  ghost function Added(e: Edits, xyz: seq<Point3>, k: nat, i: int, j: int): int
    requires e.cell > 0.0 && k <= |e.add|
  {
    if k == 0 then 0 else Added(e, xyz, k - 1, i, j) + AddedBy(e, xyz, e.add[k - 1], i, j)
  }

  // The weight of a cell: the kept band points in it, and what the additions add.
  ghost function CellWeight(e: Edits, xyz: seq<Point3>, i: int, j: int): int
    requires e.cell > 0.0
  {
    Count(xyz, CountedIn(e, KeptBy(e, |e.remove|), i, j)) + Added(e, xyz, |e.add|, i, j)
  }

  // ---- which points those are ----

  // v is strictly between the ends that are given.
  ghost predicate IsBetween(v: real, lo: Option<real>, hi: Option<real>) {
    (forall a :: lo == Some(a) ==> a < v) && (forall b :: hi == Some(b) ==> v < b)
  }

  ghost predicate IsInside(p: Point3, b: Box) {
    IsBetween(p.x, b.x.lo, b.x.hi) && IsBetween(p.y, b.y.lo, b.y.hi) && IsBetween(p.z, b.z.lo, b.z.hi)
  }

  // In the height band above the floor, and strictly inside no removed box.
  ghost predicate IsKept(e: Edits, p: Point3) {
    e.floor + e.zlo < p.z < e.floor + e.zhi && forall i :: 0 <= i < |e.remove| ==> !IsInside(p, e.remove[i])
  }

  // p is above the (i, j)-th square of the grid.
  ghost predicate IsOver(e: Edits, x: real, y: real, i: int, j: int) {
    && e.x0 + i as real * e.cell <= x < e.x0 + (i + 1) as real * e.cell
    && e.y0 + j as real * e.cell <= y < e.y0 + (j + 1) as real * e.cell
  }

  lemma BoxIs(p: Point3, b: Box)
    ensures InBox(p, b) <==> IsInside(p, b)
  {
  }

  lemma KeptIs(e: Edits, p: Point3)
    ensures KeptBy(e, |e.remove|)(p) <==> IsKept(e, p)
  {
    forall i | 0 <= i < |e.remove|
      ensures InBox(p, e.remove[i]) <==> IsInside(p, e.remove[i])
    {
      BoxIs(p, e.remove[i]);
    }
    hide InBox, IsInside;
  }

  lemma OverIs(e: Edits, p: Point, i: int, j: int)
    requires e.cell > 0.0
    ensures IsIn(e, p, i, j) <==> IsOver(e, p.x, p.y, i, j)
  {
    CellIndexIs(p.x, e.x0, e.cell, i);
    CellIndexIs(p.y, e.y0, e.cell, j);
    hide CellIndex;
  }

  // The places in the list where p holds.
  ghost function Where<T>(s: seq<T>, p: T -> bool): set<nat> {
    set i: nat | i < |s| && p(s[i])
  }

  lemma {:induction false} CountIs<T>(s: seq<T>, p: T -> bool)
    ensures Count(s, p) == |Where(s, p)|
  {
    if s != [] {
      var m := |s| - 1;
      CountIs(s[..m], p);
      assert Where(s, p) == Where(s[..m], p) + if p(s[m]) then {m} else {};
    }
  }

  // The kept points of the cloud over a cell, and those inside a box.
  ghost function KeptOver(e: Edits, xyz: seq<Point3>, i: int, j: int): set<nat> {
    set k: nat | k < |xyz| && IsKept(e, xyz[k]) && IsOver(e, xyz[k].x, xyz[k].y, i, j)
  }

  ghost function BoxedOver(e: Edits, xyz: seq<Point3>, box: Box, i: int, j: int): set<nat> {
    set k: nat | k < |xyz| && IsInside(xyz[k], box) && IsOver(e, xyz[k].x, xyz[k].y, i, j)
  }

  // What the cloud counts in a cell is how many kept points are over it ...
  lemma KeptAre(e: Edits, xyz: seq<Point3>, i: int, j: int)
    requires e.cell > 0.0
    ensures Count(xyz, CountedIn(e, KeptBy(e, |e.remove|), i, j)) == |KeptOver(e, xyz, i, j)|
  {
    hide IsKept, IsOver, IsIn;
    var kept := CountedIn(e, KeptBy(e, |e.remove|), i, j);
    CountIs(xyz, kept);
    forall k: nat | k < |xyz|
      ensures kept(xyz[k]) <==> IsKept(e, xyz[k]) && IsOver(e, xyz[k].x, xyz[k].y, i, j)
    {
      KeptIs(e, xyz[k]);
      OverIs(e, Flat(xyz[k]), i, j);
    }
    hide KeptBy;
    assert Where(xyz, kept) == KeptOver(e, xyz, i, j);
  }

  // ... and an added box once more those over it that are inside the box.
  lemma BoxedAre(e: Edits, xyz: seq<Point3>, box: Box, i: int, j: int)
    requires e.cell > 0.0
    ensures AddedBy(e, xyz, Cloud(box), i, j) == |BoxedOver(e, xyz, box, i, j)|
  {
    hide IsInside, IsOver, IsIn, InBox;
    var boxed := CountedIn(e, BoxFilter(box), i, j);
    CountIs(xyz, boxed);
    forall k: nat | k < |xyz|
      ensures boxed(xyz[k]) <==> IsInside(xyz[k], box) && IsOver(e, xyz[k].x, xyz[k].y, i, j)
    {
      BoxIs(xyz[k], box);
      OverIs(e, Flat(xyz[k]), i, j);
    }
    assert Where(xyz, boxed) == BoxedOver(e, xyz, box, i, j);
  }

  // The samples of a line lie on it half a cell apart, from its first end up to short of its second.
  lemma SamplesAre(e: Edits, a: Point, b: Point, length: real, s: nat)
    requires e.cell > 0.0 && length > 0.0
    ensures s < LineCount(e, length) <==> s as real * (e.cell / 2.0) < length
    ensures s < LineCount(e, length) ==>
              var p, d := LineSamples(e, a, b, length)[s], s as real * (e.cell / 2.0);
              (p.x - a.x) * length == d * (b.x - a.x) && (p.y - a.y) * length == d * (b.y - a.y)
  {
    ArangeCovers(0.0, length, e.cell / 2.0, s);
    hide ArangeLength;
    var d := s as real * (e.cell / 2.0);
    var t := d / length;
    assert t * length == d;
    assert t * (b.x - a.x) * length == d * (b.x - a.x) && t * (b.y - a.y) * length == d * (b.y - a.y);
  }

  // The grid has the size asked for to within half a cell.
  lemma SizeIs(e: Edits)
    requires e.cell > 0.0
    ensures Abs(Columns(e) as real * e.cell - e.width) <= e.cell / 2.0
    ensures Abs(Lines(e) as real * e.cell - e.height) <= e.cell / 2.0
  {
    Rounded(e.width, e.cell);
    Rounded(e.height, e.cell);
  }

  lemma Rounded(v: real, cell: real)
    requires cell > 0.0
    ensures Abs(Splitting.Round(v / cell) as real * cell - v) <= cell / 2.0
  {
    var q := v / cell;
    var r := Splitting.Round(q) as real;
    assert q * cell == v;
    ProductSign(q + 0.5 - r, cell);
    ProductSign(r - q + 0.5, cell);
    assert (q + 0.5 - r) * cell == v + cell / 2.0 - r * cell;
    assert (r - q + 0.5) * cell == r * cell - v + cell / 2.0;
  }

  // ---- the computation ----

  datatype Weighted = Weighted(at: Point, weight: int)

  ghost function WeightIn(e: Edits, pts: seq<Weighted>, i: int, j: int): int
    requires e.cell > 0.0
  {
    if pts == [] then 0
    else WeightIn(e, pts[..|pts| - 1], i, j) + if IsIn(e, pts[|pts| - 1].at, i, j) then pts[|pts| - 1].weight else 0
  }

  lemma {:induction false} WeightOfConcat(e: Edits, a: seq<Weighted>, b: seq<Weighted>, i: int, j: int)
    requires e.cell > 0.0
    ensures WeightIn(e, a + b, i, j) == WeightIn(e, a, i, j) + WeightIn(e, b, i, j)
  {
    hide IsIn;
    if b == [] {
      assert a + b == a;
    } else {
      var m := |b| - 1;
      assert (a + b)[..|a| + m] == a + b[..m];
      WeightOfConcat(e, a, b[..m], i, j);
    }
  }

  function AllOf(pts: seq<Point>, weight: int): (r: seq<Weighted>)
    ensures |r| == |pts| && forall k :: 0 <= k < |r| ==> r[k] == Weighted(pts[k], weight)
  {
    seq(|pts|, k requires 0 <= k < |pts| => Weighted(pts[k], weight))
  }

  lemma {:induction false} WeightOfAll(e: Edits, pts: seq<Point>, weight: int, i: int, j: int)
    requires e.cell > 0.0
    ensures WeightIn(e, AllOf(pts, weight), i, j) == weight * Count(pts, InCell(e, i, j))
  {
    hide IsIn;
    if pts != [] {
      var m := |pts| - 1;
      WeightOfAll(e, pts[..m], weight, i, j);
      assert AllOf(pts, weight)[..m] == AllOf(pts[..m], weight);
      var n := Count(pts[..m], InCell(e, i, j));
      assert weight * (n + 1) == weight * n + weight;
    }
  }

  function Flats(pts: seq<Point3>): (r: seq<Point>)
    ensures |r| == |pts| && forall k :: 0 <= k < |r| ==> r[k] == Flat(pts[k])
  {
    seq(|pts|, k requires 0 <= k < |pts| => Flat(pts[k]))
  }

  // The points some filter keeps count once each in their cells.
  lemma WeightOfKept(e: Edits, xyz: seq<Point3>, keep: Point3 -> bool, i: int, j: int)
    requires e.cell > 0.0
    ensures WeightIn(e, AllOf(Flats(Filter(xyz, keep)), 1), i, j) == Count(xyz, CountedIn(e, keep, i, j))
  {
    var kept := Filter(xyz, keep);
    var q: Point3 -> bool := p => IsIn(e, Flat(p), i, j);
    hide IsIn;
    WeightOfAll(e, Flats(kept), 1, i, j);
    CountMapped(kept, Flats(kept), q, InCell(e, i, j));
    CountFiltered(xyz, keep, q, CountedIn(e, keep, i, j));
  }

  method Band(e: Edits, xyz: seq<Point3>) returns (band: seq<Point3>)
    ensures band == Filter(xyz, KeptBy(e, |e.remove|))
  {
    band := Filter(xyz, KeptBy(e, 0));
    for k := 0 to |e.remove|
      invariant band == Filter(xyz, KeptBy(e, k))
    {
      var outside := (p: Point3) => !InBox(p, e.remove[k]);
      FilterTwice(xyz, KeptBy(e, k), outside, KeptBy(e, k + 1));
      band := Filter(band, outside);
    }
  }

  // None for an addition that is neither a cloud nor a line.
  method Points(e: Edits, xyz: seq<Point3>) returns (pts: Option<seq<Weighted>>)
    requires e.cell > 0.0
    ensures pts.Some? <==> Neither !in e.add
    ensures pts.Some? ==> forall i, j :: WeightIn(e, pts.value, i, j) == CellWeight(e, xyz, i, j)
  {
    hide IsIn, CountedIn, KeptBy, BoxFilter, LineSamples;
    var band := Band(e, xyz);
    var list := AllOf(Flats(band), 1);
    forall i, j
      ensures WeightIn(e, list, i, j) == Count(xyz, CountedIn(e, KeptBy(e, |e.remove|), i, j)) + Added(e, xyz, 0, i, j)
    {
      WeightOfKept(e, xyz, KeptBy(e, |e.remove|), i, j);
    }
    for k := 0 to |e.add|
      invariant forall a :: 0 <= a < k ==> e.add[a] != Neither
      invariant forall i, j :: WeightIn(e, list, i, j)
                               == Count(xyz, CountedIn(e, KeptBy(e, |e.remove|), i, j)) + Added(e, xyz, k, i, j)
    {
      var more: seq<Weighted>;
      match e.add[k] {
        case Neither => return None;
        case Cloud(box) => more := AllOf(Flats(Filter(xyz, BoxFilter(box))), 1);
        case Line(a, b, length) => more := AllOf(LineSamples(e, a, b, length), e.minPoints);
      }
      forall i, j
        ensures WeightIn(e, list + more, i, j) == WeightIn(e, list, i, j) + AddedBy(e, xyz, e.add[k], i, j)
      {
        WeightOfConcat(e, list, more, i, j);
        match e.add[k] {
          case Neither =>
          case Cloud(box) => WeightOfKept(e, xyz, BoxFilter(box), i, j);
          case Line(a, b, length) => WeightOfAll(e, LineSamples(e, a, b, length), e.minPoints, i, j);
        }
      }
      list := list + more;
    }
    pts := Some(list);
  }

  // Counts every weighted point into its cell, points outside the grid left out.
  method CountCells(e: Edits, pts: seq<Weighted>, nx: nat, ny: nat) returns (cnt: array2<int>)
    requires e.cell > 0.0
    ensures cnt.Length0 == nx && cnt.Length1 == ny
    ensures forall i, j :: 0 <= i < nx && 0 <= j < ny ==> cnt[i, j] == WeightIn(e, pts, i, j)
  {
    hide CellIndex;
    cnt := new int[nx, ny]((i, j) => 0);
    for k := 0 to |pts|
      invariant forall i, j :: 0 <= i < nx && 0 <= j < ny ==> cnt[i, j] == WeightIn(e, pts[..k], i, j)
    {
      assert pts[..k + 1][..k] == pts[..k];
      var p := pts[k].at;
      var ix, iy := CellIndex(p.x, e.x0, e.cell), CellIndex(p.y, e.y0, e.cell);
      if 0 <= ix < nx && 0 <= iy < ny {
        cnt[ix, iy] := cnt[ix, iy] + pts[k].weight;
      }
    }
    assert pts[..|pts|] == pts;
  }

  // None where the program stops: a grid of negative size, or an addition it does not know.
  function Columns(e: Edits): int
    requires e.cell > 0.0
  {
    Splitting.Round(e.width / e.cell)
  }

  function Lines(e: Edits): int
    requires e.cell > 0.0
  {
    Splitting.Round(e.height / e.cell)
  }

  // A cell of the grid is occupied exactly when what it holds weighs enough.
  ghost predicate IsGridOf(e: Edits, xyz: seq<Point3>, g: Grid)
    requires e.cell > 0.0
  {
    && g.x0 == e.x0 && g.y0 == e.y0 && g.cell == e.cell
    && forall i, j :: g.Occupied(i, j) <==> OnGrid(e, i, j) && CellWeight(e, xyz, i, j) >= e.minPoints
  }

  predicate OnGrid(e: Edits, i: int, j: int)
    requires e.cell > 0.0
  {
    0 <= i < Columns(e) && 0 <= j < Lines(e)
  }

  method BuildGrid(e: Edits, xyz: seq<Point3>) returns (g: Option<Grid>)
    requires e.cell > 0.0
    ensures g.Some? <==> Columns(e) >= 0 && Lines(e) >= 0 && Neither !in e.add
    ensures g.Some? ==> g.value.Valid() && IsGridOf(e, xyz, g.value)
  {
    hide CellWeight, WeightIn, Columns, Lines;
    var nx, ny := Columns(e), Lines(e);
    var pts := Points(e, xyz);
    if nx < 0 || ny < 0 || pts.None? {
      return None;
    }
    var cnt := CountCells(e, pts.value, nx, ny);
    var occ: seq<seq<bool>> := [];
    for i := 0 to nx
      invariant |occ| == i && forall a :: 0 <= a < i ==> |occ[a]| == ny
      invariant forall a, b :: 0 <= a < i && 0 <= b < ny ==> (occ[a][b] <==> CellWeight(e, xyz, a, b) >= e.minPoints)
    {
      var column: seq<bool> := [];
      for j := 0 to ny
        invariant |column| == j
        invariant forall b :: 0 <= b < j ==> (column[b] <==> CellWeight(e, xyz, i, b) >= e.minPoints)
      {
        assert cnt[i, j] == CellWeight(e, xyz, i, j);
        column := column + [cnt[i, j] >= e.minPoints];
      }
      occ := occ + [column];
    }
    g := Some(Grid(occ, e.x0, e.y0, e.cell));
  }

  // ---- lines ----

  // Some line has a sample in the cell.
  ghost predicate HasSample(e: Edits, k: nat, i: int, j: int)
    requires e.cell > 0.0 && k <= |e.add|
  {
    exists a, s :: 0 <= a < k && IsSampleIn(e, e.add[a], s, i, j)
  }

  ghost predicate IsSampleIn(e: Edits, add: Add, s: int, i: int, j: int)
    requires e.cell > 0.0
  {
    add.Line? && 0 <= s < LineCount(e, add.length) && IsIn(e, LineSamples(e, add.a, add.b, add.length)[s], i, j)
  }

  // What the boxes of the cloud add to a cell.
  ghost function Boxed(e: Edits, xyz: seq<Point3>, k: nat, i: int, j: int): nat
    requires e.cell > 0.0 && k <= |e.add|
  {
    if k == 0 then 0
    else Boxed(e, xyz, k - 1, i, j)
         + match e.add[k - 1] case Cloud(box) => Count(xyz, CountedIn(e, BoxFilter(box), i, j)) case _ => 0
  }

  // The points of the cloud that count in a cell.
  ghost function CloudWeight(e: Edits, xyz: seq<Point3>, i: int, j: int): nat
    requires e.cell > 0.0
  {
    Count(xyz, CountedIn(e, KeptBy(e, |e.remove|), i, j)) + Boxed(e, xyz, |e.add|, i, j)
  }

  lemma {:induction false} NoneCounted<T>(s: seq<T>, p: T -> bool)
    requires forall i :: 0 <= i < |s| ==> !p(s[i])
    ensures Count(s, p) == 0
  {
    if s != [] { NoneCounted(s[..|s| - 1], p); }
  }

  lemma AtLeastOnce(m: int, n: nat)
    requires m >= 0 && n > 0
    ensures m * n >= m
  {
    assert m * n == m + m * (n - 1);
    assert m * (n - 1) >= 0;
  }

  // A line adds nothing to a cell without a sample of it, and minPoints at least to one with.
  lemma LineAdds(e: Edits, xyz: seq<Point3>, add: Add, i: int, j: int)
    requires e.cell > 0.0 && e.minPoints >= 0 && add.Line?
    ensures (exists s :: IsSampleIn(e, add, s, i, j)) ==> AddedBy(e, xyz, add, i, j) >= e.minPoints
    ensures !(exists s :: IsSampleIn(e, add, s, i, j)) ==> AddedBy(e, xyz, add, i, j) == 0
  {
    hide IsIn, LineSamples;
    var samples, p := LineSamples(e, add.a, add.b, add.length), InCell(e, i, j);
    var n := Count(samples, p);
    if s :| IsSampleIn(e, add, s, i, j) {
      assert p(samples[s]);
      AtLeastOnce(e.minPoints, n);
    } else {
      forall s | 0 <= s < |samples|
        ensures !p(samples[s])
      {
        assert !IsSampleIn(e, add, s, i, j);
      }
      NoneCounted(samples, p);
    }
  }

  lemma {:induction false} AddedSplits(e: Edits, xyz: seq<Point3>, k: nat, i: int, j: int)
    requires e.cell > 0.0 && e.minPoints >= 0 && k <= |e.add|
    ensures HasSample(e, k, i, j) ==> Added(e, xyz, k, i, j) >= e.minPoints
    ensures !HasSample(e, k, i, j) ==> Added(e, xyz, k, i, j) == Boxed(e, xyz, k, i, j)
    ensures Added(e, xyz, k, i, j) >= 0
  {
    hide IsSampleIn, CountedIn, BoxFilter, InCell;
    if k > 0 {
      var add := e.add[k - 1];
      AddedSplits(e, xyz, k - 1, i, j);
      if add.Line? {
        LineAdds(e, xyz, add, i, j);
      } else {
        assert forall s :: !IsSampleIn(e, add, s, i, j) by { NoSamples(e, add, i, j); }
      }
      if HasSample(e, k, i, j) && !HasSample(e, k - 1, i, j) {
        var a, s :| 0 <= a < k && IsSampleIn(e, e.add[a], s, i, j);
        assert a == k - 1;
      }
    }
  }

  lemma NoSamples(e: Edits, add: Add, i: int, j: int)
    requires e.cell > 0.0 && !add.Line?
    ensures forall s :: !IsSampleIn(e, add, s, i, j)
  {
  }

  // Exactly when a cell is marked: some line has a sample in it, or the cloud's own points are
  // enough.
  lemma MarkedExactly(e: Edits, xyz: seq<Point3>, i: int, j: int)
    requires e.cell > 0.0 && e.minPoints >= 0
    ensures CellWeight(e, xyz, i, j) >= e.minPoints <==>
              HasSample(e, |e.add|, i, j) || CloudWeight(e, xyz, i, j) >= e.minPoints
  {
    hide HasSample, CountedIn, KeptBy;
    AddedSplits(e, xyz, |e.add|, i, j);
  }

  // A line is missed only by cells it is in for less than half a cell: any part of it that long,
  // short of its end, holds a sample.
  lemma LongPartsSampled(e: Edits, length: real, t0: real, t1: real) returns (s: nat)
    requires e.cell > 0.0 && length > 0.0 && 0.0 <= t0 <= t1 < 1.0 && (t1 - t0) * length >= e.cell / 2.0
    ensures s < LineCount(e, length) && t0 <= Fraction(e, length, s) <= t1
  {
    var step := e.cell / 2.0;
    ProductSign(t0, length);
    s := NextMultiple(t0 * length, step);
    var d := s as real * step;
    assert d <= t1 * length by {
      assert (t1 - t0) * length == t1 * length - t0 * length;
    }
    Below(d, t1, length);
    Quotients(t0, t1, d, length);
    ArangeCovers(0.0, length, step, s);
    hide ArangeLength;
    assert s < ArangeLength(0.0, length, step);
    assert Fraction(e, length, s) == d / length;
  }

  // The first multiple of step at or after v.
  lemma NextMultiple(v: real, step: real) returns (s: nat)
    requires v >= 0.0 && step > 0.0
    ensures v <= s as real * step <= v + step
  {
    var q := v / step;
    assert q * step == v;
    SignOfProduct(q, step);
    var n := -((-q).Floor);
    assert q <= n as real < q + 1.0;
    ProductSign(n as real - q, step);
    ProductSign(q + 1.0 - n as real, step);
    assert (n as real - q) * step == n as real * step - v;
    assert (q + 1.0 - n as real) * step == v + step - n as real * step;
    s := n;
  }

  lemma Below(d: real, t: real, length: real)
    requires d <= t * length && t < 1.0 && length > 0.0
    ensures d < length
  {
  }

  lemma Quotients(t0: real, t1: real, d: real, length: real)
    requires length > 0.0 && t0 * length <= d <= t1 * length
    ensures t0 <= d / length <= t1
  {
    var r := d / length;
    assert r * length == d;
    SignOfProduct(r - t0, length);
    SignOfProduct(t1 - r, length);
    assert (r - t0) * length == d - t0 * length && (t1 - r) * length == t1 * length - d;
  }

  // So a line marks a cell it is in for half a cell or more.
  lemma CrossedCellMarked(e: Edits, xyz: seq<Point3>, k: nat, i: int, j: int, t0: real, t1: real)
    requires e.cell > 0.0 && e.minPoints >= 0 && k < |e.add| && e.add[k].Line? && e.add[k].length > 0.0
    requires 0.0 <= t0 <= t1 < 1.0 && (t1 - t0) * e.add[k].length >= e.cell / 2.0
    requires forall t: real :: t0 <= t <= t1 ==> IsIn(e, Along(e.add[k].a, e.add[k].b, t), i, j)
    ensures CellWeight(e, xyz, i, j) >= e.minPoints
  {
    hide IsIn, Along, CellWeight, CloudWeight, Fraction;
    var line := e.add[k];
    var s := LongPartsSampled(e, line.length, t0, t1);
    assert IsSampleIn(e, line, s, i, j);
    MarkedExactly(e, xyz, i, j);
  }

  // A corner clipped in less than that can be missed: this line of length 1 passes through the
  // cell (0, 1) of a grid of unit cells and has no sample there.
  lemma ClippedCornerMissed()
    ensures var e := Edits(1.0, 1, 0.0, 1.0, 0.0, 0.0, 0.0, 2.0, 2.0, [],
                           [Line(Point(0.9, 0.95), Point(1.5, 1.75), 1.0)]);
            && Dist2(e.add[0].a, e.add[0].b) == e.add[0].length * e.add[0].length
            && IsIn(e, Along(e.add[0].a, e.add[0].b, 0.1), 0, 1)
            && CellWeight(e, [], 0, 1) < e.minPoints
  {
    var line := Line(Point(0.9, 0.95), Point(1.5, 1.75), 1.0);
    var e := Edits(1.0, 1, 0.0, 1.0, 0.0, 0.0, 0.0, 2.0, 2.0, [], [line]);
    ArangeCovers(0.0, 1.0, 0.5, 1);
    ArangeCovers(0.0, 1.0, 0.5, 2);
    var samples := LineSamples(e, line.a, line.b, 1.0);
    assert |samples| == 2;
    assert samples[0] == Along(line.a, line.b, 0.0) == line.a
           && samples[1] == Along(line.a, line.b, 0.5) == Point(1.2, 1.35);
    forall a, s | 0 <= a < 1
      ensures !IsSampleIn(e, e.add[a], s, 0, 1)
    {
    }
    MarkedExactly(e, [], 0, 1);
  }
}
