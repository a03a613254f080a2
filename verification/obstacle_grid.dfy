// The obstacle grid (scripts/map/obstacle_grid.py): which cell a point is in, how a grid is
// counted, and the centres of its occupied cells.

module ObstacleGrid {
  import opened Planar

  // occ[i][j] for the i-th column from x0 and the j-th row from y0.
  datatype Grid = Grid(occ: seq<seq<bool>>, x0: real, y0: real, cell: real) {
    ghost predicate Valid() {
      cell > 0.0 && forall i, j :: 0 <= i < |occ| && 0 <= j < |occ| ==> |occ[i]| == |occ[j]|
    }

    predicate Occupied(i: int, j: int) {
      0 <= i < |occ| && 0 <= j < |occ[i]| && occ[i][j]
    }

    function Centre(i: int, j: int): Point {
      Point(x0 + (i as real + 0.5) * cell, y0 + (j as real + 0.5) * cell)
    }
  }

  // Index of the cell a coordinate falls in.
  function CellIndex(v: real, v0: real, cell: real): int
    requires cell > 0.0
  {
    ((v - v0) / cell).Floor
  }

  lemma CellIndexIs(v: real, v0: real, cell: real, i: int)
    requires cell > 0.0
    ensures CellIndex(v, v0, cell) == i <==> v0 + i as real * cell <= v < v0 + (i + 1) as real * cell
  {
    var q := (v - v0) / cell;
    assert q * cell == v - v0;
    assert (i + 1) as real == i as real + 1.0;
    SignOfProduct(q - i as real, cell);
    SignOfProduct(i as real + 1.0 - q, cell);
    SignOfProduct(q - i as real - 1.0, cell);
    assert (q - i as real) * cell == v - v0 - i as real * cell;
    assert (q - i as real - 1.0) * cell == v - v0 - (i as real + 1.0) * cell;
  }

  // p is in the (i, j)-th square of the grid, its lower and left sides included.
  ghost predicate InCell(g: Grid, p: Point, i: int, j: int) {
    && g.x0 + i as real * g.cell <= p.x < g.x0 + (i + 1) as real * g.cell
    && g.y0 + j as real * g.cell <= p.y < g.y0 + (j + 1) as real * g.cell
  }

  // p is in an occupied cell.
  ghost predicate InOccupied(g: Grid, p: Point) {
    exists i, j :: g.Occupied(i, j) && InCell(g, p, i, j)
  }

  lemma OccupiedAtIs(g: Grid, p: Point)
    requires g.cell > 0.0
    ensures OccupiedAt(g, p) <==> InOccupied(g, p)
  {
    hide InCell;
    var a, b := CellIndex(p.x, g.x0, g.cell), CellIndex(p.y, g.y0, g.cell);
    CellIs(g, p, a, b);
    if i, j :| g.Occupied(i, j) && InCell(g, p, i, j) {
      CellIs(g, p, i, j);
    }
  }

  lemma CellIs(g: Grid, p: Point, i: int, j: int)
    requires g.cell > 0.0
    ensures InCell(g, p, i, j) <==> CellIndex(p.x, g.x0, g.cell) == i && CellIndex(p.y, g.y0, g.cell) == j
  {
    CellIndexIs(p.x, g.x0, g.cell, i);
    CellIndexIs(p.y, g.y0, g.cell, j);
    hide CellIndex;
  }

  predicate OccupiedAt(g: Grid, p: Point)
    requires g.cell > 0.0
  {
    g.Occupied(CellIndex(p.x, g.x0, g.cell), CellIndex(p.y, g.y0, g.cell))
  }

  // A point is in the closed square of the cell its indices name.
  lemma InOwnCell(g: Grid, p: Point)
    requires g.cell > 0.0
    ensures InSquare(p, g.Centre(CellIndex(p.x, g.x0, g.cell), CellIndex(p.y, g.y0, g.cell)), g.cell / 2.0)
  {
    OwnRange(p.x, g.x0, g.cell);
    OwnRange(p.y, g.y0, g.cell);
  }

  lemma OwnRange(v: real, v0: real, cell: real)
    requires cell > 0.0
    ensures var c := v0 + (CellIndex(v, v0, cell) as real + 0.5) * cell; c - cell / 2.0 <= v <= c + cell / 2.0
  {
    var q := (v - v0) / cell;
    var i := q.Floor;
    assert q * cell == v - v0;
    ProductSign(q - i as real, cell);
    ProductSign(i as real + 1.0 - q, cell);
  }

  ghost predicate IsOccupiedCentre(g: Grid, p: Point) {
    exists i, j :: g.Occupied(i, j) && p == g.Centre(i, j)
  }

  // Centres of the occupied cells, column by column.
  method OccupiedCentres(g: Grid) returns (cells: seq<Point>)
    ensures forall i, j :: g.Occupied(i, j) ==> g.Centre(i, j) in cells
    ensures forall k :: 0 <= k < |cells| ==> IsOccupiedCentre(g, cells[k])
  {
    cells := [];
    for i := 0 to |g.occ|
      invariant forall a, b :: a < i && g.Occupied(a, b) ==> g.Centre(a, b) in cells
      invariant forall k :: 0 <= k < |cells| ==> IsOccupiedCentre(g, cells[k])
    {
      for j := 0 to |g.occ[i]|
        invariant forall a, b :: a < i && g.Occupied(a, b) ==> g.Centre(a, b) in cells
        invariant forall b :: b < j && g.Occupied(i, b) ==> g.Centre(i, b) in cells
        invariant forall k :: 0 <= k < |cells| ==> IsOccupiedCentre(g, cells[k])
      {
        if g.occ[i][j] {
          assert g.Occupied(i, j) && IsOccupiedCentre(g, g.Centre(i, j));
          cells := cells + [g.Centre(i, j)];
        }
      }
    }
  }
}
