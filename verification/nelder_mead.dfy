// The simplex search and the fit built on it (scripts/testing/sysid/sysid_fit.py), for any cost.

module NelderMead {
  import opened Options
  import opened Increasing
  import opened Planar
  import Minimum
  import Sums

  type Vertex = seq<real>

  // c + w (c - p)
  function Away(c: Vertex, w: real, p: Vertex): (r: Vertex)
    requires |c| == |p|
    ensures |r| == |c|
  {
    seq(|c|, i requires 0 <= i < |c| => c[i] + w * (c[i] - p[i]))
  }

  function CoordinateSum(pts: seq<Vertex>, i: nat): real
    requires forall k :: 0 <= k < |pts| ==> i < |pts[k]|
  {
    if pts == [] then 0.0 else CoordinateSum(pts[..|pts| - 1], i) + pts[|pts| - 1][i]
  }

  function Mean(pts: seq<Vertex>, n: nat): (c: Vertex)
    requires pts != [] && forall k :: 0 <= k < |pts| ==> |pts[k]| == n
    ensures |c| == n
  {
    seq(n, i requires 0 <= i < n => CoordinateSum(pts, i) / |pts| as real)
  }

  // order lists the indices below k, each once, from the least value to the greatest.
  ghost predicate IsOrder(order: seq<nat>, vals: seq<real>, k: nat) {
    && k <= |vals| && |order| == k
    && (forall i :: 0 <= i < k ==> order[i] < k)
    && (forall i :: 0 <= i < k ==> i in order)
    && (forall i, j :: 0 <= i < j < k ==> order[i] != order[j])
    && (forall i, j :: 0 <= i < j < k ==> vals[order[i]] <= vals[order[j]])
  }

  // An argsort, by insertion.
  method ArgSort(vals: seq<real>) returns (order: seq<nat>)
    ensures IsOrder(order, vals, |vals|)
  {
    order := [];
    for k := 0 to |vals|
      invariant IsOrder(order, vals, k)
    {
      var at := 0;
      while at < k && vals[order[at]] <= vals[k]
        invariant 0 <= at <= k
        invariant forall i :: 0 <= i < at ==> vals[order[i]] <= vals[k]
      {
        at := at + 1;
      }
      Inserted(order, vals, k, at);
      order := order[..at] + [k] + order[at..];
    }
  }

  lemma Inserted(order: seq<nat>, vals: seq<real>, k: nat, at: nat)
    requires IsOrder(order, vals, k) && k < |vals| && at <= k
    requires forall i :: 0 <= i < at ==> vals[order[i]] <= vals[k]
    requires at < k ==> vals[k] < vals[order[at]]
    ensures IsOrder(order[..at] + [k] + order[at..], vals, k + 1)
  {
    OrderBounds(order, vals, k);
    InsertedEach(order, vals, k, at);
    InsertedRising(order, vals, k, at);
  }

  // The element at a place after the insertion.
  lemma InsertedAt(order: seq<nat>, k: nat, at: nat, i: nat)
    requires at <= |order| && i <= |order|
    ensures (order[..at] + [k] + order[at..])[i] == if i < at then order[i] else if i == at then k else order[i - 1]
  {
  }

  lemma InsertedEach(order: seq<nat>, vals: seq<real>, k: nat, at: nat)
    requires IsOrder(order, vals, k) && at <= k
    ensures var after := order[..at] + [k] + order[at..];
            && (forall i :: 0 <= i < k + 1 ==> after[i] < k + 1 && i in after)
            && (forall i, j :: 0 <= i < j < k + 1 ==> after[i] != after[j])
  {
    var after := order[..at] + [k] + order[at..];
    forall i | 0 <= i < k + 1
      ensures after[i] < k + 1 && i in after
    {
      InsertedAt(order, k, at, i);
      InsertedHas(order, vals, k, at, i);
    }
    forall i, j | 0 <= i < j < k + 1
      ensures after[i] != after[j]
    {
      InsertedAt(order, k, at, i);
      InsertedAt(order, k, at, j);
    }
  }

  lemma InsertedHas(order: seq<nat>, vals: seq<real>, k: nat, at: nat, i: nat)
    requires IsOrder(order, vals, k) && at <= k && i <= k
    ensures i in order[..at] + [k] + order[at..]
  {
    var after := order[..at] + [k] + order[at..];
    if i < k {
      assert i in order;
      var j :| 0 <= j < k && order[j] == i;
      assert after[if j < at then j else j + 1] == i;
    } else {
      assert after[at] == k;
    }
  }

  lemma InsertedRising(order: seq<nat>, vals: seq<real>, k: nat, at: nat)
    requires |order| == k < |vals| && at <= k && forall i :: 0 <= i < k ==> order[i] < k
    requires forall i, j :: 0 <= i < j < k ==> vals[order[i]] <= vals[order[j]]
    requires forall i :: 0 <= i < at ==> vals[order[i]] <= vals[k]
    requires at < k ==> vals[k] < vals[order[at]]
    ensures var after := order[..at] + [k] + order[at..];
            (forall i :: 0 <= i < k + 1 ==> after[i] < k + 1)
            && forall i, j :: 0 <= i < j < k + 1 ==> vals[after[i]] <= vals[after[j]]
  {
    var after := order[..at] + [k] + order[at..];
    assert after[at] == k;
    forall i, j | 0 <= i < j < k + 1
      ensures vals[after[i]] <= vals[after[j]]
    {
      assert i != at ==> after[i] == order[if i < at then i else i - 1];
      assert j != at ==> after[j] == order[if j < at then j else j - 1];
    }
  }

  ghost predicate IsSimplex(f: Vertex -> real, pts: seq<Vertex>, vals: seq<real>, n: nat) {
    && |pts| == |vals| == n + 1
    && forall i :: 0 <= i <= n ==> |pts[i]| == n && vals[i] == f(pts[i])
  }

  ghost predicate IsLeast(v: real, vals: seq<real>) {
    v in vals && forall i :: 0 <= i < |vals| ==> v <= vals[i]
  }

  // The least of the values.
  ghost function BestOf(vals: seq<real>): (b: real)
    requires vals != []
    ensures IsLeast(b, vals)
  {
    if |vals| == 1 then vals[0]
    else
      var b := BestOf(vals[..|vals| - 1]);
      assert vals == vals[..|vals| - 1] + [vals[|vals| - 1]];
      Min(b, vals[|vals| - 1])
  }

  // The candidates of a round: reflected, expanded, contracted.
  function Candidate(pts: seq<Vertex>, n: nat, w: real): (p: Vertex)
    requires n >= 1 && |pts| == n + 1 && forall k :: 0 <= k <= n ==> |pts[k]| == n
    ensures |p| == n
  {
    Away(Mean(pts[..n], n), w, pts[n])
  }

  datatype Simplex = Simplex(pts: seq<Vertex>, vals: seq<real>)

  // The worst vertex gives way to a candidate, and the others stay.
  ghost predicate IsReplaced(f: Vertex -> real, a: Simplex, b: Simplex, n: nat, w: real)
    requires n >= 1 && IsSimplex(f, a.pts, a.vals, n)
  {
    var p := Candidate(a.pts, n, w);
    b == Simplex(a.pts[n := p], a.vals[n := f(p)])
  }

  // All vertices are drawn half way to the best.
  ghost predicate IsShrunk(f: Vertex -> real, a: Simplex, b: Simplex, n: nat)
    requires n >= 1 && IsSimplex(f, a.pts, a.vals, n)
  {
    && IsSimplex(f, b.pts, b.vals, n) && b.pts[0] == a.pts[0]
    && forall i :: 1 <= i <= n ==> b.pts[i] == Away(a.pts[0], -0.5, a.pts[i])
  }

  // One round from a sorted simplex: the reflected vertex is taken when it beats the second worst,
  // the expanded one instead when the reflected beats the best and is beaten by it; otherwise the
  // contracted one when it beats the worst; otherwise all shrink.
  ghost predicate IsRound(f: Vertex -> real, a: Simplex, b: Simplex, n: nat)
    requires n >= 1 && IsSimplex(f, a.pts, a.vals, n)
  {
    var fr, fe, fc := f(Candidate(a.pts, n, 1.0)), f(Candidate(a.pts, n, 2.0)), f(Candidate(a.pts, n, -0.5));
    if fr < a.vals[0] then IsReplaced(f, a, b, n, if fe < fr then 2.0 else 1.0)
    else if fr < a.vals[n - 1] then IsReplaced(f, a, b, n, 1.0)
    else if fc < a.vals[n] then IsReplaced(f, a, b, n, -0.5)
    else IsShrunk(f, a, b, n)
  }

  method Shrink(f: Vertex -> real, pts0: seq<Vertex>, vals0: seq<real>, n: nat)
    returns (pts: seq<Vertex>, vals: seq<real>)
    requires n >= 1 && IsSimplex(f, pts0, vals0, n)
    ensures IsShrunk(f, Simplex(pts0, vals0), Simplex(pts, vals), n)
  {
    hide Away;
    pts := seq(n + 1, i requires 0 <= i < n + 1 => if i == 0 then pts0[0] else Away(pts0[0], -0.5, pts0[i]));
    vals := seq(n + 1, i requires 0 <= i < n + 1 => if i == 0 then vals0[0] else f(pts[i]));
  }

  method Round(f: Vertex -> real, pts0: seq<Vertex>, vals0: seq<real>, n: nat)
    returns (pts: seq<Vertex>, vals: seq<real>)
    requires n >= 1 && IsSimplex(f, pts0, vals0, n)
    ensures IsRound(f, Simplex(pts0, vals0), Simplex(pts, vals), n)
  {
    hide Candidate, Away, IsShrunk;
    pts, vals := pts0, vals0;
    var xr := Candidate(pts, n, 1.0);
    var fr := f(xr);
    if fr < vals[0] {
      var xe := Candidate(pts, n, 2.0);
      var fe := f(xe);
      if fe < fr {
        pts, vals := pts[n := xe], vals[n := fe];
      } else {
        pts, vals := pts[n := xr], vals[n := fr];
      }
    } else if fr < vals[n - 1] {
      pts, vals := pts[n := xr], vals[n := fr];
    } else {
      var xc := Candidate(pts, n, -0.5);
      var fc := f(xc);
      if fc < vals[n] {
        pts, vals := pts[n := xc], vals[n := fc];
      } else {
        pts, vals := Shrink(f, pts0, vals0, n);
      }
    }
  }

  // A round keeps every value that of its point and the best vertex; and either some vertex
  // strictly improves on the worst, the others staying, or neither the reflected nor the
  // contracted one helps and all are drawn half way to the best.
  lemma RoundKeeps(f: Vertex -> real, a: Simplex, b: Simplex, n: nat)
    requires n >= 1 && IsSimplex(f, a.pts, a.vals, n) && IsSorted(a.vals) && IsRound(f, a, b, n)
    ensures IsSimplex(f, b.pts, b.vals, n) && b.pts[0] == a.pts[0] && b.vals[0] == a.vals[0]
    ensures || (b.pts[..n] == a.pts[..n] && b.vals[..n] == a.vals[..n] && b.vals[n] < a.vals[n])
            || (f(Candidate(a.pts, n, 1.0)) >= a.vals[n - 1] && f(Candidate(a.pts, n, -0.5)) >= a.vals[n]
                && IsShrunk(f, a, b, n))
  {
    hide Candidate, Away;
    assert a.vals[n - 1] <= a.vals[n] && a.vals[0] <= a.vals[n];
  }

  // ---- where the candidates lie ----

  // One coordinate of the vertices.
  ghost function Coordinates(pts: seq<Vertex>, c: nat): Sums.Vec {
    k => if 0 <= k < |pts| && c < |pts[k]| then pts[k][c] else 0.0
  }

  lemma {:induction false} CoordinateSumIs(pts: seq<Vertex>, c: nat)
    requires forall k :: 0 <= k < |pts| ==> c < |pts[k]|
    ensures CoordinateSum(pts, c) == Sums.Sum(|pts|, Coordinates(pts, c))
  {
    if pts != [] {
      var m := |pts| - 1;
      CoordinateSumIs(pts[..m], c);
      Sums.SumEqual(m, Coordinates(pts[..m], c), Coordinates(pts, c));
    }
  }

  // The mean of some vertices, times how many they are, is their sum.
  lemma MeanIs(pts: seq<Vertex>, n: nat, c: nat)
    requires pts != [] && (forall k :: 0 <= k < |pts| ==> |pts[k]| == n) && c < n
    ensures Mean(pts, n)[c] * |pts| as real == Sums.Sum(|pts|, Coordinates(pts, c))
  {
    CoordinateSumIs(pts, c);
    hide CoordinateSum;
  }

  // m is the centroid of all vertices but the last.
  ghost predicate IsCentroid(pts: seq<Vertex>, n: nat, m: Vertex)
    requires n >= 1 && |pts| == n + 1 && forall k :: 0 <= k <= n ==> |pts[k]| == n
  {
    |m| == n && forall c :: 0 <= c < n ==> m[c] * n as real == Sums.Sum(n, Coordinates(pts, c))
  }

  // The worst vertex and the reflected one have the centroid of the others as their midpoint; the
  // expanded one is twice as far out from it; the contracted one is half way between the centroid
  // and the worst vertex.
  lemma CandidatesLie(pts: seq<Vertex>, n: nat) returns (m: Vertex)
    requires n >= 1 && |pts| == n + 1 && forall k :: 0 <= k <= n ==> |pts[k]| == n
    ensures IsCentroid(pts, n, m)
    ensures var r, e, t := Candidate(pts, n, 1.0), Candidate(pts, n, 2.0), Candidate(pts, n, -0.5);
            forall c :: 0 <= c < n ==>
                          && pts[n][c] + r[c] == 2.0 * m[c]
                          && e[c] - m[c] == 2.0 * (r[c] - m[c])
                          && 2.0 * t[c] == m[c] + pts[n][c]
  {
    m := Mean(pts[..n], n);
    forall c | 0 <= c < n
      ensures m[c] * n as real == Sums.Sum(n, Coordinates(pts, c))
    {
      MeanIs(pts[..n], n, c);
      Sums.SumEqual(n, Coordinates(pts[..n], c), Coordinates(pts, c));
    }
    hide Mean;
  }

  // a + b is twice m, coordinate by coordinate.
  ghost predicate IsMidpoint(m: Vertex, a: Vertex, b: Vertex) {
    |m| == |a| == |b| && forall c :: 0 <= c < |m| ==> 2.0 * m[c] == a[c] + b[c]
  }

  // q is twice as far from m as p is, on the same side.
  ghost predicate IsTwiceAsFar(m: Vertex, p: Vertex, q: Vertex) {
    |m| == |p| == |q| && forall c :: 0 <= c < |m| ==> q[c] - m[c] == 2.0 * (p[c] - m[c])
  }

  // A round put that way: with r reflected, e expanded and t contracted about the centroid m, the
  // comparisons say which of them the worst vertex gives way to, or that all vertices are drawn half
  // way to the best.
  lemma RoundPlaces(f: Vertex -> real, a: Simplex, b: Simplex, n: nat)
    returns (m: Vertex, r: Vertex, e: Vertex, t: Vertex)
    requires n >= 1 && IsSimplex(f, a.pts, a.vals, n) && IsRound(f, a, b, n)
    ensures IsCentroid(a.pts, n, m) && IsMidpoint(m, a.pts[n], r) && IsTwiceAsFar(m, r, e) && IsMidpoint(t, m, a.pts[n])
    ensures var p := if f(r) < a.vals[0] then (if f(e) < f(r) then e else r) else if f(r) < a.vals[n - 1] then r else t;
            if f(r) < a.vals[n - 1] || f(r) < a.vals[0] || f(t) < a.vals[n]
            then b == Simplex(a.pts[n := p], a.vals[n := f(p)])
            else |b.pts| == n + 1 && b.pts[0] == a.pts[0]
                 && forall i :: 1 <= i <= n ==> IsMidpoint(b.pts[i], a.pts[0], a.pts[i])
  {
    m := CandidatesLie(a.pts, n);
    r, e, t := Candidate(a.pts, n, 1.0), Candidate(a.pts, n, 2.0), Candidate(a.pts, n, -0.5);
    hide Candidate, IsCentroid;
  }

  // b is a in order: the same vertices with their values, each once, the best first.
  ghost predicate IsSorting(a: Simplex, b: Simplex, order: seq<nat>) {
    && |a.pts| == |a.vals| == |b.pts| == |b.vals| && IsOrder(order, a.vals, |a.vals|)
    && forall i :: 0 <= i < |order| ==> b.pts[i] == a.pts[order[i]] && b.vals[i] == a.vals[order[i]]
  }

  method SortSimplex(pts0: seq<Vertex>, vals0: seq<real>) returns (pts: seq<Vertex>, vals: seq<real>, order: seq<nat>)
    requires |pts0| == |vals0|
    ensures IsSorting(Simplex(pts0, vals0), Simplex(pts, vals), order)
  {
    order := ArgSort(vals0);
    pts := seq(|order|, i requires 0 <= i < |order| => pts0[order[i]]);
    vals := seq(|order|, i requires 0 <= i < |order| => vals0[order[i]]);
  }

  // Sorting keeps points and values paired and loses no vertex, however often it occurs.
  lemma SortingKeeps(f: Vertex -> real, a: Simplex, b: Simplex, order: seq<nat>, n: nat)
    requires IsSimplex(f, a.pts, a.vals, n) && IsSorting(a, b, order)
    ensures IsSimplex(f, b.pts, b.vals, n) && IsSorted(b.vals) && IsLeast(b.vals[0], a.vals)
    ensures forall i :: 0 <= i <= n ==> exists j :: 0 <= j <= n && b.pts[j] == a.pts[i] && b.vals[j] == a.vals[i]
  {
    hide IsSorted, IsLeast, IsOrder, IsSimplex;
    SimplexSize(f, a, n);
    OrderBounds(order, a.vals, n + 1);
    Ordered(order, a.vals, b.vals, n);
    Reordered(f, order, a.pts, a.vals, b.pts, b.vals, n);
    forall i | 0 <= i <= n
      ensures exists j :: 0 <= j <= n && b.pts[j] == a.pts[i] && b.vals[j] == a.vals[i]
    {
      var j := PlaceOf(order, a.vals, i);
      assert b.pts[j] == a.pts[i] && b.vals[j] == a.vals[i];
    }
  }

  lemma PlaceOf(order: seq<nat>, vals: seq<real>, i: nat) returns (j: nat)
    requires IsOrder(order, vals, |vals|) && i < |vals|
    ensures j < |order| && order[j] == i
  {
    assert i in order;
    j :| j < |order| && order[j] == i;
  }

  lemma SimplexSize(f: Vertex -> real, a: Simplex, n: nat)
    requires IsSimplex(f, a.pts, a.vals, n)
    ensures |a.pts| == |a.vals| == n + 1
  {
  }

  lemma Reordered(f: Vertex -> real, order: seq<nat>, pts0: seq<Vertex>, vals0: seq<real>, pts: seq<Vertex>,
                  vals: seq<real>, n: nat)
    requires |order| == |pts0| == |vals0| == |pts| == |vals| == n + 1 && IsSimplex(f, pts0, vals0, n)
    requires forall i :: 0 <= i <= n ==> order[i] < n + 1 && pts[i] == pts0[order[i]] && vals[i] == vals0[order[i]]
    ensures IsSimplex(f, pts, vals, n)
  {
  }

  lemma Ordered(order: seq<nat>, vals0: seq<real>, vals: seq<real>, n: nat)
    requires |vals0| == |vals| == n + 1 && IsOrder(order, vals0, n + 1)
    requires forall i :: 0 <= i <= n ==> vals[i] == vals0[order[i]]
    ensures IsSorted(vals) && IsLeast(vals[0], vals0)
  {
    forall i | 0 <= i <= n
      ensures vals[0] <= vals0[i]
    {
      assert i in order;
      var j :| 0 <= j < n + 1 && order[j] == i;
    }
    assert vals0[order[0]] in vals0;
  }

  lemma OrderBounds(order: seq<nat>, vals: seq<real>, k: nat)
    requires IsOrder(order, vals, k)
    ensures |order| == k <= |vals| && forall i :: 0 <= i < k ==> order[i] < k
  {
  }

  // The first vertices: the start, and the start with one coordinate stepped.
  function StartVertex(x0: Vertex, step: Vertex, i: nat): (p: Vertex)
    requires |x0| == |step| && i <= |x0|
    ensures |p| == |x0|
  {
    if i == 0 then x0 else x0[i - 1 := x0[i - 1] + step[i - 1]]
  }

  lemma StartVertices(x0: Vertex, step: Vertex, i: nat)
    requires |x0| == |step| && i <= |x0|
    ensures forall c :: 0 <= c < |x0| ==> StartVertex(x0, step, i)[c] == x0[c] + if c == i - 1 then step[c] else 0.0
  {
  }

  method Start(f: Vertex -> real, x0: Vertex, step: Vertex) returns (pts: seq<Vertex>, vals: seq<real>)
    requires |x0| == |step|
    ensures |pts| == |vals| == |x0| + 1 && IsSimplex(f, pts, vals, |x0|)
    ensures forall i :: 0 <= i <= |x0| ==> vals[i] == f(StartVertex(x0, step, i))
    ensures forall i :: 0 <= i <= |x0| ==> pts[i] == StartVertex(x0, step, i)
  {
    hide StartVertex;
    var n := |x0|;
    pts := seq(n + 1, i requires 0 <= i < n + 1 => StartVertex(x0, step, i));
    vals := seq(n + 1, i requires 0 <= i < n + 1 => f(pts[i]));
  }

  // The values of a sorted simplex have come together.
  predicate IsSettled(vals: seq<real>, tol: real)
    requires vals != []
  {
    Abs(vals[|vals| - 1] - vals[0]) <= tol * (Abs(vals[0]) + tol)
  }

  // They have when all values are within the tolerance of the best, which scales with it.
  lemma SettledIs(vals: seq<real>, tol: real)
    requires vals != [] && IsSorted(vals)
    ensures IsSettled(vals, tol) <==> forall i :: 0 <= i < |vals| ==> vals[i] - vals[0] <= tol * (Abs(vals[0]) + tol)
  {
    var bound := tol * (Abs(vals[0]) + tol);
    assert vals[0] <= vals[|vals| - 1];
  }

  // One pass of the loop: a is sorted and, unless its values have come together, moved.
  ghost predicate IsPass(f: Vertex -> real, a: Simplex, b: Simplex, n: nat, tol: real, settled: bool)
    requires n >= 1 && IsSimplex(f, a.pts, a.vals, n)
  {
    exists c, order :: IsSorting(a, c, order) && IsMoved(f, c, b, n, tol, settled)
  }

  ghost predicate IsMoved(f: Vertex -> real, c: Simplex, b: Simplex, n: nat, tol: real, settled: bool)
    requires n >= 1
  {
    && IsSimplex(f, c.pts, c.vals, n)
    && settled == IsSettled(c.vals, tol) && if settled then b == c else IsRound(f, c, b, n)
  }

  // Each simplex comes from the one before it by a pass, of which only the last may find it settled.
  ghost predicate IsChain(f: Vertex -> real, path: seq<Simplex>, n: nat, tol: real, settled: bool)
    requires n >= 1
  {
    && |path| >= 1
    && (forall k :: 0 <= k < |path| ==> IsSimplex(f, path[k].pts, path[k].vals, n))
    && (forall k, l :: 0 <= k && l == k + 1 && l < |path| ==>
                         IsPass(f, path[k], path[l], n, tol, settled && l == |path| - 1))
  }

  // The simplexes of a search: it ends when they are settled, and after iters passes otherwise.
  ghost predicate IsPath(f: Vertex -> real, path: seq<Simplex>, n: nat, tol: real, iters: nat, settled: bool)
    requires n >= 1
  {
    IsChain(f, path, n, tol, settled) && if settled then 2 <= |path| <= iters + 1 else |path| == iters + 1
  }

  lemma Longer(f: Vertex -> real, path: seq<Simplex>, b: Simplex, n: nat, tol: real, settled: bool)
    requires n >= 1 && IsChain(f, path, n, tol, false) && IsSimplex(f, b.pts, b.vals, n)
    requires IsPass(f, path[|path| - 1], b, n, tol, settled)
    ensures IsChain(f, path + [b], n, tol, settled)
  {
    hide IsSimplex, IsPass;
    var longer := path + [b];
    assert longer[|path|] == b && forall k :: 0 <= k < |path| ==> longer[k] == path[k];
  }

  lemma {:induction false} PassKeeps(f: Vertex -> real, a: Simplex, b: Simplex, n: nat, tol: real, settled: bool)
    requires n >= 1 && IsSimplex(f, a.pts, a.vals, n) && IsPass(f, a, b, n, tol, settled)
    ensures IsSimplex(f, b.pts, b.vals, n) && BestOf(b.vals) <= BestOf(a.vals)
  {
    hide IsSorting, IsRound, IsSimplex, IsSettled, BestOf, IsLeast, IsSorted;
    var c, order :| IsSorting(a, c, order) && IsMoved(f, c, b, n, tol, settled);
    SimplexSize(f, a, n);
    SortingKeeps(f, a, c, order, n);
    SimplexSize(f, c, n);
    LeastIsBest(c.vals[0], a.vals);
    FirstIsBest(c.vals);
    if !settled {
      RoundKeeps(f, c, b, n);
      SimplexSize(f, b, n);
      BestIsNotAbove(b.vals, 0);
    }
  }

  // Along a path the best value never rises.
  lemma {:induction false} BestNeverRises(f: Vertex -> real, path: seq<Simplex>, n: nat, tol: real, iters: nat,
                                          settled: bool, i: nat, j: nat)
    requires n >= 1 && IsPath(f, path, n, tol, iters, settled) && i <= j < |path|
    ensures path[i].vals != [] && path[j].vals != [] && BestOf(path[j].vals) <= BestOf(path[i].vals)
    decreases j - i
  {
    hide IsPass, BestOf, IsSimplex;
    SimplexSize(f, path[i], n);
    SimplexSize(f, path[j], n);
    if i < j {
      BestNeverRises(f, path, n, tol, iters, settled, i, j - 1);
      PassKeeps(f, path[j - 1], path[j], n, tol, settled && j == |path| - 1);
    }
  }

  ghost predicate IsStart(f: Vertex -> real, x0: Vertex, step: Vertex, a: Simplex)
    requires |x0| == |step|
  {
    && IsSimplex(f, a.pts, a.vals, |x0|)
    && forall i :: 0 <= i <= |x0| ==> a.pts[i] == StartVertex(x0, step, i)
  }

  // (x, v) is a best vertex of the last simplex of a path from the start.
  ghost predicate IsFound(f: Vertex -> real, x0: Vertex, step: Vertex, iters: nat, tol: real, path: seq<Simplex>,
                          settled: bool, x: Vertex, v: real)
    requires |x0| == |step| >= 1
  {
    && IsPath(f, path, |x0|, tol, iters, settled) && IsStart(f, x0, step, path[0])
    && var last := path[|path| - 1];
       IsLeast(v, last.vals)
         && exists i :: 0 <= i < |last.pts| && i < |last.vals| && last.pts[i] == x && last.vals[i] == v
  }

  // What a search may return.
  ghost predicate IsResult(f: Vertex -> real, x0: Vertex, step: Vertex, iters: nat, tol: real, x: Vertex, v: real)
    requires |x0| == |step| >= 1
  {
    exists path, settled :: IsFound(f, x0, step, iters, tol, path, settled, x, v)
  }

  // A result's value is its point's, and no starting vertex is better.
  lemma ResultIsNoWorse(f: Vertex -> real, x0: Vertex, step: Vertex, iters: nat, tol: real, x: Vertex, v: real)
    requires |x0| == |step| >= 1 && IsResult(f, x0, step, iters, tol, x, v)
    ensures |x| == |x0| && v == f(x)
    ensures forall i :: 0 <= i <= |x0| ==> v <= f(StartVertex(x0, step, i))
  {
    hide IsPass, StartVertex, BestOf;
    var path: seq<Simplex>, settled :| IsFound(f, x0, step, iters, tol, path, settled, x, v);
    var n, k := |x0|, |path| - 1;
    BestNeverRises(f, path, n, tol, iters, settled, 0, k);
    LeastIsBest(v, path[k].vals);
    forall i | 0 <= i <= n
      ensures v <= f(StartVertex(x0, step, i))
    {
      BestIsNotAbove(path[0].vals, i);
    }
  }

  method Pass(f: Vertex -> real, pts0: seq<Vertex>, vals0: seq<real>, n: nat, tol: real)
    returns (pts: seq<Vertex>, vals: seq<real>, settled: bool)
    requires n >= 1 && IsSimplex(f, pts0, vals0, n)
    ensures IsSimplex(f, pts, vals, n) && IsPass(f, Simplex(pts0, vals0), Simplex(pts, vals), n, tol, settled)
  {
    hide IsSorting, IsRound, BestOf, IsLeast, IsSimplex, IsSorted, IsSettled;
    var order;
    SimplexSize(f, Simplex(pts0, vals0), n);
    pts, vals, order := SortSimplex(pts0, vals0);
    ghost var c := Simplex(pts, vals);
    SortingKeeps(f, Simplex(pts0, vals0), c, order, n);
    SimplexSize(f, c, n);
    settled := IsSettled(vals, tol);
    if !settled {
      pts, vals := Round(f, pts, vals, n);
      RoundKeeps(f, c, Simplex(pts, vals), n);
    }
  }

  method Search(f: Vertex -> real, x0: Vertex, step: Vertex, iters: nat, tol: real)
    returns (x: Vertex, v: real, ghost path: seq<Simplex>, ghost settled: bool)
    requires |x0| == |step| >= 1
    ensures IsFound(f, x0, step, iters, tol, path, settled, x, v)
    ensures |x| == |x0| && v == f(x) && forall i :: 0 <= i <= |x0| ==> v <= f(StartVertex(x0, step, i))
  {
    hide StartVertex, IsPass, IsLeast, IsSimplex, IsChain;
    var n := |x0|;
    var pts, vals := Start(f, x0, step);
    path, settled := [Simplex(pts, vals)], false;
    StartIsChain(f, path[0], n, tol);
    for r := 0 to iters
      invariant |path| == r + 1 && path[r] == Simplex(pts, vals) && IsStart(f, x0, step, path[0])
      invariant !settled && IsSimplex(f, pts, vals, n) && IsChain(f, path, n, tol, false)
    {
      var done;
      pts, vals, done := Pass(f, pts, vals, n, tol);
      Longer(f, path, Simplex(pts, vals), n, tol, done);
      path, settled := path + [Simplex(pts, vals)], done;
      if done {
        break;
      }
    }
    SimplexSize(f, Simplex(pts, vals), n);
    var at := Minimum.ArgMin(vals);
    x, v := pts[at], vals[at];
    assert IsLeast(v, vals) by { LeastAt(vals, at); }
    assert IsFound(f, x0, step, iters, tol, path, settled, x, v);
    ResultIsNoWorse(f, x0, step, iters, tol, x, v);
  }

  lemma StartIsChain(f: Vertex -> real, a: Simplex, n: nat, tol: real)
    requires n >= 1 && IsSimplex(f, a.pts, a.vals, n)
    ensures IsChain(f, [a], n, tol, false)
  {
  }

  lemma LeastAt(vals: seq<real>, at: nat)
    requires at < |vals| && forall k :: 0 <= k < |vals| ==> vals[at] <= vals[k]
    ensures IsLeast(vals[at], vals)
  {
  }

  lemma LeastIsBest(v: real, vals: seq<real>)
    requires vals != [] && IsLeast(v, vals)
    ensures v == BestOf(vals)
  {
    var b := BestOf(vals);
  }

  lemma FirstIsBest(vals: seq<real>)
    requires vals != [] && IsSorted(vals)
    ensures vals[0] == BestOf(vals)
  {
    assert IsLeast(vals[0], vals);
    LeastIsBest(vals[0], vals);
  }

  lemma BestIsNotAbove(vals: seq<real>, i: nat)
    requires i < |vals|
    ensures BestOf(vals) <= vals[i]
  {
  }

  // ---- the fit ----

  const OUTSIDE: real := 1000000000000000000000000000000.0

  // The feasible box: a delay from 0 to the greatest allowed, and a log time constant.
  predicate InBox(p: Vertex, maxDelay: real)
    requires |p| >= 2
  {
    0.0 <= p[0] <= maxDelay && -6.0 < p[1] < 2.0
  }

  // The residual sum of squares inside the box, a wall outside it.
  function Cost(residual: Vertex -> real, maxDelay: real): Vertex -> real {
    p => if |p| >= 2 && !InBox(p, maxDelay) then OUTSIDE else residual(p)
  }

  // The first of the best of one search from each start.
  ghost predicate IsBestOfSearches(cost: Vertex -> real, starts: seq<Vertex>, step: Vertex, iters: nat, tol: real,
                                   k: nat, found: seq<(Vertex, real)>, best: (Vertex, real))
    requires |step| >= 1 && forall k :: 0 <= k < |starts| ==> |starts[k]| == |step|
  {
    && k <= |starts| && |found| == k
    && (forall j :: 0 <= j < k ==> IsResult(cost, starts[j], step, iters, tol, found[j].0, found[j].1))
    && exists at :: 0 <= at < k && found[at] == best && forall j :: 0 <= j < k ==>
                      best.1 <= found[j].1 && (j < at ==> best.1 < found[j].1)
  }

  lemma OneMoreSearch(cost: Vertex -> real, starts: seq<Vertex>, step: Vertex, iters: nat, tol: real, k: nat,
                      found: seq<(Vertex, real)>, best: (Vertex, real), next: (Vertex, real))
    requires |step| >= 1 && (forall k :: 0 <= k < |starts| ==> |starts[k]| == |step|) && k < |starts|
    requires k > 0 ==> IsBestOfSearches(cost, starts, step, iters, tol, k, found, best)
    requires k == 0 ==> found == []
    requires IsResult(cost, starts[k], step, iters, tol, next.0, next.1)
    ensures IsBestOfSearches(cost, starts, step, iters, tol, k + 1, found + [next],
                             if k == 0 || next.1 < best.1 then next else best)
  {
    hide IsResult;
    var more := found + [next];
    assert more[k] == next && forall j :: 0 <= j < k ==> more[j] == found[j];
    if k > 0 && next.1 >= best.1 {
      var at :| 0 <= at < k && found[at] == best && forall j :: 0 <= j < k ==>
                  best.1 <= found[j].1 && (j < at ==> best.1 < found[j].1);
      assert more[at] == best;
    }
  }

  method SearchFromStarts(cost: Vertex -> real, starts: seq<Vertex>, step: Vertex, iters: nat, tol: real)
    returns (x: Vertex, v: real, ghost found: seq<(Vertex, real)>)
    requires starts != [] && |step| >= 1 && forall k :: 0 <= k < |starts| ==> |starts[k]| == |step|
    ensures IsBestOfSearches(cost, starts, step, iters, tol, |starts|, found, (x, v))
    ensures |x| == |step| && v == cost(x) && forall k :: 0 <= k < |starts| ==> v <= cost(starts[k])
  {
    hide IsFound, IsBestOfSearches;
    x, v, found := [], 0.0, [];
    for k := 0 to |starts|
      invariant k == 0 ==> found == []
      invariant k > 0 ==> IsBestOfSearches(cost, starts, step, iters, tol, k, found, (x, v))
    {
      var y, w, path, settled := Search(cost, starts[k], step, iters, tol);
      assert IsResult(cost, starts[k], step, iters, tol, y, w);
      OneMoreSearch(cost, starts, step, iters, tol, k, found, (x, v), (y, w));
      found := found + [(y, w)];
      if k == 0 || w < v {
        x, v := y, w;
      }
    }
    BestIsNoWorse(cost, starts, step, iters, tol, found, (x, v));
  }

  // One more search from the best so far, dropped when it ends worse.
  ghost predicate IsPolished(cost: Vertex -> real, x0: Vertex, v0: real, fine: Vertex, iters: nat, tol: real,
                             x: Vertex, v: real)
    requires |x0| == |fine| >= 1
  {
    exists y, w :: IsResult(cost, x0, fine, iters, tol, y, w)
                   && x == (if w > v0 then x0 else y) && v == (if w > v0 then v0 else w)
  }

  method Polish(cost: Vertex -> real, x0: Vertex, v0: real, fine: Vertex, iters: nat, tol: real)
    returns (x: Vertex, v: real)
    requires |x0| == |fine| >= 1
    ensures IsPolished(cost, x0, v0, fine, iters, tol, x, v)
  {
    hide IsFound;
    var y, w, path, settled := Search(cost, x0, fine, iters, tol);
    assert IsResult(cost, x0, fine, iters, tol, y, w);
    x, v := y, w;
    if v > v0 {
      x, v := x0, v0;
    }
  }

  // The polish never worsens the result, and keeps its value that of its point.
  lemma PolishIsNoWorse(cost: Vertex -> real, x0: Vertex, v0: real, fine: Vertex, iters: nat, tol: real,
                        x: Vertex, v: real)
    requires |x0| == |fine| >= 1 && v0 == cost(x0) && IsPolished(cost, x0, v0, fine, iters, tol, x, v)
    ensures |x| == |x0| && v == cost(x) && v <= v0
  {
    hide IsResult, StartVertex;
    var y, w :| IsResult(cost, x0, fine, iters, tol, y, w)
                && x == (if w > v0 then x0 else y) && v == (if w > v0 then v0 else w);
    ResultIsNoWorse(cost, x0, fine, iters, tol, y, w);
  }

  // The search from each start in turn, and the polish from the best of them.
  method Fit(residual: Vertex -> real, maxDelay: real, starts: seq<Vertex>, step: Vertex, fine: Vertex, iters: nat,
             tol: real)
    returns (x: Vertex, v: real, ghost found: seq<(Vertex, real)>, ghost best: (Vertex, real))
    requires starts != [] && |step| == |fine| >= 2 && forall k :: 0 <= k < |starts| ==> |starts[k]| == |step|
    ensures IsBestOfSearches(Cost(residual, maxDelay), starts, step, iters, tol, |starts|, found, best)
    ensures |best.0| == |step| && IsPolished(Cost(residual, maxDelay), best.0, best.1, fine, iters, tol, x, v)
    ensures |x| == |step| && v == Cost(residual, maxDelay)(x) && v <= best.1 == Cost(residual, maxDelay)(best.0)
    ensures forall k :: 0 <= k < |starts| ==> v <= Cost(residual, maxDelay)(starts[k])
  {
    hide IsBestOfSearches, IsPolished, Cost;
    var cost := Cost(residual, maxDelay);
    var xb, vb, all := SearchFromStarts(cost, starts, step, iters, tol);
    found, best := all, (xb, vb);
    x, v := Polish(cost, xb, vb, fine, iters, tol);
    PolishIsNoWorse(cost, xb, vb, fine, iters, tol, x, v);
  }

  lemma BestIsNoWorse(cost: Vertex -> real, starts: seq<Vertex>, step: Vertex, iters: nat, tol: real,
                      found: seq<(Vertex, real)>, best: (Vertex, real))
    requires |step| >= 1 && forall k :: 0 <= k < |starts| ==> |starts[k]| == |step|
    requires IsBestOfSearches(cost, starts, step, iters, tol, |starts|, found, best)
    ensures |best.0| == |step| && best.1 == cost(best.0)
    ensures forall k :: 0 <= k < |starts| ==> best.1 <= cost(starts[k])
  {
    hide IsResult, StartVertex;
    forall k | 0 <= k < |starts|
      ensures |found[k].0| == |step| && found[k].1 == cost(found[k].0) && found[k].1 <= cost(starts[k])
    {
      ResultIsNoWorse(cost, starts[k], step, iters, tol, found[k].0, found[k].1);
      StartIsFirst(starts[k], step);
      assert StartVertex(starts[k], step, 0) == starts[k];
    }
  }

  // Whenever some start is feasible, what the fit returns is.
  lemma FitIsFeasible(residual: Vertex -> real, maxDelay: real, starts: seq<Vertex>, step: Vertex, iters: nat,
                      tol: real, found: seq<(Vertex, real)>, best: (Vertex, real), k: nat, x: Vertex, v: real)
    requires |step| >= 2 && (forall k :: 0 <= k < |starts| ==> |starts[k]| == |step|) && k < |starts|
    requires IsBestOfSearches(Cost(residual, maxDelay), starts, step, iters, tol, |starts|, found, best)
    requires 0.0 <= starts[k][0] <= maxDelay && -6.0 < starts[k][1] < 2.0 && residual(starts[k]) < OUTSIDE
    requires |x| == |step| && v == Cost(residual, maxDelay)(x) <= best.1
    ensures 0.0 <= x[0] <= maxDelay && -6.0 < x[1] < 2.0 && v == residual(x) <= residual(starts[k])
  {
    hide IsBestOfSearches, Cost;
    var cost := Cost(residual, maxDelay);
    BestIsNoWorse(cost, starts, step, iters, tol, found, best);
    CostIs(residual, maxDelay, starts[k]);
    assert best.1 <= cost(starts[k]) == residual(starts[k]);
    UnderTheWall(residual, maxDelay, x, cost(x), residual(starts[k]));
  }

  lemma UnderTheWall(residual: Vertex -> real, maxDelay: real, x: Vertex, v: real, bound: real)
    requires |x| >= 2 && v == Cost(residual, maxDelay)(x) <= bound < OUTSIDE
    ensures 0.0 <= x[0] <= maxDelay && -6.0 < x[1] < 2.0 && v == residual(x)
  {
    CostIs(residual, maxDelay, x);
    hide Cost;
  }

  lemma CostIs(residual: Vertex -> real, maxDelay: real, p: Vertex)
    requires |p| >= 2
    ensures 0.0 <= p[0] <= maxDelay && -6.0 < p[1] < 2.0 ==> Cost(residual, maxDelay)(p) == residual(p)
    ensures p[0] < 0.0 || p[0] > maxDelay || p[1] <= -6.0 || p[1] >= 2.0 ==> Cost(residual, maxDelay)(p) == OUTSIDE
  {
    assert InBox(p, maxDelay) <==> 0.0 <= p[0] <= maxDelay && -6.0 < p[1] < 2.0;
  }

  lemma StartIsFirst(x0: Vertex, step: Vertex)
    requires |x0| == |step|
    ensures StartVertex(x0, step, 0) == x0
  {
  }
}
