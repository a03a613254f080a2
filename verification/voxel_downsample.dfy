// Voxel centroids: one point per occupied leaf cube (scripts/map/downsample_pcd.py).

module VoxelDownsample {
  import opened VoxelKeys

  type Row = seq<real>

  ghost predicate IsTable(pts: seq<Row>, w: nat) {
    forall i :: 0 <= i < |pts| ==> |pts[i]| == w
  }

  // x in leaves.
  function Scaled(x: real, leaf: real): real
    requires leaf != 0.0
  {
    x / leaf
  }

  function KeyOf(p: Row, leaf: real): Key
    requires |p| >= 3 && leaf != 0.0
  {
    Key(Scaled(p[0], leaf).Floor, Scaled(p[1], leaf).Floor, Scaled(p[2], leaf).Floor)
  }

  function Keys(pts: seq<Row>, leaf: real): (r: seq<Key>)
    requires leaf != 0.0 && forall i :: 0 <= i < |pts| ==> |pts[i]| >= 3
    ensures |r| == |pts| && forall i :: 0 <= i < |r| ==> r[i] == KeyOf(pts[i], leaf)
  {
    seq(|pts|, i requires 0 <= i < |pts| => KeyOf(pts[i], leaf))
  }

  // The sum of column c over the points with key k.
  ghost function Total(pts: seq<Row>, keys: seq<Key>, k: Key, c: nat): real
    requires |pts| == |keys| && forall i :: 0 <= i < |pts| ==> c < |pts[i]|
  {
    if pts == [] then 0.0
    else
      var m := |pts| - 1;
      Total(pts[..m], keys[..m], k, c) + if keys[m] == k then pts[m][c] else 0.0
  }

  ghost function Column(pts: seq<Row>, c: nat): real
    requires forall i :: 0 <= i < |pts| ==> c < |pts[i]|
  {
    if pts == [] then 0.0 else Column(pts[..|pts| - 1], c) + pts[|pts| - 1][c]
  }

  // out[j] is the mean of every field over the points of the j-th occupied voxel.
  ghost predicate IsDownsampled(pts: seq<Row>, leaf: real, w: nat, distinct: seq<Key>, out: seq<Row>)
    requires leaf != 0.0 && w >= 3 && IsTable(pts, w)
  {
    && IsTable(out, w) && |out| == |distinct| && IsSorted(distinct)
    && (forall k :: k in distinct <==> k in Keys(pts, leaf))
    && (forall j, c :: 0 <= j < |out| && 0 <= c < w ==> IsMean(pts, Keys(pts, leaf), distinct[j], c, out[j][c]))
  }

  ghost predicate IsMean(pts: seq<Row>, keys: seq<Key>, k: Key, c: nat, x: real)
    requires |pts| == |keys| && forall i :: 0 <= i < |pts| ==> c < |pts[i]|
  {
    Count(keys, k) > 0 && x * Count(keys, k) as real == Total(pts, keys, k, c)
  }

  // out is the means stored as 4-byte floats; rnd is the rounding that is.
  ghost predicate IsRounded(means: seq<Row>, rnd: real -> real, out: seq<Row>) {
    |out| == |means| && forall j :: 0 <= j < |out| ==>
                          |out[j]| == |means[j]| && forall c :: 0 <= c < |out[j]| ==> out[j][c] == rnd(means[j][c])
  }

  ghost predicate AreMeans(pts: seq<Row>, keys: seq<Key>, distinct: seq<Key>, c: nat, means: seq<real>)
    requires |pts| == |keys| && forall i :: 0 <= i < |pts| ==> c < |pts[i]|
  {
    |means| == |distinct| && forall j :: 0 <= j < |means| ==> IsMean(pts, keys, distinct[j], c, means[j])
  }

  // ---- the computation ----

  // Where each key is among the distinct ones, and how often each of those occurs.
  method Inverse(keys: seq<Key>, distinct: seq<Key>) returns (inv: seq<nat>, counts: seq<nat>)
    requires IsSorted(distinct) && forall k :: k in keys <==> k in distinct
    ensures |inv| == |keys| && forall i :: 0 <= i < |inv| ==> inv[i] < |distinct| && distinct[inv[i]] == keys[i]
    ensures |counts| == |distinct| && forall j :: 0 <= j < |counts| ==> counts[j] == Count(keys, distinct[j])
  {
    inv := [];
    for i := 0 to |keys|
      invariant |inv| == i && forall l :: 0 <= l < i ==> inv[l] < |distinct| && distinct[inv[l]] == keys[l]
    {
      assert keys[i] in distinct;
      inv := inv + [First(distinct, keys[i])];
    }
    counts := seq(|distinct|, j requires 0 <= j < |distinct| => Count(keys, distinct[j]));
  }

  ghost predicate AreTotals(pts: seq<Row>, keys: seq<Key>, distinct: seq<Key>, c: nat, sums: seq<real>)
    requires |pts| == |keys| && forall i :: 0 <= i < |pts| ==> c < |pts[i]|
  {
    |sums| == |distinct| && forall j :: 0 <= j < |sums| ==> sums[j] == Total(pts, keys, distinct[j], c)
  }

  lemma AddToBin(pts: seq<Row>, keys: seq<Key>, distinct: seq<Key>, c: nat, sums: seq<real>, i: nat, at: nat)
    requires |pts| == |keys| && i < |pts| && forall i :: 0 <= i < |pts| ==> c < |pts[i]|
    requires IsSorted(distinct) && at < |distinct| && distinct[at] == keys[i]
    requires AreTotals(pts[..i], keys[..i], distinct, c, sums)
    ensures AreTotals(pts[..i + 1], keys[..i + 1], distinct, c, sums[at := sums[at] + pts[i][c]])
  {
    assert pts[..i + 1][..i] == pts[..i] && keys[..i + 1][..i] == keys[..i];
    forall j | 0 <= j < |distinct|
      ensures sums[at := sums[at] + pts[i][c]][j] == Total(pts[..i + 1], keys[..i + 1], distinct[j], c)
    {
      FirstInSorted(distinct, j);
      FirstInSorted(distinct, at);
    }
  }

  // np.bincount of one column over the inverse.
  method BinCount(pts: seq<Row>, ghost keys: seq<Key>, ghost distinct: seq<Key>, inv: seq<nat>, m: nat, c: nat)
    returns (sums: array<real>)
    requires |pts| == |keys| == |inv| && (forall i :: 0 <= i < |pts| ==> c < |pts[i]|)
    requires IsSorted(distinct) && |distinct| == m
    requires forall i :: 0 <= i < |inv| ==> inv[i] < m && distinct[inv[i]] == keys[i]
    ensures AreTotals(pts, keys, distinct, c, sums[..])
  {
    hide IsSorted, AreTotals;
    sums := new real[m](_ => 0.0);
    assert AreTotals(pts[..0], keys[..0], distinct, c, sums[..]) by {
      NoTotals(pts[..0], keys[..0], distinct, c, sums[..]);
    }
    for i := 0 to |pts|
      invariant AreTotals(pts[..i], keys[..i], distinct, c, sums[..])
    {
      AddToBin(pts, keys, distinct, c, sums[..], i, inv[i]);
      ghost var next := sums[..][inv[i] := sums[inv[i]] + pts[i][c]];
      sums[inv[i]] := sums[inv[i]] + pts[i][c];
      assert sums[..] == next;
    }
    assert pts[..|pts|] == pts && keys[..|pts|] == keys;
  }

  lemma NoTotals(pts: seq<Row>, keys: seq<Key>, distinct: seq<Key>, c: nat, sums: seq<real>)
    requires pts == [] && keys == [] && |sums| == |distinct| && forall j :: 0 <= j < |sums| ==> sums[j] == 0.0
    ensures AreTotals(pts, keys, distinct, c, sums)
  {
  }

  // The sums over the counts.
  method Means(pts: seq<Row>, ghost keys: seq<Key>, ghost distinct: seq<Key>, inv: seq<nat>, counts: seq<nat>, c: nat)
    returns (means: seq<real>)
    requires |pts| == |keys| == |inv| && (forall i :: 0 <= i < |pts| ==> c < |pts[i]|)
    requires IsSorted(distinct) && forall k :: k in keys <==> k in distinct
    requires forall i :: 0 <= i < |inv| ==> inv[i] < |distinct| && distinct[inv[i]] == keys[i]
    requires |counts| == |distinct| && forall j :: 0 <= j < |counts| ==> counts[j] == Count(keys, distinct[j])
    ensures AreMeans(pts, keys, distinct, c, means)
  {
    hide IsSorted, IsMean;
    var bins := BinCount(pts, keys, distinct, inv, |counts|, c);
    var sums := bins[..];
    means := [];
    for j := 0 to |counts|
      invariant |means| == j && forall l :: 0 <= l < j ==> IsMean(pts, keys, distinct[l], c, means[l])
    {
      assert distinct[j] in keys;
      Quotient(pts, keys, distinct[j], c, sums[j], counts[j]);
      means := means + [sums[j] / counts[j] as real];
    }
  }

  lemma Quotient(pts: seq<Row>, keys: seq<Key>, k: Key, c: nat, total: real, n: nat)
    requires |pts| == |keys| && forall i :: 0 <= i < |pts| ==> c < |pts[i]|
    requires k in keys && n == Count(keys, k) && total == Total(pts, keys, k, c)
    ensures n > 0 && IsMean(pts, keys, k, c, total / n as real)
  {
  }

  function Transposed(columns: seq<seq<real>>, m: nat): (r: seq<Row>)
    requires forall c :: 0 <= c < |columns| ==> |columns[c]| == m
    ensures |r| == m && forall j :: 0 <= j < m ==>
              |r[j]| == |columns| && forall c :: 0 <= c < |columns| ==> r[j][c] == columns[c][j]
  {
    seq(m, j requires 0 <= j < m => seq(|columns|, c requires 0 <= c < |columns| => columns[c][j]))
  }

  // The table filled column by column, as rows.
  method Rows(pts: seq<Row>, ghost keys: seq<Key>, distinct: seq<Key>, columns: seq<seq<real>>, w: nat)
    returns (out: seq<Row>)
    requires |pts| == |keys| && IsTable(pts, w) && |columns| == w
    requires forall c :: 0 <= c < w ==> AreMeans(pts, keys, distinct, c, columns[c])
    ensures IsTable(out, w) && |out| == |distinct|
    ensures forall j, c :: 0 <= j < |out| && 0 <= c < w ==> IsMean(pts, keys, distinct[j], c, out[j][c])
  {
    hide IsMean;
    out := Transposed(columns, |distinct|);
    forall j, c | 0 <= j < |out| && 0 <= c < w
      ensures IsMean(pts, keys, distinct[j], c, out[j][c])
    {
      assert AreMeans(pts, keys, distinct, c, columns[c]) && out[j][c] == columns[c][j];
    }
  }

  method Downsample(pts: seq<Row>, leaf: real, w: nat, rnd: real -> real)
    returns (out: seq<Row>, means: seq<Row>, distinct: seq<Key>)
    requires leaf != 0.0 && w >= 3 && IsTable(pts, w)
    ensures IsDownsampled(pts, leaf, w, distinct, means) && IsRounded(means, rnd, out)
  {
    hide IsSorted, IsMean, Keys, AreMeans;
    var keys := Keys(pts, leaf);
    var index;
    distinct, index := Unique(keys);
    assert IsSorted(distinct) && forall k :: k in keys <==> k in distinct;
    var inv, counts := Inverse(keys, distinct);
    var columns: seq<seq<real>> := [];
    for c := 0 to w
      invariant |columns| == c && forall d :: 0 <= d < c ==> AreMeans(pts, keys, distinct, d, columns[d])
    {
      var column := Means(pts, keys, distinct, inv, counts, c);
      columns := columns + [column];
    }
    means := Rows(pts, keys, distinct, columns, w);
    out := seq(|means|, j requires 0 <= j < |means| => Stored(means[j], rnd));
  }

  function Stored(row: Row, rnd: real -> real): (r: Row)
    ensures |r| == |row| && forall c :: 0 <= c < |r| ==> r[c] == rnd(row[c])
  {
    seq(|row|, c requires 0 <= c < |row| => rnd(row[c]))
  }

  // ---- which points share a voxel ----

  // x is from the n-th multiple of the leaf on and short of the next; a negative leaf counts the
  // other way.
  ghost predicate InLeaf(x: real, n: int, leaf: real) {
    if leaf > 0.0 then n as real * leaf <= x < (n + 1) as real * leaf
    else (n + 1) as real * leaf < x <= n as real * leaf
  }

  ghost predicate InCube(p: Row, k: Key, leaf: real)
    requires |p| >= 3
  {
    InLeaf(p[0], k.x, leaf) && InLeaf(p[1], k.y, leaf) && InLeaf(p[2], k.z, leaf)
  }

  lemma LeafIs(x: real, n: int, leaf: real)
    requires leaf != 0.0
    ensures Scaled(x, leaf).Floor == n <==> InLeaf(x, n, leaf)
  {
    var q := x / leaf;
    assert q * leaf == x;
    InOrderTimes(n as real, q, leaf);
    InOrderTimes(q, (n + 1) as real, leaf);
    InOrderTimes((n + 1) as real, q, leaf);
    InOrderTimes(q, n as real, leaf);
    assert q.Floor == n <==> n as real <= q < (n + 1) as real;
  }

  lemma InOrderTimes(a: real, b: real, leaf: real)
    requires leaf != 0.0
    ensures a <= b <==> if leaf > 0.0 then a * leaf <= b * leaf else b * leaf <= a * leaf
  {
    if a < b && leaf > 0.0 { assert (b - a) * leaf > 0.0; }
    if a < b && leaf < 0.0 { assert (b - a) * leaf < 0.0; }
    if a > b && leaf > 0.0 { assert (a - b) * leaf > 0.0; }
    if a > b && leaf < 0.0 { assert (a - b) * leaf < 0.0; }
  }

  // A point has a key exactly when it is in that cube.
  lemma KeyIs(p: Row, k: Key, leaf: real)
    requires |p| >= 3 && leaf != 0.0
    ensures KeyOf(p, leaf) == k <==> InCube(p, k, leaf)
  {
    LeafIs(p[0], k.x, leaf);
    LeafIs(p[1], k.y, leaf);
    LeafIs(p[2], k.z, leaf);
    hide Scaled, InLeaf;
  }

  // Two points are merged exactly when in each of the three coordinates they lie between the same
  // multiples of the leaf.
  lemma OneVoxel(p: Row, q: Row, leaf: real)
    requires |p| >= 3 && |q| >= 3 && leaf != 0.0
    ensures KeyOf(p, leaf) == KeyOf(q, leaf) <==>
              forall c :: 0 <= c < 3 ==> exists n :: InLeaf(p[c], n, leaf) && InLeaf(q[c], n, leaf)
  {
    hide Scaled, InLeaf;
    forall c | 0 <= c < 3
      ensures Scaled(p[c], leaf).Floor == Scaled(q[c], leaf).Floor <==>
                exists n :: InLeaf(p[c], n, leaf) && InLeaf(q[c], n, leaf)
    {
      LeafIs(p[c], Scaled(p[c], leaf).Floor, leaf);
      LeafIs(q[c], Scaled(p[c], leaf).Floor, leaf);
      if n :| InLeaf(p[c], n, leaf) && InLeaf(q[c], n, leaf) {
        LeafIs(p[c], n, leaf);
        LeafIs(q[c], n, leaf);
      }
    }
  }

  // Every point is in the cube of one output, and in no other's.
  lemma OneOutputEach(pts: seq<Row>, leaf: real, w: nat, distinct: seq<Key>, means: seq<Row>, i: nat) returns (j: nat)
    requires leaf != 0.0 && w >= 3 && IsTable(pts, w) && IsDownsampled(pts, leaf, w, distinct, means) && i < |pts|
    ensures j < |means| && InCube(pts[i], distinct[j], leaf)
    ensures forall l :: 0 <= l < |means| && InCube(pts[i], distinct[l], leaf) ==> l == j
  {
    hide IsMean, InCube, KeyOf;
    var keys := Keys(pts, leaf);
    assert keys[i] in keys && keys[i] in distinct;
    j := First(distinct, keys[i]);
    KeyIs(pts[i], distinct[j], leaf);
    forall l | 0 <= l < |means| && InCube(pts[i], distinct[l], leaf)
      ensures l == j
    {
      KeyIs(pts[i], distinct[l], leaf);
      FirstInSorted(distinct, l);
      FirstInSorted(distinct, j);
    }
  }

  // ---- every output lies in its own voxel ----

  ghost function Times(n: nat, x: real): real {
    n as real * x
  }

  lemma OneMoreTimes(n: nat, x: real)
    ensures Times(n + 1, x) == Times(n, x) + x && Times(0, x) == 0.0
  {
    assert (n + 1) as real == n as real + 1.0;
  }

  lemma {:induction false} TotalAbove(pts: seq<Row>, keys: seq<Key>, k: Key, c: nat, x: real)
    requires |pts| == |keys| && forall i :: 0 <= i < |pts| ==> c < |pts[i]|
    requires forall i :: 0 <= i < |pts| && keys[i] == k ==> pts[i][c] > x
    ensures var t, m := Total(pts, keys, k, c), Times(Count(keys, k), x); t >= m && (Count(keys, k) > 0 ==> t > m)
  {
    hide Times;
    OneMoreTimes(0, x);
    if pts != [] {
      var m := |pts| - 1;
      TotalAbove(pts[..m], keys[..m], k, c, x);
      OneMoreTimes(Count(keys[..m], k), x);
    }
  }

  lemma {:induction false} TotalBelow(pts: seq<Row>, keys: seq<Key>, k: Key, c: nat, x: real)
    requires |pts| == |keys| && forall i :: 0 <= i < |pts| ==> c < |pts[i]|
    requires forall i :: 0 <= i < |pts| && keys[i] == k ==> pts[i][c] < x
    ensures var t, m := Total(pts, keys, k, c), Times(Count(keys, k), x); t <= m && (Count(keys, k) > 0 ==> t < m)
  {
    hide Times;
    OneMoreTimes(0, x);
    if pts != [] {
      var m := |pts| - 1;
      TotalBelow(pts[..m], keys[..m], k, c, x);
      OneMoreTimes(Count(keys[..m], k), x);
    }
  }

  // A mean is not under all its points, nor over them all.
  lemma MeanBetweenPoints(pts: seq<Row>, keys: seq<Key>, k: Key, c: nat, x: real) returns (i: nat, j: nat)
    requires |pts| == |keys| && (forall i :: 0 <= i < |pts| ==> c < |pts[i]|) && IsMean(pts, keys, k, c, x)
    ensures i < |pts| && j < |pts| && keys[i] == k && keys[j] == k && pts[i][c] <= x <= pts[j][c]
  {
    assert Total(pts, keys, k, c) == Times(Count(keys, k), x) && Count(keys, k) > 0;
    hide IsMean, Times, Total, Count;
    if forall i :: 0 <= i < |pts| && keys[i] == k ==> pts[i][c] > x {
      TotalAbove(pts, keys, k, c, x);
      assert false;
    }
    if forall i :: 0 <= i < |pts| && keys[i] == k ==> pts[i][c] < x {
      TotalBelow(pts, keys, k, c, x);
      assert false;
    }
    i :| 0 <= i < |pts| && keys[i] == k && pts[i][c] <= x;
    j :| 0 <= j < |pts| && keys[j] == k && pts[j][c] >= x;
  }

  // What lies between two numbers of one leaf is in that leaf, for leaves of either sign.
  lemma SameLeaf(x: real, y: real, z: real, leaf: real)
    requires leaf != 0.0 && x <= y <= z && Scaled(x, leaf).Floor == Scaled(z, leaf).Floor
    ensures Scaled(y, leaf).Floor == Scaled(x, leaf).Floor
  {
    ScaledMonotone(x, y, leaf);
    ScaledMonotone(y, z, leaf);
    hide Scaled;
    var lo := Scaled(x, leaf).Floor;
    assert lo as real <= Scaled(y, leaf) < lo as real + 1.0;
  }

  lemma ScaledMonotone(x: real, y: real, leaf: real)
    requires leaf != 0.0 && x <= y
    ensures if leaf > 0.0 then Scaled(x, leaf) <= Scaled(y, leaf) else Scaled(y, leaf) <= Scaled(x, leaf)
  {
    var a, b := x / leaf, y / leaf;
    assert a * leaf == x && b * leaf == y;
    assert (b - a) * leaf >= 0.0;
  }

  // A rounding leaves what it gives as it is, and keeps the order.
  ghost predicate IsRounding(rnd: real -> real) {
    IsProjection(rnd) && IsMonotone(rnd)
  }

  ghost predicate IsProjection(rnd: real -> real) {
    forall x: real :: rnd(rnd(x)) == rnd(x)
  }

  ghost predicate IsMonotone(rnd: real -> real) {
    forall x: real, y: real :: x <= y ==> rnd(x) <= rnd(y)
  }

  // The numbers of the table are such that rnd leaves them as they are.
  ghost predicate AreStored(pts: seq<Row>, rnd: real -> real) {
    forall i, c :: 0 <= i < |pts| && 0 <= c < |pts[i]| ==> rnd(pts[i][c]) == pts[i][c]
  }

  lemma CoordinateKept(pts: seq<Row>, keys: seq<Key>, k: Key, c: nat, leaf: real, lo: int, mean: real,
                       rnd: real -> real)
    requires |pts| == |keys| && leaf != 0.0 && forall i :: 0 <= i < |pts| ==> c < |pts[i]|
    requires forall i :: 0 <= i < |pts| && keys[i] == k ==> Scaled(pts[i][c], leaf).Floor == lo
    requires IsMean(pts, keys, k, c, mean) && IsMonotone(rnd) && AreStored(pts, rnd)
    ensures Scaled(rnd(mean), leaf).Floor == lo
  {
    hide Scaled, IsMean;
    var i, j := MeanBetweenPoints(pts, keys, k, c, mean);
    assert rnd(pts[i][c]) == pts[i][c] && rnd(pts[j][c]) == pts[j][c];
    assert rnd(pts[i][c]) <= rnd(mean) <= rnd(pts[j][c]);
    SameLeaf(pts[i][c], rnd(mean), pts[j][c], leaf);
  }

  // The centroid as it is stored lies in its own voxel: rounding cannot move it past the points it
  // is the mean of.
  lemma InOwnVoxel(pts: seq<Row>, leaf: real, w: nat, rnd: real -> real, distinct: seq<Key>, means: seq<Row>,
                   out: seq<Row>, j: nat)
    requires leaf != 0.0 && w >= 3 && IsTable(pts, w) && IsMonotone(rnd) && AreStored(pts, rnd)
    requires IsDownsampled(pts, leaf, w, distinct, means) && IsRounded(means, rnd, out) && j < |out|
    ensures |out[j]| == w && KeyOf(out[j], leaf) == distinct[j] && InCube(out[j], distinct[j], leaf)
  {
    hide IsMean, IsSorted, AreStored, IsMonotone;
    var keys, k := Keys(pts, leaf), distinct[j];
    assert forall c :: 0 <= c < w ==> IsMean(pts, keys, k, c, means[j][c]);
    CoordinateKept(pts, keys, k, 0, leaf, k.x, means[j][0], rnd);
    CoordinateKept(pts, keys, k, 1, leaf, k.y, means[j][1], rnd);
    CoordinateKept(pts, keys, k, 2, leaf, k.z, means[j][2], rnd);
    KeyIs(out[j], k, leaf);
  }

  // ---- conservation ----

  ghost function Weighted(keys: seq<Key>, distinct: seq<Key>, out: seq<Row>, c: nat): real
    requires |distinct| == |out| && forall j :: 0 <= j < |out| ==> c < |out[j]|
  {
    if out == [] then 0.0
    else
      var m := |out| - 1;
      Weighted(keys, distinct[..m], out[..m], c) + out[m][c] * Count(keys, distinct[m]) as real
  }

  ghost function Totals(pts: seq<Row>, keys: seq<Key>, distinct: seq<Key>, c: nat): real
    requires |pts| == |keys| && forall i :: 0 <= i < |pts| ==> c < |pts[i]|
  {
    if distinct == [] then 0.0
    else
      var m := |distinct| - 1;
      Totals(pts, keys, distinct[..m], c) + Total(pts, keys, distinct[m], c)
  }

  lemma {:induction false} OneMorePoint(pts: seq<Row>, keys: seq<Key>, distinct: seq<Key>, c: nat)
    requires |pts| == |keys| && pts != [] && forall i :: 0 <= i < |pts| ==> c < |pts[i]|
    ensures var m := |pts| - 1;
            Totals(pts, keys, distinct, c)
              == Totals(pts[..m], keys[..m], distinct, c) + Times(Count(distinct, keys[m]), pts[m][c])
    decreases |distinct|
  {
    hide Times;
    var m := |pts| - 1;
    OneMoreTimes(0, pts[m][c]);
    if distinct != [] {
      var d := |distinct| - 1;
      OneMorePoint(pts, keys, distinct[..d], c);
      OneMoreTimes(Count(distinct[..d], keys[m]), pts[m][c]);
    }
  }

  lemma {:induction false} NoPoints(distinct: seq<Key>, c: nat)
    ensures Totals([], [], distinct, c) == 0.0
    decreases |distinct|
  {
    if distinct != [] { NoPoints(distinct[..|distinct| - 1], c); }
  }

  lemma {:induction false} TotalsCover(pts: seq<Row>, keys: seq<Key>, distinct: seq<Key>, c: nat)
    requires |pts| == |keys| && IsSorted(distinct) && forall i :: 0 <= i < |pts| ==> c < |pts[i]|
    requires forall i :: 0 <= i < |keys| ==> keys[i] in distinct
    ensures Totals(pts, keys, distinct, c) == Column(pts, c)
    decreases |pts|
  {
    if pts == [] {
      NoPoints(distinct, c);
    } else {
      var m := |pts| - 1;
      OneMorePoint(pts, keys, distinct, c);
      TotalsCover(pts[..m], keys[..m], distinct, c);
      CountInSorted(distinct, keys[m]);
      assert keys[m] in distinct;
      assert Count(distinct, keys[m]) == 1;
    }
  }

  lemma {:induction false} WeightedIsTotals(pts: seq<Row>, keys: seq<Key>, distinct: seq<Key>, out: seq<Row>, c: nat)
    requires |pts| == |keys| && |distinct| == |out|
    requires (forall i :: 0 <= i < |pts| ==> c < |pts[i]|) && forall j :: 0 <= j < |out| ==> c < |out[j]|
    requires forall j :: 0 <= j < |out| ==> IsMean(pts, keys, distinct[j], c, out[j][c])
    ensures Weighted(keys, distinct, out, c) == Totals(pts, keys, distinct, c)
    decreases |out|
  {
    if out != [] {
      var m := |out| - 1;
      WeightedIsTotals(pts, keys, distinct[..m], out[..m], c);
      assert IsMean(pts, keys, distinct[m], c, out[m][c]);
    }
  }

  // Every column keeps its sum: each output counts as often as there were points in its voxel.
  lemma SumsConserved(pts: seq<Row>, leaf: real, w: nat, distinct: seq<Key>, out: seq<Row>, c: nat)
    requires leaf != 0.0 && w >= 3 && IsTable(pts, w) && c < w
    requires IsDownsampled(pts, leaf, w, distinct, out)
    ensures Weighted(Keys(pts, leaf), distinct, out, c) == Column(pts, c)
  {
    var keys := Keys(pts, leaf);
    WeightedIsTotals(pts, keys, distinct, out, c);
    assert forall i :: 0 <= i < |keys| ==> keys[i] in keys;
    TotalsCover(pts, keys, distinct, c);
  }

  // ---- doing it again ----

  lemma {:induction false} NoneTotal(pts: seq<Row>, keys: seq<Key>, k: Key, c: nat)
    requires |pts| == |keys| && k !in keys && forall i :: 0 <= i < |pts| ==> c < |pts[i]|
    ensures Total(pts, keys, k, c) == 0.0
  {
    if pts != [] {
      NoneTotal(pts[..|pts| - 1], keys[..|pts| - 1], k, c);
    }
  }

  // The j-th key is there once.
  ghost predicate IsSole(keys: seq<Key>, j: nat) {
    j < |keys| && forall i :: 0 <= i < |keys| && i != j ==> keys[i] != keys[j]
  }

  lemma {:induction false} CountOfSole(keys: seq<Key>, j: nat)
    requires IsSole(keys, j)
    ensures Count(keys, keys[j]) == 1
    decreases |keys|
  {
    var m := |keys| - 1;
    if j < m { CountOfSole(keys[..m], j); }
  }

  lemma {:induction false} TotalOfSole(pts: seq<Row>, keys: seq<Key>, j: nat, c: nat)
    requires |pts| == |keys| && IsSole(keys, j) && forall i :: 0 <= i < |pts| ==> c < |pts[i]|
    ensures Total(pts, keys, keys[j], c) == pts[j][c]
    decreases |pts|
  {
    var m := |pts| - 1;
    if j < m {
      TotalOfSole(pts[..m], keys[..m], j, c);
    } else {
      NoneTotal(pts[..m], keys[..m], keys[m], c);
    }
  }

  lemma MeanOfSole(pts: seq<Row>, keys: seq<Key>, j: nat, c: nat, x: real)
    requires |pts| == |keys| && IsSole(keys, j) && forall i :: 0 <= i < |pts| ==> c < |pts[i]|
    requires IsMean(pts, keys, keys[j], c, x)
    ensures x == pts[j][c]
  {
    TotalOfSole(pts, keys, j, c);
    CountOfSole(keys, j);
    assert Count(keys, keys[j]) as real == 1.0;
  }

  lemma SortedIsSole(keys: seq<Key>, j: nat)
    requires IsSorted(keys) && j < |keys|
    ensures IsSole(keys, j)
  {
    forall i | 0 <= i < |keys| && i != j
      ensures keys[i] != keys[j]
    {
      FirstInSorted(keys, i);
      FirstInSorted(keys, j);
    }
  }

  lemma RoundedStays(rnd: real -> real, x: real)
    requires IsProjection(rnd)
    ensures rnd(rnd(x)) == rnd(x)
  {
  }

  // Whatever the points and whatever is done to the centroids, downsampling what was downsampled
  // gives it back, order included, exactly when they are left in as many voxels, in key order.
  lemma AgainExactly(pts: seq<Row>, leaf: real, w: nat, rnd: real -> real, distinct: seq<Key>, means: seq<Row>,
                     out: seq<Row>, again: seq<Key>, means2: seq<Row>, out2: seq<Row>)
    requires leaf != 0.0 && w >= 3 && IsTable(pts, w) && IsTable(out, w) && IsProjection(rnd)
    requires IsDownsampled(pts, leaf, w, distinct, means) && IsRounded(means, rnd, out)
    requires IsDownsampled(out, leaf, w, again, means2) && IsRounded(means2, rnd, out2)
    ensures out2 == out <==> IsSorted(Keys(out, leaf))
  {
    hide IsMean, KeyOf;
    var keys := Keys(out, leaf);
    if IsSorted(keys) {
      SortedUnique(keys, again);
      hide IsSorted, Keys;
      forall j | 0 <= j < |out|
        ensures out2[j] == out[j]
      {
        SortedIsSole(keys, j);
        SoleRow(out, keys, leaf, w, rnd, means, again, means2, out2, j, j);
      }
    }
    if out2 == out {
      forall j | 0 <= j < |out|
        ensures keys[j] == again[j]
      {
        assert again[j] in keys;
        var i := First(keys, again[j]);
        AllSole(keys, again, i);
        SoleRow(out, keys, leaf, w, rnd, means, again, means2, out2, i, j);
      }
      assert keys == again;
    }
  }

  lemma AllSole(keys: seq<Key>, distinct: seq<Key>, i: nat)
    requires IsSorted(distinct) && (forall k :: k in distinct <==> k in keys) && |keys| == |distinct| && i < |keys|
    ensures IsSole(keys, i)
  {
    hide IsSorted;
    forall j | 0 <= j < |keys| && j != i
      ensures keys[j] != keys[i]
    {
      if i < j { AllDifferent(keys, distinct, i, j); } else { AllDifferent(keys, distinct, j, i); }
    }
  }

  // A point alone in its voxel comes out as it was.
  lemma SoleRow(out: seq<Row>, keys: seq<Key>, leaf: real, w: nat, rnd: real -> real, means: seq<Row>, again: seq<Key>,
                means2: seq<Row>, out2: seq<Row>, i: nat, j: nat)
    requires leaf != 0.0 && w >= 3 && IsTable(out, w) && keys == Keys(out, leaf) && IsProjection(rnd)
    requires IsRounded(means, rnd, out) && IsDownsampled(out, leaf, w, again, means2) && IsRounded(means2, rnd, out2)
    requires i < |out| && IsSole(keys, i) && j < |again| && again[j] == keys[i]
    ensures out2[j] == out[i]
  {
    hide IsMean, Keys, IsSorted;
    forall c | 0 <= c < w
      ensures out2[j][c] == out[i][c]
    {
      assert IsMean(out, keys, keys[i], c, means2[j][c]);
      MeanOfSole(out, keys, i, c, means2[j][c]);
      assert |out[i]| == w && |out2[j]| == w;
      assert out2[j][c] == rnd(means2[j][c]) && out[i][c] == rnd(means[i][c]);
      RoundedStays(rnd, means[i][c]);
    }
  }

  // Since the centroids stay in their own voxels, downsampling what was downsampled always gives it
  // back, rounding and order included.
  lemma Idempotent(pts: seq<Row>, leaf: real, w: nat, rnd: real -> real, distinct: seq<Key>, means: seq<Row>,
                   out: seq<Row>, again: seq<Key>, means2: seq<Row>, out2: seq<Row>)
    requires leaf != 0.0 && w >= 3 && IsTable(pts, w) && IsTable(out, w) && IsRounding(rnd) && AreStored(pts, rnd)
    requires IsDownsampled(pts, leaf, w, distinct, means) && IsRounded(means, rnd, out)
    requires IsDownsampled(out, leaf, w, again, means2) && IsRounded(means2, rnd, out2)
    ensures out2 == out
  {
    hide IsMean, IsSorted, KeyOf, IsProjection, IsMonotone, AreStored;
    forall j | 0 <= j < |out|
      ensures Keys(out, leaf)[j] == distinct[j]
    {
      InOwnVoxel(pts, leaf, w, rnd, distinct, means, out, j);
    }
    assert Keys(out, leaf) == distinct;
    AgainExactly(pts, leaf, w, rnd, distinct, means, out, again, means2, out2);
  }

  // The result is determined by the points.
  lemma DownsampledUnique(pts: seq<Row>, leaf: real, w: nat, d1: seq<Key>, out1: seq<Row>, d2: seq<Key>, out2: seq<Row>)
    requires leaf != 0.0 && w >= 3 && IsTable(pts, w)
    requires IsDownsampled(pts, leaf, w, d1, out1) && IsDownsampled(pts, leaf, w, d2, out2)
    ensures d1 == d2 && out1 == out2
  {
    hide IsMean, Keys, IsSorted;
    SortedUnique(d1, d2);
    forall j | 0 <= j < |out1|
      ensures out1[j] == out2[j]
    {
      forall c | 0 <= c < w
        ensures out1[j][c] == out2[j][c]
      {
        MeanUnique(pts, Keys(pts, leaf), d1[j], c, out1[j][c], out2[j][c]);
      }
    }
  }

  lemma MeanUnique(pts: seq<Row>, keys: seq<Key>, k: Key, c: nat, x: real, y: real)
    requires |pts| == |keys| && forall i :: 0 <= i < |pts| ==> c < |pts[i]|
    requires IsMean(pts, keys, k, c, x) && IsMean(pts, keys, k, c, y)
    ensures x == y
  {
    var n := Count(keys, k) as real;
    assert (x - y) * n == 0.0;
  }
}
