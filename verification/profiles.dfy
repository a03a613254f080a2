// Which width and which speed each sample of a lane carries
// (scripts/map/centerline_to_lanelet.py): the one-pass cursors, against what a search for each
// sample would give, and the one speed of every lanelet.

module Profiles {
  import opened Planar
  import Splitting
  import opened Increasing

  // Fractions of the way along a polyline: from 0 to 1, in order.
  ghost predicate IsFractions(f: seq<real>) {
    |f| >= 2 && IsSorted(f) && f[0] == 0.0 && f[|f| - 1] == 1.0
  }

  function Total(lengths: seq<real>): real {
    if lengths == [] then 0.0 else Total(lengths[..|lengths| - 1]) + lengths[|lengths| - 1]
  }

  // f gives the share of the length up to every vertex of a polyline with these edge lengths.
  ghost predicate IsArc(lengths: seq<real>, f: seq<real>) {
    IsFractions(f) && |f| == |lengths| + 1 && forall i :: 0 <= i < |f| ==> f[i] * Total(lengths) == Total(lengths[..i])
  }

  // The fractions of a polyline whose edges have the given lengths, unless it has no length: a
  // division by zero.
  method ArcFractions(lengths: seq<real>) returns (f: seq<real>, ok: bool)
    requires forall i :: 0 <= i < |lengths| ==> lengths[i] >= 0.0
    ensures ok <==> Total(lengths) > 0.0
    ensures ok ==> IsArc(lengths, f)
  {
    hide Total, IsFractions;
    TotalStep(lengths, 0);
    var s := [0.0];
    for k := 0 to |lengths|
      invariant |s| == k + 1 && s[0] == 0.0
      invariant forall i :: 0 <= i <= k ==> s[i] == Total(lengths[..i])
      invariant IsSorted(s)
    {
      TotalStep(lengths, k);
      s := s + [s[k] + lengths[k]];
    }
    assert lengths[..|lengths|] == lengths;
    var total := s[|s| - 1];
    assert s[0] <= total;
    ok := total != 0.0;
    f := if ok then seq(|s|, i requires 0 <= i < |s| => s[i] / total) else [];
    if ok {
      Divided(s, total, f);
    }
  }

  // Each edge takes the share of the fractions that it has of the length.
  lemma SharesAreLengths(lengths: seq<real>, f: seq<real>) returns (total: real)
    requires IsArc(lengths, f) && lengths != []
    ensures forall i :: 0 <= i < |lengths| ==> (f[i + 1] - f[i]) * total == lengths[i]
  {
    hide Total, IsFractions;
    total := Total(lengths);
    forall i | 0 <= i < |lengths|
      ensures (f[i + 1] - f[i]) * total == lengths[i]
    {
      TotalStep(lengths, i);
      assert f[i + 1] * total == Total(lengths[..i + 1]) && f[i] * total == Total(lengths[..i]);
      assert (f[i + 1] - f[i]) * total == f[i + 1] * total - f[i] * total;
    }
  }

  lemma TotalStep(lengths: seq<real>, k: nat)
    ensures Total(lengths[..0]) == 0.0
    ensures k < |lengths| ==> Total(lengths[..k + 1]) == Total(lengths[..k]) + lengths[k]
  {
    if k < |lengths| {
      assert lengths[..k + 1][..k] == lengths[..k];
    }
  }

  lemma Divided(s: seq<real>, total: real, f: seq<real>)
    requires |s| >= 1 && IsSorted(s) && s[0] == 0.0 && s[|s| - 1] == total > 0.0
    requires |f| == |s| && forall i :: 0 <= i < |f| ==> f[i] == s[i] / total
    ensures IsFractions(f)
    ensures forall i :: 0 <= i < |f| ==> f[i] * total == s[i]
  {
    forall i, j | 0 <= i <= j < |f|
      ensures f[i] <= f[j]
    {
      assert s[i] <= s[j];
      DivideMonotone(s[i], s[j], total);
    }
    forall i | 0 <= i < |f|
      ensures f[i] * total == s[i]
    {
      DivideBack(s[i], total);
    }
    DivideBack(0.0, total);
    DivideBack(total, total);
  }

  lemma DivideBack(a: real, d: real)
    requires d > 0.0
    ensures a / d * d == a
    ensures a == 0.0 ==> a / d == 0.0
    ensures a == d ==> a / d == 1.0
  {
  }

  lemma DivideMonotone(a: real, b: real, d: real)
    requires a <= b && d > 0.0
    ensures a / d <= b / d
  {
    SignOfProduct(b / d - a / d, d);
    assert (b / d - a / d) * d == b - a;
  }

  // ---- widths ----

  // The first segment that ends at or after t, or the last one.
  ghost predicate IsSegmentOf(f: seq<real>, t: real, i: int) {
    && 0 <= i <= |f| - 2
    && (i == |f| - 2 || f[i + 1] >= t)
    && (forall j :: 1 <= j <= i ==> f[j] < t)
  }

  function Interpolated(f: seq<real>, widths: seq<real>, t: real, i: nat): real
    requires |f| == |widths| && i + 1 < |f|
  {
    var span := f[i + 1] - f[i];
    var u := if span <= 0.0 then 0.0 else Clamp((t - f[i]) / span, 0.0, 1.0);
    Lerp(widths[i], widths[i + 1], u)
  }

  ghost predicate IsWidthAt(f: seq<real>, widths: seq<real>, t: real, w: real)
    requires |f| == |widths|
  {
    exists i :: IsSegmentOf(f, t, i) && w == Interpolated(f, widths, t, i)
  }

  // f and g are the fractions of the route and of the samples.
  method WidthsAlong(f: seq<real>, widths: seq<real>, g: seq<real>) returns (out: seq<real>)
    requires IsFractions(f) && |widths| == |f| && IsSorted(g)
    ensures |out| == |g|
    ensures forall k :: 0 <= k < |g| ==> IsWidthAt(f, widths, g[k], out[k])
  {
    out := [];
    var i := 0;
    for k := 0 to |g|
      invariant |out| == k && 0 <= i <= |f| - 2
      invariant forall j :: 1 <= j <= i ==> k > 0 && f[j] < g[k - 1]
      invariant forall j :: 0 <= j < k ==> IsWidthAt(f, widths, g[j], out[j])
    {
      var t := g[k];
      assert k > 0 ==> g[k - 1] <= t;
      while i < |f| - 2 && f[i + 1] < t
        invariant 0 <= i <= |f| - 2
        invariant forall j :: 1 <= j <= i ==> f[j] < t
      {
        i := i + 1;
      }
      assert IsSegmentOf(f, t, i);
      out := out + [Interpolated(f, widths, t, i)];
    }
  }

  // There is one such segment, so the cursor's choice is the search's.
  lemma SegmentUnique(f: seq<real>, t: real, i: int, j: int)
    requires IsSegmentOf(f, t, i) && IsSegmentOf(f, t, j)
    ensures i == j
  {
  }

  // A sample's width lies between the widths of the route points around it, and a sample at a
  // route vertex has that vertex's width.
  lemma WidthBetweenNeighbours(f: seq<real>, widths: seq<real>, t: real, i: nat)
    requires IsFractions(f) && |widths| == |f| && IsSegmentOf(f, t, i)
    ensures Min(widths[i], widths[i + 1]) <= Interpolated(f, widths, t, i) <= Max(widths[i], widths[i + 1])
  {
    hide Lerp;
    var span := f[i + 1] - f[i];
    var u := if span <= 0.0 then 0.0 else Clamp((t - f[i]) / span, 0.0, 1.0);
    LerpBetween(widths[i], widths[i + 1], u);
  }

  // Between its route points a width goes evenly from the one's to the other's.
  lemma WidthIsLinear(f: seq<real>, widths: seq<real>, t: real, i: nat)
    requires |widths| == |f| && i + 1 < |f| && f[i] <= t <= f[i + 1] && f[i] < f[i + 1]
    ensures (Interpolated(f, widths, t, i) - widths[i]) * (f[i + 1] - f[i]) == (widths[i + 1] - widths[i]) * (t - f[i])
  {
    var span := f[i + 1] - f[i];
    var u := (t - f[i]) / span;
    assert u * span == t - f[i];
    SignOfProduct(u, span);
    SignOfProduct(1.0 - u, span);
    assert (1.0 - u) * span == span - (t - f[i]);
    var w := widths[i + 1] - widths[i];
    assert Interpolated(f, widths, t, i) == widths[i] + u * w;
    assert u * w * span == w * (u * span);
  }

  lemma WidthAtVertex(f: seq<real>, widths: seq<real>, k: nat, i: nat)
    requires IsFractions(f) && |widths| == |f| && k < |f| && (k > 0 ==> f[k - 1] < f[k])
    requires IsSegmentOf(f, f[k], i)
    ensures Interpolated(f, widths, f[k], i) == widths[k]
  {
    hide Interpolated;
    var at := if k == 0 then 0 else k - 1;
    assert IsSegmentOf(f, f[k], at);
    SegmentUnique(f, f[k], i, at);
    hide IsSegmentOf, IsFractions;
    if k == 0 {
      AtStart(f, widths, 0);
    } else {
      AtEnd(f, widths, at);
    }
  }

  lemma AtStart(f: seq<real>, widths: seq<real>, i: nat)
    requires |f| == |widths| && i + 1 < |f|
    ensures Interpolated(f, widths, f[i], i) == widths[i]
  {
    var span := f[i + 1] - f[i];
    if span > 0.0 { DivideBack(f[i] - f[i], span); }
  }

  lemma AtEnd(f: seq<real>, widths: seq<real>, i: nat)
    requires |f| == |widths| && i + 1 < |f| && f[i] < f[i + 1]
    ensures Interpolated(f, widths, f[i + 1], i) == widths[i + 1]
  {
    DivideBack(f[i + 1] - f[i], f[i + 1] - f[i]);
  }

  // ---- speeds ----

  const SLACK: real := 0.000000001

  // The last route point at or before t.
  ghost predicate IsLastBefore(f: seq<real>, t: real, i: int) {
    && 0 <= i < |f|
    && f[i] <= t + SLACK
    && (forall j :: i < j < |f| ==> f[j] > t + SLACK)
  }

  ghost predicate IsSpeedAt(f: seq<real>, speeds: seq<real>, t: real, v: real)
    requires |f| == |speeds|
  {
    exists i :: IsLastBefore(f, t, i) && v == speeds[i]
  }

  method SpeedsAlong(f: seq<real>, speeds: seq<real>, g: seq<real>) returns (out: seq<real>)
    requires IsFractions(f) && |speeds| == |f| && IsSorted(g)
    requires forall k :: 0 <= k < |g| ==> g[k] >= 0.0
    ensures |out| == |g|
    ensures forall k :: 0 <= k < |g| ==> IsSpeedAt(f, speeds, g[k], out[k])
  {
    out := [];
    var i := 0;
    for k := 0 to |g|
      invariant |out| == k && 0 <= i < |f|
      invariant f[i] <= (if k > 0 then g[k - 1] else 0.0) + SLACK
      invariant forall j :: 0 <= j < k ==> IsSpeedAt(f, speeds, g[j], out[j])
    {
      var t := g[k];
      assert k > 0 ==> g[k - 1] <= t;
      while i < |f| - 1 && f[i + 1] <= t + SLACK
        invariant 0 <= i < |f| && f[i] <= t + SLACK
      {
        i := i + 1;
      }
      assert IsLastBefore(f, t, i) by {
        forall j | i < j < |f|
          ensures f[j] > t + SLACK
        {
          assert f[i + 1] <= f[j];
        }
      }
      out := out + [speeds[if i <= |speeds| - 1 then i else |speeds| - 1]];
    }
  }

  // The speed changes from one sample to the next.
  predicate ChangesAt(speeds: seq<real>, i: int) {
    1 <= i < |speeds| && speeds[i] != speeds[i - 1]
  }

  method Breaks(speeds: seq<real>) returns (breaks: seq<int>)
    ensures forall i :: i in breaks <==> ChangesAt(speeds, i)
  {
    breaks := [];
    for k := 0 to |speeds|
      invariant forall i :: i in breaks <==> i < k && ChangesAt(speeds, i)
    {
      if k >= 1 && speeds[k] != speeds[k - 1] {
        breaks := breaks + [k];
      }
    }
  }

  // Every lanelet carries one true speed: that of each of its samples but the shared last one.
  lemma OneSpeedPerLanelet(speeds: seq<real>, k: nat, breaks: seq<int>, i: nat, s: nat)
    requires |speeds| >= 2 && k >= 1
    requires forall b :: b in breaks <==> ChangesAt(speeds, b)
    requires i < |Splitting.Cuts(|speeds|, k, breaks)| - 1
    requires var c := Splitting.Cuts(|speeds|, k, breaks); c[i] <= s < c[i + 1]
    ensures speeds[s] == speeds[Splitting.Cuts(|speeds|, k, breaks)[i]]
    decreases s
  {
    var c := Splitting.Cuts(|speeds|, k, breaks);
    Splitting.CutCovers(|speeds|, k, breaks);
    assert c[i + 1] in c;
    if s > c[i] {
      OneSpeedPerLanelet(speeds, k, breaks, i, s - 1);
      if ChangesAt(speeds, s) {
        assert s in c;
        NothingBetween(c, i, s);
      }
    }
  }

  // ---- profiles of a route, on its samples ----

  // One value for the whole lane, or one per route point.
  datatype Profile = One(value: real) | PerPoint(values: seq<real>)

  // Nothing stops the program carrying a profile from the route onto its samples, both given by
  // their edges' lengths: a count that differs, or a polyline of no length, would.
  ghost predicate IsCarried(p: Profile, route: seq<real>, samples: seq<real>) {
    p.PerPoint? ==> |p.values| == |route| + 1 && Total(route) > 0.0 && Total(samples) > 0.0
  }

  ghost predicate AreWidths(p: Profile, route: seq<real>, samples: seq<real>, w: seq<real>) {
    |w| == |samples| + 1
    && match p
       case One(v) => forall k :: 0 <= k < |w| ==> w[k] == v
       case PerPoint(values) => exists f, g :: AreWidthsBetween(values, route, samples, f, g, w)
  }

  ghost predicate AreWidthsBetween(values: seq<real>, route: seq<real>, samples: seq<real>, f: seq<real>,
                                   g: seq<real>, w: seq<real>) {
    && IsArc(route, f) && IsArc(samples, g) && |values| == |f| && |w| == |g|
    && forall k :: 0 <= k < |w| ==> IsWidthAt(f, values, g[k], w[k])
  }

  ghost predicate AreSpeeds(p: Profile, route: seq<real>, samples: seq<real>, v: seq<real>) {
    |v| == |samples| + 1
    && match p
       case One(value) => forall k :: 0 <= k < |v| ==> v[k] == value
       case PerPoint(values) => exists f, g :: AreSpeedsBetween(values, route, samples, f, g, v)
  }

  ghost predicate AreSpeedsBetween(values: seq<real>, route: seq<real>, samples: seq<real>, f: seq<real>,
                                   g: seq<real>, v: seq<real>) {
    && IsArc(route, f) && IsArc(samples, g) && |values| == |f| && |v| == |g|
    && forall k :: 0 <= k < |v| ==> IsSpeedAt(f, values, g[k], v[k])
  }

  ghost predicate AreLengths(lengths: seq<real>) {
    forall i :: 0 <= i < |lengths| ==> lengths[i] >= 0.0
  }

  method CarriedWidths(p: Profile, route: seq<real>, samples: seq<real>) returns (w: seq<real>, ok: bool)
    requires AreLengths(route) && AreLengths(samples)
    ensures ok <==> IsCarried(p, route, samples)
    ensures ok ==> AreWidths(p, route, samples, w)
  {
    hide Total, IsWidthAt;
    w, ok := [], true;
    match p {
      case One(v) => w := seq(|samples| + 1, i => v);
      case PerPoint(values) =>
        var f, fOk := ArcFractions(route);
        var g, gOk := ArcFractions(samples);
        ok := |values| == |route| + 1 && fOk && gOk;
        if ok {
          w := WidthsAlong(f, values, g);
          assert AreWidthsBetween(values, route, samples, f, g, w);
        }
    }
  }

  method CarriedSpeeds(p: Profile, route: seq<real>, samples: seq<real>) returns (v: seq<real>, ok: bool)
    requires AreLengths(route) && AreLengths(samples)
    ensures ok <==> IsCarried(p, route, samples)
    ensures ok ==> AreSpeeds(p, route, samples, v)
  {
    hide Total, IsSpeedAt;
    v, ok := [], true;
    match p {
      case One(value) => v := seq(|samples| + 1, i => value);
      case PerPoint(values) =>
        var f, fOk := ArcFractions(route);
        var g, gOk := ArcFractions(samples);
        ok := |values| == |route| + 1 && fOk && gOk;
        if ok {
          assert forall k :: 0 <= k < |g| ==> g[0] <= g[k];
          v := SpeedsAlong(f, values, g);
          assert AreSpeedsBetween(values, route, samples, f, g, v);
        }
    }
  }

  lemma PositiveArc(lengths: seq<real>, f: seq<real>)
    requires IsArc(lengths, f)
    ensures IsFractions(f)
  {
  }

  // Positive route widths give positive widths everywhere.
  lemma PositiveWidths(p: Profile, route: seq<real>, samples: seq<real>, w: seq<real>)
    requires AreWidths(p, route, samples, w)
    requires match p case One(v) => v > 0.0 case PerPoint(values) => forall i :: 0 <= i < |values| ==> values[i] > 0.0
    ensures forall k :: 0 <= k < |w| ==> w[k] > 0.0
  {
    if p.PerPoint? {
      hide IsArc, IsFractions, Interpolated;
      var f, g :| AreWidthsBetween(p.values, route, samples, f, g, w);
      assert IsFractions(f) by { PositiveArc(route, f); }
      forall k | 0 <= k < |w|
        ensures w[k] > 0.0
      {
        assert IsWidthAt(f, p.values, g[k], w[k]);
        var i :| IsSegmentOf(f, g[k], i) && w[k] == Interpolated(f, p.values, g[k], i);
        WidthBetweenNeighbours(f, p.values, g[k], i);
      }
    }
  }
}
