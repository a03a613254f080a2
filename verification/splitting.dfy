// Where a lane is cut into lanelets, and which width and speed each sample of it carries
// (scripts/map/centerline_to_lanelet.py).

module Splitting {
  import opened Planar
  import opened Increasing
  import EvenOdd

  // Python's round(): to the nearest integer, halves to the even one.
  function Round(v: real): (r: int)
    ensures v - 0.5 <= r as real <= v + 0.5
    ensures r as real == v - 0.5 || r as real == v + 0.5 ==> r % 2 == 0
  {
    var f := v.Floor;
    var d := v - f as real;
    if d < 0.5 then f else if d > 0.5 then f + 1 else if f % 2 == 0 then f else f + 1
  }

  // ---- cutting ----

  // Samples per lanelet.
  function Stride(pointsPerSegment: real): (k: nat)
    ensures k >= 1 && (pointsPerSegment < 0.5 ==> k == 1)
    ensures pointsPerSegment >= 0.5 ==> pointsPerSegment - 0.5 <= k as real <= pointsPerSegment + 0.5
    ensures k as real == pointsPerSegment - 0.5 || k as real == pointsPerSegment + 0.5 ==> k % 2 == 0 || k == 1
  {
    var r := Round(pointsPerSegment);
    if r >= 1 then r else 1
  }

  ghost function Times(j: nat, k: nat): nat {
    j * k
  }

  ghost predicate IsMultiple(b: int, k: nat) {
    exists j: nat :: b == Times(j, k)
  }

  // The indices at which a lane of n samples is cut: its ends, the breaks inside it, and every
  // k-th sample but one that would leave a tail shorter than k / 2.
  ghost predicate IsBoundary(n: nat, k: nat, breaks: seq<int>, b: int) {
    || b == 0
    || b == n - 1
    || (0 < b < n - 1 && (b in breaks || (IsMultiple(b, k) && 2 * (n - 1 - b) >= k)))
  }

  ghost function Cuts(n: nat, k: nat, breaks: seq<int>): (s: seq<nat>)
    ensures forall x :: x in s <==> 0 <= x < n && IsBoundary(n, k, breaks, x)
    ensures forall i, j :: 0 <= i < j < |s| ==> s[i] < s[j]
  {
    Filter(n, x => IsBoundary(n, k, breaks, x))
  }

  function Pairs(bounds: seq<int>): (ranges: seq<(int, int)>)
    ensures |ranges| == if bounds == [] then 0 else |bounds| - 1
    ensures forall i :: 0 <= i < |ranges| ==> ranges[i] == (bounds[i], bounds[i + 1])
  {
    if bounds == [] then [] else seq(|bounds| - 1, i requires 0 <= i < |bounds| - 1 => (bounds[i], bounds[i + 1]))
  }

  // Every k-th index, then the last one.
  method Strides(n: nat, k: nat) returns (bounds: seq<int>)
    requires n >= 1 && k >= 1
    ensures |bounds| >= 1 && bounds[|bounds| - 1] == n - 1
    ensures var m := |bounds| - 1;
            (forall j :: 0 <= j < m ==> bounds[j] == Times(j, k) < n - 1) && Times(m, k) >= n - 1
  {
    hide Times;
    bounds := [];
    var i := 0;
    TimesOrder(0, 0, k);
    while i < n - 1
      invariant 0 <= i == Times(|bounds|, k)
      invariant forall j :: 0 <= j < |bounds| ==> bounds[j] == Times(j, k) < n - 1
      decreases n - 1 - i
    {
      TimesOrder(|bounds|, |bounds| + 1, k);
      bounds := bounds + [i];
      i := i + k;
    }
    bounds := bounds + [n - 1];
  }

  method SplitSegments(n: nat, pointsPerSegment: real, breaks: seq<int>) returns (ranges: seq<(int, int)>)
    requires n >= 1
    ensures ranges == Pairs(Cuts(n, Stride(pointsPerSegment), breaks))
  {
    hide Times, IsMultiple;
    var k := Stride(pointsPerSegment);
    var bounds := Strides(n, k);
    ghost var strides := bounds;
    var m := |bounds|;
    if m > 2 && 2 * (bounds[m - 1] - bounds[m - 2]) < k {
      bounds := bounds[..m - 2] + [bounds[m - 1]];
    }
    KeptBounds(n, k, strides, bounds);
    var inner: seq<int> := [];
    for j := 0 to |breaks|
      invariant forall b :: b in inner <==> b in breaks[..j] && 0 < b < n - 1
    {
      assert breaks[..j + 1] == breaks[..j] + [breaks[j]];
      if 0 < breaks[j] < n - 1 {
        inner := inner + [breaks[j]];
      }
    }
    assert breaks[..|breaks|] == breaks;
    var all := SortedDistinct(bounds + inner);
    SameElements(all, Cuts(n, k, breaks));
    ranges := Pairs(all);
  }

  lemma TimesOrder(i: nat, j: nat, k: nat)
    requires i <= j
    ensures Times(i, k) <= Times(j, k)
    ensures i < j ==> Times(i, k) + k <= Times(j, k)
    ensures j == i + 1 ==> Times(j, k) == Times(i, k) + k
    ensures i == 0 ==> Times(i, k) == 0
  {
    assert j * k == i * k + (j - i) * k;
    assert (j - i) * k >= 0;
    if i < j { assert (j - i) * k == k + (j - i - 1) * k && (j - i - 1) * k >= 0; }
  }

  // What the stride alone contributes, after a stub tail has been folded away.
  lemma KeptBounds(n: nat, k: nat, strides: seq<int>, bounds: seq<int>)
    requires n >= 1 && k >= 1 && |strides| >= 1 && strides[|strides| - 1] == n - 1
    requires forall j :: 0 <= j < |strides| - 1 ==> strides[j] == Times(j, k) < n - 1
    requires Times(|strides| - 1, k) >= n - 1
    requires var m := |strides|;
             bounds == if m > 2 && 2 * (n - 1 - strides[m - 2]) < k then strides[..m - 2] + [n - 1] else strides
    ensures forall b :: b in bounds <==>
                        b == n - 1 || b == 0 || (0 < b < n - 1 && IsMultiple(b, k) && 2 * (n - 1 - b) >= k)
  {
    hide Times;
    var m := |strides| - 1;
    TimesOrder(0, m, k);
    forall j | 0 <= j < m - 1
      ensures 2 * (n - 1 - strides[j]) >= k
    {
      TimesOrder(j, m - 1, k);
    }
    var p := b => b == n - 1 || b == 0 || (0 < b < n - 1 && IsMultiple(b, k) && 2 * (n - 1 - b) >= k);
    forall b | p(b)
      ensures b in bounds
    {
      if b != n - 1 {
        var j: nat :| b == Times(j, k);
        if j >= m { TimesOrder(m, j, k); }
        assert strides[j] == b;
        if j < m - 1 { assert bounds[j] == b; }
      }
    }
    forall b | b in bounds
      ensures p(b)
    {
      var j :| 0 <= j < |bounds| && bounds[j] == b;
      if j < m && b != n - 1 {
        assert b == strides[j] && IsMultiple(b, k);
      }
    }
  }

  // The cut covers the lane, its ranges are non-empty and join, and every break starts one.
  lemma CutCovers(n: nat, k: nat, breaks: seq<int>)
    requires n >= 2
    ensures var c := Cuts(n, k, breaks);
            EvenOdd.IsCut(c, n) && forall b :: b in breaks && 0 < b < n - 1 ==> b in c
  {
    var c := Cuts(n, k, breaks);
    assert 0 in c && n - 1 in c;
  }

  // The next stride multiple after b is a boundary, or the end is less than half a stride after it.
  lemma NextStride(n: nat, k: nat, breaks: seq<int>, b: nat) returns (next: nat)
    requires n >= 2 && k >= 1 && b < n - 1
    ensures b < next <= n - 1 && IsBoundary(n, k, breaks, next) && 2 * (next - b) <= 3 * k
  {
    hide Times;
    var j := b / k;
    TimesOrder(j, j + 1, k);
    Quotient(b, k);
    next := Times(j + 1, k);
    assert IsMultiple(next, k);
    if next >= n - 1 || 2 * (n - 1 - next) < k {
      next := n - 1;
    }
  }

  lemma Quotient(b: nat, k: nat)
    requires k >= 1
    ensures Times(b / k, k) <= b < Times(b / k, k) + k
  {
  }

  // Whatever the breaks, no lanelet is longer than one and a half strides, and so than one and a half
  // times the length asked for, rounded.
  lemma LaneletsAreShort(n: nat, k: nat, breaks: seq<int>, i: nat)
    requires n >= 2 && k >= 1 && i < |Cuts(n, k, breaks)| - 1
    ensures var c := Cuts(n, k, breaks); 2 * (c[i + 1] - c[i]) <= 3 * k
    ensures forall p: real :: k == Stride(p) && p >= 0.5 ==>
              var c := Cuts(n, k, breaks); (c[i + 1] - c[i]) as real <= 1.5 * (p + 0.5)
  {
    hide IsBoundary;
    var c := Cuts(n, k, breaks);
    CutCovers(n, k, breaks);
    assert c[i] < c[i + 1] && c[i + 1] in c;
    var next := NextStride(n, k, breaks, c[i]);
    assert next in c;
    NothingBetween(c, i, next);
  }

  // Without breaks only the single lanelet of a short lane is shorter than half a stride.
  lemma LaneletsAreLong(n: nat, k: nat, i: nat)
    requires n >= 2 && k >= 1 && i < |Cuts(n, k, [])| - 1 && |Cuts(n, k, [])| > 2
    ensures var c := Cuts(n, k, []); 2 * (c[i + 1] - c[i]) >= k
  {
    hide Times;
    var c := Cuts(n, k, []);
    CutCovers(n, k, []);
    var b, e := c[i], c[i + 1];
    assert b in c && e in c;
    TimesOrder(0, 0, k);
    assert IsMultiple(b, k);
    if e < n - 1 {
      var j: nat :| b == Times(j, k);
      var g: nat :| e == Times(g, k);
      if g <= j { TimesOrder(g, j, k); } else { TimesOrder(j, g, k); }
    }
  }
}
