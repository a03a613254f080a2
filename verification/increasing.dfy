// Sequences in order.  Strictly increasing ones: sorting without duplicates, and the fact that such
// a sequence is determined by its elements.

module Increasing {

  ghost predicate IsSorted(s: seq<real>) {
    forall i, j :: 0 <= i <= j < |s| ==> s[i] <= s[j]
  }

  ghost predicate IsIncreasing(s: seq<int>) {
    forall i, j :: 0 <= i < j < |s| ==> s[i] < s[j]
  }

  lemma {:induction false} SameElements(a: seq<int>, b: seq<int>)
    requires IsIncreasing(a) && IsIncreasing(b)
    requires forall x :: x in a <==> x in b
    ensures a == b
    decreases |a|
  {
    EndsAreElements(a);
    EndsAreElements(b);
    if a == [] || b == [] {
    } else {
      WithoutLasts(a, b);
      hide IsIncreasing;
      SameElements(ButLast(a), ButLast(b));
      assert a == ButLast(a) + [a[|a| - 1]] && b == ButLast(b) + [b[|b| - 1]];
    }
  }

  ghost function ButLast(s: seq<int>): (r: seq<int>)
    requires s != []
    ensures |r| == |s| - 1
  {
    s[..|s| - 1]
  }

  lemma WithoutLasts(a: seq<int>, b: seq<int>)
    requires a != [] && b != [] && IsIncreasing(a) && IsIncreasing(b)
    requires forall x :: x in a <==> x in b
    ensures a[|a| - 1] == b[|b| - 1]
    ensures IsIncreasing(ButLast(a)) && IsIncreasing(ButLast(b))
    ensures forall x :: x in ButLast(a) <==> x in ButLast(b)
  {
    hide ButLast;
    EndsAreElements(a);
    EndsAreElements(b);
    LastIsGreatest(a, b);
    LastIsGreatest(b, a);
    WithoutLast(a);
    WithoutLast(b);
  }

  lemma WithoutLast(s: seq<int>)
    requires s != [] && IsIncreasing(s)
    ensures IsIncreasing(ButLast(s))
    ensures forall x :: x in ButLast(s) <==> x in s && x != s[|s| - 1]
  {
    assert s == ButLast(s) + [s[|s| - 1]];
  }

  lemma EndsAreElements(s: seq<int>)
    ensures s != [] ==> s[0] in s && s[|s| - 1] in s
  {
  }

  lemma LastIsGreatest(a: seq<int>, b: seq<int>)
    requires a != [] && b != [] && IsIncreasing(b) && a[|a| - 1] in b
    ensures a[|a| - 1] <= b[|b| - 1]
  {
  }

  lemma NothingBetween(c: seq<nat>, i: nat, x: nat)
    requires forall j, k :: 0 <= j < k < |c| ==> c[j] < c[k]
    requires i < |c| - 1 && x in c && c[i] < x
    ensures c[i + 1] <= x
  {
    var j :| 0 <= j < |c| && c[j] == x;
  }

  // Between the smaller and the larger elements there is room for one more.
  lemma Inserted(s: seq<int>, i: nat, x: int)
    requires IsIncreasing(s) && i <= |s|
    requires forall j :: 0 <= j < i ==> s[j] < x
    requires i < |s| ==> x < s[i]
    ensures IsIncreasing(s[..i] + [x] + s[i..])
    ensures forall y :: y in s[..i] + [x] + s[i..] <==> y in s || y == x
  {
    var t := s[..i] + [x] + s[i..];
    forall j, k | 0 <= j < k < |t|
      ensures t[j] < t[k]
    {
      assert t[j] == if j < i then s[j] else if j == i then x else s[j - 1];
      assert t[k] == if k < i then s[k] else if k == i then x else s[k - 1];
    }
    assert s == s[..i] + s[i..];
  }

  // sorted(set(xs)), by insertion.
  method SortedDistinct(xs: seq<int>) returns (s: seq<int>)
    ensures IsIncreasing(s)
    ensures forall x :: x in s <==> x in xs
  {
    s := [];
    for k := 0 to |xs|
      invariant IsIncreasing(s)
      invariant forall x :: x in s <==> x in xs[..k]
    {
      var x := xs[k];
      assert xs[..k + 1] == xs[..k] + [x];
      var i := 0;
      while i < |s| && s[i] < x
        invariant 0 <= i <= |s|
        invariant forall j :: 0 <= j < i ==> s[j] < x
      {
        i := i + 1;
      }
      if i == |s| || s[i] != x {
        Inserted(s, i, x);
        s := s[..i] + [x] + s[i..];
      }
    }
    assert xs[..|xs|] == xs;
  }

  // The numbers below n that satisfy p, in order.
  ghost function Filter(n: nat, p: int -> bool): (s: seq<nat>)
    ensures forall x :: x in s <==> 0 <= x < n && p(x)
    ensures forall i, j :: 0 <= i < j < |s| ==> s[i] < s[j]
  {
    if n == 0 then [] else
      var s := Filter(n - 1, p);
      assert forall i :: 0 <= i < |s| ==> s[i] in s;
      if p(n - 1) then s + [n - 1] else s
  }
}
