// Grouping command changes into steps (scripts/testing/sysid/sysid_fit.py).

module StepFinder {
  import opened Increasing
  import opened Planar

  const CHANGE: real := 0.000000001

  // The command changes at sample i.
  predicate ChangesAt(u: seq<real>, i: int) {
    1 <= i < |u| && Abs(u[i] - u[i - 1]) > CHANGE
  }

  // ---- groups ----

  function Flatten(groups: seq<seq<nat>>): seq<nat> {
    if groups == [] then [] else Flatten(groups[..|groups| - 1]) + groups[|groups| - 1]
  }

  // The changes, in order.
  ghost predicate AreChanges(u: seq<real>, change: seq<nat>) {
    && (forall i :: i in change <==> ChangesAt(u, i))
    && (forall i, j :: 0 <= i < j < |change| ==> change[i] < change[j])
  }

  // Within a group no gap is longer than merge.
  ghost predicate IsTight(t: seq<real>, g: seq<nat>, merge: real) {
    && g != []
    && (forall i :: 0 <= i < |g| ==> g[i] < |t|)
    && (forall i, j :: 0 <= i && j == i + 1 && j < |g| ==> t[g[j]] - t[g[i]] <= merge)
  }

  function LastOf(g: seq<nat>): nat
    requires g != []
  {
    g[|g| - 1]
  }

  // Maximal groups: tight inside, farther apart than merge from one to the next.
  ghost predicate AreGroups(t: seq<real>, groups: seq<seq<nat>>, merge: real) {
    && (forall k :: 0 <= k < |groups| ==> IsTight(t, groups[k], merge))
    && (forall k, l :: 0 <= k && l == k + 1 && l < |groups| ==> t[groups[l][0]] - t[LastOf(groups[k])] > merge)
  }

  method Changes(u: seq<real>) returns (change: seq<nat>)
    ensures AreChanges(u, change)
  {
    change := [];
    for k := 0 to |u|
      invariant forall i :: i in change <==> i < k && ChangesAt(u, i)
      invariant forall i, j :: 0 <= i < j < |change| ==> change[i] < change[j]
    {
      if k >= 1 && Abs(u[k] - u[k - 1]) > CHANGE {
        assert forall i :: 0 <= i < |change| ==> change[i] in change;
        change := change + [k];
      }
    }
  }

  method Groups(t: seq<real>, change: seq<nat>, merge: real) returns (groups: seq<seq<nat>>)
    requires forall i :: 0 <= i < |change| ==> change[i] < |t|
    ensures Flatten(groups) == change && AreGroups(t, groups, merge)
  {
    groups := [];
    for k := 0 to |change|
      invariant Flatten(groups) == change[..k] && AreGroups(t, groups, merge)
    {
      var i := change[k];
      assert change[..k + 1] == change[..k] + [i];
      if groups != [] && t[i] - t[LastOf(groups[|groups| - 1])] <= merge {
        var n := |groups| - 1;
        ghost var before := groups;
        groups := groups[..n] + [groups[n] + [i]];
        assert groups[..n] == before[..n];
        assert IsTight(t, groups[n], merge);
      } else {
        ghost var before := groups;
        groups := groups + [[i]];
        assert groups[..|before|] == before;
        assert IsTight(t, [i], merge);
      }
    }
    assert change[..|change|] == change;
  }

  // ---- events ----

  // t0 is the first change, tEnd the end of the window; held says whether the command rested
  // long enough before the window ended.
  datatype Event = Event(t0: real, tEnd: real, u0: real, u1: real, held: bool)

  function WindowEnd(t: seq<real>, groups: seq<seq<nat>>, k: nat, last: real): real
    requires k < |groups| && forall l :: 0 <= l < |groups| ==> groups[l] != [] && groups[l][0] < |t|
  {
    if k + 1 < |groups| then t[groups[k + 1][0]] else last
  }

  // What the k-th group's event would be.
  function EventOf(t: seq<real>, u: seq<real>, groups: seq<seq<nat>>, k: nat, last: real, minHold: real): Event
    requires |t| == |u| && k < |groups|
    requires forall l :: 0 <= l < |groups| ==> groups[l] != []
                                               && forall i :: 0 <= i < |groups[l]| ==> 1 <= groups[l][i] < |t|
  {
    var g, end := groups[k], WindowEnd(t, groups, k, last);
    Event(t[g[0]], end, u[g[0] - 1], u[LastOf(g)], end - t[LastOf(g)] >= minHold)
  }

  predicate Moves(ev: Event, threshold: real) {
    Abs(ev.u1 - ev.u0) > threshold
  }

  // The groups that move the command by more than the threshold, in order.
  function Accepted(t: seq<real>, u: seq<real>, groups: seq<seq<nat>>, k: nat, last: real, minHold: real,
                    threshold: real): seq<Event>
    requires |t| == |u| && k <= |groups|
    requires forall l :: 0 <= l < |groups| ==> groups[l] != []
                                               && forall i :: 0 <= i < |groups[l]| ==> 1 <= groups[l][i] < |t|
  {
    if k == 0 then []
    else
      var ev := EventOf(t, u, groups, k - 1, last, minHold);
      Accepted(t, u, groups, k - 1, last, minHold, threshold) + if Moves(ev, threshold) then [ev] else []
  }

  ghost predicate IsPartition(t: seq<real>, u: seq<real>, groups: seq<seq<nat>>, merge: real) {
    && |t| == |u|
    && AreChanges(u, Flatten(groups)) && AreGroups(t, groups, merge)
    && (forall l :: 0 <= l < |groups| ==> groups[l] != []
                                          && forall i :: 0 <= i < |groups[l]| ==> 1 <= groups[l][i] < |t|)
  }

  lemma {:induction false} GroupElements(groups: seq<seq<nat>>, l: nat, i: nat)
    requires l < |groups| && i < |groups[l]|
    ensures groups[l][i] in Flatten(groups)
    decreases |groups|
  {
    if l < |groups| - 1 {
      GroupElements(groups[..|groups| - 1], l, i);
    }
  }

  // stop is the last report time, or the last command time when there is none.
  method FindSteps(t: seq<real>, u: seq<real>, threshold: real, merge: real, minHold: real, stop: real)
    returns (events: seq<Event>, groups: seq<seq<nat>>)
    requires |t| == |u|
    ensures IsPartition(t, u, groups, merge)
    ensures events == Accepted(t, u, groups, |groups|, stop, minHold, threshold)
  {
    var change := Changes(u);
    forall i | 0 <= i < |change|
      ensures 1 <= change[i] < |t|
    {
      assert change[i] in change;
    }
    var found := Groups(t, change, merge);
    groups := found;
    forall l, i | 0 <= l < |found| && 0 <= i < |found[l]|
      ensures 1 <= found[l][i] < |t|
    {
      GroupElements(found, l, i);
    }
    events := [];
    for k := 0 to |found|
      invariant events == Accepted(t, u, found, k, stop, minHold, threshold)
    {
      var g := found[k];
      var start, settle := t[g[0]], t[LastOf(g)];
      var next := if k + 1 < |found| then t[found[k + 1][0]] else stop;
      var u0, u1 := u[g[0] - 1], u[LastOf(g)];
      if Abs(u1 - u0) > threshold {
        events := events + [Event(start, next, u0, u1, !(next - settle < minHold))];
      }
    }
  }

  // ---- where the groups are among the changes ----

  // How many changes come before the k-th group.
  ghost function Start(groups: seq<seq<nat>>, k: nat): nat
    requires k <= |groups|
  {
    |Flatten(groups[..k])|
  }

  lemma {:induction false} FlattenAt(groups: seq<seq<nat>>, k: nat)
    requires k < |groups|
    ensures Start(groups, k + 1) == Start(groups, k) + |groups[k]| <= |Flatten(groups)|
    ensures forall i :: 0 <= i < |groups[k]| ==> Flatten(groups)[Start(groups, k) + i] == groups[k][i]
    decreases |groups|
  {
    var m := |groups| - 1;
    assert groups[..k + 1][..k] == groups[..k];
    if k < m {
      var front := groups[..m];
      FlattenAt(front, k);
      assert front[..k] == groups[..k] && front[..k + 1] == groups[..k + 1];
      forall i | 0 <= i < |groups[k]|
        ensures Flatten(groups)[Start(groups, k) + i] == groups[k][i]
      {
        assert Flatten(front)[Start(front, k) + i] == front[k][i];
      }
    } else {
      assert groups[..k + 1] == groups;
    }
  }

  // Where the first of the changes after f[i] is, when it is x or an earlier one.
  lemma After(u: seq<real>, f: seq<nat>, i: nat, x: nat)
    requires AreChanges(u, f) && i < |f| && ChangesAt(u, x) && x > f[i]
    ensures i + 1 < |f| && f[i + 1] <= x
  {
    hide ChangesAt;
    assert x in f;
    var p :| 0 <= p < |f| && f[p] == x;
    assert p > i;
  }

  // A change after a group's last one is not before the next group's first.
  lemma NextChange(t: seq<real>, u: seq<real>, groups: seq<seq<nat>>, merge: real, k: nat, x: nat)
    requires IsPartition(t, u, groups, merge) && k < |groups| && ChangesAt(u, x) && x > LastOf(groups[k])
    ensures k + 1 < |groups| && groups[k + 1][0] <= x
  {
    hide AreChanges, AreGroups, ChangesAt, Flatten;
    assert groups[..|groups|] == groups;
    var f, s := Flatten(groups), Start(groups, k);
    FlattenAt(groups, k);
    assert f[s + (|groups[k]| - 1)] == LastOf(groups[k]);
    After(u, f, s + (|groups[k]| - 1), x);
    assert Start(groups, k + 1) < |f|;
    if k + 1 < |groups| {
      FlattenAt(groups, k + 1);
      assert f[Start(groups, k + 1) + 0] == groups[k + 1][0];
    }
  }

  lemma FirstChange(t: seq<real>, u: seq<real>, groups: seq<seq<nat>>, merge: real, x: nat)
    requires IsPartition(t, u, groups, merge) && ChangesAt(u, x)
    ensures |groups| > 0 && groups[0][0] <= x
  {
    var f := Flatten(groups);
    assert x in f;
    hide ChangesAt, AreGroups;
    var p :| 0 <= p < |f| && f[p] == x;
    if groups != [] {
      FlattenAt(groups, 0);
      assert f[Start(groups, 0) + 0] == groups[0][0];
    }
  }

  lemma GroupOrder(t: seq<real>, u: seq<real>, groups: seq<seq<nat>>, merge: real, k: nat, l: nat)
    requires IsPartition(t, u, groups, merge) && k <= l < |groups|
    ensures groups[k][0] <= LastOf(groups[k]) && groups[k][0] <= groups[l][0]
    ensures k < l ==> LastOf(groups[k]) < groups[k + 1][0] <= groups[l][0]
    decreases l - k
  {
    var f := Flatten(groups);
    FlattenAt(groups, k);
    assert f[Start(groups, k) + 0] == groups[k][0];
    assert f[Start(groups, k) + (|groups[k]| - 1)] == LastOf(groups[k]);
    if k < l {
      FlattenAt(groups, k + 1);
      assert f[Start(groups, k + 1) + 0] == groups[k + 1][0];
      GroupOrder(t, u, groups, merge, k + 1, l);
    }
  }

  // The partition is the only one: its groups are decided by the gaps.
  lemma {:induction false} GroupsUnique(t: seq<real>, a: seq<seq<nat>>, b: seq<seq<nat>>, merge: real)
    requires AreGroups(t, a, merge) && AreGroups(t, b, merge) && Flatten(a) == Flatten(b)
    ensures a == b
    decreases |a|
  {
    GroupsNonEmpty(t, a, merge);
    GroupsNonEmpty(t, b, merge);
    if a == [] || b == [] {
    } else {
      var m, n := |a| - 1, |b| - 1;
      LastGroupsAgree(t, a, b, merge);
      hide AreGroups, Flatten;
      GroupsUnique(t, a[..m], b[..n], merge);
      assert a == a[..m] + [a[m]] && b == b[..n] + [b[n]];
    }
  }

  lemma LastGroupsAgree(t: seq<real>, a: seq<seq<nat>>, b: seq<seq<nat>>, merge: real)
    requires AreGroups(t, a, merge) && AreGroups(t, b, merge) && Flatten(a) == Flatten(b) && a != [] && b != []
    ensures var m, n := |a| - 1, |b| - 1;
            && a[m] == b[n] && Flatten(a[..m]) == Flatten(b[..n])
            && AreGroups(t, a[..m], merge) && AreGroups(t, b[..n], merge)
  {
    LastGroupNotShorter(t, a, b, merge);
    LastGroupNotShorter(t, b, a, merge);
    WithoutLast(t, a, merge);
    WithoutLast(t, b, merge);
    hide AreGroups, Flatten;
  }

  lemma WithoutLast(t: seq<real>, groups: seq<seq<nat>>, merge: real)
    requires AreGroups(t, groups, merge) && groups != []
    ensures var f, m := Flatten(groups), |groups| - 1;
            var p := |f| - |groups[m]|;
            && p >= 0 && f[..p] == Flatten(groups[..m]) && f[p..] == groups[m] && AreGroups(t, groups[..m], merge)
  {
  }

  lemma GroupsNonEmpty(t: seq<real>, groups: seq<seq<nat>>, merge: real)
    requires AreGroups(t, groups, merge)
    ensures groups != [] ==> Flatten(groups) != []
  {
    assert groups != [] ==> IsTight(t, groups[|groups| - 1], merge);
  }

  // The gap before the last group is a long one, and the gaps inside it are not.
  lemma GapBeforeLast(t: seq<real>, groups: seq<seq<nat>>, merge: real, x: nat)
    requires AreGroups(t, groups, merge) && groups != []
    ensures var f, p := Flatten(groups), |Flatten(groups[..|groups| - 1])|;
            && p < |f| && (forall i :: 0 <= i < |f| ==> f[i] < |t|)
            && (p > 0 ==> t[f[p]] - t[f[p - 1]] > merge)
            && (p < x < |f| ==> t[f[x]] - t[f[x - 1]] <= merge)
  {
    FlattenInRange(t, groups, merge);
    var m := |groups| - 1;
    var f, p := Flatten(groups), |Flatten(groups[..m])|;
    assert IsTight(t, groups[m], merge);
    assert f[p] == groups[m][0];
    if m > 0 {
      assert IsTight(t, groups[m - 1], merge);
      assert groups[..m][..m - 1] == groups[..m - 1];
      assert f[p - 1] == LastOf(groups[m - 1]);
    }
    if p < x < |f| {
      assert f[x] == groups[m][x - p] && f[x - 1] == groups[m][x - 1 - p];
    }
  }

  lemma {:induction false} FlattenInRange(t: seq<real>, groups: seq<seq<nat>>, merge: real)
    requires AreGroups(t, groups, merge)
    ensures forall i :: 0 <= i < |Flatten(groups)| ==> Flatten(groups)[i] < |t|
    decreases |groups|
  {
    if groups != [] {
      FlattenInRange(t, groups[..|groups| - 1], merge);
      assert IsTight(t, groups[|groups| - 1], merge);
    }
  }

  lemma LastGroupNotShorter(t: seq<real>, a: seq<seq<nat>>, b: seq<seq<nat>>, merge: real)
    requires AreGroups(t, a, merge) && AreGroups(t, b, merge) && Flatten(a) == Flatten(b) && a != [] && b != []
    ensures |a[|a| - 1]| >= |b[|b| - 1]|
  {
    var p := |Flatten(a[..|a| - 1])|;
    GapBeforeLast(t, a, merge, p);
    GapBeforeLast(t, b, merge, p);
  }

  // ---- what the events say ----

  // Without a change the command drifts by no more than the change threshold per sample.
  lemma {:induction false} Rests(u: seq<real>, i: nat, j: nat)
    requires i <= j < |u| && forall k :: i < k <= j ==> !ChangesAt(u, k)
    ensures Abs(u[j] - u[i]) <= CHANGE * (j - i) as real
    decreases j - i
  {
    if i < j {
      Rests(u, i, j - 1);
      assert !ChangesAt(u, j);
    }
  }

  // Up to the sample before its first change an event's command rested at u0, since the last change of
  // the group before, or since the start.
  lemma EventStartsFromU0(t: seq<real>, u: seq<real>, groups: seq<seq<nat>>, merge: real, k: nat, last: real,
                          minHold: real, i: nat)
    requires IsPartition(t, u, groups, merge) && k < |groups| && i < groups[k][0]
    requires k > 0 ==> LastOf(groups[k - 1]) <= i
    ensures var ev, first := EventOf(t, u, groups, k, last, minHold), groups[k][0];
            && ev.t0 == t[first] && Abs(ev.u0 - u[i]) <= CHANGE * (first - 1 - i) as real
            && Abs(u[first] - ev.u0) > CHANGE
  {
    hide AreGroups, IsTight;
    var first := groups[k][0];
    GroupElements(groups, k, 0);
    assert ChangesAt(u, first);
    forall x | i < x <= first - 1
      ensures !ChangesAt(u, x)
    {
      if ChangesAt(u, x) {
        if k > 0 { NextChange(t, u, groups, merge, k - 1, x); } else { FirstChange(t, u, groups, merge, x); }
      }
    }
    Rests(u, i, first - 1);
  }

  // From an event's last change to the end of its window the command rests at u1; when the
  // event is held, that is at least minHold.
  lemma EventRestsAtU1(t: seq<real>, u: seq<real>, groups: seq<seq<nat>>, merge: real, k: nat, last: real,
                       minHold: real, i: nat)
    requires IsPartition(t, u, groups, merge) && k < |groups|
    requires LastOf(groups[k]) <= i < |u| && (k + 1 < |groups| ==> i < groups[k + 1][0])
    ensures var ev := EventOf(t, u, groups, k, last, minHold);
            && Abs(u[i] - ev.u1) <= CHANGE * (i - LastOf(groups[k])) as real
            && ev.tEnd == (if k + 1 < |groups| then t[groups[k + 1][0]] else last)
            && (ev.held <==> ev.tEnd - t[LastOf(groups[k])] >= minHold)
  {
    var s := LastOf(groups[k]);
    forall x | s < x <= i
      ensures !ChangesAt(u, x)
    {
      if ChangesAt(u, x) {
        NextChange(t, u, groups, merge, k, x);
      }
    }
    Rests(u, s, i);
  }

  // Windows follow one another: the k-th ends no later than any later one starts.
  lemma WindowsDisjoint(t: seq<real>, u: seq<real>, groups: seq<seq<nat>>, merge: real, k: nat, l: nat, last: real,
                        minHold: real)
    requires IsPartition(t, u, groups, merge) && IsSorted(t) && k < l < |groups|
    ensures EventOf(t, u, groups, k, last, minHold).tEnd <= EventOf(t, u, groups, l, last, minHold).t0
    ensures EventOf(t, u, groups, k, last, minHold).t0 <= EventOf(t, u, groups, k, last, minHold).tEnd
  {
    GroupOrder(t, u, groups, merge, k, l);
  }

  // A group moves the command when what it goes from before its first change to its last one is above
  // the threshold, either way.
  lemma GroupMoves(t: seq<real>, u: seq<real>, groups: seq<seq<nat>>, merge: real, k: nat, last: real, minHold: real,
                   threshold: real)
    requires IsPartition(t, u, groups, merge) && k < |groups|
    ensures var way := u[LastOf(groups[k])] - u[groups[k][0] - 1];
            Moves(EventOf(t, u, groups, k, last, minHold), threshold) <==> way > threshold || -way > threshold
  {
  }

  // at lists, in order, the groups below k that move the command, and evs their events.
  ghost predicate AreAccepted(t: seq<real>, u: seq<real>, groups: seq<seq<nat>>, merge: real, k: nat, last: real,
                              minHold: real, threshold: real, at: seq<nat>, evs: seq<Event>)
    requires IsPartition(t, u, groups, merge) && k <= |groups|
  {
    && |at| == |evs|
    && (forall i :: 0 <= i < |at| ==>
        at[i] < k && evs[i] == EventOf(t, u, groups, at[i], last, minHold) && Moves(evs[i], threshold))
    && (forall i, j :: 0 <= i < j < |at| ==> at[i] < at[j])
    && (forall l :: 0 <= l < k && l !in at ==> !Moves(EventOf(t, u, groups, l, last, minHold), threshold))
  }

  // The accepted events are those of exactly the groups that move the command.
  lemma {:induction false} AcceptedGroups(t: seq<real>, u: seq<real>, groups: seq<seq<nat>>, merge: real, k: nat,
                                          last: real, minHold: real, threshold: real) returns (at: seq<nat>)
    requires IsPartition(t, u, groups, merge) && k <= |groups|
    ensures AreAccepted(t, u, groups, merge, k, last, minHold, threshold, at,
                        Accepted(t, u, groups, k, last, minHold, threshold))
  {
    hide AreChanges, AreGroups, EventOf, Flatten, Moves;
    at := [];
    if k > 0 {
      at := AcceptedGroups(t, u, groups, merge, k - 1, last, minHold, threshold);
      hide AreAccepted;
      var evs := Accepted(t, u, groups, k - 1, last, minHold, threshold);
      OneMoreGroup(t, u, groups, merge, k - 1, last, minHold, threshold, at, evs);
      var ev := EventOf(t, u, groups, k - 1, last, minHold);
      if Moves(ev, threshold) {
        at := at + [k - 1];
      } else {
        assert evs + [] == evs;
      }
    }
  }

  lemma OneMoreGroup(t: seq<real>, u: seq<real>, groups: seq<seq<nat>>, merge: real, k: nat, last: real,
                     minHold: real, threshold: real, at: seq<nat>, evs: seq<Event>)
    requires IsPartition(t, u, groups, merge) && k < |groups|
    requires AreAccepted(t, u, groups, merge, k, last, minHold, threshold, at, evs)
    ensures var ev := EventOf(t, u, groups, k, last, minHold);
            if Moves(ev, threshold)
               then AreAccepted(t, u, groups, merge, k + 1, last, minHold, threshold, at + [k], evs + [ev])
            else AreAccepted(t, u, groups, merge, k + 1, last, minHold, threshold, at, evs)
  {
    hide EventOf, AreChanges, AreGroups, Moves;
    var more := at + [k];
    assert more[|at|] == k && forall l :: l in at ==> l in more;
  }

  // Accepted events have disjoint windows in time order.
  lemma AcceptedDisjoint(t: seq<real>, u: seq<real>, groups: seq<seq<nat>>, merge: real, last: real, minHold: real,
                         threshold: real, i: nat, j: nat)
    requires IsPartition(t, u, groups, merge) && IsSorted(t)
    requires i < j < |Accepted(t, u, groups, |groups|, last, minHold, threshold)|
    ensures var evs := Accepted(t, u, groups, |groups|, last, minHold, threshold); evs[i].tEnd <= evs[j].t0
  {
    hide EventOf, Accepted;
    var at := AcceptedGroups(t, u, groups, merge, |groups|, last, minHold, threshold);
    WindowsDisjoint(t, u, groups, merge, at[i], at[j], last, minHold);
  }

  // The sum of the first k groups' jumps.
  ghost function Jumps(u: seq<real>, groups: seq<seq<nat>>, k: nat): real
    requires k <= |groups|
    requires forall l :: 0 <= l < |groups| ==> groups[l] != []
                                               && forall i :: 0 <= i < |groups[l]| ==> 1 <= groups[l][i] < |u|
  {
    if k == 0 then 0.0 else Jumps(u, groups, k - 1) + (u[LastOf(groups[k - 1])] - u[groups[k - 1][0] - 1])
  }

  // The jumps telescope: together they are the way the command went, within the drift.
  lemma {:induction false} JumpsTelescope(t: seq<real>, u: seq<real>, groups: seq<seq<nat>>, merge: real, k: nat)
    requires IsPartition(t, u, groups, merge) && 1 <= k <= |groups|
    ensures Abs(Jumps(u, groups, k) - (u[LastOf(groups[k - 1])] - u[0])) <= CHANGE * LastOf(groups[k - 1]) as real
  {
    hide AreChanges, AreGroups;
    var g := groups[k - 1];
    GroupOrder(t, u, groups, merge, k - 1, k - 1);
    if k > 1 {
      JumpsTelescope(t, u, groups, merge, k - 1);
      GroupOrder(t, u, groups, merge, k - 2, k - 1);
    }
    RestsBefore(t, u, groups, merge, k - 1, g[0] - 1);
  }

  // From the last change of a group, or the first sample, the command rests until the next one.
  lemma RestsBefore(t: seq<real>, u: seq<real>, groups: seq<seq<nat>>, merge: real, k: nat, j: nat)
    requires IsPartition(t, u, groups, merge) && k <= |groups| && j < |u|
    requires k < |groups| ==> j < groups[k][0]
    requires k > 0 ==> LastOf(groups[k - 1]) <= j
    ensures var from := if k == 0 then 0 else LastOf(groups[k - 1]);
            Abs(u[j] - u[from]) <= CHANGE * (j - from) as real
  {
    var from := if k == 0 then 0 else LastOf(groups[k - 1]);
    forall x | from < x <= j
      ensures !ChangesAt(u, x)
    {
      if ChangesAt(u, x) {
        if k > 0 { NextChange(t, u, groups, merge, k - 1, x); } else { FirstChange(t, u, groups, merge, x); }
      }
    }
    Rests(u, from, j);
  }

  lemma AllJumpsTelescope(t: seq<real>, u: seq<real>, groups: seq<seq<nat>>, merge: real)
    requires IsPartition(t, u, groups, merge) && |u| >= 1
    ensures Abs(Jumps(u, groups, |groups|) - (u[|u| - 1] - u[0])) <= CHANGE * (|u| - 1) as real
  {
    hide AreChanges, AreGroups;
    var k := |groups|;
    if k > 0 {
      JumpsTelescope(t, u, groups, merge, k);
    }
    RestsBefore(t, u, groups, merge, k, |u| - 1);
  }
}
