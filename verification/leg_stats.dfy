// Statistics of one driven leg, kept sample by sample (scripts/testing/sim_loop_drive.py).

module LegStatistics {
  import opened Options
  import opened Planar

  const STOP_SPEED: real := 0.05
  const STOP_HOLD: real := 1.0

  datatype Sample = Sample(t: real, at: Point, v: real, steer: real)

  function Speed(s: Sample): real {
    Abs(s.v)
  }

  function Steer(s: Sample): real {
    Abs(s.steer)
  }

  // Where the leg starts and ends, and how far from either the cart counts as cruising.
  datatype Leg = Leg(start: Point, goal: Point, margin: real)

  // The distance from p to q is above m.
  predicate Farther(p: Point, q: Point, m: real) {
    m < 0.0 || Dist2(p, q) > m * m
  }

  // That is what it says of the distance, a d of which d^2 is the square.
  lemma FartherIs(p: Point, q: Point, m: real, d: real)
    requires d >= 0.0 && d * d == Dist2(p, q)
    ensures Farther(p, q, m) <==> d > m
  {
    if m >= 0.0 {
      if d > m {
        ProductPositive(d - m, d + m);
        assert (d - m) * (d + m) == d * d - m * m;
      } else {
        ProductSign(m - d, m + d);
        assert (m - d) * (m + d) == m * m - d * d;
      }
    }
  }

  // A sample is slow in mid-leg: farther than the margin from both its start and its goal, at
  // distances d0 and d1, and below the stop speed in either direction.
  lemma SlowIs(leg: Leg, s: Sample, d0: real, d1: real)
    requires d0 >= 0.0 && d0 * d0 == Dist2(s.at, leg.start) && d1 >= 0.0 && d1 * d1 == Dist2(s.at, leg.goal)
    ensures Slow(leg, s) <==> d0 > leg.margin && d1 > leg.margin && -0.05 < s.v < 0.05
  {
    FartherIs(s.at, leg.start, leg.margin, d0);
    FartherIs(s.at, leg.goal, leg.margin, d1);
    hide Farther, Dist2;
  }

  predicate Mid(leg: Leg, s: Sample) {
    Farther(s.at, leg.start, leg.margin) && Farther(s.at, leg.goal, leg.margin)
  }

  predicate Slow(leg: Leg, s: Sample) {
    Mid(leg, s) && Speed(s) < STOP_SPEED
  }

  // ---- what the numbers mean over the whole history ----

  // Samples [i, j) are slow and neither neighbour is.
  ghost predicate IsRun(leg: Leg, h: seq<Sample>, i: nat, j: nat) {
    && i < j <= |h| && (forall k :: i <= k < j ==> Slow(leg, h[k]))
    && (i > 0 ==> !Slow(leg, h[i - 1])) && (j < |h| ==> !Slow(leg, h[j]))
  }

  // Some sample of [i, j) is at least STOP_HOLD after the first.
  ghost predicate Lasts(h: seq<Sample>, i: nat, j: nat) {
    i < j <= |h| && exists k :: i <= k < j && h[k].t - h[i].t >= STOP_HOLD
  }

  // A stop: a maximal run of slow samples that lasts.
  ghost predicate IsStop(leg: Leg, h: seq<Sample>, i: nat) {
    exists j: nat :: IsRun(leg, h, i, j) && Lasts(h, i, j)
  }

  // The stops of a history, each by the sample it starts at.
  ghost function Stops(leg: Leg, h: seq<Sample>): set<nat> {
    set i: nat | 0 <= i < |h| && IsStop(leg, h, i)
  }

  // x is the greatest of the values f takes over the history and 0.
  ghost predicate IsGreatest(h: seq<Sample>, f: Sample -> real, x: real) {
    && x >= 0.0 && (forall i :: 0 <= i < |h| ==> f(h[i]) <= x)
    && (x == 0.0 || exists i :: 0 <= i < |h| && f(h[i]) == x)
  }

  // x is the least speed of the mid-leg samples, None when there are none.
  ghost predicate IsLeastMid(leg: Leg, h: seq<Sample>, x: Option<real>) {
    match x
    case None => forall i :: 0 <= i < |h| ==> !Mid(leg, h[i])
    case Some(v) =>
      && (forall i :: 0 <= i < |h| && Mid(leg, h[i]) ==> v <= Speed(h[i]))
      && (exists i :: 0 <= i < |h| && Mid(leg, h[i]) && Speed(h[i]) == v)
  }

  // ---- runs while the history grows ----

  // Where the run that the history ends in starts; |h| when the last sample is not slow.
  ghost function OpenRun(leg: Leg, h: seq<Sample>): (i: nat)
    ensures i <= |h| && (forall k :: i <= k < |h| ==> Slow(leg, h[k])) && (i > 0 ==> !Slow(leg, h[i - 1]))
  {
    if h == [] || !Slow(leg, h[|h| - 1]) then |h| else OpenRun(leg, h[..|h| - 1])
  }

  // The only run that reaches the end is the open one.
  lemma LastRun(leg: Leg, h: seq<Sample>, i: nat)
    ensures IsRun(leg, h, i, |h|) <==> i < |h| && i == OpenRun(leg, h)
  {
    hide Slow;
  }

  // A run the new sample does not touch stays as it is.
  lemma RunKept(leg: Leg, h: seq<Sample>, s: Sample, i: nat, j: nat)
    requires j < |h| || (j == |h| && !Slow(leg, s))
    ensures IsRun(leg, h + [s], i, j) == IsRun(leg, h, i, j)
    ensures Lasts(h + [s], i, j) == Lasts(h, i, j)
  {
    hide Slow;
    var g := h + [s];
    assert forall k :: 0 <= k < |h| ==> g[k] == h[k];
  }

  // A sample that is not slow closes the open run and changes no stop.
  lemma StopsClosed(leg: Leg, h: seq<Sample>, s: Sample)
    requires !Slow(leg, s)
    ensures Stops(leg, h + [s]) == Stops(leg, h) && OpenRun(leg, h + [s]) == |h| + 1
  {
    hide Slow, Lasts;
    var g := h + [s];
    assert g[|h|] == s;
    forall i: nat
      ensures i in Stops(leg, g) <==> i in Stops(leg, h)
    {
      forall j: nat
        ensures IsRun(leg, g, i, j) && Lasts(g, i, j) <==> IsRun(leg, h, i, j) && Lasts(h, i, j)
      {
        if j <= |h| {
          RunKept(leg, h, s, i, j);
        }
      }
    }
  }

  // Other than from the open run, a slow sample makes and ends no stop.
  lemma OtherStops(leg: Leg, h: seq<Sample>, s: Sample, i: nat)
    requires Slow(leg, s) && i < |h| && i != OpenRun(leg, h)
    ensures IsStop(leg, h + [s], i) == IsStop(leg, h, i)
  {
    OpenExtends(leg, h, s);
    hide Slow, Lasts, OpenRun;
    var g := h + [s];
    LastRun(leg, h, i);
    LastRun(leg, g, i);
    assert g[|h|] == s;
    forall j: nat
      ensures IsRun(leg, g, i, j) && Lasts(g, i, j) <==> IsRun(leg, h, i, j) && Lasts(h, i, j)
    {
      if j < |h| {
        RunKept(leg, h, s, i, j);
      }
    }
  }

  lemma OpenExtends(leg: Leg, h: seq<Sample>, s: Sample)
    requires Slow(leg, s)
    ensures OpenRun(leg, h + [s]) == OpenRun(leg, h)
  {
    hide Slow;
    assert (h + [s])[..|h|] == h;
  }

  // The open run is a stop when it lasts.
  lemma OpenStop(leg: Leg, h: seq<Sample>)
    requires OpenRun(leg, h) < |h|
    ensures IsStop(leg, h, OpenRun(leg, h)) == Lasts(h, OpenRun(leg, h), |h|)
  {
    hide Slow, Lasts, OpenRun;
    var i := OpenRun(leg, h);
    LastRun(leg, h, i);
    if IsStop(leg, h, i) {
      var j: nat :| IsRun(leg, h, i, j) && Lasts(h, i, j);
      SameEnd(leg, h, i, j, |h|);
    }
  }

  // A run is determined by its start.
  lemma SameEnd(leg: Leg, h: seq<Sample>, i: nat, j: nat, k: nat)
    requires IsRun(leg, h, i, j) && IsRun(leg, h, i, k)
    ensures j == k
  {
    hide Slow;
  }

  // A slow sample extends the open run, which becomes a stop when it lasts long enough.
  lemma StopsOpen(leg: Leg, h: seq<Sample>, s: Sample)
    requires Slow(leg, s)
    ensures var o := OpenRun(leg, h);
            Stops(leg, h + [s]) == Stops(leg, h) + if Lasts(h + [s], o, |h| + 1) then {o} else {}
    ensures OpenRun(leg, h) in Stops(leg, h) <==> Lasts(h, OpenRun(leg, h), |h|)
  {
    var g, o := h + [s], OpenRun(leg, h);
    OpenExtends(leg, h, s);
    OpenStop(leg, g);
    if o < |h| { OpenStop(leg, h); }
    LastsOn(h, s, o);
    hide Slow, Lasts, OpenRun, IsStop;
    forall i | 0 <= i < |h| && i != o
      ensures IsStop(leg, g, i) == IsStop(leg, h, i)
    {
      OtherStops(leg, h, s, i);
    }
  }

  lemma LastsOn(h: seq<Sample>, s: Sample, i: nat)
    requires i <= |h|
    ensures Lasts(h + [s], i, |h| + 1) <==> i < |h| && (Lasts(h, i, |h|) || s.t - h[i].t >= STOP_HOLD)
    ensures Lasts(h, i, |h|) ==> i < |h|
  {
    var g := h + [s];
    assert forall k :: 0 <= k < |h| ==> g[k] == h[k];
    assert g[|h|] == s;
  }

  // With times in order the stops are the maximal slow runs whose last sample is at least
  // STOP_HOLD after their first.
  lemma StopsAreLongRuns(leg: Leg, h: seq<Sample>, i: nat)
    requires forall k, l :: 0 <= k <= l < |h| ==> h[k].t <= h[l].t
    ensures i in Stops(leg, h) <==> exists j: nat :: IsRun(leg, h, i, j) && h[j - 1].t - h[i].t >= STOP_HOLD
  {
    hide Slow;
    forall j: nat | IsRun(leg, h, i, j)
      ensures Lasts(h, i, j) <==> h[j - 1].t - h[i].t >= STOP_HOLD
    {
    }
  }

  // The first time, the last time and the last position.
  ghost predicate AreEnds(h: seq<Sample>, t0: Option<real>, tEnd: Option<real>, lastAt: Option<Point>) {
    if h == [] then t0 == None && tEnd == None && lastAt == None
    else t0 == Some(h[0].t) && tEnd == Some(h[|h| - 1].t) && lastAt == Some(h[|h| - 1].at)
  }

  lemma EndsStep(h: seq<Sample>, t0: Option<real>, tEnd: Option<real>, lastAt: Option<Point>, s: Sample)
    requires AreEnds(h, t0, tEnd, lastAt)
    ensures AreEnds(h + [s], if t0 == None then Some(s.t) else t0, Some(s.t), Some(s.at))
  {
    assert h != [] ==> (h + [s])[0] == h[0];
  }

  // The stops counted so far, and the open run: since when, and whether it counts already.
  ghost predicate AreStops(leg: Leg, h: seq<Sample>, stops: nat, since: Option<real>, counted: bool) {
    var o := OpenRun(leg, h);
    && stops == |Stops(leg, h)|
    && since == (if o < |h| then Some(h[o].t) else None)
    && (o < |h| ==> counted == Lasts(h, o, |h|))
  }

  lemma StopsStep(leg: Leg, h: seq<Sample>, stops: nat, since: Option<real>, counted: bool, s: Sample)
    requires AreStops(leg, h, stops, since, counted)
    ensures !Slow(leg, s) ==> AreStops(leg, h + [s], stops, None, counted)
    ensures Slow(leg, s) && since == None ==> AreStops(leg, h + [s], stops, Some(s.t), false)
    ensures Slow(leg, s) && since != None ==>
              var last := counted || s.t - since.value >= STOP_HOLD;
              AreStops(leg, h + [s], stops + (if last && !counted then 1 else 0), since, last)
  {
    var g, o := h + [s], OpenRun(leg, h);
    if Slow(leg, s) {
      StopsOpen(leg, h, s);
      OpenExtends(leg, h, s);
      LastsOn(h, s, o);
      assert g[|h|] == s && (o < |h| ==> g[o] == h[o]);
    } else {
      StopsClosed(leg, h, s);
    }
    hide Slow, OpenRun, Lasts, Stops;
  }

  lemma GreatestStep(h: seq<Sample>, f: Sample -> real, x: real, s: Sample)
    requires IsGreatest(h, f, x)
    ensures IsGreatest(h + [s], f, Max(x, f(s)))
  {
    var g := h + [s];
    assert g[|h|] == s && forall i :: 0 <= i < |h| ==> g[i] == h[i];
  }

  lemma LeastMidStep(leg: Leg, h: seq<Sample>, x: Option<real>, s: Sample)
    requires IsLeastMid(leg, h, x)
    ensures !Mid(leg, s) ==> IsLeastMid(leg, h + [s], x)
    ensures Mid(leg, s) ==> IsLeastMid(leg, h + [s], Some(if x == None then Speed(s) else Min(x.value, Speed(s))))
  {
    hide Mid;
    var g := h + [s];
    assert g[|h|] == s && forall i :: 0 <= i < |h| ==> g[i] == h[i];
  }

  // ---- the statistics ----

  class LegStats {
    const leg: Leg
    var t0: Option<real>
    var tEnd: Option<real>
    var vMax: real
    var vMinCruise: Option<real>
    var steerMax: real
    var stops: nat
    var stoppedSince: Option<real>
    var counted: bool
    var lastAt: Option<Point>

    // The samples so far.
    ghost var history: seq<Sample>

    ghost predicate Valid()
      reads this
    {
      && AreEnds(history, t0, tEnd, lastAt)
      && IsGreatest(history, Speed, vMax) && IsGreatest(history, Steer, steerMax)
      && IsLeastMid(leg, history, vMinCruise)
      && AreStops(leg, history, stops, stoppedSince, counted)
    }

    constructor (start: Point, goal: Point, margin: real)
      ensures Valid() && history == [] && leg == Leg(start, goal, margin)
    {
      leg := Leg(start, goal, margin);
      t0, tEnd, lastAt, vMinCruise, stoppedSince := None, None, None, None, None;
      vMax, steerMax, stops, counted := 0.0, 0.0, 0, false;
      history := [];
    }

    method Add(t: real, x: real, y: real, v: real, steer: real)
      requires Valid()
      modifies this
      ensures Valid() && history == old(history) + [Sample(t, Point(x, y), v, steer)]
    {
      hide AreEnds, AreStops, IsGreatest, IsLeastMid, Farther;
      ghost var s := Sample(t, Point(x, y), v, steer);
      EndsStep(history, t0, tEnd, lastAt, s);
      var at := Point(x, y);
      if t0 == None {
        t0 := Some(t);
      }
      tEnd, lastAt := Some(t), Some(at);
      var mid := Farther(at, leg.start, leg.margin) && Farther(at, leg.goal, leg.margin);
      NoteExtremes(Abs(v), Abs(steer), mid, s);
      NoteStop(t, mid && Abs(v) < STOP_SPEED, s);
      history := history + [s];
    }

    // The part of Add that keeps the extremes; mid says whether this sample is mid-leg.
    method NoteExtremes(speed: real, turn: real, mid: bool, ghost s: Sample)
      requires IsGreatest(history, Speed, vMax) && IsGreatest(history, Steer, steerMax)
      requires IsLeastMid(leg, history, vMinCruise)
      requires speed == Speed(s) && turn == Steer(s) && mid == Mid(leg, s)
      modifies `vMax, `steerMax, `vMinCruise
      ensures IsGreatest(history + [s], Speed, vMax) && IsGreatest(history + [s], Steer, steerMax)
      ensures IsLeastMid(leg, history + [s], vMinCruise)
    {
      GreatestStep(history, Speed, vMax, s);
      GreatestStep(history, Steer, steerMax, s);
      LeastMidStep(leg, history, vMinCruise, s);
      hide IsGreatest, IsLeastMid, Mid;
      vMax := Max(vMax, speed);
      steerMax := Max(steerMax, turn);
      if mid {
        vMinCruise := Some(if vMinCruise == None then speed else Min(vMinCruise.value, speed));
      }
    }

    // The part of Add that counts stops; slow says whether this sample is slow.
    method NoteStop(t: real, slow: bool, ghost s: Sample)
      requires AreStops(leg, history, stops, stoppedSince, counted)
      requires s.t == t && slow == Slow(leg, s)
      modifies `stops, `stoppedSince, `counted
      ensures AreStops(leg, history + [s], stops, stoppedSince, counted)
    {
      StopsStep(leg, history, stops, stoppedSince, counted, s);
      hide AreStops, Slow;
      if slow {
        if stoppedSince == None {
          stoppedSince, counted := Some(t), false;
        } else if !counted && t - stoppedSince.value >= STOP_HOLD {
          stops := stops + 1;
          counted := true;
        }
      } else {
        stoppedSince := None;
      }
    }
  }
}
