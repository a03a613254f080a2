// What every sequence of setup runs keeps, whatever fails and wherever a run is cut short
// (setup/main.py, setup/golfcart_setup/runner.py).

module SetupProperties {
  import opened SetupState
  import opened SetupRunner

  // A run of a profile, or of all steps, that stops at the first failure.
  predicate IsProfileRun(args: Args) {
    args.only == [] && args.skip == [] && !args.keepGoing
  }

  // One run from what is recorded; nothing runs when the selection is refused.
  ghost function OneRun(registry: seq<Step>, args: Args, records: Records, outcomes: seq<Outcome>): Run
    requires |outcomes| >= |registry|
  {
    match Selected(registry, args, records)
    case Steps(steps) =>
      InOrderLength(registry, Chosen(registry, args, records));
      RunOf(records, steps, outcomes, args.keepGoing, |steps|)
    case _ => Run(records, [], 0, false, false)
  }

  lemma {:induction false} InOrderLength(registry: seq<Step>, selected: set<string>)
    ensures |InOrder(registry, selected)| <= |registry|
  {
    if registry != [] {
      InOrderLength(registry[..|registry| - 1], selected);
    }
  }

  // ---- order ----

  // A step of the ordered selection is a selected registry step.
  lemma {:induction false} InOrderFrom(registry: seq<Step>, selected: set<string>, k: nat) returns (i: nat)
    requires k < |InOrder(registry, selected)|
    ensures i < |registry| && InOrder(registry, selected)[k] == registry[i] && registry[i].id in selected
  {
    var m := |registry| - 1;
    if k < |InOrder(registry[..m], selected)| {
      i := InOrderFrom(registry[..m], selected, k);
    } else {
      i := m;
    }
  }

  // A selected registry step is in the ordered selection, and the order is the registry's.
  lemma {:induction false} InOrderAt(registry: seq<Step>, selected: set<string>, i: nat) returns (k: nat)
    requires i < |registry| && registry[i].id in selected
    ensures k < |InOrder(registry, selected)| && InOrder(registry, selected)[k] == registry[i]
    ensures k == |InOrder(registry[..i], selected)|
    decreases |registry|
  {
    var m := |registry| - 1;
    if i < m {
      k := InOrderAt(registry[..m], selected, i);
      assert registry[..m][..i] == registry[..i];
    } else {
      k := |InOrder(registry[..m], selected)|;
    }
  }

  lemma {:induction false} InOrderUnique(registry: seq<Step>, selected: set<string>)
    requires IsRegistry(registry)
    ensures IsRegistry(InOrder(registry, selected))
  {
    if registry != [] {
      var m := |registry| - 1;
      InOrderUnique(registry[..m], selected);
      var front := InOrder(registry[..m], selected);
      forall k | 0 <= k < |front|
        ensures front[k].id != registry[m].id
      {
        var i := InOrderFrom(registry[..m], selected, k);
        assert registry[i] == registry[..m][i];
      }
    }
  }

  lemma {:induction false} InOrderMonotone(registry: seq<Step>, selected: set<string>, i: nat, j: nat)
    requires i <= j <= |registry|
    ensures |InOrder(registry[..i], selected)| <= |InOrder(registry[..j], selected)|
    ensures i < j && registry[i].id in selected ==>
              |InOrder(registry[..i], selected)| < |InOrder(registry[..j], selected)|
    decreases j - i
  {
    if i < j {
      InOrderMonotone(registry, selected, i, j - 1);
      assert registry[..j][..j - 1] == registry[..j - 1];
    }
  }

  // ---- inside one run ----

  // While nothing has failed, the steps so far are recorded done and nothing else has changed.
  lemma {:induction false} SoFarSoGood(records: Records, steps: seq<Step>, outcomes: seq<Outcome>, k: nat)
    requires k <= |steps| <= |outcomes| && IsRegistry(steps)
    requires var r := RunOf(records, steps, outcomes, false, k); !r.cut && r.failures == 0
    ensures var r := RunOf(records, steps, outcomes, false, k);
            && (forall j :: 0 <= j < k ==>
                steps[j].id in r.records && r.records[steps[j].id] == Record(OK, steps[j].digest))
            && (forall id :: (forall j :: 0 <= j < k ==> steps[j].id != id) ==>
                               (id in r.records <==> id in records) && (id in records ==> r.records[id] == records[id]))
  {
    if k > 0 {
      SoFarSoGood(records, steps, outcomes, k - 1);
      assert outcomes[k - 1] == Success;
    }
  }

  // Steps are started in order, each from what the successes before it recorded.
  lemma {:induction false} StartedAt(records: Records, steps: seq<Step>, outcomes: seq<Outcome>, k: nat, i: nat)
    requires k <= |steps| <= |outcomes| && i < |RunOf(records, steps, outcomes, false, k).started|
    ensures i < k && var p := RunOf(records, steps, outcomes, false, i);
                     !p.cut && p.failures == 0
                     && RunOf(records, steps, outcomes, false, k).started[i] == Started(steps[i], p.records)
    decreases k
  {
    StartedCount(records, steps, outcomes, k - 1);
    if i < |RunOf(records, steps, outcomes, false, k - 1).started| {
      StartedAt(records, steps, outcomes, k - 1, i);
    }
  }

  lemma {:induction false} StartedCount(records: Records, steps: seq<Step>, outcomes: seq<Outcome>, k: nat)
    requires k <= |steps| <= |outcomes|
    ensures var r := RunOf(records, steps, outcomes, false, k);
            |r.started| <= k && (!r.cut && r.failures == 0 ==> |r.started| == k)
  {
    if k > 0 {
      StartedCount(records, steps, outcomes, k - 1);
    }
  }

  // What is not among the steps of a run keeps its record through failures too.
  lemma {:induction false} OthersUntouched(records: Records, steps: seq<Step>, outcomes: seq<Outcome>,
                                           keepGoing: bool, k: nat, id: string)
    requires k <= |steps| <= |outcomes| && forall j :: 0 <= j < |steps| ==> steps[j].id != id
    ensures var r := RunOf(records, steps, outcomes, keepGoing, k).records;
            (id in r <==> id in records) && (id in records ==> r[id] == records[id])
  {
    if k > 0 {
      OthersUntouched(records, steps, outcomes, keepGoing, k - 1, id);
    }
  }

  // The run goes no further after a step that goes so.
  predicate EndsRun(o: Outcome, keepGoing: bool) {
    o == Interrupted || (o == Failure && !keepGoing)
  }

  ghost function Failures(outcomes: seq<Outcome>, n: nat): set<nat>
    requires n <= |outcomes|
  {
    set i: nat | i < n && outcomes[i] == Failure
  }

  lemma OneMoreFailure(outcomes: seq<Outcome>, n: nat)
    requires n < |outcomes|
    ensures |Failures(outcomes, n + 1)| == |Failures(outcomes, n)| + if outcomes[n] == Failure then 1 else 0
  {
    assert Failures(outcomes, n + 1) == Failures(outcomes, n) + if outcomes[n] == Failure then {n} else {};
  }

  // n steps were started: all of the first k, or up to one that ended the run.
  ghost predicate IsStartedTo(outcomes: seq<Outcome>, keepGoing: bool, k: nat, n: nat)
    requires k <= |outcomes|
  {
    && n <= k && (forall i :: 0 <= i < n - 1 ==> !EndsRun(outcomes[i], keepGoing))
    && (n < k ==> n > 0 && EndsRun(outcomes[n - 1], keepGoing))
  }

  lemma StartedSome(outcomes: seq<Outcome>, keepGoing: bool, k: nat, n: nat)
    requires k <= |outcomes| && IsStartedTo(outcomes, keepGoing, k, n)
    ensures n <= k && (n < k ==> n > 0 && EndsRun(outcomes[n - 1], keepGoing))
  {
  }

  lemma OneMoreStarted(outcomes: seq<Outcome>, keepGoing: bool, k: nat)
    requires k < |outcomes| && IsStartedTo(outcomes, keepGoing, k, k) && !(k > 0 && EndsRun(outcomes[k - 1], keepGoing))
    ensures IsStartedTo(outcomes, keepGoing, k + 1, k + 1)
  {
  }

  lemma NoneMoreStarted(outcomes: seq<Outcome>, keepGoing: bool, k: nat, n: nat)
    requires k < |outcomes| && IsStartedTo(outcomes, keepGoing, k, n) && n > 0 && EndsRun(outcomes[n - 1], keepGoing)
    ensures IsStartedTo(outcomes, keepGoing, k + 1, n)
  {
  }

  lemma RunNone(records: Records, steps: seq<Step>, outcomes: seq<Outcome>, keepGoing: bool, s: Step)
    requires |steps| <= |outcomes|
    ensures RunOf(records, steps, outcomes, keepGoing, 0) == Run(records, [], 0, false, false)
    ensures SameRecord(records, records, s.id)
  {
  }

  lemma RunStep(records: Records, steps: seq<Step>, outcomes: seq<Outcome>, keepGoing: bool, k: nat)
    requires 0 < k <= |steps| <= |outcomes|
    ensures var r := RunOf(records, steps, outcomes, keepGoing, k - 1);
            var next, s, o := RunOf(records, steps, outcomes, keepGoing, k), steps[k - 1], outcomes[k - 1];
            if r.cut || (r.failures > 0 && !keepGoing) then next == r
            else next == Run(Marked(r.records, s, o), r.started + [Started(s, r.records)],
                             r.failures + (if o == Failure then 1 else 0), o == Interrupted, r.saved
                             || o != Interrupted)
  {
  }

  // What the first k steps of a run come to: they are started in order up to the first that ends the
  // run, failures are counted, and the file is written as soon as one is not interrupted.
  lemma {:induction false} RunMeans(records: Records, steps: seq<Step>, outcomes: seq<Outcome>, keepGoing: bool, k: nat)
    requires k <= |steps| <= |outcomes|
    ensures var r := RunOf(records, steps, outcomes, keepGoing, k);
            var n := |r.started|;
            && IsStartedTo(outcomes, keepGoing, k, n) && (forall i :: 0 <= i < n ==> r.started[i].step == steps[i])
            && r.cut == (n > 0 && outcomes[n - 1] == Interrupted)
            && r.failures == |Failures(outcomes, n)|
            && r.saved == (exists i :: 0 <= i < n && outcomes[i] != Interrupted)
  {
    if k > 0 {
      hide RunOf, IsStartedTo, Failures, Marked;
      RunMeans(records, steps, outcomes, keepGoing, k - 1);
      StartedSome(outcomes, keepGoing, k - 1, |RunOf(records, steps, outcomes, keepGoing, k - 1).started|);
      var before := RunOf(records, steps, outcomes, keepGoing, k - 1);
      var n := |before.started|;
      HasEnded(outcomes, keepGoing, k - 1, n);
      if n > 0 && EndsRun(outcomes[n - 1], keepGoing) {
        NoneMoreStarted(outcomes, keepGoing, k - 1, n);
      } else {
        assert n == k - 1;
        OneMoreStarted(outcomes, keepGoing, n);
        OneMoreFailure(outcomes, n);
      }
      RunStep(records, steps, outcomes, keepGoing, k);
    }
  }

  // A run has ended exactly when it was cut short or, unless it keeps going, has a failure.
  lemma HasEnded(outcomes: seq<Outcome>, keepGoing: bool, k: nat, n: nat)
    requires k <= |outcomes| && IsStartedTo(outcomes, keepGoing, k, n)
    ensures (n > 0 && outcomes[n - 1] == Interrupted) || (|Failures(outcomes, n)| > 0 && !keepGoing)
            <==> n > 0 && EndsRun(outcomes[n - 1], keepGoing)
  {
    if |Failures(outcomes, n)| > 0 {
      var i: nat :| i in Failures(outcomes, n);
    }
    if n > 0 && outcomes[n - 1] == Failure {
      assert n - 1 in Failures(outcomes, n);
    }
  }

  ghost predicate SameRecord(before: Records, after: Records, id: string) {
    (id in after <==> id in before) && (id in before ==> after[id] == before[id])
  }

  // The step is recorded as a success or a failure with its digest, or as it was when interrupted.
  ghost predicate IsRecorded(before: Records, after: Records, s: Step, o: Outcome) {
    match o
    case Success => s.id in after && after[s.id] == Record(OK, s.digest)
    case Failure => s.id in after && after[s.id] == Record(FAILED, s.digest)
    case Interrupted => SameRecord(before, after, s.id)
  }

  lemma MarkedIs(before: Records, r: Records, s: Step, o: Outcome, t: Step, p: Outcome)
    ensures SameRecord(before, r, s.id) ==> IsRecorded(before, Marked(r, s, o), s, o)
    ensures t.id != s.id && IsRecorded(before, r, t, p) ==> IsRecorded(before, Marked(r, s, o), t, p)
    ensures t.id != s.id && SameRecord(before, r, t.id) ==> SameRecord(before, Marked(r, s, o), t.id)
  {
  }

  // Every step that was started is recorded so, and no other step of the run has a new record.
  lemma {:induction false} RecordedAfter(records: Records, steps: seq<Step>, outcomes: seq<Outcome>, keepGoing: bool,
                                         k: nat, i: nat)
    requires k <= |steps| <= |outcomes| && IsRegistry(steps) && i < |steps|
    ensures var r := RunOf(records, steps, outcomes, keepGoing, k);
            && |r.started| <= k
            && (i < |r.started| ==> IsRecorded(records, r.records, steps[i], outcomes[i]))
            && (i >= |r.started| ==> SameRecord(records, r.records, steps[i].id))
  {
    hide IsStartedTo, Failures, RunOf, IsRecorded, SameRecord, Marked, EndsRun;
    RunNone(records, steps, outcomes, keepGoing, steps[i]);
    if k > 0 {
      assert i != k - 1 ==> steps[i].id != steps[k - 1].id;
      hide IsRegistry;
      RecordedAfter(records, steps, outcomes, keepGoing, k - 1, i);
      RunMeans(records, steps, outcomes, keepGoing, k - 1);
      RunStep(records, steps, outcomes, keepGoing, k);
      var before := RunOf(records, steps, outcomes, keepGoing, k - 1);
      HasEnded(outcomes, keepGoing, k - 1, |before.started|);
      StartedSome(outcomes, keepGoing, k - 1, |before.started|);
      MarkedIs(records, before.records, steps[k - 1], outcomes[k - 1], steps[i], outcomes[i]);
    }
  }

  // ---- the properties ----

  // The last run of the step succeeded, and what it would do has not changed since.
  ghost predicate IsDone(records: Records, s: Step) {
    s.id in records && records[s.id] == Record(OK, s.digest)
  }

  // The step is declared for the profile of the run, or all steps are asked for.
  ghost predicate IsAskedFor(args: Args, s: Step) {
    args.all || args.profile == "all" || (args.profile != "none" && args.profile in s.profiles)
  }

  // What a run without named steps selects: unless forced, exactly the steps asked for that are not
  // done, less the skipped ones.
  lemma SelectedExactly(registry: seq<Step>, args: Args, records: Records, s: Step)
    requires IsRegistry(registry) && args.only == [] && Selected(registry, args, records).Steps? && s in registry
    ensures s in Selected(registry, args, records).steps <==>
              IsAskedFor(args, s) && s.id !in args.skip && (args.force || !IsDone(records, s))
  {
    var chosen := Chosen(registry, args, records);
    var d: nat :| d < |registry| && registry[d] == s;
    StatusMeans(records, s.id, s.digest);
    if s.id in chosen {
      var k := InOrderAt(registry, chosen, d);
      assert InOrder(registry, chosen)[k] == s;
    }
    if s in InOrder(registry, chosen) {
      var k: nat :| k < |InOrder(registry, chosen)| && InOrder(registry, chosen)[k] == s;
      var i := InOrderFrom(registry, chosen, k);
    }
  }

  // And in the registry's order.
  lemma SelectedInOrder(registry: seq<Step>, args: Args, records: Records, k: nat, l: nat) returns (i: nat, j: nat)
    requires IsRegistry(registry) && Selected(registry, args, records).Steps?
    requires k < l < |Selected(registry, args, records).steps|
    ensures var steps := Selected(registry, args, records).steps;
            i < j < |registry| && steps[k] == registry[i] && steps[l] == registry[j]
  {
    var chosen := Chosen(registry, args, records);
    i := InOrderFrom(registry, chosen, k);
    j := InOrderFrom(registry, chosen, l);
    InOrderUnique(registry, chosen);
    var a := InOrderAt(registry, chosen, i);
    var b := InOrderAt(registry, chosen, j);
    assert a == k && b == l;
    if j <= i {
      InOrderMonotone(registry, chosen, j, i);
    }
  }

  // Whenever a step starts, every step it must follow that the profile wants is recorded done
  // with its current digest.
  lemma DependenciesDone(registry: seq<Step>, args: Args, records: Records, outcomes: seq<Outcome>, i: nat, dep: Step)
    requires |outcomes| >= |registry| && IsRegistry(registry) && IsProfileRun(args)
    requires i < |OneRun(registry, args, records, outcomes).started|
    requires dep in registry && IsAskedFor(args, dep)
    requires dep.id in OneRun(registry, args, records, outcomes).started[i].step.after
    ensures IsDone(OneRun(registry, args, records, outcomes).started[i].records, dep)
  {
    var chosen := Chosen(registry, args, records);
    var steps := InOrder(registry, chosen);
    InOrderLength(registry, chosen);
    InOrderUnique(registry, chosen);
    StartedAt(records, steps, outcomes, |steps|, i);
    SoFarSoGood(records, steps, outcomes, i);
    StatusMeans(records, dep.id, dep.digest);
    var d: nat :| d < |registry| && registry[d] == dep;
    if dep.id in chosen {
      var at := InOrderFrom(registry, chosen, i);
      assert RespectsAfter(registry, chosen);
      var j: nat :| j < at && registry[j].id == dep.id;
      assert j == d;
      PlacedBefore(registry, chosen, d, at, i);
    } else {
      assert IsDone(records, dep);
      NotInOrder(registry, chosen, dep.id);
    }
  }

  lemma NotInOrder(registry: seq<Step>, selected: set<string>, id: string)
    requires id !in selected
    ensures forall k :: 0 <= k < |InOrder(registry, selected)| ==> InOrder(registry, selected)[k].id != id
  {
    forall k | 0 <= k < |InOrder(registry, selected)|
      ensures InOrder(registry, selected)[k].id != id
    {
      var j := InOrderFrom(registry, selected, k);
    }
  }

  // In the ordered selection an earlier registry step comes earlier.
  lemma PlacedBefore(registry: seq<Step>, selected: set<string>, d: nat, at: nat, i: nat)
    requires IsRegistry(registry) && d < at < |registry| && registry[d].id in selected && registry[at].id in selected
    requires i < |InOrder(registry, selected)| && InOrder(registry, selected)[i] == registry[at]
    ensures exists k :: 0 <= k < i && InOrder(registry, selected)[k] == registry[d]
  {
    var k := InOrderAt(registry, selected, d);
    var l := InOrderAt(registry, selected, at);
    InOrderMonotone(registry, selected, d, at);
    InOrderUnique(registry, selected);
    assert l == i;
  }

  // Unless forced, a step that is done is not started again, and nothing done is undone.
  lemma DoneStaysDone(registry: seq<Step>, args: Args, records: Records, outcomes: seq<Outcome>, s: Step)
    requires |outcomes| >= |registry| && IsRegistry(registry) && IsProfileRun(args) && !args.force
    requires s in registry && IsDone(records, s)
    ensures IsDone(OneRun(registry, args, records, outcomes).records, s)
    ensures forall i :: 0 <= i < |OneRun(registry, args, records, outcomes).started| ==>
                          OneRun(registry, args, records, outcomes).started[i].step.id != s.id
  {
    if Selected(registry, args, records).Steps? {
      var chosen := Chosen(registry, args, records);
      var steps := InOrder(registry, chosen);
      InOrderLength(registry, chosen);
      var d: nat :| d < |registry| && registry[d] == s;
      StatusMeans(records, s.id, s.digest);
      assert s.id !in chosen;
      forall k | 0 <= k < |steps|
        ensures steps[k].id != s.id
      {
        var i := InOrderFrom(registry, chosen, k);
      }
      OthersUntouched(records, steps, outcomes, false, |steps|, s.id);
      forall i | 0 <= i < |OneRun(registry, args, records, outcomes).started|
        ensures OneRun(registry, args, records, outcomes).started[i].step.id != s.id
      {
        StartedAt(records, steps, outcomes, |steps|, i);
      }
    }
  }

  // A run that nothing failed and nothing cut short leaves nothing to select.
  lemma CleanRunLeavesNothing(registry: seq<Step>, args: Args, records: Records, outcomes: seq<Outcome>)
    requires |outcomes| >= |registry| && IsRegistry(registry) && IsProfileRun(args)
    requires Selected(registry, args, records).Steps?
    requires var r := OneRun(registry, args, records, outcomes); r.failures == 0 && !r.cut
    ensures var r := OneRun(registry, args, records, outcomes);
            Selected(registry, args.(force := false), r.records) == Steps([])
  {
    var chosen := Chosen(registry, args, records);
    var steps := InOrder(registry, chosen);
    InOrderLength(registry, chosen);
    InOrderUnique(registry, chosen);
    SoFarSoGood(records, steps, outcomes, |steps|);
    var r := OneRun(registry, args, records, outcomes);
    forall i | 0 <= i < |registry| && Wanted(args, registry[i])
      ensures IsDone(r.records, registry[i])
    {
      if registry[i].id in chosen {
        var k := InOrderAt(registry, chosen, i);
        assert steps[k] == registry[i];
      } else {
        StatusMeans(records, registry[i].id, registry[i].digest);
        NotInOrder(registry, chosen, registry[i].id);
      }
      StatusMeans(r.records, registry[i].id, registry[i].digest);
    }
    assert Chosen(registry, args.(force := false), r.records) == {};
    NothingInOrder(registry);
  }

  lemma {:induction false} NothingInOrder(registry: seq<Step>)
    ensures InOrder(registry, {}) == []
  {
    if registry != [] {
      NothingInOrder(registry[..|registry| - 1]);
    }
  }

  // ---- sequences of runs ----

  datatype Attempt = Attempt(args: Args, outcomes: seq<Outcome>)

  ghost predicate AreAttempts(registry: seq<Step>, attempts: seq<Attempt>) {
    forall k :: 0 <= k < |attempts| ==> |attempts[k].outcomes| >= |registry| && IsProfileRun(attempts[k].args)
  }

  // What is recorded after the first runs, each starting from what the one before left in the
  // file.
  ghost function After(registry: seq<Step>, records: Records, attempts: seq<Attempt>): Records
    requires AreAttempts(registry, attempts)
  {
    if attempts == [] then records
    else
      var k := |attempts| - 1;
      OneRun(registry, attempts[k].args, After(registry, records, attempts[..k]), attempts[k].outcomes).records
  }

  ghost predicate NoneForced(attempts: seq<Attempt>) {
    forall k :: 0 <= k < |attempts| ==> !attempts[k].args.force
  }

  // Over any sequence of unforced runs the done steps only grow ...
  lemma {:induction false} DoneOnlyGrows(registry: seq<Step>, records: Records, attempts: seq<Attempt>, s: Step)
    requires IsRegistry(registry) && AreAttempts(registry, attempts) && NoneForced(attempts)
    requires s in registry && IsDone(records, s)
    ensures IsDone(After(registry, records, attempts), s)
    decreases |attempts|
  {
    if attempts != [] {
      var k := |attempts| - 1;
      DoneOnlyGrows(registry, records, attempts[..k], s);
      DoneStaysDone(registry, attempts[k].args, After(registry, records, attempts[..k]), attempts[k].outcomes, s);
    }
  }

  // ... and once a step is done no later run of the sequence starts it again.
  lemma NeverStartedAgain(registry: seq<Step>, records: Records, attempts: seq<Attempt>, s: Step, i: nat, j: nat)
    requires IsRegistry(registry) && AreAttempts(registry, attempts) && NoneForced(attempts)
    requires i <= j < |attempts| && s in registry
    requires IsDone(After(registry, records, attempts[..i]), s)
    ensures var r := OneRun(registry, attempts[j].args, After(registry, records, attempts[..j]), attempts[j].outcomes);
            forall k :: 0 <= k < |r.started| ==> r.started[k].step.id != s.id
  {
    AfterInTwo(registry, records, attempts[..j], i);
    assert attempts[..j][..i] == attempts[..i];
    DoneOnlyGrows(registry, After(registry, records, attempts[..i]), attempts[..j][i..], s);
    DoneStaysDone(registry, attempts[j].args, After(registry, records, attempts[..j]), attempts[j].outcomes, s);
  }

  lemma AttemptsSlice(registry: seq<Step>, attempts: seq<Attempt>, i: nat, j: nat)
    requires AreAttempts(registry, attempts) && i <= j <= |attempts|
    ensures AreAttempts(registry, attempts[i..j])
  {
    hide IsProfileRun;
  }

  lemma AfterLast(registry: seq<Step>, records: Records, attempts: seq<Attempt>)
    requires AreAttempts(registry, attempts) && attempts != []
    ensures var k := |attempts| - 1;
            && |attempts[k].outcomes| >= |registry| && AreAttempts(registry, attempts[..k])
            && After(registry, records, attempts)
               == OneRun(registry, attempts[k].args, After(registry, records, attempts[..k]),
                         attempts[k].outcomes).records
  {
    hide OneRun, IsProfileRun;
  }

  lemma {:induction false} AfterInTwo(registry: seq<Step>, records: Records, attempts: seq<Attempt>, i: nat)
    requires AreAttempts(registry, attempts) && i <= |attempts|
    ensures AreAttempts(registry, attempts[..i]) && AreAttempts(registry, attempts[i..])
    ensures After(registry, records, attempts)
              == After(registry, After(registry, records, attempts[..i]), attempts[i..])
    decreases |attempts|
  {
    hide OneRun, AreAttempts;
    AttemptsSlice(registry, attempts, 0, i);
    AttemptsSlice(registry, attempts, i, |attempts|);
    assert attempts[0..i] == attempts[..i] && attempts[i..|attempts|] == attempts[i..];
    if i == |attempts| {
      assert attempts[..i] == attempts && attempts[i..] == [];
    } else {
      var k := |attempts| - 1;
      var front, tail := attempts[..k], attempts[i..];
      AttemptsSlice(registry, attempts, 0, k);
      assert attempts[0..k] == front;
      AfterLast(registry, records, attempts);
      AfterLast(registry, After(registry, records, attempts[..i]), tail);
      AfterInTwo(registry, records, front, i);
      SliceTwice(attempts, i, k);
      assert front[..i] == attempts[..i];
    }
  }

  lemma SliceTwice<T>(s: seq<T>, i: nat, k: nat)
    requires i <= k <= |s|
    ensures s[..k][i..] == s[i..][..k - i]
  {
  }

  // ---- keeping going ----

  // A run of a profile, or of all steps, past failures.
  predicate IsKeepGoingRun(args: Args) {
    args.only == [] && args.skip == [] && args.keepGoing
  }

  // Whatever happens in the run, every wanted step that a started one must follow is done by then.
  ghost predicate DependenciesAlwaysDone(registry: seq<Step>, args: Args, records: Records) {
    forall outcomes: seq<Outcome>, i, dep ::
      |outcomes| >= |registry| && 0 <= i < |OneRun(registry, args, records, outcomes).started|
      && dep in registry && IsAskedFor(args, dep)
         && dep.id in OneRun(registry, args, records, outcomes).started[i].step.after
      ==> IsDone(OneRun(registry, args, records, outcomes).started[i].records, dep)
  }

  // No step to be run must follow another one to be run.
  ghost predicate NoneFollows(registry: seq<Step>, chosen: set<string>) {
    forall i, d :: 0 <= i < |registry| && registry[i].id in chosen && d in registry[i].after ==> d !in chosen
  }

  // Steps are started in order, each from what the ones before it left recorded.
  lemma {:induction false} StartedFrom(records: Records, steps: seq<Step>, outcomes: seq<Outcome>, k: nat, i: nat)
    requires k <= |steps| <= |outcomes| && i < |RunOf(records, steps, outcomes, true, k).started|
    ensures i < k && RunOf(records, steps, outcomes, true, k).started[i]
                     == Started(steps[i], RunOf(records, steps, outcomes, true, i).records)
    decreases k
  {
    StartedSoFar(records, steps, outcomes, k - 1);
    if i < |RunOf(records, steps, outcomes, true, k - 1).started| {
      StartedFrom(records, steps, outcomes, k - 1, i);
    }
  }

  lemma {:induction false} StartedSoFar(records: Records, steps: seq<Step>, outcomes: seq<Outcome>, k: nat)
    requires k <= |steps| <= |outcomes|
    ensures var r := RunOf(records, steps, outcomes, true, k); |r.started| <= k && (!r.cut ==> |r.started| == k)
  {
    if k > 0 { StartedSoFar(records, steps, outcomes, k - 1); }
  }

  // When all fail, all are started, and recorded as failed.
  lemma {:induction false} AllFail(records: Records, steps: seq<Step>, outcomes: seq<Outcome>, k: nat)
    requires k <= |steps| <= |outcomes| && IsRegistry(steps)
               && forall i :: 0 <= i < |outcomes| ==> outcomes[i] == Failure
    ensures var r := RunOf(records, steps, outcomes, true, k);
            && !r.cut && |r.started| == k
            && forall j :: 0 <= j < k ==> steps[j].id in r.records && r.records[steps[j].id].status == FAILED
  {
    if k > 0 { AllFail(records, steps, outcomes, k - 1); }
  }

  lemma UnchosenIsDone(registry: seq<Step>, args: Args, records: Records, dep: Step)
    requires args.only == [] && args.skip == [] && dep in registry && IsAskedFor(args, dep)
             && dep.id !in Chosen(registry, args, records)
    ensures IsDone(records, dep)
  {
    StatusMeans(records, dep.id, dep.digest);
    var d: nat :| d < |registry| && registry[d] == dep;
  }

  lemma DoneWhenNoneFollows(registry: seq<Step>, args: Args, records: Records, outcomes: seq<Outcome>, i: nat,
                            dep: Step)
    requires |outcomes| >= |registry| && IsRegistry(registry) && IsKeepGoingRun(args)
    requires NoneFollows(registry, Chosen(registry, args, records))
    requires i < |OneRun(registry, args, records, outcomes).started|
    requires dep in registry && IsAskedFor(args, dep)
             && dep.id in OneRun(registry, args, records, outcomes).started[i].step.after
    ensures IsDone(OneRun(registry, args, records, outcomes).started[i].records, dep)
  {
    hide RespectsAfter, Chosen, IsAskedFor;
    var chosen := Chosen(registry, args, records);
    var steps := InOrder(registry, chosen);
    InOrderLength(registry, chosen);
    StartedFrom(records, steps, outcomes, |steps|, i);
    var at := InOrderFrom(registry, chosen, i);
    assert dep.id !in chosen;
    UnchosenIsDone(registry, args, records, dep);
    forall j | 0 <= j < |steps|
      ensures steps[j].id != dep.id
    {
      var a := InOrderFrom(registry, chosen, j);
    }
    OthersUntouched(records, steps, outcomes, true, i, dep.id);
  }

  lemma NotDoneWhenOneFollows(registry: seq<Step>, args: Args, records: Records)
    requires IsRegistry(registry) && IsKeepGoingRun(args) && Selected(registry, args, records).Steps?
    requires !NoneFollows(registry, Chosen(registry, args, records))
    ensures !DependenciesAlwaysDone(registry, args, records)
  {
    var chosen := Chosen(registry, args, records);
    var at, id :| 0 <= at < |registry| && registry[at].id in chosen && id in registry[at].after && id in chosen;
    var d := MustComeBefore(registry, chosen, at, id);
    ChosenIsWanted(registry, args, records, registry[d]);
    hide Chosen, IsAskedFor, RespectsAfter;
    var outcomes, i := StartedThoughFailed(registry, args, records, d, at);
  }

  lemma MustComeBefore(registry: seq<Step>, chosen: set<string>, at: nat, id: string) returns (d: nat)
    requires RespectsAfter(registry, chosen) && at < |registry|
    requires registry[at].id in chosen && id in registry[at].after && id in chosen
    ensures d < at && registry[d].id == id
  {
    d :| d < at && registry[d].id == id;
  }

  // When all fail, a step to be run is started though an earlier one has failed.
  lemma StartedThoughFailed(registry: seq<Step>, args: Args, records: Records, d: nat, at: nat)
    returns (outcomes: seq<Outcome>, i: nat)
    requires IsRegistry(registry) && args.keepGoing && d < at < |registry| && Selected(registry, args, records).Steps?
    requires registry[d].id in Chosen(registry, args, records) && registry[at].id in Chosen(registry, args, records)
    ensures |outcomes| >= |registry|
    ensures var started := OneRun(registry, args, records, outcomes).started;
            i < |started| && started[i].step == registry[at] && !IsDone(started[i].records, registry[d])
  {
    hide Chosen, RespectsAfter;
    var chosen := Chosen(registry, args, records);
    var steps := InOrder(registry, chosen);
    outcomes := seq(|registry|, i => Failure);
    InOrderLength(registry, chosen);
    InOrderUnique(registry, chosen);
    i := InOrderAt(registry, chosen, at);
    PlacedBefore(registry, chosen, d, at, i);
    AllFail(records, steps, outcomes, |steps|);
    AllFail(records, steps, outcomes, i);
    StartedFrom(records, steps, outcomes, |steps|, i);
    hide RunOf, InOrder, IsRegistry;
  }

  lemma ChosenIsWanted(registry: seq<Step>, args: Args, records: Records, s: Step)
    requires IsRegistry(registry) && args.only == [] && s in registry && s.id in Chosen(registry, args, records)
    ensures IsAskedFor(args, s)
  {
    var d: nat :| d < |registry| && registry[d] == s;
    var i: nat :| i < |registry| && registry[i].id == s.id && Wanted(args, registry[i]);
    assert i == d;
  }

  // Past failures the dependencies are respected, whatever fails, if and only if no step to be run
  // must follow another one to be run: the order alone then protects nothing.
  lemma KeepGoingExactly(registry: seq<Step>, args: Args, records: Records)
    requires IsRegistry(registry) && IsKeepGoingRun(args) && Selected(registry, args, records).Steps?
    ensures DependenciesAlwaysDone(registry, args, records) <==> NoneFollows(registry, Chosen(registry, args, records))
  {
    hide OneRun, IsDone, Chosen, Selected, NoneFollows, IsAskedFor;
    if NoneFollows(registry, Chosen(registry, args, records)) {
      forall outcomes: seq<Outcome>, i, dep |
        |outcomes| >= |registry| && 0 <= i < |OneRun(registry, args, records, outcomes).started|
        && dep in registry && IsAskedFor(args, dep)
           && dep.id in OneRun(registry, args, records, outcomes).started[i].step.after
        ensures IsDone(OneRun(registry, args, records, outcomes).started[i].records, dep)
      {
        DoneWhenNoneFollows(registry, args, records, outcomes, i, dep);
      }
    } else {
      NotDoneWhenOneFollows(registry, args, records);
    }
  }

  // One such run: a step is started though the step it must follow has just failed.
  lemma KeepGoingStartsAfterFailure()
    ensures var a, b := Step("a", [], {"ci"}, "1"), Step("b", ["a"], {"ci"}, "2");
            var args := Args("ci", false, false, [], [], true);
            var r := OneRun([a, b], args, map[], [Failure, Success]);
            |r.started| == 2 && r.started[1].step == b && !IsDone(r.started[1].records, a)
  {
    var a, b := Step("a", [], {"ci"}, "1"), Step("b", ["a"], {"ci"}, "2");
    var args := Args("ci", false, false, [], [], true);
    var registry := [a, b];
    assert "a"[0] != "b"[0];
    assert Chosen(registry, args, map[]) == {"a", "b"} by {
      assert registry[0] == a && registry[1] == b && Wanted(args, a) && Wanted(args, b);
      assert "a" in Chosen(registry, args, map[]) && "b" in Chosen(registry, args, map[]);
    }
    assert RespectsAfter(registry, {"a", "b"}) by {
      assert registry[0].id == "a" && registry[1].id == "b";
    }
    TwoInOrder(a, b);
    var outcomes := [Failure, Success];
    hide Chosen, RespectsAfter, InOrder;
    var r1 := RunOf(map[], [a, b], outcomes, true, 1);
    assert r1 == Run(map["a" := Record(FAILED, "1")], [Started(a, map[])], 1, false, true) by {
      assert RunOf(map[], [a, b], outcomes, true, 0) == Run(map[], [], 0, false, false);
    }
  }

  lemma TwoInOrder(a: Step, b: Step)
    requires a.id == "a" && b.id == "b"
    ensures InOrder([a, b], {"a", "b"}) == [a, b]
  {
    assert [a, b][..1] == [a] && [a][..0] == [];
    assert InOrder([a], {"a", "b"}) == InOrder([], {"a", "b"}) + [a];
  }
}
