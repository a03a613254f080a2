// Selecting and running setup steps (setup/main.py, setup/golfcart_setup/registry.py,
// setup/golfcart_setup/runner.py), over any sequence of runs with failures and interruptions.

module SetupRunner {
  import opened SetupState

  // profiles are those that declare the step; `all` and `none` are not declared anywhere.
  datatype Step = Step(id: string, after: seq<string>, profiles: set<string>, digest: string)

  function DefaultFor(s: Step, profile: string): bool {
    if profile == "all" then true else if profile == "none" then false else profile in s.profiles
  }

  ghost predicate IsRegistry(registry: seq<Step>) {
    forall i, j :: 0 <= i < j < |registry| ==> registry[i].id != registry[j].id
  }

  // ---- selection ----

  // Arguments of a run.  An empty only asks for a profile, or for all steps.
  datatype Args = Args(profile: string, all: bool, force: bool, only: seq<string>, skip: seq<string>, keepGoing: bool)

  datatype Selection = Steps(steps: seq<Step>) | Unknown | WrongOrder

  function Wanted(args: Args, s: Step): bool {
    args.all || DefaultFor(s, args.profile)
  }

  function IdSet(ids: seq<string>): set<string> {
    set id | id in ids
  }

  function Ids(registry: seq<Step>): set<string> {
    set i | 0 <= i < |registry| :: registry[i].id
  }

  // What the run would do, before it is put in order.
  function Chosen(registry: seq<Step>, args: Args, records: Records): set<string> {
    if args.only != [] then IdSet(args.only) - IdSet(args.skip)
    else
      (set i | 0 <= i < |registry| && Wanted(args, registry[i])
               && (args.force || StatusIn(records, registry[i].id, registry[i].digest) != Done) :: registry[i].id)
      - IdSet(args.skip)
  }

  // The selected steps in registry order.
  function InOrder(registry: seq<Step>, selected: set<string>): seq<Step> {
    if registry == [] then []
    else
      var s := registry[|registry| - 1];
      InOrder(registry[..|registry| - 1], selected) + if s.id in selected then [s] else []
  }

  // No selected step is listed before a selected step it must follow.
  ghost predicate RespectsAfter(registry: seq<Step>, selected: set<string>) {
    forall i, d :: 0 <= i < |registry| && registry[i].id in selected && d in registry[i].after && d in selected ==>
                     exists j :: 0 <= j < i && registry[j].id == d
  }

  method Ordered(registry: seq<Step>, selected: set<string>) returns (r: Selection)
    ensures r == if RespectsAfter(registry, selected) then Steps(InOrder(registry, selected)) else WrongOrder
  {
    var seen: set<string>, out: seq<Step> := {}, [];
    for k := 0 to |registry|
      invariant out == InOrder(registry[..k], selected)
      invariant forall id :: id in seen <==> id in selected && exists j :: 0 <= j < k && registry[j].id == id
      invariant forall i, d :: 0 <= i < k && registry[i].id in selected && d in registry[i].after && d in selected ==>
                                 exists j :: 0 <= j < i && registry[j].id == d
    {
      assert registry[..k + 1][..k] == registry[..k];
      var s := registry[k];
      if s.id in selected {
        if exists d :: d in s.after && d in selected && d !in seen {
          return WrongOrder;
        }
        seen := seen + {s.id};
        out := out + [s];
      }
    }
    assert registry[..|registry|] == registry;
    r := Steps(out);
  }

  // Everything asked for is known.
  predicate AllKnown(registry: seq<Step>, ids: seq<string>) {
    forall i :: 0 <= i < |ids| ==> ids[i] in Ids(registry)
  }

  ghost function Selected(registry: seq<Step>, args: Args, records: Records): Selection {
    if !AllKnown(registry, args.skip) || !AllKnown(registry, args.only) then Unknown
    else
      var chosen := Chosen(registry, args, records);
      if RespectsAfter(registry, chosen) then Steps(InOrder(registry, chosen)) else WrongOrder
  }

  method Select(registry: seq<Step>, args: Args, state: State) returns (r: Selection)
    ensures r == Selected(registry, args, state.steps)
  {
    if !AllKnown(registry, args.skip) || !AllKnown(registry, args.only) {
      return Unknown;
    }
    var chosen: set<string> := {};
    if args.only != [] {
      chosen := IdSet(args.only);
    } else {
      for k := 0 to |registry|
        invariant chosen == set i | 0 <= i < k && Wanted(args, registry[i])
                                    && (args.force || StatusIn(state.steps, registry[i].id,
                                                               registry[i].digest) != Done) :: registry[i].id
      {
        var s := registry[k];
        if Wanted(args, s) && (args.force || state.StatusOf(s.id, s.digest) != Done) {
          chosen := chosen + {s.id};
        }
      }
    }
    r := Ordered(registry, chosen - IdSet(args.skip));
  }

  // ---- running ----

  // How a step's command may go: it succeeds, fails or cannot be started, or the whole run is
  // cut short while it is at work.
  datatype Outcome = Success | Failure | Interrupted

  // A step that was started, and what was recorded at that moment.
  datatype Started = Started(step: Step, records: Records)

  // saved says whether the file was written.
  datatype Run = Run(records: Records, started: seq<Started>, failures: nat, cut: bool, saved: bool)

  function Marked(records: Records, s: Step, outcome: Outcome): Records {
    match outcome
    case Success => records[s.id := Record(OK, s.digest)]
    case Failure => records[s.id := Record(FAILED, s.digest)]
    case Interrupted => records
  }

  // The first k steps of a list, one outcome each; nothing more is started after an
  // interruption, or after a failure unless told to keep going.
  function RunOf(records: Records, steps: seq<Step>, outcomes: seq<Outcome>, keepGoing: bool, k: nat): Run
    requires k <= |steps| <= |outcomes|
  {
    if k == 0 then Run(records, [], 0, false, false)
    else
      var r := RunOf(records, steps, outcomes, keepGoing, k - 1);
      if r.cut || (r.failures > 0 && !keepGoing) then r
      else
        var s, o := steps[k - 1], outcomes[k - 1];
        Run(Marked(r.records, s, o), r.started + [Started(s, r.records)],
            r.failures + (if o == Failure then 1 else 0), o == Interrupted, r.saved || o != Interrupted)
  }

  class Runner {
    const state: State
    const dryRun: bool
    ghost var started: seq<Started>

    constructor (state: State, dryRun: bool)
      ensures this.state == state && this.dryRun == dryRun && started == []
    {
      this.state, this.dryRun := state, dryRun;
      started := [];
    }

    // Runs one step and records how it went, in the file too.
    method RunOne(s: Step, outcome: Outcome) returns (ok: bool, cut: bool)
      modifies this, state
      ensures dryRun ==> ok && !cut && state.steps == old(state.steps) && state.file == old(state.file)
                         && started == old(started)
      ensures !dryRun ==> state.steps == Marked(old(state.steps), s, outcome)
      ensures !dryRun ==> started == old(started) + [Started(s, old(state.steps))]
      ensures !dryRun ==> ok == (outcome == Success) && cut == (outcome == Interrupted)
      ensures !dryRun ==> state.file == if outcome == Interrupted then old(state.file) else state.steps
    {
      ok, cut := true, false;
      if dryRun {
        return;
      }
      started := started + [Started(s, state.steps)];
      match outcome {
        case Success =>
          state.Mark(s.id, OK, s.digest);
          state.Save();
        case Failure =>
          state.Mark(s.id, FAILED, s.digest);
          state.Save();
          ok := false;
        case Interrupted =>
          ok, cut := false, true;
      }
    }

    // The number of failures.  A dry run starts nothing and has none; without root access it is
    // one, and nothing is started either.
    method RunAll(steps: seq<Step>, outcomes: seq<Outcome>, keepGoing: bool, sudo: bool)
      returns (failures: nat, cut: bool)
      requires |steps| <= |outcomes|
      modifies this, state
      ensures dryRun || !sudo ==> state.steps == old(state.steps) && state.file == old(state.file)
                                  && started == old(started)
      ensures dryRun || !sudo ==> failures == (if dryRun then 0 else 1) && !cut
      ensures !dryRun && sudo ==>
                var r := RunOf(old(state.steps), steps, outcomes, keepGoing, |steps|);
                && state.steps == r.records && state.file == (if r.saved then r.records else old(state.file))
                && started == old(started) + r.started && failures == r.failures && cut == r.cut
    {
      failures, cut := 0, false;
      if !dryRun && !sudo {
        return 1, false;
      }
      ghost var records, file := state.steps, state.file;
      var i := 0;
      while i < |steps|
        invariant 0 <= i <= |steps| && !cut && !(failures > 0 && !keepGoing)
        invariant dryRun ==> state.steps == records && state.file == file && started == old(started) && failures == 0
        invariant !dryRun ==> IsSoFar(RunOf(records, steps, outcomes, keepGoing, i), old(started), file, failures)
      {
        var ok, stop := RunOne(steps[i], outcomes[i]);
        i := i + 1;
        if stop {
          cut := true;
          StoppedFor(records, steps, outcomes, keepGoing, i);
          return;
        }
        if !ok {
          failures := failures + 1;
          if !keepGoing {
            StoppedFor(records, steps, outcomes, keepGoing, i);
            return;
          }
        }
      }
    }

    // The runner is where run r leaves it, from this file and these steps started before.
    ghost predicate IsSoFar(r: Run, before: seq<Started>, file: Records, failures: nat)
      reads this, state
    {
      && state.steps == r.records && state.file == (if r.saved then r.records else file)
      && started == before + r.started && failures == r.failures && !r.cut
    }
  }

  lemma {:induction false} Stops(records: Records, steps: seq<Step>, outcomes: seq<Outcome>, keepGoing: bool,
                                 i: nat, k: nat)
    requires i <= k <= |steps| <= |outcomes|
    requires var r := RunOf(records, steps, outcomes, keepGoing, i); r.cut || (r.failures > 0 && !keepGoing)
    ensures RunOf(records, steps, outcomes, keepGoing, k) == RunOf(records, steps, outcomes, keepGoing, i)
    decreases k - i
  {
    if i < k {
      Stops(records, steps, outcomes, keepGoing, i, k - 1);
    }
  }

  lemma StoppedFor(records: Records, steps: seq<Step>, outcomes: seq<Outcome>, keepGoing: bool, i: nat)
    requires i <= |steps| <= |outcomes|
    requires var r := RunOf(records, steps, outcomes, keepGoing, i); r.cut || (r.failures > 0 && !keepGoing)
    ensures RunOf(records, steps, outcomes, keepGoing, |steps|) == RunOf(records, steps, outcomes, keepGoing, i)
  {
    Stops(records, steps, outcomes, keepGoing, i, |steps|);
  }
}
