// The two commands that run steps (setup/main.py): what they leave in the state file.

module SetupMain {
  import opened SetupState
  import opened SetupRunner
  import opened SetupProperties

  function Digests(registry: seq<Step>): (d: map<string, string>)
    ensures forall id :: id in d <==> id in Ids(registry)
  {
    if registry == [] then map[]
    else
      var k := |registry| - 1;
      assert forall i :: 0 <= i < k ==> registry[..k][i] == registry[i];
      Digests(registry[..k])[registry[k].id := registry[k].digest]
  }

  lemma {:induction false} DigestsAre(registry: seq<Step>, i: nat)
    requires IsRegistry(registry) && i < |registry|
    ensures Digests(registry)[registry[i].id] == registry[i].digest
  {
    var k := |registry| - 1;
    if i < k {
      assert registry[..k][i] == registry[i];
      DigestsAre(registry[..k], i);
    }
  }

  // What a run selects from: what was read of the state file, or the old markers when that is
  // nothing; and the file by then, into which adopted markers are saved.
  function StartingRecords(registry: seq<Step>, read: Records, markers: seq<string>): Records {
    if read == map[] then Imported(markers, Digests(registry)) else read
  }

  function StartingFile(registry: seq<Step>, read: Records, file: Records, markers: seq<string>): Records {
    var imported := Imported(markers, Digests(registry));
    if read == map[] && imported != map[] then imported else file
  }

  // 0 done or nothing to do, 1 failures or a registry out of order, 2 an unknown step; none
  // when the run was cut short.
  datatype Exit = Code(code: nat) | Cut

  datatype Effect = Effect(memory: Records, file: Records, exit: Exit, started: seq<Started>)

  // What a command does to a state that read and file are of.  Nothing is run for a refused or an
  // empty selection, in a dry run, or without root access where that is needed.
  ghost function EffectOf(registry: seq<Step>, args: Args, read: Records, file: Records, markers: seq<string>,
                          dryRun: bool, sudo: bool, outcomes: seq<Outcome>): Effect
    requires |outcomes| >= |registry|
  {
    var start, disk := StartingRecords(registry, read, markers), StartingFile(registry, read, file, markers);
    var r := OneRun(registry, args, start, outcomes);
    match Selected(registry, args, start)
    case Unknown => Effect(start, disk, Code(2), [])
    case WrongOrder => Effect(start, disk, Code(1), [])
    case Steps(steps) =>
      if steps == [] || dryRun then Effect(start, disk, Code(0), [])
      else if !sudo then Effect(start, disk, Code(1), [])
      else
        Effect(r.records, if r.saved then r.records else disk,
             if r.cut then Cut else Code(if r.failures > 0 then 1 else 0), r.started)
  }

  method CmdRun(registry: seq<Step>, args: Args, state: State, markers: seq<string>, dryRun: bool, sudo: bool,
                outcomes: seq<Outcome>) returns (exit: Exit, ghost started: seq<Started>)
    requires |outcomes| >= |registry|
    modifies state
    ensures Effect(state.steps, state.file, exit, started)
            == EffectOf(registry, args, old(state.steps), old(state.file), markers, dryRun, sudo, outcomes)
  {
    hide Selected, Imported, RunOf;
    started := [];
    var _ := state.ImportMarkers(markers, Digests(registry));
    var selection := Select(registry, args, state);
    match selection {
      case Unknown => return Code(2), [];
      case WrongOrder => return Code(1), [];
      case Steps(steps) =>
        SelectedLength(registry, args, state.steps);
        if steps == [] {
          return Code(0), [];
        }
        var runner := new Runner(state, dryRun);
        var failures, cut := runner.RunAll(steps, outcomes, args.keepGoing, sudo);
        started := runner.started;
        exit := if dryRun then Code(0) else if cut then Cut else if failures > 0 then Code(1) else Code(0);
    }
  }

  lemma SelectedLength(registry: seq<Step>, args: Args, records: Records)
    ensures Selected(registry, args, records).Steps? ==> |Selected(registry, args, records).steps| <= |registry|
  {
    InOrderLength(registry, Chosen(registry, args, records));
  }

  // Forgets the steps, then runs exactly them.  An unknown one leaves the file as it was.
  method CmdRerun(registry: seq<Step>, args: Args, ids: seq<string>, state: State, markers: seq<string>, dryRun: bool,
                  sudo: bool, outcomes: seq<Outcome>) returns (exit: Exit, ghost started: seq<Started>)
    requires |outcomes| >= |registry|
    modifies state
    ensures !AllKnown(registry, ids) ==> exit == Code(2) && state.file == old(state.file) && started == []
    ensures AllKnown(registry, ids) ==>
              var kept := old(state.steps) - IdSet(ids);
              Effect(state.steps, state.file, exit, started)
              == EffectOf(registry, args.(only := ids, force := true), kept, kept, markers, dryRun, sudo, outcomes)
  {
    hide EffectOf;
    started := [];
    for k := 0 to |ids|
      invariant state.file == old(state.file) && state.steps == old(state.steps) - IdSet(ids[..k])
      invariant forall i :: 0 <= i < k ==> ids[i] in Ids(registry)
    {
      if ids[k] !in Ids(registry) {
        return Code(2), [];
      }
      state.Forget(ids[k]);
      assert ids[..k + 1] == ids[..k] + [ids[k]];
    }
    assert ids[..|ids|] == ids;
    state.Save();
    exit, started := CmdRun(registry, args.(only := ids, force := true), state, markers, dryRun, sudo, outcomes);
  }

  // A file that was read whole holds all that is in memory again when the command ends, however
  // it ends; so the next command starts from what this one did.
  lemma FileIsCurrent(registry: seq<Step>, args: Args, file: Records, markers: seq<string>, dryRun: bool, sudo: bool,
                      outcomes: seq<Outcome>)
    requires |outcomes| >= |registry|
    ensures var d := EffectOf(registry, args, file, file, markers, dryRun, sudo, outcomes); d.memory == d.file
  {
    var start := StartingRecords(registry, file, markers);
    if Selected(registry, args, start).Steps? {
      SelectedLength(registry, args, start);
      UnsavedUnchanged(start, Selected(registry, args, start).steps, outcomes, args.keepGoing,
                       |Selected(registry, args, start).steps|);
    }
  }

  // When nothing is recorded the old markers are adopted: the steps they stand for are done, and they
  // are in the file.
  lemma MarkersAreDone(registry: seq<Step>, markers: seq<string>, file: Records, i: nat, k: nat)
    requires IsRegistry(registry) && i < |registry| && k < |markers|
    requires StandsFor(markers[k], registry[i].id) && !(markers[k] != [] && markers[k][0] == '.')
    ensures IsDone(StartingRecords(registry, map[], markers), registry[i])
    ensures StartingFile(registry, map[], file, markers) == StartingRecords(registry, map[], markers)
  {
    DigestsAre(registry, i);
    assert registry[i].id in Ids(registry);
    ImportedReadsAsDone(markers, Digests(registry), registry[i].id);
  }

  // What the exit code says: 2 for an unknown step; 1 for a registry out of order, and otherwise for
  // work that was refused root access or in which something failed; none for work that was cut short;
  // and 0 for all else.
  lemma ExitMeans(registry: seq<Step>, args: Args, read: Records, file: Records, markers: seq<string>, dryRun: bool,
                  sudo: bool, outcomes: seq<Outcome>)
    requires |outcomes| >= |registry|
    ensures var start := StartingRecords(registry, read, markers);
            var d := EffectOf(registry, args, read, file, markers, dryRun, sudo, outcomes);
            var sel, n := Selected(registry, args, start), |d.started|;
            var works := sel.Steps? && sel.steps != [] && !dryRun;
            && n <= |outcomes| && (d.exit == Code(2) <==> sel == Unknown)
            && (d.exit == Cut <==> n > 0 && outcomes[n - 1] == Interrupted)
            && (d.exit == Code(0) <==>
                sel.Steps? && (works ==> n > 0 && forall i :: 0 <= i < n ==> outcomes[i] == Success))
            && (n > 0 <==> works && sudo)
  {
    var start := StartingRecords(registry, read, markers);
    var sel := Selected(registry, args, start);
    if sel.Steps? {
      SelectedLength(registry, args, start);
      RunMeans(start, sel.steps, outcomes, args.keepGoing, |sel.steps|);
      var n := |RunOf(start, sel.steps, outcomes, args.keepGoing, |sel.steps|).started|;
      NoFailures(outcomes, args.keepGoing, |sel.steps|, n);
      hide RunOf, Failures, IsStartedTo, Selected, StartingRecords;
    }
  }

  // Nothing failed and nothing was interrupted exactly when all that was started succeeded.
  lemma NoFailures(outcomes: seq<Outcome>, keepGoing: bool, k: nat, n: nat)
    requires k <= |outcomes| && IsStartedTo(outcomes, keepGoing, k, n)
    ensures n <= k && (k > 0 ==> n > 0)
    ensures (n > 0 ==> outcomes[n - 1] != Interrupted) && |Failures(outcomes, n)| == 0
            <==> forall i :: 0 <= i < n ==> outcomes[i] == Success
  {
    if i: nat :| i < n && outcomes[i] == Failure {
      assert i in Failures(outcomes, n);
    }
    if |Failures(outcomes, n)| > 0 {
      var i: nat :| i in Failures(outcomes, n);
    }
  }

  // What was not written was not recorded.
  lemma {:induction false} UnsavedUnchanged(records: Records, steps: seq<Step>, outcomes: seq<Outcome>,
                                            keepGoing: bool, k: nat)
    requires k <= |steps| <= |outcomes|
    ensures var r := RunOf(records, steps, outcomes, keepGoing, k); !r.saved ==> r.records == records
  {
    if k > 0 {
      UnsavedUnchanged(records, steps, outcomes, keepGoing, k - 1);
    }
  }

  // Exit 0 of a profile run means that nothing is left to do: run again, it selects nothing.
  lemma ZeroLeavesNothing(registry: seq<Step>, args: Args, read: Records, file: Records, markers: seq<string>,
                          sudo: bool, outcomes: seq<Outcome>)
    requires |outcomes| >= |registry| && IsRegistry(registry) && IsProfileRun(args)
    requires EffectOf(registry, args, read, file, markers, false, sudo, outcomes).exit == Code(0)
    ensures var d := EffectOf(registry, args, read, file, markers, false, sudo, outcomes);
            Selected(registry, args.(force := false), d.memory) == Steps([])
  {
    hide Selected, Imported;
    var start := StartingRecords(registry, read, markers);
    SelectedLength(registry, args, start);
    OneRunIs(registry, args, start, outcomes);
    CleanRunLeavesNothing(registry, args, start, outcomes);
  }

  lemma OneRunIs(registry: seq<Step>, args: Args, records: Records, outcomes: seq<Outcome>)
    requires |outcomes| >= |registry| && Selected(registry, args, records).Steps?
    ensures var steps := Selected(registry, args, records).steps;
            && |steps| <= |registry|
            && OneRun(registry, args, records, outcomes) == RunOf(records, steps, outcomes, args.keepGoing, |steps|)
            && (steps == [] ==> OneRun(registry, args, records, outcomes) == Run(records, [], 0, false, false))
  {
    SelectedLength(registry, args, records);
  }

  // Naming a step is already saying it is wanted: the selection is exactly the named steps,
  // done or not, less the skipped ones.
  lemma OnlyIsExact(registry: seq<Step>, args: Args, records: Records, s: Step)
    requires IsRegistry(registry) && args.only != [] && Selected(registry, args, records).Steps? && s in registry
    ensures s in Selected(registry, args, records).steps <==> s.id in args.only && s.id !in args.skip
  {
    var chosen := Chosen(registry, args, records);
    var d: nat :| d < |registry| && registry[d] == s;
    if s.id in chosen {
      var k := InOrderAt(registry, chosen, d);
      assert InOrder(registry, chosen)[k] == s;
    }
    if s in InOrder(registry, chosen) {
      var k: nat :| k < |InOrder(registry, chosen)| && InOrder(registry, chosen)[k] == s;
      var i := InOrderFrom(registry, chosen, k);
    }
  }
}
