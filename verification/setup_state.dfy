// The recorded state of the setup steps (setup/golfcart_setup/state.py): what is in memory, and
// what is in the file the next run starts from.

module SetupState {

  datatype Recorded = OK | FAILED | SKIPPED
  datatype Record = Record(status: Recorded, digest: string)
  type Records = map<string, Record>

  datatype Status = Done | Stale | Failed | Skipped | Pending

  function StatusIn(records: Records, id: string, digest: string): Status {
    if id !in records then Pending
    else
      match records[id].status
      case OK => if records[id].digest == digest then Done else Stale
      case FAILED => Failed
      case SKIPPED => Skipped
  }

  // What each status says of the record: only a success with the same digest reads as done, one with
  // another digest is stale.
  lemma StatusMeans(records: Records, id: string, digest: string)
    ensures var st := StatusIn(records, id, digest);
            && (st == Done <==> id in records && records[id] == Record(OK, digest))
            && (st == Stale <==> exists past :: past != digest && id in records && records[id] == Record(OK, past))
            && (st == Failed <==> id in records && records[id].status == FAILED)
            && (st == Skipped <==> id in records && records[id].status == SKIPPED)
            && (st == Pending <==> id !in records)
  {
    if id in records {
      assert records[id] == Record(records[id].status, records[id].digest);
    }
  }

  // Names that were changed when the registry was written.
  function Alias(name: string): string {
    if name == "network-dds" then "cyclonedds-sysctl" else name
  }

  // The records an old directory of markers stands for.
  function Imported(markers: seq<string>, digests: map<string, string>): Records {
    if markers == [] then map[]
    else
      var rest, m := Imported(markers[..|markers| - 1], digests), markers[|markers| - 1];
      if (m != [] && m[0] == '.') || Alias(m) !in digests then rest
      else rest[Alias(m) := Record(OK, digests[Alias(m)])]
  }

  class State {
    var steps: Records
    var file: Records

    // A file that cannot be read counts as empty.
    constructor (readable: bool, onDisk: Records)
      ensures file == onDisk && steps == if readable then onDisk else map[]
    {
      file := onDisk;
      steps := if readable then onDisk else map[];
    }

    function StatusOf(id: string, digest: string): (s: Status)
      reads this
    {
      StatusIn(steps, id, digest)
    }

    method Mark(id: string, status: Recorded, digest: string)
      modifies this`steps
      ensures steps == old(steps)[id := Record(status, digest)]
    {
      steps := steps[id := Record(status, digest)];
    }

    method Forget(id: string)
      modifies this`steps
      ensures steps == old(steps) - {id}
    {
      steps := steps - {id};
    }

    // The file is replaced whole: never a part of the new state.
    method Save()
      modifies this`file
      ensures file == steps
    {
      file := steps;
    }

    // Adopts the markers only when nothing is recorded yet.
    method ImportMarkers(markers: seq<string>, digests: map<string, string>) returns (count: nat)
      modifies this
      ensures old(steps) != map[] ==> steps == old(steps) && file == old(file) && count == 0
      ensures old(steps) == map[] ==> steps == Imported(markers, digests)
      ensures old(steps) == map[] ==> file == if count > 0 then steps else old(file)
      ensures old(steps) == map[] ==> (count == 0 <==> steps == map[])
    {
      count := 0;
      if steps != map[] {
        return;
      }
      for k := 0 to |markers|
        invariant steps == Imported(markers[..k], digests) && file == old(file)
        invariant count == 0 <==> steps == map[]
      {
        assert markers[..k + 1][..k] == markers[..k];
        var m := markers[k];
        if !(m != [] && m[0] == '.') && Alias(m) in digests {
          steps := steps[Alias(m) := Record(OK, digests[Alias(m)])];
          assert Alias(m) in steps;
          count := count + 1;
        }
      }
      assert markers[..|markers|] == markers;
      if count > 0 {
        Save();
      }
    }
  }

  // The marker stands for the step: it has its name, or the name the step had before it was renamed.
  ghost predicate StandsFor(marker: string, id: string) {
    if marker == "network-dds" then id == "cyclonedds-sysctl" else id == marker
  }

  // An imported step is recorded as a success with its digest, so it is never stale, and exactly the
  // known steps that a visible marker stands for are imported.
  lemma {:induction false} ImportedReadsAsDone(markers: seq<string>, digests: map<string, string>, id: string)
    ensures var r := Imported(markers, digests);
            && (id in r ==> id in digests && r[id] == Record(OK, digests[id]))
            && (id in digests ==> (id in r <==> exists k :: 0 <= k < |markers| && StandsFor(markers[k], id)
                                                          && !(markers[k] != [] && markers[k][0] == '.')))
    decreases |markers|
  {
    if markers != [] {
      var front := markers[..|markers| - 1];
      ImportedReadsAsDone(front, digests, id);
      assert forall k :: 0 <= k < |front| ==> front[k] == markers[k];
    }
  }
}
