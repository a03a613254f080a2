// The include walk of the launch-file auditor (scripts/check/audit_launch.py).

module LaunchAudit {
  import opened Options

  type Path = string
  type Name = string

  // A param file of a launch file: where the auditor resolves it to, if it can, and the paths it is
  // loaded from when launched.  The auditor takes the default of an argument, and what includes the
  // launch file may pass others.
  datatype Param = Param(target: Option<Path>, loads: set<Path>)

  // What the auditor takes from one file's text: the names of its $(var ...) references, the other
  // names it declares or reads, the param files it loads, and where its includes resolve to.
  datatype Text = Text(vars: set<Name>, declared: set<Name>, params: seq<Param>, includes: seq<Option<Path>>)

  // A file, and whether the auditor can open it.
  datatype File = File(text: Text, readable: bool)

  // The files that exist.
  type Disk = map<Path, File>

  const DEPTH: nat := 4

  predicate Readable(disk: Disk, p: Path) {
    p in disk && disk[p].readable
  }

  function Names(disk: Disk, p: Path): set<Name> {
    if Readable(disk, p) then disk[p].text.vars + disk[p].text.declared else {}
  }

  function Includes(disk: Disk, p: Path): seq<Option<Path>> {
    if Readable(disk, p) then disk[p].text.includes else []
  }

  function Params(disk: Disk, p: Path): seq<Param> {
    if Readable(disk, p) then disk[p].text.params else []
  }

  predicate Exists(disk: Disk, target: Option<Path>) {
    target.Some? && target.value in disk
  }

  // The auditor opens this param file.  Otherwise it passes over it, and `complete` stays.
  predicate Opened(disk: Disk, param: Param) {
    param.target.Some? && Readable(disk, param.target.value)
  }

  // The names the auditor finds in a param file.
  function ParamNames(disk: Disk, param: Param): set<Name> {
    if Opened(disk, param) then disk[param.target.value].text.vars else {}
  }

  // The auditor finds x in some of these param files.
  ghost predicate InParams(disk: Disk, params: seq<Param>, x: Name) {
    exists i :: 0 <= i < |params| && x in ParamNames(disk, params[i])
  }

  ghost predicate FoundInParams(disk: Disk, p: Path, x: Name) {
    InParams(disk, Params(disk, p), x)
  }

  // p includes q.
  ghost predicate IncludesFile(disk: Disk, p: Path, q: Path) {
    q in disk && Some(q) in Includes(disk, p)
  }

  // q is within h include hops of p.
  ghost predicate Within(disk: Disk, p: Path, q: Path, h: nat)
    decreases h
  {
    p == q || (h > 0 && exists r :: IncludesFile(disk, p, r) && Within(disk, r, q, h - 1))
  }

  // The walk from p with h hops left finds x.
  ghost predicate Found(disk: Disk, p: Path, h: nat, x: Name) {
    || (exists q :: Within(disk, p, q, h) && x in Names(disk, q))
    || (h > 0 && exists q :: Within(disk, p, q, h - 1) && FoundInParams(disk, q, x))
  }

  // Every file the walk meets can be read, and every include of one it opens leads to a file.
  ghost predicate Visible(disk: Disk, p: Path, h: nat) {
    && (forall q :: Within(disk, p, q, h) ==> Readable(disk, q))
    && (h > 0 ==> forall q :: Within(disk, p, q, h - 1) ==> AllExist(disk, Includes(disk, q)))
  }

  ghost predicate AllExist(disk: Disk, targets: seq<Option<Path>>) {
    forall t :: t in targets ==> Exists(disk, t)
  }

  // ---- one level of the walk ----

  // Some file among the targets leads to x within h hops.
  ghost predicate FoundBelow(disk: Disk, targets: seq<Option<Path>>, h: nat, x: Name) {
    exists r :: r in disk && Some(r) in targets && Found(disk, r, h, x)
  }

  ghost predicate VisibleBelow(disk: Disk, targets: seq<Option<Path>>, h: nat) {
    forall r :: r in disk && Some(r) in targets ==> Visible(disk, r, h)
  }

  lemma FoundUp(disk: Disk, p: Path, r: Path, h: nat, x: Name)
    requires h > 0 && IncludesFile(disk, p, r) && Found(disk, r, h - 1, x)
    ensures Found(disk, p, h, x)
  {
    hide Names, FoundInParams, IncludesFile;
    if q :| Within(disk, r, q, h - 1) && x in Names(disk, q) {
      assert Within(disk, p, q, h);
    } else {
      var q :| Within(disk, r, q, h - 2) && FoundInParams(disk, q, x);
      assert Within(disk, p, q, h - 1);
    }
  }

  lemma FoundDown(disk: Disk, p: Path, h: nat, x: Name)
    requires Found(disk, p, h, x) && x !in Names(disk, p) && !(h > 0 && FoundInParams(disk, p, x))
    ensures h > 0 && FoundBelow(disk, Includes(disk, p), h - 1, x)
  {
    hide Names, FoundInParams, Includes;
    if q :| Within(disk, p, q, h) && x in Names(disk, q) {
      var r :| IncludesFile(disk, p, r) && Within(disk, r, q, h - 1);
      assert Found(disk, r, h - 1, x);
    } else {
      var q :| Within(disk, p, q, h - 1) && FoundInParams(disk, q, x);
      var r :| IncludesFile(disk, p, r) && Within(disk, r, q, h - 2);
      assert Found(disk, r, h - 1, x);
    }
  }

  lemma FoundOneLevel(disk: Disk, p: Path, h: nat, x: Name)
    ensures Found(disk, p, h, x) <==>
              || x in Names(disk, p)
              || (h > 0 && (FoundInParams(disk, p, x) || FoundBelow(disk, Includes(disk, p), h - 1, x)))
  {
    assert Within(disk, p, p, h);
    assert h > 0 ==> Within(disk, p, p, h - 1);
    assert x in Names(disk, p) || (h > 0 && FoundInParams(disk, p, x)) ==> Found(disk, p, h, x);
    hide Names, FoundInParams, Includes, Within, Found;
    if h > 0 && FoundBelow(disk, Includes(disk, p), h - 1, x) {
      var r :| r in disk && Some(r) in Includes(disk, p) && Found(disk, r, h - 1, x);
      FoundUp(disk, p, r, h, x);
    }
    if Found(disk, p, h, x) && x !in Names(disk, p) && !(h > 0 && FoundInParams(disk, p, x)) {
      FoundDown(disk, p, h, x);
    }
  }

  lemma VisibleUp(disk: Disk, p: Path, h: nat)
    requires Readable(disk, p)
    requires h > 0 ==> AllExist(disk, Includes(disk, p)) && VisibleBelow(disk, Includes(disk, p), h - 1)
    ensures Visible(disk, p, h)
  {
    hide Readable, AllExist, Includes;
    forall q | Within(disk, p, q, h)
      ensures Readable(disk, q)
    {
      if p != q {
        var r :| IncludesFile(disk, p, r) && Within(disk, r, q, h - 1);
        assert Visible(disk, r, h - 1);
      }
    }
    if h > 0 {
      forall q | Within(disk, p, q, h - 1)
        ensures AllExist(disk, Includes(disk, q))
      {
        if p != q {
          var r :| IncludesFile(disk, p, r) && Within(disk, r, q, h - 2);
          assert Visible(disk, r, h - 1);
        }
      }
    }
  }

  lemma VisibleDown(disk: Disk, p: Path, r: Path, h: nat)
    requires h > 0 && Visible(disk, p, h) && IncludesFile(disk, p, r)
    ensures Visible(disk, r, h - 1)
  {
    hide Readable, AllExist, Includes, IncludesFile;
    forall q | Within(disk, r, q, h - 1)
      ensures Readable(disk, q)
    {
      assert Within(disk, p, q, h);
    }
    if h > 1 {
      forall q | Within(disk, r, q, h - 2)
        ensures AllExist(disk, Includes(disk, q))
      {
        assert Within(disk, p, q, h - 1);
      }
    }
  }

  lemma VisibleOneLevel(disk: Disk, p: Path, h: nat)
    ensures Visible(disk, p, h) <==>
              Readable(disk, p)
              && (h > 0 ==> AllExist(disk, Includes(disk, p)) && VisibleBelow(disk, Includes(disk, p), h - 1))
  {
    assert Within(disk, p, p, h);
    assert h > 0 ==> Within(disk, p, p, h - 1);
    if Visible(disk, p, h) && h > 0 {
      forall r | r in disk && Some(r) in Includes(disk, p)
        ensures Visible(disk, r, h - 1)
      {
        VisibleDown(disk, p, r, h);
      }
    }
    var targets := Includes(disk, p);
    if Readable(disk, p) && (h > 0 ==> AllExist(disk, targets) && VisibleBelow(disk, targets, h - 1)) {
      VisibleUp(disk, p, h);
    }
  }

  lemma OneMoreTarget(disk: Disk, targets: seq<Option<Path>>, t: Option<Path>, h: nat)
    ensures forall x :: FoundBelow(disk, targets + [t], h, x) <==>
                          FoundBelow(disk, targets, h, x) || (Exists(disk, t) && Found(disk, t.value, h, x))
    ensures AllExist(disk, targets + [t]) <==> AllExist(disk, targets) && Exists(disk, t)
    ensures VisibleBelow(disk, targets + [t], h) <==>
              VisibleBelow(disk, targets, h) && (Exists(disk, t) ==> Visible(disk, t.value, h))
  {
    hide Found, Visible;
    assert forall r :: r in targets + [t] <==> r in targets || r == t;
    assert Exists(disk, t) ==> Some(t.value) == t;
  }

  // ---- the walk ----

  method ParamFileNames(disk: Disk, params: seq<Param>) returns (names: set<Name>)
    ensures forall x :: x in names <==> InParams(disk, params, x)
  {
    names := {};
    for i := 0 to |params|
      invariant forall x :: x in names <==> exists j :: 0 <= j < i && x in ParamNames(disk, params[j])
    {
      names := names + ParamNames(disk, params[i]);
    }
  }

  // found is what the walk from p with h hops left finds, None for a file that cannot be read.
  ghost predicate IsFound(disk: Disk, p: Path, h: nat, found: Option<set<Name>>) {
    && (found.None? <==> !Readable(disk, p))
    && (forall x :: Found(disk, p, h, x) <==> found.Some? && x in found.value)
  }

  lemma FoundHere(disk: Disk, p: Path, h: nat, consumed: set<Name>, below: set<Name>)
    requires Readable(disk, p)
    requires h > 0 ==> forall x :: x in consumed <==> FoundInParams(disk, p, x)
    requires h > 0 ==> forall x :: x in below <==> FoundBelow(disk, Includes(disk, p), h - 1, x)
    ensures IsFound(disk, p, h, Some(if h == 0 then Names(disk, p) else Names(disk, p) + consumed + below))
  {
    hide Found, FoundBelow, Names, FoundInParams;
    var all := if h == 0 then Names(disk, p) else Names(disk, p) + consumed + below;
    forall x
      ensures Found(disk, p, h, x) <==> x in all
    {
      FoundOneLevel(disk, p, h, x);
    }
  }

  lemma NothingFound(disk: Disk, p: Path, h: nat)
    requires !Readable(disk, p)
    ensures IsFound(disk, p, h, None)
  {
    forall x
      ensures !Found(disk, p, h, x)
    {
      FoundOneLevel(disk, p, h, x);
      hide Found;
    }
  }

  method ReferencedNames(disk: Disk, path: Path, depth: nat) returns (found: Option<set<Name>>, complete: bool)
    requires path in disk && depth <= DEPTH
    ensures IsFound(disk, path, DEPTH - depth, found)
    ensures complete <==> Visible(disk, path, DEPTH - depth)
    decreases DEPTH - depth, 1
  {
    ghost var h: nat := DEPTH - depth;
    VisibleOneLevel(disk, path, h);
    hide IsFound, Visible, AllExist, VisibleBelow;
    if !disk[path].readable {
      NothingFound(disk, path, h);
      return None, false;
    }
    var text := disk[path].text;
    var names := text.vars + text.declared;
    complete := true;
    if depth < DEPTH {
      var consumed := ParamFileNames(disk, text.params);
      var below, belowComplete := IncludedNames(disk, text.includes, depth);
      FoundHere(disk, path, h, consumed, below);
      names, complete := names + consumed + below, belowComplete;
    } else {
      FoundHere(disk, path, h, {}, {});
    }
    found := Some(names);
  }

  // The loop of the walk over the includes of a file at this depth.
  method IncludedNames(disk: Disk, includes: seq<Option<Path>>, depth: nat) returns (names: set<Name>, complete: bool)
    requires depth < DEPTH
    ensures forall x :: x in names <==> FoundBelow(disk, includes, DEPTH - depth - 1, x)
    ensures complete <==> AllExist(disk, includes) && VisibleBelow(disk, includes, DEPTH - depth - 1)
    decreases DEPTH - depth, 0
  {
    hide Found, Visible;
    names, complete := {}, true;
    ghost var h: nat := DEPTH - depth - 1;
    assert forall x :: !FoundBelow(disk, [], h, x);
    for i := 0 to |includes|
      invariant forall x :: x in names <==> FoundBelow(disk, includes[..i], h, x)
      invariant complete <==> AllExist(disk, includes[..i]) && VisibleBelow(disk, includes[..i], h)
    {
      var target := includes[i];
      assert includes[..i + 1] == includes[..i] + [target];
      OneMoreTarget(disk, includes[..i], target, h);
      hide FoundBelow, AllExist, VisibleBelow;
      if target.Some? && target.value in disk {
        var nested, nestedComplete := ReferencedNames(disk, target.value, depth + 1);
        assert DEPTH - (depth + 1) == h;
        if nested.Some? {
          names := names + nested.value;
        }
        complete := complete && nestedComplete;
      } else {
        complete := false;
      }
    }
    assert includes[..|includes|] == includes;
  }

  // ---- the verdict on the arguments one include passes ----

  // An include: where it resolves to, whether it names a package, and the arguments it passes.
  datatype Include = Include(target: Option<Path>, namesPackage: bool, passed: seq<Name>)

  datatype Finding = NotInstalled | MissingFile | NeverRead(name: Name) | NotSeenRead(name: Name)

  // The passed names nothing found reads, in order.
  ghost function Unread(disk: Disk, target: Path, passed: seq<Name>): seq<Finding> {
    if passed == [] then []
    else
      var x := passed[|passed| - 1];
      Unread(disk, target, passed[..|passed| - 1])
      + if Found(disk, target, DEPTH, x) then []
        else if Visible(disk, target, DEPTH) then [NeverRead(x)]
        else [NotSeenRead(x)]
  }

  // None when the check stops on an error: the target exists and cannot be read, and a name is passed.
  method CheckInclude(disk: Disk, inc: Include) returns (findings: Option<seq<Finding>>)
    ensures inc.target.None? ==> findings == Some(if inc.namesPackage then [NotInstalled] else [])
    ensures inc.target.Some? && inc.target.value !in disk ==> findings == Some([MissingFile])
    ensures Exists(disk, inc.target) ==>
              findings == if !Readable(disk, inc.target.value) && inc.passed != [] then None
                          else Some(Unread(disk, inc.target.value, inc.passed))
  {
    hide Found, Visible;
    if inc.target == None {
      return Some(if inc.namesPackage then [NotInstalled] else []);
    }
    var target := inc.target.value;
    if target !in disk {
      return Some([MissingFile]);
    }
    var readable, complete := ReferencedNames(disk, target, 0);
    if readable == None {
      return if inc.passed == [] then Some([]) else None;
    }
    var list: seq<Finding> := [];
    for i := 0 to |inc.passed|
      invariant list == Unread(disk, target, inc.passed[..i])
    {
      var x := inc.passed[i];
      assert inc.passed[..i + 1][..i] == inc.passed[..i];
      if x !in readable.value {
        list := list + [if complete then NeverRead(x) else NotSeenRead(x)];
      }
    }
    assert inc.passed[..|inc.passed|] == inc.passed;
    findings := Some(list);
  }

  lemma {:induction false} UnreadMeans(disk: Disk, target: Path, passed: seq<Name>, x: Name)
    ensures NeverRead(x) in Unread(disk, target, passed) <==>
              x in passed && !Found(disk, target, DEPTH, x) && Visible(disk, target, DEPTH)
  {
    hide Found, Visible;
    if passed != [] {
      var m := |passed| - 1;
      UnreadMeans(disk, target, passed[..m], x);
      assert x in passed <==> x in passed[..m] || x == passed[m];
    }
  }

  // ---- when the verdict is right ----

  // What q includes when launched.
  ghost predicate LeadsTo(disk: Disk, q: Path, r: Path) {
    q in disk && r in disk && Some(r) in disk[q].text.includes
  }

  ghost predicate LeadsIn(disk: Disk, p: Path, q: Path, h: nat)
    decreases h
  {
    p == q || (h > 0 && exists r :: LeadsTo(disk, p, r) && LeadsIn(disk, r, q, h - 1))
  }

  // Launching p launches q, however far down and whether or not the auditor can follow.
  ghost predicate Reachable(disk: Disk, p: Path, q: Path) {
    exists h: nat :: LeadsIn(disk, p, q, h)
  }

  // g is loaded when q is launched, through its i-th param file.
  ghost predicate Loads(disk: Disk, q: Path, i: nat, g: Path) {
    q in disk && g in disk && i < |disk[q].text.params| && g in disk[q].text.params[i].loads
  }

  // What q itself reads when it is launched, through the param files it then loads included.
  ghost predicate Reads(disk: Disk, q: Path, x: Name) {
    || (q in disk && x in disk[q].text.vars + disk[q].text.declared)
    || exists i: nat, g :: Loads(disk, q, i, g) && x in disk[g].text.vars
  }

  // The walk from p takes up the $(var ...) references of g: as a launch file, or as a param file
  // some launch file near enough resolves to.
  ghost predicate TakesUp(disk: Disk, p: Path, g: Path) {
    || Within(disk, p, g, DEPTH)
    || exists q :: Within(disk, p, q, DEPTH - 1) && Resolves(disk, q, g)
  }

  ghost predicate Resolves(disk: Disk, q: Path, g: Path) {
    Readable(disk, g) && exists i :: 0 <= i < |Params(disk, q)| && Params(disk, q)[i].target == Some(g)
  }

  // The walk sees all there is to see: every file that is launched is within its hops, and it takes
  // up every param file that those load.
  ghost predicate IsSeen(disk: Disk, p: Path) {
    forall q :: Reachable(disk, p, q) ==> IsSeenAt(disk, p, q)
  }

  ghost predicate IsSeenAt(disk: Disk, p: Path, q: Path) {
    Within(disk, p, q, DEPTH) && forall i: nat, g :: Loads(disk, q, i, g) ==> TakesUp(disk, p, g)
  }

  // No name that no file found reads is read by a file that is launched.
  ghost predicate IsRight(disk: Disk, p: Path) {
    forall q, x :: Reachable(disk, p, q) && !Found(disk, p, DEPTH, x) ==> !Reads(disk, q, x)
  }

  lemma TakenUpIsFound(disk: Disk, p: Path, g: Path, x: Name)
    requires Visible(disk, p, DEPTH) && TakesUp(disk, p, g) && g in disk && x in disk[g].text.vars
    ensures Found(disk, p, DEPTH, x)
  {
    hide Within;
    if Within(disk, p, g, DEPTH) {
      assert x in Names(disk, g);
    } else {
      var q :| Within(disk, p, q, DEPTH - 1) && Resolves(disk, q, g);
      var i :| 0 <= i < |Params(disk, q)| && Params(disk, q)[i].target == Some(g);
      assert x in ParamNames(disk, Params(disk, q)[i]);
      assert FoundInParams(disk, q, x);
    }
  }

  lemma RightWhenSeen(disk: Disk, p: Path)
    requires Visible(disk, p, DEPTH) && IsSeen(disk, p)
    ensures IsRight(disk, p)
  {
    hide TakesUp, Within, Reachable;
    forall q, x | Reachable(disk, p, q) && Reads(disk, q, x)
      ensures Found(disk, p, DEPTH, x)
    {
      assert IsSeenAt(disk, p, q);
      if q in disk && x in disk[q].text.vars + disk[q].text.declared {
        assert x in Names(disk, q);
      } else {
        var i, g :| Loads(disk, q, i, g) && x in disk[g].text.vars;
        TakenUpIsFound(disk, p, g, x);
      }
    }
  }

  // When the walk sees all, an argument reported as never read is read by no file that is launched.
  // Every one of them was opened, and every include of those short of the last hop was there.
  lemma NeverReadIsRight(disk: Disk, p: Path, passed: seq<Name>, x: Name)
    requires IsSeen(disk, p) && NeverRead(x) in Unread(disk, p, passed)
    ensures forall q :: Reachable(disk, p, q) ==> !Reads(disk, q, x) && Readable(disk, q)
    ensures forall q :: Within(disk, p, q, DEPTH - 1) ==> AllExist(disk, Includes(disk, q))
  {
    UnreadMeans(disk, p, passed, x);
    RightWhenSeen(disk, p);
    hide Reads, Readable, AllExist, Includes, Found, Reachable, Loads;
    forall q | Reachable(disk, p, q)
      ensures !Reads(disk, q, x) && Readable(disk, q)
    {
      assert IsSeenAt(disk, p, q);
    }
  }

  // A condition on one file at a time that is enough: every file within three hops, and every param
  // file resolved to a file that opens and that no other is loaded for.
  lemma SeenWhenNear(disk: Disk, p: Path)
    requires forall q :: Reachable(disk, p, q) ==> Within(disk, p, q, DEPTH - 1) && Readable(disk, q)
    requires forall q, i :: Reachable(disk, p, q) && 0 <= i < |Params(disk, q)| ==>
                              Opened(disk, Params(disk, q)[i])
                              && Params(disk, q)[i].loads <= {Params(disk, q)[i].target.value}
    ensures IsSeen(disk, p)
  {
    hide Reachable, Within;
    forall q | Reachable(disk, p, q)
      ensures IsSeenAt(disk, p, q)
    {
      WithinMore(disk, p, q, DEPTH - 1);
      forall i: nat, g | Loads(disk, q, i, g)
        ensures TakesUp(disk, p, g)
      {
        assert Params(disk, q)[i].target == Some(g);
        assert Resolves(disk, q, g);
      }
    }
  }

  lemma {:induction false} WithinMore(disk: Disk, p: Path, q: Path, h: nat)
    requires Within(disk, p, q, h)
    ensures Within(disk, p, q, h + 1)
    decreases h
  {
    hide IncludesFile;
    if p != q {
      var r :| IncludesFile(disk, p, r) && Within(disk, r, q, h - 1);
      WithinMore(disk, r, q, h - 1);
    }
  }

  // ---- the same files with other names in them ----

  // The names that the files read may differ, and nothing else.
  ghost predicate SameShape(disk: Disk, changed: Disk) {
    && (forall a :: a in changed <==> a in disk)
    && forall a :: a in disk ==> changed[a].readable == disk[a].readable && SameLinks(disk[a].text, changed[a].text)
  }

  ghost predicate SameLinks(text: Text, changed: Text) {
    changed.params == text.params && changed.includes == text.includes
  }

  lemma {:induction false} SameHops(disk: Disk, changed: Disk, a: Path, b: Path, h: nat)
    requires SameShape(disk, changed)
    ensures Within(changed, a, b, h) == Within(disk, a, b, h) && LeadsIn(changed, a, b, h) == LeadsIn(disk, a, b, h)
    decreases h
  {
    if h > 0 {
      forall r
        ensures IncludesFile(changed, a, r) == IncludesFile(disk, a, r) && LeadsTo(changed, a, r) == LeadsTo(disk, a, r)
        ensures Within(changed, r, b, h - 1) == Within(disk, r, b, h - 1)
        ensures LeadsIn(changed, r, b, h - 1) == LeadsIn(disk, r, b, h - 1)
      {
        SameHops(disk, changed, r, b, h - 1);
      }
      hide IncludesFile, LeadsTo, SameShape;
    }
  }

  lemma SameWalk(disk: Disk, changed: Disk, p: Path)
    requires SameShape(disk, changed)
    ensures forall q, h: nat :: Within(changed, p, q, h) == Within(disk, p, q, h)
    ensures forall q :: Reachable(changed, p, q) == Reachable(disk, p, q)
    ensures forall q :: Readable(changed, q) == Readable(disk, q)
    ensures forall q :: Params(changed, q) == Params(disk, q) && Includes(changed, q) == Includes(disk, q)
  {
    forall q, h: nat
      ensures Within(changed, p, q, h) == Within(disk, p, q, h) && LeadsIn(changed, p, q, h) == LeadsIn(disk, p, q, h)
    {
      SameHops(disk, changed, p, q, h);
    }
    hide Within, LeadsIn;
  }

  lemma StillVisible(disk: Disk, changed: Disk, p: Path)
    requires SameShape(disk, changed) && Visible(disk, p, DEPTH)
    ensures Visible(changed, p, DEPTH)
  {
    SameWalk(disk, changed, p);
    assert forall t :: Exists(changed, t) == Exists(disk, t);
    hide SameShape, Within, Readable, Includes, Exists;
  }

  lemma StillSeen(disk: Disk, changed: Disk, p: Path)
    requires SameShape(disk, changed) && IsSeen(disk, p)
    ensures IsSeen(changed, p)
  {
    SameWalk(disk, changed, p);
    assert forall q, i: nat, g :: Loads(changed, q, i, g) == Loads(disk, q, i, g);
    hide SameShape, Within, Readable, Params, Reachable, Loads;
    assert forall q, g :: Resolves(changed, q, g) == Resolves(disk, q, g);
    forall q | Reachable(changed, p, q)
      ensures IsSeenAt(changed, p, q)
    {
      assert IsSeenAt(disk, p, q);
    }
  }

  // ---- one file the walk does not see ----

  // The same files, where only g reads names: these.
  function Saying(disk: Disk, g: Path, vars: set<Name>, declared: set<Name>): (changed: Disk)
  {
    map a | a in disk :: disk[a].(text := if a == g then disk[a].text.(vars := vars, declared := declared)
                                          else disk[a].text.(vars := {}, declared := {}))
  }

  lemma SayingIs(disk: Disk, g: Path, vars: set<Name>, declared: set<Name>)
    ensures SameShape(disk, Saying(disk, g, vars, declared))
    ensures forall a :: Names(Saying(disk, g, vars, declared), a) ==
                        if a == g && Readable(disk, g) then vars + declared else {}
    ensures forall q, x :: FoundInParams(Saying(disk, g, vars, declared), q, x) ==> x in vars && Resolves(disk, q, g)
  {
    var changed := Saying(disk, g, vars, declared);
    forall q, x | FoundInParams(changed, q, x)
      ensures x in vars && Resolves(disk, q, g)
    {
      var i :| 0 <= i < |Params(changed, q)| && x in ParamNames(changed, Params(changed, q)[i]);
      assert Params(disk, q)[i].target == Some(g);
    }
  }

  // A file beyond the hops of the walk is enough to make the report wrong: let it declare x.  The
  // walk is as complete as before, and reports x as never read.
  lemma FarFileIsMissed(disk: Disk, p: Path, q: Path, x: Name)
    requires Visible(disk, p, DEPTH) && q in disk && Reachable(disk, p, q) && !Within(disk, p, q, DEPTH)
    ensures var changed := Saying(disk, q, {}, {x});
            && SameShape(disk, changed)
            && Reachable(changed, p, q) && Reads(changed, q, x)
            && NeverRead(x) in Unread(changed, p, [x])
  {
    var changed := Saying(disk, q, {}, {x});
    SayingIs(disk, q, {}, {x});
    SameWalk(disk, changed, p);
    StillVisible(disk, changed, p);
    assert Reads(changed, q, x);
    hide Saying, Within, Visible, FoundInParams, Names, SameShape, Reads, Reachable;
    UnreadMeans(changed, p, [x], x);
  }

  // So is a loaded param file that the walk does not take up, whether nothing resolves to it, it
  // cannot be opened, or another one is loaded in place of what the auditor opens: let it read x.
  lemma UnseenParamIsMissed(disk: Disk, p: Path, q: Path, i: nat, g: Path, x: Name)
    requires Visible(disk, p, DEPTH) && Reachable(disk, p, q) && Loads(disk, q, i, g) && !TakesUp(disk, p, g)
    ensures var changed := Saying(disk, g, {x}, {});
            && SameShape(disk, changed)
            && Reachable(changed, p, q) && Reads(changed, q, x)
            && NeverRead(x) in Unread(changed, p, [x])
  {
    var changed := Saying(disk, g, {x}, {});
    SayingIs(disk, g, {x}, {});
    SameWalk(disk, changed, p);
    StillVisible(disk, changed, p);
    assert Loads(changed, q, i, g) && x in changed[g].text.vars;
    hide Saying, Within, Visible, FoundInParams, Names, SameShape, Reachable, Resolves, Loads;
    UnreadMeans(changed, p, [x], x);
  }

  // The exact condition: after a complete walk the reports are right, whatever names the files read,
  // if and only if the walk sees every file that is launched and every param file those load.
  lemma RightExactlyWhenSeen(disk: Disk, p: Path)
    requires Visible(disk, p, DEPTH)
    ensures IsSeen(disk, p) <==> forall changed :: SameShape(disk, changed) ==> IsRight(changed, p)
  {
    hide SameShape, IsRight, Visible, Reachable, Loads, Within, TakesUp, Reads, Saying, Unread;
    if IsSeen(disk, p) {
      forall changed | SameShape(disk, changed)
        ensures IsRight(changed, p)
      {
        StillVisible(disk, changed, p);
        StillSeen(disk, changed, p);
        RightWhenSeen(changed, p);
      }
    } else {
      var q :| Reachable(disk, p, q) && !IsSeenAt(disk, p, q);
      if !Within(disk, p, q, DEPTH) {
        ReachableExists(disk, p, q);
        FarFileIsMissed(disk, p, q, "x");
        NotRight(Saying(disk, q, {}, {"x"}), p, q, "x");
      } else {
        var i, g :| Loads(disk, q, i, g) && !TakesUp(disk, p, g);
        UnseenParamIsMissed(disk, p, q, i, g, "x");
        NotRight(Saying(disk, g, {"x"}, {}), p, q, "x");
      }
    }
  }

  lemma {:induction false} LeadsToFiles(disk: Disk, p: Path, q: Path, h: nat)
    requires LeadsIn(disk, p, q, h)
    ensures p == q || q in disk
    decreases h
  {
    if p != q {
      var r :| LeadsTo(disk, p, r) && LeadsIn(disk, r, q, h - 1);
      LeadsToFiles(disk, r, q, h - 1);
    }
  }

  lemma ReachableExists(disk: Disk, p: Path, q: Path)
    requires Reachable(disk, p, q) && !Within(disk, p, q, DEPTH)
    ensures q in disk
  {
    var h: nat :| LeadsIn(disk, p, q, h);
    LeadsToFiles(disk, p, q, h);
  }

  lemma NotRight(disk: Disk, p: Path, q: Path, x: Name)
    requires Reachable(disk, p, q) && Reads(disk, q, x) && NeverRead(x) in Unread(disk, p, [x])
    ensures !IsRight(disk, p)
  {
    hide Reachable, Reads, Found, Visible;
    UnreadMeans(disk, p, [x], x);
  }

  // ---- such targets ----

  // One file, with param files of which the auditor opens the wrong one, none, and one it cannot
  // open: the first is an argument whose default is d and for which e is passed.
  function Blind(): Disk {
    var params := [Param(Some("d"), {"e"}), Param(None, {"f"}), Param(Some("g"), {"g"})];
    map["a" := File(Text({}, {"config"}, params, []), true),
        "d" := File(Text({}, {}, [], []), true), "e" := File(Text({"x"}, {}, [], []), true),
        "f" := File(Text({"y"}, {}, [], []), true), "g" := File(Text({"z"}, {}, [], []), false)]
  }

  lemma BlindHops(q: Path, h: nat)
    requires Within(Blind(), "a", q, h)
    ensures q == "a"
  {
    assert forall r :: !IncludesFile(Blind(), "a", r);
  }

  lemma BlindFile(x: Name)
    ensures Readable(Blind(), "a") && AllExist(Blind(), Includes(Blind(), "a"))
    ensures Names(Blind(), "a") == {"config"} && !FoundInParams(Blind(), "a", x)
    ensures Reads(Blind(), "a", "x") && Reads(Blind(), "a", "y") && Reads(Blind(), "a", "z")
  {
    assert "a"[0] != "d"[0] && "a"[0] != "e"[0] && "a"[0] != "f"[0] && "a"[0] != "g"[0] && "d"[0] != "e"[0];
    assert "d"[0] != "f"[0] && "d"[0] != "g"[0] && "e"[0] != "f"[0] && "e"[0] != "g"[0] && "f"[0] != "g"[0];
    assert Loads(Blind(), "a", 0, "e") && Loads(Blind(), "a", 1, "f") && Loads(Blind(), "a", 2, "g");
  }

  lemma UnopenedParamsAreMissed(x: Name)
    requires x == "x" || x == "y" || x == "z"
    ensures Reachable(Blind(), "a", "a") && Reads(Blind(), "a", x) && NeverRead(x) in Unread(Blind(), "a", [x])
  {
    assert LeadsIn(Blind(), "a", "a", 0);
    assert |"config"| == 6 && |x| == 1;
    BlindFile(x);
    forall q, h: nat | Within(Blind(), "a", q, h)
      ensures q == "a"
    {
      BlindHops(q, h);
    }
    hide Blind, Readable, AllExist, Includes, Names, FoundInParams, Reads, Within, Reachable;
    UnreadMeans(Blind(), "a", [x], x);
  }

  // A chain of four includes, the last of which loads a param file.
  function Launch(params: seq<Param>, includes: seq<Option<Path>>): File {
    File(Text({}, {}, params, includes), true)
  }

  function Chain(): Disk {
    map["a" := Launch([], [Some("b")]), "b" := Launch([], [Some("c")]), "c" := Launch([], [Some("d")]),
        "d" := Launch([], [Some("e")]), "e" := Launch([Param(Some("f"), {"f"})], []),
        "f" := File(Text({"x"}, {}, [], []), true)]
  }

  lemma ChainIncludes(p: Path, q: Path)
    ensures IncludesFile(Chain(), p, q) <==>
              (p == "a" && q == "b") || (p == "b" && q == "c") || (p == "c" && q == "d") || (p == "d" && q == "e")
    ensures LeadsTo(Chain(), p, q) == IncludesFile(Chain(), p, q)
  {
    assert "a"[0] != "b"[0] && "a"[0] != "c"[0] && "a"[0] != "d"[0] && "a"[0] != "e"[0] && "a"[0] != "f"[0];
    assert "b"[0] != "c"[0] && "b"[0] != "d"[0] && "b"[0] != "e"[0] && "b"[0] != "f"[0];
    assert "c"[0] != "d"[0] && "c"[0] != "e"[0] && "c"[0] != "f"[0];
    assert "d"[0] != "e"[0] && "d"[0] != "f"[0] && "e"[0] != "f"[0];
  }

  function Place(p: Path): nat {
    if p == "a" then 0
    else if p == "b" then 1
    else if p == "c" then 2
    else if p == "d" then 3
    else if p == "e" then 4 else 5
  }

  lemma {:induction false} ChainHops(p: Path, q: Path, h: nat)
    requires Within(Chain(), p, q, h)
    ensures p == q || (Place(p) < Place(q) <= Place(p) + h && Place(q) <= 4)
    decreases h
  {
    hide Chain, IncludesFile;
    if p != q {
      var r :| IncludesFile(Chain(), p, r) && Within(Chain(), r, q, h - 1);
      ChainIncludes(p, r);
      ChainHops(r, q, h - 1);
    }
  }

  lemma OneHop(p: Path, r: Path, q: Path, h: nat)
    requires LeadsTo(Chain(), p, r) && LeadsIn(Chain(), r, q, h)
    ensures LeadsIn(Chain(), p, q, h + 1)
  {
    hide Chain, LeadsTo;
  }

  lemma ChainReaches()
    ensures Reachable(Chain(), "a", "e")
  {
    ChainIncludes("a", "b");
    ChainIncludes("b", "c");
    ChainIncludes("c", "d");
    ChainIncludes("d", "e");
    hide Chain, LeadsTo;
    OneHop("d", "e", "e", 0);
    OneHop("c", "d", "e", 1);
    OneHop("b", "c", "e", 2);
    OneHop("a", "b", "e", 3);
  }

  lemma ChainFile(q: Path)
    requires q == "a" || Place(q) <= 4
    ensures Readable(Chain(), q) && AllExist(Chain(), Includes(Chain(), q))
    ensures "x" !in Names(Chain(), q) && (FoundInParams(Chain(), q, "x") <==> q == "e")
            && (q == "e" ==> Reads(Chain(), q, "x"))
  {
    if q == "e" {
      assert Loads(Chain(), "e", 0, "f") && "x" in ParamNames(Chain(), Params(Chain(), "e")[0]);
    }
  }

  lemma FourHopsAreTooMany()
    ensures Reachable(Chain(), "a", "e") && Reads(Chain(), "e", "x")
    ensures NeverRead("x") in Unread(Chain(), "a", ["x"])
  {
    ChainReaches();
    ChainFile("e");
    hide Chain, Readable, AllExist, Includes, Names, FoundInParams, Reads;
    forall q, h: nat | Within(Chain(), "a", q, h)
      ensures Readable(Chain(), q) && AllExist(Chain(), Includes(Chain(), q))
      ensures "x" !in Names(Chain(), q) && (h < 4 ==> !FoundInParams(Chain(), q, "x"))
    {
      ChainHops("a", q, h);
      ChainFile(q);
    }
    hide Within;
    UnreadMeans(Chain(), "a", ["x"], "x");
  }
}
