/** The checks a flow passes before it is saved. */
module FlowValidation {
  import opened Basics
  import opened Wrappers
  import opened FlowGraph

  datatype FlowError =
    | EmptyID
    | DuplicateID(id: string)
    | WriteCollision(first: string, second: string, target: string)
    | UnknownDependency(step: string, dep: string)
    | SelfDependency(step: string)
    | CyclicDependency(cycle: seq<string>)

  /** The path a step writes, or "" if it writes none. */
  function SaveTarget(s: Step): string {
    var p := if s.saveTo == "" then s.path else s.saveTo;
    if s.kind == Save || s.kind == AI then p else ""
  }

  ghost predicate GoodIDs(steps: seq<Step>) {
    && (forall i :: 0 <= i < |steps| ==> steps[i].id != "")
    && forall i, j :: 0 <= i < j < |steps| ==> steps[i].id != steps[j].id
  }

  ghost predicate NoCollisions(steps: seq<Step>) {
    forall i, j :: 0 <= i < j < |steps| && SaveTarget(steps[i]) != "" ==> SaveTarget(steps[i]) != SaveTarget(steps[j])
  }

  ghost predicate HasStep(steps: seq<Step>, id: string) {
    exists i :: 0 <= i < |steps| && steps[i].id == id
  }

  ghost predicate GoodReference(steps: seq<Step>, s: Step, dep: string) {
    HasStep(steps, dep) && dep != s.id
  }

  ghost predicate GoodReferences(steps: seq<Step>) {
    forall i, dep :: 0 <= i < |steps| && dep in steps[i].dependsOn ==> GoodReference(steps, steps[i], dep)
  }

  /** g maps the id of each step to what it depends on. */
  ghost predicate IsGraphOf(steps: seq<Step>, g: Graph) {
    && (forall id :: id in g <==> HasStep(steps, id))
    && forall i :: 0 <= i < |steps| ==> steps[i].id in g && g[steps[i].id] == steps[i].dependsOn
  }

  /** Everything validation promises about an accepted flow. */
  ghost predicate ValidFlow(steps: seq<Step>) {
    && GoodIDs(steps) && NoCollisions(steps) && GoodReferences(steps)
    && exists g :: IsGraphOf(steps, g) && Acyclic(g)
  }

  ghost predicate BothWrite(a: Step, b: Step, first: string, second: string, target: string) {
    a.id == first && b.id == second && SaveTarget(a) == SaveTarget(b) == target
  }

  /** The error is about a defect the flow really has. */
  ghost predicate Justified(steps: seq<Step>, e: FlowError) {
    match e
    case EmptyID => HasStep(steps, "")
    case DuplicateID(id) => exists i, j :: 0 <= i < j < |steps| && steps[i].id == steps[j].id == id
    case WriteCollision(first, second, target) =>
      target != "" &&
      exists i, j :: 0 <= i < j < |steps| && BothWrite(steps[i], steps[j], first, second, target)
    case UnknownDependency(id, dep) =>
      !HasStep(steps, dep) && exists i :: 0 <= i < |steps| && steps[i].id == id && dep in steps[i].dependsOn
    case SelfDependency(id) => exists i :: 0 <= i < |steps| && steps[i].id == id && id in steps[i].dependsOn
    case CyclicDependency(c) => exists g :: IsGraphOf(steps, g) && IsCycle(g, c)
  }

  lemma GraphUnique(steps: seq<Step>, g: Graph, h: Graph)
    requires IsGraphOf(steps, g) && IsGraphOf(steps, h)
    ensures g == h
  {
    assert forall id :: id in g <==> HasStep(steps, id);
    forall id | id in g ensures g[id] == h[id] {
      var i :| 0 <= i < |steps| && steps[i].id == id;
    }
  }

  /** A justified error means the flow is not valid. */
  lemma JustifiedMeansInvalid(steps: seq<Step>, e: FlowError)
    requires Justified(steps, e)
    ensures !ValidFlow(steps)
  {
    match e
    case EmptyID => var i :| 0 <= i < |steps| && steps[i].id == "";
    case DuplicateID(id) =>
    case WriteCollision(first, second, target) =>
    case UnknownDependency(id, dep) =>
    case SelfDependency(id) =>
    case CyclicDependency(c) =>
      var g :| IsGraphOf(steps, g) && IsCycle(g, c);
      CycleRefutesOrder(g, c);
      forall h | IsGraphOf(steps, h) ensures !Acyclic(h) {
        GraphUnique(steps, g, h);
      }
  }

  // ---------- What validation means for the files that are written ----------

  /** The step writes this file: a save or AI step, to save_to if that is given and to path otherwise. */
  ghost predicate WritesFile(s: Step, file: string) {
    && (s.kind == Save || s.kind == AI) && file != ""
    && ((s.saveTo != "" && file == s.saveTo) || (s.saveTo == "" && file == s.path))
  }

  lemma TargetIsWritten(s: Step, file: string)
    ensures WritesFile(s, file) <==> file != "" && SaveTarget(s) == file
  {
  }

  /** In an accepted flow no two steps write one file. */
  lemma AcceptedFlowsWriteApart(steps: seq<Step>, i: nat, j: nat, file: string)
    requires ValidFlow(steps) && i < j < |steps|
    ensures !(WritesFile(steps[i], file) && WritesFile(steps[j], file))
  {
    TargetIsWritten(steps[i], file);
    TargetIsWritten(steps[j], file);
  }

  /** A reported collision is between two steps, named in list order, that do write the named file. */
  lemma CollisionIsReal(steps: seq<Step>, first: string, second: string, file: string)
    requires Justified(steps, WriteCollision(first, second, file))
    ensures exists i, j :: 0 <= i < j < |steps| && steps[i].id == first && steps[j].id == second &&
              WritesFile(steps[i], file) && WritesFile(steps[j], file)
  {
    var i, j :| 0 <= i < j < |steps| && BothWrite(steps[i], steps[j], first, second, file);
    TargetIsWritten(steps[i], file);
    TargetIsWritten(steps[j], file);
  }

  /** Two AI steps that save to one file make a flow invalid, whatever else it holds. */
  lemma TwoWritersRefused(steps: seq<Step>, i: nat, j: nat)
    requires i < j < |steps| && steps[i].kind == steps[j].kind == AI && steps[i].saveTo == steps[j].saveTo != ""
    ensures !ValidFlow(steps)
  {
    if ValidFlow(steps) {
      AcceptedFlowsWriteApart(steps, i, j, steps[i].saveTo);
    }
  }

  // ---------- Depth-first search ----------

  /** Colours of the search: absent is white, GREY is on the current path, BLACK is done. */
  const GREY := 1
  const BLACK := 2

  /** Black steps are the finished ones, listed dependencies first; grey steps are those on the path. */
  ghost predicate SearchState(g: Graph, color: map<string, int>, finished: seq<string>, path: seq<string>) {
    && Closed(g) && color.Keys <= g.Keys
    && (forall id :: id in color ==> color[id] == GREY || color[id] == BLACK)
    && (forall id :: id in finished <==> id in color && color[id] == BLACK)
    && Distinct(finished) && DepsFirst(g, finished)
    && (forall id :: id in path <==> id in color && color[id] == GREY)
    && (path != [] ==> DepPath(g, path))
  }

  /** A white step turns grey and joins the path. */
  lemma EnterStep(g: Graph, color: map<string, int>, finished: seq<string>, path: seq<string>, id: string)
    requires SearchState(g, color, finished, path) && id in g && id !in color
    requires path != [] ==> id in g[path[|path| - 1]]
    ensures SearchState(g, color[id := GREY], finished, path + [id])
    ensures id !in path
  {
    var longer := path + [id];
    forall i | 0 <= i < |longer| - 1 ensures longer[i + 1] in g[longer[i]] {
      if i < |path| - 1 {
        assert path[i + 1] in g[path[i]];
      }
    }
  }

  /** A grey step whose dependencies are all black turns black and is finished. */
  lemma LeaveStep(g: Graph, color: map<string, int>, finished: seq<string>, path: seq<string>, id: string)
    requires SearchState(g, color, finished, path + [id]) && id !in path
    requires forall dep :: dep in g[id] ==> dep in color && color[dep] == BLACK
    ensures SearchState(g, color[id := BLACK], finished + [id], path)
  {
    var longer, done := path + [id], finished + [id];
    assert id in longer;
    assert forall x :: x in longer <==> x == id || x in path;
    assert forall x :: x in done <==> x == id || x in finished;
    forall k, dep | 0 <= k < |done| && dep in g[done[k]] ensures dep in done[..k] {
      if k < |finished| {
        assert done[..k] == finished[..k];
      } else {
        assert done[..k] == finished;
      }
    }
    if path != [] {
      forall i | 0 <= i < |path| - 1 ensures path[i + 1] in g[path[i]] {
        assert longer[i + 1] in g[longer[i]];
      }
      assert forall i :: 0 <= i < |path| ==> path[i] == longer[i];
    }
  }

  /** Meeting a step already on the path closes a cycle. */
  lemma ClosesCycle(g: Graph, path: seq<string>, i: nat)
    requires i < |path| && DepPath(g, path) && path[i] in g[path[|path| - 1]]
    ensures IsCycle(g, path[i..] + [path[i]])
  {
    var c := path[i..] + [path[i]];
    forall k | 0 <= k < |c| - 1 ensures c[k + 1] in g[c[k]] {
      if k < |c| - 2 {
        assert path[i + k + 1] in g[path[i + k]];
      }
    }
  }

  class CycleFinder {
    const g: Graph
    var color: map<string, int>
    ghost var finished: seq<string>

    constructor (g: Graph)
      ensures this.g == g && color == map[] && finished == []
    {
      this.g, color, finished := g, map[], [];
    }

    ghost predicate Valid(path: seq<string>)
      reads this
    {
      SearchState(g, color, finished, path)
    }

    predicate Black(id: string)
      reads this
    {
      id in color && color[id] == BLACK
    }

    /** Explores a step that is a dependency of the end of the path. */
    method Visit(id: string, path: seq<string>) returns (err: Option<seq<string>>)
      requires Valid(path) && id in g
      requires path != [] ==> id in g[path[|path| - 1]]
      modifies this`color, this`finished
      ensures old(color.Keys) <= color.Keys
      ensures err.None? ==> Valid(path) && Black(id) && forall x :: old(Black(x)) ==> Black(x)
      ensures err.Some? ==> IsCycle(g, err.value)
      decreases g.Keys - color.Keys, 0
    {
      if Black(id) {
        return None;
      }
      if id in color && color[id] == GREY {
        for i := 0 to |path|
          invariant forall j :: 0 <= j < i ==> path[j] != id
        {
          if path[i] == id {
            ClosesCycle(g, path, i);
            return Some(path[i..] + [id]);
          }
        }
        assert false;
      }
      EnterStep(g, color, finished, path, id);
      hide SearchState;
      color := color[id := GREY];
      for k := 0 to |g[id]|
        invariant Valid(path + [id])
        invariant old(color.Keys) + {id} <= color.Keys
        invariant forall x :: old(Black(x)) ==> Black(x)
        invariant forall j :: 0 <= j < k ==> Black(g[id][j])
      {
        err := VisitDependency(id, path, k);
        if err.Some? {
          return;
        }
      }
      LeaveStep(g, color, finished, path, id);
      color, finished := color[id := BLACK], finished + [id];
      err := None;
    }

    /** Explores the k-th dependency of the step at the end of the path. */
    method VisitDependency(id: string, path: seq<string>, k: nat) returns (err: Option<seq<string>>)
      requires Valid(path + [id]) && id in g && id in color && k < |g[id]|
      modifies this`color, this`finished
      ensures old(color.Keys) <= color.Keys
      ensures err.None? ==> Valid(path + [id]) && Black(g[id][k]) && forall x :: old(Black(x)) ==> Black(x)
      ensures err.Some? ==> IsCycle(g, err.value)
      decreases g.Keys - color.Keys, 1
    {
      err := Visit(g[id][k], path + [id]);
    }
  }

  // ---------- Validation ----------

  lemma HasStepNext(steps: seq<Step>, s: Step, id: string)
    ensures HasStep(steps + [s], id) <==> HasStep(steps, id) || id == s.id
  {
    var all := steps + [s];
    if id == s.id {
      assert all[|steps|].id == id;
    } else if HasStep(steps, id) {
      var i :| 0 <= i < |steps| && steps[i].id == id;
      assert all[i].id == id;
    }
    if HasStep(all, id) && id != s.id {
      var i :| 0 <= i < |all| && all[i].id == id;
      assert steps[i].id == id;
    }
  }

  lemma CollectStep(steps: seq<Step>, g: Graph, s: Step)
    requires GoodIDs(steps) && IsGraphOf(steps, g) && s.id != "" && s.id !in g
    ensures GoodIDs(steps + [s]) && IsGraphOf(steps + [s], g[s.id := s.dependsOn])
  {
    forall id ensures HasStep(steps + [s], id) <==> HasStep(steps, id) || id == s.id {
      HasStepNext(steps, s, id);
    }
    hide HasStep;
    assert forall i :: 0 <= i < |steps| ==> steps[i].id in g;
  }

  ghost predicate TargetsOf(steps: seq<Step>, saveTargets: map<string, string>) {
    && (forall t :: t in saveTargets ==> t != "" && SomeoneWrites(steps, saveTargets[t], t))
    && forall i :: 0 <= i < |steps| && SaveTarget(steps[i]) != "" ==> SaveTarget(steps[i]) in saveTargets
  }

  ghost predicate SomeoneWrites(steps: seq<Step>, id: string, target: string) {
    exists i :: 0 <= i < |steps| && Writes(steps[i], id, target)
  }

  ghost predicate Writes(s: Step, id: string, target: string) {
    s.id == id && SaveTarget(s) == target
  }

  lemma CollectTarget(steps: seq<Step>, saveTargets: map<string, string>, s: Step)
    requires NoCollisions(steps) && TargetsOf(steps, saveTargets) && SaveTarget(s) !in saveTargets
    ensures NoCollisions(steps + [s])
    ensures TargetsOf(steps + [s], if SaveTarget(s) == "" then saveTargets else saveTargets[SaveTarget(s) := s.id])
  {
    hide SaveTarget;
    var all := steps + [s];
    assert Writes(all[|steps|], s.id, SaveTarget(s));
    forall id, t | SomeoneWrites(steps, id, t) ensures SomeoneWrites(all, id, t) {
      var i :| 0 <= i < |steps| && Writes(steps[i], id, t);
      assert Writes(all[i], id, t);
    }
  }

  lemma DuplicateJustified(steps: seq<Step>, i: nat)
    requires i < |steps| && HasStep(steps[..i], steps[i].id)
    ensures Justified(steps, DuplicateID(steps[i].id))
  {
    var j :| 0 <= j < i && steps[..i][j].id == steps[i].id;
    assert steps[j].id == steps[i].id;
  }

  lemma CollisionJustified(steps: seq<Step>, i: nat, first: string, target: string)
    requires i < |steps| && target == SaveTarget(steps[i]) != "" && SomeoneWrites(steps[..i], first, target)
    ensures Justified(steps, WriteCollision(first, steps[i].id, target))
  {
    var j :| 0 <= j < i && Writes(steps[..i][j], first, target);
    assert BothWrite(steps[j], steps[i], first, steps[i].id, target);
  }

  /** Ids and write targets, step by step; the first defect is reported. */
  method CheckSteps(steps: seq<Step>) returns (err: Option<FlowError>, g: Graph)
    ensures err.None? ==> GoodIDs(steps) && NoCollisions(steps) && IsGraphOf(steps, g)
    ensures err.Some? ==>
              Justified(steps, err.value) &&
              (err.value.EmptyID? || err.value.DuplicateID? || err.value.WriteCollision?)
  {
    hide GoodIDs, NoCollisions, SomeoneWrites, SaveTarget;
    g := map[];
    var saveTargets: map<string, string> := map[];
    NothingCollected();
    for i := 0 to |steps|
      invariant GoodIDs(steps[..i]) && NoCollisions(steps[..i]) && IsGraphOf(steps[..i], g) &&
                  TargetsOf(steps[..i], saveTargets)
    {
      var s := steps[i];
      if s.id == "" {
        assert HasStep(steps, "");
        return Some(EmptyID), g;
      }
      if s.id in g {
        DuplicateJustified(steps, i);
        return Some(DuplicateID(s.id)), g;
      }
      assert steps[..i + 1] == steps[..i] + [s];
      CollectStep(steps[..i], g, s);
      var target := SaveTarget(s);
      if target != "" && target in saveTargets {
        CollisionJustified(steps, i, saveTargets[target], target);
        return Some(WriteCollision(saveTargets[target], s.id, target)), g;
      }
      CollectTarget(steps[..i], saveTargets, s);
      if target != "" {
        saveTargets := saveTargets[target := s.id];
      }
      g := g[s.id := s.dependsOn];
    }
    assert steps[..|steps|] == steps;
    err := None;
  }

  lemma NothingCollected()
    ensures GoodIDs([]) && NoCollisions([]) && IsGraphOf([], map[]) && TargetsOf([], map[])
  {
  }

  /** Every dependency names another step of the flow; the first that does not is reported. */
  method CheckReferences(steps: seq<Step>, g: Graph) returns (err: Option<FlowError>)
    requires IsGraphOf(steps, g)
    ensures err.None? ==> GoodReferences(steps)
    ensures err.Some? ==> Justified(steps, err.value) && (err.value.UnknownDependency? || err.value.SelfDependency?)
  {
    for i := 0 to |steps|
      invariant forall j, dep :: 0 <= j < i && dep in steps[j].dependsOn ==> GoodReference(steps, steps[j], dep)
    {
      var deps := steps[i].dependsOn;
      for k := 0 to |deps|
        invariant forall m :: 0 <= m < k ==> GoodReference(steps, steps[i], deps[m])
      {
        if deps[k] !in g {
          return Some(UnknownDependency(steps[i].id, deps[k]));
        }
        if deps[k] == steps[i].id {
          return Some(SelfDependency(steps[i].id));
        }
      }
    }
    err := None;
  }

  lemma ReferencesClose(steps: seq<Step>, g: Graph)
    requires IsGraphOf(steps, g) && GoodReferences(steps)
    ensures Closed(g)
  {
    forall id, dep | id in g && dep in g[id] ensures dep in g {
      var i :| 0 <= i < |steps| && steps[i].id == id;
      assert GoodReference(steps, steps[i], dep);
    }
  }

  /** Colours every step; an error is a cycle. */
  method CheckAcyclic(steps: seq<Step>, g: Graph) returns (err: Option<FlowError>)
    requires IsGraphOf(steps, g) && Closed(g)
    ensures err.None? ==> Acyclic(g)
    ensures err.Some? ==> Justified(steps, err.value) && err.value.CyclicDependency?
  {
    var finder := new CycleFinder(g);
    assert finder.Valid([]);
    hide SearchState;
    for i := 0 to |steps|
      invariant finder.Valid([]) && finder.g == g
      invariant forall j :: 0 <= j < i ==> finder.Black(steps[j].id)
    {
      var cycle := finder.Visit(steps[i].id, []);
      if cycle.Some? {
        return Some(CyclicDependency(cycle.value));
      }
    }
    AllBlackIsAcyclic(steps, g, finder.color, finder.finished);
    err := None;
  }

  /** When no step is white any more, the finishing order is topological. */
  lemma AllBlackIsAcyclic(steps: seq<Step>, g: Graph, color: map<string, int>, finished: seq<string>)
    requires IsGraphOf(steps, g) && SearchState(g, color, finished, [])
    requires forall i :: 0 <= i < |steps| ==> steps[i].id in color && color[steps[i].id] == BLACK
    ensures Acyclic(g)
  {
    forall id | id in g ensures id in finished {
      var i :| 0 <= i < |steps| && steps[i].id == id;
    }
    assert TopologicalOrder(g, finished);
  }

  lemma AllChecksPassed(steps: seq<Step>, g: Graph)
    requires GoodIDs(steps) && NoCollisions(steps) && GoodReferences(steps) && IsGraphOf(steps, g) && Acyclic(g)
    ensures ValidFlow(steps)
  {
  }

  /**
    Accepts a flow exactly when it is valid; otherwise the error names a real defect, and one of references or cycles
    means that there is none of those checked before.
   */
  method ValidateDependencies(steps: seq<Step>) returns (err: Option<FlowError>)
    ensures err.None? <==> ValidFlow(steps)
    ensures err.Some? ==> Justified(steps, err.value)
    ensures err.Some? && (err.value.UnknownDependency? || err.value.SelfDependency? || err.value.CyclicDependency?) ==>
              GoodIDs(steps) && NoCollisions(steps)
    ensures err.Some? && err.value.CyclicDependency? ==> GoodReferences(steps)
  {
    hide ValidFlow, Justified, IsGraphOf, GoodIDs, NoCollisions, GoodReferences, Acyclic, Closed;
    var g;
    err, g := CheckSteps(steps);
    if err.None? {
      err := CheckReferences(steps, g);
      if err.None? {
        ReferencesClose(steps, g);
        err := CheckAcyclic(steps, g);
      }
    }
    if err.None? {
      AllChecksPassed(steps, g);
    } else {
      JustifiedMeansInvalid(steps, err.value);
    }
  }
}
