/** What a finished, uncancelled run has done, whatever the order in which its steps returned. */
module FlowOutcome {
  import opened Basics
  import opened Wrappers
  import opened FlowGraph
  import opened FlowValidation
  import opened FlowEngine
  import opened FlowRuns

  datatype Scenario = Scenario(steps: seq<Step>, g: Graph, order: seq<string>, outcome: Behaviour, s0: State)
  {
    /** A valid acyclic flow, started with some steps completed (with all they depend on) and some failed. */
    ghost predicate Valid() {
      && WellFormed(steps, g) && Closed(g) && TopologicalOrder(g, order)
      && s0 == Start(s0.completed, s0.failed)
      && s0.completed.Keys <= g.Keys && s0.failed.Keys <= g.Keys && s0.completed.Keys !! s0.failed.Keys
      && (forall id, dep :: id in s0.completed && dep in g[id] ==> dep in s0.completed)
    }

    /** f ends a run in which the coordinator left by itself. */
    ghost predicate Ends(run: seq<State>, f: State) {
      && IsRun(steps, outcome, s0, run) && f == run[|run| - 1]
      && f.phase.Done? && !WasCancelled(f)
    }

    /** f ends some such run. */
    ghost predicate Finishes(f: State) {
      exists run :: Ends(run, f)
    }
  }

  lemma FinishedFacts(sc: Scenario, f: State)
    requires sc.Valid() && sc.Finishes(f)
    ensures Inv(sc.g, sc.outcome, sc.s0, f) && Control(sc.steps, sc.s0, f)
    ensures f.running == {} && ReadyIDs(sc.steps, f) == []
  {
    var run :| sc.Ends(run, f);
    RunKeepsInv(sc.steps, sc.g, sc.outcome, sc.s0, run, |run| - 1);
    RunKeepsControl(sc.steps, sc.g, sc.outcome, sc.s0, run, |run| - 1);
  }

  /**
    At the end, a step not accounted for from the start is accounted for exactly when all its dependencies completed.
   */
  lemma AccountedExactly(sc: Scenario, f: State, id: string)
    requires sc.Valid() && sc.Finishes(f) && id in sc.g && !sc.s0.Accounted(id)
    ensures f.Accounted(id) <==> forall dep :: dep in sc.g[id] ==> dep in f.completed
  {
    FinishedFacts(sc, f);
    if f.Accounted(id) {
      assert id in f.dispatched;
    } else {
      var i :| 0 <= i < |sc.steps| && sc.steps[i].id == id;
      assert id !in ReadyIDs(sc.steps, f);
      assert !IsReady(f, sc.steps[i]);
    }
  }

  /** Completed steps have all their dependencies completed; newly failed ones too. */
  lemma DepsOfAccounted(sc: Scenario, f: State, id: string, dep: string)
    requires sc.Valid() && sc.Finishes(f) && id in sc.g && dep in sc.g[id]
    requires id in f.completed || (id in f.failed && id !in sc.s0.failed)
    ensures dep in f.completed
  {
    FinishedFacts(sc, f);
    if id !in sc.s0.completed {
      assert id !in sc.s0.failed;
      assert id in f.dispatched;
    }
  }

  lemma OnlySteps(sc: Scenario, f: State)
    requires sc.Valid() && sc.Finishes(f)
    ensures f.completed.Keys <= sc.g.Keys && f.failed.Keys <= sc.g.Keys
  {
    FinishedFacts(sc, f);
    forall id | f.Accounted(id) ensures id in sc.g {
      assert sc.s0.Accounted(id) || id in f.dispatched;
    }
  }

  // ---------- Which steps never run ----------

  /** Some step that id depends on, directly or not, failed. */
  ghost predicate FailedAncestor(g: Graph, f: State, id: string) {
    exists p :: FailedPath(g, f, id, p)
  }

  ghost predicate FailedPath(g: Graph, f: State, id: string, p: seq<string>) {
    DepPath(g, p) && |p| > 1 && p[0] == id && p[|p| - 1] in f.failed
  }

  lemma {:induction false} SkippedHasFailedAncestor(sc: Scenario, f: State, k: nat)
    requires sc.Valid() && sc.Finishes(f) && k < |sc.order| && !f.Accounted(sc.order[k])
    ensures FailedAncestor(sc.g, f, sc.order[k])
    decreases k
  {
    var id := sc.order[k];
    FinishedFacts(sc, f);
    AccountedExactly(sc, f, id);
    hide sc.Finishes, FailedAncestor, Inv, Control;
    var dep :| dep in sc.g[id] && dep !in f.completed;
    assert dep in sc.order[..k];
    var j :| 0 <= j < k && sc.order[j] == dep;
    if dep !in f.failed {
      SkippedHasFailedAncestor(sc, f, j);
    }
    AncestorOfDependency(sc.g, f, id, dep);
  }

  lemma AncestorOfDependency(g: Graph, f: State, id: string, dep: string)
    requires id in g && dep in g[id] && dep in g
    requires dep in f.failed || FailedAncestor(g, f, dep)
    ensures FailedAncestor(g, f, id)
  {
    if dep in f.failed {
      assert FailedPath(g, f, id, [id, dep]);
    } else {
      var p :| FailedPath(g, f, dep, p);
      var q := [id] + p;
      forall i | 0 <= i < |q| - 1 ensures q[i + 1] in g[q[i]] {
        if i > 0 {
          assert p[(i - 1) + 1] in g[p[i - 1]];
        }
      }
      assert FailedPath(g, f, id, q);
    }
  }

  lemma {:induction false} PathOfCompleted(sc: Scenario, f: State, p: seq<string>, j: nat)
    requires sc.Valid() && sc.Finishes(f) && DepPath(sc.g, p) && 0 < j < |p|
    requires p[0] in f.completed || (p[0] in f.failed && p[0] !in sc.s0.failed)
    ensures p[j] in f.completed
  {
    if j > 1 {
      PathOfCompleted(sc, f, p, j - 1);
    }
    assert p[(j - 1) + 1] in sc.g[p[j - 1]];
    DepsOfAccounted(sc, f, p[j - 1], p[j]);
  }

  /**
    In a run that starts without failures, the steps that never ran are exactly those with a failed transitive
    dependency.
   */
  lemma NeverRunExactly(sc: Scenario, f: State, id: string)
    requires sc.Valid() && sc.s0.failed == map[] && sc.Finishes(f) && id in sc.g
    ensures !f.Accounted(id) <==> FailedAncestor(sc.g, f, id)
  {
    if !f.Accounted(id) {
      SkippedHasFailedAncestor(sc, f, Position(sc.order, id));
    } else if p :| FailedPath(sc.g, f, id, p) {
      PathOfCompleted(sc, f, p, |p| - 1);
      FinishedFacts(sc, f);
      assert false;
    }
  }

  // ---------- The reported status ----------

  lemma {:induction false} GraphSize(steps: seq<Step>, g: Graph)
    requires GoodIDs(steps) && IsGraphOf(steps, g)
    ensures |g.Keys| == |steps|
  {
    if steps == [] {
      assert forall id :: !HasStep(steps, id);
      assert g.Keys == {};
    } else {
      var front, last := steps[..|steps| - 1], steps[|steps| - 1];
      DropLastStep(steps, g);
      GraphSize(front, g - {last.id});
      hide GoodIDs, HasStep;
      assert last.id in g by { assert IsGraphOf(steps, g); }
      assert g.Keys == (g - {last.id}).Keys + {last.id};
    }
  }

  lemma DropLastStep(steps: seq<Step>, g: Graph)
    requires GoodIDs(steps) && IsGraphOf(steps, g) && steps != []
    ensures GoodIDs(steps[..|steps| - 1]) && IsGraphOf(steps[..|steps| - 1], g - {steps[|steps| - 1].id})
  {
    var front, last := steps[..|steps| - 1], steps[|steps| - 1];
    assert steps == front + [last];
    forall id ensures HasStep(steps, id) <==> HasStep(front, id) || id == last.id {
      HasStepNext(front, last, id);
    }
    LastIDIsNew(steps);
    hide HasStep;
    assert forall i :: 0 <= i < |front| ==> front[i] == steps[i];
  }

  lemma LastIDIsNew(steps: seq<Step>)
    requires GoodIDs(steps) && steps != []
    ensures !HasStep(steps[..|steps| - 1], steps[|steps| - 1].id)
  {
    var front, last := steps[..|steps| - 1], steps[|steps| - 1];
    forall i | 0 <= i < |front| ensures front[i].id != last.id {
      assert front[i] == steps[i];
    }
  }

  /** Completed and failed together cover the flow exactly when they count as many entries as there are steps. */
  lemma CountsAll(sc: Scenario, f: State)
    requires sc.Valid() && sc.Finishes(f)
    ensures |f.completed| + |f.failed| >= |sc.steps| <==> forall id :: id in sc.g ==> f.Accounted(id)
  {
    FinishedFacts(sc, f);
    OnlySteps(sc, f);
    GraphSize(sc.steps, sc.g);
    assert SeparateMaps(f);
    CoverKeys(f.completed, f.failed, sc.g.Keys);
  }

  lemma CoverKeys(a: map<string, string>, b: map<string, string>, all: set<string>)
    requires a.Keys <= all && b.Keys <= all && forall id :: !(id in a && id in b)
    ensures |a| + |b| >= |all| <==> forall id :: id in all ==> id in a || id in b
  {
    var both := a.Keys + b.Keys;
    assert a.Keys !! b.Keys;
    assert |both| == |a.Keys| + |b.Keys|;
    SubsetSize(both, all);
    assert both == all <==> forall id :: id in all ==> id in a || id in b;
  }

  /** From a start without failures the run is reported completed exactly when every step completed. */
  lemma CompletedExactly(sc: Scenario, f: State)
    requires sc.Valid() && sc.s0.failed == map[] && sc.Finishes(f)
    ensures f.error.None? <==> forall id :: id in sc.g ==> id in f.completed
  {
    FinishedFacts(sc, f);
    CountsAll(sc, f);
    OnlySteps(sc, f);
    if NewFailure(sc.s0, f) {
      var id :| id in f.failed && id !in sc.s0.failed;
      assert id !in f.completed;
    } else {
      assert forall id :: id !in f.failed;
    }
  }

  // ---------- The reported error ----------

  /** With its step j + 1 the run records its first failure, that of step id. */
  ghost predicate FirstFailure(s0: State, run: seq<State>, j: int, id: string, message: string) {
    && 0 <= j < |run| - 1 && !NewFailure(s0, run[j])
    && id !in run[j].failed && id in run[j + 1].failed && run[j + 1].failed[id] == message
  }

  ghost predicate FailedFirst(s0: State, run: seq<State>, message: string) {
    exists j, id :: FirstFailure(s0, run, j, id, message)
  }

  /** The error before the coordinator has left: the first failure if there is any. */
  ghost predicate KeepsFirst(s0: State, run: seq<State>, s: State) {
    if NewFailure(s0, s) then s.error.Some? && s.error.value.StepFailed? && FailedFirst(s0, run, s.error.value.message)
    else s.error.None?
  }

  /** The error once it has left by itself: what is unreachable counts more than what failed. */
  ghost predicate Concludes(steps: seq<Step>, s0: State, run: seq<State>, s: State) {
    if |s.completed| + |s.failed| < |steps| then
      s.error == Some(Stalled(|steps| - (|s.completed| + |s.failed|), |steps|))
    else KeepsFirst(s0, run, s)
  }

  ghost predicate Reports(steps: seq<Step>, s0: State, run: seq<State>, s: State) {
    if s.phase.Done? then WasCancelled(s) || Concludes(steps, s0, run, s) else KeepsFirst(s0, run, s)
  }

  lemma SameReport(steps: seq<Step>, s0: State, run: seq<State>, s: State, s': State)
    requires Reports(steps, s0, run, s)
    requires s'.completed == s.completed && s'.failed == s.failed && s'.error == s.error
    requires s'.phase.Done? <==> s.phase.Done?
    ensures Reports(steps, s0, run, s')
  {
    assert NewFailure(s0, s') <==> NewFailure(s0, s);
    hide NewFailure, FailedFirst;
  }

  lemma CoordinateReports(steps: seq<Step>, s0: State, run: seq<State>, s: State)
    requires Reports(steps, s0, run, s) && s.phase.Coordinating?
    ensures Reports(steps, s0, run, Coordinate(steps, s))
  {
    var s' := Coordinate(steps, s);
    CoordinateDispatches(steps, s);
    assert NewFailure(s0, s') <==> NewFailure(s0, s);
    hide NewFailure, FailedFirst, ReadyIDs, Workforce, Elements, Dispatched;
  }

  lemma ReceiveReports(steps: seq<Step>, s0: State, run: seq<State>, i: nat)
    requires i + 1 < |run| && run[i].channel != [] && run[i + 1] == Receive(run[i])
    requires SeparateMaps(run[i]) && run[i].channel[0].id in run[i].running && Keeps(s0, run[i])
    requires Reports(steps, s0, run, run[i]) && run[i].phase.Waiting?
    ensures Reports(steps, s0, run, run[i + 1])
  {
    var s, s', f := run[i], run[i + 1], run[i].channel[0];
    assert f.id !in s.failed && f.id !in s0.failed;
    if f.outcome.Err? {
      assert f.id in s'.failed;
      assert NewFailure(s0, s');
      if !NewFailure(s0, s) {
        assert FirstFailure(s0, run, i, f.id, f.outcome.message);
      }
    } else {
      assert s'.failed == s.failed;
      assert NewFailure(s0, s') <==> NewFailure(s0, s);
    }
    hide NewFailure, SeparateMaps, Keeps;
  }

  lemma NextReports(steps: seq<Step>, outcome: Behaviour, s0: State, run: seq<State>, i: nat)
    requires i + 1 < |run| && Next(steps, outcome, run[i], run[i + 1]) && Reports(steps, s0, run, run[i])
    requires SeparateMaps(run[i]) && Keeps(s0, run[i])
    requires run[i].channel != [] ==> run[i].channel[0].id in run[i].running
    ensures Reports(steps, s0, run, run[i + 1])
  {
    hide Coordinate, Receive, Reports, SeparateMaps, Keeps, Within;
    var s, s' := run[i], run[i + 1];
    if s.phase.Coordinating? && s' == Coordinate(steps, s) {
      CoordinateReports(steps, s0, run, s);
    } else if id, view :| Sends(steps, outcome, s, s', id, view) {
      SameReport(steps, s0, run, s, s');
    } else if Receives(s, s') {
      ReceiveReports(steps, s0, run, i);
    } else {
      CancelReports(steps, s0, run, s');
    }
  }

  lemma InvMeans(g: Graph, outcome: Behaviour, s0: State, s: State)
    requires Inv(g, outcome, s0, s)
    ensures SeparateMaps(s) && Keeps(s0, s) && (s.channel != [] ==> s.channel[0].id in s.running)
  {
    if s.channel != [] {
      ReceiveWorkers(s);
    }
  }

  lemma {:induction false} RunReports(steps: seq<Step>, g: Graph, outcome: Behaviour, s0: State, run: seq<State>,
                                      i: nat)
    requires WellFormed(steps, g) && s0 == Start(s0.completed, s0.failed) && s0.completed.Keys !! s0.failed.Keys
    requires IsRun(steps, outcome, s0, run) && i < |run|
    ensures Reports(steps, s0, run, run[i])
  {
    if i == 0 {
      assert !NewFailure(s0, s0);
    } else {
      hide Reports, Inv, SeparateMaps, Keeps, Next, WellFormed;
      RunReports(steps, g, outcome, s0, run, i - 1);
      RunKeepsInv(steps, g, outcome, s0, run, i - 1);
      InvMeans(g, outcome, s0, run[i - 1]);
      assert Next(steps, outcome, run[i - 1], run[(i - 1) + 1]);
      NextReports(steps, outcome, s0, run, i - 1);
    }
  }

  lemma CancelReports(steps: seq<Step>, s0: State, run: seq<State>, s: State)
    requires s.phase.Done? && WasCancelled(s)
    ensures Reports(steps, s0, run, s)
  {
  }

  /** The steps that never ran. */
  ghost function Unreached(sc: Scenario, f: State): set<string> {
    sc.g.Keys - f.completed.Keys - f.failed.Keys
  }

  lemma MapsOfSteps(sc: Scenario, f: State)
    requires sc.Valid() && sc.Finishes(f)
    ensures f.completed.Keys <= sc.g.Keys && f.failed.Keys <= sc.g.Keys && |sc.g.Keys| == |sc.steps|
    ensures forall id :: !(id in f.completed.Keys && id in f.failed.Keys)
  {
    FinishedFacts(sc, f);
    OnlySteps(sc, f);
    GraphSize(sc.steps, sc.g);
    assert SeparateMaps(f);
    hide sc.Finishes, Dispatches, Workers, Views, Results, Keeps, Control;
  }

  lemma UnreachedCount(sc: Scenario, f: State)
    requires sc.Valid() && sc.Finishes(f)
    ensures |Unreached(sc, f)| == |sc.steps| - (|f.completed| + |f.failed|)
  {
    hide sc.Valid, sc.Finishes;
    MapsOfSteps(sc, f);
    LeftOver(f.completed.Keys, f.failed.Keys, sc.g.Keys);
  }

  lemma LeftOver(a: set<string>, b: set<string>, all: set<string>)
    requires a <= all && b <= all && forall id :: !(id in a && id in b)
    ensures |all - a - b| == |all| - (|a| + |b|)
  {
    assert |all - a| == |all| - |a|;
    assert b <= all - a;
    assert |all - a - b| == |all - a| - |b|;
  }

  /**
    How many steps were never reached, if there are any; otherwise the failure that was received first; none if nothing
    failed.
   */
  ghost predicate RightError(sc: Scenario, run: seq<State>, f: State) {
    if Unreached(sc, f) != {} then f.error == Some(Stalled(|Unreached(sc, f)|, |sc.steps|))
    else if exists id :: id in f.failed && id !in sc.s0.failed then
      exists j, id, message :: FirstFailure(sc.s0, run, j, id, message) && f.error == Some(StepFailed(message))
    else f.error.None?
  }

  /** Which error an uncancelled run reports. */
  lemma ErrorExactly(sc: Scenario, run: seq<State>, f: State)
    requires sc.Valid() && sc.Ends(run, f)
    ensures RightError(sc, run, f)
  {
    RunReports(sc.steps, sc.g, sc.outcome, sc.s0, run, |run| - 1);
    assert sc.Finishes(f);
    UnreachedCount(sc, f);
    hide sc.Valid, IsRun, Unreached, sc.Finishes;
    ErrorFits(sc, run, f);
  }

  lemma ErrorFits(sc: Scenario, run: seq<State>, f: State)
    requires Concludes(sc.steps, sc.s0, run, f) && |Unreached(sc, f)| == |sc.steps| - (|f.completed| + |f.failed|)
    ensures RightError(sc, run, f)
  {
    hide Unreached, FirstFailure;
    if Unreached(sc, f) == {} && NewFailure(sc.s0, f) {
      var j, id :| FirstFailure(sc.s0, run, j, id, f.error.value.message);
    }
  }

  // ---------- The reported status of resumed runs ----------

  /** No step depends on one whose failure was recorded before the run; the failed steps themselves do not count. */
  ghost predicate NoneBlocked(sc: Scenario) {
    forall id, dep :: id in sc.g && id !in sc.s0.failed && dep in sc.g[id] ==> dep !in sc.s0.failed
  }

  lemma {:induction false} AllReached(sc: Scenario, f: State, k: nat)
    requires sc.Valid() && sc.Finishes(f) && k < |sc.order|
    requires NoneBlocked(sc) && !NewFailure(sc.s0, f)
    ensures f.Accounted(sc.order[k])
    decreases k
  {
    var id := sc.order[k];
    FinishedFacts(sc, f);
    if !sc.s0.Accounted(id) {
      forall dep | dep in sc.g[id] ensures dep in f.completed {
        assert dep in sc.order[..k];
        var j :| 0 <= j < k && sc.order[j] == dep;
        AllReached(sc, f, j);
      }
      AccountedExactly(sc, f, id);
    }
  }

  /** Step id succeeds on some outputs it may find. */
  ghost predicate MaySucceed(sc: Scenario, f: State, id: string) {
    exists view :: CanFind(sc.g, sc.s0, f.completed, id, view) && sc.outcome(id, view).Ok?
  }

  /** Step id succeeds on all outputs it may find. */
  ghost predicate MustSucceed(sc: Scenario, f: State, id: string) {
    forall view :: CanFind(sc.g, sc.s0, f.completed, id, view) ==> sc.outcome(id, view).Ok?
  }

  /** No step's result depends on which of the outputs in f, beside those it depends on, it finds. */
  ghost predicate Steady(sc: Scenario, f: State) {
    forall id, v1, v2 :: CanFind(sc.g, sc.s0, f.completed, id, v1) && CanFind(sc.g, sc.s0, f.completed, id, v2) ==>
      sc.outcome(id, v1) == sc.outcome(id, v2)
  }

  /**
    A run, resumed or fresh, is reported completed exactly when no step that ran failed and no step depends on one whose
    failure was already recorded: recorded failures themselves are not reported again.
   */
  lemma ResumedFailureExactly(sc: Scenario, f: State)
    requires sc.Valid() && sc.Finishes(f)
    ensures f.error.None? <==> NoneBlocked(sc) && !NewFailure(sc.s0, f)
  {
    FinishedFacts(sc, f);
    CountsAll(sc, f);
    hide Inv, sc.Valid, sc.Finishes;
    if NoneBlocked(sc) && !NewFailure(sc.s0, f) {
      forall id | id in sc.g ensures f.Accounted(id) {
        OrderLists(sc, id);
        AllReached(sc, f, Position(sc.order, id));
      }
    } else if !NoneBlocked(sc) {
      var id, dep :| id in sc.g && id !in sc.s0.failed && dep in sc.g[id] && dep in sc.s0.failed;
      BlockedByOldFailure(sc, f, id, dep);
    }
  }

  lemma OrderLists(sc: Scenario, id: string)
    requires sc.Valid() && id in sc.g
    ensures id in sc.order
  {
  }

  /**
    The same in terms of what the steps do: a completed run needs every step not accounted for at the start to succeed
    on outputs it may find; it is enough if they all do so whatever they find; and for steady steps both are one
    condition.
   */
  lemma SuccessDecides(sc: Scenario, f: State)
    requires sc.Valid() && sc.Finishes(f)
    ensures f.error.None? ==> NoneBlocked(sc) && forall id :: id in sc.g && !sc.s0.Accounted(id) ==>
              MaySucceed(sc, f, id)
    ensures NoneBlocked(sc) && (forall id :: id in sc.g && !sc.s0.Accounted(id) ==> MustSucceed(sc, f, id)) ==>
              f.error.None?
    ensures Steady(sc, f) ==>
              (f.error.None? <==>
               NoneBlocked(sc) && forall id :: id in sc.g && !sc.s0.Accounted(id) ==> MaySucceed(sc, f, id))
  {
    FinishedFacts(sc, f);
    ResumedFailureExactly(sc, f);
    CountsAll(sc, f);
    hide CanFind, sc.Valid, sc.Finishes, Dispatches, Views, Workers, NoneBlocked;
    if f.error.None? {
      forall id | id in sc.g && !sc.s0.Accounted(id) ensures MaySucceed(sc, f, id) {
        assert f.Accounted(id) && id !in f.failed;
        assert Returned(sc.g, sc.outcome, sc.s0, f.completed, id, Ok(f.completed[id]));
      }
    }
    if id :| id in f.failed && id !in sc.s0.failed {
      assert Returned(sc.g, sc.outcome, sc.s0, f.completed, id, Err(f.failed[id]));
      assert !sc.s0.Accounted(id) && !MustSucceed(sc, f, id);
      OnlyStepIDs(sc, f, id);
      assert Steady(sc, f) ==> !MaySucceed(sc, f, id);
    }
  }

  lemma OnlyStepIDs(sc: Scenario, f: State, id: string)
    requires sc.Valid() && sc.Finishes(f) && f.Accounted(id)
    ensures id in sc.g
  {
    OnlySteps(sc, f);
  }

  lemma BlockedByOldFailure(sc: Scenario, f: State, id: string, dep: string)
    requires sc.Valid() && sc.Finishes(f) && id in sc.g && id !in sc.s0.failed && dep in sc.g[id] && dep in sc.s0.failed
    ensures !f.Accounted(id)
  {
    FinishedFacts(sc, f);
    if f.Accounted(id) {
      DepsOfAccounted(sc, f, id, dep);
    }
  }

  /** One step, recorded as failed before the run resumed: the run is reported completed although nothing completed. */
  lemma ResumedFailureReportedCompleted(outcome: Behaviour)
    ensures var steps := [Step("a", Shell, [], "", "")];
            var s0 := Start(map[], map["a" := "exit 1"]);
            var sc := Scenario(steps, map["a" := []], ["a"], outcome, s0);
            sc.Valid() && exists f :: sc.Finishes(f) && f.error.None? && f.completed == map[]
  {
    var steps := [Step("a", Shell, [], "", "")];
    var s0 := Start(map[], map["a" := "exit 1"]);
    var sc := Scenario(steps, map["a" := []], ["a"], outcome, s0);
    assert steps[0].id == "a";
    assert forall id :: HasStep(steps, id) <==> id == "a";
    assert !IsReady(s0, steps[0]);
    assert ReadyIDs(steps[..0], s0) == [];
    assert ReadyIDs(steps, s0) == [];
    var f := Coordinate(steps, s0);
    assert sc.Ends([s0, f], f);
  }
}
