/** A flow from validation to its reported status. */
module FlowService {
  import opened Basics
  import opened Wrappers
  import opened FlowGraph
  import opened FlowValidation
  import opened FlowEngine
  import opened FlowRuns
  import opened FlowOutcome
  import opened FlowCoordinator
  import opened FlowSequential

  lemma {:induction false} GraphExists(steps: seq<Step>) returns (g: Graph)
    requires GoodIDs(steps)
    ensures IsGraphOf(steps, g)
  {
    g := map[];
    if steps != [] {
      var front, last := steps[..|steps| - 1], steps[|steps| - 1];
      g := GraphExists(front);
      forall i | 0 <= i < |front| ensures front[i].id != last.id {
        assert front[i] == steps[i];
      }
      assert !HasStep(front, last.id);
      CollectStep(front, g, last);
      assert steps == front + [last];
      g := g[last.id := last.dependsOn];
    }
  }

  lemma {:induction false} IDAt(steps: seq<Step>, k: nat)
    requires k < |steps|
    ensures |IDs(steps)| == |steps| && IDs(steps)[k] == steps[k].id
  {
    IDsSize(steps);
    if k < |steps| - 1 {
      IDAt(steps[..|steps| - 1], k);
    } else {
      IDsSize(steps[..|steps| - 1]);
    }
  }

  /** In a chain a step depends on nothing but the one before it. */
  lemma ChainDependency(steps: seq<Step>, g: Graph, id: string, dep: string) returns (i: nat)
    requires IsGraphOf(steps, g) && IsChain(steps) && id in g && dep in g[id]
    ensures 0 < i < |steps| && steps[i].id == id && steps[i - 1].id == dep && dep in g
  {
    assert HasStep(steps, id);
    i :| 0 <= i < |steps| && steps[i].id == id;
    assert g[steps[i].id] == steps[i].dependsOn;
    assert steps[i].dependsOn == if i == 0 then [] else [steps[i - 1].id];
    if i > 0 {
      assert steps[i - 1].id in g;
    }
  }

  lemma IDsDistinct(steps: seq<Step>)
    requires GoodIDs(steps)
    ensures Distinct(IDs(steps)) && |IDs(steps)| == |steps|
    ensures forall k :: 0 <= k < |steps| ==> IDs(steps)[k] == steps[k].id
  {
    IDsSize(steps);
    forall k | 0 <= k < |steps| ensures IDs(steps)[k] == steps[k].id {
      IDAt(steps, k);
    }
  }

  lemma ChainDepsFirst(steps: seq<Step>, g: Graph, order: seq<string>)
    requires GoodIDs(steps) && IsGraphOf(steps, g) && IsChain(steps)
    requires |order| == |steps| && forall k :: 0 <= k < |steps| ==> order[k] == steps[k].id
    ensures DepsFirst(g, order)
  {
    forall k | 0 <= k < |order| ensures order[k] in g {
      assert steps[k].id in g;
    }
    forall k, dep | 0 <= k < |order| && dep in g[order[k]] ensures dep in order[..k] {
      var i := ChainDependency(steps, g, order[k], dep);
      assert i == k;
      assert order[..k][k - 1] == dep;
    }
  }

  /** A chain is closed and its list order is topological. */
  lemma ChainIsOrdered(steps: seq<Step>, g: Graph)
    requires GoodIDs(steps) && IsGraphOf(steps, g) && IsChain(steps)
    ensures Closed(g) && TopologicalOrder(g, IDs(steps))
  {
    hide IDs, IsChain, Distinct, DepsFirst, GoodIDs;
    var order := IDs(steps);
    IDsDistinct(steps);
    ChainDepsFirst(steps, g, order);
    forall id | id in g ensures id in order {
      assert HasStep(steps, id);
      var i :| 0 <= i < |steps| && steps[i].id == id;
      assert order[i] == id;
    }
    forall id, dep | id in g && dep in g[id] ensures dep in g {
      var i := ChainDependency(steps, g, id, dep);
    }
  }

  /** The ids of a valid flow stay valid when dependencies are replaced. */
  lemma SameIDs(steps: seq<Step>, r: seq<Step>)
    requires GoodIDs(steps) && |r| == |steps| && forall i :: 0 <= i < |steps| ==>
               r[i] == steps[i].(dependsOn := r[i].dependsOn)
    ensures GoodIDs(r)
  {
    assert forall i :: 0 <= i < |steps| ==> r[i].id == steps[i].id;
  }

  /** What the executor runs for a valid flow: an acyclic graph over the same steps. */
  lemma RunnableGraph(steps: seq<Step>, r: seq<Step>) returns (g: Graph, order: seq<string>)
    requires ValidFlow(steps) && |r| == |steps| && forall i :: 0 <= i < |steps| ==>
               r[i] == steps[i].(dependsOn := r[i].dependsOn)
    requires if NoExplicitDeps(steps) then IsChain(r) else r == steps
    ensures WellFormed(r, g) && Closed(g) && TopologicalOrder(g, order)
  {
    SameIDs(steps, r);
    if NoExplicitDeps(steps) {
      g := GraphExists(r);
      ChainIsOrdered(r, g);
      order := IDs(r);
    } else {
      g :| IsGraphOf(steps, g) && Acyclic(g);
      ReferencesClose(steps, g);
      order :| TopologicalOrder(g, order);
    }
  }

  /** Steps as they are run: a chain if no dependency is declared, otherwise as given. */
  ghost predicate RunsAs(steps: seq<Step>, r: seq<Step>) {
    && |r| == |steps| && (forall i :: 0 <= i < |steps| ==> r[i] == steps[i].(dependsOn := r[i].dependsOn))
    && if NoExplicitDeps(steps) then IsChain(r) else r == steps
  }

  /** Whatever has been dispatched by now had all dependencies it declares completed. */
  ghost predicate DeclaredFirst(steps: seq<Step>, s: State) {
    forall i, dep :: 0 <= i < |steps| && dep in steps[i].dependsOn && steps[i].id in s.dispatched ==>
      dep in s.completed
  }

  ghost predicate AlwaysDeclaredFirst(steps: seq<Step>, run: seq<State>) {
    forall k :: 0 <= k < |run| ==> DeclaredFirst(steps, run[k])
  }

  ghost predicate AlwaysOneAtATime(steps: seq<Step>, run: seq<State>) {
    forall k :: 0 <= k < |run| ==> OneAtATime(steps, run[k])
  }

  /**
    run is a fresh execution of the flow: declared dependencies completed first; one step at a time if none is declared;
    and unless it was cancelled the steps that never ran are those with a failed transitive dependency, and it is
    reported completed exactly when all steps completed.
   */
  ghost predicate Executed(steps: seq<Step>, sc: Scenario, run: seq<State>) {
    && sc.Valid() && sc.s0 == Start(map[], map[]) && RunsAs(steps, sc.steps)
    && IsRun(sc.steps, sc.outcome, sc.s0, run) && run[|run| - 1].phase.Done?
    && AlwaysDeclaredFirst(steps, run)
    && ((forall i :: 0 <= i < |steps| ==> steps[i].dependsOn == []) ==> AlwaysOneAtATime(steps, run))
    && (!WasCancelled(run[|run| - 1]) ==>
         RanWhatItShould(sc, run[|run| - 1]) && RightError(sc, run, run[|run| - 1]))
  }

  ghost predicate RanWhatItShould(sc: Scenario, f: State) {
    && (forall id :: id in sc.g ==> (!f.Accounted(id) <==> FailedAncestor(sc.g, f, id)))
    && (f.error.None? <==> forall id :: id in sc.g ==> id in f.completed)
  }

  lemma FinishedAsItShould(sc: Scenario, f: State)
    requires sc.Valid() && sc.s0 == Start(map[], map[]) && sc.Finishes(f)
    ensures RanWhatItShould(sc, f)
  {
    hide sc.Valid, sc.Finishes, FailedAncestor;
    CompletedExactly(sc, f);
    forall id | id in sc.g ensures !f.Accounted(id) <==> FailedAncestor(sc.g, f, id) {
      NeverRunExactly(sc, f, id);
    }
  }

  lemma EndIsRight(sc: Scenario, run: seq<State>, f: State)
    requires sc.Valid() && sc.s0 == Start(map[], map[]) && sc.Ends(run, f)
    ensures RanWhatItShould(sc, f) && RightError(sc, run, f)
  {
    assert sc.Finishes(f);
    hide sc.Valid, sc.Finishes, sc.Ends, RanWhatItShould, RightError;
    ErrorExactly(sc, run, f);
    FinishedAsItShould(sc, f);
  }

  lemma RunsDeclaredFirst(steps: seq<Step>, sc: Scenario, run: seq<State>)
    requires sc.Valid() && sc.s0 == Start(map[], map[]) && RunsAs(steps, sc.steps)
    requires IsRun(sc.steps, sc.outcome, sc.s0, run)
    ensures AlwaysDeclaredFirst(steps, run)
  {
    forall k | 0 <= k < |run| ensures DeclaredFirst(steps, run[k]) {
      RunKeepsInv(sc.steps, sc.g, sc.outcome, sc.s0, run, k);
      hide IsChain, IsRun, SeparateMaps, Workers, Views, Results, Keeps;
      forall i, dep | 0 <= i < |steps| && dep in steps[i].dependsOn && steps[i].id in run[k].dispatched
        ensures dep in run[k].completed
      {
        assert steps[i].dependsOn != [] && sc.steps[i] == steps[i];
        assert dep in sc.g[steps[i].id];
      }
    }
  }

  lemma RunsSequentially(steps: seq<Step>, sc: Scenario, run: seq<State>)
    requires sc.Valid() && sc.s0 == Start(map[], map[]) && RunsAs(steps, sc.steps) && NoExplicitDeps(steps)
    requires IsRun(sc.steps, sc.outcome, sc.s0, run)
    ensures AlwaysOneAtATime(steps, run)
  {
    FreshStartIsSequential(sc.steps);
    forall k | 0 <= k < |run| ensures OneAtATime(steps, run[k]) {
      OneStepAtATime(sc.steps, sc.g, sc.outcome, sc.s0, run, k);
      hide sc.Valid, IsRun, NoExplicitDeps, IsChain;
      SameIDsOneAtATime(steps, sc.steps, run[k]);
    }
  }

  lemma SameIDsOneAtATime(steps: seq<Step>, r: seq<Step>, s: State)
    requires |r| == |steps| && (forall i :: 0 <= i < |steps| ==> r[i].id == steps[i].id) && OneAtATime(r, s)
    ensures OneAtATime(steps, s)
  {
    var k: nat :| CompletedPrefix(r, s, k);
    assert CompletedPrefix(steps, s, k);
  }

  /**
    A fresh run that is reported completed had every step succeed on outputs it may have found; it is so reported if all
    steps succeed whatever they find; and for steady steps both are one condition.
   */
  lemma CompletedMeansAllOk(sc: Scenario, f: State)
    requires sc.Valid() && sc.s0 == Start(map[], map[]) && sc.Finishes(f)
    ensures f.error.None? ==> forall id :: id in sc.g ==> MaySucceed(sc, f, id)
    ensures (forall id :: id in sc.g ==> MustSucceed(sc, f, id)) ==> f.error.None?
    ensures Steady(sc, f) ==> (f.error.None? <==> forall id :: id in sc.g ==> MaySucceed(sc, f, id))
  {
    hide sc.Valid, sc.Finishes, MaySucceed, MustSucceed, Steady;
    SuccessDecides(sc, f);
    assert NoneBlocked(sc);
    assert forall id :: !sc.s0.Accounted(id);
  }

  ghost predicate SucceedsOnSome(outcome: Behaviour, id: string) {
    exists found :: outcome(id, found).Ok?
  }

  ghost predicate SucceedsOnAll(outcome: Behaviour, id: string) {
    forall found :: outcome(id, found).Ok?
  }

  lemma StepSuccess(sc: Scenario, f: State, id: string)
    ensures MaySucceed(sc, f, id) ==> SucceedsOnSome(sc.outcome, id)
    ensures SucceedsOnAll(sc.outcome, id) ==> MustSucceed(sc, f, id)
  {
    hide CanFind;
  }

  lemma StatusOfFlow(steps: seq<Step>, sc: Scenario, f: State)
    requires sc.Valid() && sc.s0 == Start(map[], map[]) && sc.Finishes(f) && RunsAs(steps, sc.steps)
    ensures f.error.None? ==> forall i :: 0 <= i < |steps| ==> SucceedsOnSome(sc.outcome, steps[i].id)
    ensures (forall i :: 0 <= i < |steps| ==> SucceedsOnAll(sc.outcome, steps[i].id)) ==> f.error.None?
  {
    CompletedMeansAllOk(sc, f);
    StepsOfGraph(steps, sc);
    hide sc.Valid, sc.Finishes, MaySucceed, MustSucceed, SucceedsOnSome, SucceedsOnAll, RunsAs, Steady;
    forall id
      ensures MaySucceed(sc, f, id) ==> SucceedsOnSome(sc.outcome, id)
      ensures SucceedsOnAll(sc.outcome, id) ==> MustSucceed(sc, f, id)
    {
      StepSuccess(sc, f, id);
    }
  }

  lemma StepsOfGraph(steps: seq<Step>, sc: Scenario)
    requires sc.Valid() && RunsAs(steps, sc.steps)
    ensures forall i :: 0 <= i < |steps| ==> steps[i].id in sc.g
    ensures forall id :: id in sc.g ==> exists i :: 0 <= i < |steps| && steps[i].id == id
  {
    hide NoExplicitDeps, IsChain;
    forall i | 0 <= i < |steps| ensures steps[i].id in sc.g {
      assert sc.steps[i].id == steps[i].id;
    }
    forall id | id in sc.g ensures exists i :: 0 <= i < |steps| && steps[i].id == id {
      assert HasStep(sc.steps, id);
      var i :| 0 <= i < |sc.steps| && sc.steps[i].id == id;
      assert steps[i].id == id;
    }
  }

  /** What an uncancelled end of a run amounts to. */
  lemma EndFacts(steps: seq<Step>, sc: Scenario, run: seq<State>, f: State)
    requires sc.Valid() && sc.s0 == Start(map[], map[]) && RunsAs(steps, sc.steps) && sc.Ends(run, f)
    ensures RanWhatItShould(sc, f) && RightError(sc, run, f)
    ensures f.error.None? ==> forall i :: 0 <= i < |steps| ==> SucceedsOnSome(sc.outcome, steps[i].id)
    ensures (forall i :: 0 <= i < |steps| ==> SucceedsOnAll(sc.outcome, steps[i].id)) ==> f.error.None?
  {
    assert sc.Finishes(f);
    hide sc.Valid, sc.Ends, sc.Finishes, RunsAs, RanWhatItShould, RightError, SucceedsOnSome, SucceedsOnAll;
    EndIsRight(sc, run, f);
    StatusOfFlow(steps, sc, f);
  }

  lemma WithoutDeclared(steps: seq<Step>)
    ensures NoExplicitDeps(steps) <==> forall i :: 0 <= i < |steps| ==> steps[i].dependsOn == []
  {
  }

  /** What a run of the machine over a valid flow amounts to. */
  lemma ExecutionFacts(steps: seq<Step>, sc: Scenario, run: seq<State>, error: Option<RunError>)
    requires sc.Valid() && sc.s0 == Start(map[], map[]) && RunsAs(steps, sc.steps)
    requires RunEnds(sc.steps, sc.outcome, sc.s0, run, error)
    ensures Executed(steps, sc, run) && run[|run| - 1].error == error
    ensures error != Some(Cancelled) ==>
              && (error.None? ==> forall i :: 0 <= i < |steps| ==> SucceedsOnSome(sc.outcome, steps[i].id))
              && ((forall i :: 0 <= i < |steps| ==> SucceedsOnAll(sc.outcome, steps[i].id)) ==> error.None?)
  {
    assert run != [];
    hide sc.Valid, RunsAs, RanWhatItShould, RightError, OneAtATime, DeclaredFirst, SucceedsOnSome, SucceedsOnAll;
    hide NoExplicitDeps, IsRun, AlwaysDeclaredFirst, AlwaysOneAtATime, sc.Ends;
    RunsDeclaredFirst(steps, sc, run);
    WithoutDeclared(steps);
    if NoExplicitDeps(steps) {
      RunsSequentially(steps, sc, run);
    }
    if error != Some(Cancelled) {
      LeftByItself(sc, run, error);
      EndFacts(steps, sc, run, run[|run| - 1]);
    }
  }

  lemma LeftByItself(sc: Scenario, run: seq<State>, error: Option<RunError>)
    requires RunEnds(sc.steps, sc.outcome, sc.s0, run, error) && error != Some(Cancelled)
    ensures run != [] && sc.Ends(run, run[|run| - 1])
  {
  }

  /**
    Runs a valid flow from the start. Whatever the environment does, the run ends, having respected the declared
    dependencies; it is cancelled only if its context was while it waited for a result. Without cancellation the steps
    it never ran are exactly those with a failed transitive dependency, and the error is the first failure received
    unless some steps were never reached.
   */
  method ExecuteFlow(steps: seq<Step>, outcome: Behaviour, cancelled: nat -> bool)
    returns (error: Option<RunError>)
    requires ValidFlow(steps)
    ensures exists sc: Scenario, run: seq<State> ::
              && Executed(steps, sc, run) && sc.outcome == outcome && run[|run| - 1].error == error
              && CancelledWhileWaiting(cancelled, sc.s0, run[|run| - 1])
    ensures (forall k :: !cancelled(k)) ==> error != Some(Cancelled)
    ensures error.None? ==> forall i :: 0 <= i < |steps| ==> SucceedsOnSome(outcome, steps[i].id)
    ensures (forall i :: 0 <= i < |steps| ==> SucceedsOnAll(outcome, steps[i].id)) && (forall k :: !cancelled(k)) ==>
              error.None?
  {
    var r := ApplyImplicitChain(steps);
    ghost var g, order := RunnableGraph(steps, r);
    assert RunsAs(steps, r);
    hide ValidFlow, RunsAs, IsChain, NoExplicitDeps, Closed, TopologicalOrder, WellFormed;
    error := ExecuteRun(r, map[], map[], outcome, cancelled, g);
    ghost var run :| RunEnds(r, outcome, Start(map[], map[]), run, error) &&
      CancelledWhileWaiting(cancelled, Start(map[], map[]), run[|run| - 1]);
    ghost var sc := Scenario(r, g, order, outcome, Start(map[], map[]));
    ScenarioValid(sc);
    ErrorAtEnd(r, outcome, sc.s0, run, error);
    hide RunEnds, Executed, SucceedsOnSome, SucceedsOnAll, Recorded;
    ExecutionFacts(steps, sc, run, error);
  }

  lemma ErrorAtEnd(steps: seq<Step>, outcome: Behaviour, s0: State, run: seq<State>, error: Option<RunError>)
    requires RunEnds(steps, outcome, s0, run, error)
    ensures run != [] && (WasCancelled(run[|run| - 1]) <==> error == Some(Cancelled))
  {
  }

  lemma ScenarioValid(sc: Scenario)
    requires WellFormed(sc.steps, sc.g) && Closed(sc.g) && TopologicalOrder(sc.g, sc.order)
    requires sc.s0 == Start(map[], map[])
    ensures sc.Valid()
  {
  }
}
