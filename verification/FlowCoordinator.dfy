/** The executor's code: the coordinator loop over its maps, driven by workers that may return in any order. */
module FlowCoordinator {
  import opened Wrappers
  import opened FlowGraph
  import opened FlowValidation
  import opened FlowEngine
  import opened FlowRuns

  // ---------- Implicit chain ----------

  ghost predicate NoExplicitDeps(steps: seq<Step>) {
    forall i :: 0 <= i < |steps| ==> steps[i].dependsOn == []
  }

  /** Each step depends on the one before it in the list. */
  ghost predicate IsChain(steps: seq<Step>) {
    forall i :: 0 <= i < |steps| ==> steps[i].dependsOn == if i == 0 then [] else [steps[i - 1].id]
  }

  /** A flow that declares no dependencies becomes a chain in list order; any other flow is left alone. */
  method ApplyImplicitChain(steps: seq<Step>) returns (r: seq<Step>)
    ensures if NoExplicitDeps(steps) then IsChain(r) else r == steps
    ensures |r| == |steps| && forall i :: 0 <= i < |steps| ==> r[i] == steps[i].(dependsOn := r[i].dependsOn)
  {
    var hasExplicitDeps := false;
    for i := 0 to |steps|
      invariant !hasExplicitDeps && NoExplicitDeps(steps[..i])
    {
      if |steps[i].dependsOn| > 0 {
        hasExplicitDeps := true;
        break;
      }
    }
    r := steps;
    if !hasExplicitDeps && |steps| > 1 {
      assert steps[..|steps|] == steps;
      for i := 1 to |steps|
        invariant |r| == |steps|
        invariant forall k :: 0 <= k < |r| ==> r[k] == steps[k].(dependsOn := r[k].dependsOn)
        invariant forall k :: 0 <= k < i ==> r[k].dependsOn == if k == 0 then [] else [steps[k - 1].id]
      {
        r := r[i := r[i].(dependsOn := [r[i - 1].id])];
      }
    }
  }

  // ---------- Coordinator ----------

  function IDs(steps: seq<Step>): seq<string> {
    if steps == [] then [] else IDs(steps[..|steps| - 1]) + [steps[|steps| - 1].id]
  }

  lemma AppendID(steps: seq<Step>, s: Step)
    ensures IDs(steps + [s]) == IDs(steps) + [s.id]
  {
    assert (steps + [s])[..|steps|] == steps;
  }

  lemma DispatchNone(s: State)
    ensures Dispatch(s, []) == s
  {
    assert s.working + Workforce([], s.completed) == s.working;
  }

  lemma OneMoreWorker(ids: seq<string>, id: string, completed: Outputs)
    ensures Workforce(ids + [id], completed) == Workforce(ids, completed)[id := completed]
  {
    assert Elements(ids + [id]) == Elements(ids) + {id};
  }

  lemma DispatchOneMore(s: State, ids: seq<string>, id: string)
    ensures var some := Dispatch(s, ids);
            Dispatch(s, ids + [id]) ==
            some.(running := some.running + {id}, working := some.working[id := s.completed],
                  dispatched := some.dispatched + [id])
  {
    assert Elements(ids + [id]) == Elements(ids) + {id};
    OneMoreWorker(ids, id, s.completed);
    hide Elements, Workforce;
  }

  lemma CoordinateCases(steps: seq<Step>, s: State, ids: seq<string>)
    requires ids == ReadyIDs(steps, s)
    ensures if |s.running| + |ids| > 0 then Coordinate(steps, s) == Dispatch(s, ids).(phase := Waiting)
            else Dispatch(s, ids) == s && Coordinate(steps, s) == Leave(steps, s)
  {
    hide ReadyIDs;
    if |ids| == 0 {
      DispatchNone(s);
      hide Dispatch;
    }
  }

  class Coordinator {
    const steps: seq<Step>
    var completed: Outputs
    var failed: map<string, string>
    var running: set<string>
    var error: Option<RunError>
    var working: map<string, Outputs>
    var channel: seq<Finished>
    ghost var dispatched: seq<string>
    ghost var phase: Phase

    constructor (steps: seq<Step>, completed: Outputs, failed: map<string, string>)
      ensures this.steps == steps && View() == Start(completed, failed)
    {
      this.steps, this.completed, this.failed := steps, completed, failed;
      running, working, channel, error, dispatched, phase := {}, map[], [], None, [], Coordinating;
    }

    ghost function View(): State
      reads this
    {
      State(completed, failed, running, working, channel, dispatched, error, phase)
    }

    /**
      Scans the list for steps to dispatch now. A step whose dependency failed is never past the first check on
      dependencies.
     */
    method CollectReady() returns (ready: seq<Step>)
      requires SeparateMaps(View())
      ensures IDs(ready) == ReadyIDs(steps, View())
      ensures forall s :: s in ready ==> s in steps
    {
      ready := [];
      for i := 0 to |steps|
        invariant IDs(ready) == ReadyIDs(steps[..i], View())
        invariant forall s :: s in ready ==> s in steps
      {
        var s := steps[i];
        assert steps[..i + 1][..i] == steps[..i];
        if s.id in completed || s.id in running || s.id in failed {
          continue;
        }
        var depsOK := true;
        for k := 0 to |s.dependsOn|
          invariant depsOK && forall j :: 0 <= j < k ==> s.dependsOn[j] in completed
        {
          if s.dependsOn[k] !in completed {
            depsOK := false;
            break;
          }
        }
        if !depsOK {
          continue;
        }
        for k := 0 to |s.dependsOn| {
          if s.dependsOn[k] in failed {
            assert false;
          }
        }
        AppendID(ready, s);
        ready := ready + [s];
      }
      assert steps[..|steps|] == steps;
    }

    /** Starts a worker for each ready step. */
    method DispatchAll(ready: seq<Step>)
      modifies this`running, this`working, this`dispatched
      ensures View() == Dispatch(old(View()), IDs(ready))
    {
      ghost var s := View();
      hide Dispatch;
      DispatchNone(s);
      for i := 0 to |ready|
        invariant View() == Dispatch(s, IDs(ready[..i]))
        invariant completed == s.completed
      {
        assert ready[..i + 1][..i] == ready[..i];
        var id := ready[i].id;
        DispatchOneMore(s, IDs(ready[..i]), id);
        running, working, dispatched := running + {id}, working[id := completed], dispatched + [id];
      }
      assert ready[..|ready|] == ready;
    }

    /** One pass of the loop up to the select. */
    method Pass() returns (leave: bool)
      requires SeparateMaps(View()) && phase.Coordinating?
      modifies this`running, this`working, this`dispatched, this`error, this`phase
      ensures View() == Coordinate(steps, old(View())) && leave == phase.Done?
    {
      hide ReadyIDs, IDs, IsReady, Dispatch, Coordinate, SeparateMaps;
      ghost var s := View();
      var accounted := |completed| + |failed|;
      var ready := CollectReady();
      var active := |running|;
      IDsSize(ready);
      CoordinateCases(steps, s, IDs(ready));
      DispatchAll(ready);
      active := active + |ready|;
      if active == 0 {
        phase := Done;
        if accounted < |steps| {
          error := Some(Stalled(|steps| - accounted, |steps|));
        }
        assert View() == Leave(steps, s);
        return true;
      }
      phase := Waiting;
      assert View() == Dispatch(s, IDs(ready)).(phase := Waiting);
      leave := false;
    }

    /** Takes the first result out of the channel and records it. */
    method ReceiveResult()
      requires channel != [] && phase.Waiting?
      modifies this
      ensures View() == Receive(old(View()))
    {
      var f := channel[0];
      channel, running := channel[1..], running - {f.id};
      match f.outcome {
        case Err(message) =>
          failed := failed[f.id := message];
          if error.None? {
            error := Some(StepFailed(message));
          }
        case Ok(output) =>
          completed := completed[f.id := output];
      }
      phase := Coordinating;
    }

    /** A worker's step returns: its result goes into the channel. */
    method WorkerReturns(id: string, outcome: StepOutcome)
      requires id in working
      modifies this`working, this`channel
      ensures View() == old(View()).(working := old(working) - {id}, channel := old(channel) + [Finished(id, outcome)])
    {
      working, channel := working - {id}, channel + [Finished(id, outcome)];
    }
  }

  lemma {:induction false} IDsSize(steps: seq<Step>)
    ensures |IDs(steps)| == |steps|
  {
    if steps != [] {
      IDsSize(steps[..|steps| - 1]);
    }
  }

  /**
    One iteration of the loop: a pass, and unless it leaves, a wait for a result or for cancellation. If the run is
    cancelled by then, either may be taken; otherwise a result is, once there is one.
   */
  method Round(c: Coordinator, outcome: Behaviour, cancelled: bool, ghost g: Graph, ghost s0: State,
               ghost run: seq<State>)
    returns (leave: bool, ghost run': seq<State>)
    requires WellFormed(c.steps, g) && Underway(c.steps, g, outcome, s0, run, c.View()) && c.phase.Coordinating?
    modifies c
    ensures Underway(c.steps, g, outcome, s0, run', c.View())
    ensures if leave then c.phase.Done? else c.phase.Coordinating?
    ensures 0 <= Rank(c.steps, c.View()) < old(Rank(c.steps, c.View()))
    ensures WasCancelled(c.View()) ==> cancelled
    ensures Recorded(c.View()) == old(Recorded(c.View())) + if leave then 0 else 1
  {
    hide Underway, WellFormed, Next, Rank, Coordinate, Receive, Recorded, WasCancelled;
    ghost var s := c.View();
    UnderwaySeparate(c.steps, g, outcome, s0, run, s);
    UnderwayGoesOn(c.steps, g, outcome, s0, run, s);
    leave := c.Pass();
    NextCases(c.steps, outcome, s);
    PassRecordsNothing(c.steps, s);
    Advance(c.steps, g, outcome, s0, run, s, c.View());
    run' := run + [c.View()];
    if !leave {
      leave := *;
      leave := leave && cancelled;
      if !leave {
        s := c.View();
        run' := AwaitResult(c, outcome, g, s0, run');
        SameRecorded(s, c.View());
        leave := *;
        leave := leave && cancelled;
      }
      s := c.View();
      NextCases(c.steps, outcome, s);
      if leave {
        c.phase, c.error := Done, Some(Cancelled);
        SameRecorded(s, c.View());
      } else {
        UnderwaySeparate(c.steps, g, outcome, s0, run', s);
        UnderwayGoesOn(c.steps, g, outcome, s0, run', s);
        c.ReceiveResult();
        ReceivePhase(s);
      }
      Advance(c.steps, g, outcome, s0, run', s, c.View());
      run' := run' + [c.View()];
    }
  }

  /** The number of results recorded. */
  ghost function Recorded(s: State): nat {
    |s.completed| + |s.failed|
  }

  lemma SameRecorded(s: State, s': State)
    requires s'.completed == s.completed && s'.failed == s.failed
    ensures Recorded(s') == Recorded(s)
  {
  }

  lemma PassRecordsNothing(steps: seq<Step>, s: State)
    requires !WasCancelled(s)
    ensures Recorded(Coordinate(steps, s)) == Recorded(s) && !WasCancelled(Coordinate(steps, s))
  {
    hide ReadyIDs, Workforce, Elements;
  }

  lemma ReceivePhase(s: State)
    requires s.channel != [] && SeparateMaps(s) && s.channel[0].id in s.running && !WasCancelled(s)
    ensures Receive(s).phase.Coordinating? && Recorded(Receive(s)) == Recorded(s) + 1 && !WasCancelled(Receive(s))
  {
    var id := s.channel[0].id;
    assert id !in s.completed && id !in s.failed;
    hide SeparateMaps;
    match s.channel[0].outcome
    case Ok(output) => OneMoreEntry(s.completed, id, output);
    case Err(message) => OneMoreEntry(s.failed, id, message);
  }

  lemma OneMoreEntry(m: map<string, string>, id: string, value: string)
    requires id !in m
    ensures |m[id := value]| == |m| + 1
  {
    assert m[id := value].Keys == m.Keys + {id};
  }

  lemma NextCases(steps: seq<Step>, outcome: Behaviour, s: State)
    ensures s.phase.Coordinating? ==> Next(steps, outcome, s, Coordinate(steps, s))
    ensures s.phase.Coordinating? ==> !Coordinate(steps, s).phase.Coordinating?
    ensures s.phase.Waiting? ==> Next(steps, outcome, s, s.(phase := Done, error := Some(Cancelled)))
    ensures s.phase.Waiting? && s.channel != [] ==> Next(steps, outcome, s, Receive(s))
  {
    hide ReadyIDs;
  }

  /** run starts at s0 and ends with the coordinator done and this error. */
  ghost predicate RunEnds(steps: seq<Step>, outcome: Behaviour, s0: State, run: seq<State>, error: Option<RunError>) {
    IsRun(steps, outcome, s0, run) && run[|run| - 1].phase.Done? && run[|run| - 1].error == error
  }

  /** If the run ended as cancelled, it had been cancelled when the coordinator waited for the next result. */
  ghost predicate CancelledWhileWaiting(cancelled: nat -> bool, s0: State, f: State) {
    WasCancelled(f) ==> Recorded(s0) <= Recorded(f) && cancelled(Recorded(f) - Recorded(s0))
  }

  /**
    Executes a run. cancelled(k) says whether the context has been cancelled by the time the coordinator waits for its
    result number k. Besides, the environment picks which workers return and in what order, what outputs of other steps
    they found, and what the coordinator takes when both a result and the cancellation are there. Whatever it picks, the
    loop ends and has made a run of the state machine, which is cancelled only if the context was.
   */
  method ExecuteRun(steps: seq<Step>, completed: Outputs, failed: map<string, string>,
                    outcome: Behaviour, cancelled: nat -> bool, ghost g: Graph)
    returns (error: Option<RunError>)
    requires WellFormed(steps, g) && completed.Keys !! failed.Keys
    ensures exists run :: RunEnds(steps, outcome, Start(completed, failed), run, error) &&
              CancelledWhileWaiting(cancelled, Start(completed, failed), run[|run| - 1])
  {
    var c := new Coordinator(steps, completed, failed);
    ghost var s0 := c.View();
    ghost var run := [s0];
    StartUnderway(steps, g, outcome, s0);
    hide Underway, WellFormed, Rank, Recorded, WasCancelled, RunEnds, CancelledWhileWaiting;
    var leave, waits := false, 0;
    assert !WasCancelled(s0) by { UnderwayGoesOn(steps, g, outcome, s0, run, s0); }
    while !leave
      invariant c.steps == steps && fresh(c)
      invariant if leave then c.phase.Done? else c.phase.Coordinating?
      invariant Underway(steps, g, outcome, s0, run, c.View())
      invariant Recorded(c.View()) == Recorded(s0) + waits
      invariant WasCancelled(c.View()) ==> cancelled(waits)
      decreases !leave, Rank(steps, c.View())
    {
      UnderwayRank(steps, g, outcome, s0, run, c.View());
      leave, run := Round(c, outcome, cancelled(waits), g, s0, run);
      if !leave {
        UnderwayGoesOn(steps, g, outcome, s0, run, c.View());
        waits := waits + 1;
      }
    }
    error := c.error;
    RunConcluded(steps, g, outcome, cancelled, s0, run, c.View(), waits);
  }

  lemma RunConcluded(steps: seq<Step>, g: Graph, outcome: Behaviour, cancelled: nat -> bool, s0: State,
                     run: seq<State>, f: State, waits: nat)
    requires Underway(steps, g, outcome, s0, run, f) && f.phase.Done?
    requires Recorded(f) == Recorded(s0) + waits && (WasCancelled(f) ==> cancelled(waits))
    ensures RunEnds(steps, outcome, s0, run, f.error) && CancelledWhileWaiting(cancelled, s0, run[|run| - 1])
  {
    UnderwayRun(steps, g, outcome, s0, run, f);
    hide Underway, IsRun;
  }

  lemma UnderwayRank(steps: seq<Step>, g: Graph, outcome: Behaviour, s0: State, run: seq<State>, s: State)
    requires WellFormed(steps, g) && Underway(steps, g, outcome, s0, run, s)
    ensures 0 <= Rank(steps, s)
  {
    RankNotNegative(steps, g, outcome, s0, s);
  }

  lemma UnderwaySeparate(steps: seq<Step>, g: Graph, outcome: Behaviour, s0: State, run: seq<State>, s: State)
    requires Underway(steps, g, outcome, s0, run, s)
    ensures SeparateMaps(s) && (s.channel != [] ==> s.channel[0].id in s.running)
  {
    if s.channel != [] {
      ReceiveWorkers(s);
    }
  }

  lemma UnderwayGoesOn(steps: seq<Step>, g: Graph, outcome: Behaviour, s0: State, run: seq<State>, s: State)
    requires Underway(steps, g, outcome, s0, run, s)
    ensures !s.phase.Done? ==> !WasCancelled(s)
  {
  }

  lemma UnderwaySends(steps: seq<Step>, g: Graph, outcome: Behaviour, s0: State, run: seq<State>, s: State,
                      s': State, id: string, view: Outputs)
    requires WellFormed(steps, g) && Underway(steps, g, outcome, s0, run, s) && id in s.working
    requires Within(s.working[id], view) && Within(view, s.completed)
    requires s' == s.(working := s.working - {id}, channel := s.channel + [Finished(id, outcome(id, view))])
    ensures Next(steps, outcome, s, s')
  {
    SendNeverBlocks(steps, g, outcome, s0, s, id);
    hide Inv, Control, WellFormed, Within, Coordinate;
    assert Sends(steps, outcome, s, s', id, view);
  }

  lemma UnderwayViews(steps: seq<Step>, g: Graph, outcome: Behaviour, s0: State, run: seq<State>, s: State, id: string)
    requires Underway(steps, g, outcome, s0, run, s) && id in s.working
    ensures Within(s.working[id], s.completed) && Within(s.completed, s.completed)
  {
  }

  lemma UnderwayWaits(steps: seq<Step>, g: Graph, outcome: Behaviour, s0: State, run: seq<State>, s: State)
    requires Underway(steps, g, outcome, s0, run, s) && s.phase.Waiting?
    ensures s.channel != [] || s.working != map[]
  {
    if s.working == map[] {
      WaitingHasResult(s);
    }
  }

  /**
    Workers return, any number of them and in any order, until at least one result is there. What outputs a step found
    is picked too.
   */
  method AwaitResult(c: Coordinator, outcome: Behaviour, ghost g: Graph, ghost s0: State, ghost run: seq<State>)
    returns (ghost run': seq<State>)
    requires WellFormed(c.steps, g) && Underway(c.steps, g, outcome, s0, run, c.View()) && c.phase.Waiting?
    modifies c`working, c`channel
    ensures Underway(c.steps, g, outcome, s0, run', c.View()) && c.channel != []
    ensures Rank(c.steps, c.View()) <= old(Rank(c.steps, c.View()))
  {
    hide Underway, WellFormed, Next, Rank;
    run' := run;
    var patience := *;
    while c.channel == [] || (patience && c.working != map[])
      invariant Underway(c.steps, g, outcome, s0, run', c.View())
      invariant Rank(c.steps, c.View()) <= old(Rank(c.steps, c.View()))
      decreases c.working.Keys
    {
      ghost var s := c.View();
      UnderwayWaits(c.steps, g, outcome, s0, run', s);
      var id :| id in c.working;
      var view := *;
      if !Within(c.working[id], view) || !Within(view, c.completed) {
        view := c.completed;
        UnderwayViews(c.steps, g, outcome, s0, run', s, id);
      }
      c.WorkerReturns(id, outcome(id, view));
      UnderwaySends(c.steps, g, outcome, s0, run', s, c.View(), id, view);
      Advance(c.steps, g, outcome, s0, run', s, c.View());
      run' := run' + [c.View()];
      patience := *;
    }
  }
}
