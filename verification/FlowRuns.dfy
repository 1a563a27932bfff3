/** What holds over whole runs of the executor: safety, termination, and what a finished run has done. */
module FlowRuns {
  import opened Basics
  import opened Wrappers
  import opened FlowGraph
  import opened FlowValidation
  import opened FlowEngine

  // ---------- Safety ----------

  /** The invariant holds at every point of every run. */
  lemma {:induction false} RunKeepsInv(steps: seq<Step>, g: Graph, outcome: Behaviour, s0: State, run: seq<State>,
                                       i: nat)
    requires WellFormed(steps, g) && s0 == Start(s0.completed, s0.failed) && s0.completed.Keys !! s0.failed.Keys
    requires IsRun(steps, outcome, s0, run) && i < |run|
    ensures Inv(g, outcome, s0, run[i])
  {
    if i == 0 {
      StartInv(g, outcome, s0);
    } else {
      RunKeepsInv(steps, g, outcome, s0, run, i - 1);
      assert Next(steps, outcome, run[i - 1], run[(i - 1) + 1]);
      NextKeepsInv(steps, g, outcome, s0, run[i - 1], run[i]);
    }
  }

  /** Distinct ids of steps are at most as many as the steps. */
  lemma {:induction false} DistinctStepIDs(steps: seq<Step>, ids: seq<string>)
    requires Distinct(ids) && forall k :: 0 <= k < |ids| ==> HasStep(steps, ids[k])
    ensures |ids| <= |steps|
  {
    if ids != [] {
      assert HasStep(steps, ids[0]);
      var front, last := steps[..|steps| - 1], steps[|steps| - 1];
      assert steps == front + [last];
      var rest := ids;
      if k :| 0 <= k < |ids| && ids[k] == last.id {
        rest := ids[..k] + ids[k + 1..];
      }
      forall k | 0 <= k < |rest| ensures HasStep(front, rest[k]) {
        HasStepNext(front, last, rest[k]);
      }
      DistinctStepIDs(front, rest);
    }
  }

  /**
    A worker that is ready to send always finds room in the channel, in every reachable state, cancelled runs included.
   */
  lemma SendNeverBlocks(steps: seq<Step>, g: Graph, outcome: Behaviour, s0: State, s: State, id: string)
    requires WellFormed(steps, g) && Inv(g, outcome, s0, s) && id in s.working
    ensures |s.channel| < |steps|
  {
    var ids := seq(|s.channel| + 1,
                   k requires 0 <= k <= |s.channel| => if k < |s.channel| then s.channel[k].id else id);
    forall k | 0 <= k < |ids| ensures HasStep(steps, ids[k]) {
      if k < |s.channel| {
        assert InChannel(s, ids[k]);
      }
      assert ids[k] in s.running;
      assert ids[k] in s.dispatched;
    }
    forall k | 0 <= k < |s.channel| ensures ids[k] != id {
      assert InChannel(s, ids[k]);
    }
    DistinctStepIDs(steps, ids);
  }

  /** Each step of the machine only appends to the log, and only steps whose dependencies have completed. */
  lemma NextLogs(steps: seq<Step>, g: Graph, outcome: Behaviour, s: State, s': State)
    requires WellFormed(steps, g) && Next(steps, outcome, s, s')
    ensures s.dispatched <= s'.dispatched
    ensures forall id, dep :: id in s'.dispatched && id !in s.dispatched && id in g && dep in g[id] ==>
              dep in s.completed
  {
    hide WellFormed, ReadyIDs, Coordinate;
    if s.phase.Coordinating? && s' == Coordinate(steps, s) {
      var ready := ReadyIDs(steps, s);
      CoordinateDispatches(steps, s);
      assert s'.dispatched == s.dispatched + ready;
      forall id, dep | id in ready && id in g && dep in g[id] ensures dep in s.completed {
        ReadyMeans(steps, g, s, id);
      }
    }
  }

  /** The log never repeats a step, only grows, and a step enters it only when all its dependencies have completed. */
  lemma StepsRunAtMostOnce(steps: seq<Step>, g: Graph, outcome: Behaviour, s0: State, run: seq<State>, i: nat)
    requires WellFormed(steps, g) && s0 == Start(s0.completed, s0.failed) && s0.completed.Keys !! s0.failed.Keys
    requires IsRun(steps, outcome, s0, run) && i + 1 < |run|
    ensures Distinct(run[i + 1].dispatched) && run[i].dispatched <= run[i + 1].dispatched
    ensures |run[i + 1].dispatched| <= |steps|
    ensures forall id, dep :: id in run[i + 1].dispatched && id !in run[i].dispatched && id in g && dep in g[id] ==>
              dep in run[i].completed
  {
    RunKeepsInv(steps, g, outcome, s0, run, i + 1);
    assert Next(steps, outcome, run[i], run[i + 1]);
    NextLogs(steps, g, outcome, run[i], run[i + 1]);
    assert forall id :: id in run[i + 1].dispatched ==> HasStep(steps, id);
    hide Next, WellFormed, Workers, Results, Views, Keeps, SeparateMaps;
    DistinctStepIDs(steps, run[i + 1].dispatched);
  }

  // ---------- Termination and progress ----------

  ghost function PhaseRank(p: Phase): nat {
    match p
    case Coordinating => 2
    case Waiting => 1
    case Done => 0
  }

  ghost function Rank(steps: seq<Step>, s: State): int {
    4 * (|steps| - |s.dispatched|) + 3 * |s.working| + 2 * |s.channel| + PhaseRank(s.phase)
  }

  lemma CoordinateLowersRank(steps: seq<Step>, g: Graph, outcome: Behaviour, s0: State, s: State)
    requires WellFormed(steps, g) && Inv(g, outcome, s0, s) && s.phase.Coordinating?
    ensures Rank(steps, Coordinate(steps, s)) < Rank(steps, s)
  {
    hide IsReady, ReadyIDs, Dispatches, Keeps, Views, Results, SeparateMaps, WellFormed, Elements, Distinct;
    var ready := ReadyIDs(steps, s);
    WellFormedIDs(steps, g);
    ReadyDistinct(steps, s);
    forall id | id in ready ensures id !in s.working {
      ReadyMeans(steps, g, s, id);
    }
    WorkforceSize(s, ready);
    DistinctElements(ready);
    hide Workers, Workforce;
  }

  lemma DistinctElements(ids: seq<string>)
    requires Distinct(ids)
    ensures |Elements(ids)| == |ids|
  {
    ElementCount(ids);
  }

  lemma WorkforceSize(s: State, ready: seq<string>)
    requires forall id :: id in ready ==> id !in s.working
    ensures |s.working + Workforce(ready, s.completed)| == |s.working| + |Elements(ready)|
  {
    var more := s.working + Workforce(ready, s.completed);
    assert more.Keys == s.working.Keys + Elements(ready);
    assert s.working.Keys !! Elements(ready);
  }

  lemma SendLowersRank(steps: seq<Step>, outcome: Behaviour, s: State, s': State, id: string, view: Outputs)
    requires Sends(steps, outcome, s, s', id, view)
    ensures Rank(steps, s') < Rank(steps, s)
  {
    assert s.working.Keys == s'.working.Keys + {id};
  }

  lemma ReceiveLowersRank(steps: seq<Step>, s: State)
    requires s.phase.Waiting? && s.channel != []
    ensures Rank(steps, Receive(s)) < Rank(steps, s)
  {
  }

  lemma NextLowersRank(steps: seq<Step>, g: Graph, outcome: Behaviour, s0: State, s: State, s': State)
    requires WellFormed(steps, g) && Inv(g, outcome, s0, s) && Next(steps, outcome, s, s')
    ensures Rank(steps, s') < Rank(steps, s)
  {
    hide Inv, WellFormed, Coordinate, Sends, Receive;
    if s.phase.Coordinating? && s' == Coordinate(steps, s) {
      CoordinateLowersRank(steps, g, outcome, s0, s);
    } else if id, view :| Sends(steps, outcome, s, s', id, view) {
      SendLowersRank(steps, outcome, s, s', id, view);
    } else if Receives(s, s') {
      ReceiveLowersRank(steps, s);
    }
  }

  lemma {:induction false} RankBoundsRun(steps: seq<Step>, g: Graph, outcome: Behaviour, s0: State, run: seq<State>,
                                         i: nat)
    requires WellFormed(steps, g) && s0 == Start(s0.completed, s0.failed) && s0.completed.Keys !! s0.failed.Keys
    requires IsRun(steps, outcome, s0, run) && i < |run|
    ensures 0 <= Rank(steps, run[i]) <= 4 * |steps| + 2 - i
  {
    RunKeepsInv(steps, g, outcome, s0, run, i);
    assert 0 <= Rank(steps, run[i]) by {
      DistinctStepIDs(steps, run[i].dispatched);
    }
    if i > 0 {
      RankBoundsRun(steps, g, outcome, s0, run, i - 1);
      RunKeepsInv(steps, g, outcome, s0, run, i - 1);
      assert Next(steps, outcome, run[i - 1], run[(i - 1) + 1]);
      NextLowersRank(steps, g, outcome, s0, run[i - 1], run[i]);
    }
  }

  /** No run is longer than 4 steps of the machine per flow step, plus three. */
  lemma RunsTerminate(steps: seq<Step>, g: Graph, outcome: Behaviour, s0: State, run: seq<State>)
    requires WellFormed(steps, g) && s0 == Start(s0.completed, s0.failed) && s0.completed.Keys !! s0.failed.Keys
    requires IsRun(steps, outcome, s0, run)
    ensures |run| <= 4 * |steps| + 3
  {
    RankBoundsRun(steps, g, outcome, s0, run, |run| - 1);
  }

  // ---------- Control ----------

  ghost predicate NewFailure(s0: State, s: State) {
    exists id :: id in s.failed && id !in s0.failed
  }

  ghost predicate WasCancelled(s: State) {
    s.error == Some(Cancelled)
  }

  /** How the phase and the error reflect the maps. */
  ghost predicate Control(steps: seq<Step>, s0: State, s: State) {
    && (s.phase.Waiting? ==> s.running != {})
    && (!s.phase.Done? ==> (s.error.Some? <==> NewFailure(s0, s)) && !WasCancelled(s))
    && (s.phase.Done? && !WasCancelled(s) ==>
         && s.running == {} && ReadyIDs(steps, s) == []
         && (s.error.None? <==> !NewFailure(s0, s) && |s.completed| + |s.failed| >= |steps|))
  }

  lemma CoordinateKeepsControl(steps: seq<Step>, s0: State, s: State)
    requires Control(steps, s0, s) && s.phase.Coordinating?
    ensures Control(steps, s0, Coordinate(steps, s))
  {
    hide ReadyIDs;
    var ready := ReadyIDs(steps, s);
    if |s.running| + |ready| > 0 {
      DispatchRuns(s, ready);
      hide Dispatch;
      assert NewFailure(s0, Coordinate(steps, s)) <==> NewFailure(s0, s);
    } else {
      LeaveKeepsControl(steps, s0, s);
    }
  }

  lemma DispatchRuns(s: State, ready: seq<string>)
    requires |s.running| + |ready| > 0
    ensures var s' := Dispatch(s, ready);
            && s'.running != {} && s'.failed == s.failed && s'.completed == s.completed
            && s'.error == s.error && s'.phase == s.phase
  {
    if ready != [] {
      assert ready[0] in Elements(ready);
    }
  }

  lemma LeaveKeepsControl(steps: seq<Step>, s0: State, s: State)
    requires Control(steps, s0, s) && s.phase.Coordinating? && s.running == {} && ReadyIDs(steps, s) == []
    ensures Control(steps, s0, Leave(steps, s))
  {
    var s' := Leave(steps, s);
    SameReady(steps, s, s');
    assert NewFailure(s0, s') <==> NewFailure(s0, s);
    hide ReadyIDs, NewFailure;
  }

  lemma {:induction false} SameReady(steps: seq<Step>, s: State, s': State)
    requires s'.completed == s.completed && s'.failed == s.failed && s'.running == s.running
    ensures ReadyIDs(steps, s') == ReadyIDs(steps, s)
  {
    if steps != [] {
      SameReady(steps[..|steps| - 1], s, s');
    }
  }

  lemma ReceiveKeepsControl(steps: seq<Step>, g: Graph, outcome: Behaviour, s0: State, s: State)
    requires Inv(g, outcome, s0, s) && Control(steps, s0, s) && s.phase.Waiting? && s.channel != []
    ensures Control(steps, s0, Receive(s))
  {
    var s', f := Receive(s), s.channel[0];
    assert InChannel(s, f.id);
    assert f.id in s.running && f.id !in s0.failed;
    if f.outcome.Err? {
      assert f.id in s'.failed;
      assert NewFailure(s0, s');
    } else {
      assert s'.failed == s.failed;
    }
  }

  lemma SendKeepsControl(steps: seq<Step>, s0: State, s: State, s': State)
    requires Control(steps, s0, s) && s' == s.(working := s'.working, channel := s'.channel)
    ensures Control(steps, s0, s')
  {
    SameReady(steps, s, s');
    hide ReadyIDs;
  }

  lemma CancelKeepsControl(steps: seq<Step>, s0: State, s: State, s': State)
    requires Cancels(s, s')
    ensures Control(steps, s0, s')
  {
  }

  lemma NextKeepsControl(steps: seq<Step>, g: Graph, outcome: Behaviour, s0: State, s: State, s': State)
    requires Inv(g, outcome, s0, s) && Control(steps, s0, s) && Next(steps, outcome, s, s')
    ensures Control(steps, s0, s')
  {
    hide Inv, Coordinate, Receive, Control, Within;
    if s.phase.Coordinating? && s' == Coordinate(steps, s) {
      CoordinateKeepsControl(steps, s0, s);
    } else if id, view :| Sends(steps, outcome, s, s', id, view) {
      SendKeepsControl(steps, s0, s, s');
    } else if Receives(s, s') {
      ReceiveKeepsControl(steps, g, outcome, s0, s);
    } else {
      CancelKeepsControl(steps, s0, s, s');
    }
  }

  lemma {:induction false} RunKeepsControl(steps: seq<Step>, g: Graph, outcome: Behaviour, s0: State, run: seq<State>,
                                           i: nat)
    requires WellFormed(steps, g) && s0 == Start(s0.completed, s0.failed) && s0.completed.Keys !! s0.failed.Keys
    requires IsRun(steps, outcome, s0, run) && i < |run|
    ensures Control(steps, s0, run[i])
  {
    hide Inv, Next, WellFormed;
    if i == 0 {
      assert !NewFailure(s0, s0);
    } else {
      RunKeepsControl(steps, g, outcome, s0, run, i - 1);
      RunKeepsInv(steps, g, outcome, s0, run, i - 1);
      assert Next(steps, outcome, run[i - 1], run[(i - 1) + 1]);
      NextKeepsControl(steps, g, outcome, s0, run[i - 1], run[i]);
    }
  }

  /** A worker that found the outputs of now can send. */
  lemma WorkerCanSend(steps: seq<Step>, g: Graph, outcome: Behaviour, s0: State, s: State, id: string)
    returns (s': State)
    requires WellFormed(steps, g) && Inv(g, outcome, s0, s) && id in s.working
    ensures s' == s.(working := s.working - {id}, channel := s.channel + [Finished(id, outcome(id, s.completed))])
    ensures Sends(steps, outcome, s, s', id, s.completed)
  {
    SendNeverBlocks(steps, g, outcome, s0, s, id);
    s' := s.(working := s.working - {id}, channel := s.channel + [Finished(id, outcome(id, s.completed))]);
    hide Workers, Dispatches, Results, SeparateMaps, Moment;
  }

  /**
    Until the coordinator is done and every worker has sent, some step of the machine is possible: no reachable state is
    stuck.
   */
  lemma NeverStuck(steps: seq<Step>, g: Graph, outcome: Behaviour, s0: State, s: State)
    requires WellFormed(steps, g) && Inv(g, outcome, s0, s) && Control(steps, s0, s)
    requires !s.phase.Done? || s.working != map[]
    ensures exists s' :: Next(steps, outcome, s, s') && !Cancels(s, s')
  {
    hide Coordinate, WellFormed, Dispatches, Keeps, Views, Results, Workers, Sends;
    if id :| id in s.working {
      var s' := WorkerCanSend(steps, g, outcome, s0, s, id);
      assert |s'.channel| != |s.channel|;
      assert Next(steps, outcome, s, s') && !Cancels(s, s');
    } else if s.phase.Coordinating? {
      assert Next(steps, outcome, s, Coordinate(steps, s)) && !Cancels(s, Coordinate(steps, s));
    } else {
      WaitingHasResult(s);
      var s' := Receive(s);
      assert |s'.channel| != |s.channel|;
      assert Next(steps, outcome, s, s') && !Cancels(s, s');
    }
  }

  lemma WaitingHasResult(s: State)
    requires Workers(s) && s.running != {} && s.working == map[]
    ensures s.channel != []
  {
    var id :| id in s.running;
    assert InChannel(s, id);
  }

  // ---------- Runs and their last states ----------

  lemma RunExtends(steps: seq<Step>, outcome: Behaviour, s0: State, run: seq<State>, s: State)
    requires IsRun(steps, outcome, s0, run) && Next(steps, outcome, run[|run| - 1], s)
    ensures IsRun(steps, outcome, s0, run + [s])
  {
    var longer := run + [s];
    forall i | 0 <= i < |longer| - 1 ensures Next(steps, outcome, longer[i], longer[i + 1]) {
      if i < |run| - 1 {
        assert Next(steps, outcome, run[i], run[i + 1]);
      }
    }
  }

  /** What is known of the end s of a run. */
  ghost predicate Underway(steps: seq<Step>, g: Graph, outcome: Behaviour, s0: State, run: seq<State>, s: State) {
    && IsRun(steps, outcome, s0, run) && run[|run| - 1] == s
    && Inv(g, outcome, s0, s) && Control(steps, s0, s)
  }

  lemma Advance(steps: seq<Step>, g: Graph, outcome: Behaviour, s0: State, run: seq<State>, s: State, s': State)
    requires WellFormed(steps, g) && Underway(steps, g, outcome, s0, run, s) && Next(steps, outcome, s, s')
    ensures Underway(steps, g, outcome, s0, run + [s'], s') && Rank(steps, s') < Rank(steps, s)
    ensures 0 <= Rank(steps, s')
  {
    hide Next, IsRun, Inv, Control, WellFormed;
    RunExtends(steps, outcome, s0, run, s');
    NextKeepsInv(steps, g, outcome, s0, s, s');
    NextKeepsControl(steps, g, outcome, s0, s, s');
    NextLowersRank(steps, g, outcome, s0, s, s');
    RankNotNegative(steps, g, outcome, s0, s');
  }

  lemma RankNotNegative(steps: seq<Step>, g: Graph, outcome: Behaviour, s0: State, s: State)
    requires WellFormed(steps, g) && Inv(g, outcome, s0, s)
    ensures 0 <= Rank(steps, s)
  {
    DistinctStepIDs(steps, s.dispatched);
  }

  lemma StartUnderway(steps: seq<Step>, g: Graph, outcome: Behaviour, s0: State)
    requires s0 == Start(s0.completed, s0.failed) && s0.completed.Keys !! s0.failed.Keys
    ensures Underway(steps, g, outcome, s0, [s0], s0)
  {
    StartInv(g, outcome, s0);
    assert !NewFailure(s0, s0);
    hide Inv;
  }

  lemma UnderwayRun(steps: seq<Step>, g: Graph, outcome: Behaviour, s0: State, run: seq<State>, s: State)
    requires Underway(steps, g, outcome, s0, run, s)
    ensures IsRun(steps, outcome, s0, run) && run[|run| - 1] == s
  {
  }
}
