/** When the order in which steps finish cannot be seen in what a run leaves behind. */
module FlowOrder {
  import opened Basics
  import opened Wrappers
  import opened FlowGraph
  import opened FlowValidation
  import opened FlowEngine
  import opened FlowRuns
  import opened FlowOutcome

  /** All runs that the coordinator ends by itself leave the same maps as f. */
  ghost predicate OneResult(sc: Scenario, f: State) {
    forall f' :: sc.Finishes(f') ==> f'.completed == f.completed && f'.failed == f.failed
  }

  /** s is the last state of a run that has not been cancelled. */
  ghost predicate Reaches(sc: Scenario, run: seq<State>, s: State) {
    Underway(sc.steps, sc.g, sc.outcome, sc.s0, run, s) && !WasCancelled(s)
  }

  // ---------- Every run can be finished ----------

  /** What has been recorded stays, and only cancelling cancels. */
  lemma NextGrows(steps: seq<Step>, outcome: Behaviour, s: State, s': State)
    requires SeparateMaps(s) && (s.channel != [] ==> s.channel[0].id in s.running)
    requires Next(steps, outcome, s, s') && !Cancels(s, s') && !WasCancelled(s)
    ensures Within(s.completed, s'.completed) && Within(s.failed, s'.failed) && !WasCancelled(s')
  {
    hide IsReady, ReadyIDs, Workforce, Elements, SeparateMaps;
    if Receives(s, s') {
      ReceiveMaps(s);
      hide Within;
    } else {
      SelfWithin(s);
      hide Within;
    }
  }

  lemma NextReaches(sc: Scenario, run: seq<State>, s: State, s': State)
    requires sc.Valid() && Reaches(sc, run, s) && Next(sc.steps, sc.outcome, s, s') && !Cancels(s, s')
    ensures Reaches(sc, run + [s'], s') && 0 <= Rank(sc.steps, s') < Rank(sc.steps, s)
    ensures Within(s.completed, s'.completed) && Within(s.failed, s'.failed)
  {
    hide Underway, Next, Cancels, Within, Dispatches, Workers, Results, Views, Keeps, Control, WasCancelled, WellFormed;
    Advance(sc.steps, sc.g, sc.outcome, sc.s0, run, s, s');
    UnderwayInv(sc, run, s);
    NextGrows(sc.steps, sc.outcome, s, s');
  }

  lemma UnderwayInv(sc: Scenario, run: seq<State>, s: State)
    requires Underway(sc.steps, sc.g, sc.outcome, sc.s0, run, s)
    ensures Inv(sc.g, sc.outcome, sc.s0, s) && Control(sc.steps, sc.s0, s)
    ensures s.channel != [] ==> s.channel[0].id in s.running
  {
    if s.channel != [] {
      ReceiveWorkers(s);
    }
  }

  /** Any run can be continued to one that the coordinator ends by itself; what has been recorded stays. */
  lemma {:induction false} CanFinish(sc: Scenario, run: seq<State>, s: State) returns (f: State)
    requires sc.Valid() && Reaches(sc, run, s)
    ensures sc.Finishes(f) && Within(s.completed, f.completed) && Within(s.failed, f.failed)
    decreases Rank(sc.steps, s)
  {
    hide Underway, WellFormed, Inv, Control, IsRun, Within, TopologicalOrder, Closed;
    f := s;
    if s.phase.Done? {
      UnderwayRun(sc.steps, sc.g, sc.outcome, sc.s0, run, s);
      assert sc.Ends(run, f);
      SelfWithin(s);
    } else {
      UnderwayInv(sc, run, s);
      NeverStuck(sc.steps, sc.g, sc.outcome, sc.s0, s);
      var s' :| Next(sc.steps, sc.outcome, s, s') && !Cancels(s, s');
      hide Next, Cancels;
      NextReaches(sc, run, s, s');
      f := CanFinish(sc, run + [s'], s');
      WithinTrans(s.completed, s'.completed, f.completed);
      WithinTrans(s.failed, s'.failed, f.failed);
    }
  }

  lemma SelfWithin(s: State)
    ensures Within(s.completed, s.completed) && Within(s.failed, s.failed)
  {
  }

  lemma StartReaches(sc: Scenario)
    requires sc.Valid()
    ensures Reaches(sc, [sc.s0], sc.s0)
  {
    StartUnderway(sc.steps, sc.g, sc.outcome, sc.s0);
  }

  // ---------- Steady steps give one result ----------

  /** r is what f records for step id. */
  ghost predicate Records(f: State, id: string, r: StepOutcome) {
    match r
    case Ok(output) => id in f.completed && f.completed[id] == output
    case Err(message) => id in f.failed && f.failed[id] == message
  }

  /** Everything recorded or under way in s is as f records it. */
  ghost predicate InLine(f: State, s: State) {
    && Within(s.completed, f.completed) && Within(s.failed, f.failed)
    && forall k :: 0 <= k < |s.channel| ==> Records(f, s.channel[k].id, s.channel[k].outcome)
  }

  lemma FoundWithin(g: Graph, s0: State, done: Outputs, done': Outputs, id: string, view: Outputs)
    requires CanFind(g, s0, done, id, view) && Within(done, done')
    ensures CanFind(g, s0, done', id, view)
  {
    hide Within, Between;
    var early, late :| Between(g, s0, id, view, early, late) && Within(late, done);
    WithinTrans(late, done, done');
  }

  lemma FoundMeansAccounted(sc: Scenario, f: State, id: string, view: Outputs)
    requires sc.Valid() && sc.Finishes(f) && CanFind(sc.g, sc.s0, f.completed, id, view)
    ensures f.Accounted(id) && !sc.s0.Accounted(id)
  {
    var early, late :| Between(sc.g, sc.s0, id, view, early, late) && Within(late, f.completed);
    hide sc.Valid, sc.Finishes;
    forall dep | dep in sc.g[id] ensures dep in f.completed {
      assert dep in early;
    }
    AccountedExactly(sc, f, id);
  }

  /** A step that may find outputs of f has run in f, and f records what it returned on outputs it may find. */
  lemma FoundMeansRan(sc: Scenario, f: State, id: string, view: Outputs) returns (own: Outputs)
    requires sc.Valid() && sc.Finishes(f) && CanFind(sc.g, sc.s0, f.completed, id, view)
    ensures CanFind(sc.g, sc.s0, f.completed, id, own) && Records(f, id, sc.outcome(id, own))
  {
    hide CanFind, sc.Finishes, sc.Valid, Dispatches, Views, Workers, SeparateMaps, Keeps, Control;
    FoundMeansAccounted(sc, f, id, view);
    FinishedFacts(sc, f);
    var r := if id in f.completed then Ok(f.completed[id]) else Err(f.failed[id]);
    assert Returned(sc.g, sc.outcome, sc.s0, f.completed, id, r);
    own :| CanFind(sc.g, sc.s0, f.completed, id, own) && sc.outcome(id, own) == r;
  }

  lemma SendInLine(sc: Scenario, f: State, s: State, s': State, id: string, view: Outputs)
    requires sc.Valid() && sc.Finishes(f) && Steady(sc, f) && InLine(f, s)
    requires Inv(sc.g, sc.outcome, sc.s0, s) && Sends(sc.steps, sc.outcome, s, s', id, view)
    ensures InLine(f, s')
  {
    assert id in s.running;
    SentIsReturned(sc.g, sc.outcome, sc.s0, s, id, view);
    hide Inv, CanFind, sc.Valid, sc.Finishes, Within;
    FoundWithin(sc.g, sc.s0, s.completed, f.completed, id, view);
    var own := FoundMeansRan(sc, f, id, view);
    assert sc.outcome(id, view) == sc.outcome(id, own);
    hide Steady, Records;
  }

  lemma ReceiveInLine(f: State, s: State)
    requires InLine(f, s) && SeparateMaps(s) && s.channel != [] && s.channel[0].id in s.running
    ensures InLine(f, Receive(s))
  {
    ReceiveMaps(s);
    var s' := Receive(s);
    assert s'.channel == s.channel[1..];
    assert Records(f, s.channel[0].id, s.channel[0].outcome);
  }

  lemma {:induction false} RunInLine(sc: Scenario, f: State, run: seq<State>, i: nat)
    requires sc.Valid() && sc.Finishes(f) && Steady(sc, f)
    requires IsRun(sc.steps, sc.outcome, sc.s0, run) && i < |run|
    ensures InLine(f, run[i])
  {
    if i == 0 {
      StartInLine(sc, f);
    } else {
      RunInLine(sc, f, run, i - 1);
      RunKeepsInv(sc.steps, sc.g, sc.outcome, sc.s0, run, i - 1);
      assert Next(sc.steps, sc.outcome, run[i - 1], run[(i - 1) + 1]);
      hide sc.Valid, sc.Finishes, Steady, Next, Inv, InLine;
      NextInLine(sc, f, run[i - 1], run[i]);
    }
  }

  lemma StartInLine(sc: Scenario, f: State)
    requires sc.Valid() && sc.Finishes(f)
    ensures InLine(f, sc.s0)
  {
    FinishedFacts(sc, f);
  }

  lemma NextInLine(sc: Scenario, f: State, s: State, s': State)
    requires sc.Valid() && sc.Finishes(f) && Steady(sc, f) && InLine(f, s)
    requires Inv(sc.g, sc.outcome, sc.s0, s) && Next(sc.steps, sc.outcome, s, s')
    ensures InLine(f, s')
  {
    hide sc.Valid, sc.Finishes, Steady, Records, Within, ReadyIDs, Workforce, Elements, Sends;
    if id, view :| Sends(sc.steps, sc.outcome, s, s', id, view) {
      SendInLine(sc, f, s, s', id, view);
    } else if Receives(s, s') {
      ReceiveWorkers(s);
      ReceiveInLine(f, s);
    }
  }

  /** If another end records nothing that f does not, it records all that f does. */
  lemma {:induction false} NothingMissing(sc: Scenario, f: State, f': State, k: nat)
    requires sc.Valid() && sc.Finishes(f) && sc.Finishes(f') && InLine(f, f') && k < |sc.order|
    ensures var id := sc.order[k]; (id in f.completed ==> id in f'.completed) && (id in f.failed ==> id in f'.failed)
    decreases k
  {
    var id := sc.order[k];
    EndKeeps(sc, f);
    EndKeeps(sc, f');
    if f.Accounted(id) && !sc.s0.Accounted(id) {
      AccountedExactly(sc, f, id);
      AccountedExactly(sc, f', id);
      forall dep | dep in sc.g[id] ensures dep in f'.completed {
        assert dep in sc.order[..k];
        var j :| 0 <= j < k && sc.order[j] == dep;
        NothingMissing(sc, f, f', j);
      }
    }
    hide sc.Valid, sc.Finishes;
  }

  lemma EndKeeps(sc: Scenario, f: State)
    requires sc.Valid() && sc.Finishes(f)
    ensures Keeps(sc.s0, f) && SeparateMaps(f)
  {
    FinishedFacts(sc, f);
  }

  lemma SteadyMeansOneResult(sc: Scenario, f: State)
    requires sc.Valid() && sc.Finishes(f) && Steady(sc, f)
    ensures OneResult(sc, f)
  {
    OnlySteps(sc, f);
    hide sc.Valid, Steady, InLine, Within;
    forall f' | sc.Finishes(f') ensures f'.completed == f.completed && f'.failed == f.failed {
      var run :| sc.Ends(run, f');
      RunInLine(sc, f, run, |run| - 1);
      forall id | f.Accounted(id)
        ensures (id in f.completed ==> id in f'.completed) && (id in f.failed ==> id in f'.failed)
      {
        OrderLists(sc, id);
        NothingMissing(sc, f, f', Position(sc.order, id));
      }
      SameEnds(f, f');
    }
  }

  lemma SameEnds(f: State, f': State)
    requires InLine(f, f')
    requires forall id :: (id in f.completed ==> id in f'.completed) && (id in f.failed ==> id in f'.failed)
    ensures f'.completed == f.completed && f'.failed == f.failed
  {
    assert f'.completed.Keys == f.completed.Keys;
    assert f'.failed.Keys == f.failed.Keys;
  }

  // ---------- One result means steady steps ----------

  /** What an uncancelled run has recorded is what f records, if there is one result. */
  lemma ReachedWithin(sc: Scenario, f: State, run: seq<State>, s: State)
    requires sc.Valid() && OneResult(sc, f) && Reaches(sc, run, s)
    ensures Within(s.completed, f.completed) && Within(s.failed, f.failed)
  {
    hide Reaches, sc.Valid, Within, sc.Finishes;
    var f' := CanFinish(sc, run, s);
  }

  /** Where step id is held back: it was dispatched no later than early, or still can be. */
  ghost predicate HeldBack(s: State, id: string, early: Outputs) {
    && !s.Accounted(id)
    && if id in s.working then Within(s.working[id], early) else Within(s.completed, early)
  }

  /** The coordinator is about to look for ready steps, and no result is under way. */
  ghost predicate Idle(sc: Scenario, run: seq<State>, s: State) {
    Reaches(sc, run, s) && s.phase.Coordinating? && s.channel == []
  }

  /** After a pass every step whose dependencies have completed is at work or has been recorded. */
  lemma PassDispatches(sc: Scenario, run: seq<State>, s: State, a: string)
    requires sc.Valid() && Idle(sc, run, s)
    requires a in sc.g && !s.Accounted(a) && forall dep :: dep in sc.g[a] ==> dep in s.completed
    ensures var s' := Coordinate(sc.steps, s);
            && a in s'.working && s'.phase.Waiting? && s'.channel == []
            && s'.completed == s.completed && s'.failed == s.failed
  {
    var ready := ReadyIDs(sc.steps, s);
    if a in s.running {
      assert !InChannel(s, a);
    } else {
      assert HasStep(sc.steps, a);
      var i :| 0 <= i < |sc.steps| && sc.steps[i].id == a;
      assert IsReady(s, sc.steps[i]);
    }
    CoordinateDispatches(sc.steps, s);
    hide ReadyIDs, Dispatch;
  }

  lemma PassHoldsBack(sc: Scenario, run: seq<State>, s: State, id: string, early: Outputs)
    requires sc.Valid() && Idle(sc, run, s) && HeldBack(s, id, early)
    ensures HeldBack(Coordinate(sc.steps, s), id, early)
  {
    var ready := ReadyIDs(sc.steps, s);
    CoordinateDispatches(sc.steps, s);
    if id in ready {
      ReadyMeans(sc.steps, sc.g, s, id);
    }
    hide ReadyIDs, Coordinate, Within;
  }

  /** The state after a worker's result, found on view, was sent and received. */
  ghost predicate Ran(sc: Scenario, s: State, s': State, a: string, view: Outputs) {
    && s'.working == s.working - {a} && Records(s', a, sc.outcome(a, view))
    && match sc.outcome(a, view)
       case Ok(output) => s'.completed == s.completed[a := output] && s'.failed == s.failed
       case Err(message) => s'.completed == s.completed && s'.failed == s.failed[a := message]
  }

  lemma ReceiveRan(sc: Scenario, s: State, s': State, a: string, view: Outputs)
    requires s.channel == []
    requires s' == s.(working := s.working - {a}, channel := [Finished(a, sc.outcome(a, view))])
    ensures Ran(sc, s, Receive(s'), a, view) && Records(Receive(s'), a, sc.outcome(a, view))
    ensures Receive(s').phase.Coordinating? && Receive(s').channel == []
  {
  }

  lemma SendIsNext(sc: Scenario, s: State, s': State, a: string, view: Outputs)
    requires Sends(sc.steps, sc.outcome, s, s', a, view)
    ensures Next(sc.steps, sc.outcome, s, s') && !Cancels(s, s')
  {
    hide Coordinate;
    assert |s'.channel| != |s.channel|;
  }

  lemma ReceiveIsNext(sc: Scenario, s: State)
    requires s.phase.Waiting? && s.channel != []
    ensures Next(sc.steps, sc.outcome, s, Receive(s)) && !Cancels(s, Receive(s))
  {
    hide Coordinate, Sends;
    assert |Receive(s).channel| != |s.channel|;
  }

  lemma CoordinateIsNext(sc: Scenario, s: State)
    requires s.phase.Coordinating? && !WasCancelled(s)
    ensures Next(sc.steps, sc.outcome, s, Coordinate(sc.steps, s)) && !Cancels(s, Coordinate(sc.steps, s))
  {
    hide ReadyIDs, Workforce, Elements;
  }

  lemma WorkerSends(sc: Scenario, run: seq<State>, s: State, a: string, view: Outputs) returns (s': State)
    requires sc.Valid() && Reaches(sc, run, s) && s.channel == []
    requires a in s.working && Within(s.working[a], view) && Within(view, s.completed)
    ensures s' == s.(working := s.working - {a}, channel := [Finished(a, sc.outcome(a, view))])
    ensures Sends(sc.steps, sc.outcome, s, s', a, view)
  {
    UnderwayInv(sc, run, s);
    SendNeverBlocks(sc.steps, sc.g, sc.outcome, sc.s0, s, a);
    hide Underway, Inv, Control, Within, sc.Valid;
    s' := s.(working := s.working - {a}, channel := [Finished(a, sc.outcome(a, view))]);
  }

  /** Lets worker a, and no other, return with what it found in view. */
  lemma RunOnly(sc: Scenario, run: seq<State>, s: State, a: string, view: Outputs) returns (run': seq<State>, s': State)
    requires sc.Valid() && Reaches(sc, run, s) && s.phase.Waiting? && s.channel == []
    requires a in s.working && Within(s.working[a], view) && Within(view, s.completed)
    ensures Idle(sc, run', s') && Ran(sc, s, s', a, view) && Records(s', a, sc.outcome(a, view))
  {
    var s1 := WorkerSends(sc, run, s, a, view);
    SendIsNext(sc, s, s1, a, view);
    hide Reaches, Within, Next, Cancels, sc.Valid, Sends, Ran, Receive;
    NextReaches(sc, run, s, s1);
    s' := Receive(s1);
    ReceiveRan(sc, s, s1, a, view);
    ReceiveIsNext(sc, s1);
    NextReaches(sc, run + [s1], s1, s');
    run' := run + [s1] + [s'];
  }

  lemma RanHoldsBack(sc: Scenario, f: State, s: State, s': State, id: string, early: Outputs, a: string, view: Outputs)
    requires Ran(sc, s, s', a, view) && Within(s'.completed, f.completed) && Within(s'.failed, f.failed)
    requires a in f.completed && a !in f.failed && a != id && HeldBack(s, id, early) && Within(early, f.completed)
    requires a in early || id in s.working
    ensures s'.completed == s.completed[a := f.completed[a]] && HeldBack(s', id, early)
  {
  }

  lemma WorkerFound(sc: Scenario, run: seq<State>, s: State, a: string)
    requires Reaches(sc, run, s) && a in s.working
    ensures Within(s.working[a], s.completed) && Within(s.completed, s.completed)
  {
  }

  lemma NotYetRecorded(sc: Scenario, f: State, run: seq<State>, s: State, a: string)
    requires sc.Valid() && sc.Finishes(f) && OneResult(sc, f) && Reaches(sc, run, s)
    requires a in f.completed && a !in s.completed
    ensures !s.Accounted(a) && a !in f.failed
  {
    FinishedFacts(sc, f);
    ReachedWithin(sc, f, run, s);
  }

  /** Runs step a to its end after a pass, with id held back; a step that f completed completes. */
  lemma RunNext(sc: Scenario, f: State, run: seq<State>, s: State, id: string, early: Outputs, a: string)
    returns (run': seq<State>, s': State)
    requires sc.Valid() && sc.Finishes(f) && OneResult(sc, f) && Idle(sc, run, s)
    requires Moment(sc.g, sc.s0, id, early) && HeldBack(s, id, early) && Within(early, f.completed)
    requires a != id && a in sc.g && a in f.completed && a !in s.completed
    requires forall dep :: dep in sc.g[a] ==> dep in s.completed
    requires a in early || Within(early, s.completed)
    ensures Idle(sc, run', s') && HeldBack(s', id, early)
    ensures s'.completed == s.completed[a := f.completed[a]]
  {
    hide Coordinate, sc.Valid, sc.Finishes, OneResult, Reaches, Next, Cancels, Ran;
    NotYetRecorded(sc, f, run, s, a);
    var s1 := Coordinate(sc.steps, s);
    NotCancelled(sc, run, s);
    CoordinateIsNext(sc, s);
    NextReaches(sc, run, s, s1);
    PassDispatches(sc, run, s, a);
    PassHoldsBack(sc, run, s, id, early);
    if a !in early {
      PassDispatches(sc, run, s, id);
    }
    WorkerFound(sc, run + [s1], s1, a);
    hide Moment, Within, HeldBack;
    run', s' := RunOnly(sc, run + [s1], s1, a, s1.completed);
    ReachedWithin(sc, f, run', s');
    RanHoldsBack(sc, f, s1, s', id, early, a, s1.completed);
  }

  lemma NotCancelled(sc: Scenario, run: seq<State>, s: State)
    requires Reaches(sc, run, s)
    ensures !WasCancelled(s)
  {
  }

  /** Some missing step of a map closed under dependencies has nothing missing that it depends on. */
  lemma {:induction false} NextToRun(sc: Scenario, id: string, goal: Outputs, done: Outputs, x: string)
    returns (a: string)
    requires sc.Valid() && Moment(sc.g, sc.s0, id, goal) && goal.Keys <= sc.g.Keys && Within(sc.s0.completed, done)
    requires x in goal && x !in done
    ensures a in goal && a !in done && forall dep :: dep in sc.g[a] ==> dep in done
    decreases Position(sc.order, x)
  {
    a := x;
    if dep :| dep in sc.g[x] && dep !in done {
      var k := Position(sc.order, x);
      assert dep in sc.order[..k];
      var j :| 0 <= j < k && sc.order[j] == dep;
      assert Position(sc.order, dep) == j;
      a := NextToRun(sc, id, goal, done, dep);
    }
  }

  lemma GoalReached(done: Outputs, goal: Outputs)
    requires Within(done, goal) && goal.Keys <= done.Keys
    ensures done == goal
  {
    assert done.Keys == goal.Keys;
  }

  lemma OneStepCloser(f: State, done: Outputs, goal: Outputs, a: string)
    requires Within(done, goal) && Within(goal, f.completed) && a in goal && a !in done
    ensures Within(done[a := f.completed[a]], goal) && Within(done, done[a := f.completed[a]])
    ensures |goal.Keys - done[a := f.completed[a]].Keys| < |goal.Keys - done.Keys|
  {
    assert goal.Keys - done[a := f.completed[a]].Keys == goal.Keys - done.Keys - {a};
  }

  /** The hypotheses under which steps of goal can be run one by one with id held back. */
  ghost predicate CanDrive(sc: Scenario, f: State, s: State, id: string, early: Outputs, goal: Outputs) {
    && HeldBack(s, id, early) && Within(early, f.completed)
    && Within(goal, f.completed) && Within(s.completed, goal) && Within(sc.s0.completed, s.completed)
    && (Within(goal, early) || Within(early, s.completed))
  }

  lemma PickNext(sc: Scenario, f: State, s: State, id: string, early: Outputs, goal: Outputs) returns (a: string)
    requires sc.Valid() && sc.Finishes(f) && Moment(sc.g, sc.s0, id, goal)
    requires CanDrive(sc, f, s, id, early, goal) && !(goal.Keys <= s.completed.Keys)
    ensures a in goal && a !in s.completed && a != id && a in sc.g && a in f.completed
    ensures forall dep :: dep in sc.g[a] ==> dep in s.completed
    ensures a in early || Within(early, s.completed)
  {
    OnlyStepsIn(sc, f, goal);
    hide sc.Valid, sc.Finishes, Moment, HeldBack, Within;
    var x :| x in goal && x !in s.completed;
    a := NextToRun(sc, id, goal, s.completed, x);
    MomentMeans(sc.g, sc.s0, id, goal);
    InGoal(early, goal, f.completed, a);
  }

  lemma DriveOnce(sc: Scenario, f: State, run: seq<State>, s: State, id: string, early: Outputs, goal: Outputs)
    returns (run': seq<State>, s': State)
    requires sc.Valid() && sc.Finishes(f) && OneResult(sc, f) && Idle(sc, run, s)
    requires Moment(sc.g, sc.s0, id, early) && Moment(sc.g, sc.s0, id, goal)
    requires CanDrive(sc, f, s, id, early, goal) && !(goal.Keys <= s.completed.Keys)
    ensures Idle(sc, run', s') && CanDrive(sc, f, s', id, early, goal)
    ensures |goal.Keys - s'.completed.Keys| < |goal.Keys - s.completed.Keys|
  {
    hide sc.Valid, sc.Finishes, OneResult, Idle, Moment, HeldBack, Within;
    var a := PickNext(sc, f, s, id, early, goal);
    OneStepCloser(f, s.completed, goal, a);
    run', s' := RunNext(sc, f, run, s, id, early, a);
    DriveRest(sc.s0, s, s', early);
  }

  lemma InGoal(early: Outputs, goal: Outputs, done: Outputs, a: string)
    requires a in goal && Within(goal, done)
    ensures a in done && (Within(goal, early) ==> a in early)
  {
  }

  /** Runs the steps of goal that are missing, one at a time, with id held back. */
  lemma {:induction false} DriveTo(sc: Scenario, f: State, run: seq<State>, s: State, id: string, early: Outputs,
                                   goal: Outputs)
    returns (run': seq<State>, s': State)
    requires sc.Valid() && sc.Finishes(f) && OneResult(sc, f) && Idle(sc, run, s)
    requires Moment(sc.g, sc.s0, id, early) && Moment(sc.g, sc.s0, id, goal)
    requires CanDrive(sc, f, s, id, early, goal)
    ensures Idle(sc, run', s') && HeldBack(s', id, early) && s'.completed == goal
    decreases |goal.Keys - s.completed.Keys|
  {
    run', s' := run, s;
    hide sc.Valid, sc.Finishes, OneResult, Idle, Moment, HeldBack, Within;
    if goal.Keys <= s.completed.Keys {
      GoalReached(s.completed, goal);
    } else {
      run', s' := DriveOnce(sc, f, run, s, id, early, goal);
      run', s' := DriveTo(sc, f, run', s', id, early, goal);
    }
  }

  lemma OnlyStepsIn(sc: Scenario, f: State, goal: Outputs)
    requires sc.Valid() && sc.Finishes(f) && Within(goal, f.completed)
    ensures goal.Keys <= sc.g.Keys
  {
    OnlySteps(sc, f);
  }

  lemma DriveRest(s0: State, s: State, s': State, early: Outputs)
    requires Within(s0.completed, s.completed) && Within(s.completed, s'.completed)
    ensures Within(s0.completed, s'.completed)
    ensures Within(early, s.completed) ==> Within(early, s'.completed)
  {
  }

  /** Whatever a step may find of f, some finished run had it find that. */
  lemma Realised(sc: Scenario, f: State, id: string, view: Outputs) returns (f': State)
    requires sc.Valid() && sc.Finishes(f) && OneResult(sc, f) && CanFind(sc.g, sc.s0, f.completed, id, view)
    ensures sc.Finishes(f') && Records(f', id, sc.outcome(id, view))
  {
    var early, late :| Between(sc.g, sc.s0, id, view, early, late) && Within(late, f.completed);
    WithinTrans(early, view, late);
    WithinTrans(early, late, f.completed);
    StartReaches(sc);
    var run, s := [sc.s0], sc.s0;
    StartHeldBack(sc, id, early);
    hide sc.Valid, sc.Finishes, OneResult, CanFind, Reaches, Moment, Next, Coordinate, Cancels, Ran;
    assert Within(sc.s0.completed, early) by { MomentMeans(sc.g, sc.s0, id, early); }
    run, s := DriveTo(sc, f, run, s, id, early, early);
    run, s := DriveTo(sc, f, run, s, id, early, late);
    MomentMeans(sc.g, sc.s0, id, early);
    assert forall dep :: dep in sc.g[id] ==> dep in s.completed;
    NotCancelled(sc, run, s);
    CoordinateIsNext(sc, s);
    NextReaches(sc, run, s, Coordinate(sc.steps, s));
    PassDispatches(sc, run, s, id);
    PassHoldsBack(sc, run, s, id, early);
    run, s := run + [Coordinate(sc.steps, s)], Coordinate(sc.steps, s);
    WithinTrans(s.working[id], early, view);
    run, s := RunOnly(sc, run, s, id, view);
    f' := CanFinish(sc, run, s);
    RecordsStay(s, f', id, sc.outcome(id, view));
  }

  lemma StartHeldBack(sc: Scenario, id: string, early: Outputs)
    requires sc.Valid() && Moment(sc.g, sc.s0, id, early)
    ensures HeldBack(sc.s0, id, early) && sc.s0.phase.Coordinating? && sc.s0.channel == []
    ensures Within(sc.s0.completed, sc.s0.completed)
  {
  }

  lemma MomentMeans(g: Graph, s0: State, id: string, m: Outputs)
    requires Moment(g, s0, id, m)
    ensures id in g && id !in m && Within(s0.completed, m) && Within(m, m) && forall dep :: dep in g[id] ==> dep in m
  {
  }

  lemma RecordsStay(s: State, f: State, id: string, r: StepOutcome)
    requires Records(s, id, r) && Within(s.completed, f.completed) && Within(s.failed, f.failed)
    ensures Records(f, id, r)
  {
  }

  lemma SameRecord(f: State, id: string, r1: StepOutcome, r2: StepOutcome)
    requires SeparateMaps(f) && Records(f, id, r1) && Records(f, id, r2)
    ensures r1 == r2
  {
  }

  lemma OneResultMeansSteady(sc: Scenario, f: State)
    requires sc.Valid() && sc.Finishes(f) && OneResult(sc, f)
    ensures Steady(sc, f)
  {
    FinishedFacts(sc, f);
    hide sc.Valid, sc.Finishes, CanFind, Dispatches, Keeps, Results, Views, Workers, SeparateMaps;
    forall id, v1, v2 | CanFind(sc.g, sc.s0, f.completed, id, v1) && CanFind(sc.g, sc.s0, f.completed, id, v2)
      ensures sc.outcome(id, v1) == sc.outcome(id, v2)
    {
      var f1 := Realised(sc, f, id, v1);
      var f2 := Realised(sc, f, id, v2);
      assert Records(f, id, sc.outcome(id, v1)) && Records(f, id, sc.outcome(id, v2));
      SameRecord(f, id, sc.outcome(id, v1), sc.outcome(id, v2));
    }
  }

  /**
    All finished runs leave the same maps exactly when every step is steady on what one of them left: it returns the
    same whichever outputs it finds beside those it depends on.
   */
  lemma OrderIndependentExactly(sc: Scenario, f: State)
    requires sc.Valid() && sc.Finishes(f)
    ensures OneResult(sc, f) <==> Steady(sc, f)
  {
    hide sc.Valid, sc.Finishes, OneResult, Steady;
    if Steady(sc, f) {
      SteadyMeansOneResult(sc, f);
    }
    if OneResult(sc, f) {
      OneResultMeansSteady(sc, f);
    }
  }

  // ---------- Steps that only use what they depend on ----------

  /** id depends on x, directly or not. */
  ghost predicate Needs(g: Graph, id: string, x: string) {
    exists p :: NeedsAlong(g, id, x, p)
  }

  ghost predicate NeedsAlong(g: Graph, id: string, x: string, p: seq<string>) {
    DepPath(g, p) && |p| > 1 && p[0] == id && p[|p| - 1] == x
  }

  ghost predicate AgreeOnNeeds(g: Graph, id: string, v1: Outputs, v2: Outputs) {
    forall x :: Needs(g, id, x) ==> x in v1 && x in v2 && v1[x] == v2[x]
  }

  /** Every step's result is determined by the outputs of the steps it depends on, directly or not. */
  ghost predicate OnlyNeedsMatter(sc: Scenario) {
    forall id, v1, v2 :: AgreeOnNeeds(sc.g, id, v1, v2) ==> sc.outcome(id, v1) == sc.outcome(id, v2)
  }

  lemma {:induction false} NeedsFound(sc: Scenario, id: string, m: Outputs, p: seq<string>, j: nat)
    requires sc.Valid() && Moment(sc.g, sc.s0, id, m) && DepPath(sc.g, p) && p[0] == id && 0 < j < |p|
    ensures p[j] in m
  {
    assert p[(j - 1) + 1] in sc.g[p[j - 1]];
    if j > 1 {
      NeedsFound(sc, id, m, p, j - 1);
      if p[j - 1] in sc.s0.completed {
        assert p[j] in sc.s0.completed;
      }
    }
  }

  /** What a step may find includes all it depends on, as recorded. */
  lemma NeedsRecorded(sc: Scenario, f: State, id: string, view: Outputs, x: string)
    requires sc.Valid() && CanFind(sc.g, sc.s0, f.completed, id, view) && Needs(sc.g, id, x)
    ensures x in view && x in f.completed && view[x] == f.completed[x]
  {
    var early, late :| Between(sc.g, sc.s0, id, view, early, late) && Within(late, f.completed);
    var p :| NeedsAlong(sc.g, id, x, p);
    NeedsFound(sc, id, early, p, |p| - 1);
    hide Moment, sc.Valid, CanFind;
  }

  /** Then runs that only differ in scheduling end with the same completed and failed maps. */
  lemma FinishOrderIrrelevant(sc: Scenario, f1: State, f2: State)
    requires sc.Valid() && OnlyNeedsMatter(sc) && sc.Finishes(f1) && sc.Finishes(f2)
    ensures f1.completed == f2.completed && f1.failed == f2.failed
  {
    hide sc.Valid, sc.Finishes, CanFind, Needs;
    forall id, v1, v2 | CanFind(sc.g, sc.s0, f1.completed, id, v1) && CanFind(sc.g, sc.s0, f1.completed, id, v2)
      ensures sc.outcome(id, v1) == sc.outcome(id, v2)
    {
      forall x | Needs(sc.g, id, x) ensures x in v1 && x in v2 && v1[x] == v2[x] {
        NeedsRecorded(sc, f1, id, v1, x);
        NeedsRecorded(sc, f1, id, v2, x);
      }
      assert AgreeOnNeeds(sc.g, id, v1, v2);
    }
    SteadyMeansOneResult(sc, f1);
  }

  // ---------- A flow whose result depends on the order ----------

  /** Steps a and b have no dependencies; c depends on b alone, but its command tests that a has an output. */
  function Unsteady(a: string, b: string, c: string): Scenario {
    Scenario(
      [Step(a, Shell, [], "", ""), Step(b, Shell, [], "", ""), Step(c, Shell, [b], "", "")],
      map[a := [], b := [], c := [b]],
      [a, b, c],
      (id: string, found: Outputs) => if id == c && a !in found then Err("exit 1") else Ok("x"),
      Start(map[], map[]))
  }

  ghost predicate ThreeIDs(a: string, b: string, c: string) {
    a != b && b != c && a != c && a != "" && b != "" && c != ""
  }

  lemma UnsteadyFacts(a: string, b: string, c: string)
    requires ThreeIDs(a, b, c)
    ensures Unsteady(a, b, c).Valid() && Unsteady(a, b, c).s0 == Start(map[], map[])
    ensures var g := Unsteady(a, b, c).g; g.Keys == {a, b, c} && g[a] == [] && g[b] == [] && g[c] == [b]
    ensures forall id, found :: Unsteady(a, b, c).outcome(id, found) ==
              if id == c && a !in found then Err("exit 1") else Ok("x")
  {
    var sc := Unsteady(a, b, c);
    assert sc.steps[0].id == a && sc.steps[1].id == b && sc.steps[2].id == c;
    assert forall id :: HasStep(sc.steps, id) <==> id == a || id == b || id == c;
    assert sc.order[0] == a && sc.order[1] == b && sc.order[2] == c;
    assert sc.order[..2] == [a, b];
  }

  lemma UnsteadyResult(a: string, b: string, c: string, f: State, id: string, r: StepOutcome)
    requires ThreeIDs(a, b, c)
    requires Returned(Unsteady(a, b, c).g, Unsteady(a, b, c).outcome, Unsteady(a, b, c).s0, f.completed, id, r)
    ensures r == Ok("x") || (r == Err("exit 1") && id == c)
  {
    UnsteadyFacts(a, b, c);
    hide Unsteady, CanFind;
  }

  lemma UnsteadyRan(a: string, b: string, c: string, f: State)
    requires ThreeIDs(a, b, c) && Unsteady(a, b, c).Finishes(f)
    ensures f.completed.Keys + f.failed.Keys <= {a, b, c} && f.completed.Keys !! f.failed.Keys
    ensures forall id :: id in f.completed ==> f.completed[id] == "x"
    ensures forall id :: id in f.failed ==> f.failed[id] == "exit 1" && id == c
    ensures f.Accounted(a) && f.Accounted(b) && (b in f.completed ==> f.Accounted(c))
  {
    var sc := Unsteady(a, b, c);
    UnsteadyFacts(a, b, c);
    hide Unsteady;
    FinishedFacts(sc, f);
    OnlySteps(sc, f);
    AccountedExactly(sc, f, a);
    AccountedExactly(sc, f, b);
    AccountedExactly(sc, f, c);
    hide sc.Valid, sc.Finishes, Returned, Dispatches, Workers, Views, Keeps, ReadyIDs;
    forall id | id in f.completed ensures f.completed[id] == "x" {
      UnsteadyResult(a, b, c, f, id, Ok(f.completed[id]));
    }
    forall id | id in f.failed ensures f.failed[id] == "exit 1" && id == c {
      UnsteadyResult(a, b, c, f, id, Err(f.failed[id]));
    }
  }

  lemma UnsteadyEnds(a: string, b: string, c: string, f: State)
    requires ThreeIDs(a, b, c) && Unsteady(a, b, c).Finishes(f)
    ensures || (f.completed == map[a := "x", b := "x", c := "x"] && f.failed == map[])
            || (f.completed == map[a := "x", b := "x"] && f.failed == map[c := "exit 1"])
  {
    UnsteadyRan(a, b, c, f);
    hide Unsteady, Scenario.Finishes;
    if c in f.completed {
      assert f.completed.Keys == {a, b, c} && f.failed.Keys == {};
    } else {
      assert f.completed.Keys == {a, b} && f.failed.Keys == {c};
    }
  }

  lemma UnsteadyFinds(a: string, b: string, c: string, f: State, found: Outputs)
    requires ThreeIDs(a, b, c) && Within(found, f.completed) && (found.Keys == {b} || found.Keys == {a, b})
    ensures CanFind(Unsteady(a, b, c).g, Unsteady(a, b, c).s0, f.completed, c, found)
  {
    UnsteadyFacts(a, b, c);
    hide Unsteady;
    assert Moment(Unsteady(a, b, c).g, Unsteady(a, b, c).s0, c, found);
    assert Between(Unsteady(a, b, c).g, Unsteady(a, b, c).s0, c, found, found, found);
  }

  lemma UnsteadyViews(a: string, b: string, c: string, f: State) returns (early: Outputs, late: Outputs)
    requires ThreeIDs(a, b, c) && Unsteady(a, b, c).Finishes(f)
    ensures Within(early, f.completed) && early.Keys == {b} && a !in early
    ensures Within(late, f.completed) && late.Keys == {a, b} && a in late
  {
    UnsteadyEnds(a, b, c, f);
    hide Unsteady, Scenario.Finishes;
    early, late := map[b := "x"], map[a := "x", b := "x"];
  }

  lemma IsUnsteady(a: string, b: string, c: string, f: State)
    requires ThreeIDs(a, b, c) && Unsteady(a, b, c).Finishes(f)
    ensures !Steady(Unsteady(a, b, c), f)
  {
    UnsteadyFacts(a, b, c);
    var early, late := UnsteadyViews(a, b, c, f);
    hide Unsteady, CanFind, Scenario.Finishes, Scenario.Valid, Within;
    UnsteadyFinds(a, b, c, f, early);
    UnsteadyFinds(a, b, c, f, late);
    assert Unsteady(a, b, c).outcome(c, early) != Unsteady(a, b, c).outcome(c, late);
  }

  /** Some runs of this flow end with c completed, others with c failed. */
  lemma FinishOrderMatters(a: string, b: string, c: string)
    requires ThreeIDs(a, b, c)
    ensures Unsteady(a, b, c).Valid()
    ensures exists f1, f2 ::
              Unsteady(a, b, c).Finishes(f1) && Unsteady(a, b, c).Finishes(f2) && c in f1.completed && c in f2.failed
  {
    var sc := Unsteady(a, b, c);
    UnsteadyFacts(a, b, c);
    StartReaches(sc);
    var f := CanFinish(sc, [sc.s0], sc.s0);
    IsUnsteady(a, b, c, f);
    OrderIndependentExactly(sc, f);
    hide Unsteady, sc.Valid, sc.Finishes, Steady;
    var f' :| sc.Finishes(f') && !(f'.completed == f.completed && f'.failed == f.failed);
    UnsteadyEnds(a, b, c, f);
    UnsteadyEnds(a, b, c, f');
    if c in f.completed {
      assert c in f'.failed;
    } else {
      assert c in f'.completed && c in f.failed;
    }
  }
}
