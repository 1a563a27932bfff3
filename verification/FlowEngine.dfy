/**
  The parallel executor of a flow as a state machine: a coordinator that dispatches steps, one worker per dispatched
  step, and the buffered channel of results between them.
 */
module FlowEngine {
  import opened Basics
  import opened Wrappers
  import opened FlowGraph
  import opened FlowValidation

  datatype StepOutcome = Ok(output: string) | Err(message: string)

  /** Outputs of completed steps. All workers share the coordinator's map of them. */
  type Outputs = map<string, string>

  /** What running a step returns when it finds these outputs: templates and environment are filled from them. */
  type Behaviour = (string, Outputs) -> StepOutcome

  datatype Finished = Finished(id: string, outcome: StepOutcome)

  datatype RunError = StepFailed(message: string) | Stalled(missing: int, total: nat) | Cancelled

  datatype Phase = Coordinating | Waiting | Done

  /**
    The coordinator's maps, the workers that have not sent yet, each with the outputs there were when it was dispatched,
    the channel, and the log of dispatches.
   */
  datatype State = State(
    completed: Outputs,
    failed: map<string, string>,
    running: set<string>,
    working: map<string, Outputs>,
    channel: seq<Finished>,
    dispatched: seq<string>,
    error: Option<RunError>,
    phase: Phase)
  {
    ghost predicate Accounted(id: string) {
      id in completed || id in failed
    }
  }

  function Start(completed: Outputs, failed: map<string, string>): State {
    State(completed, failed, {}, map[], [], [], None, Coordinating)
  }

  predicate IsReady(s: State, step: Step) {
    && step.id !in s.completed && step.id !in s.running && step.id !in s.failed
    && forall dep :: dep in step.dependsOn ==> dep in s.completed
  }

  /** The ids the coordinator dispatches, in list order. */
  function ReadyIDs(steps: seq<Step>, s: State): (ids: seq<string>)
    ensures forall id :: id in ids <==> exists i :: 0 <= i < |steps| && steps[i].id == id && IsReady(s, steps[i])
  {
    if steps == [] then []
    else
      var last := steps[|steps| - 1];
      ReadyIDs(steps[..|steps| - 1], s) + if IsReady(s, last) then [last.id] else []
  }

  function Elements(ids: seq<string>): (r: set<string>)
    ensures forall id :: id in r <==> id in ids
  {
    set id | id in ids
  }

  /** A worker for each of these steps. */
  function Workforce(ready: seq<string>, completed: Outputs): (r: map<string, Outputs>)
    ensures r.Keys == Elements(ready)
  {
    map id | id in Elements(ready) :: completed
  }

  function Dispatch(s: State, ready: seq<string>): State {
    s.(running := s.running + Elements(ready),
       working := s.working + Workforce(ready, s.completed),
       dispatched := s.dispatched + ready)
  }

  /** Whether the coordinator leaves, and with what error, once nothing is running and nothing was ready. */
  function Leave(steps: seq<Step>, s: State): State {
    var accounted := |s.completed| + |s.failed|;
    if accounted < |steps| then s.(phase := Done, error := Some(Stalled(|steps| - accounted, |steps|)))
    else s.(phase := Done)
  }

  /** One pass of the coordinator: dispatch everything ready, then leave or wait. */
  function Coordinate(steps: seq<Step>, s: State): State {
    var ready := ReadyIDs(steps, s);
    if |s.running| + |ready| > 0 then Dispatch(s, ready).(phase := Waiting) else Leave(steps, s)
  }

  /** w has all of v's outputs. */
  predicate Within(v: Outputs, w: Outputs) {
    forall id :: id in v ==> id in w && w[id] == v[id]
  }

  /**
    A worker's step has returned and its result goes into the channel, which holds one result per step. The map of
    outputs grows while the step runs, and each output is read at a time of its own: what the step found is anything
    between the outputs at its dispatch and those there are now.
   */
  ghost predicate Sends(steps: seq<Step>, outcome: Behaviour, s: State, s': State, id: string, view: Outputs) {
    && id in s.working && |s.channel| < |steps|
    && Within(s.working[id], view) && Within(view, s.completed)
    && s' == s.(working := s.working - {id}, channel := s.channel + [Finished(id, outcome(id, view))])
  }

  function Receive(s: State): State
    requires s.channel != []
  {
    var f := s.channel[0];
    var next := s.(channel := s.channel[1..], running := s.running - {f.id}, phase := Coordinating);
    match f.outcome
    case Ok(output) => next.(completed := s.completed[f.id := output])
    case Err(message) =>
      next.(failed := s.failed[f.id := message], error := if s.error.None? then Some(StepFailed(message)) else s.error)
  }

  ghost predicate Receives(s: State, s': State) {
    s.phase.Waiting? && s.channel != [] && s' == Receive(s)
  }

  ghost predicate Cancels(s: State, s': State) {
    s.phase.Waiting? && s' == s.(phase := Done, error := Some(Cancelled))
  }

  ghost predicate Next(steps: seq<Step>, outcome: Behaviour, s: State, s': State) {
    || (s.phase.Coordinating? && s' == Coordinate(steps, s))
    || (exists id, view :: Sends(steps, outcome, s, s', id, view))
    || Receives(s, s')
    || Cancels(s, s')
  }

  /** A finite run from s0, under any interleaving of the coordinator, the workers and cancellation. */
  ghost predicate IsRun(steps: seq<Step>, outcome: Behaviour, s0: State, run: seq<State>) {
    && run != [] && run[0] == s0
    && forall i :: 0 <= i < |run| - 1 ==> Next(steps, outcome, run[i], run[i + 1])
  }

  // ---------- Invariant ----------

  ghost predicate WellFormed(steps: seq<Step>, g: Graph) {
    GoodIDs(steps) && IsGraphOf(steps, g)
  }

  ghost predicate InChannel(s: State, id: string) {
    exists k :: 0 <= k < |s.channel| && s.channel[k].id == id
  }

  /** What holds in every reachable state; done0 are the ids already accounted for when the run starts. */
  ghost predicate Inv(g: Graph, outcome: Behaviour, s0: State, s: State) {
    && SeparateMaps(s)
    && Dispatches(g, s0, s)
    && Workers(s)
    && Keeps(s0, s)
    && Views(g, s0, s)
    && Results(g, outcome, s0, s)
  }

  ghost predicate SeparateMaps(s: State) {
    forall id :: !(id in s.completed && id in s.failed) && (id in s.running ==> !s.Accounted(id))
  }

  /**
    The dispatch log holds, once each, the steps running or accounted for since the start; all had their dependencies
    completed.
   */
  ghost predicate Dispatches(g: Graph, s0: State, s: State) {
    && Distinct(s.dispatched)
    && (forall id :: id in s.dispatched <==> !s0.Accounted(id) && (s.Accounted(id) || id in s.running))
    && (forall id :: s0.Accounted(id) ==> s.Accounted(id))
    && (forall id :: id in s.dispatched ==> id in g)
    && (forall id, dep :: id in s.dispatched && dep in g[id] ==> dep in s.completed)
  }

  /** Each running step is either still with its worker or has its one result in the channel. */
  ghost predicate Workers(s: State) {
    && (forall id :: id in s.running <==> id in s.working || InChannel(s, id))
    && (forall id :: !(id in s.working && InChannel(s, id)))
    && (forall j, k :: 0 <= j < k < |s.channel| ==> s.channel[j].id != s.channel[k].id)
  }

  /** Entries from before the run are untouched. */
  ghost predicate Keeps(s0: State, s: State) {
    Within(s0.completed, s.completed) && Within(s0.failed, s.failed)
  }

  /**
    What completed may hold at a moment when step id is running: everything from the start, what id depends on, with
    each new entry what that one depends on, and not id itself.
   */
  ghost predicate Moment(g: Graph, s0: State, id: string, m: Outputs) {
    && id in g && !s0.Accounted(id) && id !in m && Within(s0.completed, m)
    && (forall dep :: dep in g[id] ==> dep in m)
    && (forall x, dep :: x in m && x !in s0.completed && x in g && dep in g[x] ==> dep in m)
  }

  ghost predicate Between(g: Graph, s0: State, id: string, view: Outputs, early: Outputs, late: Outputs) {
    Moment(g, s0, id, early) && Moment(g, s0, id, late) && Within(early, view) && Within(view, late)
  }

  /** Of the outputs in done, step id may find those in view: they lie between the outputs of two moments. */
  ghost predicate CanFind(g: Graph, s0: State, done: Outputs, id: string, view: Outputs) {
    exists early, late :: Between(g, s0, id, view, early, late) && Within(late, done)
  }

  /** r is what step id returns on outputs it may find. */
  ghost predicate Returned(g: Graph, outcome: Behaviour, s0: State, done: Outputs, id: string, r: StepOutcome) {
    exists view :: CanFind(g, s0, done, id, view) && outcome(id, view) == r
  }

  /** Workers were dispatched at a moment before now. */
  ghost predicate Views(g: Graph, s0: State, s: State) {
    forall id :: id in s.working ==> Moment(g, s0, id, s.working[id]) && Within(s.working[id], s.completed)
  }

  /** New entries of the maps, and results under way, are what the steps returned. */
  ghost predicate Results(g: Graph, outcome: Behaviour, s0: State, s: State) {
    && (forall id :: id in s.completed && id !in s0.completed ==>
          Returned(g, outcome, s0, s.completed, id, Ok(s.completed[id])))
    && (forall id :: id in s.failed && id !in s0.failed ==>
          Returned(g, outcome, s0, s.completed, id, Err(s.failed[id])))
    && (forall k :: 0 <= k < |s.channel| ==>
          Returned(g, outcome, s0, s.completed, s.channel[k].id, s.channel[k].outcome))
  }

  lemma WithinTrans(u: Outputs, v: Outputs, w: Outputs)
    requires Within(u, v) && Within(v, w)
    ensures Within(u, w)
  {
  }

  lemma ReturnedStays(g: Graph, outcome: Behaviour, s0: State, done: Outputs, done': Outputs, id: string,
                      r: StepOutcome)
    requires Returned(g, outcome, s0, done, id, r) && Within(done, done')
    ensures Returned(g, outcome, s0, done', id, r)
  {
    hide Within, Between;
    var view :| CanFind(g, s0, done, id, view) && outcome(id, view) == r;
    var early, late :| Between(g, s0, id, view, early, late) && Within(late, done);
    WithinTrans(late, done, done');
    assert CanFind(g, s0, done', id, view);
  }

  /** For a running step, now is such a moment. */
  lemma NowIsMoment(g: Graph, s0: State, s: State, id: string)
    requires SeparateMaps(s) && Dispatches(g, s0, s) && Keeps(s0, s) && id in s.running
    ensures Moment(g, s0, id, s.completed)
  {
    hide Distinct;
    assert id in s.dispatched;
    forall x, dep | x in s.completed && x !in s0.completed && x in g && dep in g[x] ensures dep in s.completed {
      assert x in s.dispatched;
    }
  }

  lemma StartInv(g: Graph, outcome: Behaviour, s0: State)
    requires s0 == Start(s0.completed, s0.failed) && s0.completed.Keys !! s0.failed.Keys
    ensures Inv(g, outcome, s0, s0)
  {
    assert forall id :: id in s0.completed ==> id !in s0.failed;
  }

  lemma {:induction false} ReadyDistinct(steps: seq<Step>, s: State)
    requires GoodIDs(steps)
    ensures Distinct(ReadyIDs(steps, s))
  {
    if steps != [] {
      var front, last := steps[..|steps| - 1], steps[|steps| - 1];
      ReadyDistinct(front, s);
      assert last.id !in ReadyIDs(front, s);
    }
  }

  lemma ReadyMeans(steps: seq<Step>, g: Graph, s: State, id: string)
    requires WellFormed(steps, g) && id in ReadyIDs(steps, s)
    ensures id in g && !s.Accounted(id) && id !in s.running && forall dep :: dep in g[id] ==> dep in s.completed
  {
    var i :| 0 <= i < |steps| && steps[i].id == id && IsReady(s, steps[i]);
  }

  /** s' is s after dispatching the ready steps; the phase and the error may differ. */
  ghost predicate Dispatched(s: State, s': State, ready: seq<string>) {
    && s'.completed == s.completed && s'.failed == s.failed && s'.channel == s.channel
    && (forall id :: id in s'.running <==> id in s.running || id in ready)
    && (forall id :: id in s'.working <==> id in s.working || id in ready)
    && (forall id :: id in s'.working ==> s'.working[id] == if id in ready then s.completed else s.working[id])
    && s'.dispatched == s.dispatched + ready
  }

  lemma DispatchLogs(g: Graph, s0: State, s: State, s': State, ready: seq<string>)
    requires Dispatches(g, s0, s) && Dispatched(s, s', ready) && Distinct(ready)
    requires forall id :: id in ready ==> id in g && !s.Accounted(id) && id !in s.running
    requires forall id, dep :: id in ready && dep in g[id] ==> dep in s.completed
    ensures Dispatches(g, s0, s')
  {
    assert forall id :: id in s'.dispatched <==> id in s.dispatched || id in ready;
    forall i, j | 0 <= i < j < |s'.dispatched| ensures s'.dispatched[i] != s'.dispatched[j] {
      if i < |s.dispatched| <= j {
        assert s'.dispatched[i] in s.dispatched;
        assert s'.dispatched[j] in ready;
      }
    }
  }

  lemma DispatchWorkers(s: State, s': State, ready: seq<string>)
    requires Workers(s) && Dispatched(s, s', ready)
    requires forall id :: id in ready ==> id !in s.running
    ensures Workers(s')
  {
    assert forall id :: InChannel(s', id) <==> InChannel(s, id);
  }

  lemma DispatchSeparate(s: State, s': State, ready: seq<string>)
    requires SeparateMaps(s) && Dispatched(s, s', ready)
    requires forall id :: id in ready ==> !s.Accounted(id)
    ensures SeparateMaps(s')
  {
  }

  lemma DispatchFields(s: State, ready: seq<string>)
    ensures Dispatched(s, Dispatch(s, ready), ready)
  {
    hide Elements;
  }

  lemma SameFields(s: State, s': State, s'': State, ready: seq<string>)
    requires Dispatched(s, s', ready) && s'' == s'.(phase := s''.phase, error := s''.error)
    ensures Dispatched(s, s'', ready)
  {
  }

  lemma CoordinateDispatches(steps: seq<Step>, s: State)
    ensures Dispatched(s, Coordinate(steps, s), ReadyIDs(steps, s))
  {
    hide IsReady, ReadyIDs, Dispatch, Dispatched;
    var ready := ReadyIDs(steps, s);
    if |s.running| + |ready| > 0 {
      DispatchFields(s, ready);
      SameFields(s, Dispatch(s, ready), Coordinate(steps, s), ready);
    } else {
      NothingDispatched(s);
      SameFields(s, s, Coordinate(steps, s), []);
    }
  }

  lemma NothingDispatched(s: State)
    ensures Dispatched(s, s, [])
  {
  }

  lemma DispatchViews(g: Graph, s0: State, s: State, s': State, ready: seq<string>)
    requires Views(g, s0, s) && Dispatched(s, s', ready)
    requires SeparateMaps(s') && Dispatches(g, s0, s') && Keeps(s0, s')
    ensures Views(g, s0, s')
  {
    hide Moment, SeparateMaps, Dispatches, Keeps;
    forall id | id in ready ensures Moment(g, s0, id, s.completed) {
      NowIsMoment(g, s0, s', id);
    }
  }

  lemma CoordinateKeepsInv(steps: seq<Step>, g: Graph, outcome: Behaviour, s0: State, s: State)
    requires WellFormed(steps, g) && Inv(g, outcome, s0, s)
    ensures Inv(g, outcome, s0, Coordinate(steps, s))
  {
    hide IsReady, ReadyIDs, Distinct, WellFormed, Coordinate, Dispatches, Workers, Views, Results, Keeps;
    hide Dispatched, SeparateMaps;
    var s' := Coordinate(steps, s);
    var ready := ReadyIDs(steps, s);
    CoordinateDispatches(steps, s);
    WellFormedIDs(steps, g);
    ReadyDistinct(steps, s);
    forall id | id in ready
      ensures id in g && !s.Accounted(id) && id !in s.running && forall dep :: dep in g[id] ==> dep in s.completed
    {
      ReadyMeans(steps, g, s, id);
    }
    DispatchSeparate(s, s', ready);
    DispatchLogs(g, s0, s, s', ready);
    DispatchWorkers(s, s', ready);
    SameResults(g, outcome, s0, s, s');
    DispatchViews(g, s0, s, s', ready);
  }

  lemma WellFormedIDs(steps: seq<Step>, g: Graph)
    requires WellFormed(steps, g)
    ensures GoodIDs(steps)
  {
  }

  lemma SameResults(g: Graph, outcome: Behaviour, s0: State, s: State, s': State)
    requires Keeps(s0, s) && Results(g, outcome, s0, s) && exists ready :: Dispatched(s, s', ready)
    ensures Keeps(s0, s') && Results(g, outcome, s0, s')
  {
    hide Returned;
  }

  // ---------- A worker sends ----------

  lemma SendWorkers(s: State, s': State, f: Finished)
    requires Workers(s) && f.id in s.working
    requires s' == s.(working := s.working - {f.id}, channel := s.channel + [f])
    ensures Workers(s')
  {
    assert s'.channel[|s.channel|].id == f.id;
    forall x ensures InChannel(s', x) <==> InChannel(s, x) || x == f.id {
      if InChannel(s, x) {
        var k :| 0 <= k < |s.channel| && s.channel[k].id == x;
        assert s'.channel[k].id == x;
      }
      if InChannel(s', x) && x != f.id {
        var k :| 0 <= k < |s'.channel| && s'.channel[k].id == x;
        assert s.channel[k].id == x;
      }
    }
    forall k | 0 <= k < |s.channel| ensures s.channel[k].id != f.id {
      assert !InChannel(s, f.id);
    }
  }

  lemma SentIsReturned(g: Graph, outcome: Behaviour, s0: State, s: State, id: string, view: Outputs)
    requires SeparateMaps(s) && Dispatches(g, s0, s) && Keeps(s0, s) && Views(g, s0, s)
    requires id in s.working && id in s.running && Within(s.working[id], view) && Within(view, s.completed)
    ensures CanFind(g, s0, s.completed, id, view)
  {
    hide SeparateMaps, Dispatches, Keeps, Moment;
    NowIsMoment(g, s0, s, id);
    assert Between(g, s0, id, view, s.working[id], s.completed);
  }

  lemma SendKeepsInv(steps: seq<Step>, g: Graph, outcome: Behaviour, s0: State, s: State, s': State,
                     id: string, view: Outputs)
    requires Inv(g, outcome, s0, s) && Sends(steps, outcome, s, s', id, view)
    ensures Inv(g, outcome, s0, s')
  {
    hide SeparateMaps, Dispatches, Keeps, Views, Results, Within, CanFind;
    assert id in s.running;
    SendWorkers(s, s', Finished(id, outcome(id, view)));
    SentIsReturned(g, outcome, s0, s, id, view);
    assert Returned(g, outcome, s0, s.completed, id, outcome(id, view));
    SendRest(g, s0, s, s', id);
    SendResults(g, outcome, s0, s, s', Finished(id, outcome(id, view)));
  }

  lemma SendRest(g: Graph, s0: State, s: State, s': State, id: string)
    requires SeparateMaps(s) && Dispatches(g, s0, s) && Keeps(s0, s) && Views(g, s0, s)
    requires s' == s.(working := s.working - {id}, channel := s'.channel)
    ensures SeparateMaps(s') && Dispatches(g, s0, s') && Keeps(s0, s') && Views(g, s0, s')
  {
    hide Distinct, Moment, Within;
  }

  lemma SendResults(g: Graph, outcome: Behaviour, s0: State, s: State, s': State, f: Finished)
    requires Results(g, outcome, s0, s) && Returned(g, outcome, s0, s.completed, f.id, f.outcome)
    requires s'.completed == s.completed && s'.failed == s.failed && s'.channel == s.channel + [f]
    ensures Results(g, outcome, s0, s')
  {
    hide Returned;
  }

  // ---------- The coordinator receives ----------

  lemma ReceiveFromChannel(s: State, x: string)
    requires Workers(s) && s.channel != []
    ensures InChannel(Receive(s), x) <==> InChannel(s, x) && x != s.channel[0].id
    ensures InChannel(s, s.channel[0].id)
  {
    var s', id := Receive(s), s.channel[0].id;
    assert s.channel[0].id == id;
    if InChannel(s, x) && x != id {
      var k :| 0 <= k < |s.channel| && s.channel[k].id == x;
      assert s'.channel[k - 1].id == x;
    }
    if InChannel(s', x) {
      var k :| 0 <= k < |s'.channel| && s'.channel[k].id == x;
      assert s.channel[k + 1].id == x;
    }
  }

  lemma ReceiveWorkers(s: State)
    requires Workers(s) && s.channel != []
    ensures Workers(Receive(s)) && s.channel[0].id in s.running
  {
    forall x ensures InChannel(Receive(s), x) <==> InChannel(s, x) && x != s.channel[0].id {
      ReceiveFromChannel(s, x);
    }
    ReceiveFromChannel(s, s.channel[0].id);
    hide InChannel;
  }

  /** Entries of the maps after receiving f are old, or f's own. */
  lemma ReceiveMaps(s: State)
    requires SeparateMaps(s) && s.channel != [] && s.channel[0].id in s.running
    ensures Within(s.completed, Receive(s).completed) && Within(s.failed, Receive(s).failed)
    ensures forall id :: id in Receive(s).completed && id !in s.completed ==>
              s.channel[0] == Finished(id, Ok(Receive(s).completed[id]))
    ensures forall id :: id in Receive(s).failed && id !in s.failed ==>
              s.channel[0] == Finished(id, Err(Receive(s).failed[id]))
  {
  }

  lemma ReceiveResults(g: Graph, outcome: Behaviour, s0: State, s: State)
    requires SeparateMaps(s) && Results(g, outcome, s0, s) && s.channel != [] && s.channel[0].id in s.running
    ensures Results(g, outcome, s0, Receive(s))
  {
    var s' := Receive(s);
    ReceiveMaps(s);
    assert s'.channel == s.channel[1..];
    hide Returned, SeparateMaps, Receive, Within;
    forall id | id in s'.completed && id !in s0.completed
      ensures Returned(g, outcome, s0, s'.completed, id, Ok(s'.completed[id]))
    {
      CompletedWas(s, s', id);
      ReturnedStays(g, outcome, s0, s.completed, s'.completed, id, Ok(s'.completed[id]));
    }
    forall id | id in s'.failed && id !in s0.failed
      ensures Returned(g, outcome, s0, s'.completed, id, Err(s'.failed[id]))
    {
      FailedWas(s, s', id);
      ReturnedStays(g, outcome, s0, s.completed, s'.completed, id, Err(s'.failed[id]));
    }
    forall k | 0 <= k < |s'.channel|
      ensures Returned(g, outcome, s0, s'.completed, s'.channel[k].id, s'.channel[k].outcome)
    {
      assert s'.channel[k] == s.channel[k + 1];
      ReturnedStays(g, outcome, s0, s.completed, s'.completed, s'.channel[k].id, s'.channel[k].outcome);
    }
  }

  lemma CompletedWas(s: State, s': State, id: string)
    requires Within(s.completed, s'.completed) && id in s'.completed
    ensures id in s.completed ==> s.completed[id] == s'.completed[id]
  {
  }

  lemma FailedWas(s: State, s': State, id: string)
    requires Within(s.failed, s'.failed) && id in s'.failed
    ensures id in s.failed ==> s.failed[id] == s'.failed[id]
  {
  }

  lemma ReceiveSeparate(s: State)
    requires SeparateMaps(s) && s.channel != [] && s.channel[0].id in s.running
    ensures SeparateMaps(Receive(s)) && Receive(s).running == s.running - {s.channel[0].id}
    ensures forall id :: Receive(s).Accounted(id) <==> s.Accounted(id) || id == s.channel[0].id
  {
  }

  lemma ReceiveDispatches(g: Graph, s0: State, s: State)
    requires SeparateMaps(s) && Dispatches(g, s0, s) && s.channel != [] && s.channel[0].id in s.running
    ensures Dispatches(g, s0, Receive(s))
  {
    ReceiveSeparate(s);
    ReceiveMaps(s);
    assert Receive(s).dispatched == s.dispatched;
    hide Distinct, Receive, SeparateMaps;
  }

  lemma ReceiveKeepsInv(g: Graph, outcome: Behaviour, s0: State, s: State)
    requires Inv(g, outcome, s0, s) && s.channel != []
    ensures Inv(g, outcome, s0, Receive(s))
  {
    hide Workers, Dispatches, Results, SeparateMaps, Moment;
    ReceiveWorkers(s);
    ReceiveResults(g, outcome, s0, s);
    ReceiveDispatches(g, s0, s);
    ReceiveSeparate(s);
    ReceiveMaps(s);
    assert Receive(s).working == s.working;
  }

  lemma NextKeepsInv(steps: seq<Step>, g: Graph, outcome: Behaviour, s0: State, s: State, s': State)
    requires WellFormed(steps, g) && Inv(g, outcome, s0, s) && Next(steps, outcome, s, s')
    ensures Inv(g, outcome, s0, s')
  {
    hide Inv, Coordinate, Sends, Receive;
    if s.phase.Coordinating? && s' == Coordinate(steps, s) {
      CoordinateKeepsInv(steps, g, outcome, s0, s);
    } else if id, view :| Sends(steps, outcome, s, s', id, view) {
      SendKeepsInv(steps, g, outcome, s0, s, s', id, view);
    } else if Receives(s, s') {
      ReceiveKeepsInv(g, outcome, s0, s);
    } else {
      CancelKeepsInv(g, outcome, s0, s, s');
    }
  }

  lemma CancelKeepsInv(g: Graph, outcome: Behaviour, s0: State, s: State, s': State)
    requires Inv(g, outcome, s0, s) && Cancels(s, s')
    ensures Inv(g, outcome, s0, s')
  {
    hide Distinct, Moment, Returned, Within;
    assert forall id :: InChannel(s', id) <==> InChannel(s, id);
  }
}
