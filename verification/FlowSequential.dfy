/** Flows without declared dependencies behave sequentially. */
module FlowSequential {
  import opened Wrappers
  import opened FlowGraph
  import opened FlowValidation
  import opened FlowEngine
  import opened FlowRuns
  import opened FlowCoordinator

  ghost predicate InPrefix(steps: seq<Step>, k: nat, id: string)
    requires k <= |steps|
  {
    exists i :: 0 <= i < k && steps[i].id == id
  }

  /** The first k steps have completed, and only step k may be running or have failed. */
  ghost predicate AtStep(steps: seq<Step>, s: State, k: nat) {
    && k <= |steps|
    && (forall id :: id in s.completed <==> InPrefix(steps, k, id))
    && (forall id :: id in s.running || id in s.failed ==> k < |steps| && id == steps[k].id)
  }

  ghost predicate Sequential(steps: seq<Step>, s: State) {
    exists k :: AtStep(steps, s, k)
  }

  lemma PrefixMeans(steps: seq<Step>, k: nat, i: nat)
    requires GoodIDs(steps) && k <= |steps| && i < |steps|
    ensures InPrefix(steps, k, steps[i].id) <==> i < k
  {
    if InPrefix(steps, k, steps[i].id) {
      var j :| 0 <= j < k && steps[j].id == steps[i].id;
      assert j == i;
    }
  }

  lemma ReadyInChain(steps: seq<Step>, s: State, k: nat, i: nat)
    requires GoodIDs(steps) && IsChain(steps) && AtStep(steps, s, k) && i < |steps|
    ensures IsReady(s, steps[i]) ==> i == k
  {
    PrefixMeans(steps, k, i);
    if i > 0 {
      PrefixMeans(steps, k, i - 1);
      assert steps[i - 1].id in steps[i].dependsOn;
    }
  }

  lemma OnlyNextReady(steps: seq<Step>, s: State, k: nat, id: string)
    requires GoodIDs(steps) && IsChain(steps) && AtStep(steps, s, k) && id in ReadyIDs(steps, s)
    ensures k < |steps| && id == steps[k].id
  {
    var i :| 0 <= i < |steps| && steps[i].id == id && IsReady(s, steps[i]);
    ReadyInChain(steps, s, k, i);
  }

  lemma CoordinateSequential(steps: seq<Step>, s: State, k: nat)
    requires GoodIDs(steps) && IsChain(steps) && AtStep(steps, s, k)
    ensures AtStep(steps, Coordinate(steps, s), k)
  {
    hide Coordinate, ReadyIDs, InPrefix, IsReady, GoodIDs, IsChain;
    forall id | id in ReadyIDs(steps, s) ensures k < |steps| && id == steps[k].id {
      OnlyNextReady(steps, s, k, id);
    }
    CoordinateDispatches(steps, s);
  }

  lemma PrefixNext(steps: seq<Step>, k: nat, id: string)
    requires k < |steps|
    ensures InPrefix(steps, k + 1, id) <==> InPrefix(steps, k, id) || id == steps[k].id
  {
    if InPrefix(steps, k + 1, id) && id != steps[k].id {
      var i :| 0 <= i < k + 1 && steps[i].id == id;
      assert i < k;
    }
    if InPrefix(steps, k, id) {
      var i :| 0 <= i < k && steps[i].id == id;
      assert 0 <= i < k + 1;
    }
  }

  lemma ReceiveSequential(steps: seq<Step>, g: Graph, outcome: Behaviour, s0: State, s: State, k: nat)
    requires Inv(g, outcome, s0, s) && AtStep(steps, s, k) && s.channel != []
    ensures Sequential(steps, Receive(s))
  {
    ReceiveWorkers(s);
    ReceiveAtStep(steps, s, k);
  }

  lemma ReceiveAtStep(steps: seq<Step>, s: State, k: nat)
    requires SeparateMaps(s) && s.channel != [] && s.channel[0].id in s.running && AtStep(steps, s, k)
    ensures Sequential(steps, Receive(s))
  {
    var f, s' := s.channel[0], Receive(s);
    assert f.id == steps[k].id && f.id !in s.failed;
    forall id ensures InPrefix(steps, k + 1, id) <==> InPrefix(steps, k, id) || id == steps[k].id {
      PrefixNext(steps, k, id);
    }
    hide InPrefix, SeparateMaps;
    if f.outcome.Ok? {
      assert AtStep(steps, s', k + 1);
    } else {
      assert AtStep(steps, s', k);
    }
  }

  lemma NextSequential(steps: seq<Step>, g: Graph, outcome: Behaviour, s0: State, s: State, s': State)
    requires WellFormed(steps, g) && IsChain(steps)
    requires Inv(g, outcome, s0, s) && Sequential(steps, s) && Next(steps, outcome, s, s')
    ensures Sequential(steps, s')
  {
    hide Inv, IsChain, AtStep;
    var k: nat :| AtStep(steps, s, k);
    if s.phase.Coordinating? && s' == Coordinate(steps, s) {
      CoordinateSequential(steps, s, k);
    } else if Receives(s, s') {
      ReceiveSequential(steps, g, outcome, s0, s, k);
    } else {
      SameStep(steps, s, s', k);
    }
  }

  lemma SameStep(steps: seq<Step>, s: State, s': State, k: nat)
    requires AtStep(steps, s, k) && s'.completed == s.completed && s'.failed == s.failed && s'.running == s.running
    ensures AtStep(steps, s', k)
  {
  }

  lemma {:induction false} RunIsSequential(steps: seq<Step>, g: Graph, outcome: Behaviour, s0: State, run: seq<State>,
                                           i: nat)
    requires WellFormed(steps, g) && IsChain(steps)
    requires s0 == Start(s0.completed, s0.failed) && s0.completed.Keys !! s0.failed.Keys && Sequential(steps, s0)
    requires IsRun(steps, outcome, s0, run) && i < |run|
    ensures Sequential(steps, run[i])
  {
    hide WellFormed, IsChain, Sequential, Next, Inv;
    if i > 0 {
      RunIsSequential(steps, g, outcome, s0, run, i - 1);
      RunKeepsInv(steps, g, outcome, s0, run, i - 1);
      assert Next(steps, outcome, run[i - 1], run[(i - 1) + 1]);
      NextSequential(steps, g, outcome, s0, run[i - 1], run[i]);
    }
  }

  /** Exactly the first k steps of the list have completed. */
  ghost predicate CompletedPrefix(steps: seq<Step>, s: State, k: nat) {
    k <= |steps| && forall j :: 0 <= j < |steps| ==> (steps[j].id in s.completed <==> j < k)
  }

  /** At most one step is running, and the completed steps are exactly those before some position of the list. */
  ghost predicate OneAtATime(steps: seq<Step>, s: State) {
    |s.running| <= 1 && exists k :: CompletedPrefix(steps, s, k)
  }

  /** A chain runs one step at a time, at every point of every run, also when it resumes after a recorded failure. */
  lemma OneStepAtATime(steps: seq<Step>, g: Graph, outcome: Behaviour, s0: State, run: seq<State>, i: nat)
    requires WellFormed(steps, g) && IsChain(steps)
    requires s0 == Start(s0.completed, s0.failed) && s0.completed.Keys !! s0.failed.Keys && Sequential(steps, s0)
    requires IsRun(steps, outcome, s0, run) && i < |run|
    ensures OneAtATime(steps, run[i])
  {
    RunIsSequential(steps, g, outcome, s0, run, i);
    hide IsRun, IsChain, InPrefix;
    SequentialIsOneAtATime(steps, run[i]);
  }

  lemma SequentialIsOneAtATime(steps: seq<Step>, s: State)
    requires GoodIDs(steps) && Sequential(steps, s)
    ensures OneAtATime(steps, s)
  {
    var k: nat :| AtStep(steps, s, k);
    if s.running != {} {
      assert s.running == {steps[k].id};
    }
    forall j | 0 <= j < |steps| ensures steps[j].id in s.completed <==> j < k {
      PrefixMeans(steps, k, j);
    }
    assert CompletedPrefix(steps, s, k);
  }

  /** A run that starts with nothing recorded starts sequentially. */
  lemma FreshStartIsSequential(steps: seq<Step>)
    ensures Sequential(steps, Start(map[], map[]))
  {
    assert AtStep(steps, Start(map[], map[]), 0);
  }
}
