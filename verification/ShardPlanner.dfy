/** The dynamic planner end to end, and what its answer means. */
module ShardPlanner {
  import opened Wrappers
  import opened Basics
  import opened NodeMask
  import opened ShardModel
  import opened ShardTable
  import opened ShardSearch

  // ---------- Eligible nodes ----------

  /** GPU nodes first, then more free RAM first. */
  predicate Before(a: NodeInfo, b: NodeInfo) {
    if a.hasGPU != b.hasGPU then a.hasGPU else a.freeRAM > b.freeRAM
  }

  ghost predicate Sorted(s: seq<NodeInfo>) {
    forall i, j :: 0 <= i < j < |s| ==> !Before(s[j], s[i])
  }

  /** The nodes that can hold a layer, each as often as it was given, in a sorted order. */
  ghost predicate EligibleOrder(model: ModelInfo, nodes: seq<NodeInfo>, out: seq<NodeInfo>)
    requires model.totalLayers > 0
  {
    && Sorted(out)
    && forall n :: multiset(out)[n] == if n.freeRAM >= RamPerLayer(model) then multiset(nodes)[n] else 0
  }

  /** Places one node into a sorted list; ties may go either way. */
  method Insert(s: seq<NodeInfo>, n: NodeInfo) returns (r: seq<NodeInfo>)
    requires Sorted(s)
    ensures Sorted(r) && multiset(r) == multiset(s) + multiset{n}
  {
    var i := 0;
    while i < |s| && !Before(n, s[i])
      invariant 0 <= i <= |s|
      invariant forall k :: 0 <= k < i ==> !Before(n, s[k])
    {
      i := i + 1;
    }
    r := s[..i] + [n] + s[i..];
    InsertSorts(s, i, n);
  }

  lemma InsertSorts(s: seq<NodeInfo>, i: nat, n: NodeInfo)
    requires Sorted(s) && i <= |s|
    requires forall k :: 0 <= k < i ==> !Before(n, s[k])
    requires i < |s| ==> Before(n, s[i])
    ensures Sorted(s[..i] + [n] + s[i..]) && multiset(s[..i] + [n] + s[i..]) == multiset(s) + multiset{n}
  {
    assert s == s[..i] + s[i..];
    forall k | i <= k < |s| ensures !Before(s[k], n) {
      assert k > i ==> !Before(s[k], s[i]);
    }
    var r := s[..i] + [n] + s[i..];
    hide Before;
    forall j, k | 0 <= j < k < |r| ensures !Before(r[k], r[j]) {
      assert r[j] == if j < i then s[j] else if j == i then n else s[j - 1];
      assert r[k] == if k < i then s[k] else if k == i then n else s[k - 1];
    }
  }

  method FilterEligible(model: ModelInfo, nodes: seq<NodeInfo>) returns (out: seq<NodeInfo>)
    requires model.totalLayers > 0
    ensures EligibleOrder(model, nodes, out)
  {
    out := [];
    for i := 0 to |nodes|
      invariant EligibleOrder(model, nodes[..i], out)
    {
      assert nodes[..i + 1] == nodes[..i] + [nodes[i]];
      if nodes[i].freeRAM >= RamPerLayer(model) {
        out := Insert(out, nodes[i]);
      }
    }
    assert nodes[..|nodes|] == nodes;
  }

  // ---------- Cost matrices ----------

  /** The newest report about (a, b): later capability records overwrite earlier ones entry by entry. */
  ghost function LastReport(caps: seq<WorkerCapability>, of: WorkerCapability -> map<string, real>, a: string,
                            b: string): Option<real> {
    if caps == [] then None
    else
      var c := caps[|caps| - 1];
      if c.nodeID == a && b in of(c) then Some(of(c)[b]) else LastReport(caps[..|caps| - 1], of, a, b)
  }

  ghost predicate Collects(m: Matrix, caps: seq<WorkerCapability>, of: WorkerCapability -> map<string, real>) {
    forall a, b :: Lookup(m, a, b) == LastReport(caps, of, a, b)
  }

  function Record(m: Matrix, id: string, entries: map<string, real>): Matrix {
    m[id := (if id in m then m[id] else map[]) + entries]
  }

  lemma RecordCollects(m: Matrix, caps: seq<WorkerCapability>, c: WorkerCapability,
                       of: WorkerCapability -> map<string, real>)
    requires Collects(m, caps, of)
    ensures Collects(Record(m, c.nodeID, of(c)), caps + [c], of)
  {
    var d := caps + [c];
    assert d[..|d| - 1] == caps;
    forall a, b ensures Lookup(Record(m, c.nodeID, of(c)), a, b) == LastReport(d, of, a, b) {
      assert Lookup(m, a, b) == LastReport(caps, of, a, b);
    }
  }

  ghost const LATENCIES := (c: WorkerCapability) => c.linkLatencies
  ghost const BANDWIDTHS := (c: WorkerCapability) => c.linkBandwidths
  ghost const SPEEDS := (c: WorkerCapability) => c.inferenceSpeeds

  method BuildMatrices(caps: seq<WorkerCapability>) returns (latencies: Matrix, bandwidths: Matrix, speeds: Matrix)
    ensures Collects(latencies, caps, LATENCIES)
    ensures Collects(bandwidths, caps, BANDWIDTHS)
    ensures Collects(speeds, caps, SPEEDS)
  {
    latencies, bandwidths, speeds := map[], map[], map[];
    for i := 0 to |caps|
      invariant Collects(latencies, caps[..i], LATENCIES)
      invariant Collects(bandwidths, caps[..i], BANDWIDTHS)
      invariant Collects(speeds, caps[..i], SPEEDS)
    {
      var c := caps[i];
      assert caps[..i + 1] == caps[..i] + [c];
      RecordCollects(latencies, caps[..i], c, LATENCIES);
      RecordCollects(bandwidths, caps[..i], c, BANDWIDTHS);
      RecordCollects(speeds, caps[..i], c, SPEEDS);
      latencies := Record(latencies, c.nodeID, c.linkLatencies);
      bandwidths := Record(bandwidths, c.nodeID, c.linkBandwidths);
      speeds := Record(speeds, c.nodeID, c.inferenceSpeeds);
    }
    assert caps[..|caps|] == caps;
  }

  /** The node has a positive measured speed on some model tag. */
  ghost predicate PositiveSpeed(speeds: Matrix, id: string, tag: string) {
    Lookup(speeds, id, tag).Some? && Lookup(speeds, id, tag).value > 0.0
  }

  /** Seconds a layer at a measured whole-model speed. */
  function PerLayer(model: ModelInfo, speed: real): (r: real)
    requires model.totalLayers > 0 && speed > 0.0
    ensures r >= 0.0
  {
    1.0 / (speed * model.totalLayers as real)
  }

  /** The model's own measured speed if positive, else any positive one, else 5 ms or 30 ms a layer. */
  ghost predicate IsLayerSeconds(model: ModelInfo, speeds: Matrix, n: NodeInfo, sec: real)
    requires model.totalLayers > 0
  {
    if PositiveSpeed(speeds, n.id, model.name) then sec == PerLayer(model, Lookup(speeds, n.id, model.name).value)
    else if exists tag :: PositiveSpeed(speeds, n.id, tag)
    then exists tag :: PositiveSpeed(speeds, n.id, tag) && sec == PerLayer(model, Lookup(speeds, n.id, tag).value)
    else sec == if n.hasGPU then 0.005 else 0.030
  }

  method ComputeLatencyPerLayer(model: ModelInfo, speeds: Matrix, n: NodeInfo) returns (sec: real)
    requires model.totalLayers > 0
    ensures IsLayerSeconds(model, speeds, n, sec) && sec >= 0.0
  {
    var speed := 0.0;
    if n.id in speeds {
      var own := speeds[n.id];
      if model.name in own && own[model.name] > 0.0 {
        speed := own[model.name];
        assert PositiveSpeed(speeds, n.id, model.name);
      } else if exists tag :: tag in own && own[tag] > 0.0 {
        var tag :| tag in own && own[tag] > 0.0;
        speed := own[tag];
        assert PositiveSpeed(speeds, n.id, tag);
      }
    }
    if speed > 0.0 {
      return PerLayer(model, speed);
    }
    return if n.hasGPU then 0.005 else 0.030;
  }

  // ---------- The planner ----------

  /** p is what the planner makes of these inputs. */
  ghost predicate ProblemFor(model: ModelInfo, nodes: seq<NodeInfo>, caps: seq<WorkerCapability>, p: Problem) {
    && p.Valid() && p.model == model
    && (exists order :: EligibleOrder(model, nodes, order) && p.nodes == FirstTen(order))
    && Collects(p.latencies, caps, LATENCIES)
    && Collects(p.bandwidths, caps, BANDWIDTHS)
    && exists speeds :: Collects(speeds, caps, SPEEDS) &&
         forall i :: 0 <= i < |p.nodes| ==> IsLayerSeconds(model, speeds, p.nodes[i], p.layerSeconds[i])
  }

  function FirstTen(order: seq<NodeInfo>): (r: seq<NodeInfo>)
    ensures r <= order && |r| == if |order| < 10 then |order| else 10
  {
    if |order| > MAX_NODES then order[..MAX_NODES] else order
  }

  function ShardOf(p: Problem, r: Run): Shard
    requires p.model.totalLayers > 0 && r.node < |p.nodes|
  {
    var n := p.nodes[r.node];
    Shard(n.id, n.name, r.first, r.last, (r.last - r.first + 1) * RamPerLayer(p.model))
  }

  /** The shards are those of chain c, one for one and in order. */
  ghost predicate ShardsAre(p: Problem, c: Chain, shards: seq<Shard>)
    requires p.Valid() && RunsOk(p, c)
  {
    |shards| == |c| && forall i :: 0 <= i < |c| ==> shards[i] == ShardOf(p, c[i])
  }

  /** The plan is chain c, told by the coordinator. */
  ghost predicate PlanOf(p: Problem, c: Chain, plan: ShardPlan)
    requires p.Valid() && RunsOk(p, c)
  {
    plan.coordinator == p.Coordinator() && ShardsAre(p, c, plan.shards)
  }

  /**
    The planner's promise, sentinels included: a cheapest chain under the ceiling, or an error only when there is none.
   */
  ghost predicate Answer(p: Problem, r: Result<ShardPlan, PlanError>)
    requires p.Valid()
  {
    match r
    case Success(plan) => exists c :: BestUnderCeiling(p, c) && PlanOf(p, c, plan)
    case Failure(e) => e == NoChain && forall d :: Feasible(p, d) ==> !UnderCeiling(p, d)
  }

  method ShardsOf(p: Problem, path: Chain) returns (shards: seq<Shard>)
    requires p.Valid() && RunsOk(p, path)
    ensures ShardsAre(p, path, shards)
  {
    shards := [];
    for i := 0 to |path|
      invariant |shards| == i
      invariant forall k :: 0 <= k < i ==> shards[k] == ShardOf(p, path[k])
    {
      assert RunOk(p, path[i]);
      shards := shards + [ShardOf(p, path[i])];
    }
  }

  /** The shortest-path search on a given problem. */
  method Solve(p: Problem) returns (r: Result<ShardPlan, PlanError>)
    requires p.Valid()
    ensures Answer(p, r)
  {
    var dp := FillTable(p);
    var bestU, bestMask := ChooseBest(p, dp);
    if bestU == -1 {
      forall d | Feasible(p, d) ensures !UnderCeiling(p, d) {
        if UnderCeiling(p, d) {
          ChainHasCell(p, dp, d);
        }
      }
      return Failure(NoChain);
    }
    var walked := WalkBack(p, dp, bestU, bestMask);
    var path := ReversePath(walked);
    BestCellChain(p, dp, bestU, bestMask, path);
    hide Feasible, UnderCeiling, ShardsAre;
    var shards := ShardsOf(p, path);
    r := Success(ShardPlan(p.Coordinator(), shards));
    assert PlanOf(p, path, r.value);
  }

  /** r answers the problem these inputs describe. */
  ghost predicate DynamicAnswer(model: ModelInfo, nodes: seq<NodeInfo>, caps: seq<WorkerCapability>,
                                r: Result<ShardPlan, PlanError>) {
    exists p :: ProblemFor(model, nodes, caps, p) && Answer(p, r)
  }

  /** Some node has the RAM for a layer. */
  ghost predicate SomeEligible(model: ModelInfo, nodes: seq<NodeInfo>)
    requires model.totalLayers > 0
  {
    exists n :: n in nodes && n.freeRAM >= RamPerLayer(model)
  }

  lemma EligibleOrderEmpty(model: ModelInfo, nodes: seq<NodeInfo>, order: seq<NodeInfo>)
    requires model.totalLayers > 0 && EligibleOrder(model, nodes, order)
    ensures order == [] <==> !SomeEligible(model, nodes)
  {
    if order != [] {
      assert order[0] in multiset(order);
      assert order[0] in multiset(nodes);
    }
    forall n | n in nodes && n.freeRAM >= RamPerLayer(model) ensures order != [] {
      assert n in multiset(nodes);
      assert multiset(order)[n] > 0;
    }
  }

  method PlanShardsDynamic(model: ModelInfo, nodes: seq<NodeInfo>, caps: seq<WorkerCapability>)
    returns (r: Result<ShardPlan, PlanError>)
    requires model.totalLayers > 0
    ensures nodes == [] ==> r == Failure(NoNodes)
    ensures nodes != [] && !SomeEligible(model, nodes) ==> r == Failure(NoEligible)
    ensures SomeEligible(model, nodes) ==> DynamicAnswer(model, nodes, caps, r)
  {
    if |nodes| == 0 {
      return Failure(NoNodes);
    }
    var latencies, bandwidths, speeds := BuildMatrices(caps);
    var order := FilterEligible(model, nodes);
    EligibleOrderEmpty(model, nodes, order);
    if |order| == 0 {
      return Failure(NoEligible);
    }
    var eligible := FirstTen(order);
    var layerSeconds := [];
    for i := 0 to |eligible|
      invariant |layerSeconds| == i
      invariant forall k :: 0 <= k < i ==>
                  layerSeconds[k] >= 0.0 && IsLayerSeconds(model, speeds, eligible[k], layerSeconds[k])
    {
      var sec := ComputeLatencyPerLayer(model, speeds, eligible[i]);
      layerSeconds := layerSeconds + [sec];
    }
    var p := Problem(model, eligible, latencies, bandwidths, layerSeconds);
    assert ProblemFor(model, nodes, caps, p);
    hide ProblemFor, Answer;
    r := Solve(p);
  }

  // ---------- Optimality and completeness ----------

  /** The unqualified promise: a cheapest chain, or an error only when there is none. */
  ghost predicate Ideal(p: Problem, r: Result<ShardPlan, PlanError>)
    requires p.Valid()
  {
    match r
    case Success(plan) => exists c :: Cheapest(p, c) && PlanOf(p, c, plan)
    case Failure(_) => forall d :: !Feasible(p, d)
  }

  /** Two chains behind one plan come back to the coordinator at the same cost. */
  lemma SamePlanSameReturn(p: Problem, c: Chain, d: Chain, plan: ShardPlan)
    requires p.Valid() && RunsOk(p, c) && RunsOk(p, d) && c != [] && d != []
    requires PlanOf(p, c, plan) && PlanOf(p, d, plan)
    ensures p.HopBack(c[|c| - 1].node) == p.HopBack(d[|d| - 1].node)
  {
    assert plan.shards[|c| - 1] == ShardOf(p, c[|c| - 1]) == ShardOf(p, d[|d| - 1]);
  }

  /** A chain best under the ceiling is cheapest as soon as some cheapest chain is under the ceiling. */
  lemma BestIsCheapest(p: Problem, c: Chain, d: Chain)
    requires p.Valid() && BestUnderCeiling(p, c) && Cheapest(p, d) && UnderCeiling(p, d)
    ensures Cheapest(p, c)
  {
    hide Feasible, RunsOk, TotalCost, ForwardCost;
    assert TotalCost(p, c) <= TotalCost(p, d);
    forall e | Feasible(p, e) ensures TotalCost(p, c) <= TotalCost(p, e) {
      assert TotalCost(p, d) <= TotalCost(p, e);
    }
  }

  /** A cheapest chain with the plan of one under the ceiling is under the ceiling itself. */
  lemma CheapestUnder(p: Problem, c: Chain, d: Chain, plan: ShardPlan)
    requires p.Valid() && BestUnderCeiling(p, c) && PlanOf(p, c, plan) && Cheapest(p, d) && PlanOf(p, d, plan)
    ensures UnderCeiling(p, d)
  {
    hide Feasible, RunsOk, ForwardCost, PlanOf;
    SamePlanSameReturn(p, c, d, plan);
    assert TotalCost(p, d) <= TotalCost(p, c);
  }

  /**
    The planner keeps the unqualified promise exactly when nothing is feasible or some cheapest chain is under the
    ceiling.
   */
  lemma IdealExactly(p: Problem, r: Result<ShardPlan, PlanError>)
    requires p.Valid() && Answer(p, r)
    ensures Ideal(p, r) <==>
              (forall d :: !Feasible(p, d)) || (exists d :: Cheapest(p, d) && UnderCeiling(p, d))
  {
    if r.Success? {
      var c :| BestUnderCeiling(p, c) && PlanOf(p, c, r.value);
      hide UnderCeiling, PlanOf, ForwardCost, TotalCost;
      if d :| Cheapest(p, d) && UnderCeiling(p, d) {
        BestIsCheapest(p, c, d);
      }
      if d :| Cheapest(p, d) && PlanOf(p, d, r.value) {
        CheapestUnder(p, c, d, r.value);
      }
    }
  }

  /** No link costs more than `hop` seconds and no node needs more than `sec` seconds a layer. */
  ghost predicate Within(p: Problem, hop: real, sec: real)
    requires p.Valid()
  {
    && hop >= 0.0 && sec >= 0.0
    && (forall u, w :: 0 <= u < |p.nodes| && 0 <= w < |p.nodes| ==> p.Transfer(p.nodes[u].id, p.nodes[w].id) <= hop)
    && (forall u :: 0 <= u < |p.nodes| ==> p.layerSeconds[u] <= sec)
  }

  /** The most that `layers` layers can add: one hop and their compute. */
  ghost function Bound(layers: nat, hop: real, sec: real): real {
    layers as real * (hop + sec)
  }

  lemma BoundSpread(m: nat, n: nat, hop: real, sec: real)
    ensures Bound(m + n, hop, sec) == Bound(m, hop, sec) + Bound(n, hop, sec)
  {
  }

  lemma HopAndLayers(n: nat, x: real, hop: real, sec: real)
    requires n > 0 && x <= sec && hop >= 0.0
    ensures hop + n as real * x <= Bound(n, hop, sec)
  {
    ScaleReal(n as real, x, sec);
    ScaleReal(hop, 1.0, n as real);
    assert n as real * (hop + sec) == hop * n as real + n as real * sec;
  }

  lemma ScaleReal(m: real, a: real, b: real)
    requires a <= b && m >= 0.0
    ensures m * a <= m * b
  {
  }

  lemma RunWithin(p: Problem, r: Run, hop: real, sec: real)
    requires p.Valid() && Within(p, hop, sec) && RunOk(p, r)
    ensures p.HopIn(r.node) <= hop && p.HopBack(r.node) <= hop
    ensures forall w :: 0 <= w < |p.nodes| ==> p.Hop(w, r.node) <= hop
    ensures hop + p.Compute(r.node, Layers(r)) <= Bound(Layers(r), hop, sec)
  {
    HopAndLayers(Layers(r), p.layerSeconds[r.node], hop, sec);
    hide Bound;
  }

  lemma {:induction false} CostWithin(p: Problem, c: Chain, l: nat, hop: real, sec: real)
    requires p.Valid() && Within(p, hop, sec) && IsChain(p, c, l)
    ensures ForwardCost(p, c) <= Bound(l, hop, sec)
    decreases |c|
  {
    hide IsChain, RunsOk, ForwardCost, Within, Bound;
    LastRunCost(p, c, l, hop, sec);
    if |c| > 1 {
      var first := c[|c| - 1].first;
      CostWithin(p, c[..|c| - 1], first, hop, sec);
      BoundSpread(first, l - first, hop, sec);
    }
  }

  lemma LastRunCost(p: Problem, c: Chain, l: nat, hop: real, sec: real)
    requires p.Valid() && Within(p, hop, sec) && IsChain(p, c, l)
    ensures |c| == 1 ==> ForwardCost(p, c) <= Bound(l, hop, sec)
    ensures |c| > 1 ==> c[|c| - 1].first < l && IsChain(p, c[..|c| - 1], c[|c| - 1].first)
    ensures |c| > 1 ==> ForwardCost(p, c) <= ForwardCost(p, c[..|c| - 1]) + Bound(l - c[|c| - 1].first, hop, sec)
  {
    hide IsChain, RunsOk, Bound, ForwardCost;
    LastRun(p, c, l);
    RunWithin(p, c[|c| - 1], hop, sec);
    if |c| == 1 {
      ForwardCostOfOne(p, c[0]);
    } else {
      ForwardCostOfLast(p, c);
    }
  }

  lemma LastRun(p: Problem, c: Chain, l: nat)
    requires p.Valid() && IsChain(p, c, l)
    ensures RunOk(p, c[|c| - 1]) && c[|c| - 1].first < l && Layers(c[|c| - 1]) == l - c[|c| - 1].first
    ensures |c| == 1 ==> c == [c[0]] && c[0].first == 0
    ensures |c| > 1 ==> IsChain(p, c[..|c| - 1], c[|c| - 1].first) && c[|c| - 2].node < |p.nodes|
  {
    if |c| > 1 {
      DropLast(p, c, l);
    }
  }

  lemma FeasibleWithin(p: Problem, d: Chain, hop: real, sec: real)
    requires p.Valid() && Within(p, hop, sec) && Feasible(p, d)
    ensures ForwardCost(p, d) <= Bound(p.model.totalLayers, hop, sec)
    ensures TotalCost(p, d) <= ForwardCost(p, d) + hop
  {
    hide IsChain, Within, Bound;
    CostWithin(p, d, p.model.totalLayers, hop, sec);
    RunWithin(p, d[|d| - 1], hop, sec);
  }

  /** A bound on the measured links and speeds that keeps every chain under the ceiling. */
  ghost predicate CeilingOutOfReach(p: Problem, hop: real, sec: real)
    requires p.Valid()
  {
    Within(p, hop, sec) && p.model.totalLayers as real * (hop + sec) + hop < CEILING
  }

  lemma AllUnder(p: Problem, d: Chain, hop: real, sec: real)
    requires p.Valid() && CeilingOutOfReach(p, hop, sec) && Feasible(p, d)
    ensures UnderCeiling(p, d)
  {
    hide Feasible, RunsOk, ForwardCost, TotalCost, Within;
    assert Bound(p.model.totalLayers, hop, sec) + hop < CEILING;
    FeasibleWithin(p, d, hop, sec);
  }

  /** Within that bound the planner is optimal and complete without qualification. */
  lemma IdealWithin(p: Problem, r: Result<ShardPlan, PlanError>, hop: real, sec: real)
    requires p.Valid() && Answer(p, r) && CeilingOutOfReach(p, hop, sec)
    ensures Ideal(p, r)
  {
    hide Feasible, RunsOk, ForwardCost, TotalCost, CeilingOutOfReach, UnderCeiling, PlanOf;
    forall d: Chain | Feasible(p, d) ensures UnderCeiling(p, d) {
      AllUnder(p, d, hop, sec);
    }
  }

  lemma Scaled(a: real, x: real, b: real, y: real)
    requires 0.0 <= a <= b && 0.0 <= x <= y
    ensures a * x <= b * y
  {
  }

  /** So it is for a model of at most a million layers on links and layers that take at most a day each. */
  lemma IdealOnOrdinaryClusters(p: Problem, r: Result<ShardPlan, PlanError>)
    requires p.Valid() && Answer(p, r) && p.model.totalLayers <= 1_000_000 && Within(p, 86400.0, 86400.0)
    ensures Ideal(p, r)
  {
    hide Answer, Ideal, Within;
    Scaled(p.model.totalLayers as real, 172800.0, 1000000.0, 172800.0);
    IdealWithin(p, r, 86400.0, 86400.0);
  }

  /** One node, whose only measured speed makes the model's only layer cost the ceiling. */
  function SlowModel(): ModelInfo {
    ModelInfo("m", 1, 1, 0)
  }

  function SlowNodes(): seq<NodeInfo> {
    [NodeInfo("a", "a", 2 * RESERVED_SYSTEM_RAM, false)]
  }

  function SlowReports(): seq<WorkerCapability> {
    [WorkerCapability("a", map[], map[], map["m" := 1.0 / CEILING])]
  }

  function SlowProblem(): Problem {
    Problem(SlowModel(), SlowNodes(), map[], map[], [CEILING])
  }

  lemma SlowCollects(of: WorkerCapability -> map<string, real>, m: Matrix)
    requires of(SlowReports()[0]) == if "a" in m then m["a"] else map[]
    requires m.Keys <= {"a"}
    ensures Collects(m, SlowReports(), of)
  {
    assert SlowReports()[..0] == [];
    forall a, b ensures Lookup(m, a, b) == LastReport(SlowReports(), of, a, b) {
      assert LastReport([], of, a, b) == None;
    }
  }

  lemma SlowIsEligible()
    ensures EligibleOrder(SlowModel(), SlowNodes(), SlowNodes())
  {
    assert RamPerLayer(SlowModel()) == 1;
  }

  /** The planner gets this problem from these inputs. */
  lemma SlowProblemArises()
    ensures ProblemFor(SlowModel(), SlowNodes(), SlowReports(), SlowProblem())
  {
    var speeds: Matrix := map["a" := map["m" := 1.0 / CEILING]];
    SlowCollects(LATENCIES, map[]);
    SlowCollects(BANDWIDTHS, map[]);
    SlowCollects(SPEEDS, speeds);
    SlowIsEligible();
    assert SlowNodes() == FirstTen(SlowNodes());
    assert PositiveSpeed(speeds, "a", "m");
    assert PerLayer(SlowModel(), 1.0 / CEILING) == CEILING;
    hide Collects, EligibleOrder;
    assert IsLayerSeconds(SlowModel(), speeds, SlowNodes()[0], CEILING);
  }

  /** For these inputs a chain exists, and the planner reports none. */
  lemma CeilingHidesAChain(r: Result<ShardPlan, PlanError>)
    ensures ProblemFor(SlowModel(), SlowNodes(), SlowReports(), SlowProblem())
    ensures Feasible(SlowProblem(), [Run(0, 0, 0)])
    ensures Answer(SlowProblem(), r) ==> r == Failure(NoChain) && !Ideal(SlowProblem(), r)
  {
    SlowProblemArises();
    hide ProblemFor;
    var p, run := SlowProblem(), Run(0, 0, 0);
    assert RamPerLayer(p.model) == 1;
    assert p.Fits(0, 1);
    assert RunOk(p, run);
    assert Feasible(p, [run]);
    forall d: Chain | Feasible(p, d) ensures !UnderCeiling(p, d) {
      if |d| > 1 {
        DropLast(p, d, 1);
      }
      assert d == [d[0]];
      ForwardCostOfOne(p, d[0]);
    }
  }

  // ---------- What a plan looks like ----------

  ghost predicate DistinctIDs(nodes: seq<NodeInfo>) {
    forall i, j :: 0 <= i < j < |nodes| ==> nodes[i].id != nodes[j].id
  }

  ghost function TotalAssigned(shards: seq<Shard>): int {
    if shards == [] then 0 else TotalAssigned(shards[..|shards| - 1]) + shards[|shards| - 1].assignedRAM
  }

  /** Layers start..l-1 are split into contiguous non-empty ranges, in order. */
  ghost predicate Partition(shards: seq<Shard>, l: int) {
    && shards != [] && shards[0].layerStart == 0 && shards[|shards| - 1].layerEnd == l - 1
    && (forall i :: 0 <= i < |shards| ==> shards[i].layerStart <= shards[i].layerEnd)
    && (forall i :: 0 < i < |shards| ==> shards[i].layerStart == shards[i - 1].layerEnd + 1)
  }

  lemma {:induction false} AssignedOfChain(p: Problem, c: Chain, l: nat, shards: seq<Shard>)
    requires p.Valid() && IsChain(p, c, l) && ShardsAre(p, c, shards)
    ensures TotalAssigned(shards) == l * RamPerLayer(p.model)
  {
    hide IsChain, ShardsAre, RunsOk;
    LastShard(p, c, l, shards);
    if |c| > 1 {
      var first, rpl := c[|c| - 1].first, RamPerLayer(p.model);
      AssignedOfChain(p, c[..|c| - 1], first, shards[..|c| - 1]);
      assert (l - first) * rpl + first * rpl == l * rpl;
    }
  }

  lemma LastShard(p: Problem, c: Chain, l: nat, shards: seq<Shard>)
    requires p.Valid() && IsChain(p, c, l) && ShardsAre(p, c, shards)
    ensures |shards| == |c|
    ensures |c| == 1 ==> TotalAssigned(shards) == l * RamPerLayer(p.model)
    ensures |c| > 1 ==> c[|c| - 1].first < l && IsChain(p, c[..|c| - 1], c[|c| - 1].first)
    ensures |c| > 1 ==> ShardsAre(p, c[..|c| - 1], shards[..|c| - 1])
    ensures TotalAssigned(shards) == TotalAssigned(shards[..|c| - 1]) + (l - c[|c| - 1].first) * RamPerLayer(p.model)
  {
    hide IsChain;
    LastRun(p, c, l);
    assert shards[|c| - 1] == ShardOf(p, c[|c| - 1]);
    if |c| == 1 {
      assert shards[..0] == [];
    }
  }

  /** The node the shard names, by id and name, can hold it, on top of the reserve if it coordinates. */
  ghost predicate HasRoom(p: Problem, s: Shard)
    requires p.Valid()
  {
    var reserve := if s.nodeID == p.Coordinator() then CoordinatorReserve(p.model) else 0;
    exists n :: n in p.nodes && n.id == s.nodeID && n.name == s.nodeName && s.assignedRAM + reserve <= n.freeRAM
  }

  lemma ChainPartitions(p: Problem, c: Chain, shards: seq<Shard>)
    requires p.Valid() && Feasible(p, c) && ShardsAre(p, c, shards)
    ensures Partition(shards, p.model.totalLayers) && |shards| <= |p.nodes|
  {
    forall i | 0 < i < |shards| ensures shards[i].layerStart == shards[i - 1].layerEnd + 1 {
      assert c[i].first == c[i - 1].last + 1;
    }
    DistinctBound(seq(|c|, i requires 0 <= i < |c| => c[i].node), |p.nodes|);
  }

  /** Distinct numbers below n are at most n. */
  lemma {:induction false} DistinctBound(s: seq<nat>, n: nat)
    requires forall i, j :: 0 <= i < j < |s| ==> s[i] != s[j]
    requires forall i :: 0 <= i < |s| ==> s[i] < n
    ensures |s| <= n
  {
    if s == [] {
    } else if i :| 0 <= i < |s| && s[i] == n - 1 {
      DistinctBound(s[..i] + s[i + 1..], n - 1);
    } else {
      assert s[0] < n;
      DistinctBound(s, n - 1);
    }
  }

  lemma ChainOnDistinctIDs(p: Problem, c: Chain, shards: seq<Shard>)
    requires p.Valid() && Feasible(p, c) && ShardsAre(p, c, shards) && DistinctIDs(p.nodes)
    ensures forall i, j :: 0 <= i < j < |shards| ==> shards[i].nodeID != shards[j].nodeID
  {
    forall i, j | 0 <= i < j < |shards| ensures shards[i].nodeID != shards[j].nodeID {
      assert c[i].node != c[j].node;
    }
  }

  lemma ChainHasRoom(p: Problem, c: Chain, shards: seq<Shard>, i: nat)
    requires p.Valid() && Feasible(p, c) && ShardsAre(p, c, shards) && i < |shards|
    ensures HasRoom(p, shards[i])
  {
    assert RunOk(p, c[i]);
    assert p.nodes[c[i].node] in p.nodes;
  }

  /** Rounding toward zero loses less than M. */
  lemma RoundingLoss(total: int, M: int)
    requires M > 0
    ensures total >= 0 ==> total - M < M * Truncate(total, M) <= total
    ensures total < 0 ==> total <= M * Truncate(total, M) < total + M
  {
    if total < 0 {
      assert M * ((-total) / M) == -(M * -((-total) / M));
    }
  }

  /**
    What a plan looks like: a partition of the layers over distinct nodes with room for them, all but less than M bytes
    assigned.
   */
  ghost predicate ValidPlan(p: Problem, plan: ShardPlan)
    requires p.Valid()
  {
    && plan.coordinator == p.Coordinator()
    && Partition(plan.shards, p.model.totalLayers) && |plan.shards| <= |p.nodes|
    && (DistinctIDs(p.nodes) ==>
         forall i, j :: 0 <= i < j < |plan.shards| ==> plan.shards[i].nodeID != plan.shards[j].nodeID)
    && (forall i :: 0 <= i < |plan.shards| ==> HasRoom(p, plan.shards[i]))
    && TotalAssigned(plan.shards) == p.model.totalLayers * RamPerLayer(p.model)
    && (p.model.totalRAM >= 0 ==>
         p.model.totalRAM - p.model.totalLayers < TotalAssigned(plan.shards) <= p.model.totalRAM)
    && (p.model.totalRAM < 0 ==>
         p.model.totalRAM <= TotalAssigned(plan.shards) < p.model.totalRAM + p.model.totalLayers)
  }

  /** Every plan the planner returns is valid. */
  lemma PlanIsValid(p: Problem, r: Result<ShardPlan, PlanError>)
    requires p.Valid() && Answer(p, r) && r.Success?
    ensures ValidPlan(p, r.value)
  {
    var c :| BestUnderCeiling(p, c) && PlanOf(p, c, r.value);
    ChainIsValidPlan(p, c, r.value);
  }

  lemma ChainIsValidPlan(p: Problem, c: Chain, plan: ShardPlan)
    requires p.Valid() && Feasible(p, c) && PlanOf(p, c, plan)
    ensures ValidPlan(p, plan)
  {
    var shards := plan.shards;
    hide Feasible, IsChain, ShardsAre, Partition, HasRoom, ForwardCost;
    ChainPartitions(p, c, shards);
    if DistinctIDs(p.nodes) {
      ChainOnDistinctIDs(p, c, shards);
    }
    forall i | 0 <= i < |shards| ensures HasRoom(p, shards[i]) {
      ChainHasRoom(p, c, shards, i);
    }
    ChainAssigns(p, c, shards);
    RoundingLoss(p.model.totalRAM, p.model.totalLayers);
  }

  lemma ChainAssigns(p: Problem, c: Chain, shards: seq<Shard>)
    requires p.Valid() && Feasible(p, c) && ShardsAre(p, c, shards)
    ensures TotalAssigned(shards) == p.model.totalLayers * RamPerLayer(p.model)
  {
    AssignedOfChain(p, c, p.model.totalLayers, shards);
  }
}
