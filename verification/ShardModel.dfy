/**
  The layer-sharding problem: cluster nodes, their measured links, and what a chain of shards is and costs. Nothing here
  mentions the planner's table; the planner is proved against these definitions.
 */
module ShardModel {
  import opened Wrappers
  import opened Basics
  import opened NodeMask

  datatype ModelInfo = ModelInfo(name: string, totalLayers: int, totalRAM: int, embedLength: int)

  datatype NodeInfo = NodeInfo(id: string, name: string, freeRAM: int, hasGPU: bool)

  /** What a worker reports about its links and about its speed on each model tag. */
  datatype WorkerCapability = WorkerCapability(
    nodeID: string,
    linkLatencies: map<string, real>,
    linkBandwidths: map<string, real>,
    inferenceSpeeds: map<string, real>)

  datatype Shard = Shard(nodeID: string, nodeName: string, layerStart: int, layerEnd: int, assignedRAM: int)

  datatype ShardPlan = ShardPlan(coordinator: string, shards: seq<Shard>)

  datatype PlanError = ModelIncomplete | NoNodes | NoEligible | NoChain | InsufficientRAM

  type Matrix = map<string, map<string, real>>

  const DEFAULT_CONTEXT_LEN := 2048
  const RESERVED_SYSTEM_RAM := 1024 * 1024 * 1024
  const DEFAULT_ACTIVATION_SIZE := 1048576.0

  /** Largest number of eligible nodes the dynamic planner considers. */
  const MAX_NODES := 10

  /** The planner's "unreached" cost, and the cost from which it treats a state as unreached. */
  const UNREACHED := 1000000000000000000.0
  const CEILING := 100000000000000000.0

  function KVCacheRAMAt(m: ModelInfo, seqLen: int): int {
    if m.totalLayers <= 0 || m.embedLength <= 0 then 0
    else 2 * m.totalLayers * m.embedLength * seqLen * 2
  }

  function RamPerLayer(m: ModelInfo): int
    requires m.totalLayers > 0
  {
    Truncate(m.totalRAM, m.totalLayers)
  }

  /** RAM kept free on the coordinator on top of its layers. */
  function CoordinatorReserve(m: ModelInfo): int {
    KVCacheRAMAt(m, DEFAULT_CONTEXT_LEN) + RESERVED_SYSTEM_RAM
  }

  // ---------- Measured links ----------

  function Lookup(m: Matrix, a: string, b: string): Option<real> {
    if a in m && b in m[a] then Some(m[a][b]) else None
  }

  /** A positive measurement a -> b, else a positive one b -> a, else the default. */
  function Measured(m: Matrix, a: string, b: string, default: real): (r: real)
    requires default > 0.0
    ensures r > 0.0
  {
    var ab := Lookup(m, a, b);
    var ba := Lookup(m, b, a);
    if ab.Some? && ab.value > 0.0 then ab.value
    else if ba.Some? && ba.value > 0.0 then ba.value
    else default
  }

  /** Latencies are reported in milliseconds; unmeasured links count as 2 ms. */
  function LatencySeconds(latencies: Matrix, src: string, dst: string): (r: real)
    ensures r >= 0.0
  {
    if src == dst then 0.0 else Measured(latencies, src, dst, 2.0) / 1000.0
  }

  function BandwidthMBs(bandwidths: Matrix, src: string, dst: string): (r: real)
    ensures r > 0.0
  {
    if src == dst then 10000.0 else Measured(bandwidths, src, dst, 100.0)
  }

  /** One sharding problem: the eligible nodes (coordinator first) and everything measured about them. */
  datatype Problem = Problem(
    model: ModelInfo,
    nodes: seq<NodeInfo>,
    latencies: Matrix,
    bandwidths: Matrix,
    layerSeconds: seq<real>)
  {
    ghost predicate Valid() {
      && model.totalLayers > 0
      && 0 < |nodes| <= MAX_NODES
      && |layerSeconds| == |nodes|
      && forall i :: 0 <= i < |nodes| ==> layerSeconds[i] >= 0.0
    }

    function Coordinator(): string
      requires |nodes| > 0
    {
      nodes[0].id
    }

    /** Time to hand one activation from node w to node u. */
    function Hop(w: nat, u: nat): (r: real)
      requires w < |nodes| && u < |nodes|
      ensures r >= 0.0
    {
      Transfer(nodes[w].id, nodes[u].id)
    }

    function Transfer(src: string, dst: string): (r: real)
      ensures r >= 0.0
    {
      LatencySeconds(latencies, src, dst)
      + DEFAULT_ACTIVATION_SIZE / (BandwidthMBs(bandwidths, src, dst) * 1024.0 * 1024.0)
    }

    /** Time from the coordinator to the first node; free when that node is the coordinator. */
    function HopIn(u: nat): (r: real)
      requires u < |nodes|
      ensures r >= 0.0
    {
      if nodes[u].id == Coordinator() then 0.0 else Transfer(Coordinator(), nodes[u].id)
    }

    /** Time from the last node back to the coordinator. */
    function HopBack(u: nat): (r: real)
      requires u < |nodes|
      ensures r >= 0.0
    {
      if nodes[u].id == Coordinator() then 0.0 else Transfer(nodes[u].id, Coordinator())
    }

    function Compute(u: nat, layers: nat): (r: real)
      requires Valid() && u < |nodes|
      ensures r >= 0.0
    {
      layers as real * layerSeconds[u]
    }

    /** Does node u have the RAM for this many layers (plus the reserve, on the coordinator)? */
    predicate Fits(u: nat, layers: nat)
      requires model.totalLayers > 0 && u < |nodes|
    {
      var reserve := if nodes[u].id == Coordinator() then CoordinatorReserve(model) else 0;
      layers * RamPerLayer(model) + reserve <= nodes[u].freeRAM
    }
  }

  // ---------- Chains ----------

  /** Layers first..last (inclusive) on one node. */
  datatype Run = Run(node: nat, first: nat, last: nat)

  type Chain = seq<Run>

  function Layers(r: Run): nat
    requires r.first <= r.last
  {
    r.last - r.first + 1
  }

  predicate RunOk(p: Problem, r: Run)
    requires p.Valid()
  {
    r.node < |p.nodes| && r.first <= r.last && p.Fits(r.node, Layers(r))
  }

  /** The runs of c are contiguous and cover layers 0..l-1, on distinct nodes that each have the RAM. */
  ghost predicate IsChain(p: Problem, c: Chain, l: nat)
    requires p.Valid()
    ensures IsChain(p, c, l) ==> c != [] && RunsOk(p, c) && c[|c| - 1].last == l - 1
  {
    && c != []
    && (forall i :: 0 <= i < |c| ==> RunOk(p, c[i]))
    && c[0].first == 0
    && c[|c| - 1].last == l - 1
    && (forall i :: 0 < i < |c| ==> c[i].first == c[i - 1].last + 1)
    && (forall i, j :: 0 <= i < j < |c| ==> c[i].node != c[j].node)
  }

  /** A complete pipeline: every layer of the model is placed. */
  ghost predicate Feasible(p: Problem, c: Chain)
    requires p.Valid()
    ensures Feasible(p, c) ==> c != [] && RunsOk(p, c)
  {
    IsChain(p, c, p.model.totalLayers)
  }

  ghost predicate RunsOk(p: Problem, c: Chain)
    requires p.Valid()
  {
    forall i :: 0 <= i < |c| ==> RunOk(p, c[i])
  }

  ghost function ComputeTime(p: Problem, c: Chain): (r: real)
    requires p.Valid() && RunsOk(p, c)
    ensures r >= 0.0
  {
    if c == [] then 0.0
    else ComputeTime(p, c[..|c| - 1]) + p.Compute(c[|c| - 1].node, Layers(c[|c| - 1]))
  }

  ghost function HopTime(p: Problem, c: Chain): (r: real)
    requires p.Valid() && RunsOk(p, c)
    ensures r >= 0.0
  {
    if |c| <= 1 then 0.0
    else HopTime(p, c[..|c| - 1]) + p.Hop(c[|c| - 2].node, c[|c| - 1].node)
  }

  /** Hop in, all hops between, all compute; everything but the hop back. */
  ghost function ForwardCost(p: Problem, c: Chain): (r: real)
    requires p.Valid() && RunsOk(p, c) && c != []
    ensures r >= 0.0
  {
    p.HopIn(c[0].node) + HopTime(p, c) + ComputeTime(p, c)
  }

  ghost function TotalCost(p: Problem, c: Chain): (r: real)
    requires p.Valid() && RunsOk(p, c) && c != []
    ensures r >= ForwardCost(p, c)
  {
    ForwardCost(p, c) + p.HopBack(c[|c| - 1].node)
  }

  /** No feasible chain beats c. */
  ghost predicate Cheapest(p: Problem, c: Chain)
    requires p.Valid()
  {
    Feasible(p, c) && forall d :: Feasible(p, d) ==> TotalCost(p, c) <= TotalCost(p, d)
  }

  // ---------- The last run of a chain ----------

  /** The node set of a chain as a mask. */
  ghost function MaskOf(c: Chain): nat {
    if c == [] then 0 else MaskOf(c[..|c| - 1]) + Pow2(c[|c| - 1].node)
  }

  ghost predicate UsesNode(c: Chain, u: nat) {
    exists i :: 0 <= i < |c| && c[i].node == u
  }

  ghost predicate DistinctNodes(c: Chain) {
    forall i, j :: 0 <= i < j < |c| ==> c[i].node != c[j].node
  }

  /** The mask of a chain of distinct nodes has exactly the bits of its nodes. */
  lemma {:induction false} MaskBits(c: Chain, n: nat, v: nat)
    requires DistinctNodes(c)
    requires forall i :: 0 <= i < |c| ==> c[i].node < n
    ensures HasBit(MaskOf(c), v) <==> UsesNode(c, v)
    ensures MaskOf(c) < Pow2(n)
  {
    if c == [] {
      NoBitOfZero(v);
    } else {
      var d, u := c[..|c| - 1], c[|c| - 1].node;
      MaskBits(d, n, v);
      MaskBits(d, n, u);
      assert !UsesNode(d, u);
      SetBit(MaskOf(d), u, v);
      SetBitBound(MaskOf(d), u, n);
      assert UsesNode(c, v) <==> v == u || UsesNode(d, v) by {
        if UsesNode(d, v) {
          var i :| 0 <= i < |d| && d[i].node == v;
          assert c[i].node == v;
        }
        if v == u {
          assert c[|c| - 1].node == v;
        }
        if UsesNode(c, v) && v != u {
          var i :| 0 <= i < |c| && c[i].node == v;
          assert d[i].node == v;
        }
      }
    }
  }

  /** Dropping the last of several runs leaves a chain over the layers before it, with one bit less. */
  lemma {:induction false} DropLast(p: Problem, c: Chain, l: nat)
    requires p.Valid() && IsChain(p, c, l) && |c| > 1
    ensures var k := |c| - 1; var d := c[..k];
            && IsChain(p, d, c[k].first)
            && 0 < c[k].first < l
            && MaskOf(c) == MaskOf(d) + Pow2(c[k].node)
            && HasBit(MaskOf(c), c[k].node)
            && ClearBit(MaskOf(c), c[k].node) == MaskOf(d)
            && HasBit(MaskOf(d), d[k - 1].node)
            && !HasBit(MaskOf(d), c[k].node)
            && d[k - 1].node != c[k].node
  {
    var k := |c| - 1;
    var d := c[..k];
    var u := c[k].node;
    assert c[k].first == c[k - 1].last + 1;
    MaskBits(c, |p.nodes|, u);
    assert c[k].node == u;
    MaskBits(d, |p.nodes|, u);
    MaskBits(d, |p.nodes|, d[k - 1].node);
    ClearBitRemoves(MaskOf(c), u);
  }

  /** Adding a fitting run on a node the chain does not use gives a longer chain. */
  lemma {:induction false} AddRun(p: Problem, d: Chain, l: nat, r: Run)
    requires p.Valid() && IsChain(p, d, l)
    requires RunOk(p, r) && r.first == l && !HasBit(MaskOf(d), r.node)
    ensures IsChain(p, d + [r], r.last + 1)
    ensures MaskOf(d + [r]) == MaskOf(d) + Pow2(r.node)
  {
    var c := d + [r];
    MaskBits(d, |p.nodes|, r.node);
    assert c[..|c| - 1] == d;
    forall i, j | 0 <= i < j < |c| ensures c[i].node != c[j].node {
      if j == |d| {
        assert d[i].node == c[i].node;
      }
    }
  }

  /** What the last run adds to the cost. */
  lemma {:induction false} ForwardCostOfLast(p: Problem, c: Chain)
    requires p.Valid() && RunsOk(p, c) && |c| > 1
    ensures RunsOk(p, c[..|c| - 1])
    ensures ForwardCost(p, c) ==
            ForwardCost(p, c[..|c| - 1]) + p.Hop(c[|c| - 2].node, c[|c| - 1].node)
            + p.Compute(c[|c| - 1].node, Layers(c[|c| - 1]))
  {
  }

  lemma {:induction false} ForwardCostOfOne(p: Problem, r: Run)
    requires p.Valid() && RunOk(p, r)
    ensures ForwardCost(p, [r]) == p.HopIn(r.node) + p.Compute(r.node, Layers(r))
    ensures MaskOf([r]) == Pow2(r.node)
  {
    var c := [r];
    assert c[..0] == [];
    assert ComputeTime(p, c) == ComputeTime(p, c[..0]) + p.Compute(r.node, Layers(r));
    assert MaskOf(c) == MaskOf(c[..0]) + Pow2(r.node);
  }
}
