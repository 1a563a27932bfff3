/**
  What the planner's costs and limits are in terms of what was reported: layer by layer, link by link, byte by byte.
 */
module ShardCost {
  import opened Wrappers
  import opened Basics
  import opened ShardModel
  import opened ShardPlanner

  // ---------- Layer by layer ----------

  /** The node that holds layer k of a chain. */
  ghost function HolderOf(c: Chain, k: nat): nat {
    if c == [] then 0 else if c[|c| - 1].first <= k then c[|c| - 1].node else HolderOf(c[..|c| - 1], k)
  }

  /** Every run holds just the layers it names. */
  lemma {:induction false} HolderIsRun(p: Problem, c: Chain, l: nat, i: nat, k: nat)
    requires p.Valid() && IsChain(p, c, l) && i < |c| && c[i].first <= k <= c[i].last
    ensures HolderOf(c, k) == c[i].node && k < l
    decreases |c|
  {
    if i < |c| - 1 {
      DropLast(p, c, l);
      var d := c[..|c| - 1];
      assert d[i] == c[i];
      HolderIsRun(p, d, c[|c| - 1].first, i, k);
    }
  }

  /** The first n layers of c are on nodes of the problem. */
  ghost predicate HeldBelow(p: Problem, c: Chain, n: nat) {
    forall k :: 0 <= k < n ==> HolderOf(c, k) < |p.layerSeconds|
  }

  /** The seconds a layer takes on the node that holds it, summed over the first n layers. */
  ghost function LayerTime(p: Problem, c: Chain, n: nat): real
    requires HeldBelow(p, c, n)
  {
    if n == 0 then 0.0 else LayerTime(p, c, n - 1) + p.layerSeconds[HolderOf(c, n - 1)]
  }

  lemma {:induction false} Held(p: Problem, c: Chain, l: nat, k: nat)
    requires p.Valid() && IsChain(p, c, l) && k < l
    ensures HolderOf(c, k) < |p.nodes|
    decreases |c|
  {
    assert RunOk(p, c[|c| - 1]);
    if k < c[|c| - 1].first {
      assert |c| > 1;
      DropLast(p, c, l);
      Held(p, c[..|c| - 1], c[|c| - 1].first, k);
    }
  }

  lemma AllHeld(p: Problem, c: Chain, l: nat)
    requires p.Valid() && IsChain(p, c, l)
    ensures HeldBelow(p, c, l)
  {
    forall k | 0 <= k < l ensures HolderOf(c, k) < |p.layerSeconds| {
      Held(p, c, l, k);
    }
  }

  lemma {:induction false} FrontTime(p: Problem, c: Chain, n: nat)
    requires c != [] && n <= c[|c| - 1].first
    requires HeldBelow(p, c[..|c| - 1], n)
    ensures HeldBelow(p, c, n)
    ensures LayerTime(p, c, n) == LayerTime(p, c[..|c| - 1], n)
  {
    if n > 0 {
      FrontTime(p, c, n - 1);
    }
  }

  lemma {:induction false} LastTime(p: Problem, c: Chain, n: nat)
    requires c != [] && c[|c| - 1].first <= n && c[|c| - 1].node < |p.layerSeconds|
    requires HeldBelow(p, c, c[|c| - 1].first)
    ensures HeldBelow(p, c, n)
    ensures LayerTime(p, c, n) ==
            LayerTime(p, c, c[|c| - 1].first) + (n - c[|c| - 1].first) as real * p.layerSeconds[c[|c| - 1].node]
  {
    if n > c[|c| - 1].first {
      LastTime(p, c, n - 1);
      var sec := p.layerSeconds[c[|c| - 1].node];
      assert (n - c[|c| - 1].first) as real * sec == (n - 1 - c[|c| - 1].first) as real * sec + sec;
    }
  }

  /** All compute time of a chain is that of its layers, each on its node. */
  lemma {:induction false} ComputeIsByLayer(p: Problem, c: Chain, l: nat)
    requires p.Valid() && IsChain(p, c, l)
    ensures HeldBelow(p, c, l)
    ensures ComputeTime(p, c) == LayerTime(p, c, l)
    decreases |c|
  {
    AllHeld(p, c, l);
    LastRun(p, c, l);
    var d, r := c[..|c| - 1], c[|c| - 1];
    FrontHeld(p, c, l);
    ComputeOfLast(p, c);
    hide IsChain, HolderOf, LayerTime, ComputeTime, RunsOk;
    LastTime(p, c, l);
    if |c| > 1 {
      ComputeIsByLayer(p, d, r.first);
      FrontTime(p, c, r.first);
    } else {
      NoTime(p, c);
    }
  }

  lemma ComputeOfLast(p: Problem, c: Chain)
    requires p.Valid() && RunsOk(p, c) && c != []
    ensures var d, r := c[..|c| - 1], c[|c| - 1];
            && RunsOk(p, d) && r.first <= r.last && r.node < |p.layerSeconds|
            && ComputeTime(p, c) == ComputeTime(p, d) + Layers(r) as real * p.layerSeconds[r.node]
            && (d == [] ==> ComputeTime(p, d) == 0.0)
  {
    assert RunOk(p, c[|c| - 1]);
  }

  lemma FrontHeld(p: Problem, c: Chain, l: nat)
    requires HeldBelow(p, c, l) && c != [] && c[|c| - 1].first <= l
    ensures HeldBelow(p, c, c[|c| - 1].first)
  {
  }

  lemma NoTime(p: Problem, c: Chain)
    ensures LayerTime(p, c, 0) == 0.0
  {
  }

  // ---------- Link by link ----------

  /** The newest report of node a about b is x: no later report of a says anything about b. */
  ghost predicate NewestIs(caps: seq<WorkerCapability>, of: WorkerCapability -> map<string, real>, a: string, b: string,
                           x: real) {
    exists i :: 0 <= i < |caps| && NewestAt(caps, of, a, b, i) && of(caps[i])[b] == x
  }

  ghost predicate NewestAt(caps: seq<WorkerCapability>, of: WorkerCapability -> map<string, real>, a: string, b: string,
                           i: nat)
    requires i < |caps|
  {
    && caps[i].nodeID == a && b in of(caps[i])
    && forall j :: i < j < |caps| ==> !(caps[j].nodeID == a && b in of(caps[j]))
  }

  /** A report that says nothing about b changes nothing. */
  lemma SilentReport(caps: seq<WorkerCapability>, of: WorkerCapability -> map<string, real>, a: string, b: string,
                     x: real)
    requires caps != [] && !(caps[|caps| - 1].nodeID == a && b in of(caps[|caps| - 1]))
    ensures NewestIs(caps, of, a, b, x) <==> NewestIs(caps[..|caps| - 1], of, a, b, x)
  {
    var front := caps[..|caps| - 1];
    forall i | 0 <= i < |front| ensures NewestAt(caps, of, a, b, i) <==> NewestAt(front, of, a, b, i) {
      assert caps[i] == front[i];
    }
    if i :| 0 <= i < |front| && NewestAt(front, of, a, b, i) && of(front[i])[b] == x {
      assert NewestAt(caps, of, a, b, i) && of(caps[i])[b] == x;
    }
    if i :| 0 <= i < |caps| && NewestAt(caps, of, a, b, i) && of(caps[i])[b] == x {
      assert NewestAt(front, of, a, b, i) && of(front[i])[b] == x;
    }
  }

  lemma LastOneCounts(caps: seq<WorkerCapability>, of: WorkerCapability -> map<string, real>, a: string, b: string,
                      x: real)
    requires caps != [] && caps[|caps| - 1].nodeID == a && b in of(caps[|caps| - 1])
    ensures NewestIs(caps, of, a, b, x) <==> of(caps[|caps| - 1])[b] == x
  {
    assert NewestAt(caps, of, a, b, |caps| - 1);
  }

  lemma {:induction false} LastReportIsNewest(caps: seq<WorkerCapability>, of: WorkerCapability -> map<string, real>,
                                              a: string, b: string, x: real)
    ensures LastReport(caps, of, a, b) == Some(x) <==> NewestIs(caps, of, a, b, x)
  {
    if caps == [] {
    } else if caps[|caps| - 1].nodeID == a && b in of(caps[|caps| - 1]) {
      LastOneCounts(caps, of, a, b, x);
    } else {
      SilentReport(caps, of, a, b, x);
      LastReportIsNewest(caps[..|caps| - 1], of, a, b, x);
    }
  }

  /** a's newest report about b is a positive number. */
  ghost predicate Reported(caps: seq<WorkerCapability>, of: WorkerCapability -> map<string, real>, a: string,
                           b: string) {
    exists x :: NewestIs(caps, of, a, b, x) && x > 0.0
  }

  /** x is what a reports about b; failing that what b reports about a; failing that the default. */
  ghost predicate LinkValue(caps: seq<WorkerCapability>, of: WorkerCapability -> map<string, real>, a: string,
                            b: string,
                            default: real, x: real) {
    if Reported(caps, of, a, b) then NewestIs(caps, of, a, b, x)
    else if Reported(caps, of, b, a) then NewestIs(caps, of, b, a, x)
    else x == default
  }

  lemma MeasuredIsLinkValue(m: Matrix, caps: seq<WorkerCapability>, of: WorkerCapability -> map<string, real>,
                            a: string, b: string, default: real)
    requires Collects(m, caps, of) && default > 0.0
    ensures LinkValue(caps, of, a, b, default, Measured(m, a, b, default))
  {
    forall x ensures Lookup(m, a, b) == Some(x) <==> NewestIs(caps, of, a, b, x) {
      LastReportIsNewest(caps, of, a, b, x);
    }
    forall x ensures Lookup(m, b, a) == Some(x) <==> NewestIs(caps, of, b, a, x) {
      LastReportIsNewest(caps, of, b, a, x);
    }
    hide NewestIs, Collects, Lookup;
  }

  /** Handing one activation from a to b: the latency in milliseconds, and one megabyte at the bandwidth. */
  lemma TransferByReports(p: Problem, caps: seq<WorkerCapability>, a: string, b: string) returns (ms: real, mbs: real)
    requires Collects(p.latencies, caps, LATENCIES) && Collects(p.bandwidths, caps, BANDWIDTHS) && a != b
    ensures LinkValue(caps, LATENCIES, a, b, 2.0, ms) && LinkValue(caps, BANDWIDTHS, a, b, 100.0, mbs) && mbs > 0.0
    ensures p.Transfer(a, b) == ms / 1000.0 + 1.0 / mbs
  {
    ms, mbs := Measured(p.latencies, a, b, 2.0), Measured(p.bandwidths, a, b, 100.0);
    MeasuredIsLinkValue(p.latencies, caps, LATENCIES, a, b, 2.0);
    MeasuredIsLinkValue(p.bandwidths, caps, BANDWIDTHS, a, b, 100.0);
    hide LinkValue, Collects, Measured;
    OneMegabyte(mbs);
  }

  lemma OneMegabyte(mbs: real)
    requires mbs > 0.0
    ensures 1048576.0 / (mbs * 1024.0 * 1024.0) == 1.0 / mbs
  {
    var d := mbs * 1024.0 * 1024.0;
    assert d == mbs * 1048576.0 && d > 0.0;
    assert (1.0 / mbs) * d == 1048576.0;
  }

  // ---------- A chain as a whole ----------

  /** Handing on from a to b costs x: what the reports about the link say, or a tenth of a millisecond for equal ids. */
  ghost predicate HopCosts(p: Problem, caps: seq<WorkerCapability>, a: string, b: string, x: real) {
    if a == b then x == 0.0001
    else exists ms, mbs ::
        LinkValue(caps, LATENCIES, a, b, 2.0, ms) && LinkValue(caps, BANDWIDTHS, a, b, 100.0, mbs) && mbs > 0.0 &&
        x == ms / 1000.0 + 1.0 / mbs
  }

  /** To and from the coordinator the same, but nothing if the node is the coordinator itself. */
  ghost predicate EndCosts(p: Problem, caps: seq<WorkerCapability>, a: string, b: string, x: real) {
    if a == b then x == 0.0 else HopCosts(p, caps, a, b, x)
  }

  ghost function Total(xs: seq<real>): real {
    if xs == [] then 0.0 else Total(xs[..|xs| - 1]) + xs[|xs| - 1]
  }

  /** hops lists what the hand-overs between the runs of a chain cost. */
  ghost predicate HopsCost(p: Problem, caps: seq<WorkerCapability>, c: Chain, hops: seq<real>)
    requires p.Valid() && RunsOk(p, c) && c != []
  {
    |hops| == |c| - 1 &&
    forall i :: 0 <= i < |hops| ==>
      HopCosts(p, caps, p.nodes[c[i].node].id, p.nodes[c[i + 1].node].id, hops[i])
  }

  lemma TransferCosts(p: Problem, caps: seq<WorkerCapability>, a: string, b: string)
    requires Collects(p.latencies, caps, LATENCIES) && Collects(p.bandwidths, caps, BANDWIDTHS)
    ensures HopCosts(p, caps, a, b, p.Transfer(a, b))
  {
    if a != b {
      var ms, mbs := TransferByReports(p, caps, a, b);
    } else {
      assert 1048576.0 / (10000.0 * 1024.0 * 1024.0) == 0.0001;
    }
  }

  lemma OneMoreHop(p: Problem, caps: seq<WorkerCapability>, c: Chain, hops: seq<real>, x: real)
    requires p.Valid() && RunsOk(p, c) && |c| > 1 && RunsOk(p, c[..|c| - 1])
    requires HopsCost(p, caps, c[..|c| - 1], hops)
    requires HopCosts(p, caps, p.nodes[c[|c| - 2].node].id, p.nodes[c[|c| - 1].node].id, x)
    ensures HopsCost(p, caps, c, hops + [x]) && Total(hops + [x]) == Total(hops) + x
  {
    hide HopCosts;
    var front, more := c[..|c| - 1], hops + [x];
    assert more[..|hops|] == hops;
    forall i | 0 <= i < |more| ensures HopCosts(p, caps, p.nodes[c[i].node].id, p.nodes[c[i + 1].node].id, more[i]) {
      if i < |hops| {
        assert front[i] == c[i] && front[i + 1] == c[i + 1];
      }
    }
  }

  lemma {:induction false} HopsOf(p: Problem, caps: seq<WorkerCapability>, c: Chain) returns (hops: seq<real>)
    requires p.Valid() && RunsOk(p, c) && c != []
    requires Collects(p.latencies, caps, LATENCIES) && Collects(p.bandwidths, caps, BANDWIDTHS)
    ensures HopsCost(p, caps, c, hops) && HopTime(p, c) == Total(hops)
  {
    hops := [];
    if |c| > 1 {
      var u, w := c[|c| - 2].node, c[|c| - 1].node;
      TransferCosts(p, caps, p.nodes[u].id, p.nodes[w].id);
      var x := p.Hop(u, w);
      hide HopCosts, Collects, HopsCost, Total;
      hops := HopsOf(p, caps, c[..|c| - 1]);
      OneMoreHop(p, caps, c, hops, x);
      hops := hops + [x];
    }
  }

  /**
    What a chain costs, by the reports alone: getting to its first node and back from its last, the hand-overs between
    its runs, and for every layer of the model the seconds a layer takes on the node that holds it.
   */
  lemma CostByReports(p: Problem, caps: seq<WorkerCapability>, c: Chain)
    returns (there: real, hops: seq<real>, back: real)
    requires p.Valid() && Feasible(p, c)
    requires Collects(p.latencies, caps, LATENCIES) && Collects(p.bandwidths, caps, BANDWIDTHS)
    ensures EndCosts(p, caps, p.nodes[0].id, p.nodes[c[0].node].id, there)
    ensures EndCosts(p, caps, p.nodes[c[|c| - 1].node].id, p.nodes[0].id, back)
    ensures HopsCost(p, caps, c, hops)
    ensures HeldBelow(p, c, p.model.totalLayers)
    ensures TotalCost(p, c) == there + Total(hops) + LayerTime(p, c, p.model.totalLayers) + back
  {
    there, back := p.HopIn(c[0].node), p.HopBack(c[|c| - 1].node);
    TransferCosts(p, caps, p.nodes[0].id, p.nodes[c[0].node].id);
    TransferCosts(p, caps, p.nodes[c[|c| - 1].node].id, p.nodes[0].id);
    hide HopCosts, Collects;
    hops := HopsOf(p, caps, c);
    ComputeIsByLayer(p, c, p.model.totalLayers);
    hide IsChain, HopTime, ComputeTime, LayerTime, Total;
  }

  // ---------- Seconds a layer ----------

  /**
    A node that reports a positive speed on the model takes 1/speed seconds for all its layers; one that only reports
    positive speeds on other models takes that long by one of those; any other takes 5 ms a layer with a GPU, 30 ms
    without.
   */
  ghost predicate LayerTakes(model: ModelInfo, caps: seq<WorkerCapability>, n: NodeInfo, sec: real) {
    if Reported(caps, SPEEDS, n.id, model.name) then WholeModelTakes(model, caps, n, model.name, sec)
    else if exists tag :: Reported(caps, SPEEDS, n.id, tag) then exists tag :: WholeModelTakes(model, caps, n, tag, sec)
    else sec == if n.hasGPU then 0.005 else 0.030
  }

  ghost predicate WholeModelTakes(model: ModelInfo, caps: seq<WorkerCapability>, n: NodeInfo, tag: string, sec: real) {
    exists speed ::
      NewestIs(caps, SPEEDS, n.id, tag, speed) && speed > 0.0 && model.totalLayers as real * sec == 1.0 / speed
  }

  lemma SecondsByReports(model: ModelInfo, speeds: Matrix, caps: seq<WorkerCapability>, n: NodeInfo, sec: real)
    requires model.totalLayers > 0 && Collects(speeds, caps, SPEEDS) && IsLayerSeconds(model, speeds, n, sec)
    ensures LayerTakes(model, caps, n, sec)
  {
    forall tag ensures PositiveSpeed(speeds, n.id, tag) <==> Reported(caps, SPEEDS, n.id, tag) {
      PositiveIsReported(speeds, caps, n.id, tag);
    }
    hide Collects, Reported, NewestIs, PositiveSpeed, WholeModelTakes, PerLayer;
    if PositiveSpeed(speeds, n.id, model.name) {
      SpeedMeans(model, speeds, caps, n, model.name, sec);
    } else if exists tag :: PositiveSpeed(speeds, n.id, tag) {
      var tag :| PositiveSpeed(speeds, n.id, tag) && sec == PerLayer(model, Lookup(speeds, n.id, tag).value);
      SpeedMeans(model, speeds, caps, n, tag, sec);
    }
  }

  /** The planner's seconds a layer, for every node it considers. */
  lemma LayerSecondsByReports(model: ModelInfo, nodes: seq<NodeInfo>, caps: seq<WorkerCapability>, p: Problem, u: nat)
    requires ProblemFor(model, nodes, caps, p) && u < |p.nodes|
    ensures LayerTakes(model, caps, p.nodes[u], p.layerSeconds[u])
  {
    hide EligibleOrder, IsLayerSeconds, Collects, LayerTakes;
    var speeds :| Collects(speeds, caps, SPEEDS) &&
      forall i :: 0 <= i < |p.nodes| ==> IsLayerSeconds(model, speeds, p.nodes[i], p.layerSeconds[i]);
    SecondsByReports(model, speeds, caps, p.nodes[u], p.layerSeconds[u]);
  }

  lemma PositiveIsReported(speeds: Matrix, caps: seq<WorkerCapability>, id: string, tag: string)
    requires Collects(speeds, caps, SPEEDS)
    ensures PositiveSpeed(speeds, id, tag) <==> Reported(caps, SPEEDS, id, tag)
  {
    assert Lookup(speeds, id, tag) == LastReport(caps, SPEEDS, id, tag);
    forall x ensures Lookup(speeds, id, tag) == Some(x) <==> NewestIs(caps, SPEEDS, id, tag, x) {
      LastReportIsNewest(caps, SPEEDS, id, tag, x);
    }
    hide NewestIs, Collects, LastReport, Lookup;
  }

  lemma SpeedMeans(model: ModelInfo, speeds: Matrix, caps: seq<WorkerCapability>, n: NodeInfo, tag: string, sec: real)
    requires model.totalLayers > 0 && Collects(speeds, caps, SPEEDS) && PositiveSpeed(speeds, n.id, tag)
    requires sec == PerLayer(model, Lookup(speeds, n.id, tag).value)
    ensures WholeModelTakes(model, caps, n, tag, sec)
  {
    var speed := Lookup(speeds, n.id, tag).value;
    assert Lookup(speeds, n.id, tag) == LastReport(caps, SPEEDS, n.id, tag);
    LastReportIsNewest(caps, SPEEDS, n.id, tag, speed);
    WholeModel(speed, model.totalLayers as real);
    hide NewestIs, Collects;
  }

  lemma WholeModel(speed: real, layers: real)
    requires speed > 0.0 && layers > 0.0
    ensures layers * (1.0 / (speed * layers)) == 1.0 / speed
  {
    assert speed * layers > 0.0;
    assert (1.0 / (speed * layers)) * (speed * layers) == 1.0;
  }

  // ---------- Room ----------

  /** The key-value cache of the default context of 2048 positions, with two bytes a number. */
  lemma ReserveInBytes(m: ModelInfo)
    requires m.totalLayers > 0
    ensures CoordinatorReserve(m) ==
            1073741824 + if m.embedLength > 0 then 8192 * m.totalLayers * m.embedLength else 0
  {
  }

  /** A node has room for some layers when their whole bytes, on the coordinator with its reserve, fit its free RAM. */
  lemma RoomInBytes(p: Problem, u: nat, layers: nat)
    requires p.Valid() && u < |p.nodes| && p.model.totalRAM >= 0
    ensures p.Fits(u, layers) <==>
              exists perLayer: int ::
                && perLayer * p.model.totalLayers <= p.model.totalRAM < (perLayer + 1) * p.model.totalLayers
                && layers * perLayer <=
                   p.nodes[u].freeRAM - if p.nodes[u].id == p.nodes[0].id then CoordinatorReserve(p.model) else 0
  {
    var rpl, m := RamPerLayer(p.model), p.model.totalLayers;
    WholeBytes(p.model.totalRAM, m);
    forall perLayer: int | perLayer * m <= p.model.totalRAM < (perLayer + 1) * m ensures perLayer == rpl {
      OnlyQuotient(p.model.totalRAM, m, perLayer, rpl);
    }
    hide CoordinatorReserve;
    assert rpl * m <= p.model.totalRAM < (rpl + 1) * m;
  }

  lemma WholeBytes(total: int, m: int)
    requires m > 0 && total >= 0
    ensures Truncate(total, m) * m <= total < (Truncate(total, m) + 1) * m
  {
  }

  lemma OnlyQuotient(total: int, m: int, a: int, b: int)
    requires m > 0 && a * m <= total < (a + 1) * m && b * m <= total < (b + 1) * m
    ensures a == b
  {
    if a < b {
      Grows(a + 1, b, m);
    } else if b < a {
      Grows(b + 1, a, m);
    }
  }

  lemma Grows(a: int, b: int, m: int)
    requires a <= b && m > 0
    ensures a * m <= b * m
  {
  }

  /** A node is eligible exactly when it is given and its free RAM reaches what one layer takes, rounded down. */
  lemma EligibleExactly(model: ModelInfo, nodes: seq<NodeInfo>, order: seq<NodeInfo>, n: NodeInfo)
    requires model.totalLayers > 0 && model.totalRAM >= 0 && EligibleOrder(model, nodes, order)
    ensures n in order <==> n in nodes && model.totalRAM < (n.freeRAM + 1) * model.totalLayers
  {
    var rpl, m := RamPerLayer(model), model.totalLayers;
    WholeBytes(model.totalRAM, m);
    assert n in order <==> n in multiset(order);
    assert n in nodes <==> n in multiset(nodes);
    hide RamPerLayer, Sorted;
    if n.freeRAM >= rpl {
      Grows(rpl + 1, n.freeRAM + 1, m);
    } else {
      Grows(n.freeRAM + 1, rpl, m);
    }
  }

  /** The coordinator has a GPU if any eligible node has, and the most free RAM among those like it in that. */
  lemma CoordinatorIsBest(model: ModelInfo, nodes: seq<NodeInfo>, order: seq<NodeInfo>, i: nat)
    requires model.totalLayers > 0 && EligibleOrder(model, nodes, order) && i < |order|
    ensures order[i].hasGPU ==> order[0].hasGPU
    ensures order[i].hasGPU == order[0].hasGPU ==> order[i].freeRAM <= order[0].freeRAM
  {
    assert i > 0 ==> !Before(order[i], order[0]);
  }
}
