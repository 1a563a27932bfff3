/** The proportional fallback and the planner's entry point. */
module ShardStatic {
  import opened Wrappers
  import opened ShardModel
  import opened ShardSearch
  import opened ShardPlanner

  function Sum(s: seq<int>): int {
    if s == [] then 0 else Sum(s[..|s| - 1]) + s[|s| - 1]
  }

  /** Node i's proportional share of the layers, rounded down. */
  function Share(model: ModelInfo, effectiveRAM: int, totalEffective: int): int
    requires totalEffective > 0
  {
    effectiveRAM * model.totalLayers / totalEffective
  }

  /** The layers a shard really covers. */
  function Covers(s: Shard): int {
    s.layerEnd - s.layerStart + 1
  }

  lemma ShareBounds(model: ModelInfo, eff: int, total: int)
    requires model.totalLayers > 0 && eff >= 0 && total > 0
    ensures 0 <= Share(model, eff, total)
    ensures Share(model, eff, total) * total <= eff * model.totalLayers
    ensures eff * model.totalLayers < (Share(model, eff, total) + 1) * total
  {
    assert eff * model.totalLayers >= 0;
  }

  lemma LayersWithin(model: ModelInfo)
    requires model.totalLayers > 0 && model.totalRAM >= 0
    ensures 0 <= RamPerLayer(model) && RamPerLayer(model) * model.totalLayers <= model.totalRAM
  {
  }

  /** k layers of a model that takes at most total fit in eff, if k is at most eff's part of all layers. */
  lemma PartFits(k: nat, rpl: int, layers: int, total: int, eff: int)
    requires layers > 0 && rpl * layers <= total && k * total <= eff * layers
    ensures k * rpl <= eff
  {
    ScaleInt(rpl * layers, total, k);
    assert k * rpl * layers == rpl * layers * k;
    CancelFactor(k * rpl, eff, layers);
  }

  /** A share never takes more RAM than the node has. */
  lemma ShareFits(model: ModelInfo, eff: int, total: int)
    requires model.totalLayers > 0 && model.totalRAM >= 0 && eff >= 0 && total >= model.totalRAM && total > 0
    ensures Share(model, eff, total) * RamPerLayer(model) <= eff
  {
    ShareBounds(model, eff, total);
    LayersWithin(model);
    hide Share, RamPerLayer;
    PartFits(Share(model, eff, total), RamPerLayer(model), model.totalLayers, total, eff);
  }

  lemma CancelFactor(a: int, b: int, m: int)
    requires m > 0
    ensures a * m <= b * m ==> a <= b
  {
    if a > b {
      assert (a - b) * m > 0;
    }
  }

  /** A node whose RAM is below one layer has a share of zero layers. */
  lemma SmallShare(model: ModelInfo, eff: int, total: int)
    requires model.totalLayers > 0 && total >= model.totalRAM && total > 0
    requires 0 <= eff < RamPerLayer(model)
    ensures Share(model, eff, total) == 0
  {
    ShareBounds(model, eff, total);
    if model.totalRAM >= 0 {
      LayersWithin(model);
    }
    hide Share, RamPerLayer;
    assert RamPerLayer(model) * model.totalLayers <= total;
    NoWholeShare(Share(model, eff, total), eff, RamPerLayer(model), model.totalLayers, total);
  }

  lemma NoWholeShare(k: nat, eff: int, rpl: int, M: int, total: int)
    requires M > 0 && eff < rpl && rpl * M <= total && k * total <= eff * M && total > 0
    ensures k == 0
  {
    assert eff * M <= (rpl - 1) * M == rpl * M - M;
    assert k > 0 ==> k * total >= total;
  }

  /** What is left for the last node exceeds its own share by less than one layer per earlier node. */
  lemma RemainderFits(model: ModelInfo, n: nat, cursor: int, eff: int, total: int)
    requires model.totalLayers > 0 && model.totalRAM >= 0 && total >= model.totalRAM && total > 0 && eff >= 0
    requires total * (cursor + n) >= model.totalLayers * (total - eff)
    ensures (model.totalLayers - cursor) * RamPerLayer(model) <= eff + n * RamPerLayer(model)
  {
    LayersWithin(model);
    hide RamPerLayer;
    var M, rpl := model.totalLayers, RamPerLayer(model);
    var extra := M - cursor - n;
    ExtraLayers(total, cursor + n, M, eff);
    if extra <= 0 {
      ScaleInt(extra, 0, rpl);
    } else {
      PartFits(extra, rpl, M, total, eff);
    }
    Distribute(extra, n, rpl);
  }

  lemma ExtraLayers(total: int, placed: int, layers: int, eff: int)
    requires total * placed >= layers * (total - eff)
    ensures (layers - placed) * total <= eff * layers
  {
    assert (layers - placed) * total == layers * total - total * placed;
    assert layers * (total - eff) == layers * total - eff * layers;
  }

  /** The layers a node asks for: its share, but at least one. */
  function Want(model: ModelInfo, eff: int, total: int): int
    requires total > 0
  {
    var share := Share(model, eff, total);
    if share < 1 then 1 else share
  }

  /** Shard i sits on node i, is the share of that node (but at least one layer), or what was left of the layers. */
  ghost predicate ShardFor(model: ModelInfo, nodes: seq<NodeInfo>, eff: seq<int>, total: int, s: Shard, i: nat)
    requires model.totalLayers > 0 && total > 0 && i < |nodes| == |eff|
  {
    var want := Want(model, eff[i], total);
    && s.nodeID == nodes[i].id && s.nodeName == nodes[i].name
    && s.layerStart <= s.layerEnd
    && (i < |nodes| - 1 ==> s.assignedRAM == want * RamPerLayer(model))
    && (i < |nodes| - 1 ==>
         Covers(s) == if s.layerStart + want > model.totalLayers then model.totalLayers - s.layerStart else want)
    && (i == |nodes| - 1 ==> s.assignedRAM == Covers(s) * RamPerLayer(model))
  }

  /** A layer's RAM times the number of layers a shard covers. */
  function CoveredRAM(model: ModelInfo, s: Shard): int
    requires model.totalLayers > 0
  {
    Covers(s) * RamPerLayer(model)
  }

  lemma ShardFits(model: ModelInfo, nodes: seq<NodeInfo>, eff: seq<int>, total: int, s: Shard, i: nat)
    requires model.totalLayers > 0 && model.totalRAM >= 0 && total > 0 && i < |nodes| == |eff| && eff[i] >= 0 &&
               total >= model.totalRAM
    requires ShardFor(model, nodes, eff, total, s, i) && i < |nodes| - 1 && Share(model, eff[i], total) >= 1
    ensures CoveredRAM(model, s) <= eff[i]
  {
    ShareFits(model, eff[i], total);
    ScaleInt(Covers(s), Share(model, eff[i], total), RamPerLayer(model));
  }

  lemma ScaleInt(a: int, b: int, m: int)
    requires a <= b && m >= 0
    ensures a * m <= b * m
  {
  }

  /** The cursor after i nodes is no more than i layers behind their exact proportion. */
  predicate KeepsUp(total: int, M: int, cursor: int, i: nat, before: int) {
    total * (cursor + i) >= M * before
  }

  lemma CursorKeepsUp(total: int, M: int, cursor: int, i: nat, before: int, layers: int, eff: int)
    requires KeepsUp(total, M, cursor, i, before) && eff * M < (layers + 1) * total
    ensures KeepsUp(total, M, cursor + layers, i + 1, before + eff)
  {
    assert total * (cursor + layers + (i + 1)) == total * (cursor + i) + (layers + 1) * total;
    assert M * (before + eff) == M * before + eff * M;
  }

  /** At least one layer, and more than the node's exact proportion less one. */
  lemma AtLeastShare(model: ModelInfo, eff: int, total: int, layers: int)
    requires model.totalLayers > 0 && eff >= 0 && total > 0
    requires layers >= Share(model, eff, total)
    ensures eff * model.totalLayers < (layers + 1) * total
  {
    ShareBounds(model, eff, total);
    ScaleInt(Share(model, eff, total) + 1, layers + 1, total);
  }

  lemma LastFits(model: ModelInfo, eff: seq<int>, total: int, cursor: int, s: Shard)
    requires model.totalLayers > 0 && model.totalRAM >= 0 && total == Sum(eff) && total >= model.totalRAM && total > 0
    requires eff != [] && eff[|eff| - 1] >= 0 && s.layerStart == cursor && s.layerEnd == model.totalLayers - 1
    requires KeepsUp(total, model.totalLayers, cursor, |eff| - 1, Sum(eff[..|eff| - 1]))
    ensures CoveredRAM(model, s) <= eff[|eff| - 1] + (|eff| - 1) * RamPerLayer(model)
  {
    RemainderFits(model, |eff| - 1, cursor, eff[|eff| - 1], total);
  }

  lemma SumNext(eff: seq<int>, i: nat)
    requires i < |eff|
    ensures Sum(eff[..i + 1]) == Sum(eff[..i]) + eff[i]
  {
    assert eff[..i + 1][..i] == eff[..i];
  }

  method AssignLayers(model: ModelInfo, nodes: seq<NodeInfo>, eff: seq<int>, total: int) returns (shards: seq<Shard>)
    requires model.totalLayers > 0 && model.totalRAM > 0
    requires |nodes| > 0 && |eff| == |nodes|
    requires (forall i :: 0 <= i < |eff| ==> eff[i] >= 0) && total == Sum(eff) && total >= model.totalRAM
    ensures |shards| <= |nodes| && Partition(shards, model.totalLayers)
    ensures forall i :: 0 <= i < |shards| ==> ShardFor(model, nodes, eff, total, shards[i], i)
    ensures forall i :: 0 <= i < |shards| && i < |nodes| - 1 && Share(model, eff[i], total) >= 1 ==>
              CoveredRAM(model, shards[i]) <= eff[i]
    ensures |shards| == |nodes| ==>
              CoveredRAM(model, shards[|nodes| - 1]) <= eff[|nodes| - 1] + (|nodes| - 1) * RamPerLayer(model)
  {
    hide CoveredRAM, KeepsUp, Share, RamPerLayer, Sum, Partition;
    var M := model.totalLayers;
    shards := [];
    var layerCursor := 0;
    assert KeepsUp(total, M, 0, 0, Sum(eff[..0])) by { StartKeepsUp(total, M, eff); }
    for i := 0 to |nodes|
      invariant |shards| == i && 0 <= layerCursor < M
      invariant if i == 0 then layerCursor == 0 else Partition(shards, layerCursor)
      invariant forall k :: 0 <= k < i ==> ShardFor(model, nodes, eff, total, shards[k], k)
      invariant forall k :: 0 <= k < i && k < |nodes| - 1 && Share(model, eff[k], total) >= 1 ==>
                  CoveredRAM(model, shards[k]) <= eff[k]
      invariant KeepsUp(total, M, layerCursor, i, Sum(eff[..i]))
      invariant i < |nodes|
    {
      var nodeLayers;
      if i == |nodes| - 1 {
        nodeLayers := M - layerCursor;
      } else {
        nodeLayers := Share(model, eff[i], total);
        if nodeLayers < 1 {
          nodeLayers := 1;
        }
        AtLeastShare(model, eff[i], total, nodeLayers);
        CursorKeepsUp(total, M, layerCursor, i, Sum(eff[..i]), nodeLayers, eff[i]);
        SumNext(eff, i);
      }
      var end := layerCursor + nodeLayers - 1;
      if end >= M {
        end := M - 1;
      }
      var s := Shard(nodes[i].id, nodes[i].name, layerCursor, end, nodeLayers * RamPerLayer(model));
      assert ShardFor(model, nodes, eff, total, s, i);
      ExtendPartition(shards, layerCursor, s);
      if i < |nodes| - 1 && Share(model, eff[i], total) >= 1 {
        ShardFits(model, nodes, eff, total, s, i);
      }
      if i == |nodes| - 1 {
        LastFits(model, eff, total, layerCursor, s);
      }
      shards := shards + [s];
      layerCursor := end + 1;
      if layerCursor >= M {
        break;
      }
    }
  }

  lemma ExtendPartition(shards: seq<Shard>, cursor: int, s: Shard)
    requires if shards == [] then cursor == 0 else Partition(shards, cursor)
    requires s.layerStart == cursor <= s.layerEnd
    ensures Partition(shards + [s], s.layerEnd + 1)
  {
  }

  lemma StartKeepsUp(total: int, M: int, eff: seq<int>)
    ensures KeepsUp(total, M, 0, 0, Sum(eff[..0]))
  {
  }

  // ---------- What the fallback guarantees ----------

  /** The coordinator's free RAM less its reserve (never negative); every other node's free RAM. */
  function EffectiveRAM(model: ModelInfo, order: seq<NodeInfo>, i: nat): int
    requires i < |order|
  {
    if i > 0 then order[i].freeRAM
    else if order[0].freeRAM < CoordinatorReserve(model) then 0
    else order[0].freeRAM - CoordinatorReserve(model)
  }

  /** What fits the effective RAM is what fits the free RAM, on the coordinator beside its reserve. */
  lemma EffectiveRAMIsRoom(model: ModelInfo, order: seq<NodeInfo>, i: nat, bytes: int)
    requires i < |order| && bytes > 0
    ensures bytes <= EffectiveRAM(model, order, i) <==>
              bytes + (if i == 0 then CoordinatorReserve(model) else 0) <= order[i].freeRAM
  {
    hide CoordinatorReserve;
  }

  ghost predicate IsEffective(model: ModelInfo, order: seq<NodeInfo>, eff: seq<int>) {
    |eff| == |order| && forall i :: 0 <= i < |order| ==> eff[i] == EffectiveRAM(model, order, i)
  }

  /** The fallback's answer on an eligible order. */
  ghost predicate StaticPlan(model: ModelInfo, order: seq<NodeInfo>, eff: seq<int>, shards: seq<Shard>)
    requires model.totalLayers > 0
  {
    && model.totalRAM > 0 && 0 < |shards| <= |order| && IsEffective(model, order, eff) && Sum(eff) >= model.totalRAM
    && (forall i :: 0 <= i < |order| ==> order[i].freeRAM >= RamPerLayer(model))
    && Partition(shards, model.totalLayers)
    && (forall i :: 0 <= i < |shards| ==> ShardFor(model, order, eff, Sum(eff), shards[i], i))
  }

  /**
    Every shard but the last node's fits its effective RAM exactly when the coordinator, unless it is alone, has room
    for one layer besides its reserve.
   */
  lemma StaticFitsExactly(model: ModelInfo, order: seq<NodeInfo>, eff: seq<int>, shards: seq<Shard>)
    requires model.totalLayers > 0 && StaticPlan(model, order, eff, shards)
    ensures (forall i :: 0 <= i < |shards| && i < |order| - 1 ==> CoveredRAM(model, shards[i]) <= eff[i])
              <==> (|order| == 1 || RamPerLayer(model) <= eff[0])
  {
    var rpl := RamPerLayer(model);
    forall i | 0 <= i < |shards| && i < |order| - 1
      ensures eff[i] >= rpl ==> CoveredRAM(model, shards[i]) <= eff[i]
    {
      ShardWithinShare(model, order, eff, shards[i], i);
    }
    if |order| > 1 && eff[0] < rpl {
      assert ShardFor(model, order, eff, Sum(eff), shards[0], 0);
      SmallShare(model, eff[0], Sum(eff));
      assert CoveredRAM(model, shards[0]) == rpl;
    }
  }

  lemma ShardWithinShare(model: ModelInfo, order: seq<NodeInfo>, eff: seq<int>, s: Shard, i: nat)
    requires model.totalLayers > 0 && model.totalRAM > 0 && i < |order| - 1 && IsEffective(model, order, eff)
    requires Sum(eff) >= model.totalRAM && order[i].freeRAM >= RamPerLayer(model) &&
               ShardFor(model, order, eff, Sum(eff), s, i)
    ensures eff[i] >= RamPerLayer(model) ==> CoveredRAM(model, s) <= eff[i]
  {
    hide RamPerLayer, CoordinatorReserve, Sum, Share;
    assert RamPerLayer(model) >= 0 by { PositiveLayer(model); }
    assert eff[i] >= 0;
    if Share(model, eff[i], Sum(eff)) >= 1 {
      ShardFits(model, order, eff, Sum(eff), s, i);
    } else {
      ScaleInt(Covers(s), 1, RamPerLayer(model));
    }
  }

  lemma PositiveLayer(model: ModelInfo)
    requires model.totalLayers > 0 && model.totalRAM >= 0
    ensures RamPerLayer(model) >= 0
  {
  }

  /** The layers the first j nodes ask for together. */
  function WantedBefore(model: ModelInfo, eff: seq<int>, total: int, j: nat): int
    requires total > 0 && j <= |eff|
  {
    if j == 0 then 0 else WantedBefore(model, eff, total, j - 1) + Want(model, eff[j - 1], total)
  }

  /** Some node before the last asks for more layers than those before it leave. */
  ghost predicate CutShort(model: ModelInfo, eff: seq<int>)
    requires Sum(eff) > 0
  {
    exists j :: 0 <= j < |eff| - 1 && CutAt(model, eff, j)
  }

  ghost predicate CutAt(model: ModelInfo, eff: seq<int>, j: nat)
    requires Sum(eff) > 0 && j < |eff|
  {
    WantedBefore(model, eff, Sum(eff), j) < model.totalLayers < WantedBefore(model, eff, Sum(eff), j + 1)
  }

  lemma {:induction false} WantedGrows(model: ModelInfo, eff: seq<int>, total: int, i: nat, j: nat)
    requires total > 0 && i <= j <= |eff|
    ensures WantedBefore(model, eff, total, i) <= WantedBefore(model, eff, total, j)
  {
    if i < j {
      WantedGrows(model, eff, total, i, j - 1);
    }
  }

  /** A shard starts after the layers that the nodes before it ask for. */
  lemma {:induction false} StartsAfterWanted(model: ModelInfo, order: seq<NodeInfo>, eff: seq<int>, shards: seq<Shard>,
                                             j: nat)
    requires model.totalLayers > 0 && StaticPlan(model, order, eff, shards) && j < |shards|
    ensures shards[j].layerStart == WantedBefore(model, eff, Sum(eff), j) < model.totalLayers
  {
    EndsInOrder(shards, model.totalLayers, j);
    if j == 0 {
      StartsAtZero(model, order, eff, shards);
    } else {
      StartsAfterWanted(model, order, eff, shards, j - 1);
      FollowedShardIsWhole(model, order, eff, shards, j - 1);
      assert ShardFor(model, order, eff, Sum(eff), shards[j - 1], j - 1);
      hide Share, Sum, Partition, RamPerLayer;
      assert Covers(shards[j - 1]) == Want(model, eff[j - 1], Sum(eff));
    }
  }

  /** The final shard is cut short exactly when its node asks for more than is left, and no other node can. */
  lemma CutAtFinal(model: ModelInfo, order: seq<NodeInfo>, eff: seq<int>, shards: seq<Shard>)
    requires model.totalLayers > 0 && StaticPlan(model, order, eff, shards)
    ensures CutShort(model, eff) <==>
              |shards| < |order| &&
              shards[|shards| - 1].layerStart + Want(model, eff[|shards| - 1], Sum(eff)) > model.totalLayers
  {
    var last := |shards| - 1;
    StartsAfterWanted(model, order, eff, shards, last);
    assert ShardFor(model, order, eff, Sum(eff), shards[last], last);
    assert Covers(shards[last]) == model.totalLayers - shards[last].layerStart;
    hide Share, Sum, Want, Partition, ShardFor;
    if last < |order| - 1 && WantedBefore(model, eff, Sum(eff), last + 1) > model.totalLayers {
      assert CutAt(model, eff, last);
    }
    forall j | 0 <= j < |eff| - 1 && CutAt(model, eff, j) ensures j == last {
      if j < last {
        WantedGrows(model, eff, Sum(eff), j + 1, last);
      } else if j > last {
        WantedGrows(model, eff, Sum(eff), last + 1, j);
      }
    }
  }

  lemma {:induction false} AssignedBefore(model: ModelInfo, order: seq<NodeInfo>, eff: seq<int>, shards: seq<Shard>,
                                          j: nat)
    requires model.totalLayers > 0 && StaticPlan(model, order, eff, shards) && j < |shards|
    ensures TotalAssigned(shards[..j]) == shards[j].layerStart * RamPerLayer(model)
  {
    hide StaticPlan, RamPerLayer, Partition;
    if j == 0 {
      StartsAtZero(model, order, eff, shards);
    } else {
      AssignedBefore(model, order, eff, shards, j - 1);
      assert shards[..j][..j - 1] == shards[..j - 1];
      FollowedShardIsWhole(model, order, eff, shards, j - 1);
      Distribute(shards[j - 1].layerStart, Covers(shards[j - 1]), RamPerLayer(model));
    }
  }

  lemma StartsAtZero(model: ModelInfo, order: seq<NodeInfo>, eff: seq<int>, shards: seq<Shard>)
    requires model.totalLayers > 0 && StaticPlan(model, order, eff, shards)
    ensures shards[0].layerStart == 0
  {
  }

  lemma Distribute(a: int, b: int, m: int)
    ensures (a + b) * m == a * m + b * m
  {
  }

  lemma FollowedShardIsWhole(model: ModelInfo, order: seq<NodeInfo>, eff: seq<int>, shards: seq<Shard>, j: nat)
    requires model.totalLayers > 0 && StaticPlan(model, order, eff, shards) && j + 1 < |shards|
    ensures shards[j].assignedRAM == Covers(shards[j]) * RamPerLayer(model)
    ensures shards[j + 1].layerStart == shards[j].layerStart + Covers(shards[j])
  {
    assert ShardFor(model, order, eff, Sum(eff), shards[j], j);
    assert shards[j + 1].layerStart == shards[j].layerEnd + 1;
    EndsInOrder(shards, model.totalLayers, j + 1);
  }

  lemma {:induction false} EndsInOrder(shards: seq<Shard>, l: int, j: nat)
    requires Partition(shards, l) && j < |shards|
    ensures shards[j].layerEnd <= l - 1
    decreases |shards| - j
  {
    if j + 1 < |shards| {
      EndsInOrder(shards, l, j + 1);
      assert shards[j + 1].layerStart == shards[j].layerEnd + 1;
    }
  }

  /**
    The recorded RAM adds up to that of all layers exactly when layers are free or no share runs past the last layer.
   */
  lemma StaticAssignsExactly(model: ModelInfo, order: seq<NodeInfo>, eff: seq<int>, shards: seq<Shard>)
    requires model.totalLayers > 0 && StaticPlan(model, order, eff, shards)
    ensures (TotalAssigned(shards) == model.totalLayers * RamPerLayer(model))
              <==> (RamPerLayer(model) == 0 || !CutShort(model, eff))
  {
    hide RamPerLayer, Partition, CutShort;
    var last, rpl := |shards| - 1, RamPerLayer(model);
    var s := shards[last];
    AssignedBefore(model, order, eff, shards, last);
    FinalShard(model, order, eff, shards);
    Distribute(s.layerStart, Covers(s), rpl);
  }

  lemma FinalShard(model: ModelInfo, order: seq<NodeInfo>, eff: seq<int>, shards: seq<Shard>)
    requires model.totalLayers > 0 && StaticPlan(model, order, eff, shards)
    ensures var s := shards[|shards| - 1];
            && s.layerStart + Covers(s) == model.totalLayers
            && (s.assignedRAM == Covers(s) * RamPerLayer(model) <==> RamPerLayer(model) == 0 || !CutShort(model, eff))
  {
    hide Share, RamPerLayer, Sum, CutShort, Want;
    var last, rpl := |shards| - 1, RamPerLayer(model);
    var s := shards[last];
    assert ShardFor(model, order, eff, Sum(eff), s, last);
    CutAtFinal(model, order, eff, shards);
    SameProduct(Want(model, eff[last], Sum(eff)), Covers(s), rpl);
  }

  lemma SameProduct(a: int, b: int, m: int)
    ensures (a * m == b * m) <==> (a == b || m == 0)
  {
    if a * m == b * m {
      assert (a - b) * m == 0;
    }
  }

  // ---------- Inputs on which the fallback falls short ----------

  lemma ExampleWants(model: ModelInfo)
    requires model.totalLayers == 10
    ensures Want(model, 0, 102) == 1 && Want(model, 1, 102) == 1 && Want(model, 100, 102) == 9
  {
    Quotient(0 * model.totalLayers, 102, 0);
    Quotient(1 * model.totalLayers, 102, 0);
    Quotient(100 * model.totalLayers, 102, 9);
  }

  lemma Quotient(x: int, d: int, q: int)
    requires d > 0 && q * d <= x < (q + 1) * d
    ensures x / d == q
  {
    var r := x / d;
    assert x == r * d + x % d;
    if r < q {
      ScaleInt(r + 1, q, d);
    } else if r > q {
      ScaleInt(q + 1, r, d);
    }
  }

  lemma ExampleSum(eff: seq<int>)
    requires eff == [0, 1, 100, 1]
    ensures Sum(eff) == 102
  {
    SumNext(eff, 0);
    SumNext(eff, 1);
    SumNext(eff, 2);
    SumNext(eff, 3);
    assert eff[..4] == eff;
  }

  lemma ExampleCut(model: ModelInfo, eff: seq<int>)
    requires model.totalLayers == 10 && eff == [0, 1, 100, 1] && Sum(eff) == 102
    ensures CutShort(model, eff)
  {
    ExampleWants(model);
    hide Want, Sum;
    assert WantedBefore(model, eff, 102, 0) == 0;
    assert WantedBefore(model, eff, 102, 1) == WantedBefore(model, eff, 102, 0) + Want(model, eff[0], 102);
    assert WantedBefore(model, eff, 102, 2) == WantedBefore(model, eff, 102, 1) + Want(model, eff[1], 102);
    assert WantedBefore(model, eff, 102, 3) == WantedBefore(model, eff, 102, 2) + Want(model, eff[2], 102);
    assert CutAt(model, eff, 2);
  }

  lemma ExampleAssigned(shards: seq<Shard>)
    requires |shards| == 3 && shards[0].assignedRAM == 1 && shards[1].assignedRAM == 1 && shards[2].assignedRAM == 9
    ensures TotalAssigned(shards) == 11
  {
    assert shards[..2] == [shards[0], shards[1]] && shards[..2][..1] == [shards[0]];
    assert TotalAssigned(shards[..2][..1]) == 1;
  }

  lemma ExampleShards(model: ModelInfo, order: seq<NodeInfo>, eff: seq<int>, total: int, shards: seq<Shard>)
    requires model.totalLayers == 10 && RamPerLayer(model) == 1 && eff == [0, 1, 100, 1] && total == 102
    requires |order| == 4 && |shards| == 3
    requires forall i :: 0 <= i < 3 ==> shards[i].nodeID == order[i].id && shards[i].nodeName == order[i].name
    requires shards[0].layerStart == shards[0].layerEnd == 0 && shards[0].assignedRAM == 1
    requires shards[1].layerStart == shards[1].layerEnd == 1 && shards[1].assignedRAM == 1
    requires shards[2].layerStart == 2 && shards[2].layerEnd == 9 && shards[2].assignedRAM == 9
    ensures Partition(shards, 10) && forall i :: 0 <= i < 3 ==> ShardFor(model, order, eff, total, shards[i], i)
  {
    ExampleWants(model);
    hide Want, RamPerLayer;
  }

  lemma ExampleModel(model: ModelInfo)
    requires model == ModelInfo("m", 10, 10, 0)
    ensures RamPerLayer(model) == 1 && CoordinatorReserve(model) == RESERVED_SYSTEM_RAM
  {
  }

  lemma ExampleEffective(model: ModelInfo, order: seq<NodeInfo>, eff: seq<int>)
    requires CoordinatorReserve(model) == RESERVED_SYSTEM_RAM && eff == [0, 1, 100, 1] && |order| == 4
    requires order[0].freeRAM == 1 && order[1].freeRAM == 1 && order[2].freeRAM == 100 && order[3].freeRAM == 1
    ensures IsEffective(model, order, eff)
  {
    hide CoordinatorReserve;
  }

  /**
    Ten layers of one byte: the third node's share of nine layers runs past the last layer, and eleven bytes are
    recorded.
   */
  lemma StaticOverRecords(model: ModelInfo, order: seq<NodeInfo>, eff: seq<int>, shards: seq<Shard>)
    requires model == ModelInfo("m", 10, 10, 0) && eff == [0, 1, 100, 1]
    requires order == [NodeInfo("a", "a", 1, true), NodeInfo("b", "b", 1, true),
                       NodeInfo("c", "c", 100, false), NodeInfo("d", "d", 1, false)]
    requires shards == [Shard("a", "a", 0, 0, 1), Shard("b", "b", 1, 1, 1), Shard("c", "c", 2, 9, 9)]
    ensures Sorted(order) && StaticPlan(model, order, eff, shards) && CutShort(model, eff)
    ensures TotalAssigned(shards) == 11
  {
    hide ShardFor, Sum, CutShort, TotalAssigned, RamPerLayer, CoordinatorReserve, Partition, IsEffective;
    ExampleSum(eff);
    ExampleCut(model, eff);
    ExampleAssigned(shards);
    ExampleModel(model);
    ExampleShards(model, order, eff, 102, shards);
    ExampleEffective(model, order, eff);
  }

  /** Three layers of ten bytes: the coordinator has room for one layer but not beside its reserve, and gets one. */
  lemma StaticOverfills(model: ModelInfo, order: seq<NodeInfo>, eff: seq<int>, shards: seq<Shard>)
    requires model == ModelInfo("m", 3, 30, 0) && eff == [0, 15, 15]
    requires order == [NodeInfo("a", "a", 10, true), NodeInfo("b", "b", 15, false), NodeInfo("c", "c", 15, false)]
    requires shards == [Shard("a", "a", 0, 0, 10), Shard("b", "b", 1, 1, 10), Shard("c", "c", 2, 2, 10)]
    ensures Sorted(order) && StaticPlan(model, order, eff, shards)
    ensures CoveredRAM(model, shards[0]) > eff[0]
  {
    assert eff[..2] == [0, 15] && eff[..2][..1] == [0];
    assert Sum([0, 15]) == 15 && Sum(eff[..2]) == 15;
    assert Sum(eff) == Sum(eff[..2]) + eff[2];
    assert Want(model, 0, 30) == 1 && Want(model, 15, 30) == 1;
    assert RamPerLayer(model) == 10;
  }

  method EffectiveRAMs(model: ModelInfo, order: seq<NodeInfo>) returns (eff: seq<int>, total: int)
    ensures IsEffective(model, order, eff) && total == Sum(eff)
  {
    eff, total := [], 0;
    for i := 0 to |order|
      invariant |eff| == i && total == Sum(eff)
      invariant forall k :: 0 <= k < i ==> eff[k] == EffectiveRAM(model, order, k)
    {
      var e := EffectiveRAM(model, order, i);
      assert (eff + [e])[..i] == eff;
      eff, total := eff + [e], total + e;
    }
  }

  /** The fallback's answer: the split of some eligible order, or too little RAM for it. */
  ghost predicate StaticAnswer(model: ModelInfo, nodes: seq<NodeInfo>, r: Result<ShardPlan, PlanError>)
    requires model.totalLayers > 0
  {
    exists order, eff ::
      EligibleOrder(model, nodes, order) && IsEffective(model, order, eff) && StaticOutcome(model, order, eff, r)
  }

  ghost predicate StaticOutcome(model: ModelInfo, order: seq<NodeInfo>, eff: seq<int>, r: Result<ShardPlan, PlanError>)
    requires model.totalLayers > 0
  {
    if order == [] || Sum(eff) < model.totalRAM then r == Failure(InsufficientRAM)
    else r.Success? && r.value.coordinator == order[0].id && StaticPlan(model, order, eff, r.value.shards)
  }

  /** The free RAM of all nodes. */
  ghost function TotalFree(order: seq<NodeInfo>): int {
    if order == [] then 0 else TotalFree(order[..|order| - 1]) + order[|order| - 1].freeRAM
  }

  lemma {:induction false} EffectiveTotal(model: ModelInfo, order: seq<NodeInfo>, eff: seq<int>)
    requires order != [] && IsEffective(model, order, eff)
    ensures Sum(eff) == TotalFree(order) -
              if order[0].freeRAM < CoordinatorReserve(model) then order[0].freeRAM else CoordinatorReserve(model)
  {
    hide CoordinatorReserve;
    var n := |order| - 1;
    if n > 0 {
      EffectiveTotal(model, order[..n], eff[..n]);
    } else {
      assert order[..0] == [] && eff[..0] == [];
      assert TotalFree(order[..0]) == 0 && Sum(eff[..0]) == 0;
    }
  }

  /**
    The fallback refuses exactly when no node is eligible or free RAM beside the coordinator's reserve is below the
    model's.
   */
  lemma StaticRefusesExactly(model: ModelInfo, order: seq<NodeInfo>, eff: seq<int>, r: Result<ShardPlan, PlanError>)
    requires model.totalLayers > 0 && IsEffective(model, order, eff) && StaticOutcome(model, order, eff, r)
    ensures r == Failure(InsufficientRAM) <==>
              || order == []
              || TotalFree(order) < model.totalRAM +
                 (if order[0].freeRAM < CoordinatorReserve(model) then order[0].freeRAM else CoordinatorReserve(model))
    ensures r.Success? ==> r.value.coordinator == order[0].id
  {
    if order != [] {
      EffectiveTotal(model, order, eff);
    }
    hide CoordinatorReserve, StaticPlan, Sum;
  }

  /** The fallback: a proportional split exactly when some node is eligible and the effective RAM covers the model. */
  method PlanStatic(model: ModelInfo, nodes: seq<NodeInfo>) returns (r: Result<ShardPlan, PlanError>)
    requires model.totalLayers > 0 && model.totalRAM > 0
    ensures StaticAnswer(model, nodes, r)
  {
    var order := FilterEligible(model, nodes);
    var eff, total := EffectiveRAMs(model, order);
    if |order| == 0 || total < model.totalRAM {
      r := Failure(InsufficientRAM);
      assert StaticOutcome(model, order, eff, r);
      return;
    }
    forall i | 0 <= i < |order| ensures order[i].freeRAM >= RamPerLayer(model) >= 0 {
      assert order[i] in multiset(order);
      PositiveLayer(model);
    }
    var shards := AssignLayers(model, order, eff, total);
    assert StaticPlan(model, order, eff, shards) by {
      hide EligibleOrder, ShardFor, IsEffective;
    }
    r := Success(ShardPlan(order[0].id, shards));
    assert StaticOutcome(model, order, eff, r) by {
      hide StaticPlan, IsEffective;
    }
  }

  // ---------- When the fallback cannot help ----------

  /** Nothing can be placed on these eligible nodes, whatever is measured about them. */
  ghost predicate Unplaceable(model: ModelInfo, order: seq<NodeInfo>)
    requires model.totalLayers > 0
  {
    forall p: Problem, c :: p.Valid() && p.model == model && p.nodes == order ==> !Feasible(p, c)
  }

  ghost function ChainOf(shards: seq<Shard>): (c: Chain)
    requires forall i :: 0 <= i < |shards| ==> 0 <= shards[i].layerStart <= shards[i].layerEnd
    ensures |c| == |shards|
    ensures forall i :: 0 <= i < |c| ==> c[i] == Run(i, shards[i].layerStart, shards[i].layerEnd)
  {
    seq(|shards|, i requires 0 <= i < |shards| => Run(i, shards[i].layerStart, shards[i].layerEnd))
  }

  lemma {:induction false} StartsNotNegative(shards: seq<Shard>, l: int, i: nat)
    requires Partition(shards, l) && i < |shards|
    ensures 0 <= shards[i].layerStart <= shards[i].layerEnd
  {
    if i > 0 {
      StartsNotNegative(shards, l, i - 1);
      assert shards[i].layerStart == shards[i - 1].layerEnd + 1;
    }
  }

  /** A fallback shard within its node's effective RAM is a run that fits. */
  lemma FittingShardIsRun(p: Problem, eff: seq<int>, s: Shard, i: nat)
    requires p.Valid() && i < |p.nodes| && IsEffective(p.model, p.nodes, eff) && DistinctIDs(p.nodes)
    requires RamPerLayer(p.model) > 0 && 0 <= s.layerStart <= s.layerEnd && CoveredRAM(p.model, s) <= eff[i]
    ensures RunOk(p, Run(i, s.layerStart, s.layerEnd))
  {
    hide RamPerLayer, CoordinatorReserve;
    var r := Run(i, s.layerStart, s.layerEnd);
    assert Layers(r) == Covers(s) >= 1;
    assert (p.nodes[i].id == p.Coordinator()) == (i == 0);
    if i == 0 {
      ScaleInt(1, Covers(s), RamPerLayer(p.model));
    }
  }

  /** A fallback plan that fits everywhere is a chain the dynamic planner could have found. */
  lemma FittingPlanIsChain(p: Problem, eff: seq<int>, shards: seq<Shard>)
    requires p.Valid() && DistinctIDs(p.nodes) && RamPerLayer(p.model) > 0
    requires StaticPlan(p.model, p.nodes, eff, shards)
    requires forall i :: 0 <= i < |shards| ==> CoveredRAM(p.model, shards[i]) <= eff[i]
    ensures exists c :: Feasible(p, c)
  {
    hide RamPerLayer, ShardFor, Sum, CoveredRAM;
    forall i | 0 <= i < |shards| ensures 0 <= shards[i].layerStart <= shards[i].layerEnd {
      StartsNotNegative(shards, p.model.totalLayers, i);
    }
    var c := ChainOf(shards);
    forall i | 0 <= i < |c| ensures RunOk(p, c[i]) {
      FittingShardIsRun(p, eff, shards[i], i);
    }
    hide RunOk;
    assert IsChain(p, c, p.model.totalLayers);
    assert Feasible(p, c);
  }

  /**
    With at most ten eligible nodes of distinct ids and nothing to place on them, every plan of the fallback gives some
    node more than its effective RAM.
   */
  lemma FallbackOverfills(model: ModelInfo, order: seq<NodeInfo>, eff: seq<int>, shards: seq<Shard>)
    requires model.totalLayers > 0 && RamPerLayer(model) > 0
    requires |order| <= MAX_NODES && DistinctIDs(order) && Unplaceable(model, order)
    requires StaticPlan(model, order, eff, shards)
    ensures exists i :: 0 <= i < |shards| && CoveredRAM(model, shards[i]) > eff[i]
  {
    hide StaticPlan, Feasible, RamPerLayer;
    var p := Problem(model, order, map[], map[], seq(|order|, i => 0.0));
    SomeNode(model, order, eff, shards);
    if forall i :: 0 <= i < |shards| ==> CoveredRAM(model, shards[i]) <= eff[i] {
      FittingPlanIsChain(p, eff, shards);
      assert false;
    }
  }

  lemma SomeNode(model: ModelInfo, order: seq<NodeInfo>, eff: seq<int>, shards: seq<Shard>)
    requires model.totalLayers > 0 && StaticPlan(model, order, eff, shards)
    ensures 0 < |shards| <= |order| == |eff|
  {
  }

  lemma DistinctOnce(nodes: seq<NodeInfo>, n: NodeInfo)
    requires DistinctIDs(nodes)
    ensures multiset(nodes)[n] <= 1
  {
    if nodes != [] {
      var front, last := nodes[..|nodes| - 1], nodes[|nodes| - 1];
      assert nodes == front + [last];
      DistinctOnce(front, n);
      if n == last {
        assert n !in front;
      }
    }
  }

  lemma TwiceInMultiset(s: seq<NodeInfo>, i: nat, j: nat)
    requires i < j < |s| && s[i] == s[j]
    ensures multiset(s)[s[i]] >= 2
  {
    assert s == s[..i] + [s[i]] + s[i + 1..j] + [s[j]] + s[j + 1..];
  }

  lemma EligibleDistinct(model: ModelInfo, nodes: seq<NodeInfo>, order: seq<NodeInfo>)
    requires model.totalLayers > 0 && EligibleOrder(model, nodes, order) && DistinctIDs(nodes)
    ensures DistinctIDs(order)
  {
    hide Sorted, RamPerLayer;
    forall i, j | 0 <= i < j < |order| ensures order[i].id != order[j].id {
      assert order[i] in multiset(order) && order[j] in multiset(order);
      assert order[i] in multiset(nodes) && order[j] in multiset(nodes);
      if order[i] == order[j] {
        TwiceInMultiset(order, i, j);
        DistinctOnce(nodes, order[i]);
      }
    }
  }

  /** Shard i of the plan needs more than what its node has, on the coordinator beside its reserve. */
  ghost predicate OverfillsNode(model: ModelInfo, order: seq<NodeInfo>, shards: seq<Shard>, i: nat)
    requires model.totalLayers > 0 && i < |shards| && i < |order|
  {
    shards[i].nodeID == order[i].id && CoveredRAM(model, shards[i]) > EffectiveRAM(model, order, i)
  }

  /** At most ten nodes are eligible, and nothing can be placed on them. */
  ghost predicate NothingFits(model: ModelInfo, nodes: seq<NodeInfo>)
    requires model.totalLayers > 0
  {
    forall order :: EligibleOrder(model, nodes, order) ==> |order| <= MAX_NODES && Unplaceable(model, order)
  }

  ghost predicate Overfills(model: ModelInfo, nodes: seq<NodeInfo>, shards: seq<Shard>)
    requires model.totalLayers > 0
  {
    exists order, i ::
      EligibleOrder(model, nodes, order) && 0 <= i < |shards| && i < |order| && OverfillsNode(model, order, shards, i)
  }

  lemma FallbackAnswerOverfills(model: ModelInfo, nodes: seq<NodeInfo>, r: Result<ShardPlan, PlanError>)
    requires model.totalLayers > 0 && RamPerLayer(model) > 0 && DistinctIDs(nodes) && NothingFits(model, nodes)
    requires StaticAnswer(model, nodes, r) && r.Success?
    ensures Overfills(model, nodes, r.value.shards)
  {
    var order, eff :|
      EligibleOrder(model, nodes, order) && IsEffective(model, order, eff) && StaticOutcome(model, order, eff, r);
    EligibleDistinct(model, nodes, order);
    hide EligibleOrder, Unplaceable, RamPerLayer, Sum, Partition;
    FallbackOverfills(model, order, eff, r.value.shards);
    var i :| 0 <= i < |r.value.shards| && CoveredRAM(model, r.value.shards[i]) > eff[i];
    assert ShardFor(model, order, eff, Sum(eff), r.value.shards[i], i);
    assert OverfillsNode(model, order, r.value.shards, i);
  }

  /** When nothing can be placed on the eligible nodes, any plan that comes back overfills one of them. */
  lemma PlanOverfills(model: ModelInfo, nodes: seq<NodeInfo>, caps: seq<WorkerCapability>,
                      r: Result<ShardPlan, PlanError>)
    requires model.totalLayers > 0 && RamPerLayer(model) > 0 && DistinctIDs(nodes) && NothingFits(model, nodes)
    requires r.Success? && (DynamicAnswer(model, nodes, caps, r) || StaticAnswer(model, nodes, r))
    ensures Overfills(model, nodes, r.value.shards)
  {
    hide DynamicAnswer, StaticAnswer, NothingFits, Overfills;
    if DynamicAnswer(model, nodes, caps, r) {
      DynamicPlanPlaces(model, nodes, caps, r);
    }
    if StaticAnswer(model, nodes, r) {
      FallbackAnswerOverfills(model, nodes, r);
    }
  }

  lemma DynamicPlanPlaces(model: ModelInfo, nodes: seq<NodeInfo>, caps: seq<WorkerCapability>,
                          r: Result<ShardPlan, PlanError>)
    requires model.totalLayers > 0 && r.Success? && DynamicAnswer(model, nodes, caps, r)
    ensures !NothingFits(model, nodes)
  {
    hide EligibleOrder, RamPerLayer, IsLayerSeconds, Collects, ForwardCost;
    var p :| ProblemFor(model, nodes, caps, p) && Answer(p, r);
    var order :| EligibleOrder(model, nodes, order) && p.nodes == FirstTen(order);
    var c :| BestUnderCeiling(p, c) && PlanOf(p, c, r.value);
    if |order| <= MAX_NODES {
      assert p.nodes == order && Feasible(p, c);
      assert !Unplaceable(model, order);
    }
  }

  // ---------- The entry point ----------

  /**
    The dynamic planner's plan if it has one; otherwise, when it had no eligible node or no chain under its ceiling,
    whatever the fallback answers. When nothing fits, a plan overfills a node.
   */
  method PlanShards(model: ModelInfo, nodes: seq<NodeInfo>, caps: seq<WorkerCapability>)
    returns (r: Result<ShardPlan, PlanError>)
    ensures r == Failure(ModelIncomplete) <==> (model.totalLayers <= 0 || model.totalRAM <= 0)
    ensures model.totalLayers > 0 && model.totalRAM > 0 ==>
              || (r.Success? && DynamicAnswer(model, nodes, caps, r))
              || (StaticAnswer(model, nodes, r) &&
                  (SomeEligible(model, nodes) ==> DynamicAnswer(model, nodes, caps, Failure(NoChain))))
    ensures r.Success? && RamPerLayer(model) > 0 && DistinctIDs(nodes) && NothingFits(model, nodes) ==>
              Overfills(model, nodes, r.value.shards)
  {
    hide DynamicAnswer, StaticAnswer, EligibleOrder, IsEffective, SomeEligible, NothingFits, Overfills, RamPerLayer;
    hide DistinctIDs;
    if model.totalLayers <= 0 || model.totalRAM <= 0 {
      return Failure(ModelIncomplete);
    }
    r := PlanShardsDynamic(model, nodes, caps);
    if r.Failure? {
      if SomeEligible(model, nodes) {
        DynamicFailure(model, nodes, caps, r);
      }
      r := PlanStatic(model, nodes);
      StaticErrors(model, nodes, r);
    } else {
      assert SomeEligible(model, nodes);
    }
    if r.Success? && RamPerLayer(model) > 0 && DistinctIDs(nodes) && NothingFits(model, nodes) {
      PlanOverfills(model, nodes, caps, r);
    }
  }

  lemma DynamicFailure(model: ModelInfo, nodes: seq<NodeInfo>, caps: seq<WorkerCapability>,
                       r: Result<ShardPlan, PlanError>)
    requires DynamicAnswer(model, nodes, caps, r) && r.Failure?
    ensures r == Failure(NoChain)
  {
  }

  lemma StaticErrors(model: ModelInfo, nodes: seq<NodeInfo>, r: Result<ShardPlan, PlanError>)
    requires model.totalLayers > 0 && StaticAnswer(model, nodes, r)
    ensures r != Failure(ModelIncomplete)
  {
  }
}
