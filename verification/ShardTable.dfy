/** The dynamic-programming table: cells indexed by layers placed, last node, and node mask. */
module ShardTable {
  import opened Basics
  import opened NodeMask
  import opened ShardModel

  /** prevU is -1 when the run starting at layer 0 is the whole chain. */
  datatype Cell = Cell(cost: real, prevL: int, prevU: int, prevMask: int)

  const UNSET := Cell(UNREACHED, -1, -1, -1)

  /** c covers layers 0..l-1, ends on node u, and uses exactly the nodes of mask. */
  ghost predicate ChainTo(p: Problem, c: Chain, l: nat, u: nat, mask: nat)
    requires p.Valid()
  {
    IsChain(p, c, l) && c[|c| - 1].node == u && MaskOf(c) == mask
  }

  /** The cell's back-pointer describes c without its last run. */
  ghost predicate PointsBack(c: Chain, cell: Cell)
    requires c != []
  {
    && cell.prevL == c[|c| - 1].first
    && if |c| == 1 then cell.prevU == -1 && cell.prevMask == 0
       else cell.prevU == c[|c| - 2].node && cell.prevMask == MaskOf(c[..|c| - 1])
  }

  ghost predicate Realises(p: Problem, c: Chain, l: nat, u: nat, mask: nat, cell: Cell)
    requires p.Valid()
  {
    ChainTo(p, c, l, u, mask) && ForwardCost(p, c) == cell.cost && PointsBack(c, cell)
  }

  ghost predicate Sound(p: Problem, l: nat, u: nat, mask: nat, cell: Cell)
    requires p.Valid()
  {
    cell.cost < CEILING ==> exists c :: Realises(p, c, l, u, mask, cell)
  }

  /**
    What a finished cell says: below the ceiling its cost is that of a chain it points back along, and every chain to
    this cell that stays below the ceiling costs at least as much.
   */
  ghost predicate CellExact(p: Problem, l: nat, u: nat, mask: nat, cell: Cell)
    requires p.Valid()
  {
    && Sound(p, l, u, mask, cell)
    && (forall c :: ChainTo(p, c, l, u, mask) && ForwardCost(p, c) < CEILING ==> cell.cost <= ForwardCost(p, c))
  }

  /** The cell before any transition into it. */
  function BaseCell(p: Problem, l: nat, u: nat, mask: nat): Cell
    requires p.Valid() && u < |p.nodes|
  {
    if mask == Pow2(u) && p.Fits(u, l) then Cell(p.HopIn(u) + p.Compute(u, l), 0, -1, 0) else UNSET
  }

  /** Cost of extending a chain that ends on w by `layers` layers on u. */
  function Step(p: Problem, w: nat, u: nat, layers: nat): (r: real)
    requires p.Valid() && w < |p.nodes| && u < |p.nodes|
    ensures r >= 0.0
  {
    p.Hop(w, u) + p.Compute(u, layers)
  }

  /** The transition w -> u at layer `start` may be used to reach layer l. */
  predicate Extends(p: Problem, prev: Cell, l: nat, u: nat, w: nat, start: nat)
    requires p.Valid() && u < |p.nodes| && w < |p.nodes|
  {
    1 <= start < l && prev.cost < CEILING && p.Fits(u, l - start)
  }

  ghost predicate Shape(p: Problem, dp: array3<Cell>)
    requires p.Valid()
  {
    dp.Length0 == p.model.totalLayers + 1 && dp.Length1 == |p.nodes| && dp.Length2 == Pow2(|p.nodes|)
  }

  ghost predicate RowsExact(p: Problem, dp: array3<Cell>, upto: nat)
    requires p.Valid() && Shape(p, dp) && upto <= dp.Length0
    reads dp
  {
    forall i, j, k :: 1 <= i < upto && 0 <= j < dp.Length1 && 0 <= k < dp.Length2 ==>
      CellExact(p, i, j, k, dp[i, j, k])
  }

  ghost predicate RowsBase(p: Problem, dp: array3<Cell>, from: nat)
    requires p.Valid() && Shape(p, dp)
    reads dp
  {
    forall i, j, k :: from <= i < dp.Length0 && 0 <= j < dp.Length1 && 0 <= k < dp.Length2 ==>
      dp[i, j, k] == BaseCell(p, i, j, k)
  }

  // ---------- One cell ----------

  /** A base cell is sound: its own single run realises it. */
  lemma BaseSound(p: Problem, l: nat, u: nat, mask: nat)
    requires p.Valid() && u < |p.nodes| && 0 < l && BaseCell(p, l, u, mask).cost < CEILING
    ensures Realises(p, [Run(u, 0, l - 1)], l, u, mask, BaseCell(p, l, u, mask))
  {
    ForwardCostOfOne(p, Run(u, 0, l - 1));
  }

  /** A chain of one run costs no less than the base cell. */
  lemma BaseBound(p: Problem, c: Chain, l: nat, u: nat, mask: nat)
    requires p.Valid() && u < |p.nodes| && ChainTo(p, c, l, u, mask) && |c| == 1
    ensures BaseCell(p, l, u, mask).cost == ForwardCost(p, c)
  {
    assert c == [c[0]];
    ForwardCostOfOne(p, c[0]);
    assert Layers(c[0]) == l;
  }

  lemma LastNodeInMask(p: Problem, c: Chain, l: nat, u: nat, mask: nat)
    requires p.Valid() && ChainTo(p, c, l, u, mask)
    ensures HasBit(mask, u)
  {
    MaskBits(c, |p.nodes|, u);
    assert c[|c| - 1].node == u;
  }

  /** A cell whose mask lacks its own node is never relaxed, and is exact as it stands. */
  lemma UnusedNodeExact(p: Problem, l: nat, u: nat, mask: nat)
    requires p.Valid() && u < |p.nodes| && 0 < l
    ensures !HasBit(mask, u) ==> CellExact(p, l, u, mask, BaseCell(p, l, u, mask))
  {
    NoBitOfZero(u);
    SetBit(0, u, u);
    forall c: Chain | ChainTo(p, c, l, u, mask) ensures HasBit(mask, u) {
      LastNodeInMask(p, c, l, u, mask);
    }
  }

  lemma ExtendChain(p: Problem, l: nat, u: nat, mask: nat, w: nat, start: nat, prev: Cell, d: Chain)
    requires p.Valid() && u < |p.nodes| && w < |p.nodes| && HasBit(mask, u)
    requires Extends(p, prev, l, u, w, start)
    requires Realises(p, d, start, w, ClearBit(mask, u), prev)
    ensures Realises(p, d + [Run(u, start, l - 1)], l, u, mask,
                     Cell(prev.cost + Step(p, w, u, l - start), start, w, ClearBit(mask, u)))
  {
    hide ForwardCost, ClearBit, HasBit;
    ClearBitRemoves(mask, u);
    var r := Run(u, start, l - 1);
    AddRun(p, d, start, r);
    var c := d + [r];
    assert c[..|c| - 1] == d;
    ForwardCostOfLast(p, c);
  }

  /** Extending the chain behind a cell along a usable transition realises the new cell. */
  lemma ExtendRealises(p: Problem, l: nat, u: nat, mask: nat, w: nat, start: nat, prev: Cell)
    requires p.Valid() && u < |p.nodes| && w < |p.nodes| && HasBit(mask, u)
    requires Extends(p, prev, l, u, w, start)
    requires CellExact(p, start, w, ClearBit(mask, u), prev)
    ensures Sound(p, l, u, mask, Cell(prev.cost + Step(p, w, u, l - start), start, w, ClearBit(mask, u)))
  {
    hide Realises;
    var d :| Realises(p, d, start, w, ClearBit(mask, u), prev);
    ExtendChain(p, l, u, mask, w, start, prev, d);
  }

  /** The cost a transition offers is no less than the cell's. */
  predicate Dominates(p: Problem, cell: Cell, prev: Cell, l: nat, u: nat, w: nat, start: nat)
    requires p.Valid() && u < |p.nodes| && w < |p.nodes|
  {
    Extends(p, prev, l, u, w, start) ==> cell.cost <= prev.cost + Step(p, w, u, l - start)
  }

  /** Transitions into (l, u, mask) leave from nodes of the mask other than u. */
  predicate Predecessor(p: Problem, u: nat, mask: nat, w: nat) {
    w < |p.nodes| && w != u && HasBit(ClearBit(mask, u), w)
  }

  /**
    The last step of any chain to this cell is one of the transitions, so a cell that dominates all of them is a lower
    bound.
   */
  lemma ChainDominated(p: Problem, dp: array3<Cell>, l: nat, u: nat, mask: nat, cell: Cell, c: Chain)
    requires p.Valid() && Shape(p, dp) && 1 <= l < dp.Length0 && u < dp.Length1 && mask < dp.Length2
    requires RowsExact(p, dp, l)
    requires cell.cost <= BaseCell(p, l, u, mask).cost
    requires forall w: nat, start: nat :: Predecessor(p, u, mask, w) && 1 <= start < l ==>
               Dominates(p, cell, dp[start, w, ClearBit(mask, u)], l, u, w, start)
    requires ChainTo(p, c, l, u, mask) && ForwardCost(p, c) < CEILING
    ensures cell.cost <= ForwardCost(p, c)
  {
    if |c| == 1 {
      BaseBound(p, c, l, u, mask);
    } else {
      DropLast(p, c, l);
      ForwardCostOfLast(p, c);
      var d, start, w := c[..|c| - 1], c[|c| - 1].first, c[|c| - 2].node;
      var prev := dp[start, w, ClearBit(mask, u)];
      assert CellExact(p, start, w, ClearBit(mask, u), prev);
      assert ChainTo(p, d, start, w, ClearBit(mask, u));
      assert Predecessor(p, u, mask, w);
      assert Dominates(p, cell, prev, l, u, w, start);
    }
  }

  /** Everything but one cell of the table is as it was. */
  twostate predicate OnlyCell(dp: array3<Cell>, l: nat, u: nat, mask: nat)
    reads dp
  {
    forall i, j, k :: 0 <= i < dp.Length0 && 0 <= j < dp.Length1 && 0 <= k < dp.Length2 && (i, j, k) != (l, u, mask) ==>
      dp[i, j, k] == old(dp[i, j, k])
  }

  /** Relaxes one cell along one transition. */
  method Relax(p: Problem, dp: array3<Cell>, l: nat, u: nat, mask: nat, w: nat, start: nat)
    requires p.Valid() && Shape(p, dp) && 1 <= start < l < dp.Length0 && u < dp.Length1 && mask < dp.Length2
    requires HasBit(mask, u) && w < |p.nodes|
    requires CellExact(p, start, w, ClearBit(mask, u), dp[start, w, ClearBit(mask, u)])
    requires Sound(p, l, u, mask, dp[l, u, mask])
    modifies dp
    ensures OnlyCell(dp, l, u, mask)
    ensures Sound(p, l, u, mask, dp[l, u, mask]) && dp[l, u, mask].cost <= old(dp[l, u, mask].cost)
    ensures Dominates(p, dp[l, u, mask], dp[start, w, ClearBit(mask, u)], l, u, w, start)
  {
    var m := ClearBit(mask, u);
    var prev := dp[start, w, m];
    if prev.cost >= CEILING {
      return;
    }
    if p.Fits(u, l - start) {
      var cost := prev.cost + Step(p, w, u, l - start);
      if cost < dp[l, u, mask].cost {
        ExtendRealises(p, l, u, mask, w, start, prev);
        dp[l, u, mask] := Cell(cost, start, w, m);
      }
    }
  }

  /** Relaxes one cell over every split point of one previous node. */
  method RelaxFrom(p: Problem, dp: array3<Cell>, l: nat, u: nat, mask: nat, w: nat)
    requires p.Valid() && Shape(p, dp) && 1 <= l < dp.Length0 && u < dp.Length1 && mask < dp.Length2
    requires RowsExact(p, dp, l) && HasBit(mask, u) && w < |p.nodes|
    requires Sound(p, l, u, mask, dp[l, u, mask])
    modifies dp
    ensures OnlyCell(dp, l, u, mask)
    ensures Sound(p, l, u, mask, dp[l, u, mask]) && dp[l, u, mask].cost <= old(dp[l, u, mask].cost)
    ensures forall s :: 1 <= s < l ==> Dominates(p, dp[l, u, mask], dp[s, w, ClearBit(mask, u)], l, u, w, s)
  {
    for start := 1 to l
      invariant OnlyCell(dp, l, u, mask)
      invariant Sound(p, l, u, mask, dp[l, u, mask]) && dp[l, u, mask].cost <= old(dp[l, u, mask].cost)
      invariant forall s :: 1 <= s < start ==> Dominates(p, dp[l, u, mask], dp[s, w, ClearBit(mask, u)], l, u, w, s)
    {
      assert CellExact(p, start, w, ClearBit(mask, u), dp[start, w, ClearBit(mask, u)]);
      Relax(p, dp, l, u, mask, w, start);
    }
  }

  /** Relaxes one cell over every previous node of its mask. */
  method RelaxCell(p: Problem, dp: array3<Cell>, l: nat, u: nat, mask: nat)
    requires p.Valid() && Shape(p, dp) && 1 <= l < dp.Length0 && u < dp.Length1 && mask < dp.Length2
    requires RowsExact(p, dp, l) && HasBit(mask, u)
    requires dp[l, u, mask] == BaseCell(p, l, u, mask)
    modifies dp
    ensures OnlyCell(dp, l, u, mask)
    ensures CellExact(p, l, u, mask, dp[l, u, mask])
  {
    hide IsChain, ForwardCost, Realises, Step, BaseCell;
    var m := ClearBit(mask, u);
    if dp[l, u, mask].cost < CEILING {
      BaseSound(p, l, u, mask);
    }
    for w := 0 to |p.nodes|
      invariant OnlyCell(dp, l, u, mask) && RowsExact(p, dp, l)
      invariant Sound(p, l, u, mask, dp[l, u, mask])
      invariant dp[l, u, mask].cost <= BaseCell(p, l, u, mask).cost
      invariant forall w': nat, s: nat :: w' < w && Predecessor(p, u, mask, w') && 1 <= s < l ==>
                  Dominates(p, dp[l, u, mask], dp[s, w', m], l, u, w', s)
    {
      if w == u || !HasBit(m, w) {
        continue;
      }
      RelaxFrom(p, dp, l, u, mask, w);
    }
    forall c | ChainTo(p, c, l, u, mask) && ForwardCost(p, c) < CEILING
      ensures dp[l, u, mask].cost <= ForwardCost(p, c)
    {
      ChainDominated(p, dp, l, u, mask, dp[l, u, mask], c);
    }
  }

  /** Relaxes the cells of one node in one row, mask by mask. */
  method RelaxColumn(p: Problem, dp: array3<Cell>, l: nat, u: nat)
    requires p.Valid() && Shape(p, dp) && 1 <= l < dp.Length0 && u < dp.Length1
    requires RowsExact(p, dp, l)
    requires forall k :: 0 <= k < dp.Length2 ==> dp[l, u, k] == BaseCell(p, l, u, k)
    modifies dp
    ensures forall k :: 0 <= k < dp.Length2 ==> CellExact(p, l, u, k, dp[l, u, k])
    ensures forall i, j, k :: 0 <= i < dp.Length0 && 0 <= j < dp.Length1 && 0 <= k < dp.Length2 && (i, j) != (l, u) ==>
              dp[i, j, k] == old(dp[i, j, k])
  {
    NoBitOfZero(u);
    UnusedNodeExact(p, l, u, 0);
    for mask := 1 to Pow2(|p.nodes|)
      invariant forall k :: 0 <= k < mask ==> CellExact(p, l, u, k, dp[l, u, k])
      invariant forall k :: mask <= k < dp.Length2 ==> dp[l, u, k] == BaseCell(p, l, u, k)
      invariant forall i, j, k ::
                  0 <= i < dp.Length0 && 0 <= j < dp.Length1 && 0 <= k < dp.Length2 && (i, j) != (l, u) ==>
                  dp[i, j, k] == old(dp[i, j, k])
    {
      if !HasBit(mask, u) {
        UnusedNodeExact(p, l, u, mask);
        continue;
      }
      assert RowsExact(p, dp, l);
      RelaxCell(p, dp, l, u, mask);
    }
  }

  /** Fills in the cells of chains that are a single run. */
  method BaseCases(p: Problem, dp: array3<Cell>)
    requires p.Valid() && Shape(p, dp)
    requires forall i, j, k :: 0 <= i < dp.Length0 && 0 <= j < dp.Length1 && 0 <= k < dp.Length2 ==>
               dp[i, j, k] == UNSET
    modifies dp
    ensures RowsBase(p, dp, 1)
  {
    for l := 1 to p.model.totalLayers + 1
      invariant forall i, j, k :: 1 <= i < l && 0 <= j < dp.Length1 && 0 <= k < dp.Length2 ==>
                  dp[i, j, k] == BaseCell(p, i, j, k)
      invariant forall i, j, k :: l <= i < dp.Length0 && 0 <= j < dp.Length1 && 0 <= k < dp.Length2 ==>
                  dp[i, j, k] == UNSET
    {
      for u := 0 to |p.nodes|
        invariant forall i, j, k :: 1 <= i < l && 0 <= j < dp.Length1 && 0 <= k < dp.Length2 ==>
                    dp[i, j, k] == BaseCell(p, i, j, k)
        invariant forall i, j, k :: l < i < dp.Length0 && 0 <= j < dp.Length1 && 0 <= k < dp.Length2 ==>
                    dp[i, j, k] == UNSET
        invariant forall j, k :: 0 <= j < u && 0 <= k < dp.Length2 ==> dp[l, j, k] == BaseCell(p, l, j, k)
        invariant forall j, k :: u <= j < dp.Length1 && 0 <= k < dp.Length2 ==> dp[l, j, k] == UNSET
      {
        if p.Fits(u, l) {
          var mask := Pow2(u);
          Pow2Bound(u, |p.nodes|);
          dp[l, u, mask] := Cell(p.HopIn(u) + p.Compute(u, l), 0, -1, 0);
        }
      }
    }
  }

  /** The whole table: every cell is exact when the three nested loops are done. */
  method FillTable(p: Problem) returns (dp: array3<Cell>)
    requires p.Valid()
    ensures fresh(dp) && Shape(p, dp)
    ensures RowsExact(p, dp, p.model.totalLayers + 1)
  {
    hide CellExact, BaseCell;
    dp := new Cell[p.model.totalLayers + 1, |p.nodes|, Pow2(|p.nodes|)]((_, _, _) => UNSET);
    BaseCases(p, dp);
    for l := 1 to p.model.totalLayers + 1
      invariant RowsExact(p, dp, l) && RowsBase(p, dp, l)
    {
      for u := 0 to |p.nodes|
        invariant RowsExact(p, dp, l) && RowsBase(p, dp, l + 1)
        invariant forall j, k :: 0 <= j < u && 0 <= k < dp.Length2 ==> CellExact(p, l, j, k, dp[l, j, k])
        invariant forall j, k :: u <= j < dp.Length1 && 0 <= k < dp.Length2 ==> dp[l, j, k] == BaseCell(p, l, j, k)
      {
        RelaxColumn(p, dp, l, u);
      }
    }
  }
}
