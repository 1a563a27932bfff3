/** Choosing the best final cell and walking its back-pointers to a chain. */
module ShardSearch {
  import opened Basics
  import opened NodeMask
  import opened ShardModel
  import opened ShardTable

  /** The planner never sees a chain whose cost, or whose cost with the hop back, reaches a sentinel. */
  ghost predicate UnderCeiling(p: Problem, c: Chain)
    requires p.Valid() && RunsOk(p, c) && c != []
  {
    ForwardCost(p, c) < CEILING && TotalCost(p, c) < UNREACHED
  }

  /** c is a cheapest feasible chain among those under the ceiling. */
  ghost predicate BestUnderCeiling(p: Problem, c: Chain)
    requires p.Valid()
  {
    && Feasible(p, c) && UnderCeiling(p, c)
    && forall d :: Feasible(p, d) && UnderCeiling(p, d) ==> TotalCost(p, c) <= TotalCost(p, d)
  }

  /** A final cell the planner may choose. */
  predicate Eligible(p: Problem, cell: Cell, u: nat)
    requires p.Valid() && u < |p.nodes|
  {
    cell.cost < CEILING && cell.cost + p.HopBack(u) < UNREACHED
  }

  /** (u, mask) is an eligible cell of the last row whose cost with the hop back is least. */
  ghost predicate BestCell(p: Problem, dp: array3<Cell>, u: nat, mask: nat)
    requires p.Valid() && Shape(p, dp)
    reads dp
  {
    var M := p.model.totalLayers;
    && u < dp.Length1 && mask < dp.Length2 && Eligible(p, dp[M, u, mask], u)
    && forall v, k :: 0 <= v < dp.Length1 && 0 < k < dp.Length2 && Eligible(p, dp[M, v, k], v) ==>
         dp[M, u, mask].cost + p.HopBack(u) <= dp[M, v, k].cost + p.HopBack(v)
  }

  method ChooseBest(p: Problem, dp: array3<Cell>) returns (bestU: int, bestMask: int)
    requires p.Valid() && Shape(p, dp)
    ensures bestU == -1 ==>
              forall v, k :: 0 <= v < dp.Length1 && 0 < k < dp.Length2 ==>
                       !Eligible(p, dp[p.model.totalLayers, v, k], v)
    ensures bestU != -1 ==> bestU >= 0 && bestMask >= 0 && BestCell(p, dp, bestU, bestMask)
  {
    var M := p.model.totalLayers;
    var bestCost := UNREACHED;
    bestU, bestMask := -1, -1;
    for u := 0 to |p.nodes|
      invariant bestU == -1 ==> bestCost == UNREACHED
      invariant bestU != -1 ==> 0 <= bestU < dp.Length1 && 0 <= bestMask < dp.Length2
      invariant bestU != -1 ==> dp[M, bestU, bestMask].cost < CEILING
      invariant bestU != -1 ==> bestCost == dp[M, bestU, bestMask].cost + p.HopBack(bestU) < UNREACHED
      invariant forall v, k :: 0 <= v < u && 0 < k < dp.Length2 && dp[M, v, k].cost < CEILING ==>
                  bestCost <= dp[M, v, k].cost + p.HopBack(v)
    {
      for mask := 1 to Pow2(|p.nodes|)
        invariant bestU == -1 ==> bestCost == UNREACHED
        invariant bestU != -1 ==> 0 <= bestU < dp.Length1 && 0 <= bestMask < dp.Length2
        invariant bestU != -1 ==> dp[M, bestU, bestMask].cost < CEILING
        invariant bestU != -1 ==> bestCost == dp[M, bestU, bestMask].cost + p.HopBack(bestU) < UNREACHED
        invariant forall v, k :: 0 <= v < u && 0 < k < dp.Length2 && dp[M, v, k].cost < CEILING ==>
                    bestCost <= dp[M, v, k].cost + p.HopBack(v)
        invariant forall k :: 0 < k < mask && dp[M, u, k].cost < CEILING ==>
                    bestCost <= dp[M, u, k].cost + p.HopBack(u)
      {
        var cell := dp[M, u, mask];
        if cell.cost >= CEILING {
          continue;
        }
        var totalCost := cell.cost + p.HopBack(u);
        if totalCost < bestCost {
          bestCost, bestU, bestMask := totalCost, u, mask;
        }
      }
    }
  }

  /** Every feasible chain under the ceiling ends in an eligible cell that costs no more. */
  lemma ChainHasCell(p: Problem, dp: array3<Cell>, d: Chain)
    requires p.Valid() && Shape(p, dp) && RowsExact(p, dp, p.model.totalLayers + 1)
    requires Feasible(p, d) && UnderCeiling(p, d)
    ensures var u, k := d[|d| - 1].node, MaskOf(d);
            && u < dp.Length1 && 0 < k < dp.Length2
            && Eligible(p, dp[p.model.totalLayers, u, k], u)
            && dp[p.model.totalLayers, u, k].cost + p.HopBack(u) <= TotalCost(p, d)
  {
    var M, u, k := p.model.totalLayers, d[|d| - 1].node, MaskOf(d);
    MaskBits(d, |p.nodes|, u);
    assert CellExact(p, M, u, k, dp[M, u, k]);
    assert ChainTo(p, d, M, u, k);
  }

  /** A chain realising the best cell is best under the ceiling. */
  lemma BestCellChain(p: Problem, dp: array3<Cell>, u: nat, mask: nat, c: Chain)
    requires p.Valid() && Shape(p, dp) && RowsExact(p, dp, p.model.totalLayers + 1)
    requires BestCell(p, dp, u, mask)
    requires ChainTo(p, c, p.model.totalLayers, u, mask) && ForwardCost(p, c) == dp[p.model.totalLayers, u, mask].cost
    ensures BestUnderCeiling(p, c)
  {
    forall d | Feasible(p, d) && UnderCeiling(p, d)
      ensures TotalCost(p, c) <= TotalCost(p, d)
    {
      ChainHasCell(p, dp, d);
    }
  }

  // ---------- Reconstruction ----------

  function Reverse(s: Chain): Chain {
    if s == [] then [] else Reverse(s[1..]) + [s[0]]
  }

  lemma {:induction false} ReverseAt(s: Chain, k: nat)
    ensures |Reverse(s)| == |s|
    ensures k < |s| ==> Reverse(s)[k] == s[|s| - 1 - k]
  {
    if s != [] {
      ReverseAt(s[1..], k);
      if k < |s| - 1 {
        assert Reverse(s)[k] == Reverse(s[1..])[k];
      }
    }
  }

  lemma ReverseAppend(s: Chain, r: Run)
    ensures Reverse(s + [r]) == [r] + Reverse(s)
  {
    ReverseAt(s + [r], 0);
    ReverseAt(s, 0);
    forall k | 0 <= k <= |s| ensures Reverse(s + [r])[k] == ([r] + Reverse(s))[k] {
      ReverseAt(s + [r], k);
      if k > 0 {
        ReverseAt(s, k - 1);
      }
    }
  }

  /** Two chains that end alike (cover, last node, node set) can be extended by the same run at the same extra cost. */
  lemma ExtendBoth(p: Problem, x: Chain, y: Chain, r: Run, L: nat)
    requires p.Valid() && x != [] && IsChain(p, x + [r], L)
    requires IsChain(p, y, r.first) && MaskOf(y) == MaskOf(x) && y[|y| - 1].node == x[|x| - 1].node
    ensures IsChain(p, x, r.first) && IsChain(p, y + [r], L)
    ensures MaskOf(y + [r]) == MaskOf(x + [r])
    ensures ForwardCost(p, y + [r]) - ForwardCost(p, y) == ForwardCost(p, x + [r]) - ForwardCost(p, x)
  {
    var c := x + [r];
    DropLast(p, c, L);
    assert c[..|c| - 1] == x;
    AddRun(p, y, r.first, r);
    ForwardCostOfLast(p, c);
    var d := y + [r];
    assert d[..|d| - 1] == y;
    ForwardCostOfLast(p, d);
  }

  /** Replacing the front of a chain by another with the same end, cover, node set and cost changes none of these. */
  lemma {:induction false} ReplaceFront(p: Problem, a: Chain, b: Chain, s: Chain, l: nat, L: nat)
    requires p.Valid() && IsChain(p, a, l) && IsChain(p, b, l)
    requires MaskOf(a) == MaskOf(b) && a[|a| - 1].node == b[|b| - 1].node
    requires ForwardCost(p, a) == ForwardCost(p, b)
    requires IsChain(p, a + s, L)
    ensures IsChain(p, b + s, L)
    ensures MaskOf(b + s) == MaskOf(a + s) && (b + s)[|b + s| - 1].node == (a + s)[|a + s| - 1].node
    ensures ForwardCost(p, b + s) == ForwardCost(p, a + s)
    decreases |s|
  {
    hide IsChain, RunsOk;
    if s == [] {
      assert a + s == a && b + s == b;
    } else {
      var t, r := s[..|s| - 1], s[|s| - 1];
      assert a + s == (a + t) + [r] && b + s == (b + t) + [r];
      FrontIsChain(p, a + t, r, L);
      ReplaceFront(p, a, b, t, l, r.first);
      ExtendBoth(p, a + t, b + t, r, L);
    }
  }

  lemma FrontIsChain(p: Problem, x: Chain, r: Run, L: nat)
    requires p.Valid() && x != [] && IsChain(p, x + [r], L)
    ensures IsChain(p, x, r.first) && 0 < r.first <= r.last
    ensures x[|x| - 1].node < |p.nodes| && MaskOf(x) < Pow2(|p.nodes|)
  {
    var c := x + [r];
    DropLast(p, c, L);
    assert c[..|c| - 1] == x;
    MaskBits(x, |p.nodes|, r.node);
  }

  /** The table's chain for the cell before costs exactly what the chain in hand costs up to there. */
  lemma PreviousCellCost(p: Problem, dp: array3<Cell>, f: Chain, r: Run, d: Chain)
    requires p.Valid() && Shape(p, dp) && RowsExact(p, dp, p.model.totalLayers + 1)
    requires f != [] && r.last < p.model.totalLayers && IsChain(p, f + [r], r.last + 1) && r.node < dp.Length1
    requires MaskOf(f + [r]) < dp.Length2 && ForwardCost(p, f + [r]) < CEILING
    requires ForwardCost(p, f + [r]) == dp[r.last + 1, r.node, MaskOf(f + [r])].cost
    requires IsChain(p, d, r.first) && MaskOf(d) == MaskOf(f) && d[|d| - 1].node == f[|f| - 1].node
    requires IsChain(p, f, r.first) && ForwardCost(p, d) <= ForwardCost(p, f)
    ensures ForwardCost(p, d) == ForwardCost(p, f)
  {
    ExtendBoth(p, f, d, r, r.last + 1);
    assert CellExact(p, r.last + 1, r.node, MaskOf(f + [r]), dp[r.last + 1, r.node, MaskOf(f + [r])]);
    assert ChainTo(p, d + [r], r.last + 1, r.node, MaskOf(f + [r]));
  }

  lemma CostGrows(p: Problem, f: Chain, r: Run)
    requires p.Valid() && f != [] && RunsOk(p, f + [r])
    ensures RunsOk(p, f) && ForwardCost(p, f) <= ForwardCost(p, f + [r])
  {
    var c := f + [r];
    assert c[..|c| - 1] == f;
    forall i | 0 <= i < |f| ensures RunOk(p, f[i]) {
      assert c[i] == f[i];
    }
    ForwardCostOfLast(p, c);
  }

  /**
    The state of the walk: a chain front reaches the current cell, and followed by the path walked so far it is the
    answer.
   */
  ghost predicate Walking(p: Problem, dp: array3<Cell>, front: Chain, rest: Chain, l: nat, u: nat, mask: nat,
                          bestU: nat, bestMask: nat)
    requires p.Valid() && Shape(p, dp) && bestU < dp.Length1 && bestMask < dp.Length2
    reads dp
  {
    && 0 < l < dp.Length0 && u < dp.Length1 && mask < dp.Length2
    && dp[l, u, mask].cost < CEILING
    && Realises(p, front, l, u, mask, dp[l, u, mask])
    && Reaches(p, dp, front + rest, bestU, bestMask)
  }

  /** c is a complete chain to the given final cell, at the cell's cost. */
  ghost predicate Reaches(p: Problem, dp: array3<Cell>, c: Chain, bestU: nat, bestMask: nat)
    requires p.Valid() && Shape(p, dp) && bestU < dp.Length1 && bestMask < dp.Length2
    reads dp
  {
    ChainTo(p, c, p.model.totalLayers, bestU, bestMask) &&
    ForwardCost(p, c) == dp[p.model.totalLayers, bestU, bestMask].cost
  }

  /** One step back: the chain behind the previous cell stands in for the front of the chain in hand. */
  lemma StepBack(p: Problem, dp: array3<Cell>, f: Chain, r: Run, rest: Chain, bestU: nat, bestMask: nat)
    returns (d: Chain)
    requires p.Valid() && Shape(p, dp) && RowsExact(p, dp, p.model.totalLayers + 1)
    requires bestU < dp.Length1 && bestMask < dp.Length2 && f != []
    requires Walking(p, dp, f + [r], rest, r.last + 1, r.node, MaskOf(f + [r]), bestU, bestMask)
    ensures Walking(p, dp, d, [r] + rest, r.first, f[|f| - 1].node, MaskOf(f), bestU, bestMask)
  {
    hide IsChain, RunsOk, ForwardCost, MaskOf;
    FrontIsChain(p, f, r, r.last + 1);
    CostGrows(p, f, r);
    var w := f[|f| - 1].node;
    var cell := dp[r.first, w, MaskOf(f)];
    assert CellExact(p, r.first, w, MaskOf(f), cell);
    assert ChainTo(p, f, r.first, w, MaskOf(f));
    d :| Realises(p, d, r.first, w, MaskOf(f), cell);
    PreviousCellCost(p, dp, f, r, d);
    assert f + ([r] + rest) == (f + [r]) + rest;
    ReplaceFront(p, f, d, [r] + rest, r.first, p.model.totalLayers);
  }

  /** Following the current cell's back-pointer either finishes the chain or keeps the walk going one cell earlier. */
  lemma FollowPointer(p: Problem, dp: array3<Cell>, front: Chain, rest: Chain, l: nat, u: nat, mask: nat,
                      bestU: nat, bestMask: nat) returns (d: Chain)
    requires p.Valid() && Shape(p, dp) && RowsExact(p, dp, p.model.totalLayers + 1)
    requires bestU < dp.Length1 && bestMask < dp.Length2
    requires Walking(p, dp, front, rest, l, u, mask, bestU, bestMask)
    ensures var cell := dp[l, u, mask];
            0 <= cell.prevL < l &&
            if cell.prevL == 0 then Reaches(p, dp, [Run(u, 0, l - 1)] + rest, bestU, bestMask)
            else cell.prevU >= 0 && cell.prevMask >= 0 &&
                 Walking(p, dp, d, [Run(u, cell.prevL, l - 1)] + rest, cell.prevL, cell.prevU, cell.prevMask, bestU,
                     bestMask)
  {
    hide RowsExact, ForwardCost, MaskOf;
    var cell := dp[l, u, mask];
    var run, f := Run(u, cell.prevL, l - 1), front[..|front| - 1];
    assert front == f + [run];
    d := [];
    if f == [] {
      assert front == [run];
    } else {
      FrontIsChain(p, f, run, l);
      d := StepBack(p, dp, f, run, rest, bestU, bestMask);
    }
  }

  lemma StartWalk(p: Problem, dp: array3<Cell>, bestU: nat, bestMask: nat) returns (front: Chain)
    requires p.Valid() && Shape(p, dp) && RowsExact(p, dp, p.model.totalLayers + 1)
    requires bestU < dp.Length1 && bestMask < dp.Length2
    requires dp[p.model.totalLayers, bestU, bestMask].cost < CEILING
    ensures Walking(p, dp, front, [], p.model.totalLayers, bestU, bestMask, bestU, bestMask)
  {
    var M := p.model.totalLayers;
    assert CellExact(p, M, bestU, bestMask, dp[M, bestU, bestMask]);
    front :| Realises(p, front, M, bestU, bestMask, dp[M, bestU, bestMask]);
    assert front + [] == front;
  }

  /**
    The back-pointer walk. It starts at a final cell below the ceiling and ends, after at most one step a layer, with a
    chain that reaches that cell at that cost.
   */
  method WalkBack(p: Problem, dp: array3<Cell>, bestU: nat, bestMask: nat) returns (path: Chain)
    requires p.Valid() && Shape(p, dp) && RowsExact(p, dp, p.model.totalLayers + 1)
    requires bestU < dp.Length1 && bestMask < dp.Length2
    requires dp[p.model.totalLayers, bestU, bestMask].cost < CEILING
    ensures Reaches(p, dp, Reverse(path), bestU, bestMask)
  {
    hide RowsExact, Realises, Reaches;
    path := [];
    var currL: int, currU: int, currMask: int := p.model.totalLayers, bestU, bestMask;
    ghost var front := StartWalk(p, dp, bestU, bestMask);
    while currL > 0
      invariant 0 <= currL <= p.model.totalLayers
      invariant currL == 0 ==> Reaches(p, dp, Reverse(path), bestU, bestMask)
      invariant currL > 0 ==> currU >= 0 && currMask >= 0
      invariant currL > 0 ==> Walking(p, dp, front, Reverse(path), currL, currU, currMask, bestU, bestMask)
    {
      var cell := dp[currL, currU, currMask];
      front := FollowPointer(p, dp, front, Reverse(path), currL, currU, currMask, bestU, bestMask);
      ReverseAppend(path, Run(currU, cell.prevL, currL - 1));
      path := path + [Run(currU, cell.prevL, currL - 1)];
      currL, currU, currMask := cell.prevL, cell.prevU, cell.prevMask;
    }
  }

  /** Reverses the path in place, swapping from both ends. */
  method ReversePath(path: Chain) returns (r: Chain)
    ensures r == Reverse(path)
  {
    r := path;
    var i, j := 0, |r| - 1;
    while i < j
      invariant |r| == |path| && 0 <= i && j == |r| - 1 - i && i <= j + 1
      invariant forall k :: 0 <= k < i ==> r[k] == path[|path| - 1 - k] && r[|r| - 1 - k] == path[k]
      invariant forall k :: i <= k <= j ==> r[k] == path[k]
    {
      r := r[i := r[j]][j := r[i]];
      i, j := i + 1, j - 1;
    }
    ReversedSwaps(path, r);
  }

  lemma ReversedSwaps(path: Chain, r: Chain)
    requires |r| == |path| && forall k :: 0 <= k < |r| ==> r[k] == path[|path| - 1 - k]
    ensures r == Reverse(path)
  {
    ReverseAt(path, 0);
    forall k | 0 <= k < |r| ensures r[k] == Reverse(path)[k] {
      ReverseAt(path, k);
    }
  }
}
