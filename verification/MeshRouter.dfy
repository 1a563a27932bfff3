/** Route calculation: breadth-first search over the connections a node has heard of. */
module MeshRouter {
  datatype Route = Route(nextHop: string, hops: int)

  /** What one node knows: its own id, its live connections, and the peer lists reported by others. */
  datatype View = View(local: string, direct: seq<string>, peers: map<string, seq<string>>)

  ghost predicate Edge(v: View, a: string, b: string) {
    if a == v.local then b in v.direct else a in v.peers && b in v.peers[a]
  }

  ghost predicate IsPath(v: View, p: seq<string>) {
    p != [] && forall i :: 0 <= i < |p| - 1 ==> Edge(v, p[i], p[i + 1])
  }

  /** p leads from the local node to n. */
  ghost predicate PathTo(v: View, p: seq<string>, n: string) {
    IsPath(v, p) && p[0] == v.local && p[|p| - 1] == n
  }

  ghost predicate Reachable(v: View, n: string) {
    exists p :: PathTo(v, p, n)
  }

  /** p is a path to n with r.hops links whose first link goes to r.nextHop, a direct neighbour. */
  ghost predicate Follows(v: View, p: seq<string>, n: string, r: Route) {
    && PathTo(v, p, n) && |p| - 1 == r.hops && r.hops >= 1
    && p[1] == r.nextHop && r.nextHop in v.direct && r.nextHop != v.local
  }

  ghost predicate HasPath(v: View, n: string, r: Route) {
    exists p :: Follows(v, p, n, r)
  }

  /** r is the first link of a shortest path to n. */
  ghost predicate ShortestRoute(v: View, n: string, r: Route) {
    && HasPath(v, n, r)
    && forall p :: PathTo(v, p, n) ==> r.hops <= |p| - 1
  }

  /**
    The table lists exactly the reachable nodes other than the local one, each with the first link of a shortest path.
   */
  ghost predicate ExactTable(v: View, table: map<string, Route>) {
    forall n :: if n in table then n != v.local && ShortestRoute(v, n, table[n])
                else n == v.local || !Reachable(v, n)
  }

  datatype QueueItem = QueueItem(nodeID: string, nextHop: string, hops: int)

  // ---------- Search state ----------

  /** Nodes met so far and the route each was met by; they are in the table or still in the queue. */
  ghost predicate Met(v: View, table: map<string, Route>, queue: seq<QueueItem>, visited: set<string>,
                      found: map<string, Route>) {
    && v.local !in found && visited == found.Keys + {v.local}
    && (forall n :: n in table ==> n in found && table[n] == found[n])
    && (forall i :: 0 <= i < |queue| ==> InQueueAs(queue[i], found))
    && (forall n :: n in found ==> n in table || Queued(queue, n))
    && (forall n :: n in found ==> HasPath(v, n, found[n]))
  }

  ghost predicate InQueueAs(item: QueueItem, found: map<string, Route>) {
    item.nodeID in found && found[item.nodeID] == Route(item.nextHop, item.hops)
  }

  ghost predicate Queued(queue: seq<QueueItem>, n: string) {
    exists i :: 0 <= i < |queue| && queue[i].nodeID == n
  }

  /** The queue is in order of distance and spans at most two distances. */
  ghost predicate Ordered(queue: seq<QueueItem>, level: int) {
    && (forall i :: 0 <= i < |queue| ==> level <= queue[i].hops <= level + 1)
    && forall i, j :: 0 <= i < j < |queue| ==> queue[i].hops <= queue[j].hops
  }

  /** Every neighbour of a node already in the table has been met, at most one link farther away. */
  ghost predicate Expanded(v: View, found: map<string, Route>, n: string)
    requires n in found
  {
    forall m :: n in v.peers && m in v.peers[n] && m != v.local ==> m in found && found[m].hops <= found[n].hops + 1
  }

  ghost predicate DirectMet(v: View, found: map<string, Route>) {
    forall n :: n in v.direct && n != v.local ==> n in found && found[n].hops == 1
  }

  ghost predicate AllExpanded(v: View, table: map<string, Route>, found: map<string, Route>) {
    forall n :: n in table ==> n in found && Expanded(v, found, n)
  }

  ghost predicate NotAbove(table: map<string, Route>, level: int) {
    forall n :: n in table ==> table[n].hops <= level
  }

  // ---------- Steps of the search ----------

  lemma {:induction false} NeighbourPath(v: View, found: map<string, Route>, curr: string, m: string)
    requires curr in found && curr != v.local && curr in v.peers && m in v.peers[curr]
    requires HasPath(v, curr, found[curr])
    ensures HasPath(v, m, Route(found[curr].nextHop, found[curr].hops + 1))
  {
    var p :| Follows(v, p, curr, found[curr]);
    var q := p + [m];
    forall i | 0 <= i < |q| - 1 ensures Edge(v, q[i], q[i + 1]) {
      if i < |p| - 1 {
        assert Edge(v, p[i], p[i + 1]);
      }
    }
    assert Follows(v, q, m, Route(found[curr].nextHop, found[curr].hops + 1));
  }

  /** Meeting one more node: it goes to the back of the queue. */
  lemma MeetNode(v: View, table: map<string, Route>, queue: seq<QueueItem>, visited: set<string>,
                 found: map<string, Route>,
                 item: QueueItem)
    requires Met(v, table, queue, visited, found) && item.nodeID !in visited
    requires HasPath(v, item.nodeID, Route(item.nextHop, item.hops))
    ensures Met(v, table, queue + [item], visited + {item.nodeID}, found[item.nodeID := Route(item.nextHop, item.hops)])
  {
    hide HasPath;
    var q := queue + [item];
    forall n | n in found ensures n in table || Queued(q, n) {
      if Queued(queue, n) {
        var i :| 0 <= i < |queue| && queue[i].nodeID == n;
        assert q[i].nodeID == n;
      }
    }
    assert q[|queue|].nodeID == item.nodeID;
  }

  /** Taking the front of the queue into the table. */
  lemma SettleNode(v: View, table: map<string, Route>, queue: seq<QueueItem>, visited: set<string>,
                   found: map<string, Route>)
    requires Met(v, table, queue, visited, found) && queue != []
    ensures Met(v, table[queue[0].nodeID := Route(queue[0].nextHop, queue[0].hops)], queue[1..], visited, found)
    ensures InQueueAs(queue[0], found) && queue[0].nodeID != v.local
  {
    hide HasPath;
    assert InQueueAs(queue[0], found);
    var table' := table[queue[0].nodeID := Route(queue[0].nextHop, queue[0].hops)];
    forall n | n in found ensures n in table' || Queued(queue[1..], n) {
      if n !in table' {
        var i :| 0 <= i < |queue| && queue[i].nodeID == n;
        assert queue[1..][i - 1].nodeID == n;
      }
    }
  }

  /** A node already met is at most one link farther than the node at the front of the queue. */
  lemma MetNotFar(v: View, table: map<string, Route>, queue: seq<QueueItem>, visited: set<string>,
                  found: map<string, Route>,
                  level: int, m: string)
    requires Met(v, table, queue, visited, found) && Ordered(queue, level) && NotAbove(table, level) && m in found
    ensures found[m].hops <= level + 1
  {
    hide HasPath;
    if m !in table {
      var i :| 0 <= i < |queue| && queue[i].nodeID == m;
      assert InQueueAs(queue[i], found);
    }
  }

  /** Once every table entry is expanded and nothing is queued, no path is shorter than the table says. */
  lemma {:induction false} NoShorterPath(v: View, table: map<string, Route>, p: seq<string>)
    requires v.local !in table && DirectMet(v, table) && AllExpanded(v, table, table)
    requires IsPath(v, p) && p[0] == v.local && p[|p| - 1] != v.local
    ensures p[|p| - 1] in table && table[p[|p| - 1]].hops <= |p| - 1
    decreases |p|
  {
    var k := |p| - 1;
    assert Edge(v, p[k - 1], p[(k - 1) + 1]);
    if p[k - 1] != v.local {
      var q := p[..k];
      forall i | 0 <= i < |q| - 1 ensures Edge(v, q[i], q[i + 1]) {
        assert Edge(v, p[i], p[i + 1]);
      }
      NoShorterPath(v, table, q);
      assert Expanded(v, table, p[k - 1]);
    }
  }

  lemma SearchDone(v: View, table: map<string, Route>, visited: set<string>, found: map<string, Route>)
    requires Met(v, table, [], visited, found) && DirectMet(v, found) && AllExpanded(v, table, found)
    ensures ExactTable(v, table)
  {
    assert table == found;
    hide HasPath, Expanded, IsPath;
    forall p, n | PathTo(v, p, n) ensures n != v.local ==> n in table && table[n].hops <= |p| - 1 {
      if n != v.local {
        NoShorterPath(v, table, p);
      }
    }
  }

  /** Every node any list mentions. */
  ghost function Universe(v: View): set<string> {
    (set n | n in v.direct) + set u, n | u in v.peers && n in v.peers[u] :: n
  }

  class Router {
    const localNodeID: string
    var peersMap: map<string, seq<string>>
    var routingTable: map<string, Route>

    constructor (localNodeID: string)
      ensures this.localNodeID == localNodeID && peersMap == map[] && routingTable == map[]
    {
      this.localNodeID, peersMap, routingTable := localNodeID, map[], map[];
    }

    ghost function Sees(direct: seq<string>): View
      reads this
    {
      View(localNodeID, direct, peersMap)
    }

    method UpdateNodeConnections(nodeID: string, directPeers: seq<string>, direct: seq<string>)
      modifies this
      ensures peersMap == old(peersMap)[nodeID := directPeers]
      ensures ExactTable(Sees(direct), routingTable)
    {
      peersMap := peersMap[nodeID := directPeers];
      RecalculateRoutes(direct);
    }

    method DeleteNode(nodeID: string, direct: seq<string>)
      modifies this
      ensures peersMap == old(peersMap) - {nodeID}
      ensures ExactTable(Sees(direct), routingTable)
    {
      peersMap := peersMap - {nodeID};
      RecalculateRoutes(direct);
    }

    /** Rebuilds the table from the current connections (`direct`) and the reported peer lists. */
    method RecalculateRoutes(direct: seq<string>)
      modifies this`routingTable
      ensures ExactTable(Sees(direct), routingTable)
    {
      ghost var v := Sees(direct);
      routingTable := map[];
      var visited, queue;
      ghost var found;
      visited, queue, found := QueueNeighbours(direct);
      Rebase(queue, routingTable, 1) by { assert NotAbove(routingTable, 1); }
      assert AllExpanded(v, routingTable, found);
      hide Met, DirectMet, AllExpanded, Ordered, NotAbove, Universe, InQueueAs, ExactTable;
      while |queue| > 0
        invariant v == Sees(direct)
        invariant Met(v, routingTable, queue, visited, found) && DirectMet(v, found) &&
                    AllExpanded(v, routingTable, found)
        invariant queue != [] ==> Ordered(queue, queue[0].hops) && NotAbove(routingTable, queue[0].hops)
        decreases Universe(v) - visited, |queue|
      {
        var curr := queue[0];
        SettleNode(v, routingTable, queue, visited, found);
        RestOrdered(queue);
        queue := queue[1..];
        ghost var before := routingTable;
        routingTable := routingTable[curr.nodeID := Route(curr.nextHop, curr.hops)];
        var neighbours := if curr.nodeID in peersMap then peersMap[curr.nodeID] else [];
        visited, queue, found := VisitNeighbours(v, before, curr, neighbours, queue, visited, found);
      }
      SearchDone(v, routingTable, visited, found);
    }

    /** Queues the nodes directly connected to this one; a peer listed twice is queued twice. */
    method QueueNeighbours(direct: seq<string>)
      returns (visited: set<string>, queue: seq<QueueItem>, ghost found: map<string, Route>)
      ensures Met(Sees(direct), map[], queue, visited, found) && DirectMet(Sees(direct), found)
      ensures Ordered(queue, 1) && forall i :: 0 <= i < |queue| ==> queue[i].hops == 1
    {
      ghost var v := Sees(direct);
      visited, queue, found := {localNodeID}, [], map[];
      for i := 0 to |direct|
        invariant Met(v, map[], queue, visited, found)
        invariant forall k :: 0 <= k < i && direct[k] != localNodeID ==> direct[k] in found
        invariant forall n :: n in found ==> found[n] == Route(n, 1)
        invariant forall k :: 0 <= k < |queue| ==> queue[k].hops == 1
      {
        var n := direct[i];
        if n == localNodeID {
          continue;
        }
        var item := QueueItem(n, n, 1);
        assert Follows(v, [localNodeID, n], n, Route(n, 1));
        if n in visited {
          RequeueDirect(v, queue, visited, found, item);
        } else {
          MeetNode(v, map[], queue, visited, found, item);
        }
        visited, queue, found := visited + {n}, queue + [item], found[n := Route(n, 1)];
      }
    }

    /** Queues the neighbours of the node just settled that were never met. */
    method VisitNeighbours(ghost v: View, ghost before: map<string, Route>, curr: QueueItem, neighbours: seq<string>,
                           queue0: seq<QueueItem>, visited0: set<string>, ghost found0: map<string, Route>)
      returns (visited: set<string>, queue: seq<QueueItem>, ghost found: map<string, Route>)
      requires v.local == localNodeID && InQueueAs(curr, found0) && curr.nodeID != v.local
      requires routingTable == before[curr.nodeID := Route(curr.nextHop, curr.hops)]
      requires neighbours == if curr.nodeID in v.peers then v.peers[curr.nodeID] else []
      requires Met(v, routingTable, queue0, visited0, found0) && DirectMet(v, found0)
      requires AllExpanded(v, before, found0)
      requires Ordered(queue0, curr.hops) && NotAbove(before, curr.hops)
      ensures Met(v, routingTable, queue, visited, found) && DirectMet(v, found)
      ensures AllExpanded(v, routingTable, found)
      ensures queue != [] ==> Ordered(queue, queue[0].hops) && NotAbove(routingTable, queue[0].hops)
      ensures visited0 <= visited <= visited0 + Universe(v)
      ensures visited == visited0 ==> queue == queue0
    {
      visited, queue, found := visited0, queue0, found0;
      hide Met, Ordered, Universe, DirectMet, AllExpanded;
      assert NotAbove(routingTable, curr.hops);
      assert Extends(found, found0);
      for i := 0 to |neighbours|
        invariant Met(v, routingTable, queue, visited, found)
        invariant Extends(found, found0)
        invariant forall k :: 0 <= k < i && neighbours[k] != v.local ==>
                    neighbours[k] in found && found[neighbours[k]].hops <= curr.hops + 1
        invariant Ordered(queue, curr.hops)
        invariant visited0 <= visited <= visited0 + Universe(v)
        invariant visited == visited0 ==> queue == queue0
      {
        if neighbours[i] != localNodeID {
          visited, queue, found := VisitNeighbour(v, curr, neighbours[i], queue, visited, found);
        }
      }
      ExpandedNow(v, before, curr, found0, found);
      KeepsDirect(v, found0, found);
      Rebase(queue, routingTable, curr.hops);
    }

    /** Queues one neighbour if it was never met. */
    method VisitNeighbour(ghost v: View, curr: QueueItem, n: string,
                          queue0: seq<QueueItem>, visited0: set<string>, ghost found0: map<string, Route>)
      returns (visited: set<string>, queue: seq<QueueItem>, ghost found: map<string, Route>)
      requires v.local == localNodeID && InQueueAs(curr, found0) && curr.nodeID != v.local && n != v.local
      requires curr.nodeID in v.peers && n in v.peers[curr.nodeID]
      requires Met(v, routingTable, queue0, visited0, found0)
      requires Ordered(queue0, curr.hops) && NotAbove(routingTable, curr.hops)
      ensures Met(v, routingTable, queue, visited, found) && Extends(found, found0)
      ensures n in found && found[n].hops <= curr.hops + 1
      ensures Ordered(queue, curr.hops)
      ensures visited0 <= visited <= visited0 + Universe(v)
      ensures visited == visited0 ==> queue == queue0
    {
      hide HasPath;
      visited, queue, found := visited0, queue0, found0;
      if n !in visited {
        var item := QueueItem(n, curr.nextHop, curr.hops + 1);
        NeighbourPath(v, found, curr.nodeID, n);
        MeetNode(v, routingTable, queue, visited, found, item);
        hide Met;
        visited, queue, found := visited + {n}, queue + [item], found[n := Route(curr.nextHop, curr.hops + 1)];
      } else {
        MetNotFar(v, routingTable, queue, visited, found, curr.hops, n);
      }
    }
  }

  /** Later routes include the earlier ones unchanged. */
  ghost predicate Extends(found: map<string, Route>, found0: map<string, Route>) {
    forall n :: n in found0 ==> n in found && found[n] == found0[n]
  }

  lemma ExpandedNow(v: View, before: map<string, Route>, curr: QueueItem, found0: map<string, Route>,
                    found: map<string, Route>)
    requires AllExpanded(v, before, found0) && Extends(found, found0) && InQueueAs(curr, found0)
    requires curr.nodeID in v.peers ==> forall n :: n in v.peers[curr.nodeID] && n != v.local ==>
               n in found && found[n].hops <= curr.hops + 1
    ensures AllExpanded(v, before[curr.nodeID := Route(curr.nextHop, curr.hops)], found)
  {
    forall n | n in before || n == curr.nodeID ensures n in found && Expanded(v, found, n) {
      if n in before {
        assert Expanded(v, found0, n);
      }
    }
  }

  lemma KeepsDirect(v: View, found0: map<string, Route>, found: map<string, Route>)
    requires DirectMet(v, found0) && Extends(found, found0)
    ensures DirectMet(v, found)
  {
  }

  lemma RestOrdered(queue: seq<QueueItem>)
    requires queue != [] && Ordered(queue, queue[0].hops)
    ensures Ordered(queue[1..], queue[0].hops)
  {
  }

  /** The level may be raised to that of the front of the queue. */
  lemma Rebase(queue: seq<QueueItem>, table: map<string, Route>, level: int)
    requires Ordered(queue, level) && NotAbove(table, level)
    ensures queue != [] ==> Ordered(queue, queue[0].hops) && NotAbove(table, queue[0].hops)
  {
  }

  /** Queueing a direct neighbour again changes nothing that matters. */
  lemma RequeueDirect(v: View, queue: seq<QueueItem>, visited: set<string>, found: map<string, Route>, item: QueueItem)
    requires Met(v, map[], queue, visited, found) && item.nodeID in found &&
               found[item.nodeID] == Route(item.nextHop, item.hops)
    ensures Met(v, map[], queue + [item], visited + {item.nodeID}, found[item.nodeID := Route(item.nextHop, item.hops)])
  {
    hide HasPath;
    var q := queue + [item];
    assert found[item.nodeID := Route(item.nextHop, item.hops)] == found;
    forall n | n in found ensures Queued(q, n) {
      var i :| 0 <= i < |queue| && queue[i].nodeID == n;
      assert q[i].nodeID == n;
    }
  }
}
