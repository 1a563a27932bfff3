/** Multi-hop streams: the relay handshake handed from node to node with a hop budget. */
module MeshRelay {
  import opened MeshRouter

  datatype Handshake = Handshake(dest: string, hops: int)

  datatype Outcome =
    | Delivered
    | NoRoute
    | UntrustedRequester
    | UntrustedDestination
    | HopsExceeded
    | OpenFailed

  /**
    What every node of the mesh would answer: live connections, tables, trust, and whether opening a stream succeeds.
   */
  datatype Mesh = Mesh(
    connected: (string, string) -> bool,
    table: string -> map<string, Route>,
    trusts: (string, string) -> bool,
    opens: (string, string) -> bool)

  /** The handlers a request passes through, in order, and how it ends. */
  datatype Relayed = Relayed(handlers: seq<string>, outcome: Outcome)

  const MAX_HOPS := 5

  /** The relay handler of one node; it answers its requester only after the next handler has answered it. */
  function HandleRelay(mesh: Mesh, node: string, requester: string, hs: Handshake): Relayed
    decreases if hs.hops > 0 then hs.hops else 0
  {
    if !mesh.trusts(node, requester) then Relayed([node], UntrustedRequester)
    else if !mesh.trusts(node, hs.dest) then Relayed([node], UntrustedDestination)
    else if hs.hops <= 0 then Relayed([node], HopsExceeded)
    else if mesh.connected(node, hs.dest) then
      Relayed([node], if mesh.opens(node, hs.dest) then Delivered else OpenFailed)
    else if hs.dest !in mesh.table(node) then Relayed([node], NoRoute)
    else
      var next := mesh.table(node)[hs.dest].nextHop;
      if !mesh.opens(node, next) then Relayed([node], OpenFailed)
      else
        var rest := HandleRelay(mesh, next, node, hs.(hops := hs.hops - 1));
        Relayed([node] + rest.handlers, rest.outcome)
  }

  /** Opening a stream: directly if connected, otherwise through the next hop. */
  function NewStream(mesh: Mesh, origin: string, dest: string): Relayed {
    if mesh.connected(origin, dest) then Relayed([], if mesh.opens(origin, dest) then Delivered else OpenFailed)
    else if dest !in mesh.table(origin) then Relayed([], NoRoute)
    else
      var next := mesh.table(origin)[dest].nextHop;
      if !mesh.opens(origin, next) then Relayed([], OpenFailed)
      else HandleRelay(mesh, next, origin, Handshake(dest, MAX_HOPS))
  }

  // ---------- Any tables at all ----------

  /** However the tables disagree, a request passes at most one handler more than its hop budget. */
  lemma {:induction false} RelayEnds(mesh: Mesh, node: string, requester: string, hs: Handshake)
    ensures 1 <= |HandleRelay(mesh, node, requester, hs).handlers| <= (if hs.hops > 0 then hs.hops else 0) + 1
    decreases if hs.hops > 0 then hs.hops else 0
  {
    if hs.hops > 0 && hs.dest in mesh.table(node) {
      RelayEnds(mesh, mesh.table(node)[hs.dest].nextHop, node, hs.(hops := hs.hops - 1));
    }
  }

  lemma StreamEnds(mesh: Mesh, origin: string, dest: string)
    ensures |NewStream(mesh, origin, dest).handlers| <= 6
  {
    if dest in mesh.table(origin) {
      RelayEnds(mesh, mesh.table(origin)[dest].nextHop, origin, Handshake(dest, MAX_HOPS));
    }
  }

  /**
    A delivered request was carried along live streams between nodes that trust their requester and the destination; the
    last handler is directly connected to it.
   */
  lemma {:induction false} DeliveryIsTrusted(mesh: Mesh, node: string, requester: string, hs: Handshake, k: nat)
    requires HandleRelay(mesh, node, requester, hs).outcome == Delivered
    requires k < |HandleRelay(mesh, node, requester, hs).handlers|
    ensures var h := HandleRelay(mesh, node, requester, hs).handlers;
            && mesh.trusts(h[k], hs.dest) && mesh.trusts(h[k], if k == 0 then requester else h[k - 1])
            && (if k + 1 < |h| then mesh.opens(h[k], h[k + 1])
                else mesh.connected(h[k], hs.dest) && mesh.opens(h[k], hs.dest))
    decreases if hs.hops > 0 then hs.hops else 0
  {
    if !mesh.connected(node, hs.dest) {
      var next, less := mesh.table(node)[hs.dest].nextHop, hs.(hops := hs.hops - 1);
      RelayEnds(mesh, next, node, less);
      DeliveryIsTrusted(mesh, next, node, less, if k == 0 then 0 else k - 1);
      assert HandleRelay(mesh, next, node, less).handlers[0] == next;
    }
  }

  /**
    Handler k of h does its part: it trusts both ends and hands on along its table, or at the end opens the destination.
   */
  ghost predicate CarriesAt(mesh: Mesh, requester: string, dest: string, h: seq<string>, k: nat)
    requires k < |h|
  {
    && mesh.trusts(h[k], if k == 0 then requester else h[k - 1]) && mesh.trusts(h[k], dest)
    && if k + 1 == |h| then mesh.connected(h[k], dest) && mesh.opens(h[k], dest)
       else && !mesh.connected(h[k], dest) && dest in mesh.table(h[k])
            && mesh.table(h[k])[dest].nextHop == h[k + 1] && mesh.opens(h[k], h[k + 1])
  }

  ghost predicate Carries(mesh: Mesh, requester: string, dest: string, h: seq<string>) {
    h != [] && forall k :: 0 <= k < |h| ==> CarriesAt(mesh, requester, dest, h, k)
  }

  lemma CarriesFurther(mesh: Mesh, requester: string, dest: string, node: string, rest: seq<string>)
    requires rest != []
    ensures Carries(mesh, requester, dest, [node] + rest) <==>
              && mesh.trusts(node, requester) && mesh.trusts(node, dest)
              && !mesh.connected(node, dest) && dest in mesh.table(node)
              && mesh.table(node)[dest].nextHop == rest[0] && mesh.opens(node, rest[0])
              && Carries(mesh, node, dest, rest)
  {
    var h := [node] + rest;
    assert h[0] == node && h[1] == rest[0];
    forall k | 0 <= k < |rest|
      ensures CarriesAt(mesh, node, dest, rest, k) <==> CarriesAt(mesh, requester, dest, h, k + 1)
    {
      assert h[k + 1] == rest[k] && h[k] == if k == 0 then node else rest[k - 1];
      assert k + 1 < |rest| ==> h[k + 2] == rest[k + 1];
    }
    var first := CarriesAt(mesh, requester, dest, h, 0);
    hide CarriesAt;
    if Carries(mesh, requester, dest, h) {
      forall k | 0 <= k < |rest| ensures CarriesAt(mesh, node, dest, rest, k) {
        assert CarriesAt(mesh, requester, dest, h, k + 1);
      }
    }
    if first && Carries(mesh, node, dest, rest) {
      forall k | 0 <= k < |h| ensures CarriesAt(mesh, requester, dest, h, k) {
        assert k > 0 ==> CarriesAt(mesh, node, dest, rest, k - 1);
      }
    }
  }

  lemma CarriesAlone(mesh: Mesh, requester: string, dest: string, node: string)
    ensures Carries(mesh, requester, dest, [node]) <==>
              && mesh.trusts(node, requester) && mesh.trusts(node, dest)
              && mesh.connected(node, dest) && mesh.opens(node, dest)
  {
    assert [node][0] == node;
    assert Carries(mesh, requester, dest, [node]) <==> CarriesAt(mesh, requester, dest, [node], 0);
  }

  lemma {:induction false} DeliveredIsCarried(mesh: Mesh, node: string, requester: string, hs: Handshake)
    requires HandleRelay(mesh, node, requester, hs).outcome == Delivered
    ensures var h := HandleRelay(mesh, node, requester, hs).handlers;
            h != [] && h[0] == node && |h| <= hs.hops && Carries(mesh, requester, hs.dest, h)
    decreases if hs.hops > 0 then hs.hops else 0
  {
    hide Carries;
    var h := HandleRelay(mesh, node, requester, hs).handlers;
    if mesh.connected(node, hs.dest) {
      assert h == [node];
      CarriesAlone(mesh, requester, hs.dest, node);
    } else {
      var next, less := mesh.table(node)[hs.dest].nextHop, hs.(hops := hs.hops - 1);
      var rest := HandleRelay(mesh, next, node, less).handlers;
      assert h == [node] + rest;
      DeliveredIsCarried(mesh, next, node, less);
      CarriesFurther(mesh, requester, hs.dest, node, rest);
    }
  }

  lemma {:induction false} CarriedIsDelivered(mesh: Mesh, node: string, requester: string, hs: Handshake,
                                              h: seq<string>)
    requires h != [] && h[0] == node && |h| <= hs.hops && Carries(mesh, requester, hs.dest, h)
    ensures HandleRelay(mesh, node, requester, hs) == Relayed(h, Delivered)
    decreases |h|
  {
    hide Carries;
    var rest := h[1..];
    assert h == [node] + rest;
    if rest == [] {
      assert h == [node];
      CarriesAlone(mesh, requester, hs.dest, node);
    } else {
      var less := hs.(hops := hs.hops - 1);
      CarriesFurther(mesh, requester, hs.dest, node, rest);
      CarriedIsDelivered(mesh, rest[0], node, less, rest);
    }
  }

  /**
    In any mesh whatever, a stream is opened exactly when the origin is connected and opens it, or its table and those
    of at most five handlers lead to one that is, each handler trusting both ends and every stream between them opening.
   */
  lemma StreamOpensExactly(mesh: Mesh, origin: string, dest: string)
    ensures NewStream(mesh, origin, dest).outcome == Delivered <==>
              if mesh.connected(origin, dest) then mesh.opens(origin, dest)
              else && dest in mesh.table(origin)
                   && var next := mesh.table(origin)[dest].nextHop;
                      mesh.opens(origin, next) && CarriedFrom(mesh, origin, dest, next, 5)
  {
    hide HandleRelay, CarriedFrom;
    if !mesh.connected(origin, dest) && dest in mesh.table(origin) {
      var next, hs := mesh.table(origin)[dest].nextHop, Handshake(dest, MAX_HOPS);
      RelayedExactly(mesh, next, origin, hs);
    }
  }

  /** At most so many handlers, the first of them this one, carry the request. */
  ghost predicate CarriedFrom(mesh: Mesh, requester: string, dest: string, first: string, hops: int) {
    exists h :: h != [] && h[0] == first && |h| <= hops && Carries(mesh, requester, dest, h)
  }

  lemma RelayedExactly(mesh: Mesh, node: string, requester: string, hs: Handshake)
    ensures HandleRelay(mesh, node, requester, hs).outcome == Delivered <==>
              CarriedFrom(mesh, requester, hs.dest, node, hs.hops)
  {
    if HandleRelay(mesh, node, requester, hs).outcome == Delivered {
      DeliveredIsCarried(mesh, node, requester, hs);
    }
    hide HandleRelay, Carries;
    if CarriedFrom(mesh, requester, hs.dest, node, hs.hops) {
      var h :| h != [] && h[0] == node && |h| <= hs.hops && Carries(mesh, requester, hs.dest, h);
      CarriedIsDelivered(mesh, node, requester, hs, h);
    }
  }

  // ---------- One shared topology ----------

  type Topology = map<string, seq<string>>

  function PeersOf(t: Topology, n: string): seq<string> {
    if n in t then t[n] else []
  }

  ghost predicate IsWalk(t: Topology, p: seq<string>) {
    p != [] && forall i :: 0 <= i < |p| - 1 ==> p[i + 1] in PeersOf(t, p[i])
  }

  ghost predicate Walk(t: Topology, p: seq<string>, a: string, b: string) {
    IsWalk(t, p) && p[0] == a && p[|p| - 1] == b
  }

  /** The shortest walk from a to b has d links. */
  ghost predicate Distance(t: Topology, a: string, b: string, d: nat) {
    (exists p :: Walk(t, p, a, b) && |p| == d + 1) && forall p :: Walk(t, p, a, b) ==> d < |p|
  }

  /**
    Every node is connected to its peers in t, has heard the peer lists of all others, and has an exact table; whom it
    trusts is open.
   */
  ghost predicate Shares(mesh: Mesh, t: Topology) {
    && (forall a, b :: mesh.connected(a, b) <==> b in PeersOf(t, a))
    && (forall a :: ExactTable(View(a, PeersOf(t, a), t), mesh.table(a)))
    && (forall a, b :: b in PeersOf(t, a) ==> mesh.opens(a, b))
  }

  lemma PathIsWalk(t: Topology, a: string, p: seq<string>)
    ensures IsPath(View(a, PeersOf(t, a), t), p) <==> IsWalk(t, p)
  {
    var v := View(a, PeersOf(t, a), t);
    forall i | 0 <= i < |p| - 1 ensures Edge(v, p[i], p[i + 1]) <==> p[i + 1] in PeersOf(t, p[i]) {
    }
    if IsPath(v, p) {
      forall i | 0 <= i < |p| - 1 ensures p[i + 1] in PeersOf(t, p[i]) {
        assert Edge(v, p[i], p[i + 1]);
      }
    }
  }

  /** Distance one means connected. */
  lemma AdjacentIsOne(t: Topology, a: string, b: string, d: nat)
    requires Distance(t, a, b, d) && a != b
    ensures 1 <= d && (d == 1 <==> b in PeersOf(t, a))
  {
    var p :| Walk(t, p, a, b) && |p| == d + 1;
    if b in PeersOf(t, a) {
      assert Walk(t, [a, b], a, b);
    }
    if d == 1 {
      assert p[0 + 1] in PeersOf(t, p[0]);
    }
  }

  /** The node a table points to is a peer, and exactly one link closer. */
  lemma NextHopIsCloser(mesh: Mesh, t: Topology, a: string, b: string, d: nat)
    requires Shares(mesh, t) && Distance(t, a, b, d) && a != b
    ensures b in mesh.table(a)
    ensures var next := mesh.table(a)[b].nextHop; next in PeersOf(t, a) && Distance(t, next, b, d - 1)
  {
    var v := View(a, PeersOf(t, a), t);
    AdjacentIsOne(t, a, b, d);
    var w :| Walk(t, w, a, b) && |w| == d + 1;
    PathIsWalk(t, a, w);
    assert PathTo(v, w, b);
    assert Reachable(v, b);
    var r := mesh.table(a)[b];
    assert ShortestRoute(v, b, r);
    var p :| Follows(v, p, b, r);
    PathIsWalk(t, a, p);
    assert |p| - 1 == d;
    TailWalk(t, p, a, b);
    forall q | Walk(t, q, r.nextHop, b) ensures d - 1 < |q| {
      PrependWalk(t, a, q, b);
    }
  }

  lemma TailWalk(t: Topology, p: seq<string>, a: string, b: string)
    requires Walk(t, p, a, b) && |p| > 1
    ensures Walk(t, p[1..], p[1], b)
  {
    forall i | 0 <= i < |p[1..]| - 1 ensures p[1..][i + 1] in PeersOf(t, p[1..][i]) {
      assert p[(i + 1) + 1] in PeersOf(t, p[i + 1]);
    }
  }

  lemma PrependWalk(t: Topology, a: string, q: seq<string>, b: string)
    requires q != [] && Walk(t, q, q[0], b) && q[0] in PeersOf(t, a)
    ensures Walk(t, [a] + q, a, b)
  {
    var p := [a] + q;
    forall i | 0 <= i < |p| - 1 ensures p[i + 1] in PeersOf(t, p[i]) {
      if i > 0 {
        assert q[(i - 1) + 1] in PeersOf(t, q[i - 1]);
      }
    }
  }

  /** The handlers that the tables lead through from node on, the last one a peer of dest: one for each of d links. */
  ghost function TableRoute(mesh: Mesh, node: string, dest: string, d: nat): seq<string>
    decreases d
  {
    if d == 0 then []
    else if d == 1 || dest !in mesh.table(node) then [node]
    else [node] + TableRoute(mesh, mesh.table(node)[dest].nextHop, dest, d - 1)
  }

  /** Handler k of the route trusts the destination, and the handler before it or at first the requester. */
  ghost predicate TrustsAt(mesh: Mesh, requester: string, route: seq<string>, dest: string, k: nat)
    requires k < |route|
  {
    mesh.trusts(route[k], if k == 0 then requester else route[k - 1]) && mesh.trusts(route[k], dest)
  }

  ghost predicate TrustedAlong(mesh: Mesh, requester: string, route: seq<string>, dest: string) {
    forall k :: 0 <= k < |route| ==> TrustsAt(mesh, requester, route, dest, k)
  }

  lemma TrustedFurther(mesh: Mesh, requester: string, node: string, rest: seq<string>, dest: string)
    ensures TrustedAlong(mesh, requester, [node] + rest, dest) <==>
              mesh.trusts(node, requester) && mesh.trusts(node, dest) && TrustedAlong(mesh, node, rest, dest)
  {
    var route := [node] + rest;
    forall k | 0 <= k < |rest|
      ensures TrustsAt(mesh, node, rest, dest, k) <==> TrustsAt(mesh, requester, route, dest, k + 1)
    {
      assert route[k + 1] == rest[k] && route[k] == if k == 0 then node else rest[k - 1];
    }
    assert TrustsAt(mesh, requester, route, dest, 0) <==> mesh.trusts(node, requester) && mesh.trusts(node, dest);
    hide TrustsAt;
    if TrustedAlong(mesh, requester, route, dest) {
      forall k | 0 <= k < |rest| ensures TrustsAt(mesh, node, rest, dest, k) {
        assert TrustsAt(mesh, requester, route, dest, k + 1);
      }
    }
    if TrustsAt(mesh, requester, route, dest, 0) && TrustedAlong(mesh, node, rest, dest) {
      forall k | 0 <= k < |route| ensures TrustsAt(mesh, requester, route, dest, k) {
        assert k > 0 ==> TrustsAt(mesh, node, rest, dest, k - 1);
      }
    }
  }

  /** A handler on the way: it refuses, or forwards to a node one link closer. */
  ghost predicate Forwards(mesh: Mesh, t: Topology, node: string, requester: string, hs: Handshake, d: nat) {
    && d > 1 && hs.dest in mesh.table(node)
    && var next := mesh.table(node)[hs.dest].nextHop;
       var rest := HandleRelay(mesh, next, node, hs.(hops := hs.hops - 1));
       && HandleRelay(mesh, node, requester, hs) == Relayed([node] + rest.handlers, rest.outcome)
       && next != hs.dest && Distance(t, next, hs.dest, d - 1)
  }

  lemma RelayForwards(mesh: Mesh, t: Topology, node: string, requester: string, hs: Handshake, d: nat)
    requires Shares(mesh, t) && Distance(t, node, hs.dest, d) && node != hs.dest && d > 1
    requires mesh.trusts(node, requester) && mesh.trusts(node, hs.dest) && hs.hops > 0
    ensures Forwards(mesh, t, node, requester, hs, d)
  {
    AdjacentIsOne(t, node, hs.dest, d);
    NextHopIsCloser(mesh, t, node, hs.dest, d);
    SelfDistance(t, mesh.table(node)[hs.dest].nextHop, hs.dest, d - 1);
    hide Distance, ExactTable, PeersOf;
  }

  /** What one handler does when all share t. */
  lemma RelayStep(mesh: Mesh, t: Topology, node: string, requester: string, hs: Handshake, d: nat)
    requires Shares(mesh, t) && Distance(t, node, hs.dest, d) && node != hs.dest
    ensures d >= 1
    ensures if !mesh.trusts(node, requester) then
              HandleRelay(mesh, node, requester, hs) == Relayed([node], UntrustedRequester)
            else if !mesh.trusts(node, hs.dest) then
              HandleRelay(mesh, node, requester, hs) == Relayed([node], UntrustedDestination)
            else if hs.hops <= 0 then HandleRelay(mesh, node, requester, hs) == Relayed([node], HopsExceeded)
            else if d == 1 then HandleRelay(mesh, node, requester, hs) == Relayed([node], Delivered)
            else Forwards(mesh, t, node, requester, hs, d)
  {
    AdjacentIsOne(t, node, hs.dest, d);
    hide Distance, ExactTable, Forwards;
    if mesh.trusts(node, requester) && mesh.trusts(node, hs.dest) && hs.hops > 0 && d > 1 {
      RelayForwards(mesh, t, node, requester, hs, d);
    }
  }

  /**
    The handlers of r are the first ones of the route, handler k at distance d - k; all of it if the request is
    delivered.
   */
  ghost predicate AlongRoute(t: Topology, r: Relayed, route: seq<string>, dest: string, d: nat) {
    && r.handlers <= route && |r.handlers| <= d
    && (r.outcome == Delivered ==> r.handlers == route && |route| == d)
    && forall k :: 0 <= k < |r.handlers| ==> Distance(t, r.handlers[k], dest, d - k)
  }

  /**
    With one topology shared by all and any trust, a request is delivered exactly when its budget covers the distance
    and every handler on the tables' route trusts its requester and the destination.
   */
  lemma {:induction false} RelayDelivers(mesh: Mesh, t: Topology, node: string, requester: string, hs: Handshake,
                                         d: nat)
    requires Shares(mesh, t) && Distance(t, node, hs.dest, d) && node != hs.dest
    ensures var r, route := HandleRelay(mesh, node, requester, hs), TableRoute(mesh, node, hs.dest, d);
            && (r.outcome == Delivered <==> d <= hs.hops && TrustedAlong(mesh, requester, route, hs.dest))
            && AlongRoute(t, r, route, hs.dest, d)
    decreases if hs.hops > 0 then hs.hops else 0
  {
    hide HandleRelay, Shares, Distance, TrustedAlong;
    RelayStep(mesh, t, node, requester, hs, d);
    var r := HandleRelay(mesh, node, requester, hs);
    if mesh.trusts(node, requester) && mesh.trusts(node, hs.dest) && hs.hops > 0 && d > 1 {
      var next, less := mesh.table(node)[hs.dest].nextHop, hs.(hops := hs.hops - 1);
      RelayDelivers(mesh, t, next, node, less, d - 1);
      TrustedFurther(mesh, requester, node, TableRoute(mesh, next, hs.dest, d - 1), hs.dest);
      RouteExtends(t, HandleRelay(mesh, next, node, less), TableRoute(mesh, next, hs.dest, d - 1), node, hs.dest, d);
    } else {
      RouteStarts(mesh, node, hs.dest, d);
      var rest :| TableRoute(mesh, node, hs.dest, d) == [node] + rest;
      TrustedFurther(mesh, requester, node, rest, hs.dest);
      if d == 1 {
        assert rest == [];
        NobodyElse(mesh, node, hs.dest);
      }
    }
  }

  lemma NobodyElse(mesh: Mesh, requester: string, dest: string)
    ensures TrustedAlong(mesh, requester, [], dest)
  {
  }

  lemma RouteStarts(mesh: Mesh, node: string, dest: string, d: nat)
    requires d > 0
    ensures exists rest :: TableRoute(mesh, node, dest, d) == [node] + rest
  {
    if d == 1 || dest !in mesh.table(node) {
      assert TableRoute(mesh, node, dest, d) == [node] + [];
    }
  }

  lemma RouteExtends(t: Topology, rest: Relayed, route: seq<string>, node: string, dest: string, d: nat)
    requires d > 1 && Distance(t, node, dest, d) && AlongRoute(t, rest, route, dest, d - 1)
    ensures AlongRoute(t, Relayed([node] + rest.handlers, rest.outcome), [node] + route, dest, d)
  {
    hide Distance;
    var h := [node] + rest.handlers;
    forall k | 0 <= k < |h| ensures Distance(t, h[k], dest, d - k) {
      if k > 0 {
        assert Distance(t, rest.handlers[k - 1], dest, (d - 1) - (k - 1));
      }
    }
  }

  lemma SelfDistance(t: Topology, a: string, b: string, d: nat)
    requires Distance(t, a, b, d) && d > 0
    ensures a != b
  {
    if a == b {
      assert Walk(t, [a], a, b);
    }
  }

  /** The handlers the tables lead through from origin to a node d links away. */
  ghost function StreamRoute(mesh: Mesh, origin: string, dest: string, d: nat): seq<string> {
    if d <= 1 || dest !in mesh.table(origin) then []
    else TableRoute(mesh, mesh.table(origin)[dest].nextHop, dest, d - 1)
  }

  /**
    A stream to another node at distance d is opened exactly when d is at most 6 and every handler on the tables' route
    trusts its requester and the destination; its d - 1 handlers are then that route, each one link closer.
   */
  lemma StreamDeliveredExactly(mesh: Mesh, t: Topology, origin: string, dest: string, d: nat)
    requires Shares(mesh, t) && Distance(t, origin, dest, d) && origin != dest
    ensures d >= 1
    ensures var r, route := NewStream(mesh, origin, dest), StreamRoute(mesh, origin, dest, d);
            && (r.outcome == Delivered <==> d <= 6 && TrustedAlong(mesh, origin, route, dest))
            && AlongRoute(t, r, route, dest, d - 1)
  {
    hide Distance, HandleRelay, Shares, NewStream, TableRoute, TrustedAlong, AlongRoute, PeersOf;
    StreamStep(mesh, t, origin, dest, d);
    if d > 1 {
      var hs := Handshake(dest, MAX_HOPS);
      assert hs.dest == dest && hs.hops == 5;
      RelayDelivers(mesh, t, mesh.table(origin)[dest].nextHop, origin, hs, d - 1);
    } else {
      NobodyElse(mesh, origin, dest);
      NoHandler(t, dest);
    }
  }

  lemma NoHandler(t: Topology, dest: string)
    ensures AlongRoute(t, Relayed([], Delivered), [], dest, 0)
  {
  }

  /** What the origin does when all share t. */
  lemma StreamStep(mesh: Mesh, t: Topology, origin: string, dest: string, d: nat)
    requires Shares(mesh, t) && Distance(t, origin, dest, d) && origin != dest
    ensures d >= 1 && (d == 1 ==> NewStream(mesh, origin, dest) == Relayed([], Delivered))
    ensures d > 1 ==>
              && dest in mesh.table(origin)
              && var next := mesh.table(origin)[dest].nextHop;
                 && NewStream(mesh, origin, dest) == HandleRelay(mesh, next, origin, Handshake(dest, MAX_HOPS))
                 && next != dest && Distance(t, next, dest, d - 1)
  {
    hide Distance, HandleRelay, ExactTable;
    AdjacentIsOne(t, origin, dest, d);
    if d > 1 {
      NextHopIsCloser(mesh, t, origin, dest, d);
      SelfDistance(t, mesh.table(origin)[dest].nextHop, dest, d - 1);
    }
  }

  /** Where everybody trusts everybody, distance alone decides. */
  lemma TrustingMeshDelivers(mesh: Mesh, t: Topology, origin: string, dest: string, d: nat)
    requires Shares(mesh, t) && Distance(t, origin, dest, d) && origin != dest
    requires forall a, b :: mesh.trusts(a, b)
    ensures NewStream(mesh, origin, dest).outcome == Delivered <==> d <= 6
    ensures NewStream(mesh, origin, dest).outcome == Delivered ==> |NewStream(mesh, origin, dest).handlers| == d - 1
  {
    hide Shares, Distance, NewStream;
    StreamDeliveredExactly(mesh, t, origin, dest, d);
  }

  /** A stream to a node that no walk reaches is refused at the origin. */
  lemma UnreachableRefused(mesh: Mesh, t: Topology, origin: string, dest: string)
    requires Shares(mesh, t) && origin != dest && forall p :: !Walk(t, p, origin, dest)
    ensures NewStream(mesh, origin, dest) == Relayed([], NoRoute)
  {
    var v := View(origin, PeersOf(t, origin), t);
    if mesh.connected(origin, dest) {
      assert Walk(t, [origin, dest], origin, dest);
    }
    forall p ensures !PathTo(v, p, dest) {
      PathIsWalk(t, origin, p);
      assert !Walk(t, p, origin, dest);
    }
    assert !Reachable(v, dest);
  }
}
