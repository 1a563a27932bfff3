/** Flow steps and their dependency graph. */
module FlowGraph {
  import opened Basics

  datatype StepType = Shell | AI | Save | Notify | Other(name: string)

  datatype Step = Step(id: string, kind: StepType, dependsOn: seq<string>, saveTo: string, path: string)

  /** Step id to the ids it depends on. */
  type Graph = map<string, seq<string>>

  /** Every dependency names a step. */
  ghost predicate Closed(g: Graph) {
    forall id, dep :: id in g && dep in g[id] ==> dep in g
  }

  /** Every dependency of an element of the order comes before it. */
  ghost predicate DepsFirst(g: Graph, order: seq<string>) {
    && (forall k :: 0 <= k < |order| ==> order[k] in g)
    && forall k, dep :: 0 <= k < |order| && dep in g[order[k]] ==> dep in order[..k]
  }

  /** order lists every step once, dependencies first. */
  ghost predicate TopologicalOrder(g: Graph, order: seq<string>) {
    && Distinct(order) && DepsFirst(g, order)
    && forall id :: id in g ==> id in order
  }

  ghost predicate Acyclic(g: Graph) {
    exists order :: TopologicalOrder(g, order)
  }

  /** p[i + 1] is a dependency of p[i], all along p. */
  ghost predicate DepPath(g: Graph, p: seq<string>) {
    && p != []
    && (forall i :: 0 <= i < |p| ==> p[i] in g)
    && forall i :: 0 <= i < |p| - 1 ==> p[i + 1] in g[p[i]]
  }

  ghost predicate IsCycle(g: Graph, p: seq<string>) {
    |p| > 1 && DepPath(g, p) && p[0] == p[|p| - 1]
  }

  /** Position of a step in an order that lists it. */
  ghost function Position(order: seq<string>, id: string): (k: nat)
    requires id in order
    ensures k < |order| && order[k] == id
  {
    var k :| 0 <= k < |order| && order[k] == id;
    k
  }

  /** Along a path of dependencies the position in a topological order falls at every step. */
  lemma {:induction false} PathDescends(g: Graph, order: seq<string>, p: seq<string>, j: nat)
    requires TopologicalOrder(g, order) && DepPath(g, p) && 0 < j < |p|
    ensures Position(order, p[j]) < Position(order, p[0])
  {
    if j > 1 {
      PathDescends(g, order, p, j - 1);
    }
    var k := Position(order, p[j - 1]);
    assert p[(j - 1) + 1] in g[p[j - 1]];
    assert p[j] in order[..k];
    var m :| 0 <= m < k && order[m] == p[j];
    assert Position(order, p[j]) == m;
  }

  /** A cyclic graph has no topological order. */
  lemma CycleRefutesOrder(g: Graph, p: seq<string>)
    requires IsCycle(g, p)
    ensures !Acyclic(g)
  {
    if order :| TopologicalOrder(g, order) {
      PathDescends(g, order, p, |p| - 1);
    }
  }
}
