/** The directed weighted graph the route finder works on: the node insertion
    order, the adjacency map (neighbour -> edge weight) and the `pos`
    attribute of each node, together with the walks through the graph and
    their cost. */
module Graphs {

  /** Node identifiers are the strings of the node list's `id` column. */
  type Node = string

  /** A position on the map, (X, Y). */
  type Point = (int, int)

  /** The outgoing edges of every node: neighbour -> weight. */
  type Adjacency = map<Node, map<Node, nat>>

  /** The failure Python reports as `KeyError(key)`. */
  datatype KeyError = KeyError(key: Node)

  /** A directed graph object: its nodes in insertion order, its edges and
      the `pos` attribute of the nodes that have one. */
  datatype Graph = Graph(nodes: seq<Node>, adj: Adjacency, pos: map<Node, Point>)

  predicate Distinct<T(==)>(s: seq<T>)
  {
    forall i, j :: 0 <= i < j < |s| ==> s[i] != s[j]
  }

  /** Every edge ends at a node of the graph. */
  ghost predicate Closed(adj: Adjacency)
  {
    forall u, v :: u in adj && v in adj[u] ==> v in adj
  }

  /** The shape every graph object has: each node listed once, the listed
      nodes are exactly the adjacency keys, edges end at nodes, and only
      nodes carry positions. */
  ghost predicate WellFormed(g: Graph)
  {
    && Distinct(g.nodes)
    && (forall n :: n in g.adj <==> n in g.nodes)
    && Closed(g.adj)
    && (forall n :: n in g.pos ==> n in g.adj)
  }

  /** `p` is a non-empty directed walk: every consecutive pair is an edge. */
  ghost predicate IsWalk(adj: Adjacency, p: seq<Node>)
  {
    && |p| > 0
    && (forall i :: 0 <= i < |p| ==> p[i] in adj)
    && (forall i :: 0 < i < |p| ==> p[i] in adj[p[i - 1]])
  }

  /** The summed edge weights of a walk. */
  ghost function Cost(adj: Adjacency, p: seq<Node>): nat
    requires IsWalk(adj, p)
    decreases |p|
  {
    if |p| == 1 then 0
    else
      assert IsWalk(adj, p[..|p| - 1]);
      Cost(adj, p[..|p| - 1]) + adj[p[|p| - 2]][p[|p| - 1]]
  }

  /** Some walk leads from `s` to `t`. */
  ghost predicate Reachable(adj: Adjacency, s: Node, t: Node)
  {
    exists p :: IsWalk(adj, p) && p[0] == s && p[|p| - 1] == t
  }

  /** A prefix of a walk is a walk, and costs no more than the whole walk. */
  lemma {:induction false} CostPrefix(adj: Adjacency, p: seq<Node>, k: nat)
    requires IsWalk(adj, p) && 0 < k <= |p|
    ensures IsWalk(adj, p[..k]) && Cost(adj, p[..k]) <= Cost(adj, p)
    decreases |p|
  {
    if k == |p| {
      assert p[..k] == p;
    } else {
      var q := p[..|p| - 1];
      assert IsWalk(adj, q);
      assert q[..k] == p[..k];
      CostPrefix(adj, q, k);
    }
  }

  /** Extending a walk at its front by an edge adds that edge's weight. */
  lemma {:induction false} CostCons(adj: Adjacency, a: Node, w: seq<Node>)
    requires IsWalk(adj, w) && a in adj && w[0] in adj[a]
    ensures IsWalk(adj, [a] + w) && Cost(adj, [a] + w) == adj[a][w[0]] + Cost(adj, w)
    decreases |w|
  {
    var aw := [a] + w;
    assert IsWalk(adj, aw) by {
      forall i | 0 < i < |aw| ensures aw[i] in adj[aw[i - 1]] {
        if i > 1 { assert aw[i] == w[i - 1] && aw[i - 1] == w[i - 2]; }
      }
    }
    if |w| == 1 {
      assert aw[..1] == [a];
    } else {
      var w' := w[..|w| - 1];
      assert IsWalk(adj, w');
      assert aw[..|aw| - 1] == [a] + w';
      CostCons(adj, a, w');
    }
  }
}
