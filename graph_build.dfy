/** Building the graph object from the node and edge rows (the two `for`
    loops of `GraphWindow.__init__`): `G.add_node(id, pos=(X, Y))` for each
    node row, then `G.add_edge(node1, node2, weight=distance)` for each edge
    row. `add_edge` silently adds an endpoint it has not seen (without a
    position) and overwrites the weight of an edge it already has. */
module GraphBuild {
  import opened Wrappers
  import opened Graphs

  /** A row of the node list, in the order the loop visits it. */
  datatype NodeRow = NodeRow(id: Node, x: int, y: int)

  /** A row of the edge list (`node1`, `node2`, `distance`); the edge id
      is not used by the loop. */
  datatype EdgeRow = EdgeRow(source: Node, target: Node, distance: nat)

  /** The identifiers of the node rows, in order. */
  function Ids(rows: seq<NodeRow>): (r: seq<Node>)
    ensures |r| == |rows|
    decreases |rows|
  {
    if rows == [] then [] else Ids(rows[..|rows| - 1]) + [rows[|rows| - 1].id]
  }

  /** The endpoints of the edge rows, source before target, in order. */
  function Endpoints(rows: seq<EdgeRow>): seq<Node>
    decreases |rows|
  {
    if rows == [] then []
    else Endpoints(rows[..|rows| - 1]) + [rows[|rows| - 1].source, rows[|rows| - 1].target]
  }

  /** The elements of `s` in order of first occurrence. */
  function FirstOccurrences(s: seq<Node>): (r: seq<Node>)
    ensures Distinct(r)
    ensures forall x :: x in r <==> x in s
    decreases |s|
  {
    if s == [] then []
    else
      var r := FirstOccurrences(s[..|s| - 1]);
      if s[|s| - 1] in r then r else r + [s[|s| - 1]]
  }

  lemma FirstOccurrencesSnoc(s: seq<Node>, x: Node)
    ensures FirstOccurrences(s + [x]) == if x in s then FirstOccurrences(s) else FirstOccurrences(s) + [x]
  {
    assert (s + [x])[..|s|] == s;
  }

  /** The position given by the last node row with identifier `n`. */
  function LastPosition(rows: seq<NodeRow>, n: Node): Option<Point>
    decreases |rows|
  {
    if rows == [] then None
    else if rows[|rows| - 1].id == n then Some((rows[|rows| - 1].x, rows[|rows| - 1].y))
    else LastPosition(rows[..|rows| - 1], n)
  }

  /** The distance given by the last edge row from `u` to `v`. */
  function LastDistance(rows: seq<EdgeRow>, u: Node, v: Node): Option<nat>
    decreases |rows|
  {
    if rows == [] then None
    else if rows[|rows| - 1].source == u && rows[|rows| - 1].target == v then Some(rows[|rows| - 1].distance)
    else LastDistance(rows[..|rows| - 1], u, v)
  }

  /** The weight of the edge from `u` to `v`, if there is one. */
  function WeightOf(adj: Adjacency, u: Node, v: Node): Option<nat>
  {
    if u in adj && v in adj[u] then Some(adj[u][v]) else None
  }

  /** The `pos` attribute of `n`, if it has one. */
  function PositionOf(g: Graph, n: Node): Option<Point>
  {
    if n in g.pos then Some(g.pos[n]) else None
  }

  /** What the graph built from the rows holds: nodes in order of first
      mention (node rows, then edge endpoints), the position of the last
      row for each node, and for each ordered pair the distance of the last
      edge row between them. */
  ghost predicate BuiltFrom(g: Graph, nodeRows: seq<NodeRow>, edgeRows: seq<EdgeRow>)
  {
    && WellFormed(g)
    && g.nodes == FirstOccurrences(Ids(nodeRows) + Endpoints(edgeRows))
    && (forall n :: PositionOf(g, n) == LastPosition(nodeRows, n))
    && (forall u, v :: WeightOf(g.adj, u, v) == LastDistance(edgeRows, u, v))
  }

  /** `G.add_node(id, pos=p)`: a new node with no edges, or only a new
      position for a node already present. */
  function AddNode(g: Graph, id: Node, p: Point): (g': Graph)
    requires WellFormed(g)
    ensures WellFormed(g') && g'.pos == g.pos[id := p]
    ensures g'.nodes == if id in g.nodes then g.nodes else g.nodes + [id]
    ensures forall u, v :: WeightOf(g'.adj, u, v) == WeightOf(g.adj, u, v)
  {
    if id in g.adj then g.(pos := g.pos[id := p])
    else Graph(g.nodes + [id], g.adj[id := map[]], g.pos[id := p])
  }

  /** Adds `n` without a position unless it is already a node, as
      `add_edge` does for an endpoint it has not seen. */
  function EnsureNode(g: Graph, n: Node): (g': Graph)
    requires WellFormed(g)
    ensures WellFormed(g') && n in g'.adj && g'.pos == g.pos
    ensures g'.nodes == if n in g.nodes then g.nodes else g.nodes + [n]
    ensures forall u, v :: WeightOf(g'.adj, u, v) == WeightOf(g.adj, u, v)
  {
    if n in g.adj then g else Graph(g.nodes + [n], g.adj[n := map[]], g.pos)
  }

  /** `G[u][v]['weight'] = w`: the edge from `u` to `v` now weighs `w`,
      every other edge is as it was. */
  function SetWeight(adj: Adjacency, u: Node, v: Node, w: nat): (adj': Adjacency)
    requires u in adj
    ensures adj'.Keys == adj.Keys
    ensures forall a, b :: WeightOf(adj', a, b) == if a == u && b == v then Some(w) else WeightOf(adj, a, b)
  {
    var out: map<Node, nat> := adj[u][v := w];
    adj[u := out]
  }

  /** `G.add_edge(u, v, weight=w)`: adds the endpoints that are new, source
      first, then sets the weight of the edge, replacing any earlier one. */
  function AddEdge(g: Graph, u: Node, v: Node, w: nat): (g': Graph)
    requires WellFormed(g)
    ensures WellFormed(g') && g'.pos == g.pos
    ensures g'.nodes == var g1 := if u in g.nodes then g.nodes else g.nodes + [u];
                        if v in g1 then g1 else g1 + [v]
    ensures forall a, b :: WeightOf(g'.adj, a, b) == if a == u && b == v then Some(w) else WeightOf(g.adj, a, b)
  {
    var g2 := EnsureNode(EnsureNode(g, u), v);
    var g' := g2.(adj := SetWeight(g2.adj, u, v, w));
    assert Closed(g'.adj) by {
      forall a, b | a in g'.adj && b in g'.adj[a] ensures b in g'.adj {
        assert WeightOf(g'.adj, a, b).Some?;
      }
    }
    g'
  }

  lemma NodesAfterNodeRow(rows: seq<NodeRow>, i: nat, nodes: seq<Node>)
    requires i < |rows| && nodes == FirstOccurrences(Ids(rows[..i]))
    ensures FirstOccurrences(Ids(rows[..i + 1]))
            == if rows[i].id in nodes then nodes else nodes + [rows[i].id]
  {
    assert rows[..i + 1][..i] == rows[..i];
    FirstOccurrencesSnoc(Ids(rows[..i]), rows[i].id);
  }

  lemma PositionsAfterNodeRow(rows: seq<NodeRow>, i: nat, g: Graph, g': Graph)
    requires i < |rows|
    requires forall n :: PositionOf(g, n) == LastPosition(rows[..i], n)
    requires g'.pos == g.pos[rows[i].id := (rows[i].x, rows[i].y)]
    ensures forall n :: PositionOf(g', n) == LastPosition(rows[..i + 1], n)
  {
    assert rows[..i + 1][..i] == rows[..i];
  }

  lemma NodesAfterEdgeRow(prefix: seq<Node>, rows: seq<EdgeRow>, j: nat, nodes: seq<Node>)
    requires j < |rows| && nodes == FirstOccurrences(prefix + Endpoints(rows[..j]))
    ensures FirstOccurrences(prefix + Endpoints(rows[..j + 1]))
            == var g1 := if rows[j].source in nodes then nodes else nodes + [rows[j].source];
               if rows[j].target in g1 then g1 else g1 + [rows[j].target]
  {
    var e := rows[j];
    var before := prefix + Endpoints(rows[..j]);
    assert rows[..j + 1][..j] == rows[..j];
    assert prefix + Endpoints(rows[..j + 1]) == (before + [e.source]) + [e.target];
    FirstOccurrencesSnoc(before, e.source);
    FirstOccurrencesSnoc(before + [e.source], e.target);
  }

  lemma DistancesAfterEdgeRow(rows: seq<EdgeRow>, j: nat, adj: Adjacency, adj': Adjacency)
    requires j < |rows|
    requires forall u, v :: WeightOf(adj, u, v) == LastDistance(rows[..j], u, v)
    requires forall u, v :: WeightOf(adj', u, v)
               == if u == rows[j].source && v == rows[j].target then Some(rows[j].distance) else WeightOf(adj, u, v)
    ensures forall u, v :: WeightOf(adj', u, v) == LastDistance(rows[..j + 1], u, v)
  {
    assert rows[..j + 1][..j] == rows[..j];
  }

  /** The first loop: one `add_node` per node row, starting from the
      empty graph. */
  method AddNodeRows(nodeRows: seq<NodeRow>) returns (g: Graph)
    ensures WellFormed(g) && g.nodes == FirstOccurrences(Ids(nodeRows))
    ensures forall n :: PositionOf(g, n) == LastPosition(nodeRows, n)
    ensures forall u, v :: WeightOf(g.adj, u, v) == None
  {
    g := Graph([], map[], map[]);
    for i := 0 to |nodeRows|
      invariant WellFormed(g) && g.nodes == FirstOccurrences(Ids(nodeRows[..i]))
      invariant forall n :: PositionOf(g, n) == LastPosition(nodeRows[..i], n)
      invariant forall u, v :: WeightOf(g.adj, u, v) == None
    {
      var row := nodeRows[i];
      NodesAfterNodeRow(nodeRows, i, g.nodes);
      var g' := AddNode(g, row.id, (row.x, row.y));
      PositionsAfterNodeRow(nodeRows, i, g, g');
      g := g';
    }
    assert nodeRows[..|nodeRows|] == nodeRows;
  }

  /** The second loop: one `add_edge` per edge row, on the graph the first
      loop built from `prefix`'s rows. */
  method AddEdgeRows(g0: Graph, prefix: seq<Node>, edgeRows: seq<EdgeRow>) returns (g: Graph)
    requires WellFormed(g0) && g0.nodes == FirstOccurrences(prefix)
    requires forall u, v :: WeightOf(g0.adj, u, v) == None
    ensures WellFormed(g) && g.pos == g0.pos
    ensures g.nodes == FirstOccurrences(prefix + Endpoints(edgeRows))
    ensures forall u, v :: WeightOf(g.adj, u, v) == LastDistance(edgeRows, u, v)
  {
    g := g0;
    assert prefix + Endpoints(edgeRows[..0]) == prefix;
    for j := 0 to |edgeRows|
      invariant WellFormed(g) && g.pos == g0.pos
      invariant g.nodes == FirstOccurrences(prefix + Endpoints(edgeRows[..j]))
      invariant forall u, v :: WeightOf(g.adj, u, v) == LastDistance(edgeRows[..j], u, v)
    {
      var e := edgeRows[j];
      NodesAfterEdgeRow(prefix, edgeRows, j, g.nodes);
      var g' := AddEdge(g, e.source, e.target, e.distance);
      DistancesAfterEdgeRow(edgeRows, j, g.adj, g'.adj);
      g := g';
    }
    assert edgeRows[..|edgeRows|] == edgeRows;
  }

  /** The two loops of `GraphWindow.__init__` that fill the graph. */
  method Build(nodeRows: seq<NodeRow>, edgeRows: seq<EdgeRow>) returns (g: Graph)
    ensures BuiltFrom(g, nodeRows, edgeRows)
  {
    var withNodes := AddNodeRows(nodeRows);
    g := AddEdgeRows(withNodes, Ids(nodeRows), edgeRows);
  }
}
