/** `GraphWindow.get_clicked_node`: the node nearest to the clicked point,
    by squared Euclidean distance, over the nodes in graph order. */
module NearestNode {
  import opened Wrappers
  import opened Graphs

  function Square(d: int): nat
  {
    if d < 0 then (-d) * (-d) else d * d
  }

  /** `(pos[node][0] - x) ** 2 + (pos[node][1] - y) ** 2` */
  function SquaredDistance(p: Point, x: int, y: int): nat
  {
    Square(p.0 - x) + Square(p.1 - y)
  }

  /** The list comprehension `distances`: one (node, squared distance) pair
      per node, in order; `pos[node]` raises `KeyError` at the first node
      that has no position. */
  function Distances(nodes: seq<Node>, pos: map<Node, Point>, x: int, y: int)
    : (r: Result<seq<(Node, nat)>, KeyError>)
    ensures r.Ok? <==> forall n :: n in nodes ==> n in pos
    ensures r.Ok? ==> |r.value| == |nodes|
    ensures r.Ok? ==> forall i :: 0 <= i < |nodes| ==>
              r.value[i] == (nodes[i], SquaredDistance(pos[nodes[i]], x, y))
    ensures r.Err? ==> exists i :: 0 <= i < |nodes| && nodes[i] == r.error.key && nodes[i] !in pos
                                   && forall j :: 0 <= j < i ==> nodes[j] in pos
    decreases |nodes|
  {
    if nodes == [] then Ok([])
    else
      var init := nodes[..|nodes| - 1];
      var last := nodes[|nodes| - 1];
      assert forall j :: 0 <= j < |init| ==> init[j] == nodes[j];
      assert forall n :: n in nodes <==> n in init || n == last;
      match Distances(init, pos, x, y)
      case Err(e) =>
        assert exists i :: 0 <= i < |nodes| && nodes[i] == e.key && nodes[i] !in pos
                           && forall j :: 0 <= j < i ==> nodes[j] in pos by {
          var i :| 0 <= i < |init| && init[i] == e.key && init[i] !in pos
                   && forall j :: 0 <= j < i ==> init[j] in pos;
          assert nodes[i] == e.key;
        }
        Err(e)
      case Ok(ds) =>
        if last in pos then Ok(ds + [(last, SquaredDistance(pos[last], x, y))])
        else
          assert forall j :: 0 <= j < |nodes| - 1 ==> nodes[j] in pos;
          Err(KeyError(last))
  }

  /** `min(distances, key=lambda x: x[1])`: the index of the first pair
      whose distance is least (`min` keeps the first of equal keys). */
  function FirstMinimum(ds: seq<(Node, nat)>): (i: nat)
    requires |ds| > 0
    ensures i < |ds|
    ensures forall j :: 0 <= j < |ds| ==> ds[i].1 <= ds[j].1
    ensures forall j :: 0 <= j < i ==> ds[i].1 < ds[j].1
    decreases |ds|
  {
    if |ds| == 1 then 0
    else
      var k := FirstMinimum(ds[..|ds| - 1]);
      if ds[|ds| - 1].1 < ds[k].1 then |ds| - 1 else k
  }

  /** `get_clicked_node(x, y)`: `None` for a graph without nodes, otherwise
      the first node at least squared distance from (x, y); the lookup of a
      position fails at the first node, in graph order, added only as an
      edge endpoint. */
  function ClickedNode(g: Graph, x: int, y: int): (r: Result<Option<Node>, KeyError>)
    ensures r.Ok? <==> forall n :: n in g.nodes ==> n in g.pos
    ensures r == Ok(None) <==> g.nodes == []
    ensures r.Ok? && r.value.Some? ==>
              exists i :: 0 <= i < |g.nodes| && g.nodes[i] == r.value.value
                && (forall j :: 0 <= j < |g.nodes| ==>
                      SquaredDistance(g.pos[g.nodes[i]], x, y) <= SquaredDistance(g.pos[g.nodes[j]], x, y))
                && (forall j :: 0 <= j < i ==>
                      SquaredDistance(g.pos[g.nodes[i]], x, y) < SquaredDistance(g.pos[g.nodes[j]], x, y))
    ensures r.Err? ==> exists i :: 0 <= i < |g.nodes| && g.nodes[i] == r.error.key && g.nodes[i] !in g.pos
                                   && forall j :: 0 <= j < i ==> g.nodes[j] in g.pos
  {
    match Distances(g.nodes, g.pos, x, y)
    case Err(e) => Err(e)
    case Ok(ds) =>
      if ds == [] then Ok(None)
      else
        var i := FirstMinimum(ds);
        Ok(Some(ds[i].0))
  }

  /** Clicking anywhere on a graph with a single positioned node selects it. */
  lemma SingleNodeIsNearest(g: Graph, n: Node, x: int, y: int)
    requires g.nodes == [n] && n in g.pos
    ensures ClickedNode(g, x, y) == Ok(Some(n))
  {
  }

  /** On a graph whose nodes all have positions, the click selects some
      node at least distance from it. */
  lemma NearestIndex(g: Graph, x: int, y: int) returns (i: nat)
    requires |g.nodes| > 0 && forall n :: n in g.nodes ==> n in g.pos
    ensures i < |g.nodes| && ClickedNode(g, x, y) == Ok(Some(g.nodes[i]))
    ensures forall j :: 0 <= j < |g.nodes| ==>
              SquaredDistance(g.pos[g.nodes[i]], x, y) <= SquaredDistance(g.pos[g.nodes[j]], x, y)
  {
    var r := ClickedNode(g, x, y);
    assert r.Ok? && r.value.Some?;
    i :| 0 <= i < |g.nodes| && g.nodes[i] == r.value.value
         && (forall j :: 0 <= j < |g.nodes| ==>
               SquaredDistance(g.pos[g.nodes[i]], x, y) <= SquaredDistance(g.pos[g.nodes[j]], x, y));
  }

  /** Clicking exactly on the position of a node selects a node at that very
      position. */
  lemma ClickOnNodeFindsDistanceZero(g: Graph, k: nat)
    requires k < |g.nodes| && forall n :: n in g.nodes ==> n in g.pos
    ensures var r := ClickedNode(g, g.pos[g.nodes[k]].0, g.pos[g.nodes[k]].1);
            r.Ok? && r.value.Some? && g.pos[r.value.value] == g.pos[g.nodes[k]]
  {
    var p := g.pos[g.nodes[k]];
    var i := NearestIndex(g, p.0, p.1);
    assert SquaredDistance(p, p.0, p.1) == 0;
    SquaredDistanceZero(g.pos[g.nodes[i]], p.0, p.1);
  }

  lemma SquaredDistanceZero(q: Point, x: int, y: int)
    requires SquaredDistance(q, x, y) == 0
    ensures q == (x, y)
  {
    SquareZero(q.0 - x);
    SquareZero(q.1 - y);
  }

  lemma SquareZero(d: int)
    requires Square(d) == 0
    ensures d == 0
  {
  }
}
