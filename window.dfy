/** The selection state of `GraphWindow`: the first successful click picks
    the start node, the second the end node and triggers the shortest-path
    search, later clicks change nothing until the selection is reset. */
module Window {
  import opened Wrappers
  import opened Graphs
  import opened GraphBuild
  import opened NearestNode
  import opened ShortestPath

  /** What `get_clicked_node` gave for one click. */
  type Lookup = Result<Option<Node>, KeyError>

  /** The fields `(start_node, end_node)` after a click whose lookup gave
      `lookup`. A lookup that raises leaves the field it was assigning
      untouched; one that gives `None` stores `None`. */
  function AfterClick(start: Option<Node>, end: Option<Node>, lookup: Lookup): (Option<Node>, Option<Node>)
  {
    if start.None? then
      (if lookup.Ok? then (lookup.value, end) else (start, end))
    else if end.None? then
      (if lookup.Ok? then (start, lookup.value) else (start, end))
    else (start, end)
  }

  /** The fields after the clicks since the last reset (the constructor and
      `set_nodes` both leave `(None, None)`). */
  function Replay(lookups: seq<Lookup>): (Option<Node>, Option<Node>)
    decreases |lookups|
  {
    if lookups == [] then (None, None)
    else
      var (start, end) := Replay(lookups[..|lookups| - 1]);
      AfterClick(start, end, lookups[|lookups| - 1])
  }

  /** The nodes the lookups found, in click order. */
  function Found(lookups: seq<Lookup>): seq<Node>
    decreases |lookups|
  {
    if lookups == [] then []
    else
      var last := lookups[|lookups| - 1];
      Found(lookups[..|lookups| - 1]) + (if last.Ok? && last.value.Some? then [last.value.value] else [])
  }

  function Nth(s: seq<Node>, i: nat): Option<Node>
  {
    if i < |s| then Some(s[i]) else None
  }

  /** The start node is the first node any click found and the end node the
      second; clicks that find nothing or fail, and every click after the
      second success, leave the selection as it was. */
  lemma {:induction false} ReplaySelectsFirstTwoFound(lookups: seq<Lookup>)
    ensures Replay(lookups) == (Nth(Found(lookups), 0), Nth(Found(lookups), 1))
    decreases |lookups|
  {
    if lookups != [] {
      var init := lookups[..|lookups| - 1];
      ReplaySelectsFirstTwoFound(init);
      var f := Found(init);
      assert Found(lookups)[..|f|] == f;
    }
  }

  /** What a click did, in the terms of the window's messages. */
  datatype ClickOutcome =
    | LookupFailed(error: KeyError)
    | NothingFound
    | StartSelected(start: Node)
    | EndSelected(end: Node, route: Result<Route, KeyError>)
    | AlreadySelected

  class GraphWindow {
    const graph: Graph
    var startNode: Option<Node>
    var endNode: Option<Node>
    /** The lookups of the clicks since the last reset. */
    ghost var clicks: seq<Lookup>

    ghost predicate Valid()
      reads this
    {
      && WellFormed(graph)
      && (startNode, endNode) == Replay(clicks)
      && (startNode.Some? ==> startNode.value in graph.adj)
      && (endNode.Some? ==> startNode.Some? && endNode.value in graph.adj)
    }

    /** `__init__`: builds the graph from the rows; nothing is selected. */
    constructor (nodeRows: seq<NodeRow>, edgeRows: seq<EdgeRow>)
      ensures Valid() && BuiltFrom(graph, nodeRows, edgeRows)
      ensures startNode == None && endNode == None
    {
      var g := Build(nodeRows, edgeRows);
      graph := g;
      startNode := None;
      endNode := None;
      clicks := [];
    }

    /** `set_nodes`: clears the selection. */
    method SetNodes()
      requires Valid()
      modifies this
      ensures Valid() && startNode == None && endNode == None && clicks == []
    {
      startNode := None;
      endNode := None;
      clicks := [];
    }

    /** `highlight_shortest_path`: searches only when both nodes are set. */
    method HighlightShortestPath() returns (route: Option<Result<Route, KeyError>>)
      requires Valid()
      ensures route.Some? <==> startNode.Some? && endNode.Some?
      ensures route.Some? ==> SolvesShortestPath(graph.adj, startNode.value, endNode.value, route.value)
    {
      if startNode.Some? && endNode.Some? {
        var r;
        ghost var expanded;
        r, expanded := Dijkstra(graph.adj, startNode.value, endNode.value);
        route := Some(r);
      } else {
        route := None;
      }
    }

    /** `handle_click` at canvas point (x, y). */
    method HandleClick(x: int, y: int) returns (outcome: ClickOutcome)
      requires Valid()
      modifies this
      ensures Valid() && clicks == old(clicks) + [ClickedNode(graph, x, y)]
      ensures (startNode, endNode) == AfterClick(old(startNode), old(endNode), ClickedNode(graph, x, y))
      ensures var lookup := ClickedNode(graph, x, y);
              && (lookup.Err? && !(old(startNode).Some? && old(endNode).Some?) ==> outcome == LookupFailed(lookup.error))
              && (lookup == Ok(None) && old(startNode).None? ==> outcome == NothingFound)
              && (lookup.Ok? && lookup.value.Some? && old(startNode).None? ==> outcome == StartSelected(lookup.value.value))
              && (old(startNode).Some? && old(endNode).Some? ==> outcome == AlreadySelected)
      ensures old(startNode).Some? && old(endNode).None? && ClickedNode(graph, x, y).Ok? ==>
                outcome.EndSelected? && outcome.end == endNode.value
                && SolvesShortestPath(graph.adj, old(startNode).value, outcome.end, outcome.route)
    {
      if startNode.Some? && endNode.Some? {
        clicks := clicks + [ClickedNode(graph, x, y)];
        return AlreadySelected;
      }
      var lookup := ClickedNode(graph, x, y);
      clicks := clicks + [lookup];
      match lookup {
        case Err(e) =>
          outcome := LookupFailed(e);
        case Ok(None) =>
          // The field being assigned already holds `None`.
          outcome := NothingFound;
        case Ok(Some(n)) =>
          if startNode.None? {
            startNode := Some(n);
            outcome := StartSelected(n);
          } else {
            endNode := Some(n);
            var route := HighlightShortestPath();
            outcome := EndSelected(n, route.value);
          }
      }
    }
  }
}
