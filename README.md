# Shortest routes on a campus map (hito3.py), in Dafny

`hito3.py` is a small desktop tool. It loads a directed, weighted map graph
from a node list and an edge list. The user clicks twice on a drawing of the
map: the first click picks the node nearest to it as the start, the second
the nearest as the end. The tool then runs Dijkstra's algorithm and draws
the shortest route. This project models the three pieces of logic under the
user interface and proves what each promises:

- `graph_build.dfy` (module `GraphBuild`) builds the graph from the rows, as
  the two loops of `GraphWindow.__init__` do. `add_node` gives a node its
  position, or only moves a node that already exists. `add_edge` adds an
  endpoint it has not seen, with no position, and overwrites the weight of
  an edge it already has, so the last row for a pair wins.
- `shortest_path.dfy` (module `ShortestPath`) is `GraphWindow.dijkstra`. Its
  search loop keeps a tentative-distance map (`distancia`; an absent key
  stands for infinity), a visited set, a predecessor map (`anteriores`) and a
  frontier list. Each round the frontier is sorted and its first entry
  popped; this is `Frontier.PopMin` in `frontier.dfy`, which removes the least
  entry under Python's tuple and string order. The search stops when the
  target is popped. A second loop then walks the predecessors back from the
  target and reverses. The result is a `Result`: a route, or the `KeyError`
  that `anteriores[destino]` raises when the target cannot be reached.
- `nearest_node.dfy` (module `NearestNode`) is `get_clicked_node`: the first
  node, in graph order, at least squared distance from the click. It gives
  `None` for a graph with no nodes, and the `KeyError` of `pos[node]` at the
  first node that has no position.
- `window.dfy` (module `Window`) is the selection state of `GraphWindow`.
  This is the class `GraphWindow` with its fields `startNode` and `endNode`,
  and the methods `HandleClick`, `SetNodes` and `HighlightShortestPath`.
  `Window.ReplaySelectsFirstTwoFound` states what a sequence of clicks since
  the last reset selects.
  `scenarios.dfy` works the three-node example N1 -> N2 -> N3 with a
  direct N1 -> N3 edge.

`graphs.dfy` holds the graph type, walks and their cost; `wrappers.dfy`
holds `Option` and `Result`.

Three points where a different reading would be natural; the model follows
the code:

- A loader could reject edges to unknown nodes and negative weights. The
  code silently adds the missing endpoint and accepts any weight.
- A nearest-node lookup could break ties by the lowest id. The code takes
  the first of the tied nodes in graph order.
- `dijkstra` could report an unknown node as such. The code answers
  `[origen]` for an unknown `origen` equal to `destino`. For any other
  unknown `origen` it fails on the lookup of its edges. It treats an
  unknown `destino` like an unreachable one.

## Model

| member | source | states |
|---|---|---|
| ShortestPath.Dijkstra | hito3.py:118-151 | from a node of the graph: the answer is a walk from `origen` to `destino` whose weights sum to its distance, with no walk cheaper; or `KeyError(destino)` exactly when `destino` cannot be reached; `[origen]` at distance 0 when both are the same. For an `origen` outside the graph: `[origen]` when it equals `destino`, else `KeyError(origen)`. The ghost list of expanded nodes, those whose edges were relaxed, holds each node at most once, never `destino`, and every node of the route before `destino` |
| ShortestPath.Search | hito3.py:119-139 | when it reports `destino` found, `destino` has a distance and no walk to it is cheaper; otherwise `destino` has no distance and cannot be reached. The distance and predecessor maps form a tree rooted at `origen` at distance 0: each predecessor link is an edge, and each distance is the predecessor's plus that edge's weight. The ghost list of expanded nodes has no repeats, holds only graph nodes other than `destino`, and contains every predecessor |
| ShortestPath.RelaxNeighbours | hito3.py:134-139 | each neighbour that `dist_nueva < distancia[vecino]` picks gets the new distance, the popped node as predecessor and exactly one new frontier entry; every other entry stays; no distance grows |
| ShortestPath.Reconstruct | hito3.py:141-147 | following the predecessors from `destino` and reversing gives a walk from `origen` to `destino` costing `distancia[destino]`; it fails with `KeyError(destino)` exactly when `destino` has no distance; `[origen]` when `destino == origen`; each node of the route after the first has the node before it as predecessor |
| ShortestPath.TargetPoppedIsShortest | hito3.py:127-130 | when `destino` is the least frontier entry, its distance is no more than the cost of any walk to it |
| ShortestPath.PoppedIsShortest | hito3.py:126-133 | every walk from `origen` to a node not yet expanded costs at least the least frontier distance |
| ShortestPath.ExhaustedMeansUnreachable | hito3.py:126 | an empty frontier with `destino` never expanded means no walk reaches `destino` |
| ShortestPath.SkipKeepsInvariant | hito3.py:131-132 | skipping a re-popped visited node keeps the loop invariant with the rest of the frontier |
| ShortestPath.PoppedDistanceIsCurrent | hito3.py:127-133 | the entry popped for a node not yet expanded carries its current distance |
| ShortestPath.ExpandedNotImproved | hito3.py:133-137 | when the popped node carries its current distance and that distance is at least every expanded node's, the test `dist_nueva < distancia[vecino]` fails for every expanded node and for the popped node itself |
| ShortestPath.RelaxedFromUnique | hito3.py:134-139 | relaxing a node's edges has one outcome whatever the order of the neighbours: the same distances, the same predecessors, the same new frontier entries |
| ShortestPath.ExpandKeepsInvariant | hito3.py:133-139 | expanding a popped node that is not visited keeps the loop invariant |
| ShortestPath.SolvedIsErrIffUnreachable | hito3.py:141-147 | a correct answer is an error if and only if `destino` cannot be reached |
| ShortestPath.SolvedDistanceUnique | hito3.py:118-151 | two correct answers agree on success and on the distance |
| Frontier.PopMin | hito3.py:127-128 | `sort()` then `pop(0)`: the popped entry is the least under tuple order and the rest is the frontier without it (as a multiset) |
| Frontier.LeastUnique | hito3.py:127-128 | the least entry is unique, so the pop is deterministic |
| Frontier.StrLtTotal | hito3.py:127 | Python's string order is total, so ties on distance are broken by node name |
| GraphBuild.Build | hito3.py:27-38 | the graph lists nodes in order of first mention (node rows, then endpoints source first); each node's position is that of its last node row, nodes first seen in an edge row have none; each edge's weight is that of the last edge row for the pair, and no other edge exists |
| GraphBuild.AddNodeRows | hito3.py:29-31 | after the node rows the graph has the rows' ids in order of first occurrence, the last position of each, and no edges |
| GraphBuild.AddEdgeRows | hito3.py:33-38 | after the edge rows, endpoints new to the graph are appended in order, positions are unchanged, and each edge weighs the last distance given for it |
| GraphBuild.AddNode | hito3.py:31 | `add_node` appends a new node or only updates the position of an existing one; edges unchanged |
| GraphBuild.AddEdge | hito3.py:38 | `add_edge` adds missing endpoints, source first, without position, and sets this one weight, every other edge unchanged |
| GraphBuild.EnsureNode | hito3.py:38 | a node missing from the graph is appended without position; present nodes change nothing |
| GraphBuild.SetWeight | hito3.py:38 | the edge weight is replaced; all other edges and the node set stay |
| NearestNode.ClickedNode | hito3.py:199-206 | `None` exactly for a graph with no nodes; otherwise the first node in graph order whose squared distance is at most every node's; a `KeyError` exactly when some node has no position, naming the first such node in graph order |
| NearestNode.Distances | hito3.py:201-202 | one (node, squared distance) pair per node, in graph order, or the `KeyError` of the first node without position |
| NearestNode.FirstMinimum | hito3.py:204 | `min` with a key: an index whose distance is least and strictly below every earlier one |
| NearestNode.NearestIndex | hito3.py:199-206 | when every node has a position and there is at least one, the click selects a node at least distance from it |
| NearestNode.SingleNodeIsNearest | hito3.py:199-206 | on a graph of one positioned node every click selects it |
| NearestNode.ClickOnNodeFindsDistanceZero | hito3.py:199-206 | a click exactly on a node selects a node at that very position |
| Window.ReplaySelectsFirstTwoFound | hito3.py:81-105 | after the clicks since a reset, the start is the first node a click found and the end the second; later clicks and failed lookups change nothing |
| Window.GraphWindow.constructor | hito3.py:27-42 | the window's graph is built from the rows and nothing is selected |
| Window.GraphWindow.SetNodes | hito3.py:81-83 | both fields become `None` |
| Window.GraphWindow.HighlightShortestPath | hito3.py:153-158 | searches exactly when both nodes are set, and then answers correctly from start to end |
| Window.GraphWindow.HandleClick | hito3.py:89-105 | the fields move as the branch taken prescribes: an unset start takes any lookup result, an unset end likewise and, whenever the lookup succeeds, the end becomes the node found and a correct search from the start to it runs; a raising lookup changes nothing; with both set nothing changes |
| Scenarios.N1ToN3GoesThroughN2 | hito3.py:118-151 | on the three-node example the route from N1 to N3 is N1, N2, N3 at distance 2, not the direct edge of weight 5 |
| Scenarios.N3ToN1Fails | hito3.py:141-145 | on the three-node example N3 has no outgoing edge, so the route to N1 fails with `KeyError(N1)` |

## Left out

- The PyQt5 window, its layout, buttons, labels and messages, and all matplotlib and networkx drawing. This covers `highlight_node`, `clear_canvas`, `reset_node_colors` and the drawing half of `highlight_shortest_path`. None of it affects the selection or the route.
- Reading the CSV files, including `cargar_grafo_desde_csv`. `Build` takes the rows of the `Nodes` and `Edges` dictionaries in their insertion order. Those dictionaries collapse rows with a repeated id (the edge id for edges) before the loops run.
- Floating point: weights are natural numbers and coordinates integers. `float('inf')` is a key absent from the distance map. Negative and non-finite weights cannot be expressed.
- ShortestPath.Dijkstra: the contract leaves open which of several equally short routes is returned; any shortest route satisfies it. The code itself is deterministic. networkx visits `grafo[u]` in edge insertion order, but that order does not matter: `ShortestPath.RelaxedFromUnique` shows the relaxation has one outcome, and the `sort()` makes the frontier's list order irrelevant (`Frontier.LeastUnique`). Among equal distances the frontier pops the lower node name first, and the strict `<` keeps the first predecessor found. The model does not state which route this selects.
- Window.GraphWindow.HandleClick: when the end node is found, the method returns the search result, or the `KeyError` of an unreachable end node. In the code that error escapes `handle_click` after `end_node` has been set; the model records the same state.
- The `print` calls after the reconstruction, the `G.copy()` before the search (the copy is identical to the graph), and the application entry point.
- `event.xdata` being `None` for a click outside the axes: the click point is a pair of integers.
