/** `GraphWindow.dijkstra`: Dijkstra's algorithm from `origen` to `destino`
    over an adjacency map with non-negative weights, with the early exit when
    `destino` is popped and the path rebuilt from the predecessor map
    `anteriores`. A tentative distance of infinity is a node absent from the
    distance map. */
module ShortestPath {
  import opened Wrappers
  import opened Graphs
  import opened Frontier

  /** A computed route: the node sequence `camino` and its total weight
      `distancia[destino]`. */
  datatype Route = Route(path: seq<Node>, distance: nat)

  /** `route` is a walk from `s` to `t` whose edge weights add up to its
      distance. */
  ghost predicate IsRoute(adj: Adjacency, s: Node, t: Node, route: Route)
  {
    && IsWalk(adj, route.path)
    && route.path[0] == s
    && route.path[|route.path| - 1] == t
    && Cost(adj, route.path) == route.distance
  }

  /** No walk from `s` to `t` costs less than `d`. */
  ghost predicate NoShorterWalk(adj: Adjacency, s: Node, t: Node, d: nat)
  {
    forall p :: IsWalk(adj, p) && p[0] == s && p[|p| - 1] == t ==> d <= Cost(adj, p)
  }

  /** What a shortest-path query from `s` to `t` must answer: an optimal
      route when one exists, the KeyError on `t` when none does, and the
      one-node route when `s == t`. */
  ghost predicate SolvesShortestPath(adj: Adjacency, s: Node, t: Node, r: Result<Route, KeyError>)
  {
    && (r.Ok? ==> IsRoute(adj, s, t, r.value) && NoShorterWalk(adj, s, t, r.value.distance))
    && (r.Err? ==> r.error == KeyError(t) && !Reachable(adj, s, t))
    && (s == t ==> r == Ok(Route([s], 0)))
  }

  /** An answer is an error exactly when the target cannot be reached. */
  lemma SolvedIsErrIffUnreachable(adj: Adjacency, s: Node, t: Node, r: Result<Route, KeyError>)
    requires SolvesShortestPath(adj, s, t, r)
    ensures r.Err? <==> !Reachable(adj, s, t)
  {
    if r.Ok? {
      var p := r.value.path;
      assert IsWalk(adj, p) && p[0] == s && p[|p| - 1] == t;
    }
  }

  /** Any two answers agree on whether there is a route and on its
      distance; ties between equally short paths are left open. */
  lemma SolvedDistanceUnique(adj: Adjacency, s: Node, t: Node, r1: Result<Route, KeyError>, r2: Result<Route, KeyError>)
    requires SolvesShortestPath(adj, s, t, r1) && SolvesShortestPath(adj, s, t, r2)
    ensures r1.Ok? <==> r2.Ok?
    ensures r1.Ok? && r2.Ok? ==> r1.value.distance == r2.value.distance
  {
    SolvedIsErrIffUnreachable(adj, s, t, r1);
    SolvedIsErrIffUnreachable(adj, s, t, r2);
    if r1.Ok? && r2.Ok? {
      var p1, p2 := r1.value.path, r2.value.path;
      assert IsWalk(adj, p1) && p1[0] == s && p1[|p1| - 1] == t;
      assert IsWalk(adj, p2) && p2[0] == s && p2[|p2| - 1] == t;
    }
  }

  // ---------------------------------------------------------------------
  // Relaxing the edges of the node just expanded

  /** The test `dist_nueva < distancia[vecino]` for the edge u -> v, with
      an absent distance standing for infinity. */
  predicate Improves(adj: Adjacency, u: Node, du: nat, dist: map<Node, nat>, v: Node)
  {
    u in adj && v in adj[u] && (v !in dist || du + adj[u][v] < dist[v])
  }

  /** The effect of relaxing the edges of `u`, popped at distance `du`:
      every neighbour reached more cheaply through `u` gets the new
      distance, `u` as predecessor and a new frontier entry appended; no
      other entry changes, and no distance grows. */
  ghost predicate RelaxedFrom(adj: Adjacency, u: Node, du: nat,
                              dist: map<Node, nat>, pred: map<Node, Node>, queue: seq<Entry>,
                              dist': map<Node, nat>, pred': map<Node, Node>, queue': seq<Entry>)
    requires u in adj
  {
    && (forall v :: v in dist' <==> v in dist || v in adj[u])
    && (forall v :: v in pred' <==> v in pred || Improves(adj, u, du, dist, v))
    && (forall v :: Improves(adj, u, du, dist, v) ==> dist'[v] == du + adj[u][v] && pred'[v] == u)
    && (forall v :: v in dist && !Improves(adj, u, du, dist, v) ==> dist'[v] == dist[v])
    && (forall v :: v in pred && !Improves(adj, u, du, dist, v) ==> pred'[v] == pred[v])
    && (forall v :: v in dist ==> dist'[v] <= dist[v])
    && |queue| <= |queue'| && queue'[..|queue|] == queue
    && (forall e :: e in queue'[|queue|..] <==>
          Improves(adj, u, du, dist, e.1) && e.0 == du + adj[u][e.1])
  }

  /** Relaxing the edges of `u` has one possible outcome, whatever order
      the neighbours are visited in: the same distances, the same
      predecessors and the same new frontier entries. */
  lemma RelaxedFromUnique(adj: Adjacency, u: Node, du: nat,
                          dist: map<Node, nat>, pred: map<Node, Node>, queue: seq<Entry>,
                          dist1: map<Node, nat>, pred1: map<Node, Node>, queue1: seq<Entry>,
                          dist2: map<Node, nat>, pred2: map<Node, Node>, queue2: seq<Entry>)
    requires u in adj
    requires RelaxedFrom(adj, u, du, dist, pred, queue, dist1, pred1, queue1)
    requires RelaxedFrom(adj, u, du, dist, pred, queue, dist2, pred2, queue2)
    ensures dist1 == dist2 && pred1 == pred2
    ensures forall e :: e in queue1[|queue|..] <==> e in queue2[|queue|..]
  {
    forall v | v in dist1
      ensures dist1[v] == dist2[v]
    {
      if !Improves(adj, u, du, dist, v) {
        assert v in dist;
      }
    }
    assert dist1.Keys == dist2.Keys;
  }

  lemma DistinctSnoc(s: seq<Entry>, x: Entry)
    requires Distinct(s) && x !in s
    ensures Distinct(s + [x])
  {
  }

  /** The inner `for vecino, peso in grafo[nodo_actual].items()` loop: every
      neighbour reached more cheaply through `u` (popped at distance `du`)
      gets the new distance, `u` as predecessor and exactly one new frontier
      entry; nothing else changes. */
  method RelaxNeighbours(adj: Adjacency, u: Node, du: nat, dist: map<Node, nat>,
                         pred: map<Node, Node>, queue: seq<Entry>)
    returns (dist': map<Node, nat>, pred': map<Node, Node>, queue': seq<Entry>)
    requires u in adj
    ensures RelaxedFrom(adj, u, du, dist, pred, queue, dist', pred', queue')
    ensures Distinct(queue'[|queue|..])
  {
    dist', pred', queue' := dist, pred, queue;
    var todo := adj[u].Keys;
    while todo != {}
      invariant todo <= adj[u].Keys
      invariant forall v :: v in dist' <==> v in dist || (v in adj[u] && v !in todo)
      invariant forall v :: v in pred' <==> v in pred || (Improves(adj, u, du, dist, v) && v !in todo)
      invariant forall v :: Improves(adj, u, du, dist, v) && v !in todo ==>
                  dist'[v] == du + adj[u][v] && pred'[v] == u
      invariant forall v :: v in dist && !(Improves(adj, u, du, dist, v) && v !in todo) ==>
                  dist'[v] == dist[v]
      invariant forall v :: v in pred && !(Improves(adj, u, du, dist, v) && v !in todo) ==>
                  pred'[v] == pred[v]
      invariant |queue| <= |queue'| && queue'[..|queue|] == queue
      invariant forall e :: e in queue'[|queue|..] <==>
                  Improves(adj, u, du, dist, e.1) && e.1 !in todo && e.0 == du + adj[u][e.1]
      invariant Distinct(queue'[|queue|..])
      decreases |todo|
    {
      var v :| v in todo;
      var candidate := du + adj[u][v];
      if v !in dist' || candidate < dist'[v] {
        ghost var added := queue'[|queue|..];
        dist' := dist'[v := candidate];
        pred' := pred'[v := u];
        queue' := queue' + [(candidate, v)];
        assert queue'[|queue|..] == added + [(candidate, v)];
        DistinctSnoc(added, (candidate, v));
      }
      todo := todo - {v};
    }
  }

  // ---------------------------------------------------------------------
  // Rebuilding the path from the predecessor map

  /** `v` has a finite tentative distance. Kept as a named predicate so that
      "every node with a distance has a predecessor" is used only where a
      proof asks for it, and not along whole predecessor chains. */
  predicate HasDistance(dist: map<Node, nat>, v: Node)
  {
    v in dist
  }

  /** The shape of `distancia` and `anteriores` the reconstruction relies
      on: `s` is at distance 0 and has no predecessor; every other node
      with a distance has a predecessor, reached over an edge, whose
      distance plus that edge's weight is its own; and `rank` strictly
      decreases along predecessor links, so following them ends. */
  ghost predicate PredecessorTree(adj: Adjacency, s: Node, dist: map<Node, nat>,
                                  pred: map<Node, Node>, rank: map<Node, nat>)
  {
    && s in dist && dist[s] == 0 && s !in pred
    && (forall v :: HasDistance(dist, v) && v != s ==> v in pred)
    && (forall v :: v in pred ==>
          && v in dist && pred[v] in dist && pred[v] in adj && v in adj[pred[v]]
          && v in adj
          && dist[v] == dist[pred[v]] + adj[pred[v]][v])
    && (forall v :: v in dist ==> v in rank)
    && (forall v :: v in pred ==> rank[pred[v]] < rank[v])
  }

  /** `camino.reverse()`. */
  function Reversed(s: seq<Node>): (r: seq<Node>)
    ensures |r| == |s|
    decreases |s|
  {
    if |s| == 0 then [] else [s[|s| - 1]] + Reversed(s[..|s| - 1])
  }

  lemma ReversedSnoc(s: seq<Node>, x: Node)
    ensures Reversed(s + [x]) == [x] + Reversed(s)
  {
    assert (s + [x])[..|s|] == s;
  }

  /** Each node of `w` after the first has the node before it as predecessor. */
  ghost predicate PredecessorLinks(pred: map<Node, Node>, w: seq<Node>)
  {
    forall i :: 0 < i < |w| ==> w[i] in pred && pred[w[i]] == w[i - 1]
  }

  lemma PredecessorLinksCons(pred: map<Node, Node>, a: Node, w: seq<Node>)
    requires PredecessorLinks(pred, w) && |w| > 0 && w[0] in pred && pred[w[0]] == a
    ensures PredecessorLinks(pred, [a] + w)
  {
    forall i | 0 < i < |[a] + w|
      ensures ([a] + w)[i] in pred && pred[([a] + w)[i]] == ([a] + w)[i - 1]
    {
      assert ([a] + w)[i] == w[i - 1];
    }
  }

  /** Along a walk of predecessor links, every node but the last is a
      predecessor, so it lies in any set that holds all predecessors. */
  lemma LinkedWalkInside(pred: map<Node, Node>, w: seq<Node>, inside: seq<Node>)
    requires PredecessorLinks(pred, w)
    requires forall v :: v in pred ==> pred[v] in inside
    ensures forall i :: 0 <= i < |w| - 1 ==> w[i] in inside
  {
    forall i | 0 <= i < |w| - 1
      ensures w[i] in inside
    {
      assert w[i + 1] in pred;
    }
  }

  /** The second loop of `dijkstra`: follow `anteriores` from `t` back to
      `s`, then reverse. When `t` has no distance it has no predecessor
      either, and the lookup `anteriores[t]` fails. */
  method Reconstruct(adj: Adjacency, s: Node, t: Node, dist: map<Node, nat>,
                     pred: map<Node, Node>, ghost rank: map<Node, nat>)
    returns (r: Result<Route, KeyError>)
    requires PredecessorTree(adj, s, dist, pred, rank)
    requires s in adj
    ensures r.Ok? <==> t in dist
    ensures r.Err? ==> r.error == KeyError(t)
    ensures r.Ok? ==> IsRoute(adj, s, t, r.value) && r.value.distance == dist[t]
    ensures t == s ==> r == Ok(Route([s], 0))
    ensures r.Ok? ==> PredecessorLinks(pred, r.value.path)
  {
    var cur := t;
    var camino: seq<Node> := [];
    while cur != s
      invariant cur in dist || (cur == t && camino == [])
      invariant cur in dist ==> t in dist
      invariant t == s ==> cur == s && camino == []
      invariant cur in dist ==>
                  && cur in adj
                  && IsWalk(adj, [cur] + Reversed(camino))
                  && ([cur] + Reversed(camino))[|camino|] == t
                  && Cost(adj, [cur] + Reversed(camino)) + dist[cur] == dist[t]
      invariant cur in dist ==> PredecessorLinks(pred, [cur] + Reversed(camino))
      decreases if cur in rank then rank[cur] else 0
    {
      if cur !in pred {
        return Err(KeyError(cur));
      }
      var w := [cur] + Reversed(camino);
      CostCons(adj, pred[cur], w);
      PredecessorLinksCons(pred, pred[cur], w);
      ReversedSnoc(camino, cur);
      camino := camino + [cur];
      cur := pred[cur];
      assert [cur] + Reversed(camino) == [cur] + w;
    }
    ghost var w := [s] + Reversed(camino);
    ReversedSnoc(camino, s);
    camino := camino + [s];
    var path := Reversed(camino);
    assert path == w;
    assert t == s ==> path == [s];
    return Ok(Route(path, dist[t]));
  }

  // ---------------------------------------------------------------------
  // The main loop

  /** Every expanded node has had all its edges relaxed. */
  ghost predicate Settled(adj: Adjacency, dist: map<Node, nat>, visited: set<Node>)
  {
    forall u, v :: u in visited && u in dist && u in adj && v in adj[u] ==>
      v in dist && dist[v] <= dist[u] + adj[u][v]
  }

  /** Along a walk from `s` whose nodes before index `i` have all been
      expanded, the node at `i` has a distance no greater than the cost of
      the walk up to it. */
  lemma {:induction false} SettledPrefixBound(adj: Adjacency, s: Node, dist: map<Node, nat>,
                                              visited: set<Node>, p: seq<Node>, i: nat)
    requires IsWalk(adj, p) && p[0] == s && s in dist && dist[s] == 0
    requires visited <= dist.Keys
    requires Settled(adj, dist, visited)
    requires i < |p|
    requires forall k :: 0 <= k < i ==> p[k] in visited
    ensures p[i] in dist && IsWalk(adj, p[..i + 1]) && dist[p[i]] <= Cost(adj, p[..i + 1])
  {
    CostPrefix(adj, p, i + 1);
    if i == 0 {
    } else {
      SettledPrefixBound(adj, s, dist, visited, p, i - 1);
      assert p[..i + 1][..i] == p[..i];
      assert p[i] in adj[p[i - 1]];
    }
  }

  /** The key step of Dijkstra's algorithm: when the least frontier entry has
      distance `d`, every walk from `s` to a node not yet expanded costs at
      least `d`. */
  lemma PoppedIsShortest(adj: Adjacency, s: Node, dist: map<Node, nat>, visited: set<Node>,
                         queue: seq<Entry>, d: nat, p: seq<Node>)
    requires s in dist && dist[s] == 0
    requires visited <= dist.Keys
    requires Settled(adj, dist, visited)
    requires forall v :: v in dist && v !in visited ==> (dist[v], v) in queue
    requires forall e :: e in queue ==> d <= e.0
    requires IsWalk(adj, p) && p[0] == s && p[|p| - 1] !in visited
    ensures d <= Cost(adj, p)
  {
    var i := 0;
    while p[i] in visited
      invariant 0 <= i < |p|
      invariant forall k :: 0 <= k < i ==> p[k] in visited
      decreases |p| - i
    {
      i := i + 1;
    }
    SettledPrefixBound(adj, s, dist, visited, p, i);
    assert (dist[p[i]], p[i]) in queue;
    CostPrefix(adj, p, i + 1);
  }

  /** When the frontier runs empty, every node with a distance has been
      expanded, so every walk from `s` stays among the expanded nodes. */
  lemma {:induction false} WalkStaysSettled(adj: Adjacency, dist: map<Node, nat>,
                                            visited: set<Node>, p: seq<Node>, i: nat)
    requires IsWalk(adj, p) && p[0] in visited
    requires dist.Keys <= visited && visited <= dist.Keys
    requires Settled(adj, dist, visited)
    requires i < |p|
    ensures p[i] in visited
  {
    if i > 0 {
      WalkStaysSettled(adj, dist, visited, p, i - 1);
      assert p[i] in adj[p[i - 1]];
    }
  }

  /** The part of the loop state that does not concern the frontier: the
      distance and predecessor maps form a tree rooted at `s` whose links go
      to expanded nodes, `stamp` gives the round in which each expanded node
      was expanded, and predecessors were expanded in an earlier round. */
  ghost predicate TreeInvariant(adj: Adjacency, s: Node, dist: map<Node, nat>,
                                visited: set<Node>, pred: map<Node, Node>,
                                stamp: map<Node, nat>, expanded: seq<Node>)
  {
    && visited <= dist.Keys && dist.Keys <= adj.Keys
    && s in dist && dist[s] == 0 && s !in pred
    && (forall v :: HasDistance(dist, v) && v != s ==> v in pred)
    && (forall v :: v in pred ==>
          && v in dist && pred[v] in visited && v in adj[pred[v]]
          && dist[v] == dist[pred[v]] + adj[pred[v]][v])
    && stamp.Keys == visited
    && (forall v :: v in stamp ==> stamp[v] < |expanded|)
    && (forall v :: v in pred && v in visited ==> stamp[pred[v]] < stamp[v])
    && Distinct(expanded) && (forall v :: v in expanded <==> v in visited)
  }

  /** The state of the main loop of `dijkstra` between rounds: the tree,
      the expanded nodes settled, and the frontier holding, for every node
      with a distance that is not expanded, an entry with that distance.
      `lo` is the distance last popped for an expansion. */
  ghost predicate SearchInvariant(adj: Adjacency, s: Node, t: Node, dist: map<Node, nat>,
                                  visited: set<Node>, queue: seq<Entry>, pred: map<Node, Node>,
                                  lo: nat, stamp: map<Node, nat>, expanded: seq<Node>)
  {
    && TreeInvariant(adj, s, dist, visited, pred, stamp, expanded)
    && Settled(adj, dist, visited)
    && (forall e :: e in queue ==> e.1 in dist && dist[e.1] <= e.0 && lo <= e.0)
    && (forall v :: v in dist && v !in visited ==> (dist[v], v) in queue)
    && (forall v :: v in visited ==> dist[v] <= lo)
    && t !in visited
  }

  /** The entry `e` popped from `queue` has the least distance, and `rest`
      holds the other entries. */
  ghost predicate PoppedFrom(queue: seq<Entry>, e: Entry, rest: seq<Entry>)
  {
    && e in queue
    && (forall x :: x in queue ==> e.0 <= x.0)
    && (forall x :: x in rest ==> x in queue)
    && (forall x :: x in queue && x != e ==> x in rest)
  }

  /** The entry popped for a node not yet expanded carries its current
      distance. */
  lemma PoppedDistanceIsCurrent(adj: Adjacency, s: Node, t: Node, dist: map<Node, nat>,
                                visited: set<Node>, queue: seq<Entry>, pred: map<Node, Node>,
                                lo: nat, stamp: map<Node, nat>, expanded: seq<Node>,
                                e: Entry, rest: seq<Entry>)
    requires SearchInvariant(adj, s, t, dist, visited, queue, pred, lo, stamp, expanded)
    requires PoppedFrom(queue, e, rest) && e.1 !in visited
    ensures e.1 in dist && e.0 == dist[e.1]
  {
    assert (dist[e.1], e.1) in queue;
  }

  /** `if nodo_actual in visitados: continue` keeps the invariant. */
  lemma SkipKeepsInvariant(adj: Adjacency, s: Node, t: Node, dist: map<Node, nat>,
                           visited: set<Node>, queue: seq<Entry>, pred: map<Node, Node>,
                           lo: nat, stamp: map<Node, nat>, expanded: seq<Node>,
                           e: Entry, rest: seq<Entry>)
    requires SearchInvariant(adj, s, t, dist, visited, queue, pred, lo, stamp, expanded)
    requires PoppedFrom(queue, e, rest) && e.1 in visited
    ensures SearchInvariant(adj, s, t, dist, visited, rest, pred, lo, stamp, expanded)
  {
    forall v | v in dist && v !in visited
      ensures (dist[v], v) in rest
    {
      assert (dist[v], v) in queue;
    }
  }

  /** Neither an expanded node nor the node being expanded can be improved:
      their distances are at most the popped distance `d`. */
  lemma ExpandedNotImproved(adj: Adjacency, u: Node, d: nat, dist: map<Node, nat>,
                            visited: set<Node>, lo: nat)
    requires visited <= dist.Keys && u in dist && dist[u] == d && lo <= d
    requires forall v :: v in visited ==> dist[v] <= lo
    ensures forall v :: v in visited + {u} ==> !Improves(adj, u, d, dist, v)
  {
  }

  /** After relaxing, the predecessor links still lead over edges to
      expanded nodes, with matching distances. */
  lemma ExpandKeepsPredecessors(adj: Adjacency, s: Node, u: Node, d: nat,
                                dist: map<Node, nat>, visited: set<Node>, pred: map<Node, Node>,
                                rest: seq<Entry>,
                                dist': map<Node, nat>, pred': map<Node, Node>, queue': seq<Entry>)
    requires u in adj && u in dist && dist[u] == d && u !in visited
    requires RelaxedFrom(adj, u, d, dist, pred, rest, dist', pred', queue')
    requires forall v :: v in visited + {u} ==> !Improves(adj, u, d, dist, v)
    requires visited <= dist.Keys
    requires s in dist && dist[s] == 0 && s !in pred
    requires forall v :: HasDistance(dist, v) && v != s ==> v in pred
    requires forall v :: v in pred ==>
               && v in dist && pred[v] in visited && pred[v] in adj && v in adj[pred[v]]
               && dist[v] == dist[pred[v]] + adj[pred[v]][v]
    ensures s in dist' && dist'[s] == 0 && s !in pred'
    ensures forall v :: HasDistance(dist', v) && v != s ==> v in pred'
    ensures forall v :: v in pred' ==>
              && v in dist' && pred'[v] in visited + {u} && pred'[v] in adj && v in adj[pred'[v]]
              && dist'[v] == dist'[pred'[v]] + adj[pred'[v]][v]
  {
    assert !Improves(adj, u, d, dist, s);
    forall v | v in pred'
      ensures && v in dist' && pred'[v] in visited + {u} && v in adj[pred'[v]]
              && dist'[v] == dist'[pred'[v]] + adj[pred'[v]][v]
    {
      if !Improves(adj, u, d, dist, v) {
        assert pred[v] in visited;
      }
    }
  }

  /** After relaxing, the expanded nodes including `u` are settled. */
  lemma ExpandKeepsSettled(adj: Adjacency, u: Node, d: nat,
                           dist: map<Node, nat>, visited: set<Node>, pred: map<Node, Node>,
                           rest: seq<Entry>,
                           dist': map<Node, nat>, pred': map<Node, Node>, queue': seq<Entry>)
    requires u in adj && u in dist && dist[u] == d
    requires RelaxedFrom(adj, u, d, dist, pred, rest, dist', pred', queue')
    requires forall v :: v in visited + {u} ==> !Improves(adj, u, d, dist, v)
    requires visited <= dist.Keys
    requires Settled(adj, dist, visited)
    ensures Settled(adj, dist', visited + {u})
  {
    forall x, v | x in visited + {u} && x in dist' && x in adj && v in adj[x]
      ensures v in dist' && dist'[v] <= dist'[x] + adj[x][v]
    {
      assert dist'[x] == dist[x];
      if x != u {
        assert v in dist && dist[v] <= dist[x] + adj[x][v];
      }
    }
  }

  /** After relaxing, every frontier entry is at least the current distance
      of its node and at least the popped distance `d`. */
  lemma ExpandKeepsQueueBounds(adj: Adjacency, u: Node, d: nat,
                               dist: map<Node, nat>, pred: map<Node, Node>, rest: seq<Entry>,
                               dist': map<Node, nat>, pred': map<Node, Node>, queue': seq<Entry>)
    requires u in adj
    requires RelaxedFrom(adj, u, d, dist, pred, rest, dist', pred', queue')
    requires forall x :: x in rest ==> x.1 in dist && dist[x.1] <= x.0 && d <= x.0
    ensures forall x :: x in queue' ==> x.1 in dist' && dist'[x.1] <= x.0 && d <= x.0
  {
    forall x | x in queue'
      ensures x.1 in dist' && dist'[x.1] <= x.0 && d <= x.0
    {
      var k :| 0 <= k < |queue'| && queue'[k] == x;
      if k < |rest| {
        assert x == queue'[..|rest|][k];
      } else {
        assert x == queue'[|rest|..][k - |rest|];
      }
    }
  }

  /** After relaxing, every node with a distance that is not expanded has an
      entry with exactly that distance. */
  lemma ExpandKeepsQueueEntries(adj: Adjacency, u: Node, d: nat,
                                dist: map<Node, nat>, visited: set<Node>, pred: map<Node, Node>,
                                rest: seq<Entry>,
                                dist': map<Node, nat>, pred': map<Node, Node>, queue': seq<Entry>)
    requires u in adj
    requires RelaxedFrom(adj, u, d, dist, pred, rest, dist', pred', queue')
    requires forall v :: v in dist && v !in visited && v != u ==> (dist[v], v) in rest
    ensures forall v :: v in dist' && v !in visited + {u} ==> (dist'[v], v) in queue'
  {
    forall v | v in dist' && v !in visited + {u}
      ensures (dist'[v], v) in queue'
    {
      if Improves(adj, u, d, dist, v) {
        assert (dist'[v], v) in queue'[|rest|..];
      } else {
        var k :| 0 <= k < |rest| && rest[k] == (dist[v], v);
        assert queue'[k] == queue'[..|rest|][k];
      }
    }
  }

  /** Expanding `u` in round `|expanded|` keeps predecessors stamped
      before the nodes they precede. */
  lemma ExpandKeepsStamps(adj: Adjacency, u: Node, d: nat,
                          dist: map<Node, nat>, visited: set<Node>, pred: map<Node, Node>,
                          stamp: map<Node, nat>, expanded: seq<Node>, rest: seq<Entry>,
                          dist': map<Node, nat>, pred': map<Node, Node>, queue': seq<Entry>,
                          stamp': map<Node, nat>, expanded': seq<Node>)
    requires u in adj && u !in visited
    requires RelaxedFrom(adj, u, d, dist, pred, rest, dist', pred', queue')
    requires forall v :: v in visited + {u} ==> !Improves(adj, u, d, dist, v)
    requires forall v :: v in pred ==> pred[v] in visited
    requires stamp.Keys == visited
    requires forall v :: v in stamp ==> stamp[v] < |expanded|
    requires forall v :: v in pred && v in visited ==> stamp[pred[v]] < stamp[v]
    requires Distinct(expanded) && (forall v :: v in expanded <==> v in visited)
    requires stamp' == stamp[u := |expanded|] && expanded' == expanded + [u]
    ensures stamp'.Keys == visited + {u}
    ensures forall v :: v in stamp' ==> stamp'[v] < |expanded'|
    ensures forall v :: v in pred' && v in visited + {u} ==>
              pred'[v] in visited && stamp'[pred'[v]] < stamp'[v]
    ensures Distinct(expanded') && (forall v :: v in expanded' <==> v in visited + {u})
  {
    forall v | v in pred' && v in visited + {u}
      ensures pred'[v] in visited && stamp'[pred'[v]] < stamp'[v]
    {
      assert !Improves(adj, u, d, dist, v);
      assert pred'[v] == pred[v] && pred[v] in visited;
    }
  }

  /** Expanding `u` in round `|expanded|` keeps the tree invariant. */
  lemma ExpandKeepsTree(adj: Adjacency, s: Node, u: Node, d: nat,
                        dist: map<Node, nat>, visited: set<Node>, pred: map<Node, Node>,
                        stamp: map<Node, nat>, expanded: seq<Node>, rest: seq<Entry>,
                        dist': map<Node, nat>, pred': map<Node, Node>, queue': seq<Entry>)
    requires Closed(adj)
    requires TreeInvariant(adj, s, dist, visited, pred, stamp, expanded)
    requires u in adj && u in dist && dist[u] == d && u !in visited
    requires RelaxedFrom(adj, u, d, dist, pred, rest, dist', pred', queue')
    requires forall v :: v in visited + {u} ==> !Improves(adj, u, d, dist, v)
    ensures TreeInvariant(adj, s, dist', visited + {u}, pred', stamp[u := |expanded|], expanded + [u])
  {
    ExpandKeepsPredecessors(adj, s, u, d, dist, visited, pred, rest, dist', pred', queue');
    ExpandKeepsStamps(adj, u, d, dist, visited, pred, stamp, expanded, rest, dist', pred', queue',
                      stamp[u := |expanded|], expanded + [u]);
    assert dist'.Keys <= adj.Keys;
  }

  /** Expanding the popped node `u` (adding it to `visitados` and relaxing
      its edges) keeps the invariant. */
  lemma ExpandKeepsInvariant(adj: Adjacency, s: Node, t: Node, dist: map<Node, nat>,
                             visited: set<Node>, queue: seq<Entry>, pred: map<Node, Node>,
                             lo: nat, stamp: map<Node, nat>, expanded: seq<Node>,
                             e: Entry, rest: seq<Entry>,
                             dist': map<Node, nat>, pred': map<Node, Node>, queue': seq<Entry>)
    requires Closed(adj)
    requires SearchInvariant(adj, s, t, dist, visited, queue, pred, lo, stamp, expanded)
    requires PoppedFrom(queue, e, rest) && e.1 !in visited && e.1 != t
    requires e.1 in adj && RelaxedFrom(adj, e.1, e.0, dist, pred, rest, dist', pred', queue')
    ensures SearchInvariant(adj, s, t, dist', visited + {e.1}, queue', pred', e.0,
                            stamp[e.1 := |expanded|], expanded + [e.1])
  {
    var (d, u) := e;
    PoppedDistanceIsCurrent(adj, s, t, dist, visited, queue, pred, lo, stamp, expanded, e, rest);
    ExpandedNotImproved(adj, u, d, dist, visited, lo);
    ExpandKeepsTree(adj, s, u, d, dist, visited, pred, stamp, expanded, rest, dist', pred', queue');
    ExpandKeepsSettled(adj, u, d, dist, visited, pred, rest, dist', pred', queue');
    ExpandKeepsQueueBounds(adj, u, d, dist, pred, rest, dist', pred', queue');
    forall v | v in dist && v !in visited && v != u
      ensures (dist[v], v) in rest
    {
      assert (dist[v], v) in queue;
    }
    ExpandKeepsQueueEntries(adj, u, d, dist, visited, pred, rest, dist', pred', queue');
    forall v | v in visited + {u}
      ensures dist'[v] <= d
    {
      assert !Improves(adj, u, d, dist, v);
    }
  }

  /** When the target is popped its distance is optimal. */
  lemma TargetPoppedIsShortest(adj: Adjacency, s: Node, t: Node, dist: map<Node, nat>,
                               visited: set<Node>, queue: seq<Entry>, pred: map<Node, Node>,
                               lo: nat, stamp: map<Node, nat>, expanded: seq<Node>,
                               e: Entry, rest: seq<Entry>)
    requires SearchInvariant(adj, s, t, dist, visited, queue, pred, lo, stamp, expanded)
    requires PoppedFrom(queue, e, rest) && e.1 == t
    ensures t in dist && NoShorterWalk(adj, s, t, dist[t])
  {
    PoppedDistanceIsCurrent(adj, s, t, dist, visited, queue, pred, lo, stamp, expanded, e, rest);
    forall p | IsWalk(adj, p) && p[0] == s && p[|p| - 1] == t
      ensures dist[t] <= Cost(adj, p)
    {
      PoppedIsShortest(adj, s, dist, visited, queue, e.0, p);
    }
  }

  /** When the frontier runs empty before the target is popped, the target
      has no distance and cannot be reached. */
  lemma ExhaustedMeansUnreachable(adj: Adjacency, s: Node, t: Node, dist: map<Node, nat>,
                                  visited: set<Node>, pred: map<Node, Node>,
                                  lo: nat, stamp: map<Node, nat>, expanded: seq<Node>)
    requires SearchInvariant(adj, s, t, dist, visited, [], pred, lo, stamp, expanded)
    ensures t !in dist && !Reachable(adj, s, t)
  {
    assert s in visited;
    forall p | IsWalk(adj, p) && p[0] == s
      ensures p[|p| - 1] != t
    {
      WalkStaysSettled(adj, dist, visited, p, |p| - 1);
    }
  }

  /** Adding a new element of `a` to a subset of `a` keeps it a subset,
      one element larger. */
  lemma GrowingSubsetBound(a: set<Node>, b: set<Node>, u: Node)
    requires b <= a && u in a && u !in b
    ensures |b + {u}| == |b| + 1 && |b + {u}| <= |a|
  {
    SubsetCardinality(b + {u}, a);
  }

  lemma {:induction false} SubsetCardinality(b: set<Node>, a: set<Node>)
    requires b <= a
    ensures |b| <= |a|
    decreases |a|
  {
    if b != {} {
      var x :| x in b;
      SubsetCardinality(b - {x}, a - {x});
    }
  }

  /** The state before the first round: `distancia[origen] = 0`, nothing
      visited, the frontier `[(0, origen)]`, no predecessors. */
  lemma InitialInvariant(adj: Adjacency, s: Node, t: Node)
    requires s in adj
    ensures SearchInvariant(adj, s, t, map[s := 0], {}, [(0, s)], map[], 0, map[], [])
  {
  }

  /** The final `distancia` and `anteriores` form a predecessor tree, ranked
      by expansion round (nodes never expanded come last). */
  lemma FinalPredecessorTree(adj: Adjacency, s: Node, dist: map<Node, nat>,
                             visited: set<Node>, pred: map<Node, Node>,
                             stamp: map<Node, nat>, expanded: seq<Node>)
    returns (rank: map<Node, nat>)
    requires TreeInvariant(adj, s, dist, visited, pred, stamp, expanded)
    ensures PredecessorTree(adj, s, dist, pred, rank)
  {
    rank := map v | v in dist :: if v in stamp then stamp[v] else |expanded|;
  }

  /** The first loop of `dijkstra`: pop the least frontier entry, stop when
      it is `t`, skip it when its node is already in `visitados`, and
      otherwise expand its node. On return, `found` says whether `t` was
      popped; then its distance is optimal, and otherwise `t` has no
      distance and cannot be reached. The distance and predecessor maps
      form a predecessor tree ranked by `rank`. */
  method Search(adj: Adjacency, s: Node, t: Node)
    returns (found: bool, dist: map<Node, nat>, pred: map<Node, Node>,
             ghost rank: map<Node, nat>, ghost expanded: seq<Node>)
    requires Closed(adj) && s in adj
    ensures PredecessorTree(adj, s, dist, pred, rank)
    ensures found ==> t in dist && NoShorterWalk(adj, s, t, dist[t])
    ensures !found ==> t !in dist && !Reachable(adj, s, t)
    ensures Distinct(expanded) && (forall v :: v in expanded ==> v in adj && v != t)
    ensures forall v :: v in pred ==> pred[v] in expanded
  {
    dist := map[s := 0];
    var visited: set<Node> := {};
    var queue: seq<Entry> := [(0, s)];
    pred := map[];
    ghost var lo: nat := 0;
    ghost var stamp: map<Node, nat> := map[];
    expanded := [];
    found := false;
    InitialInvariant(adj, s, t);

    while queue != []
      invariant !found
      invariant SearchInvariant(adj, s, t, dist, visited, queue, pred, lo, stamp, expanded)
      decreases |adj.Keys| - |visited|, |queue|
    {
      var e, rest := PopMin(queue);
      var (d, u) := e;
      if u == t {
        TargetPoppedIsShortest(adj, s, t, dist, visited, queue, pred, lo, stamp, expanded, e, rest);
        rank := FinalPredecessorTree(adj, s, dist, visited, pred, stamp, expanded);
        found := true;
        return;
      }
      if u in visited {
        SkipKeepsInvariant(adj, s, t, dist, visited, queue, pred, lo, stamp, expanded, e, rest);
        queue := rest;
        continue;
      }
      var dist', pred', queue' := RelaxNeighbours(adj, u, d, dist, pred, rest);
      ExpandKeepsInvariant(adj, s, t, dist, visited, queue, pred, lo, stamp, expanded,
                           e, rest, dist', pred', queue');
      GrowingSubsetBound(adj.Keys, visited, u);
      visited := visited + {u};
      stamp := stamp[u := |expanded|];
      expanded := expanded + [u];
      lo := d;
      dist, pred, queue := dist', pred', queue';
    }
    rank := FinalPredecessorTree(adj, s, dist, visited, pred, stamp, expanded);
    ExhaustedMeansUnreachable(adj, s, t, dist, visited, pred, lo, stamp, expanded);
  }

  /** `GraphWindow.dijkstra(grafo, origen, destino)`: the search followed by
      the reconstruction. The ghost result `expanded` lists the nodes whose
      edges were relaxed, in order; each is expanded at most once. An
      `origen` outside the graph is popped first: it is the answer when it
      is also `destino`, and otherwise looking up its edges fails. */
  method Dijkstra(adj: Adjacency, s: Node, t: Node)
    returns (r: Result<Route, KeyError>, ghost expanded: seq<Node>)
    requires Closed(adj)
    ensures s in adj ==> SolvesShortestPath(adj, s, t, r)
    ensures s !in adj ==> r == if s == t then Ok(Route([s], 0)) else Err(KeyError(s))
    ensures Distinct(expanded) && (forall v :: v in expanded ==> v in adj && v != t)
    ensures r.Ok? ==> forall i :: 0 <= i < |r.value.path| - 1 ==> r.value.path[i] in expanded
  {
    if s !in adj {
      expanded := [];
      r := if s == t then Ok(Route([s], 0)) else Err(KeyError(s));
      return;
    }
    var found, dist, pred;
    ghost var rank;
    found, dist, pred, rank, expanded := Search(adj, s, t);
    r := Reconstruct(adj, s, t, dist, pred, rank);
    if r.Ok? {
      LinkedWalkInside(pred, r.value.path, expanded);
    }
  }
}
