/** The three-node network N1 -> N2 -> N3 (weight 1 each) with the direct
    edge N1 -> N3 (weight 5): what any correct answer of the shortest-path
    search is on it. */
module Scenarios {
  import opened Wrappers
  import opened Graphs
  import opened ShortestPath

  function Triangle(): Adjacency
  {
    map["N1" := map["N2" := 1, "N3" := 5], "N2" := map["N3" := 1], "N3" := map[]]
  }

  /** A walk that reaches N3 stops there. */
  lemma WalkEndsAtN3(p: seq<Node>, i: nat)
    requires IsWalk(Triangle(), p) && i < |p| && p[i] == "N3"
    ensures i == |p| - 1
  {
    forall j | 0 <= j < |p| - 1 ensures p[j] != "N3" {
      assert p[j + 1] in Triangle()[p[j]];
    }
  }

  /** The only walks from N1 to N3 are the direct edge and the detour
      through N2, since N3 has no outgoing edge. */
  lemma WalksFromN1ToN3(p: seq<Node>)
    requires IsWalk(Triangle(), p) && p[0] == "N1" && p[|p| - 1] == "N3"
    ensures p == ["N1", "N3"] || p == ["N1", "N2", "N3"]
  {
    var adj := Triangle();
    assert "N1" != "N3";
    assert |p| >= 2;
    assert p[1] in adj["N1"];
    if |p| == 2 {
      assert p == ["N1", "N3"];
    } else {
      assert p[2] in adj[p[1]];
      assert p[1] == "N2";
      assert p[2] == "N3";
      WalkEndsAtN3(p, 2);
      assert p == ["N1", "N2", "N3"];
    }
  }

  /** From N1 to N3 the answer is the detour through N2, of length 2. */
  lemma N1ToN3GoesThroughN2(r: Result<Route, KeyError>)
    requires SolvesShortestPath(Triangle(), "N1", "N3", r)
    ensures r == Ok(Route(["N1", "N2", "N3"], 2))
  {
    var adj := Triangle();
    var detour: seq<Node> := ["N1", "N2", "N3"];
    var direct: seq<Node> := ["N1", "N3"];
    assert IsWalk(adj, detour) && IsWalk(adj, direct);
    assert detour[..2] == ["N1", "N2"] && detour[..2][..1] == ["N1"] && direct[..1] == ["N1"];
    assert Cost(adj, detour) == 2;
    assert Cost(adj, direct) == 5;
    assert Reachable(adj, "N1", "N3");
    SolvedIsErrIffUnreachable(adj, "N1", "N3", r);
    WalksFromN1ToN3(r.value.path);
  }

  /** Nothing leaves N3, so asking for a route from N3 to N1 fails with the
      KeyError on N1. */
  lemma N3ToN1Fails(r: Result<Route, KeyError>)
    requires SolvesShortestPath(Triangle(), "N3", "N1", r)
    ensures r == Err(KeyError("N1"))
  {
    var adj := Triangle();
    forall p | IsWalk(adj, p) && p[0] == "N3"
      ensures p[|p| - 1] != "N1"
    {
      WalkEndsAtN3(p, 0);
      assert "N3" != "N1";
    }
    SolvedIsErrIffUnreachable(adj, "N3", "N1", r);
  }
}
