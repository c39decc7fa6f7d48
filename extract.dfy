/**
 * Bounded extraction of the part of the DAG that lies beyond a boundary set of nodes
 * (`new_nodes_edges` and the breadth-first search it runs from each boundary node).
 */
module Extract {
  import opened Graph

  /**
   * Breadth-first search from `start` (petgraph's `Bfs`): a node is discovered at most
   * once and every discovered node is eventually visited. Returns the nodes visited,
   * which are exactly those reachable from `start`, `start` included.
   */
  method Bfs(edges: set<Edge>, start: nat) returns (visited: set<nat>)
    ensures forall t :: t in visited <==> Reaches(edges, start, t)
  {
    var universe := {start} + Targets(edges);
    visited := {start};
    var queue := [start];
    ReachesRefl(edges, start);
    while queue != []
      invariant start in visited && visited <= universe
      invariant forall v :: v in queue ==> v in visited
      invariant forall t :: t in visited ==> Reaches(edges, start, t)
      invariant forall e :: e in edges && e.0 in visited && e.0 !in queue ==> e.1 in visited
      decreases universe - visited, |queue|
    {
      var u := queue[0];
      queue := queue[1..];
      ghost var visited0, queue0 := visited, queue;
      var pending := Successors(edges, u);
      while pending != {}
        invariant pending <= Successors(edges, u)
        invariant visited0 <= visited <= universe
        invariant visited == visited0 ==> queue == queue0
        invariant forall v :: v in queue ==> v in visited
        invariant forall t :: t in visited ==> Reaches(edges, start, t)
        invariant forall v :: v in Successors(edges, u) && v !in pending ==> v in visited
        invariant forall e :: e in edges && e.0 in visited && e.0 !in queue && e.0 != u ==> e.1 in visited
        decreases pending
      {
        var v :| v in pending;
        pending := pending - {v};
        if v !in visited {
          assert (u, v) in edges;
          ReachesStep(edges, start, u, v);
          visited := visited + {v};
          queue := queue + [v];
        }
      }
      forall e | e in edges && e.0 == u ensures e.1 in visited {
        assert e.1 in Successors(edges, u);
      }
      if visited != visited0 {
        var w :| w in visited && w !in visited0;
        assert w in universe - visited0 && w !in universe - visited;
      }
    }
    forall t | Reaches(edges, start, t) ensures t in visited {
      ClosedHoldsReachable(edges, visited, start, t);
    }
  }

  /**
   * What extending the view past `boundary` must add: the nodes reachable from some
   * boundary node that are not boundary nodes themselves, and every edge whose target
   * is one of those new nodes (which takes in the edges from the boundary to them).
   */
  ghost predicate Extraction(edges: set<Edge>, boundary: set<nat>, newNodes: set<nat>, newEdges: set<Edge>) {
    && (forall t :: t in newNodes <==> t !in boundary && ReachedFrom(edges, boundary, t))
    && (forall e :: e in newEdges <==> e in edges && e.1 in newNodes)
  }

  /**
   * What extending the view forwards past `boundary` must add: the nodes from which
   * some boundary node is reachable, boundary excluded, and every edge leaving them.
   */
  ghost predicate DescendantExtraction(edges: set<Edge>, boundary: set<nat>, newNodes: set<nat>, newEdges: set<Edge>) {
    && (forall t :: t in newNodes <==> t !in boundary && exists s :: s in boundary && Reaches(edges, t, s))
    && (forall e :: e in newEdges <==> e in edges && e.0 in newNodes)
  }

  /** `new_nodes_edges`: one search per boundary node, then the edges into what was found. */
  method NewNodesEdges(edges: set<Edge>, boundary: set<nat>) returns (newNodes: set<nat>, newEdges: set<Edge>)
    ensures Extraction(edges, boundary, newNodes, newEdges)
    ensures newNodes !! boundary
  {
    var nodeIndices := boundary;
    var rest := boundary;
    while rest != {}
      invariant rest <= boundary <= nodeIndices
      invariant forall t :: t in nodeIndices && t !in boundary ==> ReachedFrom(edges, boundary, t)
      invariant forall s, t :: s in boundary - rest && Reaches(edges, s, t) ==> t in nodeIndices
      decreases rest
    {
      var s :| s in rest;
      var found := Bfs(edges, s);
      nodeIndices := nodeIndices + found;
      rest := rest - {s};
    }
    newNodes := nodeIndices - boundary;

    newEdges := {};
    var pending := newNodes;
    while pending != {}
      invariant pending <= newNodes
      invariant forall e :: e in newEdges <==> e in edges && e.1 in newNodes - pending
      decreases pending
    {
      var idx :| idx in pending;
      var incoming := InEdges(edges, idx);
      while incoming != {}
        invariant incoming <= InEdges(edges, idx)
        invariant forall e :: e in newEdges <==> e in edges && (e.1 in newNodes - pending || (e.1 == idx && e !in incoming))
        decreases incoming
      {
        var e :| e in incoming;
        newEdges := newEdges + {e};
        incoming := incoming - {e};
      }
      pending := pending - {idx};
    }
  }

  /**
   * For the chain 0 -> 1 -> 2 (each event pointing at its predecessor), extending
   * backwards from {0} adds the nodes {1, 2} and the edges {0 -> 1, 1 -> 2}.
   */
  lemma ChainExample(newNodes: set<nat>, newEdges: set<Edge>)
    requires Extraction({(0, 1), (1, 2)}, {0}, newNodes, newEdges)
    ensures newNodes == {1, 2}
    ensures newEdges == {(0, 1), (1, 2)}
  {
    var edges: set<Edge> := {(0, 1), (1, 2)};
    ReachesRefl(edges, 0);
    ReachesStep(edges, 0, 0, 1);
    ReachesStep(edges, 0, 1, 2);
    assert 1 in newNodes && 2 in newNodes;
    forall t | t in newNodes ensures t in {1, 2} {
      var s :| s in {0} && Reaches(edges, s, t);
      ClosedHoldsReachable(edges, {0, 1, 2}, s, t);
    }
  }

  /**
   * Run on the reversed edges, the extraction finds the descendants of the boundary
   * (boundary excluded); its edges, turned back, are the edges leaving them.
   */
  lemma ReversedExtraction(edges: set<Edge>, boundary: set<nat>, newNodes: set<nat>, revEdges: set<Edge>)
    requires Extraction(Reverse(edges), boundary, newNodes, revEdges)
    ensures DescendantExtraction(edges, boundary, newNodes, Reverse(revEdges))
  {
    forall t ensures t in newNodes <==> t !in boundary && exists s :: s in boundary && Reaches(edges, t, s) {
      forall s ensures Reaches(Reverse(edges), s, t) <==> Reaches(edges, t, s) {
        ReachesReverse(edges, s, t);
      }
    }
    forall e: Edge ensures e in Reverse(revEdges) <==> e in edges && e.0 in newNodes {
      ReverseMembers(revEdges, e.0, e.1);
      ReverseMembers(edges, e.1, e.0);
    }
  }
}
