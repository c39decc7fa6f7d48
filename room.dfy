/**
 * `RoomEvents`: the DAG of one observed room, grown in place batch by batch, and the
 * projections of it into data sets.
 */
module Room {
  import opened Wrappers
  import opened Events
  import opened Graph
  import opened Store
  import opened Extract
  import opened DataSets
  import opened SetCard

  class RoomEvents {
    const roomId: string
    const serverName: string
    var fields: set<Field>

    var nodes: seq<Event>                 // the node arena; a node's index is its position
    var edges: set<Edge>                  // child -> predecessor
    var eventsMap: map<string, nat>       // event id -> index of its latest node
    var depthMap: map<int, seq<nat>>      // depth -> indices of the nodes at that depth
    var latestEvents: seq<string>
    var earliestEvents: seq<string>
    var orphanEvents: seq<OrphanInfo>
    var maxDepth: int                     // -1 while no depth has been recorded
    var minDepth: int                     // -1 while no depth has been recorded

    /** The indexes and depth extremes agree with the arena, and every edge was declared. */
    ghost predicate Valid()
      reads this`nodes, this`eventsMap, this`depthMap, this`maxDepth, this`minDepth, this`edges
    {
      ArenaIndexed(nodes, eventsMap, depthMap, maxDepth, minDepth) && EdgesDeclared(nodes, edges)
    }

    /** Every resolvable predecessor has its edge, and the frontier lists match the edges. */
    ghost predicate Settled()
      reads this
    {
      && ResolvedEdges(nodes, eventsMap) <= edges
      && earliestEvents == EarliestIds(nodes, edges, |nodes|)
      && latestEvents == LatestIds(nodes, edges, |nodes|)
      && orphanEvents == Orphans(nodes, edges, |nodes|)
    }

    /**
     * What `Valid` means for the indexes: the id map points every known id at its
     * latest node, each depth bucket lists exactly the nodes at that depth in insertion
     * order, and, as long as no event has depth -1, the depth fields are the true extremes
     * (both -1 for an empty arena).
     */
    lemma IndexesMeaning()
      requires Valid()
      ensures IndexesLatest(nodes, eventsMap)
      ensures DepthBucketsExact(nodes, depthMap)
      ensures NoSentinelDepth(nodes) && |nodes| == 0 ==> maxDepth == -1 && minDepth == -1
      ensures NoSentinelDepth(nodes) ==> forall i :: 0 <= i < |nodes| ==> minDepth <= nodes[i].depth <= maxDepth
      ensures NoSentinelDepth(nodes) && |nodes| > 0 ==>
                (exists i :: 0 <= i < |nodes| && nodes[i].depth == maxDepth) &&
                (exists i :: 0 <= i < |nodes| && nodes[i].depth == minDepth)
    {
      IdIndexLatest(nodes);
      DepthIndexExact(nodes);
      if NoSentinelDepth(nodes) {
        DepthFoldsAreExtremes(nodes, |nodes|);
      }
    }

    /** `from_deepest_events`: an empty DAG followed by the ingestion of `events`. */
    constructor FromDeepestEvents(roomId: string, serverName: string, fields: set<Field>, events: seq<Event>)
      ensures Valid() && Settled()
      ensures this.roomId == roomId && this.serverName == serverName && this.fields == fields
      ensures nodes == events
      ensures edges == ResolvedEdges(nodes, eventsMap)
    {
      this.roomId := roomId;
      this.serverName := serverName;
      this.fields := fields;
      nodes := [];
      edges := {};
      eventsMap := map[];
      depthMap := map[];
      latestEvents := [];
      earliestEvents := [];
      orphanEvents := [];
      maxDepth := -1;
      minDepth := -1;
      new;
      AddEventNodes(events);
      UpdateEventEdges();
    }

    /**
     * `from_sync_response`: no DAG when the sync response has no joined room `roomId`,
     * otherwise a DAG built from that room's timeline. `joined` maps each joined room's
     * id to its decoded timeline events.
     */
    static method FromSyncResponse(roomId: string, serverName: string, fields: set<Field>, joined: map<string, seq<Event>>)
      returns (r: Option<RoomEvents>)
      ensures r.None? <==> roomId !in joined
      ensures r.Some? ==> && fresh(r.value) && r.value.Valid() && r.value.Settled()
                          && r.value.roomId == roomId && r.value.serverName == serverName
                          && r.value.fields == fields && r.value.nodes == joined[roomId]
                          && r.value.edges == ResolvedEdges(r.value.nodes, r.value.eventsMap)
    {
      if roomId in joined {
        var dag := new RoomEvents.FromDeepestEvents(roomId, serverName, fields, joined[roomId]);
        r := Some(dag);
      } else {
        r := None;
      }
    }

    /** `add_events`: ingests a batch, then re-resolves edges and rebuilds the frontier. */
    method AddEvents(events: seq<Event>)
      requires Valid()
      modifies this
      ensures Valid() && Settled()
      ensures nodes == old(nodes) + events
      ensures edges == old(edges) + ResolvedEdges(nodes, eventsMap)
      ensures fields == old(fields)
    {
      AddEventNodes(events);
      UpdateEventEdges();
    }

    /**
     * `add_event_nodes`: appends one node per event, duplicates included, points the
     * event's id at the new node, appends the node to its depth's bucket (creating the
     * bucket when absent) and updates the depth extremes.
     */
    method AddEventNodes(events: seq<Event>)
      requires Valid()
      modifies this`nodes, this`eventsMap, this`depthMap, this`maxDepth, this`minDepth
      ensures Valid()
      ensures nodes == old(nodes) + events
    {
      var k := 0;
      while k < |events|
        invariant 0 <= k <= |events|
        invariant Valid()
        invariant nodes == old(nodes) + events[..k]
      {
        AddEventNode(events[k]);
        AppendNext(old(nodes), events, k);
        k := k + 1;
      }
      TakeAll(old(nodes), events);
    }

    /**
     * The body of the `add_event_nodes` loop for one event: a new node, the id pointed
     * at it, the node's index appended to its depth's bucket, the extremes updated.
     */
    method AddEventNode(event: Event)
      requires Valid()
      modifies this`nodes, this`eventsMap, this`depthMap, this`maxDepth, this`minDepth
      ensures Valid()
      ensures nodes == old(nodes) + [event]
      ensures eventsMap == old(eventsMap)[event.eventId := |old(nodes)|]
      ensures depthMap == AddToBucket(old(depthMap), event.depth, |old(nodes)|)
      ensures maxDepth == NextMax(old(maxDepth), event.depth)
      ensures minDepth == NextMin(old(minDepth), event.depth)
    {
      var index := |nodes|;
      InsertKeepsArena(nodes, eventsMap, depthMap, maxDepth, minDepth, edges, event);
      nodes := nodes + [event];
      eventsMap := eventsMap[event.eventId := index];
      if event.depth !in depthMap {
        depthMap := depthMap[event.depth := [index]];
      } else {
        depthMap := depthMap[event.depth := depthMap[event.depth] + [index]];
      }
      if maxDepth == -1 || event.depth > maxDepth {
        maxDepth := event.depth;
      }
      if minDepth == -1 || event.depth < minDepth {
        minDepth := event.depth;
      }
    }

    /**
     * `update_event_edges`: resolves every node's predecessors into edges, then clears
     * and rebuilds the latest, earliest and orphan lists from the edges.
     */
    method UpdateEventEdges()
      requires Valid()
      modifies this`edges, this`latestEvents, this`earliestEvents, this`orphanEvents
      ensures Valid() && Settled()
      ensures edges == old(edges) + ResolvedEdges(nodes, eventsMap)
    {
      ResolveEdges();
      RebuildFrontiers();
    }

    /**
     * The first half of `update_event_edges`: for every node and every id in its
     * `prev_events` that the id map knows, an edge from the node to that id's node (an
     * edge already present is not duplicated).
     */
    method ResolveEdges()
      requires Valid()
      modifies this`edges
      ensures Valid()
      ensures edges == old(edges) + ResolvedEdges(nodes, eventsMap)
    {
      var src := 0;
      while src < |nodes|
        invariant 0 <= src <= |nodes|
        invariant Valid()
        invariant edges == old(edges) + ResolvedBelow(nodes, eventsMap, src)
      {
        ResolvePredecessors(src);
        src := src + 1;
      }
    }

    /** The body of the resolution loop for node `src`: one edge per known predecessor id. */
    method ResolvePredecessors(src: nat)
      requires Valid() && src < |nodes|
      modifies this`edges
      ensures Valid()
      ensures edges == old(edges) + ResolvedFrom(src, nodes[src].prevEvents, eventsMap, |nodes[src].prevEvents|)
    {
      var prev := nodes[src].prevEvents;
      var j := 0;
      while j < |prev|
        invariant 0 <= j <= |prev|
        invariant Valid()
        invariant edges == old(edges) + ResolvedFrom(src, prev, eventsMap, j)
      {
        if prev[j] in eventsMap {
          var dst := eventsMap[prev[j]];
          IdIndexPoints(nodes, prev[j]);
          assert prev[j] in nodes[src].prevEvents;
          edges := edges + {(src, dst)};
        }
        j := j + 1;
      }
    }

    /**
     * The second half of `update_event_edges`: the three lists are cleared, then every
     * node, in index order, is listed as earliest when it has no outgoing edge, as
     * latest when it has no incoming edge, and as an orphan when it has fewer outgoing
     * edges than entries in its `prev_events`.
     */
    method RebuildFrontiers()
      modifies this`latestEvents, this`earliestEvents, this`orphanEvents
      ensures earliestEvents == EarliestIds(nodes, edges, |nodes|)
      ensures latestEvents == LatestIds(nodes, edges, |nodes|)
      ensures orphanEvents == Orphans(nodes, edges, |nodes|)
    {
      latestEvents := [];
      earliestEvents := [];
      orphanEvents := [];
      var idx := 0;
      while idx < |nodes|
        invariant 0 <= idx <= |nodes|
        invariant earliestEvents == EarliestIds(nodes, edges, idx)
        invariant latestEvents == LatestIds(nodes, edges, idx)
        invariant orphanEvents == Orphans(nodes, edges, idx)
      {
        if |OutEdges(edges, idx)| == 0 {
          earliestEvents := earliestEvents + [nodes[idx].eventId];
        }
        if |InEdges(edges, idx)| == 0 {
          latestEvents := latestEvents + [nodes[idx].eventId];
        }
        if |OutEdges(edges, idx)| < |nodes[idx].prevEvents| {
          orphanEvents := orphanEvents + [OrphanInfo(nodes[idx].eventId, nodes[idx].depth)];
        }
        idx := idx + 1;
      }
    }

    /** `get_event`: the latest node carrying `id`, if any node does. */
    function GetEvent(id: string): (r: Option<Event>)
      reads this
      requires Valid()
      ensures r.Some? <==> exists i :: 0 <= i < |nodes| && nodes[i].eventId == id
      ensures r.Some? ==> && r.value.eventId == id
                          && exists i :: 0 <= i < |nodes| && nodes[i] == r.value &&
                               forall j :: i < j < |nodes| ==> nodes[j].eventId != id
    {
      IdIndexLatest(nodes);
      if id in eventsMap then Some(nodes[eventsMap[id]]) else None
    }

    /** `change_fields`: selects the fields shown in labels from now on. */
    method ChangeFields(fields: set<Field>)
      modifies this`fields
      ensures this.fields == fields
    {
      this.fields := fields;
    }

    /** The data-set node of the event at index `i`. */
    function NodeAt(i: nat): DataSetNode
      reads this
      requires i < |nodes|
    {
      ToDataSetNode(nodes[i], serverName, fields)
    }

    /**
     * `to_data_set_edge`: the data-set edge between the events at the two indices, or
     * nothing when either index names no node.
     */
    function ToDataSetEdge(e: Edge): (r: Option<DataSetEdge>)
      reads this
      ensures r.Some? <==> e.0 < |nodes| && e.1 < |nodes|
      ensures r.Some? ==> && r.value.from == nodes[e.0].eventId && r.value.to == nodes[e.1].eventId
                          && r.value.id == r.value.from + r.value.to
    {
      if e.0 < |nodes| && e.1 < |nodes| then Some(EdgeAt(e)) else None
    }

    /** The data-set edge of an edge between two nodes of the arena. */
    function EdgeAt(e: Edge): DataSetEdge
      reads this
      requires e.0 < |nodes| && e.1 < |nodes|
    {
      EdgeBetween(nodes[e.0].eventId, nodes[e.1].eventId)
    }

    /** `ns` is the data-set node of each index of `order`, position by position. */
    ghost predicate NodesInOrder(ns: seq<DataSetNode>, order: seq<nat>)
      reads this
    {
      && |ns| == |order|
      && forall k :: 0 <= k < |order| ==> order[k] < |nodes| && ns[k] == NodeAt(order[k])
    }

    /** `out` is the data-set edge of each pair of `order`, position by position. */
    ghost predicate EdgesInOrder(out: seq<DataSetEdge>, order: seq<Edge>)
      reads this
    {
      && |out| == |order|
      && forall k :: 0 <= k < |order| ==> order[k].0 < |nodes| && order[k].1 < |nodes| && out[k] == EdgeAt(order[k])
    }

    /**
     * `ns` holds the data-set node of every index in `idxs`, once per index, in some
     * order: two indices whose nodes coincide give two equal entries.
     */
    ghost predicate ListsNodes(ns: seq<DataSetNode>, idxs: set<nat>)
      reads this
    {
      exists order :: Enumerates(order, idxs) && NodesInOrder(ns, order)
    }

    /** `out` holds the data-set edge of every pair in `es`, once per pair, in some order. */
    ghost predicate ListsEdges(out: seq<DataSetEdge>, es: set<Edge>)
      reads this
    {
      exists order :: Enumerates(order, es) && EdgesInOrder(out, order)
    }

    /** A listing has one entry per index, holds every index's node and nothing else. */
    lemma ListedNodes(ns: seq<DataSetNode>, idxs: set<nat>)
      requires ListsNodes(ns, idxs)
      ensures |ns| == |idxs|
      ensures forall i :: i in idxs ==> i < |nodes| && NodeAt(i) in ns
      ensures forall n :: n in ns ==> exists i :: i in idxs && i < |nodes| && n == NodeAt(i)
    {
      var order :| Enumerates(order, idxs) && NodesInOrder(ns, order);
      EnumerationSize(order, idxs);
      forall i | i in idxs ensures i < |nodes| && NodeAt(i) in ns {
        var k :| 0 <= k < |order| && order[k] == i;
        assert ns[k] == NodeAt(i);
      }
      forall n | n in ns ensures exists i :: i in idxs && i < |nodes| && n == NodeAt(i) {
        var k :| 0 <= k < |ns| && ns[k] == n;
        assert order[k] in idxs;
      }
    }

    /** A listing has one entry per pair, holds every pair's edge and nothing else. */
    lemma ListedEdges(out: seq<DataSetEdge>, es: set<Edge>)
      requires ListsEdges(out, es)
      ensures |out| == |es|
      ensures forall e :: e in es ==> e.0 < |nodes| && e.1 < |nodes| && EdgeAt(e) in out
      ensures forall x :: x in out ==> exists e :: e in es && e.0 < |nodes| && e.1 < |nodes| && x == EdgeAt(e)
    {
      var order :| Enumerates(order, es) && EdgesInOrder(out, order);
      EnumerationSize(order, es);
      forall e | e in es ensures e.0 < |nodes| && e.1 < |nodes| && EdgeAt(e) in out {
        var k :| 0 <= k < |order| && order[k] == e;
        assert out[k] == EdgeAt(e);
      }
      forall x | x in out ensures exists e :: e in es && e.0 < |nodes| && e.1 < |nodes| && x == EdgeAt(e) {
        var k :| 0 <= k < |out| && out[k] == x;
        assert order[k] in es;
      }
    }

    /** The data-set nodes of the indices in `idxs`, one per index, in the order `order`. */
    method ProjectNodes(idxs: set<nat>) returns (ns: seq<DataSetNode>, ghost order: seq<nat>)
      requires forall i :: i in idxs ==> i < |nodes|
      ensures Enumerates(order, idxs)
      ensures NodesInOrder(ns, order)
      ensures ListsNodes(ns, idxs)
    {
      ns, order := [], [];
      var rest := idxs;
      while rest != {}
        invariant rest <= idxs
        invariant Enumerates(order, idxs - rest)
        invariant NodesInOrder(ns, order)
        decreases rest
      {
        var i :| i in rest;
        ns := ns + [NodeAt(i)];
        order := order + [i];
        rest := rest - {i};
      }
      assert idxs - rest == idxs;
    }

    /** The data-set edges of the index pairs in `es`, one per pair, in the order `order`. */
    method ProjectEdges(es: set<Edge>) returns (out: seq<DataSetEdge>, ghost order: seq<Edge>)
      requires EdgesInRange(es, |nodes|)
      ensures Enumerates(order, es)
      ensures EdgesInOrder(out, order)
      ensures ListsEdges(out, es)
    {
      out, order := [], [];
      var rest := es;
      while rest != {}
        invariant rest <= es
        invariant Enumerates(order, es - rest)
        invariant EdgesInOrder(out, order)
        decreases rest
      {
        var e :| e in rest;
        out := out + [ToDataSetEdge(e).value];
        order := order + [e];
        rest := rest - {e};
      }
      assert es - rest == es;
    }

    /**
     * `create_data_set`: one node per id the id map knows (the latest node of each id)
     * and one edge per edge of the DAG.
     */
    method CreateDataSet() returns (ds: DataSet)
      requires Valid()
      ensures fresh(ds)
      ensures ListsNodes(ds.nodes, eventsMap.Values)
      ensures |ds.nodes| == |eventsMap|
      ensures forall id :: id in eventsMap ==> eventsMap[id] < |nodes| && NodeAt(eventsMap[id]) in ds.nodes
      ensures forall a, b :: 0 <= a < b < |ds.nodes| ==> ds.nodes[a].id != ds.nodes[b].id
      ensures ListsEdges(ds.edges, edges)
      ensures |ds.edges| == |edges|
    {
      IdIndexLatest(nodes);
      IdMapValues(nodes, eventsMap);
      var ns, nodeOrder := ProjectNodes(eventsMap.Values);
      var es, edgeOrder := ProjectEdges(edges);
      ds := new DataSet(ns, es);
      assert NodesInOrder(ds.nodes, nodeOrder) && EdgesInOrder(ds.edges, edgeOrder);
      ListedNodes(ds.nodes, eventsMap.Values);
      ListedEdges(ds.edges, edges);
      LatestNodesDistinctIds(ds.nodes, nodeOrder);
    }

    /** Listing the nodes the id map points at never repeats a node id. */
    lemma LatestNodesDistinctIds(ns: seq<DataSetNode>, order: seq<nat>)
      requires Valid()
      requires Enumerates(order, eventsMap.Values) && NodesInOrder(ns, order)
      ensures forall a, b :: 0 <= a < b < |ns| ==> ns[a].id != ns[b].id
    {
      IdIndexLatest(nodes);
      forall a, b | 0 <= a < b < |ns| ensures ns[a].id != ns[b].id {
        if ns[a].id == ns[b].id {
          MappedIndicesDistinct(nodes, eventsMap, order[a], order[b]);
        }
      }
    }

    /** The boundary indices name nodes of the arena. */
    lemma BoundaryInRange(from: seq<string>)
      requires Valid()
      requires forall id :: id in from ==> id in eventsMap
      ensures forall i :: i in Boundary(eventsMap, from) ==> i < |nodes|
    {
      IdIndexLatest(nodes);
    }

    /**
     * The search of `add_earlier_events_to_data_set`: the nodes reachable from the
     * boundary along predecessor edges (boundary excluded) and the edges into them.
     */
    method EarlierExtraction(from: seq<string>) returns (newNodes: set<nat>, newEdges: set<Edge>)
      requires Valid()
      requires forall id :: id in from ==> id in eventsMap
      ensures Extraction(edges, Boundary(eventsMap, from), newNodes, newEdges)
      ensures forall t :: t in newNodes ==> t < |nodes|
      ensures EdgesInRange(newEdges, |nodes|)
    {
      var fromIndices := Boundary(eventsMap, from);
      BoundaryInRange(from);
      newNodes, newEdges := NewNodesEdges(edges, fromIndices);
      ExtractionInRange(fromIndices, newNodes, newEdges);
    }

    /**
     * The search of `add_new_events_to_data_set`: the same extraction run on the
     * reversed graph, with each found edge turned back. The nodes found are the
     * descendants of the boundary (boundary excluded), the edges those leaving them.
     */
    method LaterExtraction(from: seq<string>) returns (newNodes: set<nat>, newEdges: set<Edge>)
      requires Valid()
      requires forall id :: id in from ==> id in eventsMap
      ensures DescendantExtraction(edges, Boundary(eventsMap, from), newNodes, newEdges)
      ensures forall t :: t in newNodes ==> t < |nodes|
      ensures EdgesInRange(newEdges, |nodes|)
    {
      var revEdges := Reverse(edges);
      var fromIndices := Boundary(eventsMap, from);
      BoundaryInRange(from);
      var revNewEdges;
      newNodes, revNewEdges := NewNodesEdges(revEdges, fromIndices);
      newEdges := Reverse(revNewEdges);
      ReversedExtraction(edges, fromIndices, newNodes, revNewEdges);
      DescendantsInRange(fromIndices, newNodes, newEdges);
    }

    /**
     * `add_earlier_events_to_data_set`: appends to `ds` the data-set nodes and edges of
     * the earlier extraction. `newNodes` and `newEdges` name the index sets that were added.
     */
    method AddEarlierEventsToDataSet(ds: DataSet, from: seq<string>) returns (ghost newNodes: set<nat>, ghost newEdges: set<Edge>)
      requires Valid()
      requires forall id :: id in from ==> id in eventsMap
      modifies ds
      ensures Extraction(edges, Boundary(eventsMap, from), newNodes, newEdges)
      ensures |ds.nodes| >= |old(ds.nodes)| && ds.nodes[..|old(ds.nodes)|] == old(ds.nodes)
      ensures ListsNodes(ds.nodes[|old(ds.nodes)|..], newNodes)
      ensures |ds.edges| >= |old(ds.edges)| && ds.edges[..|old(ds.edges)|] == old(ds.edges)
      ensures ListsEdges(ds.edges[|old(ds.edges)|..], newEdges)
    {
      var nn, ne := EarlierExtraction(from);
      assert this as object != ds as object;
      PushProjection(ds, nn, ne);
      newNodes, newEdges := nn, ne;
    }

    /**
     * `add_new_events_to_data_set`: appends to `ds` the data-set nodes and edges of
     * the later extraction. `newNodes` and `newEdges` name the index sets that were added.
     */
    method AddNewEventsToDataSet(ds: DataSet, from: seq<string>) returns (ghost newNodes: set<nat>, ghost newEdges: set<Edge>)
      requires Valid()
      requires forall id :: id in from ==> id in eventsMap
      modifies ds
      ensures DescendantExtraction(edges, Boundary(eventsMap, from), newNodes, newEdges)
      ensures |ds.nodes| >= |old(ds.nodes)| && ds.nodes[..|old(ds.nodes)|] == old(ds.nodes)
      ensures ListsNodes(ds.nodes[|old(ds.nodes)|..], newNodes)
      ensures |ds.edges| >= |old(ds.edges)| && ds.edges[..|old(ds.edges)|] == old(ds.edges)
      ensures ListsEdges(ds.edges[|old(ds.edges)|..], newEdges)
    {
      var nn, ne := LaterExtraction(from);
      assert this as object != ds as object;
      PushProjection(ds, nn, ne);
      newNodes, newEdges := nn, ne;
    }

    /**
     * The common tail of the two extensions: pushes onto `ds` the data-set nodes of
     * `idxs` and then the data-set edges of `es`.
     */
    method PushProjection(ds: DataSet, idxs: set<nat>, es: set<Edge>)
      requires forall i :: i in idxs ==> i < |nodes|
      requires EdgesInRange(es, |nodes|)
      modifies ds
      ensures |ds.nodes| >= |old(ds.nodes)| && ds.nodes[..|old(ds.nodes)|] == old(ds.nodes)
      ensures ListsNodes(ds.nodes[|old(ds.nodes)|..], idxs)
      ensures |ds.edges| >= |old(ds.edges)| && ds.edges[..|old(ds.edges)|] == old(ds.edges)
      ensures ListsEdges(ds.edges[|old(ds.edges)|..], es)
    {
      var ns, nodeOrder := ProjectNodes(idxs);
      var out, edgeOrder := ProjectEdges(es);
      assert this as object != ds as object;
      ds.Extend(ns, out);
      assert ds.nodes[|old(ds.nodes)|..] == ns;
      assert ds.edges[|old(ds.edges)|..] == out;
      assert NodesInOrder(ns, nodeOrder) && EdgesInOrder(out, edgeOrder);
    }

    /** What the extraction finds from nodes of the arena stays in the arena. */
    lemma ExtractionInRange(boundary: set<nat>, found: set<nat>, incoming: set<Edge>)
      requires Valid()
      requires forall i :: i in boundary ==> i < |nodes|
      requires Extraction(edges, boundary, found, incoming)
      ensures forall t :: t in found ==> t < |nodes|
      ensures EdgesInRange(incoming, |nodes|)
    {
      var arena := Range(|nodes|);
      forall t | t in found ensures t < |nodes| {
        var s :| s in boundary && Reaches(edges, s, t);
        ClosedHoldsReachable(edges, arena, s, t);
      }
    }

    /** What reaches nodes of the arena is in the arena, and so are the edges leaving it. */
    lemma DescendantsInRange(boundary: set<nat>, found: set<nat>, leaving: set<Edge>)
      requires Valid()
      requires forall i :: i in boundary ==> i < |nodes|
      requires DescendantExtraction(edges, boundary, found, leaving)
      ensures forall t :: t in found ==> t < |nodes|
      ensures EdgesInRange(leaving, |nodes|)
    {
      forall t | t in found ensures t < |nodes| {
        var s :| s in boundary && Reaches(edges, t, s);
        var p :| IsPath(edges, p) && p[0] == t && p[|p| - 1] == s;
        if |p| > 1 {
          assert (p[0], p[1]) in edges;
        }
      }
    }
  }

  /** The node indices the id map gives the boundary ids (every one of them must be known). */
  function Boundary(ids: map<string, nat>, from: seq<string>): (b: set<nat>)
    requires forall id :: id in from ==> id in ids
    ensures forall id :: id in from ==> ids[id] in b
    ensures forall i :: i in b ==> exists id :: id in from && ids[id] == i
  {
    set id | id in from :: ids[id]
  }

  /**
   * Edge resolution is idempotent: with no new nodes, a second `update_event_edges`
   * leaves the edges as the first left them, both equal to the old edges plus the
   * resolved ones.
   */
  method ResolveTwice(dag: RoomEvents) returns (once: set<Edge>, twice: set<Edge>)
    requires dag.Valid()
    modifies dag
    ensures twice == once == old(dag.edges) + ResolvedEdges(dag.nodes, dag.eventsMap)
    ensures dag.edges == twice && dag.Valid() && dag.Settled()
  {
    dag.UpdateEventEdges();
    once := dag.edges;
    dag.UpdateEventEdges();
    twice := dag.edges;
  }
}
