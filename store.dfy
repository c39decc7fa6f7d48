/**
 * The state of the event arena as values: the node sequence (index = petgraph node
 * index), the id and depth indexes, the depth extremes, the edges the ingestion step
 * resolves and the frontier/orphan lists it rebuilds. `RoomEvents` keeps its fields
 * equal to these definitions; the lemmas here say what the definitions mean.
 */
module Store {
  import opened Events
  import opened Graph
  import opened SetCard

  /** No two nodes carry the same event id (no event was ingested twice). */
  ghost predicate UniqueIds(nodes: seq<Event>) {
    forall i, j :: 0 <= i < j < |nodes| ==> nodes[i].eventId != nodes[j].eventId
  }

  /**
   * `ids` maps every id present in the arena to the most recently inserted node with
   * that id, and maps nothing else.
   */
  ghost predicate IndexesLatest(nodes: seq<Event>, ids: map<string, nat>) {
    && (forall id :: id in ids ==> ids[id] < |nodes| && nodes[ids[id]].eventId == id)
    && (forall id, j :: id in ids && ids[id] < j < |nodes| ==> nodes[j].eventId != id)
    && (forall i :: 0 <= i < |nodes| ==> nodes[i].eventId in ids)
  }

  /** The indices below `n` of the nodes at depth `d`, in insertion order. */
  function IndicesAt(nodes: seq<Event>, d: int, n: nat): seq<nat>
    requires n <= |nodes|
  {
    if n == 0 then []
    else IndicesAt(nodes, d, n - 1) + (if nodes[n - 1].depth == d then [n - 1] else [])
  }

  /** Every depth bucket holds exactly the (non-empty) list of nodes at that depth. */
  ghost predicate DepthBucketsExact(nodes: seq<Event>, buckets: map<int, seq<nat>>) {
    && (forall d :: d in buckets ==> buckets[d] == IndicesAt(nodes, d, |nodes|) && buckets[d] != [])
    && (forall i :: 0 <= i < |nodes| ==> nodes[i].depth in buckets)
  }

  /** One step of the `max_depth` update, where -1 means "not set yet". */
  function NextMax(cur: int, d: int): int {
    if cur == -1 || d > cur then d else cur
  }

  /** One step of the `min_depth` update, where -1 means "not set yet". */
  function NextMin(cur: int, d: int): int {
    if cur == -1 || d < cur then d else cur
  }

  /** `max_depth` after inserting the first `n` nodes one by one into an empty arena. */
  function MaxDepthFold(nodes: seq<Event>, n: nat): int
    requires n <= |nodes|
  {
    if n == 0 then -1 else NextMax(MaxDepthFold(nodes, n - 1), nodes[n - 1].depth)
  }

  /** `min_depth` after inserting the first `n` nodes one by one into an empty arena. */
  function MinDepthFold(nodes: seq<Event>, n: nat): int
    requires n <= |nodes|
  {
    if n == 0 then -1 else NextMin(MinDepthFold(nodes, n - 1), nodes[n - 1].depth)
  }

  /** No node has the depth used as the "not set" sentinel. */
  ghost predicate NoSentinelDepth(nodes: seq<Event>) {
    forall i :: 0 <= i < |nodes| ==> nodes[i].depth != -1
  }

  /** Every edge joins two nodes of the arena. */
  ghost predicate EdgesInRange(edges: set<Edge>, n: nat) {
    forall e :: e in edges ==> e.0 < n && e.1 < n
  }

  /** Every edge points from an event to an event whose id it lists in `prev_events`. */
  ghost predicate EdgesDeclared(nodes: seq<Event>, edges: set<Edge>) {
    forall e :: e in edges ==> e.0 < |nodes| && e.1 < |nodes| && nodes[e.1].eventId in nodes[e.0].prevEvents
  }

  /**
   * The edges from `src` that resolving the first `j` entries of `prev` against `ids`
   * yields: one per entry the map knows, towards the node it maps to.
   */
  function ResolvedFrom(src: nat, prev: seq<string>, ids: map<string, nat>, j: nat): set<Edge>
    requires j <= |prev|
  {
    if j == 0 then {}
    else ResolvedFrom(src, prev, ids, j - 1) + (if prev[j - 1] in ids then {(src, ids[prev[j - 1]])} else {})
  }

  /** The edges resolved for the nodes below index `n`. */
  function ResolvedBelow(nodes: seq<Event>, ids: map<string, nat>, n: nat): set<Edge>
    requires n <= |nodes|
  {
    if n == 0 then {}
    else ResolvedBelow(nodes, ids, n - 1) + ResolvedFrom(n - 1, nodes[n - 1].prevEvents, ids, |nodes[n - 1].prevEvents|)
  }

  /** The edges that resolving every node's `prev_events` against `ids` yields. */
  function ResolvedEdges(nodes: seq<Event>, ids: map<string, nat>): set<Edge> {
    ResolvedBelow(nodes, ids, |nodes|)
  }

  /** Ids of the nodes below `n` that have no outgoing edge, in index order. */
  function EarliestIds(nodes: seq<Event>, edges: set<Edge>, n: nat): seq<string>
    requires n <= |nodes|
  {
    if n == 0 then []
    else EarliestIds(nodes, edges, n - 1) + (if |OutEdges(edges, n - 1)| == 0 then [nodes[n - 1].eventId] else [])
  }

  /** Ids of the nodes below `n` that have no incoming edge, in index order. */
  function LatestIds(nodes: seq<Event>, edges: set<Edge>, n: nat): seq<string>
    requires n <= |nodes|
  {
    if n == 0 then []
    else LatestIds(nodes, edges, n - 1) + (if |InEdges(edges, n - 1)| == 0 then [nodes[n - 1].eventId] else [])
  }

  /** A node has fewer outgoing edges than entries in its `prev_events` list. */
  predicate IsOrphan(nodes: seq<Event>, edges: set<Edge>, i: nat)
    requires i < |nodes|
  {
    |OutEdges(edges, i)| < |nodes[i].prevEvents|
  }

  /** Id and depth of the orphan nodes below `n`, in index order. */
  function Orphans(nodes: seq<Event>, edges: set<Edge>, n: nat): seq<OrphanInfo>
    requires n <= |nodes|
  {
    if n == 0 then []
    else Orphans(nodes, edges, n - 1) + (if IsOrphan(nodes, edges, n - 1) then [OrphanInfo(nodes[n - 1].eventId, nodes[n - 1].depth)] else [])
  }

  // ---------------------------------------------------------------------------
  // How one insertion and one resolution step change the definitions

  /** The id map after inserting the first `n` nodes: each id points at its latest node. */
  function IdIndex(nodes: seq<Event>, n: nat): map<string, nat>
    requires n <= |nodes|
  {
    if n == 0 then map[] else IdIndex(nodes, n - 1)[nodes[n - 1].eventId := n - 1]
  }

  /** The depth index after node `i` at depth `d` joins its bucket (created when absent). */
  function AddToBucket(buckets: map<int, seq<nat>>, d: int, i: nat): (r: map<int, seq<nat>>)
    ensures r.Keys == buckets.Keys + {d}
    ensures r[d] == (if d in buckets then buckets[d] else []) + [i]
    ensures forall d' :: d' in buckets && d' != d ==> r[d'] == buckets[d']
  {
    if d in buckets then buckets[d := buckets[d] + [i]] else buckets[d := [i]]
  }

  /** The depth index after inserting the first `n` nodes. */
  function DepthIndex(nodes: seq<Event>, n: nat): map<int, seq<nat>>
    requires n <= |nodes|
  {
    if n == 0 then map[] else AddToBucket(DepthIndex(nodes, n - 1), nodes[n - 1].depth, n - 1)
  }

  /** The id map, the depth buckets and the two depth extremes are those the insertions built. */
  ghost predicate ArenaIndexed(nodes: seq<Event>, ids: map<string, nat>, buckets: map<int, seq<nat>>, maxDepth: int, minDepth: int) {
    && ids == IdIndex(nodes, |nodes|)
    && buckets == DepthIndex(nodes, |nodes|)
    && maxDepth == MaxDepthFold(nodes, |nodes|)
    && minDepth == MinDepthFold(nodes, |nodes|)
  }

  /** Appending a node changes none of the definitions over the old prefix. */
  lemma {:induction false} AppendKeepsPrefix(nodes: seq<Event>, e: Event, n: nat)
    requires n <= |nodes|
    ensures IdIndex(nodes + [e], n) == IdIndex(nodes, n)
    ensures DepthIndex(nodes + [e], n) == DepthIndex(nodes, n)
    ensures MaxDepthFold(nodes + [e], n) == MaxDepthFold(nodes, n)
    ensures MinDepthFold(nodes + [e], n) == MinDepthFold(nodes, n)
  {
    if n > 0 {
      AppendKeepsPrefix(nodes, e, n - 1);
      assert (nodes + [e])[n - 1] == nodes[n - 1];
    }
  }

  /** One `add_event_nodes` step keeps the indexes exact and every edge declared. */
  lemma InsertKeepsArena(nodes: seq<Event>, ids: map<string, nat>, buckets: map<int, seq<nat>>,
                         maxDepth: int, minDepth: int, edges: set<Edge>, e: Event)
    requires ArenaIndexed(nodes, ids, buckets, maxDepth, minDepth) && EdgesDeclared(nodes, edges)
    ensures ArenaIndexed(nodes + [e], ids[e.eventId := |nodes|], AddToBucket(buckets, e.depth, |nodes|),
                         NextMax(maxDepth, e.depth), NextMin(minDepth, e.depth))
    ensures EdgesDeclared(nodes + [e], edges)
  {
    AppendKeepsPrefix(nodes, e, |nodes|);
    assert (nodes + [e])[|nodes|] == e;
  }

  /** The id map built by the insertions points every id at a node carrying it. */
  lemma {:induction false} IdIndexPointsBack(nodes: seq<Event>, n: nat)
    requires n <= |nodes|
    ensures forall id :: id in IdIndex(nodes, n) ==> IdIndex(nodes, n)[id] < n && nodes[IdIndex(nodes, n)[id]].eventId == id
  {
    if n > 0 {
      IdIndexPointsBack(nodes, n - 1);
    }
  }

  /** No node after the one the id map points at carries the same id. */
  lemma {:induction false} IdIndexNoLater(nodes: seq<Event>, n: nat)
    requires n <= |nodes|
    ensures forall id, j :: id in IdIndex(nodes, n) && IdIndex(nodes, n)[id] < j < n ==> nodes[j].eventId != id
  {
    if n > 0 {
      IdIndexNoLater(nodes, n - 1);
      var prev, cur := IdIndex(nodes, n - 1), IdIndex(nodes, n);
      forall id, j | id in cur && cur[id] < j < n ensures nodes[j].eventId != id {
        if id != nodes[n - 1].eventId {
          assert id in prev && cur[id] == prev[id];
        }
      }
    }
  }

  /** Every id carried by a node is in the id map. */
  lemma {:induction false} IdIndexCovers(nodes: seq<Event>, n: nat)
    requires n <= |nodes|
    ensures forall i :: 0 <= i < n ==> nodes[i].eventId in IdIndex(nodes, n)
  {
    if n > 0 {
      IdIndexCovers(nodes, n - 1);
    }
  }

  /** The id map built by the insertions points every id at the latest node carrying it. */
  lemma IdIndexLatest(nodes: seq<Event>)
    ensures IndexesLatest(nodes, IdIndex(nodes, |nodes|))
  {
    IdIndexPointsBack(nodes, |nodes|);
    IdIndexNoLater(nodes, |nodes|);
    IdIndexCovers(nodes, |nodes|);
  }

  /** An id the map knows points at a node of the arena carrying that id. */
  lemma IdIndexPoints(nodes: seq<Event>, id: string)
    requires id in IdIndex(nodes, |nodes|)
    ensures IdIndex(nodes, |nodes|)[id] < |nodes| && nodes[IdIndex(nodes, |nodes|)[id]].eventId == id
  {
    IdIndexPointsBack(nodes, |nodes|);
  }

  /** The depth index built by the insertions has a bucket for the depth of every node. */
  lemma {:induction false} DepthIndexCovers(nodes: seq<Event>, n: nat)
    requires n <= |nodes|
    ensures forall i :: 0 <= i < n ==> nodes[i].depth in DepthIndex(nodes, n)
  {
    if n > 0 {
      DepthIndexCovers(nodes, n - 1);
      assert DepthIndex(nodes, n).Keys == DepthIndex(nodes, n - 1).Keys + {nodes[n - 1].depth};
    }
  }

  /** Each bucket of the depth index holds exactly the nodes at its depth, and none is empty. */
  lemma {:induction false} DepthIndexBuckets(nodes: seq<Event>, n: nat)
    requires n <= |nodes|
    ensures forall d :: d in DepthIndex(nodes, n) ==> DepthIndex(nodes, n)[d] == IndicesAt(nodes, d, n) && DepthIndex(nodes, n)[d] != []
  {
    if n > 0 {
      DepthIndexBuckets(nodes, n - 1);
      var prev, cur := DepthIndex(nodes, n - 1), DepthIndex(nodes, n);
      var d := nodes[n - 1].depth;
      assert cur == AddToBucket(prev, d, n - 1);
      forall d' | d' in cur ensures cur[d'] == IndicesAt(nodes, d', n) && cur[d'] != [] {
        if d' == d && d !in prev {
          DepthIndexCovers(nodes, n - 1);
          IndicesAtNone(nodes, d, n - 1);
        }
      }
    }
  }

  /** No node below `n` at depth `d` means no index listed for `d`. */
  lemma {:induction false} IndicesAtNone(nodes: seq<Event>, d: int, n: nat)
    requires n <= |nodes|
    requires forall k :: 0 <= k < n ==> nodes[k].depth != d
    ensures IndicesAt(nodes, d, n) == []
  {
    if n > 0 {
      IndicesAtNone(nodes, d, n - 1);
    }
  }

  /** The depth index built by the insertions is exact. */
  lemma DepthIndexExact(nodes: seq<Event>)
    ensures DepthBucketsExact(nodes, DepthIndex(nodes, |nodes|))
  {
    DepthIndexCovers(nodes, |nodes|);
    DepthIndexBuckets(nodes, |nodes|);
  }

  /** Appending the next event of a batch extends the prefix taken so far by one. */
  lemma AppendNext(start: seq<Event>, events: seq<Event>, k: nat)
    requires k < |events|
    ensures start + events[..k] + [events[k]] == start + events[..k + 1]
  {
  }

  /** A batch taken up to its length is the whole batch. */
  lemma TakeAll(start: seq<Event>, events: seq<Event>)
    ensures start + events[..|events|] == start + events
  {
  }

  /** The depth buckets hold exactly the nodes at that depth, in increasing index order. */
  lemma {:induction false} IndicesAtSpec(nodes: seq<Event>, d: int, n: nat)
    requires n <= |nodes|
    ensures forall k: nat :: k in IndicesAt(nodes, d, n) <==> k < n && nodes[k].depth == d
    ensures forall a, b :: 0 <= a < b < |IndicesAt(nodes, d, n)| ==> IndicesAt(nodes, d, n)[a] < IndicesAt(nodes, d, n)[b]
  {
    if n > 0 {
      IndicesAtSpec(nodes, d, n - 1);
      var r0 := IndicesAt(nodes, d, n - 1);
      forall a | 0 <= a < |r0| ensures r0[a] < n - 1 {
        assert r0[a] in r0;
      }
    }
  }

  /** The id map points at the only node with that id when ids are unique. */
  lemma IndexOfUniqueId(nodes: seq<Event>, ids: map<string, nat>, i: nat)
    requires IndexesLatest(nodes, ids) && UniqueIds(nodes) && i < |nodes|
    ensures nodes[i].eventId in ids && ids[nodes[i].eventId] == i
  {
  }

  /** Two nodes the id map points at are the same node exactly when they carry the same id. */
  lemma MappedIndicesDistinct(nodes: seq<Event>, ids: map<string, nat>, i: nat, j: nat)
    requires IndexesLatest(nodes, ids)
    requires i in ids.Values && j in ids.Values && nodes[i].eventId == nodes[j].eventId
    ensures i == j
  {
  }

  /** The id map sends distinct ids to distinct nodes. */
  lemma MappedIdsDistinct(nodes: seq<Event>, ids: map<string, nat>, x: string, y: string)
    requires IndexesLatest(nodes, ids)
    requires x in ids && y in ids && ids[x] == ids[y]
    ensures x == y
  {
  }

  /** Without duplicates the id map is a bijection between the ids and the node indices. */
  lemma IdMapBijection(nodes: seq<Event>, ids: map<string, nat>)
    requires IndexesLatest(nodes, ids) && UniqueIds(nodes)
    ensures forall i :: 0 <= i < |nodes| ==> nodes[i].eventId in ids && ids[nodes[i].eventId] == i
    ensures |ids| == |nodes|
  {
    forall i | 0 <= i < |nodes| ensures nodes[i].eventId in ids && ids[nodes[i].eventId] == i {
      IndexOfUniqueId(nodes, ids, i);
    }
    IdMapValues(nodes, ids);
    assert ids.Values == Range(|nodes|) by {
      forall i: nat | i < |nodes| ensures i in ids.Values {
        IndexOfUniqueId(nodes, ids, i);
        assert ids[nodes[i].eventId] in ids.Values;
      }
    }
  }

  /** The indices of an arena of `n` nodes. */
  function Range(n: nat): (r: set<nat>)
    ensures forall i: nat :: i in r <==> i < n
    ensures |r| == n
  {
    if n == 0 then {} else Range(n - 1) + {n - 1}
  }

  /** Distinct ids name distinct nodes, so the map has as many values as keys. */
  lemma IdMapValues(nodes: seq<Event>, ids: map<string, nat>)
    requires IndexesLatest(nodes, ids)
    ensures |ids.Values| == |ids|
    ensures forall k :: k in ids.Values ==> k < |nodes|
  {
    KeysIntoValues(nodes, ids);
    ValuesIntoKeys(nodes, ids);
    assert |ids| == |ids.Keys|;
  }

  lemma KeysIntoValues(nodes: seq<Event>, ids: map<string, nat>)
    requires IndexesLatest(nodes, ids)
    ensures |ids.Keys| <= |ids.Values|
  {
    var f := (id: string) => if id in ids then ids[id] else 0;
    forall id | id in ids ensures f(id) in ids.Values {
      assert ids[id] in ids.Values;
    }
    forall x, y | x in ids.Keys && y in ids.Keys && f(x) == f(y) ensures x == y {
      MappedIdsDistinct(nodes, ids, x, y);
    }
    InjectionBound(ids.Keys, ids.Values, f);
  }

  lemma ValuesIntoKeys(nodes: seq<Event>, ids: map<string, nat>)
    requires IndexesLatest(nodes, ids)
    ensures |ids.Values| <= |ids.Keys|
  {
  }

  /** The extremes the -1-sentinel folds compute are the true ones when no depth is -1. */
  lemma {:induction false} DepthFoldsAreExtremes(nodes: seq<Event>, n: nat)
    requires n <= |nodes| && NoSentinelDepth(nodes)
    ensures n == 0 ==> MaxDepthFold(nodes, n) == -1 && MinDepthFold(nodes, n) == -1
    ensures n > 0 ==> exists i :: 0 <= i < n && nodes[i].depth == MaxDepthFold(nodes, n)
    ensures n > 0 ==> exists i :: 0 <= i < n && nodes[i].depth == MinDepthFold(nodes, n)
    ensures forall i :: 0 <= i < n ==> MinDepthFold(nodes, n) <= nodes[i].depth <= MaxDepthFold(nodes, n)
  {
    if n > 0 {
      var last := n - 1;
      DepthFoldsAreExtremes(nodes, last);
      if last > 0 {
        var a :| 0 <= a < last && nodes[a].depth == MaxDepthFold(nodes, last);
        var b :| 0 <= b < last && nodes[b].depth == MinDepthFold(nodes, last);
        if nodes[last].depth > MaxDepthFold(nodes, last) {
          assert nodes[last].depth == MaxDepthFold(nodes, n);
        } else {
          assert nodes[a].depth == MaxDepthFold(nodes, n);
        }
        if nodes[last].depth < MinDepthFold(nodes, last) {
          assert nodes[last].depth == MinDepthFold(nodes, n);
        } else {
          assert nodes[b].depth == MinDepthFold(nodes, n);
        }
      } else {
        assert nodes[last].depth == MaxDepthFold(nodes, n) == MinDepthFold(nodes, n);
      }
    }
  }

  /** An empty arena reports -1 for both extremes; one event at depth 5 reports 5 for both. */
  lemma DepthSentinelExample(e: Event)
    requires e.depth == 5
    ensures MaxDepthFold([], 0) == -1 && MinDepthFold([], 0) == -1
    ensures MaxDepthFold([e], 1) == 5 && MinDepthFold([e], 1) == 5
  {
  }

  /**
   * An event at depth -1 is taken for the sentinel: after depths 5, -1 and 3 the
   * minimum reported is 3, not -1.
   */
  lemma SentinelDepthMisread(a: Event, b: Event, c: Event)
    requires a.depth == 5 && b.depth == -1 && c.depth == 3
    ensures MinDepthFold([a, b, c], 3) == 3
  {
    assert MinDepthFold([a, b, c], 1) == 5;
    assert MinDepthFold([a, b, c], 2) == -1;
  }

  /** A first depth of -1 is taken for "unset" too, so a lower depth becomes the maximum. */
  lemma SentinelDepthMisreadMax(a: Event, b: Event)
    requires a.depth == -1 && b.depth == -5
    ensures MaxDepthFold([a, b], 2) == -5
  {
    assert MaxDepthFold([a, b], 1) == -1;
  }

  lemma {:induction false} ResolvedFromSpec(src: nat, prev: seq<string>, ids: map<string, nat>, j: nat, e: Edge)
    requires j <= |prev|
    ensures e in ResolvedFrom(src, prev, ids, j) <==>
            e.0 == src && exists k :: 0 <= k < j && prev[k] in ids && ids[prev[k]] == e.1
  {
    if j > 0 {
      ResolvedFromSpec(src, prev, ids, j - 1, e);
    }
  }

  lemma {:induction false} ResolvedBelowSpec(nodes: seq<Event>, ids: map<string, nat>, n: nat, s: nat, d: nat)
    requires n <= |nodes|
    ensures (s, d) in ResolvedBelow(nodes, ids, n) <==>
            s < n && exists k :: 0 <= k < |nodes[s].prevEvents| && nodes[s].prevEvents[k] in ids && ids[nodes[s].prevEvents[k]] == d
  {
    if n > 0 {
      ResolvedBelowSpec(nodes, ids, n - 1, s, d);
      ResolvedFromSpec(n - 1, nodes[n - 1].prevEvents, ids, |nodes[n - 1].prevEvents|, (s, d));
    }
  }

  /**
   * The resolved edges are exactly the pairs (s, d) where node s lists in its
   * `prev_events` an id that the id map sends to d.
   */
  lemma ResolvedEdgesSpec(nodes: seq<Event>, ids: map<string, nat>, s: nat, d: nat)
    ensures (s, d) in ResolvedEdges(nodes, ids) <==>
            s < |nodes| && exists id :: id in nodes[s].prevEvents && id in ids && ids[id] == d
  {
    ResolvedBelowSpec(nodes, ids, |nodes|, s, d);
    if s < |nodes| {
      var prev := nodes[s].prevEvents;
      if exists id :: id in prev && id in ids && ids[id] == d {
        var id :| id in prev && id in ids && ids[id] == d;
        var k :| 0 <= k < |prev| && prev[k] == id;
      }
    }
  }

  lemma {:induction false} EarliestIdsSpec(nodes: seq<Event>, edges: set<Edge>, n: nat, x: string)
    requires n <= |nodes|
    ensures x in EarliestIds(nodes, edges, n) <==>
            exists i :: 0 <= i < n && nodes[i].eventId == x && OutEdges(edges, i) == {}
  {
    if n > 0 {
      EarliestIdsSpec(nodes, edges, n - 1, x);
    }
  }

  lemma {:induction false} LatestIdsSpec(nodes: seq<Event>, edges: set<Edge>, n: nat, x: string)
    requires n <= |nodes|
    ensures x in LatestIds(nodes, edges, n) <==>
            exists i :: 0 <= i < n && nodes[i].eventId == x && InEdges(edges, i) == {}
  {
    if n > 0 {
      LatestIdsSpec(nodes, edges, n - 1, x);
    }
  }

  lemma {:induction false} OrphansSpec(nodes: seq<Event>, edges: set<Edge>, n: nat, o: OrphanInfo)
    requires n <= |nodes|
    ensures o in Orphans(nodes, edges, n) <==>
            exists i :: 0 <= i < n && o == OrphanInfo(nodes[i].eventId, nodes[i].depth) &&
                        |OutEdges(edges, i)| < |nodes[i].prevEvents|
  {
    if n > 0 {
      OrphansSpec(nodes, edges, n - 1, o);
    }
  }

  /** The id of an edge's target, read through the arena. */
  function TargetId(nodes: seq<Event>): Edge -> string {
    (e: Edge) => if e.1 < |nodes| then nodes[e.1].eventId else ""
  }

  /** With unique ids, the edges leaving a node have pairwise distinct target ids. */
  lemma OutEdgesByTargetId(nodes: seq<Event>, edges: set<Edge>, i: nat)
    requires EdgesDeclared(nodes, edges) && UniqueIds(nodes)
    ensures InjectiveOn(OutEdges(edges, i), TargetId(nodes))
  {
  }

  /**
   * A node that lists an id no node carries has fewer outgoing edges than declared
   * predecessors: it is reported as an orphan.
   */
  lemma MissingPredecessorIsOrphan(nodes: seq<Event>, ids: map<string, nat>, edges: set<Edge>, i: nat, missing: string)
    requires IndexesLatest(nodes, ids) && EdgesDeclared(nodes, edges) && UniqueIds(nodes)
    requires i < |nodes| && missing in nodes[i].prevEvents && missing !in ids
    ensures IsOrphan(nodes, edges, i)
  {
    var prev := nodes[i].prevEvents;
    var declared := set x | x in prev;
    var f := TargetId(nodes);
    OutEdgesByTargetId(nodes, edges, i);
    forall e | e in OutEdges(edges, i) ensures f(e) in declared - {missing} {
      assert nodes[e.1].eventId in ids;
    }
    InjectionBound(OutEdges(edges, i), declared - {missing}, f);
    ElementsBound(prev);
  }

  /**
   * Once edges are resolved, a node whose predecessors are all present and listed
   * once each has exactly one outgoing edge per predecessor: it is not an orphan.
   */
  lemma KnownPredecessorsNotOrphan(nodes: seq<Event>, ids: map<string, nat>, edges: set<Edge>, i: nat)
    requires IndexesLatest(nodes, ids) && EdgesDeclared(nodes, edges) && UniqueIds(nodes)
    requires ResolvedEdges(nodes, ids) <= edges
    requires i < |nodes|
    requires forall id :: id in nodes[i].prevEvents ==> id in ids
    requires forall a, b :: 0 <= a < b < |nodes[i].prevEvents| ==> nodes[i].prevEvents[a] != nodes[i].prevEvents[b]
    ensures |OutEdges(edges, i)| == |nodes[i].prevEvents|
    ensures !IsOrphan(nodes, edges, i)
  {
    var prev := nodes[i].prevEvents;
    var declared := set x | x in prev;
    var out := OutEdges(edges, i);
    var g := (id: string) => (i, if id in ids then ids[id] else 0);
    forall id | id in declared ensures g(id) in out {
      ResolvedEdgesSpec(nodes, ids, i, ids[id]);
    }
    InjectionBound(declared, out, g);
    var f := TargetId(nodes);
    OutEdgesByTargetId(nodes, edges, i);
    InjectionBound(out, declared, f);
    DistinctElements(prev);
  }

  /**
   * A node that lists the same present predecessor twice is reported as an orphan
   * although nothing is missing: the count compares against the list's length.
   */
  lemma RepeatedPredecessorIsOrphan(a: Event, e: Event)
    requires a == Event("a", 1, []) && e == Event("e", 2, ["a", "a"])
    ensures ResolvedEdges([a, e], map["a" := 0, "e" := 1]) == {(1, 0)}
    ensures Orphans([a, e], {(1, 0)}, 2) == [OrphanInfo("e", 2)]
  {
    var nodes, ids := [a, e], map["a" := 0, "e" := 1];
    assert ResolvedFrom(0, a.prevEvents, ids, 0) == {};
    assert ResolvedFrom(1, e.prevEvents, ids, 1) == {(1, 0)};
    assert ResolvedFrom(1, e.prevEvents, ids, 2) == {(1, 0)};
    assert ResolvedBelow(nodes, ids, 1) == {};
    assert OutEdges({(1, 0)}, 0) == {};
    assert OutEdges({(1, 0)}, 1) == {(1, 0)};
    assert Orphans(nodes, {(1, 0)}, 0) == [];
    assert !IsOrphan(nodes, {(1, 0)}, 0);
    assert IsOrphan(nodes, {(1, 0)}, 1);
  }

  /**
   * After resolution and without duplicate ids, the edge set is exactly the resolved
   * one: an edge C -> P exists iff P's id is in C's `prev_events`.
   */
  lemma SettledEdgesExact(nodes: seq<Event>, ids: map<string, nat>, edges: set<Edge>)
    requires IndexesLatest(nodes, ids) && EdgesDeclared(nodes, edges) && UniqueIds(nodes)
    requires ResolvedEdges(nodes, ids) <= edges
    ensures edges == ResolvedEdges(nodes, ids)
    ensures forall s: nat, d: nat :: (s, d) in edges <==> s < |nodes| && d < |nodes| && nodes[d].eventId in nodes[s].prevEvents
  {
    forall e | e in edges ensures e in ResolvedEdges(nodes, ids) {
      IndexOfUniqueId(nodes, ids, e.1);
      ResolvedEdgesSpec(nodes, ids, e.0, e.1);
    }
    forall s: nat, d: nat | s < |nodes| && d < |nodes| && nodes[d].eventId in nodes[s].prevEvents ensures (s, d) in edges {
      IndexOfUniqueId(nodes, ids, d);
      ResolvedEdgesSpec(nodes, ids, s, d);
    }
  }
}
