# Room event DAG of the Matrix visualiser, modelled in Dafny

The visualiser keeps, for one Matrix room seen from one homeserver, the directed acyclic
graph of the room's events (`RoomEvents` in `frontend/src/model/dag.rs`). Each event
names its predecessors in `prev_events`. The structure grows in place as batches of
events arrive:

- `add_event_nodes` appends one node per event.
- It points the id map at the new node, files the node in its depth bucket and updates
  the minimum and maximum depth. Both depths use -1 as "not set".
- `update_event_edges` resolves every node's predecessors into edges. It then rebuilds
  the latest list (no incoming edge), the earliest list (no outgoing edge) and the
  orphan list (fewer outgoing edges than `prev_events` entries).
- Projections turn the graph into a vis.js data set. `create_data_set` projects all of
  it.
- `add_earlier_events_to_data_set` and `add_new_events_to_data_set` project only the
  part beyond a boundary. They do this through `new_nodes_edges`, one breadth-first
  search per boundary node.

The model keeps the source's shape:

- `RoomEvents` is a class. Its node arena is a `seq<Event>`, where a node's index is
  its position. Its edges are a set of index pairs, each from an event to a
  predecessor. `update_edge` does not duplicate edges, and sets do not either. The id
  map, the depth buckets, the depth extremes and the three lists are fields that the
  methods reassign.
- The class invariant `Valid` ties the id map, the buckets and the extremes to folds
  over the arena. The lemma `IndexesMeaning` states what they mean.
- The loops of the source are `while` loops with invariants. Each is proved against a
  specification function in module `Store`: `ResolvedEdges`, `EarliestIds`,
  `LatestIds` and `Orphans`. Lemmas there characterise those functions.
- Module `Graph` defines paths and reachability over an edge set. Module `Extract`
  holds the breadth-first search and `new_nodes_edges`, proved equal to a reachability
  specification (`Extraction`).
- Module `DataSets` holds the `DataSet` class and `add_prefix`.

Things the code does that differ from a plain reading of its comments:

- The orphan test compares the out-degree with the length of `prev_events`, so a
  predecessor listed twice makes an event an orphan even when it is present
  (`Store.RepeatedPredecessorIsOrphan`).
- `new_nodes_edges` collects the edges whose target is a new node. Edges from the
  boundary into the new nodes are therefore included. The reversed run used by
  `add_new_events_to_data_set` therefore yields the edges that leave the new nodes.
- The -1 "not set" marker for the depth extremes is also a legal depth value. The
  extremes are exact whenever no event has depth -1 (`Store.DepthFoldsAreExtremes`).
  An event at depth -1 can make either extreme wrong: depths 5, -1, 3 give a minimum
  of 3 (`Store.SentinelDepthMisread`), and depths -1, -5 give a maximum
  of -5 (`Store.SentinelDepthMisreadMax`).
- Edge ids are the two event ids joined without a separator. Two different edges can
  therefore share an id (`DataSets.EdgeIdsCanCollide`). After `add_prefix` an edge's id
  is `pref + from + to`, not the join of its prefixed endpoints.

## Model

| member | source | states |
|---|---|---|
| Room.RoomEvents.IndexesMeaning | frontend/src/model/dag.rs:23-29 | under the invariant, the id map sends every id present to its latest node and nothing else, each depth bucket lists exactly the nodes at that depth in insertion order and is never empty, and with no depth equal to -1 the depth fields are the true minimum and maximum (both -1 when empty) |
| Room.RoomEvents.FromDeepestEvents | frontend/src/model/dag.rs:121-148 | starts from an empty DAG with -1 extremes and ingests the events: the arena is exactly the events, the invariant holds, the edges are exactly the resolved predecessor edges and the three lists are settled |
| Room.RoomEvents.FromSyncResponse | frontend/src/model/dag.rs:87-119 | no DAG if and only if the room is not among the joined rooms; otherwise a fresh, valid, settled DAG over that room's timeline carrying the room id, server name and fields, whose edges are exactly the resolved predecessor edges |
| Room.RoomEvents.AddEvents | frontend/src/model/dag.rs:151-156 | appends the batch to the arena, adds the newly resolvable edges to the old ones, keeps the invariant, settles the lists and leaves the fields alone |
| Room.RoomEvents.AddEventNodes | frontend/src/model/dag.rs:158-183 | appends one node per event, duplicates included, in order, and keeps the index invariant |
| Room.RoomEvents.AddEventNode | frontend/src/model/dag.rs:159-182 | one loop step: a new node at the next index, the id re-pointed at it, the index appended to its depth bucket (the bucket created when absent), the extremes updated with -1 as "unset", and the invariant kept |
| Room.RoomEvents.UpdateEventEdges | frontend/src/model/dag.rs:185-237 | adds exactly the resolved predecessor edges, then leaves the three lists equal to their definitions over the new edges |
| Room.RoomEvents.ResolveEdges | frontend/src/model/dag.rs:187-201 | the edge set grows by exactly one edge per (node, known predecessor id), towards the node that id maps to |
| Room.RoomEvents.ResolvePredecessors | frontend/src/model/dag.rs:188-200 | for one node, adds the edges to the nodes of its known predecessor ids and nothing else |
| Room.RoomEvents.RebuildFrontiers | frontend/src/model/dag.rs:203-236 | the lists are cleared and refilled in index order: earliest gets the nodes with no outgoing edge, latest the nodes with no incoming edge, orphans the nodes with fewer outgoing edges than `prev_events` entries |
| Room.RoomEvents.GetEvent | frontend/src/model/dag.rs:240-244 | some event if and only if a node carries the id, and then it is the latest node carrying it |
| Room.RoomEvents.ChangeFields | frontend/src/model/dag.rs:353-355 | replaces the label fields |
| Room.RoomEvents.ToDataSetEdge | frontend/src/model/dag.rs:357-366 | some edge if and only if both indices name nodes; its endpoints are their event ids and its id is the two joined |
| Room.RoomEvents.ProjectNodes | frontend/src/model/dag.rs:251-260 | the result is, position by position, the data-set node of each index of an enumeration that lists every given index exactly once |
| Room.RoomEvents.ProjectEdges | frontend/src/model/dag.rs:262-285 | the result is, position by position, the data-set edge of each pair of an enumeration that lists every given pair exactly once, so two pairs with the same ids give two entries |
| Room.RoomEvents.ListedNodes | frontend/src/model/dag.rs:251-260 | a node listing has one entry per index, contains every index's node and nothing else |
| Room.RoomEvents.ListedEdges | frontend/src/model/dag.rs:262-285 | an edge listing has one entry per pair, contains every pair's edge and nothing else |
| Room.RoomEvents.CreateDataSet | frontend/src/model/dag.rs:247-288 | a fresh data set listing, once each and in some order, the node of every index in the id map (the latest node of each id) and the edge of every DAG edge; as many nodes as ids, as many edges as DAG edges, and no node id repeated |
| Room.RoomEvents.LatestNodesDistinctIds | frontend/src/model/dag.rs:251-260 | listing the nodes the id map points at never repeats a node id |
| Room.RoomEvents.BoundaryInRange | frontend/src/model/dag.rs:293-296 | the indices of the boundary ids name nodes of the arena |
| Room.RoomEvents.EarlierExtraction | frontend/src/model/dag.rs:293-298 | the nodes found are those reachable from the boundary along predecessor edges, boundary excluded, and the edges found are all edges into them; all lie in the arena |
| Room.RoomEvents.LaterExtraction | frontend/src/model/dag.rs:320-334 | on the reversed graph, the nodes found are those from which the boundary is reachable, boundary excluded, and the edges, turned back, are all original edges leaving them; all lie in the arena |
| Room.RoomEvents.AddEarlierEventsToDataSet | frontend/src/model/dag.rs:292-314 | the data set keeps its old contents as a prefix and then lists, once each and in some order, the node of every index and the edge of every pair of the earlier extraction |
| Room.RoomEvents.AddNewEventsToDataSet | frontend/src/model/dag.rs:318-350 | the data set keeps its old contents as a prefix and then lists, once each and in some order, the node of every index and the edge of every pair of the later extraction |
| Room.RoomEvents.PushProjection | frontend/src/model/dag.rs:300-313 | after the old contents, pushes the node of every given index once and the edge of every given pair once, each list in some order |
| Room.RoomEvents.ExtractionInRange | frontend/src/model/dag.rs:298-312 | what the search finds from arena nodes stays in the arena, so every later node and edge lookup succeeds |
| Room.RoomEvents.DescendantsInRange | frontend/src/model/dag.rs:328-348 | the same for the reversed search |
| Room.ResolveTwice | frontend/src/model/dag.rs:185-201 | with no new nodes, a second edge update leaves the edges as the first left them: the old edges plus the resolved ones |
| Room.Boundary | frontend/src/model/dag.rs:293-296 | the boundary index set holds the index of every boundary id and nothing else |
| Extract.Bfs | frontend/src/model/dag.rs:398-402 | the visited set is exactly the set of nodes reachable from the start node |
| Extract.NewNodesEdges | frontend/src/model/dag.rs:391-422 | new nodes are exactly the nodes reachable from some boundary node that are not boundary nodes, and new edges are exactly the edges whose target is a new node |
| Extract.ChainExample | frontend/src/model/dag.rs:405-419 | on the chain 0 -> 1 -> 2 from {0}, the new nodes are {1, 2} and the new edges are both edges |
| Extract.ReversedExtraction | frontend/src/model/dag.rs:320-334 | the extraction on the reversed graph, with its edges turned back, is the descendant extraction on the original graph |
| Graph.ReachesReverse | frontend/src/model/dag.rs:320-321 | t is reachable from s in the reversed graph if and only if s is reachable from t in the original |
| Graph.ReverseInvolution | frontend/src/model/dag.rs:331-334 | turning every edge twice gives the original edge set back |
| DataSets.DataSet.AddPrefix | frontend/src/model/dag.rs:48-58 | every node id and every edge id, source and target gets the prefix in front; counts, order and all other fields are unchanged |
| DataSets.PrefixExample | frontend/src/model/dag.rs:48-58 | prefixing node "$abc" and edge "$abc" -> "$def" with "v1-" gives node "v1-$abc" and edge "v1-$abc$def" from "v1-$abc" to "v1-$def" |
| DataSets.DataSet.Empty | frontend/src/model/dag.rs:370-375 | an empty data set |
| DataSets.DataSet.Extend | frontend/src/model/dag.rs:308-313 | pushes the given nodes and edges after the existing ones, in order |
| DataSets.EdgeIdFixesTarget | frontend/src/model/dag.rs:279-283 | two edges leaving the same event share an id only if they enter the same event |
| DataSets.EdgeIdsCanCollide | frontend/src/model/dag.rs:279-283 | edges a -> bc and ab -> c are different but share the id "abc" |
| DataSets.PrefixedEdgeId | frontend/src/model/dag.rs:53-57 | after prefixing, an edge's id is prefix + from + to, which differs from the join of the prefixed endpoints whenever the prefix is not empty |
| Store.InsertKeepsArena | frontend/src/model/dag.rs:162-181 | inserting a node with the source's map, bucket and extreme updates keeps the indexes equal to their folds over the longer arena, and keeps every edge declared |
| Store.IdIndexLatest | frontend/src/model/dag.rs:162-164 | the id map built by successive insertions points every id present at its last node and maps nothing else |
| Store.IdMapBijection | frontend/src/model/dag.rs:23 | with unique event ids, every node is the target of its own id and the id map has one entry per node |
| Store.IdMapValues | frontend/src/model/dag.rs:251-253 | the id map's values are distinct node indices, as many as the map has entries |
| Store.DepthIndexExact | frontend/src/model/dag.rs:166-173 | the buckets built by successive insertions list exactly the nodes at each depth, in insertion order, and every node's depth has a bucket |
| Store.IndicesAtSpec | frontend/src/model/dag.rs:166-173 | a bucket holds index k if and only if node k has that depth, and its indices increase |
| Store.AddToBucket | frontend/src/model/dag.rs:166-173 | the bucket for the depth exists afterwards and ends with the new index; the other buckets are unchanged |
| Store.DepthFoldsAreExtremes | frontend/src/model/dag.rs:175-181 | with no depth equal to -1, the folded extremes are attained depths bounding every node's depth, and are -1 for no nodes |
| Store.DepthSentinelExample | frontend/src/model/dag.rs:108-109 | an empty arena has both extremes -1, and one event of depth 5 sets both to 5 |
| Store.SentinelDepthMisread | frontend/src/model/dag.rs:179-181 | depths 5, -1, 3 give a minimum of 3: the -1 depth is taken for "unset" |
| Store.SentinelDepthMisreadMax | frontend/src/model/dag.rs:175-177 | depths -1, -5 give a maximum of -5: the first depth -1 is taken for "unset" |
| Store.ResolvedFromSpec | frontend/src/model/dag.rs:188-199 | an edge is resolved from a node's first j predecessor entries if and only if it leaves that node for the index of one of those entries the map knows |
| Store.ResolvedBelowSpec | frontend/src/model/dag.rs:187-200 | an edge is resolved for the first n nodes if and only if its source is one of them and its target is the index of one of its source's known predecessor entries |
| Store.ResolvedEdgesSpec | frontend/src/model/dag.rs:187-200 | the resolved edges are exactly the pairs (node, index of a known id in its `prev_events`) |
| Store.SettledEdgesExact | frontend/src/model/dag.rs:187-201 | with unique ids, a settled edge set is exactly the resolved edges, that is the pairs whose target's id is listed in the source's `prev_events` |
| Store.EarliestIdsSpec | frontend/src/model/dag.rs:208-213 | an id is listed as earliest if and only if a node carrying it has no outgoing edge |
| Store.LatestIdsSpec | frontend/src/model/dag.rs:215-219 | an id is listed as latest if and only if a node carrying it has no incoming edge |
| Store.OrphansSpec | frontend/src/model/dag.rs:221-235 | an orphan record is listed if and only if it is the id and depth of a node with fewer outgoing edges than `prev_events` entries |
| Store.MissingPredecessorIsOrphan | frontend/src/model/dag.rs:221-235 | with unique ids, a node naming a predecessor absent from the DAG is an orphan |
| Store.KnownPredecessorsNotOrphan | frontend/src/model/dag.rs:221-235 | with unique ids, a settled node whose distinct predecessors are all present has one outgoing edge per predecessor and is not an orphan |
| Store.RepeatedPredecessorIsOrphan | frontend/src/model/dag.rs:221-228 | an event listing a present predecessor twice gets one edge and is still reported as an orphan |
| Store.OutEdgesByTargetId | frontend/src/model/dag.rs:198-199 | with unique ids, the edges leaving a node go to pairwise different event ids |

## Left out

- `parse_events` and JSON decoding are not modelled. Events arrive already decoded as
  `Event(eventId, depth, prevEvents)`, the only attributes the DAG logic reads.
- `SyncResponse`, `EventsResponse` and the HTTP backends are not modelled.
  `FromSyncResponse` takes the joined rooms' timelines as a map from room id to events.
  `FromDeepestEvents` takes the events directly.
- `to_data_set_node` lives in `event.rs` and is not part of this model. A data-set node
  carries the event id as its id and keeps the inputs of its label, level and colours
  (event, server name, fields) abstract.
- petgraph is replaced by a sequence of nodes and a set of index pairs. The iteration
  order of hash maps and sets is not modelled. Data-set lists built from sets are
  specified up to order: each element appears once and nothing else appears.
- The `unwrap` on boundary ids in the two extension methods panics on an unknown id.
  The model states this as the precondition that every boundary id is known.
- `i64` depths are unbounded integers; overflow cannot occur in the source's
  comparisons, so nothing is lost.
- The `room_id`, `server_name` and `fields` fields are carried but have no logic
  beyond `change_fields` and node projection.
- Serialisation (`serde`) of `DataSet` and `OrphanInfo` is not modelled.
