/**
 * The renderer-facing data set: nodes and edges as vis.js expects them, with node
 * and edge identifiers built from event ids.
 */
module DataSets {
  import opened Events

  /**
   * What a node's label, level and colours are computed from: the event, the server
   * the DAG was fetched from and the fields chosen for labels. The computation itself
   * (`to_data_set_node`) lives in event.rs and is not part of this model.
   */
  datatype NodeView = NodeView(event: Event, serverName: string, fields: set<Field>)

  datatype DataSetNode = DataSetNode(id: string, view: NodeView)

  datatype DataSetEdge = DataSetEdge(id: string, from: string, to: string)

  /** The data-set node of an event; its id is the event id. */
  function ToDataSetNode(e: Event, serverName: string, fields: set<Field>): DataSetNode {
    DataSetNode(e.eventId, NodeView(e, serverName, fields))
  }

  /** The data-set edge between two events; its id is the two event ids joined. */
  function EdgeBetween(from: string, to: string): DataSetEdge {
    DataSetEdge(from + to, from, to)
  }

  /** Edges leaving the same event have the same id only if they enter the same event. */
  lemma EdgeIdFixesTarget(from: string, to1: string, to2: string)
    requires EdgeBetween(from, to1).id == EdgeBetween(from, to2).id
    ensures to1 == to2
  {
    assert (from + to1)[|from|..] == to1;
    assert (from + to2)[|from|..] == to2;
  }

  /** Without a separator, two different edges can get the same id. */
  lemma EdgeIdsCanCollide()
    ensures EdgeBetween("a", "bc").id == EdgeBetween("ab", "c").id
    ensures EdgeBetween("a", "bc") != EdgeBetween("ab", "c")
  {
  }

  /**
   * Prefixing an edge built by `EdgeBetween` gives the id `pref + from + to`, which is
   * no longer the join of the prefixed endpoints when the prefix is not empty.
   */
  lemma PrefixedEdgeId(from: string, to: string, pref: string)
    ensures pref + EdgeBetween(from, to).id == pref + from + to
    ensures pref != [] ==> pref + EdgeBetween(from, to).id != (pref + from) + (pref + to)
  {
  }

  /** A data set under construction; the extraction methods push onto both lists. */
  class DataSet {
    var nodes: seq<DataSetNode>
    var edges: seq<DataSetEdge>

    /** `DataSet::new`: an empty data set. */
    constructor Empty()
      ensures nodes == [] && edges == []
    {
      nodes := [];
      edges := [];
    }

    constructor (nodes: seq<DataSetNode>, edges: seq<DataSetEdge>)
      ensures this.nodes == nodes && this.edges == edges
    {
      this.nodes := nodes;
      this.edges := edges;
    }

    /** Pushes `ns` onto the node list and `es` onto the edge list, in order. */
    method Extend(ns: seq<DataSetNode>, es: seq<DataSetEdge>)
      modifies this
      ensures nodes == old(nodes) + ns
      ensures edges == old(edges) + es
    {
      nodes := nodes + ns;
      edges := edges + es;
    }

    /**
     * Prepends `pref` to every node id and to the id and both endpoints of every edge,
     * keeping the number and order of nodes and edges and every other field.
     */
    method AddPrefix(pref: string)
      modifies this
      ensures |nodes| == |old(nodes)| && |edges| == |old(edges)|
      ensures forall k :: 0 <= k < |nodes| ==>
                nodes[k].id == pref + old(nodes)[k].id && nodes[k].view == old(nodes)[k].view
      ensures forall k :: 0 <= k < |edges| ==>
                && edges[k].id == pref + old(edges)[k].id
                && edges[k].from == pref + old(edges)[k].from
                && edges[k].to == pref + old(edges)[k].to
    {
      var i := 0;
      while i < |nodes|
        invariant 0 <= i <= |nodes| == |old(nodes)|
        invariant edges == old(edges)
        invariant forall k :: 0 <= k < i ==> nodes[k] == old(nodes)[k].(id := pref + old(nodes)[k].id)
        invariant forall k :: i <= k < |nodes| ==> nodes[k] == old(nodes)[k]
      {
        nodes := nodes[i := nodes[i].(id := pref + nodes[i].id)];
        i := i + 1;
      }
      var j := 0;
      while j < |edges|
        invariant 0 <= j <= |edges| == |old(edges)|
        invariant |nodes| == |old(nodes)|
        invariant forall k :: 0 <= k < |nodes| ==> nodes[k] == old(nodes)[k].(id := pref + old(nodes)[k].id)
        invariant forall k :: 0 <= k < j ==>
                    edges[k] == DataSetEdge(pref + old(edges)[k].id, pref + old(edges)[k].from, pref + old(edges)[k].to)
        invariant forall k :: j <= k < |edges| ==> edges[k] == old(edges)[k]
      {
        var e := edges[j];
        edges := edges[j := DataSetEdge(pref + e.id, pref + e.from, pref + e.to)];
        j := j + 1;
      }
    }
  }

  /** Prefixing "$abc" with "v1-" yields node id "v1-$abc", and edges are rewritten alike. */
  method PrefixExample(view: NodeView) returns (ds: DataSet)
    ensures ds.nodes == [DataSetNode("v1-$abc", view)]
    ensures ds.edges == [DataSetEdge("v1-$abc$def", "v1-$abc", "v1-$def")]
  {
    ds := new DataSet([DataSetNode("$abc", view)], [EdgeBetween("$abc", "$def")]);
    ds.AddPrefix("v1-");
    assert ds.nodes[0] == DataSetNode("v1-$abc", view);
    assert ds.edges[0] == DataSetEdge("v1-$abc$def", "v1-$abc", "v1-$def");
  }
}
