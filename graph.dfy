/**
 * The event DAG's topology, taken abstractly: nodes are arena indices and the edges a
 * set of (source, target) index pairs, an edge pointing from an event to one of its
 * predecessors. Reachability is defined by explicit paths, independently of any
 * traversal algorithm.
 */
module Graph {
  type Edge = (nat, nat)

  /** The edges leaving node `v`. */
  function OutEdges(edges: set<Edge>, v: nat): set<Edge> {
    set e | e in edges && e.0 == v
  }

  /** The edges entering node `v`. */
  function InEdges(edges: set<Edge>, v: nat): set<Edge> {
    set e | e in edges && e.1 == v
  }

  /** The nodes one edge away from `v`. */
  function Successors(edges: set<Edge>, v: nat): set<nat> {
    set e | e in edges && e.0 == v :: e.1
  }

  /** Every node some edge points to. */
  function Targets(edges: set<Edge>): set<nat> {
    set e | e in edges :: e.1
  }

  /** The same graph with every edge turned round (petgraph's `reverse`). */
  function Reverse(edges: set<Edge>): set<Edge> {
    set e | e in edges :: (e.1, e.0)
  }

  lemma ReverseMembers(edges: set<Edge>, a: nat, b: nat)
    ensures (a, b) in Reverse(edges) <==> (b, a) in edges
  {
  }

  /** Reversing twice gives the original graph back. */
  lemma ReverseInvolution(edges: set<Edge>)
    ensures Reverse(Reverse(edges)) == edges
  {
  }

  /** `p` is a non-empty walk along `edges`. */
  ghost predicate IsPath(edges: set<Edge>, p: seq<nat>) {
    |p| > 0 && forall i :: 0 <= i < |p| - 1 ==> (p[i], p[i + 1]) in edges
  }

  /** `t` can be reached from `s` by following zero or more edges. */
  ghost predicate Reaches(edges: set<Edge>, s: nat, t: nat) {
    exists p :: IsPath(edges, p) && p[0] == s && p[|p| - 1] == t
  }

  /** `t` can be reached from some node of `sources`. */
  ghost predicate ReachedFrom(edges: set<Edge>, sources: set<nat>, t: nat) {
    exists s :: s in sources && Reaches(edges, s, t)
  }

  /** Following edges from a member of `r` never leaves `r`. */
  ghost predicate ClosedUnder(edges: set<Edge>, r: set<nat>) {
    forall e :: e in edges && e.0 in r ==> e.1 in r
  }

  lemma ReachesRefl(edges: set<Edge>, s: nat)
    ensures Reaches(edges, s, s)
  {
    assert IsPath(edges, [s]);
  }

  lemma ReachesStep(edges: set<Edge>, s: nat, u: nat, v: nat)
    requires Reaches(edges, s, u) && (u, v) in edges
    ensures Reaches(edges, s, v)
  {
    var p :| IsPath(edges, p) && p[0] == s && p[|p| - 1] == u;
    var q := p + [v];
    assert IsPath(edges, q);
  }

  /** A walk that starts inside a closed set stays inside it. */
  lemma {:induction false} PathStaysInside(edges: set<Edge>, r: set<nat>, p: seq<nat>)
    requires ClosedUnder(edges, r) && IsPath(edges, p) && p[0] in r
    ensures p[|p| - 1] in r
    decreases |p|
  {
    if |p| > 1 {
      assert (p[0], p[1]) in edges;
      assert IsPath(edges, p[1..]);
      PathStaysInside(edges, r, p[1..]);
    }
  }

  /** A closed set holds everything reachable from its members. */
  lemma ClosedHoldsReachable(edges: set<Edge>, r: set<nat>, s: nat, t: nat)
    requires ClosedUnder(edges, r) && s in r && Reaches(edges, s, t)
    ensures t in r
  {
    var p :| IsPath(edges, p) && p[0] == s && p[|p| - 1] == t;
    PathStaysInside(edges, r, p);
  }

  /** `p` read backwards. */
  function Backwards(p: seq<nat>): (r: seq<nat>)
    ensures |r| == |p|
    ensures forall i :: 0 <= i < |p| ==> r[i] == p[|p| - 1 - i]
  {
    if p == [] then [] else Backwards(p[1..]) + [p[0]]
  }

  /** A walk read backwards is a walk of the reversed graph. */
  lemma BackwardsPath(edges: set<Edge>, p: seq<nat>)
    requires IsPath(edges, p)
    ensures IsPath(Reverse(edges), Backwards(p))
  {
  }

  /** Reachability in the reversed graph is reachability in the original, backwards. */
  lemma {:induction false} ReachesReverse(edges: set<Edge>, s: nat, t: nat)
    ensures Reaches(Reverse(edges), s, t) <==> Reaches(edges, t, s)
  {
    if Reaches(edges, t, s) {
      var p :| IsPath(edges, p) && p[0] == t && p[|p| - 1] == s;
      BackwardsPath(edges, p);
      assert Backwards(p)[0] == s;
    }
    if Reaches(Reverse(edges), s, t) {
      var p :| IsPath(Reverse(edges), p) && p[0] == s && p[|p| - 1] == t;
      BackwardsPath(Reverse(edges), p);
      ReverseInvolution(edges);
      assert Backwards(p)[0] == t;
    }
  }
}
