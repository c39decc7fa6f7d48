/** Cardinality facts about finite sets used by the orphan and projection lemmas. */
module SetCard {

  /** `f` is one-to-one on `a`. */
  ghost predicate InjectiveOn<X, Y>(a: set<X>, f: X -> Y) {
    forall x, y :: x in a && y in a && f(x) == f(y) ==> x == y
  }

  /** A set mapped one-to-one into another set is no larger than it. */
  lemma {:induction false} InjectionBound<X, Y>(a: set<X>, b: set<Y>, f: X -> Y)
    requires InjectiveOn(a, f)
    requires forall x :: x in a ==> f(x) in b
    ensures |a| <= |b|
    decreases a
  {
    if a != {} {
      var x :| x in a;
      var a' := a - {x};
      var b' := b - {f(x)};
      forall y | y in a' ensures f(y) in b' {
        assert f(y) != f(x);
      }
      InjectionBound(a', b', f);
    }
  }

  /** A sequence has at least as many positions as it has distinct elements. */
  lemma {:induction false} ElementsBound<X>(s: seq<X>)
    ensures |set x | x in s| <= |s|
  {
    if s != [] {
      ElementsBound(s[1..]);
      assert (set x | x in s) == (set x | x in s[1..]) + {s[0]};
    }
  }

  /** A sequence without repeated elements has exactly as many distinct elements as positions. */
  lemma {:induction false} DistinctElements<X>(s: seq<X>)
    requires forall i, j :: 0 <= i < j < |s| ==> s[i] != s[j]
    ensures |set x | x in s| == |s|
  {
    if s != [] {
      DistinctElements(s[1..]);
      assert (set x | x in s) == (set x | x in s[1..]) + {s[0]};
      assert s[0] !in s[1..];
    }
  }

  /** `order` lists every element of `s` exactly once. */
  ghost predicate Enumerates<X>(order: seq<X>, s: set<X>) {
    && (forall k :: 0 <= k < |order| ==> order[k] in s)
    && (forall x :: x in s ==> x in order)
    && (forall a, b :: 0 <= a < b < |order| ==> order[a] != order[b])
  }

  /** An enumeration of a set is as long as the set is large. */
  lemma EnumerationSize<X>(order: seq<X>, s: set<X>)
    requires Enumerates(order, s)
    ensures |order| == |s|
  {
    DistinctElements(order);
    assert (set x | x in order) == s;
  }
}
