/**
 * The traversal capability: the two operations every backing store offers
 * (`iter`/`keys` and `adjacents`), taken as one fixed snapshot of the order in
 * which the store enumerates them, together with the graph-theoretic notions
 * (paths, reachability, acyclicity) the traversal properties are stated in.
 */
module Capability {
  import opened Seqs

  /**
   * `keys` is what `iter()` yields; `adjacency[k]` is what `adjacents(k)`
   * yields. A key outside `adjacency` is one the store cannot answer for.
   */
  datatype Graph<K(!new)> = Graph(keys: seq<K>, adjacency: map<K, seq<K>>) {

    /** Every key once, the key enumeration and the adjacency domain agree,
        and each successor list names a successor once. */
    ghost predicate Wf() {
      && Distinct(keys)
      && (forall k :: k in adjacency <==> k in keys)
      && (forall k :: k in adjacency ==> Distinct(adjacency[k]))
    }

    /** Every successor is itself a registered key, so `adjacents` can be asked about it. */
    ghost predicate Closed() {
      forall k, j :: k in adjacency && j in adjacency[k] ==> j in adjacency
    }

    /** The capability's `adjacents`; undefined (a panic in the store) on an unregistered key. */
    function Adjacents(k: K): seq<K>
      requires k in adjacency
    {
      adjacency[k]
    }

    ghost predicate Edge(a: K, b: K) {
      a in adjacency && b in adjacency[a]
    }
  }

  /** Every key of `s` is registered. */
  ghost predicate Registered<K(!new)>(g: Graph<K>, s: seq<K>) {
    forall x :: x in s ==> x in g.adjacency
  }

  /** A non-empty walk along edges. */
  ghost predicate IsPath<K(!new)>(g: Graph<K>, p: seq<K>) {
    |p| > 0 && forall i :: 0 <= i < |p| - 1 ==> g.Edge(p[i], p[i + 1])
  }

  /** `b` can be reached from `a` by zero or more edges. */
  ghost predicate Reachable<K(!new)>(g: Graph<K>, a: K, b: K) {
    exists p :: IsPath(g, p) && p[0] == a && p[|p| - 1] == b
  }

  /** `b` can be reached from `a` by one or more edges. */
  ghost predicate ReachablePlus<K(!new)>(g: Graph<K>, a: K, b: K) {
    exists p :: IsPath(g, p) && |p| >= 2 && p[0] == a && p[|p| - 1] == b
  }

  /** `b` can be reached from `a` by exactly `n` edges. */
  ghost predicate ReachableIn<K(!new)>(g: Graph<K>, a: K, b: K, n: nat) {
    exists p :: IsPath(g, p) && |p| == n + 1 && p[0] == a && p[|p| - 1] == b
  }

  /** `b` can be reached from `a` by a path none of whose keys is in `avoid`. */
  ghost predicate ReachableAvoiding<K(!new)>(g: Graph<K>, avoid: set<K>, a: K, b: K) {
    exists p :: IsPath(g, p) && p[0] == a && p[|p| - 1] == b && forall i :: 0 <= i < |p| ==> p[i] !in avoid
  }

  /** No key reaches itself by one or more edges. */
  ghost predicate Acyclic<K(!new)>(g: Graph<K>) {
    forall p :: IsPath(g, p) && |p| >= 2 ==> p[0] != p[|p| - 1]
  }

  /** `Acyclic` in terms of reachability. */
  lemma AcyclicNoCycle<K(!new)>(g: Graph<K>, a: K)
    requires Acyclic(g)
    ensures !ReachablePlus(g, a, a)
  {
  }

  lemma PathExtend<K(!new)>(g: Graph<K>, p: seq<K>, b: K)
    requires IsPath(g, p) && g.Edge(p[|p| - 1], b)
    ensures IsPath(g, p + [b])
  {
    var q := p + [b];
    forall i | 0 <= i < |q| - 1 ensures g.Edge(q[i], q[i + 1]) {
      if i < |p| - 1 {
        assert q[i] == p[i] && q[i + 1] == p[i + 1];
      }
    }
  }

  lemma ReachableZero<K(!new)>(g: Graph<K>, a: K)
    ensures Reachable(g, a, a) && ReachableIn(g, a, a, 0)
  {
    assert IsPath(g, [a]);
  }

  /** Reachability followed by one edge. */
  lemma ReachableStep<K(!new)>(g: Graph<K>, a: K, b: K, c: K)
    requires Reachable(g, a, b) && g.Edge(b, c)
    ensures Reachable(g, a, c) && ReachablePlus(g, a, c)
  {
    var p :| IsPath(g, p) && p[0] == a && p[|p| - 1] == b;
    PathExtend(g, p, c);
    assert (p + [c])[0] == a;
  }

  /** Reachability in `n` edges followed by one edge. */
  lemma ReachableInStep<K(!new)>(g: Graph<K>, a: K, b: K, c: K, n: nat)
    requires ReachableIn(g, a, b, n) && g.Edge(b, c)
    ensures ReachableIn(g, a, c, n + 1)
  {
    var p :| IsPath(g, p) && |p| == n + 1 && p[0] == a && p[|p| - 1] == b;
    PathExtend(g, p, c);
    assert (p + [c])[0] == a;
  }

  /** Reachability in one or more edges followed by one edge. */
  lemma ReachablePlusStep<K(!new)>(g: Graph<K>, a: K, b: K, c: K)
    requires ReachablePlus(g, a, b) && g.Edge(b, c)
    ensures ReachablePlus(g, a, c)
  {
    var p :| IsPath(g, p) && |p| >= 2 && p[0] == a && p[|p| - 1] == b;
    PathExtend(g, p, c);
    assert (p + [c])[0] == a;
  }

  lemma ReachablePlusEdge<K(!new)>(g: Graph<K>, a: K, b: K)
    requires g.Edge(a, b)
    ensures ReachablePlus(g, a, b)
  {
    assert IsPath(g, [a, b]);
  }

  /**
   * The completeness argument shared by all three traversals: if `inside`
   * contains the root (or the root is avoided), and every edge out of
   * `inside` ends in `inside` or in `avoid`, then every key reachable from
   * the root along a path avoiding `avoid` lies in `inside`.
   */
  lemma {:induction false} AvoidingPathsStayInside<K(!new)>(g: Graph<K>, avoid: set<K>, inside: set<K>, root: K, b: K)
    requires root in inside || root in avoid
    requires forall x, y :: x in inside && g.Edge(x, y) ==> y in inside || y in avoid
    requires ReachableAvoiding(g, avoid, root, b)
    ensures b in inside
  {
    var p :| IsPath(g, p) && p[0] == root && p[|p| - 1] == b && forall i :: 0 <= i < |p| ==> p[i] !in avoid;
    PathPrefixInside(g, avoid, inside, p, |p|);
  }

  lemma {:induction false} PathPrefixInside<K(!new)>(g: Graph<K>, avoid: set<K>, inside: set<K>, p: seq<K>, n: nat)
    requires IsPath(g, p) && 0 < n <= |p|
    requires p[0] in inside || p[0] in avoid
    requires forall i :: 0 <= i < |p| ==> p[i] !in avoid
    requires forall x, y :: x in inside && g.Edge(x, y) ==> y in inside || y in avoid
    ensures p[n - 1] in inside
  {
    if n > 1 {
      PathPrefixInside(g, avoid, inside, p, n - 1);
      assert g.Edge(p[n - 2], p[n - 1]);
    }
  }
}
