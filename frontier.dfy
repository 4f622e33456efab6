/**
 * What the three traversals share: the successors a step pushes (those not yet
 * visited, in `adjacents` order) and the two-part measure that shows every
 * traversal runs out even on a cyclic graph.
 */
module Frontier {
  import opened Capability

  /** The successors in `adj`, in order, that are not in `visited`: what one push loop appends. */
  function Unvisited<K(!new)>(adj: seq<K>, visited: set<K>): (r: seq<K>)
    ensures forall x :: x in r <==> x in adj && x !in visited
    ensures |r| <= |adj|
  {
    if adj == [] then []
    else Unvisited(adj[..|adj| - 1], visited) + (if adj[|adj| - 1] in visited then [] else [adj[|adj| - 1]])
  }

  /** One more iteration of the push loop over `adj`. */
  lemma UnvisitedSnoc<K(!new)>(adj: seq<K>, i: nat, visited: set<K>)
    requires i < |adj|
    ensures Unvisited(adj[..i + 1], visited)
         == Unvisited(adj[..i], visited) + (if adj[i] in visited then [] else [adj[i]])
  {
    assert adj[..i + 1][..i] == adj[..i];
  }

  /** The push loop of pre-order and breadth-first `next`: appends the successors not visited, in order. */
  method PushUnvisited<K(!new)>(base: seq<K>, adj: seq<K>, visited: set<K>) returns (r: seq<K>)
    ensures r == base + Unvisited(adj, visited)
  {
    r := base;
    for i := 0 to |adj|
      invariant r == base + Unvisited(adj[..i], visited)
    {
      UnvisitedSnoc(adj, i, visited);
      if adj[i] !in visited {
        r := r + [adj[i]];
      }
    }
    assert adj[..|adj|] == adj;
  }

  /** First part of the measure: registered keys not yet visited. */
  ghost function Pending<K(!new)>(g: Graph<K>, visited: set<K>): nat {
    |g.adjacency.Keys - visited|
  }

  /** Visiting a registered key not visited before lowers `Pending`. */
  lemma PendingShrinks<K(!new)>(g: Graph<K>, visited: set<K>, x: K)
    requires x in g.adjacency && x !in visited
    ensures Pending(g, visited + {x}) < Pending(g, visited)
  {
    var before := g.adjacency.Keys - visited;
    assert g.adjacency.Keys - (visited + {x}) == before - {x};
  }

  /** Second part of the measure for a key frontier: entries whose key is already visited. */
  function VisitedCount<K(!new)>(s: seq<K>, visited: set<K>): (n: nat)
    ensures n <= |s|
    ensures n == 0 <== forall x :: x in s ==> x !in visited
  {
    if s == [] then 0
    else VisitedCount(s[..|s| - 1], visited) + (if s[|s| - 1] in visited then 1 else 0)
  }

  lemma {:induction false} VisitedCountAppend<K(!new)>(s: seq<K>, t: seq<K>, visited: set<K>)
    ensures VisitedCount(s + t, visited) == VisitedCount(s, visited) + VisitedCount(t, visited)
    decreases |t|
  {
    if t == [] {
      assert s + t == s;
    } else {
      var t' := t[..|t| - 1];
      assert (s + t)[..|s + t| - 1] == s + t';
      VisitedCountAppend(s, t', visited);
    }
  }

  /** Lexicographic order on the two-part measure. */
  predicate LexLess(a: (nat, nat), b: (nat, nat)) {
    a.0 < b.0 || (a.0 == b.0 && a.1 < b.1)
  }
}
