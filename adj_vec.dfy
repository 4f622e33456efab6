/**
 * The hash-map store: each registered key maps to its payload and the set of
 * its successors. The order in which a hash set or map enumerates its
 * elements is not modelled; the enumerating methods promise only that each
 * element comes out once.
 */
module AdjVec {
  import opened Wrappers
  import opened Seqs
  import opened Capability

  /** The elements of `s`, each once, in an order the caller may not rely on. */
  method Enumerate<K(==)>(s: set<K>) returns (r: seq<K>)
    ensures Distinct(r)
    ensures forall x :: x in r <==> x in s
  {
    r := [];
    var rest := s;
    while rest != {}
      invariant rest <= s
      invariant forall x :: x in r <==> x in s && x !in rest
      invariant Distinct(r)
      decreases |rest|
    {
      var x :| x in rest;
      r := r + [x];
      rest := rest - {x};
    }
  }

  class AdjacencyVecGraph<K(==,!new), V> {
    var matrix: map<K, (V, set<K>)>

    /** Every stored successor is itself registered: what `adjacents` needs to never panic on a traversal. */
    ghost predicate Closed()
      reads this
    {
      forall k, j :: k in matrix && j in matrix[k].1 ==> j in matrix
    }

    /** `new` / `Default`: no keys. */
    constructor New()
      ensures matrix == map[]
      ensures Closed()
    {
      matrix := map[];
    }

    /**
     * `add_node`: registers `k` with payload `v` and no successors; a key
     * already present has its payload replaced and its successors cleared.
     * Every other key keeps its payload and successors.
     */
    method AddNode(k: K, v: V)
      modifies this
      ensures matrix == old(matrix)[k := (v, {})]
      ensures Get(k) == Some(v) && matrix[k].1 == {}
      ensures matrix.Keys == old(matrix).Keys + {k}
      ensures forall j :: j != k && j in old(matrix) ==> matrix[j] == old(matrix)[j]
      ensures old(Closed()) ==> Closed()
    {
      matrix := matrix[k := (v, {})];
    }

    /**
     * `connect`: adds `to` to the successors of `from`. A self-loop and an
     * unregistered `from` change nothing; `to` need not be registered.
     */
    method Connect(from: K, to: K)
      modifies this
      ensures from == to || from !in old(matrix) ==> matrix == old(matrix)
      ensures from != to && from in old(matrix) ==>
                matrix == old(matrix)[from := (old(matrix)[from].0, old(matrix)[from].1 + {to})]
      ensures from != to && from in old(matrix) ==> to in matrix[from].1
      ensures old(from in matrix && to in matrix[from].1) ==> matrix == old(matrix)
      ensures matrix.Keys == old(matrix).Keys
      ensures forall j :: j in matrix ==> matrix[j].0 == old(matrix)[j].0
      ensures old(Closed()) && (to in old(matrix) || from == to) ==> Closed()
    {
      if from == to {
        return;
      }
      if from in matrix {
        var entry := matrix[from];
        if to in entry.1 {
          assert entry.1 + {to} == entry.1;
          assert matrix[from := entry] == matrix;
        }
        matrix := matrix[from := (entry.0, entry.1 + {to})];
      }
    }

    /** `get`: the payload of `k`, or None when `k` is not registered. */
    function Get(k: K): (r: Option<V>)
      reads this
      ensures r.None? <==> k !in matrix
      ensures r.Some? ==> r.value == matrix[k].0
    {
      if k in matrix then Some(matrix[k].0) else None
    }

    /**
     * `get_mut` followed by a write of `v` through the reference it returns:
     * `found` is false, and nothing changes, exactly when `k` is unregistered;
     * otherwise only the payload of `k` changes.
     */
    method GetMut(k: K, v: V) returns (found: bool)
      modifies this
      ensures found <==> k in old(matrix)
      ensures !found ==> matrix == old(matrix)
      ensures found ==> matrix == old(matrix)[k := (v, old(matrix)[k].1)]
      ensures found ==> Get(k) == Some(v)
    {
      if k in matrix {
        matrix := matrix[k := (v, matrix[k].1)];
        found := true;
      } else {
        found := false;
      }
    }

    /** `graph[k]`: `get` that fails with "Node not found" on an unregistered key. */
    function Index(k: K): (r: V)
      reads this
      requires k in matrix
      ensures Get(k) == Some(r)
    {
      matrix[k].0
    }

    /** `graph[k] = v`: `get_mut` that fails with "Node not found" on an unregistered key. */
    method IndexMut(k: K, v: V)
      requires k in matrix
      modifies this
      ensures matrix == old(matrix)[k := (v, old(matrix)[k].1)]
      ensures Index(k) == v
    {
      matrix := matrix[k := (v, matrix[k].1)];
    }

    /** `ReferenceGraph::keys`: every registered key once. */
    method Keys() returns (ks: seq<K>)
      ensures Distinct(ks)
      ensures forall k :: k in ks <==> k in matrix
    {
      ks := Enumerate(matrix.Keys);
    }

    /** `ReferenceGraph::adjacents`: the successors of `k`, each once; `k` must be registered. */
    method Adjacents(k: K) returns (adj: seq<K>)
      requires k in matrix
      ensures Distinct(adj)
      ensures forall j :: j in adj <==> j in matrix[k].1
    {
      adj := Enumerate(matrix[k].1);
    }

    /**
     * The capability the traversals walk: one enumeration of the keys and one
     * of each successor set. It answers for exactly the registered keys, and
     * every successor is registered exactly when the store is `Closed`.
     */
    method AsReferenceGraph() returns (g: Graph<K>)
      ensures g.Wf()
      ensures forall k :: k in g.adjacency <==> k in matrix
      ensures forall k, j :: k in matrix ==> (j in g.adjacency[k] <==> j in matrix[k].1)
      ensures g.Closed() <==> Closed()
    {
      var ks := Keys();
      var adjacency: map<K, seq<K>> := map[];
      for i := 0 to |ks|
        invariant forall k :: k in adjacency <==> k in ks[..i]
        invariant forall k, j :: k in adjacency ==> k in matrix && (j in adjacency[k] <==> j in matrix[k].1)
        invariant forall k :: k in adjacency ==> Distinct(adjacency[k])
      {
        var adj := Adjacents(ks[i]);
        adjacency := adjacency[ks[i] := adj];
      }
      assert ks[..|ks|] == ks;
      g := Graph(ks, adjacency);
    }
  }
}
