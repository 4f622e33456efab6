/**
 * The fixed-size backend: a `SIZE` by `SIZE` matrix of booleans, in which
 * row `n` marks the successors of key `n`. Unlike the hash-map store, its
 * enumeration order is determined: ascending indices.
 */
module BoolMatrix {
  import opened Seqs
  import opened Capability

  /** `[[bool; SIZE]; SIZE]`: `SIZE` rows of `SIZE` entries each. */
  predicate IsSquare(m: seq<seq<bool>>) {
    forall i :: 0 <= i < |m| ==> |m[i]| == |m|
  }

  predicate StrictlyIncreasing(s: seq<nat>) {
    forall i, j :: 0 <= i < j < |s| ==> s[i] < s[j]
  }

  /** The `enumerate().filter_map` over one row: the positions holding `true`, in order. */
  function TrueIndices(row: seq<bool>): (r: seq<nat>)
    ensures forall j: nat :: j in r <==> j < |row| && row[j]
    ensures forall i :: 0 <= i < |r| ==> r[i] < |row|
    ensures StrictlyIncreasing(r)
  {
    if row == [] then []
    else
      var rest := TrueIndices(row[..|row| - 1]);
      rest + (if row[|row| - 1] then [|row| - 1] else [])
  }

  /** `adjacents(n)`: the indices `j` with `m[n][j]`, ascending; indexing demands `n < SIZE`. */
  function Adjacents(m: seq<seq<bool>>, n: nat): (r: seq<nat>)
    requires IsSquare(m) && n < |m|
    ensures forall j: nat :: j in r <==> j < |m| && m[n][j]
    ensures StrictlyIncreasing(r) && Distinct(r)
  {
    TrueIndices(m[n])
  }

  /** `iter()`: the range `0..SIZE`. */
  function Iter(size: nat): (r: seq<nat>)
    ensures |r| == size
    ensures forall j: nat :: j in r <==> j < size
    ensures forall i :: 0 <= i < |r| ==> r[i] < size
    ensures StrictlyIncreasing(r) && Distinct(r)
  {
    if size == 0 then [] else Iter(size - 1) + [size - 1]
  }

  /** The matrix seen through the traversal capability. */
  function ToCapability(m: seq<seq<bool>>): (g: Graph<nat>)
    requires IsSquare(m)
    ensures g.Wf() && g.Closed()
    ensures forall k: nat :: k in g.adjacency <==> k < |m|
    ensures forall k :: k in g.adjacency ==> g.adjacency[k] == Adjacents(m, k)
    ensures g.keys == Iter(|m|)
  {
    Graph(Iter(|m|), map k | 0 <= k < |m| :: Adjacents(m, k))
  }

  /** An edge of the capability is exactly a `true` entry of the matrix. */
  lemma EdgeIsEntry(m: seq<seq<bool>>, a: nat, b: nat)
    requires IsSquare(m)
    ensures ToCapability(m).Edge(a, b) <==> a < |m| && b < |m| && m[a][b]
  {
  }

  /** A `true` on the diagonal is reported as a successor: this backend has self-loops, so it is not acyclic. */
  lemma DiagonalSelfLoop(m: seq<seq<bool>>, n: nat)
    requires IsSquare(m) && n < |m| && m[n][n]
    ensures n in Adjacents(m, n)
    ensures !Acyclic(ToCapability(m))
  {
    var g := ToCapability(m);
    assert IsPath(g, [n, n]);
  }
}
