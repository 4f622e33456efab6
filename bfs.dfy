/**
 * The lazy breadth-first iterator: the capability it walks, its visited set
 * and its queue (a `VecDeque` in the store, a sequence here, front first).
 * The ghost fields record where the traversal started, what it has emitted,
 * and the levels and depths of module BfsModel.
 */
module Bfs {
  import opened Wrappers
  import opened Capability
  import opened Frontier
  import opened BfsModel

  class BFS<K(==,!new)> {
    const graph: Graph<K>
    var visited: set<K>
    var queue: seq<K>
    ghost const root: K
    ghost const preseeded: set<K>
    ghost var emitted: seq<K>
    ghost var levels: seq<nat>
    ghost var depths: seq<nat>

    ghost function State(): BfsState<K>
      reads this`visited, this`queue
    {
      BfsState(visited, queue)
    }

    ghost predicate Valid()
      reads this
    {
      graph.Wf() && graph.Closed() && BfsInv(graph, preseeded, root, State(), emitted, levels, depths)
    }

    /** `BFS::new`: nothing visited, only the root queued. */
    constructor New(graph: Graph<K>, root: K)
      requires graph.Wf() && graph.Closed() && root in graph.adjacency
      ensures Valid()
      ensures this.graph == graph && this.root == root && preseeded == {}
      ensures visited == {} && queue == [root] && emitted == []
    {
      this.graph := graph;
      this.root := root;
      this.preseeded := {};
      this.visited := {};
      this.queue := [root];
      this.emitted := [];
      this.levels := [0];
      this.depths := [];
      new;
      BfsInitial(graph, {}, root);
    }

    /** `BFS::with_visited`: the given keys count as visited from the start. */
    constructor WithVisited(graph: Graph<K>, root: K, visited: set<K>)
      requires graph.Wf() && graph.Closed() && root in graph.adjacency
      ensures Valid()
      ensures this.graph == graph && this.root == root && preseeded == visited
      ensures this.visited == visited && queue == [root] && emitted == []
    {
      this.graph := graph;
      this.root := root;
      this.preseeded := visited;
      this.visited := visited;
      this.queue := [root];
      this.emitted := [];
      this.levels := [0];
      this.depths := [];
      new;
      BfsInitial(graph, visited, root);
    }

    /**
     * `Iterator::next`: pop the front, mark it visited, queue the successors
     * not visited, return the popped key; `None`, changing nothing, once the
     * queue is empty. The key comes out at the level it was queued with.
     */
    method Next() returns (r: Option<K>)
      requires Valid()
      modifies this
      ensures Valid()
      ensures (r, State()) == BfsNext(graph, old(State()))
      ensures emitted == if r.Some? then old(emitted) + [r.value] else old(emitted)
      ensures r.Some? ==> depths == old(depths) + [old(levels)[0]]
      ensures r.Some? ==> LexLess(BfsMeasure(graph, State()), BfsMeasure(graph, old(State())))
    {
      if queue == [] {
        return None;
      }
      ghost var s0 := State();
      BfsNextDecreases(graph, s0);
      BfsNextPreserves(graph, preseeded, root, s0, emitted, levels, depths);
      r := Pop();
      Record(s0, emitted, levels, depths);
    }

    /**
     * The ghost bookkeeping of an emitting `next`: the popped key is emitted
     * at its level, which `BfsNextPreserves` shows keeps the invariant.
     */
    ghost method Record(s0: BfsState<K>, e0: seq<K>, l0: seq<nat>, d0: seq<nat>)
      requires graph.Wf() && graph.Closed() && Registered(graph, s0.queue) && s0.queue != [] && |l0| == |s0.queue|
      requires State() == BfsNext(graph, s0).1
      requires BfsInv(graph, preseeded, root, BfsNext(graph, s0).1, e0 + [BfsNext(graph, s0).0.value],
                      NextLevels(graph, s0, l0), d0 + [l0[0]])
      modifies this`emitted, this`levels, this`depths
      ensures Valid()
      ensures emitted == e0 + [s0.queue[0]] && depths == d0 + [l0[0]]
    {
      emitted := e0 + [BfsNext(graph, s0).0.value];
      levels := NextLevels(graph, s0, l0);
      depths := d0 + [l0[0]];
    }

    /** The concrete part of `next`, on the visited set and the queue alone. */
    method Pop() returns (r: Option<K>)
      requires graph.Closed() && Registered(graph, queue)
      modifies this
      ensures (r, State()) == BfsNext(graph, old(State()))
      ensures emitted == old(emitted) && levels == old(levels) && depths == old(depths)
    {
      if queue == [] {
        return None;
      }
      var current := queue[0];
      var vis := visited + {current};
      var q := PushUnvisited(queue[1..], graph.Adjacents(current), vis);
      visited, queue := vis, q;
      r := Some(current);
    }
  }
}
