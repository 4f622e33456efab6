/**
 * The lazy depth-first iterators. Each holds the capability it walks (never
 * changed while it lives), its visited set and its stack; `Next` is one call
 * of the iterator's `next`. The ghost fields record where the traversal
 * started and what it has emitted so far, so that the invariants of module
 * DfsModel can be stated about a live iterator.
 */
module Dfs {
  import opened Wrappers
  import opened Seqs
  import opened Capability
  import opened Frontier
  import opened DfsModel

  /** The push loop of post-order `next`: appends a Discovered entry per successor not visited. */
  method PushUnvisitedEntries<K(!new)>(base: seq<Entry<K>>, adj: seq<K>, visited: set<K>) returns (r: seq<Entry<K>>)
    ensures r == base + AsDiscovered(Unvisited(adj, visited))
  {
    r := base;
    ghost var pushed: seq<K> := [];
    for i := 0 to |adj|
      invariant pushed == Unvisited(adj[..i], visited)
      invariant r == base + AsDiscovered(pushed)
    {
      UnvisitedSnoc(adj, i, visited);
      if adj[i] !in visited {
        AsDiscoveredSnoc(pushed, adj[i]);
        SnocAssoc(base, AsDiscovered(pushed), Entry(adj[i], Discovered));
        r := r + [Entry(adj[i], Discovered)];
        pushed := pushed + [adj[i]];
      }
    }
    assert adj[..|adj|] == adj;
  }

  class PreOrderDFS<K(==,!new)> {
    const graph: Graph<K>
    var visited: set<K>
    var stack: seq<K>
    ghost const root: K
    ghost const preseeded: set<K>
    ghost var emitted: seq<K>

    ghost function State(): PreState<K>
      reads this`visited, this`stack
    {
      PreState(visited, stack)
    }

    ghost predicate Valid()
      reads this
    {
      graph.Wf() && graph.Closed() && PreInv(graph, preseeded, root, State(), emitted)
    }

    /** `PreOrderDFS::new`: nothing visited, only the root on the stack. */
    constructor New(graph: Graph<K>, root: K)
      requires graph.Wf() && graph.Closed() && root in graph.adjacency
      ensures Valid()
      ensures this.graph == graph && this.root == root && preseeded == {}
      ensures visited == {} && stack == [root] && emitted == []
    {
      this.graph := graph;
      this.root := root;
      this.preseeded := {};
      this.visited := {};
      this.stack := [root];
      this.emitted := [];
      new;
      PreInitial(graph, {}, root);
    }

    /** `PreOrderDFS::with_visited`: the given keys count as visited from the start. */
    constructor WithVisited(graph: Graph<K>, root: K, visited: set<K>)
      requires graph.Wf() && graph.Closed() && root in graph.adjacency
      ensures Valid()
      ensures this.graph == graph && this.root == root && preseeded == visited
      ensures this.visited == visited && stack == [root] && emitted == []
    {
      this.graph := graph;
      this.root := root;
      this.preseeded := visited;
      this.visited := visited;
      this.stack := [root];
      this.emitted := [];
      new;
      PreInitial(graph, visited, root);
    }

    /**
     * `Iterator::next`: pop, mark visited, push the successors not visited,
     * return the popped key; `None`, changing nothing, once the stack is empty.
     */
    method Next() returns (r: Option<K>)
      requires Valid()
      modifies this
      ensures Valid()
      ensures (r, State()) == PreNext(graph, old(State()))
      ensures emitted == if r.Some? then old(emitted) + [r.value] else old(emitted)
      ensures r.Some? ==> LexLess(PreMeasure(graph, State()), PreMeasure(graph, old(State())))
    {
      if stack == [] {
        return None;
      }
      ghost var s0 := State();
      PreNextDecreases(graph, s0);
      PreNextPreserves(graph, preseeded, root, s0, emitted);
      r := Pop();
      Record(s0, emitted);
    }

    /** The concrete part of `next`, on the visited set and the stack alone. */
    method Pop() returns (r: Option<K>)
      requires graph.Closed() && Registered(graph, stack)
      modifies this`visited, this`stack
      ensures (r, State()) == PreNext(graph, old(State()))
    {
      if stack == [] {
        return None;
      }
      var current := stack[|stack| - 1];
      var st := stack[..|stack| - 1];
      var vis := visited + {current};
      st := PushUnvisited(st, graph.Adjacents(current), vis);
      visited, stack := vis, st;
      r := Some(current);
    }

    /**
     * The ghost bookkeeping of an emitting `next`: the popped key is emitted,
     * which `PreNextPreserves` shows keeps the invariant.
     */
    ghost method Record(s0: PreState<K>, e0: seq<K>)
      requires graph.Wf() && graph.Closed() && Registered(graph, s0.stack) && s0.stack != []
      requires State() == PreNext(graph, s0).1
      requires PreInv(graph, preseeded, root, PreNext(graph, s0).1, e0 + [PreNext(graph, s0).0.value])
      modifies this`emitted
      ensures Valid()
      ensures emitted == e0 + [PreNext(graph, s0).0.value]
    {
      emitted := e0 + [PreNext(graph, s0).0.value];
    }
  }

  class PostOrderDFS<K(==,!new)> {
    const graph: Graph<K>
    var visited: set<K>
    var stack: seq<Entry<K>>
    ghost const root: K
    ghost const preseeded: set<K>
    ghost var emitted: seq<K>

    ghost function State(): PostState<K>
      reads this`visited, this`stack
    {
      PostState(visited, stack)
    }

    ghost predicate Valid()
      reads this
    {
      graph.Wf() && graph.Closed() && PostInv(graph, preseeded, root, State(), emitted)
    }

    /** `PostOrderDFS::new`: nothing visited, only the root, Discovered, on the stack. */
    constructor New(graph: Graph<K>, root: K)
      requires graph.Wf() && graph.Closed() && root in graph.adjacency
      ensures Valid()
      ensures this.graph == graph && this.root == root && preseeded == {}
      ensures visited == {} && stack == [Entry(root, Discovered)] && emitted == []
    {
      this.graph := graph;
      this.root := root;
      this.preseeded := {};
      this.visited := {};
      this.stack := [Entry(root, Discovered)];
      this.emitted := [];
      new;
      PostInitial(graph, {}, root);
    }

    /** `PostOrderDFS::with_visited`: the given keys count as visited from the start. */
    constructor WithVisited(graph: Graph<K>, root: K, visited: set<K>)
      requires graph.Wf() && graph.Closed() && root in graph.adjacency
      ensures Valid()
      ensures this.graph == graph && this.root == root && preseeded == visited
      ensures this.visited == visited && stack == [Entry(root, Discovered)] && emitted == []
    {
      this.graph := graph;
      this.root := root;
      this.preseeded := visited;
      this.visited := visited;
      this.stack := [Entry(root, Discovered)];
      this.emitted := [];
      new;
      PostInitial(graph, visited, root);
    }

    /**
     * `Iterator::next`: expand Discovered entries (re-pushed as Finished
     * beneath their unvisited successors) without emitting, until a Finished
     * entry is popped and its key returned; `None`, changing nothing, once the
     * stack is empty.
     */
    method Next() returns (r: Option<K>)
      requires Valid()
      modifies this
      ensures Valid()
      ensures (r, State()) == PostNext(graph, old(State()))
      ensures emitted == if r.Some? then old(emitted) + [r.value] else old(emitted)
      ensures r.Some? ==> LexLess(PostMeasure(graph, State()), PostMeasure(graph, old(State())))
    {
      ghost var s0 := State();
      ghost var e0 := emitted;
      if stack != [] {
        PostNextDecreases(graph, s0);
      }
      r := Advance();
      PostNextPreserves(graph, preseeded, root, s0, e0);
    }

    /** The body of `next`, with the source's tail call to `next` as the loop. */
    method Advance() returns (r: Option<K>)
      requires graph.Closed() && EntriesRegistered(graph, stack)
      modifies this
      ensures (r, State()) == PostNext(graph, old(State()))
      ensures emitted == if r.Some? then old(emitted) + [r.value] else old(emitted)
    {
      ghost var s0 := State();
      while stack != []
        invariant EntriesRegistered(graph, stack)
        invariant PostNext(graph, State()) == PostNext(graph, s0)
        invariant emitted == old(emitted)
        invariant stack == [] ==> State() == s0
        decreases Pending(graph, visited), PostWeight(stack, visited)
      {
        var top := stack[|stack| - 1];
        if top.tag == Finished {
          stack := stack[..|stack| - 1];
          emitted := emitted + [top.key];
          return Some(top.key);
        }
        DiscoverDecreases(graph, State());
        Expand();
      }
      r := None;
    }

    /**
     * A Discovered entry on top: it is re-pushed as Finished with its
     * unvisited successors above it, and its key becomes visited.
     */
    method Expand()
      requires graph.Closed() && EntriesRegistered(graph, stack)
      requires stack != [] && stack[|stack| - 1].tag == Discovered
      modifies this
      ensures State() == Discover(graph, old(State()))
      ensures emitted == old(emitted)
    {
      var x := stack[|stack| - 1].key;
      var vis := visited + {x};
      var st := PushUnvisitedEntries(stack[..|stack| - 1] + [Entry(x, Finished)], graph.Adjacents(x), vis);
      visited, stack := vis, st;
    }
  }
}
