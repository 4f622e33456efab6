/**
 * The `ReferenceGraph` capability's default methods: each builds a traversal
 * from nothing but the capability (`adjacents` and `iter`), fresh, with
 * nothing visited and only the root on its frontier.
 */
module ReferenceGraph {
  import opened Capability
  import opened Dfs
  import opened Bfs
  import opened Topsort

  /** `pre_order_dfs(root)`: `PreOrderDFS::new(self, root)`. */
  method PreOrderDfs<K(==,!new)>(g: Graph<K>, root: K) returns (it: PreOrderDFS<K>)
    requires g.Wf() && g.Closed() && root in g.adjacency
    ensures fresh(it) && it.Valid()
    ensures it.graph == g && it.root == root && it.preseeded == {}
    ensures it.visited == {} && it.stack == [root] && it.emitted == []
  {
    it := new PreOrderDFS.New(g, root);
  }

  /** `post_order_dfs(root)`: `PostOrderDFS::new(self, root)`. */
  method PostOrderDfs<K(==,!new)>(g: Graph<K>, root: K) returns (it: PostOrderDFS<K>)
    requires g.Wf() && g.Closed() && root in g.adjacency
    ensures fresh(it) && it.Valid()
    ensures it.graph == g && it.root == root && it.preseeded == {}
    ensures it.visited == {} && it.stack == [DfsModel.Entry(root, DfsModel.Discovered)] && it.emitted == []
  {
    it := new PostOrderDFS.New(g, root);
  }

  /** `bfs(root)`: `BFS::new(self, root)`. */
  method BreadthFirst<K(==,!new)>(g: Graph<K>, root: K) returns (it: BFS<K>)
    requires g.Wf() && g.Closed() && root in g.adjacency
    ensures fresh(it) && it.Valid()
    ensures it.graph == g && it.root == root && it.preseeded == {}
    ensures it.visited == {} && it.queue == [root] && it.emitted == []
  {
    it := new BFS.New(g, root);
  }

  /** `top_sort()`: `TopSort::new(self)`. */
  method TopologicalSort<K(==,!new)>(g: Graph<K>) returns (it: TopSort<K>)
    requires g.Wf() && g.Closed()
    ensures fresh(it) && it.Valid() && it.yielded == [] && it.stack == it.order
    ensures it.order == Flatten(it.rounds) && RoundsWf(g, it.rounds, it.roots)
    ensures forall k :: k in g.adjacency ==> k in it.order
    ensures Registered(g, it.order)
    ensures Acyclic(g) ==> PushedAfterSuccessors(g, it.order)
  {
    it := new TopSort.New(g);
  }
}
