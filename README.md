# A verified model of an in-memory directed-graph library

The library stores a directed graph in a hash map. Each registered key maps
to a payload and to the set of its successors (`AdjacencyVecGraph`). Its
traversals see the graph only through a two-operation capability:
`keys`/`iter` lists the registered keys, and `adjacents(k)` lists the
successors of `k`. On that capability it builds:

- three lazy traversal iterators: pre-order DFS, post-order DFS and BFS;
- a topological sort that runs post-order DFS once per component and yields
  the finish stack back to front.

A second backend, a `SIZE` by `SIZE` boolean matrix, implements the same
capability with a fixed enumeration order.

The Dafny project has these modules:

- `Capability` (capability.dfy): the capability as a value `Graph(keys,
  adjacency)`, which is one fixed snapshot of the two enumerations. It also
  defines paths, reachability, reachability avoiding a set, and acyclicity.
- `AdjVec` (adj_vec.dfy): the hash-map store as a class whose `matrix` field
  is a `map<K, (V, set<K>)>`. Its mutators have `modifies` clauses. Its
  enumerations promise each element exactly once, in an unspecified order.
  `AsReferenceGraph` takes the capability snapshot the traversals walk.
- `Frontier` (frontier.dfy): the push loop shared by all three traversals
  (push each successor that is not yet visited). It also holds the parts of
  the termination measure.
- `DfsModel` and `Dfs` (dfs_model.dfy, dfs.dfy):
  - one call of `next` as a pure step function, `PreNext` or `PostNext`;
  - the invariants each step keeps, and the measure it lowers;
  - the iterator classes, whose `Next` methods are proved equal to the step
    functions.
  - Post-order's recursive re-entry of `next` is a loop (`Advance`) that
    expands Discovered entries one at a time (`Expand`).
- `BfsModel` and `Bfs` (bfs_model.dfy, bfs.dfy): the same design for the
  FIFO traversal. Ghost levels and depths show that keys come out layer by
  layer, and that a key's first emission carries its shortest-walk distance.
- `Topsort` (topsort.dfy):
  - the component loop of `TopSort::new`: `FindUnvisited`, then `Round`,
    which drives a real `PostOrderDFS` to exhaustion;
  - the round-by-round structure of the stack;
  - the finish-order property on acyclic graphs;
  - the popping iterator.
- `ReferenceGraph` (graph.dfy): the capability's default methods, which
  construct the iterators.
- `BoolMatrix` (bool_matrix.dfy): the matrix backend as pure functions, and
  its capability.
- `Scenarios` (scenarios.dfy): the demo program, a three-key matrix graph
  on which pre-order, post-order and the topological sort emit a key twice,
  and a four-key matrix graph on which BFS emits a key twice.

The older uncompiled copies of the three iterators in `src/traits.rs` do the
same thing, line for line, as the compiled ones in `src/traversal/`. They
therefore share one model, and the table cites the compiled copies. The
older copies are at these lines of src/traits.rs:

- pre-order `new`, 18-24, and `next`, 34-46 (`Dfs.PreOrderDFS.New`, `Dfs.PreOrderDFS.Next`);
- post-order `new`, 69-75, and `next`, 85-104 (`Dfs.PostOrderDFS.New`, `Dfs.PostOrderDFS.Next`);
- BFS `new`, 122-128, and `next`, 138-150 (`Bfs.BFS.New`, `Bfs.BFS.Next`);
- the trait's default methods, 160-189 (`ReferenceGraph.PreOrderDfs`,
  `ReferenceGraph.PostOrderDfs`, `ReferenceGraph.BreadthFirst`).

### Behaviour of the code that the model keeps

- **Emission count.** A traversal can emit a key more than once. The code
  tests `visited` only when it pushes a key, and marks keys only when it pops
  them, so a key pushed twice before its first pop comes out twice. The
  scenarios show it for every traversal:
  - on the graph 0→1, 0→2, 2→1, pre-order from 0 yields 0, 2, 1, 1;
  - on the same graph, post-order from 0 yields 1, 2, 1, 0;
  - on the same graph, the topological sort yields 0, 1, 2, 1;
  - on the graph 0→1, 0→2, 1→3, 2→3, BFS from 0 yields 0, 1, 2, 3, 3.

  The model proves "at least once" (completeness) and never "exactly once".
- **Topological order.** On an acyclic graph, the last copy of `u` in the
  output comes before the last copy of `v` for every edge u→v. The first
  copies need not be in that order (`Scenarios.TopSortRun`).
- **When post-order marks a key.** Post-order inserts a key into `visited`
  when its Discovered entry is popped (src/traversal/dfs.rs:109), not when
  the key finishes.
- **Preseeded roots.** A root passed in `with_visited`'s set is still emitted
  and expanded (src/traversal/dfs.rs:27-33, 86-92; src/traversal/bfs.rs:30-36):
  nothing tests the root against `visited` before its first pop.
- **Edges to unregistered keys.** In the code, `adjacents` indexes the map
  and panics on an absent key (src/adj_vec.rs:54). For that reason every
  traversal requires the capability to be `Closed`: every successor is a
  registered key.
- **Names.** The crate does not compile as written. The trait is called
  `ReferenceGraph` in some files and `Graph` in others, its associated type
  `NodeKey` in some and `NodeId` in others, and `keys` in some and `iter` in
  others. The model has one capability, whose `keys` field is what both
  `keys()` and `iter()` yield.

## Model

| member | source | states |
|---|---|---|
| AdjVec.AdjacencyVecGraph.New | src/adj_vec.rs:20-22 | a new store (`new`, i.e. `Default`) has no keys |
| AdjVec.AdjacencyVecGraph.AddNode | src/adj_vec.rs:24-26 | afterwards `get(k) == Some(v)` and `k` has no successors, even when re-added; the key set gains `k`; every other key keeps its payload and successors; a closed store stays closed |
| AdjVec.AdjacencyVecGraph.Connect | src/adj_vec.rs:28-36 | a self-loop, or a source that is not registered, changes nothing. Otherwise `to` joins the successors of `from` and nothing else changes. Repeating the call changes nothing. Keys and payloads never change, and `to` need not be registered |
| AdjVec.AdjacencyVecGraph.Get | src/adj_vec.rs:38-40 | `None` exactly when the key is not registered; otherwise the key's payload |
| AdjVec.AdjacencyVecGraph.GetMut | src/adj_vec.rs:42-44 | a write through `get_mut` happens exactly when the key is registered, and changes only that key's payload |
| AdjVec.AdjacencyVecGraph.Index | src/adj_vec.rs:106-108 | `graph[k]` requires `k` registered (the source panics with "Node not found" otherwise) and agrees with `get` |
| AdjVec.AdjacencyVecGraph.IndexMut | src/adj_vec.rs:115-117 | `graph[k] = v` requires `k` registered and replaces only its payload |
| AdjVec.AdjacencyVecGraph.Keys | src/adj_vec.rs:57-59 | every registered key, each exactly once |
| AdjVec.AdjacencyVecGraph.Adjacents | src/adj_vec.rs:53-55 | requires `k` registered; yields exactly the successor set of `k`, each element once |
| AdjVec.Enumerate | src/adj_vec.rs:53-59 | enumerating a hash set or a map's keys yields each element exactly once |
| AdjVec.AdjacencyVecGraph.AsReferenceGraph | src/adj_vec.rs:47-60 | the store seen through the capability: well formed, answering for exactly the registered keys with exactly their successor sets; the capability is closed exactly when every stored successor is registered |
| Frontier.Unvisited | src/traversal/dfs.rs:48-52 | the keys pushed are exactly the successors not in `visited` at push time |
| Frontier.PushUnvisited | src/traversal/dfs.rs:48-52 | the push loop appends exactly `Unvisited(adj, visited)`, in enumeration order |
| Dfs.PushUnvisitedEntries | src/traversal/dfs.rs:111-115 | the post-order push loop appends each successor not visited as a Discovered entry, in enumeration order |
| DfsModel.PreNext | src/traversal/dfs.rs:43-55 | on an empty stack, `None` and no change. Otherwise it returns the top of the stack, and that key is added to `visited` |
| DfsModel.PreInitial | src/traversal/dfs.rs:19-33 | the state built by `new`/`with_visited` satisfies the pre-order invariant: root alone on the stack, whatever was preseeded |
| DfsModel.PreNextPreserves | src/traversal/dfs.rs:43-55 | `next` keeps the invariant. `visited` is the preseeded keys plus the emitted ones. The root is emitted first, even when preseeded. Every pushed or emitted key is reachable from the root. Every successor of an emitted key is visited or on the stack |
| DfsModel.PreNextDecreases | src/traversal/dfs.rs:43-55 | each emitting step lowers the lexicographic measure (keys not visited, then stack entries already visited), so pre-order ends on cyclic graphs too |
| DfsModel.PreComplete | src/traversal/dfs.rs:43-55 | once the stack is empty: the root was emitted first, and every key reachable from the root along a path avoiding the preseeded keys other than the root was emitted (a preseeded root is still expanded) |
| DfsModel.AsDiscovered | src/traversal/dfs.rs:113 | the pushed keys become Discovered entries, one per key, in order |
| DfsModel.Discover | src/traversal/dfs.rs:106-115 | a Discovered pop adds its key to `visited`, and every entry left on the stack is registered |
| DfsModel.DiscoverShape | src/traversal/dfs.rs:105-117 | a Discovered pop leaves the entries below untouched. The key comes back as Finished in the slot it was popped from. Above it are exactly the key's successors not yet visited, each Discovered. Nothing is emitted |
| DfsModel.DiscoverDecreases | src/traversal/dfs.rs:105-117 | each Discovered pop lowers the measure (keys not visited, then weight 2 per visited Discovered entry and 1 per Finished entry), so the re-entry of `next` ends |
| DfsModel.PostNext | src/traversal/dfs.rs:102-121 | on an empty stack, `None` and no change. Otherwise Discovered entries are expanded until a Finished entry is popped. `visited` only grows |
| DfsModel.Finish | src/traversal/dfs.rs:119 | a Finished pop removes one entry and leaves `visited` alone |
| DfsModel.PostInitial | src/traversal/dfs.rs:78-92 | the state built by `new`/`with_visited` satisfies the post-order invariant |
| DfsModel.PostNextPreserves | src/traversal/dfs.rs:102-121 | `next` keeps the post-order invariant, listed below this table |
| DfsModel.PostNextDecreases | src/traversal/dfs.rs:102-121 | each emitting call lowers the measure, so post-order ends on cyclic graphs too |
| DfsModel.PostComplete | src/traversal/dfs.rs:103-119 | once the stack is empty: the root was emitted last, and every key reachable from the root avoiding the preseeded keys other than the root was emitted (a preseeded root is still expanded) |
| DfsModel.PostRun | src/traversal/dfs.rs:102-121 | calling `next` until `None`: the keys returned in order and the final `visited`. The run is empty exactly when the stack is, and `visited` only grows |
| DfsModel.PostNextAbove | src/traversal/dfs.rs:102-121 | while the upper part of the stack is not empty, `next` works on it alone and leaves the entries below it untouched |
| DfsModel.PostRunAbove | src/traversal/dfs.rs:102-121 | a run from a stack `base + top` is the run from `top` alone, followed by the run from `base` with the visited set `top`'s run ended with |
| DfsModel.PostRunDiscover | src/traversal/dfs.rs:105-117 | a Discovered pop emits nothing: the run before it equals the run after it |
| DfsModel.PostRunFinishedAbove | src/traversal/dfs.rs:119 | a Finished `x` on top: the run emits `x` first, then runs on the entries below |
| DfsModel.PostRunEmitsAll | src/traversal/dfs.rs:102-121 | a run emits the key of every entry on the stack it starts from |
| DfsModel.PostExpansion | src/traversal/dfs.rs:105-119 | on any graph, cyclic or not: when the top entry is a Discovered `x`, the run is a stretch holding every successor of `x` that is not yet visited, then `x`, then the run on the entries below; so every key is finished after the successors its expansion pushes |
| Dfs.PreOrderDFS.Pop | src/traversal/dfs.rs:44-52 | the pop and push loop in place compute `PreNext` |
| Dfs.PreOrderDFS.New | src/traversal/dfs.rs:19-25 | nothing visited, only the root on the stack; the invariant holds |
| Dfs.PreOrderDFS.WithVisited | src/traversal/dfs.rs:27-33 | the given keys start visited, only the root on the stack; the invariant holds |
| Dfs.PreOrderDFS.Next | src/traversal/dfs.rs:43-55 | the method's result and new state are exactly `PreNext` of the old state; the invariant is kept; each emission lowers the measure |
| Dfs.PostOrderDFS.New | src/traversal/dfs.rs:78-84 | nothing visited, only `(root, Discovered)` on the stack; the invariant holds |
| Dfs.PostOrderDFS.WithVisited | src/traversal/dfs.rs:86-92 | the given keys start visited, only `(root, Discovered)` on the stack; the invariant holds |
| Dfs.PostOrderDFS.Next | src/traversal/dfs.rs:102-121 | the method's result and new state are exactly `PostNext` of the old state; the invariant is kept; each emission lowers the measure |
| Dfs.PostOrderDFS.Advance | src/traversal/dfs.rs:102-121 | the loop that replaces the recursive call at line 117 computes `PostNext` |
| Dfs.PostOrderDFS.Expand | src/traversal/dfs.rs:106-116 | one Discovered pop in place: the new state is `Discover` of the old one |
| BfsModel.BfsNext | src/traversal/bfs.rs:46-58 | on an empty queue, `None` and no change. Otherwise it returns the front key and adds it to `visited`; the rest of the queue keeps its order ahead of the keys appended |
| BfsModel.NextLevels | src/traversal/bfs.rs:51-55 | keys still queued keep their ghost level; each newly queued key gets one more than the dequeued key |
| BfsModel.BfsInitial | src/traversal/bfs.rs:22-36 | the state built by `new`/`with_visited` satisfies the BFS invariant: root alone in the queue at level 0 |
| BfsModel.BfsNextPreserves | src/traversal/bfs.rs:46-58 | `next` keeps the BFS invariant, listed below this table |
| BfsModel.BfsOrderPreserves | src/traversal/bfs.rs:47-53 | FIFO layering: emitted depths never decrease, queued levels never decrease and span at most two values, and no queued level is below an emitted depth |
| BfsModel.BfsNextDecreases | src/traversal/bfs.rs:46-58 | each emitting step lowers the measure, so BFS ends on cyclic graphs too |
| BfsModel.BfsComplete | src/traversal/bfs.rs:46-58 | once the queue is empty, for every walk from the root whose other keys are not preseeded, its last key was emitted at a depth no greater than the walk's length |
| BfsModel.BfsShortest | src/traversal/bfs.rs:46-58 | once the queue is empty, the depth of a key's first emission is the length of a walk from the root and at most the length of every walk that avoids the preseeded keys |
| Bfs.BFS.New | src/traversal/bfs.rs:22-28 | nothing visited, only the root queued; the invariant holds |
| Bfs.BFS.WithVisited | src/traversal/bfs.rs:30-36 | the given keys start visited, only the root queued; the invariant holds |
| Bfs.BFS.Next | src/traversal/bfs.rs:46-58 | the method's result and new state are exactly `BfsNext` of the old state; the emitted key gets the level it was queued at; the invariant is kept; each emission lowers the measure |
| Bfs.BFS.Pop | src/traversal/bfs.rs:47-55 | the dequeue and push loop in place compute `BfsNext` |
| Topsort.FindUnvisited | src/topsort.rs:20 | `None` exactly when every key is visited. Otherwise the result is an unvisited key, and every key before it in enumeration order is visited |
| Topsort.Drain | src/topsort.rs:22-25 | the inner `for`: runs the traversal to exhaustion; its emissions are exactly the whole post-order run (`DfsModel.PostRun`) from the traversal's starting state; it pushes exactly them, in order, and `visited` gains exactly them |
| Topsort.Round | src/topsort.rs:22-25 | a round's emissions are exactly the post-order run from `(root, Discovered)` with `visited` preseeded. They end with its root and are reachable from it. Apart from the root, none was visited before. They include every key reachable from the root avoiding `visited`. On an acyclic graph, every emitted key's successors were visited before or were emitted earlier in the round |
| Topsort.PushedAfterSuccessorsAppend | src/topsort.rs:22-25 | appending such a round keeps "every key is first pushed after its successors" |
| Topsort.RoundStep | src/topsort.rs:20-25 | one iteration of the outer loop keeps the loop invariant and visits its root, which was unvisited, so the unvisited keys shrink and the loop ends |
| Topsort.FirstRound | src/topsort.rs:20-25 | the first round starts at the first key of the enumeration and is the whole post-order run from it with nothing visited |
| Topsort.SecondRound | src/topsort.rs:20 | a second round runs only when the first left a key of the enumeration unvisited |
| Topsort.FinishOrder | src/topsort.rs:16-26 | the stack is the rounds' emissions concatenated in order, and each round is the whole post-order run from its root with the earlier rounds' keys visited. Each round starts at the first unvisited key and emits only new keys reachable from its root. Every key of the graph is on the stack; an empty graph gives an empty stack. On an acyclic graph, every key is first pushed after all its successors |
| Topsort.ReversedFinishOrder | src/topsort.rs:41-43 | popping such a stack yields, for each edge u→v, the last `u` before the last `v` |
| Topsort.TopSort.New | src/topsort.rs:16-32 | the iterator starts with the finish stack: the concatenated post-order runs of `FinishOrder`'s rounds. It holds every key and, on an acyclic graph, has every key after its successors |
| Topsort.TopSort.Next | src/topsort.rs:41-43 | pops the top of the stack, or gives `None` and changes nothing once it is empty; what was yielded plus the reversed stack is always the reversed finish order |
| Topsort.DrainedYieldsReverse | src/topsort.rs:41-43 | once the stack is empty, the iterator has yielded exactly the reversed finish order |
| ReferenceGraph.PreOrderDfs | src/graph.rs:14-20 | `pre_order_dfs(root)` is a fresh `PreOrderDFS::new(self, root)`: nothing visited, stack `[root]` |
| ReferenceGraph.PostOrderDfs | src/graph.rs:21-27 | `post_order_dfs(root)` is a fresh `PostOrderDFS::new`: nothing visited, stack `[(root, Discovered)]` |
| ReferenceGraph.BreadthFirst | src/graph.rs:28-34 | `bfs(root)` is a fresh `BFS::new`: nothing visited, queue `[root]` |
| ReferenceGraph.TopologicalSort | src/graph.rs:35-41 | `top_sort()` is a fresh `TopSort::new` whose stack is the concatenated post-order runs of its rounds, holds every key, and on an acyclic graph has every key after its successors |
| BoolMatrix.TrueIndices | src/bool_matrix.rs:7-15 | the indices of a row that hold `true`, exactly, strictly increasing, all below the row length |
| BoolMatrix.Adjacents | src/bool_matrix.rs:6-16 | requires `n < SIZE`; yields exactly the `j` with `m[n][j]`, strictly increasing and without duplicates |
| BoolMatrix.Iter | src/bool_matrix.rs:18-20 | `0..SIZE`: each index below `SIZE` exactly once, ascending |
| BoolMatrix.ToCapability | src/bool_matrix.rs:3-21 | the matrix through the capability: well formed and closed, its keys `0..SIZE` and its successor lists `adjacents(n)` |
| BoolMatrix.EdgeIsEntry | src/bool_matrix.rs:6-15 | an edge a→b exists exactly when `a, b < SIZE` and `m[a][b]` |
| BoolMatrix.DiagonalSelfLoop | src/bool_matrix.rs:7-15 | a `true` diagonal entry is a self-loop, so such a matrix is not acyclic (unlike the store, whose `connect` drops self-loops) |
| Scenarios.DemoStore | examples/example.rs:9-23 | the demo's store holds exactly 12 ↦ ("A", {46}) and 46 ↦ ("B", {}), and 46 has no successors |
| Scenarios.DemoRun | examples/example.rs:26-29 | pre-order from 46 yields exactly `[46]`, whose name is "B", and the second call of `next` returns `None` |
| Scenarios.DiamondAdjacents | src/bool_matrix.rs:6-15 | the matrix for 0→1, 0→2, 2→1 lists successors `[1, 2]`, `[]`, `[1]` |
| Scenarios.MatrixKeys | src/bool_matrix.rs:18-20 | that matrix enumerates its keys as `[0, 1, 2]` |
| Scenarios.MatrixIsDiamond | src/bool_matrix.rs:3-21 | through the capability, that matrix is closed, registers 0, 1 and 2, and lists successors `[1, 2]`, `[]`, `[1]` |
| Scenarios.PreRun | src/traversal/dfs.rs:43-55 | on any capability where `a` pushes `b, c`, then `c` pushes `b` again, pre-order from `a` yields `a, c, b, b`, then `None` |
| Scenarios.PreOrderDuplicates | src/traversal/dfs.rs:43-55 | pre-order from 0 yields 0, 2, 1, 1, then `None`: key 1 twice |
| Scenarios.PreOrderDuplicatesRun | src/traversal/dfs.rs:43-55 | the same run through the iterator object, on any capability presenting the diamond: `next` returns 0, 2, 1, 1 and then `None` |
| Scenarios.MatrixPreOrderRun | src/bool_matrix.rs:3-21 | that run over the matrix backend |
| Scenarios.PostOrderDuplicates | src/traversal/dfs.rs:102-121 | post-order from 0 yields 1, 2, 1, 0, then `None` |
| Scenarios.PostRunFrom | src/traversal/dfs.rs:102-121 | on any capability where `a` pushes `b, c`, then `c` pushes `b` again, the whole post-order run from `a` is `b, c, b, a` |
| Scenarios.OneRound | src/topsort.rs:20-25 | when the enumeration is `a, b, c` there, `TopSort::new` runs one round, from `a`, which emits `b, c, b, a` |
| Scenarios.TopSortRun | src/topsort.rs:16-43 | the topological sort over the diamond, through the iterator object: `next` returns 0, 1, 2, 1 and then `None`; the first 1 comes before 2 despite the edge 2→1, while the last copies are in edge order |
| Scenarios.MatrixTopSortRun | src/bool_matrix.rs:3-21 | that topological sort over the matrix backend |
| Scenarios.BfsPushesRun | src/traversal/bfs.rs:46-58 | on any capability where `a` queues `b, c`, then `b` and `c` each queue `d`, BFS from `a` returns `a, b, c, d, d` and then `None`: `d` twice |
| Scenarios.BfsDuplicatesRun | src/traversal/bfs.rs:46-58 | BFS from 0 over 0→1, 0→2, 1→3, 2→3, through the iterator object, returns 0, 1, 2, 3, 3 and then `None` |
| Scenarios.MatrixIsTwoPaths | src/bool_matrix.rs:3-21 | through the capability, the 4 by 4 matrix for 0→1, 0→2, 1→3, 2→3 is closed, registers 0 to 3 and lists successors `[1, 2]`, `[3]`, `[3]`, `[]` |
| Scenarios.MatrixBfsRun | src/bool_matrix.rs:3-21 | that BFS run over the matrix backend |

The post-order invariant, kept by `DfsModel.PostNextPreserves`:

- Every entry and every emitted key is registered and reachable from the root.
- The root's entry is at the bottom of the stack, so the root is emitted last.
- Finished entries and emitted keys are visited.
- Apart from the root, no preseeded key is ever pushed or emitted.
- Every non-preseeded visited key is emitted or waits as Finished.
- Every successor of such a key is visited or waits as Discovered.
- Everything above a Finished entry is reachable from its key by one or more
  edges.
- On an acyclic graph, every emitted key's successors were first emitted
  before it, or are preseeded.

The BFS invariant, kept by `BfsModel.BfsNextPreserves`:

- `visited` is the preseeded keys plus the emitted ones.
- The root comes out first, at depth 0.
- Every queued level and emitted depth is the length of a walk from the root.
- The layering facts of `BfsOrderPreserves` hold.
- Every successor that is not preseeded of a key emitted at depth `d` is
  emitted at depth at most `d + 1`, or queued at level at most `d + 1`.

## Left out

- The `Debug` impl (src/adj_vec.rs:62-87) is not modelled: it only formats
  output.
- The demo's `println!` output is not modelled: `Scenarios.DemoRun` returns
  the keys and names the demo prints.
- `CopyGraph` (src/graph.rs:44-75) is not modelled: every method is
  `todo!()`.
- `node_info` (src/traits.rs:159) is not modelled: it is a declaration
  without an implementation.
- src/lib.rs and src/traversal/mod.rs are not modelled: they only declare
  modules and re-export.
- Lifetimes, `&'a` borrows and `PhantomData` are not modelled. Keys are
  values. Each traversal holds an immutable snapshot of the capability,
  which matches the shared borrow it holds for its lifetime.
- AdjVec.AdjacencyVecGraph.Keys: the order in which a hash map or hash set
  enumerates is nondeterministic, so the contract gives no order. It states
  only that each element appears exactly once. The same holds for
  `AdjVec.AdjacencyVecGraph.Adjacents` and `AdjVec.Enumerate`.
- AdjVec.AdjacencyVecGraph.GetMut: the `&mut` reference that `get_mut`
  returns is modelled as the single write made through it.
- AdjVec.AdjacencyVecGraph.Index: a missing key is a precondition, not the
  panic "Node not found". The same holds for `IndexMut`, for `Adjacents` on
  an unregistered key, and for `BoolMatrix.Adjacents` with `n >= SIZE` (an
  out-of-bounds index panics).
- Dfs.PreOrderDFS.New: the traversals require a registered root and a closed
  capability. The source would panic at the first `adjacents` call on an
  unregistered key. The same holds for the other constructors and for
  `ReferenceGraph`'s methods.
- Exactly-once emission, and topological order by first occurrence, are not
  proved: the code does not guarantee either (see the scenarios).
- Topsort.Round: the source inserts each key into the outer `visited` while
  it iterates. The traversal works on its own clone of `visited`, so
  draining the traversal first and then taking its emissions gives the
  same result.
- Keys of the demo are `u8` and the matrix size is a `usize`; they are
  unbounded integers here, because no arithmetic is done on them.
- The ghost fields of the iterator classes (`root`, `preseeded`, `emitted`,
  and BFS levels and depths) only carry the proofs. The source keeps no such
  state.
