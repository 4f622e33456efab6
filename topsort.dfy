/**
 * The topological sort: `TopSort::new` runs one post-order traversal per
 * round, each from the first key of the enumeration not yet visited and
 * seeded with a copy of the keys visited so far, and pushes every key the
 * round emits; the iterator then pops that stack. On an acyclic graph the
 * finish order puts every key after all its successors, so popping yields,
 * for each edge u→v, the last u before the last v.
 */
module Topsort {
  import opened Wrappers
  import opened Seqs
  import opened Capability
  import opened Frontier
  import opened DfsModel
  import opened Dfs

  function Elems<K>(s: seq<K>): set<K> {
    set x | x in s
  }

  /** The rounds' emissions one after the other. */
  function Flatten<K>(rounds: seq<seq<K>>): seq<K> {
    if rounds == [] then [] else Flatten(rounds[..|rounds| - 1]) + rounds[|rounds| - 1]
  }

  lemma FlattenSnoc<K>(rounds: seq<seq<K>>, e: seq<K>)
    ensures Flatten(rounds + [e]) == Flatten(rounds) + e
  {
    assert (rounds + [e])[..|rounds|] == rounds;
  }

  /** `iter().find(|id| !visited.contains(id))`: the first key of the enumeration not visited. */
  function FindUnvisited<K(!new)>(keys: seq<K>, visited: set<K>): (r: Option<K>)
    ensures r.None? <==> forall k :: k in keys ==> k in visited
    ensures r.Some? ==> r.value in keys && r.value !in visited
    ensures r.Some? ==> forall i :: 0 <= i < IndexOf(keys, r.value) ==> keys[i] in visited
  {
    if keys == [] then None
    else if keys[0] !in visited then Some(keys[0])
    else
      var r := FindUnvisited(keys[1..], visited);
      assert r.Some? ==> keys[0] != r.value && IndexOf(keys, r.value) == 1 + IndexOf(keys[1..], r.value);
      assert forall k :: k in keys ==> k == keys[0] || k in keys[1..];
      r
  }

  /**
   * One round, the inner `for` of `TopSort::new`: a post-order traversal from
   * `root` over a copy of `visited`, each emitted key inserted into `visited`
   * and pushed on `stack`. The round's emissions `e` are exactly what that
   * traversal's `next` returns until `None`; they end with the root, are
   * reachable from it, are new apart from the root, include every key reached
   * from the root avoiding the rest of `visited`, and on an acyclic graph
   * follow every key's successors.
   */
  method Round<K(==,!new)>(g: Graph<K>, root: K, visited: set<K>, stack: seq<K>)
    returns (visited': set<K>, stack': seq<K>, ghost e: seq<K>)
    requires g.Wf() && g.Closed() && root in g.adjacency
    ensures stack' == stack + e && visited' == visited + Elems(e)
    ensures EntriesRegistered(g, [Entry(root, Discovered)])
    ensures e == PostRun(g, PostState(visited, [Entry(root, Discovered)])).0
    ensures e != [] && e[|e| - 1] == root
    ensures Registered(g, e)
    ensures forall x :: x in e ==> Reachable(g, root, x)
    ensures forall x :: x in e && x in visited ==> x == root
    ensures forall b :: ReachableAvoiding(g, visited - {root}, root, b) ==> b in e
    ensures Acyclic(g) ==> forall u, v :: u in e && g.Edge(u, v) ==>
              v in visited || (v in e && IndexOf(e, v) < IndexOf(e, u))
  {
    var dfs := new PostOrderDFS.WithVisited(g, root, visited);
    visited', stack' := Drain(dfs, visited, stack);
    e := dfs.emitted;
    PostComplete(g, visited, root, dfs.State(), e, root);
    forall b | ReachableAvoiding(g, visited - {root}, root, b) ensures b in e {
      PostComplete(g, visited, root, dfs.State(), e, b);
    }
  }

  /** The `for id in ...` loop: each key the traversal emits is inserted into `visited` and pushed on `stack`. */
  method Drain<K(==,!new)>(dfs: PostOrderDFS<K>, visited: set<K>, stack: seq<K>) returns (visited': set<K>, stack': seq<K>)
    requires dfs.Valid() && dfs.emitted == []
    modifies dfs
    ensures dfs.Valid() && dfs.stack == []
    ensures dfs.emitted == PostRun(dfs.graph, old(dfs.State())).0
    ensures stack' == stack + dfs.emitted
    ensures forall x :: x in visited' <==> x in visited || x in dfs.emitted
  {
    ghost var s0 := dfs.State();
    visited', stack' := visited, stack;
    while true
      invariant dfs.Valid()
      invariant dfs.emitted + PostRun(dfs.graph, dfs.State()).0 == PostRun(dfs.graph, s0).0
      invariant stack' == stack + dfs.emitted
      invariant forall x :: x in visited' <==> x in visited || x in dfs.emitted
      decreases PostMeasure(dfs.graph, dfs.State()).0, PostMeasure(dfs.graph, dfs.State()).1
    {
      ghost var e0, s1 := dfs.emitted, dfs.State();
      var r := dfs.Next();
      if r.None? {
        assert PostRun(dfs.graph, dfs.State()).0 == [];
        break;
      }
      PostRunUnfold(dfs.graph, s1);
      SeqAssoc(e0, [r.value], PostRun(dfs.graph, dfs.State()).0);
      SnocAssoc(stack, e0, r.value);
      visited' := visited' + {r.value};
      stack' := stack' + [r.value];
    }
  }

  /** Whenever `u` is followed by `v`, `v` was pushed first. */
  ghost predicate PushedAfterSuccessors<K(!new)>(g: Graph<K>, stack: seq<K>) {
    forall u, v :: u in stack && g.Edge(u, v) ==> v in stack && IndexOf(stack, v) < IndexOf(stack, u)
  }

  /** Appending a round that only follows keys already pushed or its own earlier emissions keeps the order. */
  lemma PushedAfterSuccessorsAppend<K(!new)>(g: Graph<K>, stack: seq<K>, e: seq<K>)
    requires PushedAfterSuccessors(g, stack)
    requires forall x :: x in e ==> x !in stack
    requires forall u, v :: u in e && g.Edge(u, v) ==> v in stack || (v in e && IndexOf(e, v) < IndexOf(e, u))
    ensures PushedAfterSuccessors(g, stack + e)
  {
    forall u, v | u in stack + e && g.Edge(u, v)
      ensures v in stack + e && IndexOf(stack + e, v) < IndexOf(stack + e, u)
    {
      if u in stack {
        IndexOfAppend(stack, e, u);
        IndexOfAppend(stack, e, v);
      } else {
        IndexOfAppendNew(stack, e, u);
        if v in stack {
          IndexOfAppend(stack, e, v);
        } else {
          IndexOfAppendNew(stack, e, v);
        }
      }
    }
  }

  /**
   * One round after the keys `before`: it starts at the first key of the
   * enumeration not among them, emits exactly what a post-order traversal
   * from it, seeded with them, emits, ends with it, and emits only keys it
   * reaches that are not among them.
   */
  ghost predicate RoundOk<K(!new)>(g: Graph<K>, before: seq<K>, e: seq<K>, root: K) {
    && FindUnvisited(g.keys, Elems(before)) == Some(root)
    && g.Closed() && EntriesRegistered(g, [Entry(root, Discovered)])
    && e == PostRun(g, PostState(Elems(before), [Entry(root, Discovered)])).0
    && e != [] && e[|e| - 1] == root
    && (forall x :: x in e ==> x !in before && Reachable(g, root, x))
  }

  /** Every round, given the rounds before it, is `RoundOk`. */
  ghost predicate RoundsWf<K(!new)>(g: Graph<K>, rounds: seq<seq<K>>, roots: seq<K>) {
    && |roots| == |rounds|
    && forall k :: 0 <= k < |rounds| ==> RoundOk(g, Flatten(rounds[..k]), rounds[k], roots[k])
  }

  /** The first round starts from the first key of the enumeration, with nothing visited. */
  lemma FirstRound<K(!new)>(g: Graph<K>, rounds: seq<seq<K>>, roots: seq<K>)
    requires RoundsWf(g, rounds, roots) && rounds != []
    ensures g.keys != [] && roots[0] == g.keys[0] && g.Closed()
    ensures EntriesRegistered(g, [Entry(g.keys[0], Discovered)])
    ensures rounds[0] == PostRun(g, PostState({}, [Entry(g.keys[0], Discovered)])).0
  {
    assert RoundOk(g, Flatten(rounds[..0]), rounds[0], roots[0]);
    assert rounds[..0] == [];
    assert Elems(Flatten(rounds[..0])) == {};
  }

  /** A second round runs only when the first left some key of the enumeration unvisited. */
  lemma SecondRound<K(!new)>(g: Graph<K>, rounds: seq<seq<K>>, roots: seq<K>)
    requires RoundsWf(g, rounds, roots)
    ensures |rounds| > 1 ==> FindUnvisited(g.keys, Elems(rounds[0])).Some?
  {
    if |rounds| > 1 {
      assert RoundOk(g, Flatten(rounds[..1]), rounds[1], roots[1]);
      assert rounds[..1][..0] == [];
      assert Flatten(rounds[..1]) == Flatten([]) + rounds[0];
    }
  }

  lemma RoundsWfSnoc<K(!new)>(g: Graph<K>, rounds: seq<seq<K>>, roots: seq<K>, e: seq<K>, root: K)
    requires RoundsWf(g, rounds, roots) && RoundOk(g, Flatten(rounds), e, root)
    ensures RoundsWf(g, rounds + [e], roots + [root])
  {
    forall k | 0 <= k < |rounds| + 1
      ensures RoundOk(g, Flatten((rounds + [e])[..k]), (rounds + [e])[k], (roots + [root])[k])
    {
      RoundOkSnoc(g, rounds, roots, e, root, k);
    }
  }

  lemma RoundOkSnoc<K(!new)>(g: Graph<K>, rounds: seq<seq<K>>, roots: seq<K>, e: seq<K>, root: K, k: nat)
    requires RoundsWf(g, rounds, roots) && RoundOk(g, Flatten(rounds), e, root) && k <= |rounds|
    ensures RoundOk(g, Flatten((rounds + [e])[..k]), (rounds + [e])[k], (roots + [root])[k])
  {
    if k < |rounds| {
      RoundOkEarlier(g, rounds, roots, e, root, k);
    } else {
      assert (rounds + [e])[..k] == rounds;
      assert (rounds + [e])[k] == e && (roots + [root])[k] == root;
    }
  }

  /** An earlier round is unaffected by appending a later one. */
  lemma RoundOkEarlier<K(!new)>(g: Graph<K>, rounds: seq<seq<K>>, roots: seq<K>, e: seq<K>, root: K, k: nat)
    requires RoundsWf(g, rounds, roots) && k < |rounds|
    ensures RoundOk(g, Flatten((rounds + [e])[..k]), (rounds + [e])[k], (roots + [root])[k])
  {
    assert (rounds + [e])[..k] == rounds[..k];
    assert (rounds + [e])[k] == rounds[k] && (roots + [root])[k] == roots[k];
    assert RoundOk(g, Flatten(rounds[..k]), rounds[k], roots[k]);
  }

  /** What the loop of `TopSort::new` keeps: `visited` is what was pushed, round by round. */
  ghost predicate OrderInv<K(!new)>(g: Graph<K>, visited: set<K>, stack: seq<K>, rounds: seq<seq<K>>, roots: seq<K>) {
    && visited == Elems(stack)
    && stack == Flatten(rounds)
    && RoundsWf(g, rounds, roots)
    && Registered(g, stack)
    && (Acyclic(g) ==> PushedAfterSuccessors(g, stack))
  }

  /** One round keeps `OrderInv` and visits its root, which was not visited. */
  lemma RoundStep<K(!new)>(g: Graph<K>, visited: set<K>, stack: seq<K>, rounds: seq<seq<K>>, roots: seq<K>,
                           root: K, visited': set<K>, stack': seq<K>, e: seq<K>)
    requires g.Wf()
    requires OrderInv(g, visited, stack, rounds, roots) && FindUnvisited(g.keys, visited) == Some(root)
    requires stack' == stack + e && visited' == visited + Elems(e)
    requires g.Closed() && EntriesRegistered(g, [Entry(root, Discovered)])
    requires e == PostRun(g, PostState(visited, [Entry(root, Discovered)])).0
    requires e != [] && e[|e| - 1] == root
    requires Registered(g, e)
    requires forall x :: x in e ==> Reachable(g, root, x)
    requires forall x :: x in e && x in visited ==> x == root
    requires Acyclic(g) ==> forall u, v :: u in e && g.Edge(u, v) ==>
               v in visited || (v in e && IndexOf(e, v) < IndexOf(e, u))
    ensures OrderInv(g, visited', stack', rounds + [e], roots + [root])
    ensures root in visited' && root !in visited
    ensures g.adjacency.Keys - visited' < g.adjacency.Keys - visited
  {
    assert e[|e| - 1] in e;
    RoundIsOk(g, visited, stack, rounds, roots, root, e);
    RoundsWfSnoc(g, rounds, roots, e, root);
    FlattenSnoc(rounds, e);
    RoundKeepsOrder(g, visited, stack, e);
    ElemsAppend(stack, e);
    assert root in g.adjacency.Keys - visited;
  }

  /** The round found by `FindUnvisited` after the rounds so far is `RoundOk`. */
  lemma RoundIsOk<K(!new)>(g: Graph<K>, visited: set<K>, stack: seq<K>, rounds: seq<seq<K>>, roots: seq<K>,
                           root: K, e: seq<K>)
    requires visited == Elems(stack) && stack == Flatten(rounds) && FindUnvisited(g.keys, visited) == Some(root)
    requires g.Closed() && EntriesRegistered(g, [Entry(root, Discovered)])
    requires e == PostRun(g, PostState(visited, [Entry(root, Discovered)])).0
    requires e != [] && e[|e| - 1] == root
    requires forall x :: x in e ==> Reachable(g, root, x)
    requires forall x :: x in e && x in visited ==> x == root
    ensures RoundOk(g, Flatten(rounds), e, root)
  {
  }

  /** Appending a round keeps the registered, successors-first order of the stack. */
  lemma RoundKeepsOrder<K(!new)>(g: Graph<K>, visited: set<K>, stack: seq<K>, e: seq<K>)
    requires visited == Elems(stack) && Registered(g, stack) && Registered(g, e)
    requires Acyclic(g) ==> PushedAfterSuccessors(g, stack)
    requires e != [] && e[|e| - 1] !in visited
    requires forall x :: x in e && x in visited ==> x == e[|e| - 1]
    requires Acyclic(g) ==> forall u, v :: u in e && g.Edge(u, v) ==>
               v in visited || (v in e && IndexOf(e, v) < IndexOf(e, u))
    ensures Registered(g, stack + e)
    ensures Acyclic(g) ==> PushedAfterSuccessors(g, stack + e)
  {
    if Acyclic(g) {
      PushedAfterSuccessorsAppend(g, stack, e);
    }
  }

  lemma ElemsAppend<K>(a: seq<K>, b: seq<K>)
    ensures Elems(a + b) == Elems(a) + Elems(b)
  {
  }

  /** One round of the loop of `TopSort::new`, with what it does to `OrderInv`. */
  method RoundKeepingOrder<K(==,!new)>(g: Graph<K>, visited: set<K>, stack: seq<K>, ghost rounds: seq<seq<K>>,
                                       ghost roots: seq<K>, root: K)
    returns (visited': set<K>, stack': seq<K>, ghost e: seq<K>)
    requires g.Wf() && g.Closed()
    requires OrderInv(g, visited, stack, rounds, roots) && FindUnvisited(g.keys, visited) == Some(root)
    ensures OrderInv(g, visited', stack', rounds + [e], roots + [root])
    ensures g.adjacency.Keys - visited' < g.adjacency.Keys - visited
  {
    visited', stack', e := Round(g, root, visited, stack);
    RoundStep(g, visited, stack, rounds, roots, root, visited', stack', e);
  }

  /**
   * The loop of `TopSort::new`: the pushed stack is the rounds' emissions in
   * order, each round the whole post-order traversal from the first key not
   * yet pushed; every key of the graph is on it; and on an acyclic graph
   * every key's successors were pushed before it.
   */
  method FinishOrder<K(==,!new)>(g: Graph<K>) returns (stack: seq<K>, ghost rounds: seq<seq<K>>, ghost roots: seq<K>)
    requires g.Wf() && g.Closed()
    ensures stack == Flatten(rounds)
    ensures RoundsWf(g, rounds, roots)
    ensures forall k :: k in g.adjacency ==> k in stack
    ensures Registered(g, stack)
    ensures g.keys == [] ==> stack == []
    ensures Acyclic(g) ==> PushedAfterSuccessors(g, stack)
  {
    stack, rounds, roots := [], [], [];
    var visited: set<K> := {};
    var next := FindUnvisited(g.keys, visited);
    while next.Some?
      invariant OrderInv(g, visited, stack, rounds, roots) && next == FindUnvisited(g.keys, visited)
      decreases g.adjacency.Keys - visited
    {
      var root := next.value;
      var visited', stack', e := RoundKeepingOrder(g, visited, stack, rounds, roots, root);
      rounds, roots := rounds + [e], roots + [root];
      visited, stack := visited', stack';
      next := FindUnvisited(g.keys, visited);
    }
  }

  /**
   * Popping the finish order yields it back to front, so on an acyclic graph
   * the last `u` of the output comes before the last `v` for every edge u→v.
   */
  lemma ReversedFinishOrder<K(!new)>(g: Graph<K>, stack: seq<K>, u: K, v: K)
    requires PushedAfterSuccessors(g, stack) && u in stack && g.Edge(u, v)
    ensures u in Reverse(stack) && v in Reverse(stack)
    ensures LastIndexOf(Reverse(stack), u) < LastIndexOf(Reverse(stack), v)
  {
    LastIndexOfReverse(stack, u);
    LastIndexOfReverse(stack, v);
  }

  /** The iterator: the finish-order stack, popped from the top. */
  class TopSort<K(==,!new)> {
    var stack: seq<K>
    ghost const order: seq<K>
    ghost const rounds: seq<seq<K>>
    ghost const roots: seq<K>
    ghost var yielded: seq<K>

    /** What the iterator has yielded and what it will yield make up the reversed finish order. */
    ghost predicate Valid()
      reads this
    {
      yielded + Reverse(stack) == Reverse(order)
    }

    /** `TopSort::new`: every round run at construction. */
    constructor New(g: Graph<K>)
      requires g.Wf() && g.Closed()
      ensures Valid() && yielded == [] && stack == order
      ensures order == Flatten(rounds) && RoundsWf(g, rounds, roots)
      ensures forall k :: k in g.adjacency ==> k in order
      ensures Registered(g, order)
      ensures Acyclic(g) ==> PushedAfterSuccessors(g, order)
    {
      var st, rs, ks := FinishOrder(g);
      stack := st;
      order := st;
      rounds, roots := rs, ks;
      yielded := [];
    }

    /** `Iterator::next`: pop the top of the stack; `None`, changing nothing, once it is empty. */
    method Next() returns (r: Option<K>)
      requires Valid()
      modifies this
      ensures Valid()
      ensures r.None? <==> old(stack) == []
      ensures r.None? ==> stack == old(stack) && yielded == old(yielded)
      ensures r.Some? ==> r.value == old(stack)[|old(stack)| - 1] && stack == old(stack)[..|old(stack)| - 1]
      ensures yielded == if r.Some? then old(yielded) + [r.value] else old(yielded)
    {
      if stack == [] {
        return None;
      }
      var top := stack[|stack| - 1];
      ReverseSnoc(stack[..|stack| - 1], top);
      assert stack == stack[..|stack| - 1] + [top];
      stack := stack[..|stack| - 1];
      yielded := yielded + [top];
      r := Some(top);
    }
  }

  lemma ReverseSnoc<K>(s: seq<K>, x: K)
    ensures Reverse(s + [x]) == [x] + Reverse(s)
  {
    assert (s + [x])[..|s|] == s;
  }

  /** Once the stack is empty the iterator has yielded the whole finish order back to front. */
  lemma DrainedYieldsReverse<K(!new)>(t: TopSort<K>)
    requires t.Valid() && t.stack == []
    ensures t.yielded == Reverse(t.order)
  {
  }
}
