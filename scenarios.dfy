/**
 * Concrete runs. The first is the demo program: two keys, one edge, a
 * pre-order walk from the key without successors. The others use the matrix
 * backend, whose enumeration order is fixed, on the graph 0→1, 0→2, 2→1: key
 * 1 is pushed twice before it is popped, so it is emitted twice.
 */
module Scenarios {
  import opened Wrappers
  import opened Seqs
  import opened Capability
  import opened Frontier
  import opened DfsModel
  import opened Dfs
  import opened BfsModel
  import opened Bfs
  import opened Topsort
  import opened AdjVec
  import opened BoolMatrix

  lemma NoMembersEmpty<T>(s: seq<T>)
    ensures (forall x :: x !in s) ==> s == []
  {
    if s != [] {
      assert s[0] in s;
    }
  }

  /** The demo's store: keys 12 ("A") and 46 ("B") and the edge 12→46. */
  method DemoStore() returns (store: AdjacencyVecGraph<int, string>, g: Graph<int>)
    ensures fresh(store)
    ensures store.matrix == map[12 := ("A", {46}), 46 := ("B", {})]
    ensures g.Wf() && g.Closed() && 46 in g.adjacency && g.Adjacents(46) == []
  {
    store := new AdjacencyVecGraph<int, string>.New();
    store.AddNode(12, "A");
    store.AddNode(46, "B");
    assert store.matrix == map[12 := ("A", {}), 46 := ("B", {})];
    store.Connect(12, 46);
    assert store.matrix[12].1 == {46};
    assert store.matrix == map[12 := ("A", {46}), 46 := ("B", {})];
    g := store.AsReferenceGraph();
    assert forall j :: j !in g.adjacency[46];
    NoMembersEmpty(g.adjacency[46]);
  }

  /**
   * The demo: a pre-order walk from 46, printing each key and its name: only
   * 46 and "B" come out, since 46 has no successors, and the second call of
   * `next` ends the walk.
   */
  method DemoRun() returns (order: seq<int>, names: seq<string>, last: Option<int>)
    ensures order == [46] && names == ["B"] && last == None
  {
    var store, g := DemoStore();
    var it := new PreOrderDFS.New(g, 46);
    var first := it.Next();
    var second := it.Next();
    assert first == Some(46);
    order := [first.value];
    names := [store.Index(first.value)];
    last := second;
  }

  /** 0→1, 0→2, 2→1 as a 3 by 3 matrix. */
  function Diamond(): (m: seq<seq<bool>>)
    ensures IsSquare(m) && |m| == 3
  {
    [[false, true, true], [false, false, false], [false, true, false]]
  }

  /** The rows of the diamond, read off one entry at a time. */
  lemma DiamondRows()
    ensures TrueIndices([false, true, true]) == [1, 2]
    ensures TrueIndices([false, false, false]) == []
    ensures TrueIndices([false, true, false]) == [1]
  {
    assert [false, true, true][..2] == [false, true];
    assert [false, true, false][..2] == [false, true];
    assert [false, false, false][..2] == [false, false];
    assert [false, true][..1] == [false];
    assert [false, false][..1] == [false];
    assert [false][..0] == [];
  }

  lemma DiamondAdjacents()
    ensures var g := ToCapability(Diamond());
            g.Adjacents(0) == [1, 2] && g.Adjacents(1) == [] && g.Adjacents(2) == [1]
  {
    DiamondRows();
    var m := Diamond();
    assert Adjacents(m, 0) == [1, 2];
    assert Adjacents(m, 1) == [];
    assert Adjacents(m, 2) == [1];
  }

  /** A capability without dangling successors that registers the keys 0, 1 and 2. */
  ghost predicate HasDiamondKeys(g: Graph<nat>) {
    g.Closed() && 0 in g.adjacency && 1 in g.adjacency && 2 in g.adjacency
  }

  /** The diamond's keys and successor lists, as any capability may present them. */
  ghost predicate IsDiamond(g: Graph<nat>) {
    && HasDiamondKeys(g)
    && g.Adjacents(0) == [1, 2] && g.Adjacents(1) == [] && g.Adjacents(2) == [1]
  }

  lemma IterThree()
    ensures Iter(3) == [0, 1, 2]
  {
    assert Iter(1) == [0];
    assert Iter(2) == [0, 1];
  }

  /** The matrix backend registers the keys 0, 1, 2, in that order. */
  lemma MatrixKeys()
    ensures ToCapability(Diamond()).keys == [0, 1, 2]
    ensures ToCapability(Diamond()).adjacency.Keys == {0, 1, 2}
  {
    IterThree();
    var g := ToCapability(Diamond());
    forall k: nat
      ensures k in g.adjacency <==> k in {0, 1, 2}
    {
    }
  }

  /** With `MatrixKeys`: the matrix backend presents the diamond. */
  lemma MatrixIsDiamond()
    ensures IsDiamond(ToCapability(Diamond()))
  {
    MatrixKeys();
    DiamondAdjacents();
  }

  /** One more successor for the push filter. */
  lemma UnvisitedStep<K(!new)>(adj: seq<K>, x: K, visited: set<K>)
    ensures Unvisited(adj + [x], visited) == Unvisited(adj, visited) + (if x in visited then [] else [x])
  {
    assert (adj + [x])[..|adj|] == adj;
  }

  /**
   * What a run from `a` needs of the graph: the three keys registered, and
   * the successors each expansion pushes given what is visited by then.
   */
  ghost predicate RunPushes<K(!new)>(g: Graph<K>, a: K, b: K, c: K) {
    && g.Closed() && a in g.adjacency && b in g.adjacency && c in g.adjacency
    && Unvisited(g.Adjacents(a), {a}) == [b, c]
    && Unvisited(g.Adjacents(c), {a, c}) == [b]
    && Unvisited(g.Adjacents(b), {a, b, c}) == []
  }

  lemma DiamondPushes(g: Graph<nat>)
    requires IsDiamond(g)
    ensures RunPushes(g, 0, 1, 2)
  {
    var none: seq<nat> := [];
    assert none + [1] == [1] && [1] + [2] == [1, 2];
    UnvisitedStep(none, 1, {0});
    UnvisitedStep([1], 2, {0});
    UnvisitedStep(none, 1, {0, 2});
  }

  /** One emitting pre-order step, with the successors it pushes given. */
  lemma PreNextPush<K(!new)>(g: Graph<K>, visited: set<K>, rest: seq<K>, x: K, pushed: seq<K>)
    requires g.Closed() && Registered(g, rest + [x])
    requires Unvisited(g.Adjacents(x), visited + {x}) == pushed
    ensures PreNext(g, PreState(visited, rest + [x])) == (Some(x), PreState(visited + {x}, rest + pushed))
  {
    var st := rest + [x];
    assert st[..|st| - 1] == rest;
  }

  /** The stacks and visited sets of a pre-order run over keys `a`, `b`, `c`, split at the top. */
  lemma PreStacks<K>(a: K, b: K, c: K)
    ensures [a] == [] + [a] && [b, c] == [] + [b, c] && {a} == {} + {a}
    ensures [b, c] == [b] + [c] && [b, b] == [b] + [b] && {a, c} == {a} + {c}
    ensures [b] == [b] + [] && {a, b, c} == {a, c} + {b}
    ensures [b] == [] + [b] && {a, b, c} == {a, b, c} + {b}
  {
  }

  /** Pre-order, step by step. */
  lemma PreStep1<K(!new)>(g: Graph<K>, a: K, b: K, c: K)
    requires g.Closed() && a in g.adjacency && Unvisited(g.Adjacents(a), {a}) == [b, c]
    ensures PreNext(g, PreState({}, [a])) == (Some(a), PreState({a}, [b, c]))
  {
    PreStacks(a, b, c);
    PreNextPush(g, {}, [], a, [b, c]);
  }

  lemma PreStep2<K(!new)>(g: Graph<K>, a: K, b: K, c: K)
    requires g.Closed() && b in g.adjacency && c in g.adjacency && Unvisited(g.Adjacents(c), {a, c}) == [b]
    ensures PreNext(g, PreState({a}, [b, c])) == (Some(c), PreState({a, c}, [b, b]))
  {
    PreStacks(a, b, c);
    PreNextPush(g, {a}, [b], c, [b]);
  }

  lemma PreStep3<K(!new)>(g: Graph<K>, a: K, b: K, c: K)
    requires g.Closed() && b in g.adjacency && Unvisited(g.Adjacents(b), {a, b, c}) == []
    ensures PreNext(g, PreState({a, c}, [b, b])) == (Some(b), PreState({a, b, c}, [b]))
  {
    PreStacks(a, b, c);
    PreNextPush(g, {a, c}, [b], b, []);
  }

  lemma PreStep4<K(!new)>(g: Graph<K>, a: K, b: K, c: K)
    requires g.Closed() && b in g.adjacency && Unvisited(g.Adjacents(b), {a, b, c}) == []
    ensures PreNext(g, PreState({a, b, c}, [b])) == (Some(b), PreState({a, b, c}, []))
  {
    PreStacks(a, b, c);
    var none: seq<K> := [];
    assert none + none == none;
    PreNextPush(g, {a, b, c}, none, b, none);
  }

  /** The four emitting steps of a pre-order run from `a`, then the empty stack. */
  lemma PreRun<K(!new)>(g: Graph<K>, a: K, b: K, c: K)
    requires RunPushes(g, a, b, c)
    ensures var s1 := PreNext(g, PreState({}, [a]));
            var s2 := PreNext(g, s1.1);
            var s3 := PreNext(g, s2.1);
            var s4 := PreNext(g, s3.1);
            var s5 := PreNext(g, s4.1);
            s1.0 == Some(a) && s2.0 == Some(c) && s3.0 == Some(b) && s4.0 == Some(b) && s5.0 == None
  {
    PreStep1(g, a, b, c);
    PreStep2(g, a, b, c);
    PreStep3(g, a, b, c);
    PreStep4(g, a, b, c);
  }

  /**
   * Pre-order from 0 over the diamond emits 0, 2, 1 and then 1 again: the
   * second copy of 1 was pushed before the first was popped.
   */
  lemma PreOrderDuplicates(g: Graph<nat>)
    requires IsDiamond(g)
    ensures var s1 := PreNext(g, PreState({}, [0]));
            var s2 := PreNext(g, s1.1);
            var s3 := PreNext(g, s2.1);
            var s4 := PreNext(g, s3.1);
            var s5 := PreNext(g, s4.1);
            s1.0 == Some(0) && s2.0 == Some(2) && s3.0 == Some(1) && s4.0 == Some(1) && s5.0 == None
  {
    DiamondPushes(g);
    PreRun(g, 0, 1, 2);
  }

  /** One Discovered pop, with the keys it pushes and their entries given. */
  lemma DiscoverPush<K(!new)>(g: Graph<K>, visited: set<K>, visited': set<K>, rest: seq<Entry<K>>, x: K,
                              keys: seq<K>, pushed: seq<Entry<K>>)
    requires g.Closed() && EntriesRegistered(g, rest + [Entry(x, Discovered)]) && visited' == visited + {x}
    requires Unvisited(g.Adjacents(x), visited') == keys
    requires |pushed| == |keys| && forall i :: 0 <= i < |keys| ==> pushed[i] == Entry(keys[i], Discovered)
    ensures Discover(g, PostState(visited, rest + [Entry(x, Discovered)]))
         == PostState(visited', rest + [Entry(x, Finished)] + pushed)
  {
    var st := rest + [Entry(x, Discovered)];
    assert st[..|st| - 1] == rest;
    assert AsDiscovered(keys) == pushed;
  }

  /** A Discovered top is expanded and `next` carries on from there. */
  lemma PostNextDiscovered<K(!new)>(g: Graph<K>, s: PostState<K>)
    requires g.Closed() && EntriesRegistered(g, s.stack)
    requires s.stack != [] && s.stack[|s.stack| - 1].tag == Discovered
    ensures PostNext(g, s) == PostNext(g, Discover(g, s))
  {
  }

  /** A Finished top is popped and emitted. */
  lemma PostNextFinished<K(!new)>(g: Graph<K>, visited: set<K>, rest: seq<Entry<K>>, x: K)
    requires g.Closed() && EntriesRegistered(g, rest + [Entry(x, Finished)])
    ensures PostNext(g, PostState(visited, rest + [Entry(x, Finished)])) == (Some(x), PostState(visited, rest))
  {
    var st := rest + [Entry(x, Finished)];
    assert st[..|st| - 1] == rest;
  }

  /**
   * The stacks of a post-order run over keys `a`, `b`, `c`: what one step
   * leaves is what the next one splits at its top.
   */
  lemma PostStacks<K>(a: K, b: K, c: K)
    ensures [Entry(a, Discovered)] == [] + [Entry(a, Discovered)]
    ensures [] + [Entry(a, Finished)] + [Entry(b, Discovered), Entry(c, Discovered)] == [Entry(a, Finished), Entry(b, Discovered)] + [Entry(c, Discovered)]
    ensures [Entry(a, Finished), Entry(b, Discovered)] + [Entry(c, Finished)] + [Entry(b, Discovered)] == [Entry(a, Finished), Entry(b, Discovered), Entry(c, Finished)] + [Entry(b, Discovered)]
    ensures [Entry(a, Finished), Entry(b, Discovered), Entry(c, Finished)] + [Entry(b, Finished)] + [] == [Entry(a, Finished), Entry(b, Discovered), Entry(c, Finished)] + [Entry(b, Finished)]
    ensures [Entry(a, Finished), Entry(b, Discovered), Entry(c, Finished)] == [Entry(a, Finished), Entry(b, Discovered)] + [Entry(c, Finished)]
    ensures [Entry(a, Finished), Entry(b, Discovered)] == [Entry(a, Finished)] + [Entry(b, Discovered)]
    ensures [Entry(a, Finished)] + [Entry(b, Finished)] + [] == [Entry(a, Finished)] + [Entry(b, Finished)]
    ensures [Entry(a, Finished)] == [] + [Entry(a, Finished)]
  {
  }

  /** Every stack the run splits holds registered keys only. */
  lemma PostRegistered<K(!new)>(g: Graph<K>, a: K, b: K, c: K)
    requires a in g.adjacency && b in g.adjacency && c in g.adjacency
    ensures EntriesRegistered(g, [] + [Entry(a, Discovered)])
    ensures EntriesRegistered(g, [Entry(a, Finished), Entry(b, Discovered)] + [Entry(c, Discovered)])
    ensures EntriesRegistered(g, [Entry(a, Finished), Entry(b, Discovered), Entry(c, Finished)] + [Entry(b, Discovered)])
    ensures EntriesRegistered(g, [Entry(a, Finished), Entry(b, Discovered), Entry(c, Finished)] + [Entry(b, Finished)])
    ensures EntriesRegistered(g, [Entry(a, Finished), Entry(b, Discovered)] + [Entry(c, Finished)])
    ensures EntriesRegistered(g, [Entry(a, Finished)] + [Entry(b, Discovered)])
    ensures EntriesRegistered(g, [Entry(a, Finished)] + [Entry(b, Finished)])
    ensures EntriesRegistered(g, [] + [Entry(a, Finished)])
  {
  }

  /** Post-order, one Discover at a time. */
  lemma Discover1<K(!new)>(g: Graph<K>, a: K, b: K, c: K)
    requires g.Closed() && a in g.adjacency && EntriesRegistered(g, [] + [Entry(a, Discovered)])
    requires Unvisited(g.Adjacents(a), {a}) == [b, c]
    ensures Discover(g, PostState({}, [] + [Entry(a, Discovered)])) == PostState({a}, [] + [Entry(a, Finished)] + [Entry(b, Discovered), Entry(c, Discovered)])
  {
    assert {a} == {} + {a};
    DiscoverPush(g, {}, {a}, [], a, [b, c], [Entry(b, Discovered), Entry(c, Discovered)]);
  }

  lemma Discover2<K(!new)>(g: Graph<K>, a: K, b: K, c: K)
    requires g.Closed() && c in g.adjacency && EntriesRegistered(g, [Entry(a, Finished), Entry(b, Discovered)] + [Entry(c, Discovered)])
    requires Unvisited(g.Adjacents(c), {a, c}) == [b]
    ensures Discover(g, PostState({a}, [Entry(a, Finished), Entry(b, Discovered)] + [Entry(c, Discovered)])) == PostState({a, c}, [Entry(a, Finished), Entry(b, Discovered)] + [Entry(c, Finished)] + [Entry(b, Discovered)])
  {
    assert {a, c} == {a} + {c};
    DiscoverPush(g, {a}, {a, c}, [Entry(a, Finished), Entry(b, Discovered)], c, [b], [Entry(b, Discovered)]);
  }

  lemma Discover3<K(!new)>(g: Graph<K>, a: K, b: K, c: K)
    requires g.Closed() && b in g.adjacency && EntriesRegistered(g, [Entry(a, Finished), Entry(b, Discovered), Entry(c, Finished)] + [Entry(b, Discovered)])
    requires Unvisited(g.Adjacents(b), {a, b, c}) == []
    ensures Discover(g, PostState({a, c}, [Entry(a, Finished), Entry(b, Discovered), Entry(c, Finished)] + [Entry(b, Discovered)])) == PostState({a, b, c}, [Entry(a, Finished), Entry(b, Discovered), Entry(c, Finished)] + [Entry(b, Finished)] + [])
  {
    assert {a, b, c} == {a, c} + {b};
    DiscoverPush(g, {a, c}, {a, b, c}, [Entry(a, Finished), Entry(b, Discovered), Entry(c, Finished)], b, [], []);
  }

  lemma Discover4<K(!new)>(g: Graph<K>, a: K, b: K, c: K)
    requires g.Closed() && b in g.adjacency && EntriesRegistered(g, [Entry(a, Finished)] + [Entry(b, Discovered)])
    requires Unvisited(g.Adjacents(b), {a, b, c}) == []
    ensures Discover(g, PostState({a, b, c}, [Entry(a, Finished)] + [Entry(b, Discovered)])) == PostState({a, b, c}, [Entry(a, Finished)] + [Entry(b, Finished)] + [])
  {
    assert {a, b, c} == {a, b, c} + {b};
    DiscoverPush(g, {a, b, c}, {a, b, c}, [Entry(a, Finished)], b, [], []);
  }

  /** The first `next`: three expansions, then `b` comes off. */
  lemma PostFirst<K(!new)>(g: Graph<K>, a: K, b: K, c: K)
    requires RunPushes(g, a, b, c)
    ensures PostNext(g, PostState({}, [Entry(a, Discovered)])) == (Some(b), PostState({a, b, c}, [Entry(a, Finished), Entry(b, Discovered), Entry(c, Finished)]))
  {
    PostStacks(a, b, c);
    PostRegistered(g, a, b, c);
    Discover1(g, a, b, c);
    Discover2(g, a, b, c);
    Discover3(g, a, b, c);
    PostNextDiscovered(g, PostState({}, [] + [Entry(a, Discovered)]));
    PostNextDiscovered(g, PostState({a}, [Entry(a, Finished), Entry(b, Discovered)] + [Entry(c, Discovered)]));
    PostNextDiscovered(g, PostState({a, c}, [Entry(a, Finished), Entry(b, Discovered), Entry(c, Finished)] + [Entry(b, Discovered)]));
    PostNextFinished(g, {a, b, c}, [Entry(a, Finished), Entry(b, Discovered), Entry(c, Finished)], b);
  }

  /** The later calls: `c` comes off, then `b` after one more expansion, then `a`. */
  lemma PostRest<K(!new)>(g: Graph<K>, a: K, b: K, c: K)
    requires RunPushes(g, a, b, c)
    ensures PostNext(g, PostState({a, b, c}, [Entry(a, Finished), Entry(b, Discovered), Entry(c, Finished)])) == (Some(c), PostState({a, b, c}, [Entry(a, Finished), Entry(b, Discovered)]))
    ensures PostNext(g, PostState({a, b, c}, [Entry(a, Finished), Entry(b, Discovered)])) == (Some(b), PostState({a, b, c}, [Entry(a, Finished)]))
    ensures PostNext(g, PostState({a, b, c}, [Entry(a, Finished)])) == (Some(a), PostState({a, b, c}, []))
  {
    PostStacks(a, b, c);
    PostRegistered(g, a, b, c);
    Discover4(g, a, b, c);
    PostNextFinished(g, {a, b, c}, [Entry(a, Finished), Entry(b, Discovered)], c);
    PostNextDiscovered(g, PostState({a, b, c}, [Entry(a, Finished)] + [Entry(b, Discovered)]));
    PostNextFinished(g, {a, b, c}, [Entry(a, Finished)], b);
    PostNextFinished(g, {a, b, c}, [], a);
  }

  /** Post-order from 0 over the diamond emits 1, 2, 1 and 0, then nothing. */
  lemma PostOrderDuplicates(g: Graph<nat>)
    requires IsDiamond(g)
    ensures var s1 := PostNext(g, PostState({}, [Entry(0, Discovered)]));
            var s2 := PostNext(g, s1.1);
            var s3 := PostNext(g, s2.1);
            var s4 := PostNext(g, s3.1);
            var s5 := PostNext(g, s4.1);
            s1.0 == Some(1) && s2.0 == Some(2) && s3.0 == Some(1) && s4.0 == Some(0) && s5.0 == None
  {
    DiamondPushes(g);
    PostFirst(g, 0, 1, 2);
    PostRest(g, 0, 1, 2);
  }

  /** Four emitting calls of `next` and then `None`: the run is those four keys. */
  lemma PostRunOfFour<K(!new)>(g: Graph<K>, s0: PostState<K>, s1: PostState<K>, s2: PostState<K>,
                               s3: PostState<K>, s4: PostState<K>, x1: K, x2: K, x3: K, x4: K)
    requires g.Closed() && EntriesRegistered(g, s0.stack)
    requires PostNext(g, s0) == (Some(x1), s1) && PostNext(g, s1) == (Some(x2), s2)
    requires PostNext(g, s2) == (Some(x3), s3) && PostNext(g, s3) == (Some(x4), s4)
    requires s4.stack == []
    ensures PostRun(g, s0).0 == [x1, x2, x3, x4]
  {
    PostRunStep(g, s0, x1, s1);
    PostRunStep(g, s1, x2, s2);
    PostRunStep(g, s2, x3, s3);
    PostRunStep(g, s3, x4, s4);
    assert PostRun(g, s4).0 == [];
    FourKeys(x1, x2, x3, x4);
  }

  lemma FourKeys<K>(x1: K, x2: K, x3: K, x4: K)
    ensures [x1] + ([x2] + ([x3] + ([x4] + []))) == [x1, x2, x3, x4]
  {
    assert [x4] + [] == [x4];
    assert [x3] + [x4] == [x3, x4];
    assert [x2] + [x3, x4] == [x2, x3, x4];
  }

  /** An emitting call of `next` starts the run. */
  lemma PostRunStep<K(!new)>(g: Graph<K>, s: PostState<K>, x: K, s': PostState<K>)
    requires g.Closed() && EntriesRegistered(g, s.stack) && PostNext(g, s) == (Some(x), s')
    ensures EntriesRegistered(g, s'.stack)
    ensures PostRun(g, s).0 == [x] + PostRun(g, s').0
  {
    PostRunUnfold(g, s);
  }

  /** The whole post-order run from `a`, `next` after `next` until `None`: b, c, b, a. */
  lemma PostRunFrom<K(!new)>(g: Graph<K>, a: K, b: K, c: K)
    requires RunPushes(g, a, b, c)
    ensures EntriesRegistered(g, [Entry(a, Discovered)])
    ensures PostRun(g, PostState({}, [Entry(a, Discovered)])).0 == [b, c, b, a]
  {
    PostFirst(g, a, b, c);
    PostRest(g, a, b, c);
    PostRunOfFour(g, PostState({}, [Entry(a, Discovered)]),
                  PostState({a, b, c}, [Entry(a, Finished), Entry(b, Discovered), Entry(c, Finished)]),
                  PostState({a, b, c}, [Entry(a, Finished), Entry(b, Discovered)]),
                  PostState({a, b, c}, [Entry(a, Finished)]),
                  PostState({a, b, c}, []), b, c, b, a);
  }

  /**
   * The rounds of `TopSort::new` when the enumeration is a, b, c: the first
   * round, from a, is the whole post-order run and visits every key, so it
   * is the only one.
   */
  lemma OneRound<K(!new)>(g: Graph<K>, rounds: seq<seq<K>>, roots: seq<K>, a: K, b: K, c: K)
    requires RunPushes(g, a, b, c) && g.keys == [a, b, c]
    requires RoundsWf(g, rounds, roots) && a in Flatten(rounds)
    ensures rounds == [[b, c, b, a]] && roots == [a]
  {
    OneRoundFirst(g, rounds, roots, a, b, c);
    OneRoundOnly(g, rounds, roots, a, b, c);
    SingleRound(rounds, roots, [b, c, b, a], a);
  }

  /** No second round: the first one visits a, b and c. */
  lemma OneRoundOnly<K(!new)>(g: Graph<K>, rounds: seq<seq<K>>, roots: seq<K>, a: K, b: K, c: K)
    requires RunPushes(g, a, b, c) && g.keys == [a, b, c]
    requires RoundsWf(g, rounds, roots) && a in Flatten(rounds)
    ensures |rounds| == 1
  {
    OneRoundFirst(g, rounds, roots, a, b, c);
    SecondRound(g, rounds, roots);
    AllVisited(g.keys, rounds[0], a, b, c);
  }

  lemma SingleRound<K>(rounds: seq<seq<K>>, roots: seq<K>, e: seq<K>, root: K)
    requires |rounds| == 1 && |roots| == 1 && rounds[0] == e && roots[0] == root
    ensures rounds == [e] && roots == [root]
  {
  }

  /** The first round, from a, is the whole post-order run from a. */
  lemma OneRoundFirst<K(!new)>(g: Graph<K>, rounds: seq<seq<K>>, roots: seq<K>, a: K, b: K, c: K)
    requires RunPushes(g, a, b, c) && g.keys == [a, b, c]
    requires RoundsWf(g, rounds, roots) && a in Flatten(rounds)
    ensures |rounds| == |roots| && rounds != []
    ensures rounds[0] == [b, c, b, a] && roots[0] == a
  {
    assert rounds != [];
    FirstRound(g, rounds, roots);
    PostRunFrom(g, a, b, c);
  }

  lemma AllVisited<K(!new)>(keys: seq<K>, e: seq<K>, a: K, b: K, c: K)
    requires keys == [a, b, c] && e == [b, c, b, a]
    ensures FindUnvisited(keys, Elems(e)) == None
  {
    assert a in Elems(e) && b in Elems(e) && c in Elems(e);
  }

  /**
   * The topological sort over the diamond, through the iterator object: the
   * single round emits 1, 2, 1, 0, which is the stack, so `next` returns 0,
   * 1, 2, 1 and then None. Along the edge 2→1 the first copy of 1 comes out
   * before 2; only the last copy of each key respects the edges.
   */
  method TopSortRun(g: Graph<nat>) returns (out: seq<nat>, last: Option<nat>)
    requires g.Wf() && IsDiamond(g) && g.keys == [0, 1, 2]
    ensures out == [0, 1, 2, 1] && last == None
    ensures g.Edge(2, 1)
    ensures IndexOf(out, 1) < IndexOf(out, 2)
    ensures LastIndexOf(out, 2) < LastIndexOf(out, 1)
  {
    var it := new TopSort.New(g);
    DiamondPushes(g);
    OneRound(g, it.rounds, it.roots, 0, 1, 2);
    FlattenOne([1, 2, 1, 0]);
    out, last := PopFour(it);
    TopSortDuplicateOrder(g, out);
  }

  lemma FlattenOne<K>(e: seq<K>)
    ensures Flatten([e]) == e
  {
    assert [e][..0] == [];
  }

  /** Four calls of `next` on a stack of four, then one more: the stack read from the top, then None. */
  method PopFour<K(==,!new)>(it: TopSort<K>) returns (out: seq<K>, last: Option<K>)
    requires it.Valid() && |it.stack| == 4
    modifies it
    ensures out == [old(it.stack)[3], old(it.stack)[2], old(it.stack)[1], old(it.stack)[0]] && last == None
  {
    ghost var s := it.stack;
    var a := it.Next();
    assert it.stack == s[..3];
    var b := it.Next();
    assert it.stack == s[..2];
    var c := it.Next();
    assert it.stack == s[..1];
    var d := it.Next();
    assert it.stack == [];
    last := it.Next();
    out := [a.value, b.value, c.value, d.value];
  }

  /** The output 0, 1, 2, 1 against the edge 2→1. */
  lemma TopSortDuplicateOrder(g: Graph<nat>, out: seq<nat>)
    requires IsDiamond(g) && out == [0, 1, 2, 1]
    ensures g.Edge(2, 1)
    ensures IndexOf(out, 1) < IndexOf(out, 2)
    ensures LastIndexOf(out, 2) < LastIndexOf(out, 1)
  {
    assert g.Adjacents(2)[0] == 1;
    assert 1 in out && 2 in out;
    assert IndexOf(out, 1) == 1;
    assert IndexOf(out, 2) == 2;
    assert LastIndexOf(out, 1) == 3;
    assert LastIndexOf(out, 2) == 2;
  }

  /** The topological sort over the matrix backend. */
  method MatrixTopSortRun() returns (out: seq<nat>, last: Option<nat>)
    ensures out == [0, 1, 2, 1] && last == None
  {
    var g := ToCapability(Diamond());
    MatrixIsDiamond();
    MatrixKeys();
    out, last := TopSortRun(g);
  }

  /**
   * The same pre-order run through the iterator object, over any capability
   * presenting the diamond (the matrix backend does, by `MatrixIsDiamond`):
   * `next` returns 0, 2, 1, 1 and then None.
   */
  method PreOrderDuplicatesRun(g: Graph<nat>) returns (out: seq<nat>, last: Option<nat>)
    requires g.Wf() && IsDiamond(g)
    ensures out == [0, 2, 1, 1] && last == None
  {
    PreOrderDuplicates(g);
    var it := new PreOrderDFS.New(g, 0);
    var a := it.Next();
    var b := it.Next();
    var c := it.Next();
    var d := it.Next();
    last := it.Next();
    out := [a.value, b.value, c.value, d.value];
  }

  /** The run over the matrix backend. */
  method MatrixPreOrderRun() returns (out: seq<nat>, last: Option<nat>)
    ensures out == [0, 2, 1, 1] && last == None
  {
    var g := ToCapability(Diamond());
    MatrixIsDiamond();
    out, last := PreOrderDuplicatesRun(g);
  }

  /**
   * Breadth-first search emits a key as often as it is queued. Over a→b,
   * a→c, b→d, c→d the walk from a queues d once for b and once more for c,
   * since d is not yet visited when c is emitted: a, b, c, d, d.
   */
  ghost predicate BfsPushes<K(!new)>(g: Graph<K>, a: K, b: K, c: K, d: K) {
    && g.Closed() && a in g.adjacency && b in g.adjacency && c in g.adjacency && d in g.adjacency
    && Unvisited(g.Adjacents(a), {a}) == [b, c]
    && Unvisited(g.Adjacents(b), {a, b}) == [d]
    && Unvisited(g.Adjacents(c), {a, b, c}) == [d]
    && Unvisited(g.Adjacents(d), {a, b, c, d}) == []
  }

  /** One breadth-first step: the front comes out and its unvisited successors go to the back. */
  lemma BfsStep<K(!new)>(g: Graph<K>, visited: set<K>, visited': set<K>, x: K, rest: seq<K>, pushed: seq<K>, queue': seq<K>)
    requires g.Closed() && x in g.adjacency && Registered(g, rest) && visited' == visited + {x}
    requires Unvisited(g.Adjacents(x), visited') == pushed && rest + pushed == queue'
    ensures BfsNext(g, BfsState(visited, [x] + rest)) == (Some(x), BfsState(visited', queue'))
  {
    assert ([x] + rest)[1..] == rest;
  }

  lemma BfsRun1<K(!new)>(g: Graph<K>, a: K, b: K, c: K, d: K)
    requires BfsPushes(g, a, b, c, d)
    ensures BfsNext(g, BfsState({}, [a])) == (Some(a), BfsState({a}, [b, c]))
  {
    var none: seq<K> := [];
    assert [a] + none == [a] && none + [b, c] == [b, c];
    BfsStep(g, {}, {a}, a, none, [b, c], [b, c]);
  }

  lemma BfsRun2<K(!new)>(g: Graph<K>, a: K, b: K, c: K, d: K)
    requires BfsPushes(g, a, b, c, d)
    ensures BfsNext(g, BfsState({a}, [b, c])) == (Some(b), BfsState({a, b}, [c, d]))
  {
    assert [b] + [c] == [b, c] && [c] + [d] == [c, d];
    BfsStep(g, {a}, {a, b}, b, [c], [d], [c, d]);
  }

  lemma BfsRun3<K(!new)>(g: Graph<K>, a: K, b: K, c: K, d: K)
    requires BfsPushes(g, a, b, c, d)
    ensures BfsNext(g, BfsState({a, b}, [c, d])) == (Some(c), BfsState({a, b, c}, [d, d]))
  {
    assert [c] + [d] == [c, d] && [d] + [d] == [d, d];
    BfsStep(g, {a, b}, {a, b, c}, c, [d], [d], [d, d]);
  }

  lemma BfsRun4<K(!new)>(g: Graph<K>, a: K, b: K, c: K, d: K)
    requires BfsPushes(g, a, b, c, d)
    ensures BfsNext(g, BfsState({a, b, c}, [d, d])) == (Some(d), BfsState({a, b, c, d}, [d]))
  {
    var none: seq<K> := [];
    assert [d] + [d] == [d, d] && [d] + none == [d];
    BfsStep(g, {a, b, c}, {a, b, c, d}, d, [d], none, [d]);
  }

  lemma BfsRun5<K(!new)>(g: Graph<K>, a: K, b: K, c: K, d: K)
    requires BfsPushes(g, a, b, c, d)
    ensures BfsNext(g, BfsState({a, b, c, d}, [d])) == (Some(d), BfsState({a, b, c, d}, []))
  {
    var none: seq<K> := [];
    assert [d] + none == [d] && none + none == none;
    BfsStep(g, {a, b, c, d}, {a, b, c, d}, d, none, none, none);
  }

  /** a→b, a→c, b→d, c→d with the keys 0, 1, 2, 3, as any capability may present it. */
  ghost predicate IsTwoPaths(g: Graph<nat>) {
    && g.Closed() && 0 in g.adjacency && 1 in g.adjacency && 2 in g.adjacency && 3 in g.adjacency
    && g.Adjacents(0) == [1, 2] && g.Adjacents(1) == [3] && g.Adjacents(2) == [3] && g.Adjacents(3) == []
  }

  lemma TwoPathsPushes(g: Graph<nat>)
    requires IsTwoPaths(g)
    ensures BfsPushes(g, 0, 1, 2, 3)
  {
    TwoPathsPush0(g);
    TwoPathsPush3(g, 1, {0, 1});
    TwoPathsPush3(g, 2, {0, 1, 2});
  }

  lemma TwoPathsPush0(g: Graph<nat>)
    requires IsTwoPaths(g)
    ensures Unvisited(g.Adjacents(0), {0}) == [1, 2]
  {
    var none: seq<nat> := [];
    assert none + [1] == [1] && [1] + [2] == [1, 2];
    UnvisitedStep(none, 1, {0});
    UnvisitedStep([1], 2, {0});
  }

  lemma TwoPathsPush3(g: Graph<nat>, k: nat, visited: set<nat>)
    requires IsTwoPaths(g) && (k == 1 || k == 2) && 3 !in visited
    ensures Unvisited(g.Adjacents(k), visited) == [3]
  {
    var none: seq<nat> := [];
    assert none + [3] == [3];
    UnvisitedStep(none, 3, visited);
  }

  /**
   * The breadth-first iterator from 0 over any capability presenting the two
   * paths: `next` returns 0, 1, 2, 3, 3 and then None.
   */
  method BfsDuplicatesRun(g: Graph<nat>) returns (out: seq<nat>, last: Option<nat>)
    requires g.Wf() && IsTwoPaths(g)
    ensures out == [0, 1, 2, 3, 3] && last == None
  {
    TwoPathsPushes(g);
    out, last := BfsPushesRun(g, 0, 1, 2, 3);
  }

  /** The walk from a when the pushes are those of the two paths: a, b, c, d, d and then None. */
  method BfsPushesRun<K(==,!new)>(g: Graph<K>, a: K, b: K, c: K, d: K) returns (out: seq<K>, last: Option<K>)
    requires g.Wf() && BfsPushes(g, a, b, c, d)
    ensures out == [a, b, c, d, d] && last == None
  {
    var it := new BFS.New(g, a);
    BfsRun1(g, a, b, c, d);
    var x1 := Emit(it, BfsState({}, [a]), a, BfsState({a}, [b, c]));
    BfsRun2(g, a, b, c, d);
    var x2 := Emit(it, BfsState({a}, [b, c]), b, BfsState({a, b}, [c, d]));
    BfsRun3(g, a, b, c, d);
    var x3 := Emit(it, BfsState({a, b}, [c, d]), c, BfsState({a, b, c}, [d, d]));
    BfsRun4(g, a, b, c, d);
    var x4 := Emit(it, BfsState({a, b, c}, [d, d]), d, BfsState({a, b, c, d}, [d]));
    BfsRun5(g, a, b, c, d);
    var x5 := Emit(it, BfsState({a, b, c, d}, [d]), d, BfsState({a, b, c, d}, []));
    last := it.Next();
    out := [x1.value, x2.value, x3.value, x4.value, x5.value];
  }

  /** A call of `next` whose step on values is known. */
  method Emit<K(==,!new)>(it: BFS<K>, s: BfsState<K>, x: K, s': BfsState<K>) returns (r: Option<K>)
    requires it.Valid() && it.State() == s && BfsNext(it.graph, s) == (Some(x), s')
    modifies it
    ensures it.Valid() && it.State() == s' && r == Some(x)
  {
    r := it.Next();
  }

  /** The two paths as a 4 by 4 matrix. */
  function TwoPaths(): (m: seq<seq<bool>>)
    ensures IsSquare(m) && |m| == 4
  {
    [[false, true, true, false], [false, false, false, true], [false, false, false, true], [false, false, false, false]]
  }

  /** One more entry at the end of a row. */
  lemma TrueIndicesSnoc(row: seq<bool>, x: bool)
    ensures TrueIndices(row + [x]) == TrueIndices(row) + (if x then [|row|] else [])
  {
    assert (row + [x])[..|row|] == row;
  }

  lemma TwoPathsRow0()
    ensures TrueIndices([false, true, true, false]) == [1, 2]
  {
    DiamondRows();
    TrueIndicesSnoc([false, true, true], false);
    assert [false, true, true] + [false] == [false, true, true, false];
  }

  lemma TwoPathsRow1()
    ensures TrueIndices([false, false, false, true]) == [3]
  {
    TwoPathsRow1Snoc();
    assert [false, false, false] + [true] == [false, false, false, true];
  }

  lemma TwoPathsRow1Snoc()
    ensures TrueIndices([false, false, false] + [true]) == [3]
  {
    DiamondRows();
    TrueIndicesSnoc([false, false, false], true);
    assert [] + [3] == [3];
  }

  lemma TwoPathsRow3()
    ensures TrueIndices([false, false, false, false]) == []
  {
    DiamondRows();
    TrueIndicesSnoc([false, false, false], false);
    assert [false, false, false] + [false] == [false, false, false, false];
  }

  lemma MatrixIsTwoPaths()
    ensures IsTwoPaths(ToCapability(TwoPaths()))
  {
    TwoPathsAdjacents();
    var g := ToCapability(TwoPaths());
    assert 0 in g.adjacency && 1 in g.adjacency && 2 in g.adjacency && 3 in g.adjacency;
  }

  lemma TwoPathsAdjacents()
    ensures Adjacents(TwoPaths(), 0) == [1, 2] && Adjacents(TwoPaths(), 1) == [3]
    ensures Adjacents(TwoPaths(), 2) == [3] && Adjacents(TwoPaths(), 3) == []
  {
    TwoPathsAdjacent0();
    TwoPathsAdjacent1();
    TwoPathsAdjacent2();
    TwoPathsAdjacent3();
  }

  lemma TwoPathsAdjacent0()
    ensures Adjacents(TwoPaths(), 0) == [1, 2]
  {
    TwoPathsRow0();
    assert TwoPaths()[0] == [false, true, true, false];
  }

  lemma TwoPathsAdjacent1()
    ensures Adjacents(TwoPaths(), 1) == [3]
  {
    TwoPathsRow1();
    assert TwoPaths()[1] == [false, false, false, true];
  }

  lemma TwoPathsAdjacent2()
    ensures Adjacents(TwoPaths(), 2) == [3]
  {
    TwoPathsRow1();
    assert TwoPaths()[2] == [false, false, false, true];
  }

  lemma TwoPathsAdjacent3()
    ensures Adjacents(TwoPaths(), 3) == []
  {
    TwoPathsRow3();
    assert TwoPaths()[3] == [false, false, false, false];
  }

  /** The breadth-first run over the matrix backend. */
  method MatrixBfsRun() returns (out: seq<nat>, last: Option<nat>)
    ensures out == [0, 1, 2, 3, 3] && last == None
  {
    var g := ToCapability(TwoPaths());
    MatrixIsTwoPaths();
    out, last := BfsDuplicatesRun(g);
  }
}
