/**
 * The two depth-first traversals as state machines over values: one call of
 * `next` is one application of `PreNext` or `PostNext` to the iterator's
 * visited set and stack. The invariants below are what every reachable
 * state satisfies; the iterator classes in module Dfs are proved to take
 * exactly these steps.
 */
module DfsModel {
  import opened Wrappers
  import opened Seqs
  import opened Capability
  import opened Frontier

  // ---------------------------------------------------------------------
  // Pre-order
  // ---------------------------------------------------------------------

  /** The fields of a pre-order iterator; the top of the stack is its last element. */
  datatype PreState<K> = PreState(visited: set<K>, stack: seq<K>)

  /**
   * One call of pre-order `next`: pop the top, mark it visited, push every
   * successor not visited at that moment, return the popped key; `None`
   * and no change once the stack is empty.
   */
  function PreNext<K(!new)>(g: Graph<K>, s: PreState<K>): (r: (Option<K>, PreState<K>))
    requires g.Closed() && Registered(g, s.stack)
    ensures r.0.None? <==> s.stack == []
    ensures r.0.None? ==> r.1 == s
    ensures r.0.Some? ==> r.0.value == s.stack[|s.stack| - 1]
    ensures r.0.Some? ==> r.1.visited == s.visited + {r.0.value}
    ensures Registered(g, r.1.stack)
  {
    if s.stack == [] then (None, s)
    else
      var x := s.stack[|s.stack| - 1];
      var visited := s.visited + {x};
      (Some(x), PreState(visited, s.stack[..|s.stack| - 1] + Unvisited(g.Adjacents(x), visited)))
  }

  /** The measure that each emitting step lowers. */
  ghost function PreMeasure<K(!new)>(g: Graph<K>, s: PreState<K>): (nat, nat) {
    (Pending(g, s.visited), VisitedCount(s.stack, s.visited))
  }

  /**
   * What holds of every state a pre-order traversal from `root`, started with
   * the visited set `preseeded`, reaches after emitting `emitted`.
   */
  ghost predicate PreInv<K(!new)>(g: Graph<K>, preseeded: set<K>, root: K, s: PreState<K>, emitted: seq<K>) {
    && Registered(g, s.stack)
    // visited gains exactly the popped keys
    && s.visited == preseeded + (set x | x in emitted)
    // the root is emitted first, even when it was preseeded
    && (emitted == [] ==> s.stack == [root])
    && (emitted != [] ==> emitted[0] == root)
    // everything pushed or emitted is reachable from the root
    && (forall x :: x in s.stack ==> Reachable(g, root, x))
    && (forall x :: x in emitted ==> Reachable(g, root, x))
    // every successor of an emitted key is visited or still pending
    && (forall x, y :: x in emitted && g.Edge(x, y) ==> y in s.visited || y in s.stack)
  }

  /** `new` and `with_visited`: only the root on the stack. */
  lemma PreInitial<K(!new)>(g: Graph<K>, preseeded: set<K>, root: K)
    requires root in g.adjacency
    ensures PreInv(g, preseeded, root, PreState(preseeded, [root]), [])
  {
    ReachableZero(g, root);
  }

  /** Each call of `next` keeps the invariant, the emitted key appended to the history. */
  lemma PreNextPreserves<K(!new)>(g: Graph<K>, preseeded: set<K>, root: K, s: PreState<K>, emitted: seq<K>)
    requires g.Closed() && PreInv(g, preseeded, root, s, emitted)
    ensures var r := PreNext(g, s);
            PreInv(g, preseeded, root, r.1, if r.0.Some? then emitted + [r.0.value] else emitted)
  {
    if s.stack != [] {
      var r := PreNext(g, s);
      var x := r.0.value;
      var rest := s.stack[..|s.stack| - 1];
      var pushed := Unvisited(g.Adjacents(x), r.1.visited);
      var e := emitted + [x];
      assert s.stack == rest + [x];
      assert r.1.stack == rest + pushed;
      assert x in s.stack;
      forall y | y in pushed ensures Reachable(g, root, y) {
        ReachableStep(g, root, x, y);
      }
      assert (set z | z in e) == (set z | z in emitted) + {x};
      forall z, y | z in e && g.Edge(z, y) ensures y in r.1.visited || y in r.1.stack {
        if z != x {
          assert z in emitted;
        }
      }
    }
  }

  /** Each emitting call lowers the measure, so a traversal ends even on a cyclic graph. */
  lemma PreNextDecreases<K(!new)>(g: Graph<K>, s: PreState<K>)
    requires g.Closed() && Registered(g, s.stack) && s.stack != []
    ensures LexLess(PreMeasure(g, PreNext(g, s).1), PreMeasure(g, s))
  {
    var r := PreNext(g, s);
    var x := r.0.value;
    var rest := s.stack[..|s.stack| - 1];
    var pushed := Unvisited(g.Adjacents(x), r.1.visited);
    assert s.stack == rest + [x];
    if x !in s.visited {
      PendingShrinks(g, s.visited, x);
    } else {
      assert r.1.visited == s.visited;
      VisitedCountAppend(rest, pushed, s.visited);
      VisitedCountAppend(rest, [x], s.visited);
      assert [x][..0] == [];
    }
  }

  /**
   * Completeness: once the stack is empty, the root has been emitted, and so
   * has every key reachable from it along a path that avoids the other
   * preseeded keys (the root is expanded even when it was preseeded).
   */
  lemma PreComplete<K(!new)>(g: Graph<K>, preseeded: set<K>, root: K, s: PreState<K>, emitted: seq<K>, b: K)
    requires PreInv(g, preseeded, root, s, emitted) && s.stack == []
    ensures emitted != [] && emitted[0] == root
    ensures ReachableAvoiding(g, preseeded - {root}, root, b) ==> b in emitted
  {
    var inside := set x | x in emitted;
    if ReachableAvoiding(g, preseeded - {root}, root, b) {
      assert root in inside;
      forall x, y | x in inside && g.Edge(x, y) ensures y in inside || y in preseeded - {root} {
        assert y in s.visited;
      }
      AvoidingPathsStayInside(g, preseeded - {root}, inside, root, b);
    }
  }

  // ---------------------------------------------------------------------
  // Post-order
  // ---------------------------------------------------------------------

  /** A stack entry is waiting either to be expanded or to be emitted. */
  datatype VisitTag = Discovered | Finished

  datatype Entry<K> = Entry(key: K, tag: VisitTag)

  /** The fields of a post-order iterator; the top of the stack is its last element. */
  datatype PostState<K> = PostState(visited: set<K>, stack: seq<Entry<K>>)

  /** Keys pushed by the push loop, each tagged Discovered. */
  function AsDiscovered<K(!new)>(s: seq<K>): (r: seq<Entry<K>>)
    ensures |r| == |s|
    ensures forall i :: 0 <= i < |s| ==> r[i] == Entry(s[i], Discovered)
    ensures forall e :: e in r <==> e.tag == Discovered && e.key in s
  {
    seq(|s|, i requires 0 <= i < |s| => Entry(s[i], Discovered))
  }

  lemma AsDiscoveredSnoc<K(!new)>(s: seq<K>, x: K)
    ensures AsDiscovered(s + [x]) == AsDiscovered(s) + [Entry(x, Discovered)]
  {
  }

  /** The keys of a stack of entries. */
  function KeysOf<K(!new)>(s: seq<Entry<K>>): set<K> {
    set e | e in s :: e.key
  }

  ghost predicate EntriesRegistered<K(!new)>(g: Graph<K>, s: seq<Entry<K>>) {
    forall e :: e in s ==> e.key in g.adjacency
  }

  /**
   * A Discovered pop of key `x` above `rest`: the entry comes back as Finished,
   * and above it every successor not yet visited (with `x` now visited) is
   * pushed as Discovered, so all of them are handled before `x` is emitted.
   */
  function Discover<K(!new)>(g: Graph<K>, s: PostState<K>): (r: PostState<K>)
    requires g.Closed() && EntriesRegistered(g, s.stack)
    requires s.stack != [] && s.stack[|s.stack| - 1].tag == Discovered
    ensures r.visited == s.visited + {s.stack[|s.stack| - 1].key}
    ensures EntriesRegistered(g, r.stack)
  {
    var x := s.stack[|s.stack| - 1].key;
    var visited := s.visited + {x};
    PostState(visited, s.stack[..|s.stack| - 1] + [Entry(x, Finished)]
                       + AsDiscovered(Unvisited(g.Adjacents(x), visited)))
  }

  /**
   * What a Discovered pop leaves: the entries below untouched, the key's
   * Finished entry in the popped slot, and above it exactly the key's
   * successors not yet visited, each as Discovered. Nothing is emitted.
   */
  lemma DiscoverShape<K(!new)>(g: Graph<K>, s: PostState<K>)
    requires g.Closed() && EntriesRegistered(g, s.stack)
    requires s.stack != [] && s.stack[|s.stack| - 1].tag == Discovered
    ensures var x := s.stack[|s.stack| - 1].key;
            var r := Discover(g, s);
            && |r.stack| >= |s.stack|
            && r.stack[..|s.stack| - 1] == s.stack[..|s.stack| - 1]
            && r.stack[|s.stack| - 1] == Entry(x, Finished)
            && (forall i :: |s.stack| <= i < |r.stack| ==>
                  r.stack[i].tag == Discovered && g.Edge(x, r.stack[i].key) && r.stack[i].key !in r.visited)
            && (forall y :: g.Edge(x, y) && y !in r.visited ==> Entry(y, Discovered) in r.stack[|s.stack|..])
  {
    var x := s.stack[|s.stack| - 1].key;
    var r := Discover(g, s);
    var pushed := AsDiscovered(Unvisited(g.Adjacents(x), r.visited));
    assert r.stack[|s.stack|..] == pushed;
  }

  /** Weight of an entry in the second part of the termination measure. */
  function EntryWeight<K(!new)>(e: Entry<K>, visited: set<K>): nat {
    if e.tag == Finished then 1 else if e.key in visited then 2 else 0
  }

  function PostWeight<K(!new)>(s: seq<Entry<K>>, visited: set<K>): nat {
    if s == [] then 0 else PostWeight(s[..|s| - 1], visited) + EntryWeight(s[|s| - 1], visited)
  }

  lemma {:induction false} PostWeightAppend<K(!new)>(s: seq<Entry<K>>, t: seq<Entry<K>>, visited: set<K>)
    ensures PostWeight(s + t, visited) == PostWeight(s, visited) + PostWeight(t, visited)
    decreases |t|
  {
    if t == [] {
      assert s + t == s;
    } else {
      var t' := t[..|t| - 1];
      assert (s + t)[..|s + t| - 1] == s + t';
      PostWeightAppend(s, t', visited);
    }
  }

  lemma {:induction false} PostWeightUnvisited<K(!new)>(s: seq<K>, visited: set<K>)
    requires forall x :: x in s ==> x !in visited
    ensures PostWeight(AsDiscovered(s), visited) == 0
    decreases |s|
  {
    if s != [] {
      var s' := s[..|s| - 1];
      assert AsDiscovered(s)[..|s| - 1] == AsDiscovered(s');
      PostWeightUnvisited(s', visited);
    }
  }

  ghost function PostMeasure<K(!new)>(g: Graph<K>, s: PostState<K>): (nat, nat) {
    (Pending(g, s.visited), PostWeight(s.stack, s.visited))
  }

  /**
   * Every Discovered pop lowers the measure: a key not visited before lowers
   * the first part; an entry pushed twice and popped after its key was
   * visited turns weight 2 into the weight 1 of its Finished entry, and the
   * successors it pushes are unvisited and weigh nothing.
   */
  lemma DiscoverDecreases<K(!new)>(g: Graph<K>, s: PostState<K>)
    requires g.Closed() && EntriesRegistered(g, s.stack)
    requires s.stack != [] && s.stack[|s.stack| - 1].tag == Discovered
    ensures LexLess(PostMeasure(g, Discover(g, s)), PostMeasure(g, s))
  {
    var top := s.stack[|s.stack| - 1];
    var x := top.key;
    var rest := s.stack[..|s.stack| - 1];
    assert s.stack == rest + [top];
    if x !in s.visited {
      assert top in s.stack;
      PendingShrinks(g, s.visited, x);
    } else {
      var pushed := AsDiscovered(Unvisited(g.Adjacents(x), s.visited + {x}));
      assert s.visited + {x} == s.visited;
      PostWeightAppend(rest + [Entry(x, Finished)], pushed, s.visited);
      PostWeightAppend(rest, [Entry(x, Finished)], s.visited);
      PostWeightAppend(rest, [top], s.visited);
      PostWeightUnvisited(Unvisited(g.Adjacents(x), s.visited), s.visited);
      assert [top][..0] == [] && [Entry(x, Finished)][..0] == [];
    }
  }

  /**
   * One call of post-order `next`: Discovered pops are expanded without
   * emitting until a Finished entry is popped, whose key is returned; `None`
   * and no change once the stack is empty. (The source re-enters `next`
   * recursively after each Discovered pop.)
   */
  function PostNext<K(!new)>(g: Graph<K>, s: PostState<K>): (r: (Option<K>, PostState<K>))
    requires g.Closed() && EntriesRegistered(g, s.stack)
    ensures r.0.None? <==> s.stack == []
    ensures r.0.None? ==> r.1 == s
    ensures s.visited <= r.1.visited
    ensures EntriesRegistered(g, r.1.stack)
    decreases Pending(g, s.visited), PostWeight(s.stack, s.visited)
  {
    if s.stack == [] then (None, s)
    else if s.stack[|s.stack| - 1].tag == Finished then
      (Some(s.stack[|s.stack| - 1].key), Finish(s))
    else
      DiscoverDecreases(g, s);
      PostNext(g, Discover(g, s))
  }

  /** A Finished pop: the entry leaves the stack and its key is emitted. */
  function Finish<K(!new)>(s: PostState<K>): (r: PostState<K>)
    requires s.stack != []
    ensures r.visited == s.visited && |r.stack| == |s.stack| - 1
  {
    PostState(s.visited, s.stack[..|s.stack| - 1])
  }

  /** Shape facts of every reachable post-order state. */
  ghost predicate PostBasic<K(!new)>(g: Graph<K>, preseeded: set<K>, root: K, s: PostState<K>, emitted: seq<K>) {
    && EntriesRegistered(g, s.stack)
    && Registered(g, emitted)
    && preseeded <= s.visited
    // everything pushed or emitted is reachable from the root
    && (forall e :: e in s.stack ==> Reachable(g, root, e.key))
    && (forall x :: x in emitted ==> Reachable(g, root, x))
    // the root's entry sits at the bottom, so the root is emitted last
    && (s.stack == [] ==> emitted != [] && emitted[|emitted| - 1] == root)
    && (s.stack != [] ==> s.stack[0].key == root && (s.stack[0].tag == Discovered ==> |s.stack| == 1))
    // Finished entries and emitted keys have been visited
    && (forall e :: e in s.stack && e.tag == Finished ==> e.key in s.visited)
    && (forall x :: x in emitted ==> x in s.visited)
    // apart from the root, no preseeded key is ever pushed or emitted
    && (forall e :: e in s.stack && e.key in preseeded ==> e.key == root)
    && (forall x :: x in emitted && x in preseeded ==> x == root)
  }

  /** Bookkeeping for completeness: what an expanded key still owes. */
  ghost predicate PostPending<K(!new)>(g: Graph<K>, preseeded: set<K>, s: PostState<K>, emitted: seq<K>) {
    // each successor of an expanded key (emitted, or waiting as Finished) is
    // visited or waits as Discovered
    && (forall x, y :: (x in emitted || Entry(x, Finished) in s.stack) && g.Edge(x, y) ==>
          y in s.visited || Entry(y, Discovered) in s.stack)
    // each key visited here is emitted or waits as Finished
    && (forall x :: x in s.visited && x !in preseeded ==> x in emitted || Entry(x, Finished) in s.stack)
  }

  /** Everything above a Finished entry was reached from its key by at least one edge. */
  ghost predicate PostNested<K(!new)>(g: Graph<K>, s: PostState<K>) {
    forall i, j :: 0 <= i < j < |s.stack| && s.stack[i].tag == Finished ==>
      ReachablePlus(g, s.stack[i].key, s.stack[j].key)
  }

  /**
   * The finish-order facts of an acyclic graph: a Finished entry's successors
   * are preseeded, emitted, or still above it; and every emitted key's
   * successors were first emitted before it (or preseeded).
   */
  ghost predicate PostOrdered<K(!new)>(g: Graph<K>, preseeded: set<K>, s: PostState<K>, emitted: seq<K>) {
    && (forall i, v :: 0 <= i < |s.stack| && s.stack[i].tag == Finished && g.Edge(s.stack[i].key, v) ==>
          v in preseeded || v in emitted || v in KeysOf(s.stack[i + 1..]))
    && (forall u, v :: u in emitted && g.Edge(u, v) ==>
          v in preseeded || (v in emitted && IndexOf(emitted, v) < IndexOf(emitted, u)))
  }

  /**
   * What holds of every state a post-order traversal from `root`, started
   * with the visited set `preseeded`, reaches after emitting `emitted`.
   */
  ghost predicate PostInv<K(!new)>(g: Graph<K>, preseeded: set<K>, root: K, s: PostState<K>, emitted: seq<K>) {
    && PostBasic(g, preseeded, root, s, emitted)
    && PostPending(g, preseeded, s, emitted)
    && PostNested(g, s)
    && (Acyclic(g) ==> PostOrdered(g, preseeded, s, emitted))
  }

  lemma KeysOfAppend<K(!new)>(a: seq<Entry<K>>, b: seq<Entry<K>>)
    ensures KeysOf(a + b) == KeysOf(a) + KeysOf(b)
  {
    forall k | k in KeysOf(a + b) ensures k in KeysOf(a) + KeysOf(b) {
      var e :| e in a + b && e.key == k;
      if e in a { assert k in KeysOf(a); } else { assert k in KeysOf(b); }
    }
    forall k | k in KeysOf(a) + KeysOf(b) ensures k in KeysOf(a + b) {
      if k in KeysOf(a) {
        var e :| e in a && e.key == k;
        assert e in a + b;
      } else {
        var e :| e in b && e.key == k;
        assert e in a + b;
      }
    }
  }

  /** `new` and `with_visited`: only the root, Discovered, on the stack. */
  lemma PostInitial<K(!new)>(g: Graph<K>, preseeded: set<K>, root: K)
    requires root in g.adjacency
    ensures PostInv(g, preseeded, root, PostState(preseeded, [Entry(root, Discovered)]), [])
  {
    ReachableZero(g, root);
  }

  /** Each entry after a Discovered pop was there before, is the popped key's Finished entry, or was just pushed. */
  lemma DiscoverMembers<K(!new)>(g: Graph<K>, s: PostState<K>, e: Entry<K>)
    requires g.Closed() && EntriesRegistered(g, s.stack)
    requires s.stack != [] && s.stack[|s.stack| - 1].tag == Discovered
    requires e in Discover(g, s).stack
    ensures var x := s.stack[|s.stack| - 1].key;
            || e in s.stack
            || e == Entry(x, Finished)
            || (e.tag == Discovered && g.Edge(x, e.key) && e.key !in Discover(g, s).visited)
  {
    var n := |s.stack|;
    var s' := Discover(g, s);
    DiscoverShape(g, s);
    var j :| 0 <= j < |s'.stack| && s'.stack[j] == e;
    if j < n - 1 {
      assert e == s'.stack[..n - 1][j];
      assert e == s.stack[j];
    }
  }

  /** A Discovered pop keeps the shape facts. */
  lemma DiscoverBasic<K(!new)>(g: Graph<K>, preseeded: set<K>, root: K, s: PostState<K>, emitted: seq<K>)
    requires g.Closed() && PostBasic(g, preseeded, root, s, emitted)
    requires s.stack != [] && s.stack[|s.stack| - 1].tag == Discovered
    ensures PostBasic(g, preseeded, root, Discover(g, s), emitted)
  {
    var n := |s.stack|;
    var x := s.stack[n - 1].key;
    var s' := Discover(g, s);
    assert s.stack[n - 1] in s.stack;
    forall e | e in s'.stack
      ensures Reachable(g, root, e.key)
      ensures e.tag == Finished ==> e.key in s'.visited
      ensures e.key in preseeded ==> e.key == root
    {
      DiscoverMembers(g, s, e);
      if e !in s.stack && e != Entry(x, Finished) {
        ReachableStep(g, root, x, e.key);
      }
    }
    DiscoverShape(g, s);
    if n > 1 {
      assert s'.stack[0] == s'.stack[..n - 1][0];
    }
  }

  /** A Discovered pop keeps the completeness bookkeeping. */
  lemma DiscoverPending<K(!new)>(g: Graph<K>, preseeded: set<K>, root: K, s: PostState<K>, emitted: seq<K>)
    requires g.Closed() && PostBasic(g, preseeded, root, s, emitted) && PostPending(g, preseeded, s, emitted)
    requires s.stack != [] && s.stack[|s.stack| - 1].tag == Discovered
    ensures PostPending(g, preseeded, Discover(g, s), emitted)
  {
    var n := |s.stack|;
    var top := s.stack[n - 1];
    var x := top.key;
    var rest := s.stack[..n - 1];
    var s' := Discover(g, s);
    var pushed := AsDiscovered(Unvisited(g.Adjacents(x), s'.visited));
    assert s.stack == rest + [top];
    assert s'.stack == rest + [Entry(x, Finished)] + pushed;
    forall z, y | (z in emitted || Entry(z, Finished) in s'.stack) && g.Edge(z, y)
      ensures y in s'.visited || Entry(y, Discovered) in s'.stack
    {
      if z == x {
        if y !in s'.visited {
          assert Entry(y, Discovered) in pushed;
        }
      } else {
        if z !in emitted {
          DiscoverMembers(g, s, Entry(z, Finished));
        }
        if y !in s.visited {
          assert Entry(y, Discovered) in s.stack;
          if Entry(y, Discovered) != top {
            assert Entry(y, Discovered) in rest;
          }
        }
      }
    }
    forall z | z in s'.visited && z !in preseeded
      ensures z in emitted || Entry(z, Finished) in s'.stack
    {
      if z != x && z !in emitted {
        assert Entry(z, Finished) in s.stack;
        assert Entry(z, Finished) in rest;
      }
    }
  }

  /** A Discovered pop keeps the nesting of Finished entries. */
  lemma DiscoverNested<K(!new)>(g: Graph<K>, s: PostState<K>)
    requires g.Closed() && EntriesRegistered(g, s.stack) && PostNested(g, s)
    requires s.stack != [] && s.stack[|s.stack| - 1].tag == Discovered
    ensures PostNested(g, Discover(g, s))
  {
    var n := |s.stack|;
    var x := s.stack[n - 1].key;
    var s' := Discover(g, s);
    DiscoverShape(g, s);
    forall i, j | 0 <= i < j < |s'.stack| && s'.stack[i].tag == Finished
      ensures ReachablePlus(g, s'.stack[i].key, s'.stack[j].key)
    {
      if i < n - 1 {
        assert s'.stack[i] == s'.stack[..n - 1][i];
      }
      if j < n - 1 {
        assert s'.stack[j] == s'.stack[..n - 1][j];
      } else if j == n - 1 {
        assert ReachablePlus(g, s.stack[i].key, s.stack[n - 1].key);
      } else {
        var y := s'.stack[j].key;
        assert g.Edge(x, y);
        if i == n - 1 {
          ReachablePlusEdge(g, x, y);
        } else {
          assert ReachablePlus(g, s.stack[i].key, s.stack[n - 1].key);
          ReachablePlusStep(g, s.stack[i].key, x, y);
        }
      }
    }
  }

  /**
   * On an acyclic graph a Discovered pop keeps the finish-order facts: a
   * successor of the expanded key that is already visited cannot still be
   * waiting below it as Finished, since that would close a cycle.
   */
  lemma DiscoverOrdered<K(!new)>(g: Graph<K>, preseeded: set<K>, root: K, s: PostState<K>, emitted: seq<K>)
    requires g.Closed() && Acyclic(g)
    requires PostBasic(g, preseeded, root, s, emitted) && PostPending(g, preseeded, s, emitted)
    requires PostNested(g, s) && PostOrdered(g, preseeded, s, emitted)
    requires s.stack != [] && s.stack[|s.stack| - 1].tag == Discovered
    ensures PostOrdered(g, preseeded, Discover(g, s), emitted)
  {
    var n := |s.stack|;
    var s' := Discover(g, s);
    forall i, v | 0 <= i < |s'.stack| && s'.stack[i].tag == Finished && g.Edge(s'.stack[i].key, v)
      ensures v in preseeded || v in emitted || v in KeysOf(s'.stack[i + 1..])
    {
      if i < n - 1 {
        DiscoverKeepsAbove(g, s, i);
        assert s'.stack[i] == s.stack[i];
      } else if i == n - 1 {
        DiscoverNewFinished(g, preseeded, s, emitted, v);
      }
    }
  }

  /** Below the expanded entry, the keys above each position only grow. */
  lemma DiscoverKeepsAbove<K(!new)>(g: Graph<K>, s: PostState<K>, i: nat)
    requires g.Closed() && EntriesRegistered(g, s.stack)
    requires s.stack != [] && s.stack[|s.stack| - 1].tag == Discovered
    requires i < |s.stack| - 1
    ensures Discover(g, s).stack[i] == s.stack[i]
    ensures KeysOf(s.stack[i + 1..]) <= KeysOf(Discover(g, s).stack[i + 1..])
  {
    var n := |s.stack|;
    var s' := Discover(g, s);
    DiscoverShape(g, s);
    assert s'.stack[i] == s'.stack[..n - 1][i];
    var above, above' := KeysOf(s.stack[i + 1..]), KeysOf(s'.stack[i + 1..]);
    forall k | k in above
      ensures k in above'
    {
      var e :| e in s.stack[i + 1..] && e.key == k;
      var j :| 0 <= j < n - i - 1 && s.stack[i + 1..][j] == e;
      var e' := s'.stack[i + 1 + j];
      if i + 1 + j < n - 1 {
        assert e' == s'.stack[..n - 1][i + 1 + j];
      }
      assert e'.key == k;
      assert e' == s'.stack[i + 1..][j];
    }
  }

  /** The successors of the expanded key are preseeded, emitted, or pushed above its Finished entry. */
  lemma DiscoverNewFinished<K(!new)>(g: Graph<K>, preseeded: set<K>, s: PostState<K>, emitted: seq<K>, v: K)
    requires g.Closed() && Acyclic(g)
    requires EntriesRegistered(g, s.stack) && PostPending(g, preseeded, s, emitted)
    requires PostNested(g, s)
    requires s.stack != [] && s.stack[|s.stack| - 1].tag == Discovered
    requires g.Edge(s.stack[|s.stack| - 1].key, v)
    ensures v in preseeded || v in emitted || v in KeysOf(Discover(g, s).stack[|s.stack|..])
  {
    var x := s.stack[|s.stack| - 1].key;
    if v == x {
      ReachablePlusEdge(g, x, x);
      AcyclicNoCycle(g, x);
      assert false;
    } else if v !in s.visited {
      DiscoverPushes(g, s, v);
    } else if v !in preseeded {
      NoFinishedSuccessor(g, s, v);
    }
  }

  /** A successor of the expanded key not yet visited is pushed above its Finished entry. */
  lemma DiscoverPushes<K(!new)>(g: Graph<K>, s: PostState<K>, v: K)
    requires g.Closed() && EntriesRegistered(g, s.stack)
    requires s.stack != [] && s.stack[|s.stack| - 1].tag == Discovered
    requires g.Edge(s.stack[|s.stack| - 1].key, v) && v !in Discover(g, s).visited
    ensures v in KeysOf(Discover(g, s).stack[|s.stack|..])
  {
    DiscoverShape(g, s);
    var e := Entry(v, Discovered);
    assert e in Discover(g, s).stack[|s.stack|..];
  }

  /** On an acyclic graph no successor of the top key waits Finished below it. */
  lemma NoFinishedSuccessor<K(!new)>(g: Graph<K>, s: PostState<K>, v: K)
    requires Acyclic(g) && PostNested(g, s)
    requires s.stack != [] && g.Edge(s.stack[|s.stack| - 1].key, v)
    ensures Entry(v, Finished) !in s.stack
  {
    var n := |s.stack|;
    var x := s.stack[n - 1].key;
    if Entry(v, Finished) in s.stack {
      var k :| 0 <= k < n && s.stack[k] == Entry(v, Finished);
      if k == n - 1 {
        ReachablePlusEdge(g, x, x);
        AcyclicNoCycle(g, x);
        assert false;
      }
      assert ReachablePlus(g, v, x);
      ReachablePlusStep(g, v, x, v);
      AcyclicNoCycle(g, v);
      assert false;
    }
  }

  /** A Finished pop keeps the shape facts, its key appended to the emissions. */
  lemma FinishBasic<K(!new)>(g: Graph<K>, preseeded: set<K>, root: K, s: PostState<K>, emitted: seq<K>)
    requires PostBasic(g, preseeded, root, s, emitted)
    requires s.stack != [] && s.stack[|s.stack| - 1].tag == Finished
    ensures PostBasic(g, preseeded, root, Finish(s), emitted + [s.stack[|s.stack| - 1].key])
  {
    var top := s.stack[|s.stack| - 1];
    assert top in s.stack;
    FinishKeepsBelow(g, preseeded, root, s);
  }

  /** The entries below a popped top keep their shape facts. */
  lemma FinishKeepsBelow<K(!new)>(g: Graph<K>, preseeded: set<K>, root: K, s: PostState<K>)
    requires EntriesRegistered(g, s.stack)
    requires forall e :: e in s.stack ==> Reachable(g, root, e.key)
    requires s.stack != [] ==> s.stack[0].key == root && (s.stack[0].tag == Discovered ==> |s.stack| == 1)
    requires forall e :: e in s.stack && e.tag == Finished ==> e.key in s.visited
    requires forall e :: e in s.stack && e.key in preseeded ==> e.key == root
    requires s.stack != [] && s.stack[|s.stack| - 1].tag == Finished
    ensures var rest := s.stack[..|s.stack| - 1];
            && EntriesRegistered(g, rest)
            && (forall e :: e in rest ==> Reachable(g, root, e.key))
            && (rest != [] ==> rest[0].key == root && (rest[0].tag == Discovered ==> |rest| == 1))
            && (forall e :: e in rest && e.tag == Finished ==> e.key in s.visited)
            && (forall e :: e in rest && e.key in preseeded ==> e.key == root)
  {
    var rest := s.stack[..|s.stack| - 1];
    forall e | e in rest ensures e in s.stack {
    }
    if rest != [] {
      assert rest[0] == s.stack[0];
    }
  }

  /** A Finished pop keeps the completeness bookkeeping. */
  lemma FinishPending<K(!new)>(g: Graph<K>, preseeded: set<K>, s: PostState<K>, emitted: seq<K>)
    requires PostPending(g, preseeded, s, emitted)
    requires s.stack != [] && s.stack[|s.stack| - 1].tag == Finished
    ensures PostPending(g, preseeded, Finish(s), emitted + [s.stack[|s.stack| - 1].key])
  {
    var n := |s.stack|;
    var top := s.stack[n - 1];
    var rest := s.stack[..n - 1];
    var e := emitted + [top.key];
    assert s.stack == rest + [top];
    forall x, y | (x in e || Entry(x, Finished) in rest) && g.Edge(x, y)
      ensures y in s.visited || Entry(y, Discovered) in rest
    {
      if x !in emitted && Entry(x, Finished) !in rest {
        assert top == Entry(x, Finished);
      }
      assert x in emitted || Entry(x, Finished) in s.stack;
      if y !in s.visited {
        assert Entry(y, Discovered) in s.stack;
      }
    }
    forall x | x in s.visited && x !in preseeded ensures x in e || Entry(x, Finished) in rest {
      if x !in emitted && x != top.key {
        assert Entry(x, Finished) in s.stack;
      }
    }
  }

  /** A Finished pop keeps the nesting: it only shortens the stack. */
  lemma FinishNested<K(!new)>(g: Graph<K>, s: PostState<K>)
    requires PostNested(g, s) && s.stack != []
    ensures PostNested(g, Finish(s))
  {
    var s' := Finish(s);
    forall i, j | 0 <= i < j < |s'.stack| && s'.stack[i].tag == Finished
      ensures ReachablePlus(g, s'.stack[i].key, s'.stack[j].key)
    {
      assert s'.stack[i] == s.stack[i] && s'.stack[j] == s.stack[j];
    }
  }

  /**
   * On an acyclic graph a Finished pop keeps the finish-order facts: when a
   * key is emitted for the first time, each of its successors is preseeded
   * or was already emitted.
   */
  lemma FinishOrdered<K(!new)>(g: Graph<K>, preseeded: set<K>, s: PostState<K>, emitted: seq<K>)
    requires PostOrdered(g, preseeded, s, emitted)
    requires s.stack != [] && s.stack[|s.stack| - 1].tag == Finished
    ensures PostOrdered(g, preseeded, Finish(s), emitted + [s.stack[|s.stack| - 1].key])
  {
    var n := |s.stack|;
    var top := s.stack[n - 1];
    var x := top.key;
    var rest := s.stack[..n - 1];
    var e := emitted + [x];
    assert s.stack == rest + [top];
    forall i, v | 0 <= i < |rest| && rest[i].tag == Finished && g.Edge(rest[i].key, v)
      ensures v in preseeded || v in e || v in KeysOf(rest[i + 1..])
    {
      assert rest[i] == s.stack[i];
      assert s.stack[i + 1..] == rest[i + 1..] + [top];
      KeysOfAppend(rest[i + 1..], [top]);
      assert KeysOf([top]) == {x};
    }
    forall v | v in emitted ensures v in e && IndexOf(e, v) == IndexOf(emitted, v) {
      IndexOfAppend(emitted, [x], v);
    }
    if x !in emitted {
      IndexOfAppendNew(emitted, [x], x);
      forall v | g.Edge(x, v) ensures v in preseeded || (v in e && IndexOf(e, v) < IndexOf(e, x)) {
        assert s.stack[n..] == [];
        assert KeysOf(s.stack[n..]) == {};
      }
    }
    forall u, v | u in e && g.Edge(u, v)
      ensures v in preseeded || (v in e && IndexOf(e, v) < IndexOf(e, u))
    {
      if u in emitted {
        assert v in preseeded || (v in emitted && IndexOf(emitted, v) < IndexOf(emitted, u));
      }
    }
  }

  /** A Finished pop keeps the invariant, its key appended to the history. */
  lemma FinishPreserves<K(!new)>(g: Graph<K>, preseeded: set<K>, root: K, s: PostState<K>, emitted: seq<K>)
    requires g.Closed() && PostInv(g, preseeded, root, s, emitted)
    requires s.stack != [] && s.stack[|s.stack| - 1].tag == Finished
    ensures PostInv(g, preseeded, root, Finish(s), emitted + [s.stack[|s.stack| - 1].key])
    ensures PostNext(g, s) == (Some(s.stack[|s.stack| - 1].key), Finish(s))
  {
    FinishBasic(g, preseeded, root, s, emitted);
    FinishPending(g, preseeded, s, emitted);
    FinishNested(g, s);
    if Acyclic(g) {
      FinishOrdered(g, preseeded, s, emitted);
    }
  }

  /** After a Discovered pop, `next` goes on from the expanded state. */
  lemma NextAfterDiscover<K(!new)>(g: Graph<K>, s: PostState<K>)
    requires g.Closed() && EntriesRegistered(g, s.stack)
    requires s.stack != [] && s.stack[|s.stack| - 1].tag == Discovered
    ensures PostNext(g, s) == PostNext(g, Discover(g, s))
  {
    DiscoverDecreases(g, s);
  }

  /** A Discovered pop keeps the invariant and emits nothing. */
  lemma DiscoverPreserves<K(!new)>(g: Graph<K>, preseeded: set<K>, root: K, s: PostState<K>, emitted: seq<K>)
    requires g.Closed() && PostInv(g, preseeded, root, s, emitted)
    requires s.stack != [] && s.stack[|s.stack| - 1].tag == Discovered
    ensures PostInv(g, preseeded, root, Discover(g, s), emitted)
  {
    DiscoverBasic(g, preseeded, root, s, emitted);
    DiscoverPending(g, preseeded, root, s, emitted);
    DiscoverNested(g, s);
    if Acyclic(g) {
      DiscoverOrdered(g, preseeded, root, s, emitted);
    }
  }

  /** Each call of `next` keeps the invariant, the emitted key appended to the history. */
  lemma {:induction false} PostNextPreserves<K(!new)>(g: Graph<K>, preseeded: set<K>, root: K, s: PostState<K>, emitted: seq<K>)
    requires g.Closed() && PostInv(g, preseeded, root, s, emitted)
    ensures var r := PostNext(g, s);
            PostInv(g, preseeded, root, r.1, if r.0.Some? then emitted + [r.0.value] else emitted)
    decreases Pending(g, s.visited), PostWeight(s.stack, s.visited)
  {
    if s.stack != [] {
      if s.stack[|s.stack| - 1].tag == Finished {
        FinishPreserves(g, preseeded, root, s, emitted);
      } else {
        DiscoverDecreases(g, s);
        DiscoverPreserves(g, preseeded, root, s, emitted);
        PostNextPreserves(g, preseeded, root, Discover(g, s), emitted);
        NextAfterDiscover(g, s);
      }
    }
  }

  /** Each emitting call lowers the measure, so a traversal ends even on a cyclic graph. */
  lemma {:induction false} PostNextDecreases<K(!new)>(g: Graph<K>, s: PostState<K>)
    requires g.Closed() && EntriesRegistered(g, s.stack) && s.stack != []
    ensures LexLess(PostMeasure(g, PostNext(g, s).1), PostMeasure(g, s))
    decreases Pending(g, s.visited), PostWeight(s.stack, s.visited)
  {
    if s.stack[|s.stack| - 1].tag == Finished {
      var rest := s.stack[..|s.stack| - 1];
      assert s.stack == rest + [s.stack[|s.stack| - 1]];
      PostWeightAppend(rest, [s.stack[|s.stack| - 1]], s.visited);
      assert [s.stack[|s.stack| - 1]][..0] == [];
    } else {
      DiscoverDecreases(g, s);
      PostNextDecreases(g, Discover(g, s));
    }
  }

  /**
   * Once the stack is empty the root was emitted last, and every key
   * reachable from the root along a path avoiding the other preseeded keys
   * has been emitted (the root is expanded even when it was preseeded).
   */
  lemma PostComplete<K(!new)>(g: Graph<K>, preseeded: set<K>, root: K, s: PostState<K>, emitted: seq<K>, b: K)
    requires PostInv(g, preseeded, root, s, emitted) && s.stack == []
    ensures emitted != [] && emitted[|emitted| - 1] == root
    ensures ReachableAvoiding(g, preseeded - {root}, root, b) ==> b in emitted
  {
    var inside := set x | x in emitted;
    if ReachableAvoiding(g, preseeded - {root}, root, b) {
      assert root in inside;
      forall x, y | x in inside && g.Edge(x, y) ensures y in inside || y in preseeded - {root} {
        assert y in s.visited;
      }
      AvoidingPathsStayInside(g, preseeded - {root}, inside, root, b);
    }
  }

  // ---------------------------------------------------------------------
  // Whole post-order runs
  // ---------------------------------------------------------------------

  /**
   * Calling post-order `next` until it returns `None`: the keys returned, in
   * order, and the visited set once the stack is empty.
   */
  function PostRun<K(!new)>(g: Graph<K>, s: PostState<K>): (r: (seq<K>, set<K>))
    requires g.Closed() && EntriesRegistered(g, s.stack)
    ensures r.0 == [] <==> s.stack == []
    ensures s.visited <= r.1
    decreases Pending(g, s.visited), PostWeight(s.stack, s.visited)
  {
    var n := PostNext(g, s);
    if n.0.None? then ([], s.visited)
    else
      PostNextDecreases(g, s);
      var rest := PostRun(g, n.1);
      ([n.0.value] + rest.0, rest.1)
  }

  /** While `top` is not empty, `next` works on it alone and leaves the entries `base` below it alone. */
  lemma {:induction false} PostNextAbove<K(!new)>(g: Graph<K>, v: set<K>, base: seq<Entry<K>>, top: seq<Entry<K>>)
    requires g.Closed() && EntriesRegistered(g, base) && EntriesRegistered(g, top) && top != []
    ensures EntriesRegistered(g, base + top)
    ensures var r := PostNext(g, PostState(v, top));
            PostNext(g, PostState(v, base + top)) == (r.0, PostState(r.1.visited, base + r.1.stack))
    decreases Pending(g, v), PostWeight(top, v)
  {
    var s, t := PostState(v, base + top), PostState(v, top);
    var m := |top|;
    assert (base + top)[|base + top| - 1] == top[m - 1];
    assert (base + top)[..|base + top| - 1] == base + top[..m - 1];
    if top[m - 1].tag == Discovered {
      var t' := Discover(g, t);
      assert Discover(g, s) == PostState(t'.visited, base + t'.stack);
      DiscoverDecreases(g, t);
      PostNextAbove(g, t'.visited, base, t'.stack);
    }
  }

  lemma PostRunUnfold<K(!new)>(g: Graph<K>, s: PostState<K>)
    requires g.Closed() && EntriesRegistered(g, s.stack) && s.stack != []
    ensures var n := PostNext(g, s);
            n.0.Some? && PostRun(g, s) == ([n.0.value] + PostRun(g, n.1).0, PostRun(g, n.1).1)
  {
  }

  /** A run on `top` above `base` empties `top` exactly as a run on `top` alone would, then runs on `base`. */
  lemma {:induction false} PostRunAbove<K(!new)>(g: Graph<K>, v: set<K>, base: seq<Entry<K>>, top: seq<Entry<K>>)
    requires g.Closed() && EntriesRegistered(g, base) && EntriesRegistered(g, top)
    ensures EntriesRegistered(g, base + top)
    ensures RunsAbove(g, v, base, top)
    decreases Pending(g, v), PostWeight(top, v)
  {
    if top == [] {
      assert base + top == base;
      assert PostRun(g, PostState(v, top)) == ([], v);
      assert [] + PostRun(g, PostState(v, base)).0 == PostRun(g, PostState(v, base)).0;
    } else {
      var r := PostNext(g, PostState(v, top));
      PostNextDecreases(g, PostState(v, top));
      PostRunAbove(g, r.1.visited, base, r.1.stack);
      PostRunAboveStep(g, v, base, top);
    }
  }

  /** The equation of `PostRunAbove`. */
  ghost predicate RunsAbove<K(!new)>(g: Graph<K>, v: set<K>, base: seq<Entry<K>>, top: seq<Entry<K>>)
    requires g.Closed() && EntriesRegistered(g, base) && EntriesRegistered(g, top)
  {
    var t := PostRun(g, PostState(v, top));
    var b := PostRun(g, PostState(t.1, base));
    EntriesRegistered(g, base + top) && PostRun(g, PostState(v, base + top)) == (t.0 + b.0, b.1)
  }

  /** `RunsAbove` for a non-empty `top`, given it for the state after one `next`. */
  lemma PostRunAboveStep<K(!new)>(g: Graph<K>, v: set<K>, base: seq<Entry<K>>, top: seq<Entry<K>>)
    requires g.Closed() && EntriesRegistered(g, base) && EntriesRegistered(g, top) && top != []
    requires RunsAbove(g, PostNext(g, PostState(v, top)).1.visited, base, PostNext(g, PostState(v, top)).1.stack)
    ensures RunsAbove(g, v, base, top)
  {
    PostRunUnfold(g, PostState(v, top));
    PostRunFirstAbove(g, v, base, top);
    var r := PostNext(g, PostState(v, top));
    assert PostState(r.1.visited, r.1.stack) == r.1;
    SeqAssoc([r.0.value], PostRun(g, r.1).0, PostRun(g, PostState(PostRun(g, r.1).1, base)).0);
  }

  /** The first `next` of a run on `top` above `base` is that of a run on `top` alone. */
  lemma PostRunFirstAbove<K(!new)>(g: Graph<K>, v: set<K>, base: seq<Entry<K>>, top: seq<Entry<K>>)
    requires g.Closed() && EntriesRegistered(g, base) && EntriesRegistered(g, top) && top != []
    ensures EntriesRegistered(g, base + top)
    ensures var r := PostNext(g, PostState(v, top));
            var s1 := PostState(r.1.visited, base + r.1.stack);
            && r.0.Some? && EntriesRegistered(g, s1.stack)
            && PostRun(g, PostState(v, base + top)) == ([r.0.value] + PostRun(g, s1).0, PostRun(g, s1).1)
  {
    PostNextAbove(g, v, base, top);
    PostRunUnfold(g, PostState(v, base + top));
  }

  /** A run from a lone Finished entry emits its key and nothing else. */
  lemma PostRunFinished<K(!new)>(g: Graph<K>, w: set<K>, x: K)
    requires g.Closed() && x in g.adjacency
    ensures PostRun(g, PostState(w, [Entry(x, Finished)])) == ([x], w)
  {
    assert [Entry(x, Finished)][..0] == [];
    assert PostNext(g, PostState(w, [Entry(x, Finished)])) == (Some(x), PostState(w, []));
    assert PostRun(g, PostState(w, [])) == ([], w);
    PostRunUnfold(g, PostState(w, [Entry(x, Finished)]));
    assert [x] + [] == [x];
  }

  /** A Discovered pop emits nothing, so the run from before it is the run from after it. */
  lemma PostRunDiscover<K(!new)>(g: Graph<K>, s: PostState<K>)
    requires g.Closed() && EntriesRegistered(g, s.stack)
    requires s.stack != [] && s.stack[|s.stack| - 1].tag == Discovered
    ensures PostRun(g, s) == PostRun(g, Discover(g, s))
  {
    DiscoverDecreases(g, s);
    assert PostNext(g, s) == PostNext(g, Discover(g, s));
  }

  /** A Finished `x` on top of `below`: the run emits `x`, then runs on `below`. */
  lemma PostRunFinishedAbove<K(!new)>(g: Graph<K>, w: set<K>, below: seq<Entry<K>>, x: K)
    requires g.Closed() && EntriesRegistered(g, below) && x in g.adjacency
    ensures EntriesRegistered(g, below + [Entry(x, Finished)])
    ensures PostRun(g, PostState(w, below + [Entry(x, Finished)])).0 == [x] + PostRun(g, PostState(w, below)).0
  {
    PostRunAbove(g, w, below, [Entry(x, Finished)]);
    PostRunFinished(g, w, x);
  }

  /** The run from a Discovered `x` on top of `below` is the run from its expansion. */
  lemma PostRunExpanded<K(!new)>(g: Graph<K>, v: set<K>, below: seq<Entry<K>>, x: K)
    requires g.Closed() && EntriesRegistered(g, below) && x in g.adjacency
    ensures EntriesRegistered(g, below + [Entry(x, Discovered)])
    ensures EntriesRegistered(g, below + [Entry(x, Finished)] + AsDiscovered(Unvisited(g.Adjacents(x), v + {x})))
    ensures PostRun(g, PostState(v, below + [Entry(x, Discovered)]))
              == PostRun(g, PostState(v + {x}, below + [Entry(x, Finished)] + AsDiscovered(Unvisited(g.Adjacents(x), v + {x}))))
  {
    var s := PostState(v, below + [Entry(x, Discovered)]);
    assert s.stack[..|s.stack| - 1] == below;
    PostRunDiscover(g, s);
  }

  /**
   * A run from a Discovered `x` on top of `below`: the run from the pushed
   * successors, then `x`, then the run on `below` from what was visited by then.
   */
  lemma PostExpansionShape<K(!new)>(g: Graph<K>, v: set<K>, below: seq<Entry<K>>, x: K)
    requires g.Closed() && EntriesRegistered(g, below) && x in g.adjacency
    ensures EntriesRegistered(g, below + [Entry(x, Discovered)])
    ensures var pushed := AsDiscovered(Unvisited(g.Adjacents(x), v + {x}));
            var inner := PostRun(g, PostState(v + {x}, pushed));
            PostRun(g, PostState(v, below + [Entry(x, Discovered)])).0
              == inner.0 + [x] + PostRun(g, PostState(inner.1, below)).0
  {
    PostRunExpanded(g, v, below, x);
    PostRunAbove(g, v + {x}, below + [Entry(x, Finished)], AsDiscovered(Unvisited(g.Adjacents(x), v + {x})));
    PostRunFinishedAbove(g, PostRun(g, PostState(v + {x}, AsDiscovered(Unvisited(g.Adjacents(x), v + {x})))).1, below, x);
    SeqAssoc(PostRun(g, PostState(v + {x}, AsDiscovered(Unvisited(g.Adjacents(x), v + {x})))).0, [x],
             PostRun(g, PostState(PostRun(g, PostState(v + {x}, AsDiscovered(Unvisited(g.Adjacents(x), v + {x})))).1, below)).0);
  }

  /** A run emits the key of every entry on the stack it starts from. */
  lemma {:induction false} PostRunEmitsAll<K(!new)>(g: Graph<K>, v: set<K>, st: seq<Entry<K>>)
    requires g.Closed() && EntriesRegistered(g, st)
    ensures forall e :: e in st ==> e.key in PostRun(g, PostState(v, st)).0
    decreases |st|
  {
    if st != [] {
      assert st == st[..|st| - 1] + [st[|st| - 1]];
      PostRunAbove(g, v, st[..|st| - 1], [st[|st| - 1]]);
      PostRunEmitsAll(g, PostRun(g, PostState(v, [st[|st| - 1]])).1, st[..|st| - 1]);
      PostRunEmitsOne(g, v, st[|st| - 1]);
    }
  }

  /** A run from a single entry emits its key. */
  lemma PostRunEmitsOne<K(!new)>(g: Graph<K>, v: set<K>, e: Entry<K>)
    requires g.Closed() && e.key in g.adjacency
    ensures EntriesRegistered(g, [e])
    ensures e.key in PostRun(g, PostState(v, [e])).0
  {
    if e.tag == Finished {
      PostRunFinished(g, v, e.key);
    } else {
      assert [] + [e] == [e];
      PostExpansionShape(g, v, [], e.key);
    }
  }

  /**
   * The finish order on every graph, cyclic or not: from a state whose top
   * entry is a Discovered `x`, the run emits a stretch that contains every
   * successor the expansion of `x` pushes, then `x`, and only then goes on
   * below.
   */
  lemma PostExpansion<K(!new)>(g: Graph<K>, v: set<K>, below: seq<Entry<K>>, x: K)
    requires g.Closed() && EntriesRegistered(g, below) && x in g.adjacency
    ensures EntriesRegistered(g, below + [Entry(x, Discovered)])
    ensures var pushed := Unvisited(g.Adjacents(x), v + {x});
            var inner := PostRun(g, PostState(v + {x}, AsDiscovered(pushed)));
            && (forall y :: y in pushed ==> y in inner.0)
            && PostRun(g, PostState(v, below + [Entry(x, Discovered)])).0
                 == inner.0 + [x] + PostRun(g, PostState(inner.1, below)).0
  {
    var pushed := Unvisited(g.Adjacents(x), v + {x});
    PostExpansionShape(g, v, below, x);
    PostRunEmitsAll(g, v + {x}, AsDiscovered(pushed));
    forall y | y in pushed ensures Entry(y, Discovered) in AsDiscovered(pushed) {
    }
  }
}
