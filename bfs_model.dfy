/**
 * The breadth-first traversal on values: one call of `next` is `BfsNext`.
 * Besides the facts it shares with pre-order (what is visited, what is
 * reachable, that it ends), the invariant carries a ghost level for every
 * queued key and a ghost depth for every emitted one: the number of edges of
 * a walk from the root that reaches it. It shows that keys come out level by
 * level, and that the first emission of a key carries its distance from the
 * root along walks that avoid the preseeded keys.
 */
module BfsModel {
  import opened Wrappers
  import opened Seqs
  import opened Capability
  import opened Frontier

  datatype BfsState<K(!new)> = BfsState(visited: set<K>, queue: seq<K>)

  /** `next`: pop the front, mark it visited, queue its successors not visited, return it. */
  function BfsNext<K(!new)>(g: Graph<K>, s: BfsState<K>): (r: (Option<K>, BfsState<K>))
    requires g.Closed() && Registered(g, s.queue)
    ensures r.0.None? <==> s.queue == []
    ensures r.0.None? ==> r.1 == s
    ensures r.0.Some? ==> r.0.value == s.queue[0] && r.1.visited == s.visited + {s.queue[0]}
    ensures r.0.Some? ==> |r.1.queue| >= |s.queue| - 1 && r.1.queue[..|s.queue| - 1] == s.queue[1..]
    ensures Registered(g, r.1.queue)
  {
    if s.queue == [] then (None, s)
    else
      var x := s.queue[0];
      var visited := s.visited + {x};
      (Some(x), BfsState(visited, s.queue[1..] + Unvisited(g.Adjacents(x), visited)))
  }

  /** The keys one step appends to the back of the queue. */
  function Pushed<K(!new)>(g: Graph<K>, s: BfsState<K>): seq<K>
    requires g.Closed() && Registered(g, s.queue) && s.queue != []
  {
    Unvisited(g.Adjacents(s.queue[0]), s.visited + {s.queue[0]})
  }

  /** The measure that each emitting step lowers. */
  ghost function BfsMeasure<K(!new)>(g: Graph<K>, s: BfsState<K>): (nat, nat) {
    (Pending(g, s.visited), VisitedCount(s.queue, s.visited))
  }

  /**
   * The ghost levels after one step: the keys still queued keep theirs, each
   * newly queued key gets one more than the popped key's.
   */
  ghost function NextLevels<K(!new)>(g: Graph<K>, s: BfsState<K>, levels: seq<nat>): (r: seq<nat>)
    requires g.Closed() && Registered(g, s.queue) && s.queue != [] && |levels| == |s.queue|
    ensures |r| == |BfsNext(g, s).1.queue|
    ensures forall i :: 0 <= i < |s.queue| - 1 ==> r[i] == levels[i + 1]
    ensures forall i :: |s.queue| - 1 <= i < |r| ==> r[i] == levels[0] + 1
  {
    var d: nat := levels[0] + 1;
    levels[1..] + seq(|Pushed(g, s)|, _ => d)
  }

  /** `y` has been emitted at depth at most `d`, or is queued at level at most `d`. */
  ghost predicate Covered<K(!new)>(y: K, d: nat, s: BfsState<K>, levels: seq<nat>, emitted: seq<K>, depths: seq<nat>)
    requires |levels| == |s.queue| && |depths| == |emitted|
  {
    || (exists j :: 0 <= j < |emitted| && emitted[j] == y && depths[j] <= d)
    || (exists k :: 0 <= k < |s.queue| && s.queue[k] == y && levels[k] <= d)
  }

  /** What `BfsInv` shares with the pre-order invariant, with walk lengths attached. */
  ghost predicate BfsShape<K(!new)>(g: Graph<K>, preseeded: set<K>, root: K, s: BfsState<K>,
                                    emitted: seq<K>, levels: seq<nat>, depths: seq<nat>) {
    && |levels| == |s.queue| && |depths| == |emitted|
    && Registered(g, s.queue)
    // visited gains exactly the popped keys
    && s.visited == preseeded + (set x | x in emitted)
    // the root comes out first, at depth 0
    && (emitted == [] ==> s.queue == [root] && levels == [0])
    && (emitted != [] ==> emitted[0] == root && depths[0] == 0)
    // every level and depth is the length of a walk from the root
    && (forall i :: 0 <= i < |s.queue| ==> ReachableIn(g, root, s.queue[i], levels[i]))
    && (forall i :: 0 <= i < |emitted| ==> ReachableIn(g, root, emitted[i], depths[i]))
  }

  /** Levels never go down, along the queue or from emitted to queued, and span at most two values. */
  ghost predicate BfsOrder(levels: seq<nat>, depths: seq<nat>) {
    && (forall i, j :: 0 <= i <= j < |depths| ==> depths[i] <= depths[j])
    && (forall i, j :: 0 <= i <= j < |levels| ==> levels[i] <= levels[j])
    && (forall i, j :: 0 <= i < |depths| && 0 <= j < |levels| ==> depths[i] <= levels[j])
    && (forall i :: 0 <= i < |levels| ==> levels[i] <= levels[0] + 1)
  }

  /** Every successor of an emitted key that is not preseeded is emitted or queued no deeper than one more. */
  ghost predicate BfsCover<K(!new)>(g: Graph<K>, preseeded: set<K>, s: BfsState<K>,
                                    emitted: seq<K>, levels: seq<nat>, depths: seq<nat>)
    requires |levels| == |s.queue| && |depths| == |emitted|
  {
    forall i, y :: 0 <= i < |emitted| && g.Edge(emitted[i], y) && y !in preseeded ==>
      Covered(y, depths[i] + 1, s, levels, emitted, depths)
  }

  /**
   * What holds of every state a breadth-first traversal from `root`, started
   * with the visited set `preseeded`, reaches after emitting `emitted` at the
   * ghost depths `depths`, its queue carrying the ghost levels `levels`.
   */
  ghost predicate BfsInv<K(!new)>(g: Graph<K>, preseeded: set<K>, root: K, s: BfsState<K>,
                                  emitted: seq<K>, levels: seq<nat>, depths: seq<nat>) {
    && BfsShape(g, preseeded, root, s, emitted, levels, depths)
    && BfsOrder(levels, depths)
    && BfsCover(g, preseeded, s, emitted, levels, depths)
  }

  /** `new` and `with_visited`: only the root queued, at level 0. */
  lemma BfsInitial<K(!new)>(g: Graph<K>, preseeded: set<K>, root: K)
    requires root in g.adjacency
    ensures BfsInv(g, preseeded, root, BfsState(preseeded, [root]), [], [0], [])
  {
    ReachableZero(g, root);
  }

  lemma BfsShapePreserves<K(!new)>(g: Graph<K>, preseeded: set<K>, root: K, s: BfsState<K>,
                                   emitted: seq<K>, levels: seq<nat>, depths: seq<nat>)
    requires g.Closed() && BfsShape(g, preseeded, root, s, emitted, levels, depths) && s.queue != []
    ensures var r := BfsNext(g, s);
            BfsShape(g, preseeded, root, r.1, emitted + [r.0.value], NextLevels(g, s, levels), depths + [levels[0]])
  {
    var r := BfsNext(g, s);
    var x := s.queue[0];
    var e := emitted + [x];
    var l := NextLevels(g, s, levels);
    var d := depths + [levels[0]];
    var pushed := Pushed(g, s);
    assert r.1.queue == s.queue[1..] + pushed;
    assert (set z | z in e) == (set z | z in emitted) + {x};
    forall i | 0 <= i < |r.1.queue| ensures ReachableIn(g, root, r.1.queue[i], l[i]) {
      if i >= |s.queue| - 1 {
        var y := r.1.queue[i];
        assert y == pushed[i - (|s.queue| - 1)];
        ReachableInStep(g, root, x, y, levels[0]);
      } else {
        assert r.1.queue[i] == s.queue[i + 1];
      }
    }
    forall i | 0 <= i < |e| ensures ReachableIn(g, root, e[i], d[i]) {
      if i < |emitted| {
        assert e[i] == emitted[i];
      }
    }
  }

  lemma BfsOrderPreserves<K(!new)>(g: Graph<K>, s: BfsState<K>, levels: seq<nat>, depths: seq<nat>)
    requires g.Closed() && Registered(g, s.queue) && s.queue != [] && |levels| == |s.queue|
    requires BfsOrder(levels, depths)
    ensures BfsOrder(NextLevels(g, s, levels), depths + [levels[0]])
  {
    var d: nat := levels[0] + 1;
    var l := levels[1..] + seq(|Pushed(g, s)|, _ => d);
    assert NextLevels(g, s, levels) == l;
    OrderStep(levels, depths, l, |levels| - 1);
  }

  /** `BfsOrder` survives popping the front level and appending levels one above it. */
  lemma OrderStep(levels: seq<nat>, depths: seq<nat>, l: seq<nat>, m: nat)
    requires BfsOrder(levels, depths) && |levels| > 0 && m == |levels| - 1 && |l| >= m
    requires forall i :: 0 <= i < m ==> l[i] == levels[i + 1]
    requires forall i :: m <= i < |l| ==> l[i] == levels[0] + 1
    ensures BfsOrder(l, depths + [levels[0]])
  {
    var d := depths + [levels[0]];
    forall i, j | 0 <= i <= j < |l| ensures l[i] <= l[j] {
      if j < m {
        assert l[i] == levels[i + 1] && l[j] == levels[j + 1];
      } else if i < m {
        assert l[i] == levels[i + 1];
      }
    }
    forall i | 0 <= i < |l| ensures l[i] <= l[0] + 1 {
      if m > 0 {
        assert l[0] == levels[1];
        if i < m {
          assert l[i] == levels[i + 1];
        }
      }
    }
    forall i, j | 0 <= i < |d| && 0 <= j < |l| ensures d[i] <= l[j] {
      if j < m {
        assert l[j] == levels[j + 1];
      }
    }
    forall i, j | 0 <= i <= j < |d| ensures d[i] <= d[j] {
      if j == |depths| && i < |depths| {
        assert d[i] == depths[i] <= levels[0];
      }
    }
  }

  /** The front, at level `levels[0]`, leaves the queue and is emitted at that depth. */
  lemma CoveredKept<K(!new)>(g: Graph<K>, s: BfsState<K>, emitted: seq<K>, levels: seq<nat>, depths: seq<nat>,
                             y: K, d: nat)
    requires g.Closed() && Registered(g, s.queue) && s.queue != []
    requires |levels| == |s.queue| && |depths| == |emitted|
    requires Covered(y, d, s, levels, emitted, depths)
    ensures var r := BfsNext(g, s);
            Covered(y, d, r.1, NextLevels(g, s, levels), emitted + [s.queue[0]], depths + [levels[0]])
  {
    var r := BfsNext(g, s);
    var e := emitted + [s.queue[0]];
    var l := NextLevels(g, s, levels);
    var dd := depths + [levels[0]];
    if j :| 0 <= j < |emitted| && emitted[j] == y && depths[j] <= d {
      assert e[j] == y && dd[j] <= d;
    } else {
      var k :| 0 <= k < |s.queue| && s.queue[k] == y && levels[k] <= d;
      if k == 0 {
        assert e[|emitted|] == y && dd[|emitted|] <= d;
      } else {
        assert r.1.queue[k - 1] == y && l[k - 1] <= d;
      }
    }
  }

  /** The successors of the popped key are covered one level below it. */
  lemma CoveredFront<K(!new)>(g: Graph<K>, preseeded: set<K>, root: K, s: BfsState<K>,
                              emitted: seq<K>, levels: seq<nat>, depths: seq<nat>, y: K)
    requires g.Closed() && s.queue != []
    requires BfsShape(g, preseeded, root, s, emitted, levels, depths) && BfsOrder(levels, depths)
    requires g.Edge(s.queue[0], y) && y !in preseeded
    ensures var r := BfsNext(g, s);
            Covered(y, levels[0] + 1, r.1, NextLevels(g, s, levels), emitted + [s.queue[0]], depths + [levels[0]])
  {
    var r := BfsNext(g, s);
    var x := s.queue[0];
    var e := emitted + [x];
    var l := NextLevels(g, s, levels);
    var dd := depths + [levels[0]];
    var pushed := Pushed(g, s);
    assert r.1.queue == s.queue[1..] + pushed;
    if y == x {
      CoveredByEmitted(y, levels[0] + 1, r.1, l, e, dd, |emitted|);
    } else if y in s.visited {
      assert y in (set z | z in emitted);
      var j :| 0 <= j < |emitted| && emitted[j] == y;
      assert dd[j] == depths[j] <= levels[0];
      CoveredByEmitted(y, levels[0] + 1, r.1, l, e, dd, j);
    } else {
      assert y in pushed;
      CoveredByPushed(g, s, levels, emitted, depths, y);
    }
  }

  /** A successor the step pushes is covered at one more than the dequeued key's level. */
  lemma CoveredByPushed<K(!new)>(g: Graph<K>, s: BfsState<K>, levels: seq<nat>, emitted: seq<K>, depths: seq<nat>, y: K)
    requires g.Closed() && Registered(g, s.queue) && s.queue != []
    requires |levels| == |s.queue| && |depths| == |emitted| && y in Pushed(g, s)
    ensures var r := BfsNext(g, s);
            Covered(y, levels[0] + 1, r.1, NextLevels(g, s, levels), emitted + [s.queue[0]], depths + [levels[0]])
  {
    var r := BfsNext(g, s);
    var pushed := Pushed(g, s);
    assert r.1.queue == s.queue[1..] + pushed;
    var k := |s.queue| - 1 + IndexOf(pushed, y);
    assert r.1.queue[k] == y;
    CoveredByQueued(y, levels[0] + 1, r.1, NextLevels(g, s, levels), emitted + [s.queue[0]], depths + [levels[0]], k);
  }

  /** An emitted copy of `y` no deeper than `d` covers it. */
  lemma CoveredByEmitted<K(!new)>(y: K, d: nat, s: BfsState<K>, levels: seq<nat>, emitted: seq<K>, depths: seq<nat>, j: nat)
    requires |levels| == |s.queue| && |depths| == |emitted|
    requires j < |emitted| && emitted[j] == y && depths[j] <= d
    ensures Covered(y, d, s, levels, emitted, depths)
  {
  }

  /** A queued copy of `y` no deeper than `d` covers it. */
  lemma CoveredByQueued<K(!new)>(y: K, d: nat, s: BfsState<K>, levels: seq<nat>, emitted: seq<K>, depths: seq<nat>, k: nat)
    requires |levels| == |s.queue| && |depths| == |emitted|
    requires k < |s.queue| && s.queue[k] == y && levels[k] <= d
    ensures Covered(y, d, s, levels, emitted, depths)
  {
  }

  lemma BfsCoverPreserves<K(!new)>(g: Graph<K>, preseeded: set<K>, root: K, s: BfsState<K>,
                                   emitted: seq<K>, levels: seq<nat>, depths: seq<nat>)
    requires g.Closed() && s.queue != [] && BfsInv(g, preseeded, root, s, emitted, levels, depths)
    ensures var r := BfsNext(g, s);
            BfsCover(g, preseeded, r.1, emitted + [s.queue[0]], NextLevels(g, s, levels), depths + [levels[0]])
  {
    var r := BfsNext(g, s);
    var e := emitted + [s.queue[0]];
    var l := NextLevels(g, s, levels);
    var dd := depths + [levels[0]];
    forall i, y | 0 <= i < |e| && g.Edge(e[i], y) && y !in preseeded
      ensures Covered(y, dd[i] + 1, r.1, l, e, dd)
    {
      if i < |emitted| {
        assert e[i] == emitted[i] && dd[i] == depths[i];
        CoveredKept(g, s, emitted, levels, depths, y, depths[i] + 1);
      } else {
        CoveredFront(g, preseeded, root, s, emitted, levels, depths, y);
      }
    }
  }

  /** Each emitting call keeps the invariant: the front is emitted at its level. */
  lemma BfsNextPreserves<K(!new)>(g: Graph<K>, preseeded: set<K>, root: K, s: BfsState<K>,
                                  emitted: seq<K>, levels: seq<nat>, depths: seq<nat>)
    requires g.Closed() && s.queue != [] && BfsInv(g, preseeded, root, s, emitted, levels, depths)
    ensures var r := BfsNext(g, s);
            BfsInv(g, preseeded, root, r.1, emitted + [r.0.value], NextLevels(g, s, levels), depths + [levels[0]])
  {
    BfsShapePreserves(g, preseeded, root, s, emitted, levels, depths);
    BfsOrderPreserves(g, s, levels, depths);
    BfsCoverPreserves(g, preseeded, root, s, emitted, levels, depths);
  }

  /** Each emitting call lowers the measure, so the traversal ends even on a cyclic graph. */
  lemma BfsNextDecreases<K(!new)>(g: Graph<K>, s: BfsState<K>)
    requires g.Closed() && Registered(g, s.queue) && s.queue != []
    ensures LexLess(BfsMeasure(g, BfsNext(g, s).1), BfsMeasure(g, s))
  {
    var r := BfsNext(g, s);
    var x := s.queue[0];
    var rest := s.queue[1..];
    var pushed := Pushed(g, s);
    assert s.queue == [x] + rest;
    assert r.1.queue == rest + pushed;
    if x !in s.visited {
      PendingShrinks(g, s.visited, x);
    } else {
      assert r.1.visited == s.visited;
      VisitedCountAppend(rest, pushed, s.visited);
      VisitedCountAppend([x], rest, s.visited);
      assert [x][..0] == [];
    }
  }

  /**
   * Once the queue is empty, the end of every walk from the root whose other
   * keys are not preseeded has been emitted, at a depth no greater than the
   * walk's length.
   */
  lemma BfsComplete<K(!new)>(g: Graph<K>, preseeded: set<K>, root: K, s: BfsState<K>,
                             emitted: seq<K>, levels: seq<nat>, depths: seq<nat>, p: seq<K>)
    requires BfsInv(g, preseeded, root, s, emitted, levels, depths) && s.queue == []
    requires IsPath(g, p) && p[0] == root && forall i :: 0 < i < |p| ==> p[i] !in preseeded
    ensures exists j :: 0 <= j < |emitted| && emitted[j] == p[|p| - 1] && depths[j] <= |p| - 1
  {
    WalkEmitted(g, preseeded, root, s, emitted, levels, depths, p, |p|);
  }

  lemma {:induction false} WalkEmitted<K(!new)>(g: Graph<K>, preseeded: set<K>, root: K, s: BfsState<K>,
                                                emitted: seq<K>, levels: seq<nat>, depths: seq<nat>, p: seq<K>, n: nat)
    requires BfsInv(g, preseeded, root, s, emitted, levels, depths) && s.queue == []
    requires IsPath(g, p) && p[0] == root && forall i :: 0 < i < |p| ==> p[i] !in preseeded
    requires 0 < n <= |p|
    ensures exists j :: 0 <= j < |emitted| && emitted[j] == p[n - 1] && depths[j] <= n - 1
  {
    if n == 1 {
      assert emitted[0] == p[0];
    } else {
      WalkEmitted(g, preseeded, root, s, emitted, levels, depths, p, n - 1);
      var j :| 0 <= j < |emitted| && emitted[j] == p[n - 2] && depths[j] <= n - 2;
      assert g.Edge(p[n - 2], p[n - 2 + 1]);
      assert Covered(p[n - 1], depths[j] + 1, s, levels, emitted, depths);
    }
  }

  /**
   * Shortest distances: once the queue is empty, the depth at which a key is
   * first emitted is the length of a walk to it from the root, and no walk
   * from the root whose other keys are not preseeded is shorter.
   */
  lemma BfsShortest<K(!new)>(g: Graph<K>, preseeded: set<K>, root: K, s: BfsState<K>,
                             emitted: seq<K>, levels: seq<nat>, depths: seq<nat>, y: K)
    requires BfsInv(g, preseeded, root, s, emitted, levels, depths) && s.queue == [] && y in emitted
    ensures ReachableIn(g, root, y, depths[IndexOf(emitted, y)])
    ensures forall p :: IsPath(g, p) && p[0] == root && p[|p| - 1] == y && (forall i :: 0 < i < |p| ==> p[i] !in preseeded)
              ==> depths[IndexOf(emitted, y)] <= |p| - 1
  {
    var first := IndexOf(emitted, y);
    forall p | IsPath(g, p) && p[0] == root && p[|p| - 1] == y && (forall i :: 0 < i < |p| ==> p[i] !in preseeded)
      ensures depths[first] <= |p| - 1
    {
      BfsComplete(g, preseeded, root, s, emitted, levels, depths, p);
      var j :| 0 <= j < |emitted| && emitted[j] == y && depths[j] <= |p| - 1;
      assert first <= j;
    }
  }
}
