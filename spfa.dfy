/**
 * `SPFASolver`: the Shortest Path Faster Algorithm. A worklist of pending vertices (an
 * `OptimizedArrayQueueSet`, a FIFO queue paired with a set of its members) is drained;
 * each polled vertex relaxes its outgoing edges and every improved vertex is queued again.
 */
module Spfa {
  import opened Wrappers
  import opened Sequences
  import opened ShortestPaths

  /**
   * `OptimizedArrayQueueSet`: a FIFO queue whose membership test is answered by a set kept
   * in lockstep with it, so that no element is queued twice.
   */
  class OptimizedArrayQueueSet<E(==)> {
    var queue: seq<E>
    /** The Java field `set`. */
    var members: set<E>

    ghost predicate Valid()
      reads this
    {
      members == Members(queue) && NoDuplicates(queue)
    }

    constructor ()
      ensures Valid() && queue == []
    {
      queue := [];
      members := {};
    }

    /** `contains`: answered from the set, which agrees with the queue. */
    function Contains(o: E): (b: bool)
      reads this
      requires Valid()
      ensures b <==> o in queue
    {
      o in members
    }

    /** `size`: the queue's length, which is the number of distinct members. */
    function Size(): (n: nat)
      reads this
      requires Valid()
      ensures n == |members|
    {
      MembersOfDistinct(queue);
      |queue|
    }

    /** `AbstractCollection.isEmpty`. */
    function IsEmpty(): (b: bool)
      reads this
      requires Valid()
      ensures b <==> members == {}
    {
      Size() == 0
    }

    /** `peek`: the head, or null when empty. */
    function Peek(): (r: Option<E>)
      reads this
      ensures r.None? <==> queue == []
      ensures r.Some? ==> r.value == queue[0]
    {
      if queue == [] then None else Some(queue[0])
    }

    /** `offer`: refuses an element already queued, otherwise appends it. */
    method Offer(e: E) returns (b: bool)
      requires Valid()
      modifies this
      ensures Valid()
      ensures b <==> e !in old(queue)
      ensures b ==> queue == old(queue) + [e]
      ensures !b ==> unchanged(this)
    {
      if e in members {
        return false;
      }
      queue := queue + [e];
      members := members + {e};
      b := true;
    }

    /** `poll`: removes and answers the head, or null when empty. */
    method Poll() returns (r: Option<E>)
      requires Valid()
      modifies this
      ensures Valid()
      ensures old(queue) == [] ==> r == None && unchanged(this)
      ensures old(queue) != [] ==> r == Some(old(queue)[0]) && queue == old(queue)[1..]
    {
      if queue == [] {
        return None;
      }
      var element := queue[0];
      queue := queue[1..];
      members := members - {element};
      assert forall k :: 0 <= k < |queue| ==> queue[k] == old(queue)[k + 1];
      r := Some(element);
    }

    /**
     * `AbstractQueue.add`, which the class inherits: an `offer` that is refused becomes an
     * `IllegalStateException`.
     */
    method Add(e: E) returns (o: Outcome)
      requires Valid()
      modifies this
      ensures Valid()
      ensures o.Pass? <==> e !in old(queue)
      ensures o.Pass? ==> queue == old(queue) + [e]
      ensures o.Fail? ==> o.error == IllegalState && unchanged(this)
    {
      var offered := Offer(e);
      if !offered {
        return Fail(IllegalState);
      }
      o := Pass;
    }

    /** `AbstractQueue.remove`: a `poll` that finds nothing becomes a `NoSuchElementException`. */
    method Remove() returns (r: Result<E>)
      requires Valid()
      modifies this
      ensures Valid()
      ensures old(queue) == [] ==> r == Failure(NoSuchElement) && unchanged(this)
      ensures old(queue) != [] ==> r == Success(old(queue)[0]) && queue == old(queue)[1..]
    {
      var polled := Poll();
      if polled.None? {
        return Failure(NoSuchElement);
      }
      r := Success(polled.value);
    }
  }

  // ---------------------------------------------------------------- one polled vertex

  /** The solver's maps and the worklist's queue. */
  datatype Frontier<V> = Frontier(dist: map<V, nat>, edgeTo: map<V, Option<Edge<V>>>, pending: seq<V>)

  /**
   * One edge out of the polled vertex, with the worklist's `offer`: an improved target
   * gets the edge and the new distance and is queued unless it is pending already.
   */
  function RelaxEdge<V>(from: V, e: Edge<V>, s: Frontier<V>): (r: Frontier<V>)
    requires from in s.dist
    ensures from in r.dist
  {
    var newDist := s.dist[from] + e.weight;
    if e.to in s.dist && s.dist[e.to] <= newDist then s
    else Frontier(s.dist[e.to := newDist], s.edgeTo[e.to := Some(e)],
                  if e.to in s.pending then s.pending else s.pending + [e.to])
  }

  /** The loop over `graph.neighbors(from)`, with `offer`. */
  function RelaxEdges<V>(from: V, es: seq<Edge<V>>, s: Frontier<V>): (r: Frontier<V>)
    requires from in s.dist
    ensures from in r.dist
    decreases |es|
  {
    if es == [] then s else RelaxEdges(from, es[1..], RelaxEdge(from, es[0], s))
  }

  /** Relaxing the edges of the polled vertex raises no distance and forgets no reached vertex. */
  lemma {:induction false} RelaxEdgesRaisesNoDistance<V>(from: V, es: seq<Edge<V>>, s: Frontier<V>)
    requires from in s.dist
    ensures var r := RelaxEdges(from, es, s);
      forall v :: v in s.dist ==> v in r.dist && r.dist[v] <= s.dist[v]
    decreases |es|
  {
    if es != [] {
      var next := RelaxEdge(from, es[0], s);
      assert forall v :: v in s.dist ==> v in next.dist && next.dist[v] <= s.dist[v];
      RelaxEdgesRaisesNoDistance(from, es[1..], next);
    }
  }

  /**
   * The same edge as the source writes it, with `perimeter.add(to)`: improving a target
   * that is already pending throws `IllegalStateException` out of the constructor.
   */
  function RelaxEdgeAsWritten<V>(from: V, e: Edge<V>, s: Frontier<V>): (r: Result<Frontier<V>>)
    requires from in s.dist
    ensures r.Success? ==> from in r.value.dist
    ensures r.Failure? <==> RelaxEdge(from, e, s) != s && e.to in s.pending
    ensures r.Failure? ==> r.error == IllegalState
    ensures r.Success? ==> r.value == RelaxEdge(from, e, s)
  {
    var newDist := s.dist[from] + e.weight;
    if e.to in s.dist && s.dist[e.to] <= newDist then Success(s)
    else if e.to in s.pending then Failure(IllegalState)
    else Success(Frontier(s.dist[e.to := newDist], s.edgeTo[e.to := Some(e)], s.pending + [e.to]))
  }

  function RelaxEdgesAsWritten<V>(from: V, es: seq<Edge<V>>, s: Frontier<V>): (r: Result<Frontier<V>>)
    requires from in s.dist
    ensures r.Failure? ==> r.error == IllegalState
    ensures r.Success? ==> from in r.value.dist
    decreases |es|
  {
    if es == [] then Success(s)
    else
      var next := RelaxEdgeAsWritten(from, es[0], s);
      if next.Failure? then next else RelaxEdgesAsWritten(from, es[1..], next.value)
  }

  /** Where the source's loop does not throw, it computes what the corrected loop computes. */
  lemma {:induction false} AsWrittenAgreesWhenItSucceeds<V>(from: V, es: seq<Edge<V>>, s: Frontier<V>)
    requires from in s.dist
    ensures RelaxEdgesAsWritten(from, es, s).Success? ==> RelaxEdgesAsWritten(from, es, s).value == RelaxEdges(from, es, s)
    decreases |es|
  {
    if es != [] {
      var next := RelaxEdgeAsWritten(from, es[0], s);
      if next.Success? {
        assert next.value == RelaxEdge(from, es[0], s);
        AsWrittenAgreesWhenItSucceeds(from, es[1..], next.value);
      }
    }
  }

  /** A three-vertex graph: `s -> b` (1), `s -> a` (5), `b -> a` (1). */
  function Example(): Graph<char>
  {
    map['s' := [Edge('s', 'b', 1), Edge('s', 'a', 5)], 'b' := [Edge('b', 'a', 1)]]
  }

  /**
   * On the example, polling `s` queues `b` then `a`; polling `b` then improves `a` to 2
   * while `a` is still pending, and the source's `add` throws. With `offer`, `a` simply
   * keeps its place in the queue with the better distance.
   */
  lemma AsWrittenThrowsOnExample()
    ensures var g := Example();
      var afterS := Frontier(map['s' := 0, 'b' := 1, 'a' := 5],
                             map['s' := None, 'b' := Some(Edge('s', 'b', 1)), 'a' := Some(Edge('s', 'a', 5))],
                             ['b', 'a']);
      && RelaxEdgesAsWritten('s', Neighbors(g, 's'), Frontier(map['s' := 0], map['s' := None], [])) == Success(afterS)
      && RelaxEdgesAsWritten('b', Neighbors(g, 'b'), afterS.(pending := ['a'])) == Failure(IllegalState)
      && RelaxEdges('b', Neighbors(g, 'b'), afterS.(pending := ['a'])) ==
           Frontier(afterS.dist['a' := 2], afterS.edgeTo['a' := Some(Edge('b', 'a', 1))], ['a'])
  {
    var g := Example();
    var s0 := Frontier(map['s' := 0], map['s' := None], []);
    var s1 := RelaxEdge('s', Edge('s', 'b', 1), s0);
    assert s1 == Frontier(map['s' := 0, 'b' := 1], map['s' := None, 'b' := Some(Edge('s', 'b', 1))], ['b']);
    var s2 := Frontier(map['s' := 0, 'b' := 1, 'a' := 5],
                       map['s' := None, 'b' := Some(Edge('s', 'b', 1)), 'a' := Some(Edge('s', 'a', 5))],
                       ['b', 'a']);
    assert RelaxEdgeAsWritten('s', Edge('s', 'b', 1), s0) == Success(s1);
    assert ['b'] + ['a'] == ['b', 'a'];
    assert RelaxEdgeAsWritten('s', Edge('s', 'a', 5), s1) == Success(s2);
    assert Neighbors(g, 's')[1..] == [Edge('s', 'a', 5)];
    assert [Edge('s', 'a', 5)][1..] == [];
    assert RelaxEdgesAsWritten('s', [Edge('s', 'a', 5)], s1) == Success(s2);
    assert [Edge('b', 'a', 1)][1..] == [];
    assert ['b'] + ['a'] == ['b', 'a'];
  }

  // ---------------------------------------------------------------- the solver

  /** The ghost stamps after `RelaxEdge`: an improved target is stamped with the clock. */
  ghost function StampAfter<V>(from: V, e: Edge<V>, s: Frontier<V>, stamp: map<V, nat>, clock: nat): map<V, nat>
    requires from in s.dist
  {
    if e.to in s.dist && s.dist[e.to] <= s.dist[from] + e.weight then stamp else stamp[e.to := clock]
  }

  /** Relaxing one edge of the polled vertex keeps the bookkeeping. */
  lemma RelaxEdgeKeepsSearchState<V(!new)>(g: Graph<V>, start: V, univ: seq<V>, from: V, e: Edge<V>,
                                           s: Frontier<V>, stamp: map<V, nat>, clock: nat)
    requires SearchState(g, start, univ, s.dist, s.edgeTo, stamp, clock, Members(s.pending))
    requires from in s.dist && e in Neighbors(g, from)
    ensures var r := RelaxEdge(from, e, s);
      SearchState(g, start, univ, r.dist, r.edgeTo, StampAfter(from, e, s, stamp, clock), clock + 1, Members(r.pending))
  {
    if !(e.to in s.dist && s.dist[e.to] <= s.dist[from] + e.weight) {
      ImproveKeepsSearchState(g, start, univ, Members(s.pending), from, s.dist, s.edgeTo, stamp, clock, e);
      assert Members(RelaxEdge(from, e, s).pending) == Members(s.pending) + {e.to};
    }
  }

  /**
   * Relaxing one edge of the polled vertex leaves that edge relaxed, raises no distance,
   * keeps the polled vertex off the worklist, and leaves relaxed every vertex it does not queue.
   */
  lemma RelaxEdgeKeepsRelaxed<V>(g: Graph<V>, from: V, e: Edge<V>, s: Frontier<V>)
    requires from in s.dist && from !in s.pending && e in Neighbors(g, from) && WellFormed(g)
    requires RelaxedExceptPending(g, s.dist, Members(s.pending) + {from})
    ensures var r := RelaxEdge(from, e, s);
      && r.dist[from] == s.dist[from] && from !in r.pending
      && RelaxedExceptPending(g, r.dist, Members(r.pending) + {from})
      && e.to in r.dist && r.dist[e.to] <= r.dist[from] + e.weight
      && (forall v :: v in s.dist ==> v in r.dist && r.dist[v] <= s.dist[v])
  {
    var d := s.dist[from] + e.weight;
    if !(e.to in s.dist && s.dist[e.to] <= d) {
      NeighborsLeave(g, from, e);
      assert e.to != from;
      LoweringKeepsRelaxedExcept(g, s.dist, Members(s.pending) + {from}, e.to, d);
      var r := RelaxEdge(from, e, s);
      assert Members(r.pending) + {from} == Members(s.pending) + {from} + {e.to};
    }
  }

  /** Relaxing one edge of a reached vertex either changes nothing or lowers the search measure. */
  lemma RelaxEdgeMovesCloser<V>(g: Graph<V>, start: V, univ: seq<V>, from: V, e: Edge<V>, s: Frontier<V>)
    requires NoDuplicates(univ) && (forall v :: v in Vertices(g, start) ==> v in univ)
    requires from in s.dist && e in Neighbors(g, from)
    ensures var r := RelaxEdge(from, e, s); r == s || Closer(univ, r.dist, s.dist)
  {
    var d := s.dist[from] + e.weight;
    if !(e.to in s.dist && s.dist[e.to] <= d) {
      TargetsAreVertices(g, start, from, e);
      ImprovementCloser(univ, s.dist, e.to, d);
    }
  }

  /**
   * One pass of the loop over the polled vertex's edges: relax `e` against the worklist,
   * computing `RelaxEdge`.
   */
  method RelaxOne<V>(from: V, e: Edge<V>, dist0: map<V, nat>, edgeTo0: map<V, Option<Edge<V>>>,
                     ghost stamp0: map<V, nat>, ghost clock0: nat, perimeter: OptimizedArrayQueueSet<V>)
    returns (dist: map<V, nat>, edgeTo: map<V, Option<Edge<V>>>, ghost stamp: map<V, nat>, ghost clock: nat)
    requires perimeter.Valid() && from in dist0
    modifies perimeter
    ensures perimeter.Valid()
    ensures Frontier(dist, edgeTo, perimeter.queue) == RelaxEdge(from, e, Frontier(dist0, edgeTo0, old(perimeter.queue)))
    ensures stamp == StampAfter(from, e, Frontier(dist0, edgeTo0, old(perimeter.queue)), stamp0, clock0)
    ensures clock == clock0 + 1
  {
    dist, edgeTo, stamp, clock := dist0, edgeTo0, stamp0, clock0 + 1;
    var to := e.to;
    var newDist := dist[from] + e.weight;
    if to !in dist || newDist < dist[to] {
      edgeTo := edgeTo[to := Some(e)];
      dist := dist[to := newDist];
      stamp := stamp[to := clock0];
      var offered := perimeter.Offer(to);
    }
  }

  /**
   * The loop over the polled vertex's edges, relaxing each against the worklist. It computes
   * `RelaxEdges`, keeps the bookkeeping, raises no distance, leaves every vertex it does not
   * queue relaxed, and either changes nothing or makes the search measure smaller.
   */
  method RelaxNeighbors<V(!new)>(g: Graph<V>, start: V, ghost univ: seq<V>, from: V,
                                 dist0: map<V, nat>, edgeTo0: map<V, Option<Edge<V>>>,
                                 ghost stamp0: map<V, nat>, ghost clock0: nat,
                                 perimeter: OptimizedArrayQueueSet<V>)
    returns (dist: map<V, nat>, edgeTo: map<V, Option<Edge<V>>>, ghost stamp: map<V, nat>, ghost clock: nat)
    requires perimeter.Valid()
    requires SearchState(g, start, univ, dist0, edgeTo0, stamp0, clock0, perimeter.members)
    requires from in dist0 && from !in perimeter.queue
    requires RelaxedExceptPending(g, dist0, perimeter.members + {from})
    modifies perimeter
    ensures perimeter.Valid()
    ensures SearchState(g, start, univ, dist, edgeTo, stamp, clock, perimeter.members)
    ensures Frontier(dist, edgeTo, perimeter.queue) ==
      RelaxEdges(from, Neighbors(g, from), Frontier(dist0, edgeTo0, old(perimeter.queue)))
    ensures RelaxedExceptPending(g, dist, perimeter.members)
    ensures forall v :: v in dist0 ==> v in dist && dist[v] <= dist0[v]
    ensures (dist == dist0 && perimeter.queue == old(perimeter.queue)) || Closer(univ, dist, dist0)
  {
    dist, edgeTo, stamp, clock := dist0, edgeTo0, stamp0, clock0;
    var es := Neighbors(g, from);
    ghost var target := RelaxEdges(from, es, Frontier(dist0, edgeTo0, perimeter.queue));
    for j := 0 to |es|
      invariant perimeter.Valid()
      invariant SearchState(g, start, univ, dist, edgeTo, stamp, clock, perimeter.members)
      invariant from in dist && dist[from] == dist0[from] && from !in perimeter.queue
      invariant RelaxEdges(from, es[j..], Frontier(dist, edgeTo, perimeter.queue)) == target
      invariant RelaxedExceptPending(g, dist, perimeter.members + {from})
      invariant forall k :: 0 <= k < j ==> es[k].to in dist && dist[es[k].to] <= dist[from] + es[k].weight
      invariant (dist == dist0 && perimeter.queue == old(perimeter.queue)) || Closer(univ, dist, dist0)
    {
      assert es[j..][1..] == es[j + 1..];
      ghost var before := Frontier(dist, edgeTo, perimeter.queue);
      RelaxEdgeKeepsSearchState(g, start, univ, from, es[j], before, stamp, clock);
      RelaxEdgeKeepsRelaxed(g, from, es[j], before);
      RelaxEdgeMovesCloser(g, start, univ, from, es[j], before);
      dist, edgeTo, stamp, clock := RelaxOne(from, es[j], dist, edgeTo, stamp, clock, perimeter);
    }
    forall u, e | u in dist && u !in perimeter.members && e in Neighbors(g, u)
      ensures e.to in dist && dist[e.to] <= dist[u] + e.weight
    {
      if u == from {
        var k :| 0 <= k < |es| && es[k] == e;
      }
    }
    RelaxEdgesRaisesNoDistance(from, es, Frontier(dist0, edgeTo0, old(perimeter.queue)));
  }

  /**
   * The constructor's worklist loop: start at distance 0 and pending; poll, relax, repeat
   * until nothing is pending. Then no edge can be relaxed.
   */
  method Search<V(!new)>(g: Graph<V>, start: V)
    returns (dist: map<V, nat>, edgeTo: map<V, Option<Edge<V>>>, ghost stamp: map<V, nat>)
    requires WellFormed(g)
    ensures Labelled(g, start, dist, edgeTo, stamp)
    ensures Relaxed(g, dist)
  {
    var perimeter := new OptimizedArrayQueueSet<V>();
    var added := perimeter.Add(start);
    edgeTo := map[start := None];
    dist := map[start := 0];
    stamp := map[start := 0];
    ghost var clock := 1;
    ghost var univ := SeqOf(Vertices(g, start));
    StartSearchState(g, start);
    while !perimeter.IsEmpty()
      invariant perimeter.Valid() && fresh(perimeter)
      invariant SearchState(g, start, univ, dist, edgeTo, stamp, clock, perimeter.members)
      invariant RelaxedExceptPending(g, dist, perimeter.members)
      decreases Unreached(univ, dist), Potential(univ, dist), |perimeter.queue|
    {
      var removed := perimeter.Remove();
      var from := removed.value;
      dist, edgeTo, stamp, clock := RelaxNeighbors(g, start, univ, from, dist, edgeTo, stamp, clock, perimeter);
    }
  }

  class SPFASolver<V(==,!new)> {
    const graph: Graph<V>
    const start: V
    const edgeTo: map<V, Option<Edge<V>>>
    const distTo: map<V, nat>
    ghost const stamp: map<V, nat>

    ghost predicate Valid()
    {
      Labelled(graph, start, distTo, edgeTo, stamp) && Relaxed(graph, distTo)
    }

    constructor (g: Graph<V>, start: V)
      requires WellFormed(g)
      ensures graph == g && this.start == start && Valid()
    {
      graph := g;
      this.start := start;
      var dist, edges, stamp := Search(g, start);
      distTo, edgeTo, this.stamp := dist, edges, stamp;
    }

    /**
     * `solution(goal)`: the `edgeTo` path back from the goal, reversed; a shortest walk from
     * the start when the goal was reached, just the goal otherwise.
     */
    method Solution(goal: V) returns (path: seq<V>)
      requires Valid()
      ensures path != [] && path[|path| - 1] == goal && FollowsEdgeTo(edgeTo, path)
      ensures goal !in distTo <==> path == [goal] && forall q :: IsWalk(graph, start, q) ==> End(start, q) != goal
      ensures goal in distTo ==>
        && path[0] == start
        && IsWalk(graph, start, PathEdges(edgeTo, path)) && End(start, PathEdges(edgeTo, path)) == goal
        && Weight(PathEdges(edgeTo, path)) == distTo[goal]
        && forall q :: IsWalk(graph, start, q) && End(start, q) == goal ==> distTo[goal] <= Weight(q)
    {
      path := WalkBack(graph, start, distTo, edgeTo, stamp, goal);
      SolutionIsShortest(graph, start, distTo, edgeTo, stamp, goal, path);
    }
  }
}
