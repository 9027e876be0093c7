/**
 * `AStarSolver`: single-pair search from a start towards a goal. The frontier is a
 * `DoubleMapMinPQ` keyed by distance plus the graph's estimate of the distance left; an
 * improved vertex is added to it or has its priority changed. The search runs until the
 * frontier is empty, so whatever the estimate, it ends with no edge left to relax.
 */
module AStar {
  import opened Wrappers
  import opened Sequences
  import opened ShortestPaths
  import opened MinPriorityQueue

  /** `AStarGraph.estimatedDistance(v, goal)`. */
  type Heuristic<!V> = (V, V) -> int

  /** The solver's maps and the frontier's element-to-priority map. */
  datatype Frontier<V> = Frontier(dist: map<V, nat>, edgeTo: map<V, Option<Edge<V>>>, perimeter: map<V, int>)

  /**
   * One edge out of the removed vertex: an improved target gets the edge and the new
   * distance, and enters the frontier (or moves in it) at distance plus estimate.
   */
  function RelaxEdge<V>(h: Heuristic<V>, goal: V, from: V, e: Edge<V>, s: Frontier<V>): (r: Frontier<V>)
    requires from in s.dist
    ensures from in r.dist
  {
    var newDist := s.dist[from] + e.weight;
    if e.to in s.dist && s.dist[e.to] <= newDist then s
    else Frontier(s.dist[e.to := newDist], s.edgeTo[e.to := Some(e)], s.perimeter[e.to := newDist + h(e.to, goal)])
  }

  /** The loop over `graph.neighbors(from)`. */
  function RelaxEdges<V>(h: Heuristic<V>, goal: V, from: V, es: seq<Edge<V>>, s: Frontier<V>): (r: Frontier<V>)
    requires from in s.dist
    ensures from in r.dist
    decreases |es|
  {
    if es == [] then s else RelaxEdges(h, goal, from, es[1..], RelaxEdge(h, goal, from, es[0], s))
  }

  /** Relaxing the edges of the removed vertex raises no distance and forgets no reached vertex. */
  lemma {:induction false} RelaxEdgesRaisesNoDistance<V>(h: Heuristic<V>, goal: V, from: V, es: seq<Edge<V>>,
                                                         s: Frontier<V>)
    requires from in s.dist
    ensures var r := RelaxEdges(h, goal, from, es, s);
      forall v :: v in s.dist ==> v in r.dist && r.dist[v] <= s.dist[v]
    decreases |es|
  {
    if es != [] {
      var next := RelaxEdge(h, goal, from, es[0], s);
      assert forall v :: v in s.dist ==> v in next.dist && next.dist[v] <= s.dist[v];
      RelaxEdgesRaisesNoDistance(h, goal, from, es[1..], next);
    }
  }

  /**
   * Every vertex on the frontier is queued at its distance plus its estimate, except the
   * start, which the constructor queues at 0.
   */
  ghost predicate Prioritised<V>(h: Heuristic<V>, start: V, goal: V, s: Frontier<V>)
  {
    forall v :: v in s.perimeter ==> v in s.dist && s.perimeter[v] == if v == start then 0 else s.dist[v] + h(v, goal)
  }

  /** Removing a vertex from the frontier keeps the others' priorities. */
  lemma RemovalKeepsPrioritised<V>(h: Heuristic<V>, start: V, goal: V, s: Frontier<V>, v: V)
    requires Prioritised(h, start, goal, s)
    ensures Prioritised(h, start, goal, s.(perimeter := s.perimeter - {v}))
  {
  }

  /** The ghost stamps after `RelaxEdge`: an improved target is stamped with the clock. */
  ghost function StampAfter<V>(from: V, e: Edge<V>, s: Frontier<V>, stamp: map<V, nat>, clock: nat): map<V, nat>
    requires from in s.dist
  {
    if e.to in s.dist && s.dist[e.to] <= s.dist[from] + e.weight then stamp else stamp[e.to := clock]
  }

  /** Relaxing one edge of the removed vertex keeps the bookkeeping. */
  lemma RelaxEdgeKeepsSearchState<V(!new)>(g: Graph<V>, start: V, univ: seq<V>, h: Heuristic<V>, goal: V,
                                           from: V, e: Edge<V>, s: Frontier<V>, stamp: map<V, nat>, clock: nat)
    requires SearchState(g, start, univ, s.dist, s.edgeTo, stamp, clock, s.perimeter.Keys)
    requires from in s.dist && e in Neighbors(g, from)
    ensures var r := RelaxEdge(h, goal, from, e, s);
      SearchState(g, start, univ, r.dist, r.edgeTo, StampAfter(from, e, s, stamp, clock), clock + 1, r.perimeter.Keys)
  {
    if !(e.to in s.dist && s.dist[e.to] <= s.dist[from] + e.weight) {
      ImproveKeepsSearchState(g, start, univ, s.perimeter.Keys, from, s.dist, s.edgeTo, stamp, clock, e);
      assert RelaxEdge(h, goal, from, e, s).perimeter.Keys == s.perimeter.Keys + {e.to};
    }
  }

  /** Relaxing one edge keeps every frontier vertex at its distance plus its estimate; the start is never improved. */
  lemma RelaxEdgeKeepsPrioritised<V>(h: Heuristic<V>, start: V, goal: V, from: V, e: Edge<V>, s: Frontier<V>)
    requires Prioritised(h, start, goal, s) && from in s.dist && start in s.dist && s.dist[start] == 0
    ensures Prioritised(h, start, goal, RelaxEdge(h, goal, from, e, s))
  {
  }

  /** Relaxing one edge of a reached vertex either changes nothing or lowers the search measure. */
  lemma RelaxEdgeMovesCloser<V>(g: Graph<V>, start: V, univ: seq<V>, h: Heuristic<V>, goal: V,
                                from: V, e: Edge<V>, s: Frontier<V>)
    requires NoDuplicates(univ) && (forall v :: v in Vertices(g, start) ==> v in univ)
    requires from in s.dist && e in Neighbors(g, from)
    ensures var r := RelaxEdge(h, goal, from, e, s); r == s || Closer(univ, r.dist, s.dist)
  {
    var d := s.dist[from] + e.weight;
    if !(e.to in s.dist && s.dist[e.to] <= d) {
      TargetsAreVertices(g, start, from, e);
      ImprovementCloser(univ, s.dist, e.to, d);
    }
  }

  /**
   * Relaxing one edge of the removed vertex leaves that edge relaxed, raises no distance,
   * keeps the removed vertex off the frontier, and leaves relaxed every vertex off it.
   */
  lemma RelaxEdgeKeepsRelaxed<V>(g: Graph<V>, h: Heuristic<V>, goal: V, from: V, e: Edge<V>, s: Frontier<V>)
    requires from in s.dist && from !in s.perimeter && e in Neighbors(g, from) && WellFormed(g)
    requires RelaxedExceptPending(g, s.dist, s.perimeter.Keys + {from})
    ensures var r := RelaxEdge(h, goal, from, e, s);
      && r.dist[from] == s.dist[from] && from !in r.perimeter
      && RelaxedExceptPending(g, r.dist, r.perimeter.Keys + {from})
      && e.to in r.dist && r.dist[e.to] <= r.dist[from] + e.weight
      && (forall v :: v in s.dist ==> v in r.dist && r.dist[v] <= s.dist[v])
  {
    var d := s.dist[from] + e.weight;
    if !(e.to in s.dist && s.dist[e.to] <= d) {
      NeighborsLeave(g, from, e);
      assert e.to != from;
      LoweringKeepsRelaxedExcept(g, s.dist, s.perimeter.Keys + {from}, e.to, d);
      assert RelaxEdge(h, goal, from, e, s).perimeter.Keys + {from} == s.perimeter.Keys + {from} + {e.to};
    }
  }

  /**
   * One pass of the loop over the removed vertex's edges: `edgeTo.put`, `distTo.put` and
   * `addOrChangePriority` for an improved target, computing `RelaxEdge`.
   */
  method RelaxOne<V>(h: Heuristic<V>, goal: V, from: V, e: Edge<V>,
                     dist0: map<V, nat>, edgeTo0: map<V, Option<Edge<V>>>,
                     ghost stamp0: map<V, nat>, ghost clock0: nat, perimeter: DoubleMapMinPQ<V>)
    returns (dist: map<V, nat>, edgeTo: map<V, Option<Edge<V>>>, ghost stamp: map<V, nat>, ghost clock: nat)
    requires perimeter.Valid() && from in dist0
    modifies perimeter
    ensures perimeter.Valid()
    ensures Frontier(dist, edgeTo, perimeter.elementToPriority) ==
      RelaxEdge(h, goal, from, e, Frontier(dist0, edgeTo0, old(perimeter.elementToPriority)))
    ensures stamp == StampAfter(from, e, Frontier(dist0, edgeTo0, old(perimeter.elementToPriority)), stamp0, clock0)
    ensures clock == clock0 + 1
  {
    dist, edgeTo, stamp, clock := dist0, edgeTo0, stamp0, clock0 + 1;
    var to := e.to;
    var newDist := dist[from] + e.weight;
    if to !in dist || newDist < dist[to] {
      edgeTo := edgeTo[to := Some(e)];
      dist := dist[to := newDist];
      stamp := stamp[to := clock0];
      var priority := newDist + h(to, goal);
      perimeter.AddOrChangePriority(to, priority);
    }
  }

  /**
   * What the loop over the removed vertex `from` keeps: the bookkeeping and the priorities,
   * `from` reached at `fromDist` and off the frontier, every vertex off the frontier but
   * `from` relaxed, the edges `done` so far relaxed, and no change or a smaller measure
   * than at the start (`d0`, `p0`).
   */
  ghost predicate Expanding<V(!new)>(g: Graph<V>, start: V, univ: seq<V>, h: Heuristic<V>, goal: V, from: V,
                                     fromDist: nat, d0: map<V, nat>, p0: map<V, int>,
                                     s: Frontier<V>, stamp: map<V, nat>, clock: nat, done: seq<Edge<V>>)
  {
    && SearchState(g, start, univ, s.dist, s.edgeTo, stamp, clock, s.perimeter.Keys)
    && Prioritised(h, start, goal, s)
    && from in s.dist && s.dist[from] == fromDist && from !in s.perimeter
    && RelaxedExceptPending(g, s.dist, s.perimeter.Keys + {from})
    && (forall e :: e in done ==> e.to in s.dist && s.dist[e.to] <= fromDist + e.weight)
    && ((s.dist == d0 && s.perimeter == p0) || Closer(univ, s.dist, d0))
  }

  /** Relaxing one more edge of `from` keeps `Expanding`, with that edge done. */
  lemma ExpandingStep<V(!new)>(g: Graph<V>, start: V, univ: seq<V>, h: Heuristic<V>, goal: V, from: V,
                               fromDist: nat, d0: map<V, nat>, p0: map<V, int>,
                               s: Frontier<V>, stamp: map<V, nat>, clock: nat, done: seq<Edge<V>>, e: Edge<V>)
    requires Expanding(g, start, univ, h, goal, from, fromDist, d0, p0, s, stamp, clock, done)
    requires e in Neighbors(g, from)
    ensures Expanding(g, start, univ, h, goal, from, fromDist, d0, p0, RelaxEdge(h, goal, from, e, s),
                      StampAfter(from, e, s, stamp, clock), clock + 1, done + [e])
  {
    var r := RelaxEdge(h, goal, from, e, s);
    assert SearchState(g, start, univ, r.dist, r.edgeTo, StampAfter(from, e, s, stamp, clock), clock + 1, r.perimeter.Keys) by {
      RelaxEdgeKeepsSearchState(g, start, univ, h, goal, from, e, s, stamp, clock);
    }
    assert Prioritised(h, start, goal, r) by {
      RelaxEdgeKeepsPrioritised(h, start, goal, from, e, s);
    }
    assert && r.dist[from] == fromDist && from !in r.perimeter
           && RelaxedExceptPending(g, r.dist, r.perimeter.Keys + {from})
           && (forall x :: x in done + [e] ==> x.to in r.dist && r.dist[x.to] <= fromDist + x.weight) by {
      RelaxEdgeKeepsRelaxed(g, h, goal, from, e, s);
    }
    assert (r.dist == d0 && r.perimeter == p0) || Closer(univ, r.dist, d0) by {
      RelaxEdgeMovesCloser(g, start, univ, h, goal, from, e, s);
      CloserTransitive(univ, d0, p0, s, r);
    }
  }

  /** No change or a smaller measure, twice over, is no change or a smaller measure. */
  lemma CloserTransitive<V>(univ: seq<V>, d0: map<V, nat>, p0: map<V, int>, s: Frontier<V>, r: Frontier<V>)
    requires (s.dist == d0 && s.perimeter == p0) || Closer(univ, s.dist, d0)
    requires r == s || Closer(univ, r.dist, s.dist)
    ensures (r.dist == d0 && r.perimeter == p0) || Closer(univ, r.dist, d0)
  {
  }

  /** Before the first edge of the removed vertex `from`: nothing done, nothing changed. */
  lemma ExpandingStart<V(!new)>(g: Graph<V>, start: V, univ: seq<V>, h: Heuristic<V>, goal: V, from: V,
                                s: Frontier<V>, stamp: map<V, nat>, clock: nat)
    requires SearchState(g, start, univ, s.dist, s.edgeTo, stamp, clock, s.perimeter.Keys)
    requires Prioritised(h, start, goal, s)
    requires from in s.dist && from !in s.perimeter
    requires RelaxedExceptPending(g, s.dist, s.perimeter.Keys + {from})
    ensures Expanding(g, start, univ, h, goal, from, s.dist[from], s.dist, s.perimeter, s, stamp, clock, [])
  {
  }

  /**
   * Once every edge of the removed vertex `from` is done, every vertex off the frontier is
   * relaxed, `from` included, and the bookkeeping, the priorities and the measure are as
   * the loop kept them.
   */
  lemma ExpandingDone<V(!new)>(g: Graph<V>, start: V, univ: seq<V>, h: Heuristic<V>, goal: V, from: V,
                               fromDist: nat, d0: map<V, nat>, p0: map<V, int>,
                               s: Frontier<V>, stamp: map<V, nat>, clock: nat)
    requires Expanding(g, start, univ, h, goal, from, fromDist, d0, p0, s, stamp, clock, Neighbors(g, from))
    ensures SearchState(g, start, univ, s.dist, s.edgeTo, stamp, clock, s.perimeter.Keys)
    ensures Prioritised(h, start, goal, s)
    ensures RelaxedExceptPending(g, s.dist, s.perimeter.Keys)
    ensures (s.dist == d0 && s.perimeter == p0) || Closer(univ, s.dist, d0)
  {
    forall u, e | u in s.dist && u !in s.perimeter.Keys && e in Neighbors(g, u)
      ensures e.to in s.dist && s.dist[e.to] <= s.dist[u] + e.weight
    {
    }
  }

  /**
   * The loop over the removed vertex's edges: it computes `RelaxEdges`, raising no distance,
   * from a state `Expanding` with no edge done to one with every edge done.
   */
  method RelaxNeighbors<V(!new)>(g: Graph<V>, start: V, ghost univ: seq<V>, h: Heuristic<V>, goal: V, from: V,
                                 dist0: map<V, nat>, edgeTo0: map<V, Option<Edge<V>>>,
                                 ghost stamp0: map<V, nat>, ghost clock0: nat,
                                 perimeter: DoubleMapMinPQ<V>)
    returns (dist: map<V, nat>, edgeTo: map<V, Option<Edge<V>>>, ghost stamp: map<V, nat>, ghost clock: nat)
    requires perimeter.Valid() && from in dist0
    requires Expanding(g, start, univ, h, goal, from, dist0[from], dist0, perimeter.elementToPriority,
                       Frontier(dist0, edgeTo0, perimeter.elementToPriority), stamp0, clock0, [])
    modifies perimeter
    ensures perimeter.Valid()
    ensures Expanding(g, start, univ, h, goal, from, dist0[from], dist0, old(perimeter.elementToPriority),
                      Frontier(dist, edgeTo, perimeter.elementToPriority), stamp, clock, Neighbors(g, from))
    ensures Frontier(dist, edgeTo, perimeter.elementToPriority) ==
      RelaxEdges(h, goal, from, Neighbors(g, from), Frontier(dist0, edgeTo0, old(perimeter.elementToPriority)))
    ensures forall v :: v in dist0 ==> v in dist && dist[v] <= dist0[v]
  {
    dist, edgeTo, stamp, clock := dist0, edgeTo0, stamp0, clock0;
    var es := Neighbors(g, from);
    ghost var p0 := perimeter.elementToPriority;
    ghost var target := RelaxEdges(h, goal, from, es, Frontier(dist0, edgeTo0, p0));
    assert es[..0] == [];
    for j := 0 to |es|
      invariant perimeter.Valid()
      invariant Expanding(g, start, univ, h, goal, from, dist0[from], dist0, p0,
                          Frontier(dist, edgeTo, perimeter.elementToPriority), stamp, clock, es[..j])
      invariant RelaxEdges(h, goal, from, es[j..], Frontier(dist, edgeTo, perimeter.elementToPriority)) == target
    {
      NextIndex(es, j);
      ghost var before := Frontier(dist, edgeTo, perimeter.elementToPriority);
      ExpandingStep(g, start, univ, h, goal, from, dist0[from], dist0, p0, before, stamp, clock, es[..j], es[j]);
      dist, edgeTo, stamp, clock := RelaxOne(h, goal, from, es[j], dist, edgeTo, stamp, clock, perimeter);
    }
    assert es[..|es|] == es;
    RelaxEdgesRaisesNoDistance(h, goal, from, es, Frontier(dist0, edgeTo0, p0));
  }

  /**
   * One pass of the constructor's loop: remove a vertex `from` of least priority and relax
   * its edges, which yields `RelaxEdges` of the frontier without it and raises no distance.
   * It keeps the loop's invariants and lowers the search measure, or leaves the distances
   * alone and shrinks the frontier.
   */
  method ExpandMin<V(!new)>(g: Graph<V>, start: V, ghost univ: seq<V>, h: Heuristic<V>, goal: V,
                            dist0: map<V, nat>, edgeTo0: map<V, Option<Edge<V>>>,
                            ghost stamp0: map<V, nat>, ghost clock0: nat, perimeter: DoubleMapMinPQ<V>)
    returns (from: V, dist: map<V, nat>, edgeTo: map<V, Option<Edge<V>>>, ghost stamp: map<V, nat>, ghost clock: nat)
    requires perimeter.Valid() && perimeter.elementToPriority != map[]
    requires SearchState(g, start, univ, dist0, edgeTo0, stamp0, clock0, perimeter.elementToPriority.Keys)
    requires Prioritised(h, start, goal, Frontier(dist0, edgeTo0, perimeter.elementToPriority))
    requires RelaxedExceptPending(g, dist0, perimeter.elementToPriority.Keys)
    modifies perimeter
    ensures perimeter.Valid()
    ensures from in old(perimeter.elementToPriority)
    ensures forall u :: u in old(perimeter.elementToPriority) ==>
      old(perimeter.elementToPriority)[from] <= old(perimeter.elementToPriority)[u]
    ensures Frontier(dist, edgeTo, perimeter.elementToPriority) ==
      RelaxEdges(h, goal, from, Neighbors(g, from), Frontier(dist0, edgeTo0, old(perimeter.elementToPriority) - {from}))
    ensures forall v :: v in dist0 ==> v in dist && dist[v] <= dist0[v]
    ensures SearchState(g, start, univ, dist, edgeTo, stamp, clock, perimeter.elementToPriority.Keys)
    ensures Prioritised(h, start, goal, Frontier(dist, edgeTo, perimeter.elementToPriority))
    ensures RelaxedExceptPending(g, dist, perimeter.elementToPriority.Keys)
    ensures Closer(univ, dist, dist0) ||
      (dist == dist0 && |perimeter.elementToPriority| < |old(perimeter.elementToPriority)|)
  {
    ghost var before := Frontier(dist0, edgeTo0, perimeter.elementToPriority);
    var removed := perimeter.RemoveMin();
    from := removed.value;
    assert perimeter.elementToPriority.Keys + {from} == before.perimeter.Keys;
    RemovalKeepsPrioritised(h, start, goal, before, from);
    ExpandingStart(g, start, univ, h, goal, from, Frontier(dist0, edgeTo0, perimeter.elementToPriority), stamp0, clock0);
    ghost var p0 := perimeter.elementToPriority;
    dist, edgeTo, stamp, clock := RelaxNeighbors(g, start, univ, h, goal, from, dist0, edgeTo0, stamp0, clock0, perimeter);
    ExpandingDone(g, start, univ, h, goal, from, dist0[from], dist0, p0,
                  Frontier(dist, edgeTo, perimeter.elementToPriority), stamp, clock);
  }

  /**
   * The constructor's search: the start at distance 0 on the frontier; remove the vertex of
   * least priority, relax its edges, repeat until the frontier is empty. Then every vertex
   * reached is labelled with a distance and a predecessor edge, and no edge can be relaxed.
   */
  method Search<V(!new)>(g: Graph<V>, start: V, goal: V, h: Heuristic<V>)
    returns (dist: map<V, nat>, edgeTo: map<V, Option<Edge<V>>>, ghost stamp: map<V, nat>)
    requires WellFormed(g)
    ensures Labelled(g, start, dist, edgeTo, stamp)
    ensures Relaxed(g, dist)
  {
    var perimeter := new DoubleMapMinPQ<V>();
    var added := perimeter.Add(start, 0);
    edgeTo := map[start := None];
    dist := map[start := 0];
    stamp := map[start := 0];
    ghost var clock := 1;
    ghost var univ := SeqOf(Vertices(g, start));
    StartSearchState(g, start);
    while !perimeter.IsEmpty()
      invariant perimeter.Valid() && fresh(perimeter)
      invariant SearchState(g, start, univ, dist, edgeTo, stamp, clock, perimeter.elementToPriority.Keys)
      invariant Prioritised(h, start, goal, Frontier(dist, edgeTo, perimeter.elementToPriority))
      invariant RelaxedExceptPending(g, dist, perimeter.elementToPriority.Keys)
      decreases Unreached(univ, dist), Potential(univ, dist), |perimeter.elementToPriority|
    {
      var from;
      from, dist, edgeTo, stamp, clock := ExpandMin(g, start, univ, h, goal, dist, edgeTo, stamp, clock, perimeter);
    }
  }

  class AStarSolver<V(==,!new)> {
    const graph: Graph<V>
    const start: V
    const goal: V
    const edgeTo: map<V, Option<Edge<V>>>
    const distTo: map<V, nat>
    ghost const stamp: map<V, nat>

    ghost predicate Valid()
    {
      Labelled(graph, start, distTo, edgeTo, stamp) && Relaxed(graph, distTo)
    }

    constructor (g: Graph<V>, start: V, goal: V, h: Heuristic<V>)
      requires WellFormed(g)
      ensures graph == g && this.start == start && this.goal == goal && Valid()
    {
      graph := g;
      this.start := start;
      this.goal := goal;
      var dist, edges, stamp := Search(g, start, goal, h);
      distTo, edgeTo, this.stamp := dist, edges, stamp;
    }

    /**
     * `solution()`: the `edgeTo` path back from the stored goal, reversed; a shortest walk
     * from the start when the goal was reached, just the goal otherwise.
     */
    method Solution() returns (path: seq<V>)
      requires Valid()
      ensures path != [] && path[|path| - 1] == goal && FollowsEdgeTo(edgeTo, path)
      ensures goal !in distTo <==> path == [goal] && forall q :: IsWalk(graph, start, q) ==> End(start, q) != goal
      ensures goal in distTo ==>
        && path[0] == start
        && IsWalk(graph, start, PathEdges(edgeTo, path)) && End(start, PathEdges(edgeTo, path)) == goal
        && Weight(PathEdges(edgeTo, path)) == distTo[goal]
        && forall q :: IsWalk(graph, start, q) && End(start, q) == goal ==> distTo[goal] <= Weight(q)
    {
      path := WalkBack(graph, start, distTo, edgeTo, stamp, goal);
      SolutionIsShortest(graph, start, distTo, edgeTo, stamp, goal, path);
    }
  }
}
