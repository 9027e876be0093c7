/**
 * What the three shortest-path solvers share: weighted directed graphs, walks and their
 * weights, the `distTo`/`edgeTo` maps a relaxation keeps consistent, the final "no edge can
 * be relaxed" state, and `solution`, which walks the `edgeTo` links back from the goal.
 *
 * Weights are natural numbers and a vertex missing from `distTo` is at infinite distance.
 */
module ShortestPaths {
  import opened Wrappers
  import opened Sequences

  datatype Edge<V> = Edge(from: V, to: V, weight: nat)

  /** `Graph.neighbors`: the outgoing edges of each vertex; unlisted vertices have none. */
  type Graph<V> = map<V, seq<Edge<V>>>

  function Neighbors<V>(g: Graph<V>, v: V): seq<Edge<V>>
  {
    if v in g then g[v] else []
  }

  /** Every edge listed under a vertex leaves that vertex. */
  predicate WellFormed<V>(g: Graph<V>)
  {
    forall v, i :: v in g && 0 <= i < |g[v]| ==> g[v][i].from == v
  }

  lemma NeighborsLeave<V>(g: Graph<V>, v: V, e: Edge<V>)
    requires WellFormed(g) && e in Neighbors(g, v)
    ensures e.from == v
  {
    var i :| 0 <= i < |g[v]| && g[v][i] == e;
  }

  /** Every vertex the search can meet: the start, the listed vertices and all edge targets. */
  function Vertices<V>(g: Graph<V>, start: V): set<V>
  {
    {start} + g.Keys + set v, i | v in g && 0 <= i < |g[v]| :: g[v][i].to
  }

  lemma TargetsAreVertices<V>(g: Graph<V>, start: V, v: V, e: Edge<V>)
    requires e in Neighbors(g, v)
    ensures e.to in Vertices(g, start)
  {
    var i :| 0 <= i < |g[v]| && g[v][i] == e;
  }

  // ---------------------------------------------------------------- walks

  /** `p` is a walk in `g` that leaves from `s`, each edge starting where the last one ended. */
  ghost predicate IsWalk<V>(g: Graph<V>, s: V, p: seq<Edge<V>>)
  {
    && (p != [] ==> p[0].from == s)
    && (forall i :: 0 <= i < |p| ==> p[i] in Neighbors(g, p[i].from))
    && (forall i :: 0 < i < |p| ==> p[i].from == p[i - 1].to)
  }

  function End<V>(s: V, p: seq<Edge<V>>): V
  {
    if p == [] then s else p[|p| - 1].to
  }

  function Weight<V>(p: seq<Edge<V>>): nat
  {
    if p == [] then 0 else Weight(p[..|p| - 1]) + p[|p| - 1].weight
  }

  lemma {:induction false} WeightAppend<V>(p: seq<Edge<V>>, q: seq<Edge<V>>)
    ensures Weight(p + q) == Weight(p) + Weight(q)
    decreases |q|
  {
    if q != [] {
      assert (p + q)[..|p + q| - 1] == p + q[..|q| - 1];
      WeightAppend(p, q[..|q| - 1]);
    } else {
      assert p + q == p;
    }
  }

  lemma WeightCons<V>(e: Edge<V>, q: seq<Edge<V>>)
    ensures Weight([e] + q) == e.weight + Weight(q)
  {
    WeightAppend([e], q);
    assert [e][..0] == [];
  }

  lemma WalkPrefix<V>(g: Graph<V>, s: V, p: seq<Edge<V>>, k: nat)
    requires IsWalk(g, s, p) && k <= |p|
    ensures IsWalk(g, s, p[..k])
    ensures k < |p| ==> p[k].from == End(s, p[..k])
  {
    var q := p[..k];
    forall i | 0 < i < |q|
      ensures q[i].from == q[i - 1].to
    {
      assert q[i] == p[i] && q[i - 1] == p[i - 1];
    }
  }

  // ---------------------------------------------------------------- the final state

  /** No edge out of a reached vertex can lower any distance. */
  ghost predicate Relaxed<V>(g: Graph<V>, dist: map<V, nat>)
  {
    forall u, e :: u in dist && e in Neighbors(g, u) ==> e.to in dist && dist[e.to] <= dist[u] + e.weight
  }

  /** Once nothing can be relaxed, every walk from the start ends at a reached vertex no nearer than its distance. */
  lemma {:induction false} RelaxedBoundsWalks<V>(g: Graph<V>, start: V, dist: map<V, nat>, p: seq<Edge<V>>)
    requires Relaxed(g, dist) && start in dist && dist[start] == 0 && IsWalk(g, start, p)
    ensures End(start, p) in dist && dist[End(start, p)] <= Weight(p)
    decreases |p|
  {
    if p != [] {
      var q := p[..|p| - 1];
      WalkPrefix(g, start, p, |p| - 1);
      RelaxedBoundsWalks(g, start, dist, q);
    }
  }

  // ---------------------------------------------------------------- the labelling

  /**
   * The predecessor edge recorded for `v` is a real edge into `v` from a reached vertex,
   * and `v`'s distance is no less than going through it. When the two are equal the
   * predecessor was labelled first (`stamp`): this is what keeps the `edgeTo` links from
   * forming a cycle when some edges weigh nothing.
   */
  ghost predicate PredecessorOk<V>(g: Graph<V>, dist: map<V, nat>, stamp: map<V, nat>, v: V, e: Edge<V>)
  {
    && e.to == v && e in Neighbors(g, e.from)
    && e.from in dist && e.from in stamp && v in dist && v in stamp
    && dist[e.from] + e.weight <= dist[v]
    && (dist[e.from] + e.weight == dist[v] ==> stamp[e.from] < stamp[v])
  }

  /**
   * The invariant of every solver: the start is at distance 0 without a predecessor, and
   * every other reached vertex has a consistent predecessor edge. `stamp` is a ghost
   * record of when each vertex was last improved.
   */
  ghost predicate Labelled<V>(g: Graph<V>, start: V, dist: map<V, nat>, edgeTo: map<V, Option<Edge<V>>>,
                              stamp: map<V, nat>)
  {
    && dist.Keys == edgeTo.Keys && stamp.Keys == dist.Keys
    && start in dist && dist[start] == 0 && edgeTo[start] == None
    && (forall v :: v in edgeTo && edgeTo[v].None? ==> v == start)
    && (forall v {:trigger edgeTo[v]} :: v in edgeTo && edgeTo[v].Some? ==> PredecessorOk(g, dist, stamp, v, edgeTo[v].value))
  }

  /** `distTo.get(from) + e.weight < distTo.getOrDefault(e.to, +infinity)`. */
  predicate Improves<V>(dist: map<V, nat>, e: Edge<V>)
    requires e.from in dist
  {
    e.to !in dist || dist[e.from] + e.weight < dist[e.to]
  }

  /** The labelling before any edge is relaxed. */
  lemma StartLabelled<V>(g: Graph<V>, start: V)
    ensures Labelled(g, start, map[start := 0], map[start := None], map[start := 0])
  {
  }

  /**
   * Relaxing an edge that improves its target (`edgeTo.put(to, e); distTo.put(to, newDist)`)
   * keeps the labelling, the target getting a fresh stamp.
   */
  lemma RelaxKeepsLabelled<V>(g: Graph<V>, start: V, dist: map<V, nat>, edgeTo: map<V, Option<Edge<V>>>,
                              stamp: map<V, nat>, clock: nat, e: Edge<V>)
    requires Labelled(g, start, dist, edgeTo, stamp)
    requires forall v :: v in stamp ==> stamp[v] < clock
    requires e.from in dist && e in Neighbors(g, e.from) && Improves(dist, e)
    ensures e.to != start && e.to != e.from
    ensures Labelled(g, start, dist[e.to := dist[e.from] + e.weight], edgeTo[e.to := Some(e)], stamp[e.to := clock])
  {
    var dist', edgeTo', stamp' := dist[e.to := dist[e.from] + e.weight], edgeTo[e.to := Some(e)], stamp[e.to := clock];
    forall v | v in edgeTo' && edgeTo'[v].Some?
      ensures PredecessorOk(g, dist', stamp', v, edgeTo'[v].value)
    {
      if v != e.to {
        assert PredecessorOk(g, dist, stamp, v, edgeTo[v].value);
      }
    }
  }

  /** Every reached vertex is reached by a walk from the start no heavier than its distance. */
  lemma {:induction false} LabelledWalk<V>(g: Graph<V>, start: V, dist: map<V, nat>,
                                           edgeTo: map<V, Option<Edge<V>>>, stamp: map<V, nat>, v: V)
    returns (p: seq<Edge<V>>)
    requires Labelled(g, start, dist, edgeTo, stamp) && v in dist
    ensures IsWalk(g, start, p) && End(start, p) == v && Weight(p) <= dist[v]
    decreases dist[v], stamp[v]
  {
    if edgeTo[v].None? {
      p := [];
    } else {
      var e := edgeTo[v].value;
      assert PredecessorOk(g, dist, stamp, v, e);
      var q := LabelledWalk(g, start, dist, edgeTo, stamp, e.from);
      p := q + [e];
      assert p[..|p| - 1] == q;
    }
  }

  // ---------------------------------------------------------------- the search measure

  /** How many of the listed vertices are still unreached. */
  function Unreached<V>(univ: seq<V>, dist: map<V, nat>): nat
  {
    if univ == [] then 0 else (if univ[0] in dist then 0 else 1) + Unreached(univ[1..], dist)
  }

  /** The sum of the distances of the listed reached vertices. */
  function Potential<V>(univ: seq<V>, dist: map<V, nat>): nat
  {
    if univ == [] then 0 else (if univ[0] in dist then dist[univ[0]] else 0) + Potential(univ[1..], dist)
  }

  lemma {:induction false} MeasureFrame<V>(univ: seq<V>, dist: map<V, nat>, v: V, d: nat)
    requires v !in univ
    ensures Unreached(univ, dist[v := d]) == Unreached(univ, dist)
    ensures Potential(univ, dist[v := d]) == Potential(univ, dist)
  {
    if univ != [] {
      MeasureFrame(univ[1..], dist, v, d);
    }
  }

  /**
   * Every improvement makes progress: reaching a new vertex lowers the unreached count, and
   * lowering a distance keeps the count and lowers the potential.
   */
  lemma {:induction false} ImprovementProgress<V>(univ: seq<V>, dist: map<V, nat>, v: V, d: nat)
    requires NoDuplicates(univ) && v in univ && (v in dist ==> d < dist[v])
    ensures v !in dist ==> Unreached(univ, dist[v := d]) < Unreached(univ, dist)
    ensures v in dist ==>
      Unreached(univ, dist[v := d]) == Unreached(univ, dist) && Potential(univ, dist[v := d]) < Potential(univ, dist)
  {
    if univ[0] == v {
      assert v !in univ[1..] by {
        forall k | 1 <= k < |univ|
          ensures univ[k] != v
        {
        }
      }
      MeasureFrame(univ[1..], dist, v, d);
    } else {
      assert NoDuplicates(univ[1..]) by {
        forall i, j | 0 <= i < j < |univ[1..]|
          ensures univ[1..][i] != univ[1..][j]
        {
          assert univ[1..][i] == univ[i + 1] && univ[1..][j] == univ[j + 1];
        }
      }
      ImprovementProgress(univ[1..], dist, v, d);
    }
  }

  lemma ImprovementCloser<V>(univ: seq<V>, dist: map<V, nat>, v: V, d: nat)
    requires NoDuplicates(univ) && v in univ && (v in dist ==> d < dist[v])
    ensures Closer(univ, dist[v := d], dist)
  {
    ImprovementProgress(univ, dist, v, d);
  }

  /** The search measure of `dist'` is lexicographically below that of `dist`. */
  predicate Closer<V>(univ: seq<V>, dist': map<V, nat>, dist: map<V, nat>)
  {
    || Unreached(univ, dist') < Unreached(univ, dist)
    || (Unreached(univ, dist') == Unreached(univ, dist) && Potential(univ, dist') < Potential(univ, dist))
  }

  /** Every reached vertex outside `pending` has no edge that could lower a distance. */
  ghost predicate RelaxedExceptPending<V>(g: Graph<V>, dist: map<V, nat>, pending: set<V>)
  {
    forall u, e :: u in dist && u !in pending && e in Neighbors(g, u) ==>
      e.to in dist && dist[e.to] <= dist[u] + e.weight
  }

  /** Lowering one distance leaves relaxed every vertex but that one. */
  lemma LoweringKeepsRelaxedExcept<V>(g: Graph<V>, dist: map<V, nat>, pending: set<V>, v: V, d: nat)
    requires RelaxedExceptPending(g, dist, pending)
    requires v !in dist || d < dist[v]
    ensures RelaxedExceptPending(g, dist[v := d], pending + {v})
  {
    var dist' := dist[v := d];
    forall u, e | u in dist' && u !in pending + {v} && e in Neighbors(g, u)
      ensures e.to in dist' && dist'[e.to] <= dist'[u] + e.weight
    {
      assert u in dist && dist'[u] == dist[u];
      assert e.to in dist && dist[e.to] <= dist[u] + e.weight;
    }
  }

  /**
   * What a label-correcting search (SPFA, A*) keeps between polls: the labelling, stamps
   * below the clock, a duplicate-free list `univ` of every vertex it can meet (for the
   * termination measure), and only reached vertices pending.
   */
  ghost predicate SearchState<V(!new)>(g: Graph<V>, start: V, univ: seq<V>, dist: map<V, nat>,
                                        edgeTo: map<V, Option<Edge<V>>>, stamp: map<V, nat>, clock: nat,
                                        pending: set<V>)
  {
    && WellFormed(g)
    && Labelled(g, start, dist, edgeTo, stamp)
    && (forall v :: v in stamp ==> stamp[v] < clock)
    && NoDuplicates(univ) && (forall v :: v in Vertices(g, start) ==> v in univ)
    && pending <= dist.Keys
  }

  /** The state of a search before its first poll. */
  lemma StartSearchState<V(!new)>(g: Graph<V>, start: V)
    requires WellFormed(g)
    ensures SearchState(g, start, SeqOf(Vertices(g, start)), map[start := 0], map[start := None], map[start := 0], 1, {start})
  {
    StartLabelled(g, start);
  }

  /**
   * Improving the target of an edge out of a reached vertex, stamping it and making it
   * pending keeps the search state.
   */
  lemma ImproveKeepsSearchState<V(!new)>(g: Graph<V>, start: V, univ: seq<V>, pending: set<V>, from: V,
                                         dist: map<V, nat>, edgeTo: map<V, Option<Edge<V>>>,
                                         stamp: map<V, nat>, clock: nat, e: Edge<V>)
    requires SearchState(g, start, univ, dist, edgeTo, stamp, clock, pending)
    requires from in dist && e in Neighbors(g, from) && (e.to !in dist || dist[from] + e.weight < dist[e.to])
    ensures e.to != from && e.to != start
    ensures SearchState(g, start, univ, dist[e.to := dist[from] + e.weight], edgeTo[e.to := Some(e)],
                        stamp[e.to := clock], clock + 1, pending + {e.to})
  {
    var dist', stamp' := dist[e.to := dist[from] + e.weight], stamp[e.to := clock];
    assert e.to != from && e.to != start by {
      NeighborsLeave(g, from, e);
    }
    assert Labelled(g, start, dist', edgeTo[e.to := Some(e)], stamp') by {
      NeighborsLeave(g, from, e);
      RelaxKeepsLabelled(g, start, dist, edgeTo, stamp, clock, e);
    }
    assert forall v :: v in stamp' ==> stamp'[v] < clock + 1 by {
      assert forall v :: v in stamp ==> stamp[v] < clock;
    }
    assert pending + {e.to} <= dist'.Keys by {
      assert pending <= dist.Keys;
    }
  }

  // ---------------------------------------------------------------- solution()

  /** Each vertex after the first was reached over the `edgeTo` edge from the vertex before it. */
  predicate FollowsEdgeTo<V>(edgeTo: map<V, Option<Edge<V>>>, path: seq<V>)
  {
    forall i :: 0 < i < |path| ==>
      path[i] in edgeTo && edgeTo[path[i]].Some? && edgeTo[path[i]].value.from == path[i - 1]
  }

  /** The `edgeTo` edges along a path that follows them. */
  function PathEdges<V>(edgeTo: map<V, Option<Edge<V>>>, path: seq<V>): (r: seq<Edge<V>>)
    requires FollowsEdgeTo(edgeTo, path) && path != []
    ensures |r| == |path| - 1
    ensures forall i :: 0 <= i < |r| ==> r[i].from == path[i]
  {
    seq(|path| - 1, (i: int) requires 0 <= i < |path| - 1 => edgeTo[path[i + 1]].value)
  }

  lemma WalkCons<V>(g: Graph<V>, e: Edge<V>, q: seq<Edge<V>>)
    requires IsWalk(g, e.to, q) && e in Neighbors(g, e.from)
    ensures IsWalk(g, e.from, [e] + q) && End(e.from, [e] + q) == End(e.to, q)
    ensures Weight([e] + q) == e.weight + Weight(q)
  {
    WeightCons(e, q);
  }

  lemma PathEdgesCons<V>(edgeTo: map<V, Option<Edge<V>>>, u: V, path: seq<V>)
    requires path != [] && FollowsEdgeTo(edgeTo, path)
    requires path[0] in edgeTo && edgeTo[path[0]].Some? && edgeTo[path[0]].value.from == u
    ensures FollowsEdgeTo(edgeTo, [u] + path)
    ensures PathEdges(edgeTo, [u] + path) == [edgeTo[path[0]].value] + PathEdges(edgeTo, path)
  {
    var path' := [u] + path;
    assert forall i :: 0 < i < |path'| ==> path'[i] == path[i - 1];
  }

  /** One step back along `edgeTo` keeps the walk to the goal and makes the measure smaller. */
  lemma WalkBackStep<V>(g: Graph<V>, start: V, dist: map<V, nat>, edgeTo: map<V, Option<Edge<V>>>,
                        stamp: map<V, nat>, goal: V, forward: seq<V>)
    requires Labelled(g, start, dist, edgeTo, stamp)
    requires forward != [] && FollowsEdgeTo(edgeTo, forward) && forward[|forward| - 1] == goal
    requires forward[0] in edgeTo && edgeTo[forward[0]].Some?
    requires goal in dist ==>
      && IsWalk(g, forward[0], PathEdges(edgeTo, forward))
      && End(forward[0], PathEdges(edgeTo, forward)) == goal
      && dist[forward[0]] + Weight(PathEdges(edgeTo, forward)) <= dist[goal]
    ensures var curr, e := forward[0], edgeTo[forward[0]].value;
      var forward' := [e.from] + forward;
      && FollowsEdgeTo(edgeTo, forward')
      && e.from in dist && curr in dist
      && (dist[e.from] < dist[curr] || (dist[e.from] == dist[curr] && stamp[e.from] < stamp[curr]))
      && (goal in dist ==>
           && IsWalk(g, e.from, PathEdges(edgeTo, forward'))
           && End(e.from, PathEdges(edgeTo, forward')) == goal
           && dist[e.from] + Weight(PathEdges(edgeTo, forward')) <= dist[goal])
  {
    var curr, e := forward[0], edgeTo[forward[0]].value;
    assert PredecessorOk(g, dist, stamp, curr, e);
    PathEdgesCons(edgeTo, e.from, forward);
    if goal in dist {
      WalkCons(g, e, PathEdges(edgeTo, forward));
    }
  }

  /**
   * The loop shared by the three `solution` methods: from the goal, follow `edgeTo` until a
   * vertex without a predecessor edge, then reverse. An unreached goal yields just itself;
   * a reached one yields a walk from the start no heavier than the goal's distance.
   */
  method WalkBack<V>(g: Graph<V>, start: V, dist: map<V, nat>, edgeTo: map<V, Option<Edge<V>>>,
                     ghost stamp: map<V, nat>, goal: V)
    returns (path: seq<V>)
    requires Labelled(g, start, dist, edgeTo, stamp)
    ensures path != [] && path[|path| - 1] == goal
    ensures FollowsEdgeTo(edgeTo, path)
    ensures path[0] !in edgeTo || edgeTo[path[0]].None?
    ensures goal !in dist ==> path == [goal]
    ensures goal in dist ==>
      && path[0] == start
      && IsWalk(g, start, PathEdges(edgeTo, path))
      && End(start, PathEdges(edgeTo, path)) == goal
      && Weight(PathEdges(edgeTo, path)) <= dist[goal]
  {
    var reversed := [goal];
    var curr := goal;
    ghost var forward := [goal];
    while curr in edgeTo && edgeTo[curr].Some?
      invariant reversed != [] && reversed[0] == goal && reversed[|reversed| - 1] == curr
      invariant forward == Reversed(reversed)
      invariant forward[0] == curr && forward[|forward| - 1] == goal
      invariant FollowsEdgeTo(edgeTo, forward)
      invariant curr in dist <==> goal in dist
      invariant goal !in dist ==> reversed == [goal]
      invariant goal in dist ==>
        && IsWalk(g, curr, PathEdges(edgeTo, forward))
        && End(curr, PathEdges(edgeTo, forward)) == goal
        && dist[curr] + Weight(PathEdges(edgeTo, forward)) <= dist[goal]
      decreases if curr in dist then dist[curr] else 0, if curr in stamp then stamp[curr] else 0
    {
      WalkBackStep(g, start, dist, edgeTo, stamp, goal, forward);
      curr := edgeTo[curr].value.from;
      ReversedSnoc(reversed, curr);
      reversed := reversed + [curr];
      forward := [curr] + forward;
    }
    ReversedIndex(reversed);
    path := Reversed(reversed);
  }

  /**
   * Once nothing can be relaxed, the path `solution` returns is a shortest one: a reached
   * goal is reached by no lighter walk, and an unreached goal by no walk at all.
   */
  lemma SolutionIsShortest<V>(g: Graph<V>, start: V, dist: map<V, nat>, edgeTo: map<V, Option<Edge<V>>>,
                              stamp: map<V, nat>, goal: V, path: seq<V>)
    requires Labelled(g, start, dist, edgeTo, stamp) && Relaxed(g, dist)
    requires path != [] && FollowsEdgeTo(edgeTo, path)
    requires goal in dist ==>
      IsWalk(g, start, PathEdges(edgeTo, path)) && End(start, PathEdges(edgeTo, path)) == goal
      && Weight(PathEdges(edgeTo, path)) <= dist[goal]
    ensures goal in dist ==> Weight(PathEdges(edgeTo, path)) == dist[goal]
    ensures goal in dist ==> forall q :: IsWalk(g, start, q) && End(start, q) == goal ==>
      Weight(PathEdges(edgeTo, path)) <= Weight(q)
    ensures goal !in dist <==> forall q :: IsWalk(g, start, q) ==> End(start, q) != goal
  {
    if goal in dist {
      RelaxedBoundsWalks(g, start, dist, PathEdges(edgeTo, path));
      forall q | IsWalk(g, start, q) && End(start, q) == goal
        ensures Weight(PathEdges(edgeTo, path)) <= Weight(q)
      {
        RelaxedBoundsWalks(g, start, dist, q);
      }
      var p := LabelledWalk(g, start, dist, edgeTo, stamp, goal);
    } else {
      forall q | IsWalk(g, start, q)
        ensures End(start, q) != goal
      {
        RelaxedBoundsWalks(g, start, dist, q);
      }
    }
  }
}
