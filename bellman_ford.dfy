/**
 * `BellmanFordSolver`: list the vertices reachable from the start breadth-first, then relax
 * every edge out of every listed vertex, `|vertices| - 1` times over.
 */
module BellmanFord {
  import opened Wrappers
  import opened Sequences
  import opened ShortestPaths

  // ---------------------------------------------------------------- walks, continued

  lemma WalkSnoc<V>(g: Graph<V>, s: V, p: seq<Edge<V>>, e: Edge<V>)
    requires IsWalk(g, s, p) && e in Neighbors(g, e.from) && e.from == End(s, p)
    ensures IsWalk(g, s, p + [e]) && End(s, p + [e]) == e.to
    ensures Weight(p + [e]) == Weight(p) + e.weight
  {
    assert (p + [e])[..|p|] == p;
  }

  /** The part of a walk after its first `k` edges is a walk from where those end. */
  lemma WalkSuffix<V>(g: Graph<V>, s: V, p: seq<Edge<V>>, k: nat)
    requires IsWalk(g, s, p) && k <= |p|
    ensures IsWalk(g, End(s, p[..k]), p[k..]) && End(End(s, p[..k]), p[k..]) == End(s, p)
  {
    WalkPrefix(g, s, p, k);
  }

  /** Walks joined end to start make a walk. */
  lemma WalkAppend<V>(g: Graph<V>, s: V, p: seq<Edge<V>>, q: seq<Edge<V>>)
    requires IsWalk(g, s, p) && IsWalk(g, End(s, p), q)
    ensures IsWalk(g, s, p + q) && End(s, p + q) == End(End(s, p), q)
  {
    var r := p + q;
    forall i | 0 < i < |r|
      ensures r[i].from == r[i - 1].to
    {
      if i > |p| {
        assert r[i] == q[i - |p|] && r[i - 1] == q[i - 1 - |p|];
      }
    }
  }

  // ---------------------------------------------------------------- vertices(graph, start)

  ghost predicate Reachable<V(!new)>(g: Graph<V>, start: V, v: V)
  {
    exists p :: IsWalk(g, start, p) && End(start, p) == v
  }

  /** The targets of a vertex's edges. */
  function Targets<V>(g: Graph<V>, v: V): set<V>
  {
    set e | e in Neighbors(g, v) :: e.to
  }

  /** Every listed vertex after the first is a target of the vertex `parent` names, listed before it. */
  predicate DiscoveredInOrder<V>(g: Graph<V>, vs: seq<V>, parent: seq<nat>)
  {
    |parent| == |vs| && forall k {:trigger parent[k]} :: 0 < k < |vs| ==> parent[k] < k && vs[k] in Targets(g, vs[parent[k]])
  }

  /**
   * Breadth-first order on top of `DiscoveredInOrder`: parents never go back down the list, and
   * each vertex is listed under the first listed vertex it is a target of.
   */
  predicate BreadthFirst<V>(g: Graph<V>, vs: seq<V>, parent: seq<nat>)
  {
    && |parent| == |vs|
    && (forall k, l :: 0 < k < l < |vs| ==> parent[k] <= parent[l])
    && (forall k {:trigger parent[k]} :: 0 < k < |vs| ==>
          forall i :: 0 <= i < k && i < parent[k] ==> vs[k] !in Targets(g, vs[i]))
  }

  /**
   * The breadth-first part of the loop state while the vertex at `j` is expanded: every parent
   * so far is at most `j`, and every vertex before `j` has all its targets visited.
   */
  ghost predicate Layered<V>(g: Graph<V>, order: seq<V>, parent: seq<nat>, visited: set<V>, j: nat)
  {
    && BreadthFirst(g, order, parent)
    && (forall k :: 0 < k < |order| ==> parent[k] <= j)
    && (forall i :: 0 <= i < j && i < |order| ==> Targets(g, order[i]) <= visited)
  }

  /** Discovering an unvisited vertex from the vertex at `j` keeps the list breadth-first. */
  lemma DiscoverLayered<V>(g: Graph<V>, order: seq<V>, parent: seq<nat>, visited: set<V>, j: nat, x: V)
    requires Layered(g, order, parent, visited, j) && j < |order| && x !in visited
    ensures Layered(g, order + [x], parent + [j], visited + {x}, j)
  {
    var order', parent' := order + [x], parent + [j];
    forall k, i | 0 <= i < k < |order'| && i < parent'[k]
      ensures order'[k] !in Targets(g, order'[i])
    {
      if k == |order| {
        assert Targets(g, order[i]) <= visited;
      } else {
        assert parent'[k] == parent[k] && order'[k] == order[k] && order'[i] == order[i];
      }
    }
    forall k, l | 0 < k < l < |order'|
      ensures parent'[k] <= parent'[l]
    {
      if l < |order| {
        assert parent'[k] == parent[k] && parent'[l] == parent[l];
      }
    }
  }

  /** A set holding the start and closed under edges holds the end of every walk. */
  lemma {:induction false} ClosedHoldsWalks<V(!new)>(g: Graph<V>, start: V, s: set<V>, p: seq<Edge<V>>)
    requires start in s && forall v :: v in s ==> Targets(g, v) <= s
    requires IsWalk(g, start, p)
    ensures End(start, p) in s
    decreases |p|
  {
    if p != [] {
      var e := p[|p| - 1];
      WalkPrefix(g, start, p, |p| - 1);
      ClosedHoldsWalks(g, start, s, p[..|p| - 1]);
      assert e.to in Targets(g, e.from);
    }
  }

  /** What the breadth-first loop keeps: `order` is `result` then `queue`, each vertex once. */
  ghost predicate Discovery<V>(g: Graph<V>, start: V, order: seq<V>, parent: seq<nat>, visited: set<V>,
                               walkTo: map<V, seq<Edge<V>>>)
  {
    && order != [] && order[0] == start && NoDuplicates(order) && visited == Members(order)
    && DiscoveredInOrder(g, order, parent)
    && visited <= Vertices(g, start)
    && (forall v :: v in visited ==> v in walkTo && IsWalk(g, start, walkTo[v]) && End(start, walkTo[v]) == v)
  }

  lemma DiscoverOne<V>(g: Graph<V>, start: V, order: seq<V>, parent: seq<nat>, visited: set<V>,
                       walkTo: map<V, seq<Edge<V>>>, j: nat, e: Edge<V>)
    requires Discovery(g, start, order, parent, visited, walkTo)
    requires j < |order| && e in Neighbors(g, order[j]) && WellFormed(g) && e.to !in visited
    ensures Discovery(g, start, order + [e.to], parent + [j], visited + {e.to}, walkTo[e.to := walkTo[order[j]] + [e]])
  {
    var order', parent' := order + [e.to], parent + [j];
    NeighborsLeave(g, order[j], e);
    WalkSnoc(g, start, walkTo[order[j]], e);
    TargetsAreVertices(g, start, order[j], e);
    assert order[j] in visited;
    forall k | 0 < k < |order'|
      ensures parent'[k] < k && order'[k] in Targets(g, order'[parent'[k]])
    {
      if k < |order| {
        assert parent'[k] == parent[k] && parent[k] < k;
      }
    }
    MembersSnoc(order, e.to);
  }

  lemma StartDiscovery<V>(g: Graph<V>, start: V)
    ensures Discovery(g, start, [start], [0], {start}, map[start := []])
  {
    assert Members([start]) == {start};
  }

  /**
   * What the neighbours loop of `vertices` keeps after the first `k` edges `es` of the vertex
   * at `j`: the discovery state, breadth-first, extended by the vertices `added` to both the
   * order and the queue, with every target of those edges visited.
   */
  ghost predicate Queueing<V>(g: Graph<V>, start: V, j: nat, es: seq<Edge<V>>, k: nat,
                              queue0: seq<V>, visited0: set<V>, order0: seq<V>,
                              queue: seq<V>, visited: set<V>, order: seq<V>, parent: seq<nat>,
                              walkTo: map<V, seq<Edge<V>>>, added: seq<V>)
  {
    && k <= |es| && j < |order0|
    && Discovery(g, start, order, parent, visited, walkTo) && Layered(g, order, parent, visited, j)
    && order == order0 + added && queue == queue0 + added
    && (forall i :: 0 <= i < k ==> es[i].to in visited)
    && visited0 <= visited
    && ((visited == visited0 && queue == queue0) || visited0 < visited)
  }

  /** An edge whose target is visited already leaves the state as it is. */
  lemma QueueingSkip<V>(g: Graph<V>, start: V, j: nat, es: seq<Edge<V>>, k: nat,
                        queue0: seq<V>, visited0: set<V>, order0: seq<V>,
                        queue: seq<V>, visited: set<V>, order: seq<V>, parent: seq<nat>,
                        walkTo: map<V, seq<Edge<V>>>, added: seq<V>)
    requires Queueing(g, start, j, es, k, queue0, visited0, order0, queue, visited, order, parent, walkTo, added)
    requires k < |es| && es[k].to in visited
    ensures Queueing(g, start, j, es, k + 1, queue0, visited0, order0, queue, visited, order, parent, walkTo, added)
  {
  }

  /** An edge of the vertex at `j` to an unvisited target queues the target. */
  lemma QueueingDiscover<V>(g: Graph<V>, start: V, j: nat, es: seq<Edge<V>>, k: nat,
                            queue0: seq<V>, visited0: set<V>, order0: seq<V>,
                            queue: seq<V>, visited: set<V>, order: seq<V>, parent: seq<nat>,
                            walkTo: map<V, seq<Edge<V>>>, added: seq<V>)
    requires Queueing(g, start, j, es, k, queue0, visited0, order0, queue, visited, order, parent, walkTo, added)
    requires WellFormed(g) && k < |es| && es == Neighbors(g, order0[j]) && es[k].to !in visited
    ensures Queueing(g, start, j, es, k + 1, queue0, visited0, order0, queue + [es[k].to], visited + {es[k].to},
                     order + [es[k].to], parent + [j], walkTo[es[k].to := walkTo[order[j]] + [es[k]]],
                     added + [es[k].to])
  {
    var e := es[k];
    assert order[j] == order0[j];
    DiscoverOne(g, start, order, parent, visited, walkTo, j, e);
    DiscoverLayered(g, order, parent, visited, j, e.to);
    assert order0 + (added + [e.to]) == order + [e.to] && queue0 + (added + [e.to]) == queue + [e.to];
  }

  /** One pass of the neighbours loop: queue the target of `es[k]` unless it was visited already. */
  method DiscoverTarget<V(!new)>(g: Graph<V>, start: V, from: V, ghost j: nat, es: seq<Edge<V>>, k: nat,
                                 ghost queue0: seq<V>, ghost visited0: set<V>, ghost order0: seq<V>,
                                 queue1: seq<V>, visited1: set<V>, ghost order1: seq<V>, ghost parent1: seq<nat>,
                                 ghost walkTo1: map<V, seq<Edge<V>>>, ghost added1: seq<V>)
    returns (queue: seq<V>, visited: set<V>, ghost order: seq<V>, ghost parent: seq<nat>,
             ghost walkTo: map<V, seq<Edge<V>>>, ghost added: seq<V>)
    requires WellFormed(g) && es == Neighbors(g, from) && k < |es|
    requires Queueing(g, start, j, es, k, queue0, visited0, order0, queue1, visited1, order1, parent1, walkTo1, added1)
    requires order0[j] == from
    ensures Queueing(g, start, j, es, k + 1, queue0, visited0, order0, queue, visited, order, parent, walkTo, added)
    ensures visited == visited1 + {es[k].to}
    ensures (visited == visited1 && queue == queue1) || visited1 < visited
  {
    var e := es[k];
    queue, visited, order, parent, walkTo, added := queue1, visited1, order1, parent1, walkTo1, added1;
    if e.to !in visited {
      QueueingDiscover(g, start, j, es, k, queue0, visited0, order0, queue, visited, order, parent, walkTo, added);
      added := added + [e.to];
      order := order + [e.to];
      parent := parent + [j];
      queue := queue + [e.to];
      visited := visited + {e.to};
      walkTo := walkTo[e.to := walkTo[order1[j]] + [e]];
    } else {
      QueueingSkip(g, start, j, es, k, queue0, visited0, order0, queue, visited, order, parent, walkTo, added);
    }
  }

  /**
   * The neighbours loop of `vertices`: queue every target not visited yet. Afterwards all
   * targets of the vertex are visited, and either some vertex was discovered or nothing
   * changed.
   */
  method DiscoverNeighbors<V(!new)>(g: Graph<V>, start: V, from: V, ghost j: nat,
                                    queue0: seq<V>, visited0: set<V>, ghost order0: seq<V>,
                                    ghost parent0: seq<nat>, ghost walkTo0: map<V, seq<Edge<V>>>)
    returns (queue: seq<V>, visited: set<V>, ghost order: seq<V>, ghost parent: seq<nat>,
             ghost walkTo: map<V, seq<Edge<V>>>, ghost added: seq<V>)
    requires WellFormed(g) && Discovery(g, start, order0, parent0, visited0, walkTo0) && j < |order0| && order0[j] == from
    requires Layered(g, order0, parent0, visited0, j)
    ensures Discovery(g, start, order, parent, visited, walkTo) && Layered(g, order, parent, visited, j)
    ensures order == order0 + added && queue == queue0 + added
    ensures Targets(g, from) <= visited
    ensures visited0 <= visited
    ensures (visited == visited0 && queue == queue0) || visited0 < visited
  {
    queue, visited, order, parent, walkTo, added := queue0, visited0, order0, parent0, walkTo0, [];
    var es := Neighbors(g, from);
    assert order0 + [] == order0 && queue0 + [] == queue0;
    for k := 0 to |es|
      invariant Queueing(g, start, j, es, k, queue0, visited0, order0, queue, visited, order, parent, walkTo, added)
    {
      queue, visited, order, parent, walkTo, added :=
        DiscoverTarget(g, start, from, j, es, k, queue0, visited0, order0, queue, visited, order, parent, walkTo, added);
    }
    forall v | v in Targets(g, from)
      ensures v in visited
    {
      var e :| e in es && e.to == v;
    }
  }

  /** What the breadth-first loop of `vertices` keeps between two visits. */
  ghost predicate Visiting<V(!new)>(g: Graph<V>, start: V, result: seq<V>, queue: seq<V>, order: seq<V>,
                                    parent: seq<nat>, visited: set<V>, walkTo: map<V, seq<Edge<V>>>)
  {
    && Discovery(g, start, order, parent, visited, walkTo)
    && order == result + queue
    && (forall k :: 0 <= k < |result| ==> Targets(g, result[k]) <= visited)
    && BreadthFirst(g, order, parent)
    && (forall k :: 0 < k < |order| ==> parent[k] < |result|)
  }

  /** Listing the head of the queue, once its targets are discovered, keeps `Visiting`. */
  lemma ListHead<V(!new)>(g: Graph<V>, start: V, result0: seq<V>, queue0: seq<V>, order0: seq<V>,
                          parent0: seq<nat>, visited0: set<V>, walkTo0: map<V, seq<Edge<V>>>,
                          order: seq<V>, parent: seq<nat>, visited: set<V>, walkTo: map<V, seq<Edge<V>>>,
                          added: seq<V>)
    requires Visiting(g, start, result0, queue0, order0, parent0, visited0, walkTo0) && queue0 != []
    requires Discovery(g, start, order, parent, visited, walkTo)
    requires order == order0 + added && Targets(g, queue0[0]) <= visited && visited0 <= visited
    requires Layered(g, order, parent, visited, |result0|)
    ensures Visiting(g, start, result0 + [queue0[0]], queue0[1..] + added, order, parent, visited, walkTo)
  {
    var result := result0 + [queue0[0]];
    assert order == result + (queue0[1..] + added) by {
      assert result0 + queue0 == result + queue0[1..];
    }
    forall k | 0 <= k < |result|
      ensures Targets(g, result[k]) <= visited
    {
      if k < |result0| {
        assert result[k] == result0[k];
      }
    }
  }

  /**
   * One turn of the breadth-first loop: take the head of the queue, list it, and queue its
   * undiscovered targets. Either new vertices were discovered or the queue got shorter.
   */
  method VisitNext<V(!new)>(g: Graph<V>, start: V, result0: seq<V>, queue0: seq<V>, visited0: set<V>,
                            ghost order0: seq<V>, ghost parent0: seq<nat>, ghost walkTo0: map<V, seq<Edge<V>>>)
    returns (result: seq<V>, queue: seq<V>, visited: set<V>, ghost order: seq<V>, ghost parent: seq<nat>,
             ghost walkTo: map<V, seq<Edge<V>>>)
    requires WellFormed(g) && queue0 != []
    requires Visiting(g, start, result0, queue0, order0, parent0, visited0, walkTo0)
    ensures Visiting(g, start, result, queue, order, parent, visited, walkTo)
    ensures |Vertices(g, start) - visited| < |Vertices(g, start) - visited0|
            || (visited == visited0 && |queue| < |queue0|)
  {
    var from := queue0[0];
    result := result0 + [from];
    ghost var added;
    assert order0 == result0 + queue0;
    assert Layered(g, order0, parent0, visited0, |result0|) by {
      assert forall i :: 0 <= i < |result0| ==> order0[i] == result0[i];
    }
    queue, visited, order, parent, walkTo, added :=
      DiscoverNeighbors(g, start, from, |result0|, queue0[1..], visited0, order0, parent0, walkTo0);
    ListHead(g, start, result0, queue0, order0, parent0, visited0, walkTo0, order, parent, visited, walkTo, added);
    if visited0 < visited {
      RemainderShrinks(Vertices(g, start), visited0, visited);
    }
  }

  /**
   * `vertices(graph, start)`: breadth-first from the start. The list begins with the start,
   * holds no vertex twice, lists each vertex after one it is a target of, in breadth-first
   * order, and holds exactly the vertices some walk from the start ends at.
   */
  method ReachableVertices<V(!new)>(g: Graph<V>, start: V) returns (result: seq<V>, ghost parent: seq<nat>)
    requires WellFormed(g)
    ensures result != [] && result[0] == start && NoDuplicates(result)
    ensures DiscoveredInOrder(g, result, parent) && BreadthFirst(g, result, parent)
    ensures forall v :: v in result ==> Reachable(g, start, v)
    ensures forall p :: IsWalk(g, start, p) ==> End(start, p) in result
  {
    result := [];
    var queue := [start];
    var visited := {start};
    ghost var order := [start];
    parent := [0];
    ghost var walkTo: map<V, seq<Edge<V>>> := map[start := []];
    StartDiscovery(g, start);
    while queue != []
      invariant Visiting(g, start, result, queue, order, parent, visited, walkTo)
      decreases |Vertices(g, start) - visited|, |queue|
    {
      result, queue, visited, order, parent, walkTo :=
        VisitNext(g, start, result, queue, visited, order, parent, walkTo);
    }
    assert result == order;
    forall v | v in result
      ensures Reachable(g, start, v)
    {
      assert IsWalk(g, start, walkTo[v]) && End(start, walkTo[v]) == v;
    }
    forall v | v in visited
      ensures Targets(g, v) <= visited
    {
      var k :| 0 <= k < |result| && result[k] == v;
    }
    forall p | IsWalk(g, start, p)
      ensures End(start, p) in result
    {
      ClosedHoldsWalks(g, start, visited, p);
    }
  }

  // ---------------------------------------------------------------- the rounds

  /** Distances only go down: every vertex reached in `d0` is reached in `dist`, no farther. */
  ghost predicate Below<V>(dist: map<V, nat>, d0: map<V, nat>)
  {
    forall v :: v in d0 ==> v in dist && dist[v] <= d0[v]
  }

  /** Every walk from the start with at most `n` edges ends at a reached vertex no farther than the walk. */
  ghost predicate BoundedUpTo<V(!new)>(g: Graph<V>, start: V, dist: map<V, nat>, n: nat)
  {
    forall p :: IsWalk(g, start, p) && |p| <= n ==> End(start, p) in dist && dist[End(start, p)] <= Weight(p)
  }

  /** Every edge out of a vertex of `us` reached in `d0` has been relaxed against `d0`. */
  ghost predicate RelaxedAgainst<V>(g: Graph<V>, dist: map<V, nat>, d0: map<V, nat>, us: set<V>)
  {
    forall u, e :: u in us && u in d0 && e in Neighbors(g, u) ==> e.to in dist && dist[e.to] <= d0[u] + e.weight
  }

  lemma StartBounded<V(!new)>(g: Graph<V>, start: V, dist: map<V, nat>)
    requires start in dist && dist[start] == 0
    ensures BoundedUpTo(g, start, dist, 0)
  {
  }

  /**
   * One round extends the bound by one edge: a walk of `n + 1` edges is a walk of `n`
   * edges, bounded at the round's start, and a last edge that the round relaxed.
   */
  lemma RoundExtendsBound<V(!new)>(g: Graph<V>, start: V, vertices: seq<V>, d0: map<V, nat>, dist: map<V, nat>, n: nat)
    requires forall p :: IsWalk(g, start, p) ==> End(start, p) in vertices
    requires BoundedUpTo(g, start, d0, n) && Below(dist, d0)
    requires RelaxedAgainst(g, dist, d0, Members(vertices))
    ensures BoundedUpTo(g, start, dist, n + 1)
  {
    forall p | IsWalk(g, start, p) && |p| <= n + 1
      ensures End(start, p) in dist && dist[End(start, p)] <= Weight(p)
    {
      if |p| == n + 1 {
        LastEdgeBound(g, start, vertices, d0, dist, n, p);
      } else {
        assert End(start, p) in d0 && d0[End(start, p)] <= Weight(p);
      }
    }
  }

  /** A walk of `n + 1` edges: its first `n` are bounded by `d0`, its last edge was relaxed against `d0`. */
  lemma LastEdgeBound<V(!new)>(g: Graph<V>, start: V, vertices: seq<V>, d0: map<V, nat>, dist: map<V, nat>, n: nat,
                               p: seq<Edge<V>>)
    requires forall p :: IsWalk(g, start, p) ==> End(start, p) in vertices
    requires BoundedUpTo(g, start, d0, n)
    requires RelaxedAgainst(g, dist, d0, Members(vertices))
    requires IsWalk(g, start, p) && |p| == n + 1
    ensures End(start, p) in dist && dist[End(start, p)] <= Weight(p)
  {
    var q, e := p[..n], p[n];
    WalkPrefix(g, start, p, n);
    assert p == q + [e];
    assert e in Neighbors(g, e.from);
    WalkSnoc(g, start, q, e);
    var u := End(start, q);
    assert u in vertices && u in d0 && d0[u] <= Weight(q);
    assert e.to in dist && dist[e.to] <= d0[u] + e.weight;
  }

  /** Below is transitive, and edges relaxed stay relaxed while distances go down. */
  lemma BelowKeepsRelaxedAgainst<V>(g: Graph<V>, d2: map<V, nat>, d1: map<V, nat>, d0: map<V, nat>, us: set<V>)
    requires RelaxedAgainst(g, d1, d0, us) && Below(d2, d1)
    ensures RelaxedAgainst(g, d2, d0, us)
  {
  }

  /** Every edge of `done` ends at a reached vertex no farther than `base` plus its weight. */
  ghost predicate EdgesRelaxed<V>(dist: map<V, nat>, done: seq<Edge<V>>, base: nat)
  {
    forall e :: e in done ==> e.to in dist && dist[e.to] <= base + e.weight
  }

  /** Lowering one distance keeps `Below` and keeps relaxed the edges already relaxed. */
  lemma LoweringKeepsRound<V>(dist: map<V, nat>, dist0: map<V, nat>, done: seq<Edge<V>>, base: nat, v: V, d: nat)
    requires Below(dist, dist0) && EdgesRelaxed(dist, done, base)
    requires v !in dist || d < dist[v]
    ensures Below(dist[v := d], dist0) && EdgesRelaxed(dist[v := d], done, base)
  {
  }

  /**
   * The inner loop over `graph.neighbors(from)`: relax each edge. The labelling is kept,
   * no distance goes up, `from`'s does not move, and every edge out of `from` ends relaxed.
   */
  method RelaxNeighbors<V>(g: Graph<V>, start: V, from: V,
                           dist0: map<V, nat>, edgeTo0: map<V, Option<Edge<V>>>,
                           ghost stamp0: map<V, nat>, ghost clock0: nat)
    returns (dist: map<V, nat>, edgeTo: map<V, Option<Edge<V>>>, ghost stamp: map<V, nat>, ghost clock: nat)
    requires WellFormed(g) && Labelled(g, start, dist0, edgeTo0, stamp0) && (forall v :: v in stamp0 ==> stamp0[v] < clock0)
    requires from in dist0
    ensures Labelled(g, start, dist, edgeTo, stamp) && (forall v :: v in stamp ==> stamp[v] < clock)
    ensures Below(dist, dist0) && from in dist && dist[from] == dist0[from]
    ensures forall e :: e in Neighbors(g, from) ==> e.to in dist && dist[e.to] <= dist0[from] + e.weight
  {
    dist, edgeTo, stamp, clock := dist0, edgeTo0, stamp0, clock0;
    var es := Neighbors(g, from);
    assert es[..0] == [];
    for k := 0 to |es|
      invariant Labelled(g, start, dist, edgeTo, stamp) && (forall v :: v in stamp ==> stamp[v] < clock)
      invariant Below(dist, dist0) && from in dist && dist[from] == dist0[from]
      invariant EdgesRelaxed(dist, es[..k], dist0[from])
    {
      NextIndex(es, k);
      var e := es[k];
      var to := e.to;
      var newDist := dist[from] + e.weight;
      if to !in dist || newDist < dist[to] {
        assert e.from == from && to != from by {
          NeighborsLeave(g, from, e);
        }
        RelaxKeepsLabelled(g, start, dist, edgeTo, stamp, clock, e);
        LoweringKeepsRound(dist, dist0, es[..k], dist0[from], to, newDist);
        edgeTo := edgeTo[to := Some(e)];
        dist := dist[to := newDist];
        stamp := stamp[to := clock];
        clock := clock + 1;
      }
    }
    assert es[..|es|] == es;
  }

  /** Relaxing the edges of the `j`-th listed vertex extends what the round has relaxed by that vertex. */
  lemma RoundStep<V>(g: Graph<V>, vertices: seq<V>, j: nat, d0: map<V, nat>, before: map<V, nat>, dist: map<V, nat>)
    requires j < |vertices|
    requires Below(before, d0) && RelaxedAgainst(g, before, d0, Members(vertices[..j]))
    requires forall i :: 0 <= i < j ==> Targets(g, vertices[i]) <= before.Keys
    requires Below(dist, before) && vertices[j] in before
    requires forall e :: e in Neighbors(g, vertices[j]) ==> e.to in dist && dist[e.to] <= before[vertices[j]] + e.weight
    ensures Below(dist, d0) && RelaxedAgainst(g, dist, d0, Members(vertices[..j + 1]))
    ensures forall i :: 0 <= i <= j ==> Targets(g, vertices[i]) <= dist.Keys
  {
    BelowKeepsRelaxedAgainst(g, dist, before, d0, Members(vertices[..j]));
    assert vertices[..j + 1] == vertices[..j] + [vertices[j]];
    MembersSnoc(vertices[..j], vertices[j]);
  }

  /**
   * One round: relax every edge out of every listed vertex, in list order. Because each
   * vertex is listed after one it is a target of, it is reached by the time it comes up,
   * even in the first round. Afterwards every edge out of the list is relaxed against the
   * distances the round started from.
   */
  method Round<V>(g: Graph<V>, start: V, vertices: seq<V>, ghost parent: seq<nat>,
                  dist0: map<V, nat>, edgeTo0: map<V, Option<Edge<V>>>,
                  ghost stamp0: map<V, nat>, ghost clock0: nat)
    returns (dist: map<V, nat>, edgeTo: map<V, Option<Edge<V>>>, ghost stamp: map<V, nat>, ghost clock: nat)
    requires WellFormed(g) && Labelled(g, start, dist0, edgeTo0, stamp0) && (forall v :: v in stamp0 ==> stamp0[v] < clock0)
    requires vertices != [] && vertices[0] == start && DiscoveredInOrder(g, vertices, parent)
    ensures Labelled(g, start, dist, edgeTo, stamp) && (forall v :: v in stamp ==> stamp[v] < clock)
    ensures Below(dist, dist0)
    ensures RelaxedAgainst(g, dist, dist0, Members(vertices))
  {
    dist, edgeTo, stamp, clock := dist0, edgeTo0, stamp0, clock0;
    for j := 0 to |vertices|
      invariant Labelled(g, start, dist, edgeTo, stamp) && (forall v :: v in stamp ==> stamp[v] < clock)
      invariant Below(dist, dist0)
      invariant RelaxedAgainst(g, dist, dist0, Members(vertices[..j]))
      invariant forall i :: 0 <= i < j ==> Targets(g, vertices[i]) <= dist.Keys
    {
      var from := vertices[j];
      assert from in dist by {
        if j > 0 {
          assert parent[j] < j && from in Targets(g, vertices[parent[j]]);
        }
      }
      ghost var before := dist;
      dist, edgeTo, stamp, clock := RelaxNeighbors(g, start, from, dist, edgeTo, stamp, clock);
      RoundStep(g, vertices, j, dist0, before, dist);
    }
    assert vertices[..|vertices|] == vertices;
  }

  // ---------------------------------------------------------------- after |V| - 1 rounds

  /** A sequence longer than the set its elements come from repeats one. */
  lemma Pigeonhole<T>(s: seq<T>, bound: set<T>) returns (i: nat, j: nat)
    requires forall k :: 0 <= k < |s| ==> s[k] in bound
    requires |s| > |bound|
    ensures i < j < |s| && s[i] == s[j]
  {
    if NoDuplicates(s) {
      MembersOfDistinct(s);
      SubsetCardinality(Members(s), bound);
      assert false;
    }
    i, j :| 0 <= i < j < |s| && s[i] == s[j];
  }

  /**
   * A walk with at least as many edges as there are vertices it can meet passes some vertex
   * twice: after its first `i` edges and after its first `j`.
   */
  lemma RepeatedVisit<V(!new)>(g: Graph<V>, start: V, vertices: seq<V>, p: seq<Edge<V>>) returns (i: nat, j: nat)
    requires NoDuplicates(vertices) && forall p' :: IsWalk(g, start, p') ==> End(start, p') in vertices
    requires IsWalk(g, start, p) && |p| >= |vertices|
    ensures i < j <= |p| && End(start, p[..i]) == End(start, p[..j])
  {
    var visits := seq(|p| + 1, (k: int) requires 0 <= k <= |p| => End(start, p[..k]));
    forall k | 0 <= k < |visits|
      ensures visits[k] in Members(vertices)
    {
      WalkPrefix(g, start, p, k);
    }
    MembersOfDistinct(vertices);
    i, j := Pigeonhole(visits, Members(vertices));
  }

  /** Cutting out the part of a walk between two passes through one vertex leaves a walk no heavier. */
  lemma CutCycle<V>(g: Graph<V>, start: V, p: seq<Edge<V>>, i: nat, j: nat) returns (q: seq<Edge<V>>)
    requires IsWalk(g, start, p) && i < j <= |p| && End(start, p[..i]) == End(start, p[..j])
    ensures IsWalk(g, start, q) && End(start, q) == End(start, p) && Weight(q) <= Weight(p) && |q| < |p|
  {
    WalkPrefix(g, start, p, i);
    WalkSuffix(g, start, p, j);
    q := p[..i] + p[j..];
    WalkAppend(g, start, p[..i], p[j..]);
    assert p[..j] == p[..i] + p[i..j];
    assert p == p[..j] + p[j..];
    WeightAppend(p[..i], p[j..]);
    WeightAppend(p[..i], p[i..j]);
    WeightAppend(p[..j], p[j..]);
  }

  /** Bounded up to `|vertices| - 1` edges means bounded for every walk. */
  lemma {:induction false} AllWalksBounded<V(!new)>(g: Graph<V>, start: V, vertices: seq<V>, dist: map<V, nat>, p: seq<Edge<V>>)
    requires NoDuplicates(vertices) && vertices != [] && forall p' :: IsWalk(g, start, p') ==> End(start, p') in vertices
    requires BoundedUpTo(g, start, dist, |vertices| - 1)
    requires IsWalk(g, start, p)
    ensures End(start, p) in dist && dist[End(start, p)] <= Weight(p)
    decreases |p|
  {
    if |p| >= |vertices| {
      var i, j := RepeatedVisit(g, start, vertices, p);
      var q := CutCycle(g, start, p, i, j);
      AllWalksBounded(g, start, vertices, dist, q);
    }
  }

  /** With every walk bounded, no edge out of a reached vertex can be relaxed. */
  lemma BoundedIsRelaxed<V(!new)>(g: Graph<V>, start: V, vertices: seq<V>, dist: map<V, nat>,
                            edgeTo: map<V, Option<Edge<V>>>, stamp: map<V, nat>)
    requires WellFormed(g) && Labelled(g, start, dist, edgeTo, stamp)
    requires NoDuplicates(vertices) && vertices != [] && forall p' :: IsWalk(g, start, p') ==> End(start, p') in vertices
    requires BoundedUpTo(g, start, dist, |vertices| - 1)
    ensures Relaxed(g, dist)
  {
    forall u, e | u in dist && e in Neighbors(g, u)
      ensures e.to in dist && dist[e.to] <= dist[u] + e.weight
    {
      var q := LabelledWalk(g, start, dist, edgeTo, stamp, u);
      NeighborsLeave(g, u, e);
      WalkSnoc(g, start, q, e);
      AllWalksBounded(g, start, vertices, dist, q + [e]);
    }
  }

  /** One more round bounds every walk one edge longer. */
  method BoundedRound<V(!new)>(g: Graph<V>, start: V, vertices: seq<V>, ghost parent: seq<nat>, ghost n: nat,
                               dist0: map<V, nat>, edgeTo0: map<V, Option<Edge<V>>>,
                               ghost stamp0: map<V, nat>, ghost clock0: nat)
    returns (dist: map<V, nat>, edgeTo: map<V, Option<Edge<V>>>, ghost stamp: map<V, nat>, ghost clock: nat)
    requires WellFormed(g) && Labelled(g, start, dist0, edgeTo0, stamp0) && (forall v :: v in stamp0 ==> stamp0[v] < clock0)
    requires vertices != [] && vertices[0] == start && DiscoveredInOrder(g, vertices, parent)
    requires forall p :: IsWalk(g, start, p) ==> End(start, p) in vertices
    requires BoundedUpTo(g, start, dist0, n)
    ensures Labelled(g, start, dist, edgeTo, stamp) && (forall v :: v in stamp ==> stamp[v] < clock)
    ensures BoundedUpTo(g, start, dist, n + 1)
  {
    dist, edgeTo, stamp, clock := Round(g, start, vertices, parent, dist0, edgeTo0, stamp0, clock0);
    RoundExtendsBound(g, start, vertices, dist0, dist, n);
  }

  /**
   * The constructor: start at distance 0, list the vertices, run `|vertices| - 1` rounds.
   * After round `i` every walk of at most `i` edges is bounded; after the last, every walk
   * is, so no edge can be relaxed.
   */
  method Solve<V(!new)>(g: Graph<V>, start: V)
    returns (dist: map<V, nat>, edgeTo: map<V, Option<Edge<V>>>, ghost stamp: map<V, nat>)
    requires WellFormed(g)
    ensures Labelled(g, start, dist, edgeTo, stamp)
    ensures Relaxed(g, dist)
  {
    edgeTo := map[start := None];
    dist := map[start := 0];
    stamp := map[start := 0];
    ghost var clock := 1;
    StartLabelled(g, start);
    StartBounded(g, start, dist);
    var vertices;
    ghost var parent;
    vertices, parent := ReachableVertices(g, start);
    for i := 1 to |vertices|
      invariant Labelled(g, start, dist, edgeTo, stamp) && (forall v :: v in stamp ==> stamp[v] < clock)
      invariant BoundedUpTo(g, start, dist, i - 1)
    {
      dist, edgeTo, stamp, clock := BoundedRound(g, start, vertices, parent, i - 1, dist, edgeTo, stamp, clock);
    }
    BoundedIsRelaxed(g, start, vertices, dist, edgeTo, stamp);
  }

  class BellmanFordSolver<V(==,!new)> {
    const graph: Graph<V>
    const start: V
    const edgeTo: map<V, Option<Edge<V>>>
    const distTo: map<V, nat>
    ghost const stamp: map<V, nat>

    ghost predicate Valid()
    {
      Labelled(graph, start, distTo, edgeTo, stamp) && Relaxed(graph, distTo)
    }

    constructor (g: Graph<V>, start: V)
      requires WellFormed(g)
      ensures graph == g && this.start == start && Valid()
    {
      graph := g;
      this.start := start;
      var dist, edges, stamp := Solve(g, start);
      distTo, edgeTo, this.stamp := dist, edges, stamp;
    }

    /**
     * `solution(goal)`: the `edgeTo` path back from the goal, reversed; a shortest walk from
     * the start when the goal was reached, just the goal otherwise.
     */
    method Solution(goal: V) returns (path: seq<V>)
      requires Valid()
      ensures path != [] && path[|path| - 1] == goal && FollowsEdgeTo(edgeTo, path)
      ensures goal !in distTo <==> path == [goal] && forall q :: IsWalk(graph, start, q) ==> End(start, q) != goal
      ensures goal in distTo ==>
        && path[0] == start
        && IsWalk(graph, start, PathEdges(edgeTo, path)) && End(start, PathEdges(edgeTo, path)) == goal
        && Weight(PathEdges(edgeTo, path)) == distTo[goal]
        && forall q :: IsWalk(graph, start, q) && End(start, q) == goal ==> distTo[goal] <= Weight(q)
    {
      path := WalkBack(graph, start, distTo, edgeTo, stamp, goal);
      SolutionIsShortest(graph, start, distTo, edgeTo, stamp, goal, path);
    }
  }
}
