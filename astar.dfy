/** AStarSolver: A* search from start to end over a graph given by its neighbour lists and a
    heuristic, with distTo/edgeTo maps, a priority queue, the walk back along edgeTo that
    rebuilds the path, and the classification of the outcome. */
module AStar {
  import opened Wrappers
  import opened MapPQ

  /** WeightedEdge: from, to and a weight. */
  datatype Edge<V> = Edge(from: V, to: V, weight: real)

  datatype SolverOutcome = SOLVED | TIMEOUT | UNSOLVABLE

  /** What the walk back along edgeTo ends with: the path, a vertex without predecessor (the
      NullPointerException the solver catches), or a walk longer than its fuel. */
  datatype Walk<V> = Found(path: seq<V>) | Broken | Unfinished

  /** AStarGraph.neighbors lists the edges leaving a vertex, each with a non-negative weight. */
  ghost predicate GraphOk<V(!new)>(neighbors: V -> seq<Edge<V>>) {
    forall v, i :: 0 <= i < |neighbors(v)| ==> neighbors(v)[i].from == v && neighbors(v)[i].weight >= 0.0
  }

  /** Each vertex of path after the first has the one before it as its edgeTo entry. */
  ghost predicate LinksBack<V>(edgeTo: map<V, V>, path: seq<V>) {
    forall i :: 1 <= i < |path| ==> path[i] in edgeTo && edgeTo[path[i]] == path[i - 1]
  }

  /** Read from its first vertex on, chain follows edgeTo one step at a time. */
  ghost predicate ChainsForward<V>(edgeTo: map<V, V>, chain: seq<V>) {
    forall i :: 0 <= i < |chain| - 1 ==> chain[i] in edgeTo && edgeTo[chain[i]] == chain[i + 1]
  }

  /** The walk back from v takes fuel steps without meeting s. */
  ghost predicate WalkRunsOut<V(!new)>(edgeTo: map<V, V>, s: V, v: V, fuel: nat) {
    exists chain :: |chain| == fuel + 1 && chain[0] == v && ChainsForward(edgeTo, chain) && s !in chain[..fuel]
  }

  /** Some path of graph edges leads from s to t. */
  ghost predicate Reachable<V(!new)>(neighbors: V -> seq<Edge<V>>, s: V, t: V) {
    exists path, edges :: |path| > 0 && path[0] == s && path[|path| - 1] == t && EdgesAlong(neighbors, path, edges)
  }

  function Reverse<V>(s: seq<V>): (r: seq<V>)
    ensures |r| == |s|
    ensures forall i :: 0 <= i < |s| ==> r[i] == s[|s| - 1 - i]
  {
    if s == [] then [] else Reverse(s[1..]) + [s[0]]
  }

  /** getSolutionFromEdgeTo: walk back from v along edgeTo until s, then reverse. The walk
      takes at most fuel steps. */
  method SolutionFromEdgeTo<V(==,!new)>(edgeTo: map<V, V>, s: V, v: V, fuel: nat) returns (r: Walk<V>)
    ensures v == s ==> r == Found([s])
    ensures r.Found? ==> |r.path| > 0 && r.path[0] == s && r.path[|r.path| - 1] == v && LinksBack(edgeTo, r.path)
    ensures r.Broken? ==>
      exists chain :: (|chain| > 0 && chain[0] == v && ChainsForward(edgeTo, chain) &&
                       s !in chain && chain[|chain| - 1] !in edgeTo)
    ensures r.Unfinished? ==> WalkRunsOut(edgeTo, s, v, fuel)
  {
    var res: seq<V> := [];
    var p := v;
    while p != s
      invariant |res| <= fuel
      invariant res == [] ==> p == v
      invariant res != [] ==> res[0] == v && res[|res| - 1] in edgeTo && edgeTo[res[|res| - 1]] == p
      invariant ChainsForward(edgeTo, res)
      invariant s !in res
      decreases fuel - |res|
    {
      if |res| == fuel {
        assert ChainsForward(edgeTo, res + [p]);
        assert (res + [p])[..fuel] == res;
        return Unfinished;
      }
      res := res + [p];
      if p !in edgeTo {
        return Broken;
      }
      p := edgeTo[p];
    }
    res := res + [s];
    r := Found(Reverse(res));
  }

  class AStarSolver<V(==,!new)> {
    var outcome: Option<SolverOutcome>
    var solution: seq<V>
    var solutionWeight: real
    var numStatesExplored: nat
    var explorationTime: real
    var distTo: map<V, real>
    var edgeTo: map<V, V>
    var pq: DoubleMapPQ<V>
    /** The graph edge each edgeTo entry was set from. */
    ghost var via: map<V, Edge<V>>
    const start: V
    const neighbors: V -> seq<Edge<V>>
    /** The vertices removeSmallest returned, in order. */
    ghost var removed: seq<V>

    /** The constructor runs the whole search. The heuristic h stands for
        estimatedDistanceToGoal, time for the elapsed seconds the stopwatch reports, and fuel
        bounds both the search loop and the walk back; outcome stays None (its initial null)
        when either runs out. */
    constructor (neighbors: V -> seq<Edge<V>>, h: (V, V) -> real, start: V, end: V,
                 timeout: real, time: real, fuel: nat)
      requires GraphOk(neighbors)
      ensures SearchInv(start, neighbors, distTo, edgeTo, via, pq.priorities)
      ensures Reported(end, time, timeout) && CountedRemovals(removed, numStatesExplored, end)
      ensures start == end && outcome.Some? ==> numStatesExplored == 0 && solution == [start]
      ensures outcome.Some? ==> Stopped(pq.priorities, removed, end)
      ensures outcome.None? ==>
        (|removed| == fuel && |pq.priorities| > 0) || WalkRunsOut(edgeTo, start, end, fuel)
      ensures outcome.Some? ==> (outcome == Some(UNSOLVABLE) <==> end !in distTo)
      ensures outcome.Some? ==> (outcome == Some(UNSOLVABLE) <==> !Reachable(neighbors, start, end))
      ensures outcome.Some? && end in distTo ==> (outcome == Some(SOLVED) <==> time <= timeout)
    {
      this.start := start;
      this.neighbors := neighbors;
      outcome := None;
      solution := [];
      solutionWeight := 0.0;
      numStatesExplored := 0;
      explorationTime := 0.0;
      removed := [];
      pq := new DoubleMapPQ();
      distTo := map[start := 0.0];
      edgeTo := map[];
      via := map[];
      new;
      pq.Add(start, 0.0);
      Run(h, end, timeout, time, fuel);
    }

    /** What the constructor does once start is queued: search, walk back, classify. */
    method Run(h: (V, V) -> real, end: V, timeout: real, time: real, fuel: nat)
      requires SearchInv(start, neighbors, distTo, edgeTo, via, pq.priorities) && GraphOk(neighbors)
      requires removed == [] && numStatesExplored == 0 && pq.priorities == map[start := 0.0]
      requires distTo == map[start := 0.0] && edgeTo == map[]
      requires outcome == None && solution == [] && solutionWeight == 0.0
      modifies this, pq
      ensures SearchInv(start, neighbors, distTo, edgeTo, via, pq.priorities)
      ensures Reported(end, time, timeout)
      ensures CountedRemovals(removed, numStatesExplored, end)
      ensures start == end && outcome.Some? ==> numStatesExplored == 0 && solution == [start]
      ensures outcome.Some? ==> Stopped(pq.priorities, removed, end)
      ensures outcome.None? ==>
        (|removed| == fuel && |pq.priorities| > 0) || WalkRunsOut(edgeTo, start, end, fuel)
      ensures outcome.Some? ==> (outcome == Some(UNSOLVABLE) <==> end !in distTo)
      ensures outcome.Some? ==> (outcome == Some(UNSOLVABLE) <==> !Reachable(neighbors, start, end))
      ensures outcome.Some? && end in distTo ==> (outcome == Some(SOLVED) <==> time <= timeout)
    {
      var finished := Search(h, end, fuel);
      if finished {
        Conclude(end, timeout, time, fuel);
      }
    }

    /** What follows the search loop: walk back from end along edgeTo and classify the
        outcome. */
    method Conclude(end: V, timeout: real, time: real, fuel: nat)
      requires SearchInv(start, neighbors, distTo, edgeTo, via, pq.priorities)
      requires distTo.Keys <= edgeTo.Keys + {start}
      requires AllTracked(distTo, pq.priorities, removed) && AllExpanded(neighbors, distTo, removed, end)
      requires Stopped(pq.priorities, removed, end)
      requires outcome == None && solution == [] && solutionWeight == 0.0
      modifies `outcome, `solution, `solutionWeight, `explorationTime
      ensures Reported(end, time, timeout)
      ensures start == end && outcome.Some? ==> solution == [start]
      ensures outcome.None? ==> WalkRunsOut(edgeTo, start, end, fuel)
      ensures outcome.Some? ==> (outcome == Some(UNSOLVABLE) <==> end !in distTo)
      ensures outcome.Some? ==> (outcome == Some(UNSOLVABLE) <==> !Reachable(neighbors, start, end))
      ensures outcome.Some? && end in distTo ==> (outcome == Some(SOLVED) <==> time <= timeout)
    {
      var walk := SolutionFromEdgeTo(edgeTo, start, end, fuel);
      if walk.Unfinished? {
        return;
      }
      WalkVerdict(start, neighbors, distTo, edgeTo, via, pq.priorities, removed, end, walk);
      Classify(walk, end, time, timeout);
    }

    /** What the outcome reports: no path when UNSOLVABLE; a path from start to end along
        edgeTo when SOLVED or TIMEOUT; within the timeout, the time and distTo[end] as the
        weight when SOLVED; beyond it when TIMEOUT; weight 0 unless SOLVED. */
    ghost predicate Reported(end: V, time: real, timeout: real)
      reads `outcome, `solution, `solutionWeight, `explorationTime, `edgeTo, `distTo
    {
      (outcome == Some(UNSOLVABLE) ==> solution == []) &&
      (outcome == Some(SOLVED) || outcome == Some(TIMEOUT) ==>
        |solution| > 0 && solution[0] == start && solution[|solution| - 1] == end && LinksBack(edgeTo, solution)) &&
      (outcome == Some(SOLVED) ==>
        time <= timeout && explorationTime == time && end in distTo && solutionWeight == distTo[end]) &&
      (outcome == Some(TIMEOUT) ==> time > timeout && explorationTime == time) &&
      (outcome != Some(SOLVED) ==> solutionWeight == 0.0)
    }

    /** solutionWeight(): the stored weight once SOLVED and 0 for any other outcome; Java
        throws on the null outcome a search cut off by fuel leaves. */
    function SolutionWeight(): (r: real)
      requires outcome.Some?
      reads `outcome, `solutionWeight
      ensures outcome == Some(SOLVED) ==> r == solutionWeight
      ensures outcome != Some(SOLVED) ==> r == 0.0
    {
      if outcome.value == SOLVED then solutionWeight else 0.0
    }

    /** The search loop: remove the least vertex, stop at end, otherwise count it and relax
        every edge leaving it. false when fuel runs out with the queue non-empty. */
    method Search(h: (V, V) -> real, end: V, fuel: nat) returns (finished: bool)
      requires SearchInv(start, neighbors, distTo, edgeTo, via, pq.priorities) && GraphOk(neighbors)
      requires removed == [] && numStatesExplored == 0 && pq.priorities == map[start := 0.0]
      requires distTo == map[start := 0.0] && edgeTo == map[]
      modifies `distTo, `edgeTo, `via, pq, `numStatesExplored, `removed
      ensures SearchInv(start, neighbors, distTo, edgeTo, via, pq.priorities)
      ensures distTo.Keys <= edgeTo.Keys + {start}
      ensures CountedRemovals(removed, numStatesExplored, end)
      ensures AllTracked(distTo, pq.priorities, removed) && AllExpanded(neighbors, distTo, removed, end)
      ensures finished ==> Stopped(pq.priorities, removed, end)
      ensures !finished ==> |removed| == fuel && |pq.priorities| > 0
      ensures finished && start == end ==> numStatesExplored == 0
    {
      var steps := 0;
      while pq.Size() != 0
        invariant SearchInv(start, neighbors, distTo, edgeTo, via, pq.priorities)
        invariant distTo.Keys <= edgeTo.Keys + {start}
        invariant AllTracked(distTo, pq.priorities, removed) && AllExpanded(neighbors, distTo, removed, end)
        invariant steps == |removed| <= fuel
        invariant numStatesExplored == |removed| && end !in removed
        invariant start == end ==> removed == [] && forall v :: v in pq.priorities ==> v == start
        decreases fuel - |removed|
      {
        if steps == fuel {
          return false;
        }
        steps := steps + 1;
        var current := VisitNext(h, end);
        if current == end {
          return true;
        }
      }
      return true;
    }

    /** One round of the search loop: removeSmallest, then, unless it returned end, count
        the vertex and relax every edge leaving it. */
    method VisitNext(h: (V, V) -> real, end: V) returns (current: V)
      requires SearchInv(start, neighbors, distTo, edgeTo, via, pq.priorities)
      requires distTo.Keys <= edgeTo.Keys + {start}
      requires AllTracked(distTo, pq.priorities, removed) && AllExpanded(neighbors, distTo, removed, end)
      requires GraphOk(neighbors)
      requires |pq.priorities| > 0 && numStatesExplored == |removed| && end !in removed
      requires start == end ==> forall v :: v in pq.priorities ==> v == start
      modifies `distTo, `edgeTo, `via, pq, `numStatesExplored, `removed
      ensures SearchInv(start, neighbors, distTo, edgeTo, via, pq.priorities)
      ensures distTo.Keys <= edgeTo.Keys + {start}
      ensures AllTracked(distTo, pq.priorities, removed) && AllExpanded(neighbors, distTo, removed, end)
      ensures removed == old(removed) + [current] && current in old(pq.priorities)
      ensures forall u :: u in old(pq.priorities) ==> old(pq.priorities)[current] <= old(pq.priorities)[u]
      ensures current == end ==>
        numStatesExplored == old(numStatesExplored) && pq.priorities == old(pq.priorities) - {end}
      ensures current != end ==> numStatesExplored == |removed|
      ensures start == end ==> current == end
    {
      ghost var q0 := pq.priorities;
      current := pq.RemoveSmallest();
      Dequeued(neighbors, distTo, q0, pq.priorities, removed, current, end);
      if current == end {
        removed := removed + [current];
        return;
      }
      Expand(current, h, end);
    }

    /** The rest of a round for a vertex other than end: count it and relax every edge
        leaving it. */
    method Expand(current: V, h: (V, V) -> real, end: V)
      requires SearchInv(start, neighbors, distTo, edgeTo, via, pq.priorities)
      requires distTo.Keys <= edgeTo.Keys + {start}
      requires GraphOk(neighbors) && current != end
      requires AllTracked(distTo, pq.priorities, removed + [current])
      requires AllExpanded(neighbors, distTo, removed, end)
      requires numStatesExplored == |removed|
      modifies `distTo, `edgeTo, `via, pq, `numStatesExplored, `removed
      ensures SearchInv(start, neighbors, distTo, edgeTo, via, pq.priorities)
      ensures distTo.Keys <= edgeTo.Keys + {start}
      ensures AllTracked(distTo, pq.priorities, removed) && AllExpanded(neighbors, distTo, removed, end)
      ensures removed == old(removed) + [current] && numStatesExplored == |removed|
    {
      numStatesExplored := numStatesExplored + 1;
      ghost var d0, e0, q0, r0 := distTo, edgeTo, pq.priorities, removed;
      removed := r0 + [current];
      RelaxAll(current, h, end);
      SearchStep(neighbors, d0, e0, q0, distTo, edgeTo, pq.priorities, r0, current, h, end);
    }

    /** The loop over input.neighbors(current): relax each edge with the heuristic value of
        its target. */
    method RelaxAll(current: V, h: (V, V) -> real, end: V)
      requires SearchInv(start, neighbors, distTo, edgeTo, via, pq.priorities)
      requires distTo.Keys <= edgeTo.Keys + {start}
      requires GraphOk(neighbors) && current in distTo
      modifies `distTo, `edgeTo, `via, pq
      ensures SearchInv(start, neighbors, distTo, edgeTo, via, pq.priorities)
      ensures distTo.Keys <= edgeTo.Keys + {start}
      ensures WithinReach(distTo, neighbors(current), old(distTo[current]))
      ensures RelaxedFrom(old(distTo), old(edgeTo), old(pq.priorities), distTo, edgeTo, pq.priorities,
                          current, h, end)
    {
      var outcomingsFromCurrent := neighbors(current);
      ghost var d0, e0, q0 := distTo, edgeTo, pq.priorities;
      for i := 0 to |outcomingsFromCurrent|
        invariant SearchInv(start, neighbors, distTo, edgeTo, via, pq.priorities)
        invariant distTo.Keys <= edgeTo.Keys + {start}
        invariant current in distTo && distTo[current] == d0[current]
        invariant WithinReach(distTo, outcomingsFromCurrent[..i], d0[current])
        invariant RelaxedFrom(d0, e0, q0, distTo, edgeTo, pq.priorities, current, h, end)
      {
        var edge := outcomingsFromCurrent[i];
        var estimatedDist := h(edge.to, end);
        assert edge.from == current && edge in neighbors(edge.from) && edge.weight >= 0.0;
        ghost var d1, e1, q1 := distTo, edgeTo, pq.priorities;
        Relax(edge, estimatedDist);
        RelaxStep(start, d0, e0, q0, d1, e1, q1, distTo, edgeTo, pq.priorities, current, h, end,
                  outcomingsFromCurrent, i);
      }
      assert outcomingsFromCurrent[..|outcomingsFromCurrent|] == neighbors(current);
    }

    /** The outcome once the walk back has ended: UNSOLVABLE on a missing predecessor (or an
        empty path), otherwise SOLVED within the timeout and TIMEOUT beyond it. */
    method Classify(walk: Walk<V>, end: V, time: real, timeout: real)
      requires SearchInv(start, neighbors, distTo, edgeTo, via, pq.priorities) && !walk.Unfinished?
      requires outcome == None && solution == [] && solutionWeight == 0.0
      requires walk.Found? && |walk.path| > 0 ==>
        walk.path[0] == start && walk.path[|walk.path| - 1] == end && LinksBack(edgeTo, walk.path)
      modifies `outcome, `solution, `solutionWeight, `explorationTime
      ensures Reported(end, time, timeout)
      ensures outcome.Some?
      ensures outcome == Some(UNSOLVABLE) <==> walk.Broken? || walk.path == []
      ensures walk.Found? ==> solution == walk.path
      ensures outcome == Some(SOLVED) <==> walk.Found? && walk.path != [] && time <= timeout
    {
      if walk.Broken? {
        outcome := Some(UNSOLVABLE);
        return;
      }
      solution := walk.path;
      if |solution| == 0 {
        outcome := Some(UNSOLVABLE);
      } else if time <= timeout {
        outcome := Some(SOLVED);
        explorationTime := time;
        EndHasDistance(solution, end);
        solutionWeight := distTo[end];
      } else {
        outcome := Some(TIMEOUT);
        explorationTime := time;
      }
    }

    /** The last vertex of a path from start along edgeTo has a distance. */
    lemma EndHasDistance(path: seq<V>, end: V)
      requires SearchInv(start, neighbors, distTo, edgeTo, via, pq.priorities)
      requires |path| > 0 && path[0] == start && path[|path| - 1] == end && LinksBack(edgeTo, path)
      ensures end in distTo
    {
      if |path| > 1 {
        var i := |path| - 1;
        assert path[i] in edgeTo;
        assert end in via;
        assert Linked(neighbors, distTo, edgeTo, via, end);
      }
    }

    /** A solved search reports a path of graph edges from start to end whose total weight
        is at most solutionWeight. */
    lemma SolvedPathWeight(end: V, time: real, timeout: real)
      requires SearchInv(start, neighbors, distTo, edgeTo, via, pq.priorities)
      requires Reported(end, time, timeout) && outcome == Some(SOLVED)
      ensures forall i :: 1 <= i < |solution| ==> solution[i] in via
      ensures EdgesAlong(neighbors, solution, EdgesOf(via, solution))
      ensures TotalWeight(EdgesOf(via, solution)) <= solutionWeight
    {
      LinkedPathWeight(start, neighbors, distTo, edgeTo, via, pq.priorities, solution);
    }

    /** relax: an unset distTo entry counts as +infinity (the source stores
        Double.POSITIVE_INFINITY there first); q's distance, predecessor and queue priority
        change exactly when the path through the edge is strictly shorter. */
    method Relax(e: Edge<V>, estimatedDistance: real)
      requires SearchInv(start, neighbors, distTo, edgeTo, via, pq.priorities) && GraphOk(neighbors)
      requires e in neighbors(e.from) && e.from in distTo
      modifies `distTo, `edgeTo, `via, pq
      ensures SearchInv(start, neighbors, distTo, edgeTo, via, pq.priorities)
      ensures Relaxed(old(distTo), old(edgeTo), old(pq.priorities), distTo, edgeTo, pq.priorities, e, estimatedDistance)
    {
      var p, q, w := e.from, e.to, e.weight;
      if q !in distTo || distTo[p] + w < distTo[q] {
        RelaxKeepsInv(start, neighbors, distTo, edgeTo, via, pq.priorities, e, estimatedDistance);
        var newDist := distTo[p] + w;
        // the queue update reads only the new distance, so it is done first here
        if pq.Contains(q) {
          pq.ChangePriority(q, newDist + estimatedDistance);
        } else {
          pq.Add(q, newDist + estimatedDistance);
        }
        distTo := distTo[q := newDist];
        edgeTo := edgeTo[q := p];
        via := via[q := e];
      }
    }
  }

  /** edgeTo[q] was set with the edge via[q] from edgeTo[q] to q, and distTo[q] is still at
      least distTo[edgeTo[q]] plus that edge's weight. */
  ghost predicate Linked<V>(neighbors: V -> seq<Edge<V>>, distTo: map<V, real>, edgeTo: map<V, V>,
                            via: map<V, Edge<V>>, q: V)
    requires q in edgeTo && q in via
  {
    q in distTo && edgeTo[q] in distTo &&
    via[q] in neighbors(edgeTo[q]) && via[q].from == edgeTo[q] && via[q].to == q &&
    distTo[edgeTo[q]] + via[q].weight <= distTo[q]
  }

  /** The search loop has stopped on its own: the queue ran empty, or end was the last
      vertex removed. */
  ghost predicate Stopped<V>(queued: map<V, real>, removed: seq<V>, end: V) {
    |queued| == 0 || (|removed| > 0 && removed[|removed| - 1] == end)
  }

  /** numStatesExplored counts the removed vertices except a final removal of end, and end
      is removed at most once, last. */
  ghost predicate CountedRemovals<V>(removed: seq<V>, numStatesExplored: nat, end: V) {
    (forall i :: 0 <= i < |removed| - 1 ==> removed[i] != end) &&
    numStatesExplored == |removed| - (if |removed| > 0 && removed[|removed| - 1] == end then 1 else 0)
  }

  /** What the search keeps: start at distance 0 and without predecessor, no negative
      distance, every edgeTo entry linked, and everything queued already given a distance. */
  ghost predicate SearchInv<V(!new)>(start: V, neighbors: V -> seq<Edge<V>>, distTo: map<V, real>,
                                     edgeTo: map<V, V>, via: map<V, Edge<V>>, queued: map<V, real>)
  {
    start in distTo && distTo[start] == 0.0 &&
    (forall v :: v in distTo ==> distTo[v] >= 0.0) &&
    start !in edgeTo &&
    edgeTo.Keys == via.Keys &&
    (forall q :: q in edgeTo ==> Linked(neighbors, distTo, edgeTo, via, q)) &&
    (forall v :: v in queued ==> v in distTo)
  }

  /** An improving relaxation keeps the search invariant: the new distance is no smaller than
      distTo[p] plus a non-negative weight, so start keeps 0 and every link stays valid. */
  lemma RelaxKeepsInv<V(!new)>(start: V, neighbors: V -> seq<Edge<V>>, distTo: map<V, real>,
                               edgeTo: map<V, V>, via: map<V, Edge<V>>, queued: map<V, real>,
                               e: Edge<V>, estimate: real)
    requires SearchInv(start, neighbors, distTo, edgeTo, via, queued) && GraphOk(neighbors)
    requires e in neighbors(e.from) && e.from in distTo
    requires e.to !in distTo || distTo[e.from] + e.weight < distTo[e.to]
    ensures SearchInv(start, neighbors, distTo[e.to := distTo[e.from] + e.weight], edgeTo[e.to := e.from],
                      via[e.to := e], queued[e.to := distTo[e.from] + e.weight + estimate])
  {
    var p, q := e.from, e.to;
    var d := distTo[p] + e.weight;
    assert e.weight >= 0.0 by {
      var i :| 0 <= i < |neighbors(p)| && neighbors(p)[i] == e;
    }
    assert q != start;
    assert p != q;
    var distTo', edgeTo', via' := distTo[q := d], edgeTo[q := p], via[q := e];
    forall r | r in edgeTo'
      ensures Linked(neighbors, distTo', edgeTo', via', r)
    {
      if r != q {
        assert Linked(neighbors, distTo, edgeTo, via, r);
      }
    }
  }

  /** v got its first distance, or a smaller one, between d0 and d. */
  ghost predicate Lowered<V>(d0: map<V, real>, d: map<V, real>, v: V) {
    v in d && (v !in d0 || d[v] < d0[v])
  }

  /** relax on the maps d, e and q (distTo, edgeTo and the queue): when q has no distance
      or the path through the edge is strictly shorter, the target gets that distance, the
      edge's source as predecessor and that distance plus the estimate as priority; otherwise
      nothing changes. */
  ghost predicate Relaxed<V>(d: map<V, real>, e: map<V, V>, q: map<V, real>,
                             d': map<V, real>, e': map<V, V>, q': map<V, real>,
                             edge: Edge<V>, estimate: real)
    requires edge.from in d
  {
    if edge.to !in d || d[edge.from] + edge.weight < d[edge.to] then
      d' == d[edge.to := d[edge.from] + edge.weight] && e' == e[edge.to := edge.from] &&
      q' == q[edge.to := d[edge.from] + edge.weight + estimate]
    else
      d' == d && e' == e && q' == q
  }

  /** What relaxing edges out of current has done to the maps d0, e0 and q0 (distTo, edgeTo
      and the queue): no distance grew or vanished; every vertex whose distance dropped (or
      appeared) now has current as predecessor and is queued at its distance plus its
      estimate; every other vertex keeps its predecessor and its place in the queue. */
  ghost predicate RelaxedFrom<V(!new)>(d0: map<V, real>, e0: map<V, V>, q0: map<V, real>,
                                 d: map<V, real>, e: map<V, V>, q: map<V, real>,
                                 current: V, h: (V, V) -> real, end: V)
  {
    (forall v :: v in d0 ==> v in d && d[v] <= d0[v]) &&
    (forall v :: Lowered(d0, d, v) ==> v in e && e[v] == current && v in q && q[v] == d[v] + h(v, end)) &&
    (forall v :: !Lowered(d0, d, v) ==>
      (v in q <==> v in q0) && (v in q ==> q[v] == q0[v]) && (v in e <==> v in e0) && (v in e ==> e[v] == e0[v]))
  }

  /** One more relaxation of an edge out of current, taking d, e, q to d', e', q', keeps
      RelaxedFrom and every vertex other than start with a distance has a predecessor; it
      leaves the edge's target within the edge's weight of current and lowers no distance. */
  lemma RelaxStep<V(!new)>(start: V, d0: map<V, real>, e0: map<V, V>, q0: map<V, real>,
                           d: map<V, real>, e: map<V, V>, q: map<V, real>,
                           d': map<V, real>, e': map<V, V>, q': map<V, real>,
                           current: V, h: (V, V) -> real, end: V, out: seq<Edge<V>>, i: nat)
    requires RelaxedFrom(d0, e0, q0, d, e, q, current, h, end) && d.Keys <= e.Keys + {start}
    requires current in d0 && current in d && d[current] == d0[current] && i < |out| && WithinReach(d, out[..i], d0[current])
    requires out[i].from == current && out[i].weight >= 0.0
    requires Relaxed(d, e, q, d', e', q', out[i], h(out[i].to, end))
    ensures RelaxedFrom(d0, e0, q0, d', e', q', current, h, end) && d'.Keys <= e'.Keys + {start}
    ensures current in d' && d'[current] == d0[current] && WithinReach(d', out[..i + 1], d0[current])
  {
    var edge := out[i];
    if edge.to !in d || d[current] + edge.weight < d[edge.to] {
      LoweredStep(start, d0, e0, q0, d, e, q, d', e', q', current, h, end, edge);
    }
    WithinReachStep(d, d', out, i, d0[current]);
  }

  /** An improving relaxation of an edge leaving current keeps RelaxedFrom and keeps every
      distance with a predecessor. */
  lemma LoweredStep<V(!new)>(start: V, d0: map<V, real>, e0: map<V, V>, q0: map<V, real>,
                             d: map<V, real>, e: map<V, V>, q: map<V, real>,
                             d': map<V, real>, e': map<V, V>, q': map<V, real>,
                             current: V, h: (V, V) -> real, end: V, edge: Edge<V>)
    requires RelaxedFrom(d0, e0, q0, d, e, q, current, h, end) && d.Keys <= e.Keys + {start}
    requires current in d && edge.from == current
    requires edge.to !in d || d[current] + edge.weight < d[edge.to]
    requires Relaxed(d, e, q, d', e', q', edge, h(edge.to, end))
    ensures RelaxedFrom(d0, e0, q0, d', e', q', current, h, end) && d'.Keys <= e'.Keys + {start}
  {
    var nd := d[current] + edge.weight;
    assert d' == d[edge.to := nd] && e' == e[edge.to := current] && q' == q[edge.to := nd + h(edge.to, end)];
  }

  /** Distances that only go down keep every earlier edge within reach; one more edge whose
      target is within reach extends it. */
  lemma WithinReachStep<V>(d: map<V, real>, d': map<V, real>, out: seq<Edge<V>>, i: nat, base: real)
    requires i < |out| && WithinReach(d, out[..i], base)
    requires forall v :: v in d ==> v in d' && d'[v] <= d[v]
    requires out[i].to in d' && d'[out[i].to] <= base + out[i].weight
    ensures WithinReach(d', out[..i + 1], base)
  {
    assert out[..i + 1] == out[..i] + [out[i]];
  }

  /** Every edge listed has a target with a distance within the edge's weight of base. */
  ghost predicate WithinReach<V>(d: map<V, real>, edges: seq<Edge<V>>, base: real) {
    forall k :: 0 <= k < |edges| ==> edges[k].to in d && d[edges[k].to] <= base + edges[k].weight
  }

  /** Every vertex with a distance d is queued in q or was removed, and every removed vertex
      has a distance. */
  ghost predicate AllTracked<V>(d: map<V, real>, q: map<V, real>, removed: seq<V>) {
    (forall v :: v in d ==> v in q || v in removed) &&
    (forall v :: v in removed ==> v in d)
  }

  /** Every edge leaving a removed vertex other than end has a target with a distance. */
  ghost predicate AllExpanded<V(!new)>(neighbors: V -> seq<Edge<V>>, d: map<V, real>, removed: seq<V>, end: V) {
    forall v :: v in removed && v != end ==> forall e :: e in neighbors(v) ==> e.to in d
  }

  /** Moving v from the queue to the removed vertices keeps every vertex with a distance
      tracked; when v is end, whose edges are never relaxed, the removed vertices stay
      expanded too. */
  lemma Dequeued<V(!new)>(neighbors: V -> seq<Edge<V>>, d: map<V, real>, q0: map<V, real>, q: map<V, real>,
                          removed: seq<V>, v: V, end: V)
    requires AllTracked(d, q0, removed) && AllExpanded(neighbors, d, removed, end)
    requires v in q0 && q == q0 - {v} && (forall u :: u in q0 ==> u in d)
    ensures AllTracked(d, q, removed + [v])
    ensures v == end ==> AllExpanded(neighbors, d, removed + [v], end)
  {
  }

  /** Removing current from the queue, relaxing its edges and recording it keeps the vertices
      tracked and expanded. */
  lemma SearchStep<V(!new)>(neighbors: V -> seq<Edge<V>>, d0: map<V, real>, e0: map<V, V>, q0: map<V, real>,
                            d: map<V, real>, e: map<V, V>, q: map<V, real>,
                            removed: seq<V>, current: V, h: (V, V) -> real, end: V)
    requires AllTracked(d0, q0, removed + [current]) && AllExpanded(neighbors, d0, removed, end)
    requires current in d0
    requires RelaxedFrom(d0, e0, q0, d, e, q, current, h, end) && WithinReach(d, neighbors(current), d0[current])
    ensures AllTracked(d, q, removed + [current]) && AllExpanded(neighbors, d, removed + [current], end)
  {
    forall v | v in removed + [current] && v != end
      ensures forall x :: x in neighbors(v) ==> x.to in d
    {
      if v == current {
        forall x | x in neighbors(v)
          ensures x.to in d
        {
          var k :| 0 <= k < |neighbors(v)| && neighbors(v)[k] == x;
        }
      } else {
        assert v in removed;
      }
    }
    forall v | v in d
      ensures v in q || v in removed + [current]
    {
      if !Lowered(d0, d, v) {
        assert v in d0;
      }
    }
  }

  /** Following edgeTo from a vertex with a distance only meets vertices with a distance. */
  lemma {:induction false} ChainHasDistances<V(!new)>(start: V, neighbors: V -> seq<Edge<V>>, distTo: map<V, real>,
                                                     edgeTo: map<V, V>, via: map<V, Edge<V>>,
                                                     queued: map<V, real>, chain: seq<V>)
    requires SearchInv(start, neighbors, distTo, edgeTo, via, queued)
    requires |chain| > 0 && chain[0] in distTo && ChainsForward(edgeTo, chain)
    ensures forall i :: 0 <= i < |chain| ==> chain[i] in distTo
    decreases |chain|
  {
    if |chain| > 1 {
      var n := |chain|;
      assert ChainsForward(edgeTo, chain[..n - 1]);
      ChainHasDistances(start, neighbors, distTo, edgeTo, via, queued, chain[..n - 1]);
      assert chain[n - 2] == chain[..n - 1][n - 2];
      assert chain[n - 2] in edgeTo && edgeTo[chain[n - 2]] == chain[n - 1];
      assert Linked(neighbors, distTo, edgeTo, via, chain[n - 2]);
    }
  }

  /** A walk back from v that stops at a vertex without predecessor, never meeting start,
      means v has no distance: every vertex with a distance other than start has a
      predecessor. */
  lemma BrokenWalkHasNoDistance<V(!new)>(start: V, neighbors: V -> seq<Edge<V>>, distTo: map<V, real>,
                                         edgeTo: map<V, V>, via: map<V, Edge<V>>,
                                         queued: map<V, real>, chain: seq<V>)
    requires SearchInv(start, neighbors, distTo, edgeTo, via, queued)
    requires distTo.Keys <= edgeTo.Keys + {start}
    requires |chain| > 0 && ChainsForward(edgeTo, chain) && start !in chain && chain[|chain| - 1] !in edgeTo
    ensures chain[0] !in distTo
  {
    if chain[0] in distTo {
      ChainHasDistances(start, neighbors, distTo, edgeTo, via, queued, chain);
    }
  }

  /** When every vertex with a distance has had its edges relaxed (end aside), every path from
      start stays among the vertices with a distance, as long as end has none. */
  lemma {:induction false} PathsKeepDistances<V>(neighbors: V -> seq<Edge<V>>, start: V, end: V,
                                                 distTo: map<V, real>, removed: seq<V>,
                                                 path: seq<V>, edges: seq<Edge<V>>)
    requires start in distTo && end !in distTo
    requires forall v :: v in distTo ==> v in removed
    requires forall v :: v in removed && v != end ==> forall e :: e in neighbors(v) ==> e.to in distTo
    requires |path| > 0 && path[0] == start && EdgesAlong(neighbors, path, edges)
    ensures forall i :: 0 <= i < |path| ==> path[i] in distTo
    decreases |path|
  {
    if |path| > 1 {
      var n := |path|;
      assert EdgesAlong(neighbors, path[..n - 1], edges[..n - 2]);
      PathsKeepDistances(neighbors, start, end, distTo, removed, path[..n - 1], edges[..n - 2]);
      assert path[n - 2] == path[..n - 1][n - 2];
      assert edges[n - 2] in neighbors(path[n - 2]) && edges[n - 2].to == path[n - 1];
    }
  }

  /** A search that emptied its queue without giving end a distance leaves end unreachable. */
  lemma EndUnreachable<V(!new)>(neighbors: V -> seq<Edge<V>>, start: V, end: V, distTo: map<V, real>, removed: seq<V>)
    requires start in distTo && end !in distTo
    requires forall v :: v in distTo ==> v in removed
    requires forall v :: v in removed && v != end ==> forall e :: e in neighbors(v) ==> e.to in distTo
    ensures !Reachable(neighbors, start, end)
  {
    if Reachable(neighbors, start, end) {
      var path, edges :| |path| > 0 && path[0] == start && path[|path| - 1] == end && EdgesAlong(neighbors, path, edges);
      PathsKeepDistances(neighbors, start, end, distTo, removed, path, edges);
    }
  }

  /** The edges a path follows, read from via. */
  ghost function EdgesOf<V>(via: map<V, Edge<V>>, path: seq<V>): seq<Edge<V>>
    requires forall i :: 1 <= i < |path| ==> path[i] in via
    decreases |path|
  {
    if |path| <= 1 then [] else EdgesOf(via, path[..|path| - 1]) + [via[path[|path| - 1]]]
  }

  function TotalWeight<V>(edges: seq<Edge<V>>): real
    decreases |edges|
  {
    if edges == [] then 0.0 else TotalWeight(edges[..|edges| - 1]) + edges[|edges| - 1].weight
  }

  /** edges[i] is an edge the graph lists from path[i] to path[i + 1]. */
  ghost predicate EdgesAlong<V>(neighbors: V -> seq<Edge<V>>, path: seq<V>, edges: seq<Edge<V>>) {
    |edges| == |path| - 1 &&
    forall i :: 0 <= i < |edges| ==> edges[i] in neighbors(path[i]) && edges[i].to == path[i + 1]
  }

  /** A path along edgeTo from a vertex with a distance follows graph edges, and the distance
      at its end is at least the distance at its start plus the weights of those edges. */
  lemma {:induction false} LinkedPathWeight<V(!new)>(start: V, neighbors: V -> seq<Edge<V>>, distTo: map<V, real>,
                                                    edgeTo: map<V, V>, via: map<V, Edge<V>>,
                                                    queued: map<V, real>, path: seq<V>)
    requires SearchInv(start, neighbors, distTo, edgeTo, via, queued)
    requires |path| > 0 && path[0] in distTo && LinksBack(edgeTo, path)
    ensures forall i :: 1 <= i < |path| ==> path[i] in via
    ensures path[|path| - 1] in distTo
    ensures EdgesAlong(neighbors, path, EdgesOf(via, path))
    ensures distTo[path[0]] + TotalWeight(EdgesOf(via, path)) <= distTo[path[|path| - 1]]
    decreases |path|
  {
    if |path| > 1 {
      var n := |path|;
      var prefix := path[..n - 1];
      assert LinksBack(edgeTo, prefix);
      LinkedPathWeight(start, neighbors, distTo, edgeTo, via, queued, prefix);
      assert path[n - 1] in edgeTo && edgeTo[path[n - 1]] == path[n - 2];
      assert Linked(neighbors, distTo, edgeTo, via, path[n - 1]);
      var edges := EdgesOf(via, path);
      assert edges == EdgesOf(via, prefix) + [via[path[n - 1]]];
      assert edges[..n - 2] == EdgesOf(via, prefix);
    }
  }

  /** What the walk back from end shows once the search has stopped with an empty queue or
      with end removed: a walk that breaks off at a vertex without predecessor means end has
      no distance and no path of graph edges leads from start to it; a path found along
      edgeTo means end has a distance and is reachable. */
  lemma WalkVerdict<V(!new)>(start: V, neighbors: V -> seq<Edge<V>>, distTo: map<V, real>,
                             edgeTo: map<V, V>, via: map<V, Edge<V>>, queued: map<V, real>,
                             removed: seq<V>, end: V, walk: Walk<V>)
    requires SearchInv(start, neighbors, distTo, edgeTo, via, queued) && distTo.Keys <= edgeTo.Keys + {start}
    requires AllTracked(distTo, queued, removed) && AllExpanded(neighbors, distTo, removed, end)
    requires Stopped(queued, removed, end)
    requires walk.Broken? ==>
      exists chain :: (|chain| > 0 && chain[0] == end && ChainsForward(edgeTo, chain) &&
                       start !in chain && chain[|chain| - 1] !in edgeTo)
    requires walk.Found? ==>
      |walk.path| > 0 && walk.path[0] == start && walk.path[|walk.path| - 1] == end && LinksBack(edgeTo, walk.path)
    ensures walk.Broken? ==> end !in distTo && !Reachable(neighbors, start, end)
    ensures walk.Found? ==> end in distTo && Reachable(neighbors, start, end)
  {
    if walk.Broken? {
      var chain :| |chain| > 0 && chain[0] == end && ChainsForward(edgeTo, chain) &&
                   start !in chain && chain[|chain| - 1] !in edgeTo;
      BrokenWalkHasNoDistance(start, neighbors, distTo, edgeTo, via, queued, chain);
      EndUnreachable(neighbors, start, end, distTo, removed);
    } else if walk.Found? {
      LinkedPathWeight(start, neighbors, distTo, edgeTo, via, queued, walk.path);
      assert EdgesAlong(neighbors, walk.path, EdgesOf(via, walk.path));
    }
  }
}
