/** The uncapped searches of the inheritance graph: depths, ancestors, cycles. */
module Inheritance {
  import opened Walks
  import opened BreadthFirst
  import opened Tables
  import opened Adjacency

  /** The greatest depth dequeued so far bounds every level not waiting in the queue. */
  ghost predicate Deepest(level: map<RoleId, nat>, ids: seq<RoleId>, deepest: RoleId, maxDepth: nat) {
    && deepest in level && level[deepest] == maxDepth
    && forall x :: x in level && x !in ids ==> level[x] <= maxDepth
  }

  lemma DeepestStep(level: map<RoleId, nat>, ids: seq<RoleId>, deepest: RoleId, maxDepth: nat, added: seq<RoleId>, n: nat)
    requires ids != [] && ids[0] in level && Deepest(level, ids, deepest, maxDepth)
    ensures if level[ids[0]] > maxDepth
            then Deepest(Found(level, added, n), ids[1..] + added, ids[0], level[ids[0]])
            else Deepest(Found(level, added, n), ids[1..] + added, deepest, maxDepth)
  {
    assert ids == [ids[0]] + ids[1..];
  }

  /** Breadth-first sweep that returns the greatest depth dequeued. */
  method GreatestDepth(m: Neighbours, ghost arcs: Arcs, role: RoleId) returns (maxDepth: nat)
    requires Represents(m, arcs)
    ensures IsEccentricity(arcs, role, maxDepth)
  {
    maxDepth := 0;
    var queue: seq<(RoleId, nat)>, visited := [(role, 0)], {role};
    ghost var goal := Search(m, None, [role], 0);
    ghost var level, ids, deepest := Seeded([role], 0), [role], role;
    TracksStart(m, None, [role], 0, visited, queue);
    while queue != []
      invariant Tracks(m, None, goal, level, ids, visited, queue)
      invariant Deepest(level, ids, deepest, maxDepth)
      decreases Nodes(m) - visited, |queue|
    {
      var current, depth := queue[0].0, queue[0].1;
      ghost var queue0, visited0, level0, ids0 := queue, visited, level, ids;
      var ns := Next(m, current);
      visited, queue := EnqueueAtDepth(ns, depth + 1, visited, queue[1..]);
      level, ids := TracksExpand(m, None, goal, level, ids, visited0, queue0, current, depth, ns, visited, queue);
      DeepestStep(level0, ids0, deepest, maxDepth, Fresh(ns, visited0), depth + 1);
      if depth > maxDepth {
        maxDepth, deepest := depth, current;
      }
    }
    assert level == goal;
    DeepestIsEccentric(m, arcs, role, deepest, maxDepth);
  }

  lemma DeepestIsEccentric(m: Neighbours, arcs: Arcs, role: RoleId, deepest: RoleId, maxDepth: nat)
    requires Represents(m, arcs) && Deepest(Search(m, None, [role], 0), [], deepest, maxDepth)
    ensures IsEccentricity(arcs, role, maxDepth)
  {
    SearchMeasures(m, arcs, role);
    forall b, n: nat | IsDistance(arcs, role, b, n) ensures n <= maxDepth {
      assert Connected(arcs, role, b);
    }
  }

  /** Depth above a role. */
  method CheckInheritanceDepth(edges: seq<Edge>, role: RoleId) returns (depth: nat)
    ensures IsEccentricity(Up(edges), role, depth)
  {
    var parentMap := BuildParentMap(edges);
    depth := GreatestDepth(parentMap, Up(edges), role);
  }

  /** Depth below a role. */
  method CheckInheritanceDepthDown(edges: seq<Edge>, role: RoleId) returns (depth: nat)
    ensures IsEccentricity(Reversed(Up(edges)), role, depth)
  {
    var childMap := BuildChildMap(edges);
    depth := GreatestDepth(childMap, Reversed(Up(edges)), role);
  }

  /** Roles above `role`, excluding the empty walk. */
  method ResolveAncestorRoles(edges: seq<Edge>, role: RoleId) returns (result: seq<RoleId>)
    ensures NoDup(result)
    ensures forall r :: r in result <==> Above(Up(edges), role, r)
  {
    var m := BuildParentMap(edges);
    var parents := Next(m, role);
    var visited, queue;
    visited, queue, result := EnqueueReported(parents, {}, [], []);
    ghost var seeds := queue;
    ghost var level := Seeded(seeds, 0);
    SeedsReported(parents, visited, queue, result);
    while queue != []
      invariant visited == level.Keys == Elems(result) && NoDup(result)
      invariant Explore(m, None, level, queue) == Search(m, None, seeds, 0)
      decreases Nodes(m) - visited, |queue|
    {
      var ns := Next(m, queue[0]);
      ReportGrows(visited, result, ns);
      ghost var queue0, seen := queue, visited;
      visited, queue, result := EnqueueReported(ns, visited, queue[1..], result);
      level := ExploreTurn(m, None, level, queue0, seen, queue);
    }
    AncestorsReported(m, Up(edges), seeds, role, result);
  }

  lemma SeedsReported(ns: seq<RoleId>, visited: set<RoleId>, queue: seq<RoleId>, result: seq<RoleId>)
    requires visited == {} + Elems(ns) && queue == [] + Fresh(ns, {}) && result == [] + Fresh(ns, {})
    ensures queue == result && visited == Elems(result) == Elems(ns) && NoDup(result)
  {
    ReportGrows({}, [], ns);
  }

  lemma AncestorsReported(m: Neighbours, arcs: Arcs, seeds: seq<RoleId>, role: RoleId, result: seq<RoleId>)
    requires Represents(m, arcs) && Elems(seeds) == Elems(Next(m, role))
    requires Elems(result) == Search(m, None, seeds, 0).Keys
    ensures forall r :: r in result <==> Above(arcs, role, r)
  {
    forall r ensures r in result <==> Above(arcs, role, r) {
      assert r in result <==> r in Elems(result);
      SearchAbove(m, arcs, seeds, 0, role, r);
    }
  }

  /** The enqueueing loop that stops as soon as it meets `target`. */
  method EnqueueUntil(ns: seq<RoleId>, target: RoleId, visited0: set<RoleId>, queue0: seq<RoleId>)
    returns (hit: bool, visited: set<RoleId>, queue: seq<RoleId>)
    ensures hit <==> target in ns
    ensures !hit ==> visited == visited0 + Elems(ns) && queue == queue0 + Fresh(ns, visited0)
  {
    visited, queue := visited0, queue0;
    for k := 0 to |ns|
      invariant target !in ns[..k]
      invariant visited == visited0 + Elems(ns[..k])
      invariant queue == queue0 + Fresh(ns[..k], visited0)
    {
      FreshStep(ns, k, visited0);
      PushAfter(queue0, Fresh(ns[..k], visited0), ns[k]);
      if ns[k] == target {
        return true, visited, queue;
      }
      if ns[k] !in visited {
        visited := visited + {ns[k]};
        queue := queue + [ns[k]];
      }
    }
    assert ns[..|ns|] == ns;
    hit := false;
  }

  /** Would the edge from `child` to `parent` close a cycle? */
  method DetectCycle(edges: seq<Edge>, parent: RoleId, child: RoleId) returns (found: bool)
    ensures found <==> Connected(Up(edges), parent, child)
  {
    if parent == child {
      ReachZero(Up(edges), parent);
      return true;
    }
    var m := BuildParentMap(edges);
    var visited, queue := {parent}, [parent];
    ghost var level := Seeded([parent], 0);
    SearchMeasures(m, Up(edges), parent);
    while queue != []
      invariant visited == level.Keys && child !in level
      invariant Explore(m, None, level, queue) == Search(m, None, [parent], 0)
      decreases Nodes(m) - visited, |queue|
    {
      var current := queue[0];
      var ns := Next(m, current);
      ghost var queue' := queue[1..] + Fresh(ns, visited);
      level := ExploreTurn(m, None, level, queue, visited, queue');
      var hit;
      hit, visited, queue := EnqueueUntil(ns, child, visited, queue[1..]);
      if hit {
        ExploreKeeps(m, None, level, queue', child);
        return true;
      }
    }
    return false;
  }
}
