/** Neighbour maps, and the loops that feed a search queue. */
module Adjacency {
  import opened Walks
  import opened BreadthFirst
  import opened Tables

  method BuildParentMap(edges: seq<Edge>) returns (m: Neighbours)
    ensures Represents(m, Up(edges))
  {
    m := map[];
    for k := 0 to |edges|
      invariant forall x, y :: y in Next(m, x) <==> Edge(x, y) in edges[..k]
    {
      var e := edges[k];
      m := m[e.child := Next(m, e.child) + [e.parent]];
      assert edges[..k + 1] == edges[..k] + [e];
    }
    assert edges[..|edges|] == edges;
    forall x ensures Elems(Next(m, x)) == Succ(Up(edges), x) {
      forall y ensures y in Next(m, x) <==> y in Succ(Up(edges), x) {
        SuccIsArc(Up(edges), x, y);
        UpIsEdge(edges, x, y);
      }
    }
  }

  method BuildChildMap(edges: seq<Edge>) returns (m: Neighbours)
    ensures Represents(m, Reversed(Up(edges)))
  {
    m := map[];
    for k := 0 to |edges|
      invariant forall x, y :: y in Next(m, x) <==> Edge(y, x) in edges[..k]
    {
      var e := edges[k];
      m := m[e.parent := Next(m, e.parent) + [e.child]];
      assert edges[..k + 1] == edges[..k] + [e];
    }
    assert edges[..|edges|] == edges;
    var down := Reversed(Up(edges));
    forall x ensures Elems(Next(m, x)) == Succ(down, x) {
      forall y ensures y in Next(m, x) <==> y in Succ(down, x) {
        SuccIsArc(down, x, y);
        UpIsEdge(edges, y, x);
        if (y, x) in Up(edges) { assert ((y, x).1, (y, x).0) in down; }
      }
    }
  }

  ghost function Tagged(ids: seq<RoleId>, depth: nat): seq<(RoleId, nat)> {
    if ids == [] then [] else Tagged(ids[..|ids| - 1], depth) + [(ids[|ids| - 1], depth)]
  }

  lemma TaggedPush(ids: seq<RoleId>, x: RoleId, depth: nat)
    ensures Tagged(ids + [x], depth) == Tagged(ids, depth) + [(x, depth)]
  {
    assert (ids + [x])[..|ids|] == ids;
  }

  /** `queue` lists `ids`, each with its depth. */
  ghost predicate Paired(level: map<RoleId, nat>, ids: seq<RoleId>, queue: seq<(RoleId, nat)>) {
    && |ids| == |queue|
    && (ids == [] || (queue[0] == (ids[0], DepthOf(level, ids[0])) && Paired(level, ids[1..], queue[1..])))
  }

  lemma {:induction false} PairedPush(level: map<RoleId, nat>, ids: seq<RoleId>, queue: seq<(RoleId, nat)>, x: RoleId)
    requires Paired(level, ids, queue)
    ensures Paired(level, ids + [x], queue + [(x, DepthOf(level, x))])
    decreases ids
  {
    if ids != [] {
      PairedPush(level, ids[1..], queue[1..], x);
      assert (ids + [x])[1..] == ids[1..] + [x];
      assert (queue + [(x, DepthOf(level, x))])[1..] == queue[1..] + [(x, DepthOf(level, x))];
    }
  }

  lemma {:induction false} PairedKeep(level: map<RoleId, nat>, level': map<RoleId, nat>,
                                      ids: seq<RoleId>, queue: seq<(RoleId, nat)>)
    requires Paired(level, ids, queue)
    requires forall x :: x in ids ==> DepthOf(level', x) == DepthOf(level, x)
    ensures Paired(level', ids, queue)
    decreases ids
  {
    if ids != [] {
      var x := ids[0];
      assert x in ids;
      PairedKeep(level, level', ids[1..], queue[1..]);
    }
  }

  lemma {:induction false} PairedAppend(level: map<RoleId, nat>, ids: seq<RoleId>, queue: seq<(RoleId, nat)>,
                                        added: seq<RoleId>, n: nat)
    requires Paired(level, ids, queue)
    requires forall x :: x in added ==> DepthOf(level, x) == n
    ensures Paired(level, ids + added, queue + Tagged(added, n))
    decreases added
  {
    if added == [] {
      assert ids + added == ids && queue + Tagged(added, n) == queue;
    } else {
      var init, x := added[..|added| - 1], added[|added| - 1];
      assert x in added;
      PairedAppend(level, ids, queue, init, n);
      PairedPush(level, ids + init, queue + Tagged(init, n), x);
      assert ids + added == ids + init + [x];
      assert queue + Tagged(added, n) == queue + Tagged(init, n) + [(x, n)];
    }
  }

  /** Dequeue, and enqueue what was found one level further. */
  lemma PairedStep(level: map<RoleId, nat>, ids: seq<RoleId>, queue: seq<(RoleId, nat)>, added: seq<RoleId>, n: nat)
    requires ids != [] && Paired(level, ids, queue)
    requires forall x :: x in ids ==> x in level
    requires forall x :: x in added ==> x !in level.Keys
    ensures Paired(Found(level, added, n), ids[1..] + added, queue[1..] + Tagged(added, n))
    ensures forall x :: x in ids[1..] + added ==> x in Found(level, added, n)
  {
    PairedKeep(level, Found(level, added, n), ids[1..], queue[1..]);
    PairedAppend(Found(level, added, n), ids[1..], queue[1..], added, n);
  }

  /** A search with depths in its queue has come this far towards `goal`. */
  ghost predicate Tracks(m: Neighbours, cap: Option<nat>, goal: map<RoleId, nat>, level: map<RoleId, nat>,
                         ids: seq<RoleId>, visited: set<RoleId>, queue: seq<(RoleId, nat)>)
  {
    && Paired(level, ids, queue)
    && (forall x :: x in ids ==> x in level)
    && visited == level.Keys
    && Explore(m, cap, level, ids) == goal
  }

  lemma TracksStart(m: Neighbours, cap: Option<nat>, seeds: seq<RoleId>, base: nat,
                    visited: set<RoleId>, queue: seq<(RoleId, nat)>)
    requires visited == Elems(seeds) && queue == Tagged(seeds, base)
    ensures Tracks(m, cap, Search(m, cap, seeds, base), Seeded(seeds, base), seeds, visited, queue)
  {
    PairedAppend(Seeded(seeds, base), [], [], seeds, base);
    assert [] + seeds == seeds && [] + Tagged(seeds, base) == Tagged(seeds, base);
  }

  lemma TracksHead(m: Neighbours, cap: Option<nat>, goal: map<RoleId, nat>, level: map<RoleId, nat>,
                   ids: seq<RoleId>, visited: set<RoleId>, queue: seq<(RoleId, nat)>)
    requires Tracks(m, cap, goal, level, ids, visited, queue) && queue != []
    ensures ids != [] && ids[0] == queue[0].0
    ensures ids[0] in level && level[ids[0]] == DepthOf(level, ids[0]) == queue[0].1
  {
    var cur := ids[0];
    assert cur in ids;
  }

  lemma TracksExpand(m: Neighbours, cap: Option<nat>, goal: map<RoleId, nat>, level: map<RoleId, nat>,
                     ids: seq<RoleId>, visited: set<RoleId>, queue: seq<(RoleId, nat)>,
                     cur: RoleId, depth: nat, ns: seq<RoleId>, visited': set<RoleId>, queue': seq<(RoleId, nat)>)
    returns (level': map<RoleId, nat>, ids': seq<RoleId>)
    requires Tracks(m, cap, goal, level, ids, visited, queue)
    requires queue != [] && cur == queue[0].0 && depth == queue[0].1
    requires Expands(cap, depth) && ns == Next(m, cur)
    requires visited' == visited + Elems(ns)
    requires queue' == queue[1..] + Tagged(Fresh(ns, visited), depth + 1)
    ensures Tracks(m, cap, goal, level', ids', visited', queue')
    ensures ids != [] && ids[0] == cur && cur in level && level[cur] == depth
    ensures level' == Found(level, Fresh(ns, visited), depth + 1) && ids' == ids[1..] + Fresh(ns, visited)
    ensures Nodes(m) - visited' < Nodes(m) - visited || (visited' == visited && |queue'| < |queue|)
  {
    TracksHead(m, cap, goal, level, ids, visited, queue);
    var added := Fresh(ns, visited);
    FreshFacts(ns, visited);
    PairedStep(level, ids, queue, added, queue[0].1 + 1);
    ids' := ids[1..] + added;
    level' := ExploreTurn(m, cap, level, ids, visited, ids');
  }

  lemma TracksSkip(m: Neighbours, cap: Option<nat>, goal: map<RoleId, nat>, level: map<RoleId, nat>,
                   ids: seq<RoleId>, visited: set<RoleId>, queue: seq<(RoleId, nat)>)
    requires Tracks(m, cap, goal, level, ids, visited, queue)
    requires queue != [] && !Expands(cap, queue[0].1)
    ensures Tracks(m, cap, goal, level, ids[1..], visited, queue[1..])
  {
    TracksHead(m, cap, goal, level, ids, visited, queue);
  }

  /** Insert into `visited`; whatever was new goes to the back of the queue. */
  method EnqueueUnseen(ns: seq<RoleId>, visited0: set<RoleId>, queue0: seq<RoleId>)
    returns (visited: set<RoleId>, queue: seq<RoleId>)
    ensures visited == visited0 + Elems(ns)
    ensures queue == queue0 + Fresh(ns, visited0)
  {
    visited, queue := visited0, queue0;
    for k := 0 to |ns|
      invariant visited == visited0 + Elems(ns[..k])
      invariant queue == queue0 + Fresh(ns[..k], visited0)
    {
      FreshStep(ns, k, visited0);
      PushAfter(queue0, Fresh(ns[..k], visited0), ns[k]);
      if ns[k] !in visited {
        visited := visited + {ns[k]};
        queue := queue + [ns[k]];
      }
    }
    assert ns[..|ns|] == ns;
  }

  /** `EnqueueUnseen`, also reporting what was new. */
  method EnqueueReported(ns: seq<RoleId>, visited0: set<RoleId>, queue0: seq<RoleId>, result0: seq<RoleId>)
    returns (visited: set<RoleId>, queue: seq<RoleId>, result: seq<RoleId>)
    ensures visited == visited0 + Elems(ns)
    ensures queue == queue0 + Fresh(ns, visited0)
    ensures result == result0 + Fresh(ns, visited0)
  {
    visited, queue, result := visited0, queue0, result0;
    for k := 0 to |ns|
      invariant visited == visited0 + Elems(ns[..k])
      invariant queue == queue0 + Fresh(ns[..k], visited0)
      invariant result == result0 + Fresh(ns[..k], visited0)
    {
      FreshStep(ns, k, visited0);
      PushAfter(queue0, Fresh(ns[..k], visited0), ns[k]);
      PushAfter(result0, Fresh(ns[..k], visited0), ns[k]);
      if ns[k] !in visited {
        visited := visited + {ns[k]};
        result := result + [ns[k]];
        queue := queue + [ns[k]];
      }
    }
    assert ns[..|ns|] == ns;
  }

  /** `EnqueueUnseen` with each enqueued role carrying its depth. */
  method EnqueueAtDepth(ns: seq<RoleId>, depth: nat, visited0: set<RoleId>, queue0: seq<(RoleId, nat)>)
    returns (visited: set<RoleId>, queue: seq<(RoleId, nat)>)
    ensures visited == visited0 + Elems(ns)
    ensures queue == queue0 + Tagged(Fresh(ns, visited0), depth)
  {
    visited, queue := visited0, queue0;
    for k := 0 to |ns|
      invariant visited == visited0 + Elems(ns[..k])
      invariant queue == queue0 + Tagged(Fresh(ns[..k], visited0), depth)
    {
      FreshStep(ns, k, visited0);
      TaggedPush(Fresh(ns[..k], visited0), ns[k], depth);
      PushAfter(queue0, Tagged(Fresh(ns[..k], visited0), depth), (ns[k], depth));
      if ns[k] !in visited {
        visited := visited + {ns[k]};
        queue := queue + [(ns[k], depth)];
      }
    }
    assert ns[..|ns|] == ns;
  }
}
