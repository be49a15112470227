/** Reconstruction of the cycle that a rejected inheritance edge would close. */
module CyclePath {
  import opened Walks
  import opened BreadthFirst
  import opened Tables
  import opened Adjacency

  /** `Fallback` stands for the text used when the search never meets the child. */
  datatype Report = Path(ids: seq<RoleId>) | Fallback

  /** The came-from record of `x`: one step back, one level up. Direct parents of
      the start came from the start itself. */
  ghost predicate CameBy(arcs: Arcs, start: RoleId, level: map<RoleId, nat>, y: RoleId, x: RoleId)
    requires x in level
  {
    && (y, x) in arcs
    && (if y == start then level[x] == 1 else y in level && level[x] == level[y] + 1)
  }

  ghost predicate Trail(arcs: Arcs, start: RoleId, level: map<RoleId, nat>, cameFrom: map<RoleId, RoleId>) {
    forall x :: x in level ==> x in cameFrom && CameBy(arcs, start, level, cameFrom[x], x)
  }

  /** Steps still to walk back from `x` to the start. */
  ghost function Rank(start: RoleId, level: map<RoleId, nat>, x: RoleId): nat {
    if x == start then 0 else DepthOf(level, x)
  }

  function Rev(s: seq<RoleId>): seq<RoleId> {
    if s == [] then [] else Rev(s[1..]) + [s[0]]
  }

  lemma {:induction false} RevPush(s: seq<RoleId>, x: RoleId)
    ensures Rev(s + [x]) == [x] + Rev(s)
    decreases s
  {
    if s != [] {
      RevPush(s[1..], x);
      assert (s + [x])[1..] == s[1..] + [x];
    }
  }

  lemma {:induction false} RevLength(s: seq<RoleId>)
    ensures |Rev(s)| == |s|
    decreases s
  {
    if s != [] {
      RevLength(s[1..]);
    }
  }

  lemma {:induction false} RevTwice(s: seq<RoleId>)
    ensures Rev(Rev(s)) == s
    decreases s
  {
    if s != [] {
      RevTwice(s[1..]);
      RevPush(Rev(s[1..]), s[0]);
    }
  }

  /** The report: the collected path, closed by the child again, and reversed. */
  lemma RevFlank(path: seq<RoleId>, x: RoleId)
    requires path != [] && path[0] == x
    ensures Rev(path + [x]) == [x] + Rev(path[1..]) + [x]
  {
    RevPush(path, x);
    assert [x] + (Rev(path[1..]) + [x]) == [x] + Rev(path[1..]) + [x];
  }

  lemma WalkPrepend(arcs: Arcs, y: RoleId, p: seq<RoleId>, b: RoleId)
    requires p != [] && WalkFrom(arcs, p, p[0], b) && (y, p[0]) in arcs
    ensures WalkFrom(arcs, [y] + p, y, b)
  {
    var q := [y] + p;
    forall i, j | 0 <= i < |q| - 1 && j == i + 1 ensures (q[i], q[j]) in arcs {
      if i > 0 {
        assert q[i] == p[i - 1] && q[j] == p[j - 1];
      }
    }
  }

  lemma WalkAppend(arcs: Arcs, p: seq<RoleId>, a: RoleId, c: RoleId)
    requires IsWalk(arcs, p) && p[0] == a && (p[|p| - 1], c) in arcs
    ensures WalkFrom(arcs, p + [c], a, c)
  {
    var q := p + [c];
    forall i, j | 0 <= i < |q| - 1 && j == i + 1 ensures (q[i], q[j]) in arcs {
      if j < |p| {
        assert q[i] == p[i] && q[j] == p[j];
      }
    }
  }

  /** A walk from `node` to `current` along the records, every role on it no closer to the
      start than `node`. */
  ghost predicate Retraced(arcs: Arcs, start: RoleId, level: map<RoleId, nat>, current: RoleId,
                           trail: seq<RoleId>, node: RoleId)
  {
    && WalkFrom(arcs, trail, node, current) && NoDup(trail)
    && |trail| + Rank(start, level, node) == Rank(start, level, current) + 1
    && (forall x :: x in trail ==> Rank(start, level, x) >= Rank(start, level, node))
    && (forall x :: x in trail ==> x == start || x in level)
  }

  /** A step of the walk back stays on the records and gets closer to the start. */
  lemma StepBack(arcs: Arcs, start: RoleId, level: map<RoleId, nat>, cameFrom: map<RoleId, RoleId>,
                 current: RoleId, trail: seq<RoleId>, node: RoleId)
    requires Trail(arcs, start, level, cameFrom) && Retraced(arcs, start, level, current, trail, node)
    requires node != start
    ensures node in cameFrom
    ensures Retraced(arcs, start, level, current, [cameFrom[node]] + trail, cameFrom[node])
    ensures Rank(start, level, cameFrom[node]) < Rank(start, level, node)
  {
    assert node in trail;
    assert CameBy(arcs, start, level, cameFrom[node], node);
    var prev := cameFrom[node];
    WalkPrepend(arcs, prev, trail, current);
    NoDupAppend([prev], trail);
  }

  lemma ReadBackwards(path: seq<RoleId>, child: RoleId, trail: seq<RoleId>)
    requires path == [child] + Rev(trail)
    ensures path[0] == child && Rev(path[1..]) == trail && |path| == |trail| + 1
  {
    assert path[1..] == Rev(trail);
    RevTwice(trail);
    RevLength(trail);
  }

  /** Follow the came-from records from `current` back to `start`; read backwards, what is
      collected after `child` is the walk from `start` to `current`. */
  method WalkBack(cameFrom: map<RoleId, RoleId>, start: RoleId, current: RoleId, child: RoleId,
                  ghost arcs: Arcs, ghost level: map<RoleId, nat>)
    returns (path: seq<RoleId>)
    requires Trail(arcs, start, level, cameFrom)
    requires current == start || current in level
    ensures |path| == Rank(start, level, current) + 2 && path[0] == child
    ensures Retraced(arcs, start, level, current, Rev(path[1..]), start)
  {
    path := [child, current];
    ghost var trail := [current];
    var node := current;
    while node != start
      invariant path == [child] + Rev(trail)
      invariant Retraced(arcs, start, level, current, trail, node)
      decreases Rank(start, level, node)
    {
      StepBack(arcs, start, level, cameFrom, current, trail, node);
      if node in cameFrom {
        var prev := cameFrom[node];
        path := path + [prev];
        RevPrepend(prev, trail);
        trail := [prev] + trail;
        node := prev;
      } else {
        assert false;
        break;
      }
    }
    ReadBackwards(path, child, trail);
  }

  lemma RevPrepend(x: RoleId, s: seq<RoleId>)
    ensures Rev([x] + s) == Rev(s) + [x]
  {
    assert ([x] + s)[1..] == s;
  }

  /** How far the hunt for `child` has come. Its first turn finds the start's parents
      at level one, so what it computes is the search from those parents. */
  ghost predicate Hunting(m: Neighbours, arcs: Arcs, start: RoleId, child: RoleId, goal: map<RoleId, nat>,
                          level: map<RoleId, nat>, cameFrom: map<RoleId, RoleId>, queue: seq<RoleId>)
  {
    && level.Keys == cameFrom.Keys && child !in level
    && Explore(m, None, level, queue) == goal
    && Trail(arcs, start, level, cameFrom)
    && ((level == map[] && queue == [start]) || Elems(Next(m, start)) <= level.Keys)
    && (forall x :: x in queue ==> x == start || x in level)
  }

  ghost function CameTo(cameFrom: map<RoleId, RoleId>, added: seq<RoleId>, y: RoleId): map<RoleId, RoleId> {
    map x | x in cameFrom.Keys + Elems(added) :: if x in cameFrom then cameFrom[x] else y
  }

  lemma TrailStep(m: Neighbours, arcs: Arcs, start: RoleId, level: map<RoleId, nat>, cameFrom: map<RoleId, RoleId>,
                  cur: RoleId, n: nat)
    requires Represents(m, arcs) && Trail(arcs, start, level, cameFrom) && level.Keys == cameFrom.Keys
    requires if cur == start then n == 1 else cur in level && n == level[cur] + 1
    ensures var added := Fresh(Next(m, cur), level.Keys);
            Trail(arcs, start, Found(level, added, n), CameTo(cameFrom, added, cur))
  {
    var added := Fresh(Next(m, cur), level.Keys);
    var level', came' := Found(level, added, n), CameTo(cameFrom, added, cur);
    NextIsSucc(m, arcs, cur);
    FreshSuccessors(arcs, level.Keys, cur, Next(m, cur));
    forall x | x in level' ensures x in came' && CameBy(arcs, start, level', came'[x], x) {
      if x in level {
        assert CameBy(arcs, start, level, cameFrom[x], x);
      } else {
        assert x in added && came'[x] == cur;
      }
    }
  }

  lemma {:induction false} NothingFresh(ns: seq<RoleId>, seen: set<RoleId>)
    requires Elems(ns) <= seen
    ensures Fresh(ns, seen) == []
    decreases ns
  {
    if ns != [] {
      var init, n := ns[..|ns| - 1], ns[|ns| - 1];
      assert Elems(ns) == Elems(init) + {n};
      NothingFresh(init, seen);
    }
  }

  lemma NothingFound(level: map<RoleId, nat>, n: nat, cameFrom: map<RoleId, RoleId>, cur: RoleId)
    ensures Found(level, [], n) == level && CameTo(cameFrom, [], cur) == cameFrom
  {
  }

  /** A turn records where the new roles came from. */
  lemma TrailTurn(m: Neighbours, arcs: Arcs, start: RoleId, level: map<RoleId, nat>, cameFrom: map<RoleId, RoleId>,
                  cur: RoleId)
    requires Represents(m, arcs) && Trail(arcs, start, level, cameFrom) && level.Keys == cameFrom.Keys
    requires cur == start || cur in level
    requires level == map[] || Elems(Next(m, start)) <= level.Keys
    ensures var added := Fresh(Next(m, cur), level.Keys);
            Trail(arcs, start, Found(level, added, DepthOf(level, cur) + 1), CameTo(cameFrom, added, cur))
  {
    if cur == start && level != map[] {
      NothingFresh(Next(m, start), level.Keys);
      NothingFound(level, DepthOf(level, cur) + 1, cameFrom, cur);
    } else {
      TrailStep(m, arcs, start, level, cameFrom, cur, DepthOf(level, cur) + 1);
    }
  }

  /** After a turn the start's parents are known, and the queue holds known roles. */
  lemma QueueTurn(m: Neighbours, start: RoleId, level: map<RoleId, nat>, queue: seq<RoleId>, level': map<RoleId, nat>)
    requires queue != [] && forall x :: x in queue ==> x == start || x in level
    requires (level == map[] && queue == [start]) || Elems(Next(m, start)) <= level.Keys
    requires level'.Keys == level.Keys + Elems(Next(m, queue[0]))
    ensures Elems(Next(m, start)) <= level'.Keys
    ensures forall x :: x in queue[1..] + Fresh(Next(m, queue[0]), level.Keys) ==> x == start || x in level'
  {
    FreshFacts(Next(m, queue[0]), level.Keys);
    forall x | x in queue[1..] + Fresh(Next(m, queue[0]), level.Keys) ensures x == start || x in level' {
      if x in queue[1..] {
        assert x in queue;
      } else {
        assert x in Elems(Next(m, queue[0]));
      }
    }
  }

  /** A turn that does not meet the child. */
  lemma HuntTurn(m: Neighbours, arcs: Arcs, start: RoleId, child: RoleId, goal: map<RoleId, nat>,
                 level: map<RoleId, nat>, cameFrom: map<RoleId, RoleId>, queue: seq<RoleId>,
                 cur: RoleId, cameFrom': map<RoleId, RoleId>, queue': seq<RoleId>)
    returns (level': map<RoleId, nat>)
    requires Represents(m, arcs) && Hunting(m, arcs, start, child, goal, level, cameFrom, queue)
    requires queue != [] && cur == queue[0] && child !in Next(m, cur)
    requires cameFrom' == CameTo(cameFrom, Fresh(Next(m, cur), cameFrom.Keys), cur)
    requires queue' == queue[1..] + Fresh(Next(m, cur), cameFrom.Keys)
    ensures Hunting(m, arcs, start, child, goal, level', cameFrom', queue')
    ensures || Nodes(m) - cameFrom'.Keys < Nodes(m) - cameFrom.Keys
            || (cameFrom'.Keys == cameFrom.Keys && |queue'| < |queue|)
  {
    assert cur in queue;
    level' := ExploreTurn(m, None, level, queue, cameFrom.Keys, queue');
    CameToKeys(cameFrom, Next(m, cur), cur);
    TrailTurn(m, arcs, start, level, cameFrom, cur);
    QueueTurn(m, start, level, queue, level');
  }

  lemma CameToKeys(cameFrom: map<RoleId, RoleId>, ns: seq<RoleId>, y: RoleId)
    ensures CameTo(cameFrom, Fresh(ns, cameFrom.Keys), y).Keys == cameFrom.Keys + Elems(ns)
  {
    FreshFacts(ns, cameFrom.Keys);
    forall x ensures x in cameFrom.Keys + Elems(Fresh(ns, cameFrom.Keys)) <==> x in cameFrom.Keys + Elems(ns) {
    }
  }

  lemma CameToPush(cameFrom: map<RoleId, RoleId>, ns: seq<RoleId>, k: nat, y: RoleId)
    requires k < |ns|
    ensures var f := Fresh(ns[..k], cameFrom.Keys);
            var c := CameTo(cameFrom, f, y);
            && CameTo(cameFrom, f + [ns[k]], y) == (if ns[k] in cameFrom then c else c[ns[k] := y])
            && (ns[k] in c <==> ns[k] in cameFrom.Keys + Elems(ns[..k]))
  {
    FreshFacts(ns[..k], cameFrom.Keys);
    var x := ns[k];
    assert x in Elems(Fresh(ns[..k], cameFrom.Keys)) <==> x in ns[..k] && x !in cameFrom;
  }

  /** The turn that meets the child finds it at its least possible depth. */
  lemma HuntHit(m: Neighbours, child: RoleId, goal: map<RoleId, nat>,
                level: map<RoleId, nat>, queue: seq<RoleId>, cur: RoleId)
    requires Explore(m, None, level, queue) == goal && child !in level
    requires queue != [] && cur == queue[0] && child in Next(m, cur)
    ensures child in goal && goal[child] == DepthOf(level, cur) + 1
  {
    var ns := Next(m, cur);
    var queue' := queue[1..] + Fresh(ns, level.Keys);
    var level' := ExploreTurn(m, None, level, queue, level.Keys, queue');
    ExploreKeeps(m, None, level', queue', child);
  }

  /** The hunt computes, for every role above the start, the least positive number of
      steps that lead there. */
  lemma HuntMeasures(m: Neighbours, arcs: Arcs, start: RoleId, goal: map<RoleId, nat>, x: RoleId)
    requires Represents(m, arcs) && goal == Explore(m, None, map[], [start])
    ensures x in goal <==> Above(arcs, start, x)
    ensures x in goal ==> forall n: nat :: n >= 1 && Reach(arcs, start, x, n) ==> goal[x] <= n
  {
    var seeds := Fresh(Next(m, start), {});
    HuntIsSearch(m, start);
    FreshFromNothing(Next(m, start));
    SearchAbove(m, arcs, seeds, 1, start, x);
  }

  lemma FreshFromNothing(ns: seq<RoleId>)
    ensures Elems(Fresh(ns, {})) == Elems(ns)
  {
    FreshFacts(ns, {});
    forall x ensures x in Elems(Fresh(ns, {})) <==> x in Elems(ns) {
      assert x in Fresh(ns, {}) <==> x in ns;
    }
  }

  lemma HuntIsSearch(m: Neighbours, start: RoleId)
    ensures Explore(m, None, map[], [start]) == Search(m, None, Fresh(Next(m, start), {}), 1)
  {
    var none: map<RoleId, nat> := map[];
    var seeds := Fresh(Next(m, start), none.Keys);
    assert none.Keys == {};
    calc {
      Explore(m, None, none, [start]);
      Explore(m, None, Found(none, seeds, 1), [start][1..] + seeds);
      { assert Found(none, seeds, 1) == Seeded(seeds, 1);
        assert [start][1..] + seeds == seeds; }
      Explore(m, None, Seeded(seeds, 1), seeds);
    }
  }

  /** Record where each unseen neighbour came from and enqueue it, stopping at `target`. */
  method RecordUntil(ns: seq<RoleId>, target: RoleId, current: RoleId, came0: map<RoleId, RoleId>, queue0: seq<RoleId>)
    returns (hit: bool, cameFrom: map<RoleId, RoleId>, queue: seq<RoleId>)
    ensures hit <==> target in ns
    ensures forall x :: x in came0 ==> x in cameFrom && cameFrom[x] == came0[x]
    ensures !hit ==> cameFrom == CameTo(came0, Fresh(ns, came0.Keys), current)
    ensures !hit ==> queue == queue0 + Fresh(ns, came0.Keys)
  {
    cameFrom, queue := came0, queue0;
    for k := 0 to |ns|
      invariant target !in ns[..k]
      invariant cameFrom == CameTo(came0, Fresh(ns[..k], came0.Keys), current)
      invariant queue == queue0 + Fresh(ns[..k], came0.Keys)
    {
      FreshStep(ns, k, came0.Keys);
      CameToPush(came0, ns, k, current);
      PushAfter(queue0, Fresh(ns[..k], came0.Keys), ns[k]);
      if ns[k] == target {
        return true, cameFrom, queue;
      }
      if ns[k] !in cameFrom {
        cameFrom := cameFrom[ns[k] := current];
        queue := queue + [ns[k]];
      }
    }
    assert ns[..|ns|] == ns;
    hit := false;
  }

  /** The cycle `child, parent, ..., child` that the edge from `child` to `parent` would close. */
  method BuildCyclePath(edges: seq<Edge>, parent: RoleId, child: RoleId) returns (r: Report)
    ensures r.Path? <==> Above(Up(edges), parent, child)
    ensures r.Path? ==> ShortestCycle(Up(edges), parent, child, r.ids)
  {
    var m := BuildParentMap(edges);
    ghost var arcs := Up(edges);
    var cameFrom: map<RoleId, RoleId>, queue := map[], [parent];
    ghost var level: map<RoleId, nat> := map[];
    ghost var goal := Explore(m, None, level, queue);
    while queue != []
      invariant Hunting(m, arcs, parent, child, goal, level, cameFrom, queue)
      decreases Nodes(m) - cameFrom.Keys, |queue|
    {
      var current := queue[0];
      ghost var queue0, came0 := queue, cameFrom;
      var hit;
      hit, cameFrom, queue := RecordUntil(Next(m, current), child, current, cameFrom, queue[1..]);
      if hit {
        HuntEnds(m, arcs, parent, child, goal, level, came0, queue0, cameFrom);
        var path := WalkBack(cameFrom, parent, current, child, arcs, level);
        RevLength(path[1..]);
        CycleFromTrail(m, arcs, parent, child, goal, level, current, Rev(path[1..]));
        RevFlank(path, child);
        return Path(Rev(path + [child]));
      }
      level := HuntTurn(m, arcs, parent, child, goal, level, came0, queue0, current, cameFrom, queue);
    }
    HuntFails(m, arcs, parent, child, goal, level, cameFrom);
    return Fallback;
  }

  /** `child`, then a shortest nonempty walk from `parent` back to `child`, through
      roles that are all different. */
  ghost predicate ShortestCycle(arcs: Arcs, parent: RoleId, child: RoleId, ids: seq<RoleId>) {
    && |ids| >= 3 && ids[0] == child
    && WalkFrom(arcs, ids[1..], parent, child)
    && (forall n: nat :: n >= 1 && Reach(arcs, parent, child, n) ==> |ids| - 2 <= n)
    && NoDup(ids[1..|ids| - 1])
    && (parent != child ==> child !in ids[1..|ids| - 1])
  }

  lemma HuntEnds(m: Neighbours, arcs: Arcs, start: RoleId, child: RoleId, goal: map<RoleId, nat>,
                 level: map<RoleId, nat>, cameFrom: map<RoleId, RoleId>, queue: seq<RoleId>,
                 cameFrom': map<RoleId, RoleId>)
    requires Hunting(m, arcs, start, child, goal, level, cameFrom, queue)
    requires queue != [] && child in Next(m, queue[0])
    requires forall x :: x in cameFrom ==> x in cameFrom' && cameFrom'[x] == cameFrom[x]
    ensures Trail(arcs, start, level, cameFrom')
    ensures queue[0] == start || queue[0] in level
    ensures child in goal && goal[child] == Rank(start, level, queue[0]) + 1
    ensures child !in level
  {
    var cur := queue[0];
    assert cur in queue;
    HuntHit(m, child, goal, level, queue, cur);
    if cur == start {
      assert child in Elems(Next(m, start)) - level.Keys;
    }
  }

  lemma CycleFromTrail(m: Neighbours, arcs: Arcs, start: RoleId, child: RoleId, goal: map<RoleId, nat>,
                       level: map<RoleId, nat>, current: RoleId, trail: seq<RoleId>)
    requires Represents(m, arcs) && goal == Explore(m, None, map[], [start])
    requires WalkFrom(arcs, trail, start, current) && NoDup(trail) && child in Next(m, current)
    requires child in goal && goal[child] == |trail|
    requires child !in level && forall x :: x in trail ==> x == start || x in level
    ensures Above(arcs, start, child)
    ensures ShortestCycle(arcs, start, child, [child] + trail + [child])
  {
    var ids := [child] + trail + [child];
    NextIsSucc(m, arcs, current);
    assert child in Elems(Next(m, current));
    SuccIsArc(arcs, current, child);
    WalkAppend(arcs, trail, start, child);
    assert ids[1..] == trail + [child];
    assert ids[1..|ids| - 1] == trail;
    HuntMeasures(m, arcs, start, goal, child);
  }

  lemma HuntFails(m: Neighbours, arcs: Arcs, start: RoleId, child: RoleId, goal: map<RoleId, nat>,
                  level: map<RoleId, nat>, cameFrom: map<RoleId, RoleId>)
    requires Represents(m, arcs) && goal == Explore(m, None, map[], [start])
    requires Hunting(m, arcs, start, child, goal, level, cameFrom, [])
    ensures !Above(arcs, start, child)
  {
    HuntMeasures(m, arcs, start, goal, child);
  }
}
