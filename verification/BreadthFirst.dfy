/** The breadth-first discipline shared by the resolver's searches: a FIFO queue,
    a set of roles already seen, and (ghost) the level at which each was found. */
module BreadthFirst {
  import opened Walks

  /** The roles of `ns` not in `seen`, first occurrences only: what one pass of
      "insert into visited, and if new, enqueue" appends to the queue. */
  function Fresh(ns: seq<RoleId>, seen: set<RoleId>): seq<RoleId> {
    if ns == [] then []
    else
      var before := Fresh(ns[..|ns| - 1], seen);
      var n := ns[|ns| - 1];
      if n in seen || n in before then before else before + [n]
  }

  lemma {:induction false} FreshFacts(ns: seq<RoleId>, seen: set<RoleId>)
    ensures NoDup(Fresh(ns, seen))
    ensures forall x :: x in Fresh(ns, seen) <==> x in ns && x !in seen
  {
    if ns != [] {
      var init, n := ns[..|ns| - 1], ns[|ns| - 1];
      FreshFacts(init, seen);
      assert ns == init + [n];
    }
  }

  /** One pass of the enqueueing loop. */
  lemma FreshStep(ns: seq<RoleId>, k: nat, seen: set<RoleId>)
    requires k < |ns|
    ensures var r := Fresh(ns[..k], seen);
            Fresh(ns[..k + 1], seen) == if ns[k] in seen + Elems(ns[..k]) then r else r + [ns[k]]
    ensures Elems(ns[..k + 1]) == Elems(ns[..k]) + {ns[k]}
  {
    assert ns[..k + 1][..k] == ns[..k];
    assert ns[..k + 1] == ns[..k] + [ns[k]];
    FreshFacts(ns[..k], seen);
  }

  /** Roles one step away from `x`. */
  ghost function Succ(arcs: Arcs, x: RoleId): set<RoleId> {
    set e | e in arcs && e.0 == x :: e.1
  }

  lemma SuccIsArc(arcs: Arcs, x: RoleId, y: RoleId)
    ensures y in Succ(arcs, x) <==> (x, y) in arcs
  {
    if (x, y) in arcs {
      var e := (x, y);
      assert e in arcs && e.0 == x;
    }
  }

  ghost predicate ReachFromAny(arcs: Arcs, seeds: set<RoleId>, x: RoleId, n: nat) {
    exists s :: s in seeds && Reach(arcs, s, x, n)
  }

  /** The level of `x`, counted from the seeds' level `base`, is the length of some walk from a seed. */
  ghost predicate Settled(arcs: Arcs, seeds: set<RoleId>, base: nat, level: map<RoleId, nat>, x: RoleId) {
    x in level ==> level[x] >= base && ReachFromAny(arcs, seeds, x, level[x] - base)
  }

  /** Seeds sit at the base level, and every level is settled. */
  ghost predicate Sound(arcs: Arcs, seeds: set<RoleId>, base: nat, level: map<RoleId, nat>) {
    && (forall s :: s in seeds ==> s in level && level[s] == base)
    && (forall x :: Settled(arcs, seeds, base, level, x))
  }

  /** Every step out of an expanded role lands at most one level further. */
  ghost predicate Covered(arcs: Arcs, level: map<RoleId, nat>, expanded: set<RoleId>) {
    && expanded <= level.Keys
    && forall x, y {:trigger (x, y) in arcs} :: x in expanded && (x, y) in arcs ==> y in level && level[y] <= level[x] + 1
  }

  ghost function Found(level: map<RoleId, nat>, added: seq<RoleId>, n: nat): map<RoleId, nat> {
    map x | x in level.Keys + Elems(added) :: if x in level then level[x] else n
  }

  ghost function Seeded(seeds: seq<RoleId>, base: nat): map<RoleId, nat> {
    map x | x in seeds :: base
  }

  lemma SoundStep(arcs: Arcs, seeds: set<RoleId>, base: nat, level: map<RoleId, nat>, cur: RoleId, added: seq<RoleId>)
    requires Sound(arcs, seeds, base, level) && cur in level
    requires forall x :: x in added ==> (cur, x) in arcs
    ensures Sound(arcs, seeds, base, Found(level, added, level[cur] + 1))
  {
    var level' := Found(level, added, level[cur] + 1);
    forall x ensures Settled(arcs, seeds, base, level', x) {
      assert Settled(arcs, seeds, base, level, x) && Settled(arcs, seeds, base, level, cur);
      if x in added && x !in level {
        var s :| s in seeds && Reach(arcs, s, cur, level[cur] - base);
        ReachExtend(arcs, s, cur, x, level[cur] - base);
      }
    }
  }

  lemma CoveredStep(arcs: Arcs, level: map<RoleId, nat>, expanded: set<RoleId>, cur: RoleId, added: seq<RoleId>)
    requires Covered(arcs, level, expanded) && cur in level
    requires forall x :: x in level ==> level[x] <= level[cur] + 1
    requires forall y :: (cur, y) in arcs ==> y in level || y in added
    ensures Covered(arcs, Found(level, added, level[cur] + 1), expanded + {cur})
  {
  }

  /** What the enqueueing loop adds for a dequeued role. */
  lemma FreshSuccessors(arcs: Arcs, found: set<RoleId>, cur: RoleId, ns: seq<RoleId>)
    requires Elems(ns) == Succ(arcs, cur)
    ensures var added := Fresh(ns, found);
            && NoDup(added)
            && (forall x :: x in added ==> x !in found)
            && (forall x :: x in added ==> (cur, x) in arcs)
            && (forall y :: (cur, y) in arcs ==> y in found || y in added)
  {
    FreshFacts(ns, found);
    forall y
      ensures (cur, y) in arcs <==> y in ns
    {
      SuccIsArc(arcs, cur, y);
      assert y in ns <==> y in Elems(ns);
    }
  }

  lemma CoveredAt(arcs: Arcs, level: map<RoleId, nat>, expanded: set<RoleId>, x: RoleId, y: RoleId)
    requires Covered(arcs, level, expanded) && x in expanded && (x, y) in arcs
    ensures y in level && level[y] <= level[x] + 1
  {
  }

  // ----- the search as a function -----

  type Neighbours = map<RoleId, seq<RoleId>>

  function Next(m: Neighbours, x: RoleId): seq<RoleId> {
    if x in m then m[x] else []
  }

  ghost predicate Represents(m: Neighbours, arcs: Arcs) {
    forall x :: Elems(Next(m, x)) == Succ(arcs, x)
  }

  lemma NextIsSucc(m: Neighbours, arcs: Arcs, x: RoleId)
    requires Represents(m, arcs)
    ensures Elems(Next(m, x)) == Succ(arcs, x)
  {
  }

  ghost function Nodes(m: Neighbours): set<RoleId> {
    set x, y | x in m && y in m[x] :: y
  }

  /** Roles at depth `cap` and beyond are not expanded. */
  predicate Expands(cap: Option<nat>, depth: nat) {
    cap.None? || depth < cap.value
  }

  /** Expanding a role finds new roles, or leaves the queue shorter. */
  lemma TurnShrinks(m: Neighbours, seen: set<RoleId>, cur: RoleId)
    ensures var ns := Next(m, cur);
            Nodes(m) - (seen + Elems(ns)) < Nodes(m) - seen || (Fresh(ns, seen) == [] && seen + Elems(ns) == seen)
  {
    var ns := Next(m, cur);
    FreshFacts(ns, seen);
    var added := Fresh(ns, seen);
    if added != [] {
      var x := added[0];
      assert x in added;
      assert cur in m && x in m[cur];
      assert x in Nodes(m) - seen;
    } else {
      forall x | x in ns ensures x in seen {
        assert x !in added;
      }
    }
  }

  ghost function DepthOf(level: map<RoleId, nat>, x: RoleId): nat {
    if x in level then level[x] else 0
  }

  /** The depth at which a search from this point has found each role when its
      queue runs dry. */
  ghost function Explore(m: Neighbours, cap: Option<nat>, level: map<RoleId, nat>, queue: seq<RoleId>)
    : map<RoleId, nat>
    decreases Nodes(m) - level.Keys, |queue|
  {
    if queue == [] then level
    else if !Expands(cap, DepthOf(level, queue[0])) then Explore(m, cap, level, queue[1..])
    else
      var ns, n := Next(m, queue[0]), DepthOf(level, queue[0]) + 1;
      var added := Fresh(ns, level.Keys);
      TurnShrinks(m, level.Keys, queue[0]);
      FoundKeys(level, ns, n);
      Explore(m, cap, Found(level, added, n), queue[1..] + added)
  }

  lemma FoundKeys(level: map<RoleId, nat>, ns: seq<RoleId>, n: nat)
    ensures Found(level, Fresh(ns, level.Keys), n).Keys == level.Keys + Elems(ns)
  {
    FreshFacts(ns, level.Keys);
    forall x ensures x in level.Keys + Elems(Fresh(ns, level.Keys)) <==> x in level.Keys + Elems(ns) {
    }
  }

  /** One turn of a search that expands the head of its queue. */
  lemma ExploreTurn(m: Neighbours, cap: Option<nat>, level: map<RoleId, nat>, queue: seq<RoleId>,
                    seen: set<RoleId>, queue': seq<RoleId>)
    returns (level': map<RoleId, nat>)
    requires queue != [] && Expands(cap, DepthOf(level, queue[0]))
    requires seen == level.Keys
    requires queue' == queue[1..] + Fresh(Next(m, queue[0]), seen)
    ensures level' == Found(level, Fresh(Next(m, queue[0]), seen), DepthOf(level, queue[0]) + 1)
    ensures level'.Keys == seen + Elems(Next(m, queue[0]))
    ensures Explore(m, cap, level', queue') == Explore(m, cap, level, queue)
    ensures || Nodes(m) - (seen + Elems(Next(m, queue[0]))) < Nodes(m) - seen
            || (seen + Elems(Next(m, queue[0])) == seen && |queue'| < |queue|)
  {
    TurnShrinks(m, seen, queue[0]);
    FoundKeys(level, Next(m, queue[0]), DepthOf(level, queue[0]) + 1);
    level' := Found(level, Fresh(Next(m, queue[0]), seen), DepthOf(level, queue[0]) + 1);
  }

  /** What was found stays found, at the depth it was found. */
  lemma {:induction false} ExploreKeeps(m: Neighbours, cap: Option<nat>, level: map<RoleId, nat>,
                                        queue: seq<RoleId>, x: RoleId)
    requires x in level
    ensures x in Explore(m, cap, level, queue) && Explore(m, cap, level, queue)[x] == level[x]
    decreases Nodes(m) - level.Keys, |queue|
  {
    if queue != [] {
      var ns, n := Next(m, queue[0]), DepthOf(level, queue[0]) + 1;
      if !Expands(cap, n - 1) {
        ExploreKeeps(m, cap, level, queue[1..], x);
      } else {
        TurnShrinks(m, level.Keys, queue[0]);
        FoundKeys(level, ns, n);
        ExploreKeeps(m, cap, Found(level, Fresh(ns, level.Keys), n), queue[1..] + Fresh(ns, level.Keys), x);
      }
    }
  }

  // ----- the search invariant -----

  /** Every found role was dequeued or waits in the queue. */
  ghost predicate Pending(level: map<RoleId, nat>, queue: seq<RoleId>, done: set<RoleId>) {
    && (forall x :: x in level ==> x in done || x in queue)
    && (forall x :: x in queue ==> x in level)
    && done <= level.Keys
  }

  ghost predicate Ascending(level: map<RoleId, nat>, queue: seq<RoleId>) {
    |queue| <= 1 || (DepthOf(level, queue[0]) <= DepthOf(level, queue[1]) && Ascending(level, queue[1..]))
  }

  /** What FIFO order buys: queued depths ascend, and no level anywhere exceeds
      the head's by more than one. */
  ghost predicate Sorted(level: map<RoleId, nat>, queue: seq<RoleId>) {
    && Ascending(level, queue)
    && (queue != [] ==> forall x :: x in level ==> level[x] <= DepthOf(level, queue[0]) + 1)
  }

  /** No level passes the cap, and only roles at the cap went unexpanded. */
  ghost predicate CapObeyed(cap: Option<nat>, level: map<RoleId, nat>, done: set<RoleId>, expanded: set<RoleId>) {
    && (cap.Some? ==> forall x :: x in level ==> level[x] <= cap.value)
    && (forall x :: x in done && x in level && Expands(cap, level[x]) ==> x in expanded)
  }

  /** The search invariant: `done` were dequeued, `expanded` are those of them whose
      neighbours were examined. */
  ghost predicate Layered(arcs: Arcs, seeds: set<RoleId>, base: nat, cap: Option<nat>, level: map<RoleId, nat>,
                          queue: seq<RoleId>, done: set<RoleId>, expanded: set<RoleId>)
  {
    && Pending(level, queue, done)
    && Sorted(level, queue)
    && Sound(arcs, seeds, base, level)
    && Covered(arcs, level, expanded)
    && CapObeyed(cap, level, done, expanded)
  }

  lemma {:induction false} AscendingAppend(level: map<RoleId, nat>, level': map<RoleId, nat>,
                                           queue: seq<RoleId>, added: seq<RoleId>, n: nat)
    requires Ascending(level, queue)
    requires forall x :: x in queue ==> DepthOf(level', x) == DepthOf(level, x) <= n
    requires forall x :: x in added ==> DepthOf(level', x) == n
    ensures Ascending(level', queue + added)
    decreases |queue| + |added|
  {
    var q := queue + added;
    if queue != [] {
      AscendingAppend(level, level', queue[1..], added, n);
      assert q[1..] == queue[1..] + added;
      assert queue[0] in queue;
      if |q| > 1 {
        assert q[1] in queue || q[1] in added;
      }
    } else if |added| > 1 {
      AscendingAppend(level, level', [], added[1..], n);
      assert q[1..] == [] + added[1..];
      assert added[0] in added && added[1] in added;
    }
  }

  lemma SortedStep(level: map<RoleId, nat>, queue: seq<RoleId>, added: seq<RoleId>)
    requires Sorted(level, queue) && queue != []
    requires forall x :: x in queue ==> x in level
    requires forall x :: x in added ==> x !in level.Keys
    ensures Sorted(Found(level, added, DepthOf(level, queue[0]) + 1), queue[1..] + added)
  {
    var n := DepthOf(level, queue[0]) + 1;
    var level' := Found(level, added, n);
    AscendingAppend(level, level', queue[1..], added, n);
    var q := queue[1..] + added;
    if q != [] {
      assert q[0] in queue[1..] || q[0] in added;
    }
  }

  lemma PendingStep(level: map<RoleId, nat>, queue: seq<RoleId>, done: set<RoleId>, added: seq<RoleId>, n: nat)
    requires Pending(level, queue, done) && queue != []
    ensures queue[0] in level
    ensures Pending(Found(level, added, n), queue[1..] + added, done + {queue[0]})
  {
    var cur := queue[0];
    assert cur in queue;
    assert queue == [cur] + queue[1..];
  }

  lemma CapStep(cap: Option<nat>, level: map<RoleId, nat>, done: set<RoleId>, expanded: set<RoleId>,
                cur: RoleId, added: seq<RoleId>)
    requires CapObeyed(cap, level, done, expanded) && done <= level.Keys
    requires cur in level && Expands(cap, level[cur])
    ensures CapObeyed(cap, Found(level, added, level[cur] + 1), done + {cur}, expanded + {cur})
  {
  }

  /** Dequeue and expand. */
  lemma LayeredExpand(m: Neighbours, arcs: Arcs, seeds: set<RoleId>, base: nat, cap: Option<nat>,
                      level: map<RoleId, nat>, queue: seq<RoleId>, done: set<RoleId>, expanded: set<RoleId>)
    requires Represents(m, arcs) && Layered(arcs, seeds, base, cap, level, queue, done, expanded)
    requires queue != [] && Expands(cap, DepthOf(level, queue[0]))
    ensures var cur := queue[0];
            var added := Fresh(Next(m, cur), level.Keys);
            Layered(arcs, seeds, base, cap, Found(level, added, DepthOf(level, cur) + 1), queue[1..] + added,
                    done + {cur}, expanded + {cur})
  {
    var cur := queue[0];
    var added := Fresh(Next(m, cur), level.Keys);
    assert cur in queue;
    NextIsSucc(m, arcs, cur);
    FreshSuccessors(arcs, level.Keys, cur, Next(m, cur));
    PendingStep(level, queue, done, added, level[cur] + 1);
    SortedStep(level, queue, added);
    SoundStep(arcs, seeds, base, level, cur, added);
    CoveredStep(arcs, level, expanded, cur, added);
    CapStep(cap, level, done, expanded, cur, added);
  }

  /** Dequeue without expanding. */
  lemma LayeredSkip(arcs: Arcs, seeds: set<RoleId>, base: nat, cap: Option<nat>,
                    level: map<RoleId, nat>, queue: seq<RoleId>, done: set<RoleId>, expanded: set<RoleId>)
    requires Layered(arcs, seeds, base, cap, level, queue, done, expanded)
    requires queue != [] && !Expands(cap, DepthOf(level, queue[0]))
    ensures Layered(arcs, seeds, base, cap, level, queue[1..], done + {queue[0]}, expanded)
  {
    assert queue[0] in queue;
    PendingStep(level, queue, done, [], 0);
    SortedStep(level, queue, []);
    assert queue[1..] + [] == queue[1..];
    assert Found(level, [], 0) == level == Found(level, [], DepthOf(level, queue[0]) + 1);
  }

  lemma LayeredStart(arcs: Arcs, seeds: seq<RoleId>, base: nat, cap: Option<nat>)
    requires cap.Some? ==> base <= cap.value
    ensures Layered(arcs, Elems(seeds), base, cap, Seeded(seeds, base), seeds, {}, {})
  {
    var level := Seeded(seeds, base);
    AscendingAppend(level, level, [], seeds, base);
    assert [] + seeds == seeds;
    forall s ensures Settled(arcs, Elems(seeds), base, level, s) {
      ReachZero(arcs, s);
    }
    if seeds != [] {
      assert seeds[0] in seeds;
    }
  }

  /** A search keeps its invariant to the end. */
  lemma {:induction false} ExploreLayered(m: Neighbours, arcs: Arcs, seeds: set<RoleId>, base: nat, cap: Option<nat>,
                                          level: map<RoleId, nat>, queue: seq<RoleId>,
                                          done: set<RoleId>, expanded: set<RoleId>)
    returns (done': set<RoleId>, expanded': set<RoleId>)
    requires Represents(m, arcs) && Layered(arcs, seeds, base, cap, level, queue, done, expanded)
    ensures Layered(arcs, seeds, base, cap, Explore(m, cap, level, queue), [], done', expanded')
    decreases Nodes(m) - level.Keys, |queue|
  {
    if queue == [] {
      done', expanded' := done, expanded;
    } else if !Expands(cap, DepthOf(level, queue[0])) {
      LayeredSkip(arcs, seeds, base, cap, level, queue, done, expanded);
      done', expanded' := ExploreLayered(m, arcs, seeds, base, cap, level, queue[1..], done + {queue[0]}, expanded);
    } else {
      var cur, n := queue[0], DepthOf(level, queue[0]) + 1;
      var added := Fresh(Next(m, cur), level.Keys);
      LayeredExpand(m, arcs, seeds, base, cap, level, queue, done, expanded);
      TurnShrinks(m, level.Keys, cur);
      FoundKeys(level, Next(m, cur), n);
      done', expanded' := ExploreLayered(m, arcs, seeds, base, cap, Found(level, added, n),
                                         queue[1..] + added, done + {cur}, expanded + {cur});
    }
  }

  /** A walk whose inner roles all get expanded is tracked by the levels. */
  lemma {:induction false} LevelsBoundWalk(arcs: Arcs, level: map<RoleId, nat>, expanded: set<RoleId>,
                                           base: nat, cap: Option<nat>, p: seq<RoleId>)
    requires IsWalk(arcs, p) && (|p| > 1 ==> Expands(cap, base + |p| - 2))
    requires p[0] in level && level[p[0]] == base
    requires Covered(arcs, level, expanded)
    requires forall x :: x in level && Expands(cap, level[x]) ==> x in expanded
    ensures p[|p| - 1] in level && level[p[|p| - 1]] <= base + |p| - 1
    decreases |p|
  {
    if |p| > 1 {
      var n := |p| - 2;
      SubWalk(arcs, p, 0, n);
      var q := p[0..n + 1];
      assert q[|q| - 1] == p[n];
      LevelsBoundWalk(arcs, level, expanded, base, cap, q);
      assert p[n] in level && level[p[n]] <= base + n;
      assert p[n] in expanded;
      assert (p[n], p[n + 1]) in arcs;
      CoveredAt(arcs, level, expanded, p[n], p[n + 1]);
    }
  }

  /** What one turn of a search does to the roles it reports. */
  lemma ReportGrows(seen: set<RoleId>, result: seq<RoleId>, ns: seq<RoleId>)
    requires seen == Elems(result) && NoDup(result)
    ensures NoDup(result + Fresh(ns, seen))
    ensures Elems(result + Fresh(ns, seen)) == seen + Elems(ns)
  {
    var added := Fresh(ns, seen);
    FreshFacts(ns, seen);
    var r := result + added;
    forall x ensures x in r <==> x in seen + Elems(ns) {
      assert x in r <==> x in Elems(result) || x in added;
    }
    forall x | x in added ensures x !in result {
      assert x !in Elems(result);
    }
    NoDupAppend(result, added);
  }

  /** A whole search: seeds enter at depth `base`. */
  ghost function Search(m: Neighbours, cap: Option<nat>, seeds: seq<RoleId>, base: nat): map<RoleId, nat> {
    Explore(m, cap, Seeded(seeds, base), seeds)
  }

  /** The search theorem, one way: whatever is found is reached in as many steps as
      its depth says, within the cap. */
  lemma SearchSound(m: Neighbours, arcs: Arcs, cap: Option<nat>, seeds: seq<RoleId>, base: nat, x: RoleId)
    requires Represents(m, arcs) && (cap.Some? ==> base <= cap.value)
    requires x in Search(m, cap, seeds, base)
    ensures var n := Search(m, cap, seeds, base)[x];
            && base <= n && (cap.Some? ==> n <= cap.value)
            && ReachFromAny(arcs, Elems(seeds), x, n - base)
  {
    LayeredStart(arcs, seeds, base, cap);
    var done, expanded := ExploreLayered(m, arcs, Elems(seeds), base, cap, Seeded(seeds, base), seeds, {}, {});
    assert Settled(arcs, Elems(seeds), base, Search(m, cap, seeds, base), x);
  }

  /** The other way: whatever is reached within the cap is found, no deeper. */
  lemma SearchComplete(m: Neighbours, arcs: Arcs, cap: Option<nat>, seeds: seq<RoleId>, base: nat, x: RoleId, n: nat)
    requires Represents(m, arcs) && (cap.Some? ==> base + n <= cap.value)
    requires ReachFromAny(arcs, Elems(seeds), x, n)
    ensures x in Search(m, cap, seeds, base) && Search(m, cap, seeds, base)[x] <= base + n
  {
    LayeredStart(arcs, seeds, base, cap);
    var done, expanded := ExploreLayered(m, arcs, Elems(seeds), base, cap, Seeded(seeds, base), seeds, {}, {});
    var s :| s in seeds && Reach(arcs, s, x, n);
    var p :| WalkFrom(arcs, p, s, x) && |p| == n + 1;
    LevelsBoundWalk(arcs, Search(m, cap, seeds, base), expanded, base, cap, p);
  }

  /** With no cap and one seed, the search computes distances. */
  lemma SearchMeasures(m: Neighbours, arcs: Arcs, seed: RoleId)
    requires Represents(m, arcs)
    ensures forall x :: x in Search(m, None, [seed], 0) <==> Connected(arcs, seed, x)
    ensures forall x :: x in Search(m, None, [seed], 0) ==> IsDistance(arcs, seed, x, Search(m, None, [seed], 0)[x])
  {
    var f := Search(m, None, [seed], 0);
    assert Elems([seed]) == {seed};
    forall x, n: nat | Reach(arcs, seed, x, n) ensures x in f && f[x] <= n {
      assert ReachFromAny(arcs, {seed}, x, n);
      SearchComplete(m, arcs, None, [seed], 0, x, n);
    }
    forall x | x in f ensures Reach(arcs, seed, x, f[x]) {
      SearchSound(m, arcs, None, [seed], 0, x);
    }
  }

  /** Searching from the parents of a role finds what is above it, each at the least
      positive number of steps. */
  lemma SearchAbove(m: Neighbours, arcs: Arcs, seeds: seq<RoleId>, base: nat, role: RoleId, r: RoleId)
    requires Represents(m, arcs) && Elems(seeds) == Elems(Next(m, role))
    ensures r in Search(m, None, seeds, base) <==> Above(arcs, role, r)
    ensures forall n: nat :: n >= 1 && Reach(arcs, role, r, n) ==>
              r in Search(m, None, seeds, base) && Search(m, None, seeds, base)[r] <= base + n - 1
  {
    NextIsSucc(m, arcs, role);
    forall n: nat | n >= 1 && Reach(arcs, role, r, n)
      ensures r in Search(m, None, seeds, base) && Search(m, None, seeds, base)[r] <= base + n - 1
    {
      var s := ReachFirst(arcs, role, r, n);
      SuccIsArc(arcs, role, s);
      assert ReachFromAny(arcs, Elems(seeds), r, n - 1);
      SearchComplete(m, arcs, None, seeds, base, r, n - 1);
    }
    if r in Search(m, None, seeds, base) {
      FoundIsAbove(m, arcs, seeds, base, role, r);
    }
  }

  lemma FoundIsAbove(m: Neighbours, arcs: Arcs, seeds: seq<RoleId>, base: nat, role: RoleId, r: RoleId)
    requires Represents(m, arcs) && Elems(seeds) == Succ(arcs, role)
    requires r in Search(m, None, seeds, base)
    ensures Above(arcs, role, r)
  {
    SearchSound(m, arcs, None, seeds, base, r);
    var n := Search(m, None, seeds, base)[r] - base;
    var s :| s in Elems(seeds) && Reach(arcs, s, r, n);
    SuccIsArc(arcs, role, s);
    ReachArc(arcs, role, s);
    ReachTrans(arcs, role, s, r, 1, n);
  }
}
