/** Which roles a user holds: the capped search that decides access. */
module UserRoles {
  import opened Walks
  import opened BreadthFirst
  import opened Tables
  import opened Adjacency

  ghost function IsActive(roles: map<RoleId, bool>): RoleId -> bool {
    (r: RoleId) => Active(roles, r)
  }

  /** The active roles of `ns`, in order. */
  ghost function Actives(ns: seq<RoleId>, roles: map<RoleId, bool>): seq<RoleId> {
    Kept(ns, IsActive(roles))
  }

  /** One pass of the loop that enqueues unseen active roles. */
  lemma ActiveStep(ns: seq<RoleId>, k: nat, roles: map<RoleId, bool>, seen: set<RoleId>)
    requires k < |ns|
    ensures var before := Actives(ns[..k], roles);
            var here := Actives(ns[..k + 1], roles);
            var f := Fresh(before, seen);
            if Active(roles, ns[k]) && ns[k] !in seen + Elems(before)
            then Fresh(here, seen) == f + [ns[k]] && Elems(here) == Elems(before) + {ns[k]}
            else Fresh(here, seen) == f && seen + Elems(here) == seen + Elems(before)
  {
    var before, here := Actives(ns[..k], roles), Actives(ns[..k + 1], roles);
    assert ns[..k + 1][..k] == ns[..k];
    if Active(roles, ns[k]) {
      assert here == before + [ns[k]];
      FreshStep(here, |before|, seen);
      assert here[..|before|] == before && here[..|before| + 1] == here;
    }
  }

  lemma ActiveSuccessors(db: Db, m: Neighbours, x: RoleId)
    requires Represents(m, Up(db.edges))
    ensures Elems(Actives(Next(m, x), db.roles)) == Succ(ActiveUp(db), x)
  {
    KeptMeans(Next(m, x), IsActive(db.roles));
    forall y ensures y in Actives(Next(m, x), db.roles) <==> y in Succ(ActiveUp(db), x) {
      SuccIsArc(ActiveUp(db), x, y);
      SuccIsArc(Up(db.edges), x, y);
      assert y in Next(m, x) <==> y in Elems(Next(m, x));
    }
  }

  /** Chains are the walks of at most nine steps from an active direct role along
      edges into active roles. */
  lemma ChainIsCappedReach(db: Db, u: UserId, r: RoleId)
    ensures HoldsRole(db, u, r) <==>
            exists n: nat :: n <= 9 && ReachFromAny(ActiveUp(db), ActiveDirect(db, u), r, n)
  {
    var arcs, seeds := ActiveUp(db), ActiveDirect(db, u);
    if HoldsRole(db, u, r) {
      var p :| Chain(db, u, r, p);
      assert WalkFrom(arcs, p, p[0], r);
      assert Reach(arcs, p[0], r, |p| - 1);
      assert ReachFromAny(arcs, seeds, r, |p| - 1);
    }
    if n: nat :| n <= 9 && ReachFromAny(arcs, seeds, r, n) {
      var s :| s in seeds && Reach(arcs, s, r, n);
      var p :| WalkFrom(arcs, p, s, r) && |p| == n + 1;
      forall i | 0 <= i < |p| ensures Active(db.roles, p[i]) {
        if i > 0 { assert (p[i - 1], p[i]) in arcs; }
      }
      assert WalkFrom(Up(db.edges), p, p[0], r);
      assert Chain(db, u, r, p);
    }
  }

  function RolesOf(members: seq<Member>, u: UserId): seq<RoleId> {
    if members == [] then []
    else
      var before := RolesOf(members[..|members| - 1], u);
      var m := members[|members| - 1];
      if m.user == u then before + [m.role] else before
  }

  lemma {:induction false} RolesOfIsDirect(members: seq<Member>, u: UserId)
    ensures forall r :: r in RolesOf(members, u) <==> Member(r, u) in members
  {
    if members != [] {
      RolesOfIsDirect(members[..|members| - 1], u);
      assert members == members[..|members| - 1] + [members[|members| - 1]];
    }
  }

  lemma SeedsAreActiveDirect(db: Db, u: UserId)
    ensures Elems(Actives(RolesOf(db.members, u), db.roles)) == ActiveDirect(db, u)
  {
    RolesOfIsDirect(db.members, u);
    KeptMeans(RolesOf(db.members, u), IsActive(db.roles));
    forall r
      ensures r in Actives(RolesOf(db.members, u), db.roles) <==> r in ActiveDirect(db, u)
    {
      DirectIsMember(db, u, r);
    }
  }

  /** Insert into `visited`; if that was new and the role is active, report and enqueue it. */
  method EnqueueActive(ns: seq<RoleId>, roles: map<RoleId, bool>, depth: nat, visited0: set<RoleId>,
                       queue0: seq<(RoleId, nat)>, result0: seq<RoleId>, ghost active: seq<RoleId>)
    returns (visited: set<RoleId>, queue: seq<(RoleId, nat)>, result: seq<RoleId>)
    requires active == Actives(ns, roles)
    ensures visited == visited0 + Elems(active)
    ensures queue == queue0 + Tagged(Fresh(active, visited0), depth)
    ensures result == result0 + Fresh(active, visited0)
  {
    visited, queue, result := visited0, queue0, result0;
    for k := 0 to |ns|
      invariant visited == visited0 + Elems(Actives(ns[..k], roles))
      invariant queue == queue0 + Tagged(Fresh(Actives(ns[..k], roles), visited0), depth)
      invariant result == result0 + Fresh(Actives(ns[..k], roles), visited0)
    {
      ActiveStep(ns, k, roles, visited0);
      ghost var f := Fresh(Actives(ns[..k], roles), visited0);
      TaggedPush(f, ns[k], depth);
      PushAfter(queue0, Tagged(f, depth), (ns[k], depth));
      PushAfter(result0, f, ns[k]);
      var role := ns[k];
      if role in roles && roles[role] && role !in visited {
        visited := visited + {role};
        result := result + [role];
        queue := queue + [(role, depth)];
      }
    }
    assert ns[..|ns|] == ns;
  }

  /** The parent map as the search sees it: inactive parents are not there. */
  ghost function ActiveMap(m: Neighbours, roles: map<RoleId, bool>): Neighbours {
    map x | x in m :: Actives(m[x], roles)
  }

  lemma ActiveNext(m: Neighbours, roles: map<RoleId, bool>, x: RoleId)
    ensures Actives(Next(m, x), roles) == Next(ActiveMap(m, roles), x)
  {
  }

  lemma ActiveMapRepresents(db: Db, m: Neighbours)
    requires Represents(m, Up(db.edges))
    ensures Represents(ActiveMap(m, db.roles), ActiveUp(db))
  {
    forall x ensures Elems(Next(ActiveMap(m, db.roles), x)) == Succ(ActiveUp(db), x) {
      ActiveSuccessors(db, m, x);
    }
  }

  const MAX_INHERITANCE_DEPTH: nat := 10

  const CAP: Option<nat> := Some(MAX_INHERITANCE_DEPTH)

  /** What the capped search finds is what the user holds. */
  lemma SearchResolves(db: Db, u: UserId, parentMap: Neighbours, seeds: seq<RoleId>, result: seq<RoleId>)
    requires Represents(parentMap, Up(db.edges))
    requires Elems(seeds) == Elems(Actives(RolesOf(db.members, u), db.roles))
    requires Elems(result) == Search(ActiveMap(parentMap, db.roles), CAP, seeds, 1).Keys
    ensures forall r :: r in result <==> HoldsRole(db, u, r)
  {
    var m := ActiveMap(parentMap, db.roles);
    SeedsAreActiveDirect(db, u);
    ActiveMapRepresents(db, parentMap);
    forall r ensures r in result <==> HoldsRole(db, u, r) {
      ChainIsCappedReach(db, u, r);
      assert r in result <==> r in Elems(result);
      if r in Search(m, CAP, seeds, 1) {
        SearchSound(m, ActiveUp(db), CAP, seeds, 1, r);
      }
      if n: nat :| n <= 9 && ReachFromAny(ActiveUp(db), ActiveDirect(db, u), r, n) {
        SearchComplete(m, ActiveUp(db), CAP, seeds, 1, r, n);
      }
    }
  }

  /** All roles a user holds, directly or by inheritance. */
  method ResolveUserRoles(db: Db, u: UserId) returns (result: seq<RoleId>)
    ensures NoDup(result)
    ensures forall r :: r in result <==> HoldsRole(db, u, r)
  {
    var direct := RolesOf(db.members, u);
    if direct == [] {
      NobodyWithoutMembership(db, u);
      return [];
    }
    var parentMap := BuildParentMap(db.edges);
    var visited, queue;
    ghost var active := Actives(direct, db.roles);
    visited, queue, result := EnqueueActive(direct, db.roles, 1, {}, [], [], active);
    ghost var seeds, m := result, ActiveMap(parentMap, db.roles);
    ghost var goal, level, ids := Search(m, CAP, seeds, 1), Seeded(seeds, 1), seeds;
    SeedsEnqueued(active, visited, queue, seeds);
    TracksStart(m, CAP, seeds, 1, visited, queue);

    while queue != []
      invariant Tracks(m, CAP, goal, level, ids, visited, queue)
      invariant visited == Elems(result) && NoDup(result)
      decreases Nodes(m) - visited, |queue|
    {
      var current, depth := queue[0].0, queue[0].1;
      if depth >= MAX_INHERITANCE_DEPTH {
        TracksSkip(m, CAP, goal, level, ids, visited, queue);
        queue, ids := queue[1..], ids[1..];
      } else {
        var parents := Next(parentMap, current);
        ghost var queue0, visited0, ns := queue, visited, Next(m, current);
        ReportGrows(visited, result, ns);
        ActiveNext(parentMap, db.roles, current);
        visited, queue, result := EnqueueActive(parents, db.roles, depth + 1, visited, queue[1..], result, ns);
        level, ids := TracksExpand(m, CAP, goal, level, ids, visited0, queue0, current, depth, ns, visited, queue);
      }
    }
    assert level == goal;
    SearchResolves(db, u, parentMap, seeds, result);
  }

  lemma SeedsEnqueued(active: seq<RoleId>, visited: set<RoleId>, queue: seq<(RoleId, nat)>, seeds: seq<RoleId>)
    requires visited == {} + Elems(active)
    requires queue == [] + Tagged(Fresh(active, {}), 1)
    requires seeds == [] + Fresh(active, {})
    ensures visited == Elems(seeds) == Elems(active) && NoDup(seeds)
    ensures queue == Tagged(seeds, 1)
  {
    ReportGrows({}, [], active);
    assert seeds == Fresh(active, {});
  }

  lemma NobodyWithoutMembership(db: Db, u: UserId)
    requires RolesOf(db.members, u) == []
    ensures forall r :: !HoldsRole(db, u, r)
  {
    RolesOfIsDirect(db.members, u);
    forall r, p ensures !Chain(db, u, r, p) {
      if p != [] { DirectIsMember(db, u, p[0]); }
    }
  }
}
