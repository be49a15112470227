/** Where the depth limits do and do not hold: removals against the ten-edge bound, and
    the ten-edge guard against the nine-edge resolver. */
module Limits {
  import opened Walks
  import opened Tables
  import opened Edits
  import opened Consistency

  // ----- removals -----

  /** The distance bound survives whatever is removed. */
  ghost predicate BoundSurvivesRemovals(arcs: Arcs) {
    forall sub: Arcs :: sub <= arcs ==> DistancesWithin(sub, 10)
  }

  ghost predicate WalksWithin(arcs: Arcs, n: nat) {
    forall a, b, m: nat :: Reach(arcs, a, b, m) ==> m <= n
  }

  ghost function ArcsOf(p: seq<RoleId>): Arcs {
    if |p| < 2 then {} else ArcsOf(p[..|p| - 1]) + {(p[|p| - 2], p[|p| - 1])}
  }

  lemma {:induction false} ArcsOfMeans(p: seq<RoleId>)
    ensures forall e :: e in ArcsOf(p) <==> exists i :: 0 <= i < |p| - 1 && e == Step(p, i)
    decreases p
  {
    if |p| >= 2 {
      var init := p[..|p| - 1];
      ArcsOfMeans(init);
      forall i | 0 <= i < |init| - 1 ensures Step(init, i) == Step(p, i) {
      }
      forall e | e in ArcsOf(p) ensures exists i :: 0 <= i < |p| - 1 && e == Step(p, i) {
        if e in ArcsOf(init) {
          var i :| 0 <= i < |init| - 1 && e == Step(init, i);
          assert e == Step(p, i);
        } else {
          assert e == Step(p, |p| - 2);
        }
      }
      forall i | 0 <= i < |p| - 1 ensures Step(p, i) in ArcsOf(p) {
        if i < |init| - 1 {
          assert Step(init, i) in ArcsOf(init);
        }
      }
    }
  }

  ghost function Step(p: seq<RoleId>, i: int): (RoleId, RoleId)
    requires 0 <= i < |p| - 1
  {
    (p[i], p[i + 1])
  }

  lemma WalkRolesDiffer(arcs: Arcs, p: seq<RoleId>, i: nat, j: nat)
    requires Acyclic(arcs) && IsWalk(arcs, p) && i < j < |p|
    ensures p[i] != p[j]
  {
    SubWalk(arcs, p, i, j);
    assert !Above(arcs, p[i], p[i]);
  }

  /** Along the arcs of one walk there is only one way to go. */
  lemma {:induction false} OnlyAlongWalk(arcs: Arcs, p: seq<RoleId>, b: RoleId, n: nat)
    requires Acyclic(arcs) && IsWalk(arcs, p) && Reach(ArcsOf(p), p[0], b, n)
    ensures n < |p| && p[n] == b
    decreases n
  {
    if n == 0 {
      ReachZeroIsEqual(ArcsOf(p), p[0], b);
    } else {
      var y := ReachLast(ArcsOf(p), p[0], b, n);
      OnlyAlongWalk(arcs, p, y, n - 1);
      ArcsOfMeans(p);
      var i :| 0 <= i < |p| - 1 && (y, b) == Step(p, i);
      if i < n - 1 {
        WalkRolesDiffer(arcs, p, i, n - 1);
      } else if n - 1 < i {
        WalkRolesDiffer(arcs, p, n - 1, i);
      }
    }
  }

  /** Deleting everything but one long walk leaves its ends that far apart. */
  lemma LongWalkBreaksBound(arcs: Arcs, p: seq<RoleId>)
    requires Acyclic(arcs) && IsWalk(arcs, p) && |p| - 1 > 10
    ensures ArcsOf(p) <= arcs && !DistancesWithin(ArcsOf(p), 10)
  {
    ArcsOfMeans(p);
    forall e | e in ArcsOf(p) ensures e in arcs {
      var i :| 0 <= i < |p| - 1 && e == Step(p, i);
    }
    var sub, last := ArcsOf(p), |p| - 1;
    forall i, j | 0 <= i < |p| - 1 && j == i + 1 ensures (p[i], p[j]) in sub {
      assert Step(p, i) in sub;
    }
    WalkGives(sub, p);
    assert Connected(sub, p[0], p[last]);
    forall m: nat | m <= 10 ensures !Reach(sub, p[0], p[last], m) {
      if Reach(sub, p[0], p[last], m) {
        OnlyAlongWalk(arcs, p, p[last], m);
        WalkRolesDiffer(arcs, p, m, last);
      }
    }
  }

  /** On an acyclic graph the ten-edge distance bound survives all removals exactly when
      no walk, however indirect, has more than ten edges. */
  lemma RemovalsSafeIffWalksShort(arcs: Arcs)
    requires Acyclic(arcs)
    ensures BoundSurvivesRemovals(arcs) <==> WalksWithin(arcs, 10)
  {
    if WalksWithin(arcs, 10) {
      forall sub: Arcs | sub <= arcs ensures DistancesWithin(sub, 10) {
        forall a, b | Connected(sub, a, b) ensures exists m: nat :: m <= 10 && Reach(sub, a, b, m) {
          var n :| Reach(sub, a, b, n);
          ReachMono(sub, arcs, a, b, n);
        }
      }
    } else {
      var a, b, n: nat :| Reach(arcs, a, b, n) && n > 10;
      var p :| WalkFrom(arcs, p, a, b) && |p| == n + 1;
      LongWalkBreaksBound(arcs, p);
    }
  }

  // ----- a chain built from the top down -----
  // The bottom role is a parameter, so that chains are reasoned about by their laws
  // and not unrolled edge by edge.

  const TOP := 11

  /** Edges i -> i+1 for `lo <= i < 11`, the topmost first. */
  ghost function TopChain(lo: int): seq<Edge>
    requires 0 <= lo <= TOP
    decreases TOP - lo
  {
    if lo == TOP then [] else TopChain(lo + 1) + [Edge(lo, lo + 1)]
  }

  lemma {:induction false} TopChainArcs(lo: int)
    requires 0 <= lo <= TOP
    ensures forall x, y :: (x, y) in Up(TopChain(lo)) <==> lo <= x < TOP && y == x + 1
    decreases TOP - lo
  {
    if lo < TOP {
      TopChainArcs(lo + 1);
      UpPush(TopChain(lo + 1), Edge(lo, lo + 1));
    }
  }

  lemma {:induction false} ChainReach(lo: int, a: RoleId, b: RoleId, n: nat)
    requires 0 <= lo <= TOP && Reach(Up(TopChain(lo)), a, b, n)
    ensures b == a + n && (n > 0 ==> lo <= a && b <= TOP)
    decreases n
  {
    if n == 0 {
      ReachZeroIsEqual(Up(TopChain(lo)), a, b);
    } else {
      var y := ReachLast(Up(TopChain(lo)), a, b, n);
      ChainReach(lo, a, y, n - 1);
      TopChainArcs(lo);
    }
  }

  lemma {:induction false} ChainClimb(lo: int, a: RoleId, n: nat)
    requires 0 <= lo <= a && a + n <= TOP
    ensures Reach(Up(TopChain(lo)), a, a + n, n)
    decreases n
  {
    if n == 0 {
      ReachZero(Up(TopChain(lo)), a);
    } else {
      ChainClimb(lo, a, n - 1);
      TopChainArcs(lo);
      ReachExtend(Up(TopChain(lo)), a, a + n - 1, a + n, n - 1);
    }
  }

  lemma EdgeAbsent(edges: seq<Edge>, c: RoleId, p: RoleId)
    requires (c, p) !in Up(edges)
    ensures Edge(c, p) !in edges
  {
    UpIsEdge(edges, c, p);
  }

  /** Each edge of the chain down to role 1 passes the guard. */
  lemma ChainEdgeAdmitted(lo: int)
    requires 1 <= lo < TOP
    ensures Admitted(TopChain(lo + 1), lo + 1, lo)
  {
    var parent, edges := lo + 1, TopChain(lo + 1);
    var arcs := Up(edges);
    TopChainArcs(lo + 1);
    EdgeAbsent(edges, lo, parent);
    forall n: nat ensures !Reach(arcs, parent, lo, n) {
      if Reach(arcs, parent, lo, n) { ChainReach(lo + 1, parent, lo, n); }
    }
    forall x, y, i: nat, j: nat | IsDistance(arcs, parent, x, i) && IsDistance(arcs, y, lo, j)
      ensures i + 1 + j <= 10
    {
      ChainReach(lo + 1, parent, x, i);
      ChainReach(lo + 1, y, lo, j);
    }
  }

  ghost function ChainLog(lo: int): seq<Edit>
    requires 0 <= lo <= TOP
    decreases TOP - lo
  {
    if lo == TOP then [] else ChainLog(lo + 1) + [Add(lo + 1, lo)]
  }

  /** The requests are additions, and none was refused. */
  ghost predicate EachAdmitted(log: seq<Edit>) {
    log != [] ==>
      var init, last := log[..|log| - 1], log[|log| - 1];
      last.Add? && Admitted(Run(init), last.parent, last.child) && EachAdmitted(init)
  }

  lemma {:induction false} AdmittedAreAdds(log: seq<Edit>)
    requires EachAdmitted(log)
    ensures forall e :: e in log ==> e.Add?
    decreases log
  {
    if log != [] {
      AdmittedAreAdds(log[..|log| - 1]);
      assert log == log[..|log| - 1] + [log[|log| - 1]];
    }
  }

  lemma {:induction false} ChainIsRun(lo: int)
    requires 1 <= lo <= TOP
    ensures Run(ChainLog(lo)) == TopChain(lo) && EachAdmitted(ChainLog(lo)) && |ChainLog(lo)| == TOP - lo
    decreases TOP - lo
  {
    if lo < TOP {
      ChainIsRun(lo + 1);
      ChainEdgeAdmitted(lo);
      assert ChainLog(lo)[..|ChainLog(lo)| - 1] == ChainLog(lo + 1);
    }
  }

  // ----- a removal that breaks the bound -----

  /** The chain from role `lo`, with a shortcut from its bottom to its top. */
  ghost function Shortcut(lo: int): seq<Edge>
    requires 0 <= lo <= TOP
  {
    TopChain(lo) + [Edge(lo, TOP)]
  }

  lemma ShortcutArcs(lo: int)
    requires 0 <= lo <= TOP
    ensures forall x, y :: (x, y) in Up(Shortcut(lo)) <==> (lo <= x < TOP && y == x + 1) || (x == lo && y == TOP)
  {
    TopChainArcs(lo);
    UpPush(TopChain(lo), Edge(lo, TOP));
  }

  lemma {:induction false} ShortcutRises(lo: int, a: RoleId, b: RoleId, n: nat)
    requires 0 <= lo < TOP && Reach(Up(Shortcut(lo)), a, b, n)
    ensures b >= a + n && (n > 0 ==> lo <= a && b <= TOP)
    decreases n
  {
    var arcs := Up(Shortcut(lo));
    if n == 0 {
      ReachZeroIsEqual(arcs, a, b);
    } else {
      var y := ReachLast(arcs, a, b, n);
      ShortcutRises(lo, a, y, n - 1);
      ShortcutArcs(lo);
    }
  }

  lemma ShortcutAdmitted(lo: int)
    requires lo == TOP - 10
    ensures Admitted(TopChain(lo), TOP, lo)
  {
    var arcs := Up(TopChain(lo));
    TopChainArcs(lo);
    EdgeAbsent(TopChain(lo), lo, TOP);
    forall n: nat ensures !Reach(arcs, TOP, lo, n) {
      if Reach(arcs, TOP, lo, n) { ChainReach(lo, TOP, lo, n); }
    }
    forall x, y, i: nat, j: nat | IsDistance(arcs, TOP, x, i) && IsDistance(arcs, y, lo, j)
      ensures i + 1 + j <= 10
    {
      ChainReach(lo, TOP, x, i);
      ChainReach(lo, y, lo, j);
    }
  }

  lemma ShortcutShallow(lo: int, x: RoleId, i: nat)
    requires lo == TOP - 10 && IsDistance(Up(Shortcut(lo)), lo, x, i)
    ensures i <= 9
  {
    ShortcutRises(lo, lo, x, i);
    if x == TOP {
      ShortcutArcs(lo);
      ReachArc(Up(Shortcut(lo)), lo, TOP);
    }
  }

  /** Below the shortcut there is room for one more role. */
  lemma BottomAdmitted(lo: int, below: int)
    requires lo == TOP - 10 && below == lo - 1
    ensures Admitted(Shortcut(lo), lo, below)
  {
    var arcs := Up(Shortcut(lo));
    assert Edge(below, lo) !in Shortcut(lo) by {
      ShortcutArcs(lo);
      EdgeAbsent(Shortcut(lo), below, lo);
    }
    forall n: nat ensures !Reach(arcs, lo, below, n) {
      if Reach(arcs, lo, below, n) { ShortcutRises(lo, lo, below, n); }
    }
    forall x, y, i: nat, j: nat | IsDistance(arcs, lo, x, i) && IsDistance(arcs, y, below, j)
      ensures i + 1 + j <= 10
    {
      ShortcutShallow(lo, x, i);
      ShortcutRises(lo, y, below, j);
    }
  }

  /** The twelve additions are all admitted. */
  lemma ShortcutIsRun(lo: int, below: int) returns (log: seq<Edit>)
    requires lo == TOP - 10 && below == lo - 1
    ensures |log| == 12 && EachAdmitted(log) && Run(log) == Shortcut(lo) + [Edge(below, lo)]
  {
    var log0 := ChainLog(lo);
    var log1 := log0 + [Add(TOP, lo)];
    log := log1 + [Add(lo, below)];
    ChainIsRun(lo);
    ShortcutAdmitted(lo);
    BottomAdmitted(lo, below);
    assert log1[..|log1| - 1] == log0 && log[..|log| - 1] == log1;
    assert Run(log1) == Shortcut(lo);
  }

  /** Twelve admitted additions, then one removal: two roles end up eleven edges apart. */
  lemma RemovalBreaksBound(lo: int, below: int) returns (log: seq<Edit>, last: Edit)
    requires lo == TOP - 10 && below == lo - 1
    ensures |log| == 12 && EachAdmitted(log) && last.Remove?
    ensures DistancesWithin(Up(Run(log)), 10)
    ensures IsDistance(Up(Run(log + [last])), below, TOP, 11)
  {
    log := ShortcutIsRun(lo, below);
    last := Remove(TOP, lo);
    AdmittedAreAdds(log);
    AdditionsKeepDistances(log);
    assert (log + [last])[..|log|] == log;
    var cut := Without(Run(log), Edge(lo, TOP));
    assert Run(log + [last]) == cut;
    CutIsLong(lo, below, cut);
  }

  lemma CutIsLong(lo: int, below: int, cut: seq<Edge>)
    requires lo == TOP - 10 && below == lo - 1
    requires cut == Without(Shortcut(lo) + [Edge(below, lo)], Edge(lo, TOP))
    ensures IsDistance(Up(cut), below, TOP, 11)
  {
    CutIsChain(lo, below, cut);
    ChainClimb(below, below, TOP - below);
    forall m: nat | Reach(Up(cut), below, TOP, m) ensures 11 <= m {
      ChainReach(below, below, TOP, m);
    }
  }

  lemma CutIsChain(lo: int, below: int, cut: seq<Edge>)
    requires 0 <= below < lo == below + 1 < TOP - 1
    requires cut == Without(Shortcut(lo) + [Edge(below, lo)], Edge(lo, TOP))
    ensures Up(cut) == Up(TopChain(below))
  {
    var edges := Shortcut(lo) + [Edge(below, lo)];
    WithoutMeans(edges, Edge(lo, TOP));
    ShortcutArcs(lo);
    UpPush(Shortcut(lo), Edge(below, lo));
    TopChainArcs(below);
    forall x, y ensures (x, y) in Up(cut) <==> (x, y) in Up(TopChain(below)) {
      UpIsEdge(cut, x, y);
      UpIsEdge(edges, x, y);
    }
  }

  // ----- the guard admits more than the resolver follows -----

  /** One member at the bottom of the chain; every role of the chain is active. */
  ghost function ChainDb(u: UserId, lo: int): (db: Db)
    requires 0 <= lo <= TOP
    ensures forall e :: e in db.edges ==> Active(db.roles, e.child) && Active(db.roles, e.parent)
  {
    var edges := TopChain(lo);
    var roles := (set e | e in edges :: e.child) + (set e | e in edges :: e.parent);
    Db(map r | r in roles :: true, edges, [Member(lo, u)], [], [], {})
  }

  lemma TopAffects(u: UserId, lo: int)
    requires 0 <= lo <= TOP
    ensures MemberBelow(ChainDb(u, lo), TOP, u)
  {
    DirectIsMember(ChainDb(u, lo), u, lo);
    ChainClimb(lo, lo, TOP - lo);
    assert Descends(ChainDb(u, lo).edges, lo, TOP);
  }

  lemma TopNotHeld(u: UserId, lo: int, p: seq<RoleId>)
    requires lo == TOP - 10
    ensures !Chain(ChainDb(u, lo), u, TOP, p)
  {
    var db := ChainDb(u, lo);
    if Chain(db, u, TOP, p) {
      DirectIsMember(db, u, p[0]);
      WalkGives(Up(db.edges), p);
      ChainReach(lo, p[0], TOP, |p| - 1);
    }
  }

  /** The guard admits a chain of ten edges whose top the bottom's members do not hold,
      although they count as affected by it. */
  lemma GuardAdmitsUnresolved(u: UserId, lo: int) returns (log: seq<Edit>)
    requires lo == TOP - 10
    ensures |log| == 10 && EachAdmitted(log) && ChainDb(u, lo).edges == Run(log)
    ensures MemberBelow(ChainDb(u, lo), TOP, u) && !HoldsRole(ChainDb(u, lo), u, TOP)
  {
    log := ChainLog(lo);
    ChainIsRun(lo);
    TopAffects(u, lo);
    forall p ensures !Chain(ChainDb(u, lo), u, TOP, p) {
      TopNotHeld(u, lo, p);
    }
  }

  /** One edge less, and the top is held. */
  lemma NineEdgesHeld(u: UserId, lo: int)
    requires lo == TOP - 9
    ensures HoldsRole(ChainDb(u, lo), u, TOP)
  {
    var db := ChainDb(u, lo);
    TopChainArcs(lo);
    UpIsEdge(db.edges, lo, lo + 1);
    DirectIsMember(db, u, lo);
    ChainClimb(lo, lo, TOP - lo);
    HeldIffWithinNine(db, u, TOP);
  }
}
