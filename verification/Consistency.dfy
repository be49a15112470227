/** How the searches agree: whoever holds a role is among those the role affects, access
    only grows with the tables, and a change at one role is invisible to everyone outside
    the set of users the invalidation step rebuilds. */
module Consistency {
  import opened Walks
  import opened Tables
  import opened Policies
  import M = Members

  // ----- upward and downward searches -----

  /** Whoever holds a role is among the users it affects. */
  lemma HolderIsAffected(db: Db, u: UserId, r: RoleId)
    requires HoldsRole(db, u, r)
    ensures MemberBelow(db, r, u)
  {
    var p :| Chain(db, u, r, p);
    WalkGives(Up(db.edges), p);
    assert Descends(db.edges, p[0], r);
  }

  /** Every role that a membership or an edge mentions is active. */
  ghost predicate AllActive(db: Db) {
    && (forall m :: m in db.members ==> Active(db.roles, m.role))
    && (forall e :: e in db.edges ==> Active(db.roles, e.parent))
  }

  /** With all roles active, holding a role means a membership at most nine edges below it. */
  lemma HeldIffWithinNine(db: Db, u: UserId, r: RoleId)
    requires AllActive(db)
    ensures HoldsRole(db, u, r) <==>
            exists s, n: nat :: s in DirectRoles(db, u) && n <= 9 && Reach(Up(db.edges), s, r, n)
  {
    if p :| Chain(db, u, r, p) {
      WalkGives(Up(db.edges), p);
      var n := |p| - 1;
      assert p[0] in DirectRoles(db, u) && n <= 9 && Reach(Up(db.edges), p[0], r, n);
    }
    if s, n: nat :| s in DirectRoles(db, u) && n <= 9 && Reach(Up(db.edges), s, r, n) {
      var p :| WalkFrom(Up(db.edges), p, s, r) && |p| == n + 1;
      DirectIsMember(db, u, s);
      forall i | 0 <= i < |p| ensures Active(db.roles, p[i]) {
        if i > 0 {
          assert (p[i - 1], p[i]) in Up(db.edges);
          UpIsEdge(db.edges, p[i - 1], p[i]);
        }
      }
      assert Chain(db, u, r, p);
    }
  }

  /** With all roles active and no shortest chain over nine edges, the searches are dual. */
  lemma SearchesAreDual(db: Db, u: UserId, r: RoleId)
    requires AllActive(db) && DistancesWithin(Up(db.edges), 9)
    ensures HoldsRole(db, u, r) <==> MemberBelow(db, r, u)
  {
    if HoldsRole(db, u, r) {
      HolderIsAffected(db, u, r);
    }
    if s :| s in DirectRoles(db, u) && Descends(db.edges, s, r) {
      var n: nat :| n <= 9 && Reach(Up(db.edges), s, r, n);
      HeldIffWithinNine(db, u, r);
    }
  }

  // ----- monotonicity -----

  /** `more` has at least the active roles, edges and memberships of `db`. */
  ghost predicate Grows(db: Db, more: Db) {
    && (forall r :: Active(db.roles, r) ==> Active(more.roles, r))
    && (forall e :: e in db.edges ==> e in more.edges)
    && (forall m :: m in db.members ==> m in more.members)
    && more.assignments == db.assignments && more.access == db.access
  }

  lemma HeldRolesGrow(db: Db, more: Db, u: UserId, r: RoleId)
    requires Grows(db, more) && HoldsRole(db, u, r)
    ensures HoldsRole(more, u, r)
  {
    var p :| Chain(db, u, r, p);
    DirectIsMember(db, u, p[0]);
    DirectIsMember(more, u, p[0]);
    assert Up(db.edges) <= Up(more.edges);
    assert Chain(more, u, r, p);
  }

  lemma ScopeGrows(db: Db, more: Db, scope: Scope, user: Option<UserId>, role: Option<RoleId>, u: UserId)
    requires Grows(db, more) && ScopeCovers(db, scope, user, role, u)
    ensures ScopeCovers(more, scope, user, role, u)
  {
    if scope.OneRole? {
      HeldRolesGrow(db, more, u, role.value);
    }
  }

  lemma AccessGrows(db: Db, more: Db, u: UserId, ds: SourceId)
    requires Grows(db, more) && HasAccess(db, u, ds)
    ensures HasAccess(more, u, ds)
  {
    var row :| row in db.access && row.source == ds && ScopeCovers(db, row.scope, row.user, row.role, u);
    ScopeGrows(db, more, row.scope, row.user, row.role, u);
    assert row in more.access;
  }

  /** Growing never drops an effective policy and never raises its priority number. */
  lemma PoliciesGrow(db: Db, more: Db, u: UserId, ds: SourceId,
                     best: map<PolicyId, Assignment>, best': map<PolicyId, Assignment>)
    requires Grows(db, more) && Effective(db, u, ds, best) && Effective(more, u, ds, best')
    ensures forall p :: p in best ==> p in best' && best'[p].priority <= best[p].priority
  {
    forall p | p in best ensures p in best' && best'[p].priority <= best[p].priority {
      ChosenRow(db, u, ds, best, p);
      var row := best[p];
      ScopeGrows(db, more, row.scope, row.user, row.role, u);
      LeastPriority(more, u, ds, best', row);
    }
  }

  // ----- invalidation -----

  /** The role graphs differ at most in role `r`: its activity, the edges that touch it,
      its memberships. */
  ghost predicate AgreeAwayFrom(db: Db, db': Db, r: RoleId) {
    && (forall x :: x != r ==> (Active(db.roles, x) <==> Active(db'.roles, x)))
    && (forall e: Edge :: e.child != r && e.parent != r ==> (e in db.edges <==> e in db'.edges))
    && (forall m: Member :: m.role != r ==> (m in db.members <==> m in db'.members))
  }

  lemma AgreeSymmetric(db: Db, db': Db, r: RoleId)
    requires AgreeAwayFrom(db, db', r)
    ensures AgreeAwayFrom(db', db, r)
  {
  }

  lemma OnChainIsAffected(db: Db, u: UserId, x: RoleId, p: seq<RoleId>, k: nat)
    requires Chain(db, u, x, p) && k < |p|
    ensures MemberBelow(db, p[k], u)
  {
    SubWalk(Up(db.edges), p, 0, k);
    assert Descends(db.edges, p[0], p[k]);
  }

  /** Users the role does not affect hold their roles through chains that avoid it. */
  lemma ChainAvoids(db: Db, u: UserId, r: RoleId, x: RoleId, p: seq<RoleId>)
    requires Chain(db, u, x, p) && !MemberBelow(db, r, u)
    ensures r !in p
  {
    if k :| 0 <= k < |p| && p[k] == r {
      OnChainIsAffected(db, u, x, p, k);
    }
  }

  lemma ChainSurvives(db: Db, db': Db, u: UserId, r: RoleId, x: RoleId, p: seq<RoleId>)
    requires AgreeAwayFrom(db, db', r) && Chain(db, u, x, p) && r !in p
    ensures Chain(db', u, x, p)
  {
    DirectIsMember(db, u, p[0]);
    DirectIsMember(db', u, p[0]);
    assert p[0] in p;
    var arcs, arcs' := Up(db.edges), Up(db'.edges);
    forall i, j | 0 <= i < |p| - 1 && j == i + 1 ensures (p[i], p[j]) in arcs' {
      assert (p[i], p[j]) in arcs;
      assert p[i] in p && p[j] in p;
      UpIsEdge(db.edges, p[i], p[j]);
      UpIsEdge(db'.edges, p[i], p[j]);
      assert Edge(p[i], p[j]) in db.edges;
    }
    forall i | 0 <= i < |p| ensures Active(db'.roles, p[i]) {
      assert p[i] in p;
    }
  }

  /** A change at `r` leaves the roles of everyone it does not affect, before or after, alone. */
  lemma UnaffectedKeepRoles(db: Db, db': Db, r: RoleId, u: UserId, x: RoleId)
    requires AgreeAwayFrom(db, db', r)
    requires !MemberBelow(db, r, u) && !MemberBelow(db', r, u)
    ensures HoldsRole(db, u, x) <==> HoldsRole(db', u, x)
  {
    if p :| Chain(db, u, x, p) {
      ChainAvoids(db, u, r, x, p);
      ChainSurvives(db, db', u, r, x, p);
    }
    if p :| Chain(db', u, x, p) {
      ChainAvoids(db', u, r, x, p);
      AgreeSymmetric(db, db', r);
      ChainSurvives(db', db, u, r, x, p);
    }
  }

  /** Dropping rows that do not apply leaves the effective rows alone. */
  lemma {:induction false} BestSurvives(db: Db, db': Db, u: UserId, ds: SourceId,
                                        rows: seq<Assignment>, keep: Assignment -> bool)
    requires forall row :: Applies(db, u, ds, row) <==> Applies(db', u, ds, row)
    requires forall row :: row in rows && Applies(db, u, ds, row) ==> keep(row)
    ensures Best(db', u, ds, Kept(rows, keep)) == Best(db, u, ds, rows)
    decreases rows
  {
    if rows != [] {
      var init, a := rows[..|rows| - 1], rows[|rows| - 1];
      assert a in rows;
      BestSurvives(db, db', u, ds, init, keep);
      assert keep(a) ==> Kept(rows, keep)[..|Kept(rows, keep)| - 1] == Kept(init, keep);
    }
  }

  lemma {:induction false} BestSame(db: Db, db': Db, u: UserId, ds: SourceId, rows: seq<Assignment>)
    requires forall row :: Applies(db, u, ds, row) <==> Applies(db', u, ds, row)
    ensures Best(db', u, ds, rows) == Best(db, u, ds, rows)
    decreases rows
  {
    if rows != [] { BestSame(db, db', u, ds, rows[..|rows| - 1]); }
  }

  /** A user gets the same from both databases: roles, access and effective assignments. */
  ghost predicate SameGrants(db: Db, db': Db, u: UserId, ds: SourceId) {
    && (forall x :: HoldsRole(db, u, x) <==> HoldsRole(db', u, x))
    && (HasAccess(db, u, ds) <==> HasAccess(db', u, ds))
    && (forall best :: Effective(db, u, ds, best) <==> Effective(db', u, ds, best))
  }

  lemma RolesDecideEffective(db: Db, db': Db, u: UserId, ds: SourceId)
    requires forall x :: HoldsRole(db, u, x) <==> HoldsRole(db', u, x)
    requires db'.assignments == db.assignments
    ensures forall best :: Effective(db, u, ds, best) <==> Effective(db', u, ds, best)
  {
    BestSame(db, db', u, ds, db.assignments);
    forall best ensures Effective(db, u, ds, best) <==> Effective(db', u, ds, best) {
      EffectiveIsBest(db, u, ds, best);
      EffectiveIsBest(db', u, ds, best);
    }
  }

  /** What a user gets is decided by the roles they hold. */
  lemma RolesDecide(db: Db, db': Db, u: UserId, ds: SourceId)
    requires forall x :: HoldsRole(db, u, x) <==> HoldsRole(db', u, x)
    requires db'.assignments == db.assignments && db'.access == db.access
    ensures SameGrants(db, db', u, ds)
  {
    RolesDecideEffective(db, db', u, ds);
  }

  /** Nothing an unaffected user gets depends on the change: invalidation is complete. */
  lemma InvalidationComplete(db: Db, db': Db, r: RoleId, u: UserId, ds: SourceId)
    requires AgreeAwayFrom(db, db', r) && db'.assignments == db.assignments && db'.access == db.access
    requires !MemberBelow(db, r, u) && !MemberBelow(db', r, u)
    ensures SameGrants(db, db', u, ds)
  {
    forall x ensures HoldsRole(db, u, x) <==> HoldsRole(db', u, x) {
      UnaffectedKeepRoles(db, db', r, u, x);
    }
    RolesDecide(db, db', u, ds);
  }

  /** The affected users do not depend on the role's activity nor on its own parents, so
      one evaluation, before or after such a change, suffices. */
  lemma AffectedUnchangedByOwnParents(db: Db, db': Db, r: RoleId, u: UserId)
    requires db'.members == db.members
    requires forall e: Edge :: e.child != r ==> (e in db.edges <==> e in db'.edges)
    ensures MemberBelow(db, r, u) <==> MemberBelow(db', r, u)
  {
    assert DirectRoles(db, u) == DirectRoles(db', u);
    forall s ensures Descends(db.edges, s, r) <==> Descends(db'.edges, s, r) {
      if n :| Reach(Up(db.edges), s, r, n) {
        DescentAvoidsOwnParents(db.edges, db'.edges, s, r, n);
      }
      if n :| Reach(Up(db'.edges), s, r, n) {
        DescentAvoidsOwnParents(db'.edges, db.edges, s, r, n);
      }
    }
  }

  /** A walk down from a role can be cut at its first visit there. */
  lemma {:induction false} DescentAvoidsOwnParents(edges: seq<Edge>, edges': seq<Edge>, s: RoleId, r: RoleId, n: nat)
    requires Reach(Up(edges), s, r, n)
    requires forall e: Edge :: e.child != r ==> (e in edges <==> e in edges')
    ensures Descends(edges', s, r)
    decreases n
  {
    var arcs' := Up(edges');
    if s == r {
      ReachZero(arcs', r);
    } else if n == 0 {
      ReachZeroIsEqual(Up(edges), s, r);
    } else {
      var y := ReachFirst(Up(edges), s, r, n);
      UpIsEdge(edges, s, y);
      UpIsEdge(edges', s, y);
      assert Edge(s, y) in edges;
      DescentAvoidsOwnParents(edges, edges', y, r, n - 1);
      var m :| Reach(arcs', y, r, m);
      ReachArc(arcs', s, y);
      ReachTrans(arcs', s, y, r, 1, m);
    }
  }

  // ----- the changes the role handlers make -----

  /** Deleting a role takes its memberships and the edges on both sides with it; `cascades`
      says whether assignment and access rows that name it go too. `SetAccess` replaces the
      roles with access to a datasource and is the one change not at a role. */
  datatype Change = SetActive(active: bool) | AddEdge(parent: RoleId) | DropEdge(parent: RoleId)
                  | AddMembers(users: seq<UserId>) | DropMember(user: UserId) | DropRole(cascades: bool)
                  | SetAccess(source: SourceId, roles: seq<RoleId>)

  ghost function MembersOf(r: RoleId, users: seq<UserId>): seq<Member> {
    if users == [] then [] else MembersOf(r, users[..|users| - 1]) + [Member(r, users[|users| - 1])]
  }

  lemma {:induction false} MembersOfMeans(r: RoleId, users: seq<UserId>)
    ensures forall m :: m in MembersOf(r, users) <==> m.role == r && m.user in users
    decreases users
  {
    if users != [] {
      MembersOfMeans(r, users[..|users| - 1]);
      assert users == users[..|users| - 1] + [users[|users| - 1]];
    }
  }

  ghost predicate RoleAccess(row: Access, source: SourceId) {
    row.source == source && row.scope.OneRole?
  }

  ghost function AccessOf(source: SourceId, roles: seq<RoleId>): seq<Access> {
    if roles == [] then []
    else AccessOf(source, roles[..|roles| - 1]) + [Access(source, OneRole, None, Some(roles[|roles| - 1]))]
  }

  lemma {:induction false} AccessOfMeans(source: SourceId, roles: seq<RoleId>)
    ensures forall row :: row in AccessOf(source, roles) <==>
              row.role.Some? && row.role.value in roles && row == Access(source, OneRole, None, row.role)
    decreases roles
  {
    if roles != [] {
      AccessOfMeans(source, roles[..|roles| - 1]);
      assert roles == roles[..|roles| - 1] + [roles[|roles| - 1]];
    }
  }

  /** The role is given access to the datasource by a row. */
  ghost predicate Named(db: Db, source: SourceId, r: RoleId) {
    exists row :: row in db.access && RoleAccess(row, source) && row.role == Some(r)
  }

  ghost function AvoidsEdge(r: RoleId): Edge -> bool {
    (e: Edge) => e.child != r && e.parent != r
  }

  ghost function AvoidsMember(r: RoleId): Member -> bool {
    (m: Member) => m.role != r
  }

  ghost function AvoidsAssignment(r: RoleId): Assignment -> bool {
    (a: Assignment) => a.role != Some(r)
  }

  ghost function AvoidsAccess(r: RoleId): Access -> bool {
    (a: Access) => a.role != Some(r)
  }

  ghost function OtherAccess(source: SourceId): Access -> bool {
    (a: Access) => !RoleAccess(a, source)
  }

  ghost function Changed(db: Db, r: RoleId, c: Change): Db {
    match c
    case SetActive(active) => db.(roles := db.roles[r := active])
    case AddEdge(parent) => db.(edges := db.edges + [Edge(r, parent)])
    case DropEdge(parent) => db.(edges := Without(db.edges, Edge(r, parent)))
    case AddMembers(users) => db.(members := db.members + MembersOf(r, users))
    case DropMember(user) => db.(members := Without(db.members, Member(r, user)))
    case DropRole(cascades) =>
      var graph := db.(roles := db.roles - {r}, edges := Kept(db.edges, AvoidsEdge(r)),
                       members := Kept(db.members, AvoidsMember(r)));
      if cascades then graph.(assignments := Kept(db.assignments, AvoidsAssignment(r)),
                              access := Kept(db.access, AvoidsAccess(r)))
      else graph
    case SetAccess(source, roles) => db.(access := Kept(db.access, OtherAccess(source)) + AccessOf(source, roles))
  }

  /** Whose sessions the handler rebuilds: for a membership change the users named; for an
      access change those affected by a role that had or gets access; otherwise the users the
      role affects, collected after the change, or before it for a removed edge or role. */
  ghost predicate Rebuilt(db: Db, r: RoleId, c: Change, u: UserId) {
    match c
    case SetActive(_) => MemberBelow(Changed(db, r, c), r, u)
    case AddEdge(_) => MemberBelow(Changed(db, r, c), r, u)
    case DropEdge(_) => MemberBelow(db, r, u)
    case AddMembers(users) => u in users
    case DropMember(user) => u == user
    case DropRole(_) => MemberBelow(db, r, u)
    case SetAccess(source, roles) =>
      exists x :: (Named(db, source, x) || x in roles) && MemberBelow(Changed(db, r, c), x, u)
  }

  /** What each change does to the tables, row by row. */
  ghost predicate Does(db: Db, db': Db, r: RoleId, c: Change) {
    match c
    case SetActive(active) =>
      && db' == db.(roles := db'.roles) && (Active(db'.roles, r) <==> active)
      && forall x :: x != r ==> (Active(db'.roles, x) <==> Active(db.roles, x))
    case AddEdge(parent) =>
      db' == db.(edges := db'.edges) && forall e :: e in db'.edges <==> e in db.edges || e == Edge(r, parent)
    case DropEdge(parent) =>
      db' == db.(edges := db'.edges) && forall e :: e in db'.edges <==> e in db.edges && e != Edge(r, parent)
    case AddMembers(users) =>
      && db' == db.(members := db'.members)
      && forall m :: m in db'.members <==> m in db.members || (m.role == r && m.user in users)
    case DropMember(user) =>
      db' == db.(members := db'.members) && forall m :: m in db'.members <==> m in db.members && m != Member(r, user)
    case DropRole(cascades) =>
      && db'.policies == db.policies && !Active(db'.roles, r)
      && (forall x :: x != r ==> (Active(db'.roles, x) <==> Active(db.roles, x)))
      && (forall e :: e in db'.edges <==> e in db.edges && e.child != r && e.parent != r)
      && (forall m :: m in db'.members <==> m in db.members && m.role != r)
      && (forall row :: row in db'.assignments <==> row in db.assignments && !(cascades && row.role == Some(r)))
      && (forall row :: row in db'.access <==> row in db.access && !(cascades && row.role == Some(r)))
    case SetAccess(source, roles) =>
      && db' == db.(access := db'.access)
      && forall row :: row in db'.access <==>
           || (row in db.access && !(row.source == source && row.scope == OneRole))
           || (row.role.Some? && row.role.value in roles && row == Access(source, OneRole, None, row.role))
  }

  lemma ChangeDoes(db: Db, r: RoleId, c: Change)
    ensures Does(db, Changed(db, r, c), r, c)
  {
    match c
    case SetActive(_) =>
    case AddEdge(_) =>
    case DropEdge(parent) => WithoutMeans(db.edges, Edge(r, parent));
    case AddMembers(users) => MembersOfMeans(r, users);
    case DropMember(user) => WithoutMeans(db.members, Member(r, user));
    case DropRole(_) =>
      KeptMeans(db.edges, AvoidsEdge(r));
      KeptMeans(db.members, AvoidsMember(r));
      KeptMeans(db.assignments, AvoidsAssignment(r));
      KeptMeans(db.access, AvoidsAccess(r));
    case SetAccess(source, roles) =>
      KeptMeans(db.access, OtherAccess(source));
      AccessOfMeans(source, roles);
  }

  /** The roles with access to the datasource. */
  function NamedRoles(rows: seq<Access>, source: SourceId): seq<RoleId> {
    if rows == [] then []
    else
      var before, row := NamedRoles(rows[..|rows| - 1], source), rows[|rows| - 1];
      if row.source == source && row.scope.OneRole? && row.role.Some? then before + [row.role.value] else before
  }

  lemma {:induction false} NamedRolesMeans(rows: seq<Access>, source: SourceId)
    ensures forall x :: x in NamedRoles(rows, source) <==>
              exists row :: row in rows && RoleAccess(row, source) && row.role == Some(x)
    decreases rows
  {
    if rows != [] {
      NamedRolesMeans(rows[..|rows| - 1], source);
      assert rows == rows[..|rows| - 1] + [rows[|rows| - 1]];
    }
  }

  /** Everybody affected by any of the roles. */
  method MembersOfAll(db: Db, roles: seq<RoleId>) returns (users: set<UserId>)
    ensures forall u :: u in users <==> exists x :: x in roles && MemberBelow(db, x, u)
  {
    users := {};
    for k := 0 to |roles|
      invariant forall u :: u in users <==> exists x :: x in roles[..k] && MemberBelow(db, x, u)
    {
      var more := M.ResolveAllRoleMembers(db, roles[k]);
      users := users + more;
      assert roles[..k + 1] == roles[..k] + [roles[k]];
    }
    assert roles[..|roles|] == roles;
  }

  /** The users the handler rebuilds, from the tables before the change and after it. */
  method UsersToRebuild(db: Db, db': Db, r: RoleId, c: Change) returns (users: set<UserId>)
    requires db' == Changed(db, r, c)
    ensures forall u :: u in users <==> Rebuilt(db, r, c, u)
  {
    match c
    case SetActive(_) => users := M.ResolveAllRoleMembers(db', r);
    case AddEdge(_) => users := M.ResolveAllRoleMembers(db', r);
    case DropEdge(_) => users := M.ResolveAllRoleMembers(db, r);
    case AddMembers(added) => users := Elems(added);
    case DropMember(user) => users := {user};
    case DropRole(_) => users := M.ResolveAllRoleMembers(db, r);
    case SetAccess(source, roles) =>
      var was := NamedRoles(db.access, source);
      NamedRolesMeans(db.access, source);
      users := MembersOfAll(db', was + roles);
  }

  lemma ChangeIsLocal(db: Db, r: RoleId, c: Change)
    ensures AgreeAwayFrom(db, Changed(db, r, c), r)
    ensures c.SetActive? || c.AddEdge? || c.DropEdge? ==>
              && Changed(db, r, c).members == db.members
              && forall e: Edge :: e.child != r ==> (e in db.edges <==> e in Changed(db, r, c).edges)
  {
    ChangeDoes(db, r, c);
  }

  lemma OthersKeepMemberships(db: Db, r: RoleId, c: Change, u: UserId)
    requires (c.AddMembers? && u !in c.users) || (c.DropMember? && c.user != u)
    ensures DirectRoles(Changed(db, r, c), u) == DirectRoles(db, u)
  {
    if c.DropMember? { WithoutMeans(db.members, Member(r, c.user)); } else { MembersOfMeans(r, c.users); }
    forall x ensures x in DirectRoles(Changed(db, r, c), u) <==> x in DirectRoles(db, u) {
      DirectIsMember(db, u, x);
      DirectIsMember(Changed(db, r, c), u, x);
    }
  }

  /** A deleted role affects nobody. */
  lemma DroppedAffectsNobody(db: Db, r: RoleId, cascades: bool, u: UserId)
    ensures !MemberBelow(Changed(db, r, DropRole(cascades)), r, u)
  {
    var db' := Changed(db, r, DropRole(cascades));
    if s :| s in DirectRoles(db', u) && Descends(db'.edges, s, r) {
      DirectIsMember(db', u, s);
      KeptMeans(db.members, AvoidsMember(r));
      var n :| Reach(Up(db'.edges), s, r, n);
      if n == 0 {
        ReachZeroIsEqual(Up(db'.edges), s, r);
      } else {
        var y := ReachLast(Up(db'.edges), s, r, n);
        UpIsEdge(db'.edges, y, r);
        KeptMeans(db.edges, AvoidsEdge(r));
      }
    }
  }

  /** Only rows of role scope name the role. The handlers that write rows see to that. */
  ghost predicate NamedInRoleRows(db: Db, r: RoleId) {
    && (forall row :: row in db.assignments && row.role == Some(r) ==> row.scope.OneRole? || row.scope.Unknown?)
    && (forall row :: row in db.access && row.role == Some(r) ==> row.scope.OneRole? || row.scope.Unknown?)
  }

  /** The cascade removes only rows that did not apply to users the role does not affect. */
  lemma DroppedRowsDoNotApply(db: Db, r: RoleId, u: UserId, ds: SourceId)
    requires NamedInRoleRows(db, r) && !MemberBelow(db, r, u)
    ensures forall row :: row in db.assignments && Applies(db, u, ds, row) ==> AvoidsAssignment(r)(row)
    ensures forall row :: row in db.access && ScopeCovers(db, row.scope, row.user, row.role, u) ==> AvoidsAccess(r)(row)
  {
    if HoldsRole(db, u, r) { HolderIsAffected(db, u, r); }
  }

  lemma CascadeKeepsEffective(db: Db, db': Db, r: RoleId, u: UserId, ds: SourceId, best: map<PolicyId, Assignment>)
    requires NamedInRoleRows(db, r) && !MemberBelow(db, r, u)
    requires forall x :: HoldsRole(db, u, x) <==> HoldsRole(db', u, x)
    requires db'.assignments == Kept(db.assignments, AvoidsAssignment(r))
    ensures Effective(db, u, ds, best) <==> Effective(db', u, ds, best)
  {
    DroppedRowsDoNotApply(db, r, u, ds);
    BestSurvives(db, db', u, ds, db.assignments, AvoidsAssignment(r));
    EffectiveIsBest(db, u, ds, best);
    EffectiveIsBest(db', u, ds, best);
  }

  lemma CascadeKeepsAccess(db: Db, db': Db, r: RoleId, u: UserId, ds: SourceId)
    requires NamedInRoleRows(db, r) && !MemberBelow(db, r, u)
    requires forall x :: HoldsRole(db, u, x) <==> HoldsRole(db', u, x)
    requires db'.access == Kept(db.access, AvoidsAccess(r))
    ensures HasAccess(db, u, ds) <==> HasAccess(db', u, ds)
  {
    DroppedRowsDoNotApply(db, r, u, ds);
    KeptMeans(db.access, AvoidsAccess(r));
    if row :| row in db.access && row.source == ds && ScopeCovers(db, row.scope, row.user, row.role, u) {
      assert row in db'.access && ScopeCovers(db', row.scope, row.user, row.role, u);
    }
  }

  lemma CascadeKeepsOthers(db: Db, db': Db, r: RoleId, u: UserId, ds: SourceId)
    requires NamedInRoleRows(db, r) && !MemberBelow(db, r, u)
    requires forall x :: HoldsRole(db, u, x) <==> HoldsRole(db', u, x)
    requires db'.assignments == Kept(db.assignments, AvoidsAssignment(r)) && db'.access == Kept(db.access, AvoidsAccess(r))
    ensures SameGrants(db, db', u, ds)
  {
    CascadeKeepsAccess(db, db', r, u, ds);
    forall best ensures Effective(db, u, ds, best) <==> Effective(db', u, ds, best) {
      CascadeKeepsEffective(db, db', r, u, ds, best);
    }
  }

  /** Access rows that come or go with an access change cover nobody but the users rebuilt. */
  lemma AccessChangeKeepsOthers(db: Db, r: RoleId, source: SourceId, roles: seq<RoleId>, u: UserId, ds: SourceId)
    requires !Rebuilt(db, r, SetAccess(source, roles), u)
    ensures SameGrants(db, Changed(db, r, SetAccess(source, roles)), u, ds)
  {
    var db' := Changed(db, r, SetAccess(source, roles));
    SameRoles(db, db', u);
    RolesDecideEffective(db, db', u, ds);
    KeptMeans(db.access, OtherAccess(source));
    AccessOfMeans(source, roles);
    forall x | Named(db, source, x) || x in roles ensures !HoldsRole(db, u, x) {
      if HoldsRole(db', u, x) { HolderIsAffected(db', u, x); }
    }
    if row :| row in db.access && row.source == ds && ScopeCovers(db, row.scope, row.user, row.role, u) {
      if RoleAccess(row, source) { assert Named(db, source, row.role.value); }
      assert row in db'.access && ScopeCovers(db', row.scope, row.user, row.role, u);
    }
    if row :| row in db'.access && row.source == ds && ScopeCovers(db', row.scope, row.user, row.role, u) {
      assert row in db.access && ScopeCovers(db, row.scope, row.user, row.role, u);
    }
  }

  /** Whoever the handlers do not rebuild has the same roles, access and effective
      assignments after the change as before. */
  lemma HandlersRebuildEnough(db: Db, r: RoleId, c: Change, u: UserId, ds: SourceId)
    requires !Rebuilt(db, r, c, u)
    requires c == DropRole(true) ==> NamedInRoleRows(db, r)
    ensures SameGrants(db, Changed(db, r, c), u, ds)
  {
    var db' := Changed(db, r, c);
    ChangeIsLocal(db, r, c);
    if c.AddMembers? || c.DropMember? {
      OthersKeepMemberships(db, r, c, u);
      forall x, p ensures Chain(db, u, x, p) <==> Chain(db', u, x, p) {
      }
      RolesDecide(db, db', u, ds);
    } else if c.SetAccess? {
      AccessChangeKeepsOthers(db, r, c.source, c.roles, u, ds);
    } else if c.DropRole? {
      DroppedAffectsNobody(db, r, c.cascades, u);
      forall x ensures HoldsRole(db, u, x) <==> HoldsRole(db', u, x) {
        UnaffectedKeepRoles(db, db', r, u, x);
      }
      if c.cascades { CascadeKeepsOthers(db, db', r, u, ds); } else { RolesDecide(db, db', u, ds); }
    } else {
      AffectedUnchangedByOwnParents(db, db', r, u);
      InvalidationComplete(db, db', r, u, ds);
    }
  }

  /** Rows that still name a deleted role apply to nobody: with or without them, every user
      gets the same. */
  lemma LeftoverRowsAreInert(db: Db, r: RoleId, u: UserId, ds: SourceId)
    requires NamedInRoleRows(db, r)
    ensures SameGrants(Changed(db, r, DropRole(false)), Changed(db, r, DropRole(true)), u, ds)
  {
    var leftover, db' := Changed(db, r, DropRole(false)), Changed(db, r, DropRole(true));
    DroppedAffectsNobody(db, r, false, u);
    SameRoles(leftover, db', u);
    CascadeKeepsOthers(leftover, db', r, u, ds);
  }
}
