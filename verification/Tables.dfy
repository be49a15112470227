/** The database tables the role resolver reads, as values. */
module Tables {
  import opened Walks

  type UserId = int
  type PolicyId = int
  type SourceId = int

  /** One inheritance row: `child` inherits from `parent`. */
  datatype Edge = Edge(child: RoleId, parent: RoleId)

  datatype Member = Member(role: RoleId, user: UserId)

  /** The `assignment_scope` column; any text but the three known ones matches nobody. */
  datatype Scope = AllUsers | OneUser | OneRole | Unknown

  datatype Assignment = Assignment(policy: PolicyId, source: SourceId, scope: Scope,
                                   user: Option<UserId>, role: Option<RoleId>, priority: int)

  datatype Access = Access(source: SourceId, scope: Scope, user: Option<UserId>, role: Option<RoleId>)

  /** `roles` is keyed by the primary key and holds the activity flag; `policies`
      are the policies that exist. */
  datatype Db = Db(roles: map<RoleId, bool>, edges: seq<Edge>, members: seq<Member>,
                   assignments: seq<Assignment>, access: seq<Access>, policies: set<PolicyId>)

  predicate Active(roles: map<RoleId, bool>, r: RoleId) {
    r in roles && roles[r]
  }

  /** Steps from child to parent. */
  ghost function Up(edges: seq<Edge>): Arcs {
    set e | e in edges :: (e.child, e.parent)
  }

  lemma UpIsEdge(edges: seq<Edge>, c: RoleId, p: RoleId)
    ensures (c, p) in Up(edges) <==> Edge(c, p) in edges
  {
    if Edge(c, p) in edges {
      assert (Edge(c, p).child, Edge(c, p).parent) in Up(edges);
    }
  }

  /** Steps from child to parent that end in an active role. */
  ghost function ActiveUp(db: Db): Arcs {
    set e | e in Up(db.edges) && Active(db.roles, e.1)
  }

  ghost function DirectRoles(db: Db, u: UserId): set<RoleId> {
    set m | m in db.members && m.user == u :: m.role
  }

  ghost function ActiveDirect(db: Db, u: UserId): set<RoleId> {
    set r | r in DirectRoles(db, u) && Active(db.roles, r)
  }

  lemma DirectIsMember(db: Db, u: UserId, r: RoleId)
    ensures r in DirectRoles(db, u) <==> Member(r, u) in db.members
  {
    if Member(r, u) in db.members {
      var m := Member(r, u);
      assert m.user == u && m in db.members;
    }
  }

  /** A chain of roles through which `u` holds `r`: it starts at a direct
      membership, climbs inheritance edges, meets active roles only, and names at
      most ten roles (nine edges). */
  ghost predicate Chain(db: Db, u: UserId, r: RoleId, p: seq<RoleId>) {
    && p != []
    && WalkFrom(Up(db.edges), p, p[0], r)
    && p[0] in DirectRoles(db, u)
    && |p| <= 10
    && forall i :: 0 <= i < |p| ==> Active(db.roles, p[i])
  }

  ghost predicate HoldsRole(db: Db, u: UserId, r: RoleId) {
    exists p :: Chain(db, u, r, p)
  }

  /** `r` is `top` or inherits from it, directly or not. */
  ghost predicate Descends(edges: seq<Edge>, r: RoleId, top: RoleId) {
    Connected(Up(edges), r, top)
  }

  /** Members of a role or of any role inheriting from it. */
  ghost predicate MemberBelow(db: Db, top: RoleId, u: UserId) {
    exists r :: r in DirectRoles(db, u) && Descends(db.edges, r, top)
  }
}
