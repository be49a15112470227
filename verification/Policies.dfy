/** Which policy assignments and which datasources a user gets. */
module Policies {
  import opened Walks
  import opened Tables
  import opened UserRoles

  /** The scope test, given the roles the user holds. */
  predicate InScope(scope: Scope, user: Option<UserId>, role: Option<RoleId>, u: UserId, held: set<RoleId>) {
    match scope
    case AllUsers => true
    case OneUser => user == Some(u)
    case OneRole => role.Some? && role.value in held
    case Unknown => false
  }

  ghost predicate ScopeCovers(db: Db, scope: Scope, user: Option<UserId>, role: Option<RoleId>, u: UserId) {
    || scope.AllUsers?
    || (scope.OneUser? && user == Some(u))
    || (scope.OneRole? && role.Some? && HoldsRole(db, u, role.value))
  }

  /** The row assigns its policy to `u` on datasource `ds`. */
  ghost predicate Applies(db: Db, u: UserId, ds: SourceId, row: Assignment) {
    row.source == ds && ScopeCovers(db, row.scope, row.user, row.role, u)
  }

  ghost predicate HasAccess(db: Db, u: UserId, ds: SourceId) {
    exists row :: row in db.access && row.source == ds && ScopeCovers(db, row.scope, row.user, row.role, u)
  }

  /** A row covers everybody, the one user it names, or whoever holds the role it names by some
      chain of active roles; rows of any other scope cover nobody. */
  lemma CoversExactly(db: Db, scope: Scope, user: Option<UserId>, role: Option<RoleId>, u: UserId)
    ensures ScopeCovers(db, scope, user, role, u) <==>
            match scope
            case AllUsers => true
            case OneUser => user == Some(u)
            case OneRole => role.Some? && exists p :: Chain(db, u, role.value, p)
            case Unknown => false
  {
  }

  lemma InScopeIsCovered(db: Db, scope: Scope, user: Option<UserId>, role: Option<RoleId>, u: UserId, held: set<RoleId>)
    requires forall r :: r in held <==> HoldsRole(db, u, r)
    ensures InScope(scope, user, role, u, held) <==> ScopeCovers(db, scope, user, role, u)
  {
  }

  method HeldRoles(db: Db, u: UserId) returns (held: set<RoleId>)
    ensures forall r :: r in held <==> HoldsRole(db, u, r)
  {
    var roles := ResolveUserRoles(db, u);
    held := Elems(roles);
  }

  /** Can the user connect to the datasource? */
  method ResolveDatasourceAccess(db: Db, u: UserId, ds: SourceId) returns (granted: bool)
    ensures granted <==> HasAccess(db, u, ds)
  {
    var held := HeldRoles(db, u);
    for k := 0 to |db.access|
      invariant forall i :: 0 <= i < k ==>
        !(db.access[i].source == ds && ScopeCovers(db, db.access[i].scope, db.access[i].user, db.access[i].role, u))
    {
      var a := db.access[k];
      InScopeIsCovered(db, a.scope, a.user, a.role, u, held);
      if a.source == ds && InScope(a.scope, a.user, a.role, u, held) {
        return true;
      }
    }
    return false;
  }

  /** Of the rows that apply for policy `p`, `row` is the first among those of least priority. */
  ghost predicate IsFirstLeast(db: Db, u: UserId, ds: SourceId, rows: seq<Assignment>, p: PolicyId, row: Assignment) {
    exists k :: 0 <= k < |rows| && rows[k] == row && row.policy == p && Applies(db, u, ds, row)
      && (forall i :: 0 <= i < |rows| && rows[i].policy == p && Applies(db, u, ds, rows[i]) ==>
            row.priority <= rows[i].priority && (row.priority == rows[i].priority ==> k <= i))
  }

  ghost predicate AnyApplies(db: Db, u: UserId, ds: SourceId, rows: seq<Assignment>, p: PolicyId) {
    exists row :: row in rows && row.policy == p && Applies(db, u, ds, row)
  }

  /** The effective row of one policy, if any. */
  ghost predicate Chosen(db: Db, u: UserId, ds: SourceId, rows: seq<Assignment>, best: map<PolicyId, Assignment>, p: PolicyId) {
    && (p in best <==> AnyApplies(db, u, ds, rows, p))
    && (p in best ==> IsFirstLeast(db, u, ds, rows, p, best[p]))
  }

  ghost predicate Effective(db: Db, u: UserId, ds: SourceId, best: map<PolicyId, Assignment>) {
    forall p :: Chosen(db, u, ds, db.assignments, best, p)
  }

  lemma ChosenStep(db: Db, u: UserId, ds: SourceId, rows: seq<Assignment>, a: Assignment,
                   best: map<PolicyId, Assignment>, best': map<PolicyId, Assignment>, p: PolicyId)
    requires Chosen(db, u, ds, rows, best, p)
    requires if Applies(db, u, ds, a) && (a.policy in best ==> a.priority < best[a.policy].priority)
             then best' == best[a.policy := a] else best' == best
    ensures Chosen(db, u, ds, rows + [a], best', p)
  {
    var rows' := rows + [a];
    if AnyApplies(db, u, ds, rows, p) {
      var row :| row in rows && row.policy == p && Applies(db, u, ds, row);
      assert row in rows';
    }
    if p in best {
      var k :| 0 <= k < |rows| && rows[k] == best[p] && best[p].policy == p && Applies(db, u, ds, best[p])
        && (forall i :: 0 <= i < |rows| && rows[i].policy == p && Applies(db, u, ds, rows[i]) ==>
              best[p].priority <= rows[i].priority && (best[p].priority == rows[i].priority ==> k <= i));
      if best'[p] == best[p] {
        assert rows'[k] == best'[p];
      }
    }
    if p == a.policy && Applies(db, u, ds, a) {
      assert a in rows' && rows'[|rows|] == a;
    }
  }

  /** The effective assignments: one row per policy. */
  method ResolveEffectiveAssignments(db: Db, u: UserId, ds: SourceId) returns (best: map<PolicyId, Assignment>)
    ensures Effective(db, u, ds, best)
  {
    var held := HeldRoles(db, u);
    best := map[];
    for k := 0 to |db.assignments|
      invariant forall p :: Chosen(db, u, ds, db.assignments[..k], best, p)
    {
      var a := db.assignments[k];
      ghost var best0 := best;
      InScopeIsCovered(db, a.scope, a.user, a.role, u, held);
      if a.source == ds && InScope(a.scope, a.user, a.role, u, held) {
        if a.policy in best {
          if a.priority < best[a.policy].priority {
            best := best[a.policy := a];
          }
        } else {
          best := best[a.policy := a];
        }
      }
      ghost var rows := db.assignments[..k] + [a];
      forall p ensures Chosen(db, u, ds, rows, best, p) {
        ChosenStep(db, u, ds, db.assignments[..k], a, best0, best, p);
      }
      assert db.assignments[..k + 1] == rows;
    }
    assert db.assignments[..|db.assignments|] == db.assignments;
  }

  /** The effective rows, as a function of the table. */
  ghost function Best(db: Db, u: UserId, ds: SourceId, rows: seq<Assignment>): map<PolicyId, Assignment> {
    if rows == [] then map[]
    else
      var before, a := Best(db, u, ds, rows[..|rows| - 1]), rows[|rows| - 1];
      if Applies(db, u, ds, a) && (a.policy in before ==> a.priority < before[a.policy].priority)
      then before[a.policy := a] else before
  }

  lemma {:induction false} BestIsChosen(db: Db, u: UserId, ds: SourceId, rows: seq<Assignment>, p: PolicyId)
    ensures Chosen(db, u, ds, rows, Best(db, u, ds, rows), p)
    decreases rows
  {
    if rows != [] {
      var init, a := rows[..|rows| - 1], rows[|rows| - 1];
      BestIsChosen(db, u, ds, init, p);
      ChosenStep(db, u, ds, init, a, Best(db, u, ds, init), Best(db, u, ds, rows), p);
      assert rows == init + [a];
    }
  }

  /** There is only one choice of effective rows. */
  lemma EffectiveIsBest(db: Db, u: UserId, ds: SourceId, best: map<PolicyId, Assignment>)
    ensures Effective(db, u, ds, best) <==> best == Best(db, u, ds, db.assignments)
  {
    var b := Best(db, u, ds, db.assignments);
    forall p ensures Chosen(db, u, ds, db.assignments, b, p) {
      BestIsChosen(db, u, ds, db.assignments, p);
    }
    if Effective(db, u, ds, best) {
      forall p ensures (p in best <==> p in b) && (p in best ==> best[p] == b[p]) {
        assert Chosen(db, u, ds, db.assignments, best, p) && Chosen(db, u, ds, db.assignments, b, p);
      }
    }
  }

  /** The effective row's priority bounds every row that applies. */
  lemma LeastPriority(db: Db, u: UserId, ds: SourceId, best: map<PolicyId, Assignment>, row: Assignment)
    requires Effective(db, u, ds, best) && row in db.assignments && Applies(db, u, ds, row)
    ensures row.policy in best && best[row.policy].priority <= row.priority
  {
    assert Chosen(db, u, ds, db.assignments, best, row.policy);
    assert AnyApplies(db, u, ds, db.assignments, row.policy);
  }

  lemma ChosenRow(db: Db, u: UserId, ds: SourceId, best: map<PolicyId, Assignment>, p: PolicyId)
    requires Effective(db, u, ds, best) && p in best
    ensures best[p] in db.assignments && best[p].policy == p && Applies(db, u, ds, best[p])
  {
    assert Chosen(db, u, ds, db.assignments, best, p);
  }

  /** Table order does not matter to which policies apply nor to their priorities. */
  lemma RowOrderIrrelevant(db: Db, db': Db, u: UserId, ds: SourceId,
                           best: map<PolicyId, Assignment>, best': map<PolicyId, Assignment>)
    requires db' == db.(assignments := db'.assignments)
    requires multiset(db.assignments) == multiset(db'.assignments)
    requires Effective(db, u, ds, best) && Effective(db', u, ds, best')
    ensures best.Keys == best'.Keys
    ensures forall p :: p in best ==> best[p].priority == best'[p].priority
  {
    SameRows(db.assignments, db'.assignments);
    SameRoles(db, db', u);
    forall p | p in best ensures p in best' && best'[p].priority <= best[p].priority {
      ChosenRow(db, u, ds, best, p);
      LeastPriority(db', u, ds, best', best[p]);
    }
    forall p | p in best' ensures p in best && best[p].priority <= best'[p].priority {
      ChosenRow(db', u, ds, best', p);
      LeastPriority(db, u, ds, best, best'[p]);
    }
  }

  lemma SameRows(a: seq<Assignment>, b: seq<Assignment>)
    requires multiset(a) == multiset(b)
    ensures forall row :: row in a <==> row in b
  {
    forall row ensures row in a <==> row in b {
      assert row in a <==> row in multiset(a);
      assert row in b <==> row in multiset(b);
    }
  }

  lemma SameRoles(db: Db, db': Db, u: UserId)
    requires db.roles == db'.roles && db.edges == db'.edges && db.members == db'.members
    ensures forall r :: HoldsRole(db, u, r) <==> HoldsRole(db', u, r)
  {
    assert DirectRoles(db, u) == DirectRoles(db', u);
    forall r, p ensures Chain(db, u, r, p) <==> Chain(db', u, r, p) {
    }
  }

  // ----- the report of effective policies -----

  /** Where a reported policy comes from. */
  datatype Origin = FromAll | FromUser | FromRole(role: RoleId) | InheritedFrom(role: RoleId)

  datatype PolicyEntry = PolicyEntry(policy: PolicyId, priority: int, origin: Origin)

  /** The origin of a row that applies. */
  function OriginOf(row: Assignment, direct: set<RoleId>): Origin
    requires row.scope.AllUsers? || row.scope.OneUser? || (row.scope.OneRole? && row.role.Some?)
  {
    match row.scope
    case AllUsers => FromAll
    case OneUser => FromUser
    case OneRole => if row.role.value in direct then FromRole(row.role.value) else InheritedFrom(row.role.value)
  }

  /** One entry per applicable row whose policy exists, in table order. */
  ghost function Report(db: Db, u: UserId, ds: SourceId, rows: seq<Assignment>): seq<PolicyEntry> {
    if rows == [] then []
    else
      var before := Report(db, u, ds, rows[..|rows| - 1]);
      var row := rows[|rows| - 1];
      if Applies(db, u, ds, row) && row.policy in db.policies
      then before + [PolicyEntry(row.policy, row.priority, OriginOf(row, DirectRoles(db, u)))]
      else before
  }

  method ResolveEffectivePolicies(db: Db, u: UserId, ds: SourceId) returns (report: seq<PolicyEntry>)
    ensures report == Report(db, u, ds, db.assignments)
  {
    var held := HeldRoles(db, u);
    var direct := Elems(RolesOf(db.members, u));
    assert direct == DirectRoles(db, u) by {
      RolesOfIsDirect(db.members, u);
      forall r ensures r in direct <==> r in DirectRoles(db, u) {
        DirectIsMember(db, u, r);
      }
    }
    report := [];
    for k := 0 to |db.assignments|
      invariant report == Report(db, u, ds, db.assignments[..k])
    {
      var a := db.assignments[k];
      InScopeIsCovered(db, a.scope, a.user, a.role, u, held);
      if a.source == ds && InScope(a.scope, a.user, a.role, u, held) && a.policy in db.policies {
        report := report + [PolicyEntry(a.policy, a.priority, OriginOf(a, direct))];
      }
      assert db.assignments[..k + 1][..k] == db.assignments[..k];
    }
    assert db.assignments[..|db.assignments|] == db.assignments;
  }

  lemma {:induction false} ReportMeans(db: Db, u: UserId, ds: SourceId, rows: seq<Assignment>)
    ensures forall e :: e in Report(db, u, ds, rows) <==>
              exists row :: row in rows && Applies(db, u, ds, row) && row.policy in db.policies
                && e == PolicyEntry(row.policy, row.priority, OriginOf(row, DirectRoles(db, u)))
    decreases rows
  {
    if rows != [] {
      var init, last := rows[..|rows| - 1], rows[|rows| - 1];
      ReportMeans(db, u, ds, init);
      assert rows == init + [last];
    }
  }

  /** The row is reported: it applies and its policy exists. */
  ghost predicate Reportable(db: Db, u: UserId, ds: SourceId, row: Assignment) {
    Applies(db, u, ds, row) && row.policy in db.policies
  }

  /** The entry says of the row: its policy and priority, and whether it is for everybody, for
      this user, or for a role, their own or inherited. */
  ghost predicate Describes(db: Db, u: UserId, e: PolicyEntry, row: Assignment) {
    && e.policy == row.policy && e.priority == row.priority
    && (e.origin == FromAll <==> row.scope == AllUsers)
    && (e.origin == FromUser <==> row.scope == OneUser && row.user == Some(u))
    && (forall r :: e.origin == FromRole(r) <==>
          row.scope == OneRole && row.role == Some(r) && Member(r, u) in db.members)
    && (forall r :: e.origin == InheritedFrom(r) <==>
          row.scope == OneRole && row.role == Some(r) && Member(r, u) !in db.members)
  }

  lemma OriginDescribes(db: Db, u: UserId, ds: SourceId, row: Assignment)
    requires Applies(db, u, ds, row)
    ensures Describes(db, u, PolicyEntry(row.policy, row.priority, OriginOf(row, DirectRoles(db, u))), row)
  {
    forall r ensures r in DirectRoles(db, u) <==> Member(r, u) in db.members {
      DirectIsMember(db, u, r);
    }
  }

  /** The report describes the reportable rows one to one, in table order: `at` gives the
      position of the row behind each entry. */
  lemma {:induction false} ReportInOrder(db: Db, u: UserId, ds: SourceId, rows: seq<Assignment>) returns (at: seq<nat>)
    ensures |at| == |Report(db, u, ds, rows)|
    ensures forall i :: 0 <= i < |at| ==>
              at[i] < |rows| && Reportable(db, u, ds, rows[at[i]]) && Describes(db, u, Report(db, u, ds, rows)[i], rows[at[i]])
    ensures forall i, j :: 0 <= i < j < |at| ==> at[i] < at[j]
    ensures forall k :: 0 <= k < |rows| && Reportable(db, u, ds, rows[k]) ==> k in at
    decreases rows
  {
    if rows == [] {
      at := [];
    } else {
      var init, n := rows[..|rows| - 1], |rows| - 1;
      at := ReportInOrder(db, u, ds, init);
      if Reportable(db, u, ds, rows[n]) {
        OriginDescribes(db, u, ds, rows[n]);
        at := at + [n];
      }
    }
  }

  /** What an origin claims about the user. */
  ghost predicate OriginTrue(db: Db, u: UserId, origin: Origin) {
    match origin
    case FromAll => true
    case FromUser => true
    case FromRole(r) => HoldsRole(db, u, r) && Member(r, u) in db.members
    case InheritedFrom(r) =>
      && HoldsRole(db, u, r) && Member(r, u) !in db.members
      && exists d :: d in DirectRoles(db, u) && d != r && Descends(db.edges, d, r)
  }

  /** Every reported origin is true: a role is reported as the user's own exactly when they
      are a member of it, and as inherited when only a role below it has them. */
  lemma ReportedOriginsTrue(db: Db, u: UserId, ds: SourceId, e: PolicyEntry)
    requires e in Report(db, u, ds, db.assignments)
    ensures OriginTrue(db, u, e.origin)
  {
    ReportMeans(db, u, ds, db.assignments);
    var row :| row in db.assignments && Applies(db, u, ds, row) && row.policy in db.policies
      && e == PolicyEntry(row.policy, row.priority, OriginOf(row, DirectRoles(db, u)));
    if row.scope.OneRole? {
      var r := row.role.value;
      DirectIsMember(db, u, r);
      var p :| Chain(db, u, r, p);
      WalkGives(Up(db.edges), p);
      assert Descends(db.edges, p[0], r);
    }
  }

  /** A policy is reported at some priority. */
  ghost predicate ReportedAt(db: Db, u: UserId, ds: SourceId, p: PolicyId, n: int) {
    exists e :: e in Report(db, u, ds, db.assignments) && e.policy == p && e.priority == n
  }

  ghost predicate Reported(db: Db, u: UserId, ds: SourceId, p: PolicyId) {
    exists n :: ReportedAt(db, u, ds, p, n)
  }

  lemma ReportedAtMeans(db: Db, u: UserId, ds: SourceId, p: PolicyId, n: int)
    ensures ReportedAt(db, u, ds, p, n) <==>
            p in db.policies && exists row :: row in db.assignments && Applies(db, u, ds, row) && row.policy == p && row.priority == n
  {
    ReportMeans(db, u, ds, db.assignments);
    if p in db.policies {
      if row :| row in db.assignments && Applies(db, u, ds, row) && row.policy == p && row.priority == n {
        var e := PolicyEntry(p, n, OriginOf(row, DirectRoles(db, u)));
        assert e in Report(db, u, ds, db.assignments);
      }
    }
  }

  /** The report and the effective assignments name the same policies exactly when every
      assigned policy exists, and the least priority reported for a policy is its
      effective one. */
  lemma ReportAgrees(db: Db, u: UserId, ds: SourceId, best: map<PolicyId, Assignment>)
    requires Effective(db, u, ds, best)
    ensures (forall p :: p in best <==> Reported(db, u, ds, p)) <==> best.Keys <= db.policies
    ensures forall p :: p in best && p in db.policies ==>
              && ReportedAt(db, u, ds, p, best[p].priority)
              && forall n :: ReportedAt(db, u, ds, p, n) ==> best[p].priority <= n
  {
    forall p | p in best && p in db.policies
      ensures ReportedAt(db, u, ds, p, best[p].priority)
      ensures forall n :: ReportedAt(db, u, ds, p, n) ==> best[p].priority <= n
    {
      ChosenRow(db, u, ds, best, p);
      ReportedAtMeans(db, u, ds, p, best[p].priority);
      forall n | ReportedAt(db, u, ds, p, n) ensures best[p].priority <= n {
        ReportedIsEffective(db, u, ds, best, p, n);
      }
    }
    forall p | Reported(db, u, ds, p) ensures p in best && p in db.policies {
      var n :| ReportedAt(db, u, ds, p, n);
      ReportedIsEffective(db, u, ds, best, p, n);
    }
    forall p | p in best && p in db.policies ensures Reported(db, u, ds, p) {
      assert ReportedAt(db, u, ds, p, best[p].priority);
    }
    if forall p :: p in best <==> Reported(db, u, ds, p) {
      forall p | p in best.Keys ensures p in db.policies {
        assert p in best && Reported(db, u, ds, p);
      }
    }
  }

  lemma ReportedIsEffective(db: Db, u: UserId, ds: SourceId, best: map<PolicyId, Assignment>, p: PolicyId, n: int)
    requires Effective(db, u, ds, best) && ReportedAt(db, u, ds, p, n)
    ensures p in best && p in db.policies && best[p].priority <= n
  {
    ReportedAtMeans(db, u, ds, p, n);
    var row :| row in db.assignments && Applies(db, u, ds, row) && row.policy == p && row.priority == n;
    LeastPriority(db, u, ds, best, row);
  }
}
