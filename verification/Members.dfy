/** Who is affected by a role: members of the role and of every role below it. */
module Members {
  import opened Walks
  import opened BreadthFirst
  import opened Tables
  import opened Adjacency

  /** Searching downward from a role finds the roles that inherit from it. */
  lemma BelowIsDescends(m: Neighbours, edges: seq<Edge>, role: RoleId, r: RoleId)
    requires Represents(m, Reversed(Up(edges)))
    ensures r in Search(m, None, [role], 0) <==> Descends(edges, r, role)
  {
    var down := Reversed(Up(edges));
    SearchMeasures(m, down, role);
    if n :| Reach(down, role, r, n) {
      ReachReversed(down, role, r, n);
      ReversedTwice(Up(edges));
    }
    if n :| Reach(Up(edges), r, role, n) {
      ReachReversed(Up(edges), r, role, n);
    }
  }

  /** Users whose cached sessions a change to the role can affect. */
  method ResolveAllRoleMembers(db: Db, role: RoleId) returns (users: set<UserId>)
    ensures forall u :: u in users <==> MemberBelow(db, role, u)
  {
    var m := BuildChildMap(db.edges);
    var below, queue := {role}, [role];
    ghost var level := Seeded([role], 0);
    while queue != []
      invariant below == level.Keys
      invariant Explore(m, None, level, queue) == Search(m, None, [role], 0)
      decreases Nodes(m) - below, |queue|
    {
      ghost var queue0, seen := queue, below;
      below, queue := EnqueueUnseen(Next(m, queue[0]), below, queue[1..]);
      level := ExploreTurn(m, None, level, queue0, seen, queue);
    }
    users := set row | row in db.members && row.role in below :: row.user;
    forall u ensures u in users <==> MemberBelow(db, role, u) {
      MembersFound(m, db, role, below, u);
      assert u in users <==> exists row :: row in db.members && row.role in below && row.user == u;
    }
  }

  lemma MembersFound(m: Neighbours, db: Db, role: RoleId, below: set<RoleId>, u: UserId)
    requires Represents(m, Reversed(Up(db.edges))) && below == Search(m, None, [role], 0).Keys
    ensures (exists row :: row in db.members && row.role in below && row.user == u) <==> MemberBelow(db, role, u)
  {
    if row :| row in db.members && row.role in below && row.user == u {
      BelowIsDescends(m, db.edges, role, row.role);
      DirectIsMember(db, u, row.role);
      assert row == Member(row.role, u);
    }
    if r :| r in DirectRoles(db, u) && Descends(db.edges, r, role) {
      BelowIsDescends(m, db.edges, role, r);
      DirectIsMember(db, u, r);
      var row := Member(r, u);
      assert row in db.members && row.role in below && row.user == u;
    }
  }

  /** How a user comes to be affected by a role. */
  datatype Source = Direct | Via(role: RoleId)

  ghost function SourceMap(top: RoleId, roles: set<RoleId>): map<RoleId, Source> {
    map r | r in roles :: if r == top then Direct else Via(r)
  }

  /** Enqueue unseen children, noting the role through which their members come. */
  method EnqueueSourced(ns: seq<RoleId>, ghost top: RoleId, visited0: set<RoleId>, queue0: seq<RoleId>,
                        sources0: map<RoleId, Source>)
    returns (visited: set<RoleId>, queue: seq<RoleId>, sources: map<RoleId, Source>)
    requires top in visited0 && sources0 == SourceMap(top, visited0)
    ensures visited == visited0 + Elems(ns)
    ensures queue == queue0 + Fresh(ns, visited0)
    ensures sources == SourceMap(top, visited)
  {
    visited, queue, sources := visited0, queue0, sources0;
    for k := 0 to |ns|
      invariant visited == visited0 + Elems(ns[..k])
      invariant queue == queue0 + Fresh(ns[..k], visited0)
      invariant sources == SourceMap(top, visited)
    {
      FreshStep(ns, k, visited0);
      PushAfter(queue0, Fresh(ns[..k], visited0), ns[k]);
      if ns[k] !in visited {
        visited := visited + {ns[k]};
        queue := queue + [ns[k]];
        sources := sources[ns[k] := Via(ns[k])];
      }
    }
    assert ns[..|ns|] == ns;
  }

  /** The label a user gets from the membership rows seen so far: direct if any row is
      direct, otherwise the role of the first row that counts. */
  ghost function Label(rows: seq<Member>, sources: map<RoleId, Source>, u: UserId): Option<Source> {
    if rows == [] then None
    else
      var before := Label(rows[..|rows| - 1], sources, u);
      var row := rows[|rows| - 1];
      if row.user != u || row.role !in sources then before
      else if before.None? || sources[row.role].Direct? then Some(sources[row.role])
      else before
  }

  /** The first membership row of the user in any of the roles is in role `r`. */
  ghost predicate FirstRow(rows: seq<Member>, roles: set<RoleId>, u: UserId, r: RoleId) {
    exists k :: 0 <= k < |rows| && rows[k] == Member(r, u) &&
                forall i :: 0 <= i < k ==> !(rows[i].user == u && rows[i].role in roles)
  }

  lemma FirstRowStays(rows: seq<Member>, row: Member, roles: set<RoleId>, u: UserId, r: RoleId)
    requires FirstRow(rows, roles, u, r)
    ensures FirstRow(rows + [row], roles, u, r)
  {
    var k :| 0 <= k < |rows| && rows[k] == Member(r, u) &&
             forall i :: 0 <= i < k ==> !(rows[i].user == u && rows[i].role in roles);
    assert (rows + [row])[k] == Member(r, u);
  }

  lemma FirstRowComes(rows: seq<Member>, roles: set<RoleId>, u: UserId, r: RoleId)
    requires forall x :: x in roles ==> Member(x, u) !in rows
    ensures FirstRow(rows + [Member(r, u)], roles, u, r)
  {
    var rows' := rows + [Member(r, u)];
    forall i | 0 <= i < |rows| ensures !(rows'[i].user == u && rows'[i].role in roles) {
      assert rows'[i] == rows[i] && rows[i] in rows;
      assert rows[i].user == u ==> rows[i] == Member(rows[i].role, u);
    }
    assert rows'[|rows|] == Member(r, u);
  }

  lemma {:induction false} LabelMeans(rows: seq<Member>, sources: map<RoleId, Source>, top: RoleId, u: UserId)
    requires sources == SourceMap(top, sources.Keys) && top in sources
    ensures var l := Label(rows, sources, u);
            && (l.Some? <==> exists r :: r in sources && Member(r, u) in rows)
            && (l == Some(Direct) <==> Member(top, u) in rows)
            && (l.Some? && l.value.Via? ==> l.value.role in sources && l.value.role != top && Member(l.value.role, u) in rows)
            && (l.Some? && l.value.Via? ==> FirstRow(rows, sources.Keys, u, l.value.role))
    decreases rows
  {
    if rows != [] {
      var init, row := rows[..|rows| - 1], rows[|rows| - 1];
      assert rows == init + [row];
      LabelMeans(init, sources, top, u);
      var l, l' := Label(init, sources, u), Label(rows, sources, u);
      if row.user == u && row.role in sources {
        assert row == Member(row.role, u);
        if l.None? { FirstRowComes(init, sources.Keys, u, row.role); }
      }
      if l.Some? && l.value.Via? && l' == l { FirstRowStays(init, row, sources.Keys, u, l.value.role); }
      if r :| r in sources && Member(r, u) in rows {
        assert Member(r, u) in init || Member(r, u) == row;
      }
    }
  }

  /** `u` is listed exactly when affected; labelled direct exactly when a member of the role
      itself; otherwise via a strict descendant that `u` is a member of, that of their first
      membership row at or below the role. */
  ghost predicate EntryRight(db: Db, role: RoleId, entries: map<UserId, Source>, u: UserId) {
    && (u in entries <==> MemberBelow(db, role, u))
    && (u in entries ==> (entries[u] == Direct <==> Member(role, u) in db.members))
    && (u in entries && entries[u].Via? ==>
          && Member(entries[u].role, u) in db.members
          && entries[u].role != role && Descends(db.edges, entries[u].role, role)
          && exists k :: 0 <= k < |db.members| && db.members[k] == Member(entries[u].role, u) &&
               forall i :: 0 <= i < k ==> !(db.members[i].user == u && Descends(db.edges, db.members[i].role, role)))
  }

  /** Users affected by a role, each with the way they come by it. */
  method ResolveEffectiveMembers(db: Db, role: RoleId) returns (entries: map<UserId, Source>)
    ensures forall u :: EntryRight(db, role, entries, u)
  {
    var m := BuildChildMap(db.edges);
    var visited, queue, sources := EnqueueSourced(Next(m, role), role, {role}, [], map[role := Direct]);
    ghost var level := FirstTurn(m, role, visited, queue);
    while queue != []
      invariant visited == level.Keys && role in visited && sources == SourceMap(role, visited)
      invariant Explore(m, None, level, queue) == Search(m, None, [role], 0)
      decreases Nodes(m) - visited, |queue|
    {
      ghost var queue0, seen := queue, visited;
      visited, queue, sources := EnqueueSourced(Next(m, queue[0]), role, visited, queue[1..], sources);
      level := ExploreTurn(m, None, level, queue0, seen, queue);
    }
    entries := LabelRows(db.members, sources);
    EntriesFound(m, db, role, sources, entries);
  }

  /** The children of the role are enqueued before the loop starts. */
  lemma FirstTurn(m: Neighbours, role: RoleId, visited: set<RoleId>, queue: seq<RoleId>)
    returns (level: map<RoleId, nat>)
    requires visited == {role} + Elems(Next(m, role)) && queue == [] + Fresh(Next(m, role), {role})
    ensures level.Keys == visited
    ensures Explore(m, None, level, queue) == Search(m, None, [role], 0)
  {
    level := ExploreTurn(m, None, Seeded([role], 0), [role], {role}, queue);
  }

  /** One pass over the membership rows: first source wins, unless a direct row comes. */
  method LabelRows(rows: seq<Member>, sources: map<RoleId, Source>) returns (entries: map<UserId, Source>)
    ensures forall u :: u in entries <==> Label(rows, sources, u).Some?
    ensures forall u :: u in entries ==> Some(entries[u]) == Label(rows, sources, u)
  {
    entries := map[];
    for k := 0 to |rows|
      invariant forall u :: u in entries <==> Label(rows[..k], sources, u).Some?
      invariant forall u :: u in entries ==> Some(entries[u]) == Label(rows[..k], sources, u)
    {
      assert rows[..k + 1][..k] == rows[..k];
      var row := rows[k];
      if row.role in sources {
        var source := sources[row.role];
        if row.user in entries {
          if source == Direct {
            entries := entries[row.user := Direct];
          }
        } else {
          entries := entries[row.user := source];
        }
      }
    }
    assert rows[..|rows|] == rows;
  }

  lemma EntriesFound(m: Neighbours, db: Db, role: RoleId, sources: map<RoleId, Source>, entries: map<UserId, Source>)
    requires Represents(m, Reversed(Up(db.edges)))
    requires sources == SourceMap(role, Search(m, None, [role], 0).Keys)
    requires role in sources
    requires forall u :: u in entries <==> Label(db.members, sources, u).Some?
    requires forall u :: u in entries ==> Some(entries[u]) == Label(db.members, sources, u)
    ensures forall u :: EntryRight(db, role, entries, u)
  {
    assert sources.Keys == Search(m, None, [role], 0).Keys;
    forall u ensures EntryRight(db, role, entries, u) {
      LabelMeans(db.members, sources, role, u);
      forall r ensures r in sources <==> Descends(db.edges, r, role) {
        BelowIsDescends(m, db.edges, role, r);
      }
      forall r ensures r in DirectRoles(db, u) <==> Member(r, u) in db.members {
        DirectIsMember(db, u, r);
      }
    }
  }
}
