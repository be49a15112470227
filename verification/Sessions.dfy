/** Role changes, rebuilds and sessions together: in every run, whatever races, a context that
    was not outrun gives its user exactly what the role resolver computes from the current
    tables, provided each change since it was built that reaches the user was followed up. */
module Sessions {
  import opened Walks
  import opened Registry
  import opened RegistrySafety
  import opened RegistryFreshness
  import opened RegistryOrder
  import C = Consistency
  import T = Tables

  /** What one commit changes: something at a role. */
  datatype Step = Step(role: RoleId, change: C.Change)

  /** The tables after some commits. A context of version n was built from the tables after n. */
  ghost function TablesAt(db: T.Db, steps: seq<Step>): T.Db {
    if steps == [] then db
    else C.Changed(TablesAt(db, steps[..|steps| - 1]), steps[|steps| - 1].role, steps[|steps| - 1].change)
  }

  /** Commit number `n` changes something for the user: the handler has to rebuild them. */
  ghost predicate Reaches(db: T.Db, steps: seq<Step>, n: nat, u: UserId)
    requires n < |steps|
  {
    C.Rebuilt(TablesAt(db, steps[..n]), steps[n].role, steps[n].change, u)
  }

  /** After commit number `n`, however much later, came a rebuild that concerns the context. */
  ghost predicate FollowedUp(log: seq<Event>, n: nat, ctx: Context) {
    exists r :: 0 <= r < |log| && log[r].Rebuild? && Concerns(log[r].filter, ctx) && Run(log[..r]).version > n
  }

  /** Where a deletion takes assignment and access rows with it, only rows of role scope name the role. */
  ghost predicate CascadesClean(db: T.Db, steps: seq<Step>) {
    forall n :: 0 <= n < |steps| && steps[n].change == C.DropRole(true) ==>
      C.NamedInRoleRows(TablesAt(db, steps[..n]), steps[n].role)
  }

  /** The demand is at least the version of every rebuild there was. */
  lemma {:induction false} DemandSince(log: seq<Event>, r: nat, ctx: Context)
    requires r < |log| && log[r].Rebuild? && Concerns(log[r].filter, ctx) && |Run(log).conns| <= U64
    ensures Demand(Run(log), ctx.user, ctx.source) >= Run(log[..r]).version
    decreases log
  {
    var init, e := log[..|log| - 1], log[|log| - 1];
    ConnsOnlyGrow(Run(init), e);
    RunsKeepPast(init);
    DemandStep(Run(init), e, ctx);
    if r < |init| {
      DemandSince(init, r, ctx);
      assert init[..r] == log[..r];
    }
  }

  /** Changes that do not reach a user leave what they get as it was. */
  lemma {:induction false} UnreachedKeepGrants(db: T.Db, steps: seq<Step>, lo: nat, hi: nat, u: UserId, ds: SourceName)
    requires lo <= hi <= |steps| && CascadesClean(db, steps)
    requires forall n :: lo <= n < hi ==> !Reaches(db, steps, n, u)
    ensures C.SameGrants(TablesAt(db, steps[..lo]), TablesAt(db, steps[..hi]), u, ds)
    decreases hi
  {
    if lo < hi {
      var n := hi - 1;
      UnreachedKeepGrants(db, steps, lo, n, u, ds);
      assert !Reaches(db, steps, n, u);
      assert steps[..hi][..n] == steps[..n];
      C.HandlersRebuildEnough(TablesAt(db, steps[..n]), steps[n].role, steps[n].change, u, ds);
    }
  }

  /** Whatever the state of its tasks, a context that meets the demand matches the resolver. */
  lemma MeetingMatchesResolver(db: T.Db, steps: seq<Step>, log: seq<Event>, ctx: Context)
    requires |Run(log).conns| <= U64 && Run(log).version == |steps| && CascadesClean(db, steps)
    requires ctx.version <= |steps| && Meets(Run(log), ctx)
    requires forall n :: ctx.version <= n < |steps| && Reaches(db, steps, n, ctx.user) ==> FollowedUp(log, n, ctx)
    ensures C.SameGrants(TablesAt(db, steps[..ctx.version]), TablesAt(db, steps), ctx.user, ctx.source)
  {
    forall n | ctx.version <= n < |steps| ensures !Reaches(db, steps, n, ctx.user) {
      if Reaches(db, steps, n, ctx.user) {
        var r :| 0 <= r < |log| && log[r].Rebuild? && Concerns(log[r].filter, ctx) && Run(log[..r]).version > n;
        DemandSince(log, r, ctx);
      }
    }
    UnreachedKeepGrants(db, steps, ctx.version, |steps|, ctx.user, ctx.source);
    assert steps[..|steps|] == steps;
  }

  /** In every run whose inserts and last writes are in order, with commits, rebuilds, startups
      and closes interleaved at will: once the tasks for a stored entry have finished, it gives
      its user exactly the roles, access and effective assignments the resolver computes from
      the current tables, if every change since its version that reaches the user was followed,
      at any later time, by a rebuild for the user or the datasource. */
  lemma SessionsMatchResolver(db: T.Db, steps: seq<Step>, log: seq<Event>, id: nat)
    requires |Run(log).conns| <= U64 && Run(log).version == |steps| && CascadesClean(db, steps)
    requires AlwaysLastInOrder(log)
    requires id in Run(log).store.contexts && !Unfinished(Run(log), id)
    requires var ctx := Run(log).store.contexts[id].ctx;
             forall n :: ctx.version <= n < |steps| && Reaches(db, steps, n, ctx.user) ==> FollowedUp(log, n, ctx)
    ensures var ctx := Run(log).store.contexts[id].ctx;
            && ctx.version <= |steps|
            && C.SameGrants(TablesAt(db, steps[..ctx.version]), TablesAt(db, steps), ctx.user, ctx.source)
  {
    SettledIffLastInOrder(log);
    RunsKeepPast(log);
    assert Settled(Run(log), id) && EntryPast(Run(log), id);
    MeetingMatchesResolver(db, steps, log, Run(log).store.contexts[id].ctx);
  }
}
