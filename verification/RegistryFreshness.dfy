/** Which policy version the stored contexts reflect, step by step: when a step leaves an
    entry behind the version last rebuilt for its user or its datasource. */
module RegistryFreshness {
  import opened Walks
  import opened Registry
  import opened RegistrySafety

  /** The policy version last rebuilt for the user or for the datasource. */
  ghost function Demand(w: World, user: UserId, source: SourceName): nat {
    var u := if user in w.forUser then w.forUser[user] else 0;
    var s := if source in w.forSource then w.forSource[source] else 0;
    if u <= s then s else u
  }

  ghost predicate Meets(w: World, ctx: Context) {
    ctx.version >= Demand(w, ctx.user, ctx.source)
  }

  ghost predicate Unfinished(w: World, id: nat) {
    exists t :: t in w.tasks && t.id == id
  }

  /** The task will bring the entry a context that meets the demand. */
  ghost predicate Mends(w: World, t: TaskId, id: nat) {
    t in w.tasks && t.id == id && (w.tasks[t].built.Some? ==> Meets(w, w.tasks[t].built.value))
  }

  /** The entry meets the demand, or a task will mend it. */
  ghost predicate Served(w: World, id: nat) {
    id in w.store.contexts ==> Meets(w, w.store.contexts[id].ctx) || exists t :: Mends(w, t, id)
  }

  ghost predicate AllServed(w: World) {
    forall id :: Served(w, id)
  }

  ghost predicate TaskPast(w: World, t: TaskId) {
    t in w.tasks ==> t.id in w.inserted && (w.tasks[t].built.Some? ==> w.tasks[t].built.value.version <= w.version)
  }

  ghost predicate EntryPast(w: World, id: nat) {
    id in w.store.contexts ==> w.store.contexts[id].ctx.version <= w.version
  }

  ghost predicate StartupPast(w: World, c: nat) {
    c < |w.conns| && w.conns[c].phase.Built? ==> w.conns[c].phase.ctx.version <= w.version
  }

  ghost predicate DemandPast(w: World) {
    && (forall u :: u in w.forUser ==> w.forUser[u] <= w.version)
    && (forall s :: s in w.forSource ==> w.forSource[s] <= w.version)
  }

  /** Nothing comes from the future, and tasks are for ids that were inserted. */
  ghost predicate PastOk(w: World) {
    && DemandPast(w)
    && (forall t :: TaskPast(w, t))
    && (forall id :: EntryPast(w, id))
    && (forall c :: StartupPast(w, c))
  }

  lemma StepKeepsTaskPast(w: World, e: Event, t: TaskId)
    requires ContextsOk(w) && TaskPast(w, t)
    ensures TaskPast(Next(w, e), t)
  {
    if e.Rebuild? {
      SpawnedMeans(w, e.filter, t);
      if t in Spawned(w, e.filter) { assert EntryOk(w, t.id, w.store.contexts[t.id]); }
    }
  }

  lemma StepKeepsEntryPast(w: World, e: Event, id: nat)
    requires EntryPast(w, id) && (e.WriteTask? ==> TaskPast(w, e.task)) && (e.InsertStartup? ==> StartupPast(w, e.conn))
    ensures EntryPast(Next(w, e), id)
  {
  }

  lemma StepKeepsStartupPast(w: World, e: Event, c: nat)
    requires StartupPast(w, c)
    ensures StartupPast(Next(w, e), c)
  {
  }

  lemma StepKeepsDemandPast(w: World, e: Event)
    requires DemandPast(w)
    ensures DemandPast(Next(w, e))
  {
  }

  lemma StepKeepsPast(w: World, e: Event)
    requires Identity(w) && PastOk(w)
    ensures PastOk(Next(w, e))
  {
    StepKeepsDemandPast(w, e);
    forall t ensures TaskPast(Next(w, e), t) {
      StepKeepsTaskPast(w, e, t);
    }
    forall id ensures EntryPast(Next(w, e), id) {
      StepKeepsEntryPast(w, e, id);
    }
    forall c ensures StartupPast(Next(w, e), c) {
      StepKeepsStartupPast(w, e, c);
    }
  }

  lemma {:induction false} RunsKeepPast(log: seq<Event>)
    requires |Run(log).conns| <= U64
    ensures Identity(Run(log)) && PastOk(Run(log))
    decreases log
  {
    RunsKeepIdentity(log);
    if log != [] {
      var init := log[..|log| - 1];
      ConnsOnlyGrow(Run(init), log[|log| - 1]);
      RunsKeepPast(init);
      StepKeepsPast(Run(init), log[|log| - 1]);
    }
  }

  // ----- which steps keep an entry served -----

  /** A context stored after a step was stored before, or the step brought it. */
  lemma EntryStep(w: World, e: Event, id: nat)
    requires id in Next(w, e).store.contexts
    ensures var ctx := Next(w, e).store.contexts[id].ctx;
            if e.InsertStartup? && Inserts(w, e.conn) && w.conns[e.conn].phase.id == id then w.conns[e.conn].phase.ctx == ctx
            else if e.WriteTask? && Writes(w, e.task) && e.task.id == id then w.tasks[e.task].built == Some(ctx)
            else id in w.store.contexts && w.store.contexts[id].ctx == ctx
  {
  }

  /** The startup's context meets the demand. */
  ghost predicate TimelyInsert(w: World, c: nat)
    requires Inserts(w, c)
  {
    Meets(w, w.conns[c].phase.ctx)
  }

  /** The task's context meets the demand, or another task will mend the entry. */
  ghost predicate TimelyWrite(w: World, t: TaskId)
    requires Writes(w, t)
  {
    Meets(w, w.tasks[t].built.value) || exists k :: k != t && Mends(w, k, t.id)
  }

  ghost predicate TimelyFor(w: World, e: Event, id: nat) {
    && (e.InsertStartup? && Inserts(w, e.conn) && w.conns[e.conn].phase.id == id ==> TimelyInsert(w, e.conn))
    && (e.WriteTask? && Writes(w, e.task) && e.task.id == id ==> TimelyWrite(w, e.task))
  }

  lemma InsertServedExact(w: World, c: nat, id: nat)
    requires Identity(w) && PastOk(w) && Served(w, id) && Inserts(w, c)
    ensures Served(Next(w, InsertStartup(c)), id) <==> TimelyFor(w, InsertStartup(c), id)
  {
    var w' := Next(w, InsertStartup(c));
    assert PhaseOk(w, c);
    forall t ensures Mends(w', t, id) <==> Mends(w, t, id) {
    }
    if w.conns[c].phase.id == id {
      forall t ensures !Mends(w, t, id) {
        assert TaskPast(w, t);
      }
    }
  }

  lemma WriteServedExact(w: World, t: TaskId, id: nat)
    requires Served(w, id) && t in w.tasks && w.tasks[t].built.Some?
    ensures Served(Next(w, WriteTask(t)), id) <==> TimelyFor(w, WriteTask(t), id)
  {
    var w' := Next(w, WriteTask(t));
    forall k ensures Mends(w', k, id) <==> k != t && Mends(w, k, id) {
    }
  }

  lemma RebuildKeepsServed(w: World, f: Filter, id: nat)
    requires Identity(w) && Served(w, id)
    ensures Served(AfterRebuild(w, f), id)
  {
    var w', t := AfterRebuild(w, f), TaskId(w.round, id);
    SpawnedMeans(w, f, t);
    if id in w.store.contexts {
      assert EntryOk(w, id, w.store.contexts[id]);
      if id in Chosen(w, f) {
        assert Mends(w', t, id);
      } else if !Meets(w, w.store.contexts[id].ctx) {
        var k :| Mends(w, k, id);
        KeepsMending(w, f, k, id);
      }
    }
  }

  /** A rebuild that does not select the entry leaves its demand alone. */
  lemma KeepsMending(w: World, f: Filter, k: TaskId, id: nat)
    requires Identity(w) && Mends(w, k, id) && id in w.store.contexts && id !in Chosen(w, f)
    ensures Mends(AfterRebuild(w, f), k, id)
  {
    assert TaskOk(w, k, w.tasks[k]) && EntryOk(w, id, w.store.contexts[id]);
  }

  lemma BuildKeepsServed(w: World, t: TaskId, id: nat)
    requires PastOk(w) && Served(w, id)
    ensures Served(Next(w, BuildTask(t)), id)
  {
    var w' := Next(w, BuildTask(t));
    if id in w.store.contexts && !Meets(w, w.store.contexts[id].ctx) {
      var k :| Mends(w, k, id);
      assert Mends(w', k, id);
    }
  }

  lemma FailKeepsServed(w: World, t: TaskId, id: nat)
    requires Served(w, id)
    ensures Served(Next(w, FailTask(t)), id)
  {
    var w' := Next(w, FailTask(t));
    if id in w'.store.contexts && !Meets(w, w.store.contexts[id].ctx) {
      var k :| Mends(w, k, id);
      assert Mends(w', k, id);
    }
  }

  ghost predicate OuterStep(e: Event) {
    e.Accept? || e.StartClaim? || e.BuildStartup? || e.AbortStartup? || e.Close? || e.CommitPolicy?
  }

  /** Steps of connections other than the insert, and a policy commit, rebuild nothing. */
  lemma OuterStepFrame(w: World, e: Event, id: nat)
    requires OuterStep(e)
    ensures var w' := Next(w, e);
            && w'.tasks == w.tasks && w'.forUser == w.forUser && w'.forSource == w.forSource
            && (id in w'.store.contexts ==> id in w.store.contexts && w'.store.contexts[id].ctx == w.store.contexts[id].ctx)
  {
    if id in Next(w, e).store.contexts { EntryStep(w, e, id); }
  }

  lemma FrameKeepsServed(w: World, w': World, id: nat)
    requires w'.tasks == w.tasks && w'.forUser == w.forUser && w'.forSource == w.forSource
    requires id in w'.store.contexts ==> id in w.store.contexts && w'.store.contexts[id].ctx == w.store.contexts[id].ctx
    requires Served(w, id)
    ensures Served(w', id)
  {
    if id in w'.store.contexts && !Meets(w, w.store.contexts[id].ctx) {
      var k :| Mends(w, k, id);
      assert Mends(w', k, id);
    }
  }

  /** A step keeps an entry served exactly when it does not insert or write into it a
      context older than the last rebuild for its user or datasource with nothing to mend it. */
  lemma StepServedExact(w: World, e: Event, id: nat)
    requires Identity(w) && PastOk(w) && Served(w, id)
    ensures Served(Next(w, e), id) <==> TimelyFor(w, e, id)
  {
    match e
    case InsertStartup(c) => if Inserts(w, c) { InsertServedExact(w, c, id); }
    case WriteTask(t) => if t in w.tasks && w.tasks[t].built.Some? { WriteServedExact(w, t, id); }
    case Rebuild(f) => RebuildKeepsServed(w, f, id);
    case BuildTask(t) => BuildKeepsServed(w, t, id);
    case FailTask(t) => FailKeepsServed(w, t, id);
    case _ =>
      OuterStepFrame(w, e, id);
      FrameKeepsServed(w, Next(w, e), id);
  }

  // ----- which steps keep settled entries fresh -----

  /** Once every task for the entry has finished, it meets the demand. */
  ghost predicate Settled(w: World, id: nat) {
    id in w.store.contexts && !Unfinished(w, id) ==> Meets(w, w.store.contexts[id].ctx)
  }

  ghost predicate AllSettled(w: World) {
    forall id :: Settled(w, id)
  }

  /** No other task for the same connection is running. */
  ghost predicate LastTask(w: World, t: TaskId) {
    forall k :: k in w.tasks && k.id == t.id ==> k == t
  }

  ghost predicate SettlesFor(w: World, e: Event, id: nat) {
    && (e.InsertStartup? && Inserts(w, e.conn) && w.conns[e.conn].phase.id == id ==> TimelyInsert(w, e.conn))
    && (e.WriteTask? && Writes(w, e.task) && e.task.id == id && LastTask(w, e.task) ==>
          Meets(w, w.tasks[e.task].built.value))
  }

  lemma InsertSettledExact(w: World, c: nat, id: nat)
    requires Identity(w) && PastOk(w) && Settled(w, id) && Inserts(w, c)
    ensures Settled(Next(w, InsertStartup(c)), id) <==> SettlesFor(w, InsertStartup(c), id)
  {
    var w' := Next(w, InsertStartup(c));
    assert PhaseOk(w, c);
    assert Unfinished(w', id) <==> Unfinished(w, id);
    if t :| t in w.tasks && t.id == id {
      assert TaskPast(w, t);
    }
  }

  lemma WriteSettledExact(w: World, t: TaskId, id: nat)
    requires Settled(w, id) && t in w.tasks && w.tasks[t].built.Some?
    ensures Settled(Next(w, WriteTask(t)), id) <==> SettlesFor(w, WriteTask(t), id)
  {
  }

  lemma RebuildKeepsSettled(w: World, f: Filter, id: nat)
    requires Identity(w) && Settled(w, id)
    ensures Settled(AfterRebuild(w, f), id)
  {
    var w', t := AfterRebuild(w, f), TaskId(w.round, id);
    SpawnedMeans(w, f, t);
    if id in w.store.contexts {
      assert EntryOk(w, id, w.store.contexts[id]);
      if id in Chosen(w, f) {
        assert t in w'.tasks;
      } else if k :| k in w.tasks && k.id == id {
        assert k in w'.tasks;
      }
    }
  }

  lemma TaskStepKeepsSettled(w: World, e: Event, id: nat)
    requires Settled(w, id) && (e.BuildTask? || e.FailTask?)
    ensures Settled(Next(w, e), id)
  {
  }

  /** A step keeps the entry fresh once its tasks are finished exactly when it does not
      insert a context older than demanded, nor write one with the last task for it. */
  lemma StepSettledExact(w: World, e: Event, id: nat)
    requires Identity(w) && PastOk(w) && Settled(w, id)
    ensures Settled(Next(w, e), id) <==> SettlesFor(w, e, id)
  {
    match e
    case InsertStartup(c) => if Inserts(w, c) { InsertSettledExact(w, c, id); }
    case WriteTask(t) => if t in w.tasks && w.tasks[t].built.Some? { WriteSettledExact(w, t, id); }
    case Rebuild(f) => RebuildKeepsSettled(w, f, id);
    case BuildTask(t) => TaskStepKeepsSettled(w, e, id);
    case FailTask(t) => TaskStepKeepsSettled(w, e, id);
    case _ => OuterStepFrame(w, e, id);
  }

  // ----- without overlap, writes are timely -----

  /** A rebuild starts no task for a connection that still has one. */
  ghost predicate NoOverlap(w: World, e: Event) {
    e.Rebuild? ==> forall id :: id in Chosen(w, e.filter) ==> !Unfinished(w, id)
  }

  ghost predicate NeverOverlapping(log: seq<Event>) {
    log != [] ==> NoOverlap(Run(log[..|log| - 1]), log[|log| - 1]) && NeverOverlapping(log[..|log| - 1])
  }

  /** A built task whose entry is still there has met the demand. */
  ghost predicate TaskMeets(w: World, t: TaskId) {
    Writes(w, t) ==> Meets(w, w.tasks[t].built.value)
  }

  lemma RebuildKeepsTaskMeeting(w: World, f: Filter, t: TaskId)
    requires Identity(w) && TaskMeets(w, t) && NoOverlap(w, Rebuild(f))
    ensures TaskMeets(AfterRebuild(w, f), t)
  {
    SpawnedMeans(w, f, t);
    if t !in Spawned(w, f) && Writes(w, t) {
      assert Unfinished(w, t.id);
      assert TaskOk(w, t, w.tasks[t]) && EntryOk(w, t.id, w.store.contexts[t.id]);
    }
  }

  lemma StepKeepsTaskMeeting(w: World, e: Event, t: TaskId)
    requires Identity(w) && PastOk(w) && TaskMeets(w, t) && NoOverlap(w, e)
    ensures TaskMeets(Next(w, e), t)
  {
    if e.Rebuild? {
      RebuildKeepsTaskMeeting(w, e.filter, t);
    } else if e.InsertStartup? && Inserts(w, e.conn) {
      assert PhaseOk(w, e.conn) && TaskPast(w, t);
    }
  }

  lemma {:induction false} RunsKeepTaskMeeting(log: seq<Event>, t: TaskId)
    requires NeverOverlapping(log) && |Run(log).conns| <= U64
    ensures TaskMeets(Run(log), t)
    decreases log
  {
    if log != [] {
      var init := log[..|log| - 1];
      ConnsOnlyGrow(Run(init), log[|log| - 1]);
      RunsKeepTaskMeeting(init, t);
      RunsKeepPast(init);
      StepKeepsTaskMeeting(Run(init), log[|log| - 1], t);
    }
  }

  /** What was rebuilt for stays rebuilt for. */
  lemma DemandOnlyGrows(w: World, e: Event, user: UserId, source: SourceName)
    requires PastOk(w)
    ensures Demand(Next(w, e), user, source) >= Demand(w, user, source)
  {
  }

  /** The entry is served, and `version` was rebuilt for. */
  ghost predicate Selected(w: World, id: nat, version: nat) {
    && Served(w, id) && id in w.inserted
    && id in w.claims && Demand(w, w.claims[id].user, w.claims[id].source) >= version
  }

  lemma RebuildServes(log: seq<Event>, f: Filter, id: nat)
    requires |Run(log).conns| <= U64 && id in Chosen(Run(log), f)
    ensures Selected(AfterRebuild(Run(log), f), id, Run(log).version)
  {
    var w, t := Run(log), TaskId(Run(log).round, id);
    RunsKeepPast(log);
    assert EntryOk(w, id, w.store.contexts[id]);
    SpawnedMeans(w, f, t);
    assert Mends(AfterRebuild(w, f), t, id);
  }

  lemma StepKeepsSelected(log: seq<Event>, e: Event, id: nat, version: nat)
    requires NeverOverlapping(log) && |Run(log).conns| <= U64 && Selected(Run(log), id, version)
    ensures Selected(Next(Run(log), e), id, version)
  {
    var w := Run(log);
    RunsKeepPast(log);
    StepKeepsClaim(w, e, id);
    DemandOnlyGrows(w, e, w.claims[id].user, w.claims[id].source);
    StepServedExact(w, e, id);
    if e.InsertStartup? && Inserts(w, e.conn) {
      assert PhaseOk(w, e.conn);
    }
    if e.WriteTask? {
      RunsKeepTaskMeeting(log, e.task);
    }
  }

  lemma {:induction false} StaysSelected(log: seq<Event>, more: seq<Event>, id: nat, version: nat)
    requires NeverOverlapping(log + more) && |Run(log + more).conns| <= U64 && Selected(Run(log), id, version)
    ensures Selected(Run(log + more), id, version)
    decreases more
  {
    if more == [] {
      assert log + more == log;
    } else {
      var init, e := more[..|more| - 1], more[|more| - 1];
      assert (log + more)[..|log + more| - 1] == log + init;
      ConnsOnlyGrow(Run(log + init), e);
      StaysSelected(log, init, id, version);
      StepKeepsSelected(log + init, e, id, version);
    }
  }

  /** After a rebuild for some policy version, whatever else happens: each entry it selected
      is gone, still has a task running, or reflects that version or a later one. */
  lemma RebuildReachesEntries(log: seq<Event>, f: Filter, more: seq<Event>, id: nat)
    requires NeverOverlapping(log + [Rebuild(f)] + more) && |Run(log + [Rebuild(f)] + more).conns| <= U64
    requires id in Chosen(Run(log), f)
    ensures var w := Run(log + [Rebuild(f)] + more);
            || id !in w.store.contexts
            || Unfinished(w, id)
            || w.store.contexts[id].ctx.version >= Run(log).version
  {
    var start, w := log + [Rebuild(f)], Run(log + [Rebuild(f)] + more);
    RunPush(log, Rebuild(f));
    RunBounded(start, more);
    RebuildServes(log, f, id);
    StaysSelected(start, more, id, Run(log).version);
    if id in w.store.contexts && !Unfinished(w, id) {
      RunsKeepIdentity(log + [Rebuild(f)] + more);
      assert EntryOk(w, id, w.store.contexts[id]);
    }
  }
}
