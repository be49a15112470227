/** Freshness in terms of the order of events: which build step stands behind each stored
    context, and which commits and rebuilds came after it. */
module RegistryOrder {
  import opened Walks
  import opened Registry
  import opened RegistrySafety
  import opened RegistryFreshness

  // ----- the build step behind a context -----

  /** The context a step builds, if it builds one. */
  ghost function BuiltBy(w: World, e: Event): Option<Context> {
    match e
    case BuildStartup(c) =>
      if Open(w, c) && w.conns[c].phase.Claimed?
      then Some(Context(w.conns[c].phase.user, w.conns[c].phase.source, w.version)) else None
    case BuildTask(t) =>
      if t in w.tasks && w.tasks[t].built.None?
      then Some(Context(w.tasks[t].user, w.tasks[t].source, w.version)) else None
    case _ => None
  }

  /** For each startup, task and entry, the position in the log of the step that built the
      context it holds. */
  datatype Builds = Builds(startups: map<nat, nat>, tasks: map<TaskId, nat>, entries: map<nat, nat>)

  ghost function StartupPoint(b: Builds, c: nat): nat {
    if c in b.startups then b.startups[c] else 0
  }

  ghost function TaskPoint(b: Builds, t: TaskId): nat {
    if t in b.tasks then b.tasks[t] else 0
  }

  ghost function Tracked(b: Builds, w: World, e: Event, now: nat): Builds {
    match e
    case BuildStartup(c) => if BuiltBy(w, e).Some? then b.(startups := b.startups[c := now]) else b
    case BuildTask(t) => if BuiltBy(w, e).Some? then b.(tasks := b.tasks[t := now]) else b
    case InsertStartup(c) =>
      if Inserts(w, c) then b.(entries := b.entries[w.conns[c].phase.id := StartupPoint(b, c)]) else b
    case WriteTask(t) => if Writes(w, t) then b.(entries := b.entries[t.id := TaskPoint(b, t)]) else b
    case _ => b
  }

  ghost function BuildsOf(log: seq<Event>): Builds {
    if log == [] then Builds(map[], map[], map[])
    else Tracked(BuildsOf(log[..|log| - 1]), Run(log[..|log| - 1]), log[|log| - 1], |log| - 1)
  }

  /** The step at position `n` built this context. */
  ghost predicate BuiltAt(log: seq<Event>, n: nat, ctx: Context) {
    n < |log| && BuiltBy(Run(log[..n]), log[n]) == Some(ctx)
  }

  ghost predicate StartupTracked(log: seq<Event>, c: nat) {
    c < |Run(log).conns| && Run(log).conns[c].phase.Built? ==>
      BuiltAt(log, StartupPoint(BuildsOf(log), c), Run(log).conns[c].phase.ctx)
  }

  ghost predicate TaskTracked(log: seq<Event>, t: TaskId) {
    t in Run(log).tasks && Run(log).tasks[t].built.Some? ==>
      BuiltAt(log, TaskPoint(BuildsOf(log), t), Run(log).tasks[t].built.value)
  }

  ghost predicate EntryTracked(log: seq<Event>, id: nat) {
    id in Run(log).store.contexts ==>
      id in BuildsOf(log).entries && BuiltAt(log, BuildsOf(log).entries[id], Run(log).store.contexts[id].ctx)
  }

  lemma BuiltAtGrows(log: seq<Event>, n: nat, ctx: Context)
    requires log != [] && BuiltAt(log[..|log| - 1], n, ctx)
    ensures BuiltAt(log, n, ctx)
  {
    assert log[..|log| - 1][..n] == log[..n];
  }

  /** A startup that holds a context after a step held it before, or the step built it. */
  lemma StartupStep(w: World, e: Event, c: nat)
    requires c < |Next(w, e).conns| && Next(w, e).conns[c].phase.Built?
    ensures var ctx := Next(w, e).conns[c].phase.ctx;
            if e == BuildStartup(c) && BuiltBy(w, e).Some? then BuiltBy(w, e) == Some(ctx)
            else c < |w.conns| && w.conns[c].phase.Built? && w.conns[c].phase.ctx == ctx
  {
    var w' := Next(w, e);
    assert c < |w.conns| && e != BuildStartup(c) ==> w'.conns[c].phase == w.conns[c].phase;
  }

  lemma TaskStep(w: World, e: Event, t: TaskId)
    requires t in Next(w, e).tasks && Next(w, e).tasks[t].built.Some?
    ensures var ctx := Next(w, e).tasks[t].built.value;
            if e == BuildTask(t) && BuiltBy(w, e).Some? then BuiltBy(w, e) == Some(ctx)
            else t in w.tasks && w.tasks[t].built == Some(ctx)
  {
  }

  lemma {:induction false} StartupsTracked(log: seq<Event>, c: nat)
    ensures StartupTracked(log, c)
    decreases log
  {
    if log != [] && c < |Run(log).conns| && Run(log).conns[c].phase.Built? {
      var init, e := log[..|log| - 1], log[|log| - 1];
      StartupStep(Run(init), e, c);
      if !(e == BuildStartup(c) && BuiltBy(Run(init), e).Some?) {
        StartupsTracked(init, c);
        BuiltAtGrows(log, StartupPoint(BuildsOf(init), c), Run(log).conns[c].phase.ctx);
      }
    }
  }

  lemma {:induction false} TasksTracked(log: seq<Event>, t: TaskId)
    ensures TaskTracked(log, t)
    decreases log
  {
    if log != [] {
      TasksTracked(log[..|log| - 1], t);
      TaskStepTracked(log, t);
    }
  }

  lemma TaskStepTracked(log: seq<Event>, t: TaskId)
    requires log != [] && TaskTracked(log[..|log| - 1], t)
    ensures TaskTracked(log, t)
  {
    var init, e := log[..|log| - 1], log[|log| - 1];
    var w, w' := Run(init), Run(log);
    if t in w'.tasks && w'.tasks[t].built.Some? {
      var ctx := w'.tasks[t].built.value;
      TaskStep(w, e, t);
      if e == BuildTask(t) && BuiltBy(w, e).Some? {
        assert BuiltAt(log, |init|, ctx);
      } else {
        BuiltAtGrows(log, TaskPoint(BuildsOf(init), t), ctx);
      }
    }
  }

  lemma {:induction false} EntriesTracked(log: seq<Event>, id: nat)
    ensures EntryTracked(log, id)
    decreases log
  {
    if log != [] && id in Run(log).store.contexts {
      var init, e := log[..|log| - 1], log[|log| - 1];
      var ctx := Run(log).store.contexts[id].ctx;
      EntryStep(Run(init), e, id);
      if e.InsertStartup? && Inserts(Run(init), e.conn) && Run(init).conns[e.conn].phase.id == id {
        StartupsTracked(init, e.conn);
        BuiltAtGrows(log, StartupPoint(BuildsOf(init), e.conn), ctx);
      } else if e.WriteTask? && Writes(Run(init), e.task) && e.task.id == id {
        TasksTracked(init, e.task);
        BuiltAtGrows(log, TaskPoint(BuildsOf(init), e.task), ctx);
      } else {
        EntriesTracked(init, id);
        BuiltAtGrows(log, BuildsOf(init).entries[id], ctx);
      }
    }
  }

  // ----- versions count commits -----

  lemma {:induction false} VersionsGrow(log: seq<Event>, i: nat, j: nat)
    requires i <= j <= |log|
    ensures Run(log[..i]).version <= Run(log[..j]).version
    decreases j
  {
    if i < j {
      assert log[..j][..j - 1] == log[..j - 1];
      VersionsGrow(log, i, j - 1);
      VersionStep(Run(log[..j - 1]), log[j - 1]);
    }
  }

  lemma VersionStep(w: World, e: Event)
    ensures Next(w, e).version == if e.CommitPolicy? then w.version + 1 else w.version
  {
  }

  ghost predicate CommitBetween(log: seq<Event>, i: nat, j: nat) {
    exists m :: i <= m < j && m < |log| && log[m].CommitPolicy?
  }

  lemma {:induction false} CommitRaisesVersion(log: seq<Event>, i: nat, j: nat)
    requires i <= j <= |log|
    ensures Run(log[..i]).version < Run(log[..j]).version <==> CommitBetween(log, i, j)
    decreases j
  {
    if i < j {
      assert log[..j][..j - 1] == log[..j - 1];
      CommitRaisesVersion(log, i, j - 1);
      VersionsGrow(log, i, j - 1);
      VersionStep(Run(log[..j - 1]), log[j - 1]);
      assert CommitBetween(log, i, j - 1) ==> CommitBetween(log, i, j);
    }
  }

  /** For every run, commit and stored entry: the entry reflects the commit exactly when the
      build step behind its context came after it. */
  lemma ReflectsIffBuiltAfter(log: seq<Event>, m: nat, id: nat)
    requires m < |log| && log[m].CommitPolicy? && id in Run(log).store.contexts
    ensures id in BuildsOf(log).entries && BuiltAt(log, BuildsOf(log).entries[id], Run(log).store.contexts[id].ctx)
    ensures Run(log).store.contexts[id].ctx.version > Run(log[..m]).version <==> BuildsOf(log).entries[id] > m
  {
    EntriesTracked(log, id);
    var n := BuildsOf(log).entries[id];
    if n < m {
      VersionsGrow(log, n, m);
    } else {
      CommitRaisesVersion(log, m, n);
      assert n > m ==> CommitBetween(log, m, n);
    }
  }

  // ----- contexts outrun by a commit and a rebuild -----

  /** The rebuild is for the user or the datasource of the context. */
  ghost predicate Concerns(f: Filter, ctx: Context) {
    match f
    case OfUser(user) => ctx.user == user
    case OfSource(source) => ctx.source == source
  }

  /** After position `n` came a commit, and after that a rebuild that concerns the context. */
  ghost predicate Outrun(log: seq<Event>, n: nat, ctx: Context) {
    exists r :: 0 <= r < |log| && log[r].Rebuild? && Concerns(log[r].filter, ctx) && CommitBetween(log, n, r)
  }

  lemma DemandStep(w: World, e: Event, ctx: Context)
    requires DemandPast(w)
    ensures Demand(Next(w, e), ctx.user, ctx.source) ==
            if e.Rebuild? && Concerns(e.filter, ctx) then w.version else Demand(w, ctx.user, ctx.source)
    ensures Demand(w, ctx.user, ctx.source) <= w.version
  {
  }

  lemma OutrunStep(log: seq<Event>, n: nat, ctx: Context)
    requires log != []
    ensures var init, e := log[..|log| - 1], log[|log| - 1];
            Outrun(log, n, ctx) <==>
            Outrun(init, n, ctx) || (e.Rebuild? && Concerns(e.filter, ctx) && CommitBetween(log, n, |init|))
  {
  }

  /** Being outrun since position `n` means being older than demanded. */
  lemma {:induction false} OutrunMeans(log: seq<Event>, n: nat, ctx: Context)
    requires n <= |log| && |Run(log).conns| <= U64
    ensures Outrun(log, n, ctx) <==> Run(log[..n]).version < Demand(Run(log), ctx.user, ctx.source)
    decreases log
  {
    RunsKeepPast(log);
    if n == |log| {
      assert log[..n] == log;
      DemandStep(Run(log), CommitPolicy, ctx);
    } else {
      var init, e := log[..|log| - 1], log[|log| - 1];
      ConnsOnlyGrow(Run(init), e);
      RunsKeepPast(init);
      OutrunMeans(init, n, ctx);
      assert log[..n] == init[..n] && log[..|init|] == init;
      OutrunStep(log, n, ctx);
      DemandStep(Run(init), e, ctx);
      CommitRaisesVersion(log, n, |init|);
    }
  }

  // ----- the order that keeps every entry served -----

  /** The task has not built, or was not outrun since. */
  ghost predicate CanMend(log: seq<Event>, t: TaskId, id: nat) {
    var w := Run(log);
    && t in w.tasks && t.id == id
    && (w.tasks[t].built.Some? ==> !Outrun(log, TaskPoint(BuildsOf(log), t), w.tasks[t].built.value))
  }

  /** The step does not store a context that was outrun since it was built, unless another
      task of the connection can still mend that. */
  ghost predicate InOrder(log: seq<Event>, e: Event) {
    var w := Run(log);
    match e
    case InsertStartup(c) =>
      Inserts(w, c) ==> !Outrun(log, StartupPoint(BuildsOf(log), c), w.conns[c].phase.ctx)
    case WriteTask(t) =>
      Writes(w, t) ==>
        || !Outrun(log, TaskPoint(BuildsOf(log), t), w.tasks[t].built.value)
        || exists k :: k != t && CanMend(log, k, t.id)
    case _ => true
  }

  lemma CanMendMeans(log: seq<Event>, t: TaskId, id: nat)
    requires |Run(log).conns| <= U64
    ensures CanMend(log, t, id) <==> Mends(Run(log), t, id)
  {
    var w := Run(log);
    if t in w.tasks && w.tasks[t].built.Some? {
      TasksTracked(log, t);
      OutrunMeans(log, TaskPoint(BuildsOf(log), t), w.tasks[t].built.value);
    }
  }

  lemma WriteInOrderMeans(log: seq<Event>, t: TaskId)
    requires |Run(log).conns| <= U64 && Writes(Run(log), t)
    ensures InOrder(log, WriteTask(t)) <==> TimelyWrite(Run(log), t)
  {
    TasksTracked(log, t);
    OutrunMeans(log, TaskPoint(BuildsOf(log), t), Run(log).tasks[t].built.value);
    forall k ensures CanMend(log, k, t.id) <==> Mends(Run(log), k, t.id) {
      CanMendMeans(log, k, t.id);
    }
  }

  lemma InsertInOrderMeans(log: seq<Event>, c: nat)
    requires |Run(log).conns| <= U64 && Inserts(Run(log), c)
    ensures InOrder(log, InsertStartup(c)) <==> TimelyInsert(Run(log), c)
  {
    StartupsTracked(log, c);
    OutrunMeans(log, StartupPoint(BuildsOf(log), c), Run(log).conns[c].phase.ctx);
  }

  /** A step keeps every entry served exactly when it is in order. */
  lemma StepInOrderExact(log: seq<Event>, e: Event)
    requires |Run(log).conns| <= U64 && AllServed(Run(log))
    ensures AllServed(Next(Run(log), e)) <==> InOrder(log, e)
  {
    var w := Run(log);
    RunsKeepPast(log);
    if e.WriteTask? && Writes(w, e.task) {
      WriteInOrderMeans(log, e.task);
      assert TimelyFor(w, e, e.task.id) <==> TimelyWrite(w, e.task);
    } else if e.InsertStartup? && Inserts(w, e.conn) {
      InsertInOrderMeans(log, e.conn);
      assert TimelyFor(w, e, w.conns[e.conn].phase.id) <==> TimelyInsert(w, e.conn);
    }
    forall id ensures Served(Next(w, e), id) <==> TimelyFor(w, e, id) {
      StepServedExact(w, e, id);
    }
  }

  ghost predicate AlwaysInOrder(log: seq<Event>) {
    log != [] ==> InOrder(log[..|log| - 1], log[|log| - 1]) && AlwaysInOrder(log[..|log| - 1])
  }

  ghost predicate AlwaysServed(log: seq<Event>) {
    AllServed(Run(log)) && (log != [] ==> AlwaysServed(log[..|log| - 1]))
  }

  /** Over any run, overlaps and late inserts included: every stored entry always reflects the
      last rebuild for its user and its datasource, or has a task that will mend it, exactly
      when no insert and no write stored a context after a commit and a rebuild that concerns
      it had passed since the context was built, with no task left to mend that. */
  lemma {:induction false} ServedIffInOrder(log: seq<Event>)
    requires |Run(log).conns| <= U64
    ensures AlwaysServed(log) <==> AlwaysInOrder(log)
    decreases log
  {
    if log == [] {
      forall id ensures Served(INITIAL, id) { }
    } else {
      var init, e := log[..|log| - 1], log[|log| - 1];
      ConnsOnlyGrow(Run(init), e);
      ServedIffInOrder(init);
      if AlwaysServed(init) {
        StepInOrderExact(init, e);
      }
    }
  }

  // ----- the order that keeps settled entries fresh -----

  /** The step does not insert a context that was outrun since it was built, nor write one
      with the last task for the connection. */
  ghost predicate LastInOrder(log: seq<Event>, e: Event) {
    var w := Run(log);
    match e
    case InsertStartup(c) =>
      Inserts(w, c) ==> !Outrun(log, StartupPoint(BuildsOf(log), c), w.conns[c].phase.ctx)
    case WriteTask(t) =>
      Writes(w, t) && LastTask(w, t) ==> !Outrun(log, TaskPoint(BuildsOf(log), t), w.tasks[t].built.value)
    case _ => true
  }

  lemma StepLastInOrderExact(log: seq<Event>, e: Event)
    requires |Run(log).conns| <= U64 && AllSettled(Run(log))
    ensures AllSettled(Next(Run(log), e)) <==> LastInOrder(log, e)
  {
    var w := Run(log);
    RunsKeepPast(log);
    if e.WriteTask? && Writes(w, e.task) {
      TasksTracked(log, e.task);
      OutrunMeans(log, TaskPoint(BuildsOf(log), e.task), w.tasks[e.task].built.value);
      assert SettlesFor(w, e, e.task.id) <==> LastInOrder(log, e);
    } else if e.InsertStartup? && Inserts(w, e.conn) {
      InsertInOrderMeans(log, e.conn);
      assert SettlesFor(w, e, w.conns[e.conn].phase.id) <==> TimelyInsert(w, e.conn);
    }
    forall id ensures Settled(Next(w, e), id) <==> SettlesFor(w, e, id) {
      StepSettledExact(w, e, id);
    }
  }

  ghost predicate AlwaysLastInOrder(log: seq<Event>) {
    log != [] ==> LastInOrder(log[..|log| - 1], log[|log| - 1]) && AlwaysLastInOrder(log[..|log| - 1])
  }

  ghost predicate AlwaysSettled(log: seq<Event>) {
    AllSettled(Run(log)) && (log != [] ==> AlwaysSettled(log[..|log| - 1]))
  }

  /** Over any run: whenever all tasks for a stored entry have finished it reflects the last
      rebuild for its user and its datasource, exactly when no insert, and no write by the
      last task for a connection, stored a context that was outrun since it was built. */
  lemma {:induction false} SettledIffLastInOrder(log: seq<Event>)
    requires |Run(log).conns| <= U64
    ensures AlwaysSettled(log) <==> AlwaysLastInOrder(log)
    decreases log
  {
    if log == [] {
      forall id ensures Settled(INITIAL, id) { }
    } else {
      var init, e := log[..|log| - 1], log[|log| - 1];
      ConnsOnlyGrow(Run(init), e);
      SettledIffLastInOrder(init);
      if AlwaysSettled(init) {
        StepLastInOrderExact(init, e);
      }
    }
  }

  /** Every insert was in order. */
  ghost predicate InsertsInOrder(log: seq<Event>) {
    log != [] ==>
      && (log[|log| - 1].InsertStartup? ==> LastInOrder(log[..|log| - 1], log[|log| - 1]))
      && InsertsInOrder(log[..|log| - 1])
  }

  /** Rebuilds that do not overlap leave only the inserts to keep in order. */
  lemma {:induction false} NoOverlapInOrder(log: seq<Event>)
    requires NeverOverlapping(log) && |Run(log).conns| <= U64
    ensures AlwaysLastInOrder(log) <==> InsertsInOrder(log)
    decreases log
  {
    if log != [] {
      var init, e := log[..|log| - 1], log[|log| - 1];
      ConnsOnlyGrow(Run(init), e);
      NoOverlapInOrder(init);
      if e.WriteTask? && Writes(Run(init), e.task) {
        RunsKeepTaskMeeting(init, e.task);
        TasksTracked(init, e.task);
        OutrunMeans(init, TaskPoint(BuildsOf(init), e.task), Run(init).tasks[e.task].built.value);
      }
    }
  }

  // ----- a rebuild started before its commit -----

  /** No later rebuild selects the entry. */
  ghost predicate NotSelectedAgain(log: seq<Event>, more: seq<Event>, id: nat)
    decreases more
  {
    more != [] ==>
      var init, e := more[..|more| - 1], more[|more| - 1];
      && (e.Rebuild? ==> id !in Chosen(Run(log + init), e.filter))
      && NotSelectedAgain(log, init, id)
  }

  /** The entry was inserted, and only `t` may still write into it. */
  ghost predicate OnlyTask(w: World, t: TaskId) {
    && t.id in w.inserted
    && t.round < w.round
    && LastTask(w, t)
  }

  /** What `t` has brought the entry, or will bring it, is newer than `version` exactly if `newer`. */
  ghost predicate Brings(w: World, t: TaskId, version: nat, newer: bool) {
    if t in w.tasks then (if w.tasks[t].built.Some? then w.tasks[t].built.value.version > version else true) == newer
    else t.id in w.store.contexts ==> (w.store.contexts[t.id].ctx.version > version) == newer
  }

  lemma StepKeepsOnlyTask(w: World, e: Event, t: TaskId)
    requires OnlyTask(w, t) && (e.Rebuild? ==> t.id !in Chosen(w, e.filter))
    ensures OnlyTask(Next(w, e), t)
  {
  }

  ghost predicate StepOf(e: Event, t: TaskId) {
    e == BuildTask(t) || e == WriteTask(t) || e == FailTask(t)
  }

  lemma OwnStepKeepsBrings(w: World, e: Event, t: TaskId, version: nat, newer: bool)
    requires StepOf(e, t) && w.version > version && Brings(w, t, version, newer)
    ensures Brings(Next(w, e), t, version, newer)
  {
  }

  lemma OtherStepKeepsTask(w: World, e: Event, t: TaskId)
    requires !StepOf(e, t) && t.round < w.round
    ensures t in Next(w, e).tasks <==> t in w.tasks
    ensures t in w.tasks ==> Next(w, e).tasks[t] == w.tasks[t]
  {
  }

  lemma StepKeepsBrings(w: World, e: Event, t: TaskId, version: nat, newer: bool)
    requires Identity(w) && OnlyTask(w, t) && w.version > version && Brings(w, t, version, newer)
    ensures Brings(Next(w, e), t, version, newer)
  {
    if StepOf(e, t) {
      OwnStepKeepsBrings(w, e, t, version, newer);
    } else {
      OtherStepKeepsTask(w, e, t);
      if t !in w.tasks && t.id in Next(w, e).store.contexts {
        EntryStep(w, e, t.id);
        if e.InsertStartup? && Inserts(w, e.conn) { assert PhaseOk(w, e.conn); }
      }
    }
  }

  lemma {:induction false} OnlyTaskStays(log: seq<Event>, more: seq<Event>, t: TaskId)
    requires OnlyTask(Run(log), t) && NotSelectedAgain(log, more, t.id)
    ensures OnlyTask(Run(log + more), t)
    decreases more
  {
    if more == [] {
      assert log + more == log;
    } else {
      var init, e := more[..|more| - 1], more[|more| - 1];
      assert (log + more)[..|log + more| - 1] == log + init;
      OnlyTaskStays(log, init, t);
      StepKeepsOnlyTask(Run(log + init), e, t);
    }
  }

  lemma {:induction false} BringsStays(log: seq<Event>, more: seq<Event>, t: TaskId, version: nat, newer: bool)
    requires |Run(log + more).conns| <= U64 && NotSelectedAgain(log, more, t.id)
    requires OnlyTask(Run(log), t) && Run(log).version > version && Brings(Run(log), t, version, newer)
    ensures Brings(Run(log + more), t, version, newer) && Run(log + more).version > version
    decreases more
  {
    if more == [] {
      assert log + more == log;
    } else {
      var init, e := more[..|more| - 1], more[|more| - 1];
      assert (log + more)[..|log + more| - 1] == log + init;
      var w := Run(log + init);
      ConnsOnlyGrow(w, e);
      BringsStays(log, init, t, version, newer);
      OnlyTaskStays(log, init, t);
      RunsKeepIdentity(log + init);
      StepKeepsBrings(w, e, t, version, newer);
      VersionStep(w, e);
    }
  }

  lemma RebuildMakesOnlyTask(w: World, f: Filter, id: nat)
    requires ContextsOk(w) && id in Chosen(w, f) && !Unfinished(w, id)
    ensures OnlyTask(AfterRebuild(w, f), TaskId(w.round, id))
  {
    assert EntryOk(w, id, w.store.contexts[id]);
    forall k | k in AfterRebuild(w, f).tasks && k.id == id ensures k == TaskId(w.round, id) {
      SpawnedMeans(w, f, k);
    }
  }

  lemma RebuildStartsOnlyTask(log: seq<Event>, f: Filter, id: nat)
    requires |Run(log).conns| <= U64 && id in Chosen(Run(log), f) && !Unfinished(Run(log), id)
    ensures OnlyTask(Run(log + [Rebuild(f)]), TaskId(Run(log).round, id))
  {
    RunsKeepIdentity(log);
    RunPush(log, Rebuild(f));
    RebuildMakesOnlyTask(Run(log), f, id);
  }

  /** A rebuild is started, the commit follows, and no other rebuild of the connection
      interferes. Once the task has finished, the entry reflects the commit exactly when the
      task had not built its context when the commit came. */
  lemma RebuildBeforeCommitExact(log: seq<Event>, f: Filter, mid: seq<Event>, post: seq<Event>, id: nat)
    requires id in Chosen(Run(log), f) && !Unfinished(Run(log), id)
    requires NotSelectedAgain(log + [Rebuild(f)], mid, id)
    requires NotSelectedAgain(log + [Rebuild(f)] + mid + [CommitPolicy], post, id)
    requires var w := Run(log + [Rebuild(f)] + mid + [CommitPolicy] + post);
             && |w.conns| <= U64
             && TaskId(Run(log).round, id) !in w.tasks && id in w.store.contexts
    ensures var t, at := TaskId(Run(log).round, id), Run(log + [Rebuild(f)] + mid);
            Run(log + [Rebuild(f)] + mid + [CommitPolicy] + post).store.contexts[id].ctx.version > at.version <==>
            t in at.tasks && at.tasks[t].built.None?
  {
    var t, start := TaskId(Run(log).round, id), log + [Rebuild(f)];
    var at, committed := start + mid, start + mid + [CommitPolicy];
    RunBounded(committed, post);
    RunBounded(at, [CommitPolicy]);
    RunBounded(start, mid);
    RunBounded(log, [Rebuild(f)]);
    RebuildStartsOnlyTask(log, f, id);
    OnlyTaskStays(start, mid, t);
    RunsKeepPast(at);
    assert TaskPast(Run(at), t) && EntryPast(Run(at), id);
    var newer := t in Run(at).tasks && Run(at).tasks[t].built.None?;
    RunPush(at, CommitPolicy);
    assert Brings(Run(committed), t, Run(at).version, newer);
    BringsStays(committed, post, t, Run(at).version, newer);
  }
}
