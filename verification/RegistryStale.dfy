/** Runs in which stored contexts stay behind the policies, each for one reason alone. */
module RegistryStale {
  import opened Walks
  import opened Registry
  import opened RegistrySafety
  import opened RegistryFreshness
  import opened RegistryOrder

  /** One step more. */
  lemma LogPush(log: seq<Event>, e: Event)
    ensures Run(log + [e]) == Next(Run(log), e)
    ensures NeverOverlapping(log) && NoOverlap(Run(log), e) ==> NeverOverlapping(log + [e])
    ensures InsertsInOrder(log) && (e.InsertStartup? ==> LastInOrder(log, e)) ==> InsertsInOrder(log + [e])
  {
    assert (log + [e])[..|log|] == log;
  }

  /** So far inserts came in order and rebuilds did not overlap. */
  ghost predicate Clean(log: seq<Event>) {
    NeverOverlapping(log) && InsertsInOrder(log)
  }

  /** One connection that has built its context under policy version 0 but not inserted it. */
  lemma OneStartup(a: Addr, user: UserId, source: SourceName) returns (log: seq<Event>)
    ensures Clean(log)
    ensures var w := Run(log);
            && w.store.contexts == map[] && w.tasks == map[] && w.round == 0 && w.version == 0
            && w.forUser == map[] && w.forSource == map[]
            && |w.conns| == 1 && Open(w, 0) && w.conns[0].phase == Built(0, Context(user, source, 0))
  {
    var l1 := [] + [Accept(a, true)];
    var l2 := l1 + [StartClaim(0, user, source)];
    log := l2 + [BuildStartup(0)];
    LogPush([], Accept(a, true));
    LogPush(l1, StartClaim(0, user, source));
    LogPush(l2, BuildStartup(0));
  }

  /** The store holds one entry, for connection 0, and only one connection was accepted. */
  ghost predicate OnlyEntry(w: World, user: UserId, source: SourceName, version: nat) {
    |w.conns| == 1 && w.store.contexts == map[0 := Entry(Context(user, source, version), user, source)]
  }

  lemma OneSession(a: Addr, user: UserId, source: SourceName) returns (log: seq<Event>)
    ensures OnlyEntry(Run(log), user, source, 0) && Clean(log)
    ensures Run(log).tasks == map[] && Run(log).round == 0 && Run(log).version == 0
  {
    var l0 := OneStartup(a, user, source);
    log := l0 + [InsertStartup(0)];
    FirstInsert(l0, user, source);
    InsertInOrderMeans(l0, 0);
    LogPush(l0, InsertStartup(0));
  }

  lemma FirstInsert(log: seq<Event>, user: UserId, source: SourceName)
    requires Run(log).store.contexts == map[] && |Run(log).conns| == 1
    requires Open(Run(log), 0) && Run(log).conns[0].phase == Built(0, Context(user, source, 0))
    ensures var w, w' := Run(log), Run(log + [InsertStartup(0)]);
            && OnlyEntry(w', user, source, 0) && w'.tasks == w.tasks && w'.round == w.round && w'.version == w.version
            && w'.forUser == w.forUser && w'.forSource == w.forSource
  {
    RunPush(log, InsertStartup(0));
  }

  lemma OneChosen(w: World, user: UserId, source: SourceName, version: nat)
    requires OnlyEntry(w, user, source, version)
    ensures Chosen(w, OfUser(user)) == w.store.contexts
  {
  }

  lemma OneSpawned(w: World, user: UserId, source: SourceName, version: nat)
    requires OnlyEntry(w, user, source, version)
    ensures Spawned(w, OfUser(user)) == map[TaskId(w.round, 0) := Task(user, source, None)]
  {
    var f, spawned := OfUser(user), Spawned(w, OfUser(user));
    OneChosen(w, user, source, version);
    forall t ensures t in spawned <==> t == TaskId(w.round, 0) {
      SpawnedMeans(w, f, t);
    }
    SpawnedMeans(w, f, TaskId(w.round, 0));
  }

  lemma NoneSpawned(w: World, f: Filter)
    requires w.store.contexts == map[]
    ensures AfterRebuild(w, f).tasks == w.tasks
  {
    forall t ensures t !in Spawned(w, f) {
      SpawnedMeans(w, f, t);
    }
  }

  /** Start a rebuild of the only entry. */
  lemma StartRebuild(log: seq<Event>, user: UserId, source: SourceName, version: nat)
    requires OnlyEntry(Run(log), user, source, version)
    ensures var w, w' := Run(log), Run(log + [Rebuild(OfUser(user))]);
            && OnlyEntry(w', user, source, version) && w'.round == w.round + 1 && w'.version == w.version
            && w'.tasks == w.tasks + map[TaskId(w.round, 0) := Task(user, source, None)]
            && w'.forUser == w.forUser[user := w.version] && w'.forSource == w.forSource
  {
    RunPush(log, Rebuild(OfUser(user)));
    OneSpawned(Run(log), user, source, version);
  }

  /** Let a task build its context. */
  lemma LetBuild(log: seq<Event>, t: TaskId, user: UserId, source: SourceName)
    requires t in Run(log).tasks && Run(log).tasks[t] == Task(user, source, None)
    ensures var w, w' := Run(log), Run(log + [BuildTask(t)]);
            && w'.store == w.store && w'.conns == w.conns && w'.round == w.round && w'.version == w.version
            && w'.forUser == w.forUser && w'.forSource == w.forSource
            && w'.tasks == w.tasks[t := Task(user, source, Some(Context(user, source, w.version)))]
  {
    RunPush(log, BuildTask(t));
  }

  /** Start a rebuild and let its task build. */
  lemma RebuildAndBuild(log: seq<Event>, user: UserId, source: SourceName, version: nat) returns (log': seq<Event>)
    requires OnlyEntry(Run(log), user, source, version) && InsertsInOrder(log)
    ensures var w, w' := Run(log), Run(log');
            && OnlyEntry(w', user, source, version) && w'.round == w.round + 1 && w'.version == w.version
            && w'.tasks == w.tasks[TaskId(w.round, 0) := Task(user, source, Some(Context(user, source, w.version)))]
            && w'.forUser == w.forUser[user := w.version] && w'.forSource == w.forSource
    ensures InsertsInOrder(log') && (NeverOverlapping(log) && Run(log).tasks == map[] ==> NeverOverlapping(log'))
  {
    var t := TaskId(Run(log).round, 0);
    StartRebuild(log, user, source, version);
    LogPush(log, Rebuild(OfUser(user)));
    var l := log + [Rebuild(OfUser(user))];
    LetBuild(l, t, user, source);
    LogPush(l, BuildTask(t));
    log' := l + [BuildTask(t)];
  }

  /** Let a built task write back. */
  lemma WriteBack(log: seq<Event>, user: UserId, source: SourceName, version: nat, t: TaskId, built: nat)
    requires OnlyEntry(Run(log), user, source, version)
    requires t in Run(log).tasks && t.id == 0
    requires Run(log).tasks[t] == Task(user, source, Some(Context(user, source, built)))
    ensures var w, w' := Run(log), Run(log + [WriteTask(t)]);
            && OnlyEntry(w', user, source, built)
            && w'.tasks == w.tasks - {t} && w'.version == w.version
            && w'.forUser == w.forUser && w'.forSource == w.forSource
  {
    RunPush(log, WriteTask(t));
  }

  /** A task of the session has built before a commit. */
  lemma BuiltThenCommitted(a: Addr, user: UserId, source: SourceName) returns (log: seq<Event>)
    ensures InsertsInOrder(log) && OnlyEntry(Run(log), user, source, 0)
    ensures Run(log).version == 1 && Run(log).round == 1
    ensures Run(log).tasks == map[TaskId(0, 0) := Task(user, source, Some(Context(user, source, 0)))]
  {
    var l0 := OneSession(a, user, source);
    var l1 := RebuildAndBuild(l0, user, source, 0);
    LogPush(l1, CommitPolicy);
    log := l1 + [CommitPolicy];
  }

  /** Writing back is no insert. */
  lemma WriteKeepsInserts(log: seq<Event>, t: TaskId)
    requires InsertsInOrder(log)
    ensures InsertsInOrder(log + [WriteTask(t)])
  {
    LogPush(log, WriteTask(t));
  }

  /** A second one builds after it, and the first one writes last. */
  lemma OlderWritesLast(log: seq<Event>, user: UserId, source: SourceName, older: TaskId, newer: TaskId)
    requires OnlyEntry(Run(log), user, source, 0) && older.id == newer.id == 0 && older != newer
    requires user in Run(log).forUser && Run(log).forUser[user] == 1
    requires Run(log).tasks == map[older := Task(user, source, Some(Context(user, source, 0))),
                                   newer := Task(user, source, Some(Context(user, source, 1)))]
    ensures var w := Run(log + [WriteTask(newer)] + [WriteTask(older)]);
            w.tasks == map[] && OnlyEntry(w, user, source, 0) && !Settled(w, 0)
  {
    WriteBack(log, user, source, 0, newer, 1);
    var l1 := log + [WriteTask(newer)];
    WriteBack(l1, user, source, 1, older, 0);
    assert Run(l1 + [WriteTask(older)]).tasks == map[];
  }

  /** Two rebuilds of one connection overlap and the older one writes last: every insert was in
      order and every task has finished, but the entry reflects version 0 although version 1
      was rebuilt for. */
  lemma OverlapLeavesStale(a: Addr, user: UserId, source: SourceName) returns (log: seq<Event>)
    ensures InsertsInOrder(log)
    ensures Run(log).tasks == map[] && OnlyEntry(Run(log), user, source, 0)
    ensures !Settled(Run(log), 0)
  {
    var older, newer := TaskId(0, 0), TaskId(1, 0);
    var l0 := BuiltThenCommitted(a, user, source);
    var l1 := RebuildAndBuild(l0, user, source, 0);
    OlderWritesLast(l1, user, source, older, newer);
    WriteKeepsInserts(l1, newer);
    WriteKeepsInserts(l1 + [WriteTask(newer)], older);
    log := l1 + [WriteTask(newer)] + [WriteTask(older)];
  }

  lemma RebuildNothing(log: seq<Event>, f: Filter)
    requires Run(log).store.contexts == map[]
    ensures var w, w' := Run(log), Run(log + [Rebuild(f)]);
            && w'.store == w.store && w'.conns == w.conns && w'.tasks == w.tasks && w'.version == w.version
            && (f.OfUser? ==> w'.forUser == w.forUser[f.user := w.version])
  {
    RunPush(log, Rebuild(f));
    NoneSpawned(Run(log), f);
  }

  /** A startup that built its context before a commit and inserts it after the rebuild is
      missed: no rebuilds overlapped and nothing is running, but the entry reflects the old version. */
  lemma LateInsertIsStale(a: Addr, user: UserId, source: SourceName) returns (log: seq<Event>)
    ensures NeverOverlapping(log)
    ensures Run(log).tasks == map[] && OnlyEntry(Run(log), user, source, 0)
    ensures !Settled(Run(log), 0)
  {
    var l0 := OneStartup(a, user, source);
    var l1 := l0 + [CommitPolicy];
    LogPush(l0, CommitPolicy);
    RebuildNothing(l1, OfUser(user));
    LogPush(l1, Rebuild(OfUser(user)));
    var l2 := l1 + [Rebuild(OfUser(user))];
    FirstInsert(l2, user, source);
    LogPush(l2, InsertStartup(0));
    log := l2 + [InsertStartup(0)];
  }

  /** Rebuilding before the commit, as role deletion does, leaves the old version in place:
      everything was in order, a rebuild took place and finished, and the entry always reflected
      the last rebuild, but not the commit. */
  lemma RebuildBeforeCommitIsStale(a: Addr, user: UserId, source: SourceName) returns (log: seq<Event>)
    ensures NeverOverlapping(log) && AlwaysSettled(log) && user in Run(log).forUser
    ensures Run(log).tasks == map[] && Run(log).version == 1 && OnlyEntry(Run(log), user, source, 0)
  {
    var t := TaskId(0, 0);
    var l0 := OneSession(a, user, source);
    var l1 := RebuildAndBuild(l0, user, source, 0);
    WriteBack(l1, user, source, 0, t, 0);
    LogPush(l1, WriteTask(t));
    var l2 := l1 + [WriteTask(t)];
    log := l2 + [CommitPolicy];
    LogPush(l2, CommitPolicy);
    assert Run(log).tasks == map[];
    NoOverlapInOrder(log);
    SettledIffLastInOrder(log);
  }
}
