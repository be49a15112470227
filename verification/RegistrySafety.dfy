/** What every interleaving of the registry's steps keeps. */
module RegistrySafety {
  import opened Walks
  import opened Registry

  // ----- identity: no assumption on addresses -----

  /** Pending ids are unclaimed and wait under the address they were registered for. */
  ghost predicate PendingOk(w: World) {
    forall a :: a in w.store.pending ==>
      && w.store.pending[a] < |w.conns|
      && w.conns[w.store.pending[a]].registered && w.conns[w.store.pending[a]].addr == a
      && w.store.pending[a] !in w.claims
  }

  /** Connection ids are handed out in order. */
  ghost predicate IdsOk(w: World) {
    && w.store.next == |w.conns| % U64
    && (forall i :: 0 <= i < |w.conns| ==> w.conns[i].id == i)
  }

  ghost predicate ClaimedBy(w: World, id: nat, c: nat, user: UserId, source: SourceName) {
    id in w.claims && w.claims[id] == Claim(c, user, source)
  }

  /** What a startup carries is what it claimed, and it was not inserted yet. */
  ghost predicate PhaseOk(w: World, c: nat)
    requires c < |w.conns|
  {
    match w.conns[c].phase
    case Idle => true
    case Claimed(id, user, source) => ClaimedBy(w, id, c, user, source) && id !in w.inserted
    case Built(id, ctx) => ClaimedBy(w, id, c, ctx.user, ctx.source) && id !in w.inserted
  }

  ghost predicate PhasesOk(w: World) {
    forall c :: 0 <= c < |w.conns| ==> PhaseOk(w, c)
  }

  ghost predicate EntryOk(w: World, id: nat, e: Entry) {
    && id in w.claims && id in w.inserted
    && e.user == w.claims[id].user && e.source == w.claims[id].source
    && e.ctx.user == e.user && e.ctx.source == e.source
  }

  ghost predicate ContextsOk(w: World) {
    forall id :: id in w.store.contexts ==> EntryOk(w, id, w.store.contexts[id])
  }

  ghost predicate TaskOk(w: World, t: TaskId, task: Task) {
    && t.round < w.round && t.id in w.claims
    && task.user == w.claims[t.id].user && task.source == w.claims[t.id].source
    && (task.built.Some? ==> task.built.value.user == task.user && task.built.value.source == task.source)
  }

  ghost predicate TasksOk(w: World) {
    forall t :: t in w.tasks ==> TaskOk(w, t, w.tasks[t])
  }

  ghost predicate ClaimsOk(w: World) {
    && NoDup(w.claimLog) && Elems(w.claimLog) == w.claims.Keys
    && (forall id :: id in w.claims ==> id < |w.conns|)
    && w.inserted <= w.claims.Keys
  }

  ghost predicate Identity(w: World) {
    PendingOk(w) && IdsOk(w) && PhasesOk(w) && ContextsOk(w) && TasksOk(w) && ClaimsOk(w)
  }

  lemma AcceptKeepsIdentity(w: World, addr: Addr, registered: bool)
    requires Identity(w) && |w.conns| < U64
    ensures Identity(AfterAccept(w, addr, registered))
  {
    var w' := AfterAccept(w, addr, registered);
    assert w.store.next == |w.conns|;
    assert forall c :: 0 <= c < |w.conns| ==> w'.conns[c] == w.conns[c];
    forall c | 0 <= c < |w'.conns| ensures PhaseOk(w', c) {
      if c < |w.conns| { assert PhaseOk(w, c); }
    }
  }

  lemma ClaimKeepsIdentity(w: World, c: nat, user: UserId, source: SourceName)
    requires Identity(w) && Open(w, c) && w.conns[c].phase.Idle? && w.conns[c].addr in w.store.pending
    ensures Identity(AfterClaim(w, c, user, source))
  {
    var w' := AfterClaim(w, c, user, source);
    var id := w.store.pending[w.conns[c].addr];
    assert w'.claimLog[..|w.claimLog|] == w.claimLog;
    assert id !in w.claimLog by { assert id !in Elems(w.claimLog); }
    forall k | 0 <= k < |w'.conns| ensures PhaseOk(w', k) {
      assert PhaseOk(w, k);
    }
    forall a | a in w'.store.pending ensures w'.store.pending[a] != id {
      assert w.conns[w.store.pending[a]].addr == a;
    }
  }

  lemma InsertKeepsIdentity(w: World, c: nat)
    requires Identity(w) && Open(w, c) && w.conns[c].phase.Built?
    ensures Identity(AfterInsert(w, c, w.conns[c].phase.id, w.conns[c].phase.ctx))
  {
    var id := w.conns[c].phase.id;
    var w' := AfterInsert(w, c, id, w.conns[c].phase.ctx);
    assert PhaseOk(w, c);
    forall k | 0 <= k < |w'.conns| ensures PhaseOk(w', k) {
      assert PhaseOk(w, k);
    }
    forall i | i in w'.store.contexts ensures EntryOk(w', i, w'.store.contexts[i]) {
      if i != id { assert EntryOk(w, i, w.store.contexts[i]); }
    }
    forall t | t in w'.tasks ensures TaskOk(w', t, w'.tasks[t]) {
      assert TaskOk(w, t, w.tasks[t]);
    }
  }

  lemma PhaseStepKeepsIdentity(w: World, c: nat, phase: Phase)
    requires Identity(w) && Open(w, c)
    requires match phase
             case Idle => true
             case Claimed(id, user, source) => false
             case Built(id, ctx) => w.conns[c].phase == Claimed(id, ctx.user, ctx.source)
    ensures Identity(SetPhase(w, c, phase))
  {
    var w' := SetPhase(w, c, phase);
    assert PhaseOk(w, c);
    forall k | 0 <= k < |w'.conns| ensures PhaseOk(w', k) {
      assert PhaseOk(w, k);
    }
    forall i | i in w'.store.contexts ensures EntryOk(w', i, w'.store.contexts[i]) {
      assert EntryOk(w, i, w.store.contexts[i]);
    }
    forall t | t in w'.tasks ensures TaskOk(w', t, w'.tasks[t]) {
      assert TaskOk(w, t, w.tasks[t]);
    }
  }

  lemma CloseKeepsIdentity(w: World, c: nat)
    requires Identity(w) && Open(w, c)
    ensures Identity(AfterClose(w, c))
  {
    var w' := AfterClose(w, c);
    forall k | 0 <= k < |w'.conns| ensures PhaseOk(w', k) {
      assert PhaseOk(w, k);
    }
    forall i | i in w'.store.contexts ensures EntryOk(w', i, w'.store.contexts[i]) {
      assert EntryOk(w, i, w.store.contexts[i]);
    }
    forall t | t in w'.tasks ensures TaskOk(w', t, w'.tasks[t]) {
      assert TaskOk(w, t, w.tasks[t]);
    }
  }

  lemma RebuildKeepsIdentity(w: World, f: Filter)
    requires Identity(w)
    ensures Identity(AfterRebuild(w, f))
  {
    var w' := AfterRebuild(w, f);
    forall t | t in w'.tasks ensures TaskOk(w', t, w'.tasks[t]) {
      if t in Spawned(w, f) {
        assert t.id in w.store.contexts;
        assert EntryOk(w, t.id, w.store.contexts[t.id]);
      } else {
        assert TaskOk(w, t, w.tasks[t]);
      }
    }
    forall k | 0 <= k < |w'.conns| ensures PhaseOk(w', k) {
      assert PhaseOk(w, k);
    }
    forall i | i in w'.store.contexts ensures EntryOk(w', i, w'.store.contexts[i]) {
      assert EntryOk(w, i, w.store.contexts[i]);
    }
  }

  /** The steps of rebuild tasks, and a policy commit. */
  ghost predicate TaskEvent(e: Event) {
    e.CommitPolicy? || e.BuildTask? || e.WriteTask? || e.FailTask?
  }

  lemma TaskStepKeepsTask(w: World, e: Event, t: TaskId)
    requires TasksOk(w) && TaskEvent(e) && t in Next(w, e).tasks
    ensures TaskOk(Next(w, e), t, Next(w, e).tasks[t])
  {
    assert TaskOk(w, t, w.tasks[t]);
  }

  lemma TaskStepKeepsEntry(w: World, e: Event, id: nat)
    requires TasksOk(w) && ContextsOk(w) && TaskEvent(e) && id in Next(w, e).store.contexts
    ensures EntryOk(Next(w, e), id, Next(w, e).store.contexts[id])
  {
    assert EntryOk(w, id, w.store.contexts[id]);
    if !e.CommitPolicy? && e.task in w.tasks {
      assert TaskOk(w, e.task, w.tasks[e.task]);
    }
  }

  lemma TaskStepKeepsIdentity(w: World, e: Event)
    requires Identity(w) && TaskEvent(e)
    ensures Identity(Next(w, e))
  {
    var w' := Next(w, e);
    forall t | t in w'.tasks ensures TaskOk(w', t, w'.tasks[t]) {
      TaskStepKeepsTask(w, e, t);
    }
    forall k | 0 <= k < |w'.conns| ensures PhaseOk(w', k) {
      assert PhaseOk(w, k);
    }
    forall i | i in w'.store.contexts ensures EntryOk(w', i, w'.store.contexts[i]) {
      TaskStepKeepsEntry(w, e, i);
    }
  }

  lemma StepKeepsIdentity(w: World, e: Event)
    requires Identity(w) && |Next(w, e).conns| <= U64
    ensures Identity(Next(w, e))
  {
    match e
    case Accept(addr, registered) => AcceptKeepsIdentity(w, addr, registered);
    case StartClaim(c, user, source) =>
      if Next(w, e) != w { ClaimKeepsIdentity(w, c, user, source); }
    case BuildStartup(c) =>
      if Next(w, e) != w { PhaseStepKeepsIdentity(w, c, Next(w, e).conns[c].phase); }
    case InsertStartup(c) =>
      if Next(w, e) != w { InsertKeepsIdentity(w, c); }
    case AbortStartup(c) =>
      if Next(w, e) != w { PhaseStepKeepsIdentity(w, c, Idle); }
    case Close(c) =>
      if Next(w, e) != w { CloseKeepsIdentity(w, c); }
    case CommitPolicy => TaskStepKeepsIdentity(w, e);
    case Rebuild(f) => RebuildKeepsIdentity(w, f);
    case BuildTask(t) => TaskStepKeepsIdentity(w, e);
    case WriteTask(t) => TaskStepKeepsIdentity(w, e);
    case FailTask(t) => TaskStepKeepsIdentity(w, e);
  }

  /** A claim, once made, stands. */
  lemma StepKeepsClaim(w: World, e: Event, id: nat)
    requires PendingOk(w) && id in w.claims
    ensures id in Next(w, e).claims && Next(w, e).claims[id] == w.claims[id]
  {
    if e.StartClaim? && Open(w, e.conn) && w.conns[e.conn].addr in w.store.pending {
      assert w.store.pending[w.conns[e.conn].addr] !in w.claims;
    }
  }

  lemma ConnsOnlyGrow(w: World, e: Event)
    ensures |w.conns| <= |Next(w, e).conns|
    ensures forall c :: 0 <= c < |w.conns| && !w.conns[c].open ==> !Next(w, e).conns[c].open
  {
  }

  lemma {:induction false} RunBounded(log: seq<Event>, more: seq<Event>)
    ensures |Run(log).conns| <= |Run(log + more).conns|
    decreases more
  {
    if more == [] {
      assert log + more == log;
    } else {
      assert (log + more)[..|log + more| - 1] == log + more[..|more| - 1];
      RunBounded(log, more[..|more| - 1]);
      ConnsOnlyGrow(Run(log + more[..|more| - 1]), more[|more| - 1]);
    }
  }

  /** In every interleaving that accepts at most 2^64 connections. */
  lemma {:induction false} RunsKeepIdentity(log: seq<Event>)
    requires |Run(log).conns| <= U64
    ensures Identity(Run(log))
    decreases log
  {
    if log != [] {
      var before, e := Run(log[..|log| - 1]), log[|log| - 1];
      ConnsOnlyGrow(before, e);
      RunsKeepIdentity(log[..|log| - 1]);
      StepKeepsIdentity(before, e);
    }
  }

  /** No id is claimed twice, and the context under an id, like the entry and every rebuild
      for it, is for the user and datasource its claimant authenticated as. */
  lemma ContextsBelongToClaimants(log: seq<Event>)
    requires |Run(log).conns| <= U64
    ensures forall i, j :: 0 <= i < j < |Run(log).claimLog| ==> Run(log).claimLog[i] != Run(log).claimLog[j]
    ensures forall id :: id in Run(log).store.contexts ==>
              && id in Run(log).claims
              && Run(log).store.contexts[id].ctx.user == Run(log).claims[id].user
              && Run(log).store.contexts[id].ctx.source == Run(log).claims[id].source
  {
    RunsKeepIdentity(log);
    NoDupMeans(Run(log).claimLog);
    forall id | id in Run(log).store.contexts ensures EntryOk(Run(log), id, Run(log).store.contexts[id]) {
    }
  }
}
