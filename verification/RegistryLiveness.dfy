/** Which ids the registry holds. Whatever the addresses, pending ids belong to open
    connections; stored contexts do exactly as long as every startup inserts under the id of
    an open connection, and sit under their own connection's id exactly as long as every
    startup inserts under its own. Distinct peer addresses ensure both. */
module RegistryLiveness {
  import opened Walks
  import opened Registry
  import opened RegistrySafety

  // ----- no id of a connection that is gone -----

  ghost predicate PendingOpen(w: World) {
    forall a :: a in w.store.pending ==> Open(w, w.store.pending[a])
  }

  ghost predicate ContextsOpen(w: World) {
    forall id :: id in w.store.contexts ==> Open(w, id)
  }

  /** Nothing is stored for a connection that is gone. */
  ghost predicate StoredOpen(w: World) {
    PendingOpen(w) && ContextsOpen(w)
  }

  /** The step, if it is an insert that goes through, uses the id of an open connection. */
  ghost predicate OpenInsert(w: World, e: Event) {
    e.InsertStartup? && Inserts(w, e.conn) ==> Open(w, w.conns[e.conn].phase.id)
  }

  /** A step opens or closes no connection but its own. */
  lemma StepKeepsOthersOpen(w: World, e: Event, c: nat)
    requires c < |w.conns|
    ensures Open(Next(w, e), c) <==> Open(w, c) && !(e.Close? && e.conn == c)
  {
  }

  /** Only an accept registers an id, and only its own. */
  lemma StepKeepsPending(w: World, e: Event, a: Addr)
    requires IdsOk(w) && |Next(w, e).conns| <= U64 && a in Next(w, e).store.pending
    ensures if e.Accept? && e.registered && e.addr == a then Next(w, e).store.pending[a] == |w.conns|
            else a in w.store.pending && Next(w, e).store.pending[a] == w.store.pending[a]
  {
  }

  /** A connection keeps the address it was accepted from. */
  lemma StepKeepsAddress(w: World, e: Event, c: nat)
    requires c < |Next(w, e).conns|
    ensures if c < |w.conns|
            then Next(w, e).conns[c].addr == w.conns[c].addr && Next(w, e).conns[c].registered == w.conns[c].registered
            else e.Accept? && c == |w.conns| && Next(w, e).conns[c] == Conn(w.store.next, e.addr, e.registered, true, Idle)
  {
  }

  /** Closing a connection also removes its pending id. */
  lemma CloseUnpends(w: World, c: nat, a: Addr)
    requires Identity(w) && Open(w, c) && a in AfterClose(w, c).store.pending
    ensures w.store.pending[a] != c
  {
  }

  lemma StepKeepsPendingOpen(w: World, e: Event, a: Addr)
    requires Identity(w) && PendingOpen(w) && |Next(w, e).conns| <= U64 && a in Next(w, e).store.pending
    ensures Open(Next(w, e), Next(w, e).store.pending[a])
  {
    StepKeepsPending(w, e, a);
    if !(e.Accept? && e.registered && e.addr == a) {
      StepKeepsOthersOpen(w, e, w.store.pending[a]);
      if e.Close? && Open(w, e.conn) { CloseUnpends(w, e.conn, a); }
    }
  }

  ghost predicate InsertsUnder(w: World, e: Event, id: nat) {
    e.InsertStartup? && Inserts(w, e.conn) && w.conns[e.conn].phase.id == id
  }

  ghost predicate Evicts(w: World, e: Event, id: nat) {
    e.FailTask? && e.task in w.tasks && e.task.id == id
  }

  ghost predicate Closes(w: World, e: Event, id: nat) {
    e.Close? && e.conn == id && Open(w, id)
  }

  /** An id is stored after a step exactly when the step inserts it, or it was stored and is
      neither evicted nor closed. */
  lemma StepStoresExact(w: World, e: Event, id: nat)
    requires IdsOk(w)
    ensures id in Next(w, e).store.contexts <==>
            InsertsUnder(w, e, id) || (id in w.store.contexts && !Evicts(w, e, id) && !Closes(w, e, id))
  {
    if e.Close? && Open(w, e.conn) {
      assert w.conns[e.conn].id == e.conn;
    }
  }

  /** The one step that can store an id of a connection that is gone is an insert under it. */
  lemma StepContextsExact(w: World, e: Event)
    requires Identity(w) && ContextsOpen(w)
    ensures ContextsOpen(Next(w, e)) <==> OpenInsert(w, e)
  {
    if e.InsertStartup? && Inserts(w, e.conn) {
      InsertContextsExact(w, e.conn);
    } else {
      forall id | id in Next(w, e).store.contexts ensures Open(Next(w, e), id) {
        StepStoresExact(w, e, id);
        assert Open(w, id);
        StepKeepsOthersOpen(w, e, id);
      }
    }
  }

  lemma InsertContextsExact(w: World, c: nat)
    requires Identity(w) && ContextsOpen(w) && Inserts(w, c)
    ensures ContextsOpen(Next(w, InsertStartup(c))) <==> Open(w, w.conns[c].phase.id)
  {
    var w' := Next(w, InsertStartup(c));
    assert PhaseOk(w, c);
    assert w.conns[c].phase.id in w'.store.contexts;
    forall id | id in w.store.contexts ensures Open(w', id) {
      assert Open(w, id);
    }
  }

  ghost predicate OpenInserts(log: seq<Event>) {
    log != [] ==> OpenInsert(Run(log[..|log| - 1]), log[|log| - 1]) && OpenInserts(log[..|log| - 1])
  }

  ghost predicate AlwaysStoredOpen(log: seq<Event>) {
    StoredOpen(Run(log)) && (log != [] ==> AlwaysStoredOpen(log[..|log| - 1]))
  }

  /** Pending ids belong to open connections, in every run. */
  lemma {:induction false} RunsKeepPendingOpen(log: seq<Event>)
    requires |Run(log).conns| <= U64
    ensures PendingOpen(Run(log))
    decreases log
  {
    if log != [] {
      var init, e := log[..|log| - 1], log[|log| - 1];
      ConnsOnlyGrow(Run(init), e);
      RunsKeepPendingOpen(init);
      RunsKeepIdentity(init);
      forall a | a in Run(log).store.pending ensures Open(Run(log), Run(log).store.pending[a]) {
        StepKeepsPendingOpen(Run(init), e, a);
      }
    }
  }

  /** Over any run, nothing is ever stored for a connection that is gone exactly when every
      insert used the id of a connection still open. */
  lemma {:induction false} StoredOpenIffOpenInserts(log: seq<Event>)
    requires |Run(log).conns| <= U64
    ensures AlwaysStoredOpen(log) <==> OpenInserts(log)
    decreases log
  {
    RunsKeepPendingOpen(log);
    if log != [] {
      var init, e := log[..|log| - 1], log[|log| - 1];
      ConnsOnlyGrow(Run(init), e);
      StoredOpenIffOpenInserts(init);
      RunsKeepIdentity(init);
      if AlwaysStoredOpen(init) {
        StepContextsExact(Run(init), e);
      }
    }
  }

  ghost predicate Closed(w: World, c: nat) {
    c < |w.conns| && !w.conns[c].open
  }

  /** Some startup inserted under the id after its connection had closed, and no failed
      rebuild has evicted it since. */
  ghost predicate LeftBehind(log: seq<Event>, id: nat) {
    log != [] &&
    var w, e := Run(log[..|log| - 1]), log[|log| - 1];
    || (InsertsUnder(w, e, id) && Closed(w, id))
    || (LeftBehind(log[..|log| - 1], id) && !Evicts(w, e, id))
  }

  lemma {:induction false} LeftIsClosed(log: seq<Event>, id: nat)
    requires LeftBehind(log, id)
    ensures Closed(Run(log), id)
    decreases log
  {
    var init, e := log[..|log| - 1], log[|log| - 1];
    ConnsOnlyGrow(Run(init), e);
    if LeftBehind(init, id) {
      LeftIsClosed(init, id);
    }
  }

  lemma JustClosed(w: World, e: Event, id: nat)
    requires !Closed(w, id) && Closed(Next(w, e), id)
    ensures Closes(w, e, id)
  {
  }

  /** In any state of any run: a closed connection's id is stored exactly when it was left behind. */
  lemma {:induction false} ClosedStoredExact(log: seq<Event>, id: nat)
    requires |Run(log).conns| <= U64
    requires Closed(Run(log), id)
    ensures id in Run(log).store.contexts <==> LeftBehind(log, id)
    decreases log
  {
    var init, e := log[..|log| - 1], log[|log| - 1];
    var w := Run(init);
    ConnsOnlyGrow(w, e);
    RunsKeepIdentity(init);
    StepStoresExact(w, e, id);
    if Closed(w, id) {
      ClosedStoredExact(init, id);
    } else {
      JustClosed(w, e, id);
      if LeftBehind(init, id) { LeftIsClosed(init, id); }
    }
  }

  /** Only a claim of another connection's id leaves an entry behind. */
  lemma {:induction false} LeftIsForeign(log: seq<Event>, id: nat)
    requires |Run(log).conns| <= U64 && LeftBehind(log, id)
    ensures id in Run(log).claims && Run(log).claims[id].conn != id
    decreases log
  {
    var init, e := log[..|log| - 1], log[|log| - 1];
    var w := Run(init);
    ConnsOnlyGrow(w, e);
    RunsKeepIdentity(init);
    if InsertsUnder(w, e, id) && Closed(w, id) {
      assert PhaseOk(w, e.conn);
    } else {
      LeftIsForeign(init, id);
    }
    StepKeepsClaim(w, e, id);
  }

  ghost predicate AllClosed(w: World) {
    forall c :: 0 <= c < |w.conns| ==> !w.conns[c].open
  }

  lemma StoredIffLeft(log: seq<Event>, id: nat)
    requires |Run(log).conns| <= U64 && AllClosed(Run(log))
    ensures id in Run(log).store.contexts <==> LeftBehind(log, id)
  {
    if LeftBehind(log, id) { LeftIsClosed(log, id); }
    if id in Run(log).store.contexts {
      RunsKeepIdentity(log);
      assert EntryOk(Run(log), id, Run(log).store.contexts[id]);
    }
    if id < |Run(log).conns| { ClosedStoredExact(log, id); }
  }

  /** Once every connection has closed, nothing is pending, and no context is stored exactly
      when none was left behind. */
  lemma AllClosedAllGone(log: seq<Event>)
    requires |Run(log).conns| <= U64 && AllClosed(Run(log))
    ensures Run(log).store.pending == map[]
    ensures Run(log).store.contexts == map[] <==> forall id :: !LeftBehind(log, id)
  {
    var s := Run(log).store;
    RunsKeepPendingOpen(log);
    forall a ensures a !in s.pending {
      assert a in s.pending ==> Open(Run(log), s.pending[a]);
    }
    if s.contexts == map[] {
      forall id ensures !LeftBehind(log, id) {
        StoredIffLeft(log, id);
      }
    } else {
      var id :| id in s.contexts;
      StoredIffLeft(log, id);
    }
  }

  /** Once cleaned up, an id never reappears, if every insert uses the id of an open connection. */
  lemma {:induction false} ClosedStaysOut(log: seq<Event>, more: seq<Event>, id: nat)
    requires OpenInserts(log + more) && |Run(log + more).conns| <= U64 && Closed(Run(log), id)
    ensures Closed(Run(log + more), id) && id !in Run(log + more).store.contexts
    decreases more
  {
    if more == [] {
      assert log + more == log;
    } else {
      var init, e := more[..|more| - 1], more[|more| - 1];
      assert (log + more)[..|log + more| - 1] == log + init;
      ConnsOnlyGrow(Run(log + init), e);
      ClosedStaysOut(log, init, id);
    }
    StoredOpenIffOpenInserts(log + more);
  }

  // ----- no id of another connection -----

  /** Every context sits under the id of the connection that authenticated for it. */
  ghost predicate StoredOwn(w: World) {
    forall id :: id in w.store.contexts ==> id in w.claims && w.claims[id].conn == id
  }

  /** The step, if it is an insert that goes through, uses the id of its own connection. */
  ghost predicate OwnInsert(w: World, e: Event) {
    e.InsertStartup? && Inserts(w, e.conn) ==> w.conns[e.conn].phase.id == e.conn
  }

  lemma StepOwnExact(w: World, e: Event)
    requires Identity(w) && StoredOwn(w)
    ensures StoredOwn(Next(w, e)) <==> OwnInsert(w, e)
  {
    if e.InsertStartup? && Inserts(w, e.conn) {
      InsertOwnExact(w, e.conn);
    } else {
      var w' := Next(w, e);
      forall id | id in w'.store.contexts ensures id in w'.claims && w'.claims[id].conn == id {
        StepStoresExact(w, e, id);
        StepKeepsClaim(w, e, id);
      }
    }
  }

  lemma InsertOwnExact(w: World, c: nat)
    requires Identity(w) && StoredOwn(w) && Inserts(w, c)
    ensures StoredOwn(Next(w, InsertStartup(c))) <==> w.conns[c].phase.id == c
  {
    assert PhaseOk(w, c);
    assert w.conns[c].phase.id in Next(w, InsertStartup(c)).store.contexts;
  }

  ghost predicate OwnInserts(log: seq<Event>) {
    log != [] ==> OwnInsert(Run(log[..|log| - 1]), log[|log| - 1]) && OwnInserts(log[..|log| - 1])
  }

  ghost predicate AlwaysStoredOwn(log: seq<Event>) {
    StoredOwn(Run(log)) && (log != [] ==> AlwaysStoredOwn(log[..|log| - 1]))
  }

  /** Over any run, no context is ever stored under another connection's id exactly when
      every insert used its own connection's. */
  lemma {:induction false} StoredOwnIffOwnInserts(log: seq<Event>)
    requires |Run(log).conns| <= U64
    ensures AlwaysStoredOwn(log) <==> OwnInserts(log)
    decreases log
  {
    if log != [] {
      var init, e := log[..|log| - 1], log[|log| - 1];
      ConnsOnlyGrow(Run(init), e);
      StoredOwnIffOwnInserts(init);
      RunsKeepIdentity(init);
      if AlwaysStoredOwn(init) {
        StepOwnExact(Run(init), e);
      }
    }
  }

  /** The id waiting under an address is that of the last connection registered from there. */
  ghost predicate PendingLatest(w: World) {
    forall a, c :: a in w.store.pending && 0 <= c < |w.conns| && w.conns[c].registered && w.conns[c].addr == a ==>
      c <= w.store.pending[a]
  }

  lemma StepKeepsLatest(w: World, e: Event, a: Addr, c: nat)
    requires Identity(w) && PendingLatest(w) && |Next(w, e).conns| <= U64
    requires a in Next(w, e).store.pending && c < |Next(w, e).conns|
    requires Next(w, e).conns[c].registered && Next(w, e).conns[c].addr == a
    ensures c <= Next(w, e).store.pending[a]
  {
    StepKeepsPending(w, e, a);
    StepKeepsAddress(w, e, c);
  }

  lemma {:induction false} RunsKeepLatest(log: seq<Event>)
    requires |Run(log).conns| <= U64
    ensures PendingLatest(Run(log))
    decreases log
  {
    if log != [] {
      var w, e := Run(log[..|log| - 1]), log[|log| - 1];
      ConnsOnlyGrow(w, e);
      RunsKeepLatest(log[..|log| - 1]);
      RunsKeepIdentity(log[..|log| - 1]);
      var w' := Run(log);
      forall a, c | a in w'.store.pending && 0 <= c < |w'.conns| && w'.conns[c].registered && w'.conns[c].addr == a
        ensures c <= w'.store.pending[a]
      {
        StepKeepsLatest(w, e, a, c);
      }
    }
  }

  /** A startup that finds an id claims its own exactly when its connection was registered
      and none was registered from the same address later. */
  lemma OwnClaimExact(log: seq<Event>, c: nat)
    requires |Run(log).conns| <= U64
    requires Open(Run(log), c) && Run(log).conns[c].addr in Run(log).store.pending
    ensures var w := Run(log);
            w.store.pending[w.conns[c].addr] == c <==>
            && w.conns[c].registered
            && forall k :: c < k < |w.conns| && w.conns[k].registered ==> w.conns[k].addr != w.conns[c].addr
  {
    RunsKeepLatest(log);
    RunsKeepIdentity(log);
    var w := Run(log);
    var id := w.store.pending[w.conns[c].addr];
    assert w.conns[id].registered && w.conns[id].addr == w.conns[c].addr;
  }

  // ----- distinct addresses -----

  /** Open connections have different peer addresses. */
  ghost predicate AddressesDistinct(w: World) {
    forall i, j :: 0 <= i < j < |w.conns| && w.conns[i].open && w.conns[j].open ==> w.conns[i].addr != w.conns[j].addr
  }

  ghost predicate AlwaysDistinct(log: seq<Event>) {
    AddressesDistinct(Run(log)) && (log != [] ==> AlwaysDistinct(log[..|log| - 1]))
  }

  ghost predicate OwnPhases(w: World) {
    forall c :: 0 <= c < |w.conns| && !w.conns[c].phase.Idle? ==> w.conns[c].phase.id == c
  }

  lemma StepKeepsOwnPhases(w: World, e: Event)
    requires Identity(w) && PendingOpen(w) && AddressesDistinct(w) && OwnPhases(w)
    ensures OwnPhases(Next(w, e))
  {
  }

  /** With distinct addresses, in every run, startups insert under their own open
      connection's id, so nothing is stored for a connection that is gone nor under another's id. */
  lemma {:induction false} RunsKeepLive(log: seq<Event>)
    requires AlwaysDistinct(log) && |Run(log).conns| <= U64
    ensures OpenInserts(log) && OwnInserts(log)
    ensures StoredOpen(Run(log)) && StoredOwn(Run(log)) && OwnPhases(Run(log))
    decreases log
  {
    if log != [] {
      var init, e := log[..|log| - 1], log[|log| - 1];
      ConnsOnlyGrow(Run(init), e);
      RunsKeepLive(init);
      RunsKeepIdentity(init);
      StepKeepsOwnPhases(Run(init), e);
      StoredOpenIffOpenInserts(log);
      StoredOwnIffOwnInserts(log);
    }
  }

  /** With distinct addresses, both maps are empty once every connection has closed. */
  lemma DistinctAllGone(log: seq<Event>)
    requires AlwaysDistinct(log) && |Run(log).conns| <= U64 && AllClosed(Run(log))
    ensures Run(log).store.pending == map[] && Run(log).store.contexts == map[]
  {
    RunsKeepLive(log);
    AllClosedAllGone(log);
    var s := Run(log).store;
    forall id ensures id !in s.contexts {
      assert id in s.contexts ==> Open(Run(log), id);
    }
  }

  /** Two connections from one address, of which the first has claimed the second's id. */
  ghost predicate ForeignClaim(w: World, a: Addr, user: UserId, source: SourceName) {
    w.conns == [Conn(0, a, true, true, Claimed(1, user, source)), Conn(1, a, true, true, Idle)]
  }

  lemma BothAccepted(a: Addr, user: UserId, source: SourceName)
    ensures var w1 := Next(INITIAL, Accept(a, true));
            var w2 := Next(w1, Accept(a, true));
            ForeignClaim(Next(w2, StartClaim(0, user, source)), a, user, source)
  {
  }

  /** The second has closed, and the first has built its context for that id. */
  ghost predicate ForeignBuilt(w: World, a: Addr, ctx: Context) {
    w.conns == [Conn(0, a, true, true, Built(1, ctx)), Conn(1, a, true, false, Idle)]
  }

  lemma ClosedBeforeBuilt(w: World, a: Addr, user: UserId, source: SourceName)
    requires ForeignClaim(w, a, user, source)
    ensures var w' := Next(Next(w, Close(1)), BuildStartup(0));
            ForeignBuilt(w', a, Context(user, source, w.version))
  {
  }

  lemma ForeignInsertLeaks(w: World, a: Addr, ctx: Context)
    requires ForeignBuilt(w, a, ctx)
    ensures var w' := Next(Next(w, InsertStartup(0)), Close(0));
            |w'.conns| == 2 && AllClosed(w') && w'.store.contexts != map[]
  {
    assert 1 in Next(Next(w, InsertStartup(0)), Close(0)).store.contexts;
  }

  /** Two connections from one address: the first claims the second's id, the second is
      cleaned up before the insert, and the entry outlives both connections. */
  lemma SharedAddressLeaks(a: Addr, user: UserId, source: SourceName) returns (log: seq<Event>)
    ensures |Run(log).conns| == 2 && AllClosed(Run(log))
    ensures Run(log).store.contexts != map[]
  {
    var l1 := [] + [Accept(a, true)];
    var l2 := l1 + [Accept(a, true)];
    var l3 := l2 + [StartClaim(0, user, source)];
    var l4 := l3 + [Close(1)];
    var l5 := l4 + [BuildStartup(0)];
    var l6 := l5 + [InsertStartup(0)];
    log := l6 + [Close(0)];
    RunPush([], Accept(a, true));
    RunPush(l1, Accept(a, true));
    RunPush(l2, StartClaim(0, user, source));
    RunPush(l3, Close(1));
    RunPush(l4, BuildStartup(0));
    RunPush(l5, InsertStartup(0));
    RunPush(l6, Close(0));
    BothAccepted(a, user, source);
    ClosedBeforeBuilt(Run(l3), a, user, source);
    ForeignInsertLeaks(Run(l5), a, Context(user, source, Run(l3).version));
  }
}
