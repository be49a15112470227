/** The registry's state read off the log: which id waits where, who claimed which id as whom,
    and which startups are under way, each exactly by the events that led there. */
module RegistryEvents {
  import opened Walks
  import opened Registry
  import opened RegistrySafety

  // ----- pending ids -----

  /** A startup from connection `c` finds an id under its address. */
  ghost predicate Claims(w: World, e: Event, c: nat) {
    e.StartClaim? && e.conn == c && Open(w, c) && w.conns[c].phase.Idle? && w.conns[c].addr in w.store.pending
  }

  /** The step takes away whatever id waits under the address: by a later registration, by a
      startup from there, or by the end of a registered connection from there. */
  ghost predicate Ousts(w: World, e: Event, a: Addr) {
    match e
    case Accept(addr, registered) => registered && addr == a
    case StartClaim(c, _, _) => Claims(w, e, c) && w.conns[c].addr == a
    case Close(c) => Open(w, c) && w.conns[c].registered && w.conns[c].addr == a
    case _ => false
  }

  /** Connection `c` was registered from the address, and nothing has ousted its id since. */
  ghost predicate Waits(log: seq<Event>, a: Addr, c: nat) {
    log != [] &&
    var w, e := Run(log[..|log| - 1]), log[|log| - 1];
    || (e == Accept(a, true) && c == |w.conns|)
    || (Waits(log[..|log| - 1], a, c) && !Ousts(w, e, a))
  }

  lemma StepPendsExact(w: World, e: Event, a: Addr, c: nat)
    requires IdsOk(w) && |Next(w, e).conns| <= U64
    ensures a in Next(w, e).store.pending && Next(w, e).store.pending[a] == c <==>
            || (e == Accept(a, true) && c == |w.conns|)
            || (a in w.store.pending && w.store.pending[a] == c && !Ousts(w, e, a))
  {
  }

  /** In every run, an id waits under an address exactly when it was registered from there and
      nothing has ousted it since. */
  lemma {:induction false} PendingExact(log: seq<Event>, a: Addr, c: nat)
    requires |Run(log).conns| <= U64
    ensures a in Run(log).store.pending && Run(log).store.pending[a] == c <==> Waits(log, a, c)
    decreases log
  {
    if log != [] {
      var init, e := log[..|log| - 1], log[|log| - 1];
      ConnsOnlyGrow(Run(init), e);
      PendingExact(init, a, c);
      RunsKeepIdentity(init);
      StepPendsExact(Run(init), e, a, c);
    }
  }

  // ----- claims -----

  /** The step is a startup of `claim.conn` as that user for that datasource, and finds the id. */
  ghost predicate ClaimsAs(w: World, e: Event, id: nat, claim: Claim) {
    && e == StartClaim(claim.conn, claim.user, claim.source) && Claims(w, e, claim.conn)
    && w.store.pending[w.conns[claim.conn].addr] == id
  }

  /** Some step of the run was such a startup. */
  ghost predicate HasClaimed(log: seq<Event>, id: nat, claim: Claim) {
    log != [] && (ClaimsAs(Run(log[..|log| - 1]), log[|log| - 1], id, claim) || HasClaimed(log[..|log| - 1], id, claim))
  }

  lemma StepClaimsExact(w: World, e: Event, id: nat, claim: Claim)
    requires PendingOk(w)
    ensures id in Next(w, e).claims && Next(w, e).claims[id] == claim <==>
            (id in w.claims && w.claims[id] == claim) || ClaimsAs(w, e, id, claim)
  {
  }

  /** In every run, an id is on record as claimed, by whom and as whom, exactly when such a
      startup found it. */
  lemma {:induction false} ClaimsExact(log: seq<Event>, id: nat, claim: Claim)
    requires |Run(log).conns| <= U64
    ensures id in Run(log).claims && Run(log).claims[id] == claim <==> HasClaimed(log, id, claim)
    decreases log
  {
    if log != [] {
      var init, e := log[..|log| - 1], log[|log| - 1];
      ConnsOnlyGrow(Run(init), e);
      ClaimsExact(init, id, claim);
      RunsKeepIdentity(init);
      StepClaimsExact(Run(init), e, id, claim);
    }
  }

  // ----- startups -----

  /** The step ends the startup of `c`: it is aborted, inserted, or its connection closes. */
  ghost predicate EndsStartup(w: World, e: Event, c: nat) {
    e == AbortStartup(c) || e == Close(c) || (e == InsertStartup(c) && Inserts(w, c))
  }

  /** Connection `c` found the id as this user for this datasource, and its startup has not ended. */
  ghost predicate UnderWay(log: seq<Event>, c: nat, id: nat, user: UserId, source: SourceName) {
    log != [] &&
    var w, e := Run(log[..|log| - 1]), log[|log| - 1];
    || ClaimsAs(w, e, id, Claim(c, user, source))
    || (UnderWay(log[..|log| - 1], c, id, user, source) && !EndsStartup(w, e, c))
  }

  ghost predicate Carries(w: World, c: nat, id: nat, user: UserId, source: SourceName) {
    Open(w, c) && match w.conns[c].phase
      case Idle => false
      case Claimed(i, u, s) => i == id && u == user && s == source
      case Built(i, ctx) => i == id && ctx.user == user && ctx.source == source
  }

  /** The step is one of connection `c` itself. */
  ghost predicate OwnStep(e: Event, c: nat) {
    match e
    case StartClaim(k, _, _) => k == c
    case BuildStartup(k) => k == c
    case InsertStartup(k) => k == c
    case AbortStartup(k) => k == c
    case Close(k) => k == c
    case _ => false
  }

  lemma OtherStepKeepsConn(w: World, e: Event, c: nat)
    requires !OwnStep(e, c)
    ensures c < |w.conns| ==> c < |Next(w, e).conns| && Next(w, e).conns[c] == w.conns[c]
    ensures |w.conns| <= c < |Next(w, e).conns| ==> Next(w, e).conns[c].phase.Idle?
  {
  }

  lemma StepCarriesExact(w: World, e: Event, c: nat, id: nat, user: UserId, source: SourceName)
    ensures Carries(Next(w, e), c, id, user, source) <==>
            || ClaimsAs(w, e, id, Claim(c, user, source))
            || (Carries(w, c, id, user, source) && !EndsStartup(w, e, c))
  {
    if !OwnStep(e, c) { OtherStepKeepsConn(w, e, c); }
  }

  /** In every run, an open connection is in startup with an id, as a user and for a datasource,
      exactly when it found that id as that user and the startup has not ended since. */
  lemma {:induction false} StartupsExact(log: seq<Event>, c: nat, id: nat, user: UserId, source: SourceName)
    ensures Carries(Run(log), c, id, user, source) <==> UnderWay(log, c, id, user, source)
    decreases log
  {
    if log != [] {
      StartupsExact(log[..|log| - 1], c, id, user, source);
      StepCarriesExact(Run(log[..|log| - 1]), log[|log| - 1], c, id, user, source);
    }
  }

  // ----- entries -----

  /** A startup inserted under the id as this user for this datasource, and since then neither
      did a failed rebuild evict the entry nor did the connection of that id close. */
  ghost predicate Persists(log: seq<Event>, id: nat, user: UserId, source: SourceName) {
    log != [] &&
    var w, e := Run(log[..|log| - 1]), log[|log| - 1];
    || (&& e.InsertStartup? && Inserts(w, e.conn) && w.conns[e.conn].phase.id == id
        && w.conns[e.conn].phase.ctx.user == user && w.conns[e.conn].phase.ctx.source == source)
    || (&& Persists(log[..|log| - 1], id, user, source)
        && !(e.FailTask? && e.task in w.tasks && e.task.id == id)
        && !(e == Close(id) && Open(w, id))
        && !(e.InsertStartup? && Inserts(w, e.conn) && w.conns[e.conn].phase.id == id))
  }

  ghost predicate StoredFor(w: World, id: nat, user: UserId, source: SourceName) {
    id in w.store.contexts && w.store.contexts[id].user == user && w.store.contexts[id].source == source
  }

  lemma StepStoresForExact(w: World, e: Event, id: nat, user: UserId, source: SourceName)
    requires IdsOk(w)
    ensures StoredFor(Next(w, e), id, user, source) <==>
            || (&& e.InsertStartup? && Inserts(w, e.conn) && w.conns[e.conn].phase.id == id
                && w.conns[e.conn].phase.ctx.user == user && w.conns[e.conn].phase.ctx.source == source)
            || (&& StoredFor(w, id, user, source)
                && !(e.FailTask? && e.task in w.tasks && e.task.id == id)
                && !(e == Close(id) && Open(w, id))
                && !(e.InsertStartup? && Inserts(w, e.conn) && w.conns[e.conn].phase.id == id))
  {
    if e.Close? && Open(w, e.conn) { assert w.conns[e.conn].id == e.conn; }
  }

  /** In every run, an entry is stored for a user and a datasource exactly when a startup
      inserted it as such and nothing has removed it since. */
  lemma {:induction false} EntriesExact(log: seq<Event>, id: nat, user: UserId, source: SourceName)
    requires |Run(log).conns| <= U64
    ensures StoredFor(Run(log), id, user, source) <==> Persists(log, id, user, source)
    decreases log
  {
    if log != [] {
      var init, e := log[..|log| - 1], log[|log| - 1];
      ConnsOnlyGrow(Run(init), e);
      EntriesExact(init, id, user, source);
      RunsKeepIdentity(init);
      StepStoresForExact(Run(init), e, id, user, source);
    }
  }

  // ----- tasks -----

  /** The rebuild finds an entry of its user or of its datasource under the id. */
  ghost predicate Finds(w: World, f: Filter, id: nat) {
    && id in w.store.contexts
    && (f.OfUser? ==> w.store.contexts[id].user == f.user)
    && (f.OfSource? ==> w.store.contexts[id].source == f.source)
  }

  /** The rebuild of that round found the entry, and its task has neither written nor failed since. */
  ghost predicate Pursues(log: seq<Event>, t: TaskId) {
    log != [] &&
    var w, e := Run(log[..|log| - 1]), log[|log| - 1];
    || (e.Rebuild? && t.round == w.round && Finds(w, e.filter, t.id))
    || (&& Pursues(log[..|log| - 1], t)
        && !(e == FailTask(t)) && !(e == WriteTask(t) && t in w.tasks && w.tasks[t].built.Some?))
  }

  lemma StepPursuesExact(w: World, e: Event, t: TaskId)
    ensures t in Next(w, e).tasks <==>
            || (e.Rebuild? && t.round == w.round && Finds(w, e.filter, t.id))
            || (&& t in w.tasks
                && !(e == FailTask(t)) && !(e == WriteTask(t) && t in w.tasks && w.tasks[t].built.Some?))
  {
    if e.Rebuild? { SpawnedMeans(w, e.filter, t); }
  }

  /** In every run, a task runs exactly when the rebuild of its round found its entry and the
      task has not finished since. */
  lemma {:induction false} TasksExact(log: seq<Event>, t: TaskId)
    ensures t in Run(log).tasks <==> Pursues(log, t)
    decreases log
  {
    if log != [] {
      TasksExact(log[..|log| - 1], t);
      StepPursuesExact(Run(log[..|log| - 1]), log[|log| - 1], t);
    }
  }
}
