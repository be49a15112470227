/** The connection registry: two shared maps and a counter, and the tasks that race on them. */
module Registry {
  import opened Walks

  type Addr = int
  type UserId = int
  type SourceName = int

  /** A session context as built for a user and a datasource from the policies of some version. */
  datatype Context = Context(user: UserId, source: SourceName, version: nat)

  datatype Entry = Entry(ctx: Context, user: UserId, source: SourceName)

  /** The shared state. */
  datatype Store = Store(contexts: map<nat, Entry>, pending: map<Addr, nat>, next: nat)

  const U64: nat := 0x1_0000_0000_0000_0000

  // ----- the atomic operations, as functions of the shared state -----

  function Allocated(s: Store): Store {
    s.(next := (s.next + 1) % U64)
  }

  function Registered(s: Store, addr: Addr): Store {
    Allocated(s).(pending := s.pending[addr := s.next])
  }

  function Unpended(s: Store, addr: Addr): Store {
    s.(pending := s.pending - {addr})
  }

  function Inserted(s: Store, id: nat, entry: Entry): Store {
    s.(contexts := s.contexts[id := entry])
  }

  function Evicted(s: Store, id: nat): Store {
    s.(contexts := s.contexts - {id})
  }

  function WrittenBack(s: Store, id: nat, ctx: Context): Store {
    if id in s.contexts then s.(contexts := s.contexts[id := s.contexts[id].(ctx := ctx)]) else s
  }

  function Cleaned(s: Store, id: nat, addr: Option<Addr>): Store {
    if addr.Some? then Unpended(Evicted(s, id), addr.value) else Evicted(s, id)
  }

  /** Whose contexts a rebuild is for. */
  datatype Filter = OfUser(user: UserId) | OfSource(source: SourceName)

  predicate Selects(f: Filter, e: Entry) {
    match f
    case OfUser(user) => e.user == user
    case OfSource(source) => e.source == source
  }

  /** The store shared by all handler clones; each method is one atomic operation. */
  class ConnectionStore {
    var contexts: map<nat, Entry>
    var pending: map<Addr, nat>
    var next: nat

    ghost function State(): Store
      reads this
    {
      Store(contexts, pending, next)
    }

    constructor ()
      ensures State() == Store(map[], map[], 0)
    {
      contexts, pending, next := map[], map[], 0;
    }

    method AllocConnectionId() returns (id: nat)
      modifies this`next
      ensures id == old(next) && next == (old(next) + 1) % U64
      ensures State() == Allocated(old(State()))
    {
      id := next;
      next := (next + 1) % U64;
    }

    method RegisterConnection(addr: Addr) returns (id: nat)
      modifies this`next, this`pending
      ensures id == old(next) && next == (old(next) + 1) % U64
      ensures pending == old(pending)[addr := id]
      ensures State() == Registered(old(State()), addr)
    {
      id := next;
      next := (next + 1) % U64;
      pending := pending[addr := id];
    }

    /** The claim in the startup handler; `None` is the internal-error branch. */
    method ClaimPending(addr: Addr) returns (id: Option<nat>)
      modifies this`pending
      ensures id == if addr in old(pending) then Some(old(pending)[addr]) else None
      ensures pending == old(pending) - {addr}
      ensures State() == Unpended(old(State()), addr)
    {
      id := if addr in pending then Some(pending[addr]) else None;
      pending := pending - {addr};
    }

    method InsertContext(id: nat, ctx: Context, user: UserId, source: SourceName)
      modifies this`contexts
      ensures contexts == old(contexts)[id := Entry(ctx, user, source)]
      ensures State() == Inserted(old(State()), id, Entry(ctx, user, source))
    {
      contexts := contexts[id := Entry(ctx, user, source)];
    }

    method CleanupConnection(id: nat, addr: Option<Addr>)
      modifies this`contexts, this`pending
      ensures contexts == old(contexts) - {id}
      ensures pending == if addr.Some? then old(pending) - {addr.value} else old(pending)
      ensures State() == Cleaned(old(State()), id, addr)
    {
      contexts := contexts - {id};
      if addr.Some? {
        pending := pending - {addr.value};
      }
    }

    /** The entries a rebuild starts tasks for. */
    method SelectEntries(f: Filter) returns (chosen: map<nat, Entry>)
      ensures forall id :: id in chosen <==> id in contexts && Selects(f, contexts[id])
      ensures forall id :: id in chosen ==> chosen[id] == contexts[id]
    {
      chosen := map id | id in contexts && Selects(f, contexts[id]) :: contexts[id];
    }

    /** The end of a rebuild task: write the new context back, or drop the entry. */
    method FinishRebuild(id: nat, built: Option<Context>)
      modifies this`contexts
      ensures id !in old(contexts) ==> contexts == old(contexts)
      ensures id in old(contexts) && built.Some? ==> contexts == old(contexts)[id := old(contexts)[id].(ctx := built.value)]
      ensures built.None? ==> contexts == old(contexts) - {id}
      ensures State() == if built.Some? then WrittenBack(old(State()), id, built.value) else Evicted(old(State()), id)
    {
      match built
      case Some(ctx) =>
        if id in contexts {
          contexts := contexts[id := contexts[id].(ctx := ctx)];
        }
      case None =>
        contexts := contexts - {id};
    }
  }

  // ----- the tasks -----

  /** Where a connection stands in its startup. */
  datatype Phase = Idle | Claimed(id: nat, user: UserId, source: SourceName) | Built(id: nat, ctx: Context)

  /** One accepted connection. `registered` says that its peer address was known at accept time. */
  datatype Conn = Conn(id: nat, addr: Addr, registered: bool, open: bool, phase: Phase)

  /** Who claimed an id, and as whom it authenticated. */
  datatype Claim = Claim(conn: nat, user: UserId, source: SourceName)

  datatype TaskId = TaskId(round: nat, id: nat)

  /** A rebuild task, before (`None`) or after its context was built. */
  datatype Task = Task(user: UserId, source: SourceName, built: Option<Context>)

  /** The whole system. The fields from `claims` on record history: who claimed which id, in
      what order, which ids were ever inserted, and the policy version in force when each
      user and each datasource was last rebuilt. */
  datatype World = World(store: Store, conns: seq<Conn>, tasks: map<TaskId, Task>, round: nat, version: nat,
                         claims: map<nat, Claim>, claimLog: seq<nat>, inserted: set<nat>,
                         forUser: map<UserId, nat>, forSource: map<SourceName, nat>)

  datatype Event =
    | Accept(addr: Addr, registered: bool)
    | StartClaim(conn: nat, user: UserId, source: SourceName)
    | BuildStartup(conn: nat)
    | InsertStartup(conn: nat)
    | AbortStartup(conn: nat)
    | Close(conn: nat)
    | CommitPolicy
    | Rebuild(filter: Filter)
    | BuildTask(task: TaskId)
    | WriteTask(task: TaskId)
    | FailTask(task: TaskId)

  const INITIAL: World := World(Store(map[], map[], 0), [], map[], 0, 0, map[], [], {}, map[], map[])

  ghost function SetPhase(w: World, c: nat, phase: Phase): World
    requires c < |w.conns|
  {
    w.(conns := w.conns[c := w.conns[c].(phase := phase)])
  }

  ghost predicate Open(w: World, c: nat) {
    c < |w.conns| && w.conns[c].open
  }

  ghost function AfterAccept(w: World, addr: Addr, registered: bool): World {
    w.(store := if registered then Registered(w.store, addr) else Allocated(w.store),
       conns := w.conns + [Conn(w.store.next, addr, registered, true, Idle)])
  }

  ghost function AfterClaim(w: World, c: nat, user: UserId, source: SourceName): World
    requires Open(w, c) && w.conns[c].addr in w.store.pending
  {
    var addr := w.conns[c].addr;
    var id := w.store.pending[addr];
    SetPhase(w, c, Claimed(id, user, source)).(
      store := Unpended(w.store, addr),
      claims := w.claims[id := Claim(c, user, source)],
      claimLog := w.claimLog + [id])
  }

  ghost function AfterInsert(w: World, c: nat, id: nat, ctx: Context): World
    requires Open(w, c)
  {
    SetPhase(w, c, Idle).(store := Inserted(w.store, id, Entry(ctx, ctx.user, ctx.source)),
                          inserted := w.inserted + {id})
  }

  ghost function AfterClose(w: World, c: nat): World
    requires Open(w, c)
  {
    var k := w.conns[c];
    w.(store := Cleaned(w.store, k.id, if k.registered then Some(k.addr) else None),
       conns := w.conns[c := k.(open := false, phase := Idle)])
  }

  ghost function Chosen(w: World, f: Filter): map<nat, Entry> {
    map id | id in w.store.contexts && Selects(f, w.store.contexts[id]) :: w.store.contexts[id]
  }

  ghost function Spawned(w: World, f: Filter): map<TaskId, Task> {
    var chosen := Chosen(w, f);
    var ids := set id | id in chosen :: TaskId(w.round, id);
    map t | t in ids :: Task(chosen[t.id].user, chosen[t.id].source, None)
  }

  lemma SpawnedMeans(w: World, f: Filter, t: TaskId)
    ensures t in Spawned(w, f) <==> t.round == w.round && t.id in Chosen(w, f)
    ensures t in Spawned(w, f) ==> Spawned(w, f)[t] == Task(Chosen(w, f)[t.id].user, Chosen(w, f)[t.id].source, None)
  {
    if t.round == w.round && t.id in Chosen(w, f) {
      assert TaskId(w.round, t.id) in Spawned(w, f);
    }
  }

  ghost function AfterRebuild(w: World, f: Filter): World {
    var started := w.(tasks := w.tasks + Spawned(w, f), round := w.round + 1);
    match f
    case OfUser(user) => started.(forUser := w.forUser[user := w.version])
    case OfSource(source) => started.(forSource := w.forSource[source := w.version])
  }

  /** The startup has built its context and can insert it. */
  ghost predicate Inserts(w: World, c: nat) {
    Open(w, c) && w.conns[c].phase.Built?
  }

  /** The task has built its context and finds its entry. */
  ghost predicate Writes(w: World, t: TaskId) {
    t in w.tasks && w.tasks[t].built.Some? && t.id in w.store.contexts
  }

  /** One atomic step; an event that is not enabled changes nothing. */
  ghost function Next(w: World, e: Event): World {
    match e
    case Accept(addr, registered) => AfterAccept(w, addr, registered)
    case StartClaim(c, user, source) =>
      if Open(w, c) && w.conns[c].phase.Idle? && w.conns[c].addr in w.store.pending
      then AfterClaim(w, c, user, source) else w
    case BuildStartup(c) =>
      if Open(w, c) && w.conns[c].phase.Claimed?
      then var p := w.conns[c].phase; SetPhase(w, c, Built(p.id, Context(p.user, p.source, w.version))) else w
    case InsertStartup(c) =>
      if Inserts(w, c)
      then AfterInsert(w, c, w.conns[c].phase.id, w.conns[c].phase.ctx) else w
    case AbortStartup(c) => if Open(w, c) then SetPhase(w, c, Idle) else w
    case Close(c) => if Open(w, c) then AfterClose(w, c) else w
    case CommitPolicy => w.(version := w.version + 1)
    case Rebuild(f) => AfterRebuild(w, f)
    case BuildTask(t) =>
      if t in w.tasks && w.tasks[t].built.None?
      then w.(tasks := w.tasks[t := w.tasks[t].(built := Some(Context(w.tasks[t].user, w.tasks[t].source, w.version)))])
      else w
    case WriteTask(t) =>
      if t in w.tasks && w.tasks[t].built.Some?
      then w.(store := WrittenBack(w.store, t.id, w.tasks[t].built.value), tasks := w.tasks - {t}) else w
    case FailTask(t) =>
      if t in w.tasks then w.(store := Evicted(w.store, t.id), tasks := w.tasks - {t}) else w
  }

  ghost function Run(log: seq<Event>): World {
    if log == [] then INITIAL else Next(Run(log[..|log| - 1]), log[|log| - 1])
  }

  lemma RunPush(log: seq<Event>, e: Event)
    ensures Run(log + [e]) == Next(Run(log), e)
  {
    assert (log + [e])[..|log|] == log;
  }
}
