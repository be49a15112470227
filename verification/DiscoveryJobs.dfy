/** The discovery job store: all jobs, and an index meant to hold the one running job of
    each datasource. */
module DiscoveryJobs {
  import opened Walks

  type JobId = int
  type SourceId = int
  type Value = int
  type Text = int

  /** The text recorded by a cancellation. */
  const CANCELLED: Text := 0

  datatype Status = Running | Completed | Failed

  /** `stop` is the job's cancellation token. */
  datatype Job = Job(source: SourceId, status: Status, result: Option<Value>, error: Option<Text>, stop: bool)

  datatype Jobs = Jobs(jobs: map<JobId, Job>, active: map<SourceId, JobId>)

  function NewJob(source: SourceId): Job {
    Job(source, Running, None, None, false)
  }

  // ----- the operations as functions of the store -----

  predicate Busy(s: Jobs, source: SourceId) {
    source in s.active && s.active[source] in s.jobs && s.jobs[s.active[source]].status == Running
  }

  function Registered(s: Jobs, id: JobId, job: Job): Jobs {
    if Busy(s, job.source) then s else Jobs(s.jobs[id := job], s.active[job.source := id])
  }

  function Completion(s: Jobs, id: JobId, result: Value): Jobs {
    if id !in s.jobs then s
    else Jobs(s.jobs[id := s.jobs[id].(status := Completed, result := Some(result))], s.active - {s.jobs[id].source})
  }

  function Failure(s: Jobs, id: JobId, error: Text): Jobs {
    if id !in s.jobs then s
    else Jobs(s.jobs[id := s.jobs[id].(status := Failed, error := Some(error))], s.active - {s.jobs[id].source})
  }

  function Cancellation(s: Jobs, id: JobId): Jobs {
    if id in s.jobs && s.jobs[id].status == Running
    then Jobs(s.jobs[id := s.jobs[id].(status := Failed, error := Some(CANCELLED), stop := true)],
              s.active - {s.jobs[id].source})
    else s
  }

  class JobStore {
    var jobs: map<JobId, Job>
    var active: map<SourceId, JobId>

    ghost function State(): Jobs
      reads this
    {
      Jobs(jobs, active)
    }

    constructor ()
      ensures State() == Jobs(map[], map[])
    {
      jobs, active := map[], map[];
    }

    /** Register a job, or name the running job that stands in its way. */
    method TryRegister(id: JobId, job: Job) returns (existing: Option<JobId>)
      modifies this
      ensures existing.None? ==> jobs == old(jobs)[id := job] && active == old(active)[job.source := id]
      ensures existing.Some? ==> jobs == old(jobs) && active == old(active)
      ensures State() == Registered(old(State()), id, job)
      ensures existing.Some? <==> Busy(old(State()), job.source)
      ensures existing.Some? ==> existing.value == old(active)[job.source]
    {
      if job.source in active {
        var other := active[job.source];
        var isRunning := other in jobs && jobs[other].status == Running;
        if isRunning {
          return Some(other);
        }
      }
      active := active - {job.source};
      jobs := jobs[id := job];
      active := active[job.source := id];
      existing := None;
    }

    method Complete(id: JobId, result: Value)
      modifies this
      ensures id in old(jobs) ==>
                && jobs == old(jobs)[id := old(jobs)[id].(status := Completed, result := Some(result))]
                && active == old(active) - {old(jobs)[id].source}
      ensures id !in old(jobs) ==> State() == old(State())
      ensures State() == Completion(old(State()), id, result)
    {
      if id in jobs {
        jobs := jobs[id := jobs[id].(status := Completed, result := Some(result))];
        active := active - {jobs[id].source};
      }
    }

    method Fail(id: JobId, error: Text)
      modifies this
      ensures id in old(jobs) ==>
                && jobs == old(jobs)[id := old(jobs)[id].(status := Failed, error := Some(error))]
                && active == old(active) - {old(jobs)[id].source}
      ensures id !in old(jobs) ==> State() == old(State())
      ensures State() == Failure(old(State()), id, error)
    {
      if id in jobs {
        jobs := jobs[id := jobs[id].(status := Failed, error := Some(error))];
        active := active - {jobs[id].source};
      }
    }

    method Cancel(id: JobId) returns (cancelled: bool)
      modifies this
      ensures cancelled <==> id in old(jobs) && old(jobs)[id].status == Running
      ensures cancelled ==>
                && jobs == old(jobs)[id := old(jobs)[id].(status := Failed, error := Some(CANCELLED), stop := true)]
                && active == old(active) - {old(jobs)[id].source}
      ensures !cancelled ==> State() == old(State())
      ensures State() == Cancellation(old(State()), id)
    {
      if id in jobs && jobs[id].status == Running {
        jobs := jobs[id := jobs[id].(status := Failed, error := Some(CANCELLED), stop := true)];
        active := active - {jobs[id].source};
        return true;
      }
      return false;
    }
  }

  // ----- runs -----

  datatype Event = Register(id: JobId, source: SourceId) | Complete(id: JobId, result: Value)
                 | Fail(id: JobId, error: Text) | Cancel(id: JobId)

  function Next(s: Jobs, e: Event): Jobs {
    match e
    case Register(id, source) => Registered(s, id, NewJob(source))
    case Complete(id, result) => Completion(s, id, result)
    case Fail(id, error) => Failure(s, id, error)
    case Cancel(id) => Cancellation(s, id)
  }

  function Run(log: seq<Event>): Jobs {
    if log == [] then Jobs(map[], map[]) else Next(Run(log[..|log| - 1]), log[|log| - 1])
  }

  /** New jobs get ids not used before. */
  ghost predicate FreshId(s: Jobs, e: Event) {
    e.Register? ==> e.id !in s.jobs
  }

  /** Only running jobs report their end. */
  ghost predicate TimelyReport(s: Jobs, e: Event) {
    (e.Complete? || e.Fail?) && e.id in s.jobs ==> s.jobs[e.id].status == Running
  }

  ghost predicate IdsFresh(log: seq<Event>) {
    log != [] ==> FreshId(Run(log[..|log| - 1]), log[|log| - 1]) && IdsFresh(log[..|log| - 1])
  }

  ghost predicate ReportsTimely(log: seq<Event>) {
    log != [] ==> TimelyReport(Run(log[..|log| - 1]), log[|log| - 1]) && ReportsTimely(log[..|log| - 1])
  }

  /** Every index entry names a running job of its datasource. */
  ghost predicate IndexSound(s: Jobs) {
    forall d :: d in s.active ==>
      s.active[d] in s.jobs && s.jobs[s.active[d]].source == d && s.jobs[s.active[d]].status == Running
  }

  /** Every running job is in the index. */
  ghost predicate IndexComplete(s: Jobs) {
    forall id :: id in s.jobs && s.jobs[id].status == Running ==>
      s.jobs[id].source in s.active && s.active[s.jobs[id].source] == id
  }

  /** The status says which of result and error are set. */
  ghost predicate RecordOk(job: Job) {
    match job.status
    case Running => job.result.None? && job.error.None?
    case Completed => job.result.Some? && job.error.None?
    case Failed => job.result.None? && job.error.Some?
  }

  ghost predicate RecordsOk(s: Jobs) {
    forall id :: id in s.jobs ==> RecordOk(s.jobs[id])
  }

  lemma StepKeepsSound(s: Jobs, e: Event)
    requires IndexSound(s) && FreshId(s, e)
    ensures IndexSound(Next(s, e))
  {
    var s' := Next(s, e);
    forall d | d in s'.active
      ensures s'.active[d] in s'.jobs && s'.jobs[s'.active[d]].source == d && s'.jobs[s'.active[d]].status == Running
    {
      assert d in s.active ==> s.active[d] in s.jobs && s.jobs[s.active[d]].source == d;
    }
  }

  /** Whatever the callers report, an index entry names a running job of its datasource. */
  lemma {:induction false} RunsKeepSound(log: seq<Event>)
    requires IdsFresh(log)
    ensures IndexSound(Run(log))
    decreases log
  {
    if log != [] {
      RunsKeepSound(log[..|log| - 1]);
      StepKeepsSound(Run(log[..|log| - 1]), log[|log| - 1]);
    }
  }

  /** The step is no report, or the job is unknown, is still running, or its datasource has
      no active job. */
  ghost predicate HarmlessReport(s: Jobs, e: Event) {
    (e.Complete? || e.Fail?) && e.id in s.jobs ==>
      s.jobs[e.id].status == Running || s.jobs[e.id].source !in s.active
  }

  /** A step keeps every running job in the index exactly when it is harmless. */
  lemma StepCompleteExact(s: Jobs, e: Event)
    requires IndexSound(s) && IndexComplete(s) && FreshId(s, e)
    ensures IndexComplete(Next(s, e)) <==> HarmlessReport(s, e)
  {
    var s' := Next(s, e);
    if HarmlessReport(s, e) {
      forall id | id in s'.jobs && s'.jobs[id].status == Running
        ensures s'.jobs[id].source in s'.active && s'.active[s'.jobs[id].source] == id
      {
        if !(e.Register? && id == e.id) {
          assert id in s.jobs && s.jobs[id] == s'.jobs[id];
        }
      }
    } else {
      var other := s.active[s.jobs[e.id].source];
      assert other in s.jobs && s.jobs[other].status == Running && other != e.id;
      assert other in s'.jobs && s'.jobs[other] == s.jobs[other];
    }
  }

  lemma StepKeepsRecords(s: Jobs, e: Event)
    requires RecordsOk(s) && TimelyReport(s, e)
    ensures RecordsOk(Next(s, e))
  {
    var s' := Next(s, e);
    forall id | id in s'.jobs ensures RecordOk(s'.jobs[id]) {
      assert id in s.jobs ==> RecordOk(s.jobs[id]);
    }
  }

  /** When only running jobs report, the index is exactly the running jobs, one per
      datasource, and each record has the fields its status calls for. */
  lemma {:induction false} RunsKeepExact(log: seq<Event>)
    requires IdsFresh(log) && ReportsTimely(log)
    ensures IndexSound(Run(log)) && IndexComplete(Run(log)) && RecordsOk(Run(log))
    decreases log
  {
    if log != [] {
      var init := log[..|log| - 1];
      RunsKeepExact(init);
      StepKeepsSound(Run(init), log[|log| - 1]);
      StepCompleteExact(Run(init), log[|log| - 1]);
      StepKeepsRecords(Run(init), log[|log| - 1]);
    }
  }

  lemma AtMostOneRunning(log: seq<Event>, a: JobId, b: JobId)
    requires IdsFresh(log) && ReportsTimely(log)
    requires a in Run(log).jobs && b in Run(log).jobs
    requires Run(log).jobs[a].status == Run(log).jobs[b].status == Running
    requires Run(log).jobs[a].source == Run(log).jobs[b].source
    ensures a == b
  {
    RunsKeepExact(log);
  }

  /** Registration is refused exactly when the datasource has a running job. */
  lemma RefusedIffRunning(log: seq<Event>, source: SourceId)
    requires IdsFresh(log) && ReportsTimely(log)
    ensures Busy(Run(log), source) <==>
            exists id :: id in Run(log).jobs && Run(log).jobs[id].status == Running && Run(log).jobs[id].source == source
  {
    RunsKeepExact(log);
    var s := Run(log);
    if Busy(s, source) {
      var id := s.active[source];
      assert id in s.jobs && s.jobs[id].status == Running && s.jobs[id].source == source;
    }
  }

  ghost predicate ReportsHarmless(log: seq<Event>) {
    log != [] ==> HarmlessReport(Run(log[..|log| - 1]), log[|log| - 1]) && ReportsHarmless(log[..|log| - 1])
  }

  ghost predicate AlwaysComplete(log: seq<Event>) {
    IndexComplete(Run(log)) && (log != [] ==> AlwaysComplete(log[..|log| - 1]))
  }

  /** Over any run, every running job stays in the index exactly when every report was harmless. */
  lemma {:induction false} CompleteIffHarmless(log: seq<Event>)
    requires IdsFresh(log)
    ensures AlwaysComplete(log) <==> ReportsHarmless(log)
    decreases log
  {
    if log != [] {
      var init, e := log[..|log| - 1], log[|log| - 1];
      CompleteIffHarmless(init);
      RunsKeepSound(init);
      if AlwaysComplete(init) {
        StepCompleteExact(Run(init), e);
      }
    }
  }

  // ----- each job's record, from the events -----

  /** The event at position `k` registered the job for the datasource. */
  ghost predicate RegisteredAt(log: seq<Event>, k: nat, id: JobId, source: SourceId) {
    k < |log| && log[k] == Register(id, source) && !Busy(Run(log[..k]), source)
  }

  /** The event at position `k` cancelled the job while it ran. */
  ghost predicate CancelledAt(log: seq<Event>, k: nat, id: JobId) {
    && k < |log| && log[k] == Cancel(id)
    && id in Run(log[..k]).jobs && Run(log[..k]).jobs[id].status == Running
  }

  /** What the last completion reported, since the job was registered. */
  ghost function LastResult(log: seq<Event>, id: JobId): Option<Value> {
    if log == [] then None
    else
      var s, e := Run(log[..|log| - 1]), log[|log| - 1];
      if e.Complete? && e.id == id && id in s.jobs then Some(e.result) else LastResult(log[..|log| - 1], id)
  }

  /** What the last failure reported, or that it was a cancellation. */
  ghost function LastError(log: seq<Event>, id: JobId): Option<Text> {
    if log == [] then None
    else
      var s, e := Run(log[..|log| - 1]), log[|log| - 1];
      if e.Fail? && e.id == id && id in s.jobs then Some(e.error)
      else if e == Cancel(id) && id in s.jobs && s.jobs[id].status == Running then Some(CANCELLED)
      else LastError(log[..|log| - 1], id)
  }

  /** The status the last of these ends left. */
  ghost function LastStatus(log: seq<Event>, id: JobId): Status {
    if log == [] then Running
    else
      var s, e := Run(log[..|log| - 1]), log[|log| - 1];
      if e.Complete? && e.id == id && id in s.jobs then Completed
      else if e.Fail? && e.id == id && id in s.jobs then Failed
      else if e == Cancel(id) && id in s.jobs && s.jobs[id].status == Running then Failed
      else LastStatus(log[..|log| - 1], id)
  }

  lemma RegisteredEarlier(log: seq<Event>, k: nat, id: JobId, source: SourceId)
    requires k < |log| - 1
    ensures RegisteredAt(log, k, id, source) <==> RegisteredAt(log[..|log| - 1], k, id, source)
  {
    assert log[..|log| - 1][..k] == log[..k];
  }

  lemma CancelledEarlier(log: seq<Event>, k: nat, id: JobId)
    requires k < |log| - 1
    ensures CancelledAt(log, k, id) <==> CancelledAt(log[..|log| - 1], k, id)
  {
    assert log[..|log| - 1][..k] == log[..k];
  }

  /** A job unknown so far has no record of an end. */
  lemma {:induction false} UnknownNeverEnded(log: seq<Event>, id: JobId)
    requires id !in Run(log).jobs
    ensures LastResult(log, id) == None && LastError(log, id) == None && LastStatus(log, id) == Running
    ensures forall k :: !CancelledAt(log, k, id)
    decreases log
  {
    if log != [] {
      UnknownNeverEnded(log[..|log| - 1], id);
      forall k: nat | k < |log| - 1 ensures !CancelledAt(log, k, id) {
        CancelledEarlier(log, k, id);
      }
    }
  }

  /** In every run, a job is known, with a datasource, exactly when it was registered for it. */
  lemma {:induction false} KnownExact(log: seq<Event>, id: JobId, source: SourceId)
    requires IdsFresh(log)
    ensures id in Run(log).jobs && Run(log).jobs[id].source == source <==> exists k :: RegisteredAt(log, k, id, source)
    decreases log
  {
    if log != [] {
      var init, e := log[..|log| - 1], log[|log| - 1];
      KnownExact(init, id, source);
      forall k: nat | k < |init| ensures RegisteredAt(log, k, id, source) <==> RegisteredAt(init, k, id, source) {
        RegisteredEarlier(log, k, id, source);
      }
      assert RegisteredAt(log, |init|, id, source) <==> e == Register(id, source) && !Busy(Run(init), source);
    }
  }

  /** In every run, a job's cancellation token is set exactly when it was cancelled while it
      ran, and its status, result and error are those of the last end reported for it. */
  lemma {:induction false} RecordExact(log: seq<Event>, id: JobId)
    requires IdsFresh(log) && id in Run(log).jobs
    ensures var job := Run(log).jobs[id];
            && (job.stop <==> exists k :: CancelledAt(log, k, id))
            && job.result == LastResult(log, id) && job.error == LastError(log, id) && job.status == LastStatus(log, id)
    decreases log
  {
    var init, e := log[..|log| - 1], log[|log| - 1];
    forall k: nat | k < |init| ensures CancelledAt(log, k, id) <==> CancelledAt(init, k, id) {
      CancelledEarlier(log, k, id);
    }
    assert CancelledAt(log, |init|, id) <==>
      e == Cancel(id) && id in Run(init).jobs && Run(init).jobs[id].status == Running;
    if id in Run(init).jobs {
      RecordExact(init, id);
    } else {
      UnknownNeverEnded(init, id);
    }
  }

  // ----- one running job per datasource -----

  ghost predicate RunningOn(s: Jobs, id: JobId, source: SourceId) {
    id in s.jobs && s.jobs[id].status == Running && s.jobs[id].source == source
  }

  /** No datasource has two running jobs. */
  ghost predicate OneRunning(s: Jobs) {
    forall a, b, d :: RunningOn(s, a, d) && RunningOn(s, b, d) ==> a == b
  }

  /** The step is no registration, or is refused, or its datasource has no running job. */
  ghost predicate CleanStart(s: Jobs, e: Event) {
    e.Register? && !Busy(s, e.source) ==> forall id :: !RunningOn(s, id, e.source)
  }

  lemma StepOneExact(s: Jobs, e: Event)
    requires OneRunning(s) && FreshId(s, e)
    ensures OneRunning(Next(s, e)) <==> CleanStart(s, e)
  {
    var s' := Next(s, e);
    forall id, d ensures RunningOn(s', id, d) ==> RunningOn(s, id, d) || (e.Register? && id == e.id && d == e.source) {
    }
    if e.Register? && !Busy(s, e.source) {
      assert RunningOn(s', e.id, e.source);
      forall id ensures RunningOn(s, id, e.source) ==> RunningOn(s', id, e.source) && id != e.id {
      }
    }
  }

  ghost predicate AlwaysOne(log: seq<Event>) {
    OneRunning(Run(log)) && (log != [] ==> AlwaysOne(log[..|log| - 1]))
  }

  ghost predicate StartsClean(log: seq<Event>) {
    log != [] ==> CleanStart(Run(log[..|log| - 1]), log[|log| - 1]) && StartsClean(log[..|log| - 1])
  }

  /** Over any run, no datasource ever has two running jobs exactly when every registration
      that goes through finds none. */
  lemma {:induction false} OneIffCleanStarts(log: seq<Event>)
    requires IdsFresh(log)
    ensures AlwaysOne(log) <==> StartsClean(log)
    decreases log
  {
    if log != [] {
      var init, e := log[..|log| - 1], log[|log| - 1];
      OneIffCleanStarts(init);
      if AlwaysOne(init) {
        StepOneExact(Run(init), e);
      }
    }
  }

  /** The step ends the job it names: it reports on a known job, or cancels a running one. */
  ghost predicate Ends(s: Jobs, e: Event) {
    !e.Register? && e.id in s.jobs && (e.Cancel? ==> s.jobs[e.id].status == Running)
  }

  /** Since the job was registered, an end of another job of its datasource came in. */
  ghost predicate Displaced(log: seq<Event>, id: JobId) {
    log != [] &&
    var s, e := Run(log[..|log| - 1]), log[|log| - 1];
    id in s.jobs &&
    (Displaced(log[..|log| - 1], id) || (Ends(s, e) && e.id != id && s.jobs[e.id].source == s.jobs[id].source))
  }

  ghost predicate Indexed(s: Jobs, id: JobId) {
    id in s.jobs && s.jobs[id].source in s.active && s.active[s.jobs[id].source] == id
  }

  /** A running job is off the index exactly when it was displaced. */
  lemma {:induction false} OffIndexIffDisplaced(log: seq<Event>, id: JobId)
    requires IdsFresh(log) && id in Run(log).jobs && Run(log).jobs[id].status == Running
    ensures Indexed(Run(log), id) <==> !Displaced(log, id)
    decreases log
  {
    var init, e := log[..|log| - 1], log[|log| - 1];
    if id in Run(init).jobs {
      OffIndexIffDisplaced(init, id);
    }
  }

  /** No registration comes while a displaced job of its datasource runs. */
  ghost predicate StartsUndisplaced(log: seq<Event>) {
    log != [] ==>
      var init, e := log[..|log| - 1], log[|log| - 1];
      && StartsUndisplaced(init)
      && (e.Register? ==> forall id :: RunningOn(Run(init), id, e.source) ==> !Displaced(init, id))
  }

  /** The same in terms of what the callers sent: no datasource ever has two running jobs
      exactly when none is registered for while its running job is displaced. */
  lemma {:induction false} OneIffUndisplaced(log: seq<Event>)
    requires IdsFresh(log)
    ensures AlwaysOne(log) <==> StartsUndisplaced(log)
    decreases log
  {
    if log != [] {
      var init, e := log[..|log| - 1], log[|log| - 1];
      var s := Run(init);
      OneIffUndisplaced(init);
      if AlwaysOne(init) {
        StepOneExact(s, e);
        forall id | id in s.jobs && s.jobs[id].status == Running ensures Indexed(s, id) <==> !Displaced(init, id) {
          OffIndexIffDisplaced(init, id);
        }
        RunsKeepSound(init);
        if e.Register? && Busy(s, e.source) {
          assert RunningOn(s, s.active[e.source], e.source);
        }
      }
    }
  }

  /** The runner of a cancelled job still reports. When that comes after a new registration,
      the new job drops out of the index and a third job can start beside it. */
  lemma LateReportAdmitsTwo(d: SourceId, error: Text) returns (log: seq<Event>)
    ensures IdsFresh(log)
    ensures 2 in Run(log).jobs && 3 in Run(log).jobs
    ensures Run(log).jobs[2] == Run(log).jobs[3] == NewJob(d)
  {
    var l1 := [] + [Register(1, d)];
    var l2 := l1 + [Cancel(1)];
    var l3 := l2 + [Register(2, d)];
    var l4 := l3 + [Fail(1, error)];
    log := l4 + [Register(3, d)];
    RunPush([], Register(1, d));
    RunPush(l1, Cancel(1));
    RunPush(l2, Register(2, d));
    RunPush(l3, Fail(1, error));
    RunPush(l4, Register(3, d));
  }

  lemma RunPush(log: seq<Event>, e: Event)
    ensures Run(log + [e]) == Next(Run(log), e)
    ensures IdsFresh(log) && FreshId(Run(log), e) ==> IdsFresh(log + [e])
  {
    assert (log + [e])[..|log|] == log;
  }
}
