/**
 * The programs that drive the table: one scheduler tick and one worker job (outbox-scheduler.ts:210-274,
 * background-task-worker.ts:82-140). Each is shown to perform a legal run of table steps; since every prefix of a legal
 * run is legal, a crash between any two of its statements leaves a state the protocol theorems cover.
 */
module TaskActors {
  import opened Options
  import opened TaskTable
  import opened TaskProtocol
  import Seqs

  /** A crash after any number of statements leaves a legal run. */
  lemma CrashIsLegal(rows: Rows, events: seq<Event>, k: nat)
    requires LegalRun(rows, events) && k <= |events|
    ensures LegalRun(rows, events[..k])
  {
    assert events == events[..k] + events[k..];
    RunConcat(rows, events[..k], events[k..]);
  }

  lemma RunOne(rows: Rows, done: seq<Event>, now: Rows, e: Event)
    requires LegalRun(rows, done) && now == Run(rows, done) && Legal(now, e)
    ensures LegalRun(rows, done + [e]) && Run(rows, done + [e]) == Step(now, e)
  {
    RunConcat(rows, done, [e]);
    assert [e][1..] == [];
  }

  /** The Redis queue: a set of job ids that anyone may lose at any time. */
  class JobQueue {
    var jobs: set<Uuid>

    constructor ()
      ensures jobs == {}
    {
      jobs := {};
    }

    /** 0 when a worker still holds the residual job. */
    method Remove(u: Uuid, held: set<Uuid>) returns (removed: nat)
      modifies this
      ensures removed == 0 <==> u in held
      ensures jobs == if u in held then old(jobs) else old(jobs) - {u}
    {
      if u in held {
        removed := 0;
      } else {
        jobs := jobs - {u};
        removed := 1;
      }
    }

    /** Fails when Redis does. */
    method Add(u: Uuid, down: set<Uuid>) returns (ok: bool)
      modifies this
      ensures ok <==> u !in down
      ensures jobs == if ok then old(jobs) + {u} else old(jobs)
    {
      ok := u !in down;
      if ok {
        jobs := jobs + {u};
      }
    }
  }

  // ---------------------------------------------------------------- everybody else

  /** What all other schedulers and workers do at the given moment of a program, seeing the table as it is then. */
  type Others = (nat, Rows) -> seq<Event>

  /** They keep the rules of the protocol, and none of them speaks for the given scheduler. */
  ghost predicate Lawful(others: Others, schedulerId: string) {
    && (forall moment, rows :: LegalRun(rows, others(moment, rows)))
    && (forall moment, rows, e :: e in others(moment, rows) ==> !Speaks(e, schedulerId))
  }

  /** A delivery statement of that scheduler. */
  predicate Speaks(e: Event, schedulerId: string) {
    (e.Enqueued? || e.Release?) && e.owner == schedulerId
  }

  method Interfere(tasks: BackgroundTasks, others: Others, moment: nat) returns (ghost events: seq<Event>)
    requires LegalRun(tasks.rows, others(moment, tasks.rows))
    modifies tasks
    ensures events == others(moment, old(tasks.rows))
    ensures LegalRun(old(tasks.rows), events) && tasks.rows == Run(old(tasks.rows), events)
  {
    events := others(moment, tasks.rows);
    tasks.rows := Run(tasks.rows, others(moment, tasks.rows));
  }

  // ---------------------------------------------------------------- the scheduler

  /** How far a tick gets before a statement throws. */
  datatype Reach = AfterInserts | AfterTimeOuts | AfterClaim | Throughout

  /** The answer to `markQueued`: an error may come before or after the row was changed. */
  datatype Reply = Works | ThrowsBefore | ThrowsAfter

  /**
   * Everything one tick meets from outside: held jobs, a failing Redis, rows other transactions have locked, statements
   * that throw.
   */
  datatype TickWorld = TickWorld(maintenance: Option<bool>, now: int, due: seq<(Uuid, TaskType)>, held: set<Uuid>,
                                 down: set<Uuid>, locked: set<Uuid>, reach: Reach, queued: Uuid -> Reply, releaseThrows: set<Uuid>)

  /** A tick's part of a run: its four phases, each with everybody else in between, and the batch it claimed. */
  datatype TickTrace = TickTrace(inserts: seq<Event>, timeOuts: seq<Event>, claims: seq<Event>, deliveries: seq<Event>,
                                 batch: seq<OutboxClaimRow>, whole: bool)
  {
    function All(): seq<Event> {
      inserts + timeOuts + claims + deliveries
    }
  }

  const QUIET := TickTrace([], [], [], [], [], true)

  /** The scheduled tasks that are due, inserted one after the other with everybody else in between. */
  function Inserting(rows: Rows, due: seq<(Uuid, TaskType)>, now: int, others: Others): seq<Event>
    decreases |due|
  {
    if due == [] then []
    else
      var first := others(0, rows) + [Insert(due[0].0, due[0].1, now, now)];
      first + Inserting(Run(rows, first), due[1..], now, others)
  }

  /** The new job of a row is in the queue: no worker holds its old one, if it had been queued before, and Redis takes it. */
  ghost predicate Queues(row: OutboxClaimRow, world: TickWorld) {
    (row.status.PendingEnqueue? || row.taskUuid !in world.held) && row.taskUuid !in world.down
  }

  /** What becomes of a claimed row: marked as queued, released, or neither if that statement throws as well. */
  ghost predicate Dispatched(events: seq<Event>, row: OutboxClaimRow, world: TickWorld, schedulerId: string) {
    var u := row.taskUuid;
    && (Enqueued(u, schedulerId) in events <==> Queues(row, world) && !world.queued(u).ThrowsBefore?)
    && (Release(u, schedulerId, 0, "delivery failed", world.now) in events <==>
          !(Queues(row, world) && world.queued(u).Works?) && u !in world.releaseThrows)
  }

  /** The release of the row throws, which ends the tick. */
  ghost predicate EndsAt(row: OutboxClaimRow, world: TickWorld) {
    !(Queues(row, world) && world.queued(row.taskUuid).Works?) && row.taskUuid in world.releaseThrows
  }

  /** The statements of a tick that is not paused, phase by phase, as far as it gets. */
  ghost predicate Ticked(rows: Rows, schedulerId: string, world: TickWorld, others: Others, trace: TickTrace) {
    && LegalRun(rows, trace.inserts) && trace.inserts == Inserting(rows, world.due, world.now, others)
    && (if world.reach.AfterInserts? then trace.timeOuts == trace.claims == trace.deliveries == []
        else
          var inserted := Run(rows, trace.inserts);
          && trace.timeOuts == others(1, inserted) + [TimeOut(world.now)] && LegalRun(inserted, trace.timeOuts)
          && (if world.reach.AfterTimeOuts? then trace.claims == trace.deliveries == []
              else ClaimedAndDelivered(Run(inserted, trace.timeOuts), schedulerId, world, others, trace)))
  }

  ghost predicate ClaimedAndDelivered(rows: Rows, schedulerId: string, world: TickWorld, others: Others, trace: TickTrace) {
    && LegalRun(rows, others(2, rows))
    && var seen := Run(rows, others(2, rows));
    && trace.claims == others(2, rows) + [ClaimBatch(schedulerId, SAFELY_REPLAYABLE_TASK_TYPES, world.now, 50,
                                                     world.locked, Claimed(trace.batch))]
    && (forall i, j :: 0 <= i < j < |trace.batch| ==> trace.batch[i].taskUuid != trace.batch[j].taskUuid)
    && (forall row :: row in trace.batch ==> row.taskUuid in seen && row.status == seen[row.taskUuid].status)
    && (if world.reach.AfterClaim? then trace.deliveries == []
        else Delivered(trace.deliveries, trace.batch, trace.whole, world, schedulerId))
  }

  /** Every row of the batch is dispatched, up to one at which the release throws, if any. */
  ghost predicate Delivered(events: seq<Event>, batch: seq<OutboxClaimRow>, whole: bool, world: TickWorld, schedulerId: string) {
    if whole then
      forall i :: 0 <= i < |batch| ==> Dispatched(events, batch[i], world, schedulerId) && !EndsAt(batch[i], world)
    else
      exists n :: DeliveredUpTo(events, batch, n, world, schedulerId)
  }

  ghost predicate DeliveredUpTo(events: seq<Event>, batch: seq<OutboxClaimRow>, n: int, world: TickWorld, schedulerId: string) {
    && 0 <= n < |batch| && EndsAt(batch[n], world)
    && (forall i :: 0 <= i <= n ==> Dispatched(events, batch[i], world, schedulerId))
    && (forall i :: 0 <= i < n ==> !EndsAt(batch[i], world))
    && (forall i :: n < i < |batch| ==> !SpokenFor(events, schedulerId, batch[i].taskUuid))
  }

  class OutboxScheduler {
    const schedulerId: string
    var running: bool

    constructor (schedulerId: string)
      requires IsScheduler(schedulerId)
      ensures this.schedulerId == schedulerId && !running
    {
      this.schedulerId := schedulerId;
      running := false;
    }

    /**
     * A tick among other schedulers and workers. Under maintenance, or when the marker cannot be read, nothing is
     * scheduled. Otherwise it is a legal run of the tick's own statements in their order, in which the claimed rows are
     * dispatched; and whatever this scheduler marks as queued is in the queue.
     */
    method Tick(tasks: BackgroundTasks, queue: JobQueue, world: TickWorld, others: Others) returns (ghost events: seq<Event>, ghost trace: TickTrace)
      requires IsScheduler(schedulerId) && Lawful(others, schedulerId)
      modifies this, tasks, queue
      ensures running == old(running)
      ensures LegalRun(old(tasks.rows), events) && tasks.rows == Run(old(tasks.rows), events) && events == trace.All()
      ensures old(running) || world.maintenance != Some(false) ==> events == [] && queue.jobs == old(queue.jobs)
      ensures !old(running) && world.maintenance == Some(false) ==> Ticked(old(tasks.rows), schedulerId, world, others, trace)
      ensures forall e :: e in events && e.Enqueued? && e.owner == schedulerId ==> e.u in queue.jobs
    {
      events, trace := [], QUIET;
      if running {
        return;
      }
      running := true;
      if world.maintenance == Some(false) {
        trace := Schedule(tasks, queue, world, others);
        events := trace.All();
      }
      running := false;
    }

    /** The body of the `try` block. */
    method Schedule(tasks: BackgroundTasks, queue: JobQueue, world: TickWorld, others: Others) returns (ghost trace: TickTrace)
      requires IsScheduler(schedulerId) && Lawful(others, schedulerId)
      modifies tasks, queue
      ensures LegalRun(old(tasks.rows), trace.All()) && tasks.rows == Run(old(tasks.rows), trace.All())
      ensures Ticked(old(tasks.rows), schedulerId, world, others, trace)
      ensures forall e :: e in trace.All() && e.Enqueued? && e.owner == schedulerId ==> e.u in queue.jobs
    {
      ghost var inserts := InsertDue(tasks, world, others);
      trace := QUIET.(inserts := inserts);
      assert trace.All() == inserts;
      if world.reach.AfterInserts? {
        return;
      }
      ghost var timeOuts := TimeOutStep(tasks, world, others);
      RunConcat(old(tasks.rows), inserts, timeOuts);
      trace := trace.(timeOuts := timeOuts);
      assert trace.All() == inserts + timeOuts;
      if world.reach.AfterTimeOuts? {
        return;
      }
      ghost var claimed := ClaimAndDeliver(tasks, queue, world, others);
      RunConcat(old(tasks.rows), inserts + timeOuts, claimed.claims + claimed.deliveries);
      Seqs.Assoc(inserts + timeOuts, claimed.claims, claimed.deliveries);
      trace := claimed.(inserts := inserts, timeOuts := timeOuts);
    }

    method ClaimAndDeliver(tasks: BackgroundTasks, queue: JobQueue, world: TickWorld, others: Others) returns (ghost trace: TickTrace)
      requires IsScheduler(schedulerId) && Lawful(others, schedulerId)
      modifies tasks, queue
      ensures LegalRun(old(tasks.rows), trace.claims + trace.deliveries) && tasks.rows == Run(old(tasks.rows), trace.claims + trace.deliveries)
      ensures ClaimedAndDelivered(old(tasks.rows), schedulerId, world, others, trace)
      ensures forall e :: e in trace.claims ==> !Speaks(e, schedulerId)
      ensures forall e :: e in trace.deliveries && e.Enqueued? && e.owner == schedulerId ==> e.u in queue.jobs
    {
      var batch;
      ghost var claims;
      batch, claims := ClaimStep(tasks, world, others);
      trace := QUIET.(claims := claims, batch := batch);
      assert claims + [] == claims;
      if world.reach.AfterClaim? {
        return;
      }
      var whole;
      ghost var deliveries;
      whole, deliveries := Deliver(tasks, queue, batch, world, others);
      RunConcat(old(tasks.rows), claims, deliveries);
      trace := trace.(deliveries := deliveries, whole := whole);
    }

    method InsertDue(tasks: BackgroundTasks, world: TickWorld, others: Others) returns (ghost events: seq<Event>)
      requires Lawful(others, schedulerId)
      modifies tasks
      ensures LegalRun(old(tasks.rows), events) && tasks.rows == Run(old(tasks.rows), events)
      ensures events == Inserting(old(tasks.rows), world.due, world.now, others)
      ensures forall e :: e in events ==> !Speaks(e, schedulerId)
    {
      events := [];
      for i := 0 to |world.due|
        invariant LegalRun(old(tasks.rows), events) && tasks.rows == Run(old(tasks.rows), events)
        invariant events + Inserting(tasks.rows, world.due[i..], world.now, others)
               == Inserting(old(tasks.rows), world.due, world.now, others)
        invariant forall e :: e in events ==> !Speaks(e, schedulerId)
      {
        ghost var more := InsertStep(tasks, world.due[i].0, world.due[i].1, world.now, others);
        RunConcat(old(tasks.rows), events, more);
        assert world.due[i..][1..] == world.due[i + 1..];
        Seqs.Assoc(events, more, Inserting(tasks.rows, world.due[i + 1..], world.now, others));
        events := events + more;
      }
    }

    method InsertStep(tasks: BackgroundTasks, u: Uuid, taskType: TaskType, now: int, others: Others) returns (ghost events: seq<Event>)
      requires Lawful(others, schedulerId)
      modifies tasks
      ensures LegalRun(old(tasks.rows), events) && tasks.rows == Run(old(tasks.rows), events)
      ensures events == others(0, old(tasks.rows)) + [Insert(u, taskType, now, now)]
      ensures forall e :: e in events ==> !Speaks(e, schedulerId)
    {
      events := Interfere(tasks, others, 0);
      ghost var before, e := tasks.rows, Insert(u, taskType, now, now);
      RunOne(old(tasks.rows), events, before, e);
      var _ := tasks.InsertPending(u, taskType, now, now);
      assert tasks.rows == Step(before, e);
      events := events + [e];
    }

    method TimeOutStep(tasks: BackgroundTasks, world: TickWorld, others: Others) returns (ghost events: seq<Event>)
      requires Lawful(others, schedulerId)
      modifies tasks
      ensures LegalRun(old(tasks.rows), events) && tasks.rows == Run(old(tasks.rows), events)
      ensures events == others(1, old(tasks.rows)) + [TimeOut(world.now)]
      ensures forall e :: e in events ==> !Speaks(e, schedulerId)
    {
      events := Interfere(tasks, others, 1);
      ghost var failed := TimeOut(world.now);
      RunOne(old(tasks.rows), events, tasks.rows, failed);
      ghost var before := tasks.rows;
      var _ := tasks.FailTimedOut(world.now);
      assert tasks.rows == Step(before, failed);
      events := events + [failed];
    }

    method ClaimStep(tasks: BackgroundTasks, world: TickWorld, others: Others) returns (batch: seq<OutboxClaimRow>, ghost events: seq<Event>)
      requires IsScheduler(schedulerId) && Lawful(others, schedulerId)
      modifies tasks
      ensures LegalRun(old(tasks.rows), events) && tasks.rows == Run(old(tasks.rows), events)
      ensures forall e :: e in events ==> !Speaks(e, schedulerId)
      ensures forall i, j :: 0 <= i < j < |batch| ==> batch[i].taskUuid != batch[j].taskUuid
      ensures LegalRun(old(tasks.rows), others(2, old(tasks.rows)))
      ensures var seen := Run(old(tasks.rows), others(2, old(tasks.rows)));
        && events == others(2, old(tasks.rows)) + [ClaimBatch(schedulerId, SAFELY_REPLAYABLE_TASK_TYPES, world.now, 50,
                                                              world.locked, Claimed(batch))]
        && forall row :: row in batch ==> row.taskUuid in seen && row.status == seen[row.taskUuid].status
    {
      events := Interfere(tasks, others, 2);
      ghost var before := tasks.rows;
      batch := tasks.ClaimOutboxBatch(schedulerId, SAFELY_REPLAYABLE_TASK_TYPES, world.now, TASK_ENQUEUE_BATCH_SIZE, world.locked);
      ghost var e := ClaimBatch(schedulerId, SAFELY_REPLAYABLE_TASK_TYPES, world.now, TASK_ENQUEUE_BATCH_SIZE, world.locked, Claimed(batch));
      RunOne(old(tasks.rows), events, before, e);
      assert tasks.rows == Step(before, e);
      events := events + [e];
    }

    /** The loop over the batch; `whole` unless a release throws and ends the tick. */
    method Deliver(tasks: BackgroundTasks, queue: JobQueue, batch: seq<OutboxClaimRow>, world: TickWorld, others: Others)
      returns (whole: bool, ghost events: seq<Event>)
      requires IsScheduler(schedulerId) && Lawful(others, schedulerId)
      requires forall i, j :: 0 <= i < j < |batch| ==> batch[i].taskUuid != batch[j].taskUuid
      modifies tasks, queue
      ensures LegalRun(old(tasks.rows), events) && tasks.rows == Run(old(tasks.rows), events)
      ensures Delivered(events, batch, whole, world, schedulerId)
      ensures forall e :: e in events && e.Enqueued? && e.owner == schedulerId ==> e.u in queue.jobs
    {
      events := [];
      whole := true;
      for i := 0 to |batch|
        invariant whole && LegalRun(old(tasks.rows), events) && tasks.rows == Run(old(tasks.rows), events)
        invariant forall j :: 0 <= j < i ==> Dispatched(events, batch[j], world, schedulerId) && !EndsAt(batch[j], world)
        invariant forall e :: e in events && Speaks(e, schedulerId) ==> forall j :: i <= j < |batch| ==> e.u != batch[j].taskUuid
        invariant forall e :: e in events && e.Enqueued? && e.owner == schedulerId ==> e.u in queue.jobs
      {
        ghost var more;
        whole, more := DeliverOne(tasks, queue, batch[i], world, others, 3 + 2 * i);
        RunConcat(old(tasks.rows), events, more);
        StillDispatched(batch, i, events, more, world, schedulerId);
        events := events + more;
        if !whole {
          assert DeliveredUpTo(events, batch, i, world, schedulerId);
          return;
        }
      }
    }

    /**
     * A residual job is removed first; if a worker still holds it, if Redis refuses the new job or if marking the row
     * throws, its lease is released - which changes nothing when the row was marked before the error.
     */
    method DeliverOne(tasks: BackgroundTasks, queue: JobQueue, row: OutboxClaimRow, world: TickWorld, others: Others, moment: nat)
      returns (whole: bool, ghost events: seq<Event>)
      requires IsScheduler(schedulerId) && Lawful(others, schedulerId)
      modifies tasks, queue
      ensures LegalRun(old(tasks.rows), events) && tasks.rows == Run(old(tasks.rows), events)
      ensures Dispatched(events, row, world, schedulerId) && (whole <==> !EndsAt(row, world))
      ensures forall e :: e in events && Speaks(e, schedulerId) ==> e.u == row.taskUuid
      ensures forall e :: e in events && e.Enqueued? && e.owner == schedulerId ==> e.u in queue.jobs
      ensures forall u :: u in old(queue.jobs) && u != row.taskUuid ==> u in queue.jobs
    {
      var sent := Send(queue, row, world);
      events := [];
      if sent && !world.queued(row.taskUuid).ThrowsBefore? {
        events := MarkStep(tasks, row.taskUuid, others, moment);
        if world.queued(row.taskUuid).Works? {
          return true, events;
        }
      }
      if row.taskUuid in world.releaseThrows {
        return false, events;
      }
      ghost var more := ReleaseStep(tasks, row.taskUuid, world.now, others, moment + 1);
      RunConcat(old(tasks.rows), events, more);
      events := events + more;
      whole := true;
    }

    method MarkStep(tasks: BackgroundTasks, u: Uuid, others: Others, moment: nat) returns (ghost events: seq<Event>)
      requires IsScheduler(schedulerId) && Lawful(others, schedulerId)
      modifies tasks
      ensures LegalRun(old(tasks.rows), events) && tasks.rows == Run(old(tasks.rows), events)
      ensures Enqueued(u, schedulerId) in events && forall e :: e in events && Speaks(e, schedulerId) ==> e == Enqueued(u, schedulerId)
    {
      events := Interfere(tasks, others, moment);
      ghost var before, e := tasks.rows, Enqueued(u, schedulerId);
      RunOne(old(tasks.rows), events, before, e);
      var _ := tasks.MarkQueued(u, schedulerId);
      assert tasks.rows == Step(before, e);
      events := events + [e];
    }

    method ReleaseStep(tasks: BackgroundTasks, u: Uuid, now: int, others: Others, moment: nat) returns (ghost events: seq<Event>)
      requires IsScheduler(schedulerId) && Lawful(others, schedulerId)
      modifies tasks
      ensures LegalRun(old(tasks.rows), events) && tasks.rows == Run(old(tasks.rows), events)
      ensures Release(u, schedulerId, 0, "delivery failed", now) in events
      ensures forall e :: e in events && Speaks(e, schedulerId) ==> e == Release(u, schedulerId, 0, "delivery failed", now)
    {
      events := Interfere(tasks, others, moment);
      ghost var before, e := tasks.rows, Release(u, schedulerId, 0, "delivery failed", now);
      RunOne(old(tasks.rows), events, before, e);
      var _ := tasks.ReleaseEnqueueLease(u, schedulerId, 0, "delivery failed", now);
      assert tasks.rows == Step(before, e);
      events := events + [e];
    }

    method Send(queue: JobQueue, row: OutboxClaimRow, world: TickWorld) returns (sent: bool)
      modifies queue
      ensures sent <==> Queues(row, world)
      ensures sent ==> row.taskUuid in queue.jobs
      ensures forall u :: u in old(queue.jobs) && u != row.taskUuid ==> u in queue.jobs
    {
      if !row.status.PendingEnqueue? {
        var removed := queue.Remove(row.taskUuid, world.held);
        if removed == 0 {
          return false;
        }
      }
      sent := queue.Add(row.taskUuid, world.down);
    }
  }

  /** The scheduler has issued a delivery statement for the row. */
  ghost predicate SpokenFor(events: seq<Event>, schedulerId: string, u: Uuid) {
    exists e :: e in events && Speaks(e, schedulerId) && e.u == u
  }

  /** What was said of earlier rows stays said, and nothing is added to it. */
  lemma StillDispatched(batch: seq<OutboxClaimRow>, i: nat, events: seq<Event>, more: seq<Event>, world: TickWorld, schedulerId: string)
    requires i < |batch| && forall j, k :: 0 <= j < k < |batch| ==> batch[j].taskUuid != batch[k].taskUuid
    requires forall j :: 0 <= j < i ==> Dispatched(events, batch[j], world, schedulerId)
    requires forall e :: e in events && Speaks(e, schedulerId) ==> e.u != batch[i].taskUuid
    requires forall e :: e in more && Speaks(e, schedulerId) ==> e.u == batch[i].taskUuid
    requires Dispatched(more, batch[i], world, schedulerId)
    ensures forall j :: 0 <= j <= i ==> Dispatched(events + more, batch[j], world, schedulerId)
  {
    forall j | 0 <= j <= i ensures Dispatched(events + more, batch[j], world, schedulerId) {
      var u := batch[j].taskUuid;
      var mark, release := Enqueued(u, schedulerId), Release(u, schedulerId, 0, "delivery failed", world.now);
      assert Speaks(mark, schedulerId) && Speaks(release, schedulerId);
    }
  }

  // ---------------------------------------------------------------- the worker

  /** How a statement ends for the worker: it may throw before or after it took effect. */
  datatype Answer = Answered | Threw(written: bool, message: string) {
    predicate Written() {
      Threw? ==> written
    }
  }

  /** What a worker meets while it holds a job; `failure` is what the processor throws. */
  datatype JobWorld = JobWorld(
    claimAt: int, claiming: Answer, beats: seq<int>, failure: Option<string>, finalAttempt: bool,
    succeedAt: int, succeeding: Answer, failAt: int, failing: Answer)
  {
    /** What the `catch` block sees: the processor's error, or that of a statement that was to record success. */
    function Error(): Option<string> {
      if failure.Some? then failure
      else if succeeding.Threw? then Some(succeeding.message)
      else None
    }
  }

  datatype JobResult = Skipped | LeaseNotClaimable | ClaimThrew(message: string) | Finished | Failed(message: string)

  /** A job's part of a run: up to its claim, while processing, and from its finishing statements on. */
  datatype JobTrace = JobTrace(before: seq<Event>, during: seq<Event>, after: seq<Event>) {
    function All(): seq<Event> {
      before + during + after
    }
  }

  const NOTHING := JobTrace([], [], [])

  /** Heartbeats with everybody else in between. */
  function Beating(rows: Rows, u: Uuid, worker: string, beats: seq<int>, others: Others, moment: nat): seq<Event>
    decreases |beats|
  {
    if beats == [] then others(moment, rows)
    else
      var first := others(moment, rows) + [Renew(u, worker, beats[0])];
      first + Beating(Run(rows, first), u, worker, beats[1..], others, moment + 1)
  }

  /** The statement that records success, if it took effect. */
  function Successes(u: Uuid, worker: string, world: JobWorld): seq<Event> {
    if world.failure.None? && world.succeeding.Written() then [Succeed(u, worker, world.succeedAt)] else []
  }

  /** On the final attempt an error is recorded, whoever acted after the failed success. */
  function Failures(rows: Rows, u: Uuid, worker: string, world: JobWorld, others: Others): seq<Event> {
    if world.Error().None? || !world.finalAttempt then []
    else
      (if world.failure.None? then others(|world.beats| + 2, rows) else [])
      + if world.failing.Written() then [Fail(u, worker, world.Error().value, world.failAt)] else []
  }

  /**
   * From the table `held` at the end of processing: a row still held is SUCCEEDED once success was recorded, even if the
   * statement threw and a failure is recorded after it; where success was not recorded and the final failure was, a row
   * still held by then is FAILED. In all other cases the worker has changed nothing.
   */
  ghost predicate Ended(held: Rows, u: Uuid, worker: string, world: JobWorld, others: Others, end: Rows)
    requires forall moment, rows :: LegalRun(rows, others(moment, rows))
  {
    var succeeds := world.failure.None? && world.succeeding.Written() && u in held && HeldBy(held[u], worker);
    && (TableOk(held) && succeeds ==> u in end && end[u].status.Succeeded?)
    && (!succeeds ==>
          var fails := world.Error().Some? && world.finalAttempt;
          var late := if fails && world.failure.None? then Run(held, others(|world.beats| + 2, held)) else held;
          if fails && world.failing.Written() && u in late && HeldBy(late[u], worker)
          then u in end && end[u].status.Failed?
          else end == late)
  }

  /**
   * A job that got its claim: the worker held the row when it began, beat its heart among everybody else, held it still if
   * it beat in time, and ended as above.
   */
  ghost predicate Worked(rows: Rows, u: Uuid, worker: string, world: JobWorld, others: Others, trace: JobTrace, end: Rows)
    requires forall moment, rows :: LegalRun(rows, others(moment, rows))
  {
    LegalRun(rows, trace.before) &&
    var begun := Run(rows, trace.before);
    LegalRun(begun, trace.during) &&
    var held := Run(begun, trace.during);
    && u in begun && HeldBy(begun[u], worker) && trace.during == Beating(begun, u, worker, world.beats, others, 1)
    && (TableOk(rows) && KeepsBeating(trace.during, u, worker, world.claimAt) ==> u in held && HeldBy(held[u], worker))
    && Ended(held, u, worker, world, others, end)
  }

  class BackgroundTaskWorker {
    const leaseOwner: string

    constructor (leaseOwner: string)
      requires IsWorker(leaseOwner)
      ensures this.leaseOwner == leaseOwner
    {
      this.leaseOwner := leaseOwner;
    }

    method ClaimStep(tasks: BackgroundTasks, u: Uuid, now: int) returns (ok: bool, ghost e: Event)
      requires IsWorker(leaseOwner)
      modifies tasks
      ensures Legal(old(tasks.rows), e) && tasks.rows == Step(old(tasks.rows), e) && e == Claim(u, leaseOwner, now)
      ensures if ok then u in tasks.rows && HeldBy(tasks.rows[u], leaseOwner) && tasks.rows[u].leaseExpiresAt == Some(now + TASK_RUNNING_LEASE)
              else tasks.rows == old(tasks.rows)
    {
      ok := tasks.ClaimRunning(u, leaseOwner, now);
      e := Claim(u, leaseOwner, now);
      assert tasks.rows == Step(old(tasks.rows), e);
    }

    /** A heartbeat that no longer matches is ignored. */
    method RenewStep(tasks: BackgroundTasks, u: Uuid, now: int) returns (ghost e: Event)
      requires IsWorker(leaseOwner)
      modifies tasks
      ensures Legal(old(tasks.rows), e) && tasks.rows == Step(old(tasks.rows), e) && e == Renew(u, leaseOwner, now)
    {
      var _ := tasks.RenewRunningLease(u, leaseOwner, now);
      e := Renew(u, leaseOwner, now);
      assert tasks.rows == Step(old(tasks.rows), e);
    }

    /** A finish that no longer matches changes nothing. */
    method FinishStep(tasks: BackgroundTasks, u: Uuid, failure: Option<string>, now: int) returns (ghost e: Event)
      requires IsWorker(leaseOwner)
      modifies tasks
      ensures Legal(old(tasks.rows), e) && tasks.rows == Step(old(tasks.rows), e)
      ensures e == if failure.None? then Succeed(u, leaseOwner, now) else Fail(u, leaseOwner, failure.value, now)
      ensures if u in old(tasks.rows) && HeldBy(old(tasks.rows)[u], leaseOwner)
              then u in tasks.rows && tasks.rows[u].status == if failure.None? then Status.Succeeded else Status.Failed
              else tasks.rows == old(tasks.rows)
    {
      if failure.None? {
        var _ := tasks.MarkSucceeded(u, leaseOwner, now);
        e := Succeed(u, leaseOwner, now);
      } else {
        var _ := tasks.MarkFailed(u, leaseOwner, failure.value, now);
        e := Fail(u, leaseOwner, failure.value, now);
      }
      assert tasks.rows == Step(old(tasks.rows), e);
    }

    method Process(tasks: BackgroundTasks, u: Uuid, beats: seq<int>, others: Others) returns (ghost events: seq<Event>)
      requires IsWorker(leaseOwner) && forall moment, rows :: LegalRun(rows, others(moment, rows))
      modifies tasks
      ensures LegalRun(old(tasks.rows), events) && tasks.rows == Run(old(tasks.rows), events)
      ensures events == Beating(old(tasks.rows), u, leaseOwner, beats, others, 1)
    {
      events := [];
      for i := 0 to |beats|
        invariant LegalRun(old(tasks.rows), events) && tasks.rows == Run(old(tasks.rows), events)
        invariant events + Beating(tasks.rows, u, leaseOwner, beats[i..], others, 1 + i)
               == Beating(old(tasks.rows), u, leaseOwner, beats, others, 1)
      {
        ghost var start := tasks.rows;
        ghost var first := Interfere(tasks, others, 1 + i);
        ghost var e := RenewStep(tasks, u, beats[i]);
        RunOne(start, first, Run(start, first), e);
        RunConcat(old(tasks.rows), events, first + [e]);
        assert beats[i..][1..] == beats[i + 1..];
        Seqs.Assoc(events, first + [e], Beating(tasks.rows, u, leaseOwner, beats[i + 1..], others, 2 + i));
        events := events + (first + [e]);
      }
      ghost var last := Interfere(tasks, others, 1 + |beats|);
      RunConcat(old(tasks.rows), events, last);
      events := events + last;
    }

    /** The `catch` block on the final attempt. */
    method RecordFailure(tasks: BackgroundTasks, u: Uuid, world: JobWorld, others: Others) returns (ghost events: seq<Event>)
      requires IsWorker(leaseOwner) && forall moment, rows :: LegalRun(rows, others(moment, rows))
      requires world.Error().Some? && world.finalAttempt
      modifies tasks
      ensures LegalRun(old(tasks.rows), events) && tasks.rows == Run(old(tasks.rows), events)
      ensures events == Failures(old(tasks.rows), u, leaseOwner, world, others)
    {
      events := [];
      if world.failure.None? {
        events := Interfere(tasks, others, |world.beats| + 2);
      }
      if world.failing.Written() {
        ghost var now := tasks.rows;
        ghost var e := FinishStep(tasks, u, world.Error(), world.failAt);
        RunOne(old(tasks.rows), events, now, e);
        events := events + [e];
      }
    }

    /** The statements of the `try` block's end and of the `catch` block. */
    method End(tasks: BackgroundTasks, u: Uuid, world: JobWorld, others: Others) returns (error: Option<string>, ghost events: seq<Event>)
      requires IsWorker(leaseOwner) && forall moment, rows :: LegalRun(rows, others(moment, rows))
      modifies tasks
      ensures LegalRun(old(tasks.rows), events) && tasks.rows == Run(old(tasks.rows), events)
      ensures error == world.Error()
      ensures var first := Successes(u, leaseOwner, world);
        && LegalRun(old(tasks.rows), first)
        && LegalRun(Run(old(tasks.rows), first), Failures(Run(old(tasks.rows), first), u, leaseOwner, world, others))
        && events == first + Failures(Run(old(tasks.rows), first), u, leaseOwner, world, others)
    {
      events := [];
      error := world.failure;
      if error.None? {
        if world.succeeding.Written() {
          ghost var e := FinishStep(tasks, u, None, world.succeedAt);
          RunOne(old(tasks.rows), [], old(tasks.rows), e);
          assert [] + [e] == [e];
          events := [e];
        }
        if world.succeeding.Threw? {
          error := Some(world.succeeding.message);
        }
      }
      ghost var first := events;
      assert first == Successes(u, leaseOwner, world);
      if error.Some? && world.finalAttempt {
        ghost var more := RecordFailure(tasks, u, world, others);
        RunConcat(old(tasks.rows), first, more);
        events := first + more;
      } else {
        assert first + [] == first;
      }
    }

    /** Recording success ends a row the worker holds and leaves any other table as it is. */
    lemma SuccessMeaning(rows: Rows, u: Uuid, world: JobWorld)
      requires IsWorker(leaseOwner)
      requires LegalRun(rows, Successes(u, leaseOwner, world))
      ensures var middle := Run(rows, Successes(u, leaseOwner, world));
        if world.failure.None? && world.succeeding.Written() && u in rows && HeldBy(rows[u], leaseOwner)
        then u in middle && middle[u].status.Succeeded?
        else middle == rows
    {
      if world.failure.None? && world.succeeding.Written() {
        var e := Succeed(u, leaseOwner, world.succeedAt);
        RunOne(rows, [], rows, e);
        assert [] + [e] == [e];
        if !(u in rows && HeldBy(rows[u], leaseOwner)) {
          assert Step(rows, e) == rows;
        }
      }
    }

    /** Recording a failure ends a row the worker still holds by then and leaves any other table as it is. */
    lemma FailureMeaning(rows: Rows, u: Uuid, world: JobWorld, others: Others)
      requires IsWorker(leaseOwner)
      requires forall moment, rows :: LegalRun(rows, others(moment, rows))
      requires LegalRun(rows, Failures(rows, u, leaseOwner, world, others))
      ensures var end := Run(rows, Failures(rows, u, leaseOwner, world, others));
        var fails := world.Error().Some? && world.finalAttempt;
        var late := if fails && world.failure.None? then Run(rows, others(|world.beats| + 2, rows)) else rows;
        if fails && world.failing.Written() && u in late && HeldBy(late[u], leaseOwner)
        then u in end && end[u].status.Failed?
        else end == late
    {
      if world.Error().Some? && world.finalAttempt {
        var between := if world.failure.None? then others(|world.beats| + 2, rows) else [];
        var late := Run(rows, between);
        if world.failing.Written() {
          var e := Fail(u, leaseOwner, world.Error().value, world.failAt);
          RunOne(rows, between, late, e);
          if !(u in late && HeldBy(late[u], leaseOwner)) {
            assert Step(late, e) == late;
          }
        } else {
          assert between + [] == between;
        }
      }
    }

    lemma EndMeaning(rows: Rows, u: Uuid, world: JobWorld, others: Others, events: seq<Event>)
      requires IsWorker(leaseOwner)
      requires forall moment, rows :: LegalRun(rows, others(moment, rows))
      requires var first := Successes(u, leaseOwner, world);
        && LegalRun(rows, events) && LegalRun(rows, first)
        && LegalRun(Run(rows, first), Failures(Run(rows, first), u, leaseOwner, world, others))
        && events == first + Failures(Run(rows, first), u, leaseOwner, world, others)
      ensures Ended(rows, u, leaseOwner, world, others, Run(rows, events))
    {
      var first := Successes(u, leaseOwner, world);
      var middle := Run(rows, first);
      var later := Failures(middle, u, leaseOwner, world, others);
      RunConcat(rows, first, later);
      SuccessMeaning(rows, u, world);
      FailureMeaning(middle, u, world, others);
      if TableOk(rows) && world.failure.None? && world.succeeding.Written() && u in rows && HeldBy(rows[u], leaseOwner) {
        RunKeepsTableOk(rows, first);
        TerminalIsFinal(middle, later, u);
      }
    }

    /** What follows a successful claim. */
    method Work(tasks: BackgroundTasks, u: Uuid, world: JobWorld, others: Others)
      returns (error: Option<string>, ghost during: seq<Event>, ghost after: seq<Event>)
      requires IsWorker(leaseOwner) && forall moment, rows :: LegalRun(rows, others(moment, rows))
      modifies tasks
      ensures LegalRun(old(tasks.rows), during) && LegalRun(old(tasks.rows), during + after)
      ensures tasks.rows == Run(old(tasks.rows), during + after)
      ensures during == Beating(old(tasks.rows), u, leaseOwner, world.beats, others, 1) && error == world.Error()
      ensures Ended(Run(old(tasks.rows), during), u, leaseOwner, world, others, tasks.rows)
    {
      during := Process(tasks, u, world.beats, others);
      ghost var held := tasks.rows;
      error, after := End(tasks, u, world, others);
      RunConcat(old(tasks.rows), during, after);
      EndMeaning(held, u, world, others, after);
    }

    /** The claim, after whatever others did; a result means that the job ends here. */
    method ClaimJob(tasks: BackgroundTasks, u: Uuid, world: JobWorld, others: Others)
      returns (refused: Option<JobResult>, ghost before: seq<Event>)
      requires IsWorker(leaseOwner) && forall moment, rows :: LegalRun(rows, others(moment, rows))
      modifies tasks
      ensures LegalRun(old(tasks.rows), before) && tasks.rows == Run(old(tasks.rows), before)
      ensures var rows := Run(old(tasks.rows), others(0, old(tasks.rows)));
        match refused
        case None =>
          u in tasks.rows && HeldBy(tasks.rows[u], leaseOwner) && tasks.rows[u].leaseExpiresAt == Some(world.claimAt + TASK_RUNNING_LEASE)
        case Some(result) =>
          && (result.LeaseNotClaimable? || result.ClaimThrew?)
          && (result.LeaseNotClaimable? ==> tasks.rows == rows)
          && (result.ClaimThrew? ==>
                && world.claiming.Threw? && result.message == world.claiming.message
                && tasks.rows == if world.claiming.written then Step(rows, Claim(u, leaseOwner, world.claimAt)) else rows)
    {
      before := Interfere(tasks, others, 0);
      if world.claiming.Threw? && !world.claiming.written {
        return Some(ClaimThrew(world.claiming.message)), before;
      }
      ghost var rows := tasks.rows;
      var claimed;
      ghost var e;
      claimed, e := ClaimStep(tasks, u, world.claimAt);
      RunOne(old(tasks.rows), before, rows, e);
      before := before + [e];
      refused := if world.claiming.Threw? then Some(ClaimThrew(world.claiming.message))
                 else if !claimed then Some(LeaseNotClaimable)
                 else None;
    }

    lemma JobWorked(rows: Rows, u: Uuid, world: JobWorld, others: Others, trace: JobTrace, end: Rows)
      requires IsWorker(leaseOwner) && forall moment, rows :: LegalRun(rows, others(moment, rows))
      requires LegalRun(rows, trace.before) && LegalRun(Run(rows, trace.before), trace.during)
      requires var begun := Run(rows, trace.before);
        && u in begun && HeldBy(begun[u], leaseOwner) && begun[u].leaseExpiresAt == Some(world.claimAt + TASK_RUNNING_LEASE)
        && trace.during == Beating(begun, u, leaseOwner, world.beats, others, 1)
        && Ended(Run(begun, trace.during), u, leaseOwner, world, others, end)
      ensures Worked(rows, u, leaseOwner, world, others, trace, end)
    {
      if TableOk(rows) && KeepsBeating(trace.during, u, leaseOwner, world.claimAt) {
        RunKeepsTableOk(rows, trace.before);
        BeatingWorkerKeepsItsTask(Run(rows, trace.before), trace.during, u, leaseOwner, world.claimAt);
      }
    }

    /**
     * A missing or terminal task is skipped and a refused claim is reported; neither changes anything. Otherwise the worker
     * held the row when it began; it still holds it at the end of processing if its heartbeats kept up with everybody
     * else's clocks; and its finishing statements, of which each may throw before or after it took effect, end the row if
     * it holds it and change nothing if it does not.
     */
    method HandleJob(tasks: BackgroundTasks, u: Uuid, world: JobWorld, others: Others) returns (result: JobResult, ghost trace: JobTrace)
      requires IsWorker(leaseOwner) && forall moment, rows :: LegalRun(rows, others(moment, rows))
      modifies tasks
      ensures LegalRun(old(tasks.rows), trace.All()) && tasks.rows == Run(old(tasks.rows), trace.All())
      ensures result.Skipped? <==> u !in old(tasks.rows) || IsTerminal(old(tasks.rows)[u].status)
      ensures result.Skipped? ==> trace == NOTHING
      ensures result.ClaimThrew? ==> world.claiming.Threw? && result.message == world.claiming.message
      ensures result.ClaimThrew? ==>
                var rows := Run(old(tasks.rows), others(0, old(tasks.rows)));
                tasks.rows == if world.claiming.written then Step(rows, Claim(u, leaseOwner, world.claimAt)) else rows
      ensures result.LeaseNotClaimable? ==> tasks.rows == Run(old(tasks.rows), others(0, old(tasks.rows)))
      ensures result.Finished? || result.Failed? ==> Worked(old(tasks.rows), u, leaseOwner, world, others, trace, tasks.rows)
      ensures result.Finished? ==> world.Error().None?
      ensures result.Failed? ==> world.Error() == Some(result.message)
    {
      trace := NOTHING;
      if u !in tasks.rows || IsTerminal(tasks.rows[u].status) {
        return Skipped, trace;
      }
      var refused;
      ghost var before;
      refused, before := ClaimJob(tasks, u, world, others);
      trace := JobTrace(before, [], []);
      assert trace.All() == before;
      if refused.Some? {
        return refused.value, trace;
      }
      var error;
      ghost var during, after;
      error, during, after := Work(tasks, u, world, others);
      RunConcat(old(tasks.rows), before, during + after);
      Seqs.Assoc(before, during, after);
      trace := JobTrace(before, during, after);
      JobWorked(old(tasks.rows), u, world, others, trace, tasks.rows);
      result := if error.None? then Finished else JobResult.Failed(error.value);
    }
  }
}
