/** Many schedulers and workers over the task table: each statement is one step, clocks are arguments, and a crash is a run that stops. */
module TaskProtocol {
  import opened Options
  import opened TaskTable

  datatype Event =
    | Insert(u: Uuid, taskType: TaskType, now: int, createdAt: int)
    | TimeOut(now: int)
    | ClaimBatch(owner: string, types: set<TaskType>, now: int, limit: nat, locked: set<Uuid>, chosen: set<Uuid>)
    | Enqueued(u: Uuid, owner: string)
    | Release(u: Uuid, owner: string, attempts: nat, error: string, now: int)
    | Claim(u: Uuid, owner: string, now: int)
    | Renew(u: Uuid, owner: string, now: int)
    | Succeed(u: Uuid, owner: string, now: int)
    | Fail(u: Uuid, owner: string, error: string, now: int)
    | Cancel(u: Uuid, canceller: Option<string>, now: int)

  /** worker-runtime.service.ts:46-47 */
  predicate IsScheduler(id: string) {
    "scheduler:" <= id
  }

  predicate IsWorker(id: string) {
    "worker:" <= id
  }

  lemma IdsAreDisjoint(id: string)
    ensures !(IsScheduler(id) && IsWorker(id))
  {
    if |id| > 0 && id[0] == 's' {
      assert "worker:"[0] == 'w';
    } else {
      assert "scheduler:"[0] == 's';
    }
  }

  /** Who may issue the statement, and for a batch claim which rows it can have picked. */
  ghost predicate Legal(rows: Rows, e: Event) {
    match e
    case Insert(_, _, _, _) => true
    case TimeOut(_) => true
    case ClaimBatch(owner, types, now, limit, locked, chosen) => IsScheduler(owner) && IsBatch(rows, types, now, limit, locked, chosen)
    case Enqueued(_, owner) => IsScheduler(owner)
    case Release(_, owner, _, _, _) => IsScheduler(owner)
    case Claim(_, owner, _) => IsWorker(owner)
    case Renew(_, owner, _) => IsWorker(owner)
    case Succeed(_, owner, _) => IsWorker(owner)
    case Fail(_, owner, _, _) => IsWorker(owner)
    case Cancel(_, _, _) => true
  }

  /** What an event makes of one row (rows are never deleted). */
  function Effect(t: Task, u: Uuid, e: Event): Task {
    match e
    case Insert(_, _, _, _) => t
    case TimeOut(now) => TimeOutRow(t, now)
    case ClaimBatch(owner, _, now, _, _, chosen) => if u in chosen then LeaseRow(t, owner, now) else t
    case Enqueued(v, owner) => if v == u then MarkQueuedRow(t, owner).GetOr(t) else t
    case Release(v, owner, attempts, error, now) => if v == u then ReleaseRow(t, owner, attempts, error, now).GetOr(t) else t
    case Claim(v, owner, now) => if v == u then ClaimRunningRow(t, owner, now).GetOr(t) else t
    case Renew(v, owner, now) => if v == u then RenewRow(t, owner, now).GetOr(t) else t
    case Succeed(v, owner, now) => if v == u then SucceedRow(t, owner, now).GetOr(t) else t
    case Fail(v, owner, error, now) => if v == u then FailRow(t, owner, error, now).GetOr(t) else t
    case Cancel(v, canceller, now) => if v == u then CancelRow(t, canceller, now).GetOr(t) else t
  }

  function Step(rows: Rows, e: Event): (r: Rows)
    ensures forall u :: u in rows ==> u in r && r[u] == Effect(rows[u], u, e)
  {
    var effected := map u | u in rows :: Effect(rows[u], u, e);
    if e.Insert? && e.u !in rows then effected[e.u := FreshTask(e.taskType, e.now, e.createdAt)] else effected
  }

  function Run(rows: Rows, events: seq<Event>): Rows
    decreases |events|
  {
    if events == [] then rows else Run(Step(rows, events[0]), events[1..])
  }

  ghost predicate LegalRun(rows: Rows, events: seq<Event>)
    decreases |events|
  {
    events == [] || (Legal(rows, events[0]) && LegalRun(Step(rows, events[0]), events[1..]))
  }

  lemma {:induction false} RunConcat(rows: Rows, a: seq<Event>, b: seq<Event>)
    ensures Run(rows, a + b) == Run(Run(rows, a), b)
    ensures LegalRun(rows, a + b) <==> LegalRun(rows, a) && LegalRun(Run(rows, a), b)
    decreases |a|
  {
    if a == [] {
      assert a + b == b;
    } else {
      assert (a + b)[1..] == a[1..] + b;
      RunConcat(Step(rows, a[0]), a[1..], b);
    }
  }

  // ---------------------------------------------------------------- the invariant of every reachable row

  ghost predicate RowOk(t: Task) {
    && (t.leaseOwner.Some? <==> t.leaseExpiresAt.Some?)
    && (t.status.Running? ==> t.leaseOwner.Some? && t.timeoutAt.Some?)
    && (t.leaseOwner.Some? ==> IsScheduler(t.leaseOwner.value) || (IsWorker(t.leaseOwner.value) && t.status.Running?))
    && (t.status.Running? && IsWorker(t.leaseOwner.value) ==> t.timeoutAt.value == t.leaseExpiresAt.value + TASK_RUNNING_LEASE)
    && (IsTerminal(t.status) ==> t.leaseOwner.None?)
  }

  ghost predicate TableOk(rows: Rows) {
    forall u :: u in rows ==> RowOk(rows[u])
  }

  lemma EffectKeepsRowOk(t: Task, u: Uuid, rows: Rows, e: Event)
    requires RowOk(t) && u in rows && rows[u] == t && Legal(rows, e)
    ensures RowOk(Effect(t, u, e))
  {
    if e.ClaimBatch? {
      IdsAreDisjoint(e.owner);
    }
  }

  lemma StepKeepsTableOk(rows: Rows, e: Event)
    requires TableOk(rows) && Legal(rows, e)
    ensures TableOk(Step(rows, e))
  {
    forall u | u in rows ensures RowOk(Effect(rows[u], u, e)) {
      EffectKeepsRowOk(rows[u], u, rows, e);
    }
  }

  /** In every reachable table: a RUNNING row has an owner, a lease and a timeout, and a worker's timeout is one lease after its lease. */
  lemma {:induction false} RunKeepsTableOk(rows: Rows, events: seq<Event>)
    requires TableOk(rows) && LegalRun(rows, events)
    ensures TableOk(Run(rows, events))
    decreases |events|
  {
    if events != [] {
      StepKeepsTableOk(rows, events[0]);
      RunKeepsTableOk(Step(rows, events[0]), events[1..]);
    }
  }

  // ---------------------------------------------------------------- lease exclusivity

  predicate HeldBy(t: Task, worker: string) {
    t.status.Running? && t.leaseOwner == Some(worker)
  }

  /** The statements the worker itself issues on the row. */
  predicate OwnStep(e: Event, u: Uuid, worker: string) {
    (e.Claim? || e.Renew? || e.Succeed? || e.Fail?) && e.u == u && e.owner == worker
  }

  predicate Clocked(e: Event) {
    e.TimeOut? || e.ClaimBatch? || e.Claim?
  }

  /** Nobody else's step changes a running row while the lease is unexpired on that step's clock, unless it cancels the row. */
  lemma LeaseIsExclusive(rows: Rows, e: Event, u: Uuid, worker: string)
    requires TableOk(rows) && Legal(rows, e) && IsWorker(worker)
    requires u in rows && HeldBy(rows[u], worker)
    requires !OwnStep(e, u, worker) && !(e.Cancel? && e.u == u)
    requires Clocked(e) ==> e.now < rows[u].leaseExpiresAt.value
    ensures Step(rows, e)[u] == rows[u]
  {
    IdsAreDisjoint(worker);
  }

  /**
   * The timestamps of a run keep up with a worker's heartbeats: `beat` is the last claim or renewal of the worker, its
   * own steps in the run are claims and renewals, and no clock anyone else acts on is a full lease past the last beat.
   */
  ghost predicate KeepsBeating(events: seq<Event>, u: Uuid, worker: string, beat: int)
    decreases |events|
  {
    events == [] ||
    var e := events[0];
    if OwnStep(e, u, worker) then (e.Claim? || e.Renew?) && KeepsBeating(events[1..], u, worker, e.now)
    else
      && !(e.Cancel? && e.u == u)
      && (Clocked(e) ==> e.now < beat + TASK_RUNNING_LEASE)
      && KeepsBeating(events[1..], u, worker, beat)
  }

  /** A worker that keeps renewing keeps its task through any run: it is never timed out, re-dispatched or taken over. */
  lemma {:induction false} BeatingWorkerKeepsItsTask(rows: Rows, events: seq<Event>, u: Uuid, worker: string, beat: int)
    requires TableOk(rows) && LegalRun(rows, events) && IsWorker(worker)
    requires u in rows && HeldBy(rows[u], worker) && rows[u].leaseExpiresAt == Some(beat + TASK_RUNNING_LEASE)
    requires KeepsBeating(events, u, worker, beat)
    ensures u in Run(rows, events) && HeldBy(Run(rows, events)[u], worker)
    ensures Run(rows, events)[u].attempts == rows[u].attempts
    decreases |events|
  {
    if events != [] {
      var e := events[0];
      StepKeepsTableOk(rows, e);
      if OwnStep(e, u, worker) {
        BeatingWorkerKeepsItsTask(Step(rows, e), events[1..], u, worker, e.now);
      } else {
        LeaseIsExclusive(rows, e, u, worker);
        BeatingWorkerKeepsItsTask(Step(rows, e), events[1..], u, worker, beat);
      }
    }
  }

  // ---------------------------------------------------------------- no task is stranded

  /** Some scheduler step would pick the row up or fail it at that instant. */
  predicate Rescuable(t: Task, types: set<TaskType>, now: int) {
    Eligible(t, types, now) || TimesOut(t, now)
  }

  /** From that instant on, for as long as nothing touches the row. */
  ghost predicate RescuedFrom(t: Task, types: set<TaskType>, from: int) {
    forall now :: now >= from ==> Rescuable(t, types, now)
  }

  function Later(a: int, b: int): int {
    if a < b then b else a
  }

  /** The instant from which an untouched row stays rescuable. */
  function RescueFrom(t: Task): int {
    if t.status.PendingEnqueue? then Later(t.nextRetryAt.GetOr(t.createdAt), t.leaseExpiresAt.GetOr(t.createdAt))
    else if t.status.Running? then t.timeoutAt.GetOr(t.createdAt)
    else t.leaseExpiresAt.GetOr(t.createdAt + STALLED_QUEUED_REQUEUE)
  }

  /**
   * In every reachable state a non-terminal row is, from a finite instant on, picked up or failed by the next scheduler
   * pass - exactly when it is not a queued row of a type the schedulers do not replay.
   */
  lemma NoTaskIsStranded(rows: Rows, events: seq<Event>, u: Uuid, types: set<TaskType>)
    requires TableOk(rows) && LegalRun(rows, events) && u in Run(rows, events)
    ensures var t := Run(rows, events)[u];
      (exists from :: RescuedFrom(t, types, from)) <==>
      !IsTerminal(t.status) && (t.status.Queued? ==> t.taskType in types)
  {
    RunKeepsTableOk(rows, events);
    var t := Run(rows, events)[u];
    if !IsTerminal(t.status) && (t.status.Queued? ==> t.taskType in types) {
      assert RescuedFrom(t, types, RescueFrom(t));
    } else {
      forall from ensures !RescuedFrom(t, types, from) {
        assert !Rescuable(t, types, from);
      }
    }
  }

  /** With the types the scheduler passes, that is every non-terminal row. */
  lemma AllTypesAreReplayed(rows: Rows, events: seq<Event>, u: Uuid)
    requires TableOk(rows) && LegalRun(rows, events) && u in Run(rows, events)
    ensures var t := Run(rows, events)[u];
      (exists from :: RescuedFrom(t, SAFELY_REPLAYABLE_TASK_TYPES, from)) <==> !IsTerminal(t.status)
  {
    NoTaskIsStranded(rows, events, u, SAFELY_REPLAYABLE_TASK_TYPES);
    var t := Run(rows, events)[u];
    match t.taskType {
      case AccountLifecycle => case ScheduledBackup => case ImmediateBackup => case RestoreDelivery =>
      case EmergencyBackup => case UnassociatedImageCleanup => case ApprovalTimeoutScan => case LogRetentionCleanup =>
    }
  }

  // ---------------------------------------------------------------- fencing

  ghost predicate NeverReclaims(events: seq<Event>, u: Uuid, worker: string) {
    forall i :: 0 <= i < |events| ==> !(events[i].Claim? && events[i].u == u && events[i].owner == worker)
  }

  /** Renewals and finishes of `worker` on `u` that changed the row. */
  ghost function StaleWrites(rows: Rows, events: seq<Event>, u: Uuid, worker: string): nat
    decreases |events|
  {
    if events == [] then 0
    else
      var next := Step(rows, events[0]);
      (if OwnStep(events[0], u, worker) && u in rows && next[u] != rows[u] then 1 else 0)
      + StaleWrites(next, events[1..], u, worker)
  }

  /** Once a worker has lost a row, none of its renewals or finishes has any effect until it claims the row anew. */
  lemma {:induction false} LostWorkerIsFenced(rows: Rows, events: seq<Event>, u: Uuid, worker: string)
    requires LegalRun(rows, events) && IsWorker(worker) && u in rows && rows[u].leaseOwner != Some(worker)
    requires NeverReclaims(events, u, worker)
    ensures StaleWrites(rows, events, u, worker) == 0
    ensures u in Run(rows, events) && Run(rows, events)[u].leaseOwner != Some(worker)
    decreases |events|
  {
    IdsAreDisjoint(worker);
    if events != [] {
      assert !(events[0].Claim? && events[0].u == u && events[0].owner == worker);
      assert forall i :: 0 <= i < |events[1..]| ==> events[1..][i] == events[i + 1];
      LostWorkerIsFenced(Step(rows, events[0]), events[1..], u, worker);
    }
  }

  // ---------------------------------------------------------------- finality

  /** Steps of the run that take the row into a terminal state. */
  ghost function Finishes(rows: Rows, events: seq<Event>, u: Uuid): nat
    decreases |events|
  {
    if events == [] then 0
    else
      var next := Step(rows, events[0]);
      (if u in rows && !IsTerminal(rows[u].status) && IsTerminal(next[u].status) then 1 else 0)
      + Finishes(next, events[1..], u)
  }

  /** A finished task never changes again. */
  lemma {:induction false} TerminalIsFinal(rows: Rows, events: seq<Event>, u: Uuid)
    requires TableOk(rows) && LegalRun(rows, events) && u in rows && IsTerminal(rows[u].status)
    ensures u in Run(rows, events) && Run(rows, events)[u] == rows[u] && Finishes(rows, events, u) == 0
    decreases |events|
  {
    if events != [] {
      StepKeepsTableOk(rows, events[0]);
      TerminalIsFinal(Step(rows, events[0]), events[1..], u);
    }
  }

  /** Over any run a task finishes at most once, and exactly once when it ends up terminal. */
  lemma {:induction false} FinishesOnce(rows: Rows, events: seq<Event>, u: Uuid)
    requires TableOk(rows) && LegalRun(rows, events) && (u in rows ==> !IsTerminal(rows[u].status))
    ensures Finishes(rows, events, u) ==
            if u in Run(rows, events) && IsTerminal(Run(rows, events)[u].status) then 1 else 0
    decreases |events|
  {
    if events != [] {
      var next := Step(rows, events[0]);
      StepKeepsTableOk(rows, events[0]);
      if u in next && IsTerminal(next[u].status) {
        TerminalIsFinal(next, events[1..], u);
      } else {
        FinishesOnce(next, events[1..], u);
      }
    }
  }

  // ---------------------------------------------------------------- dispatch exclusivity

  /** No single-row write on `u`, and no batch claim whose clock has reached `limit`. */
  predicate Aside(e: Event, u: Uuid, limit: int) {
    match e
    case Insert(_, _, _, _) => true
    case TimeOut(_) => true
    case ClaimBatch(_, _, now, _, _, _) => now < limit
    case Enqueued(v, _) => v != u
    case Release(v, _, _, _, _) => v != u
    case Claim(v, _, _) => v != u
    case Renew(v, _, _) => v != u
    case Succeed(v, _, _) => v != u
    case Fail(v, _, _, _) => v != u
    case Cancel(v, _, _) => v != u
  }

  /** Leased until `limit`, or failed by a time-out since. */
  ghost predicate Waiting(rows: Rows, u: Uuid, limit: int) {
    u in rows && (rows[u].leaseExpiresAt == Some(limit) || rows[u].status.Failed?)
  }

  lemma AsideKeepsWaiting(rows: Rows, e: Event, u: Uuid, limit: int)
    requires TableOk(rows) && Legal(rows, e) && Aside(e, u, limit) && Waiting(rows, u, limit)
    ensures Waiting(Step(rows, e), u, limit) && (e.ClaimBatch? ==> u !in e.chosen)
    ensures Step(rows, e)[u] == rows[u] || (rows[u].status.Running? && Step(rows, e)[u].status.Failed?)
  {
    assert RowOk(rows[u]);
  }

  /**
   * Until a leased row's lease ends no batch takes it, whatever time-outs and batches run in between: it stays as it is,
   * or a time-out has failed it and no batch ever takes it again.
   */
  lemma {:induction false} LeasedRowWaits(rows: Rows, events: seq<Event>, u: Uuid, limit: int)
    requires TableOk(rows) && LegalRun(rows, events) && Waiting(rows, u, limit)
    requires forall i :: 0 <= i < |events| ==> Aside(events[i], u, limit)
    ensures Waiting(Run(rows, events), u, limit)
    ensures Run(rows, events)[u] == rows[u] || (rows[u].status.Running? && Run(rows, events)[u].status.Failed?)
    ensures forall i :: 0 <= i < |events| && events[i].ClaimBatch? ==> u !in events[i].chosen
    decreases |events|
  {
    if events != [] {
      var e := events[0];
      assert Aside(e, u, limit);
      assert forall i :: 0 <= i < |events[1..]| ==> events[1..][i] == events[i + 1];
      StepKeepsTableOk(rows, e);
      AsideKeepsWaiting(rows, e, u, limit);
      LeasedRowWaits(Step(rows, e), events[1..], u, limit);
      forall i | 0 <= i < |events| && events[i].ClaimBatch? ensures u !in events[i].chosen {
        if i > 0 {
          assert events[i] == events[1..][i - 1];
        }
      }
    }
  }

  lemma BatchLeases(rows: Rows, first: Event, u: Uuid)
    requires first.ClaimBatch? && Legal(rows, first) && u in first.chosen
    ensures u in rows && u in Step(rows, first) && Step(rows, first)[u].leaseExpiresAt == Some(first.now + TASK_ENQUEUE_LEASE)
  {
  }

  /**
   * Batches of successive ticks are disjoint: a claimed row is in no other batch for one enqueue lease, whatever rows the
   * ticks in between insert, time out and claim, as long as no statement on the row itself intervenes.
   */
  lemma BatchesAreDisjoint(rows: Rows, first: Event, events: seq<Event>, u: Uuid)
    requires TableOk(rows) && first.ClaimBatch? && Legal(rows, first) && u in first.chosen
    requires LegalRun(Step(rows, first), events)
    requires forall i :: 0 <= i < |events| ==> Aside(events[i], u, first.now + TASK_ENQUEUE_LEASE)
    ensures forall i :: 0 <= i < |events| && events[i].ClaimBatch? ==> u !in events[i].chosen
  {
    BatchLeases(rows, first, u);
    StepKeepsTableOk(rows, first);
    LeasedRowWaits(Step(rows, first), events, u, first.now + TASK_ENQUEUE_LEASE);
  }

  lemma OnlyRowIsBatch(rows: Rows, types: set<TaskType>, now: int, limit: nat, u: Uuid)
    requires rows.Keys == {u} && limit >= 1
    ensures IsBatch(rows, types, now, limit, {}, {u}) <==> Eligible(rows[u], types, now)
  {
    assert |{u}| == 1 && u in rows;
    assert forall v :: v in rows ==> v == u;
    if IsBatch(rows, types, now, limit, {}, {u}) {
      assert u in {u};
    }
  }

  /** A task inserted at `created`, claimed at `now` by the scheduler `first` and put in the queue. */
  function QueuedOnce(u: Uuid, taskType: TaskType, created: int, first: string, types: set<TaskType>, now: int, limit: nat): seq<Event> {
    [Insert(u, taskType, created, created), ClaimBatch(first, types, now, limit, {}, {u}), Enqueued(u, first)]
  }

  /** A row is taken by a batch that could take only it exactly under the conditions of the query. */
  lemma BatchTakesExactly(rows: Rows, scheduler: string, types: set<TaskType>, now: int, limit: nat, u: Uuid)
    requires IsScheduler(scheduler) && limit >= 1 && u in rows
    ensures var t := rows[u];
      Legal(rows, ClaimBatch(scheduler, types, now, limit, rows.Keys - {u}, {u})) <==>
      match t.status
      case PendingEnqueue =>
        (t.nextRetryAt.None? || t.nextRetryAt.value <= now) && (t.leaseExpiresAt.None? || t.leaseExpiresAt.value <= now)
      case Queued =>
        t.taskType in types &&
        (match t.leaseExpiresAt case Some(end) => end <= now case None => t.createdAt <= now - 600_000)
      case Running => t.taskType in types && t.leaseExpiresAt.Some? && t.leaseExpiresAt.value <= now
      case _ => false
  {
    assert u in {u} && |{u}| == 1;
  }

  /** The statements by which a task goes from one worker to another. */
  function HandOver(u: Uuid, scheduler: string, types: set<TaskType>, now: int, limit: nat, locked: set<Uuid>, worker: string, later: int): seq<Event> {
    [ClaimBatch(scheduler, types, now, limit, locked, {u}), Enqueued(u, scheduler), Claim(u, worker, later)]
  }

  /**
   * A task whose worker has died goes to another worker as soon as its lease has ended: exactly then the statements by
   * which it is dispatched again are legal, and they leave it in the hands of the new worker, with one attempt more.
   */
  lemma DeadWorkersTaskIsHandedOver(rows: Rows, u: Uuid, old_worker: string, scheduler: string, types: set<TaskType>, now: int, limit: nat,
                                    worker: string, later: int)
    requires u in rows && HeldBy(rows[u], old_worker) && IsScheduler(scheduler) && IsWorker(worker) && limit >= 1 && now <= later
    ensures var events := HandOver(u, scheduler, types, now, limit, rows.Keys - {u}, worker, later);
      && (LegalRun(rows, events) <==>
            rows[u].taskType in types && rows[u].leaseExpiresAt.Some? && rows[u].leaseExpiresAt.value <= now)
      && (LegalRun(rows, events) ==>
            var r := Run(rows, events);
            && u in r && HeldBy(r[u], worker) && r[u].attempts == rows[u].attempts + 1 && r[u].leaseExpiresAt == Some(later + 600_000)
            && forall v :: v in rows && v != u ==> v in r && r[v] == rows[v])
  {
    var events := HandOver(u, scheduler, types, now, limit, rows.Keys - {u}, worker, later);
    BatchTakesExactly(rows, scheduler, types, now, limit, u);
    assert events[1..] == [events[1], events[2]] && events[1..][1..] == [events[2]] && [events[2]][1..] == [];
    if Legal(rows, events[0]) {
      var leased := Step(rows, events[0]);
      var sent := Step(leased, events[1]);
      assert LegalRun(Step(sent, events[2]), []) && Run(Step(sent, events[2]), []) == Step(sent, events[2]);
      assert LegalRun(sent, [events[2]]) && Run(sent, [events[2]]) == Run(Step(sent, events[2]), [events[2]][1..]);
      assert LegalRun(leased, events[1..]) && Run(leased, events[1..]) == Step(sent, events[2]);
    }
  }

  /** The wait before a delivery is tried again: half a minute, doubled with each attempt, eight times at most. */
  lemma {:induction false} BackoffMeaning(attempts: nat)
    ensures EnqueueBackoff(0) == 30_000
    ensures attempts < 8 ==> EnqueueBackoff(attempts + 1) == 2 * EnqueueBackoff(attempts)
    ensures attempts >= 8 ==> EnqueueBackoff(attempts) == EnqueueBackoff(8)
  {
  }

  /**
   * The stalled-queue rule measures from creation, not from queueing: from the empty table a row is claimed, queued and
   * claimed again - at the same instant, if that is ten minutes after its creation. So a statement on the row must be
   * excluded where batches are said to be disjoint.
   */
  lemma QueuedRowIsClaimedAgain(u: Uuid, taskType: TaskType, created: int, first: string, second: string, types: set<TaskType>,
                                now: int, later: int, limit: nat)
    requires IsScheduler(first) && IsScheduler(second) && limit >= 1 && created <= now
    ensures var queued := QueuedOnce(u, taskType, created, first, types, now, limit);
      && LegalRun(map[], queued)
      && (LegalRun(map[], queued + [ClaimBatch(second, types, later, limit, {}, {u})]) <==>
            taskType in types && created <= later - STALLED_QUEUED_REQUEUE)
  {
    var queued := QueuedOnce(u, taskType, created, first, types, now, limit);
    var again := ClaimBatch(second, types, later, limit, {}, {u});
    var inserted := Step(map[], queued[0]);
    assert inserted == map[u := FreshTask(taskType, created, created)];
    OnlyRowIsBatch(inserted, types, now, limit, u);
    var leased := Step(inserted, queued[1]);
    var sent := Step(leased, queued[2]);
    assert sent.Keys == {u} && sent[u] == FreshTask(taskType, created, created).(status := Queued, nextRetryAt := None);
    assert queued[1..] == [queued[1], queued[2]] && queued[1..][1..] == [queued[2]] && [queued[2]][1..] == [];
    assert LegalRun(leased, [queued[2]]) && Run(leased, [queued[2]]) == sent;
    assert LegalRun(inserted, queued[1..]) && Run(inserted, queued[1..]) == sent;
    assert Run(map[], queued) == sent;
    RunConcat(map[], queued, [again]);
    assert [again][1..] == [];
    OnlyRowIsBatch(sent, types, later, limit, u);
  }
}
