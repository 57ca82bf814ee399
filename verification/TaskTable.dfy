/**
 * The background task table (status-transitions.ts, outbox.ts).
 *
 * Each SQL statement is a function of one row, which answers when the row meets the WHERE clause, and a method that
 * updates the table in place.
 */
module TaskTable {
  import opened Options

  type Uuid = string

  datatype Status = PendingEnqueue | Queued | Running | Succeeded | Failed | Cancelled

  datatype TaskType =
    | AccountLifecycle | ScheduledBackup | ImmediateBackup | RestoreDelivery
    | EmergencyBackup | UnassociatedImageCleanup | ApprovalTimeoutScan | LogRetentionCleanup

  /** Instants are milliseconds. */
  datatype Task = Task(
    taskType: TaskType,
    status: Status,
    leaseOwner: Option<string>,
    leaseExpiresAt: Option<int>,
    timeoutAt: Option<int>,
    nextRetryAt: Option<int>,
    createdAt: int,
    startedAt: Option<int>,
    finishedAt: Option<int>,
    attempts: nat,
    progress: nat,
    lastError: Option<string>)

  type Rows = map<Uuid, Task>

  const TASK_RUNNING_LEASE := 600_000
  const TASK_ENQUEUE_LEASE := 120_000
  const TASK_ENQUEUE_BACKOFF_BASE := 30_000
  const TASK_ENQUEUE_BATCH_SIZE := 50
  const STALLED_QUEUED_REQUEUE := 600_000
  const MAX_ERROR_LENGTH := 2_000
  const TIMEOUT_ERROR := "任务执行超时（timeout_at）"

  const SAFELY_REPLAYABLE_TASK_TYPES: set<TaskType> := {
    AccountLifecycle, ScheduledBackup, ImmediateBackup, EmergencyBackup,
    UnassociatedImageCleanup, ApprovalTimeoutScan, RestoreDelivery, LogRetentionCleanup
  }

  predicate IsTerminal(status: Status) {
    status.Succeeded? || status.Failed? || status.Cancelled?
  }

  function Power2(n: nat): nat {
    if n == 0 then 1 else 2 * Power2(n - 1)
  }

  function EnqueueBackoff(attempts: nat): nat {
    TASK_ENQUEUE_BACKOFF_BASE * Power2(if attempts < 8 then attempts else 8)
  }

  function Clip(error: string): (r: string)
    ensures r <= error && |r| <= 2_000 && (|r| < 2_000 ==> r == error)
  {
    if |error| <= MAX_ERROR_LENGTH then error else error[..MAX_ERROR_LENGTH]
  }

  /** `at IS NULL OR at <= now` */
  predicate Lapsed(at: Option<int>, now: int) {
    at.None? || at.value <= now
  }

  // ---------------------------------------------------------------- the statements, row by row

  /** Each function gives the updated row when the statement's WHERE clause holds of it. */
  function MarkQueuedRow(t: Task, owner: string): Option<Task> {
    if (t.status.PendingEnqueue? || t.status.Queued? || t.status.Running?) && t.leaseOwner == Some(owner) then
      Some(t.(status := Queued, leaseOwner := None, leaseExpiresAt := None, nextRetryAt := None, lastError := None))
    else None
  }

  function ClaimRunningRow(t: Task, owner: string, now: int): Option<Task> {
    if t.status.Queued? || (t.status.Running? && (Lapsed(t.leaseExpiresAt, now) || t.leaseOwner == Some(owner))) then
      Some(t.(
        status := Running,
        leaseOwner := Some(owner),
        leaseExpiresAt := Some(now + TASK_RUNNING_LEASE),
        startedAt := if t.startedAt.Some? then t.startedAt else Some(now),
        attempts := if t.status.Queued? then t.attempts + 1 else t.attempts,
        timeoutAt := Some(now + 2 * TASK_RUNNING_LEASE)))
    else None
  }

  function RenewRow(t: Task, owner: string, now: int): Option<Task> {
    if t.status.Running? && t.leaseOwner == Some(owner) then
      Some(t.(leaseExpiresAt := Some(now + TASK_RUNNING_LEASE), timeoutAt := Some(now + 2 * TASK_RUNNING_LEASE)))
    else None
  }

  predicate TimesOut(t: Task, now: int) {
    t.status.Running? && t.timeoutAt.Some? && t.timeoutAt.value <= now
  }

  function TimeOutRow(t: Task, now: int): Task {
    if TimesOut(t, now) then
      t.(status := Failed, finishedAt := Some(now), lastError := Some(TIMEOUT_ERROR), leaseOwner := None, leaseExpiresAt := None)
    else t
  }

  function SucceedRow(t: Task, owner: string, now: int): Option<Task> {
    if t.status.Running? && t.leaseOwner == Some(owner) then
      Some(t.(status := Succeeded, finishedAt := Some(now), progress := 100, leaseOwner := None, leaseExpiresAt := None,
              lastError := None))
    else None
  }

  function FailRow(t: Task, owner: string, error: string, now: int): Option<Task> {
    if t.status.Running? && t.leaseOwner == Some(owner) then
      Some(t.(status := Failed, finishedAt := Some(now), leaseOwner := None, leaseExpiresAt := None, lastError := Some(Clip(error))))
    else None
  }

  function CancelRow(t: Task, owner: Option<string>, now: int): Option<Task> {
    if !IsTerminal(t.status) && (owner.None? || t.leaseOwner == owner) then
      Some(t.(status := Cancelled, finishedAt := Some(now), leaseOwner := None, leaseExpiresAt := None))
    else None
  }

  function ReleaseRow(t: Task, owner: string, attempts: nat, error: string, now: int): Option<Task> {
    if t.status.PendingEnqueue? && t.leaseOwner == Some(owner) then
      Some(t.(leaseOwner := None, leaseExpiresAt := None, attempts := t.attempts + 1,
              nextRetryAt := Some(now + EnqueueBackoff(attempts)), lastError := Some(Clip(error))))
    else None
  }

  /** The three-way eligibility of `claimOutboxBatch`. */
  predicate Eligible(t: Task, types: set<TaskType>, now: int) {
    || (t.status.PendingEnqueue? && Lapsed(t.nextRetryAt, now) && Lapsed(t.leaseExpiresAt, now))
    || ((t.status.Queued? || t.status.Running?) && t.leaseExpiresAt.Some? && t.leaseExpiresAt.value <= now && t.taskType in types)
    || (t.status.Queued? && t.leaseExpiresAt.None? && t.createdAt <= now - STALLED_QUEUED_REQUEUE && t.taskType in types)
  }

  function LeaseRow(t: Task, owner: string, now: int): Task {
    t.(leaseOwner := Some(owner), leaseExpiresAt := Some(now + TASK_ENQUEUE_LEASE))
  }

  function FreshTask(taskType: TaskType, now: int, createdAt: int): Task {
    Task(taskType, PendingEnqueue, None, None, None, Some(now), createdAt, None, None, 0, 0, None)
  }

  /**
   * What SELECT ... ORDER BY created_at LIMIT n FOR UPDATE SKIP LOCKED may pick: eligible unlocked rows, no unpicked
   * one older than a picked one, and fewer than the limit only when nothing eligible is left.
   */
  ghost predicate IsBatch(rows: Rows, types: set<TaskType>, now: int, limit: nat, locked: set<Uuid>, chosen: set<Uuid>) {
    && (forall u :: u in chosen ==> u in rows && u !in locked && Eligible(rows[u], types, now))
    && |chosen| <= limit
    && (forall u, v :: u in chosen && v in rows && v !in locked && v !in chosen && Eligible(rows[v], types, now) ==>
          rows[u].createdAt <= rows[v].createdAt)
    && (|chosen| < limit ==> forall v :: v in rows && v !in locked && Eligible(rows[v], types, now) ==> v in chosen)
  }

  /** What one statement on one row makes of the table. */
  function Write(rows: Rows, u: Uuid, updated: Option<Task>): Rows {
    if updated.Some? then rows[u := updated.value] else rows
  }

  function Find<T>(rows: Rows, u: Uuid, f: Task -> Option<T>): Option<T> {
    if u in rows then f(rows[u]) else None
  }

  /** A claimed row, with its status before and after the claim. */
  datatype OutboxClaimRow = OutboxClaimRow(taskUuid: Uuid, taskType: TaskType, status: Status)

  function Claimed(batch: seq<OutboxClaimRow>): set<Uuid> {
    set row | row in batch :: row.taskUuid
  }

  // ---------------------------------------------------------------- the table itself

  class BackgroundTasks {
    var rows: Rows

    constructor ()
      ensures rows == map[]
    {
      rows := map[];
    }

    method InsertPending(u: Uuid, taskType: TaskType, now: int, createdAt: int) returns (created: bool)
      modifies this
      ensures created <==> u !in old(rows)
      ensures rows == if !created then old(rows) else old(rows)[u := Task(
                taskType, PendingEnqueue, None, None, None, Some(now), createdAt, None, None, 0, 0, None)]
    {
      created := u !in rows;
      if created {
        rows := rows[u := FreshTask(taskType, now, createdAt)];
      }
    }

    /** `UPDATE ... WHERE task_uuid = u AND ...`: the row changes if the statement's condition holds of it. */
    method Update(u: Uuid, change: Task -> Option<Task>) returns (ok: bool)
      modifies this
      ensures ok <==> Find(old(rows), u, change).Some?
      ensures rows == Write(old(rows), u, Find(old(rows), u, change))
    {
      var updated := Find(rows, u, change);
      ok := updated.Some?;
      rows := Write(rows, u, updated);
    }

    method MarkQueued(u: Uuid, owner: string) returns (ok: bool)
      modifies this
      ensures ok <==> u in old(rows) && !IsTerminal(old(rows)[u].status) && old(rows)[u].leaseOwner == Some(owner)
      ensures rows == if !ok then old(rows) else old(rows)[u := old(rows)[u].(
                status := Queued, leaseOwner := None, leaseExpiresAt := None, nextRetryAt := None, lastError := None)]
    {
      ok := Update(u, t => MarkQueuedRow(t, owner));
    }

    method ClaimRunning(u: Uuid, owner: string, now: int) returns (ok: bool)
      modifies this
      ensures ok <==> u in old(rows) && var t := old(rows)[u];
                t.status.Queued? ||
                (t.status.Running? && (t.leaseExpiresAt.None? || t.leaseExpiresAt.value <= now || t.leaseOwner == Some(owner)))
      ensures rows == if !ok then old(rows) else var t := old(rows)[u]; old(rows)[u := t.(
                status := Running, leaseOwner := Some(owner), leaseExpiresAt := Some(now + 600_000),
                timeoutAt := Some(now + 1_200_000), startedAt := Some(t.startedAt.GetOr(now)),
                attempts := if t.status.Queued? then t.attempts + 1 else t.attempts)]
    {
      ok := Update(u, t => ClaimRunningRow(t, owner, now));
    }

    method RenewRunningLease(u: Uuid, owner: string, now: int) returns (ok: bool)
      modifies this
      ensures ok <==> u in old(rows) && old(rows)[u].status.Running? && old(rows)[u].leaseOwner == Some(owner)
      ensures rows == if !ok then old(rows) else old(rows)[u := old(rows)[u].(
                leaseExpiresAt := Some(now + 600_000), timeoutAt := Some(now + 1_200_000))]
    {
      ok := Update(u, t => RenewRow(t, owner, now));
    }

    /** The count is the number of rows that were RUNNING and no longer are. */
    method FailTimedOut(now: int) returns (count: nat)
      modifies this
      ensures rows.Keys == old(rows).Keys
      ensures rows == map u | u in old(rows) :: var t := old(rows)[u];
                if t.status.Running? && t.timeoutAt.Some? && t.timeoutAt.value <= now
                then t.(status := Failed, finishedAt := Some(now), lastError := Some(TIMEOUT_ERROR), leaseOwner := None, leaseExpiresAt := None)
                else t
      ensures count == |set u | u in rows && old(rows)[u].status.Running? && !rows[u].status.Running?|
    {
      var timedOut := set u | u in rows && TimesOut(rows[u], now);
      var before := rows;
      rows := map u | u in rows :: TimeOutRow(rows[u], now);
      count := |timedOut|;
      assert timedOut == set u | u in rows && before[u].status.Running? && !rows[u].status.Running?;
    }

    method MarkSucceeded(u: Uuid, owner: string, now: int) returns (ok: bool)
      modifies this
      ensures ok <==> u in old(rows) && old(rows)[u].status.Running? && old(rows)[u].leaseOwner == Some(owner)
      ensures rows == if !ok then old(rows) else old(rows)[u := old(rows)[u].(
                status := Status.Succeeded, finishedAt := Some(now), progress := 100, leaseOwner := None, leaseExpiresAt := None,
                lastError := None)]
    {
      ok := Update(u, t => SucceedRow(t, owner, now));
    }

    method MarkFailed(u: Uuid, owner: string, error: string, now: int) returns (ok: bool)
      modifies this
      ensures ok <==> u in old(rows) && old(rows)[u].status.Running? && old(rows)[u].leaseOwner == Some(owner)
      ensures rows == if !ok then old(rows) else old(rows)[u := old(rows)[u].(
                status := Status.Failed, finishedAt := Some(now), leaseOwner := None, leaseExpiresAt := None,
                lastError := Some(Clip(error)))]
    {
      ok := Update(u, t => FailRow(t, owner, error, now));
    }

    method MarkCancelled(u: Uuid, owner: Option<string>, now: int) returns (ok: bool)
      modifies this
      ensures ok <==> u in old(rows) && !IsTerminal(old(rows)[u].status) && (owner.None? || old(rows)[u].leaseOwner == owner)
      ensures rows == if !ok then old(rows) else old(rows)[u := old(rows)[u].(
                status := Status.Cancelled, finishedAt := Some(now), leaseOwner := None, leaseExpiresAt := None)]
    {
      ok := Update(u, t => CancelRow(t, owner, now));
    }

    method ReleaseEnqueueLease(u: Uuid, owner: string, attempts: nat, error: string, now: int) returns (ok: bool)
      modifies this
      ensures ok <==> u in old(rows) && old(rows)[u].status.PendingEnqueue? && old(rows)[u].leaseOwner == Some(owner)
      ensures rows == if !ok then old(rows) else old(rows)[u := old(rows)[u].(
                leaseOwner := None, leaseExpiresAt := None, attempts := old(rows)[u].attempts + 1,
                nextRetryAt := Some(now + EnqueueBackoff(attempts)), lastError := Some(Clip(error)))]
    {
      ok := Update(u, t => ReleaseRow(t, owner, attempts, error, now));
    }

    /** Picks the oldest eligible unlocked rows one by one, then leases them. */
    method ClaimOutboxBatch(owner: string, types: set<TaskType>, now: int, limit: nat, locked: set<Uuid>)
        returns (batch: seq<OutboxClaimRow>)
      modifies this
      ensures IsBatch(old(rows), types, now, limit, locked, Claimed(batch))
      ensures forall i, j :: 0 <= i < j < |batch| ==> batch[i].taskUuid != batch[j].taskUuid
      ensures forall row :: row in batch ==> row.taskUuid in old(rows) && row.status == old(rows)[row.taskUuid].status
      ensures rows == map u | u in old(rows) ::
                if u in Claimed(batch) then old(rows)[u].(leaseOwner := Some(owner), leaseExpiresAt := Some(now + 120_000)) else old(rows)[u]
    {
      var picked := PickBatch(types, now, limit, locked);
      var table := rows;
      batch := seq(|picked|, i requires 0 <= i < |picked| =>
        assert picked[i] in picked && picked[i] in table;
        OutboxClaimRow(picked[i], table[picked[i]].taskType, table[picked[i]].status));
      assert Claimed(batch) == set u | u in picked by {
        assert forall i :: 0 <= i < |picked| ==> batch[i] in batch && batch[i].taskUuid == picked[i];
      }
      rows := map u | u in rows :: if u in Claimed(batch) then LeaseRow(rows[u], owner, now) else rows[u];
    }

    method PickBatch(types: set<TaskType>, now: int, limit: nat, locked: set<Uuid>) returns (batch: seq<Uuid>)
      ensures IsBatch(rows, types, now, limit, locked, set u | u in batch)
      ensures forall i, j :: 0 <= i < j < |batch| ==> batch[i] != batch[j]
      ensures forall u :: u in batch ==> u in rows
    {
      batch := [];
      var candidates := set u | u in rows && u !in locked && Eligible(rows[u], types, now);
      ghost var eligible := candidates;
      while candidates != {} && |batch| < limit
        invariant |batch| <= limit
        invariant candidates == eligible - set u | u in batch
        invariant forall u :: u in batch ==> u in eligible
        invariant forall i, j :: 0 <= i < j < |batch| ==> batch[i] != batch[j]
        invariant forall u, v :: u in batch && v in candidates ==> rows[u].createdAt <= rows[v].createdAt
        decreases candidates
      {
        var oldest := Oldest(candidates);
        batch := batch + [oldest];
        candidates := candidates - {oldest};
      }
      DistinctSize(batch);
      ghost var chosen := set u | u in batch;
      assert |chosen| == |batch| && candidates == eligible - chosen;
      forall v | v in eligible && v !in chosen ensures v in candidates {
      }
    }

    method Oldest(candidates: set<Uuid>) returns (oldest: Uuid)
      requires candidates != {} && candidates <= rows.Keys
      ensures oldest in candidates && forall v :: v in candidates ==> rows[oldest].createdAt <= rows[v].createdAt
    {
      oldest :| oldest in candidates;
      var rest := candidates - {oldest};
      while rest != {}
        invariant oldest in candidates && rest <= candidates
        invariant forall v :: v in candidates && v !in rest ==> rows[oldest].createdAt <= rows[v].createdAt
        decreases rest
      {
        var v :| v in rest;
        rest := rest - {v};
        if rows[v].createdAt < rows[oldest].createdAt {
          oldest := v;
        }
      }
    }
  }

  lemma DistinctSize(s: seq<Uuid>)
    requires forall i, j :: 0 <= i < j < |s| ==> s[i] != s[j]
    ensures |set u | u in s| == |s|
  {
    if s != [] {
      var before := s[..|s| - 1];
      var last := s[|s| - 1];
      assert s == before + [last];
      DistinctSize(before);
      assert (set u | u in s) == (set u | u in before) + {last};
    }
  }
}
