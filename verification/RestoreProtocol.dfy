/** The restore pipeline as a state machine (recovery-executor.service.ts:212-246, 298-363, 367-371, 473-475, 967-1020). */
module RestoreProtocol {
  import opened Options

  // A manifest and a maintenance marker on disk, a copy of the manifest in memory, a stage loop, and crashes, failed
  // writes, shutdowns, retries and deliveries between any two steps.

  datatype Stage =
    | PRECHECK | MAINTENANCE | RESTORING | MIGRATE_FORWARD | CANCEL_TASKS | REINSTATE_BACKUPS | CLEAR_REDIS | READINESS | DONE

  const STAGES: seq<Stage> :=
    [PRECHECK, MAINTENANCE, RESTORING, MIGRATE_FORWARD, CANCEL_TASKS, REINSTATE_BACKUPS, CLEAR_REDIS, READINESS, DONE]

  /** The position of a stage in `STAGES` (`findIndex`). */
  function Index(stage: Stage): (i: nat)
    ensures i < |STAGES| && STAGES[i] == stage
  {
    match stage
    case PRECHECK => 0
    case MAINTENANCE => 1
    case RESTORING => 2
    case MIGRATE_FORWARD => 3
    case CANCEL_TASKS => 4
    case REINSTATE_BACKUPS => 5
    case CLEAR_REDIS => 6
    case READINESS => 7
    case DONE => 8
  }

  lemma IndexOfStage(i: nat)
    requires i < |STAGES|
    ensures Index(STAGES[i]) == i
  {
    if i == 0 {
    } else if i == 1 {
    } else if i == 2 {
    } else if i == 3 {
    } else if i == 4 {
    } else if i == 5 {
    } else if i == 6 {
    } else if i == 7 {
    }
  }

  /** `incarnation` numbers the accepted deliveries; the program does not store it and no branch looks at it. */
  datatype Manifest = Manifest(restoreUuid: string, backupId: nat, stage: Stage, error: bool, incarnation: nat)

  /** Where the one pipeline of the process stands. */
  datatype Pc =
    | Idle
    | AtStage(i: nat)                  // about to look at the shutdown flag and to record stage i
    | Executing(i: nat, marked: bool)  // stage i is recorded; in MAINTENANCE, whether it has set the marker
    | Finishing                        // the loop is over; DONE is about to be written once more
    | Unmarking                        // about to remove the marker
    | Syncing                          // mirroring the outcome in the database, still in flight
    | Failing                          // the error is noted in memory and about to be written

  /** What happened, oldest first. */
  datatype Note = Began(incarnation: nat, stage: Stage, marker: bool) | Completed(incarnation: nat, stage: Stage)

  datatype State = State(
    disk: Option<Manifest>, marker: bool, archived: map<string, Manifest>,
    memory: Option<Manifest>, pc: Pc, shuttingDown: bool,
    trace: seq<Note>, incarnations: nat)

  const INITIAL := State(None, false, map[], None, Idle, false, [], 0)

  /**
   * `Deliver`: `writes` counts how many of the writes (archive the old manifest, write the new one, set the marker) took
   * place before one failed or, with `crash`, before the process died; 3 is a complete acceptance.
   */
  datatype Event =
    | Deliver(restoreUuid: string, backupId: nat, writes: nat, crash: bool)
    | Retry
    | Record(written: bool)
    | MarkMaintenance
    | StageEnds(succeeded: bool)
    | WriteDone(written: bool)
    | RemoveMarker(removed: bool)
    | WriteError(written: bool)
    | SyncEnds
    | BeginShutdown
    | Crash

  predicate IsDone(m: Option<Manifest>) {
    m.Some? && m.value.stage == DONE
  }

  /** Neither a redelivery nor one refused because another restore is under way. */
  predicate Accepts(s: State, uuid: string) {
    s.disk.None? || (s.disk.value.restoreUuid != uuid && s.disk.value.stage == DONE)
  }

  predicate Enabled(s: State, e: Event) {
    match e
    case Deliver(_, _, writes, crash) => writes <= 3
    case Retry => true
    case Record(_) => s.pc.AtStage? && s.pc.i < |STAGES| && s.memory.Some?
    case MarkMaintenance => s.pc == Executing(1, false)
    case StageEnds(succeeded) =>
      && s.pc.Executing? && s.pc.i < |STAGES| && s.memory.Some?
      && (s.pc.i == 1 && succeeded ==> s.pc.marked) && (s.pc.i == 8 ==> succeeded)
    case WriteDone(_) => s.pc.Finishing? && s.memory.Some?
    case RemoveMarker(_) => s.pc.Unmarking? && s.memory.Some?
    case WriteError(_) => s.pc.Failing? && s.memory.Some?
    case SyncEnds => s.pc.Syncing?
    case BeginShutdown => true
    case Crash => true
  }

  /** The process dies: memory goes, the disk stays. */
  function Crashed(s: State): State {
    s.(memory := None, pc := Idle, shuttingDown := false)
  }

  /** `runPipeline`: nothing happens when there is no manifest or a pipeline is in flight. */
  function StartPipeline(s: State): State {
    if s.memory.None? || !s.pc.Idle? then s else s.(pc := AtStage(Index(s.memory.value.stage)))
  }

  /**
   * The writes of an acceptance that took place; an archive step that failed ends the call before memory is touched. The
   * archive has one file for each uuid.
   */
  function Accepted(s: State, uuid: string, backupId: nat, writes: nat): State {
    if s.disk.Some? && writes == 0 then s
    else
      var m := Manifest(uuid, backupId, PRECHECK, false, s.incarnations);
      s.(disk := if writes >= 2 then Some(m) else None,
         archived := if s.disk.Some? then s.archived[s.disk.value.restoreUuid := s.disk.value] else s.archived,
         memory := Some(m), incarnations := s.incarnations + 1, marker := s.marker || writes >= 3)
  }

  function Accept(s: State, uuid: string, backupId: nat, writes: nat, crash: bool): State {
    var accepted := Accepted(s, uuid, backupId, writes);
    if crash then Crashed(accepted)
    else if writes == 3 then StartPipeline(accepted)
    else accepted
  }

  /** The error is noted in memory on the way to the write in the `catch` block. */
  function Fail(s: State): State {
    match s.memory
    case None => s.(pc := Idle)
    case Some(m) => s.(memory := Some(m.(error := true)), pc := Failing)
  }

  function Next(s: State, e: Event): State
    requires Enabled(s, e)
  {
    match e
    case Deliver(uuid, backupId, writes, crash) =>
      if Accepts(s, uuid) then Accept(s, uuid, backupId, writes, crash) else if crash then Crashed(s) else s
    case Retry => StartPipeline(if s.memory.None? then s.(memory := s.disk) else s)
    case Record(written) =>
      if s.shuttingDown then s.(pc := Idle)
      else
        var i, m := s.pc.i, s.memory.value.(stage := STAGES[s.pc.i], error := false);
        if written then
          s.(memory := Some(m), disk := Some(m), pc := Executing(i, false), trace := s.trace + [Began(m.incarnation, STAGES[i], s.marker)])
        else Fail(s.(memory := Some(m)))
    case MarkMaintenance => s.(marker := true, pc := Executing(1, true))
    case StageEnds(succeeded) =>
      if !succeeded then Fail(s)
      else
        s.(pc := if s.pc.i == 8 then Finishing else AtStage(s.pc.i + 1),
           trace := s.trace + [Completed(s.memory.value.incarnation, STAGES[s.pc.i])])
    case WriteDone(written) =>
      var m := s.memory.value.(stage := DONE);
      if written then s.(memory := Some(m), disk := Some(m), pc := Unmarking) else Fail(s.(memory := Some(m)))
    case RemoveMarker(removed) => if removed then s.(marker := false, pc := Syncing) else Fail(s)
    case WriteError(written) => if written then s.(disk := s.memory, pc := Syncing) else s.(pc := Idle)
    case SyncEnds => s.(pc := Idle)
    case BeginShutdown => s.(shuttingDown := true)
    case Crash => Crashed(s)
  }

  predicate Legal(s: State, events: seq<Event>)
    decreases |events|
  {
    events == [] || (Enabled(s, events[0]) && Legal(Next(s, events[0]), events[1..]))
  }

  function Run(s: State, events: seq<Event>): State
    requires Legal(s, events)
    decreases |events|
  {
    if events == [] then s else Run(Next(s, events[0]), events[1..])
  }

  /** The pipeline is past the point where it could notice that its manifest has been replaced, and will still record DONE. */
  predicate WillRecordDone(s: State) {
    (s.pc.AtStage? && s.pc.i == 8 && !s.shuttingDown) || (s.pc.Executing? && s.pc.i == 8) || s.pc.Finishing?
  }

  /** A delivery replaces the manifest of a pipeline that will still record DONE in it. */
  predicate Overtakes(s: State, e: Event) {
    && e.Deliver? && !e.crash && WillRecordDone(s) && Accepts(s, e.restoreUuid) && (s.disk.Some? ==> e.writes >= 1)
  }

  /** Runs in which no delivery overtakes a finishing pipeline. */
  predicate Orderly(s: State, events: seq<Event>)
    decreases |events|
  {
    events == [] || (Enabled(s, events[0]) && !Overtakes(s, events[0]) && Orderly(Next(s, events[0]), events[1..]))
  }

  lemma {:induction false} OrderlyIsLegal(s: State, events: seq<Event>)
    requires Orderly(s, events)
    ensures Legal(s, events)
    decreases |events|
  {
    if events != [] {
      OrderlyIsLegal(Next(s, events[0]), events[1..]);
    }
  }

  lemma {:induction false} NoDeliveryIsOrderly(s: State, events: seq<Event>)
    requires Legal(s, events) && forall e :: e in events ==> !e.Deliver?
    ensures Orderly(s, events)
    decreases |events|
  {
    if events != [] {
      assert events[0] in events;
      NoDeliveryIsOrderly(Next(s, events[0]), events[1..]);
    }
  }

  // ---------------------------------------------------------------- what every orderly run keeps

  /** Every stage before index `k` has completed for the incarnation. */
  ghost predicate DoneBefore(trace: seq<Note>, incarnation: nat, k: nat) {
    forall j :: 0 <= j < k && j < |STAGES| ==> Completed(incarnation, STAGES[j]) in trace
  }

  ghost predicate Justified(trace: seq<Note>, m: Option<Manifest>) {
    m.Some? ==> DoneBefore(trace, m.value.incarnation, Index(m.value.stage))
  }

  /** A stage in which the database is being replaced. */
  predicate Destructive(stage: Stage) {
    2 <= Index(stage) <= 7
  }

  predicate Guarded(marker: bool, m: Option<Manifest>) {
    m.Some? && Destructive(m.value.stage) ==> marker
  }

  predicate AtEnd(m: Option<Manifest>) {
    m.Some? ==> Index(m.value.stage) == 0 || m.value.stage == DONE
  }

  ghost predicate PcOk(s: State) {
    && (!s.pc.Idle? ==> s.memory.Some?)
    && match s.pc
       case Idle => true
       case AtStage(i) =>
         && i < |STAGES|
         && (!s.shuttingDown ==>
               && i - 1 <= Index(s.memory.value.stage) <= i && DoneBefore(s.trace, s.memory.value.incarnation, i)
               && (2 <= i <= 7 ==> s.marker) && (i == 0 || s.disk.Some?))
       case Executing(i, marked) =>
         && i < |STAGES| && s.disk.Some? && s.memory.value.stage == STAGES[i] && s.disk.value.stage == STAGES[i]
         && (i == 1 && marked ==> s.marker)
       case Finishing => s.disk.Some? && s.memory.value.stage == DONE && s.disk.value.stage == DONE
       case Unmarking => AtEnd(s.memory) && AtEnd(s.disk)
       case Syncing => true
       case Failing => true
  }

  predicate InStep(disk: Option<Manifest>, memory: Option<Manifest>) {
    && (disk.Some? && memory.Some? ==>
          && disk.value.incarnation == memory.value.incarnation && disk.value.restoreUuid == memory.value.restoreUuid
          && disk.value.backupId == memory.value.backupId && Index(disk.value.stage) <= Index(memory.value.stage))
    && (disk.None? && memory.Some? ==> memory.value.stage == PRECHECK)
  }

  /** Notes belong to numbered incarnations; the newest incarnation has begun nothing beyond what the disk records. */
  ghost predicate TraceOk(s: State) {
    && (forall n :: n in s.trace ==> n.incarnation < s.incarnations)
    && (s.disk.Some? ==> s.disk.value.incarnation < s.incarnations)
    && (s.memory.Some? ==> s.memory.value.incarnation < s.incarnations)
    && (s.disk.Some? ==> forall n :: n in s.trace && n.Began? && n.incarnation == s.disk.value.incarnation ==>
                           Index(n.stage) <= Index(s.disk.value.stage))
    && (s.disk.None? && s.memory.Some? ==> forall n :: n in s.trace ==> n.incarnation != s.memory.value.incarnation)
    && (forall n :: n in s.trace && n.Began? && Destructive(n.stage) ==> n.marker)
  }

  ghost predicate BeganInOrder(trace: seq<Note>) {
    forall p, q :: 0 <= p < q < |trace| && trace[p].Began? && trace[q].Began? && trace[p].incarnation == trace[q].incarnation ==>
      Index(trace[p].stage) <= Index(trace[q].stage)
  }

  /** What is archived was done, and is neither what is on disk nor what is in memory. */
  ghost predicate ArchiveOk(s: State) {
    && (forall u :: u in s.archived ==>
          && s.archived[u].restoreUuid == u && s.archived[u].stage == DONE
          && s.archived[u].incarnation < s.incarnations && DoneBefore(s.trace, s.archived[u].incarnation, 8)
          && (s.disk.Some? ==> s.disk.value.incarnation != s.archived[u].incarnation)
          && (s.memory.Some? ==> s.memory.value.incarnation != s.archived[u].incarnation))
    && (forall u, v :: u in s.archived && v in s.archived && s.archived[u].incarnation == s.archived[v].incarnation ==> u == v)
  }

  ghost predicate DataOk(s: State) {
    && Justified(s.trace, s.disk) && Justified(s.trace, s.memory)
    && Guarded(s.marker, s.disk) && Guarded(s.marker, s.memory)
    && InStep(s.disk, s.memory) && TraceOk(s) && BeganInOrder(s.trace) && ArchiveOk(s)
  }

  ghost predicate Inv(s: State) {
    DataOk(s) && PcOk(s)
  }

  lemma LongerTrace(trace: seq<Note>, note: Note, incarnation: nat, k: nat)
    requires DoneBefore(trace, incarnation, k)
    ensures DoneBefore(trace + [note], incarnation, k)
  {
  }

  lemma LongerTraces(s: State, note: Note)
    requires Inv(s)
    ensures Justified(s.trace + [note], s.disk) && Justified(s.trace + [note], s.memory)
    ensures forall u :: u in s.archived ==> DoneBefore(s.trace + [note], s.archived[u].incarnation, 8)
    ensures note.Completed? ==> BeganInOrder(s.trace + [note])
    ensures note.Began? && s.disk.Some? && note.incarnation == s.disk.value.incarnation && Index(s.disk.value.stage) <= Index(note.stage)
            ==> BeganInOrder(s.trace + [note])
  {
    if s.disk.Some? {
      LongerTrace(s.trace, note, s.disk.value.incarnation, Index(s.disk.value.stage));
    }
    if s.memory.Some? {
      LongerTrace(s.trace, note, s.memory.value.incarnation, Index(s.memory.value.stage));
    }
  }

  lemma RecordKeeps(s: State, written: bool)
    requires Inv(s) && Enabled(s, Record(written))
    ensures Inv(Next(s, Record(written)))
  {
    if !s.shuttingDown {
      IndexOfStage(s.pc.i);
      if written {
        RecordedKeeps(s);
      }
    }
  }

  lemma RecordedKeeps(s: State)
    requires Inv(s) && Enabled(s, Record(true)) && !s.shuttingDown
    ensures Inv(Next(s, Record(true)))
  {
    var i := s.pc.i;
    IndexOfStage(i);
    var note := Began(s.memory.value.incarnation, STAGES[i], s.marker);
    LongerTraces(s, note);
    LongerTrace(s.trace, note, s.memory.value.incarnation, i);
    assert BeganInOrder(s.trace + [note]);
  }

  lemma StageEndsKeeps(s: State, succeeded: bool)
    requires Inv(s) && Enabled(s, StageEnds(succeeded))
    ensures Inv(Next(s, StageEnds(succeeded)))
  {
    if succeeded {
      var i := s.pc.i;
      var n := s.memory.value.incarnation;
      IndexOfStage(i);
      var note := Completed(n, STAGES[i]);
      LongerTraces(s, note);
      LongerTrace(s.trace, note, n, i);
      assert DoneBefore(s.trace + [note], n, i + 1);
    }
  }

  lemma AcceptedKeepsArchive(s: State, uuid: string, backupId: nat, writes: nat)
    requires DataOk(s) && Accepts(s, uuid)
    ensures ArchiveOk(Accepted(s, uuid, backupId, writes))
  {
  }

  lemma AcceptedKeepsData(s: State, uuid: string, backupId: nat, writes: nat)
    requires DataOk(s) && Accepts(s, uuid)
    ensures DataOk(Accepted(s, uuid, backupId, writes))
  {
    AcceptedKeepsArchive(s, uuid, backupId, writes);
    assert DoneBefore(s.trace, s.incarnations, 0);
  }

  lemma AcceptedKeepsPc(s: State, uuid: string, backupId: nat, writes: nat)
    requires Inv(s) && Accepts(s, uuid) && (WillRecordDone(s) && s.disk.Some? ==> writes == 0)
    ensures PcOk(Accepted(s, uuid, backupId, writes))
  {
    assert DoneBefore(s.trace, s.incarnations, 0);
    assert s.disk.None? || Index(s.disk.value.stage) == 8;
  }

  lemma CrashKeeps(s: State)
    requires DataOk(s)
    ensures Inv(Crashed(s))
  {
  }

  lemma StartKeeps(s: State)
    requires Inv(s)
    ensures Inv(StartPipeline(s))
  {
  }

  lemma AcceptKeeps(s: State, uuid: string, backupId: nat, writes: nat, crash: bool)
    requires Inv(s) && writes <= 3 && Accepts(s, uuid) && !Overtakes(s, Deliver(uuid, backupId, writes, crash))
    ensures Inv(Next(s, Deliver(uuid, backupId, writes, crash)))
  {
    AcceptedKeepsData(s, uuid, backupId, writes);
    var accepted := Accepted(s, uuid, backupId, writes);
    if crash {
      CrashKeeps(accepted);
    } else {
      AcceptedKeepsPc(s, uuid, backupId, writes);
      StartKeeps(accepted);
    }
  }

  lemma WriteDoneKeeps(s: State, written: bool)
    requires Inv(s) && Enabled(s, WriteDone(written))
    ensures Inv(Next(s, WriteDone(written)))
  {
  }

  lemma WriteErrorKeeps(s: State, written: bool)
    requires Inv(s) && Enabled(s, WriteError(written))
    ensures Inv(Next(s, WriteError(written)))
  {
  }

  lemma MarkKeeps(s: State)
    requires Inv(s) && Enabled(s, MarkMaintenance)
    ensures Inv(Next(s, MarkMaintenance))
  {
  }

  lemma RemoveMarkerKeeps(s: State, removed: bool)
    requires Inv(s) && Enabled(s, RemoveMarker(removed))
    ensures Inv(Next(s, RemoveMarker(removed)))
  {
  }

  lemma StepKeeps(s: State, e: Event)
    requires Inv(s) && Enabled(s, e) && !Overtakes(s, e)
    ensures Inv(Next(s, e))
  {
    match e
    case Deliver(uuid, backupId, writes, crash) =>
      if Accepts(s, uuid) {
        AcceptKeeps(s, uuid, backupId, writes, crash);
      } else if crash {
        CrashKeeps(s);
      }
    case Record(written) => RecordKeeps(s, written);
    case StageEnds(succeeded) => StageEndsKeeps(s, succeeded);
    case Retry => StartKeeps(if s.memory.None? then s.(memory := s.disk) else s);
    case Crash => CrashKeeps(s);
    case WriteDone(written) => WriteDoneKeeps(s, written);
    case WriteError(written) => WriteErrorKeeps(s, written);
    case MarkMaintenance => MarkKeeps(s);
    case RemoveMarker(removed) => RemoveMarkerKeeps(s, removed);
    case SyncEnds =>
    case BeginShutdown =>
  }

  lemma {:induction false} RunKeeps(s: State, events: seq<Event>)
    requires Inv(s) && Orderly(s, events)
    ensures Legal(s, events) && Inv(Run(s, events))
    decreases |events|
  {
    OrderlyIsLegal(s, events);
    if events != [] {
      StepKeeps(s, events[0]);
      RunKeeps(Next(s, events[0]), events[1..]);
    }
  }

  // ---------------------------------------------------------------- main results

  /** A manifest says DONE although a stage of its incarnation never completed. */
  ghost predicate FalselyDone(s: State) {
    IsDone(s.disk) && !DoneBefore(s.trace, s.disk.value.incarnation, 8)
  }

  /**
   * In every reachable state: a recorded stage means that all earlier ones completed for that delivery; the stages that
   * replace the database began, and are recorded, only under the marker; no stage of a delivery began after a later one
   * had; and what was archived was really done.
   */
  lemma RecordedMeansCompleted(events: seq<Event>)
    requires Orderly(INITIAL, events)
    ensures Legal(INITIAL, events)
    ensures var s := Run(INITIAL, events);
      && Justified(s.trace, s.disk) && Guarded(s.marker, s.disk) && BeganInOrder(s.trace) && ArchiveOk(s) && !FalselyDone(s)
      && (forall n :: n in s.trace && n.Began? && Destructive(n.stage) ==> n.marker)
      && (s.pc.Executing? ==>
            && s.pc.i < |STAGES| && s.disk.Some? && s.disk.value.stage == STAGES[s.pc.i]
            && (Destructive(STAGES[s.pc.i]) ==> s.marker))
  {
    RunKeeps(INITIAL, events);
    var s := Run(INITIAL, events);
    if s.pc.Executing? {
      IndexOfStage(s.pc.i);
    }
  }

  /** How one manifest may follow another on disk. */
  predicate Advances(before: Option<Manifest>, after: Option<Manifest>) {
    before.Some? && after.Some? && before.value.incarnation == after.value.incarnation ==>
      && before.value.restoreUuid == after.value.restoreUuid && before.value.backupId == after.value.backupId
      && Index(before.value.stage) <= Index(after.value.stage)
  }

  /** From a state on, an incarnation on disk has advanced, or is gone for good. */
  predicate Gone(s: State, incarnation: nat) {
    && incarnation < s.incarnations
    && (s.disk.Some? ==> s.disk.value.incarnation != incarnation) && (s.memory.Some? ==> s.memory.value.incarnation != incarnation)
  }

  lemma DeliveryAdvances(s: State, e: Event)
    requires TraceOk(s) && Enabled(s, e) && e.Deliver? && s.disk.Some?
    ensures Next(s, e).disk == s.disk || Gone(Next(s, e), s.disk.value.incarnation)
  {
  }

  lemma WriteAdvances(s: State, e: Event)
    requires PcOk(s) && InStep(s.disk, s.memory) && Enabled(s, e) && !e.Deliver? && s.disk.Some?
    ensures Next(s, e).disk.Some? && Next(s, e).disk.value.incarnation == s.disk.value.incarnation && Advances(s.disk, Next(s, e).disk)
  {
    if e.Record? && !s.shuttingDown {
      IndexOfStage(s.pc.i);
    }
  }

  lemma StepAdvances(s: State, e: Event)
    requires Inv(s) && Enabled(s, e) && !Overtakes(s, e) && s.disk.Some?
    ensures Advances(s.disk, Next(s, e).disk)
    ensures (Next(s, e).disk.Some? && Next(s, e).disk.value.incarnation == s.disk.value.incarnation)
            || Gone(Next(s, e), s.disk.value.incarnation)
  {
    if e.Deliver? {
      DeliveryAdvances(s, e);
    } else {
      WriteAdvances(s, e);
    }
  }

  lemma {:induction false} GoneStaysGone(s: State, events: seq<Event>, incarnation: nat)
    requires Legal(s, events) && Gone(s, incarnation)
    ensures Gone(Run(s, events), incarnation)
    decreases |events|
  {
    if events != [] {
      GoneStaysGone(Next(s, events[0]), events[1..], incarnation);
    }
  }

  /** Between any two moments of a run the stage recorded for a delivery never goes back, and its backup never changes. */
  lemma {:induction false} StagesNeverGoBack(s: State, events: seq<Event>)
    requires Inv(s) && Orderly(s, events) && s.disk.Some?
    ensures Legal(s, events) && Advances(s.disk, Run(s, events).disk)
    decreases |events|
  {
    OrderlyIsLegal(s, events);
    if events != [] {
      var next := Next(s, events[0]);
      StepKeeps(s, events[0]);
      StepAdvances(s, events[0]);
      if Gone(next, s.disk.value.incarnation) {
        GoneStaysGone(next, events[1..], s.disk.value.incarnation);
      } else {
        StagesNeverGoBack(next, events[1..]);
      }
    }
  }

  /** An accepted delivery takes the place of a manifest on disk. */
  predicate Replaces(s: State, e: Event) {
    e.Deliver? && s.disk.Some? && Accepts(s, e.restoreUuid) && e.writes >= 1
  }

  /** Runs in which no further delivery is accepted: refused ones, redeliveries, crashes, failed writes and retries only. */
  predicate NoneAccepted(s: State, events: seq<Event>)
    decreases |events|
  {
    events == [] || (Enabled(s, events[0]) && !Replaces(s, events[0]) && NoneAccepted(Next(s, events[0]), events[1..]))
  }

  /** The restore of this uuid and incarnation is on disk. */
  predicate OnDisk(s: State, uuid: string, incarnation: nat) {
    s.disk.Some? && s.disk.value.restoreUuid == uuid && s.disk.value.incarnation == incarnation
  }

  lemma StepKeepsOnDisk(s: State, e: Event, uuid: string, incarnation: nat)
    requires Inv(s) && Enabled(s, e) && !Replaces(s, e) && OnDisk(s, uuid, incarnation)
    ensures !Overtakes(s, e) && OnDisk(Next(s, e), uuid, incarnation)
  {
  }

  lemma {:induction false} StaysOnDisk(s: State, events: seq<Event>, uuid: string, incarnation: nat)
    requires Inv(s) && NoneAccepted(s, events) && OnDisk(s, uuid, incarnation)
    ensures Legal(s, events) && Inv(Run(s, events)) && OnDisk(Run(s, events), uuid, incarnation)
    decreases |events|
  {
    if events != [] {
      StepKeepsOnDisk(s, events[0], uuid, incarnation);
      StepKeeps(s, events[0]);
      StaysOnDisk(Next(s, events[0]), events[1..], uuid, incarnation);
    }
  }

  /** The same process, or its crash: nothing on disk, in the archive or in the stages has changed. */
  predicate Untouched(s: State, e: Event)
    requires Enabled(s, e)
  {
    Next(s, e) == if e.Deliver? && e.crash then Crashed(s) else s
  }

  /**
   * From the acceptance of a delivery on - once its manifest is written - every redelivery of its uuid is ignored, after any
   * crashes, failed writes, retries, shutdowns and refused deliveries, until another delivery is accepted.
   */
  lemma RedeliveryIsIgnored(s: State, uuid: string, backupId: nat, writes: nat, crash: bool, events: seq<Event>, again: Event)
    requires var accepted := Deliver(uuid, backupId, writes, crash);
      && Inv(s) && Enabled(s, accepted) && Accepts(s, uuid) && !Overtakes(s, accepted) && writes >= 2
      && NoneAccepted(Next(s, accepted), events)
    requires again.Deliver? && again.restoreUuid == uuid && again.writes <= 3
    ensures var start := Next(s, Deliver(uuid, backupId, writes, crash));
      Legal(start, events) && OnDisk(Run(start, events), uuid, s.incarnations) && Untouched(Run(start, events), again)
  {
    var accepted := Deliver(uuid, backupId, writes, crash);
    StepKeeps(s, accepted);
    StaysOnDisk(Next(s, accepted), events, uuid, s.incarnations);
  }

  /** A delivery whose manifest was not yet written is accepted anew, as a restore of its own. */
  lemma UnwrittenDeliveryIsAcceptedAnew(s: State, uuid: string, backupId: nat, writes: nat, crash: bool)
    requires Inv(s) && Accepts(s, uuid) && writes <= 3
    ensures var start := Next(s, Deliver(uuid, backupId, writes, crash));
      Untouched(start, Deliver(uuid, backupId, 3, false)) <==> writes >= 2
  {
    var start := Next(s, Deliver(uuid, backupId, writes, crash));
    if writes < 2 {
      assert Next(start, Deliver(uuid, backupId, 3, false)).incarnations == start.incarnations + 1;
    }
  }

  /** Only the recorded stage is executed again: a stage that begins in a run is not before the one recorded at its start. */
  lemma {:induction false} OnlyTheRecordedStageIsRepeated(s: State, events: seq<Event>, k: nat)
    requires Inv(s) && Orderly(s, events) && s.disk.Some?
    requires Legal(s, events) && |s.trace| <= k < |Run(s, events).trace|
    ensures var note := Run(s, events).trace[k];
      note.Began? && note.incarnation == s.disk.value.incarnation ==> Index(note.stage) >= Index(s.disk.value.stage)
    decreases |events|
  {
    RunKeeps(s, events);
    RecordedAfter(s, events, s.disk.value.incarnation, Index(s.disk.value.stage), k);
  }

  /** The manifest of the incarnation has reached index `i`, or the incarnation is gone. */
  predicate Reached(s: State, incarnation: nat, i: nat) {
    Gone(s, incarnation) || (s.disk.Some? && s.disk.value.incarnation == incarnation && i <= Index(s.disk.value.stage))
  }

  lemma {:induction false} RecordedAfter(s: State, events: seq<Event>, incarnation: nat, i: nat, k: nat)
    requires Inv(s) && Orderly(s, events) && Legal(s, events) && Reached(s, incarnation, i)
    requires |s.trace| <= k < |Run(s, events).trace|
    ensures var note := Run(s, events).trace[k]; note.Began? && note.incarnation == incarnation ==> i <= Index(note.stage)
    decreases |events|
  {
    var e := events[0];
    var next := Next(s, e);
    StepKeeps(s, e);
    StepReaches(s, e, incarnation, i);
    StepNotes(s, e);
    TraceGrows(next, events[1..]);
    if k >= |next.trace| {
      RecordedAfter(next, events[1..], incarnation, i, k);
    }
  }

  /** The note a beginning stage leaves is that of the manifest just recorded. */
  ghost predicate NoteOk(next: State, note: Note) {
    note.Began? ==> next.disk.Some? && note.incarnation == next.disk.value.incarnation && note.stage == next.disk.value.stage
  }

  /** A step adds at most one note, and a beginning only by recording that stage. */
  lemma StepNotes(s: State, e: Event)
    requires Enabled(s, e)
    ensures var next := Next(s, e); next.trace == s.trace || exists note :: next.trace == s.trace + [note] && NoteOk(next, note)
  {
    var next := Next(s, e);
    if e.Record? && !s.shuttingDown && e.written {
      assert NoteOk(next, Began(s.memory.value.incarnation, STAGES[s.pc.i], s.marker));
    } else if e.StageEnds? && e.succeeded {
      assert NoteOk(next, Completed(s.memory.value.incarnation, STAGES[s.pc.i]));
    }
  }

  lemma StepReaches(s: State, e: Event, incarnation: nat, i: nat)
    requires Inv(s) && Enabled(s, e) && !Overtakes(s, e) && Reached(s, incarnation, i)
    ensures Reached(Next(s, e), incarnation, i)
  {
    if Gone(s, incarnation) {
      GoneStaysGone(s, [e], incarnation);
      assert Run(s, [e]) == Next(s, e);
    } else {
      StepAdvances(s, e);
    }
  }

  lemma {:induction false} TraceGrows(s: State, events: seq<Event>)
    requires Legal(s, events)
    ensures s.trace <= Run(s, events).trace
    decreases |events|
  {
    if events != [] {
      assert s.trace <= Next(s, events[0]).trace;
      TraceGrows(Next(s, events[0]), events[1..]);
    }
  }

  // ---------------------------------------------------------------- one archive file for each uuid

  ghost predicate IsArchived(s: State, incarnation: nat) {
    exists u :: u in s.archived && s.archived[u].incarnation == incarnation
  }

  /** The manifest of an incarnation is on disk or in the archive. */
  ghost predicate OnFile(s: State, incarnation: nat) {
    (s.disk.Some? && s.disk.value.incarnation == incarnation) || IsArchived(s, incarnation)
  }

  /** Only an acceptance replaces a manifest, and it archives it first. */
  lemma ReplacedIsArchived(s: State, e: Event)
    requires InStep(s.disk, s.memory) && (!s.pc.Idle? ==> s.memory.Some?) && Enabled(s, e)
    ensures var next := Next(s, e);
      if Replaces(s, e) then
        && next.archived == s.archived[s.disk.value.restoreUuid := s.disk.value]
        && (next.disk.Some? ==> next.disk.value.incarnation == s.incarnations)
      else
        && next.archived == s.archived
        && (s.disk.Some? ==> next.disk.Some? && next.disk.value.incarnation == s.disk.value.incarnation)
  {
  }

  /** The step takes the manifest of an incarnation off file. */
  ghost predicate Loses(s: State, e: Event, incarnation: nat)
    requires Enabled(s, e)
  {
    OnFile(s, incarnation) && !OnFile(Next(s, e), incarnation)
  }

  lemma LosesTheEarlierOne(s: State, e: Event)
    requires Inv(s) && Enabled(s, e) && Replaces(s, e) && s.disk.value.restoreUuid in s.archived
    ensures Loses(s, e, s.archived[s.disk.value.restoreUuid].incarnation)
  {
    var uuid := s.disk.value.restoreUuid;
    ReplacedIsArchived(s, e);
    assert IsArchived(s, s.archived[uuid].incarnation);
  }

  lemma LosesNothingElse(s: State, e: Event, incarnation: nat)
    requires Inv(s) && Enabled(s, e) && OnFile(s, incarnation)
    requires !(Replaces(s, e) && s.disk.value.restoreUuid in s.archived)
    ensures OnFile(Next(s, e), incarnation)
  {
    var next := Next(s, e);
    ReplacedIsArchived(s, e);
    if IsArchived(s, incarnation) {
      var u :| u in s.archived && s.archived[u].incarnation == incarnation;
      assert u in next.archived && next.archived[u].incarnation == incarnation;
    } else if Replaces(s, e) {
      assert next.archived[s.disk.value.restoreUuid].incarnation == incarnation;
    }
  }

  /**
   * A step takes a manifest off file exactly when an accepted delivery archives one under a uuid that is archived already:
   * the new file replaces the old one.
   */
  lemma ManifestIsLostExactly(s: State, e: Event)
    requires Inv(s) && Enabled(s, e)
    ensures (exists incarnation: nat :: Loses(s, e, incarnation)) <==> Replaces(s, e) && s.disk.value.restoreUuid in s.archived
  {
    if Replaces(s, e) && s.disk.value.restoreUuid in s.archived {
      LosesTheEarlierOne(s, e);
    } else {
      forall incarnation: nat | OnFile(s, incarnation) ensures OnFile(Next(s, e), incarnation) {
        LosesNothingElse(s, e, incarnation);
      }
    }
  }

  /** A delivery of an archived uuid is accepted: what the restore under way is called decides, not the archive. */
  predicate Repeats(s: State, e: Event) {
    e.Deliver? && Accepts(s, e.restoreUuid) && e.restoreUuid in s.archived
  }

  /** Runs in which no archived uuid is accepted again. */
  predicate Unrepeated(s: State, events: seq<Event>)
    decreases |events|
  {
    events == [] || (Enabled(s, events[0]) && !Repeats(s, events[0]) && Unrepeated(Next(s, events[0]), events[1..]))
  }

  /** The restore under way is none of the archived ones. */
  predicate New(s: State) {
    (s.disk.Some? ==> s.disk.value.restoreUuid !in s.archived) && (s.memory.Some? ==> s.memory.value.restoreUuid !in s.archived)
  }

  lemma DeliveryKeepsNew(s: State, uuid: string, backupId: nat, writes: nat)
    requires New(s) && Accepts(s, uuid) && uuid !in s.archived
    ensures New(Accepted(s, uuid, backupId, writes))
  {
  }

  predicate SameUuid(a: Option<Manifest>, b: Option<Manifest>) {
    a.Some? && b.Some? && a.value.restoreUuid == b.value.restoreUuid
  }

  /** Memory and disk only ever hold what one of them held before. */
  lemma OthersKeepUuids(s: State, e: Event)
    requires Enabled(s, e) && !e.Deliver?
    ensures var next := Next(s, e);
      && next.archived == s.archived
      && (next.memory.Some? ==> SameUuid(next.memory, s.memory) || SameUuid(next.memory, s.disk))
      && (next.disk.Some? ==> SameUuid(next.disk, s.memory) || SameUuid(next.disk, s.disk))
  {
  }

  lemma StepKeepsNew(s: State, e: Event)
    requires Inv(s) && New(s) && Enabled(s, e) && !Repeats(s, e)
    ensures New(Next(s, e))
  {
    if e.Deliver? {
      if Accepts(s, e.restoreUuid) {
        DeliveryKeepsNew(s, e.restoreUuid, e.backupId, e.writes);
      }
    } else {
      OthersKeepUuids(s, e);
    }
  }

  /** Two restores of one uuid have been carried out to the end. */
  ghost predicate DoneTwice(s: State) {
    IsDone(s.disk) && s.disk.value.restoreUuid in s.archived
  }

  lemma DoneTwiceIsTwice(s: State)
    requires Inv(s) && DoneTwice(s)
    ensures var first, second := s.archived[s.disk.value.restoreUuid], s.disk.value;
      && first.restoreUuid == second.restoreUuid && first.incarnation != second.incarnation
      && DoneBefore(s.trace, first.incarnation, 8) && DoneBefore(s.trace, second.incarnation, 8)
  {
  }

  /**
   * As long as no archived uuid is accepted again, a manifest that was ever written stays on disk or in the archive, and no
   * uuid is done twice, whatever is delivered and whenever the process dies.
   */
  lemma {:induction false} NothingOnDiskIsForgotten(s: State, events: seq<Event>, incarnation: nat)
    requires Inv(s) && New(s) && Orderly(s, events) && Unrepeated(s, events) && OnFile(s, incarnation)
    ensures Legal(s, events)
    ensures var end := Run(s, events); OnFile(end, incarnation) && New(end) && !DoneTwice(end)
    decreases |events|
  {
    OrderlyIsLegal(s, events);
    if events != [] {
      StepKeeps(s, events[0]);
      StepKeepsNew(s, events[0]);
      LosesNothingElse(s, events[0], incarnation);
      NothingOnDiskIsForgotten(Next(s, events[0]), events[1..], incarnation);
    }
  }

  predicate NoDelivery(events: seq<Event>) {
    forall e :: e in events ==> !e.Deliver?
  }

  lemma {:induction false} NoDeliveryKeepsArchive(s: State, events: seq<Event>)
    requires Legal(s, events) && NoDelivery(events)
    ensures Run(s, events).archived == s.archived && Run(s, events).incarnations == s.incarnations
    decreases |events|
  {
    if events != [] {
      assert events[0] in events && forall e :: e in events[1..] ==> e in events;
      NoDeliveryKeepsArchive(Next(s, events[0]), events[1..]);
    }
  }

  /** The delivery that was just accepted can lead to a second completion of its uuid. */
  ghost predicate CanBeDoneTwice(s: State) {
    exists events :: NoDelivery(events) && Legal(s, events) && DoneTwice(Run(s, events))
  }

  lemma {:induction false} NoDeliveryKeepsNew(s: State, events: seq<Event>)
    requires Inv(s) && New(s) && Legal(s, events) && NoDelivery(events)
    ensures New(Run(s, events))
    decreases |events|
  {
    if events != [] {
      assert events[0] in events && forall e :: e in events[1..] ==> e in events;
      StepKeeps(s, events[0]);
      StepKeepsNew(s, events[0]);
      NoDeliveryKeepsNew(Next(s, events[0]), events[1..]);
    }
  }

  /** A failed stage leaves its error in the manifest and the marker as it was, and the next retry begins with that stage. */
  lemma FailedStageIsRetried(s: State)
    requires Inv(s) && s.pc.Executing? && Enabled(s, StageEnds(false)) && !s.shuttingDown
    ensures var events := [StageEnds(false), WriteError(true), SyncEnds];
      Legal(s, events) &&
      var failed := Run(s, events);
      && failed.disk == Some(s.disk.value.(error := true)) && failed.marker == s.marker && failed.pc.Idle?
      && Next(failed, Retry).pc == AtStage(s.pc.i) && Next(Crashed(failed), Retry).pc == AtStage(s.pc.i)
  {
    IndexOfStage(s.pc.i);
    RunThree(s, StageEnds(false), WriteError(true), SyncEnds);
  }

  // ---------------------------------------------------------------- a delivery that overtakes

  /** What an overtaken pipeline still does. */
  function Rest(pc: Pc): seq<Event> {
    match pc
    case AtStage(_) => [Record(true), StageEnds(true), WriteDone(true)]
    case Executing(_, _) => [StageEnds(true), WriteDone(true)]
    case _ => [WriteDone(true)]
  }

  lemma OvertakingFalsifies(s: State, e: Event)
    requires Inv(s) && Enabled(s, e) && Overtakes(s, e)
    ensures Orderly(Next(s, e), Rest(s.pc)) && Legal(Next(s, e), Rest(s.pc)) && FalselyDone(Run(Next(s, e), Rest(s.pc)))
  {
    var accepted := Next(s, e);
    var n := s.incarnations;
    assert accepted.pc == s.pc && accepted.memory.Some? && accepted.memory.value.incarnation == n;
    assert forall note :: note in s.trace ==> note.incarnation != n;
    assert Completed(n, STAGES[0]) !in accepted.trace;
    IndexOfStage(8);
    match s.pc
    case AtStage(_) =>
      var recorded := Next(accepted, Record(true));
      var ended := Next(recorded, StageEnds(true));
      var done := Next(ended, WriteDone(true));
      assert Completed(n, STAGES[0]) !in done.trace;
      assert Orderly(done, []) && Orderly(ended, [WriteDone(true)]) && Orderly(recorded, [StageEnds(true), WriteDone(true)]);
    case Executing(_, _) =>
      var ended := Next(accepted, StageEnds(true));
      var done := Next(ended, WriteDone(true));
      assert Completed(n, STAGES[0]) !in done.trace;
      assert Orderly(done, []) && Orderly(ended, [WriteDone(true)]);
    case Finishing =>
      var done := Next(accepted, WriteDone(true));
      assert Orderly(done, []);
  }

  ghost predicate LeadsToFalseDone(s: State, events: seq<Event>) {
    Orderly(s, events) && Legal(s, events) && FalselyDone(Run(s, events))
  }

  /**
   * Exactly the overtaking deliveries can lead to a restore that is recorded as done without having been carried out: the
   * pipeline writes DONE into whatever manifest is in memory.
   */
  lemma OnlyOvertakingFalsifies(s: State, e: Event)
    requires Inv(s) && Enabled(s, e)
    ensures (exists events :: LeadsToFalseDone(Next(s, e), events)) <==> Overtakes(s, e)
  {
    if Overtakes(s, e) {
      OvertakingFalsifies(s, e);
      assert LeadsToFalseDone(Next(s, e), Rest(s.pc));
    } else {
      StepKeeps(s, e);
      forall events | Orderly(Next(s, e), events) ensures !LeadsToFalseDone(Next(s, e), events) {
        RunKeeps(Next(s, e), events);
      }
    }
  }

  // ---------------------------------------------------------------- a restore can always be finished

  /** What a pipeline does by itself. */
  predicate Internal(e: Event) {
    !e.Deliver? && !e.Retry? && !e.Crash?
  }

  /** The events of one undisturbed stage. */
  function StageEvents(i: nat): (events: seq<Event>)
    ensures forall e :: e in events ==> Internal(e)
  {
    if i == 1 then [Record(true), MarkMaintenance, StageEnds(true)] else [Record(true), StageEnds(true)]
  }

  /** The events of the undisturbed stages from `i` on. */
  function StagesFrom(i: nat): (events: seq<Event>)
    requires i <= |STAGES|
    ensures forall e :: e in events ==> Internal(e)
    decreases |STAGES| - i
  {
    if i == |STAGES| then [] else StageEvents(i) + StagesFrom(i + 1)
  }

  /** The events of an undisturbed pipeline from stage `i` on. */
  function FinishFrom(i: nat): (events: seq<Event>)
    requires i <= |STAGES|
    ensures forall e :: e in events ==> Internal(e)
  {
    StagesFrom(i) + [WriteDone(true), RemoveMarker(true), SyncEnds]
  }

  predicate Finished(s: State, m: Manifest) {
    s.pc.Idle? && !s.marker && s.disk == Some(m.(stage := DONE, error := false))
  }

  predicate SamePipeline(s: State, m: Manifest) {
    s.memory.Some? && s.memory.value.(stage := DONE, error := false) == m.(stage := DONE, error := false) && !s.shuttingDown
  }

  lemma {:induction false} RunConcat(s: State, a: seq<Event>, b: seq<Event>)
    requires Legal(s, a) && Legal(Run(s, a), b)
    ensures Legal(s, a + b) && Run(s, a + b) == Run(Run(s, a), b)
    decreases |a|
  {
    if a == [] {
      assert a + b == b;
    } else {
      assert (a + b)[1..] == a[1..] + b;
      RunConcat(Next(s, a[0]), a[1..], b);
    }
  }

  lemma RunOne(s: State, e: Event)
    requires Enabled(s, e)
    ensures Legal(s, [e]) && Run(s, [e]) == Next(s, e)
  {
    assert [e][1..] == [];
  }

  lemma RunTwo(s: State, e: Event, f: Event)
    requires Enabled(s, e) && Enabled(Next(s, e), f)
    ensures Legal(s, [e, f]) && Run(s, [e, f]) == Next(Next(s, e), f)
  {
    RunOne(s, e);
    RunOne(Next(s, e), f);
    RunConcat(s, [e], [f]);
    assert [e] + [f] == [e, f];
  }

  lemma RunThree(s: State, e: Event, f: Event, g: Event)
    requires Enabled(s, e) && Enabled(Next(s, e), f) && Enabled(Next(Next(s, e), f), g)
    ensures Legal(s, [e, f, g]) && Run(s, [e, f, g]) == Next(Next(Next(s, e), f), g)
  {
    RunOne(s, e);
    RunTwo(Next(s, e), f, g);
    RunConcat(s, [e], [f, g]);
    assert [e] + [f, g] == [e, f, g];
  }

  lemma StageSucceeds(s: State, m: Manifest, i: nat)
    requires i < |STAGES| && s.pc == AtStage(i) && SamePipeline(s, m)
    ensures Legal(s, StageEvents(i))
    ensures var r := Run(s, StageEvents(i));
      && SamePipeline(r, m) && !r.memory.value.error && r.disk == r.memory && r.memory.value.stage == STAGES[i]
      && r.pc == if i == 8 then Finishing else AtStage(i + 1)
  {
    var began := Next(s, Record(true));
    if i == 1 {
      RunTwo(began, MarkMaintenance, StageEnds(true));
      RunOne(s, Record(true));
      RunConcat(s, [Record(true)], [MarkMaintenance, StageEnds(true)]);
      assert StageEvents(i) == [Record(true)] + [MarkMaintenance, StageEnds(true)];
    } else {
      RunTwo(s, Record(true), StageEnds(true));
    }
  }

  /** The loop runs through and leaves the pipeline about to write DONE. */
  lemma {:induction false} StagesSucceed(s: State, m: Manifest, i: nat)
    requires i <= |STAGES| && SamePipeline(s, m) && s.pc == if i == |STAGES| then Finishing else AtStage(i)
    requires i == |STAGES| ==> !s.memory.value.error && s.disk == s.memory && s.memory.value.stage == DONE
    ensures Legal(s, StagesFrom(i))
    ensures var r := Run(s, StagesFrom(i));
      SamePipeline(r, m) && !r.memory.value.error && r.pc == Finishing && r.disk == r.memory && r.memory.value.stage == DONE
    decreases |STAGES| - i
  {
    if i < |STAGES| {
      StageSucceeds(s, m, i);
      StagesSucceed(Run(s, StageEvents(i)), m, i + 1);
      RunConcat(s, StageEvents(i), StagesFrom(i + 1));
    }
  }

  lemma FinishesFrom(s: State, m: Manifest, i: nat)
    requires i < |STAGES| && SamePipeline(s, m) && s.pc == AtStage(i)
    ensures Legal(s, FinishFrom(i)) && Finished(Run(s, FinishFrom(i)), m)
    ensures var r := Run(s, FinishFrom(i)); r.memory == r.disk && !r.shuttingDown
  {
    StagesSucceed(s, m, i);
    var end := Run(s, StagesFrom(i));
    RunThree(end, WriteDone(true), RemoveMarker(true), SyncEnds);
    RunConcat(s, StagesFrom(i), [WriteDone(true), RemoveMarker(true), SyncEnds]);
  }

  /** From every idle state with a manifest, one retry whose steps succeed finishes the restore and leaves maintenance. */
  lemma RetryCanFinish(s: State)
    requires Inv(s) && s.pc.Idle? && !s.shuttingDown && (s.memory.Some? || s.disk.Some?)
    ensures var m := if s.memory.Some? then s.memory.value else s.disk.value;
      var events := [Retry] + FinishFrom(Index(m.stage));
      Legal(s, events) && Finished(Run(s, events), m)
  {
    var m := if s.memory.Some? then s.memory.value else s.disk.value;
    var events := [Retry] + FinishFrom(Index(m.stage));
    assert events[1..] == FinishFrom(Index(m.stage));
    FinishesFrom(Next(s, Retry), m, Index(m.stage));
  }

  // ---------------------------------------------------------------- a uuid that is done twice

  /** A new process can finish what is on disk at PRECHECK. */
  function Recovery(): (events: seq<Event>)
    ensures NoDelivery(events)
  {
    [Crash, Retry] + FinishFrom(0)
  }

  lemma DiskCanBeFinished(s: State)
    requires s.disk.Some? && s.disk.value.stage == PRECHECK
    ensures Legal(s, Recovery()) && Finished(Run(s, Recovery()), s.disk.value)
  {
    RunTwo(s, Crash, Retry);
    FinishesFrom(Run(s, [Crash, Retry]), s.disk.value, 0);
    RunConcat(s, [Crash, Retry], FinishFrom(0));
  }

  /** Once its manifest is written, a new delivery can be followed by a second completion exactly if its uuid is archived. */
  lemma UuidIsDoneTwiceExactly(s: State, uuid: string, backupId: nat, writes: nat, crash: bool)
    requires var e := Deliver(uuid, backupId, writes, crash);
      Inv(s) && New(s) && 2 <= writes <= 3 && Accepts(s, uuid) && !Overtakes(s, e)
    ensures CanBeDoneTwice(Next(s, Deliver(uuid, backupId, writes, crash))) <==> uuid in s.archived
  {
    var e := Deliver(uuid, backupId, writes, crash);
    var next := Next(s, e);
    if uuid in s.archived {
      DiskCanBeFinished(next);
      NoDeliveryKeepsArchive(next, Recovery());
      assert DoneTwice(Run(next, Recovery()));
    } else {
      StepKeeps(s, e);
      StepKeepsNew(s, e);
      forall events | NoDelivery(events) && Legal(next, events) ensures !DoneTwice(Run(next, events)) {
        NoDeliveryKeepsNew(next, events);
      }
    }
  }

  lemma {:induction false} OrderlyConcat(s: State, a: seq<Event>, b: seq<Event>)
    requires Orderly(s, a) && Legal(s, a) && Orderly(Run(s, a), b)
    ensures Orderly(s, a + b)
    decreases |a|
  {
    if a == [] {
      assert a + b == b;
    } else {
      assert (a + b)[1..] == a[1..] + b;
      OrderlyConcat(Next(s, a[0]), a[1..], b);
    }
  }

  /** A delivery and its undisturbed restore. */
  function Restore(uuid: string): seq<Event> {
    [Deliver(uuid, 0, 3, false)] + FinishFrom(0)
  }

  predicate Resting(s: State) {
    s.pc.Idle? && !s.shuttingDown
  }

  lemma RestoreFinishes(s: State, uuid: string)
    requires Inv(s) && Resting(s) && Accepts(s, uuid)
    ensures Orderly(s, Restore(uuid)) && Legal(s, Restore(uuid))
    ensures var r := Run(s, Restore(uuid));
      && Inv(r) && Resting(r) && IsDone(r.disk) && OnDisk(r, uuid, s.incarnations) && r.incarnations == s.incarnations + 1
      && r.archived == if s.disk.Some? then s.archived[s.disk.value.restoreUuid := s.disk.value] else s.archived
  {
    var e := Deliver(uuid, 0, 3, false);
    var started := Next(s, e);
    StepKeeps(s, e);
    FinishesFrom(started, started.memory.value, 0);
    NoDeliveryIsOrderly(started, FinishFrom(0));
    NoDeliveryKeepsArchive(started, FinishFrom(0));
    RunKeeps(started, FinishFrom(0));
    RunOne(s, e);
    assert Orderly(s, [e]) by {
      assert [e][1..] == [];
    }
    OrderlyConcat(s, [e], FinishFrom(0));
    RunConcat(s, [e], FinishFrom(0));
  }

  /** A restore of each: the first one's manifest is archived under its uuid. */
  lemma TwoRestores(s: State, first: string, second: string)
    requires Inv(s) && Resting(s) && Accepts(s, first) && first != second
    ensures var half := Restore(first) + Restore(second);
      && Orderly(s, half) && Legal(s, half)
      && var r := Run(s, half);
      && Inv(r) && Resting(r) && IsDone(r.disk) && OnDisk(r, second, s.incarnations + 1) && r.incarnations == s.incarnations + 2
      && first in r.archived && r.archived[first].incarnation == s.incarnations
      && r.archived == (if s.disk.Some? then s.archived[s.disk.value.restoreUuid := s.disk.value] else s.archived)[first := r.archived[first]]
  {
    RestoreFinishes(s, first);
    RestoreFinishes(Run(s, Restore(first)), second);
    OrderlyConcat(s, Restore(first), Restore(second));
    RunConcat(s, Restore(first), Restore(second));
  }

  lemma {:induction false} CompletedStays(s: State, events: seq<Event>, incarnation: nat)
    requires Legal(s, events) && DoneBefore(s.trace, incarnation, 8)
    ensures DoneBefore(Run(s, events).trace, incarnation, 8)
  {
    TraceGrows(s, events);
  }

  /** A restore of each, from a state in which both have been restored before. */
  lemma SecondHalf(s: State, first: string, second: string)
    requires Inv(s) && Resting(s) && first != second && OnDisk(s, second, 1) && IsDone(s.disk) && s.incarnations == 2
    requires s.archived.Keys == {first} && s.archived[first].incarnation == 0
    ensures var half := Restore(first) + Restore(second);
      && Orderly(s, half) && Legal(s, half)
      && var r := Run(s, half);
      && !OnFile(r, 0) && first in r.archived && r.archived[first].incarnation == 2
      && DoneBefore(r.trace, 0, 8) && DoneBefore(r.trace, 2, 8)
  {
    var half := Restore(first) + Restore(second);
    TwoRestores(s, first, second);
    RunKeeps(s, half);
    assert first in s.archived;
    CompletedStays(s, half, 0);
  }

  /**
   * From the initial state, any two uuids restored in turn: the first one's stages have run twice, and the manifest of its
   * first restore, which was on file, is not any more.
   */
  lemma ArchivedUuidRunsTwice(first: string, second: string)
    requires first != second
    ensures var half := Restore(first) + Restore(second);
      && Legal(INITIAL, half) && OnFile(Run(INITIAL, half), 0) && Orderly(INITIAL, half + half) && Legal(INITIAL, half + half)
      && var r := Run(INITIAL, half + half);
      && !OnFile(r, 0) && first in r.archived && r.archived[first].incarnation == 2
      && DoneBefore(r.trace, 0, 8) && DoneBefore(r.trace, 2, 8)
  {
    var half := Restore(first) + Restore(second);
    TwoRestores(INITIAL, first, second);
    var middle := Run(INITIAL, half);
    assert IsArchived(middle, 0);
    SecondHalf(middle, first, second);
    OrderlyConcat(INITIAL, half, half);
    RunConcat(INITIAL, half, half);
  }

  // ---------------------------------------------------------------- a false DONE, from the start

  /** One delivery runs through its stages; a second one arrives before DONE is written once more. */
  function FalseDone(first: string, second: string): seq<Event> {
    [Deliver(first, 0, 3, false)] + StagesFrom(0) + [Deliver(second, 1, 3, false), WriteDone(true)]
  }

  /** The state in which the second delivery arrives. */
  lemma FinishingIsReachable(first: string)
    ensures var before := [Deliver(first, 0, 3, false)] + StagesFrom(0);
      && Legal(INITIAL, before)
      && var s := Run(INITIAL, before); Inv(s) && s.pc.Finishing? && !s.shuttingDown && IsDone(s.disk) && s.disk.value.restoreUuid == first
  {
    var accepted := Deliver(first, 0, 3, false);
    var started := Next(INITIAL, accepted);
    assert Inv(started) by {
      StepKeeps(INITIAL, accepted);
    }
    StagesSucceed(started, started.memory.value, 0);
    assert Inv(Run(started, StagesFrom(0))) by {
      NoDeliveryIsOrderly(started, StagesFrom(0));
      RunKeeps(started, StagesFrom(0));
    }
    RunOne(INITIAL, accepted);
    RunConcat(INITIAL, [accepted], StagesFrom(0));
  }

  /** From the initial state, any two different uuids lead to a second restore that is recorded as done and was never run. */
  lemma FalseDoneIsReachable(first: string, second: string)
    requires first != second
    ensures Legal(INITIAL, FalseDone(first, second))
    ensures var s := Run(INITIAL, FalseDone(first, second));
      FalselyDone(s) && s.disk.value.restoreUuid == second && forall n :: n in s.trace ==> n.incarnation != s.disk.value.incarnation
  {
    FinishingIsReachable(first);
    var before := [Deliver(first, 0, 3, false)] + StagesFrom(0);
    var finishing, overtaking := Run(INITIAL, before), Deliver(second, 1, 3, false);
    RunTwo(finishing, overtaking, WriteDone(true));
    RunConcat(INITIAL, before, [overtaking, WriteDone(true)]);
    assert FalseDone(first, second) == before + [overtaking, WriteDone(true)];
    OvertakingFalsifies(finishing, overtaking);
    RunOne(Next(finishing, overtaking), WriteDone(true));
  }

  // ---------------------------------------------------------------- which deliveries are carried out

  predicate AllInternal(events: seq<Event>) {
    forall e :: e in events ==> Internal(e)
  }

  /** Without a retry or a crash, all stages of the incarnation before DONE, which does nothing, can complete. */
  ghost predicate CanComplete(s: State, incarnation: nat) {
    exists events :: AllInternal(events) && Legal(s, events) && DoneBefore(Run(s, events).trace, incarnation, 8)
  }

  /** The pipeline in flight, if any, does not begin the first stage any more. */
  ghost predicate PassedBy(s: State, incarnation: nat) {
    && s.memory.Some? && Completed(incarnation, PRECHECK) !in s.trace
    && !(s.pc.AtStage? && s.pc.i == 0 && !s.shuttingDown) && !(s.pc.Executing? && s.pc.i == 0)
  }

  lemma InternalPassesBy(s: State, e: Event, incarnation: nat)
    requires Enabled(s, e) && Internal(e) && PassedBy(s, incarnation)
    ensures PassedBy(Next(s, e), incarnation)
  {
    if e.StageEnds? {
      IndexOfStage(s.pc.i);
    }
  }

  lemma {:induction false} PassedByForGood(s: State, events: seq<Event>, incarnation: nat)
    requires Legal(s, events) && AllInternal(events) && PassedBy(s, incarnation)
    ensures PassedBy(Run(s, events), incarnation)
    decreases |events|
  {
    if events != [] {
      assert events[0] in events && forall e :: e in events[1..] ==> e in events;
      InternalPassesBy(s, events[0], incarnation);
      PassedByForGood(Next(s, events[0]), events[1..], incarnation);
    }
  }

  /** A delivery finds the process free, or a pipeline that is about to begin with the first stage. */
  predicate Receptive(s: State) {
    !s.shuttingDown && (s.pc.Idle? || s.pc == AtStage(0))
  }

  lemma MemoryIsJustified(s: State)
    requires Inv(s) && IsDone(s.memory)
    ensures DoneBefore(s.trace, s.memory.value.incarnation, 8)
  {
  }

  lemma {:induction false} StagesKeep(s: State)
    requires Inv(s) && s.pc == AtStage(0) && s.memory.Some? && !s.shuttingDown
    ensures Legal(s, StagesFrom(0))
    ensures var r := Run(s, StagesFrom(0)); Inv(r) && IsDone(r.memory) && r.memory.value.incarnation == s.memory.value.incarnation
  {
    StagesSucceed(s, s.memory.value, 0);
    NoDeliveryIsOrderly(s, StagesFrom(0));
    RunKeeps(s, StagesFrom(0));
  }

  lemma {:induction false} StagesComplete(s: State)
    requires Inv(s) && s.pc == AtStage(0) && s.memory.Some? && !s.shuttingDown
    ensures CanComplete(s, s.memory.value.incarnation)
  {
    StagesKeep(s);
    MemoryIsJustified(Run(s, StagesFrom(0)));
    assert AllInternal(StagesFrom(0));
  }

  lemma {:induction false} ReceptiveCompletes(s: State, uuid: string, backupId: nat)
    requires Inv(s) && Accepts(s, uuid) && Receptive(s)
    ensures CanComplete(Next(s, Deliver(uuid, backupId, 3, false)), s.incarnations)
  {
    StepKeeps(s, Deliver(uuid, backupId, 3, false));
    StagesComplete(Next(s, Deliver(uuid, backupId, 3, false)));
  }

  /**
   * An accepted delivery is carried out without a further retry exactly if the process is free when it arrives, or its
   * pipeline is about to begin, and is not shutting down.
   */
  lemma DeliveryIsCarriedOutExactly(s: State, uuid: string, backupId: nat)
    requires Inv(s) && Accepts(s, uuid)
    ensures CanComplete(Next(s, Deliver(uuid, backupId, 3, false)), s.incarnations) <==> Receptive(s)
  {
    var next := Next(s, Deliver(uuid, backupId, 3, false));
    if Receptive(s) {
      ReceptiveCompletes(s, uuid, backupId);
    } else {
      assert PassedBy(next, s.incarnations);
      forall events | AllInternal(events) && Legal(next, events)
        ensures !DoneBefore(Run(next, events).trace, s.incarnations, 8)
      {
        PassedByForGood(next, events, s.incarnations);
        assert STAGES[0] == PRECHECK;
      }
    }
  }

  /** What comes before a delivery arrives while the marker is removed, while that failed, or while the outcome is mirrored. */
  function UpTo(uuid: string, last: seq<Event>): seq<Event> {
    [Deliver(uuid, 0, 3, false)] + StagesFrom(0) + ([WriteDone(true)] + last)
  }

  /** The pipeline is past DONE and still in flight. */
  predicate Late(pc: Pc) {
    pc.Unmarking? || pc.Failing? || pc.Syncing?
  }

  lemma {:induction false} LateIsReachable(first: string, last: seq<Event>)
    requires last in [[], [RemoveMarker(false)], [RemoveMarker(true)]]
    ensures Legal(INITIAL, UpTo(first, last))
    ensures var s := Run(INITIAL, UpTo(first, last));
      && Inv(s) && Late(s.pc) && !s.shuttingDown && (forall second :: second != first ==> Accepts(s, second))
      && (last == [] ==> s.pc == Unmarking) && (last == [RemoveMarker(false)] ==> s.pc == Failing)
      && (last == [RemoveMarker(true)] ==> s.pc == Syncing)
  {
    FinishingIsReachable(first);
    var before, events := [Deliver(first, 0, 3, false)] + StagesFrom(0), [WriteDone(true)] + last;
    var finishing := Run(INITIAL, before);
    var unmarking := Next(finishing, WriteDone(true));
    RunOne(finishing, WriteDone(true));
    if last == [] {
      assert events == [WriteDone(true)];
    } else {
      RunTwo(finishing, WriteDone(true), last[0]);
      assert events == [WriteDone(true), last[0]];
    }
    NoDeliveryIsOrderly(finishing, events);
    RunKeeps(finishing, events);
    RunConcat(INITIAL, before, events);
  }

  /**
   * From the initial state, a second delivery that arrives in one of these moments is accepted, and no event of the process
   * itself carries it out.
   */
  lemma LateDeliveryIsNotCarriedOut(first: string, second: string, last: seq<Event>)
    requires first != second && last in [[], [RemoveMarker(false)], [RemoveMarker(true)]]
    ensures Legal(INITIAL, UpTo(first, last))
    ensures var s := Run(INITIAL, UpTo(first, last));
      Late(s.pc) && Accepts(s, second) && !CanComplete(Next(s, Deliver(second, 0, 3, false)), s.incarnations)
  {
    LateIsReachable(first, last);
    DeliveryIsCarriedOutExactly(Run(INITIAL, UpTo(first, last)), second, 0);
  }

  /**
   * A delivery accepted while the marker is being removed is not started, its manifest stays at PRECHECK without a marker,
   * and only a retry begins it.
   */
  lemma DeliveryWhileUnmarkingWaits(s: State, uuid: string, backupId: nat)
    requires Inv(s) && s.pc.Unmarking? && !s.shuttingDown && Accepts(s, uuid)
    ensures var events := [Deliver(uuid, backupId, 3, false), RemoveMarker(true), SyncEnds];
      Legal(s, events) &&
      var r := Run(s, events);
      && OnDisk(r, uuid, s.incarnations) && r.disk.value.stage == PRECHECK && !r.marker && r.pc.Idle? && r.trace == s.trace
      && Next(r, Retry).pc == AtStage(0)
  {
    RunThree(s, Deliver(uuid, backupId, 3, false), RemoveMarker(true), SyncEnds);
  }
}
