/**
 * The recovery executor as an object over its state directory
 * (recovery-executor.service.ts:106-126, 172-175, 212-246, 298-372, 967-1020).
 *
 * Each method is a step or a run of steps of the protocol; the state directory is what survives the process.
 */
module RestoreExecutor {
  import opened Options
  import opened RestoreProtocol

  /** The files that survive the process. `trace` records what the stages did; `accepted` numbers the deliveries. */
  class StateDirectory {
    var manifest: Option<Manifest>
    var marker: bool
    var archived: map<string, Manifest>
    var accepted: nat
    ghost var trace: seq<Note>

    constructor ()
      ensures manifest == None && !marker && archived == map[] && accepted == 0 && trace == []
    {
      manifest, marker, archived, accepted, trace := None, false, map[], 0, [];
    }
  }

  /** What the pipeline asks of the world; each may fail. */
  datatype Effect = RecordStage(stage: Stage) | SetMarker | Body(stage: Stage) | RecordDone | DropMarker | RecordError

  /** The writes of an acceptance, in order. */
  datatype DeliveryWrite = ArchiveOld | WriteNew | SetDeliveryMarker

  lemma RunAppend(s: State, events: seq<Event>, e: Event)
    requires Legal(s, events) && Enabled(Run(s, events), e)
    ensures Legal(s, events + [e]) && Run(s, events + [e]) == Next(Run(s, events), e)
  {
    RunOne(Run(s, events), e);
    RunConcat(s, events, [e]);
  }

  /** Stage `i` is recorded and carried out without a failure, and no shutdown is asked for before it. */
  predicate StageWorks(works: Effect -> bool, shutdown: Stage -> bool, i: nat)
    requires i < |STAGES|
  {
    !shutdown(STAGES[i]) && works(RecordStage(STAGES[i])) && (i == 1 ==> works(SetMarker)) && (i != 8 ==> works(Body(STAGES[i])))
  }

  /** The same for every stage from `i` on and for the end of the pipeline. */
  predicate Undisturbed(works: Effect -> bool, shutdown: Stage -> bool, i: nat)
    requires i <= |STAGES|
    decreases |STAGES| - i
  {
    if i == |STAGES| then works(RecordDone) && works(DropMarker)
    else StageWorks(works, shutdown, i) && Undisturbed(works, shutdown, i + 1)
  }

  /** How one turn of the stage loop ends. */
  datatype Outcome = Ended | Stopped | Threw

  /** A call that arrives while a pipeline is in flight. */
  datatype Call = DeliveryCall(restoreUuid: string, backupId: nat, works: DeliveryWrite -> bool) | RetryCall

  /** Nothing else acts. */
  ghost predicate Quiet(meanwhile: Pc -> seq<Call>) {
    forall pc :: meanwhile(pc) == []
  }

  /** The process goes on: nothing but a crash is ruled out, and without calls only the pipeline acts. */
  ghost predicate Extends(events: seq<Event>, more: seq<Event>, quiet: bool) {
    events <= more && forall k :: |events| <= k < |more| ==> !more[k].Crash? && (quiet ==> Internal(more[k]))
  }

  ghost predicate SameFiles(s: State, dir: StateDirectory)
    reads dir
  {
    && s.disk == dir.manifest && s.marker == dir.marker && s.archived == dir.archived
    && s.trace == dir.trace && s.incarnations == dir.accepted
  }

  class RecoveryExecutor {
    const dir: StateDirectory
    var manifest: Option<Manifest>
    var pipelineInFlight: bool
    var shuttingDown: bool

    ghost function At(pc: Pc): State
      reads this, dir
    {
      State(dir.manifest, dir.marker, dir.archived, manifest, pc, shuttingDown, dir.trace, dir.accepted)
    }

    /** A fresh process over an existing directory: what a crash leaves. */
    constructor (dir: StateDirectory)
      ensures this.dir == dir && !pipelineInFlight
      ensures forall before: State :: SameFiles(before, dir) ==> At(Idle) == Next(before, Crash)
    {
      this.dir := dir;
      manifest, pipelineInFlight, shuttingDown := None, false, false;
    }

    method BeginShutdown(ghost pc: Pc)
      modifies this`shuttingDown
      ensures At(pc) == Next(old(At(pc)), Event.BeginShutdown)
    {
      shuttingDown := true;
    }

    /**
     * `acceptDelivery`; `pc` is where a pipeline in flight stands meanwhile. The call fails when another restore is under way
     * or a write fails.
     */
    method AcceptDelivery(restoreUuid: string, backupId: nat, works: DeliveryWrite -> bool, ghost pc: Pc)
      returns (ok: bool, ghost writes: nat)
      requires pipelineInFlight <==> !pc.Idle?
      modifies this`manifest, this`pipelineInFlight, dir
      ensures writes <= 3
      ensures var next := Next(old(At(pc)), Deliver(restoreUuid, backupId, writes, false));
        At(next.pc) == next && (pipelineInFlight <==> !next.pc.Idle?)
      ensures ok <==> if Accepts(old(At(pc)), restoreUuid) then writes == 3 else old(dir.manifest).value.restoreUuid == restoreUuid
      ensures Accepts(old(At(pc)), restoreUuid) ==>
                (writes == 3 <==> (old(dir.manifest).Some? ==> works(ArchiveOld)) && works(WriteNew) && works(SetDeliveryMarker))
    {
      writes := 0;
      if dir.manifest.Some? {
        var existing := dir.manifest.value;
        if existing.restoreUuid == restoreUuid {
          return true, 0;
        }
        if existing.stage != DONE {
          return false, 0;
        }
        if !works(ArchiveOld) {
          return false, 0;
        }
        dir.archived := dir.archived[existing.restoreUuid := existing];
        dir.manifest := None;
      }
      writes := 1;
      manifest := Some(Manifest(restoreUuid, backupId, PRECHECK, false, dir.accepted));
      dir.accepted := dir.accepted + 1;
      ok := WriteManifest(works(WriteNew));
      if !ok {
        return;
      }
      writes := 2;
      if !works(SetDeliveryMarker) {
        return false, 2;
      }
      dir.marker := true;
      writes := 3;
      StartPipelineOnce();
    }

    method WriteManifest(works: bool) returns (written: bool)
      modifies dir`manifest
      ensures written == works && dir.manifest == if works && manifest.Some? then manifest else old(dir.manifest)
    {
      if works && manifest.Some? {
        dir.manifest := manifest;
      }
      written := works;
    }

    /** The synchronous head of `runPipeline`: one pipeline at a time. */
    method StartPipelineOnce()
      modifies this`pipelineInFlight
      ensures pipelineInFlight == (old(pipelineInFlight) || manifest.Some?)
    {
      if manifest.Some? && !pipelineInFlight {
        pipelineInFlight := true;
      }
    }

    method Retry(ghost pc: Pc)
      requires pipelineInFlight <==> !pc.Idle?
      modifies this`manifest, this`pipelineInFlight
      ensures var next := Next(old(At(pc)), Event.Retry); At(next.pc) == next && (pipelineInFlight <==> !next.pc.Idle?)
    {
      if manifest.None? {
        manifest := dir.manifest;
      }
      if manifest.None? {
        return;
      }
      StartPipelineOnce();
    }

    /** `executeStage`: MAINTENANCE sets the marker before the rest of its body; DONE has no body. */
    method ExecuteStage(i: nat, works: Effect -> bool, ghost start: State, ghost events: seq<Event>) returns (ok: bool, ghost more: seq<Event>)
      requires i < |STAGES| && manifest.Some?
      requires Legal(start, events) && Run(start, events) == At(Executing(i, false))
      modifies dir`marker
      ensures Extends(events, more, true) && Legal(start, more)
      ensures Run(start, more) == At(Executing(i, i == 1 && works(SetMarker)))
      ensures ok <==> (i == 1 ==> works(SetMarker)) && (i != 8 ==> works(Body(STAGES[i])))
    {
      more := events;
      if i == 1 {
        if !works(SetMarker) {
          return false, more;
        }
        RunAppend(start, more, MarkMaintenance);
        dir.marker := true;
        more := more + [MarkMaintenance];
      }
      ok := i == 8 || works(Body(STAGES[i]));
    }

    /** The head of the stage loop: stop at the boundary when shutting down, else record the stage. */
    method BeginStage(i: nat, works: Effect -> bool, shutdown: Stage -> bool, ghost start: State, ghost events: seq<Event>)
      returns (outcome: Outcome, ghost more: seq<Event>)
      requires i < |STAGES| && manifest.Some?
      requires Legal(start, events) && Run(start, events) == At(AtStage(i))
      modifies this`manifest, this`shuttingDown, dir
      ensures Extends(events, more, true) && Legal(start, more)
      ensures Run(start, more) ==
                match outcome { case Ended => At(Executing(i, false)) case Stopped => At(Idle) case Threw => Fail(At(Failing)) }
      ensures shuttingDown == (old(shuttingDown) || shutdown(STAGES[i]))
      ensures outcome.Ended? <==> !shuttingDown && works(RecordStage(STAGES[i]))
      ensures manifest == if outcome.Stopped? then old(manifest) else Some(old(manifest).value.(stage := STAGES[i], error := false))
    {
      var stage := STAGES[i];
      more := events;
      if shutdown(stage) {
        RunAppend(start, more, Event.BeginShutdown);
        BeginShutdown(AtStage(i));
        more := more + [Event.BeginShutdown];
      }
      if shuttingDown {
        RunAppend(start, more, Record(true));
        return Stopped, more + [Record(true)];
      }
      manifest := Some(manifest.value.(stage := stage, error := false));
      var written := WriteManifest(works(RecordStage(stage)));
      RunAppend(start, more, Record(written));
      more := more + [Record(written)];
      if !written {
        return Threw, more;
      }
      dir.trace := dir.trace + [Began(manifest.value.incarnation, stage, dir.marker)];
      outcome := Ended;
    }

    /** The recorded stage is carried out. */
    method EndStage(i: nat, works: Effect -> bool, meanwhile: Pc -> seq<Call>, ghost start: State, ghost events: seq<Event>)
      returns (ok: bool, ghost more: seq<Event>)
      requires i < |STAGES| && manifest.Some? && pipelineInFlight
      requires Legal(start, events) && Run(start, events) == At(Executing(i, false))
      modifies this`manifest, this`pipelineInFlight, dir
      ensures manifest.Some? && pipelineInFlight && Extends(events, more, Quiet(meanwhile)) && Legal(start, more)
      ensures Quiet(meanwhile) && ok ==> manifest == old(manifest)
      ensures Run(start, more) == if !ok then Fail(At(Failing)) else At(if i == 8 then Finishing else AtStage(i + 1))
      ensures ok <==> (i == 1 ==> works(SetMarker)) && (i != 8 ==> works(Body(STAGES[i])))
    {
      more := Meanwhile(meanwhile, Executing(i, false), start, events);
      ok, more := ExecuteStage(i, works, start, more);
      var marked := i == 1 && works(SetMarker);
      if marked {
        more := Meanwhile(meanwhile, Executing(i, true), start, more);
      }
      RunAppend(start, more, StageEnds(ok));
      more := more + [StageEnds(ok)];
      if ok {
        dir.trace := dir.trace + [Completed(manifest.value.incarnation, STAGES[i])];
      }
    }

    /** One turn of the stage loop. */
    method RunStage(i: nat, works: Effect -> bool, shutdown: Stage -> bool, meanwhile: Pc -> seq<Call>,
                    ghost start: State, ghost events: seq<Event>)
      returns (outcome: Outcome, ghost more: seq<Event>)
      requires i < |STAGES| && manifest.Some? && pipelineInFlight
      requires Legal(start, events) && Run(start, events) == At(AtStage(i))
      modifies this, dir
      ensures manifest.Some? && pipelineInFlight && Extends(events, more, Quiet(meanwhile)) && Legal(start, more)
      ensures outcome.Ended? ==> Run(start, more) == At(if i == 8 then Finishing else AtStage(i + 1))
      ensures outcome.Stopped? ==> Run(start, more) == At(Idle)
      ensures outcome.Threw? ==> Run(start, more) == Fail(At(Failing))
      ensures outcome.Ended? <==> !old(shuttingDown) && StageWorks(works, shutdown, i)
      ensures outcome.Ended? ==> !shuttingDown
      ensures outcome.Ended? && Quiet(meanwhile) ==> manifest == Some(old(manifest).value.(stage := STAGES[i], error := false))
    {
      more := Meanwhile(meanwhile, AtStage(i), start, events);
      outcome, more := BeginStage(i, works, shutdown, start, more);
      if outcome.Ended? {
        var ok;
        ok, more := EndStage(i, works, meanwhile, start, more);
        outcome := if ok then Ended else Threw;
      }
    }

    /** The calls that arrive where the pipeline stands: steps of the protocol that leave it where it is. */
    method Meanwhile(meanwhile: Pc -> seq<Call>, pc: Pc, ghost start: State, ghost events: seq<Event>) returns (ghost more: seq<Event>)
      requires manifest.Some? && pipelineInFlight && !pc.Idle?
      requires Legal(start, events) && Run(start, events) == At(pc)
      modifies this`manifest, this`pipelineInFlight, dir
      ensures manifest.Some? && pipelineInFlight && Legal(start, more) && Run(start, more) == At(pc)
      ensures Extends(events, more, Quiet(meanwhile))
      ensures Quiet(meanwhile) ==> manifest == old(manifest) && At(pc) == old(At(pc))
    {
      var calls := meanwhile(pc);
      more := events;
      for n := 0 to |calls|
        invariant manifest.Some? && pipelineInFlight && Legal(start, more) && Run(start, more) == At(pc)
        invariant Extends(events, more, Quiet(meanwhile))
        invariant n == 0 ==> manifest == old(manifest) && At(pc) == old(At(pc))
      {
        more := Answer(calls[n], pc, start, more);
      }
    }

    method Answer(call: Call, ghost pc: Pc, ghost start: State, ghost events: seq<Event>) returns (ghost more: seq<Event>)
      requires manifest.Some? && pipelineInFlight && !pc.Idle?
      requires Legal(start, events) && Run(start, events) == At(pc)
      modifies this`manifest, this`pipelineInFlight, dir
      ensures manifest.Some? && pipelineInFlight && Legal(start, more) && Run(start, more) == At(pc)
      ensures Extends(events, more, false)
    {
      match call {
        case DeliveryCall(restoreUuid, backupId, works) =>
          var ok;
          ghost var writes;
          ok, writes := AcceptDelivery(restoreUuid, backupId, works, pc);
          RunAppend(start, events, Deliver(restoreUuid, backupId, writes, false));
          more := events + [Deliver(restoreUuid, backupId, writes, false)];
        case RetryCall =>
          Retry(pc);
          RunAppend(start, events, Event.Retry);
          more := events + [Event.Retry];
      }
    }

    /** What follows the loop: DONE once more, and out of maintenance. */
    method Finish(works: Effect -> bool, meanwhile: Pc -> seq<Call>, ghost start: State, ghost events: seq<Event>)
      returns (ok: bool, ghost more: seq<Event>)
      requires manifest.Some? && pipelineInFlight && Legal(start, events) && Run(start, events) == At(Finishing)
      modifies this`manifest, this`pipelineInFlight, dir
      ensures manifest.Some? && pipelineInFlight && Extends(events, more, Quiet(meanwhile)) && Legal(start, more)
      ensures Run(start, more) == if ok then At(Syncing) else Fail(At(Failing))
      ensures ok <==> works(RecordDone) && works(DropMarker)
      ensures Quiet(meanwhile) && ok ==>
                manifest == Some(old(manifest).value.(stage := DONE)) && !dir.marker && dir.manifest == manifest
    {
      more := Meanwhile(meanwhile, Finishing, start, events);
      manifest := Some(manifest.value.(stage := DONE));
      var written := WriteManifest(works(RecordDone));
      RunAppend(start, more, WriteDone(written));
      more := more + [WriteDone(written)];
      if !written {
        return false, more;
      }
      more := Meanwhile(meanwhile, Unmarking, start, more);
      ok := works(DropMarker);
      RunAppend(start, more, Event.RemoveMarker(ok));
      more := more + [Event.RemoveMarker(ok)];
      if ok {
        dir.marker := false;
      }
    }

    /** The outcome is mirrored in the database, whose failure is ignored; the pipeline is in flight until then. */
    method Sync(meanwhile: Pc -> seq<Call>, ghost start: State, ghost events: seq<Event>) returns (ghost more: seq<Event>)
      requires manifest.Some? && pipelineInFlight && Legal(start, events) && Run(start, events) == At(Syncing)
      modifies this`manifest, this`pipelineInFlight, dir
      ensures manifest.Some? && pipelineInFlight && Extends(events, more, Quiet(meanwhile)) && Legal(start, more)
      ensures Run(start, more) == At(Idle)
      ensures Quiet(meanwhile) ==> At(Idle) == old(At(Idle))
    {
      more := Meanwhile(meanwhile, Syncing, start, events);
      RunAppend(start, more, SyncEnds);
      more := more + [SyncEnds];
    }

    /** The `catch` block: maintenance goes on, with the error recorded if that can be written. */
    method RecordFailure(works: Effect -> bool, meanwhile: Pc -> seq<Call>, ghost start: State, ghost events: seq<Event>)
      returns (ghost more: seq<Event>)
      requires manifest.Some? && pipelineInFlight && Legal(start, events) && Run(start, events) == Fail(At(Failing))
      modifies this`manifest, this`pipelineInFlight, dir
      ensures manifest.Some? && pipelineInFlight && Extends(events, more, Quiet(meanwhile)) && Legal(start, more)
      ensures Run(start, more) == At(Idle)
      ensures Quiet(meanwhile) ==> manifest == Some(old(manifest).value.(error := true)) && dir.marker == old(dir.marker)
    {
      manifest := Some(manifest.value.(error := true));
      more := Meanwhile(meanwhile, Failing, start, events);
      var written := WriteManifest(works(RecordError));
      RunAppend(start, more, WriteError(written));
      more := more + [WriteError(written)];
      if written {
        more := Sync(meanwhile, start, more);
      }
    }

    /**
     * `runPipelineInner`, with shutdown requests at the stage boundaries and any deliveries and retries wherever the pipeline
     * stands: a legal run of the protocol that ends idle. It reaches its end exactly when nothing fails and no shutdown is
     * asked for, and without calls meanwhile it then finishes its restore.
     */
    method RunPipelineInner(works: Effect -> bool, shutdown: Stage -> bool, meanwhile: Pc -> seq<Call>)
      returns (ended: bool, ghost events: seq<Event>)
      requires manifest.Some? && pipelineInFlight
      modifies this, dir
      ensures pipelineInFlight
      ensures Extends([], events, Quiet(meanwhile)) && Legal(old(At(AtStage(Index(manifest.value.stage)))), events)
      ensures At(Idle) == Run(old(At(AtStage(Index(manifest.value.stage)))), events)
      ensures ended <==> !old(shuttingDown) && Undisturbed(works, shutdown, Index(old(manifest).value.stage))
      ensures ended && Quiet(meanwhile) ==> Finished(At(Idle), old(manifest).value)
    {
      var i := Index(manifest.value.stage);
      ghost var start := At(AtStage(i));
      events := [];
      while i < |STAGES|
        invariant i <= |STAGES| && manifest.Some? && pipelineInFlight
        invariant Extends([], events, Quiet(meanwhile)) && Legal(start, events)
        invariant Run(start, events) == At(if i == |STAGES| then Finishing else AtStage(i))
        invariant shuttingDown == old(shuttingDown) && (i == |STAGES| ==> !shuttingDown)
        invariant Quiet(meanwhile) ==> manifest.value.(stage := DONE, error := false) == old(manifest).value.(stage := DONE, error := false)
        invariant Quiet(meanwhile) && i == |STAGES| ==> !manifest.value.error
        invariant Undisturbed(works, shutdown, i) <==> Undisturbed(works, shutdown, Index(old(manifest).value.stage))
      {
        var outcome;
        outcome, events := RunStage(i, works, shutdown, meanwhile, start, events);
        if outcome.Stopped? {
          return false, events;
        }
        if outcome.Threw? {
          events := RecordFailure(works, meanwhile, start, events);
          return false, events;
        }
        i := i + 1;
      }
      ended, events := Finish(works, meanwhile, start, events);
      if ended {
        events := Sync(meanwhile, start, events);
      } else {
        events := RecordFailure(works, meanwhile, start, events);
      }
    }

    /** `runPipeline` as entered by a complete acceptance or a retry. */
    method RunPipeline(works: Effect -> bool, shutdown: Stage -> bool, meanwhile: Pc -> seq<Call>)
      returns (ended: bool, ghost events: seq<Event>)
      requires manifest.Some? && pipelineInFlight
      modifies this, dir
      ensures !pipelineInFlight
      ensures Extends([], events, Quiet(meanwhile)) && Legal(old(At(AtStage(Index(manifest.value.stage)))), events)
      ensures At(Idle) == Run(old(At(AtStage(Index(manifest.value.stage)))), events)
      ensures ended <==> !old(shuttingDown) && Undisturbed(works, shutdown, Index(old(manifest).value.stage))
      ensures ended && Quiet(meanwhile) ==> Finished(At(Idle), old(manifest).value)
    {
      ended, events := RunPipelineInner(works, shutdown, meanwhile);
      pipelineInFlight := false;
    }
  }
}
