/** Idempotent commits with concurrent calls and log retention (asset-operation-log.util.ts:117-280, log-retention-cleanup.processor.ts:53-92). */
module Idempotency {
  import opened Options
  import opened Seqs

  // The unique index over operator, system, scope and key of keyed rows is
  // apps/asset/prisma/migrations/20260809120000_add_operation_logs_idempotency_unique/migration.sql:2.

  /** An empty key is no key. The result stands for the JSON of the business result. */
  datatype Request = Request(operatorId: nat, scope: string, key: string, fingerprint: string)

  datatype LogRow = LogRow(
    operatorId: nat, actionType: string, createdAt: int,
    scope: Option<string>, key: Option<string>, fingerprint: Option<string>, result: Option<string>)

  datatype Reply = Result(value: string) | KeyReused | Rethrown

  /** What the business transaction does when its turn comes. `Duplicate`: it violates a unique index of its own. */
  datatype Outcome = Outcome(result: string, actionType: string) | Throws | Duplicate

  /** `Lost`: the process or the connection died and nobody learns of a reply. */
  datatype Pc = Prechecking | Committing | Conflicted | Replied(reply: Reply) | Lost

  datatype Call = Call(request: Request, pc: Pc)

  /** A committed business effect. */
  datatype Effect = Effect(call: nat, request: Request, result: string)

  /** `rows` is the log in id order; `effects` records what the business transactions committed. */
  datatype State = State(rows: seq<LogRow>, effects: seq<Effect>, calls: map<nat, Call>)

  const INITIAL := State([], [], map[])

  datatype Event =
    | Arrive(c: nat, request: Request, precheck: bool)
    | Precheck(c: nat)
    | Commit(c: nat, outcome: Outcome, now: int)
    | Lookup(c: nat)
    | Lose(c: nat)
    | Clean(actionType: string, cutoff: int, limit: nat)

  // ---------------------------------------------------------------- the log table

  predicate Matches(row: LogRow, r: Request) {
    row.operatorId == r.operatorId && row.scope == Some(r.scope) && row.key == Some(r.key)
  }

  /** `findIdempotencyRecord` */
  function FindRecord(rows: seq<LogRow>, r: Request): Option<LogRow> {
    if rows == [] then None else if Matches(rows[0], r) then Some(rows[0]) else FindRecord(rows[1..], r)
  }

  /** `replayIdempotencyRecord` */
  function Replay(row: LogRow, fingerprint: string): Reply {
    if row.fingerprint != Some(fingerprint) then KeyReused
    else if row.result.Some? then Result(row.result.value)
    else Rethrown
  }

  function RowFor(r: Request, outcome: Outcome, now: int): LogRow
    requires outcome.Outcome?
  {
    if r.key == "" then LogRow(r.operatorId, outcome.actionType, now, None, None, None, None)
    else LogRow(r.operatorId, outcome.actionType, now, Some(r.scope), Some(r.key), Some(r.fingerprint), Some(outcome.result))
  }

  predicate Expired(row: LogRow, actionType: string, cutoff: int) {
    row.actionType == actionType && row.createdAt < cutoff && row.key.None?
  }

  /** One batched DELETE: the first `limit` expired rows in id order go. */
  function DeleteBatch(rows: seq<LogRow>, actionType: string, cutoff: int, limit: nat): seq<LogRow>
    decreases |rows|
  {
    if rows == [] || limit == 0 then rows
    else if Expired(rows[0], actionType, cutoff) then DeleteBatch(rows[1..], actionType, cutoff, limit - 1)
    else [rows[0]] + DeleteBatch(rows[1..], actionType, cutoff, limit)
  }

  // ---------------------------------------------------------------- steps

  predicate At(s: State, c: nat, pc: Pc) {
    c in s.calls && s.calls[c].pc == pc
  }

  predicate Enabled(s: State, e: Event) {
    match e
    case Arrive(c, _, _) => c !in s.calls
    case Precheck(c) => At(s, c, Prechecking)
    case Commit(c, _, _) => At(s, c, Committing)
    case Lookup(c) => At(s, c, Conflicted)
    case Lose(c) => c in s.calls
    case Clean(_, _, _) => true
  }

  function MoveTo(s: State, c: nat, pc: Pc): State
    requires c in s.calls
  {
    s.(calls := s.calls[c := s.calls[c].(pc := pc)])
  }

  function Next(s: State, e: Event): State
    requires Enabled(s, e)
  {
    match e
    case Arrive(c, request, precheck) =>
      s.(calls := s.calls[c := Call(request, if precheck && request.key != "" then Prechecking else Committing)])
    case Precheck(c) =>
      var found := FindRecord(s.rows, s.calls[c].request);
      MoveTo(s, c, if found.Some? then Replied(Replay(found.value, s.calls[c].request.fingerprint)) else Committing)
    case Commit(c, outcome, now) =>
      var r := s.calls[c].request;
      if outcome.Throws? || (outcome.Duplicate? && r.key == "") then MoveTo(s, c, Replied(Rethrown))
      else if outcome.Duplicate? || (r.key != "" && FindRecord(s.rows, r).Some?) then MoveTo(s, c, Conflicted)
      else MoveTo(s, c, Replied(Result(outcome.result))).(
             rows := s.rows + [RowFor(r, outcome, now)], effects := s.effects + [Effect(c, r, outcome.result)])
    case Lookup(c) =>
      var found := FindRecord(s.rows, s.calls[c].request);
      MoveTo(s, c, Replied(if found.Some? then Replay(found.value, s.calls[c].request.fingerprint) else Rethrown))
    case Lose(c) => MoveTo(s, c, Lost)
    case Clean(actionType, cutoff, limit) => s.(rows := DeleteBatch(s.rows, actionType, cutoff, limit))
  }

  predicate Legal(s: State, events: seq<Event>)
    decreases |events|
  {
    events == [] || (Enabled(s, events[0]) && Legal(Next(s, events[0]), events[1..]))
  }

  function Run(s: State, events: seq<Event>): State
    requires Legal(s, events)
    decreases |events|
  {
    if events == [] then s else Run(Next(s, events[0]), events[1..])
  }

  // ---------------------------------------------------------------- the invariant

  /** What a keyed row and a keyed effect both say. */
  datatype Entry = Entry(request: Request, result: string)

  function EntryOf(row: LogRow): seq<Entry> {
    if row.key.Some? && row.scope.Some? && row.fingerprint.Some? && row.result.Some? then
      [Entry(Request(row.operatorId, row.scope.value, row.key.value, row.fingerprint.value), row.result.value)]
    else []
  }

  function RowEntries(rows: seq<LogRow>): seq<Entry> {
    if rows == [] then [] else EntryOf(rows[0]) + RowEntries(rows[1..])
  }

  function EffectEntries(effects: seq<Effect>): seq<Entry> {
    if effects == [] then []
    else (if effects[0].request.key == "" then [] else [Entry(effects[0].request, effects[0].result)]) + EffectEntries(effects[1..])
  }

  /** The same operator, scope and key. */
  predicate SameSlot(a: Request, b: Request) {
    a.operatorId == b.operatorId && a.scope == b.scope && a.key == b.key
  }

  predicate OneEntryPerSlot(entries: seq<Entry>) {
    forall i, j :: 0 <= i < j < |entries| ==> !SameSlot(entries[i].request, entries[j].request)
  }

  predicate RowsWhole(rows: seq<LogRow>) {
    forall row :: row in rows && row.key.Some? ==> row.key.value != "" && EntryOf(row) != []
  }

  ghost predicate CallOk(s: State, call: Call) {
    if call.request.key == "" then !call.pc.Prechecking? && !call.pc.Conflicted?
    else
      && (call.pc.Replied? && call.pc.reply.Result? ==> Entry(call.request, call.pc.reply.value) in EffectEntries(s.effects))
      && (call.pc == Replied(KeyReused) ==>
            exists e :: e in EffectEntries(s.effects) && SameSlot(e.request, call.request) && e.request.fingerprint != call.request.fingerprint)
  }

  ghost predicate CallsOk(s: State) {
    forall c :: c in s.calls ==> CallOk(s, s.calls[c])
  }

  ghost predicate Inv(s: State) {
    && RowsWhole(s.rows) && RowEntries(s.rows) == EffectEntries(s.effects) && OneEntryPerSlot(RowEntries(s.rows)) && CallsOk(s)
  }

  // ---------------------------------------------------------------- the log and its entries

  lemma {:induction false} RowEntriesAppend(rows: seq<LogRow>, row: LogRow)
    ensures RowEntries(rows + [row]) == RowEntries(rows) + EntryOf(row)
  {
    if rows == [] {
      assert rows + [row] == [row];
    } else {
      ConcatHead(rows, [row]);
      RowEntriesAppend(rows[1..], row);
    }
  }

  lemma {:induction false} EffectEntriesAppend(effects: seq<Effect>, e: Effect)
    ensures EffectEntries(effects + [e]) == EffectEntries(effects) + if e.request.key == "" then [] else [Entry(e.request, e.result)]
  {
    if effects == [] {
      assert effects + [e] == [e];
    } else {
      ConcatHead(effects, [e]);
      EffectEntriesAppend(effects[1..], e);
    }
  }

  /** A record is found exactly when an entry for the slot exists, and it carries that entry. */
  lemma {:induction false} FoundIsEntry(rows: seq<LogRow>, r: Request)
    requires RowsWhole(rows)
    ensures var found := FindRecord(rows, r);
      && (found.None? <==> forall e :: e in RowEntries(rows) ==> !SameSlot(e.request, r))
      && (found.Some? ==> EntryOf(found.value) != [] && EntryOf(found.value)[0] in RowEntries(rows) && SameSlot(EntryOf(found.value)[0].request, r))
  {
    if rows != [] {
      assert rows[0] in rows;
      FoundIsEntry(rows[1..], r);
      var first := EntryOf(rows[0]);
      assert forall e :: e in RowEntries(rows) <==> e in first || e in RowEntries(rows[1..]);
    }
  }

  lemma {:induction false} CleaningKeepsMembers(rows: seq<LogRow>, actionType: string, cutoff: int, limit: nat)
    ensures forall row :: row in DeleteBatch(rows, actionType, cutoff, limit) ==> row in rows
    decreases |rows|
  {
    if rows != [] && limit != 0 {
      if Expired(rows[0], actionType, cutoff) {
        CleaningKeepsMembers(rows[1..], actionType, cutoff, limit - 1);
      } else {
        CleaningKeepsMembers(rows[1..], actionType, cutoff, limit);
      }
    }
  }

  /** Retention never takes a keyed row away. */
  lemma {:induction false} CleaningKeepsEntries(rows: seq<LogRow>, actionType: string, cutoff: int, limit: nat)
    ensures RowEntries(DeleteBatch(rows, actionType, cutoff, limit)) == RowEntries(rows)
    decreases |rows|
  {
    if rows != [] && limit != 0 {
      if Expired(rows[0], actionType, cutoff) {
        CleaningKeepsEntries(rows[1..], actionType, cutoff, limit - 1);
        assert EntryOf(rows[0]) == [];
      } else {
        var rest := DeleteBatch(rows[1..], actionType, cutoff, limit);
        CleaningKeepsEntries(rows[1..], actionType, cutoff, limit);
        RowEntriesCons(rows[0], rest);
      }
    }
  }

  lemma RowEntriesCons(row: LogRow, rows: seq<LogRow>)
    ensures RowEntries([row] + rows) == EntryOf(row) + RowEntries(rows)
  {
    assert ([row] + rows)[1..] == rows;
  }

  // ---------------------------------------------------------------- every step keeps it

  /** What a reply from a found record means. */
  lemma ReplayOk(s: State, r: Request)
    requires Inv(s) && r.key != "" && FindRecord(s.rows, r).Some?
    ensures CallOk(s, Call(r, Replied(Replay(FindRecord(s.rows, r).value, r.fingerprint))))
  {
    FoundIsEntry(s.rows, r);
    var e := EntryOf(FindRecord(s.rows, r).value)[0];
    assert e in EffectEntries(s.effects) && SameSlot(e.request, r);
  }

  lemma MoreEntriesKeep(s: State, next: State, call: Call)
    requires CallOk(s, call) && EffectEntries(s.effects) <= EffectEntries(next.effects)
    ensures CallOk(next, call)
  {
    assert forall e :: e in EffectEntries(s.effects) ==> e in EffectEntries(next.effects);
  }

  /** A commit adds its entry to the effects and to the log. */
  lemma CommitAddsEntry(s: State, c: nat, outcome: Outcome, now: int)
    requires Enabled(s, Commit(c, outcome, now)) && outcome.Outcome?
    requires var r := s.calls[c].request; r.key == "" || FindRecord(s.rows, r).None?
    ensures var r, next := s.calls[c].request, Next(s, Commit(c, outcome, now));
      var added := if r.key == "" then [] else [Entry(r, outcome.result)];
      && EffectEntries(next.effects) == EffectEntries(s.effects) + added
      && RowEntries(next.rows) == RowEntries(s.rows) + added
  {
    var r := s.calls[c].request;
    RowEntriesAppend(s.rows, RowFor(r, outcome, now));
    EffectEntriesAppend(s.effects, Effect(c, r, outcome.result));
  }

  lemma CommitKeeps(s: State, c: nat, outcome: Outcome, now: int)
    requires Inv(s) && At(s, c, Committing) && outcome.Outcome?
    requires var r := s.calls[c].request; r.key == "" || FindRecord(s.rows, r).None?
    ensures Inv(Next(s, Commit(c, outcome, now)))
  {
    var r := s.calls[c].request;
    var next := Next(s, Commit(c, outcome, now));
    CommitAddsEntry(s, c, outcome, now);
    FoundIsEntry(s.rows, r);
    forall d | d in next.calls ensures CallOk(next, next.calls[d]) {
      if d != c {
        MoreEntriesKeep(s, next, s.calls[d]);
      }
    }
  }

  lemma SameEffectsKeep(s: State, next: State)
    requires Inv(s) && next.effects == s.effects && RowsWhole(next.rows) && RowEntries(next.rows) == RowEntries(s.rows)
    requires forall c :: c in next.calls ==> (c in s.calls && next.calls[c] == s.calls[c]) || CallOk(s, next.calls[c])
    ensures Inv(next)
  {
    forall c | c in next.calls ensures CallOk(next, next.calls[c]) {
      assert CallOk(s, next.calls[c]);
    }
  }

  lemma LookKeeps(s: State, e: Event)
    requires Inv(s) && Enabled(s, e) && (e.Precheck? || e.Lookup?)
    ensures Inv(Next(s, e))
  {
    var call := s.calls[e.c];
    assert CallOk(s, call);
    if FindRecord(s.rows, call.request).Some? {
      ReplayOk(s, call.request);
    }
    SameEffectsKeep(s, Next(s, e));
  }

  lemma StepKeeps(s: State, e: Event)
    requires Inv(s) && Enabled(s, e)
    ensures Inv(Next(s, e))
  {
    match e
    case Commit(c, outcome, now) =>
      assert CallOk(s, s.calls[c]);
      var r := s.calls[c].request;
      if outcome.Outcome? && (r.key == "" || FindRecord(s.rows, r).None?) {
        CommitKeeps(s, c, outcome, now);
      } else {
        SameEffectsKeep(s, Next(s, e));
      }
    case Clean(actionType, cutoff, limit) =>
      CleaningKeepsEntries(s.rows, actionType, cutoff, limit);
      CleaningKeepsMembers(s.rows, actionType, cutoff, limit);
      SameEffectsKeep(s, Next(s, e));
    case Precheck(_) => LookKeeps(s, e);
    case Lookup(_) => LookKeeps(s, e);
    case Arrive(_, _, _) => SameEffectsKeep(s, Next(s, e));
    case Lose(_) => SameEffectsKeep(s, Next(s, e));
  }

  lemma {:induction false} RunKeeps(s: State, events: seq<Event>)
    requires Inv(s) && Legal(s, events)
    ensures Inv(Run(s, events))
    decreases |events|
  {
    if events != [] {
      StepKeeps(s, events[0]);
      RunKeeps(Next(s, events[0]), events[1..]);
    }
  }

  // ---------------------------------------------------------------- main results

  /** How many committed effects belong to the operator, scope and key of `r`. */
  function CountSlot(effects: seq<Effect>, r: Request): nat {
    if effects == [] then 0 else (if SameSlot(effects[0].request, r) then 1 else 0) + CountSlot(effects[1..], r)
  }

  lemma {:induction false} NoEntryNoEffect(effects: seq<Effect>, r: Request)
    requires r.key != "" && forall e :: e in EffectEntries(effects) ==> !SameSlot(e.request, r)
    ensures CountSlot(effects, r) == 0
  {
    if effects != [] {
      var first := Entry(effects[0].request, effects[0].result);
      if effects[0].request.key != "" {
        assert first in EffectEntries(effects);
      }
      NoEntryNoEffect(effects[1..], r);
    }
  }

  lemma {:induction false} DistinctMeansOne(effects: seq<Effect>, r: Request)
    requires r.key != "" && OneEntryPerSlot(EffectEntries(effects))
    ensures CountSlot(effects, r) <= 1
  {
    if effects != [] {
      var rest := EffectEntries(effects[1..]);
      if effects[0].request.key == "" {
        assert EffectEntries(effects) == rest;
        DistinctMeansOne(effects[1..], r);
      } else {
        var all := EffectEntries(effects);
        assert all[0] == Entry(effects[0].request, effects[0].result) && all[1..] == rest;
        assert OneEntryPerSlot(rest) by {
          forall i, j | 0 <= i < j < |rest| ensures !SameSlot(rest[i].request, rest[j].request) {
            assert rest[i] == all[i + 1] && rest[j] == all[j + 1];
          }
        }
        DistinctMeansOne(effects[1..], r);
        if SameSlot(effects[0].request, r) {
          forall e | e in rest ensures !SameSlot(e.request, r) {
            var j :| 0 <= j < |rest| && rest[j] == e;
            assert e == all[j + 1];
          }
          NoEntryNoEffect(effects[1..], r);
        }
      }
    }
  }

  lemma {:induction false} EntryIsEffect(effects: seq<Effect>, e: Entry) returns (i: nat)
    requires e in EffectEntries(effects)
    ensures i < |effects| && effects[i].request == e.request && effects[i].result == e.result && e.request.key != ""
  {
    if effects[0].request.key != "" && e == Entry(effects[0].request, effects[0].result) {
      i := 0;
    } else {
      var j := EntryIsEffect(effects[1..], e);
      i := j + 1;
    }
  }

  lemma {:induction false} EffectIsEntry(effects: seq<Effect>, i: nat)
    requires i < |effects| && effects[i].request.key != ""
    ensures Entry(effects[i].request, effects[i].result) in EffectEntries(effects)
  {
    if i > 0 {
      EffectIsEntry(effects[1..], i - 1);
    }
  }

  lemma InitialOk()
    ensures Inv(INITIAL)
  {
  }

  /** However calls, retries, losses and cleanups interleave, a key commits at most one business effect. */
  lemma OneEffectPerKey(events: seq<Event>, r: Request)
    requires Legal(INITIAL, events) && r.key != ""
    ensures CountSlot(Run(INITIAL, events).effects, r) <= 1
  {
    InitialOk();
    RunKeeps(INITIAL, events);
    DistinctMeansOne(Run(INITIAL, events).effects, r);
  }

  lemma SlotFixesEffect(s: State, i: nat, r: Request, result: string)
    requires Inv(s) && i < |s.effects| && r.key != "" && SameSlot(s.effects[i].request, r)
    requires Entry(r, result) in EffectEntries(s.effects)
    ensures r == s.effects[i].request && result == s.effects[i].result
  {
    EffectIsEntry(s.effects, i);
  }

  /**
   * Once an effect is committed for a key, every call under it that has returned a result has the committed effect's
   * fingerprint and returned its result; and a call is refused only if its fingerprint is another one.
   */
  lemma RepliesCarryTheFirstResult(events: seq<Event>, c: nat, i: nat)
    requires Legal(INITIAL, events)
    requires var s := Run(INITIAL, events);
      c in s.calls && i < |s.effects| && s.calls[c].request.key != "" && SameSlot(s.effects[i].request, s.calls[c].request)
    ensures var s := Run(INITIAL, events); var call := s.calls[c];
      && (call.pc.Replied? && call.pc.reply.Result? ==>
            call.pc.reply.value == s.effects[i].result && call.request.fingerprint == s.effects[i].request.fingerprint)
      && (call.pc == Replied(KeyReused) ==> call.request.fingerprint != s.effects[i].request.fingerprint)
  {
    InitialOk();
    RunKeeps(INITIAL, events);
    var s := Run(INITIAL, events);
    var call := s.calls[c];
    assert CallOk(s, call);
    if call.pc.Replied? && call.pc.reply.Result? {
      SlotFixesEffect(s, i, call.request, call.pc.reply.value);
    }
    if call.pc == Replied(KeyReused) {
      var e :| e in EffectEntries(s.effects) && SameSlot(e.request, call.request) && e.request.fingerprint != call.request.fingerprint;
      SlotFixesEffect(s, i, e.request, e.result);
    }
  }

  /** A result is never returned under a key before an effect is committed for it. */
  lemma NoResultWithoutAnEffect(events: seq<Event>, c: nat)
    requires Legal(INITIAL, events)
    requires var s := Run(INITIAL, events); c in s.calls && s.calls[c].request.key != "" && s.calls[c].pc.Replied? && s.calls[c].pc.reply.Result?
    ensures var s := Run(INITIAL, events);
      exists i :: 0 <= i < |s.effects| && s.effects[i].request == s.calls[c].request && s.effects[i].result == s.calls[c].pc.reply.value
  {
    InitialOk();
    RunKeeps(INITIAL, events);
    var s := Run(INITIAL, events);
    assert CallOk(s, s.calls[c]);
    var i := EntryIsEffect(s.effects, Entry(s.calls[c].request, s.calls[c].pc.reply.value));
    assert s.effects[i].request == s.calls[c].request;
  }

  /** What a later call gets once the effect is committed: the first result for the same fingerprint, a refusal for another. */
  function Answer(first: Effect, r: Request): Reply {
    if r.fingerprint == first.request.fingerprint then Result(first.result) else KeyReused
  }

  /** The record of a committed key is found after any cleanup, and answers as the first effect says. */
  lemma RecordAnswers(s: State, i: nat, r: Request)
    requires Inv(s) && i < |s.effects| && r.key != "" && SameSlot(s.effects[i].request, r)
    ensures var found := FindRecord(s.rows, r); found.Some? && Replay(found.value, r.fingerprint) == Answer(s.effects[i], r)
  {
    EffectIsEntry(s.effects, i);
    FoundIsEntry(s.rows, r);
    var e := EntryOf(FindRecord(s.rows, r).value)[0];
    SlotFixesEffect(s, i, e.request, e.result);
  }

  /** Every way for a later call to end without a loss or a business error gives that answer and leaves the effects alone. */
  lemma LaterCallsAreAnswered(s: State, i: nat, c: nat, outcome: Outcome, now: int)
    requires Inv(s) && i < |s.effects| && c in s.calls && s.calls[c].request.key != "" && SameSlot(s.effects[i].request, s.calls[c].request)
    ensures At(s, c, Prechecking) ==> Next(s, Precheck(c)).calls[c].pc == Replied(Answer(s.effects[i], s.calls[c].request))
    ensures At(s, c, Committing) ==>
              var next := Next(s, Commit(c, outcome, now));
              next.effects == s.effects && next.rows == s.rows && next.calls[c].pc == if outcome.Throws? then Replied(Rethrown) else Conflicted
    ensures At(s, c, Conflicted) ==> Next(s, Lookup(c)).calls[c].pc == Replied(Answer(s.effects[i], s.calls[c].request))
  {
    RecordAnswers(s, i, s.calls[c].request);
  }

  // ---------------------------------------------------------------- one call, one effect

  /** Effects belong to calls that have committed, with what those replied. */
  ghost predicate Owned(s: State) {
    && (forall e :: e in s.effects ==>
          && e.call in s.calls && s.calls[e.call].request == e.request
          && (s.calls[e.call].pc == Lost || s.calls[e.call].pc == Replied(Result(e.result))))
    && (forall i, j :: 0 <= i < j < |s.effects| ==> s.effects[i].call != s.effects[j].call)
    && (forall c :: c in s.calls && s.calls[c].request.key == "" ==>
          !s.calls[c].pc.Prechecking? && !s.calls[c].pc.Conflicted?
          && (s.calls[c].pc.Replied? && s.calls[c].pc.reply.Result? ==> Effect(c, s.calls[c].request, s.calls[c].pc.reply.value) in s.effects))
  }

  /** Even without a key a call commits once at most, and a result it returned is the one it committed. */
  lemma {:induction false} EachCallCommitsOnce(s: State, events: seq<Event>)
    requires Owned(s) && Legal(s, events)
    ensures Owned(Run(s, events))
    decreases |events|
  {
    if events != [] {
      EachCallCommitsOnce(Next(s, events[0]), events[1..]);
    }
  }
}
