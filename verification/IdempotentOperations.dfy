/** The same protocol as the calls the program makes on its log table, and retention as its loop of batches. */
module IdempotentOperations {
  import opened Options
  import opened Idempotency

  const BATCH_SIZE: nat := 5000
  const DAY: int := 24 * 60 * 60 * 1000
  const OPERATION_LOG_ACTION_TYPES: seq<string> := ["CREATE", "UPDATE", "DELETE", "EXPORT", "QUERY"]

  // ---------------------------------------------------------------- retention

  /** The rows left when every expired row of one action type is gone. */
  function Unexpired(rows: seq<LogRow>, actionType: string, cutoff: int): seq<LogRow> {
    if rows == [] then []
    else (if Expired(rows[0], actionType, cutoff) then [] else [rows[0]]) + Unexpired(rows[1..], actionType, cutoff)
  }

  lemma {:induction false} RunConcat(s: State, a: seq<Event>, b: seq<Event>)
    requires Legal(s, a) && Legal(Run(s, a), b)
    ensures Legal(s, a + b) && Run(s, a + b) == Run(Run(s, a), b)
    decreases |a|
  {
    if a == [] {
      assert a + b == b;
    } else {
      assert (a + b)[1..] == a[1..] + b;
      RunConcat(Next(s, a[0]), a[1..], b);
    }
  }

  lemma RunAppend(s: State, events: seq<Event>, e: Event)
    requires Legal(s, events) && Enabled(Run(s, events), e)
    ensures Legal(s, events + [e]) && Run(s, events + [e]) == Next(Run(s, events), e)
  {
    assert [e][1..] == [];
    RunConcat(s, events, [e]);
  }

  /** A batch deletes at most its limit, and only what the whole cleanup would; less than the limit means nothing is left to do. */
  lemma {:induction false} BatchMeaning(rows: seq<LogRow>, actionType: string, cutoff: int, limit: nat)
    ensures var kept := DeleteBatch(rows, actionType, cutoff, limit);
      && |rows| - limit <= |kept| <= |rows|
      && Unexpired(kept, actionType, cutoff) == Unexpired(rows, actionType, cutoff)
      && (|rows| - |kept| < limit ==> kept == Unexpired(rows, actionType, cutoff))
    decreases |rows|
  {
    if rows != [] && limit != 0 {
      if Expired(rows[0], actionType, cutoff) {
        BatchMeaning(rows[1..], actionType, cutoff, limit - 1);
      } else {
        BatchMeaning(rows[1..], actionType, cutoff, limit);
        var rest := DeleteBatch(rows[1..], actionType, cutoff, limit);
        assert ([rows[0]] + rest)[1..] == rest;
      }
    }
  }

  /** 0: never; a positive number of days; anything else inherits the common setting, which cleans only if positive. */
  function ResolveOperationLogDays(actionSetting: int, defaultSetting: int): Option<int> {
    if actionSetting == 0 then None
    else
      var effective := if actionSetting > 0 then actionSetting else defaultSetting;
      if effective > 0 then Some(effective) else None
  }

  /** The settings after parsing: one for each action type, and the common one. */
  datatype Settings = Settings(action: map<string, int>, common: Option<int>)

  function DaysFor(settings: Settings, actionType: string): Option<int> {
    ResolveOperationLogDays(if actionType in settings.action then settings.action[actionType] else -1, settings.common.GetOr(365))
  }

  /** A row goes when it is older than its own action type's policy allows and is not an idempotency record. */
  predicate Outlived(row: LogRow, settings: Settings, now: int, actionTypes: seq<string>) {
    && row.actionType in actionTypes && DaysFor(settings, row.actionType).Some?
    && Expired(row, row.actionType, now - DaysFor(settings, row.actionType).value * DAY)
  }

  function Retained(rows: seq<LogRow>, settings: Settings, now: int, actionTypes: seq<string>): seq<LogRow> {
    if rows == [] then []
    else (if Outlived(rows[0], settings, now, actionTypes) then [] else [rows[0]]) + Retained(rows[1..], settings, now, actionTypes)
  }

  /**
   * The policy in the columns of the table and the settings: the row carries no idempotency key, its action type is
   * cleaned, and it is older than its own number of days, or, if that is negative or not set, than the common number, 365
   * unless set; zero days for the action, and no positive number in the end, mean never.
   */
  ghost predicate PolicyEnds(row: LogRow, settings: Settings, now: int) {
    && row.key.None? && row.actionType in ["CREATE", "UPDATE", "DELETE", "EXPORT", "QUERY"]
    && var own := if row.actionType in settings.action then settings.action[row.actionType] else -1;
    var common := match settings.common case Some(days) => days case None => 365;
    || (own > 0 && row.createdAt < now - own * 86_400_000)
    || (own < 0 && common > 0 && row.createdAt < now - common * 86_400_000)
  }

  lemma OutlivedMeaning(row: LogRow, settings: Settings, now: int)
    ensures Outlived(row, settings, now, OPERATION_LOG_ACTION_TYPES) <==> PolicyEnds(row, settings, now)
  {
  }

  /** The cleanup takes exactly the rows whose policy ends, and leaves the others in order. */
  lemma {:induction false} RetentionMeaning(rows: seq<LogRow>, settings: Settings, now: int)
    ensures var kept := Retained(rows, settings, now, OPERATION_LOG_ACTION_TYPES);
      && (forall row :: row in kept <==> row in rows && !PolicyEnds(row, settings, now))
      && (rows != [] ==>
            kept == (if PolicyEnds(rows[0], settings, now) then [] else [rows[0]])
                    + Retained(rows[1..], settings, now, OPERATION_LOG_ACTION_TYPES))
  {
    if rows != [] {
      OutlivedMeaning(rows[0], settings, now);
      RetentionMeaning(rows[1..], settings, now);
      assert rows == [rows[0]] + rows[1..];
    }
  }

  lemma {:induction false} RetainedNone(rows: seq<LogRow>, settings: Settings, now: int)
    ensures Retained(rows, settings, now, []) == rows
  {
    if rows != [] {
      RetainedNone(rows[1..], settings, now);
    }
  }

  /** Cleaning one more action type. */
  lemma {:induction false} RetainedOneMore(rows: seq<LogRow>, settings: Settings, now: int, done: seq<string>, actionType: string)
    ensures var before := Retained(rows, settings, now, done);
      Retained(rows, settings, now, done + [actionType])
      == match DaysFor(settings, actionType) {
           case None => before
           case Some(days) => Unexpired(before, actionType, now - days * DAY)
         }
  {
    if rows != [] {
      RetainedOneMore(rows[1..], settings, now, done, actionType);
      var row, rest := rows[0], Retained(rows[1..], settings, now, done);
      assert row.actionType in done + [actionType] <==> row.actionType in done || row.actionType == actionType;
      if Outlived(row, settings, now, done) {
        assert Retained(rows, settings, now, done) == rest;
      } else {
        assert Retained(rows, settings, now, done) == [row] + rest && ([row] + rest)[1..] == rest;
      }
    }
  }

  /** No setting makes a retried request run again: the record of every key answers after a cleanup as it did before. */
  lemma {:induction false} RetentionKeepsRecords(rows: seq<LogRow>, settings: Settings, now: int, actionTypes: seq<string>, r: Request)
    ensures FindRecord(Retained(rows, settings, now, actionTypes), r) == FindRecord(rows, r)
  {
    if rows != [] {
      RetentionKeepsRecords(rows[1..], settings, now, actionTypes, r);
      var rest := Retained(rows[1..], settings, now, actionTypes);
      if Outlived(rows[0], settings, now, actionTypes) {
        assert Retained(rows, settings, now, actionTypes) == rest && !Matches(rows[0], r);
      } else {
        assert Retained(rows, settings, now, actionTypes) == [rows[0]] + rest && ([rows[0]] + rest)[1..] == rest;
      }
    }
  }

  // ---------------------------------------------------------------- the table

  datatype TransactionResult = Committed(value: string) | UniqueViolation | Failed

  class OperationLog {
    var rows: seq<LogRow>
    ghost var effects: seq<Effect>
    ghost var calls: map<nat, Call>

    ghost function Now(): State
      reads this
    {
      State(rows, effects, calls)
    }

    constructor ()
      ensures Now() == INITIAL
    {
      rows, effects, calls := [], [], map[];
    }

    /** The business transaction: the business writes and the log row commit together or not at all. */
    method Transact(ghost c: nat, r: Request, outcome: Outcome, now: int) returns (result: TransactionResult)
      requires At(Now(), c, Committing) && calls[c].request == r
      modifies this`rows, this`effects
      ensures var next := Next(old(Now()), Commit(c, outcome, now)); rows == next.rows && effects == next.effects && calls == old(calls)
      ensures Next(old(Now()), Commit(c, outcome, now)).calls[c].pc ==
                match result {
                  case Committed(v) => Replied(Result(v))
                  case UniqueViolation => if r.key == "" then Replied(Rethrown) else Conflicted
                  case Failed => Replied(Rethrown)
                }
    {
      if outcome.Throws? {
        return Failed;
      }
      if outcome.Duplicate? || (r.key != "" && FindRecord(rows, r).Some?) {
        return UniqueViolation;
      }
      rows := rows + [RowFor(r, outcome, now)];
      effects := effects + [Effect(c, r, outcome.result)];
      result := Committed(outcome.result);
    }

    /** `commitIdempotentOperation` for a call that nothing interrupts. */
    method CommitIdempotentOperation(ghost c: nat, r: Request, outcome: Outcome, now: int) returns (reply: Reply)
      requires At(Now(), c, Committing) && calls[c].request == r
      modifies this
      ensures At(Now(), c, Replied(reply))
      ensures var committed := Next(old(Now()), Commit(c, outcome, now));
        Now() == if At(committed, c, Conflicted) then Next(committed, Lookup(c)) else committed
    {
      var result := Transact(c, r, outcome, now);
      calls := Next(old(Now()), Commit(c, outcome, now)).calls;
      match result {
        case Committed(value) => return Result(value);
        case Failed => return Rethrown;
        case UniqueViolation =>
      }
      if r.key == "" {
        return Rethrown;
      }
      var concurrent := FindRecord(rows, r);
      reply := if concurrent.Some? then Replay(concurrent.value, r.fingerprint) else Rethrown;
      calls := calls[c := calls[c].(pc := Replied(reply))];
    }

    /** `executeIdempotentOperation`: a replay found before the transaction spares it. */
    method ExecuteIdempotentOperation(ghost c: nat, r: Request, outcome: Outcome, now: int) returns (reply: Reply)
      requires c !in calls
      modifies this
      ensures At(Now(), c, Replied(reply)) && calls[c].request == r
      ensures var arrived := Next(old(Now()), Arrive(c, r, true));
        var looked := if At(arrived, c, Prechecking) then Next(arrived, Precheck(c)) else arrived;
        var committed := if At(looked, c, Committing) then Next(looked, Commit(c, outcome, now)) else looked;
        Now() == if At(committed, c, Conflicted) then Next(committed, Lookup(c)) else committed
    {
      calls := calls[c := Call(r, if r.key != "" then Prechecking else Committing)];
      if r.key != "" {
        var existing := FindRecord(rows, r);
        if existing.Some? {
          reply := Replay(existing.value, r.fingerprint);
          calls := calls[c := Call(r, Replied(reply))];
          return;
        }
        calls := calls[c := Call(r, Committing)];
      }
      reply := CommitIdempotentOperation(c, r, outcome, now);
    }

    /** `deleteExpiredOperationLogs`: batches until one is not full. */
    method DeleteExpiredOperationLogs(actionType: string, cutoff: int) returns (total: nat, ghost batches: seq<Event>)
      modifies this`rows
      ensures rows == Unexpired(old(rows), actionType, cutoff) && total == |old(rows)| - |rows|
      ensures forall e :: e in batches ==> e == Clean(actionType, cutoff, 5000)
      ensures Legal(old(Now()), batches) && Now() == Run(old(Now()), batches)
    {
      total, batches := 0, [];
      while true
        invariant Unexpired(rows, actionType, cutoff) == Unexpired(old(rows), actionType, cutoff)
        invariant total == |old(rows)| - |rows|
        invariant forall e :: e in batches ==> e == Clean(actionType, cutoff, 5000)
        invariant Legal(old(Now()), batches) && Now() == Run(old(Now()), batches)
        decreases |rows|
      {
        RunAppend(old(Now()), batches, Clean(actionType, cutoff, BATCH_SIZE));
        batches := batches + [Clean(actionType, cutoff, BATCH_SIZE)];
        BatchMeaning(rows, actionType, cutoff, BATCH_SIZE);
        var kept := DeleteBatch(rows, actionType, cutoff, BATCH_SIZE);
        var deleted := |rows| - |kept|;
        rows := kept;
        total := total + deleted;
        if deleted < BATCH_SIZE {
          break;
        }
      }
    }

    /** One schema's turn of `processLogRetentionCleanup`. */
    method CleanOperationLogs(settings: Settings, now: int) returns (total: nat, ghost batches: seq<Event>)
      modifies this`rows
      ensures rows == Retained(old(rows), settings, now, OPERATION_LOG_ACTION_TYPES) && total == |old(rows)| - |rows|
      ensures forall row :: row in rows <==> row in old(rows) && !PolicyEnds(row, settings, now)
      ensures (forall e :: e in batches ==> e.Clean?) && Legal(old(Now()), batches) && Now() == Run(old(Now()), batches)
    {
      total, batches := 0, [];
      RetentionMeaning(rows, settings, now);
      RetainedNone(rows, settings, now);
      for i := 0 to |OPERATION_LOG_ACTION_TYPES|
        invariant rows == Retained(old(rows), settings, now, OPERATION_LOG_ACTION_TYPES[..i])
        invariant total == |old(rows)| - |rows|
        invariant (forall e :: e in batches ==> e.Clean?) && Legal(old(Now()), batches) && Now() == Run(old(Now()), batches)
      {
        var actionType := OPERATION_LOG_ACTION_TYPES[i];
        RetainedOneMore(old(rows), settings, now, OPERATION_LOG_ACTION_TYPES[..i], actionType);
        assert OPERATION_LOG_ACTION_TYPES[..i + 1] == OPERATION_LOG_ACTION_TYPES[..i] + [actionType];
        var days := DaysFor(settings, actionType);
        if days.Some? {
          var deleted;
          ghost var more;
          deleted, more := DeleteExpiredOperationLogs(actionType, now - days.value * DAY);
          RunConcat(old(Now()), batches, more);
          total, batches := total + deleted, batches + more;
        }
      }
      assert OPERATION_LOG_ACTION_TYPES[..|OPERATION_LOG_ACTION_TYPES|] == OPERATION_LOG_ACTION_TYPES;
    }
  }
}
