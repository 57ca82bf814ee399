/** The scan over one schema's tables: list what is overdue, cancel it row by row, release what it reserved (timeout.ts:15-169, approval-timeout.asset-release.ts:28-77). */
module ApprovalScan {
  import opened Options
  import opened Sorting
  import opened ApprovalTimeout

  const APPROVAL_TIMEOUT_BATCH_SIZE: nat := 200
  const DAY: int := 24 * 60 * 60 * 1000

  datatype OverdueRow = OverdueRow(id: nat, version: nat, submittedAt: int)

  /** `None` is a setting that is not a finite number. */
  function OverdueCutoff(now: int, timeoutDays: Option<real>): int {
    now - (if timeoutDays.Some? && timeoutDays.value >= 1.0 then timeoutDays.value.Floor else 30) * DAY
  }

  predicate IsOverdue(s: State, id: nat, cutoff: int) {
    id in s.heads && s.heads[id].status == PENDING && s.heads[id].submittedAt.Some? && s.heads[id].submittedAt.value < cutoff
  }

  /** The overdue rows in table order. */
  function Overdue(s: State, order: seq<nat>, cutoff: int): (rows: seq<OverdueRow>)
    ensures forall row :: row in rows ==> row.id in order && IsOverdue(s, row.id, cutoff) && Matches(s, row.id, row.version)
  {
    if order == [] then []
    else
      (if IsOverdue(s, order[0], cutoff) then [OverdueRow(order[0], s.heads[order[0]].version, s.heads[order[0]].submittedAt.value)] else [])
      + Overdue(s, order[1..], cutoff)
  }

  function Older(): (OverdueRow, OverdueRow) -> bool {
    (a: OverdueRow, b: OverdueRow) => a.submittedAt <= b.submittedAt
  }

  /** `ORDER BY submitted_at LIMIT limit` */
  function Listing(s: State, order: seq<nat>, cutoff: int, limit: nat): seq<OverdueRow> {
    var rows := Sort(Overdue(s, order, cutoff), Older());
    if |rows| <= limit then rows else rows[..limit]
  }

  predicate DistinctIds(rows: seq<OverdueRow>) {
    forall i, j :: 0 <= i < j < |rows| ==> rows[i].id != rows[j].id
  }

  predicate NoRepeats(order: seq<nat>) {
    forall i, j :: 0 <= i < j < |order| ==> order[i] != order[j]
  }

  /** What people do before the given row of a scan is handled, seeing the tables as they are then. */
  type Others = (nat, State) -> seq<Event>

  /** They keep the rules; scans are not among them. */
  ghost predicate Lawful(others: Others) {
    && (forall moment, s :: Legal(s, others(moment, s)))
    && (forall moment, s, e :: e in others(moment, s) ==> !e.Scan?)
  }

  function Nobody(): Others {
    (moment: nat, s: State) => []
  }

  /** Where the connection breaks while the given row is handled; `STATEMENTS` is nowhere. */
  type Stops = nat -> nat

  function Nowhere(): Stops {
    (moment: nat) => STATEMENTS
  }

  /** Cancelling the listed rows one after the other, among other people; a failure ends the scan. */
  function ScanRows(s: State, rows: seq<OverdueRow>, transactional: bool, others: Others, stops: Stops, moment: nat): (State, Option<nat>)
    requires Lawful(others)
    decreases |rows|
  {
    if rows == [] then (s, Some(0))
    else
      var (next, outcome) := AutoCancel(Run(s, others(moment, s)), rows[0].id, rows[0].version, transactional, stops(moment));
      if outcome.Threw? then (next, None)
      else
        var (last, count) := ScanRows(next, rows[1..], transactional, others, stops, moment + 1);
        Counted(if outcome.Cancelled? then 1 else 0, (last, count))
  }

  /** The result of a scan that has already cancelled some. */
  function Counted(earlier: nat, later: (State, Option<nat>)): (State, Option<nat>) {
    (later.0, if later.1.None? then None else Some(earlier + later.1.value))
  }

  lemma CountedTwice(earlier: nat, one: nat, middle: (State, Option<nat>), later: (State, Option<nat>))
    requires middle == Counted(one, later)
    ensures Counted(earlier, middle) == Counted(earlier + one, later)
  {
  }

  lemma ScanStep(s: State, rows: seq<OverdueRow>, transactional: bool, others: Others, stops: Stops, i: nat)
    requires Lawful(others) && i < |rows|
    ensures var (next, outcome) := AutoCancel(Run(s, others(i, s)), rows[i].id, rows[i].version, transactional, stops(i));
      ScanRows(s, rows[i..], transactional, others, stops, i)
      == if outcome.Threw? then (next, None)
         else Counted(if outcome.Cancelled? then 1 else 0, ScanRows(next, rows[i + 1..], transactional, others, stops, i + 1))
  {
    assert rows[i..][1..] == rows[i + 1..];
  }

  /** One row more of a scan that has cancelled `count` so far. */
  lemma ScanTurn(s: State, rows: seq<OverdueRow>, transactional: bool, others: Others, stops: Stops, i: nat, count: nat)
    requires Lawful(others) && i < |rows|
    ensures var (next, outcome) := AutoCancel(Run(s, others(i, s)), rows[i].id, rows[i].version, transactional, stops(i));
      Counted(count, ScanRows(s, rows[i..], transactional, others, stops, i))
      == if outcome.Threw? then (next, None)
         else Counted(count + if outcome.Cancelled? then 1 else 0, ScanRows(next, rows[i + 1..], transactional, others, stops, i + 1))
  {
    var (next, outcome) := AutoCancel(Run(s, others(i, s)), rows[i].id, rows[i].version, transactional, stops(i));
    ScanStep(s, rows, transactional, others, stops, i);
    if !outcome.Threw? {
      CountedTwice(count, if outcome.Cancelled? then 1 else 0, ScanRows(s, rows[i..], transactional, others, stops, i),
                   ScanRows(next, rows[i + 1..], transactional, others, stops, i + 1));
    }
  }

  // ---------------------------------------------------------------- what a scan achieves

  lemma {:induction false} OverdueDistinct(s: State, order: seq<nat>, cutoff: int)
    requires NoRepeats(order)
    ensures DistinctIds(Overdue(s, order, cutoff))
    ensures forall id :: id in order && IsOverdue(s, id, cutoff) ==> exists row :: row in Overdue(s, order, cutoff) && row.id == id
  {
    if order != [] {
      OverdueDistinct(s, order[1..], cutoff);
      var rest := Overdue(s, order[1..], cutoff);
      if IsOverdue(s, order[0], cutoff) {
        var first := OverdueRow(order[0], s.heads[order[0]].version, s.heads[order[0]].submittedAt.value);
        assert Overdue(s, order, cutoff) == [first] + rest;
        assert first in Overdue(s, order, cutoff);
      } else {
        assert Overdue(s, order, cutoff) == rest;
      }
    }
  }

  lemma SortedRowsDistinct(rows: seq<OverdueRow>)
    requires DistinctIds(rows)
    ensures DistinctIds(Sort(rows, Older())) && forall x :: x in Sort(rows, Older()) <==> x in rows
  {
    SortDistinct(rows, Older(), (row: OverdueRow) => row.id);
    SortHolds(rows, Older());
  }

  /**
   * What is overdue, in the columns of the table: a pending request that was submitted more than the set number of whole
   * days ago, or 30 if the setting is no number or below one.
   */
  lemma OverdueMeaning(s: State, now: int, timeoutDays: Option<real>, id: nat, days: int)
    requires if timeoutDays.Some? && timeoutDays.value >= 1.0 then days as real <= timeoutDays.value < (days + 1) as real else days == 30
    ensures IsOverdue(s, id, OverdueCutoff(now, timeoutDays)) <==>
            id in s.heads && s.heads[id].status == PENDING &&
            match s.heads[id].submittedAt case Some(at) => at < now - days * 86_400_000 case None => false
  {
  }

  /** The listing is made of overdue rows, each once, and what it leaves out for its limit was submitted no earlier. */
  lemma ListingMeaning(s: State, order: seq<nat>, cutoff: int, limit: nat)
    requires NoRepeats(order)
    ensures var rows := Listing(s, order, cutoff, limit);
      && |rows| <= limit && DistinctIds(rows)
      && (forall row :: row in rows ==> IsOverdue(s, row.id, cutoff) && Matches(s, row.id, row.version))
      && (forall id :: id in order && IsOverdue(s, id, cutoff) ==>
            (exists row :: row in rows && row.id == id)
            || (|rows| == limit && forall row :: row in rows ==> row.submittedAt <= s.heads[id].submittedAt.value))
  {
    var all := Overdue(s, order, cutoff);
    var sorted := Sort(all, Older());
    var rows := Listing(s, order, cutoff, limit);
    OverdueDistinct(s, order, cutoff);
    SortedRowsDistinct(all);
    assert Sorted(sorted, Older()) by {
      assert Preorder(Older());
      SortSorts(all, Older());
    }
    OverdueTimes(s, order, cutoff);
    forall id | id in order && IsOverdue(s, id, cutoff)
      ensures (exists row :: row in rows && row.id == id)
              || (|rows| == limit && forall row :: row in rows ==> row.submittedAt <= s.heads[id].submittedAt.value)
    {
      var it :| it in all && it.id == id;
      var k :| 0 <= k < |sorted| && sorted[k] == it;
      if k < |rows| {
        assert rows[k] == it;
      } else {
        forall row | row in rows ensures row.submittedAt <= it.submittedAt {
          var j :| 0 <= j < |rows| && rows[j] == row;
          assert sorted[j] == row;
        }
      }
    }
  }

  lemma {:induction false} OverdueTimes(s: State, order: seq<nat>, cutoff: int)
    ensures forall row :: row in Overdue(s, order, cutoff) ==> row.id in s.heads && s.heads[row.id].submittedAt == Some(row.submittedAt)
  {
    if order != [] {
      OverdueTimes(s, order[1..], cutoff);
    }
  }

  /** Everything but the given requests is as it was. */
  predicate OthersKept(s: State, t: State, rows: seq<OverdueRow>) {
    && t.heads.Keys == s.heads.Keys
    && forall id :: id in s.heads && (forall row :: row in rows ==> row.id != id) ==> t.heads[id] == s.heads[id]
  }

  lemma CancelOne(s: State, row: OverdueRow)
    requires Covered(s) && Matches(s, row.id, row.version)
    ensures var (next, outcome) := AutoCancel(s, row.id, row.version, true, STATEMENTS);
      && outcome == Cancelled && Covered(next) && SameBalances(s, next) && CancelledByScan(next, row.id)
      && next.heads == s.heads[row.id := next.heads[row.id]]
  {
    CoveredFits(s, row.id);
    BalancesAreKeptExactly(s, row.id, row.version, true, STATEMENTS);
    var next := AutoCancel(s, row.id, row.version, true, STATEMENTS).0;
    forall item | item in next.reserved ensures Balance(next, item) >= 0 {
      assert Balance(next, item) == Balance(s, item);
    }
  }

  /** A cancelled consumable request gives back its reserved quota; consumed quota, other requests' and other types' is left. */
  lemma QuotasFollowTheRequest(s: State, row: OverdueRow, i: nat)
    requires Covered(s) && Matches(s, row.id, row.version) && i < |s.quotas|
    ensures var next := AutoCancel(s, row.id, row.version, true, STATEMENTS).0;
      && |next.quotas| == |s.quotas| && next.quotas[i].requestId == s.quotas[i].requestId
      && (s.heads[row.id].requestType == CONSUMABLE_REQUEST ==> next.quotas[i] != Quota(row.id, RESERVED))
      && (next.quotas[i] != s.quotas[i] ==>
            s.heads[row.id].requestType == CONSUMABLE_REQUEST && s.quotas[i] == Quota(row.id, RESERVED)
            && next.quotas[i].status == RELEASED)
  {
    CoveredFits(s, row.id);
  }

  /**
   * While every item is covered, an undisturbed scan never fails, cancels each listed request and no other, and leaves every
   * balance as it was.
   */
  lemma {:induction false} ScanCancelsWhatItLists(s: State, rows: seq<OverdueRow>, moment: nat)
    requires Covered(s) && DistinctIds(rows) && forall row :: row in rows ==> Matches(s, row.id, row.version)
    ensures Lawful(Nobody())
    ensures var (last, count) := ScanRows(s, rows, true, Nobody(), Nowhere(), moment);
      && count == Some(|rows|) && Covered(last) && SameBalances(s, last) && OthersKept(s, last, rows)
      && forall row :: row in rows ==> CancelledByScan(last, row.id)
    decreases |rows|
  {
    assert Lawful(Nobody());
    if rows != [] {
      var first, rest := rows[0], rows[1..];
      assert first in rows;
      CancelOne(s, first);
      var next := AutoCancel(s, first.id, first.version, true, STATEMENTS).0;
      forall row | row in rest ensures Matches(next, row.id, row.version) {
        assert row in rows && row.id != first.id;
      }
      ScanCancelsWhatItLists(next, rest, moment + 1);
      assert Run(s, Nobody()(moment, s)) == s && Nowhere()(moment) == STATEMENTS;
      var last := ScanRows(next, rest, true, Nobody(), Nowhere(), moment + 1).0;
      SameBalancesTwice(s, next, last);
      CancelledAndKept(s, next, last, rows);
    }
  }

  lemma SameBalancesTwice(s: State, next: State, last: State)
    requires SameBalances(s, next) && SameBalances(next, last)
    ensures SameBalances(s, last)
  {
    forall item | item in s.reserved ensures Balance(last, item) == Balance(s, item) {
      assert Balance(next, item) == Balance(s, item);
    }
  }

  /** The first request stays cancelled while the rest are cancelled. */
  lemma CancelledAndKept(s: State, next: State, last: State, rows: seq<OverdueRow>)
    requires rows != [] && DistinctIds(rows) && rows[0].id in s.heads && rows[0].id in next.heads
    requires next.heads == s.heads[rows[0].id := next.heads[rows[0].id]] && CancelledByScan(next, rows[0].id)
    requires OthersKept(next, last, rows[1..]) && forall row :: row in rows[1..] ==> CancelledByScan(last, row.id)
    ensures OthersKept(s, last, rows) && forall row :: row in rows ==> CancelledByScan(last, row.id)
  {
    var first, rest := rows[0], rows[1..];
    assert first in rows && forall row :: row in rest ==> row.id != first.id;
    assert last.heads[first.id] == next.heads[first.id];
    assert forall row :: row in rows ==> row == first || row in rest;
    assert forall row :: row in rest ==> row in rows;
  }

  function Automatic(actions: seq<Action>): nat {
    if actions == [] then 0 else (if actions[0].automatic then 1 else 0) + Automatic(actions[1..])
  }

  lemma {:induction false} AutomaticAppend(actions: seq<Action>, a: Action)
    ensures Automatic(actions + [a]) == Automatic(actions) + if a.automatic then 1 else 0
  {
    if actions == [] {
      assert [a][1..] == [];
    } else {
      assert (actions + [a])[1..] == actions[1..] + [a];
      AutomaticAppend(actions[1..], a);
    }
  }

  lemma {:induction false} PeopleAddNoAutomaticAction(s: State, events: seq<Event>)
    requires Legal(s, events) && forall e :: e in events ==> !e.Scan?
    ensures Automatic(Run(s, events).actions) == Automatic(s.actions)
    decreases |events|
  {
    if events != [] {
      var e := events[0];
      assert e in events;
      AutomaticAppend(s.actions, Action(e.id, false));
      PeopleAddNoAutomaticAction(Next(s, e), events[1..]);
    }
  }

  /** Whoever decides in between and wherever it breaks off, a scan that ends normally counts exactly the requests it cancelled. */
  lemma {:induction false} ScanCountsItsCancellations(s: State, rows: seq<OverdueRow>, transactional: bool, others: Others, stops: Stops, moment: nat)
    requires Lawful(others)
    ensures var (last, count) := ScanRows(s, rows, transactional, others, stops, moment);
      count.Some? ==> Automatic(last.actions) == Automatic(s.actions) + count.value
    decreases |rows|
  {
    if rows != [] {
      var row, decided := rows[0], Run(s, others(moment, s));
      var (next, outcome) := AutoCancel(decided, row.id, row.version, transactional, stops(moment));
      PeopleAddNoAutomaticAction(s, others(moment, s));
      AutomaticAppend(decided.actions, Action(row.id, true));
      ScanCountsItsCancellations(next, rows[1..], transactional, others, stops, moment + 1);
    }
  }

  /** What a scan in transactions does among other people is a legal run of the protocol. */
  lemma {:induction false} ScanIsARun(s: State, rows: seq<OverdueRow>, others: Others, stops: Stops, moment: nat) returns (events: seq<Event>)
    requires Lawful(others)
    ensures Legal(s, events) && Run(s, events) == ScanRows(s, rows, true, others, stops, moment).0
    decreases |rows|
  {
    if rows == [] {
      events := [];
    } else {
      var step := Scan(rows[0].id, rows[0].version, stops(moment));
      var decided := Run(s, others(moment, s));
      var next := Next(decided, step);
      var outcome := AutoCancel(decided, rows[0].id, rows[0].version, true, stops(moment)).1;
      var rest: seq<Event> := [];
      if !outcome.Threw? {
        rest := ScanIsARun(next, rows[1..], others, stops, moment + 1);
      }
      assert ([step] + rest)[1..] == rest;
      assert Legal(decided, [step] + rest) && Run(decided, [step] + rest) == Run(next, rest);
      RunConcat(s, others(moment, s), [step] + rest);
      events := others(moment, s) + ([step] + rest);
    }
  }

  // ---------------------------------------------------------------- the tables

  class ApprovalTables {
    var heads: map<nat, Head>
    var order: seq<nat>
    var actions: seq<Action>
    var stockChangeItems: seq<Line>
    var consumableRequestItems: seq<Line>
    var reserved: map<nat, int>
    var quotas: seq<Quota>

    function Now(): State
      reads this
    {
      State(heads, actions, stockChangeItems, consumableRequestItems, reserved, quotas)
    }

    constructor (s: State, order: seq<nat>)
      ensures Now() == s && this.order == order
    {
      heads, actions, stockChangeItems := s.heads, s.actions, s.stockChangeItems;
      consumableRequestItems, reserved, quotas := s.consumableRequestItems, s.reserved, s.quotas;
      this.order := order;
    }

    /** The guarded UPDATE of the head; `false`: no row matched. */
    method CancelHead(id: nat, version: nat) returns (updated: bool)
      modifies this`heads
      ensures updated == old(Matches(Now(), id, version))
      ensures Now() == if updated then HeadCancelled(old(Now()), id) else old(Now())
    {
      updated := id in heads && heads[id].status == PENDING && heads[id].version == version;
      if updated {
        heads := heads[id := heads[id].(status := CANCELLED, version := version + 1, cancelSource := Some(OVERDUE))];
      }
    }

    /** `onAutoCancel`; `ok` is false when the constraint on reserved quantities refuses the release, or it is cut off after the stock. */
    method OnAutoCancel(id: nat, requestType: RequestType, cut: bool) returns (ok: bool)
      modifies this`reserved, this`quotas
      ensures ok == (old(Fits(Now(), id, requestType)) && !cut)
      ensures Now() ==
                if !old(Fits(Now(), id, requestType)) then old(Now())
                else if cut then StockReleased(old(Now()), id, requestType)
                else QuotasReleased(StockReleased(old(Now()), id, requestType), id, requestType)
    {
      ok := true;
      if requestType == STOCK_CHANGE {
        ok := ReleaseStock(requestType, stockChangeItems, id);
      } else if requestType == CONSUMABLE_REQUEST || requestType == AGENT_REQUEST {
        ok := ReleaseStock(requestType, consumableRequestItems, id);
        if ok && !cut && requestType == CONSUMABLE_REQUEST {
          quotas := ReleaseQuotas(quotas, id);
        }
      } else {
        NothingToRelease(Now(), id, requestType);
      }
      ok := ok && !cut;
    }

    /** The UPDATE over the summed detail rows; it is refused as a whole. */
    method ReleaseStock(ghost requestType: RequestType, lines: seq<Line>, id: nat) returns (ok: bool)
      requires lines == LinesOf(Now(), requestType)
      modifies this`reserved
      ensures ok == old(Fits(Now(), id, requestType))
      ensures Now() == if ok then StockReleased(old(Now()), id, requestType) else old(Now())
    {
      ok := forall item :: item in reserved && SumFor(lines, id, item) != 0 ==> reserved[item] >= SumFor(lines, id, item);
      if ok {
        reserved := map item | item in reserved :: reserved[item] - SumFor(lines, id, item);
      }
    }

    /** `autoCancelOverdueRow`, with or without a transaction, cut off after `stop` statements. */
    method AutoCancelOverdueRow(row: OverdueRow, transactional: bool, stop: nat) returns (outcome: Outcome)
      modifies this
      ensures (Now(), outcome) == AutoCancel(old(Now()), row.id, row.version, transactional, stop)
      ensures order == old(order)
    {
      var begun := Now();
      if !Matches(begun, row.id, row.version) {
        return Skipped;
      }
      var done := Statements(row, stop);
      if done {
        return Cancelled;
      }
      if transactional {
        heads, actions, reserved, quotas := begun.heads, begun.actions, begun.reserved, begun.quotas;
      }
      outcome := Threw;
    }

    /** The statements up to the one that fails or is cut off. */
    method Statements(row: OverdueRow, stop: nat) returns (done: bool)
      requires Matches(Now(), row.id, row.version)
      modifies this`heads, this`actions, this`reserved, this`quotas
      ensures var k := Reached(old(Now()), row.id, stop);
        Now() == After(old(Now()), row.id, k) && (done <==> k == STATEMENTS)
    {
      if stop == 0 {
        return false;
      }
      var updated := CancelHead(row.id, row.version);
      if stop == 1 {
        return false;
      }
      actions := actions + [Action(row.id, true)];
      if stop == 2 {
        return false;
      }
      done := OnAutoCancel(row.id, heads[row.id].requestType, stop == 3);
    }

    method Interfere(others: Others, moment: nat)
      requires Lawful(others)
      modifies this
      ensures Now() == Run(old(Now()), others(moment, old(Now()))) && order == old(order)
    {
      var s := Run(Now(), others(moment, Now()));
      heads, actions, stockChangeItems := s.heads, s.actions, s.stockChangeItems;
      consumableRequestItems, reserved, quotas := s.consumableRequestItems, s.reserved, s.quotas;
    }

    /** Other people decide, then the row is handled. */
    method HandleRow(row: OverdueRow, transactional: bool, others: Others, stops: Stops, moment: nat) returns (outcome: Outcome)
      requires Lawful(others)
      modifies this
      ensures (Now(), outcome) == AutoCancel(Run(old(Now()), others(moment, old(Now()))), row.id, row.version, transactional, stops(moment))
      ensures order == old(order)
    {
      Interfere(others, moment);
      outcome := AutoCancelOverdueRow(row, transactional, stops(moment));
    }

    /** One schema's turn of `scanAndAutoCancelOverdue`, with or without transactions and among other people; `None`: a failure ended the scan. */
    method ScanAndAutoCancelOverdue(timeoutDays: Option<real>, now: int, transactional: bool, others: Others, stops: Stops) returns (cancelled: Option<nat>)
      requires Lawful(others)
      modifies this
      ensures var rows := Listing(old(Now()), old(order), OverdueCutoff(now, timeoutDays), 200);
        (Now(), cancelled) == ScanRows(old(Now()), rows, transactional, others, stops, 0)
      ensures order == old(order)
    {
      var rows := Listing(Now(), order, OverdueCutoff(now, timeoutDays), APPROVAL_TIMEOUT_BATCH_SIZE);
      cancelled := HandleRows(rows, transactional, others, stops);
    }

    method HandleRows(rows: seq<OverdueRow>, transactional: bool, others: Others, stops: Stops) returns (cancelled: Option<nat>)
      requires Lawful(others)
      modifies this
      ensures (Now(), cancelled) == ScanRows(old(Now()), rows, transactional, others, stops, 0)
      ensures order == old(order)
    {
      var count: nat := 0;
      ghost var whole := ScanRows(Now(), rows, transactional, others, stops, 0);
      for i := 0 to |rows|
        invariant order == old(order)
        invariant whole == Counted(count, ScanRows(Now(), rows[i..], transactional, others, stops, i))
      {
        ScanTurn(Now(), rows, transactional, others, stops, i, count);
        var outcome := HandleRow(rows[i], transactional, others, stops, i);
        if outcome.Threw? {
          return None;
        }
        if outcome.Cancelled? {
          count := count + 1;
        }
      }
      assert rows[|rows|..] == [] && whole == (Now(), Some(count));
      cancelled := Some(count);
    }
  }

  lemma NothingToRelease(s: State, id: nat, t: RequestType)
    requires LinesOf(s, t) == []
    ensures StockReleased(s, id, t) == s && Fits(s, id, t)
  {
    assert StockReleased(s, id, t).reserved == s.reserved;
  }
}
