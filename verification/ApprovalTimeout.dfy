/** Overdue approvals: guarded cancellation and release, beside human decisions (timeout.ts:15-169, approval-timeout.asset-release.ts:28-77). */
module ApprovalTimeout {
  import opened Options

  datatype RequestType = STOCK_CHANGE | CONSUMABLE_REQUEST | AGENT_REQUEST | RETURN | WRITE_OFF | AGENT_SETTLEMENT | OTHER

  datatype Status = PENDING | APPROVED | REJECTED | CANCELLED

  datatype CancelSource = USER | OVERDUE

  datatype Head = Head(status: Status, version: nat, requestType: RequestType, submittedAt: Option<int>, cancelSource: Option<CancelSource>)

  /** A row of `approval_actions`; `automatic` is AUTO_CANCEL. */
  datatype Action = Action(requestId: nat, automatic: bool)

  /** A detail row: its request reserves `qty` of the inventory item. */
  datatype Line = Line(requestId: nat, itemId: nat, qty: int)

  datatype QuotaStatus = RESERVED | CONSUMED | RELEASED

  datatype Quota = Quota(requestId: nat, status: QuotaStatus)

  datatype State = State(
    heads: map<nat, Head>, actions: seq<Action>,
    stockChangeItems: seq<Line>, consumableRequestItems: seq<Line>, reserved: map<nat, int>, quotas: seq<Quota>)

  // ---------------------------------------------------------------- reservations

  /** The detail table a type of request reserves through. */
  function LinesOf(s: State, t: RequestType): seq<Line> {
    match t
    case STOCK_CHANGE => s.stockChangeItems
    case CONSUMABLE_REQUEST => s.consumableRequestItems
    case AGENT_REQUEST => s.consumableRequestItems
    case _ => []
  }

  /** `SUM(qty)` of one request and item. */
  function SumFor(lines: seq<Line>, id: nat, item: nat): int {
    if lines == [] then 0
    else (if lines[0].requestId == id && lines[0].itemId == item then lines[0].qty else 0) + SumFor(lines[1..], id, item)
  }

  predicate IsPending(heads: map<nat, Head>, id: nat, types: set<RequestType>) {
    id in heads && heads[id].status == PENDING && heads[id].requestType in types
  }

  /** What the lines of still-pending requests of these types reserve of an item. */
  function PendingSum(heads: map<nat, Head>, lines: seq<Line>, types: set<RequestType>, item: nat): int {
    if lines == [] then 0
    else (if lines[0].itemId == item && IsPending(heads, lines[0].requestId, types) then lines[0].qty else 0)
         + PendingSum(heads, lines[1..], types, item)
  }

  function Demand(s: State, item: nat): int {
    PendingSum(s.heads, s.stockChangeItems, {STOCK_CHANGE}, item)
    + PendingSum(s.heads, s.consumableRequestItems, {CONSUMABLE_REQUEST, AGENT_REQUEST}, item)
  }

  /** What is reserved beyond what still-pending requests account for. */
  function Balance(s: State, item: nat): int
    requires item in s.reserved
  {
    s.reserved[item] - Demand(s, item)
  }

  predicate SameBalances(s: State, t: State) {
    t.reserved.Keys == s.reserved.Keys && forall item :: item in s.reserved ==> Balance(t, item) == Balance(s, item)
  }

  // ---------------------------------------------------------------- one cancellation, statement by statement

  predicate Matches(s: State, id: nat, version: nat) {
    id in s.heads && s.heads[id].status == PENDING && s.heads[id].version == version
  }

  function HeadCancelled(s: State, id: nat): State
    requires id in s.heads
  {
    s.(heads := s.heads[id := s.heads[id].(status := CANCELLED, version := s.heads[id].version + 1, cancelSource := Some(OVERDUE))])
  }

  function StockReleased(s: State, id: nat, t: RequestType): State {
    s.(reserved := map item | item in s.reserved :: s.reserved[item] - SumFor(LinesOf(s, t), id, item))
  }

  function ReleaseQuotas(quotas: seq<Quota>, id: nat): (r: seq<Quota>)
    ensures |r| == |quotas|
    ensures forall i :: 0 <= i < |quotas| ==>
              r[i] == if quotas[i] == Quota(id, RESERVED) then Quota(id, RELEASED) else quotas[i]
  {
    if quotas == [] then []
    else [if quotas[0] == Quota(id, RESERVED) then Quota(id, RELEASED) else quotas[0]] + ReleaseQuotas(quotas[1..], id)
  }

  function QuotasReleased(s: State, id: nat, t: RequestType): State {
    if t == CONSUMABLE_REQUEST then s.(quotas := ReleaseQuotas(s.quotas, id)) else s
  }

  /** The table constraint `reserved_qty >= 0` on the rows the release touches. */
  predicate Fits(s: State, id: nat, t: RequestType) {
    forall item :: item in s.reserved && SumFor(LinesOf(s, t), id, item) != 0 ==> s.reserved[item] >= SumFor(LinesOf(s, t), id, item)
  }

  const STATEMENTS: nat := 4

  /** After the first `k` statements: head, action, stock, quota. */
  function After(s: State, id: nat, k: nat): State
    requires id in s.heads
  {
    var t := s.heads[id].requestType;
    var s1 := if k >= 1 then HeadCancelled(s, id) else s;
    var s2 := if k >= 2 then s1.(actions := s1.actions + [Action(id, true)]) else s1;
    var s3 := if k >= 3 then StockReleased(s2, id, t) else s2;
    if k >= STATEMENTS then QuotasReleased(s3, id, t) else s3
  }

  /** How many statements take effect before the connection breaks after `stop` of them or the constraint refuses. */
  function Reached(s: State, id: nat, stop: nat): nat
    requires id in s.heads
  {
    if stop < 3 then stop else if !Fits(s, id, s.heads[id].requestType) then 2 else if stop == 3 then 3 else STATEMENTS
  }

  datatype Outcome = Skipped | Cancelled | Threw

  /** `autoCancelOverdueRow`; without a transaction the statements that took effect stay. */
  function AutoCancel(s: State, id: nat, version: nat, transactional: bool, stop: nat): (State, Outcome) {
    if !Matches(s, id, version) then (s, Skipped)
    else
      var k := Reached(s, id, stop);
      if k == STATEMENTS then (After(s, id, k), Cancelled)
      else (if transactional then s else After(s, id, k), Threw)
  }

  // ---------------------------------------------------------------- what one cancellation does to the reservations

  lemma {:induction false} PendingSumWithout(heads: map<nat, Head>, lines: seq<Line>, types: set<RequestType>, id: nat, head: Head, item: nat)
    requires id in heads && heads[id].status == PENDING && head.status != PENDING
    ensures PendingSum(heads[id := head], lines, types, item)
            == PendingSum(heads, lines, types, item) - if heads[id].requestType in types then SumFor(lines, id, item) else 0
  {
    if lines != [] {
      PendingSumWithout(heads, lines[1..], types, id, head, item);
    }
  }

  lemma DemandAfterCancel(s: State, id: nat, item: nat)
    requires id in s.heads && s.heads[id].status == PENDING
    ensures Demand(HeadCancelled(s, id), item) == Demand(s, item) - SumFor(LinesOf(s, s.heads[id].requestType), id, item)
  {
    var head := HeadCancelled(s, id).heads[id];
    PendingSumWithout(s.heads, s.stockChangeItems, {STOCK_CHANGE}, id, head, item);
    PendingSumWithout(s.heads, s.consumableRequestItems, {CONSUMABLE_REQUEST, AGENT_REQUEST}, id, head, item);
  }

  /** The request reserves nothing that the inventory knows. */
  predicate ReservesNothing(s: State, id: nat)
    requires id in s.heads
  {
    forall item :: item in s.reserved ==> SumFor(LinesOf(s, s.heads[id].requestType), id, item) == 0
  }

  lemma BalanceAfter(s: State, id: nat, k: nat, item: nat)
    requires id in s.heads && s.heads[id].status == PENDING && item in s.reserved
    ensures item in After(s, id, k).reserved
    ensures Balance(After(s, id, k), item)
            == Balance(s, item) + if 1 <= k < 3 then SumFor(LinesOf(s, s.heads[id].requestType), id, item) else 0
  {
    DemandAfterCancel(s, id, item);
    assert Demand(After(s, id, k), item) == if k >= 1 then Demand(HeadCancelled(s, id), item) else Demand(s, item);
  }

  /**
   * A cancellation leaves every balance as it was exactly when it is transactional, or stops before its first statement or
   * after the release, or has nothing to release.
   */
  lemma BalancesAreKeptExactly(s: State, id: nat, version: nat, transactional: bool, stop: nat)
    requires Matches(s, id, version)
    ensures SameBalances(s, AutoCancel(s, id, version, transactional, stop).0)
            <==> transactional || !(1 <= Reached(s, id, stop) < 3) || ReservesNothing(s, id)
  {
    var k := Reached(s, id, stop);
    var after := After(s, id, k);
    assert after.reserved.Keys == s.reserved.Keys;
    forall item | item in s.reserved
      ensures Balance(after, item)
              == Balance(s, item) + if 1 <= k < 3 then SumFor(LinesOf(s, s.heads[id].requestType), id, item) else 0
    {
      BalanceAfter(s, id, k, item);
    }
  }

  predicate Positive(lines: seq<Line>) {
    forall l :: l in lines ==> l.qty > 0
  }

  /** The constraints on detail quantities. */
  predicate LinesPositive(s: State) {
    Positive(s.stockChangeItems) && Positive(s.consumableRequestItems)
  }

  lemma {:induction false} SumWithinPending(heads: map<nat, Head>, lines: seq<Line>, types: set<RequestType>, id: nat, item: nat)
    requires Positive(lines) && IsPending(heads, id, types)
    ensures 0 <= SumFor(lines, id, item) <= PendingSum(heads, lines, types, item)
  {
    if lines != [] {
      SumWithinPending(heads, lines[1..], types, id, item);
    }
  }

  lemma {:induction false} PendingNonNegative(heads: map<nat, Head>, lines: seq<Line>, types: set<RequestType>, item: nat)
    requires Positive(lines)
    ensures PendingSum(heads, lines, types, item) >= 0
  {
    if lines != [] {
      PendingNonNegative(heads, lines[1..], types, item);
    }
  }

  /** Every item has at least what pending requests account for. */
  predicate Covered(s: State) {
    LinesPositive(s) && forall item :: item in s.reserved ==> Balance(s, item) >= 0
  }

  /** A covered release never violates the constraint. */
  lemma CoveredFits(s: State, id: nat)
    requires Covered(s) && id in s.heads && s.heads[id].status == PENDING
    ensures Fits(s, id, s.heads[id].requestType)
  {
    var t := s.heads[id].requestType;
    forall item | item in s.reserved && SumFor(LinesOf(s, t), id, item) != 0
      ensures s.reserved[item] >= SumFor(LinesOf(s, t), id, item)
    {
      assert Balance(s, item) >= 0;
      PendingNonNegative(s.heads, s.stockChangeItems, {STOCK_CHANGE}, item);
      PendingNonNegative(s.heads, s.consumableRequestItems, {CONSUMABLE_REQUEST, AGENT_REQUEST}, item);
      match t
      case STOCK_CHANGE => SumWithinPending(s.heads, s.stockChangeItems, {STOCK_CHANGE}, id, item);
      case CONSUMABLE_REQUEST => SumWithinPending(s.heads, s.consumableRequestItems, {CONSUMABLE_REQUEST, AGENT_REQUEST}, id, item);
      case AGENT_REQUEST => SumWithinPending(s.heads, s.consumableRequestItems, {CONSUMABLE_REQUEST, AGENT_REQUEST}, id, item);
      case _ =>
    }
  }

  // ---------------------------------------------------------------- runs

  /** What people do in between; their effect on reservations and quotas is left open. */
  datatype Event =
    | Submit(id: nat, head: Head, stockLines: seq<Line>, consumableLines: seq<Line>, reserved: map<nat, int>, quotas: seq<Quota>)
    | Decide(id: nat, version: nat, status: Status, reserved: map<nat, int>, quotas: seq<Quota>)
    | Scan(id: nat, version: nat, stop: nat)

  predicate Enabled(s: State, e: Event) {
    match e
    case Submit(id, head, stockLines, consumableLines, _, _) =>
      && id !in s.heads && head.status == PENDING && head.cancelSource.None?
      && forall l :: l in stockLines + consumableLines ==> l.requestId == id
    case Decide(id, version, status, _, _) => status in {APPROVED, REJECTED, CANCELLED}
    case Scan(_, _, _) => true
  }

  /** A decision is guarded like the scan; a decision that comes too late changes nothing. Scans run in transactions. */
  function Next(s: State, e: Event): State
    requires Enabled(s, e)
  {
    match e
    case Submit(id, head, stockLines, consumableLines, reserved, quotas) =>
      s.(heads := s.heads[id := head], stockChangeItems := s.stockChangeItems + stockLines,
         consumableRequestItems := s.consumableRequestItems + consumableLines, reserved := reserved, quotas := quotas)
    case Decide(id, version, status, reserved, quotas) =>
      if !Matches(s, id, version) then s
      else
        s.(heads := s.heads[id := s.heads[id].(status := status, version := version + 1,
                                               cancelSource := if status == CANCELLED then Some(USER) else None)],
           actions := s.actions + [Action(id, false)], reserved := reserved, quotas := quotas)
    case Scan(id, version, stop) => AutoCancel(s, id, version, true, stop).0
  }

  predicate Legal(s: State, events: seq<Event>)
    decreases |events|
  {
    events == [] || (Enabled(s, events[0]) && Legal(Next(s, events[0]), events[1..]))
  }

  function Run(s: State, events: seq<Event>): State
    requires Legal(s, events)
    decreases |events|
  {
    if events == [] then s else Run(Next(s, events[0]), events[1..])
  }

  lemma {:induction false} RunConcat(s: State, a: seq<Event>, b: seq<Event>)
    requires Legal(s, a) && Legal(Run(s, a), b)
    ensures Legal(s, a + b) && Run(s, a + b) == Run(Run(s, a), b)
    decreases |a|
  {
    if a == [] {
      assert a + b == b;
    } else {
      assert (a + b)[1..] == a[1..] + b;
      RunConcat(Next(s, a[0]), a[1..], b);
    }
  }

  function AutoCancels(actions: seq<Action>, id: nat): nat {
    if actions == [] then 0 else (if actions[0] == Action(id, true) then 1 else 0) + AutoCancels(actions[1..], id)
  }

  lemma {:induction false} AutoCancelsAppend(actions: seq<Action>, a: Action, id: nat)
    ensures AutoCancels(actions + [a], id) == AutoCancels(actions, id) + if a == Action(id, true) then 1 else 0
  {
    if actions == [] {
      assert [a][1..] == [];
    } else {
      assert (actions + [a])[1..] == actions[1..] + [a];
      AutoCancelsAppend(actions[1..], a, id);
    }
  }

  predicate CancelledByScan(s: State, id: nat) {
    id in s.heads && s.heads[id].status == CANCELLED && s.heads[id].cancelSource == Some(OVERDUE)
  }

  /** One AUTO_CANCEL action exactly for the requests the scan cancelled. */
  ghost predicate ActionsOk(s: State) {
    && (forall id :: AutoCancels(s.actions, id) == if CancelledByScan(s, id) then 1 else 0)
    && (forall id :: id in s.heads && s.heads[id].status == PENDING ==> s.heads[id].cancelSource.None?)
  }

  lemma StepKeepsActions(s: State, e: Event)
    requires ActionsOk(s) && Enabled(s, e)
    ensures ActionsOk(Next(s, e))
  {
    var next := Next(s, e);
    forall id ensures AutoCancels(next.actions, id) == if CancelledByScan(next, id) then 1 else 0 {
      AutoCancelsAppend(s.actions, Action(e.id, e.Scan?), id);
    }
  }

  const EMPTY := State(map[], [], [], [], map[], [])

  lemma {:induction false} RunKeepsActions(s: State, events: seq<Event>)
    requires ActionsOk(s) && Legal(s, events)
    ensures ActionsOk(Run(s, events))
    decreases |events|
  {
    if events != [] {
      StepKeepsActions(s, events[0]);
      RunKeepsActions(Next(s, events[0]), events[1..]);
    }
  }

  /** However scans, crashes and people interleave, a request has one AUTO_CANCEL action if a scan cancelled it, and none otherwise. */
  lemma OneActionPerCancelledRequest(events: seq<Event>, id: nat)
    requires Legal(EMPTY, events)
    ensures AutoCancels(Run(EMPTY, events).actions, id) == if CancelledByScan(Run(EMPTY, events), id) then 1 else 0
  {
    assert ActionsOk(EMPTY);
    RunKeepsActions(EMPTY, events);
  }

  /** A request leaves PENDING at most once: a settled head never changes again, by whomever it was settled. */
  lemma {:induction false} SettledStaysSettled(s: State, events: seq<Event>, id: nat)
    requires Legal(s, events) && id in s.heads && s.heads[id].status != PENDING
    ensures id in Run(s, events).heads && Run(s, events).heads[id] == s.heads[id]
    decreases |events|
  {
    if events != [] {
      SettledStaysSettled(Next(s, events[0]), events[1..], id);
    }
  }

  /** No scan step changes what is reserved beyond the pending requests, whether it cancels, skips, fails or is cut off. */
  lemma ScanConservesStock(s: State, id: nat, version: nat, stop: nat)
    ensures SameBalances(s, Next(s, Scan(id, version, stop)))
  {
    if Matches(s, id, version) {
      BalancesAreKeptExactly(s, id, version, true, stop);
    }
  }
}
