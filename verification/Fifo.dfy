/** First-in-first-out allocation of stock batches (inventory-core.ts:91-119). */
module Fifo {
  import opened Options
  import opened Sorting

  datatype Batch = Batch(id: nat, itemId: nat, receivedAt: int, remaining: int)

  datatype Allocation = Allocation(batchId: nat, qty: int)

  /** `ORDER BY received_at, id` */
  function Earlier(): (Batch, Batch) -> bool {
    (a: Batch, b: Batch) => a.receivedAt < b.receivedAt || (a.receivedAt == b.receivedAt && a.id <= b.id)
  }

  predicate InStock(b: Batch, itemId: nat) {
    b.itemId == itemId && b.remaining > 0
  }

  function Stocked(table: seq<Batch>, itemId: nat): (r: seq<Batch>)
    ensures forall b :: b in r <==> b in table && InStock(b, itemId)
  {
    Filter(table, (b: Batch) => InStock(b, itemId))
  }

  /** The rows of the query, oldest first. */
  function Select(table: seq<Batch>, itemId: nat): seq<Batch> {
    Sort(Stocked(table, itemId), Earlier())
  }

  function Min(a: int, b: int): int {
    if a <= b then a else b
  }

  /** What is taken from the rows, in their order. */
  function Takes(rows: seq<Batch>, qty: int): seq<Allocation> {
    if rows == [] || qty <= 0 then []
    else
      var take := Min(rows[0].remaining, qty);
      [Allocation(rows[0].id, take)] + Takes(rows[1..], qty - take)
  }

  function TakenSum(takes: seq<Allocation>): int {
    if takes == [] then 0 else takes[0].qty + TakenSum(takes[1..])
  }

  function TakenFrom(takes: seq<Allocation>, id: nat): int {
    if takes == [] then 0 else (if takes[0].batchId == id then takes[0].qty else 0) + TakenFrom(takes[1..], id)
  }

  function Total(rows: seq<Batch>): int {
    if rows == [] then 0 else rows[0].remaining + Total(rows[1..])
  }

  function Less(b: Batch, takes: seq<Allocation>): Batch {
    b.(remaining := b.remaining - TakenFrom(takes, b.id))
  }

  /** The table after the takes. */
  function Deducted(table: seq<Batch>, takes: seq<Allocation>): (r: seq<Batch>)
    ensures |r| == |table|
  {
    if table == [] then [] else [Less(table[0], takes)] + Deducted(table[1..], takes)
  }

  lemma {:induction false} DeductedAt(table: seq<Batch>, takes: seq<Allocation>)
    ensures forall i :: 0 <= i < |table| ==> Deducted(table, takes)[i] == Less(table[i], takes)
  {
    if table != [] {
      DeductedAt(table[1..], takes);
    }
  }

  predicate UniqueIds(table: seq<Batch>) {
    forall i, j :: 0 <= i < j < |table| ==> table[i].id != table[j].id
  }

  predicate AllInStock(rows: seq<Batch>) {
    forall b :: b in rows ==> b.remaining > 0
  }

  // ---------------------------------------------------------------- the loop

  lemma {:induction false} TakenSumAppend(takes: seq<Allocation>, last: Allocation)
    ensures TakenSum(takes + [last]) == TakenSum(takes) + last.qty
  {
    if takes == [] {
      assert [last][1..] == [];
    } else {
      assert (takes + [last])[1..] == takes[1..] + [last];
      TakenSumAppend(takes[1..], last);
    }
  }

  lemma {:induction false} TakenFromAppend(takes: seq<Allocation>, last: Allocation, id: nat)
    ensures TakenFrom(takes + [last], id) == TakenFrom(takes, id) + if last.batchId == id then last.qty else 0
  {
    if takes == [] {
      assert [last][1..] == [];
    } else {
      assert (takes + [last])[1..] == takes[1..] + [last];
      TakenFromAppend(takes[1..], last, id);
    }
  }

  lemma DeductedAppend(table: seq<Batch>, takes: seq<Allocation>, last: Allocation)
    ensures Deducted(Deducted(table, takes), [last]) == Deducted(table, takes + [last])
  {
    DeductedAt(table, takes);
    DeductedAt(Deducted(table, takes), [last]);
    DeductedAt(table, takes + [last]);
    forall i | 0 <= i < |table| ensures Deducted(Deducted(table, takes), [last])[i] == Deducted(table, takes + [last])[i] {
      TakenFromAppend(takes, last, table[i].id);
      assert TakenFrom([last], table[i].id) == TakenFrom([last][1..], table[i].id) + if last.batchId == table[i].id then last.qty else 0;
    }
  }

  /** One turn of the loop: what is still to be taken begins with the next allocation. */
  lemma TakesStep(before: seq<Allocation>, rows: seq<Batch>, i: nat, remaining: int)
    requires i < |rows| && remaining > 0
    ensures var last := Allocation(rows[i].id, Min(rows[i].remaining, remaining));
      before + Takes(rows[i..], remaining) == before + [last] + Takes(rows[i + 1..], remaining - last.qty)
  {
    assert rows[i..][1..] == rows[i + 1..];
  }

  class BatchTable {
    var batches: seq<Batch>

    constructor (rows: seq<Batch>)
      ensures batches == rows
    {
      batches := rows;
    }

    /** `UPDATE asset.batches SET remaining_qty = remaining_qty - take WHERE id = ...` */
    method Deduct(id: nat, take: int)
      modifies this
      ensures batches == Deducted(old(batches), [Allocation(id, take)])
    {
      batches := Deducted(batches, [Allocation(id, take)]);
    }

    /** The loop over the query's rows. */
    method TakeFrom(rows: seq<Batch>, qty: int) returns (allocations: seq<Allocation>, remaining: int)
      modifies this
      ensures allocations == Takes(rows, qty) && remaining == qty - TakenSum(allocations)
      ensures batches == Deducted(old(batches), allocations)
    {
      allocations := [];
      remaining := qty;
      DeductedNone(batches);
      for i := 0 to |rows|
        invariant allocations + Takes(rows[i..], remaining) == Takes(rows, qty)
        invariant TakenSum(allocations) == qty - remaining
        invariant batches == Deducted(old(batches), allocations)
      {
        if remaining <= 0 {
          assert allocations + [] == allocations;
          break;
        }
        TakesStep(allocations, rows, i, remaining);
        var last := Allocation(rows[i].id, Min(rows[i].remaining, remaining));
        Deduct(last.batchId, last.qty);
        DeductedAppend(old(batches), allocations, last);
        TakenSumAppend(allocations, last);
        allocations := allocations + [last];
        remaining := remaining - last.qty;
      }
    }

    /** `None`: the stock is short, and the transaction this runs in is rolled back. */
    method AllocateFifoBatches(itemId: nat, qty: int) returns (r: Option<seq<Allocation>>)
      modifies this
      ensures r.Some? <==> qty <= 0 || qty <= Total(Stocked(old(batches), itemId))
      ensures r.Some? ==> r.value == Takes(Select(old(batches), itemId), qty)
      ensures batches == if r.Some? then Deducted(old(batches), r.value) else old(batches)
      ensures UniqueIds(old(batches)) && r.Some? ==>
                && ServedInOrder(old(batches), itemId, r.value) && Booked(old(batches), batches, itemId, r.value)
                && OldestFirst(old(batches), batches, itemId)
    {
      var rows, saved := Select(batches, itemId), batches;
      var allocations, remaining := TakeFrom(rows, qty);
      SelectMeaning(saved, itemId);
      TakesExactly(rows, qty);
      if remaining > 0 {
        batches := saved;
        return None;
      }
      if UniqueIds(saved) {
        FirstInFirstOut(saved, itemId, qty);
      }
      r := Some(allocations);
    }
  }

  // ---------------------------------------------------------------- first in, first out

  /** The allocation is served from a batch of the item that was in stock, and from no more than it held. */
  ghost predicate ServedFrom(take: Allocation, table: seq<Batch>, itemId: nat, i: int) {
    && 0 <= i < |table| && table[i].id == take.batchId && table[i].itemId == itemId
    && 0 < take.qty <= table[i].remaining
  }

  ghost predicate IsServed(take: Allocation, table: seq<Batch>, itemId: nat) {
    exists i :: ServedFrom(take, table, itemId, i)
  }

  /** Received at an earlier time, or at the same time under a smaller id. */
  ghost predicate ReceivedBefore(a: Batch, b: Batch) {
    a.receivedAt < b.receivedAt || (a.receivedAt == b.receivedAt && a.id < b.id)
  }

  /** Every allocation comes from a batch of the item, and the batches from older to newer. */
  ghost predicate ServedInOrder(table: seq<Batch>, itemId: nat, takes: seq<Allocation>) {
    && (forall k :: 0 <= k < |takes| ==> IsServed(takes[k], table, itemId))
    && (forall k, l, i, j :: 0 <= k < l < |takes| && ServedFrom(takes[k], table, itemId, i) && ServedFrom(takes[l], table, itemId, j) ==>
          ReceivedBefore(table[i], table[j]))
  }

  /** A batch loses just what was allocated from it, and nothing else changes. */
  ghost predicate Booked(table: seq<Batch>, after: seq<Batch>, itemId: nat, takes: seq<Allocation>) {
    && |after| == |table|
    && (forall k, i :: 0 <= k < |takes| && ServedFrom(takes[k], table, itemId, i) ==>
          after[i] == table[i].(remaining := table[i].remaining - takes[k].qty))
    && (forall i :: 0 <= i < |table| && after[i] != table[i] ==> exists k :: 0 <= k < |takes| && ServedFrom(takes[k], table, itemId, i))
  }

  /** A batch is touched only when those of the item received before it have nothing left. */
  ghost predicate OldestFirst(table: seq<Batch>, after: seq<Batch>, itemId: nat)
    requires |after| == |table|
  {
    forall i, j ::
      (0 <= i < |table| && 0 <= j < |table| && after[j] != table[j] && ReceivedBefore(table[i], table[j])
       && table[i].itemId == itemId && table[i].remaining > 0)
      ==> after[i].remaining == 0
  }

  /** The place in the table of the k-th row of the query. */
  lemma RowInTable(table: seq<Batch>, itemId: nat, k: nat) returns (i: nat)
    requires k < |Select(table, itemId)|
    ensures i < |table| && table[i] == Select(table, itemId)[k] && table[i].itemId == itemId && table[i].remaining > 0
  {
    SelectMeaning(table, itemId);
    assert Select(table, itemId)[k] in Select(table, itemId);
    i :| 0 <= i < |table| && table[i] == Select(table, itemId)[k];
  }

  /** What is taken from a row is what its allocation says. */
  lemma {:induction false} TakenIsAllocated(rows: seq<Batch>, qty: int, k: nat)
    requires AllInStock(rows) && UniqueIds(rows) && k < |rows|
    ensures TakenFrom(Takes(rows, qty), rows[k].id) == if k < |Takes(rows, qty)| then Takes(rows, qty)[k].qty else 0
  {
    if qty > 0 {
      var rest := qty - Min(rows[0].remaining, qty);
      if k == 0 {
        NotTaken(rows[1..], rest, rows[0].id);
      } else {
        TakenIsAllocated(rows[1..], rest, k - 1);
      }
    }
  }

  /** The rows of the query are ordered by time and id. */
  lemma RowsInOrder(table: seq<Batch>, itemId: nat, k: nat, l: nat)
    requires UniqueIds(table) && k < l < |Select(table, itemId)|
    ensures ReceivedBefore(Select(table, itemId)[k], Select(table, itemId)[l])
  {
    SelectMeaning(table, itemId);
    SelectIsListing(table, itemId);
    assert Earlier()(Select(table, itemId)[k], Select(table, itemId)[l]);
  }

  /** A batch of the table and its row in the query. */
  lemma InQuery(table: seq<Batch>, itemId: nat, i: nat) returns (k: nat)
    requires i < |table| && table[i].itemId == itemId && table[i].remaining > 0
    ensures k < |Select(table, itemId)| && Select(table, itemId)[k] == table[i]
  {
    SelectMeaning(table, itemId);
    assert InStock(table[i], itemId);
    k :| 0 <= k < |Select(table, itemId)| && Select(table, itemId)[k] == table[i];
  }

  lemma SameBatch(table: seq<Batch>, i: nat, j: nat)
    requires UniqueIds(table) && i < |table| && j < |table| && table[i].id == table[j].id
    ensures i == j
  {
  }

  /** The row an allocation is served from is the one at its own position. */
  lemma ServedRow(table: seq<Batch>, itemId: nat, qty: int, k: nat, i: int)
    requires UniqueIds(table) && k < |Takes(Select(table, itemId), qty)|
    ensures |Takes(Select(table, itemId), qty)| <= |Select(table, itemId)|
    ensures ServedFrom(Takes(Select(table, itemId), qty)[k], table, itemId, i) <==> 0 <= i < |table| && table[i] == Select(table, itemId)[k]
  {
    SelectMeaning(table, itemId);
    OldestAreEmptiedFirst(Select(table, itemId), qty);
    var j := RowInTable(table, itemId, k);
    if 0 <= i < |table| && table[i].id == table[j].id {
      SameBatch(table, i, j);
    }
  }

  /** What is left of a batch. */
  lemma LeftOf(table: seq<Batch>, itemId: nat, qty: int, i: nat)
    requires UniqueIds(table) && i < |table|
    ensures var rows, takes := Select(table, itemId), Takes(Select(table, itemId), qty);
      && Deducted(table, takes)[i] == table[i].(remaining := Deducted(table, takes)[i].remaining)
      && (table[i] !in rows ==> Deducted(table, takes)[i] == table[i])
      && (forall k :: 0 <= k < |rows| && rows[k] == table[i] ==>
            Deducted(table, takes)[i].remaining == table[i].remaining - if k < |takes| then takes[k].qty else 0)
  {
    var rows, takes := Select(table, itemId), Takes(Select(table, itemId), qty);
    DeductedAt(table, takes);
    SelectMeaning(table, itemId);
    SelectIsListing(table, itemId);
    if table[i] !in rows {
      OnlyTheItemsStockIsTouched(table, itemId, qty, i);
    }
    forall k | 0 <= k < |rows| && rows[k] == table[i]
      ensures Deducted(table, takes)[i].remaining == table[i].remaining - if k < |takes| then takes[k].qty else 0
    {
      TakenIsAllocated(rows, qty, k);
    }
  }

  /** A batch that changed was served from. */
  lemma ChangedIsServed(table: seq<Batch>, itemId: nat, qty: int, i: nat) returns (k: nat)
    requires UniqueIds(table) && i < |table| && Deducted(table, Takes(Select(table, itemId), qty))[i] != table[i]
    ensures k < |Takes(Select(table, itemId), qty)| && k < |Select(table, itemId)| && Select(table, itemId)[k] == table[i]
  {
    var rows := Select(table, itemId);
    LeftOf(table, itemId, qty, i);
    k :| 0 <= k < |rows| && rows[k] == table[i];
  }

  /** Before a touched batch everything received earlier is used up. */
  lemma EarlierIsEmpty(table: seq<Batch>, itemId: nat, qty: int, i: nat, j: nat)
    requires UniqueIds(table) && i < |table| && j < |table| && table[i].itemId == itemId && table[i].remaining > 0
    requires Deducted(table, Takes(Select(table, itemId), qty))[j] != table[j]
    requires ReceivedBefore(table[i], table[j])
    ensures Deducted(table, Takes(Select(table, itemId), qty))[i].remaining == 0
  {
    var l := ChangedIsServed(table, itemId, qty, j);
    var k := InQuery(table, itemId, i);
    if l < k {
      RowsInOrder(table, itemId, l, k);
    }
    SelectMeaning(table, itemId);
    OldestAreEmptiedFirst(Select(table, itemId), qty);
    LeftOf(table, itemId, qty, i);
  }

  lemma TakesInOrder(table: seq<Batch>, itemId: nat, qty: int)
    requires UniqueIds(table)
    ensures ServedInOrder(table, itemId, Takes(Select(table, itemId), qty))
  {
    var rows, takes := Select(table, itemId), Takes(Select(table, itemId), qty);
    SelectMeaning(table, itemId);
    OldestAreEmptiedFirst(rows, qty);
    forall k, i | 0 <= k < |takes| ensures ServedFrom(takes[k], table, itemId, i) <==> 0 <= i < |table| && table[i] == rows[k] {
      ServedRow(table, itemId, qty, k, i);
    }
    forall k | 0 <= k < |takes| ensures IsServed(takes[k], table, itemId) {
      var i := RowInTable(table, itemId, k);
      assert ServedFrom(takes[k], table, itemId, i);
    }
    forall k, l | 0 <= k < l < |takes| ensures ReceivedBefore(rows[k], rows[l]) {
      RowsInOrder(table, itemId, k, l);
    }
  }

  lemma TakesAreBooked(table: seq<Batch>, itemId: nat, qty: int)
    requires UniqueIds(table)
    ensures var takes := Takes(Select(table, itemId), qty); Booked(table, Deducted(table, takes), itemId, takes)
  {
    var rows, takes := Select(table, itemId), Takes(Select(table, itemId), qty);
    var after := Deducted(table, takes);
    forall k, i | 0 <= k < |takes| && ServedFrom(takes[k], table, itemId, i)
      ensures after[i] == table[i].(remaining := table[i].remaining - takes[k].qty)
    {
      ServedRow(table, itemId, qty, k, i);
      LeftOf(table, itemId, qty, i);
    }
    forall i | 0 <= i < |table| && after[i] != table[i] ensures exists k :: 0 <= k < |takes| && ServedFrom(takes[k], table, itemId, i) {
      var k := ChangedIsServed(table, itemId, qty, i);
      ServedRow(table, itemId, qty, k, i);
    }
  }

  /** First in, first out. */
  lemma FirstInFirstOut(table: seq<Batch>, itemId: nat, qty: int)
    requires UniqueIds(table)
    ensures var takes := Takes(Select(table, itemId), qty); var after := Deducted(table, takes);
      ServedInOrder(table, itemId, takes) && Booked(table, after, itemId, takes) && OldestFirst(table, after, itemId)
  {
    var after := Deducted(table, Takes(Select(table, itemId), qty));
    TakesInOrder(table, itemId, qty);
    TakesAreBooked(table, itemId, qty);
    forall i: nat, j: nat | i < |table| && j < |table| && table[i].itemId == itemId && table[i].remaining > 0 && after[j] != table[j]
                            && ReceivedBefore(table[i], table[j])
      ensures after[i].remaining == 0
    {
      EarlierIsEmpty(table, itemId, qty, i, j);
    }
  }

  lemma {:induction false} DeductedNone(table: seq<Batch>)
    ensures Deducted(table, []) == table
  {
    DeductedAt(table, []);
  }

  // ---------------------------------------------------------------- what is taken

  lemma {:induction false} TotalInsert(b: Batch, rows: seq<Batch>)
    ensures Total(Insert(b, rows, Earlier())) == b.remaining + Total(rows)
  {
    if rows == [] || Earlier()(b, rows[0]) {
      assert ([b] + rows)[1..] == rows;
    } else {
      TotalInsert(b, rows[1..]);
    }
  }

  lemma {:induction false} TotalSort(rows: seq<Batch>)
    ensures Total(Sort(rows, Earlier())) == Total(rows)
  {
    if rows != [] {
      TotalSort(rows[1..]);
      TotalInsert(rows[0], Sort(rows[1..], Earlier()));
    }
  }

  /** The query lists exactly the item's batches in stock, oldest first. */
  lemma SelectMeaning(table: seq<Batch>, itemId: nat)
    ensures var rows := Select(table, itemId);
      && (forall b :: b in rows <==> b in table && InStock(b, itemId)) && Sorted(rows, Earlier()) && AllInStock(rows)
      && Total(rows) == Total(Stocked(table, itemId))
  {
    SortHolds(Stocked(table, itemId), Earlier());
    SortSorts(Stocked(table, itemId), Earlier());
    TotalSort(Stocked(table, itemId));
  }

  lemma {:induction false} TotalNonNegative(rows: seq<Batch>)
    requires AllInStock(rows)
    ensures Total(rows) >= 0
  {
    if rows != [] {
      TotalNonNegative(rows[1..]);
    }
  }

  /** Exactly the quantity is taken, or everything there is. */
  lemma {:induction false} TakesExactly(rows: seq<Batch>, qty: int)
    requires AllInStock(rows)
    ensures TakenSum(Takes(rows, qty)) == if qty <= 0 then 0 else Min(qty, Total(rows))
  {
    TotalNonNegative(rows);
    if rows != [] && qty > 0 {
      var take := Min(rows[0].remaining, qty);
      TakesExactly(rows[1..], qty - take);
      TotalNonNegative(rows[1..]);
    }
  }

  /** The oldest batches are emptied one after the other; only the last one touched may keep something. */
  lemma {:induction false} OldestAreEmptiedFirst(rows: seq<Batch>, qty: int)
    requires AllInStock(rows)
    ensures var takes := Takes(rows, qty);
      && |takes| <= |rows|
      && (forall k :: 0 <= k < |takes| ==> takes[k].batchId == rows[k].id && 0 < takes[k].qty <= rows[k].remaining)
      && (forall k :: 0 <= k < |takes| - 1 ==> takes[k].qty == rows[k].remaining)
  {
    if rows != [] && qty > 0 {
      var take := Min(rows[0].remaining, qty);
      OldestAreEmptiedFirst(rows[1..], qty - take);
    }
  }

  // ---------------------------------------------------------------- the table afterwards

  lemma {:induction false} NotTaken(rows: seq<Batch>, qty: int, id: nat)
    requires forall b :: b in rows ==> b.id != id
    ensures TakenFrom(Takes(rows, qty), id) == 0
  {
    if rows != [] && qty > 0 {
      NotTaken(rows[1..], qty - Min(rows[0].remaining, qty), id);
    }
  }

  lemma {:induction false} TakenWithin(rows: seq<Batch>, qty: int, k: nat)
    requires AllInStock(rows) && UniqueIds(rows) && k < |rows|
    ensures 0 <= TakenFrom(Takes(rows, qty), rows[k].id) <= rows[k].remaining
  {
    if qty > 0 {
      var rest := qty - Min(rows[0].remaining, qty);
      if k == 0 {
        NotTaken(rows[1..], rest, rows[0].id);
      } else {
        TakenWithin(rows[1..], rest, k - 1);
      }
    }
  }

  lemma SortUnique(rows: seq<Batch>)
    requires UniqueIds(rows)
    ensures UniqueIds(Sort(rows, Earlier())) && forall x :: x in Sort(rows, Earlier()) ==> x in rows
  {
    SortDistinct(rows, Earlier(), (b: Batch) => b.id);
    SortHolds(rows, Earlier());
  }

  lemma {:induction false} StockedUnique(table: seq<Batch>, itemId: nat)
    requires UniqueIds(table)
    ensures UniqueIds(Stocked(table, itemId))
  {
    if table != [] {
      StockedUnique(table[1..], itemId);
      assert table == [table[0]] + table[1..];
      if InStock(table[0], itemId) {
        ConsDistinct(table[0], Stocked(table[1..], itemId), (b: Batch) => b.id);
      }
    }
  }

  /** Batches of other items and empty ones are left alone; no batch of the item falls below zero or gains anything. */
  lemma OnlyTheItemsStockIsTouched(table: seq<Batch>, itemId: nat, qty: int, i: nat)
    requires UniqueIds(table) && i < |table|
    ensures var after := Deducted(table, Takes(Select(table, itemId), qty));
      if InStock(table[i], itemId) then 0 <= after[i].remaining <= table[i].remaining else after[i] == table[i]
  {
    var rows := Select(table, itemId);
    DeductedAt(table, Takes(rows, qty));
    SelectMeaning(table, itemId);
    StockedUnique(table, itemId);
    SortUnique(Stocked(table, itemId));
    if InStock(table[i], itemId) {
      var k :| 0 <= k < |rows| && rows[k] == table[i];
      TakenWithin(rows, qty, k);
    } else {
      forall b | b in rows ensures b.id != table[i].id {
        var j :| 0 <= j < |table| && table[j] == b;
        assert j != i;
      }
      NotTaken(rows, qty, table[i].id);
    }
  }

  // ---------------------------------------------------------------- allocating in two steps

  lemma {:induction false} InsertDeducted(b: Batch, rows: seq<Batch>, takes: seq<Allocation>)
    ensures Insert(Less(b, takes), Deducted(rows, takes), Earlier()) == Deducted(Insert(b, rows, Earlier()), takes)
  {
    if rows == [] || Earlier()(b, rows[0]) {
      assert ([b] + rows)[1..] == rows;
    } else {
      var rest := Insert(b, rows[1..], Earlier());
      InsertDeducted(b, rows[1..], takes);
      assert ([rows[0]] + rest)[1..] == rest;
      assert Deducted(rows, takes)[1..] == Deducted(rows[1..], takes);
    }
  }

  lemma {:induction false} SortDeducted(rows: seq<Batch>, takes: seq<Allocation>)
    ensures Sort(Deducted(rows, takes), Earlier()) == Deducted(Sort(rows, Earlier()), takes)
  {
    if rows != [] {
      var first := Less(rows[0], takes);
      SortDeducted(rows[1..], takes);
      InsertDeducted(rows[0], Sort(rows[1..], Earlier()), takes);
      assert Deducted(rows, takes) == [first] + Deducted(rows[1..], takes);
    }
  }

  /** The table and the query's rows agree on what is in stock after takes that only take. */
  lemma {:induction false} StockedDeducted(table: seq<Batch>, itemId: nat, takes: seq<Allocation>)
    requires forall b :: b in table ==> TakenFrom(takes, b.id) >= 0
    ensures Stocked(Deducted(table, takes), itemId) == Stocked(Deducted(Stocked(table, itemId), takes), itemId)
  {
    if table != [] {
      assert table[0] in table && table == [table[0]] + table[1..];
      StockedDeducted(table[1..], itemId, takes);
      StockedDeductedCons(table[0], table[1..], itemId, takes);
    }
  }

  lemma StockedDeductedCons(b: Batch, tail: seq<Batch>, itemId: nat, takes: seq<Allocation>)
    requires TakenFrom(takes, b.id) >= 0
    requires Stocked(Deducted(tail, takes), itemId) == Stocked(Deducted(Stocked(tail, itemId), takes), itemId)
    ensures Stocked(Deducted([b] + tail, takes), itemId) == Stocked(Deducted(Stocked([b] + tail, itemId), takes), itemId)
  {
    var rest := Stocked(tail, itemId);
    if !InStock(b, itemId) {
      assert Stocked([b] + tail, itemId) == rest;
    }
  }

  lemma SortStocked(rows: seq<Batch>, itemId: nat)
    ensures Sort(Stocked(rows, itemId), Earlier()) == Stocked(Sort(rows, Earlier()), itemId)
  {
    SortFilter(rows, Earlier(), (b: Batch) => InStock(b, itemId));
  }

  /** What the next query lists: the same rows in the same order, less what was taken, without the emptied ones. */
  lemma SelectDeducted(table: seq<Batch>, itemId: nat, takes: seq<Allocation>)
    requires forall b :: b in table ==> TakenFrom(takes, b.id) >= 0
    ensures Select(Deducted(table, takes), itemId) == Stocked(Deducted(Select(table, itemId), takes), itemId)
  {
    StockedDeducted(table, itemId, takes);
    SortStocked(Deducted(Stocked(table, itemId), takes), itemId);
    SortDeducted(Stocked(table, itemId), takes);
  }

  lemma {:induction false} AllStocked(rows: seq<Batch>, itemId: nat)
    requires forall b :: b in rows ==> InStock(b, itemId)
    ensures Stocked(rows, itemId) == rows
  {
    if rows != [] {
      AllStocked(rows[1..], itemId);
      assert rows == [rows[0]] + rows[1..];
    }
  }

  lemma DeductedSkips(rows: seq<Batch>, first: Allocation, takes: seq<Allocation>)
    requires forall b :: b in rows ==> b.id != first.batchId
    ensures Deducted(rows, [first] + takes) == Deducted(rows, takes)
  {
    DeductedAt(rows, [first] + takes);
    DeductedAt(rows, takes);
    assert ([first] + takes)[1..] == takes;
  }

  /** The rows that remain after a first allocation. */
  function Remaining(rows: seq<Batch>, itemId: nat, a: int): seq<Batch> {
    Stocked(Deducted(rows, Takes(rows, a)), itemId)
  }

  /** A first allocation of nothing. */
  lemma RemainingAll(rows: seq<Batch>, itemId: nat, a: int)
    requires a <= 0 && forall b :: b in rows ==> InStock(b, itemId)
    ensures Remaining(rows, itemId, a) == rows
  {
    DeductedNone(rows);
    AllStocked(rows, itemId);
  }

  /** The rows after a first allocation that takes something from the oldest one. */
  lemma DeductedHead(rows: seq<Batch>, a: int)
    requires rows != [] && a > 0 && UniqueIds(rows)
    ensures var take := Min(rows[0].remaining, a);
      Deducted(rows, Takes(rows, a)) == [rows[0].(remaining := rows[0].remaining - take)] + Deducted(rows[1..], Takes(rows[1..], a - take))
  {
    var r, rest, take := rows[0], rows[1..], Min(rows[0].remaining, a);
    var first, takes := Allocation(r.id, take), Takes(rest, a - take);
    NotTaken(rest, a - take, r.id);
    DeductedSkips(rest, first, takes);
    assert ([first] + takes)[1..] == takes;
    assert TakenFrom([first] + takes, r.id) == take;
  }

  predicate Listing(rows: seq<Batch>, itemId: nat) {
    UniqueIds(rows) && forall b :: b in rows ==> InStock(b, itemId)
  }

  lemma ListingTail(rows: seq<Batch>, itemId: nat)
    requires rows != [] && Listing(rows, itemId)
    ensures Listing(rows[1..], itemId) && rows[0].remaining > 0 && InStock(rows[0], itemId)
  {
    assert rows[0] in rows;
  }

  /** The oldest row is emptied. */
  lemma RemainingEmptied(rows: seq<Batch>, itemId: nat, a: int)
    requires rows != [] && Listing(rows, itemId) && a >= rows[0].remaining
    ensures Remaining(rows, itemId, a) == Remaining(rows[1..], itemId, a - rows[0].remaining)
  {
    ListingTail(rows, itemId);
    DeductedHead(rows, a);
  }

  /** The oldest row serves the whole first allocation. */
  lemma RemainingPartly(rows: seq<Batch>, itemId: nat, a: int)
    requires rows != [] && Listing(rows, itemId) && 0 <= a < rows[0].remaining
    ensures Remaining(rows, itemId, a) == [rows[0].(remaining := rows[0].remaining - a)] + rows[1..]
  {
    ListingTail(rows, itemId);
    var rest := rows[1..];
    if a == 0 {
      RemainingAll(rows, itemId, a);
    } else {
      DeductedHead(rows, a);
      RemainingAll(rest, itemId, 0);
    }
  }

  /** From one batch, allocations of `a` and then `b` take what one of `a + b` takes. */
  ghost predicate Splits(rows: seq<Batch>, itemId: nat, a: int, b: int, id: nat) {
    TakenFrom(Takes(rows, a), id) + TakenFrom(Takes(Remaining(rows, itemId, a), b), id) == TakenFrom(Takes(rows, a + b), id)
  }

  lemma SplitsWhenEmptied(r: Batch, rest: seq<Batch>, itemId: nat, a: int, b: int, id: nat)
    requires Listing([r] + rest, itemId) && 0 < r.remaining <= a && b >= 0 && Splits(rest, itemId, a - r.remaining, b, id)
    ensures Splits([r] + rest, itemId, a, b, id)
  {
    RemainingEmptied([r] + rest, itemId, a);
    assert ([r] + rest)[1..] == rest;
    HeadIsEmptied(r, rest, Remaining(rest, itemId, a - r.remaining), a, b, id);
  }

  lemma SplitsWhenPartlyUsed(r: Batch, rest: seq<Batch>, itemId: nat, a: int, b: int, id: nat)
    requires Listing([r] + rest, itemId) && 0 <= a < r.remaining && b >= 0
    ensures Splits([r] + rest, itemId, a, b, id)
  {
    RemainingPartly([r] + rest, itemId, a);
    assert ([r] + rest)[1..] == rest;
  }

  lemma {:induction false} TwoTakesAreOne(rows: seq<Batch>, itemId: nat, a: int, b: int, id: nat)
    requires a >= 0 && b >= 0 && Listing(rows, itemId)
    ensures Splits(rows, itemId, a, b, id)
    decreases |rows|
  {
    if rows != [] {
      var r, rest := rows[0], rows[1..];
      assert rows == [r] + rest;
      ListingTail(rows, itemId);
      if a >= r.remaining {
        TwoTakesAreOne(rest, itemId, a - r.remaining, b, id);
        SplitsWhenEmptied(r, rest, itemId, a, b, id);
      } else {
        SplitsWhenPartlyUsed(r, rest, itemId, a, b, id);
      }
    }
  }

  /** The first allocation empties the oldest batch and leaves `left`. */
  lemma HeadIsEmptied(r: Batch, rest: seq<Batch>, left: seq<Batch>, a: int, b: int, id: nat)
    requires 0 < r.remaining <= a && b >= 0
    requires TakenFrom(Takes(rest, a - r.remaining), id) + TakenFrom(Takes(left, b), id) == TakenFrom(Takes(rest, a - r.remaining + b), id)
    ensures TakenFrom(Takes([r] + rest, a), id) + TakenFrom(Takes(left, b), id) == TakenFrom(Takes([r] + rest, a + b), id)
  {
  }

  lemma {:induction false} RemainingTotal(rows: seq<Batch>, itemId: nat, a: int)
    requires 0 <= a <= Total(rows) && Listing(rows, itemId)
    ensures Total(Remaining(rows, itemId, a)) == Total(rows) - a
  {
    if rows != [] {
      var r, rest := rows[0], rows[1..];
      ListingTail(rows, itemId);
      if a >= r.remaining {
        RemainingEmptied(rows, itemId, a);
        RemainingTotal(rest, itemId, a - r.remaining);
      } else {
        RemainingPartly(rows, itemId, a);
        assert ([r.(remaining := r.remaining - a)] + rest)[1..] == rest;
      }
    }
  }

  lemma DeductedTwice(table: seq<Batch>, first: seq<Allocation>, second: seq<Allocation>, both: seq<Allocation>)
    requires forall b :: b in table ==> TakenFrom(first, b.id) + TakenFrom(second, b.id) == TakenFrom(both, b.id)
    ensures Deducted(Deducted(table, first), second) == Deducted(table, both)
  {
    DeductedAt(table, first);
    DeductedAt(Deducted(table, first), second);
    DeductedAt(table, both);
    forall i | 0 <= i < |table| ensures Deducted(Deducted(table, first), second)[i] == Deducted(table, both)[i] {
      assert table[i] in table;
    }
  }

  lemma OnlyTakes(table: seq<Batch>, itemId: nat, a: int)
    requires UniqueIds(table)
    ensures forall x :: x in table ==> TakenFrom(Takes(Select(table, itemId), a), x.id) >= 0
  {
    var takes := Takes(Select(table, itemId), a);
    DeductedAt(table, takes);
    forall x | x in table ensures TakenFrom(takes, x.id) >= 0 {
      var i :| 0 <= i < |table| && table[i] == x;
      OnlyTheItemsStockIsTouched(table, itemId, a, i);
    }
  }

  lemma SelectIsListing(table: seq<Batch>, itemId: nat)
    requires UniqueIds(table)
    ensures Listing(Select(table, itemId), itemId) && Total(Select(table, itemId)) == Total(Stocked(table, itemId))
  {
    SelectMeaning(table, itemId);
    StockedUnique(table, itemId);
    SortUnique(Stocked(table, itemId));
  }

  /**
   * Allocating `a` and then `b` leaves the table as allocating `a + b` at once, and the second allocation is short exactly
   * when the single one is.
   */
  lemma AllocatingInTwoSteps(table: seq<Batch>, itemId: nat, a: int, b: int)
    requires UniqueIds(table) && 0 <= a <= Total(Stocked(table, itemId)) && b >= 0
    ensures var then1 := Deducted(table, Takes(Select(table, itemId), a));
      && Deducted(then1, Takes(Select(then1, itemId), b)) == Deducted(table, Takes(Select(table, itemId), a + b))
      && (b <= Total(Stocked(then1, itemId)) <==> a + b <= Total(Stocked(table, itemId)))
  {
    var rows := Select(table, itemId);
    var first := Takes(rows, a);
    var then1 := Deducted(table, first);
    SelectIsListing(table, itemId);
    SelectMeaning(then1, itemId);
    OnlyTakes(table, itemId, a);
    SelectDeducted(table, itemId, first);
    var second, both := Takes(Select(then1, itemId), b), Takes(rows, a + b);
    forall x | x in table ensures TakenFrom(first, x.id) + TakenFrom(second, x.id) == TakenFrom(both, x.id) {
      TwoTakesAreOne(rows, itemId, a, b, x.id);
    }
    DeductedTwice(table, first, second, both);
    RemainingTotal(rows, itemId, a);
  }
}
