/**
 * What the first save over an empty table does to the sidebar of a user who does not see every item (AppShell.tsx:74-114).
 * Before it, the rows of a container stand in the order of their first visible items;
 * after it, in the order of their first items, visible or not.
 * So the sidebar changes exactly if two rows of a container disagree in this.
 */
module MenuVisible {
  import opened Options
  import opened MenuTypes
  import opened MenuResolve
  import opened MenuMerge
  import opened MenuOrder
  import opened EditorTree
  import opened MenuApply
  import opened MenuFirstSave
  import opened MenuSidebar

  // ---------------------------------------------------------------- the visible part of an order

  predicate Sees(defaults: seq<NavItem>, can: set<string>, i: int) {
    0 <= i < |defaults| && Granted(defaults[i], can)
  }

  function Seen(defaults: seq<NavItem>, can: set<string>, order: seq<int>): (seen: seq<int>)
    ensures forall i :: i in seen <==> i in order && Sees(defaults, can, i)
  {
    if order == [] then []
    else
      var last := order[|order| - 1];
      assert order == order[..|order| - 1] + [last];
      Seen(defaults, can, order[..|order| - 1]) + if Sees(defaults, can, last) then [last] else []
  }

  lemma {:induction false} SeenConcat(defaults: seq<NavItem>, can: set<string>, a: seq<int>, b: seq<int>)
    ensures Seen(defaults, can, a + b) == Seen(defaults, can, a) + Seen(defaults, can, b)
  {
    if b == [] {
      assert a + b == a;
    } else {
      var front := b[..|b| - 1];
      assert (a + b)[..|a + b| - 1] == a + front;
      SeenConcat(defaults, can, a, front);
    }
  }

  lemma {:induction false} SeenOnce(defaults: seq<NavItem>, can: set<string>, order: seq<int>)
    requires NoDup(order)
    ensures NoDup(Seen(defaults, can, order))
  {
    if order != [] {
      var n := |order| - 1;
      assert order[n] !in order[..n];
      SeenOnce(defaults, can, order[..n]);
    }
  }

  lemma {:induction false} SeenIncreases(defaults: seq<NavItem>, can: set<string>, order: seq<int>)
    requires Increasing(order)
    ensures Increasing(Seen(defaults, can, order))
  {
    if order != [] {
      var n := |order| - 1;
      var front := order[..n];
      SeenIncreases(defaults, can, front);
      forall i | i in Seen(defaults, can, front) ensures i < order[n] {
        var t :| 0 <= t < n && front[t] == i;
      }
      IncreasingConcat(Seen(defaults, can, front), if Sees(defaults, can, order[n]) then [order[n]] else []);
    }
  }

  /** What a user sees of a displayed menu displays the visible items. */
  lemma {:induction false} VisibleDisplays(defaults: seq<NavItem>, items: seq<NavItem>, order: seq<int>, can: set<string>)
    requires Displays(defaults, items, order) && forall t :: 0 <= t < |order| ==> items[t].permission == defaults[order[t]].permission
    ensures Displays(defaults, VisibleItems(items, can), Seen(defaults, can, order))
  {
    if order != [] {
      var n := |order| - 1;
      VisibleDisplays(defaults, items[..n], order[..n], can);
      assert Granted(items[n], can) <==> Sees(defaults, can, order[n]);
    }
  }

  // ---------------------------------------------------------------- the order of the rows

  /** An item of `a` comes up before any of `b` does. */
  ghost predicate ComesBefore(defaults: seq<NavItem>, m: ResolvedMenu, c: Option<Key>, order: seq<int>, a: Row, b: Row) {
    exists t :: 0 <= t < |order| && RowAt(defaults, m, c, order[t]) == Some(a)
                && forall u :: 0 <= u <= t ==> RowAt(defaults, m, c, order[u]) != Some(b)
  }

  lemma LongerOrder(defaults: seq<NavItem>, m: ResolvedMenu, c: Option<Key>, order: seq<int>, i: int, a: Row, b: Row)
    requires ComesBefore(defaults, m, c, order, a, b)
    ensures ComesBefore(defaults, m, c, order + [i], a, b)
  {
    var t :| 0 <= t < |order| && RowAt(defaults, m, c, order[t]) == Some(a)
             && forall u :: 0 <= u <= t ==> RowAt(defaults, m, c, order[u]) != Some(b);
    var more := order + [i];
    assert RowAt(defaults, m, c, more[t]) == Some(a);
    assert forall u :: 0 <= u <= t ==> more[u] == order[u];
  }

  lemma {:induction false} NewComesLast(defaults: seq<NavItem>, m: ResolvedMenu, c: Option<Key>, order: seq<int>, a: Row, b: Row)
    requires a in FirstRows(defaults, m, c, order) && b !in FirstRows(defaults, m, c, order)
    ensures ComesBefore(defaults, m, c, order, a, b)
  {
    FirstRowsMembers(defaults, m, c, order, a);
    FirstRowsMembers(defaults, m, c, order, b);
    var i :| i in order && RowAt(defaults, m, c, i) == Some(a);
    var t :| 0 <= t < |order| && order[t] == i;
    assert forall u :: 0 <= u <= t ==> order[u] in order;
  }

  lemma {:induction false} RowsComeUpOneByOne(defaults: seq<NavItem>, m: ResolvedMenu, c: Option<Key>, order: seq<int>)
    ensures var rows := FirstRows(defaults, m, c, order);
      forall i, j :: 0 <= i < j < |rows| ==> ComesBefore(defaults, m, c, order, rows[i], rows[j])
  {
    if order != [] {
      var n := |order| - 1;
      var front, last := order[..n], order[n];
      var before, rows := FirstRows(defaults, m, c, front), FirstRows(defaults, m, c, order);
      assert order == front + [last];
      RowsComeUpOneByOne(defaults, m, c, front);
      forall i, j | 0 <= i < j < |rows| ensures ComesBefore(defaults, m, c, order, rows[i], rows[j]) {
        if j == |before| {
          NewComesLast(defaults, m, c, front, rows[i], rows[j]);
        } else {
          assert rows[i] == before[i] && rows[j] == before[j];
          assert ComesBefore(defaults, m, c, front, before[i], before[j]);
        }
        LongerOrder(defaults, m, c, front, last, rows[i], rows[j]);
      }
    }
  }

  lemma {:induction false} IndexOfInhabited(defaults: seq<NavItem>, m: ResolvedMenu, row: Row) returns (n: int)
    requires ShowsDefaults(defaults, m) && UniqueKeys(defaults) && Inhabited(defaults, m) && IsRow(m, row)
    ensures row.Order() == Infinite && row.DefaultIndex() == Fin(n) && Under(defaults, row, n)
  {
    IndexIsFirst(defaults, m, row);
    var i :| Under(defaults, row, i);
    assert AtMost(row.DefaultIndex(), Fin(i));
    n := row.DefaultIndex().n;
  }

  /** Among the rows that have items the indexes differ. */
  lemma {:induction false} IndexesDiffer(defaults: seq<NavItem>, m: ResolvedMenu, a: Row, b: Row)
    requires ShowsDefaults(defaults, m) && UniqueKeys(defaults) && Inhabited(defaults, m)
    requires IsRow(m, a) && IsRow(m, b) && a.Parent() == b.Parent() && a != b
    ensures Before(a, b) <==> !Before(b, a)
  {
    var i := IndexOfInhabited(defaults, m, a);
    var j := IndexOfInhabited(defaults, m, b);
    if i == j {
      SiblingsAreApart(defaults, m, a, b, i);
    }
  }

  // ---------------------------------------------------------------- after the save

  ghost predicate Earlier(s: seq<int>, x: int, y: int) {
    exists t :: 0 <= t <= |s| && x in s[..t] && y in s[t..]
  }

  lemma EarlierInside(a: seq<int>, b: seq<int>, c: seq<int>, x: int, y: int)
    requires Earlier(b, x, y)
    ensures Earlier(a + b + c, x, y)
  {
    var t :| 0 <= t <= |b| && x in b[..t] && y in b[t..];
    var s, u := a + b + c, |a| + t;
    assert s[..u] == a + b[..t] && s[u..] == b[t..] + c;
  }

  lemma {:induction false} EarlierSeen(defaults: seq<NavItem>, can: set<string>, s: seq<int>, x: int, y: int)
    requires Earlier(s, x, y) && Sees(defaults, can, x) && Sees(defaults, can, y)
    ensures Earlier(Seen(defaults, can, s), x, y)
  {
    var t :| 0 <= t <= |s| && x in s[..t] && y in s[t..];
    var a, b := Seen(defaults, can, s[..t]), Seen(defaults, can, s[t..]);
    assert s == s[..t] + s[t..];
    SeenConcat(defaults, can, s[..t], s[t..]);
    assert (a + b)[..|a|] == a && (a + b)[|a|..] == b;
  }

  lemma EarlierInConcat(a: seq<int>, b: seq<int>, x: int, y: int)
    requires x in a && y in b
    ensures Earlier(a + b, x, y)
  {
    assert (a + b)[..|a|] == a && (a + b)[|a|..] == b;
  }

  lemma {:induction false} EarlierInRows(m: ResolvedMenu, c: Option<Key>, rows: seq<Row>, p: nat, q: nat, x: int, y: int)
    requires Forest(m) && Hangs(m, c) && p < q < |rows|
    requires forall row :: row in rows ==> IsRow(m, row) && row.Parent() == c
    requires IsRow(m, rows[p]) && IsRow(m, rows[q]) && x in RowOrder(m, rows[p]) && y in RowOrder(m, rows[q])
    ensures Earlier(OrderRows(m, c, rows), x, y)
  {
    var head, rest := RowOrder(m, rows[0]), OrderRows(m, c, rows[1..]);
    OrderRowsCons(m, c, rows);
    assert rows[1..][q - 1] == rows[q];
    if p == 0 {
      RowIsOrdered(m, c, rows[1..], rows[q]);
      EarlierInConcat(head, rest, x, y);
    } else {
      EarlierInRows(m, c, rows[1..], p - 1, q - 1, x, y);
      EarlierInside(head, rest, [], x, y);
      assert head + rest + [] == head + rest;
    }
  }

  lemma SortedAt(rows: seq<Row>, i: nat, j: nat)
    requires Sorted(rows) && i < j < |rows|
    ensures !Before(rows[j], rows[i])
  {
    assert InOrder()(rows[i], rows[j]);
  }

  lemma RowsInOrder(rows: seq<Row>, a: Row, b: Row) returns (p: nat, q: nat)
    requires Sorted(rows) && a in rows && b in rows && Before(a, b)
    ensures p < q < |rows| && rows[p] == a && rows[q] == b
  {
    p :| 0 <= p < |rows| && rows[p] == a;
    q :| 0 <= q < |rows| && rows[q] == b;
    if q < p {
      SortedAt(rows, q, p);
    }
  }

  /** Of two rows of a container, all items of the one with the smaller index stand before all of the other. */
  lemma {:induction false} RowsStandInOrder(defaults: seq<NavItem>, m: ResolvedMenu, c: Option<Key>, a: Row, b: Row, x: int, y: int)
    requires ShowsDefaults(defaults, m) && UniqueKeys(defaults) && Hangs(m, c)
    requires IsRow(m, a) && IsRow(m, b) && a.Parent() == c && b.Parent() == c && Before(a, b)
    requires x in RowOrder(m, a) && y in RowOrder(m, b)
    ensures Earlier(Order(m, None), x, y)
  {
    var rows := RowsUnder(m, c);
    SortMembers(rows);
    SortSpec(rows);
    var p, q := RowsInOrder(Sort(rows), a, b);
    EarlierInRows(m, c, Sort(rows), p, q, x, y);
    var whole, piece := Order(m, None), Order(m, c);
    var at := ContainerStandsTogether(m, c);
    SplitAround(whole, piece, at);
    EarlierInside(whole[..at], piece, whole[at + |piece|..], x, y);
  }

  lemma {:induction false} UnderIsOrdered(defaults: seq<NavItem>, m: ResolvedMenu, row: Row, i: int)
    requires ShowsDefaults(defaults, m) && UniqueKeys(defaults) && IsRow(m, row) && Under(defaults, row, i)
    ensures i in RowOrder(m, row)
  {
    RowHangs(m, row);
    if row.GroupEntry? {
      BelowIsOrdered(defaults, m, Some(row.group.nodeKey), i);
    }
  }

  lemma NotBothWays(s: seq<int>, x: int, t: nat)
    requires NoDup(s) && t < |s| && Earlier(s, x, s[t])
    ensures exists u :: 0 <= u < t && s[u] == x
  {
    var k :| 0 <= k <= |s| && x in s[..k] && s[t] in s[k..];
    var u :| 0 <= u < k && s[..k][u] == x;
    var v :| 0 <= v < |s| - k && s[k..][v] == s[t];
    assert s[k + v] == s[t];
  }

  /** Where an item of `a` is seen, all seen items of a row with a smaller index have come up. */
  lemma {:induction false} SmallerRowsCameUp(defaults: seq<NavItem>, m: ResolvedMenu, c: Option<Key>, can: set<string>,
                                             a: Row, b: Row, t: nat, x: int)
    requires ShowsDefaults(defaults, m) && UniqueKeys(defaults) && Hangs(m, c) && Before(b, a)
    requires var seen := Seen(defaults, can, Order(m, None));
      t < |seen| && x in seen && RowAt(defaults, m, c, seen[t]) == Some(a) && RowAt(defaults, m, c, x) == Some(b)
    ensures exists u :: 0 <= u < t && Seen(defaults, can, Order(m, None))[u] == x
  {
    var order := Order(m, None);
    var seen := Seen(defaults, can, order);
    UnderIsOrdered(defaults, m, a, seen[t]);
    UnderIsOrdered(defaults, m, b, x);
    RowsStandInOrder(defaults, m, c, b, a, x, seen[t]);
    assert seen[t] in seen;
    EarlierSeen(defaults, can, order, x, seen[t]);
    OrderLists(defaults, m, None);
    SeenOnce(defaults, can, order);
    NotBothWays(seen, x, t);
  }

  lemma {:induction false} SavedRowsComeSorted(defaults: seq<NavItem>, m: ResolvedMenu, c: Option<Key>, can: set<string>, a: Row, b: Row)
    requires ShowsDefaults(defaults, m) && UniqueKeys(defaults) && Inhabited(defaults, m) && Hangs(m, c)
    requires var seen := Seen(defaults, can, Order(m, None));
      a in FirstRows(defaults, m, c, seen) && b in FirstRows(defaults, m, c, seen) && a != b && ComesBefore(defaults, m, c, seen, a, b)
    ensures Before(a, b)
  {
    var seen := Seen(defaults, can, Order(m, None));
    FirstRowsMembers(defaults, m, c, seen, a);
    FirstRowsMembers(defaults, m, c, seen, b);
    var x :| x in seen && RowAt(defaults, m, c, x) == Some(b);
    var t :| 0 <= t < |seen| && RowAt(defaults, m, c, seen[t]) == Some(a)
             && forall u :: 0 <= u <= t ==> RowAt(defaults, m, c, seen[u]) != Some(b);
    IndexesDiffer(defaults, m, a, b);
    if Before(b, a) {
      SmallerRowsCameUp(defaults, m, c, can, a, b, t, x);
    }
  }

  /** After the save the visible rows of a container stand in the order of their indexes. */
  lemma {:induction false} SavedRowsAreSorted(defaults: seq<NavItem>, m: ResolvedMenu, c: Option<Key>, can: set<string>)
    requires ShowsDefaults(defaults, m) && UniqueKeys(defaults) && Inhabited(defaults, m) && Hangs(m, c)
    ensures StrictlySorted(FirstRows(defaults, m, c, Seen(defaults, can, Order(m, None))))
  {
    var seen := Seen(defaults, can, Order(m, None));
    var rows := FirstRows(defaults, m, c, seen);
    RowsComeUpOneByOne(defaults, m, c, seen);
    FirstRowsOnce(defaults, m, c, seen);
    forall i, j | 0 <= i < j < |rows| ensures Before(rows[i], rows[j]) {
      SavedRowsComeSorted(defaults, m, c, can, rows[i], rows[j]);
    }
  }

  lemma {:induction false} FirstRowsOnce(defaults: seq<NavItem>, m: ResolvedMenu, c: Option<Key>, order: seq<int>)
    ensures NoDup(FirstRows(defaults, m, c, order))
  {
    if order != [] {
      FirstRowsOnce(defaults, m, c, order[..|order| - 1]);
    }
  }

  // ---------------------------------------------------------------- before the save

  /** A visible item of `b`, the later row, comes before all visible items of `a`. */
  ghost predicate RowsSwap(defaults: seq<NavItem>, m: ResolvedMenu, can: set<string>, a: Row, b: Row, i: int, j: int) {
    && IsRow(m, a) && IsRow(m, b) && a.Parent() == b.Parent() && a != b && Before(a, b)
    && Under(defaults, a, i) && Sees(defaults, can, i) && Under(defaults, b, j) && Sees(defaults, can, j)
    && forall y :: Under(defaults, a, y) && Sees(defaults, can, y) ==> j < y
  }

  lemma IncreasingAt(s: seq<int>, t: nat, y: int)
    requires Increasing(s) && t < |s| && y in s
    ensures y < s[t] <==> exists u :: 0 <= u < t && s[u] == y
  {
    var u :| 0 <= u < |s| && s[u] == y;
  }

  lemma {:induction false} FirstSeenIsLess(defaults: seq<NavItem>, m: ResolvedMenu, c: Option<Key>, can: set<string>, order: seq<int>, a: Row, b: Row)
    returns (j: int)
    requires ShowsDefaults(defaults, m) && UniqueKeys(defaults) && Increasing(order) && ComesBefore(defaults, m, c, order, b, a)
    ensures j in order && RowAt(defaults, m, c, j) == Some(b)
    ensures forall y :: y in order && RowAt(defaults, m, c, y) == Some(a) ==> j < y
  {
    var t :| 0 <= t < |order| && RowAt(defaults, m, c, order[t]) == Some(b)
             && forall u :: 0 <= u <= t ==> RowAt(defaults, m, c, order[u]) != Some(a);
    j := order[t];
    forall y | y in order && RowAt(defaults, m, c, y) == Some(a) ensures j < y {
      IncreasingAt(order, t, y);
    }
  }

  ghost function SeenBefore(defaults: seq<NavItem>, can: set<string>): (order: seq<int>)
    ensures Increasing(order) && forall i :: i in order <==> Sees(defaults, can, i)
  {
    DefaultOrderIsPermutation(|defaults|);
    SeenIncreases(defaults, can, Upto(|defaults|));
    Seen(defaults, can, Upto(|defaults|))
  }

  /** Two rows that come up against their indexes. */
  lemma {:induction false} UnsortedRows(defaults: seq<NavItem>, m: ResolvedMenu, c: Option<Key>, order: seq<int>) returns (a: Row, b: Row)
    requires ShowsDefaults(defaults, m) && UniqueKeys(defaults) && Inhabited(defaults, m)
    requires !StrictlySorted(FirstRows(defaults, m, c, order))
    ensures a in FirstRows(defaults, m, c, order) && b in FirstRows(defaults, m, c, order) && a != b
    ensures !Before(b, a) && ComesBefore(defaults, m, c, order, b, a)
  {
    var rows := FirstRows(defaults, m, c, order);
    RowsComeUpOneByOne(defaults, m, c, order);
    FirstRowsOnce(defaults, m, c, order);
    var p, q :| 0 <= p < q < |rows| && !Before(rows[p], rows[q]);
    a, b := rows[q], rows[p];
  }

  lemma {:induction false} UnsortedRowsSwap(defaults: seq<NavItem>, m: ResolvedMenu, c: Option<Key>, can: set<string>)
    returns (a: Row, b: Row, i: int, j: int)
    requires ShowsDefaults(defaults, m) && UniqueKeys(defaults) && Inhabited(defaults, m)
    requires !StrictlySorted(FirstRows(defaults, m, c, SeenBefore(defaults, can)))
    ensures a.Parent() == c && RowsSwap(defaults, m, can, a, b, i, j)
  {
    var order := SeenBefore(defaults, can);
    a, b := UnsortedRows(defaults, m, c, order);
    FirstRowsMembers(defaults, m, c, order, a);
    FirstRowsMembers(defaults, m, c, order, b);
    i :| i in order && RowAt(defaults, m, c, i) == Some(a);
    j := FirstSeenIsLess(defaults, m, c, can, order, a, b);
    SwapOfUnsorted(defaults, m, c, can, a, b, i, j);
  }

  lemma {:induction false} SwapOfUnsorted(defaults: seq<NavItem>, m: ResolvedMenu, c: Option<Key>, can: set<string>, a: Row, b: Row, i: int, j: int)
    requires ShowsDefaults(defaults, m) && UniqueKeys(defaults) && Inhabited(defaults, m) && a != b && !Before(b, a)
    requires Belongs(defaults, m, c, i, a) && Sees(defaults, can, i) && Belongs(defaults, m, c, j, b) && Sees(defaults, can, j)
    requires forall y :: Sees(defaults, can, y) && RowAt(defaults, m, c, y) == Some(a) ==> j < y
    ensures RowsSwap(defaults, m, can, a, b, i, j)
  {
    IndexesDiffer(defaults, m, a, b);
    forall y | Under(defaults, a, y) && Sees(defaults, can, y) ensures j < y {
      RowAtIs(defaults, m, c, y, a);
    }
  }

  lemma {:induction false} SwappingRowComesLater(defaults: seq<NavItem>, m: ResolvedMenu, can: set<string>, a: Row, b: Row, i: int, j: int)
    requires ShowsDefaults(defaults, m) && UniqueKeys(defaults) && RowsSwap(defaults, m, can, a, b, i, j)
    ensures !ComesBefore(defaults, m, a.Parent(), SeenBefore(defaults, can), a, b)
  {
    var c, order := a.Parent(), SeenBefore(defaults, can);
    RowAtIs(defaults, m, c, j, b);
    if ComesBefore(defaults, m, c, order, a, b) {
      var y := FirstSeenIsLess(defaults, m, c, can, order, b, a);
    }
  }

  lemma {:induction false} SeenRowsComeUp(defaults: seq<NavItem>, m: ResolvedMenu, can: set<string>, row: Row, i: int)
    requires ShowsDefaults(defaults, m) && UniqueKeys(defaults) && IsRow(m, row) && Under(defaults, row, i) && Sees(defaults, can, i)
    ensures row in FirstRows(defaults, m, row.Parent(), SeenBefore(defaults, can))
  {
    RowAtIs(defaults, m, row.Parent(), i, row);
    FirstRowsMembers(defaults, m, row.Parent(), SeenBefore(defaults, can), row);
  }

  lemma {:induction false} SortedComesBefore(defaults: seq<NavItem>, m: ResolvedMenu, c: Option<Key>, order: seq<int>, a: Row, b: Row)
    requires var rows := FirstRows(defaults, m, c, order); StrictlySorted(rows) && a in rows && b in rows && a != b && !Before(b, a)
    ensures ComesBefore(defaults, m, c, order, a, b)
  {
    var rows := FirstRows(defaults, m, c, order);
    var p :| 0 <= p < |rows| && rows[p] == a;
    var q :| 0 <= q < |rows| && rows[q] == b;
    RowsComeUpOneByOne(defaults, m, c, order);
  }

  lemma {:induction false} SwappingRowsAreUnsorted(defaults: seq<NavItem>, m: ResolvedMenu, can: set<string>, a: Row, b: Row, i: int, j: int)
    requires ShowsDefaults(defaults, m) && UniqueKeys(defaults) && Inhabited(defaults, m) && RowsSwap(defaults, m, can, a, b, i, j)
    ensures !StrictlySorted(FirstRows(defaults, m, a.Parent(), SeenBefore(defaults, can)))
  {
    SeenRowsComeUp(defaults, m, can, a, i);
    SeenRowsComeUp(defaults, m, can, b, j);
    SwappingRowComesLater(defaults, m, can, a, b, i, j);
    IndexesDiffer(defaults, m, a, b);
    if StrictlySorted(FirstRows(defaults, m, a.Parent(), SeenBefore(defaults, can))) {
      SortedComesBefore(defaults, m, a.Parent(), SeenBefore(defaults, can), a, b);
    }
  }

  // ---------------------------------------------------------------- both sidebars

  lemma {:induction false} SameEntry(defaults: seq<NavItem>, m: ResolvedMenu, a: Row, b: Row)
    requires ShowsDefaults(defaults, m) && UniqueKeys(defaults) && IsRow(m, a) && IsRow(m, b)
    requires Indexed(defaults, a) && Indexed(defaults, b) && EntryOf(defaults, a) == EntryOf(defaults, b)
    ensures a == b
  {
    if a.ItemEntry? {
      var i := RowOfItem(defaults, m, a);
      var j := RowOfItem(defaults, m, b);
    }
  }

  lemma {:induction false} SameShown(defaults: seq<NavItem>, m: ResolvedMenu, c: Option<Key>, x: seq<int>, y: seq<int>)
    requires ShowsDefaults(defaults, m) && UniqueKeys(defaults)
    ensures ShownRows(defaults, m, c, x) == ShownRows(defaults, m, c, y) <==> FirstRows(defaults, m, c, x) == FirstRows(defaults, m, c, y)
  {
    var a, b := FirstRows(defaults, m, c, x), FirstRows(defaults, m, c, y);
    RowsAreIndexed(defaults, m, c, x);
    RowsAreIndexed(defaults, m, c, y);
    if Entries(defaults, a) == Entries(defaults, b) {
      assert |Entries(defaults, a)| == |Entries(defaults, b)|;
      forall i | 0 <= i < |a| ensures a[i] == b[i] {
        FirstRowsMembers(defaults, m, c, x, a[i]);
        FirstRowsMembers(defaults, m, c, y, b[i]);
        assert Entries(defaults, a)[i] == Entries(defaults, b)[i];
        SameEntry(defaults, m, a[i], b[i]);
      }
    }
  }

  /** The order in which a user sees the items after the save. */
  ghost function SeenAfter(defaults: seq<NavItem>, m: ResolvedMenu, can: set<string>): (order: seq<int>)
    requires ShowsDefaults(defaults, m) && UniqueKeys(defaults)
    ensures NoDup(order) && forall i :: i in order <==> Sees(defaults, can, i)
  {
    OrderIsPermutation(defaults, m);
    OrderLists(defaults, m, None);
    SeenOnce(defaults, can, Order(m, None));
    Seen(defaults, can, Order(m, None))
  }

  /** A container shows the same before and after exactly if its rows come up by their indexes. */
  lemma {:induction false} SameRowsExactly(defaults: seq<NavItem>, m: ResolvedMenu, c: Option<Key>, can: set<string>)
    requires ShowsDefaults(defaults, m) && UniqueKeys(defaults) && Inhabited(defaults, m) && Hangs(m, c)
    ensures FirstRows(defaults, m, c, SeenBefore(defaults, can)) == FirstRows(defaults, m, c, SeenAfter(defaults, m, can)) <==>
            StrictlySorted(FirstRows(defaults, m, c, SeenBefore(defaults, can)))
  {
    var x, y := SeenBefore(defaults, can), SeenAfter(defaults, m, can);
    var a, b := FirstRows(defaults, m, c, x), FirstRows(defaults, m, c, y);
    SavedRowsAreSorted(defaults, m, c, can);
    if StrictlySorted(a) {
      StrictlySortedOnce(b);
      forall row ensures row in a <==> row in b {
        FirstRowsMembers(defaults, m, c, x, row);
        FirstRowsMembers(defaults, m, c, y, row);
      }
      SameRowsSort(a, b);
      SameRowsSort(b, b);
    }
  }

  lemma {:induction false} SidebarBefore(defaults: seq<NavItem>, m: ResolvedMenu, can: set<string>)
    requires UniqueKeys(defaults) && Declared(defaults) && PlainNames(defaults) && ShowsDefaults(defaults, m)
    ensures Mirrors(defaults, m, SidebarOf(VisibleItems(defaults, can)), SeenBefore(defaults, can))
  {
    DefaultsDisplay(defaults);
    VisibleDisplays(defaults, defaults, Upto(|defaults|), can);
    SidebarMirrors(defaults, m, VisibleItems(defaults, can), SeenBefore(defaults, can));
  }

  lemma {:induction false} SidebarAfter(defaults: seq<NavItem>, m: ResolvedMenu, can: set<string>)
    requires UniqueKeys(defaults) && Declared(defaults) && PlainNames(defaults) && ShowsDefaults(defaults, m)
    requires AreIndexes(Order(m, None), |defaults|)
    ensures Mirrors(defaults, m, SidebarOf(VisibleItems(PlacedAll(defaults, Order(m, None)), can)), SeenAfter(defaults, m, can))
  {
    var order := Order(m, None);
    var placed := PlacedAll(defaults, order);
    PlacedDisplay(defaults, order);
    VisibleDisplays(defaults, placed, order, can);
    SidebarMirrors(defaults, m, VisibleItems(placed, can), SeenAfter(defaults, m, can));
  }

  lemma {:induction false} ContainersMirror(defaults: seq<NavItem>, m: ResolvedMenu, can: set<string>, a: Sidebar, b: Sidebar)
    requires ShowsDefaults(defaults, m) && UniqueKeys(defaults) && Inhabited(defaults, m)
    requires Mirrors(defaults, m, a, SeenBefore(defaults, can)) && Mirrors(defaults, m, b, SeenAfter(defaults, m, can))
    ensures forall c :: a.Has(c) <==> b.Has(c)
    ensures forall c :: a.Has(c) ==> Hangs(m, c)
    ensures forall c :: a.Has(c) ==> (a.At(c) == b.At(c) <==> StrictlySorted(FirstRows(defaults, m, c, SeenBefore(defaults, can))))
  {
    var x, y := SeenBefore(defaults, can), SeenAfter(defaults, m, can);
    forall c ensures a.Has(c) <==> b.Has(c) {
      assert c.Some? ==> (Entered(defaults, x, c.value) <==> Entered(defaults, y, c.value));
    }
    forall c | a.Has(c)
      ensures Hangs(m, c) && (a.At(c) == b.At(c) <==> StrictlySorted(FirstRows(defaults, m, c, x)))
    {
      if c.Some? {
        var i :| i in x && Below(defaults, c, i);
        GroupAboveIsThere(defaults, m, i, c.value);
      }
      SameShown(defaults, m, c, x, y);
      SameRowsExactly(defaults, m, c, can);
    }
  }

  // ---------------------------------------------------------------- in terms of the declared items

  function NamesAt(defaults: seq<NavItem>, i: nat): seq<string>
    requires i < |defaults|
  {
    PathOf(defaults[i])
  }

  /** The two items are in the same row of their container at depth `d`: the same group there, or the same item. */
  ghost predicate Together(defaults: seq<NavItem>, d: nat, i: int, j: int) {
    && 0 <= i < |defaults| && 0 <= j < |defaults|
    && var p, q := NamesAt(defaults, i), NamesAt(defaults, j);
    && d <= |p| && (i == j || (d < |p| && d < |q| && p[..d + 1] == q[..d + 1]))
  }

  /** They are in different rows of the same container. */
  ghost predicate Siblings(defaults: seq<NavItem>, d: nat, i: int, j: int) {
    && 0 <= i < |defaults| && 0 <= j < |defaults|
    && var p, q := NamesAt(defaults, i), NamesAt(defaults, j);
    && d <= |p| && d <= |q| && p[..d] == q[..d] && !Together(defaults, d, i, j)
  }

  /**
   * The row of `x` begins before that of `j`, but the user sees `j` before the first item `i` of it that is visible: for a
   * group whose first items are hidden from the user and which is interrupted.
   */
  ghost predicate Swaps(defaults: seq<NavItem>, can: set<string>, d: nat, x: int, i: int, j: int) {
    && Together(defaults, d, x, i) && Siblings(defaults, d, x, j) && Sees(defaults, can, i) && Sees(defaults, can, j)
    && (forall y :: Together(defaults, d, j, y) ==> x < y)
    && (forall y :: Together(defaults, d, x, y) && Sees(defaults, can, y) ==> j < y)
  }

  ghost predicate Reordered(defaults: seq<NavItem>, can: set<string>) {
    exists d, x, i, j :: Swaps(defaults, can, d, x, i, j)
  }

  lemma SameKeySamePath(p: seq<string>, q: seq<string>, d: nat, e: nat)
    requires (forall name :: name in p || name in q ==> NoSlash(name)) && d < |p| <= 2 && e < |q| <= 2
    ensures PathKeys(p)[d] == PathKeys(q)[e] <==> d == e && p[..d + 1] == q[..e + 1]
  {
    assert p[0] in p && q[0] in q && NoSlash(p[0]) && NoSlash(q[0]);
    if d == 1 {
      SlashAt(p[0], p[1]);
      assert '/' in PathKeys(p)[1];
    }
    if e == 1 {
      SlashAt(q[0], q[1]);
      assert '/' in PathKeys(q)[1];
    }
    if d == 1 && e == 1 {
      assert p[..2] == [p[0], p[1]] && q[..2] == [q[0], q[1]];
      if PathKeys(p)[1] == PathKeys(q)[1] {
        SplitAtSlash(p[0], p[1], q[0], q[1]);
        assert (p[0] + "/" + p[1])[|p[0]| + 1..] == p[1] && (q[0] + "/" + q[1])[|p[0]| + 1..] == q[1];
      }
    }
    if d == 0 && e == 0 {
      assert p[..1] == [p[0]] && q[..1] == [q[0]];
    }
  }

  lemma {:induction false} GroupsOfPlain(defaults: seq<NavItem>, i: nat)
    requires PlainNames(defaults) && i < |defaults|
    ensures GroupsAbove(defaults, i) == PathKeys(NamesAt(defaults, i)) && |NamesAt(defaults, i)| <= 2
    ensures forall name :: name in NamesAt(defaults, i) ==> NoSlash(name)
  {
    assert defaults[i] in defaults;
    GroupsAreThePath(defaults, i);
  }

  lemma {:induction false} KeyIsAtItsDepth(p: seq<string>, q: seq<string>, d: nat)
    requires (forall name :: name in p || name in q ==> NoSlash(name)) && d < |p| <= 2 && |q| <= 2
    ensures PathKeys(p)[d] in PathKeys(q) <==> d < |q| && p[..d + 1] == q[..d + 1]
  {
    forall e | 0 <= e < |q| ensures PathKeys(p)[d] == PathKeys(q)[e] <==> d == e && p[..d + 1] == q[..e + 1] {
      SameKeySamePath(p, q, d, e);
    }
    if d < |q| && p[..d + 1] == q[..d + 1] {
      assert PathKeys(p)[d] == PathKeys(q)[d];
    }
  }

  lemma {:induction false} GroupHoldsTogether(defaults: seq<NavItem>, x: nat, d: nat, y: nat)
    requires PlainNames(defaults) && x < |defaults| && y < |defaults| && d < |GroupsAbove(defaults, x)|
    ensures GroupsAbove(defaults, x)[d] in GroupsAbove(defaults, y) <==> Together(defaults, d, x, y)
  {
    GroupsOfPlain(defaults, x);
    GroupsOfPlain(defaults, y);
    KeyIsAtItsDepth(NamesAt(defaults, x), NamesAt(defaults, y), d);
  }

  /** The row of an item at a depth holds exactly the items together with it. */
  lemma {:induction false} UnderIsTogether(defaults: seq<NavItem>, m: ResolvedMenu, x: nat, d: nat)
    requires ShowsDefaults(defaults, m) && PlainNames(defaults) && x < |defaults| && d <= |GroupsAbove(defaults, x)|
    ensures forall y :: Under(defaults, RowOfDepth(defaults, m, x, d), y) <==> Together(defaults, d, x, y)
  {
    GroupsOfPlain(defaults, x);
    if d < |GroupsAbove(defaults, x)| {
      forall y: nat | y < |defaults| ensures GroupsAbove(defaults, x)[d] in GroupsAbove(defaults, y) <==> Together(defaults, d, x, y) {
        GroupHoldsTogether(defaults, x, d, y);
      }
    }
  }

  lemma {:induction false} DepthRow(defaults: seq<NavItem>, m: ResolvedMenu, i: nat, d: nat)
    requires ShowsDefaults(defaults, m) && UniqueKeys(defaults) && i < |defaults| && d <= |GroupsAbove(defaults, i)|
    ensures var row := RowOfDepth(defaults, m, i, d);
      IsRow(m, row) && row.Parent() == Containers(GroupsAbove(defaults, i))[d] && Under(defaults, row, i)
  {
    RowOfDepthBelongs(defaults, m, i, d);
  }

  lemma SameContainerOfPaths(p: seq<string>, q: seq<string>, d: nat, e: nat)
    requires (forall name :: name in p || name in q ==> NoSlash(name)) && d <= |p| <= 2 && e <= |q| <= 2
    ensures Containers(PathKeys(p))[d] == Containers(PathKeys(q))[e] <==> d == e && p[..d] == q[..e]
  {
    assert Containers(PathKeys(p))[d] == if d == 0 then None else Some(PathKeys(p)[d - 1]);
    assert Containers(PathKeys(q))[e] == if e == 0 then None else Some(PathKeys(q)[e - 1]);
    if d > 0 && e > 0 {
      SameKeySamePath(p, q, d - 1, e - 1);
    } else {
      assert p[..0] == q[..0];
    }
  }

  lemma {:induction false} SameContainerSamePrefix(defaults: seq<NavItem>, i: nat, j: nat, d: nat, e: nat)
    requires PlainNames(defaults) && i < |defaults| && j < |defaults|
    requires d <= |GroupsAbove(defaults, i)| && e <= |GroupsAbove(defaults, j)|
    ensures d <= |NamesAt(defaults, i)| && e <= |NamesAt(defaults, j)|
    ensures Containers(GroupsAbove(defaults, i))[d] == Containers(GroupsAbove(defaults, j))[e] <==>
            d == e && NamesAt(defaults, i)[..d] == NamesAt(defaults, j)[..e]
  {
    GroupsOfPlain(defaults, i);
    GroupsOfPlain(defaults, j);
    SameContainerOfPaths(NamesAt(defaults, i), NamesAt(defaults, j), d, e);
  }

  lemma {:induction false} RowHasDepth(defaults: seq<NavItem>, m: ResolvedMenu, row: Row, i: nat) returns (d: nat)
    requires ShowsDefaults(defaults, m) && UniqueKeys(defaults) && IsRow(m, row) && Under(defaults, row, i)
    ensures d <= |GroupsAbove(defaults, i)| && RowOfDepth(defaults, m, i, d) == row
  {
    var keys := GroupsAbove(defaults, i);
    if row.ItemEntry? {
      d := |keys|;
      var j := RowOfItem(defaults, m, row);
    } else {
      d :| 0 <= d < |keys| && keys[d] == row.group.nodeKey;
    }
  }

  /** The rows of two items at a depth are different rows of one container exactly if the items are siblings there. */
  lemma {:induction false} SiblingRows(defaults: seq<NavItem>, m: ResolvedMenu, i: nat, d: nat, j: nat, e: nat)
    requires ShowsDefaults(defaults, m) && UniqueKeys(defaults) && PlainNames(defaults) && i < |defaults| && j < |defaults|
    requires d <= |GroupsAbove(defaults, i)| && e <= |GroupsAbove(defaults, j)|
    ensures var a, b := RowOfDepth(defaults, m, i, d), RowOfDepth(defaults, m, j, e);
      a.Parent() == b.Parent() && a != b <==> d == e && Siblings(defaults, d, i, j)
  {
    var a, b := RowOfDepth(defaults, m, i, d), RowOfDepth(defaults, m, j, e);
    DepthRow(defaults, m, i, d);
    DepthRow(defaults, m, j, e);
    SameContainerSamePrefix(defaults, i, j, d, e);
    UnderIsTogether(defaults, m, i, d);
    if a.Parent() == b.Parent() && Under(defaults, a, j) {
      SiblingsAreApart(defaults, m, a, b, j);
    }
  }

  lemma TogetherIsSame(defaults: seq<NavItem>, d: nat, i: int, x: int)
    requires Together(defaults, d, i, x)
    ensures forall y :: Together(defaults, d, i, y) <==> Together(defaults, d, x, y)
    ensures forall j :: Siblings(defaults, d, i, j) <==> Siblings(defaults, d, x, j)
  {
    var p, q := NamesAt(defaults, i), NamesAt(defaults, x);
    if i != x {
      assert p[..d] == p[..d + 1][..d] && q[..d] == q[..d + 1][..d];
    }
  }

  /** A row comes before another if it has an item before all items of the other. */
  lemma {:induction false} BeforeByItem(defaults: seq<NavItem>, m: ResolvedMenu, a: Row, b: Row, x: int)
    requires ShowsDefaults(defaults, m) && UniqueKeys(defaults) && Inhabited(defaults, m) && IsRow(m, a) && IsRow(m, b)
    requires Under(defaults, a, x) && forall y :: Under(defaults, b, y) ==> x < y
    ensures Before(a, b)
  {
    var i := IndexOfInhabited(defaults, m, a);
    var j := IndexOfInhabited(defaults, m, b);
    IndexIsFirst(defaults, m, a);
  }

  lemma {:induction false} ItemOfBefore(defaults: seq<NavItem>, m: ResolvedMenu, a: Row, b: Row) returns (x: int)
    requires ShowsDefaults(defaults, m) && UniqueKeys(defaults) && Inhabited(defaults, m) && IsRow(m, a) && IsRow(m, b) && Before(a, b)
    ensures Under(defaults, a, x) && forall y :: Under(defaults, b, y) ==> x < y
  {
    x := IndexOfInhabited(defaults, m, a);
    var j := IndexOfInhabited(defaults, m, b);
    IndexIsFirst(defaults, m, b);
  }

  lemma {:induction false} SwapsFromRows(defaults: seq<NavItem>, m: ResolvedMenu, can: set<string>, a: Row, b: Row, i: int, j: int)
    requires ShowsDefaults(defaults, m) && UniqueKeys(defaults) && PlainNames(defaults) && RowsSwap(defaults, m, can, a, b, i, j)
    ensures Reordered(defaults, can)
  {
    var d := RowHasDepth(defaults, m, a, i);
    var e := RowHasDepth(defaults, m, b, j);
    SiblingRows(defaults, m, i, d, j, e);
    UnderIsTogether(defaults, m, i, d);
    UnderIsTogether(defaults, m, j, d);
    DefaultsAreInhabited(defaults, m);
    var x := ItemOfBefore(defaults, m, a, b);
    SwapsIfMoved(defaults, can, d, x, i, j);
  }

  lemma SwapsIfMoved(defaults: seq<NavItem>, can: set<string>, d: nat, x: int, i: int, j: int)
    requires Together(defaults, d, i, x) && Siblings(defaults, d, i, j) && Sees(defaults, can, i) && Sees(defaults, can, j)
    requires forall y :: Together(defaults, d, j, y) ==> x < y
    requires forall y :: Together(defaults, d, i, y) && Sees(defaults, can, y) ==> j < y
    ensures Reordered(defaults, can)
  {
    TogetherIsSame(defaults, d, i, x);
    assert Together(defaults, d, i, i);
    assert Swaps(defaults, can, d, x, i, j);
  }

  lemma {:induction false} RowsSwapIfApart(defaults: seq<NavItem>, m: ResolvedMenu, can: set<string>, d: nat, x: int, i: int, j: int, a: Row, b: Row)
    requires ShowsDefaults(defaults, m) && UniqueKeys(defaults) && Inhabited(defaults, m) && Swaps(defaults, can, d, x, i, j)
    requires IsRow(m, a) && IsRow(m, b) && a.Parent() == b.Parent() && a != b
    requires forall y :: Under(defaults, a, y) <==> Together(defaults, d, x, y)
    requires forall y :: Under(defaults, b, y) <==> Together(defaults, d, j, y)
    ensures RowsSwap(defaults, m, can, a, b, i, j)
  {
    assert Together(defaults, d, j, j) && Together(defaults, d, x, x);
    BeforeByItem(defaults, m, a, b, x);
  }

  lemma {:induction false} SiblingDepths(defaults: seq<NavItem>, d: nat, i: int, j: int)
    requires PlainNames(defaults) && Siblings(defaults, d, i, j)
    ensures d <= |GroupsAbove(defaults, i)| && d <= |GroupsAbove(defaults, j)|
  {
    GroupsOfPlain(defaults, i);
    GroupsOfPlain(defaults, j);
  }

  lemma {:induction false} RowsFromSwaps(defaults: seq<NavItem>, m: ResolvedMenu, can: set<string>, d: nat, x: int, i: int, j: int)
    requires ShowsDefaults(defaults, m) && UniqueKeys(defaults) && PlainNames(defaults) && Swaps(defaults, can, d, x, i, j)
    requires d <= |GroupsAbove(defaults, x)| && d <= |GroupsAbove(defaults, j)|
    ensures RowsSwap(defaults, m, can, RowOfDepth(defaults, m, x, d), RowOfDepth(defaults, m, j, d), i, j)
  {
    DepthRow(defaults, m, x, d);
    DepthRow(defaults, m, j, d);
    SiblingRows(defaults, m, x, d, j, d);
    UnderIsTogether(defaults, m, x, d);
    UnderIsTogether(defaults, m, j, d);
    DefaultsAreInhabited(defaults, m);
    RowsSwapIfApart(defaults, m, can, d, x, i, j, RowOfDepth(defaults, m, x, d), RowOfDepth(defaults, m, j, d));
  }

  // ---------------------------------------------------------------- main result

  lemma {:induction false} SameSidebarExactly(defaults: seq<NavItem>, m: ResolvedMenu, can: set<string>, a: Sidebar, b: Sidebar)
    requires UniqueKeys(defaults) && PlainNames(defaults) && ShowsDefaults(defaults, m)
    requires Mirrors(defaults, m, a, SeenBefore(defaults, can)) && Mirrors(defaults, m, b, SeenAfter(defaults, m, can))
    ensures a == b <==> !Reordered(defaults, can)
  {
    DefaultsAreInhabited(defaults, m);
    ContainersMirror(defaults, m, can, a, b);
    if Reordered(defaults, can) {
      var d, x, i, j :| Swaps(defaults, can, d, x, i, j);
      SiblingDepths(defaults, d, x, j);
      RowsFromSwaps(defaults, m, can, d, x, i, j);
      var row := RowOfDepth(defaults, m, x, d);
      SwappingRowsAreUnsorted(defaults, m, can, row, RowOfDepth(defaults, m, j, d), i, j);
      RowIsBelow(defaults, m, row, i);
      assert row.Parent().Some? ==> Entered(defaults, SeenBefore(defaults, can), row.Parent().value);
      assert a.Has(row.Parent());
    } else {
      forall c | a.Has(c) ensures a.At(c) == b.At(c) {
        if a.At(c) != b.At(c) {
          var r, o, i, j := UnsortedRowsSwap(defaults, m, c, can);
          SwapsFromRows(defaults, m, can, r, o, i, j);
        }
      }
      forall k ensures k in a.groups <==> k in b.groups {
        assert a.Has(Some(k)) <==> b.Has(Some(k));
      }
      SameSidebar(a, b);
    }
  }

  /**
   * The first save changes the sidebar of a user exactly if, in some container, the items this user sees of a row that
   * begins first come up only after a visible item of another row.
   */
  lemma {:induction false} UserSidebarIsKeptExactly(defaults: seq<NavItem>, can: set<string>)
    requires UniqueKeys(defaults) && Declared(defaults) && PlainNames(defaults)
    ensures SidebarOf(VisibleItems(FirstSaved(defaults), can)) == SidebarOf(VisibleItems(defaults, can)) <==>
            !Reordered(defaults, can)
  {
    var m := Resolve(defaults, EMPTY_MENU_CONFIG);
    FirstSavedIsOrder(defaults);
    SidebarBefore(defaults, m, can);
    SidebarAfter(defaults, m, can);
    SameSidebarExactly(defaults, m, can, SidebarOf(VisibleItems(defaults, can)), SidebarOf(VisibleItems(FirstSaved(defaults), can)));
  }

  /** Only a row whose first item is hidden from the user can fall behind. */
  lemma SwappedStartIsHidden(defaults: seq<NavItem>, can: set<string>, d: nat, x: int, i: int, j: int)
    requires Swaps(defaults, can, d, x, i, j)
    ensures !Sees(defaults, can, x)
  {
    assert Together(defaults, d, x, x) && Together(defaults, d, j, j);
  }

  lemma NothingHidden(defaults: seq<NavItem>, can: set<string>)
    requires forall i :: 0 <= i < |defaults| ==> Sees(defaults, can, i)
    ensures !Reordered(defaults, can)
  {
    forall d: nat, x, i, j | Swaps(defaults, can, d, x, i, j) ensures !Sees(defaults, can, x) {
      SwappedStartIsHidden(defaults, can, d, x, i, j);
    }
  }

  lemma InterruptedIsReordered(d: seq<NavItem>, name: string, can: set<string>)
    requires |d| == 3 && NamesAt(d, 0) == [name] && NamesAt(d, 1) == [] && NamesAt(d, 2) == [name]
    requires !Sees(d, can, 0) && Sees(d, can, 1) && Sees(d, can, 2)
    ensures Reordered(d, can)
  {
    assert Swaps(d, can, 0, 0, 2, 1);
  }

  lemma InterruptedIsReorderedExactly(d: seq<NavItem>, name: string, can: set<string>)
    requires |d| == 3 && NamesAt(d, 0) == [name] && NamesAt(d, 1) == [] && NamesAt(d, 2) == [name]
    requires Sees(d, can, 1) && Sees(d, can, 2)
    ensures Reordered(d, can) <==> !Sees(d, can, 0)
  {
    if Sees(d, can, 0) {
      NothingHidden(d, can);
    } else {
      InterruptedIsReordered(d, name, can);
    }
  }

  /** For instance: an item in a group, one outside and one in the group again, of which the user sees the last two. */
  lemma {:induction false} InterruptedGroupMoves(d: seq<NavItem>, name: string, can: set<string>)
    requires |d| == 3 && UniqueKeys(d) && Declared(d) && PlainNames(d)
    requires NamesAt(d, 0) == [name] && NamesAt(d, 1) == [] && NamesAt(d, 2) == [name]
    requires Sees(d, can, 1) && Sees(d, can, 2)
    ensures SidebarOf(VisibleItems(FirstSaved(d), can)) != SidebarOf(VisibleItems(d, can)) <==> !Sees(d, can, 0)
  {
    UserSidebarIsKeptExactly(d, can);
    InterruptedIsReorderedExactly(d, name, can);
  }
}
