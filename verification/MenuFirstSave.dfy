/**
 * The first save over an empty table, where the menu was the code defaults as they are (merge.ts:231-234).
 * The saved menu lists the default items in the order of the editor tree (`Order`), each under the names of its groups;
 * the order is the default one exactly when no group is interrupted,
 * because a row's index is that of its first item and the items of a group stand together in the tree;
 * the names are the declared ones exactly when they can be read back from the group keys.
 */
module MenuFirstSave {
  import opened Options
  import opened MenuTypes
  import opened MenuResolve
  import opened MenuMerge
  import opened MenuOrder
  import opened EditorTree
  import opened MenuRoundTrip
  import opened MenuApply
  import Seqs

  const EMPTY_MENU_CONFIG := Config([], [])

  // ---------------------------------------------------------------- the groups above an item

  /** The default groups above a place, outermost first. */
  function Chain(groups: seq<GroupRow>, parent: Option<Key>): seq<Key>
    requires GoodGroups(groups)
    decreases if parent.None? then 0 else 1 + |parent.value|
  {
    if parent.None? || parent.value !in GroupKeys(groups) then []
    else Chain(groups, GroupMap(groups)[parent.value].parentKey) + [parent.value]
  }

  /** The parent of a default group. */
  function Over(groups: seq<GroupRow>, k: Key): Option<Key>
    requires GoodGroups(groups) && k in GroupKeys(groups)
  {
    GroupMap(groups)[k].parentKey
  }

  lemma OverIsShorter(groups: seq<GroupRow>, k: Key)
    requires GoodGroups(groups) && k in GroupKeys(groups)
    ensures Over(groups, k).Some? ==> Over(groups, k).value in GroupKeys(groups) && |Over(groups, k).value| < |k|
  {
  }

  lemma {:induction false} ChainKeys(groups: seq<GroupRow>, parent: Option<Key>)
    requires GoodGroups(groups)
    ensures forall k :: k in Chain(groups, parent) ==> parent.Some? && k in GroupKeys(groups) && |k| <= |parent.value|
    decreases if parent.None? then 0 else 1 + |parent.value|
  {
    if parent.Some? && parent.value in GroupKeys(groups) {
      ChainKeys(groups, Over(groups, parent.value));
    }
  }

  /** Whatever holds a group of the chain is in the chain. */
  lemma {:induction false} ChainGoesUp(groups: seq<GroupRow>, parent: Option<Key>, k: Key)
    requires GoodGroups(groups) && k in Chain(groups, parent) && k in GroupKeys(groups)
    ensures Over(groups, k).Some? ==> Over(groups, k).value in Chain(groups, parent)
    decreases if parent.None? then 0 else 1 + |parent.value|
  {
    if parent.value != k {
      ChainGoesUp(groups, Over(groups, parent.value), k);
    }
  }

  /** Below a group of the chain that is not its end comes the next one. */
  lemma {:induction false} ChainGoesDown(groups: seq<GroupRow>, parent: Option<Key>, c: Option<Key>) returns (k: Key)
    requires GoodGroups(groups) && parent.Some? && parent.value in GroupKeys(groups) && c != parent
    requires c.Some? ==> c.value in Chain(groups, parent)
    ensures k in Chain(groups, parent) && k in GroupKeys(groups) && Over(groups, k) == c
    decreases |parent.value|
  {
    var up := Over(groups, parent.value);
    k := parent.value;
    if up != c {
      k := ChainGoesDown(groups, up, c);
    }
  }

  /** A chain takes one way down. */
  lemma {:induction false} ChainDoesNotBranch(groups: seq<GroupRow>, parent: Option<Key>, a: Key, b: Key)
    requires GoodGroups(groups) && a in Chain(groups, parent) && b in Chain(groups, parent)
    requires a in GroupKeys(groups) && b in GroupKeys(groups) && Over(groups, a) == Over(groups, b)
    ensures a == b
    decreases if parent.None? then 0 else 1 + |parent.value|
  {
    var up := Over(groups, parent.value);
    if parent.value != a && parent.value != b {
      ChainDoesNotBranch(groups, up, a, b);
    } else if a != b {
      var other := if parent.value == a then b else a;
      ChainKeys(groups, up);
      ChainGoesUp(groups, up, other);
      EndIsBelow(groups, up);
    }
  }

  lemma EndIsBelow(groups: seq<GroupRow>, up: Option<Key>)
    requires GoodGroups(groups)
    ensures forall k :: k in Chain(groups, up) && k in GroupKeys(groups) ==> Over(groups, k) != up
  {
    ChainKeys(groups, up);
  }

  /** The default groups above the i-th item. */
  function GroupsAbove(defaults: seq<NavItem>, i: nat): seq<Key>
    requires i < |defaults|
  {
    IdentityGood(defaults);
    Chain(IdentityOf(defaults).groups, IdentityOf(defaults).items[i].parentKey)
  }

  // ---------------------------------------------------------------- the position of a group

  predicate AtMost(a: Rank, b: Rank) {
    !b.Less(a)
  }

  lemma {:induction false} FirstItemIsFirst(items: seq<ItemRow>, k: Key, from: nat)
    ensures forall i :: 0 <= i < |items| && items[i].parentKey == Some(k) ==> AtMost(FirstItemUnder(items, k, from), Fin(from + i))
    ensures var first := FirstItemUnder(items, k, from);
      first.Fin? ==> from <= first.n < from + |items| && items[first.n - from].parentKey == Some(k)
  {
    if items != [] {
      FirstItemIsFirst(items[1..], k, from + 1);
      forall i | 0 <= i < |items| && items[i].parentKey == Some(k) ensures AtMost(FirstItemUnder(items, k, from), Fin(from + i)) {
        if i > 0 {
          assert items[i] == items[1..][i - 1];
        }
      }
    }
  }

  /** The subtree of a group begins no later than the subtree of a group in it. */
  lemma {:induction false} ChildrenComeLater(id: Config, k: Key, n: nat, child: GroupRow)
    requires GoodGroups(id.groups) && n <= |id.groups| && child in id.groups[..n] && child.parentKey == Some(k)
    ensures AtMost(ChildrenFirstIndex(id, k, n), SubtreeFirstIndex(id, child.nodeKey))
  {
    if id.groups[n - 1] != child {
      assert child in id.groups[..n - 1];
      ChildrenComeLater(id, k, n - 1, child);
    }
  }

  lemma {:induction false} SubtreesComeLater(id: Config, parent: Option<Key>, k: Key)
    requires GoodGroups(id.groups) && k in Chain(id.groups, parent)
    ensures AtMost(SubtreeFirstIndex(id, k), SubtreeFirstIndex(id, parent.value))
    decreases if parent.None? then 0 else 1 + |parent.value|
  {
    if parent.value != k {
      var up := Over(id.groups, parent.value);
      SubtreesComeLater(id, up, k);
      var child := GroupMap(id.groups)[parent.value];
      assert id.groups[..|id.groups|] == id.groups;
      ChildrenComeLater(id, up.value, |id.groups|, child);
    }
  }

  lemma ItemsComeLater(id: Config, i: nat, k: Key)
    requires GoodGroups(id.groups) && i < |id.items| && k in Chain(id.groups, id.items[i].parentKey)
    ensures AtMost(SubtreeFirstIndex(id, k), Fin(i))
  {
    SubtreesComeLater(id, id.items[i].parentKey, k);
    FirstItemIsFirst(id.items, id.items[i].parentKey.value, 0);
  }

  /** A finite index is that of an item below `k`. */
  ghost predicate PointsBelow(id: Config, index: Rank, k: Key)
    requires GoodGroups(id.groups)
  {
    index.Fin? ==> 0 <= index.n < |id.items| && k in Chain(id.groups, id.items[index.n].parentKey)
  }

  lemma {:induction false} IndexIsOfAnItem(id: Config, k: Key)
    requires GoodGroups(id.groups) && k in GroupKeys(id.groups)
    ensures PointsBelow(id, SubtreeFirstIndex(id, k), k)
    decreases MaxKeyLength(id.groups) - |k|, |id.groups| + 1
  {
    FirstItemIsFirst(id.items, k, 0);
    IndexIsOfAChild(id, k, |id.groups|);
  }

  lemma {:induction false} IndexIsOfAChild(id: Config, k: Key, n: nat)
    requires GoodGroups(id.groups) && k in GroupKeys(id.groups) && n <= |id.groups|
    ensures PointsBelow(id, ChildrenFirstIndex(id, k, n), k)
    decreases MaxKeyLength(id.groups) - |k|, n
  {
    if n > 0 {
      IndexIsOfAChild(id, k, n - 1);
      var row := id.groups[n - 1];
      assert row in id.groups;
      if row.parentKey == Some(k) {
        OneRowPerKey(id.groups, row);
        IndexIsOfAnItem(id, row.nodeKey);
        ChildPointsBelow(id, SubtreeFirstIndex(id, row.nodeKey), k, row.nodeKey);
      }
    }
  }

  lemma ChildPointsBelow(id: Config, index: Rank, k: Key, child: Key)
    requires GoodGroups(id.groups) && child in GroupKeys(id.groups) && Over(id.groups, child) == Some(k)
    requires PointsBelow(id, index, child)
    ensures PointsBelow(id, index, k)
  {
    if index.Fin? {
      ChainGoesUp(id.groups, id.items[index.n].parentKey, child);
    }
  }

  lemma OneRowPerKey(groups: seq<GroupRow>, row: GroupRow)
    requires GoodGroups(groups) && row in groups
    ensures row.nodeKey in GroupKeys(groups) && GroupMap(groups)[row.nodeKey] == row
  {
    var i :| 0 <= i < |groups| && groups[i] == row;
    GroupMapAt(groups, i);
  }

  // ---------------------------------------------------------------- what the editor opens with

  /** The resolution of the empty table: the identity rows, placed by their default indexes alone. */
  ghost predicate ShowsDefaults(defaults: seq<NavItem>, m: ResolvedMenu) {
    IdentityGood(defaults);
    var id := DefaultConfig(defaults);
    && Tidy(m)
    && |m.items| == |defaults|
    && (forall i :: 0 <= i < |defaults| ==> m.items[i] == ResolvedItem(defaults[i].key, None, id.items[i].parentKey, Infinite, Fin(i)))
    && (forall row :: row in m.groups <==> row.nodeKey in GroupKeys(id.groups) && row == DefaultRow(id, row.nodeKey))
  }

  lemma DefaultsKeepTheirParents(groups: seq<GroupRow>)
    requires GoodGroups(groups)
    ensures var order := AllGroupKeys(groups, EMPTY_MENU_CONFIG);
      && (forall k :: k in order <==> k in GroupKeys(groups))
      && forall k :: k in order ==> ResolveParents(GraphOf(groups, EMPTY_MENU_CONFIG), order)[k] == Over(groups, k)
  {
    var order, g := AllGroupKeys(groups, EMPTY_MENU_CONFIG), GraphOf(groups, EMPTY_MENU_CONFIG);
    var rank: map<Key, nat> := map k | k in GroupKeys(groups) :: |k|;
    forall k | k in order ensures ParentOf(g.candidate, k) == Over(groups, k) {
      OverIsShorter(groups, k);
    }
    assert Grounded(g, rank);
    GroundedGroupsKeepTheirParent(g, order, rank);
    forall k | k in order ensures ResolveParents(g, order)[k] == Over(groups, k) {
      assert k in rank && ParentOf(ResolveParents(g, order), k) == ParentOf(g.candidate, k);
    }
  }

  /** The row of a default group in the resolution of the empty table. */
  function DefaultRow(id: Config, k: Key): ResolvedGroup
    requires GoodGroups(id.groups) && k in GroupKeys(id.groups)
  {
    ResolvedGroup(k, None, Over(id.groups, k), Infinite, SubtreeFirstIndex(id, k))
  }

  lemma DefaultGroupRows(id: Config, order: seq<Key>, parents: Parents)
    requires GoodGroups(id.groups) && (forall k :: k in order <==> k in GroupKeys(id.groups))
    requires forall k :: k in order ==> k in parents && parents[k] == Over(id.groups, k)
    ensures forall row :: row in ResolveGroups(order, id, map[], parents) <==>
              row.nodeKey in GroupKeys(id.groups) && row == DefaultRow(id, row.nodeKey)
  {
    var rows := ResolveGroups(order, id, map[], parents);
    forall i | 0 <= i < |order| ensures order[i] in GroupKeys(id.groups) && rows[i] == DefaultRow(id, order[i]) {
      assert order[i] in order;
    }
    forall k | k in GroupKeys(id.groups) ensures DefaultRow(id, k) in rows {
      var i :| 0 <= i < |order| && order[i] == k;
      assert rows[i] in rows;
    }
  }

  lemma EmptyTableShowsDefaults(defaults: seq<NavItem>)
    requires UniqueKeys(defaults)
    ensures ShowsDefaults(defaults, Resolve(defaults, EMPTY_MENU_CONFIG))
  {
    IdentityGood(defaults);
    var id := DefaultConfig(defaults);
    var order := AllGroupKeys(id.groups, EMPTY_MENU_CONFIG);
    ResolveIsTidy(defaults, EMPTY_MENU_CONFIG);
    DefaultsKeepTheirParents(id.groups);
    DefaultGroupRows(id, order, ResolveParents(GraphOf(id.groups, EMPTY_MENU_CONFIG), order));
  }

  // ---------------------------------------------------------------- the order of the items

  /** The default indexes of the items below `parent`, in the order in which the menu lists them. */
  function Order(m: ResolvedMenu, parent: Option<Key>): seq<int>
    requires Forest(m) && Hangs(m, parent)
    decreases parent.None?, Height(m, parent), 1, 0
  {
    var rows := RowsUnder(m, parent);
    SortMembers(rows);
    OrderRows(m, parent, Sort(rows))
  }

  function OrderRows(m: ResolvedMenu, parent: Option<Key>, rows: seq<Row>): seq<int>
    requires Forest(m) && Hangs(m, parent)
    requires forall row :: row in rows ==> IsRow(m, row) && row.Parent() == parent
    decreases parent.None?, Height(m, parent), 0, |rows|
  {
    if rows == [] then []
    else
      assert rows[0] in rows;
      RowHangs(m, rows[0]);
      (match rows[0]
       case ItemEntry(item) => if item.defaultIndex.Fin? then [item.defaultIndex.n] else []
       case GroupEntry(group) => Order(m, Some(group.nodeKey)))
      + OrderRows(m, parent, rows[1..])
  }

  /** What one row contributes. */
  function RowOrder(m: ResolvedMenu, row: Row): seq<int>
    requires Forest(m) && IsRow(m, row)
  {
    RowHangs(m, row);
    match row
    case ItemEntry(item) => if item.defaultIndex.Fin? then [item.defaultIndex.n] else []
    case GroupEntry(group) => Order(m, Some(group.nodeKey))
  }

  lemma OrderRowsCons(m: ResolvedMenu, parent: Option<Key>, rows: seq<Row>)
    requires Forest(m) && Hangs(m, parent) && rows != []
    requires forall row :: row in rows ==> IsRow(m, row) && row.Parent() == parent
    ensures IsRow(m, rows[0])
    ensures OrderRows(m, parent, rows) == RowOrder(m, rows[0]) + OrderRows(m, parent, rows[1..])
  {
    assert rows[0] in rows;
  }

  function Names(keys: seq<Key>): (names: seq<string>)
    ensures |names| == |keys| && forall i :: 0 <= i < |keys| ==> names[i] == GroupDefaultName(keys[i])
  {
    seq(|keys|, i requires 0 <= i < |keys| => GroupDefaultName(keys[i]))
  }

  /** The i-th item as a saved default menu shows it. */
  function Placed(defaults: seq<NavItem>, i: nat): NavItem
    requires i < |defaults|
  {
    Decorate(defaults[i], None, Names(GroupsAbove(defaults, i)))
  }

  ghost predicate AreIndexes(order: seq<int>, n: nat) {
    forall t :: 0 <= t < |order| ==> 0 <= order[t] < n
  }

  function PlacedAll(defaults: seq<NavItem>, order: seq<int>): (items: seq<NavItem>)
    requires AreIndexes(order, |defaults|)
    ensures |items| == |order| && forall t :: 0 <= t < |order| ==> items[t] == Placed(defaults, order[t])
  {
    seq(|order|, t requires 0 <= t < |order| => Placed(defaults, order[t]))
  }

  lemma PlacedConcat(defaults: seq<NavItem>, a: seq<int>, b: seq<int>)
    requires AreIndexes(a, |defaults|) && AreIndexes(b, |defaults|)
    ensures AreIndexes(a + b, |defaults|) && PlacedAll(defaults, a + b) == PlacedAll(defaults, a) + PlacedAll(defaults, b)
  {
  }

  /** The groups above the rows of a container are the container's own. */
  function Inside(defaults: seq<NavItem>, parent: Option<Key>): seq<Key> {
    IdentityGood(defaults);
    Chain(IdentityOf(defaults).groups, parent)
  }

  lemma RowOfGroup(defaults: seq<NavItem>, m: ResolvedMenu, row: Row)
    requires ShowsDefaults(defaults, m) && IsRow(m, row) && row.GroupEntry?
    ensures Inside(defaults, Some(row.group.nodeKey)) == Inside(defaults, row.Parent()) + [row.group.nodeKey]
    ensures row.group.nameOverride.None?
  {
  }

  lemma {:induction false} RowOfItem(defaults: seq<NavItem>, m: ResolvedMenu, row: Row) returns (i: nat)
    requires ShowsDefaults(defaults, m) && UniqueKeys(defaults) && IsRow(m, row) && row.ItemEntry?
    ensures i < |defaults| && row.item == m.items[i] && GroupsAbove(defaults, i) == Inside(defaults, row.Parent())
    ensures row.item.defaultIndex == Fin(i)
    ensures row.item.itemKey in ItemsByKey(defaults) && ItemsByKey(defaults)[row.item.itemKey] == defaults[i]
  {
    i :| 0 <= i < |m.items| && m.items[i] == row.item;
    assert defaults[i] in defaults;
    OneItemPerKey(defaults, ItemsByKey(defaults)[defaults[i].key], defaults[i]);
  }

  lemma {:induction false} LinearizeIsOrder(defaults: seq<NavItem>, m: ResolvedMenu, parent: Option<Key>)
    requires ShowsDefaults(defaults, m) && UniqueKeys(defaults) && Hangs(m, parent)
    ensures AreIndexes(Order(m, parent), |defaults|)
    ensures Linearize(ItemsByKey(defaults), Build(m, parent), Names(Inside(defaults, parent))) == PlacedAll(defaults, Order(m, parent))
    decreases parent.None?, Height(m, parent), 1, 0
  {
    var rows := RowsUnder(m, parent);
    SortMembers(rows);
    LinearizeRowsIsOrder(defaults, m, parent, Sort(rows));
  }

  lemma {:induction false} LinearizeRowIsOrder(defaults: seq<NavItem>, m: ResolvedMenu, row: Row)
    requires ShowsDefaults(defaults, m) && UniqueKeys(defaults) && IsRow(m, row)
    ensures AreIndexes(RowOrder(m, row), |defaults|)
    ensures RowMeaning(m, ItemsByKey(defaults), Names(Inside(defaults, row.Parent())), row) == PlacedAll(defaults, RowOrder(m, row))
    decreases row.Parent().None?, (RowHangs(m, row); Height(m, row.Parent())), 0, 0
  {
    RowHangs(m, row);
    if row.GroupEntry? {
      var k := row.group.nodeKey;
      LinearizeIsOrder(defaults, m, Some(k));
      RowOfGroup(defaults, m, row);
      NamesConcat(Inside(defaults, row.Parent()), k);
    } else {
      ItemIsPlaced(defaults, m, row);
    }
  }

  lemma NamesConcat(keys: seq<Key>, k: Key)
    ensures Names(keys + [k]) == Names(keys) + [GroupDefaultName(k)]
  {
  }

  lemma {:induction false} ItemIsPlaced(defaults: seq<NavItem>, m: ResolvedMenu, row: Row)
    requires ShowsDefaults(defaults, m) && UniqueKeys(defaults) && IsRow(m, row) && row.ItemEntry?
    ensures AreIndexes(RowOrder(m, row), |defaults|)
    ensures EmitItem(row.item.itemKey, row.item.nameOverride, Names(Inside(defaults, row.Parent())), ItemsByKey(defaults)) ==
            PlacedAll(defaults, RowOrder(m, row))
  {
    var i := RowOfItem(defaults, m, row);
    assert RowOrder(m, row) == [i];
    assert PlacedAll(defaults, [i]) == [Placed(defaults, i)];
  }

  lemma {:induction false} LinearizeRowsIsOrder(defaults: seq<NavItem>, m: ResolvedMenu, parent: Option<Key>, rows: seq<Row>)
    requires ShowsDefaults(defaults, m) && UniqueKeys(defaults) && Hangs(m, parent)
    requires forall row :: row in rows ==> IsRow(m, row) && row.Parent() == parent
    ensures AreIndexes(OrderRows(m, parent, rows), |defaults|)
    ensures Linearize(ItemsByKey(defaults), BuildRows(m, parent, rows), Names(Inside(defaults, parent))) ==
            PlacedAll(defaults, OrderRows(m, parent, rows))
    decreases parent.None?, Height(m, parent), 0, |rows|
  {
    if rows != [] {
      assert rows[0] in rows;
      LinearizeRowsIsOrder(defaults, m, parent, rows[1..]);
      LinearizeRowIsOrder(defaults, m, rows[0]);
      OrderRowsCons(m, parent, rows);
      PlacedConcat(defaults, RowOrder(m, rows[0]), OrderRows(m, parent, rows[1..]));
      assert BuildRows(m, parent, rows)[1..] == BuildRows(m, parent, rows[1..]);
    }
  }

  // ---------------------------------------------------------------- which items stand below a group

  /** The i-th item is below `parent`. */
  ghost predicate Below(defaults: seq<NavItem>, parent: Option<Key>, i: int) {
    0 <= i < |defaults| && (parent.Some? ==> parent.value in GroupsAbove(defaults, i))
  }

  lemma RowOrderIsBelow(defaults: seq<NavItem>, m: ResolvedMenu, row: Row, i: int)
    requires ShowsDefaults(defaults, m) && UniqueKeys(defaults) && IsRow(m, row)
    requires row.GroupEntry? && Below(defaults, Some(row.group.nodeKey), i)
    ensures Below(defaults, row.Parent(), i)
  {
    IdentityGood(defaults);
    ChainGoesUp(IdentityOf(defaults).groups, IdentityOf(defaults).items[i].parentKey, row.group.nodeKey);
  }

  lemma {:induction false} OrderIsBelow(defaults: seq<NavItem>, m: ResolvedMenu, parent: Option<Key>)
    requires ShowsDefaults(defaults, m) && UniqueKeys(defaults) && Hangs(m, parent)
    ensures forall i :: i in Order(m, parent) ==> Below(defaults, parent, i)
    decreases parent.None?, Height(m, parent), 1, 0
  {
    var rows := RowsUnder(m, parent);
    SortMembers(rows);
    OrderRowsIsBelow(defaults, m, parent, Sort(rows));
  }

  lemma {:induction false} OrderRowsIsBelow(defaults: seq<NavItem>, m: ResolvedMenu, parent: Option<Key>, rows: seq<Row>)
    requires ShowsDefaults(defaults, m) && UniqueKeys(defaults) && Hangs(m, parent)
    requires forall row :: row in rows ==> IsRow(m, row) && row.Parent() == parent
    ensures forall i :: i in OrderRows(m, parent, rows) ==> Below(defaults, parent, i)
    decreases parent.None?, Height(m, parent), 0, |rows|
  {
    if rows != [] {
      var row := rows[0];
      assert row in rows;
      RowHangs(m, row);
      OrderRowsIsBelow(defaults, m, parent, rows[1..]);
      OrderRowsCons(m, parent, rows);
      if row.GroupEntry? {
        OrderIsBelow(defaults, m, Some(row.group.nodeKey));
        forall i | i in RowOrder(m, row) ensures Below(defaults, parent, i) {
          RowOrderIsBelow(defaults, m, row, i);
        }
      } else {
        ItemIsBelow(defaults, m, row);
      }
    }
  }

  lemma {:induction false} ItemIsBelow(defaults: seq<NavItem>, m: ResolvedMenu, row: Row)
    requires ShowsDefaults(defaults, m) && UniqueKeys(defaults) && IsRow(m, row) && row.ItemEntry?
    ensures forall i :: i in RowOrder(m, row) ==> Below(defaults, row.Parent(), i)
  {
    RowHangs(m, row);
    var i := RowOfItem(defaults, m, row);
    if row.Parent().Some? {
      assert row.Parent().value in Inside(defaults, row.Parent());
    }
  }

  lemma {:induction false} RowIsOrdered(m: ResolvedMenu, parent: Option<Key>, rows: seq<Row>, row: Row)
    requires Forest(m) && Hangs(m, parent) && row in rows
    requires forall x :: x in rows ==> IsRow(m, x) && x.Parent() == parent
    ensures forall i :: i in RowOrder(m, row) ==> i in OrderRows(m, parent, rows)
  {
    OrderRowsCons(m, parent, rows);
    if rows[0] != row {
      RowIsOrdered(m, parent, rows[1..], row);
    }
  }

  lemma {:induction false} BelowIsOrdered(defaults: seq<NavItem>, m: ResolvedMenu, parent: Option<Key>, i: nat)
    requires ShowsDefaults(defaults, m) && UniqueKeys(defaults) && Hangs(m, parent) && Below(defaults, parent, i)
    ensures i in Order(m, parent)
    decreases parent.None?, Height(m, parent)
  {
    IdentityGood(defaults);
    var groups, own := IdentityOf(defaults).groups, m.items[i].parentKey;
    var rows := RowsUnder(m, parent);
    SortMembers(rows);
    if own == parent {
      var row := ItemEntry(m.items[i]);
      assert IsRow(m, row);
      RowIsOrdered(m, parent, Sort(rows), row);
    } else {
      var k := ChainGoesDown(groups, own, parent);
      var row := GroupEntry(DefaultRow(DefaultConfig(defaults), k));
      assert IsRow(m, row) && row.Parent() == parent;
      RowHangs(m, row);
      BelowIsOrdered(defaults, m, Some(k), i);
      RowIsOrdered(m, parent, Sort(rows), row);
    }
  }

  // ---------------------------------------------------------------- when the order is the default one

  /** No group is interrupted: between two items of a group there are only items of it. */
  ghost predicate Unbroken(defaults: seq<NavItem>) {
    forall i, j, l, k :: 0 <= i < j < l < |defaults| && k in GroupsAbove(defaults, i) && k in GroupsAbove(defaults, l) ==>
      k in GroupsAbove(defaults, j)
  }

  /** The i-th item belongs to a row: it is that item, or below that group. */
  ghost predicate Under(defaults: seq<NavItem>, row: Row, i: int) {
    0 <= i < |defaults| &&
    match row
    case ItemEntry(item) => item.defaultIndex == Fin(i)
    case GroupEntry(group) => group.nodeKey in GroupsAbove(defaults, i)
  }

  lemma OrderIsUnder(defaults: seq<NavItem>, m: ResolvedMenu, row: Row)
    requires ShowsDefaults(defaults, m) && UniqueKeys(defaults) && IsRow(m, row)
    ensures forall i :: i in RowOrder(m, row) ==> Under(defaults, row, i)
  {
    RowHangs(m, row);
    if row.GroupEntry? {
      OrderIsBelow(defaults, m, Some(row.group.nodeKey));
    } else {
      var i := RowOfItem(defaults, m, row);
    }
  }

  /** The index of a row is that of its first item. */
  lemma {:induction false} IndexIsFirst(defaults: seq<NavItem>, m: ResolvedMenu, row: Row)
    requires ShowsDefaults(defaults, m) && UniqueKeys(defaults) && IsRow(m, row)
    ensures row.Order() == Infinite
    ensures row.DefaultIndex().Fin? ==> Under(defaults, row, row.DefaultIndex().n)
    ensures forall i :: Under(defaults, row, i) ==> AtMost(row.DefaultIndex(), Fin(i))
  {
    IdentityGood(defaults);
    var id := DefaultConfig(defaults);
    if row.GroupEntry? {
      IndexIsOfAnItem(id, row.group.nodeKey);
      forall i | Under(defaults, row, i) ensures AtMost(row.DefaultIndex(), Fin(i)) {
        ItemsComeLater(id, i, row.group.nodeKey);
      }
    } else {
      var i := RowOfItem(defaults, m, row);
    }
  }

  /** An item belongs to one row of a container. */
  lemma {:induction false} SiblingsAreApart(defaults: seq<NavItem>, m: ResolvedMenu, a: Row, b: Row, i: int)
    requires ShowsDefaults(defaults, m) && UniqueKeys(defaults) && IsRow(m, a) && IsRow(m, b) && a.Parent() == b.Parent()
    requires Under(defaults, a, i) && Under(defaults, b, i)
    ensures a == b
  {
    IdentityGood(defaults);
    var groups, own := IdentityOf(defaults).groups, IdentityOf(defaults).items[i].parentKey;
    EndIsBelow(groups, own);
    ChainKeys(groups, own);
    if a.GroupEntry? && b.GroupEntry? {
      ChainDoesNotBranch(groups, own, a.group.nodeKey, b.group.nodeKey);
    } else if a.ItemEntry? {
      var j := RowOfItem(defaults, m, a);
      if b.ItemEntry? {
        var l := RowOfItem(defaults, m, b);
      }
    } else {
      var j := RowOfItem(defaults, m, b);
    }
  }

  lemma RowsAreApart(defaults: seq<NavItem>, m: ResolvedMenu, a: Row, b: Row, x: int, y: int)
    requires ShowsDefaults(defaults, m) && UniqueKeys(defaults) && Unbroken(defaults)
    requires IsRow(m, a) && IsRow(m, b) && a.Parent() == b.Parent() && a != b && !Before(b, a)
    requires x in RowOrder(m, a) && y in RowOrder(m, b)
    ensures x < y
  {
    OrderIsUnder(defaults, m, a);
    OrderIsUnder(defaults, m, b);
    ItemsAreApart(defaults, m, a, b, x, y);
  }

  lemma ItemsAreApart(defaults: seq<NavItem>, m: ResolvedMenu, a: Row, b: Row, x: int, y: int)
    requires ShowsDefaults(defaults, m) && UniqueKeys(defaults) && Unbroken(defaults)
    requires IsRow(m, a) && IsRow(m, b) && a.Parent() == b.Parent() && a != b && !Before(b, a)
    requires Under(defaults, a, x) && Under(defaults, b, y)
    ensures x < y
  {
    if y <= x {
      FirstIsNoLater(defaults, m, a, b, y);
      StaysUnder(defaults, a, a.DefaultIndex().n, y, x);
      SiblingsAreApart(defaults, m, a, b, y);
    }
  }

  /** What is between two items of a row is the row's. */
  lemma StaysUnder(defaults: seq<NavItem>, row: Row, i: int, j: int, l: int)
    requires Unbroken(defaults) && Under(defaults, row, i) && Under(defaults, row, l) && i <= j <= l
    ensures Under(defaults, row, j)
  {
    if i < j < l && row.GroupEntry? {
      assert row.group.nodeKey in GroupsAbove(defaults, j);
    }
  }

  lemma FirstIsNoLater(defaults: seq<NavItem>, m: ResolvedMenu, a: Row, b: Row, y: int)
    requires ShowsDefaults(defaults, m) && UniqueKeys(defaults)
    requires IsRow(m, a) && IsRow(m, b) && !Before(b, a) && Under(defaults, b, y)
    ensures a.DefaultIndex().Fin? && Under(defaults, a, a.DefaultIndex().n) && a.DefaultIndex().n <= y
  {
    IndexIsFirst(defaults, m, a);
    IndexIsFirst(defaults, m, b);
  }

  ghost predicate Increasing(s: seq<int>) {
    forall t, u :: 0 <= t < u < |s| ==> s[t] < s[u]
  }

  lemma IncreasingConcat(a: seq<int>, b: seq<int>)
    requires Increasing(a) && Increasing(b) && forall x, y :: x in a && y in b ==> x < y
    ensures Increasing(a + b)
  {
    forall t, u | 0 <= t < u < |a + b| ensures (a + b)[t] < (a + b)[u] {
      if t < |a| <= u {
        assert a[t] in a && b[u - |a|] in b;
      }
    }
  }

  lemma {:induction false} OrderIncreases(defaults: seq<NavItem>, m: ResolvedMenu, parent: Option<Key>)
    requires ShowsDefaults(defaults, m) && UniqueKeys(defaults) && Unbroken(defaults) && Hangs(m, parent)
    ensures Increasing(Order(m, parent))
    decreases parent.None?, Height(m, parent), 1, 0
  {
    var rows := RowsUnder(m, parent);
    SortMembers(rows);
    SortSpec(rows);
    RowsUnderOnce(m, parent);
    SortOnce(rows);
    OrderRowsIncrease(defaults, m, parent, Sort(rows));
  }

  lemma {:induction false} OrderRowsIncrease(defaults: seq<NavItem>, m: ResolvedMenu, parent: Option<Key>, rows: seq<Row>)
    requires ShowsDefaults(defaults, m) && UniqueKeys(defaults) && Unbroken(defaults) && Hangs(m, parent)
    requires forall row :: row in rows ==> IsRow(m, row) && row.Parent() == parent
    requires NoDup(rows) && Sorted(rows)
    ensures Increasing(OrderRows(m, parent, rows))
    decreases parent.None?, Height(m, parent), 0, |rows|
  {
    if rows != [] {
      var row, rest := rows[0], rows[1..];
      assert row in rows;
      RowHangs(m, row);
      OrderRowsIncrease(defaults, m, parent, rest);
      OrderRowsCons(m, parent, rows);
      if row.GroupEntry? {
        OrderIncreases(defaults, m, Some(row.group.nodeKey));
      }
      forall x, y | x in RowOrder(m, row) && y in OrderRows(m, parent, rest) ensures x < y {
        HeadComesFirst(defaults, m, parent, rows, x, y);
      }
      IncreasingConcat(RowOrder(m, row), OrderRows(m, parent, rest));
    }
  }

  lemma {:induction false} HeadComesFirst(defaults: seq<NavItem>, m: ResolvedMenu, parent: Option<Key>, rows: seq<Row>, x: int, y: int)
    requires ShowsDefaults(defaults, m) && UniqueKeys(defaults) && Unbroken(defaults) && Hangs(m, parent)
    requires forall row :: row in rows ==> IsRow(m, row) && row.Parent() == parent
    requires NoDup(rows) && Sorted(rows) && rows != []
    requires IsRow(m, rows[0]) && x in RowOrder(m, rows[0]) && y in OrderRows(m, parent, rows[1..])
    ensures x < y
  {
    var other := RowOfOrder(m, parent, rows[1..], y);
    var i :| 0 <= i < |rows| - 1 && rows[1..][i] == other;
    assert rows[i + 1] == other && InOrder()(rows[0], rows[i + 1]);
    RowsAreApart(defaults, m, rows[0], other, x, y);
  }

  lemma {:induction false} RowOfOrder(m: ResolvedMenu, parent: Option<Key>, rows: seq<Row>, i: int) returns (row: Row)
    requires Forest(m) && Hangs(m, parent)
    requires forall x :: x in rows ==> IsRow(m, x) && x.Parent() == parent
    requires i in OrderRows(m, parent, rows)
    ensures row in rows && i in RowOrder(m, row)
  {
    OrderRowsCons(m, parent, rows);
    row := rows[0];
    if i !in RowOrder(m, row) {
      row := RowOfOrder(m, parent, rows[1..], i);
    }
  }

  // ---------------------------------------------------------------- the items of a group stand together

  /** `part` stands in `whole` in one piece, from `at` on. */
  ghost predicate StandsAt(whole: seq<int>, part: seq<int>, at: nat) {
    at + |part| <= |whole| && forall t :: 0 <= t < |part| ==> part[t] == whole[at + t]
  }

  lemma StandsFirst(a: seq<int>, b: seq<int>)
    ensures StandsAt(a + b, a, 0)
  {
  }

  lemma StandsLater(a: seq<int>, b: seq<int>, part: seq<int>, at: nat)
    requires StandsAt(b, part, at)
    ensures StandsAt(a + b, part, |a| + at)
  {
  }

  lemma {:induction false} RowStandsTogether(m: ResolvedMenu, parent: Option<Key>, rows: seq<Row>, row: Row) returns (at: nat)
    requires Forest(m) && Hangs(m, parent) && row in rows
    requires forall x :: x in rows ==> IsRow(m, x) && x.Parent() == parent
    ensures StandsAt(OrderRows(m, parent, rows), RowOrder(m, row), at)
  {
    OrderRowsCons(m, parent, rows);
    if rows[0] == row {
      at := 0;
      StandsFirst(RowOrder(m, row), OrderRows(m, parent, rows[1..]));
    } else {
      var later := RowStandsTogether(m, parent, rows[1..], row);
      at := |RowOrder(m, rows[0])| + later;
      StandsLater(RowOrder(m, rows[0]), OrderRows(m, parent, rows[1..]), RowOrder(m, row), later);
    }
  }

  lemma GroupStandsInItsContainer(m: ResolvedMenu, row: Row) returns (at: nat)
    requires Forest(m) && IsRow(m, row) && row.GroupEntry?
    ensures Hangs(m, row.Parent()) && HasGroup(m, row.group.nodeKey)
    ensures StandsAt(Order(m, row.Parent()), Order(m, Some(row.group.nodeKey)), at)
  {
    RowHangs(m, row);
    var rows := RowsUnder(m, row.Parent());
    SortMembers(rows);
    at := RowStandsTogether(m, row.Parent(), Sort(rows), row);
  }

  lemma ClimbDrops(m: ResolvedMenu, row: Row)
    requires Forest(m) && IsRow(m, row) && row.GroupEntry? && row.Parent().Some?
    ensures HasGroup(m, row.Parent().value) && Climb(m, GroupRowOf(m, row.Parent().value)) < Climb(m, row)
  {
    RowHangs(m, row);
  }

  lemma {:induction false} GroupStandsTogether(m: ResolvedMenu, k: Key) returns (at: nat)
    requires Forest(m) && HasGroup(m, k)
    ensures StandsAt(Order(m, None), Order(m, Some(k)), at)
    decreases Climb(m, GroupRowOf(m, k))
  {
    var row := GroupRowOf(m, k);
    at := GroupStandsInItsContainer(m, row);
    if row.Parent().Some? {
      ClimbDrops(m, row);
      var outer := GroupStandsTogether(m, row.Parent().value);
      PartOfAPart(Order(m, None), Order(m, row.Parent()), Order(m, Some(k)), outer, at);
      at := outer + at;
    }
  }

  lemma PartOfAPart(whole: seq<int>, middle: seq<int>, part: seq<int>, outer: nat, inner: nat)
    requires StandsAt(whole, middle, outer) && StandsAt(middle, part, inner)
    ensures StandsAt(whole, part, outer + inner)
  {
    forall t | 0 <= t < |part| ensures part[t] == whole[outer + inner + t] {
      assert part[t] == middle[inner + t];
    }
  }

  ghost predicate IsDefaultOrder(s: seq<int>, n: nat) {
    |s| == n && forall t :: 0 <= t < n ==> s[t] == t
  }

  lemma {:induction false} IncreasingRises(s: seq<int>, t: nat)
    requires Increasing(s) && t < |s| && s[0] >= 0
    ensures t <= s[t]
  {
    if t > 0 {
      IncreasingRises(s, t - 1);
    }
  }

  /** An increasing list of exactly the indexes below `n`. */
  lemma {:induction false} IncreasingIsDefault(s: seq<int>, n: nat)
    requires Increasing(s) && forall i :: i in s <==> 0 <= i < n
    ensures IsDefaultOrder(s, n)
  {
    for t := 0 to |s|
      invariant forall u :: 0 <= u < t ==> s[u] == u
    {
      assert s[0] in s && s[t] in s;
      IncreasingRises(s, t);
      assert t in s;
      var u :| 0 <= u < |s| && s[u] == t;
    }
    if 0 < |s| {
      assert s[|s| - 1] in s;
    }
    assert |s| in s <==> |s| < n;
  }

  /** What lies between two members of a piece of the default order is in the piece. */
  lemma PieceIsConvex(whole: seq<int>, n: nat, part: seq<int>, at: nat, i: int, j: int, l: int)
    requires IsDefaultOrder(whole, n) && StandsAt(whole, part, at) && i in part && l in part && i < j < l
    ensures j in part
  {
    var p :| 0 <= p < |part| && part[p] == i;
    var q :| 0 <= q < |part| && part[q] == l;
    assert part[p] == whole[at + p] && part[q] == whole[at + q];
    assert part[j - at] == whole[j];
  }

  lemma DefaultOrderIsUnbroken(defaults: seq<NavItem>, m: ResolvedMenu, i: nat, j: nat, l: nat, k: Key)
    requires ShowsDefaults(defaults, m) && UniqueKeys(defaults) && IsDefaultOrder(Order(m, None), |defaults|)
    requires i < j < l < |defaults| && k in GroupsAbove(defaults, i) && k in GroupsAbove(defaults, l)
    ensures k in GroupsAbove(defaults, j)
  {
    GroupAboveIsThere(defaults, m, i, k);
    var at := GroupStandsTogether(m, k);
    BelowIsOrdered(defaults, m, Some(k), i);
    BelowIsOrdered(defaults, m, Some(k), l);
    PieceIsConvex(Order(m, None), |defaults|, Order(m, Some(k)), at, i, j, l);
    OrderIsBelow(defaults, m, Some(k));
  }

  lemma GroupAboveIsThere(defaults: seq<NavItem>, m: ResolvedMenu, i: nat, k: Key)
    requires ShowsDefaults(defaults, m) && i < |defaults| && k in GroupsAbove(defaults, i)
    ensures HasGroup(m, k)
  {
    IdentityGood(defaults);
    ChainKeys(IdentityOf(defaults).groups, IdentityOf(defaults).items[i].parentKey);
    assert DefaultRow(DefaultConfig(defaults), k) in m.groups;
  }

  /** The menu lists the items in their default order exactly when no group is interrupted. */
  lemma OrderIsDefaultExactlyWhenUnbroken(defaults: seq<NavItem>, m: ResolvedMenu)
    requires ShowsDefaults(defaults, m) && UniqueKeys(defaults)
    ensures IsDefaultOrder(Order(m, None), |defaults|) <==> Unbroken(defaults)
  {
    OrderIsBelow(defaults, m, None);
    forall i ensures i in Order(m, None) <==> 0 <= i < |defaults| {
      if 0 <= i < |defaults| {
        BelowIsOrdered(defaults, m, None, i);
      }
    }
    if Unbroken(defaults) {
      OrderIncreases(defaults, m, None);
      IncreasingIsDefault(Order(m, None), |defaults|);
    }
    if IsDefaultOrder(Order(m, None), |defaults|) {
      forall i, j, l, k | 0 <= i < j < l < |defaults| && k in GroupsAbove(defaults, i) && k in GroupsAbove(defaults, l)
        ensures k in GroupsAbove(defaults, j)
      {
        DefaultOrderIsUnbroken(defaults, m, i, j, l, k);
      }
    }
  }

  // ---------------------------------------------------------------- what a user sees of the menu

  /** `groupPathOf` (AppShell.tsx:49-50): the merged path, or the declared group and subgroup. */
  function ShownPath(item: NavItem): seq<string> {
    item.groupPath.GetOr(PathOf(item))
  }

  /** All that the shell reads of an item: its leaf, its groups and its breadcrumb. */
  datatype Look = Look(core: Core, caption: string, groups: seq<string>)

  function LookOf(item: NavItem): Look {
    Look(CoreOf(item), item.caption, ShownPath(item))
  }

  function Looks(items: seq<NavItem>): (looks: seq<Look>)
    ensures |looks| == |items| && forall i :: 0 <= i < |items| ==> looks[i] == LookOf(items[i])
  {
    seq(|items|, i requires 0 <= i < |items| => LookOf(items[i]))
  }

  lemma LookOfPlaced(defaults: seq<NavItem>, i: nat)
    requires i < |defaults|
    ensures LookOf(Placed(defaults, i)) == LookOf(defaults[i]).(groups := Names(GroupsAbove(defaults, i)))
  {
  }

  /** Every item shows the names of the groups it stands in. */
  ghost predicate Spelled(defaults: seq<NavItem>) {
    forall i :: 0 <= i < |defaults| ==> ShownPath(defaults[i]) == Names(GroupsAbove(defaults, i))
  }

  /** The menu after the editor was opened over an empty table and saved without an edit. */
  function FirstSaved(defaults: seq<NavItem>): seq<NavItem> {
    Apply(defaults, Serialize(BuildEditorState(defaults, EMPTY_MENU_CONFIG)))
  }

  lemma FirstSavedIsOrder(defaults: seq<NavItem>)
    requires UniqueKeys(defaults)
    ensures var m := Resolve(defaults, EMPTY_MENU_CONFIG);
      && ShowsDefaults(defaults, m)
      && AreIndexes(Order(m, None), |defaults|)
      && FirstSaved(defaults) == PlacedAll(defaults, Order(m, None))
  {
    var m, tree := Resolve(defaults, EMPTY_MENU_CONFIG), BuildEditorState(defaults, EMPTY_MENU_CONFIG);
    EmptyTableShowsDefaults(defaults);
    LinearizeIsOrder(defaults, m, None);
    BuildIsWellFormed(defaults, EMPTY_MENU_CONFIG);
    RoundTrip(defaults, tree);
    assert Names(Inside(defaults, None)) == [];
    if tree != [] {
      PlacesRowsNotEmpty(tree);
    } else if defaults != [] {
      assert IsItemKey(defaults, defaults[0].key);
    }
  }

  lemma PlacedLooks(defaults: seq<NavItem>, order: seq<int>)
    requires AreIndexes(order, |defaults|)
    ensures forall t :: 0 <= t < |order| ==>
              Looks(PlacedAll(defaults, order))[t] == LookOf(defaults[order[t]]).(groups := Names(GroupsAbove(defaults, order[t])))
  {
    forall t | 0 <= t < |order|
      ensures Looks(PlacedAll(defaults, order))[t] == LookOf(defaults[order[t]]).(groups := Names(GroupsAbove(defaults, order[t])))
    {
      LookOfPlaced(defaults, order[t]);
    }
  }

  /** Placing the items in some order shows them as declared exactly when it is the default order and names are spelled. */
  lemma {:induction false} PlacedAsDeclared(defaults: seq<NavItem>, order: seq<int>)
    requires UniqueKeys(defaults) && AreIndexes(order, |defaults|)
    ensures Looks(PlacedAll(defaults, order)) == Looks(defaults) <==> IsDefaultOrder(order, |defaults|) && Spelled(defaults)
  {
    var looks := Looks(PlacedAll(defaults, order));
    PlacedLooks(defaults, order);
    if looks == Looks(defaults) {
      forall t | 0 <= t < |defaults| ensures order[t] == t && ShownPath(defaults[t]) == Names(GroupsAbove(defaults, t)) {
        assert looks[t] == LookOf(defaults[t]);
        assert defaults[order[t]].key == defaults[t].key;
      }
    }
    if IsDefaultOrder(order, |defaults|) && Spelled(defaults) {
      forall t | 0 <= t < |defaults| ensures looks[t] == LookOf(defaults[t]) {
        assert order[t] == t;
      }
    }
  }

  /**
   * The first save leaves what users see as it was exactly when no group is interrupted and every item shows the names of
   * its groups.
   */
  lemma FirstSaveKeepsTheMenuExactly(defaults: seq<NavItem>)
    requires UniqueKeys(defaults)
    ensures Looks(FirstSaved(defaults)) == Looks(defaults) <==> Unbroken(defaults) && Spelled(defaults)
  {
    var m := Resolve(defaults, EMPTY_MENU_CONFIG);
    FirstSavedIsOrder(defaults);
    OrderIsDefaultExactlyWhenUnbroken(defaults, m);
    PlacedAsDeclared(defaults, Order(m, None));
  }

  // ---------------------------------------------------------------- which names are spelled

  /** Declared items leave the merged path to the merge (AppShell.tsx:25-29). */
  ghost predicate Declared(defaults: seq<NavItem>) {
    forall item :: item in defaults ==> item.groupPath.None?
  }

  predicate NoSlash(name: string) {
    '/' !in name
  }

  /** No group name contains a slash. */
  ghost predicate SlashFree(defaults: seq<NavItem>) {
    forall item, name :: item in defaults && name in PathOf(item) ==> NoSlash(name)
  }

  /** Nor does the name of an outer group begin like the key of a custom one. */
  ghost predicate PlainNames(defaults: seq<NavItem>) {
    && SlashFree(defaults)
    && (forall item :: item in defaults && PathOf(item) != [] ==> !IsCustomGroupNodeKey(PathOf(item)[0]))
  }

  /** The keys of the groups along a path of at most two names. */
  function PathKeys(path: seq<string>): seq<Key> {
    if |path| == 0 then []
    else if |path| == 1 then [path[0]]
    else [path[0], path[0] + "/" + path[1]]
  }

  ghost predicate SlashFreeRow(row: GroupRow) {
    if row.parentKey.None? then NoSlash(row.nodeKey)
    else NoSlash(row.parentKey.value) && exists name :: NoSlash(name) && row.nodeKey == row.parentKey.value + "/" + name
  }

  lemma SlashAt(a: string, b: string)
    ensures (a + "/" + b)[|a|] == '/'
  {
  }

  lemma NoSlashAt(c: string, d: string, i: nat)
    requires NoSlash(c) && i < |c|
    ensures (c + "/" + d)[i] != '/'
  {
    assert (c + "/" + d)[i] == c[i];
  }

  lemma SplitAtSlash(a: string, b: string, c: string, d: string)
    requires NoSlash(a) && NoSlash(c) && a + "/" + b == c + "/" + d
    ensures a == c
  {
    if |a| < |c| {
      NoSlashAt(c, d, |a|);
      SlashAt(a, b);
    } else if |c| < |a| {
      NoSlashAt(a, b, |c|);
      SlashAt(c, d);
    } else {
      assert (a + "/" + b)[..|a|] == a && (c + "/" + d)[..|c|] == c;
    }
  }

  lemma AddGroupKeys(acc: Identity, parent: Option<Key>, name: string)
    ensures GroupKeys(AddGroup(acc, parent, name).groups) == GroupKeys(acc.groups) + {ChildKey(parent, name)}
    ensures AddGroup(acc, parent, name).items == acc.items
  {
    var next := AddGroup(acc, parent, name);
    if ChildKey(parent, name) !in GroupKeys(acc.groups) {
      assert next.groups[|acc.groups|].nodeKey == ChildKey(parent, name);
      assert forall row :: row in acc.groups ==> row in next.groups;
    }
  }

  lemma AddGroupSlashFree(acc: Identity, parent: Option<Key>, name: string)
    requires forall row :: row in acc.groups ==> SlashFreeRow(row)
    requires NoSlash(name) && (parent.Some? ==> NoSlash(parent.value))
    ensures forall row :: row in AddGroup(acc, parent, name).groups ==> SlashFreeRow(row)
  {
  }

  /** Adding an item adds the groups of its path. */
  lemma AddItemKeys(acc: Identity, item: NavItem)
    ensures var keys, next := PathKeys(PathOf(item)), AddItem(acc, item);
      && GroupKeys(next.groups) == GroupKeys(acc.groups) + (set k | k in keys)
      && next.items[..|next.items| - 1] == acc.items
      && |next.items| == |acc.items| + 1
      && next.items[|acc.items|].parentKey == (if keys == [] then None else Some(keys[|keys| - 1]))
  {
    var path := PathOf(item);
    if |path| > 0 {
      AddGroupKeys(acc, None, path[0]);
      AddPathTwice(acc, path);
    }
    if |path| > 1 {
      AddGroupKeys(AddGroup(acc, None, path[0]), Some(path[0]), path[1]);
    }
  }

  lemma AddPathTwice(acc: Identity, path: seq<string>)
    requires 1 <= |path| <= 2
    ensures AddPath(acc, None, path) ==
            if |path| == 1 then (AddGroup(acc, None, path[0]), Some(path[0]))
            else (AddGroup(AddGroup(acc, None, path[0]), Some(path[0]), path[1]), Some(path[0] + "/" + path[1]))
  {
    var next := AddGroup(acc, None, path[0]);
    assert AddPath(acc, None, path) == AddPath(next, Some(path[0]), path[1..]);
    if |path| == 2 {
      assert AddPath(next, Some(path[0]), path[1..]) ==
             AddPath(AddGroup(next, Some(path[0]), path[1]), Some(path[0] + "/" + path[1]), path[2..]);
    }
  }

  lemma AddItemSlashFree(acc: Identity, item: NavItem)
    requires forall row :: row in acc.groups ==> SlashFreeRow(row)
    requires forall name :: name in PathOf(item) ==> NoSlash(name)
    ensures forall row :: row in AddItem(acc, item).groups ==> SlashFreeRow(row)
  {
    var path := PathOf(item);
    if |path| > 0 {
      AddPathTwice(acc, path);
      AddGroupSlashFree(acc, None, path[0]);
    }
    if |path| > 1 {
      AddGroupSlashFree(AddGroup(acc, None, path[0]), Some(path[0]), path[1]);
    }
  }

  lemma {:induction false} IdentityIsSlashFree(defaults: seq<NavItem>)
    requires SlashFree(defaults)
    ensures forall row :: row in IdentityOf(defaults).groups ==> SlashFreeRow(row)
  {
    if defaults != [] {
      var before, item := defaults[..|defaults| - 1], defaults[|defaults| - 1];
      assert item in defaults && forall x :: x in before ==> x in defaults;
      IdentityIsSlashFree(before);
      AddItemSlashFree(IdentityOf(before), item);
    }
  }

  function EndOf(keys: seq<Key>): Option<Key> {
    if keys == [] then None else Some(keys[|keys| - 1])
  }

  /** The rows hold the groups of an item's path, and the item under the last of them. */
  ghost predicate HoldsPath(acc: Identity, i: nat, item: NavItem) {
    var keys := PathKeys(PathOf(item));
    && i < |acc.items| && acc.items[i].parentKey == EndOf(keys)
    && forall k :: k in keys ==> k in GroupKeys(acc.groups)
  }

  lemma AddItemHolds(acc: Identity, item: NavItem)
    ensures HoldsPath(AddItem(acc, item), |acc.items|, item)
    ensures forall i: nat, other :: HoldsPath(acc, i, other) ==> HoldsPath(AddItem(acc, item), i, other)
  {
    AddItemKeys(acc, item);
    var next := AddItem(acc, item);
    forall i: nat, other | HoldsPath(acc, i, other) ensures HoldsPath(next, i, other) {
      assert next.items[..|next.items| - 1][i] == acc.items[i];
    }
  }

  lemma {:induction false} IdentityHoldsPaths(defaults: seq<NavItem>, i: nat)
    requires i < |defaults|
    ensures HoldsPath(IdentityOf(defaults), i, defaults[i])
  {
    var before := defaults[..|defaults| - 1];
    IdentityGood(before);
    AddItemHolds(IdentityOf(before), defaults[|defaults| - 1]);
    if i < |defaults| - 1 {
      IdentityHoldsPaths(before, i);
    }
  }

  lemma OuterChain(groups: seq<GroupRow>, name: string)
    requires GoodGroups(groups) && (forall row :: row in groups ==> SlashFreeRow(row))
    requires NoSlash(name) && name in GroupKeys(groups)
    ensures Chain(groups, Some(name)) == [name]
  {
    var row := GroupMap(groups)[name];
    assert SlashFreeRow(row);
    assert row.parentKey.None?;
  }

  lemma InnerParent(groups: seq<GroupRow>, outer: string, name: string)
    requires GoodGroups(groups) && (forall row :: row in groups ==> SlashFreeRow(row))
    requires NoSlash(outer) && outer + "/" + name in GroupKeys(groups)
    ensures Over(groups, outer + "/" + name) == Some(outer)
  {
    var k := outer + "/" + name;
    var row := GroupMap(groups)[k];
    assert SlashFreeRow(row);
    SlashAt(outer, name);
    assert '/' in k;
    var inner :| NoSlash(inner) && k == row.parentKey.value + "/" + inner;
    SplitAtSlash(outer, name, row.parentKey.value, inner);
  }

  lemma InnerChain(groups: seq<GroupRow>, outer: string, name: string)
    requires GoodGroups(groups) && (forall row :: row in groups ==> SlashFreeRow(row))
    requires NoSlash(outer) && outer in GroupKeys(groups) && outer + "/" + name in GroupKeys(groups)
    ensures Chain(groups, Some(outer + "/" + name)) == [outer, outer + "/" + name]
  {
    OuterChain(groups, outer);
    InnerParent(groups, outer, name);
  }

  lemma ChainIsThePath(groups: seq<GroupRow>, path: seq<string>)
    requires GoodGroups(groups) && (forall row :: row in groups ==> SlashFreeRow(row))
    requires (forall name :: name in path ==> NoSlash(name)) && |path| <= 2
    requires forall k :: k in PathKeys(path) ==> k in GroupKeys(groups)
    ensures Chain(groups, EndOf(PathKeys(path))) == PathKeys(path)
  {
    if |path| == 1 {
      OuterChain(groups, path[0]);
    } else if |path| == 2 {
      assert PathKeys(path)[1] in PathKeys(path);
      InnerChain(groups, path[0], path[1]);
    }
  }

  /** With slash-free names an item stands in exactly the groups of its path. */
  lemma GroupsAreThePath(defaults: seq<NavItem>, i: nat)
    requires SlashFree(defaults) && i < |defaults|
    ensures GroupsAbove(defaults, i) == PathKeys(PathOf(defaults[i]))
  {
    IdentityGood(defaults);
    assert defaults[i] in defaults;
    IdentityIsSlashFree(defaults);
    IdentityHoldsPaths(defaults, i);
    ChainIsThePath(IdentityOf(defaults).groups, PathOf(defaults[i]));
  }

  // ---------------------------------------------------------------- names of keys

  lemma {:induction false} LastSegmentOfName(name: string)
    requires NoSlash(name)
    ensures LastSegment(name) == name
  {
    if name != [] {
      var front, last := name[..|name| - 1], name[|name| - 1];
      assert last in name && forall c :: c in front ==> c in name;
      LastSegmentOfName(front);
    }
  }

  lemma {:induction false} LastSegmentOf(a: string, name: string)
    requires NoSlash(name)
    ensures LastSegment(a + "/" + name) == name
  {
    var whole := a + "/" + name;
    if name == [] {
      SlashAt(a, name);
    } else {
      var front, last := name[..|name| - 1], name[|name| - 1];
      assert last in name && forall c :: c in front ==> c in name;
      LastSegmentOf(a, front);
      assert whole[..|whole| - 1] == a + "/" + front && whole[|whole| - 1] == last;
    }
  }

  lemma {:induction false} LastSegmentHasNoSlash(k: Key)
    ensures NoSlash(LastSegment(k))
  {
    if k != [] && k[|k| - 1] != '/' {
      LastSegmentHasNoSlash(k[..|k| - 1]);
    }
  }

  lemma NamesHaveNoSlash(keys: seq<Key>)
    ensures forall name :: name in Names(keys) ==> NoSlash(name)
  {
    forall name | name in Names(keys) ensures NoSlash(name) {
      var i :| 0 <= i < |keys| && Names(keys)[i] == name;
      LastSegmentHasNoSlash(keys[i]);
    }
  }

  lemma CustomHasNoSlash(k: Key, i: nat)
    requires IsCustomGroupNodeKey(k) && i < |CUSTOM_GROUP_PREFIX|
    ensures k[i] != '/'
  {
    assert k[i] == CUSTOM_GROUP_PREFIX[i];
  }

  /** A group inside a group has a custom key exactly if the outer one has. */
  lemma CustomInside(a: string, name: string)
    ensures IsCustomGroupNodeKey(a + "/" + name) <==> IsCustomGroupNodeKey(a)
  {
    var k := a + "/" + name;
    if IsCustomGroupNodeKey(k) {
      if |a| < |CUSTOM_GROUP_PREFIX| {
        CustomHasNoSlash(k, |a|);
        SlashAt(a, name);
      }
      assert k[..|CUSTOM_GROUP_PREFIX|] == a[..|CUSTOM_GROUP_PREFIX|];
    }
  }

  lemma NameOfInner(outer: string, name: string)
    requires NoSlash(name) && !IsCustomGroupNodeKey(outer)
    ensures GroupDefaultName(outer + "/" + name) == name
  {
    CustomInside(outer, name);
    LastSegmentOf(outer, name);
  }

  lemma NameOfOuter(name: string)
    requires NoSlash(name)
    ensures GroupDefaultName(name) == name <==> !IsCustomGroupNodeKey(name)
  {
    LastSegmentOfName(name);
    if IsCustomGroupNodeKey(name) {
      assert name[0] == CUSTOM_GROUP_PREFIX[0];
    }
  }

  lemma NamesOfOne(name: string)
    requires NoSlash(name)
    ensures Names([name]) == [name] <==> !IsCustomGroupNodeKey(name)
  {
    NameOfOuter(name);
    assert Names([name]) == [GroupDefaultName(name)];
    assert [GroupDefaultName(name)] == [name] <==> GroupDefaultName(name) == name;
  }

  lemma NamesOfTwo(outer: string, name: string)
    requires NoSlash(outer) && NoSlash(name)
    ensures Names([outer, outer + "/" + name]) == [outer, name] <==> !IsCustomGroupNodeKey(outer)
  {
    var names := Names([outer, outer + "/" + name]);
    NameOfOuter(outer);
    assert names[0] == GroupDefaultName(outer);
    if !IsCustomGroupNodeKey(outer) {
      NameOfInner(outer, name);
    }
  }

  /** The names of a path's keys are the path exactly when its outer name is no custom key. */
  lemma {:induction false} NamesOfPath(path: seq<string>)
    requires (forall name :: name in path ==> NoSlash(name)) && |path| <= 2
    ensures Names(PathKeys(path)) == path <==> (path == [] || !IsCustomGroupNodeKey(path[0]))
  {
    if |path| == 1 {
      assert path == [path[0]];
      NamesOfOne(path[0]);
    } else if |path| == 2 {
      assert path == [path[0], path[1]];
      NamesOfTwo(path[0], path[1]);
    }
  }

  /** Items as the code declares them are spelled exactly when no name has a slash and no outer one a custom key. */
  lemma SpelledExactlyWhenPlain(defaults: seq<NavItem>)
    requires Declared(defaults)
    ensures Spelled(defaults) <==> PlainNames(defaults)
  {
    if Spelled(defaults) {
      forall item, name | item in defaults && name in PathOf(item) ensures NoSlash(name) {
        var i :| 0 <= i < |defaults| && defaults[i] == item;
        NamesHaveNoSlash(GroupsAbove(defaults, i));
      }
    }
    if SlashFree(defaults) {
      forall i | 0 <= i < |defaults|
        ensures ShownPath(defaults[i]) == Names(GroupsAbove(defaults, i)) <==>
                (PathOf(defaults[i]) == [] || !IsCustomGroupNodeKey(PathOf(defaults[i])[0]))
      {
        assert defaults[i] in defaults;
        GroupsAreThePath(defaults, i);
        NamesOfPath(PathOf(defaults[i]));
      }
    }
  }
}
