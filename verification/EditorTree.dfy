/**
 * The editor's tree and how it is built from the resolved menu (editor-state.ts:10-53): every row of the menu becomes
 * exactly one node.
 */
module EditorTree {
  import opened Options
  import opened MenuTypes
  import opened MenuResolve
  import opened MenuMerge
  import opened MenuOrder

  datatype EditorNode =
    | Item(itemKey: Key, nameOverride: Option<string>)
    | Group(nodeKey: Key, nameOverride: Option<string>, children: seq<EditorNode>)

  /** The stable identity of a node, also the drag source and the rename target. */
  datatype NodeRef = ItemRef(itemKey: Key) | GroupRef(nodeKey: Key)

  function RefOf(node: EditorNode): NodeRef {
    if node.Item? then ItemRef(node.itemKey) else GroupRef(node.nodeKey)
  }

  function RowRef(row: Row): NodeRef {
    if row.ItemEntry? then ItemRef(row.item.itemKey) else GroupRef(row.group.nodeKey)
  }

  ghost function Indicator(b: bool): nat {
    if b then 1 else 0
  }

  /** How many nodes of a forest, at any depth, carry the identity `r`. */
  ghost function Count(nodes: seq<EditorNode>, r: NodeRef): nat {
    if nodes == [] then 0
    else
      Indicator(RefOf(nodes[0]) == r)
      + (if nodes[0].Group? then Count(nodes[0].children, r) else 0)
      + Count(nodes[1..], r)
  }

  /** The same for one node and everything below it. */
  ghost function NodeCount(node: EditorNode, r: NodeRef): nat {
    Indicator(RefOf(node) == r) + if node.Group? then Count(node.children, r) else 0
  }

  ghost predicate Has(nodes: seq<EditorNode>, r: NodeRef) {
    Count(nodes, r) > 0
  }

  /** No identity occurs twice. */
  ghost predicate Unique(nodes: seq<EditorNode>) {
    forall r :: Count(nodes, r) <= 1
  }

  /** All default items and default groups exactly once, every other group once and user-made. */
  ghost predicate WellFormed(defaults: seq<NavItem>, nodes: seq<EditorNode>) {
    && Unique(nodes)
    && (forall k :: Has(nodes, ItemRef(k)) <==> IsItemKey(defaults, k))
    && (forall k :: IsDefaultGroup(defaults, k) ==> Has(nodes, GroupRef(k)))
    && (forall k :: Has(nodes, GroupRef(k)) ==> IsDefaultGroup(defaults, k) || IsCustomGroupNodeKey(k))
  }

  ghost predicate IsItemKey(defaults: seq<NavItem>, k: Key) {
    exists i :: 0 <= i < |defaults| && defaults[i].key == k
  }

  ghost predicate IsDefaultGroup(defaults: seq<NavItem>, k: Key) {
    k in GroupKeys(IdentityOf(defaults).groups)
  }

  ghost predicate UniqueKeys(defaults: seq<NavItem>) {
    forall i, j :: 0 <= i < j < |defaults| ==> defaults[i].key != defaults[j].key
  }

  // ---------------------------------------------------------------- building

  ghost function HeightsOf(m: ResolvedMenu): (h: map<Key, nat>)
    requires Forest(m)
    ensures Heights(m, h)
  {
    var h: map<Key, nat> :| Heights(m, h);
    h
  }

  ghost predicate Hangs(m: ResolvedMenu, parent: Option<Key>) {
    parent.Some? ==> HasGroup(m, parent.value)
  }

  /** How far down the forest a container is; the top is above every group. */
  ghost function Height(m: ResolvedMenu, parent: Option<Key>): nat
    requires Forest(m) && Hangs(m, parent)
  {
    if parent.None? then 0 else HeightsOf(m)[parent.value]
  }

  lemma RowHangs(m: ResolvedMenu, row: Row)
    requires Forest(m) && IsRow(m, row)
    ensures Hangs(m, row.Parent())
    ensures row.GroupEntry? ==> HasGroup(m, row.group.nodeKey)
    ensures row.GroupEntry? && row.Parent().Some? ==> Height(m, Some(row.group.nodeKey)) < Height(m, row.Parent())
  {
  }

  /** `buildChildren`: the sorted rows of a container, groups with their own children. */
  function Build(m: ResolvedMenu, parent: Option<Key>): seq<EditorNode>
    requires Forest(m) && Hangs(m, parent)
    decreases parent.None?, Height(m, parent), 1, 0
  {
    var rows := Sort(RowsUnder(m, parent));
    SortMembers(RowsUnder(m, parent));
    BuildRows(m, parent, rows)
  }

  function BuildRows(m: ResolvedMenu, parent: Option<Key>, rows: seq<Row>): (nodes: seq<EditorNode>)
    requires Forest(m) && Hangs(m, parent)
    requires forall row :: row in rows ==> IsRow(m, row) && row.Parent() == parent
    ensures |nodes| == |rows|
    decreases parent.None?, Height(m, parent), 0, |rows|
  {
    if rows == [] then []
    else
      assert rows[0] in rows;
      RowHangs(m, rows[0]);
      [match rows[0]
       case ItemEntry(item) => Item(item.itemKey, item.nameOverride)
       case GroupEntry(group) => Group(group.nodeKey, group.nameOverride, Build(m, Some(group.nodeKey)))]
      + BuildRows(m, parent, rows[1..])
  }

  function BuildEditorState(defaults: seq<NavItem>, config: Config): seq<EditorNode> {
    ResolveIsForest(defaults, config);
    Build(Resolve(defaults, config), None)
  }

  // ---------------------------------------------------------------- every row once

  ghost function GroupRowOf(m: ResolvedMenu, k: Key): (row: Row)
    requires HasGroup(m, k)
    ensures row.GroupEntry? && row.group in m.groups && row.group.nodeKey == k
  {
    var g :| g in m.groups && g.nodeKey == k;
    GroupEntry(g)
  }

  lemma SameRow(m: ResolvedMenu, a: Row, b: Row)
    requires Tidy(m) && IsRow(m, a) && IsRow(m, b) && RowRef(a) == RowRef(b)
    ensures a == b
  {
    if a.ItemEntry? {
      var i :| 0 <= i < |m.items| && m.items[i] == a.item;
      var j :| 0 <= j < |m.items| && m.items[j] == b.item;
    }
  }

  ghost function Ceiling(h: map<Key, nat>): (n: nat)
    ensures forall k :: k in h ==> h[k] <= n
  {
    if h == map[] then 0
    else
      var k :| k in h;
      var rest := map j | j in h && j != k :: h[j];
      assert rest.Keys == h.Keys - {k};
      var n := Ceiling(rest);
      assert forall j :: j in h && j != k ==> j in rest && rest[j] == h[j];
      if h[k] > n then h[k] else n
  }

  /** How many steps up the parent chain of a row can go. */
  ghost function Climb(m: ResolvedMenu, row: Row): nat
    requires Forest(m) && IsRow(m, row)
  {
    var h := HeightsOf(m);
    if row.ItemEntry? then Ceiling(h) + 1 else Ceiling(h) - h[row.group.nodeKey]
  }

  /** The row directly under `parent` on the way down to `row`, if `row` is below `parent`. */
  ghost function Toward(m: ResolvedMenu, parent: Option<Key>, row: Row): (r: Option<Row>)
    requires Forest(m) && IsRow(m, row)
    ensures r.Some? ==> IsRow(m, r.value) && r.value.Parent() == parent
    decreases Climb(m, row)
  {
    RowHangs(m, row);
    if row.Parent() == parent then Some(row)
    else if row.Parent().None? then None
    else Toward(m, parent, GroupRowOf(m, row.Parent().value))
  }

  lemma {:induction false} EverythingIsBelowTheTop(m: ResolvedMenu, row: Row)
    requires Forest(m) && IsRow(m, row)
    ensures Toward(m, None, row).Some?
    decreases Climb(m, row)
  {
    RowHangs(m, row);
    if row.Parent().Some? {
      EverythingIsBelowTheTop(m, GroupRowOf(m, row.Parent().value));
    }
  }

  lemma {:induction false} BelowIsLower(m: ResolvedMenu, k: Key, row: Row)
    requires Forest(m) && IsRow(m, row) && row.GroupEntry? && HasGroup(m, k)
    requires Toward(m, Some(k), row).Some?
    ensures Height(m, Some(row.group.nodeKey)) < Height(m, Some(k))
    decreases Climb(m, row)
  {
    RowHangs(m, row);
    if row.Parent() != Some(k) {
      BelowIsLower(m, k, GroupRowOf(m, row.Parent().value));
    }
  }

  /** Exactly the child on the way to `row` has `row` below it. */
  lemma {:induction false} TowardStep(m: ResolvedMenu, child: Row, row: Row)
    requires Tidy(m) && IsRow(m, row) && IsRow(m, child) && child != row && child.GroupEntry?
    ensures Toward(m, Some(child.group.nodeKey), row).Some? <==> Toward(m, child.Parent(), row) == Some(child)
    decreases Climb(m, row)
  {
    RowHangs(m, row);
    RowHangs(m, child);
    var k := child.group.nodeKey;
    if row.Parent() == Some(k) {
      assert child.Parent() != Some(k);
    } else if row.Parent().Some? {
      var up := GroupRowOf(m, row.Parent().value);
      TowardStep(m, child, up);
      if row.Parent() == child.Parent() && Toward(m, Some(k), up).Some? {
        BelowIsLower(m, k, up);
      }
    }
  }

  /** What one child of a container adds to the count of `r`. */
  ghost function Share(m: ResolvedMenu, child: Row, r: NodeRef): nat
    requires Forest(m) && IsRow(m, child)
  {
    RowHangs(m, child);
    Indicator(RowRef(child) == r) + if child.GroupEntry? then Count(Build(m, Some(child.group.nodeKey)), r) else 0
  }

  lemma {:induction false} ShareCounts(m: ResolvedMenu, child: Row, row: Row)
    requires Tidy(m) && IsRow(m, row) && IsRow(m, child)
    ensures Share(m, child, RowRef(row)) == Indicator(Toward(m, child.Parent(), row) == Some(child))
    decreases child.Parent().None?, (RowHangs(m, child); Height(m, child.Parent())), 0, 0
  {
    RowHangs(m, child);
    if child == row {
      if child.GroupEntry? {
        BuildCounts(m, Some(child.group.nodeKey), row);
        if Toward(m, Some(child.group.nodeKey), row).Some? {
          BelowIsLower(m, child.group.nodeKey, row);
        }
      }
    } else {
      if RowRef(child) == RowRef(row) {
        SameRow(m, child, row);
      }
      if child.GroupEntry? {
        BuildCounts(m, Some(child.group.nodeKey), row);
        TowardStep(m, child, row);
      } else if Toward(m, child.Parent(), row) == Some(child) {
        ItemsHoldNothing(m, child.Parent(), row);
      }
    }
  }

  lemma {:induction false} BuildRowsCounts(m: ResolvedMenu, parent: Option<Key>, rows: seq<Row>, row: Row)
    requires Tidy(m) && Hangs(m, parent) && IsRow(m, row) && NoDup(rows)
    requires forall x :: x in rows ==> IsRow(m, x) && x.Parent() == parent
    ensures Count(BuildRows(m, parent, rows), RowRef(row)) ==
            Indicator(Toward(m, parent, row).Some? && Toward(m, parent, row).value in rows)
    decreases parent.None?, Height(m, parent), 0, |rows|
  {
    if rows != [] {
      var child, rest := rows[0], rows[1..];
      assert child in rows;
      BuildRowsCounts(m, parent, rest, row);
      ShareCounts(m, child, row);
    }
  }

  lemma {:induction false} ItemsHoldNothing(m: ResolvedMenu, parent: Option<Key>, row: Row)
    requires Forest(m) && IsRow(m, row) && Toward(m, parent, row).Some? && Toward(m, parent, row).value != row
    ensures Toward(m, parent, row).value.GroupEntry?
    decreases Climb(m, row)
  {
    RowHangs(m, row);
    var up := GroupRowOf(m, row.Parent().value);
    if Toward(m, parent, up).value != up {
      ItemsHoldNothing(m, parent, up);
    }
  }

  lemma {:induction false} BuildCounts(m: ResolvedMenu, parent: Option<Key>, row: Row)
    requires Tidy(m) && Hangs(m, parent) && IsRow(m, row)
    ensures Count(Build(m, parent), RowRef(row)) == Indicator(Toward(m, parent, row).Some?)
    decreases parent.None?, Height(m, parent), 1, 0
  {
    var rows := RowsUnder(m, parent);
    SortMembers(rows);
    RowsUnderOnce(m, parent);
    SortOnce(rows);
    BuildRowsCounts(m, parent, Sort(rows), row);
  }

  ghost predicate HasRow(m: ResolvedMenu, r: NodeRef) {
    exists row :: IsRow(m, row) && RowRef(row) == r
  }

  lemma {:induction false} BuildRowsOnlyRows(m: ResolvedMenu, parent: Option<Key>, rows: seq<Row>, r: NodeRef)
    requires Forest(m) && Hangs(m, parent)
    requires forall row :: row in rows ==> IsRow(m, row) && row.Parent() == parent
    requires Has(BuildRows(m, parent, rows), r)
    ensures HasRow(m, r)
    decreases parent.None?, Height(m, parent), 0, |rows|
  {
    if rows != [] {
      assert rows[0] in rows;
      RowHangs(m, rows[0]);
      if Has(BuildRows(m, parent, rows[1..]), r) {
        BuildRowsOnlyRows(m, parent, rows[1..], r);
      } else if rows[0].GroupEntry? && Has(Build(m, Some(rows[0].group.nodeKey)), r) {
        BuildOnlyRows(m, Some(rows[0].group.nodeKey), r);
      }
    }
  }

  lemma {:induction false} BuildOnlyRows(m: ResolvedMenu, parent: Option<Key>, r: NodeRef)
    requires Forest(m) && Hangs(m, parent) && Has(Build(m, parent), r)
    ensures HasRow(m, r)
    decreases parent.None?, Height(m, parent), 1, 0
  {
    var rows := RowsUnder(m, parent);
    SortMembers(rows);
    BuildRowsOnlyRows(m, parent, Sort(rows), r);
  }

  /** The tree holds every row of the menu exactly once and nothing else. */
  lemma BuildHoldsEveryRow(m: ResolvedMenu)
    requires Tidy(m)
    ensures forall r :: Count(Build(m, None), r) == Indicator(HasRow(m, r))
  {
    forall r ensures Count(Build(m, None), r) == Indicator(HasRow(m, r)) {
      if HasRow(m, r) {
        var row :| IsRow(m, row) && RowRef(row) == r;
        EverythingIsBelowTheTop(m, row);
        BuildCounts(m, None, row);
      } else if Has(Build(m, None), r) {
        BuildOnlyRows(m, None, r);
      }
    }
  }

  lemma ResolveIsTidy(defaults: seq<NavItem>, config: Config)
    requires UniqueKeys(defaults)
    ensures Tidy(Resolve(defaults, config))
  {
    ResolveIsForest(defaults, config);
    ResolvedItems(defaults, config);
  }

  lemma RowsOfResolve(defaults: seq<NavItem>, config: Config, r: NodeRef)
    ensures HasRow(Resolve(defaults, config), r) <==>
            match r
            case ItemRef(k) => IsItemKey(defaults, k)
            case GroupRef(k) => IsDefaultGroup(defaults, k) || (k in GroupKeys(config.groups) && IsCustomGroupNodeKey(k))
  {
    var m := Resolve(defaults, config);
    ResolvedItems(defaults, config);
    ResolvedGroups(defaults, config);
    match r {
      case ItemRef(k) =>
        if HasRow(m, r) {
          var row :| IsRow(m, row) && RowRef(row) == r;
          var i :| 0 <= i < |m.items| && m.items[i] == row.item;
          assert defaults[i].key == k;
        }
        if IsItemKey(defaults, k) {
          var i :| 0 <= i < |defaults| && defaults[i].key == k;
          assert IsRow(m, ItemEntry(m.items[i])) && RowRef(ItemEntry(m.items[i])) == r;
        }
      case GroupRef(k) =>
        if HasRow(m, r) {
          var row :| IsRow(m, row) && RowRef(row) == r;
          assert HasGroup(m, k);
        }
        if HasGroup(m, k) {
          assert IsRow(m, GroupRowOf(m, k)) && RowRef(GroupRowOf(m, k)) == r;
        }
    }
  }

  /** Whatever is stored, the editor shows a well-formed tree. */
  lemma BuildIsWellFormed(defaults: seq<NavItem>, config: Config)
    requires UniqueKeys(defaults)
    ensures WellFormed(defaults, BuildEditorState(defaults, config))
  {
    var m := Resolve(defaults, config);
    ResolveIsTidy(defaults, config);
    BuildHoldsEveryRow(m);
    var top := BuildEditorState(defaults, config);
    assert forall r :: Count(top, r) == Indicator(HasRow(m, r));
    forall k ensures Has(top, ItemRef(k)) <==> IsItemKey(defaults, k) {
      RowsOfResolve(defaults, config, ItemRef(k));
    }
    forall k
      ensures IsDefaultGroup(defaults, k) ==> Has(top, GroupRef(k))
      ensures Has(top, GroupRef(k)) ==> IsDefaultGroup(defaults, k) || IsCustomGroupNodeKey(k)
    {
      RowsOfResolve(defaults, config, GroupRef(k));
    }
  }
}
