/** Rendering the merged menu (merge.ts:231-288) and what saving means for it. */
module MenuApply {
  import Seqs
  import opened Options
  import opened MenuTypes
  import opened MenuResolve
  import opened MenuMerge
  import opened MenuOrder
  import opened EditorTree
  import opened MenuRoundTrip

  // ---------------------------------------------------------------- resolveMenuConfig as written

  lemma GroupMapAt(rows: seq<GroupRow>, i: nat)
    requires GoodGroups(rows) && i < |rows|
    ensures rows[i].nodeKey in GroupMap(rows) && GroupMap(rows)[rows[i].nodeKey] == rows[i]
  {
    assert rows[i] in rows;
    var found := GroupMap(rows)[rows[i].nodeKey];
    var j :| 0 <= j < |rows| && rows[j] == found;
  }

  lemma GroupKeysGrow(rows: seq<GroupRow>, i: nat)
    requires i < |rows|
    ensures GroupKeys(rows[..i + 1]) == GroupKeys(rows[..i]) + {rows[i].nodeKey}
  {
    assert rows[..i + 1] == rows[..i] + [rows[i]];
    assert rows[..i + 1][i] == rows[i];
    assert forall row :: row in rows[..i] ==> row in rows[..i + 1];
  }

  ghost predicate AreCandidates(candidate: map<Key, Option<Key>>, byDefault: map<Key, GroupRow>, stored: map<Key, GroupRow>, all: set<Key>)
    requires ParentsIn(byDefault, all)
  {
    forall k :: k in candidate ==> k in byDefault && candidate[k] == CandidateOf(k, byDefault, stored, all)
  }

  lemma OneMoreCandidate(candidate: map<Key, Option<Key>>, identity: seq<GroupRow>, i: nat, stored: map<Key, GroupRow>, all: set<Key>)
    requires GoodGroups(identity) && ParentsIn(GroupMap(identity), all) && i < |identity|
    requires AreCandidates(candidate, GroupMap(identity), stored, all)
    ensures var base := identity[i]; var desired := if base.nodeKey !in stored then base.parentKey else stored[base.nodeKey].parentKey;
      AreCandidates(candidate[base.nodeKey := if desired.Some? && (desired.value == base.nodeKey || desired.value !in all)
                                              then base.parentKey else desired], GroupMap(identity), stored, all)
  {
  }

  lemma KeysGrow<K, V>(m: map<K, V>, k: K, v: V)
    ensures m[k := v].Keys == m.Keys + {k}
  {
  }

  /** The first loop that fills `candidateParent` (merge.ts:120-127). */
  method FillDefaultCandidates(identity: seq<GroupRow>, stored: map<Key, GroupRow>, all: set<Key>)
      returns (candidate: map<Key, Option<Key>>)
    requires GoodGroups(identity) && ParentsIn(GroupMap(identity), all)
    ensures candidate.Keys == GroupKeys(identity)
    ensures forall k :: k in candidate ==> candidate[k] == CandidateOf(k, GroupMap(identity), stored, all)
  {
    candidate := map[];
    for i := 0 to |identity|
      invariant candidate.Keys == GroupKeys(identity[..i]) && AreCandidates(candidate, GroupMap(identity), stored, all)
    {
      var base := identity[i];
      OneMoreCandidate(candidate, identity, i, stored, all);
      GroupKeysGrow(identity, i);
      var desired := if base.nodeKey !in stored then base.parentKey else stored[base.nodeKey].parentKey;
      var kept := if desired.Some? && (desired.value == base.nodeKey || desired.value !in all) then base.parentKey else desired;
      KeysGrow(candidate, base.nodeKey, kept);
      candidate := candidate[base.nodeKey := kept];
    }
    assert identity[..|identity|] == identity;
  }

  /** The second loop: later rows of the same custom group overwrite earlier ones (merge.ts:128-137). */
  method FillCustomCandidates(before: map<Key, Option<Key>>, rows: seq<GroupRow>, byDefault: map<Key, GroupRow>, all: set<Key>)
      returns (candidate: map<Key, Option<Key>>)
    requires before.Keys == byDefault.Keys
    ensures forall k :: k in candidate <==> k in byDefault || (k in GroupMap(rows) && IsCustomGroupNodeKey(k))
    ensures forall k :: k in byDefault ==> candidate[k] == before[k]
    ensures forall k :: k in candidate && k !in byDefault ==> candidate[k] == Repair(k, GroupMap(rows)[k].parentKey, all, None)
  {
    candidate := before;
    for i := 0 to |rows|
      invariant forall k :: k in candidate <==> k in byDefault || (k in GroupMap(rows[..i]) && IsCustomGroupNodeKey(k))
      invariant forall k :: k in byDefault ==> candidate[k] == before[k]
      invariant forall k :: k in candidate && k !in byDefault ==>
                  candidate[k] == Repair(k, GroupMap(rows[..i])[k].parentKey, all, None)
    {
      var row := rows[i];
      GroupMapGrows(rows, i);
      if row.nodeKey !in byDefault && IsCustomGroupNodeKey(row.nodeKey) {
        candidate := candidate[row.nodeKey :=
          if row.parentKey.Some? && (row.parentKey.value == row.nodeKey || row.parentKey.value !in all) then None else row.parentKey];
      }
    }
    assert rows[..|rows|] == rows;
  }

  lemma GroupMapGrows(rows: seq<GroupRow>, i: nat)
    requires i < |rows|
    ensures GroupMap(rows[..i + 1]) == GroupMap(rows[..i])[rows[i].nodeKey := rows[i]]
  {
    assert rows[..i + 1][..i] == rows[..i];
  }

  lemma FilledGraph(all: set<Key>, candidate: map<Key, Option<Key>>, byDefault: map<Key, GroupRow>, stored: map<Key, GroupRow>)
    requires forall k :: k in all <==> k in byDefault || (k in stored && IsCustomGroupNodeKey(k))
    requires ParentsIn(byDefault, all) && candidate.Keys == all
    requires forall k :: k in byDefault ==> candidate[k] == CandidateOf(k, byDefault, stored, all)
    requires forall k :: k in candidate && k !in byDefault ==> candidate[k] == Repair(k, stored[k].parentKey, all, None)
    ensures MakeGraph(all, byDefault, stored) == Graph(all, candidate, map k | k in all :: FallbackOf(k, byDefault))
  {
    forall k | k in all ensures candidate[k] == CandidateOf(k, byDefault, stored, all) {
    }
    assert MakeGraph(all, byDefault, stored).candidate == candidate;
  }

  method FillGraph(identity: seq<GroupRow>, config: Config) returns (g: Graph)
    requires GoodGroups(identity)
    ensures g == GraphOf(identity, config)
  {
    var order := AllGroupKeys(identity, config);
    var all := set k | k in order;
    var byDefault, stored := GroupMap(identity), GroupMap(config.groups);
    var defaults := FillDefaultCandidates(identity, stored, all);
    var candidate := FillCustomCandidates(defaults, config.groups, byDefault, all);
    FilledGraph(all, candidate, byDefault, stored);
    g := Graph(all, candidate, map k | k in all :: FallbackOf(k, byDefault));
  }

  /** The loop of merge.ts:197-208. */
  method FillGroups(order: seq<Key>, identity: Config, stored: map<Key, GroupRow>, parents: Parents)
      returns (groups: seq<ResolvedGroup>)
    requires GoodGroups(identity.groups) && forall k :: k in order ==> k in parents
    ensures groups == ResolveGroups(order, identity, stored, parents)
  {
    groups := [];
    for i := 0 to |order|
      invariant |groups| == i
      invariant forall j :: 0 <= j < i ==> groups[j] == ResolveGroups(order, identity, stored, parents)[j]
    {
      assert order[i] in order;
      groups := groups + [ResolveGroup(order[i], identity, stored, parents)];
    }
  }

  method ResolveMenuConfig(defaults: seq<NavItem>, config: Config) returns (m: ResolvedMenu)
    ensures m == Resolve(defaults, config)
  {
    IdentityGood(defaults);
    var identity := ConfigFromDefaults(defaults);
    var order := AllGroupKeys(identity.groups, config);
    var g := FillGraph(identity.groups, config);
    var resolver := new ParentResolver(g);
    resolver.ResolveAll(order);
    var groups := FillGroups(order, identity, GroupMap(config.groups), resolver.resolvedParent);
    m := ResolvedMenu(ResolveItems(identity.items, ItemMap(config.items), g.keys), groups);
  }

  // ---------------------------------------------------------------- used groups

  ghost function AllKeys(m: ResolvedMenu): set<Key> {
    set row | row in m.groups :: row.nodeKey
  }

  /** `groupByKey.get(k)?.parentKey ?? null` */
  function ParentIn(groups: seq<ResolvedGroup>, k: Key): Option<Key> {
    if groups == [] then None
    else if groups[0].nodeKey == k then groups[0].parentKey
    else ParentIn(groups[1..], k)
  }

  lemma {:induction false} ParentInSpec(groups: seq<ResolvedGroup>, row: ResolvedGroup)
    requires row in groups && forall i, j :: 0 <= i < j < |groups| ==> groups[i].nodeKey != groups[j].nodeKey
    ensures ParentIn(groups, row.nodeKey) == row.parentKey
  {
    if groups[0] != row {
      ParentInSpec(groups[1..], row);
    }
  }

  /** Everything above a used group is used. */
  ghost predicate UpClosed(m: ResolvedMenu, used: set<Key>) {
    forall row :: row in m.groups && row.nodeKey in used && row.parentKey.Some? ==> row.parentKey.value in used
  }

  /** Everything above a used group is used, with the chain above `cursor` still to be marked. */
  ghost predicate UpClosedBut(m: ResolvedMenu, used: set<Key>, cursor: Option<Key>) {
    forall row :: row in m.groups && row.nodeKey in used && row.parentKey.Some? ==>
      row.parentKey.value in used || row.parentKey == cursor
  }

  method MarkUsed(m: ResolvedMenu, nodeKey: Key, before: set<Key>) returns (used: set<Key>)
    requires Forest(m) && HasGroup(m, nodeKey) && UpClosed(m, before)
    ensures UpClosed(m, used) && before + {nodeKey} <= used
  {
    used := before;
    var cursor := Some(nodeKey);
    while cursor.Some? && cursor.value !in used
      invariant cursor.Some? ==> HasGroup(m, cursor.value)
      invariant before <= used && UpClosedBut(m, used, cursor)
      invariant nodeKey in used || cursor == Some(nodeKey)
      decreases AllKeys(m) - used
    {
      var k := cursor.value;
      ghost var row := GroupRowOf(m, k).group;
      ParentInSpec(m.groups, row);
      forall other | other in m.groups && other.nodeKey == k ensures other.parentKey == row.parentKey {
      }
      used := used + {k};
      cursor := ParentIn(m.groups, k);
    }
  }

  /** Closed upwards, and every item sits in a used group: all that rendering needs of `usedGroupKeys`. */
  ghost predicate Covers(m: ResolvedMenu, used: set<Key>) {
    UpClosed(m, used) && forall item :: item in m.items && item.parentKey.Some? ==> item.parentKey.value in used
  }

  method UsedGroupKeys(m: ResolvedMenu) returns (used: set<Key>)
    requires Forest(m)
    ensures Covers(m, used)
  {
    used := {};
    for i := 0 to |m.items|
      invariant UpClosed(m, used)
      invariant forall j :: 0 <= j < i && m.items[j].parentKey.Some? ==> m.items[j].parentKey.value in used
    {
      assert m.items[i] in m.items;
      if m.items[i].parentKey.Some? {
        used := MarkUsed(m, m.items[i].parentKey.value, used);
      }
    }
  }

  // ---------------------------------------------------------------- emission

  function ItemsByKey(defaults: seq<NavItem>): (m: map<Key, NavItem>)
    ensures forall k :: k in m ==> m[k] in defaults && m[k].key == k
    ensures forall item :: item in defaults ==> item.key in m
  {
    if defaults == [] then map[]
    else
      var before := defaults[..|defaults| - 1];
      var last := defaults[|defaults| - 1];
      assert defaults == before + [last];
      ItemsByKey(before)[last.key := last]
  }

  function Decorate(source: NavItem, name: Option<string>, ancestors: seq<string>): NavItem {
    source.(caption := name.GetOr(source.caption),
            group := if |ancestors| > 0 then Some(ancestors[0]) else None,
            subGroup := if |ancestors| > 1 then Some(ancestors[1]) else None,
            groupPath := if |ancestors| > 0 then Some(ancestors) else None)
  }

  function EmitItem(k: Key, name: Option<string>, ancestors: seq<string>, byKey: map<Key, NavItem>): seq<NavItem> {
    if k in byKey then [Decorate(byKey[k], name, ancestors)] else []
  }

  function DisplayName(nodeKey: Key, name: Option<string>): string {
    name.GetOr(GroupDefaultName(nodeKey))
  }

  /** `emitContainer`: the sorted rows of a container without its unused groups, each group in place of itself. */
  function Emit(m: ResolvedMenu, used: set<Key>, byKey: map<Key, NavItem>, parent: Option<Key>, ancestors: seq<string>): seq<NavItem>
    requires Forest(m) && Hangs(m, parent)
    decreases parent.None?, Height(m, parent), 1, 0
  {
    var rows := Keep(RowsUnder(m, parent), used);
    SortMembers(rows);
    EmitRows(m, used, byKey, parent, ancestors, Sort(rows))
  }

  function EmitRows(m: ResolvedMenu, used: set<Key>, byKey: map<Key, NavItem>, parent: Option<Key>, ancestors: seq<string>,
                    rows: seq<Row>): seq<NavItem>
    requires Forest(m) && Hangs(m, parent)
    requires forall row :: row in rows ==> IsRow(m, row) && row.Parent() == parent
    decreases parent.None?, Height(m, parent), 0, |rows|
  {
    if rows == [] then []
    else
      assert rows[0] in rows;
      RowHangs(m, rows[0]);
      (match rows[0]
       case ItemEntry(item) => EmitItem(item.itemKey, item.nameOverride, ancestors, byKey)
       case GroupEntry(group) =>
         Emit(m, used, byKey, Some(group.nodeKey), ancestors + [DisplayName(group.nodeKey, group.nameOverride)]))
      + EmitRows(m, used, byKey, parent, ancestors, rows[1..])
  }

  /** The items of an editor tree in order, each under the display names of its ancestors: the meaning of a tree. */
  function Linearize(byKey: map<Key, NavItem>, nodes: seq<EditorNode>, ancestors: seq<string>): seq<NavItem> {
    if nodes == [] then []
    else
      (match nodes[0]
       case Item(k, name) => EmitItem(k, name, ancestors, byKey)
       case Group(k, name, children) => Linearize(byKey, children, ancestors + [DisplayName(k, name)]))
      + Linearize(byKey, nodes[1..], ancestors)
  }

  /** What one row of a container renders to. */
  function EmitRow(m: ResolvedMenu, used: set<Key>, byKey: map<Key, NavItem>, ancestors: seq<string>, row: Row): seq<NavItem>
    requires Forest(m) && IsRow(m, row)
  {
    RowHangs(m, row);
    match row
    case ItemEntry(item) => EmitItem(item.itemKey, item.nameOverride, ancestors, byKey)
    case GroupEntry(group) =>
      Emit(m, used, byKey, Some(group.nodeKey), ancestors + [DisplayName(group.nodeKey, group.nameOverride)])
  }

  lemma EmitRowsCons(m: ResolvedMenu, used: set<Key>, byKey: map<Key, NavItem>, parent: Option<Key>, ancestors: seq<string>, rows: seq<Row>)
    requires Forest(m) && Hangs(m, parent) && rows != []
    requires forall row :: row in rows ==> IsRow(m, row) && row.Parent() == parent
    ensures IsRow(m, rows[0])
    ensures EmitRows(m, used, byKey, parent, ancestors, rows) ==
            EmitRow(m, used, byKey, ancestors, rows[0]) + EmitRows(m, used, byKey, parent, ancestors, rows[1..])
  {
    assert rows[0] in rows;
  }

  lemma EmitRowsStep(m: ResolvedMenu, used: set<Key>, byKey: map<Key, NavItem>, parent: Option<Key>, ancestors: seq<string>, rows: seq<Row>,
                     before: seq<NavItem>)
    requires Forest(m) && Hangs(m, parent) && rows != []
    requires forall row :: row in rows ==> IsRow(m, row) && row.Parent() == parent
    ensures IsRow(m, rows[0])
    ensures before + EmitRows(m, used, byKey, parent, ancestors, rows) ==
            before + EmitRow(m, used, byKey, ancestors, rows[0]) + EmitRows(m, used, byKey, parent, ancestors, rows[1..])
  {
    EmitRowsCons(m, used, byKey, parent, ancestors, rows);
    Seqs.Assoc(before, EmitRow(m, used, byKey, ancestors, rows[0]), EmitRows(m, used, byKey, parent, ancestors, rows[1..]));
  }

  class Emitter {
    var result: seq<NavItem>

    constructor ()
      ensures result == []
    {
      result := [];
    }

    method EmitContainer(m: ResolvedMenu, used: set<Key>, byKey: map<Key, NavItem>, parent: Option<Key>, ancestors: seq<string>)
      requires Forest(m) && Hangs(m, parent)
      modifies this
      ensures result == old(result) + Emit(m, used, byKey, parent, ancestors)
      decreases parent.None?, Height(m, parent), 2
    {
      var kept := Keep(RowsUnder(m, parent), used);
      SortMembers(kept);
      EmitNodes(m, used, byKey, parent, ancestors, Sort(kept));
    }

    method EmitNodes(m: ResolvedMenu, used: set<Key>, byKey: map<Key, NavItem>, parent: Option<Key>, ancestors: seq<string>, rows: seq<Row>)
      requires Forest(m) && Hangs(m, parent)
      requires forall row :: row in rows ==> IsRow(m, row) && row.Parent() == parent
      modifies this
      ensures result == old(result) + EmitRows(m, used, byKey, parent, ancestors, rows)
      decreases parent.None?, Height(m, parent), 1
    {
      for i := 0 to |rows|
        invariant result + EmitRows(m, used, byKey, parent, ancestors, rows[i..]) ==
                  old(result) + EmitRows(m, used, byKey, parent, ancestors, rows)
      {
        assert rows[i] in rows && rows[i..][1..] == rows[i + 1..];
        EmitRowsStep(m, used, byKey, parent, ancestors, rows[i..], result);
        EmitNode(m, used, byKey, ancestors, rows[i]);
      }
    }

    method EmitNode(m: ResolvedMenu, used: set<Key>, byKey: map<Key, NavItem>, ancestors: seq<string>, row: Row)
      requires Forest(m) && IsRow(m, row)
      modifies this
      ensures result == old(result) + EmitRow(m, used, byKey, ancestors, row)
      decreases row.Parent().None?, (RowHangs(m, row); Height(m, row.Parent())), 0
    {
      RowHangs(m, row);
      match row {
        case ItemEntry(item) =>
          if item.itemKey in byKey {
            result := result + [Decorate(byKey[item.itemKey], item.nameOverride, ancestors)];
          }
        case GroupEntry(group) =>
          EmitContainer(m, used, byKey, Some(group.nodeKey), ancestors + [DisplayName(group.nodeKey, group.nameOverride)]);
      }
    }
  }

  /** A group outside the used ones holds no item at any depth. */
  lemma {:induction false} UnusedIsSilent(m: ResolvedMenu, used: set<Key>, byKey: map<Key, NavItem>, k: Key, ancestors: seq<string>)
    requires Forest(m) && Covers(m, used) && HasGroup(m, k) && k !in used
    ensures Linearize(byKey, Build(m, Some(k)), ancestors) == []
    decreases Height(m, Some(k)), 1, 0
  {
    var rows := RowsUnder(m, Some(k));
    SortMembers(rows);
    UnusedRowsAreSilent(m, used, byKey, k, ancestors, Sort(rows));
  }

  lemma {:induction false} UnusedRowsAreSilent(m: ResolvedMenu, used: set<Key>, byKey: map<Key, NavItem>, k: Key, ancestors: seq<string>,
                                               rows: seq<Row>)
    requires Forest(m) && Covers(m, used) && HasGroup(m, k) && k !in used
    requires forall row :: row in rows ==> IsRow(m, row) && row.Parent() == Some(k)
    ensures Linearize(byKey, BuildRows(m, Some(k), rows), ancestors) == []
    decreases Height(m, Some(k)), 0, |rows|
  {
    if rows != [] {
      assert rows[0] in rows;
      RowHangs(m, rows[0]);
      UnusedRowsAreSilent(m, used, byKey, k, ancestors, rows[1..]);
      if rows[0].GroupEntry? {
        var group := rows[0].group;
        UnusedIsSilent(m, used, byKey, group.nodeKey, ancestors + [DisplayName(group.nodeKey, group.nameOverride)]);
      }
      assert BuildRows(m, Some(k), rows)[1..] == BuildRows(m, Some(k), rows[1..]);
    }
  }

  /** Skipping unused groups, and sorting after skipping, does not change what is rendered. */
  lemma {:induction false} EmitIsLinearize(m: ResolvedMenu, used: set<Key>, byKey: map<Key, NavItem>, parent: Option<Key>,
                                           ancestors: seq<string>)
    requires Forest(m) && Covers(m, used) && Hangs(m, parent)
    ensures Emit(m, used, byKey, parent, ancestors) == Linearize(byKey, Build(m, parent), ancestors)
    decreases parent.None?, Height(m, parent), 1, 0
  {
    var rows := RowsUnder(m, parent);
    SortMembers(rows);
    SortMembers(Keep(rows, used));
    KeepSort(rows, used);
    EmitRowsIsLinearize(m, used, byKey, parent, ancestors, Sort(rows));
  }

  function RowMeaning(m: ResolvedMenu, byKey: map<Key, NavItem>, ancestors: seq<string>, row: Row): seq<NavItem>
    requires Forest(m) && IsRow(m, row)
  {
    RowHangs(m, row);
    match row
    case ItemEntry(item) => EmitItem(item.itemKey, item.nameOverride, ancestors, byKey)
    case GroupEntry(group) =>
      Linearize(byKey, Build(m, Some(group.nodeKey)), ancestors + [DisplayName(group.nodeKey, group.nameOverride)])
  }

  lemma {:induction false} EmitRowMeaning(m: ResolvedMenu, used: set<Key>, byKey: map<Key, NavItem>, ancestors: seq<string>, row: Row)
    requires Forest(m) && Covers(m, used) && IsRow(m, row)
    ensures RowMeaning(m, byKey, ancestors, row) == if Kept(row, used) then EmitRow(m, used, byKey, ancestors, row) else []
    decreases row.Parent().None?, (RowHangs(m, row); Height(m, row.Parent())), 0, 0
  {
    RowHangs(m, row);
    if row.GroupEntry? {
      var inner := ancestors + [DisplayName(row.group.nodeKey, row.group.nameOverride)];
      if row.group.nodeKey in used {
        EmitIsLinearize(m, used, byKey, Some(row.group.nodeKey), inner);
      } else {
        UnusedIsSilent(m, used, byKey, row.group.nodeKey, inner);
      }
    }
  }

  lemma {:induction false} EmitRowsIsLinearize(m: ResolvedMenu, used: set<Key>, byKey: map<Key, NavItem>, parent: Option<Key>,
                                               ancestors: seq<string>, rows: seq<Row>)
    requires Forest(m) && Covers(m, used) && Hangs(m, parent)
    requires forall row :: row in rows ==> IsRow(m, row) && row.Parent() == parent
    ensures forall row :: row in Keep(rows, used) ==> IsRow(m, row) && row.Parent() == parent
    ensures EmitRows(m, used, byKey, parent, ancestors, Keep(rows, used)) ==
            Linearize(byKey, BuildRows(m, parent, rows), ancestors)
    decreases parent.None?, Height(m, parent), 0, |rows|
  {
    if rows != [] {
      assert rows[0] in rows && rows == [rows[0]] + rows[1..];
      EmitRowsIsLinearize(m, used, byKey, parent, ancestors, rows[1..]);
      EmitRowMeaning(m, used, byKey, ancestors, rows[0]);
      KeepCons(rows[0], rows[1..], used);
      if Kept(rows[0], used) {
        EmitRowsCons(m, used, byKey, parent, ancestors, Keep(rows, used));
        assert Keep(rows, used)[1..] == Keep(rows[1..], used);
      }
    }
  }

  /** What the menu shows: the code defaults when nothing is stored, else the items of the merged tree in order. */
  function Apply(defaults: seq<NavItem>, config: Config): seq<NavItem> {
    if config.groups == [] && config.items == [] then defaults
    else Linearize(ItemsByKey(defaults), BuildEditorState(defaults, config), [])
  }

  /** merge.ts:231-288 as written. */
  method ApplyMenuConfig(defaults: seq<NavItem>, config: Config) returns (result: seq<NavItem>)
    ensures result == Apply(defaults, config)
  {
    if |config.groups| == 0 && |config.items| == 0 {
      return defaults;
    }
    var resolved := ResolveMenuConfig(defaults, config);
    ResolveIsForest(defaults, config);
    var used := UsedGroupKeys(resolved);
    var emitter := new Emitter();
    emitter.EmitContainer(resolved, used, ItemsByKey(defaults), None, []);
    EmitIsLinearize(resolved, used, ItemsByKey(defaults), None, []);
    return emitter.result;
  }

  // ---------------------------------------------------------------- main results

  /** Opening the editor and saving without an edit leaves the rendered menu as it was, order and group paths included. */
  lemma SavingUnchangedChangesNothing(defaults: seq<NavItem>, config: Config)
    requires UniqueKeys(defaults) && (config.groups != [] || config.items != [])
    ensures Apply(defaults, Serialize(BuildEditorState(defaults, config))) == Apply(defaults, config)
  {
    var tree := BuildEditorState(defaults, config);
    BuildIsWellFormed(defaults, config);
    RoundTrip(defaults, tree);
    if tree != [] {
      PlacesRowsNotEmpty(tree);
    } else if defaults != [] {
      assert IsItemKey(defaults, defaults[0].key);
    }
  }

  lemma PlacesRowsNotEmpty(nodes: seq<EditorNode>)
    requires nodes != []
    ensures Serialize(nodes).groups != [] || Serialize(nodes).items != []
  {
    GroupRowsOfWalk(nodes, None, 0);
    ItemRowsOfWalk(nodes, None, 0);
  }

  /** What the display configuration may never touch. */
  datatype Core = Core(key: Key, path: string, permission: Option<seq<string>>)

  function CoreOf(item: NavItem): Core {
    Core(item.key, item.path, item.permission)
  }

  function Cores(items: seq<NavItem>): (r: seq<Core>)
    ensures |r| == |items| && forall i :: 0 <= i < |items| ==> r[i] == CoreOf(items[i])
  {
    seq(|items|, i requires 0 <= i < |items| => CoreOf(items[i]))
  }

  ghost function Shown(items: seq<NavItem>, k: Key): nat {
    if items == [] then 0 else Indicator(items[0].key == k) + Shown(items[1..], k)
  }

  lemma {:induction false} ShownConcat(a: seq<NavItem>, b: seq<NavItem>, k: Key)
    ensures Shown(a + b, k) == Shown(a, k) + Shown(b, k)
  {
    if a == [] {
      assert a + b == b;
    } else {
      assert (a + b)[1..] == a[1..] + b;
      ShownConcat(a[1..], b, k);
    }
  }

  lemma {:induction false} LinearizeShows(byKey: map<Key, NavItem>, nodes: seq<EditorNode>, ancestors: seq<string>, k: Key)
    requires forall j :: j in byKey ==> byKey[j].key == j
    ensures Shown(Linearize(byKey, nodes, ancestors), k) == if k in byKey then Count(nodes, ItemRef(k)) else 0
  {
    if nodes != [] {
      LinearizeShows(byKey, nodes[1..], ancestors, k);
      match nodes[0] {
        case Item(j, name) =>
          ShownConcat(EmitItem(j, name, ancestors, byKey), Linearize(byKey, nodes[1..], ancestors), k);
        case Group(j, name, children) =>
          var inner := ancestors + [DisplayName(j, name)];
          LinearizeShows(byKey, children, inner, k);
          ShownConcat(Linearize(byKey, children, inner), Linearize(byKey, nodes[1..], ancestors), k);
      }
    }
  }

  lemma {:induction false} LinearizeKeepsCores(byKey: map<Key, NavItem>, nodes: seq<EditorNode>, ancestors: seq<string>)
    requires forall j :: j in byKey ==> byKey[j].key == j
    ensures forall item :: item in Linearize(byKey, nodes, ancestors) ==> item.key in byKey && CoreOf(item) == CoreOf(byKey[item.key])
  {
    if nodes != [] {
      LinearizeKeepsCores(byKey, nodes[1..], ancestors);
      if nodes[0].Group? {
        LinearizeKeepsCores(byKey, nodes[0].children, ancestors + [DisplayName(nodes[0].nodeKey, nodes[0].nameOverride)]);
      }
    }
  }

  lemma {:induction false} ShownOnce(items: seq<NavItem>)
    requires forall k :: Shown(items, k) <= 1
    ensures forall i, j :: 0 <= i < j < |items| ==> items[i].key != items[j].key
  {
    if items != [] {
      forall k ensures Shown(items[1..], k) <= 1 {
        assert Shown(items, k) == Indicator(items[0].key == k) + Shown(items[1..], k);
      }
      ShownOnce(items[1..]);
      forall j | 0 < j < |items| ensures items[0].key != items[j].key {
        ShownSomewhere(items[1..], j - 1);
        assert Shown(items, items[j].key) <= 1;
      }
    }
  }

  lemma {:induction false} ShownSomewhere(items: seq<NavItem>, i: nat)
    requires i < |items|
    ensures Shown(items, items[i].key) > 0
  {
    if i > 0 {
      ShownSomewhere(items[1..], i - 1);
    }
  }

  lemma {:induction false} ShownIsThere(items: seq<NavItem>, k: Key)
    requires Shown(items, k) > 0
    ensures exists item :: item in items && item.key == k
  {
    if items[0].key != k {
      ShownIsThere(items[1..], k);
    }
  }

  lemma OneItemPerKey(defaults: seq<NavItem>, a: NavItem, b: NavItem)
    requires UniqueKeys(defaults) && a in defaults && b in defaults && a.key == b.key
    ensures a == b
  {
    var i :| 0 <= i < |defaults| && defaults[i] == a;
    var j :| 0 <= j < |defaults| && defaults[j] == b;
  }

  /** A well-formed tree shows each code-defined item once and nothing else. */
  lemma EachItemIsShown(defaults: seq<NavItem>, tree: seq<EditorNode>, k: Key)
    requires WellFormed(defaults, tree)
    ensures Shown(Linearize(ItemsByKey(defaults), tree, []), k) == Indicator(IsItemKey(defaults, k))
  {
    LinearizeShows(ItemsByKey(defaults), tree, [], k);
    if IsItemKey(defaults, k) {
      var i :| 0 <= i < |defaults| && defaults[i].key == k;
      assert defaults[i] in defaults;
      assert Has(tree, ItemRef(k)) && Count(tree, ItemRef(k)) <= 1;
    }
  }

  /** So it shows exactly the code-defined items. */
  lemma TreeShowsEveryItem(defaults: seq<NavItem>, tree: seq<EditorNode>)
    requires UniqueKeys(defaults) && WellFormed(defaults, tree)
    ensures multiset(Cores(Linearize(ItemsByKey(defaults), tree, []))) == multiset(Cores(defaults))
  {
    var byKey := ItemsByKey(defaults);
    var shown := Linearize(byKey, tree, []);
    forall k ensures Shown(shown, k) == Indicator(IsItemKey(defaults, k)) {
      EachItemIsShown(defaults, tree, k);
    }
    ShownOnce(shown);
    LinearizeKeepsCores(byKey, tree, []);
    SameCores(defaults, shown, byKey);
  }

  /** Whatever is stored, the menu shows exactly the code-defined items, each with its own path and permission. */
  lemma NothingIsLost(defaults: seq<NavItem>, config: Config)
    requires UniqueKeys(defaults)
    ensures multiset(Cores(Apply(defaults, config))) == multiset(Cores(defaults))
  {
    if config.groups != [] || config.items != [] {
      BuildIsWellFormed(defaults, config);
      TreeShowsEveryItem(defaults, BuildEditorState(defaults, config));
    }
  }

  lemma ShownIsDefault(defaults: seq<NavItem>, item: NavItem, byKey: map<Key, NavItem>)
    requires byKey == ItemsByKey(defaults) && item.key in byKey && CoreOf(item) == CoreOf(byKey[item.key])
    ensures CoreOf(item) in Cores(defaults)
  {
    var j :| 0 <= j < |defaults| && defaults[j] == byKey[item.key];
    assert Cores(defaults)[j] == CoreOf(item);
  }

  lemma DefaultIsShown(defaults: seq<NavItem>, shown: seq<NavItem>, byKey: map<Key, NavItem>, j: nat)
    requires UniqueKeys(defaults) && byKey == ItemsByKey(defaults) && j < |defaults|
    requires forall item :: item in shown ==> item.key in byKey && CoreOf(item) == CoreOf(byKey[item.key])
    requires forall k :: IsItemKey(defaults, k) ==> Shown(shown, k) > 0
    ensures CoreOf(defaults[j]) in Cores(shown)
  {
    assert defaults[j] in defaults && IsItemKey(defaults, defaults[j].key);
    ShownIsThere(shown, defaults[j].key);
    var item :| item in shown && item.key == defaults[j].key;
    OneItemPerKey(defaults, byKey[item.key], defaults[j]);
    var i :| 0 <= i < |shown| && shown[i] == item;
    assert Cores(shown)[i] == CoreOf(defaults[j]);
  }

  lemma SameCores(defaults: seq<NavItem>, shown: seq<NavItem>, byKey: map<Key, NavItem>)
    requires UniqueKeys(defaults) && byKey == ItemsByKey(defaults)
    requires forall i, j :: 0 <= i < j < |shown| ==> shown[i].key != shown[j].key
    requires forall item :: item in shown ==> item.key in byKey && CoreOf(item) == CoreOf(byKey[item.key])
    requires forall k :: IsItemKey(defaults, k) ==> Shown(shown, k) > 0
    ensures multiset(Cores(shown)) == multiset(Cores(defaults))
  {
    forall c ensures c in Cores(shown) <==> c in Cores(defaults) {
      if c in Cores(shown) {
        var i :| 0 <= i < |shown| && CoreOf(shown[i]) == c;
        ShownIsDefault(defaults, shown[i], byKey);
      }
      if c in Cores(defaults) {
        var j :| 0 <= j < |defaults| && CoreOf(defaults[j]) == c;
        DefaultIsShown(defaults, shown, byKey, j);
      }
    }
    assert NoDup(Cores(shown)) && NoDup(Cores(defaults));
    SameMembers(Cores(shown), Cores(defaults));
  }
}
