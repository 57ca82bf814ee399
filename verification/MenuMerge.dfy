/**
 * The resolved menu: kept groups, their parents, and every item's place (merge.ts:107-223).
 */
module MenuMerge {
  import opened Options
  import opened MenuTypes
  import opened MenuResolve

  /** The result of `configFromDefaults`. */
  function DefaultConfig(defaults: seq<NavItem>): Config {
    Config(IdentityOf(defaults).groups, IdentityOf(defaults).items)
  }

  // ---------------------------------------------------------------- rows by key

  /** `new Map(rows.map(row => [row.nodeKey, row]))`: the last row of a key wins. */
  function GroupMap(rows: seq<GroupRow>): (m: map<Key, GroupRow>)
    ensures m.Keys == GroupKeys(rows)
    ensures forall k :: k in m ==> m[k] in rows && m[k].nodeKey == k
  {
    if rows == [] then map[]
    else
      var before := rows[..|rows| - 1];
      var last := rows[|rows| - 1];
      assert rows == before + [last];
      GroupMap(before)[last.nodeKey := last]
  }

  function ItemMap(rows: seq<ItemRow>): (m: map<Key, ItemRow>)
    ensures forall k :: k in m ==> m[k] in rows && m[k].itemKey == k
    ensures forall row :: row in rows ==> row.itemKey in m
  {
    if rows == [] then map[]
    else
      var before := rows[..|rows| - 1];
      var last := rows[|rows| - 1];
      assert rows == before + [last];
      ItemMap(before)[last.itemKey := last]
  }

  function KeysOf(rows: seq<GroupRow>): (keys: seq<Key>)
    ensures forall k :: k in keys <==> k in GroupKeys(rows)
  {
    if rows == [] then [] else
      assert rows == [rows[0]] + rows[1..];
      [rows[0].nodeKey] + KeysOf(rows[1..])
  }

  function CustomKeysOf(rows: seq<GroupRow>): (keys: seq<Key>)
    ensures forall k :: k in keys <==> k in GroupKeys(rows) && IsCustomGroupNodeKey(k)
  {
    if rows == [] then [] else
      assert rows == [rows[0]] + rows[1..];
      (if IsCustomGroupNodeKey(rows[0].nodeKey) then [rows[0].nodeKey] else []) + CustomKeysOf(rows[1..])
  }

  ghost predicate NoDup<T>(s: seq<T>) {
    forall i, j :: 0 <= i < j < |s| ==> s[i] != s[j]
  }

  /** The members of a JavaScript Set built from `keys`, in insertion order. */
  function Dedup(keys: seq<Key>, seen: set<Key>): (r: seq<Key>)
    ensures forall k :: k in r <==> k in keys && k !in seen
    ensures NoDup(r)
  {
    if keys == [] then []
    else if keys[0] in seen then Dedup(keys[1..], seen)
    else [keys[0]] + Dedup(keys[1..], seen + {keys[0]})
  }

  /** The groups that survive: code defaults first, then the stored `custom:` ones. */
  function AllGroupKeys(identity: seq<GroupRow>, config: Config): (r: seq<Key>)
    ensures forall k :: k in r <==>
              k in GroupKeys(identity) || (k in GroupKeys(config.groups) && IsCustomGroupNodeKey(k))
    ensures NoDup(r)
  {
    Dedup(KeysOf(identity) + CustomKeysOf(config.groups), {})
  }

  // ---------------------------------------------------------------- the parent graph

  function Repair(k: Key, desired: Option<Key>, all: set<Key>, default: Option<Key>): Option<Key> {
    if desired.Some? && (desired.value == k || desired.value !in all) then default else desired
  }

  function FallbackOf(k: Key, identity: map<Key, GroupRow>): Option<Key> {
    if k in identity then identity[k].parentKey else None
  }

  /** The code-default parents are kept groups. */
  ghost predicate ParentsIn(identity: map<Key, GroupRow>, all: set<Key>) {
    forall b :: FallbackOf(b, identity).Some? ==> FallbackOf(b, identity).value in all
  }

  function CandidateOf(k: Key, identity: map<Key, GroupRow>, stored: map<Key, GroupRow>, all: set<Key>): (r: Option<Key>)
    requires k in identity || k in stored
    requires ParentsIn(identity, all)
    ensures r.Some? ==> r.value in all
  {
    var default := FallbackOf(k, identity);
    Repair(k, if k in stored then stored[k].parentKey else default, all, default)
  }

  function MakeGraph(all: set<Key>, identity: map<Key, GroupRow>, stored: map<Key, GroupRow>): (g: Graph)
    requires forall k :: k in all ==> k in identity || k in stored
    requires ParentsIn(identity, all)
    ensures g.Closed() && g.keys == all
  {
    Graph(all, map k | k in all :: CandidateOf(k, identity, stored, all), map k | k in all :: FallbackOf(k, identity))
  }

  function GraphOf(identity: seq<GroupRow>, config: Config): (g: Graph)
    requires GoodGroups(identity)
    ensures g.Closed() && g.keys == set k | k in AllGroupKeys(identity, config)
  {
    MakeGraph((set k | k in AllGroupKeys(identity, config)), GroupMap(identity), GroupMap(config.groups))
  }

  // ---------------------------------------------------------------- default position of a group

  function Min(a: Rank, b: Rank): Rank {
    if b.Less(a) then b else a
  }

  function FirstItemUnder(items: seq<ItemRow>, parent: Key, index: nat): Rank {
    if items == [] then Infinite
    else Min(if items[0].parentKey == Some(parent) then Fin(index) else Infinite,
             FirstItemUnder(items[1..], parent, index + 1))
  }

  function MaxKeyLength(rows: seq<GroupRow>): (n: nat)
    ensures forall row :: row in rows ==> |row.nodeKey| <= n
  {
    if rows == [] then 0
    else
      var n := MaxKeyLength(rows[1..]);
      if |rows[0].nodeKey| > n then |rows[0].nodeKey| else n
  }

  /** The smallest default index of an item in the code-default subtree of `nodeKey`. */
  function SubtreeFirstIndex(id: Config, nodeKey: Key): Rank
    requires GoodGroups(id.groups)
    decreases MaxKeyLength(id.groups) - |nodeKey|, |id.groups| + 1
  {
    Min(FirstItemUnder(id.items, nodeKey, 0), ChildrenFirstIndex(id, nodeKey, |id.groups|))
  }

  /** The same over the first `n` group rows that have `nodeKey` as default parent. */
  function ChildrenFirstIndex(id: Config, nodeKey: Key, n: nat): Rank
    requires GoodGroups(id.groups) && n <= |id.groups|
    decreases MaxKeyLength(id.groups) - |nodeKey|, n
  {
    if n == 0 then Infinite
    else
      var row := id.groups[n - 1];
      Min(ChildrenFirstIndex(id, nodeKey, n - 1),
          if row.parentKey == Some(nodeKey) then SubtreeFirstIndex(id, row.nodeKey) else Infinite)
  }

  // ---------------------------------------------------------------- the resolved menu

  function ResolveGroup(k: Key, id: Config, stored: map<Key, GroupRow>, parents: Parents): ResolvedGroup
    requires GoodGroups(id.groups) && k in parents
  {
    ResolvedGroup(
      k,
      if k in stored then stored[k].nameOverride else None,
      parents[k],
      if k in stored then Fin(stored[k].sortOrder) else Infinite,
      if k in GroupKeys(id.groups) then SubtreeFirstIndex(id, k) else Infinite)
  }

  function ResolveItem(row: ItemRow, index: nat, stored: map<Key, ItemRow>, all: set<Key>): ResolvedItem {
    if row.itemKey in stored then
      var s := stored[row.itemKey];
      if s.parentKey.None? || s.parentKey.value in all then
        ResolvedItem(row.itemKey, s.nameOverride, s.parentKey, Fin(s.sortOrder), Fin(index))
      else
        ResolvedItem(row.itemKey, s.nameOverride, row.parentKey, Infinite, Fin(index))
    else
      ResolvedItem(row.itemKey, None, row.parentKey, Infinite, Fin(index))
  }

  function ResolveItems(rows: seq<ItemRow>, stored: map<Key, ItemRow>, all: set<Key>): (r: seq<ResolvedItem>)
    ensures |r| == |rows| && forall i :: 0 <= i < |rows| ==> r[i] == ResolveItem(rows[i], i, stored, all)
  {
    seq(|rows|, i requires 0 <= i < |rows| => ResolveItem(rows[i], i, stored, all))
  }

  function ResolveGroups(order: seq<Key>, id: Config, stored: map<Key, GroupRow>, parents: Parents): (r: seq<ResolvedGroup>)
    requires GoodGroups(id.groups) && forall k :: k in order ==> k in parents
    ensures |r| == |order|
    ensures forall i :: 0 <= i < |order| ==> r[i] == ResolveGroup(order[i], id, stored, parents)
  {
    seq(|order|, i requires 0 <= i < |order| => assert order[i] in order; ResolveGroup(order[i], id, stored, parents))
  }

  function Resolve(defaults: seq<NavItem>, config: Config): ResolvedMenu {
    IdentityGood(defaults);
    var id := DefaultConfig(defaults);
    var order := AllGroupKeys(id.groups, config);
    var g := GraphOf(id.groups, config);
    ResolvedMenu(
      ResolveItems(id.items, ItemMap(config.items), g.keys),
      ResolveGroups(order, id, GroupMap(config.groups), ResolveParents(g, order)))
  }

  /** Heights of the resolved groups: strictly falling from parent to child. */
  ghost predicate Heights(m: ResolvedMenu, h: map<Key, nat>) {
    forall row :: row in m.groups ==>
      && row.nodeKey in h
      && (row.parentKey.Some? ==> row.parentKey.value in h && h[row.nodeKey] < h[row.parentKey.value])
  }

  ghost predicate HasGroup(m: ResolvedMenu, k: Key) {
    exists row :: row in m.groups && row.nodeKey == k
  }

  /** Kept groups are distinct and form an acyclic forest, and everything hangs in it. */
  ghost predicate Forest(m: ResolvedMenu) {
    && (forall i, j :: 0 <= i < j < |m.groups| ==> m.groups[i].nodeKey != m.groups[j].nodeKey)
    && (forall row :: row in m.groups && row.parentKey.Some? ==> HasGroup(m, row.parentKey.value))
    && (forall row :: row in m.items && row.parentKey.Some? ==> HasGroup(m, row.parentKey.value))
    && (exists h: map<Key, nat> :: Heights(m, h))
  }

  lemma GroupsHold(order: seq<Key>, id: Config, stored: map<Key, GroupRow>, parents: Parents, items: seq<ResolvedItem>)
    requires GoodGroups(id.groups) && forall k :: k in order ==> k in parents
    ensures forall k :: HasGroup(ResolvedMenu(items, ResolveGroups(order, id, stored, parents)), k) <==> k in order
  {
    var m := ResolvedMenu(items, ResolveGroups(order, id, stored, parents));
    forall k ensures HasGroup(m, k) <==> k in order {
      if k in order {
        var i :| 0 <= i < |order| && order[i] == k;
        assert m.groups[i].nodeKey == k && m.groups[i] in m.groups;
      }
      if HasGroup(m, k) {
        var row :| row in m.groups && row.nodeKey == k;
        var i :| 0 <= i < |m.groups| && m.groups[i] == row;
        assert order[i] == k;
      }
    }
  }

  lemma ResolvedItems(defaults: seq<NavItem>, config: Config)
    ensures var items := Resolve(defaults, config).items;
      && |items| == |defaults|
      && (forall i :: 0 <= i < |defaults| ==> items[i].itemKey == defaults[i].key && items[i].defaultIndex == Fin(i))
  {
    IdentityGood(defaults);
  }

  lemma ResolvedGroups(defaults: seq<NavItem>, config: Config)
    ensures forall k :: HasGroup(Resolve(defaults, config), k) <==> k in AllGroupKeys(IdentityOf(defaults).groups, config)
  {
    IdentityGood(defaults);
    var id := DefaultConfig(defaults);
    var order := AllGroupKeys(id.groups, config);
    GroupsHold(order, id, GroupMap(config.groups), ResolveParents(GraphOf(id.groups, config), order), Resolve(defaults, config).items);
  }

  lemma GroupsForest(order: seq<Key>, id: Config, stored: map<Key, GroupRow>, parents: Parents, items: seq<ResolvedItem>)
    requires GoodGroups(id.groups) && (forall k :: k in order <==> k in parents) && Acyclic(parents)
    requires NoDup(order)
    requires forall row :: row in items && row.parentKey.Some? ==> row.parentKey.value in order
    ensures Forest(ResolvedMenu(items, ResolveGroups(order, id, stored, parents)))
  {
    GroupsHold(order, id, stored, parents, items);
    var m := ResolvedMenu(items, ResolveGroups(order, id, stored, parents));
    var h: map<Key, nat> :| Falls(parents, h);
    forall row | row in m.groups
      ensures row.nodeKey in h
      ensures row.parentKey.Some? ==> row.parentKey.value in h && h[row.nodeKey] < h[row.parentKey.value]
    {
      var i :| 0 <= i < |m.groups| && m.groups[i] == row;
      assert order[i] in order && ParentOf(parents, order[i]) == row.parentKey;
    }
    assert Heights(m, h);
  }

  lemma ItemsHang(rows: seq<ItemRow>, stored: map<Key, ItemRow>, all: set<Key>)
    requires forall row :: row in rows && row.parentKey.Some? ==> row.parentKey.value in all
    ensures forall row :: row in ResolveItems(rows, stored, all) && row.parentKey.Some? ==> row.parentKey.value in all
  {
    var items := ResolveItems(rows, stored, all);
    forall row | row in items && row.parentKey.Some? ensures row.parentKey.value in all {
      var i :| 0 <= i < |items| && items[i] == row;
      assert rows[i] in rows;
    }
  }

  /** For every table - dangling, self-parented, cyclic, duplicated - the result is an acyclic forest. */
  lemma ResolveIsForest(defaults: seq<NavItem>, config: Config)
    ensures Forest(Resolve(defaults, config))
  {
    IdentityGood(defaults);
    var id := DefaultConfig(defaults);
    var order, g := AllGroupKeys(id.groups, config), GraphOf(id.groups, config);
    ItemsHang(id.items, ItemMap(config.items), g.keys);
    GroupsForest(order, id, GroupMap(config.groups), ResolveParents(g, order), ResolveItems(id.items, ItemMap(config.items), g.keys));
  }
}
