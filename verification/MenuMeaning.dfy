/**
 * What the merged menu shows, in the columns of the defaults and of the stored rows (merge.ts:107-223, 258-287):
 * where an item hangs and where it is placed, which parent a group asks for, and under which names an item is shown.
 * Nothing here mentions the functions that compute it.
 */
module MenuMeaning {
  import opened Options
  import opened MenuTypes
  import opened MenuResolve
  import opened MenuMerge
  import opened MenuOrder
  import opened EditorTree
  import opened MenuApply
  import opened MenuFirstSave
  import Sorting

  // ---------------------------------------------------------------- the stored rows that count

  /** The last stored row of an item. */
  ghost predicate CountsForItem(rows: seq<ItemRow>, k: Key, j: int) {
    0 <= j < |rows| && rows[j].itemKey == k && forall l :: j < l < |rows| ==> rows[l].itemKey != k
  }

  /** The last stored row of a group. */
  ghost predicate CountsForGroup(rows: seq<GroupRow>, k: Key, j: int) {
    0 <= j < |rows| && rows[j].nodeKey == k && forall l :: j < l < |rows| ==> rows[l].nodeKey != k
  }

  lemma ItemLastRow(rows: seq<ItemRow>, k: Key, j: int)
    requires rows != [] && rows[|rows| - 1].itemKey != k
    ensures CountsForItem(rows, k, j) <==> CountsForItem(rows[..|rows| - 1], k, j)
  {
    var before := rows[..|rows| - 1];
    assert forall l :: 0 <= l < |before| ==> before[l] == rows[l];
  }

  lemma {:induction false} ItemMapMeaning(rows: seq<ItemRow>, k: Key)
    ensures k in ItemMap(rows) ==> exists j :: CountsForItem(rows, k, j)
    ensures forall j :: CountsForItem(rows, k, j) ==> k in ItemMap(rows) && ItemMap(rows)[k] == rows[j]
  {
    if rows != [] {
      var before, last := rows[..|rows| - 1], rows[|rows| - 1];
      ItemMapMeaning(before, k);
      if last.itemKey == k {
        assert CountsForItem(rows, k, |rows| - 1);
      } else {
        forall j ensures CountsForItem(rows, k, j) <==> CountsForItem(before, k, j) {
          ItemLastRow(rows, k, j);
        }
      }
    }
  }

  lemma GroupLastRow(rows: seq<GroupRow>, k: Key, j: int)
    requires rows != [] && rows[|rows| - 1].nodeKey != k
    ensures CountsForGroup(rows, k, j) <==> CountsForGroup(rows[..|rows| - 1], k, j)
  {
    var before := rows[..|rows| - 1];
    assert forall l :: 0 <= l < |before| ==> before[l] == rows[l];
  }

  lemma {:induction false} GroupMapMeaning(rows: seq<GroupRow>, k: Key)
    ensures k in GroupMap(rows) ==> exists j :: CountsForGroup(rows, k, j)
    ensures forall j :: CountsForGroup(rows, k, j) ==> k in GroupMap(rows) && GroupMap(rows)[k] == rows[j]
  {
    if rows != [] {
      var before, last := rows[..|rows| - 1], rows[|rows| - 1];
      GroupMapMeaning(before, k);
      if last.nodeKey == k {
        assert CountsForGroup(rows, k, |rows| - 1);
      } else {
        forall j ensures CountsForGroup(rows, k, j) <==> CountsForGroup(before, k, j) {
          GroupLastRow(rows, k, j);
        }
      }
    }
  }

  // ---------------------------------------------------------------- what the code declares

  predicate Given(name: Option<string>) {
    name.Some? && name.value != ""
  }

  /** The keys of the groups an item declares, outer first: its group, and in it its subgroup. */
  function DeclaredGroups(item: NavItem): seq<Key> {
    if Given(item.group) && Given(item.subGroup) then [item.group.value, item.group.value + "/" + item.subGroup.value]
    else if Given(item.group) then [item.group.value]
    else if Given(item.subGroup) then [item.subGroup.value]
    else []
  }

  /** The group an item is declared in: the innermost of them. */
  function DeclaredParent(item: NavItem): Option<Key> {
    if DeclaredGroups(item) == [] then None else Some(DeclaredGroups(item)[|DeclaredGroups(item)| - 1])
  }

  lemma DeclaredIsPath(item: NavItem)
    ensures PathKeys(PathOf(item)) == DeclaredGroups(item) && EndOf(PathKeys(PathOf(item))) == DeclaredParent(item)
  {
  }

  /** A group of the code. */
  ghost predicate IsDeclared(defaults: seq<NavItem>, k: Key) {
    exists i :: 0 <= i < |defaults| && k in DeclaredGroups(defaults[i])
  }

  /** A group that is shown: one of the code, or a stored custom one. */
  ghost predicate IsKept(defaults: seq<NavItem>, config: Config, k: Key) {
    IsDeclared(defaults, k) || ("custom:" <= k && exists j :: 0 <= j < |config.groups| && config.groups[j].nodeKey == k)
  }

  lemma {:induction false} DeclaredExactly(defaults: seq<NavItem>, k: Key)
    ensures k in GroupKeys(IdentityOf(defaults).groups) <==> IsDeclared(defaults, k)
  {
    if defaults != [] {
      var before, last := defaults[..|defaults| - 1], defaults[|defaults| - 1];
      DeclaredExactly(before, k);
      AddItemKeys(IdentityOf(before), last);
      DeclaredIsPath(last);
      if k in DeclaredGroups(last) {
        assert defaults[|defaults| - 1] == last;
      }
      if IsDeclared(before, k) {
        var i :| 0 <= i < |before| && k in DeclaredGroups(before[i]);
        assert defaults[i] == before[i];
      }
      if IsDeclared(defaults, k) && k !in DeclaredGroups(last) {
        var i :| 0 <= i < |defaults| && k in DeclaredGroups(defaults[i]);
        assert before[i] == defaults[i];
      }
    }
  }

  lemma {:induction false} KeptExactly(defaults: seq<NavItem>, config: Config, k: Key)
    ensures k in AllGroupKeys(IdentityOf(defaults).groups, config) <==> IsKept(defaults, config, k)
  {
    DeclaredExactly(defaults, k);
    GroupMapMeaning(config.groups, k);
    assert CUSTOM_GROUP_PREFIX == "custom:";
  }

  // ---------------------------------------------------------------- where an item hangs

  /** One item, given its stored row, if it has one, and the shown groups. */
  lemma PlacedItem(row: ItemRow, index: nat, stored: map<Key, ItemRow>, all: set<Key>)
    ensures var item := ResolveItem(row, index, stored, all);
      && item.itemKey == row.itemKey && item.defaultIndex == Fin(index)
      && (row.itemKey !in stored ==> item.parentKey == row.parentKey && item.order == Infinite && item.nameOverride == None)
      && (row.itemKey in stored ==>
            var own := stored[row.itemKey];
            && item.nameOverride == own.nameOverride
            && (if own.parentKey.None? || own.parentKey.value in all
                then item.parentKey == own.parentKey && item.order == Fin(own.sortOrder)
                else item.parentKey == row.parentKey && item.order == Infinite))
  {
  }

  lemma {:induction false} DeclaredPlace(defaults: seq<NavItem>, i: nat)
    requires i < |defaults|
    ensures |IdentityOf(defaults).items| == |defaults|
    ensures IdentityOf(defaults).items[i].itemKey == defaults[i].key && IdentityOf(defaults).items[i].parentKey == DeclaredParent(defaults[i])
  {
    IdentityGood(defaults);
    IdentityHoldsPaths(defaults, i);
    DeclaredIsPath(defaults[i]);
  }

  /**
   * The i-th item: where its last stored row puts it, in that order and under that name, if the row's group is shown; at
   * its declared place if it has no row or its group is gone, which only costs the place.
   */
  lemma {:induction false} ItemMeaning(defaults: seq<NavItem>, config: Config, i: nat)
    requires i < |defaults|
    ensures |Resolve(defaults, config).items| == |defaults|
    ensures var item, k := Resolve(defaults, config).items[i], defaults[i].key;
      && item.itemKey == k && item.defaultIndex == Fin(i)
      && ((forall j :: 0 <= j < |config.items| ==> config.items[j].itemKey != k) ==>
            item.parentKey == DeclaredParent(defaults[i]) && item.order == Infinite && item.nameOverride == None)
      && (forall j :: CountsForItem(config.items, k, j) ==>
            var row := config.items[j];
            && item.nameOverride == row.nameOverride
            && (if row.parentKey.None? || IsKept(defaults, config, row.parentKey.value)
                then item.parentKey == row.parentKey && item.order == Fin(row.sortOrder)
                else item.parentKey == DeclaredParent(defaults[i]) && item.order == Infinite))
  {
    IdentityGood(defaults);
    DeclaredPlace(defaults, i);
    PlacedItem(IdentityOf(defaults).items[i], i, ItemMap(config.items), GraphOf(IdentityOf(defaults).groups, config).keys);
    ItemMapMeaning(config.items, defaults[i].key);
    forall k ensures k in GraphOf(IdentityOf(defaults).groups, config).keys <==> IsKept(defaults, config, k) {
      KeptExactly(defaults, config, k);
    }
  }

  // ---------------------------------------------------------------- which parent a group asks for

  /** The first item that declares the group. */
  ghost predicate FirstDeclares(defaults: seq<NavItem>, k: Key, i: int) {
    0 <= i < |defaults| && k in DeclaredGroups(defaults[i]) && forall l :: 0 <= l < i ==> k !in DeclaredGroups(defaults[l])
  }

  /** The declared parent of a group that the item declares. */
  function ParentInItem(item: NavItem, k: Key): Option<Key>
    requires k in DeclaredGroups(item)
  {
    if k == DeclaredGroups(item)[0] then None else Some(DeclaredGroups(item)[0])
  }

  lemma {:induction false} NewRows(acc: Identity, item: NavItem)
    ensures acc.groups <= AddItem(acc, item).groups
    ensures forall row :: row in AddItem(acc, item).groups ==>
              row in acc.groups ||
              (row.nodeKey !in GroupKeys(acc.groups) && row.nodeKey in DeclaredGroups(item) && row.parentKey == ParentInItem(item, row.nodeKey))
  {
    var path := PathOf(item);
    DeclaredIsPath(item);
    if |path| > 0 {
      AddPathTwice(acc, path);
      AddGroupKeys(acc, None, path[0]);
    }
  }

  /** Adding an item keeps the parents of the groups there are. */
  lemma {:induction false} OldParentStays(acc: Identity, item: NavItem, k: Key)
    requires GoodGroups(acc.groups) && GoodGroups(AddItem(acc, item).groups) && k in GroupKeys(acc.groups)
    ensures k in GroupKeys(AddItem(acc, item).groups) && Over(AddItem(acc, item).groups, k) == Over(acc.groups, k)
  {
    NewRows(acc, item);
    var row := GroupMap(acc.groups)[k];
    assert row in AddItem(acc, item).groups;
    OneRowPerKey(AddItem(acc, item).groups, row);
  }

  lemma {:induction false} NewParent(acc: Identity, item: NavItem, k: Key)
    requires GoodGroups(AddItem(acc, item).groups) && k !in GroupKeys(acc.groups) && k in GroupKeys(AddItem(acc, item).groups)
    ensures k in DeclaredGroups(item) && Over(AddItem(acc, item).groups, k) == ParentInItem(item, k)
  {
    NewRows(acc, item);
    assert GroupMap(AddItem(acc, item).groups)[k] in AddItem(acc, item).groups;
  }

  /** A default group has the parent under which the first item that declares it does so. */
  lemma {:induction false} IdentityParent(defaults: seq<NavItem>, k: Key) returns (i: nat)
    requires IsDeclared(defaults, k)
    ensures GoodGroups(IdentityOf(defaults).groups) && k in GroupKeys(IdentityOf(defaults).groups)
    ensures FirstDeclares(defaults, k, i) && Over(IdentityOf(defaults).groups, k) == ParentInItem(defaults[i], k)
  {
    var before := defaults[..|defaults| - 1];
    if IsDeclared(before, k) {
      i := IdentityParent(before, k);
      FirstStaysFirst(defaults, k, i);
      DeclaredAgain(defaults, k);
    } else {
      i := |defaults| - 1;
      FirstDeclaredLast(defaults, k);
    }
  }

  lemma {:induction false} DeclaredAgain(defaults: seq<NavItem>, k: Key)
    requires defaults != [] && IsDeclared(defaults[..|defaults| - 1], k)
    ensures var rows, before := IdentityOf(defaults).groups, IdentityOf(defaults[..|defaults| - 1]).groups;
      GoodGroups(rows) && GoodGroups(before) && k in GroupKeys(before) && k in GroupKeys(rows) && Over(rows, k) == Over(before, k)
  {
    IdentityGood(defaults);
    IdentityGood(defaults[..|defaults| - 1]);
    DeclaredExactly(defaults[..|defaults| - 1], k);
    OldParentStays(IdentityOf(defaults[..|defaults| - 1]), defaults[|defaults| - 1], k);
  }

  lemma {:induction false} FirstDeclaredLast(defaults: seq<NavItem>, k: Key)
    requires IsDeclared(defaults, k) && !IsDeclared(defaults[..|defaults| - 1], k)
    ensures FirstDeclares(defaults, k, |defaults| - 1)
    ensures var rows := IdentityOf(defaults).groups;
      GoodGroups(rows) && k in GroupKeys(rows) && Over(rows, k) == ParentInItem(defaults[|defaults| - 1], k)
  {
    var before, last := defaults[..|defaults| - 1], defaults[|defaults| - 1];
    IdentityGood(defaults);
    DeclaredExactly(defaults, k);
    DeclaredExactly(before, k);
    NewParent(IdentityOf(before), last, k);
    LastIsFirst(defaults, k);
  }

  lemma FirstStaysFirst(defaults: seq<NavItem>, k: Key, i: int)
    requires defaults != [] && FirstDeclares(defaults[..|defaults| - 1], k, i)
    ensures FirstDeclares(defaults, k, i)
  {
    var before := defaults[..|defaults| - 1];
    assert forall l :: 0 <= l < |before| ==> before[l] == defaults[l];
  }

  lemma LastIsFirst(defaults: seq<NavItem>, k: Key)
    requires defaults != [] && k in DeclaredGroups(defaults[|defaults| - 1]) && !IsDeclared(defaults[..|defaults| - 1], k)
    ensures FirstDeclares(defaults, k, |defaults| - 1)
  {
    var before := defaults[..|defaults| - 1];
    assert forall l :: 0 <= l < |before| ==> before[l] == defaults[l];
  }

  /** The declared parent of a group; none for a custom one. */
  ghost predicate HasDeclaredParent(defaults: seq<NavItem>, k: Key, parent: Option<Key>) {
    if IsDeclared(defaults, k) then exists i :: FirstDeclares(defaults, k, i) && parent == ParentInItem(defaults[i], k)
    else parent.None?
  }

  /** The parent a group asks for: its stored one, or the declared one if it has no row, or one that names itself or no shown group. */
  ghost predicate AsksFor(defaults: seq<NavItem>, config: Config, k: Key, parent: Option<Key>) {
    && ((forall j :: 0 <= j < |config.groups| ==> config.groups[j].nodeKey != k) ==> HasDeclaredParent(defaults, k, parent))
    && (forall j :: CountsForGroup(config.groups, k, j) ==>
          var row := config.groups[j];
          if row.parentKey.Some? && (row.parentKey.value == k || !IsKept(defaults, config, row.parentKey.value))
          then HasDeclaredParent(defaults, k, parent)
          else parent == row.parentKey)
  }

  lemma {:induction false} FallbackMeaning(defaults: seq<NavItem>, k: Key)
    ensures HasDeclaredParent(defaults, k, FallbackOf(k, GroupMap(IdentityOf(defaults).groups)))
  {
    DeclaredExactly(defaults, k);
    if IsDeclared(defaults, k) {
      var i := IdentityParent(defaults, k);
    }
  }

  lemma {:induction false} CandidateMeaning(defaults: seq<NavItem>, config: Config, k: Key)
    requires IsKept(defaults, config, k)
    ensures GoodGroups(IdentityOf(defaults).groups)
    ensures var g := GraphOf(IdentityOf(defaults).groups, config);
      && k in g.keys && AsksFor(defaults, config, k, ParentOf(g.candidate, k)) && HasDeclaredParent(defaults, k, ParentOf(g.fallback, k))
  {
    IdentityGood(defaults);
    FallbackMeaning(defaults, k);
    GroupMapMeaning(config.groups, k);
    forall p ensures p in AllGroupKeys(IdentityOf(defaults).groups, config) <==> IsKept(defaults, config, p) {
      KeptExactly(defaults, config, p);
    }
  }

  /** The parent the group asks for ranks below it. */
  ghost predicate AsksBelow(defaults: seq<NavItem>, config: Config, rank: map<Key, nat>, k: Key) {
    forall parent {:trigger AsksFor(defaults, config, k, parent)} ::
      AsksFor(defaults, config, k, parent) && parent.Some? ==> parent.value in rank && k in rank && rank[parent.value] < rank[k]
  }

  /** No chain of asked-for parents above these groups comes back to its start. */
  ghost predicate AsksWithoutCycle(defaults: seq<NavItem>, config: Config, rank: map<Key, nat>) {
    forall k :: k in rank ==> IsKept(defaults, config, k) && AsksBelow(defaults, config, rank, k)
  }

  /**
   * A shown group: its name and order are those of its last stored row; where no cycle is asked for, it gets the parent it
   * asks for; and its own index is that of the first item declared in it.
   */
  lemma {:induction false} GroupMeaning(defaults: seq<NavItem>, config: Config, group: ResolvedGroup, rank: map<Key, nat>)
    requires group in Resolve(defaults, config).groups && AsksWithoutCycle(defaults, config, rank)
    ensures var k := group.nodeKey;
      && IsKept(defaults, config, k)
      && ((forall j :: 0 <= j < |config.groups| ==> config.groups[j].nodeKey != k) ==> group.nameOverride == None && group.order == Infinite)
      && (forall j :: CountsForGroup(config.groups, k, j) ==>
            group.nameOverride == config.groups[j].nameOverride && group.order == Fin(config.groups[j].sortOrder))
      && (k in rank ==> AsksFor(defaults, config, k, group.parentKey))
      && (!IsDeclared(defaults, k) ==> group.defaultIndex == Infinite)
      && (forall i :: 0 <= i < |defaults| && k in GroupsAbove(defaults, i) ==> AtMost(group.defaultIndex, Fin(i)))
      && (group.defaultIndex.Fin? ==> 0 <= group.defaultIndex.n < |defaults| && k in GroupsAbove(defaults, group.defaultIndex.n))
  {
    var k := group.nodeKey;
    IdentityGood(defaults);
    var id := DefaultConfig(defaults);
    var order, g := AllGroupKeys(id.groups, config), GraphOf(id.groups, config);
    var n :| 0 <= n < |order| && group == Resolve(defaults, config).groups[n];
    assert order[n] in order;
    KeptExactly(defaults, config, k);
    GroupMapMeaning(config.groups, k);
    DeclaredExactly(defaults, k);
    if IsDeclared(defaults, k) {
      IndexIsOfAnItem(id, k);
    }
    forall i | 0 <= i < |defaults| && k in GroupsAbove(defaults, i) ensures AtMost(group.defaultIndex, Fin(i)) {
      ChainKeys(id.groups, id.items[i].parentKey);
      ItemsComeLater(id, i, k);
    }
    ParentsAskedFor(defaults, config, rank);
  }

  lemma GroundedByRank(g: Graph, rank: map<Key, nat>)
    requires forall k :: k in rank ==> k in g.keys
    requires forall k :: k in rank && ParentOf(g.candidate, k).Some? ==>
               ParentOf(g.candidate, k).value in rank && rank[ParentOf(g.candidate, k).value] < rank[k]
    ensures Grounded(g, rank)
  {
  }

  lemma {:induction false} AskedForIsGrounded(defaults: seq<NavItem>, config: Config, rank: map<Key, nat>)
    requires AsksWithoutCycle(defaults, config, rank)
    ensures GoodGroups(IdentityOf(defaults).groups)
    ensures var g := GraphOf(IdentityOf(defaults).groups, config);
      Grounded(g, rank) && forall k :: k in rank ==> AsksFor(defaults, config, k, ParentOf(g.candidate, k))
  {
    IdentityGood(defaults);
    var g := GraphOf(IdentityOf(defaults).groups, config);
    forall k | k in rank
      ensures k in g.keys && AsksFor(defaults, config, k, ParentOf(g.candidate, k))
      ensures ParentOf(g.candidate, k).Some? ==> ParentOf(g.candidate, k).value in rank && rank[ParentOf(g.candidate, k).value] < rank[k]
    {
      AskedInRank(defaults, config, rank, k);
    }
    GroundedByRank(g, rank);
  }

  lemma {:induction false} AskedIsLower(defaults: seq<NavItem>, config: Config, rank: map<Key, nat>, k: Key, parent: Option<Key>)
    requires AsksBelow(defaults, config, rank, k) && AsksFor(defaults, config, k, parent)
    ensures parent.Some? ==> parent.value in rank && k in rank && rank[parent.value] < rank[k]
  {
  }

  lemma {:induction false} AskedInRank(defaults: seq<NavItem>, config: Config, rank: map<Key, nat>, k: Key)
    requires AsksWithoutCycle(defaults, config, rank) && k in rank && IsKept(defaults, config, k)
    ensures GoodGroups(IdentityOf(defaults).groups)
    ensures var g := GraphOf(IdentityOf(defaults).groups, config);
      && k in g.keys && AsksFor(defaults, config, k, ParentOf(g.candidate, k))
      && (ParentOf(g.candidate, k).Some? ==> ParentOf(g.candidate, k).value in rank && rank[ParentOf(g.candidate, k).value] < rank[k])
  {
    IdentityGood(defaults);
    var g := GraphOf(IdentityOf(defaults).groups, config);
    CandidateMeaning(defaults, config, k);
    AskedIsLower(defaults, config, rank, k, ParentOf(g.candidate, k));
  }

  lemma {:induction false} ParentsAskedFor(defaults: seq<NavItem>, config: Config, rank: map<Key, nat>)
    requires AsksWithoutCycle(defaults, config, rank)
    ensures GoodGroups(IdentityOf(defaults).groups)
    ensures var order, g := AllGroupKeys(IdentityOf(defaults).groups, config), GraphOf(IdentityOf(defaults).groups, config);
      forall k :: k in order && k in rank ==> AsksFor(defaults, config, k, ResolveParents(g, order)[k])
  {
    AskedForIsGrounded(defaults, config, rank);
    var order, g := AllGroupKeys(IdentityOf(defaults).groups, config), GraphOf(IdentityOf(defaults).groups, config);
    GroundedGroupsKeepTheirParent(g, order, rank);
    var parents := ResolveParents(g, order);
    forall k | k in order && k in rank ensures parents[k] == ParentOf(g.candidate, k) {
      assert ParentOf(parents, k) == parents[k];
    }
  }

  // ---------------------------------------------------------------- in which order the groups are listed

  /** One key occurs where the other has not occurred yet. */
  ghost predicate Precedes(keys: seq<Key>, k: Key, l: Key) {
    exists i :: PrecedesAt(keys, k, l, i)
  }

  ghost predicate PrecedesAt(keys: seq<Key>, k: Key, l: Key, i: int) {
    0 <= i < |keys| && keys[i] == k && forall t :: 0 <= t <= i ==> keys[t] != l
  }

  lemma PrecedesLater(keys: seq<Key>, k: Key, l: Key)
    requires keys != [] && keys[0] != l && Precedes(keys[1..], k, l)
    ensures Precedes(keys, k, l)
  {
    var i :| PrecedesAt(keys[1..], k, l, i);
    assert forall t :: 1 <= t <= i + 1 ==> keys[t] == keys[1..][t - 1];
    assert PrecedesAt(keys, k, l, i + 1);
  }

  /** Dropping repetitions keeps the order of first occurrence. */
  lemma {:induction false} DedupInOrder(keys: seq<Key>, seen: set<Key>, p: nat, q: nat)
    requires p < q < |Dedup(keys, seen)|
    ensures Precedes(keys, Dedup(keys, seen)[p], Dedup(keys, seen)[q])
  {
    var r, rest := Dedup(keys, seen), keys[1..];
    assert r[p] in r && r[q] in r;
    if keys[0] in seen {
      DedupInOrder(rest, seen, p, q);
      PrecedesLater(keys, r[p], r[q]);
    } else if p == 0 {
      assert PrecedesAt(keys, r[p], r[q], 0);
    } else {
      DedupInOrder(rest, seen + {keys[0]}, p - 1, q - 1);
      assert r[0] == keys[0] && r[p] == r[1..][p - 1] && r[q] == r[1..][q - 1];
      PrecedesLater(keys, r[p], r[q]);
    }
  }

  /** A stored row of the one comes before every stored row of the other. */
  ghost predicate StoredBefore(rows: seq<GroupRow>, k: Key, l: Key) {
    exists i :: StoredAt(rows, k, l, i)
  }

  ghost predicate StoredAt(rows: seq<GroupRow>, k: Key, l: Key, i: int) {
    0 <= i < |rows| && rows[i].nodeKey == k && forall t :: 0 <= t <= i ==> rows[t].nodeKey != l
  }

  lemma StoredLater(rows: seq<GroupRow>, k: Key, l: Key)
    requires rows != [] && rows[0].nodeKey != l && StoredBefore(rows[1..], k, l)
    ensures StoredBefore(rows, k, l)
  {
    var i :| StoredAt(rows[1..], k, l, i);
    assert forall t :: 1 <= t <= i + 1 ==> rows[t] == rows[1..][t - 1];
    assert StoredAt(rows, k, l, i + 1);
  }

  lemma PrecedesInTail(key: Key, rest: seq<Key>, k: Key, l: Key)
    requires Precedes([key] + rest, k, l)
    ensures key != l && (k == key || Precedes(rest, k, l))
  {
    var keys := [key] + rest;
    var i :| PrecedesAt(keys, k, l, i);
    assert keys[0] == key;
    if i > 0 {
      assert forall t :: 0 <= t < i ==> rest[t] == keys[t + 1];
      assert PrecedesAt(rest, k, l, i - 1);
    }
  }

  lemma {:induction false} CustomInOrder(rows: seq<GroupRow>, k: Key, l: Key)
    requires Precedes(CustomKeysOf(rows), k, l) && IsCustomGroupNodeKey(l)
    ensures StoredBefore(rows, k, l)
    decreases |rows|
  {
    var key, rest := rows[0].nodeKey, CustomKeysOf(rows[1..]);
    if IsCustomGroupNodeKey(key) {
      assert CustomKeysOf(rows) == [key] + rest;
      PrecedesInTail(key, rest, k, l);
    } else {
      assert CustomKeysOf(rows) == rest;
    }
    if key == k && key != l {
      assert StoredAt(rows, k, l, 0);
    } else {
      CustomInOrder(rows[1..], k, l);
      StoredLater(rows, k, l);
    }
  }

  lemma {:induction false} KeysInPlace(rows: seq<GroupRow>)
    ensures |KeysOf(rows)| == |rows| && forall i :: 0 <= i < |rows| ==> KeysOf(rows)[i] == rows[i].nodeKey
  {
    if rows != [] {
      KeysInPlace(rows[1..]);
    }
  }

  /** The one is first declared by an item no later than the other. */
  ghost predicate DeclaredBefore(defaults: seq<NavItem>, k: Key, l: Key) {
    exists i, j :: i <= j && FirstDeclares(defaults, k, i) && FirstDeclares(defaults, l, j)
  }

  lemma {:induction false} IdentityInOrder(defaults: seq<NavItem>, p: nat, q: nat)
    requires p < q < |IdentityOf(defaults).groups|
    ensures DeclaredBefore(defaults, IdentityOf(defaults).groups[p].nodeKey, IdentityOf(defaults).groups[q].nodeKey)
  {
    var rows, before := IdentityOf(defaults).groups, defaults[..|defaults| - 1];
    var older, k, l := IdentityOf(before).groups, rows[p].nodeKey, rows[q].nodeKey;
    NewRows(IdentityOf(before), defaults[|defaults| - 1]);
    if q < |older| {
      IdentityInOrder(before, p, q);
      var i, j :| i <= j && FirstDeclares(before, k, i) && FirstDeclares(before, l, j);
      FirstStaysFirst(defaults, k, i);
      FirstStaysFirst(defaults, l, j);
    } else {
      RowIsDeclared(defaults, p);
      RowIsDeclared(defaults, q);
      var i := IdentityParent(defaults, k);
      var j := IdentityParent(defaults, l);
      NewIsDeclaredLast(defaults, q, j);
    }
  }

  lemma {:induction false} RowIsDeclared(defaults: seq<NavItem>, p: nat)
    requires p < |IdentityOf(defaults).groups|
    ensures IsDeclared(defaults, IdentityOf(defaults).groups[p].nodeKey)
  {
    var k := IdentityOf(defaults).groups[p].nodeKey;
    DeclaredExactly(defaults, k);
    assert k in GroupKeys(IdentityOf(defaults).groups);
  }

  lemma {:induction false} NewIsDeclaredLast(defaults: seq<NavItem>, q: nat, j: nat)
    requires defaults != [] && |IdentityOf(defaults[..|defaults| - 1]).groups| <= q < |IdentityOf(defaults).groups|
    requires FirstDeclares(defaults, IdentityOf(defaults).groups[q].nodeKey, j)
    ensures j == |defaults| - 1
  {
    var before, last := defaults[..|defaults| - 1], defaults[|defaults| - 1];
    var rows, older := IdentityOf(defaults).groups, IdentityOf(before).groups;
    IdentityGood(defaults);
    NewRows(IdentityOf(before), last);
    if j < |before| {
      assert before[j] == defaults[j];
      DeclaredExactly(before, rows[q].nodeKey);
    }
  }

  /**
   * The groups of the code come first, in the order in which items declare them, and then the custom ones, in the order of
   * their first stored rows.
   */
  lemma {:induction false} GroupsInOrder(defaults: seq<NavItem>, config: Config, p: nat, q: nat)
    requires p < q < |Resolve(defaults, config).groups|
    ensures var k, l := Resolve(defaults, config).groups[p].nodeKey, Resolve(defaults, config).groups[q].nodeKey;
      if IsDeclared(defaults, l) then IsDeclared(defaults, k) && DeclaredBefore(defaults, k, l)
      else IsDeclared(defaults, k) || StoredBefore(config.groups, k, l)
  {
    IdentityGood(defaults);
    var rows := IdentityOf(defaults).groups;
    var order := AllGroupKeys(rows, config);
    var k, l := order[p], order[q];
    assert k in order && l in order;
    DeclaredExactly(defaults, k);
    DeclaredExactly(defaults, l);
    DedupInOrder(KeysOf(rows) + CustomKeysOf(config.groups), {}, p, q);
    OrderInParts(KeysOf(rows), CustomKeysOf(config.groups), k, l);
    if IsDeclared(defaults, l) {
      DeclaredInOrder(defaults, k, l);
    } else if !IsDeclared(defaults, k) {
      CustomInOrder(config.groups, k, l);
    }
  }

  lemma {:induction false} DeclaredInOrder(defaults: seq<NavItem>, k: Key, l: Key)
    requires Precedes(KeysOf(IdentityOf(defaults).groups), k, l) && l in KeysOf(IdentityOf(defaults).groups)
    ensures DeclaredBefore(defaults, k, l)
  {
    var rows := IdentityOf(defaults).groups;
    KeysInPlace(rows);
    var i :| PrecedesAt(KeysOf(rows), k, l, i);
    var j :| 0 <= j < |rows| && KeysOf(rows)[j] == l;
    IdentityInOrder(defaults, i, j);
  }

  lemma {:induction false} OrderInParts(a: seq<Key>, b: seq<Key>, k: Key, l: Key)
    requires Precedes(a + b, k, l)
    ensures l in a ==> k in a && Precedes(a, k, l)
    ensures k !in a ==> Precedes(b, k, l)
  {
    var i :| PrecedesAt(a + b, k, l, i);
    if i < |a| {
      assert forall t :: 0 <= t <= i ==> a[t] == (a + b)[t];
      assert PrecedesAt(a, k, l, i);
    } else {
      assert forall t :: 0 <= t <= i - |a| ==> b[t] == (a + b)[|a| + t];
      assert forall t :: 0 <= t < |a| ==> a[t] == (a + b)[t];
      assert PrecedesAt(b, k, l, i - |a|);
    }
  }

  // ---------------------------------------------------------------- in which order a container is shown

  /** A number that is not after the other; what has none comes last. */
  ghost predicate NotAfter(a: Rank, b: Rank) {
    b.Fin? ==> a.Fin? && a.n <= b.n
  }

  /** The rows of a container: those with a stored order first, by that order; the same order, or none, by the default index. */
  lemma PlacementMeaning(rows: seq<Row>, i: nat, j: nat)
    requires i < j < |Sort(rows)|
    ensures var a, b := Sort(rows)[i], Sort(rows)[j];
      NotAfter(a.Order(), b.Order()) && (a.Order() == b.Order() ==> NotAfter(a.DefaultIndex(), b.DefaultIndex()))
  {
    SortSpec(rows);
    assert InOrder()(Sort(rows)[i], Sort(rows)[j]);
  }

  function Tied(x: Row): Row -> bool {
    (z: Row) => z.Order() == x.Order() && z.DefaultIndex() == x.DefaultIndex()
  }

  /** What is equal in both stays as listed. */
  lemma TiedStay(rows: seq<Row>, x: Row)
    ensures Sorting.Filter(Sort(rows), Tied(x)) == Sorting.Filter(rows, Tied(x))
  {
    InOrderIsPreorder();
    Sorting.TiedStay(rows, InOrder(), x);
    assert forall z: Row :: Tied(x)(z) <==> Sorting.TiedWith(x, InOrder())(z);
    SameFilter(Sort(rows), Tied(x), Sorting.TiedWith(x, InOrder()));
    SameFilter(rows, Tied(x), Sorting.TiedWith(x, InOrder()));
  }

  lemma {:induction false} SameFilter(rows: seq<Row>, a: Row -> bool, b: Row -> bool)
    requires forall z :: a(z) <==> b(z)
    ensures Sorting.Filter(rows, a) == Sorting.Filter(rows, b)
  {
    if rows != [] {
      SameFilter(rows[1..], a, b);
    }
  }

  /** One of two rows is resolved before the other: items before groups, and each kind as it is listed. */
  ghost predicate ListedBefore(m: ResolvedMenu, a: Row, b: Row) {
    match (a, b)
    case (ItemEntry(x), ItemEntry(y)) => exists p, q :: 0 <= p < q < |m.items| && m.items[p] == x && m.items[q] == y
    case (GroupEntry(x), GroupEntry(y)) => exists p, q :: 0 <= p < q < |m.groups| && m.groups[p] == x && m.groups[q] == y
    case (ItemEntry(_), GroupEntry(_)) => true
    case (GroupEntry(_), ItemEntry(_)) => false
  }

  /** What is equal in order and index stands in a container as it was resolved. */
  lemma {:induction false} ContainerMeaning(m: ResolvedMenu, parent: Option<Key>, i: nat, j: nat)
    requires i < j < |Sort(RowsUnder(m, parent))|
    ensures var a, b := Sort(RowsUnder(m, parent))[i], Sort(RowsUnder(m, parent))[j];
      a.Order() == b.Order() && a.DefaultIndex() == b.DefaultIndex() ==> ListedBefore(m, a, b)
  {
    var rows := RowsUnder(m, parent);
    var x, y := Sort(rows)[i], Sort(rows)[j];
    if x.Order() == y.Order() && x.DefaultIndex() == y.DefaultIndex() {
      TiedStay(rows, x);
      var p, q := IntoFilter(Sort(rows), Tied(x), i, j);
      var s, t := OutOfFilter(rows, Tied(x), p, q);
      RowsAreListed(m, parent, s, t);
    }
  }

  lemma {:induction false} IntoFilter(rows: seq<Row>, keep: Row -> bool, i: nat, j: nat) returns (p: nat, q: nat)
    requires i < j < |rows| && keep(rows[i]) && keep(rows[j])
    ensures p < q < |Sorting.Filter(rows, keep)| && Sorting.Filter(rows, keep)[p] == rows[i] && Sorting.Filter(rows, keep)[q] == rows[j]
  {
    var rest := Sorting.Filter(rows[1..], keep);
    if i > 0 {
      p, q := IntoFilter(rows[1..], keep, i - 1, j - 1);
      if keep(rows[0]) {
        assert Sorting.Filter(rows, keep) == [rows[0]] + rest;
        p, q := p + 1, q + 1;
      } else {
        assert Sorting.Filter(rows, keep) == rest;
      }
    } else {
      assert Sorting.Filter(rows, keep) == [rows[0]] + rest;
      q := PlaceOf(rest, rows[j]);
      p, q := 0, q + 1;
    }
  }

  lemma PlaceOf(rows: seq<Row>, row: Row) returns (q: nat)
    requires row in rows
    ensures q < |rows| && rows[q] == row
  {
    q :| 0 <= q < |rows| && rows[q] == row;
  }

  lemma {:induction false} OutOfFilter(rows: seq<Row>, keep: Row -> bool, p: nat, q: nat) returns (i: nat, j: nat)
    requires p < q < |Sorting.Filter(rows, keep)|
    ensures i < j < |rows| && rows[i] == Sorting.Filter(rows, keep)[p] && rows[j] == Sorting.Filter(rows, keep)[q]
  {
    var rest := Sorting.Filter(rows[1..], keep);
    if !keep(rows[0]) {
      i, j := OutOfFilter(rows[1..], keep, p, q);
      i, j := i + 1, j + 1;
    } else if p > 0 {
      i, j := OutOfFilter(rows[1..], keep, p - 1, q - 1);
      i, j := i + 1, j + 1;
    } else {
      assert Sorting.Filter(rows, keep)[q] == rest[q - 1] && rest[q - 1] in rows[1..];
      j :| 0 <= j < |rows[1..]| && rows[1..][j] == rest[q - 1];
      i, j := 0, j + 1;
    }
  }

  ghost function Entries(items: seq<ResolvedItem>): (rows: seq<Row>)
    ensures |rows| == |items| && forall i :: 0 <= i < |items| ==> rows[i] == ItemEntry(items[i])
  {
    if items == [] then [] else [ItemEntry(items[0])] + Entries(items[1..])
  }

  ghost function GroupEntries(groups: seq<ResolvedGroup>): (rows: seq<Row>)
    ensures |rows| == |groups| && forall i :: 0 <= i < |groups| ==> rows[i] == GroupEntry(groups[i])
  {
    if groups == [] then [] else [GroupEntry(groups[0])] + GroupEntries(groups[1..])
  }

  ghost function InContainer(parent: Option<Key>): Row -> bool {
    (row: Row) => row.Parent() == parent
  }

  lemma {:induction false} ItemsAreListed(items: seq<ResolvedItem>, parent: Option<Key>)
    ensures ItemsUnder(items, parent) == Sorting.Filter(Entries(items), InContainer(parent))
  {
    if items != [] {
      ItemsAreListed(items[1..], parent);
      Sorting.FilterCons(ItemEntry(items[0]), Entries(items[1..]), InContainer(parent));
    }
  }

  lemma {:induction false} GroupsAreListed(groups: seq<ResolvedGroup>, parent: Option<Key>)
    ensures GroupsUnder(groups, parent) == Sorting.Filter(GroupEntries(groups), InContainer(parent))
  {
    if groups != [] {
      GroupsAreListed(groups[1..], parent);
      Sorting.FilterCons(GroupEntry(groups[0]), GroupEntries(groups[1..]), InContainer(parent));
    }
  }

  lemma {:induction false} RowsAreListed(m: ResolvedMenu, parent: Option<Key>, s: nat, t: nat)
    requires s < t < |RowsUnder(m, parent)|
    ensures ListedBefore(m, RowsUnder(m, parent)[s], RowsUnder(m, parent)[t])
  {
    var n := |ItemsUnder(m.items, parent)|;
    if t < n {
      ItemPair(m, parent, s, t);
    } else if s >= n {
      GroupPair(m, parent, s - n, t - n);
    } else {
      ItemsThenGroups(m, parent, s, t);
    }
  }

  lemma {:induction false} ItemPair(m: ResolvedMenu, parent: Option<Key>, s: nat, t: nat)
    requires s < t < |ItemsUnder(m.items, parent)|
    ensures ListedBefore(m, ItemsUnder(m.items, parent)[s], ItemsUnder(m.items, parent)[t])
  {
    ItemsAreListed(m.items, parent);
    var i, j := OutOfFilter(Entries(m.items), InContainer(parent), s, t);
    EntriesInOrder(m, i, j);
  }

  lemma EntriesInOrder(m: ResolvedMenu, i: nat, j: nat)
    requires i < j
    ensures j < |m.items| ==> ListedBefore(m, ItemEntry(m.items[i]), ItemEntry(m.items[j]))
    ensures j < |m.groups| ==> ListedBefore(m, GroupEntry(m.groups[i]), GroupEntry(m.groups[j]))
  {
  }

  lemma {:induction false} GroupPair(m: ResolvedMenu, parent: Option<Key>, s: nat, t: nat)
    requires s < t < |GroupsUnder(m.groups, parent)|
    ensures ListedBefore(m, GroupsUnder(m.groups, parent)[s], GroupsUnder(m.groups, parent)[t])
  {
    GroupsAreListed(m.groups, parent);
    var i, j := OutOfFilter(GroupEntries(m.groups), InContainer(parent), s, t);
    EntriesInOrder(m, i, j);
  }

  lemma {:induction false} ItemsThenGroups(m: ResolvedMenu, parent: Option<Key>, s: nat, t: nat)
    requires s < |ItemsUnder(m.items, parent)| <= t < |RowsUnder(m, parent)|
    ensures RowsUnder(m, parent)[s].ItemEntry? && RowsUnder(m, parent)[t].GroupEntry?
  {
    var items, groups := ItemsUnder(m.items, parent), GroupsUnder(m.groups, parent);
    assert items[s] in items && groups[t - |items|] in groups;
  }

  // ---------------------------------------------------------------- under which names an item is shown

  /** The name of a group nobody renamed: what follows the last slash of its key, or the name of new groups. */
  ghost predicate IsDefaultName(k: Key, name: string) {
    if "custom:" <= k then name == "新分组"
    else '/' !in name && (name == k || exists outer: string :: k == outer + "/" + name)
  }

  lemma {:induction false} LastSegmentSplits(k: Key)
    ensures '/' !in LastSegment(k) && (LastSegment(k) == k || exists outer: string :: k == outer + "/" + LastSegment(k))
  {
    if k != [] {
      var front, last := k[..|k| - 1], k[|k| - 1];
      if last == '/' {
        assert k == front + "/" + [];
      } else {
        LastSegmentSplits(front);
        if outer: string :| front == outer + "/" + LastSegment(front) {
          assert k == outer + "/" + LastSegment(k);
        }
      }
    }
  }

  lemma DefaultNameMeaning(k: Key)
    ensures IsDefaultName(k, GroupDefaultName(k))
  {
    LastSegmentSplits(k);
    assert CUSTOM_GROUP_PREFIX == "custom:" && CUSTOM_GROUP_DEFAULT_NAME == "新分组";
  }

  /** `keys` are the groups above a place, outermost first. */
  ghost predicate LeadsTo(m: ResolvedMenu, keys: seq<Key>, parent: Option<Key>) {
    && (if parent.None? then keys == [] else keys != [] && keys[|keys| - 1] == parent.value)
    && forall t :: 0 <= t < |keys| ==> HangsUnder(m, keys[t], KeyBefore(keys, t))
  }

  /** The key one further out. */
  ghost function KeyBefore(keys: seq<Key>, t: nat): Option<Key>
    requires t <= |keys|
  {
    if t == 0 then None else Some(keys[t - 1])
  }

  ghost predicate HangsUnder(m: ResolvedMenu, k: Key, parent: Option<Key>) {
    exists row :: row in m.groups && row.nodeKey == k && row.parentKey == parent
  }

  /** The group is called by its stored name, or by its default one. */
  ghost predicate IsCalled(m: ResolvedMenu, k: Key, name: string) {
    exists row :: row in m.groups && row.nodeKey == k &&
                  match row.nameOverride case Some(n) => name == n case None => IsDefaultName(k, name)
  }

  ghost predicate AreCalled(m: ResolvedMenu, keys: seq<Key>, names: seq<string>) {
    |names| == |keys| && forall t :: 0 <= t < |keys| ==> IsCalled(m, keys[t], names[t])
  }

  /** The item is shown as declared, but under its stored name if it has one, and with these groups. */
  ghost predicate ShownAs(x: NavItem, source: NavItem, nameOverride: Option<string>, names: seq<string>) {
    && x.key == source.key && x.path == source.path && x.permission == source.permission
    && x.caption == (match nameOverride case Some(n) => n case None => source.caption)
    && x.groupPath == (if names == [] then None else Some(names))
    && x.group == (if |names| > 0 then Some(names[0]) else None)
    && x.subGroup == (if |names| > 1 then Some(names[1]) else None)
  }

  ghost predicate ShownWith(m: ResolvedMenu, byKey: map<Key, NavItem>, x: NavItem, item: ResolvedItem, keys: seq<Key>, names: seq<string>) {
    && item in m.items && item.itemKey in byKey && LeadsTo(m, keys, item.parentKey) && AreCalled(m, keys, names)
    && ShownAs(x, byKey[item.itemKey], item.nameOverride, names)
  }

  ghost predicate IsShown(m: ResolvedMenu, byKey: map<Key, NavItem>, x: NavItem) {
    exists item, keys, names :: ShownWith(m, byKey, x, item, keys, names)
  }

  lemma OneGroupDown(m: ResolvedMenu, keys: seq<Key>, names: seq<string>, group: ResolvedGroup)
    requires LeadsTo(m, keys, group.parentKey) && AreCalled(m, keys, names) && group in m.groups
    ensures var k := group.nodeKey;
      LeadsTo(m, keys + [k], Some(k)) && AreCalled(m, keys + [k], names + [DisplayName(k, group.nameOverride)])
  {
    var k := group.nodeKey;
    DefaultNameMeaning(k);
    assert HangsUnder(m, k, group.parentKey) && IsCalled(m, k, DisplayName(k, group.nameOverride));
    OneKeyFurther(m, keys, k, group.parentKey);
    OneNameFurther(m, keys, names, k, DisplayName(k, group.nameOverride));
  }

  lemma OneKeyFurther(m: ResolvedMenu, keys: seq<Key>, k: Key, parent: Option<Key>)
    requires LeadsTo(m, keys, parent) && HangsUnder(m, k, parent)
    ensures LeadsTo(m, keys + [k], Some(k))
  {
    var more, n := keys + [k], |keys|;
    assert KeyBefore(more, n) == parent && more[n] == k;
    forall t | 0 <= t < n ensures HangsUnder(m, more[t], KeyBefore(more, t)) {
      assert KeyBefore(more, t) == KeyBefore(keys, t) && more[t] == keys[t];
    }
  }

  lemma OneNameFurther(m: ResolvedMenu, keys: seq<Key>, names: seq<string>, k: Key, name: string)
    requires AreCalled(m, keys, names) && IsCalled(m, k, name)
    ensures AreCalled(m, keys + [k], names + [name])
  {
  }

  lemma {:induction false} ShownBelow(m: ResolvedMenu, byKey: map<Key, NavItem>, parent: Option<Key>, keys: seq<Key>, names: seq<string>)
    requires Forest(m) && Hangs(m, parent) && LeadsTo(m, keys, parent) && AreCalled(m, keys, names)
    requires forall k :: k in byKey ==> byKey[k].key == k
    ensures forall x :: x in Linearize(byKey, Build(m, parent), names) ==> IsShown(m, byKey, x)
    decreases parent.None?, Height(m, parent), 1, 0
  {
    var rows := RowsUnder(m, parent);
    SortMembers(rows);
    RowsShownBelow(m, byKey, parent, keys, names, Sort(rows));
  }

  lemma {:induction false} RowShownBelow(m: ResolvedMenu, byKey: map<Key, NavItem>, row: Row, keys: seq<Key>, names: seq<string>)
    requires Forest(m) && IsRow(m, row) && LeadsTo(m, keys, row.Parent()) && AreCalled(m, keys, names)
    requires forall k :: k in byKey ==> byKey[k].key == k
    ensures forall x :: x in RowMeaning(m, byKey, names, row) ==> IsShown(m, byKey, x)
    decreases row.Parent().None?, (RowHangs(m, row); Height(m, row.Parent())), 0, 0
  {
    RowHangs(m, row);
    match row {
      case ItemEntry(item) => ItemIsShown(m, byKey, keys, names, item);
      case GroupEntry(group) =>
        OneGroupDown(m, keys, names, group);
        ShownBelow(m, byKey, Some(group.nodeKey), keys + [group.nodeKey], names + [DisplayName(group.nodeKey, group.nameOverride)]);
    }
  }

  lemma {:induction false} RowsShownBelow(m: ResolvedMenu, byKey: map<Key, NavItem>, parent: Option<Key>, keys: seq<Key>, names: seq<string>,
                                          rows: seq<Row>)
    requires Forest(m) && Hangs(m, parent) && LeadsTo(m, keys, parent) && AreCalled(m, keys, names)
    requires forall k :: k in byKey ==> byKey[k].key == k
    requires forall row :: row in rows ==> IsRow(m, row) && row.Parent() == parent
    ensures forall x :: x in Linearize(byKey, BuildRows(m, parent, rows), names) ==> IsShown(m, byKey, x)
    decreases parent.None?, Height(m, parent), 0, |rows|
  {
    if rows != [] {
      assert rows[0] in rows;
      RowShownBelow(m, byKey, rows[0], keys, names);
      RowsShownBelow(m, byKey, parent, keys, names, rows[1..]);
      assert BuildRows(m, parent, rows)[1..] == BuildRows(m, parent, rows[1..]);
      LinearizeRowsCons(m, byKey, parent, rows, names);
    }
  }

  lemma {:induction false} LinearizeRowsCons(m: ResolvedMenu, byKey: map<Key, NavItem>, parent: Option<Key>, rows: seq<Row>, names: seq<string>)
    requires Forest(m) && Hangs(m, parent) && rows != []
    requires forall row :: row in rows ==> IsRow(m, row) && row.Parent() == parent
    ensures IsRow(m, rows[0])
    ensures Linearize(byKey, BuildRows(m, parent, rows), names) ==
            RowMeaning(m, byKey, names, rows[0]) + Linearize(byKey, BuildRows(m, parent, rows[1..]), names)
  {
    assert rows[0] in rows;
    assert BuildRows(m, parent, rows)[1..] == BuildRows(m, parent, rows[1..]);
  }

  lemma ItemIsShown(m: ResolvedMenu, byKey: map<Key, NavItem>, keys: seq<Key>, names: seq<string>, item: ResolvedItem)
    requires item in m.items && LeadsTo(m, keys, item.parentKey) && AreCalled(m, keys, names)
    ensures forall x :: x in EmitItem(item.itemKey, item.nameOverride, names, byKey) ==> IsShown(m, byKey, x)
  {
    if item.itemKey in byKey {
      var x := Decorate(byKey[item.itemKey], item.nameOverride, names);
      assert ShownWith(m, byKey, x, item, keys, names);
    }
  }

  ghost predicate ShownAt(defaults: seq<NavItem>, config: Config, x: NavItem, i: int, keys: seq<Key>, names: seq<string>) {
    var m := Resolve(defaults, config);
    && 0 <= i < |defaults| && |m.items| == |defaults|
    && LeadsTo(m, keys, m.items[i].parentKey) && AreCalled(m, keys, names)
    && ShownAs(x, defaults[i], m.items[i].nameOverride, names)
  }

  /**
   * Each shown item is a default item under its stored name, if it has one; its path lists the groups above its place from
   * the top, each under its stored or its default name; and group and subgroup are the first two of them.
   */
  lemma {:induction false} ShownMeaning(defaults: seq<NavItem>, config: Config, x: NavItem)
    requires UniqueKeys(defaults) && (config.groups != [] || config.items != []) && x in Apply(defaults, config)
    ensures exists i, keys, names :: ShownAt(defaults, config, x, i, keys, names)
  {
    var m, byKey := Resolve(defaults, config), ItemsByKey(defaults);
    ResolveIsForest(defaults, config);
    assert LeadsTo(m, [], None) && AreCalled(m, [], []);
    ShownBelow(m, byKey, None, [], []);
    var item, keys, names :| ShownWith(m, byKey, x, item, keys, names);
    var i := ItemOfRow(defaults, config, item);
    assert ShownAt(defaults, config, x, i, keys, names);
  }

  lemma {:induction false} ItemOfRow(defaults: seq<NavItem>, config: Config, item: ResolvedItem) returns (i: nat)
    requires UniqueKeys(defaults) && item in Resolve(defaults, config).items && item.itemKey in ItemsByKey(defaults)
    ensures i < |defaults| == |Resolve(defaults, config).items| && Resolve(defaults, config).items[i] == item
    ensures ItemsByKey(defaults)[item.itemKey] == defaults[i]
  {
    ResolvedItems(defaults, config);
    i :| 0 <= i < |Resolve(defaults, config).items| && Resolve(defaults, config).items[i] == item;
    OneItemPerKey(defaults, ItemsByKey(defaults)[item.itemKey], defaults[i]);
  }
}
