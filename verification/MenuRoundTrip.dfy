/**
 * Serialising the editor's tree, and the round trip through the stored rows (editor-state.ts:30-71). A node's place is
 * its container and its index there; a saved row carries exactly that, and resolving the saved rows sorts every
 * container back into the order of its places.
 */
module MenuRoundTrip {
  import opened Seqs
  import opened Options
  import opened MenuTypes
  import opened MenuResolve
  import opened MenuMerge
  import opened MenuOrder
  import opened EditorTree
  import opened EditorMoves

  /** A node with the place it is saved at. */
  datatype Place = Place(node: EditorNode, parent: Option<Key>, index: nat)

  /** All nodes in the order of the `walk`, each with its parent and its position among its siblings. */
  function Places(nodes: seq<EditorNode>, parent: Option<Key>, index: nat): seq<Place> {
    if nodes == [] then []
    else
      [Place(nodes[0], parent, index)]
      + (if nodes[0].Group? then Places(nodes[0].children, Some(nodes[0].nodeKey), 0) else [])
      + Places(nodes[1..], parent, index + 1)
  }

  /** The row a place adds to `groups`, if any. */
  function GroupRowAt(pl: Place): seq<GroupRow> {
    if pl.node.Group? then [GroupRow(pl.node.nodeKey, pl.parent, pl.node.nameOverride, pl.index)] else []
  }

  /** The row a place adds to `items`, if any. */
  function ItemRowAt(pl: Place): seq<ItemRow> {
    if pl.node.Item? then [ItemRow(pl.node.itemKey, pl.parent, pl.node.nameOverride, pl.index)] else []
  }

  function GroupRowsOf(places: seq<Place>): seq<GroupRow> {
    if places == [] then [] else GroupRowAt(places[0]) + GroupRowsOf(places[1..])
  }

  function ItemRowsOf(places: seq<Place>): seq<ItemRow> {
    if places == [] then [] else ItemRowAt(places[0]) + ItemRowsOf(places[1..])
  }

  function Serialize(nodes: seq<EditorNode>): Config {
    Config(GroupRowsOf(Places(nodes, None, 0)), ItemRowsOf(Places(nodes, None, 0)))
  }

  lemma {:induction false} GroupRowsConcat(a: seq<Place>, b: seq<Place>)
    ensures GroupRowsOf(a + b) == GroupRowsOf(a) + GroupRowsOf(b)
  {
    if a == [] {
      assert a + b == b;
    } else {
      GroupRowsConcat(a[1..], b);
      ConcatHead(a, b);
      Assoc(GroupRowAt(a[0]), GroupRowsOf(a[1..]), GroupRowsOf(b));
    }
  }

  lemma {:induction false} ItemRowsConcat(a: seq<Place>, b: seq<Place>)
    ensures ItemRowsOf(a + b) == ItemRowsOf(a) + ItemRowsOf(b)
  {
    if a == [] {
      assert a + b == b;
    } else {
      ItemRowsConcat(a[1..], b);
      ConcatHead(a, b);
      Assoc(ItemRowAt(a[0]), ItemRowsOf(a[1..]), ItemRowsOf(b));
    }
  }

  function Inner(node: EditorNode): seq<Place> {
    if node.Group? then Places(node.children, Some(node.nodeKey), 0) else []
  }

  lemma GroupRowsOfWalk(nodes: seq<EditorNode>, parent: Option<Key>, index: nat)
    requires nodes != []
    ensures GroupRowsOf(Places(nodes, parent, index)) ==
            GroupRowAt(Place(nodes[0], parent, index)) + GroupRowsOf(Inner(nodes[0]))
            + GroupRowsOf(Places(nodes[1..], parent, index + 1))
  {
    var here, inner, rest := [Place(nodes[0], parent, index)], Inner(nodes[0]), Places(nodes[1..], parent, index + 1);
    assert Places(nodes, parent, index) == here + inner + rest;
    GroupRowsConcat(here + inner, rest);
    GroupRowsConcat(here, inner);
    assert GroupRowsOf(here) == GroupRowAt(here[0]);
  }

  lemma ItemRowsOfWalk(nodes: seq<EditorNode>, parent: Option<Key>, index: nat)
    requires nodes != []
    ensures ItemRowsOf(Places(nodes, parent, index)) ==
            ItemRowAt(Place(nodes[0], parent, index)) + ItemRowsOf(Inner(nodes[0]))
            + ItemRowsOf(Places(nodes[1..], parent, index + 1))
  {
    var here, inner, rest := [Place(nodes[0], parent, index)], Inner(nodes[0]), Places(nodes[1..], parent, index + 1);
    assert Places(nodes, parent, index) == here + inner + rest;
    ItemRowsConcat(here + inner, rest);
    ItemRowsConcat(here, inner);
    assert ItemRowsOf(here) == ItemRowAt(here[0]);
  }

  lemma Regroup<T>(a: seq<T>, b: seq<T>, c: seq<T>, d: seq<T>, e: seq<T>, f: seq<T>)
    requires d == b + c + e && a + d == f
    ensures (a + b + c) + e == f
  {
    assert (a + b + c) + e == a + (b + c + e);
  }

  lemma WalkStep(nodes: seq<EditorNode>, i: nat, parent: Option<Key>)
    requires i < |nodes|
    ensures var here, rest := Place(nodes[i], parent, i), Places(nodes[i + 1..], parent, i + 1);
      && GroupRowsOf(Places(nodes[i..], parent, i)) == GroupRowAt(here) + GroupRowsOf(Inner(nodes[i])) + GroupRowsOf(rest)
      && ItemRowsOf(Places(nodes[i..], parent, i)) == ItemRowAt(here) + ItemRowsOf(Inner(nodes[i])) + ItemRowsOf(rest)
  {
    GroupRowsOfWalk(nodes[i..], parent, i);
    ItemRowsOfWalk(nodes[i..], parent, i);
    assert nodes[i..][1..] == nodes[i + 1..];
  }

  /** The `walk` of editor-state.ts:59-68: pushes onto the two row arrays. */
  method SerializeWalk(nodes: seq<EditorNode>, parentKey: Option<Key>, groups0: seq<GroupRow>, items0: seq<ItemRow>)
      returns (groups: seq<GroupRow>, items: seq<ItemRow>)
    ensures groups == groups0 + GroupRowsOf(Places(nodes, parentKey, 0))
    ensures items == items0 + ItemRowsOf(Places(nodes, parentKey, 0))
    decreases nodes
  {
    groups, items := groups0, items0;
    ghost var allGroups := groups0 + GroupRowsOf(Places(nodes, parentKey, 0));
    ghost var allItems := items0 + ItemRowsOf(Places(nodes, parentKey, 0));
    for index := 0 to |nodes|
      invariant groups + GroupRowsOf(Places(nodes[index..], parentKey, index)) == allGroups
      invariant items + ItemRowsOf(Places(nodes[index..], parentKey, index)) == allItems
    {
      var node := nodes[index];
      ghost var g, i, here, rest := groups, items, Place(node, parentKey, index), Places(nodes[index + 1..], parentKey, index + 1);
      WalkStep(nodes, index, parentKey);
      if node.Item? {
        items := items + [ItemRow(node.itemKey, parentKey, node.nameOverride, index)];
      } else {
        groups := groups + [GroupRow(node.nodeKey, parentKey, node.nameOverride, index)];
        groups, items := SerializeWalk(node.children, Some(node.nodeKey), groups, items);
      }
      assert groups == g + GroupRowAt(here) + GroupRowsOf(Inner(node)) && items == i + ItemRowAt(here) + ItemRowsOf(Inner(node));
      Regroup(g, GroupRowAt(here), GroupRowsOf(Inner(node)), GroupRowsOf(Places(nodes[index..], parentKey, index)), GroupRowsOf(rest), allGroups);
      Regroup(i, ItemRowAt(here), ItemRowsOf(Inner(node)), ItemRowsOf(Places(nodes[index..], parentKey, index)), ItemRowsOf(rest), allItems);
    }
  }

  method SerializeEditorState(nodes: seq<EditorNode>) returns (config: Config)
    ensures config == Serialize(nodes)
  {
    var groups, items := SerializeWalk(nodes, None, [], []);
    config := Config(groups, items);
  }

  // ---------------------------------------------------------------- places

  lemma {:induction false} PlacesAreThere(nodes: seq<EditorNode>, parent: Option<Key>, index: nat, pl: Place)
    requires pl in Places(nodes, parent, index)
    ensures Has(nodes, RefOf(pl.node))
    ensures pl.parent == parent || (pl.parent.Some? && Has(nodes, GroupRef(pl.parent.value)))
  {
    if pl == Place(nodes[0], parent, index) {
    } else if pl in Places(nodes[1..], parent, index + 1) {
      PlacesAreThere(nodes[1..], parent, index + 1, pl);
    } else {
      PlacesAreThere(nodes[0].children, Some(nodes[0].nodeKey), 0, pl);
    }
  }

  lemma {:induction false} EveryNodeHasAPlace(nodes: seq<EditorNode>, parent: Option<Key>, index: nat, r: NodeRef)
    returns (pl: Place)
    requires Has(nodes, r)
    ensures pl in Places(nodes, parent, index) && RefOf(pl.node) == r
  {
    if RefOf(nodes[0]) == r {
      pl := Place(nodes[0], parent, index);
    } else if Has(nodes[1..], r) {
      pl := EveryNodeHasAPlace(nodes[1..], parent, index + 1, r);
    } else {
      pl := EveryNodeHasAPlace(nodes[0].children, Some(nodes[0].nodeKey), 0, r);
    }
  }

  lemma {:induction false} OnePlaceEach(nodes: seq<EditorNode>, parent: Option<Key>, index: nat, a: Place, b: Place)
    requires Unique(nodes) && RefOf(a.node) == RefOf(b.node)
    requires a in Places(nodes, parent, index) && b in Places(nodes, parent, index)
    ensures a == b
  {
    UniqueParts(nodes);
    var here := Place(nodes[0], parent, index);
    var inner := if nodes[0].Group? then Places(nodes[0].children, Some(nodes[0].nodeKey), 0) else [];
    var rest := Places(nodes[1..], parent, index + 1);
    if a in rest { PlacesAreThere(nodes[1..], parent, index + 1, a); }
    if b in rest { PlacesAreThere(nodes[1..], parent, index + 1, b); }
    if a in inner { PlacesAreThere(nodes[0].children, Some(nodes[0].nodeKey), 0, a); }
    if b in inner { PlacesAreThere(nodes[0].children, Some(nodes[0].nodeKey), 0, b); }
    if a in rest && b in rest {
      OnePlaceEach(nodes[1..], parent, index + 1, a, b);
    } else if a in inner && b in inner {
      OnePlaceEach(nodes[0].children, Some(nodes[0].nodeKey), 0, a, b);
    }
  }

  /** The places directly in the container the walk starts from. */
  lemma {:induction false} TopPlaces(nodes: seq<EditorNode>, parent: Option<Key>, index: nat, pl: Place)
    requires parent.Some? ==> !Has(nodes, GroupRef(parent.value))
    ensures pl in Places(nodes, parent, index) && pl.parent == parent <==>
            index <= pl.index < index + |nodes| && pl == Place(nodes[pl.index - index], parent, pl.index)
  {
    if nodes != [] {
      TopPlaces(nodes[1..], parent, index + 1, pl);
      if nodes[0].Group? && pl in Places(nodes[0].children, Some(nodes[0].nodeKey), 0) {
        PlacesAreThere(nodes[0].children, Some(nodes[0].nodeKey), 0, pl);
      }
      var i := pl.index - index;
      if 0 < i < |nodes| {
        assert nodes[1..][i - 1] == nodes[i];
      }
    }
  }

  /** The places directly in the group `k` are its children, in order. */
  lemma {:induction false} GroupPlaces(nodes: seq<EditorNode>, parent: Option<Key>, index: nat, k: Key, pl: Place)
    requires Unique(nodes) && parent != Some(k)
    ensures pl in Places(nodes, parent, index) && pl.parent == Some(k) <==>
            var g := FindGroup(nodes, k);
            g.Some? && pl.index < |g.value.children| && pl == Place(g.value.children[pl.index], Some(k), pl.index)
  {
    if nodes != [] {
      UniqueParts(nodes);
      GroupPlaces(nodes[1..], parent, index + 1, k, pl);
      FindGroupSpec(nodes[1..], k, GroupRef(k));
      if pl.parent == Some(k) && pl in Places(nodes[1..], parent, index + 1) {
        PlacesAreThere(nodes[1..], parent, index + 1, pl);
      }
      if nodes[0].Group? {
        FindGroupSpec(nodes[0].children, k, GroupRef(k));
        if nodes[0].nodeKey == k {
          TopPlaces(nodes[0].children, Some(k), 0, pl);
        } else {
          GroupPlaces(nodes[0].children, Some(nodes[0].nodeKey), 0, k, pl);
        }
      }
    }
  }

  /** The places of a container are exactly its children, numbered from zero. */
  lemma ContainerPlaces(nodes: seq<EditorNode>, container: Option<Key>, pl: Place)
    requires Unique(nodes) && ChildrenOf(nodes, container).Some?
    ensures var c := ChildrenOf(nodes, container).value;
      pl in Places(nodes, None, 0) && pl.parent == container <==>
      pl.index < |c| && pl == Place(c[pl.index], container, pl.index)
  {
    if container.None? {
      TopPlaces(nodes, None, 0, pl);
    } else {
      GroupPlaces(nodes, None, 0, container.value, pl);
    }
  }

  lemma {:induction false} FoundGroupHasAPlace(nodes: seq<EditorNode>, parent: Option<Key>, index: nat, k: Key) returns (pl: Place)
    requires FindGroup(nodes, k).Some?
    ensures pl in Places(nodes, parent, index) && pl.node == FindGroup(nodes, k).value
  {
    if nodes[0].Group? && nodes[0].nodeKey == k {
      pl := Place(nodes[0], parent, index);
    } else if nodes[0].Group? && FindGroup(nodes[0].children, k).Some? {
      pl := FoundGroupHasAPlace(nodes[0].children, Some(nodes[0].nodeKey), 0, k);
    } else {
      pl := FoundGroupHasAPlace(nodes[1..], parent, index + 1, k);
    }
  }

  lemma PlacedGroupIsFound(nodes: seq<EditorNode>, pl: Place)
    requires Unique(nodes) && pl in Places(nodes, None, 0) && pl.node.Group?
    ensures FindGroup(nodes, pl.node.nodeKey) == Some(pl.node)
  {
    PlacesAreThere(nodes, None, 0, pl);
    FindGroupSpec(nodes, pl.node.nodeKey, RefOf(pl.node));
    var found := FoundGroupHasAPlace(nodes, None, 0, pl.node.nodeKey);
    OnePlaceEach(nodes, None, 0, pl, found);
  }

  /** Groups are walked before what they hold. */
  ghost predicate ParentsFirst(places: seq<Place>, outer: Option<Key>) {
    forall j :: 0 <= j < |places| && places[j].parent != outer ==>
      places[j].parent.Some? && Earlier(places, j, places[j].parent.value)
  }

  ghost predicate Earlier(places: seq<Place>, j: nat, k: Key) {
    exists i :: 0 <= i < j && i < |places| && RefOf(places[i].node) == GroupRef(k)
  }

  lemma {:induction false} PlacesParentsFirst(nodes: seq<EditorNode>, parent: Option<Key>, index: nat)
    ensures ParentsFirst(Places(nodes, parent, index), parent)
  {
    if nodes != [] {
      var all := Places(nodes, parent, index);
      var inner := if nodes[0].Group? then Places(nodes[0].children, Some(nodes[0].nodeKey), 0) else [];
      var rest := Places(nodes[1..], parent, index + 1);
      PlacesParentsFirst(nodes[1..], parent, index + 1);
      if nodes[0].Group? {
        PlacesParentsFirst(nodes[0].children, Some(nodes[0].nodeKey), 0);
      }
      var n := 1 + |inner|;
      assert all[0] == Place(nodes[0], parent, index) && |all| == n + |rest|;
      assert forall j :: 0 <= j < |inner| ==> all[1 + j] == inner[j];
      assert forall j :: 0 <= j < |rest| ==> all[n + j] == rest[j];
      forall j | 0 <= j < |all| && all[j].parent != parent
        ensures all[j].parent.Some? && Earlier(all, j, all[j].parent.value)
      {
        if 1 <= j < n {
          if inner[j - 1].parent == Some(nodes[0].nodeKey) {
            assert RefOf(all[0].node) == GroupRef(nodes[0].nodeKey);
          } else {
            var i :| 0 <= i < j - 1 && RefOf(inner[i].node) == GroupRef(inner[j - 1].parent.value);
            assert all[1 + i] == inner[i];
          }
        } else if n <= j {
          var i :| 0 <= i < j - n && RefOf(rest[i].node) == GroupRef(rest[j - n].parent.value);
          assert all[n + i] == rest[i];
        }
      }
    }
  }

  function PositionOf(places: seq<Place>, r: NodeRef): (i: nat)
    ensures i <= |places|
    ensures i < |places| ==> RefOf(places[i].node) == r
    ensures forall j :: 0 <= j < i ==> RefOf(places[j].node) != r
  {
    if places == [] || RefOf(places[0].node) == r then 0 else 1 + PositionOf(places[1..], r)
  }

  // ---------------------------------------------------------------- what the saved rows resolve to

  lemma {:induction false} GroupRowsMembers(places: seq<Place>, row: GroupRow)
    ensures row in GroupRowsOf(places) <==>
            exists pl :: pl in places && pl.node.Group?
                         && row == GroupRow(pl.node.nodeKey, pl.parent, pl.node.nameOverride, pl.index)
  {
    if places != [] {
      GroupRowsMembers(places[1..], row);
      assert places == [places[0]] + places[1..];
    }
  }

  lemma {:induction false} ItemRowsMembers(places: seq<Place>, row: ItemRow)
    ensures row in ItemRowsOf(places) <==>
            exists pl :: pl in places && pl.node.Item?
                         && row == ItemRow(pl.node.itemKey, pl.parent, pl.node.nameOverride, pl.index)
  {
    if places != [] {
      ItemRowsMembers(places[1..], row);
      assert places == [places[0]] + places[1..];
    }
  }

  lemma StoredGroup(nodes: seq<EditorNode>, pl: Place)
    requires Unique(nodes) && pl in Places(nodes, None, 0) && pl.node.Group?
    ensures var stored := GroupMap(Serialize(nodes).groups);
      && pl.node.nodeKey in stored
      && stored[pl.node.nodeKey] == GroupRow(pl.node.nodeKey, pl.parent, pl.node.nameOverride, pl.index)
  {
    var places := Places(nodes, None, 0);
    var rows := GroupRowsOf(places);
    var row := GroupRow(pl.node.nodeKey, pl.parent, pl.node.nameOverride, pl.index);
    GroupRowsMembers(places, row);
    assert row in rows;
    var found := GroupMap(rows)[pl.node.nodeKey];
    GroupRowsMembers(places, found);
    var other :| other in places && other.node.Group?
                 && found == GroupRow(other.node.nodeKey, other.parent, other.node.nameOverride, other.index);
    OnePlaceEach(nodes, None, 0, pl, other);
  }

  lemma StoredItem(nodes: seq<EditorNode>, pl: Place)
    requires Unique(nodes) && pl in Places(nodes, None, 0) && pl.node.Item?
    ensures var stored := ItemMap(Serialize(nodes).items);
      && pl.node.itemKey in stored
      && stored[pl.node.itemKey] == ItemRow(pl.node.itemKey, pl.parent, pl.node.nameOverride, pl.index)
  {
    var places := Places(nodes, None, 0);
    var rows := ItemRowsOf(places);
    var row := ItemRow(pl.node.itemKey, pl.parent, pl.node.nameOverride, pl.index);
    ItemRowsMembers(places, row);
    assert row in rows;
    var found := ItemMap(rows)[pl.node.itemKey];
    ItemRowsMembers(places, found);
    var other :| other in places && other.node.Item?
                 && found == ItemRow(other.node.itemKey, other.parent, other.node.nameOverride, other.index);
    OnePlaceEach(nodes, None, 0, pl, other);
  }

  lemma SavedKeys(defaults: seq<NavItem>, nodes: seq<EditorNode>, k: Key)
    requires WellFormed(defaults, nodes)
    ensures k in AllGroupKeys(IdentityOf(defaults).groups, Serialize(nodes)) <==> Has(nodes, GroupRef(k))
  {
    var places := Places(nodes, None, 0);
    if k in GroupKeys(GroupRowsOf(places)) {
      var row :| row in GroupRowsOf(places) && row.nodeKey == k;
      GroupRowsMembers(places, row);
      var pl :| pl in places && pl.node.Group?
                && row == GroupRow(pl.node.nodeKey, pl.parent, pl.node.nameOverride, pl.index);
      PlacesAreThere(nodes, None, 0, pl);
    }
    if Has(nodes, GroupRef(k)) {
      var pl := EveryNodeHasAPlace(nodes, None, 0, GroupRef(k));
      StoredGroup(nodes, pl);
      assert k in GroupMap(GroupRowsOf(places)).Keys;
    }
    assert IsDefaultGroup(defaults, k) ==> Has(nodes, GroupRef(k));
  }

  ghost function SavedGraph(defaults: seq<NavItem>, nodes: seq<EditorNode>): (g: Graph)
    ensures g.Closed()
  {
    IdentityGood(defaults);
    GraphOf(IdentityOf(defaults).groups, Serialize(nodes))
  }

  lemma EarlierThanFirst(nodes: seq<EditorNode>, k: Key)
    requires Has(nodes, GroupRef(k))
    ensures var places := Places(nodes, None, 0); var j := PositionOf(places, GroupRef(k));
      j < |places| &&
      (places[j].parent.Some? ==>
         places[j].parent.value != k && Has(nodes, GroupRef(places[j].parent.value))
         && PositionOf(places, GroupRef(places[j].parent.value)) < j)
  {
    var places := Places(nodes, None, 0);
    var there := EveryNodeHasAPlace(nodes, None, 0, GroupRef(k));
    var j := PositionOf(places, GroupRef(k));
    PlacesParentsFirst(nodes, None, 0);
    assert places[j] in places;
    PlacesAreThere(nodes, None, 0, places[j]);
    if places[j].parent.Some? {
      assert Earlier(places, j, places[j].parent.value);
    }
  }

  lemma SavedCandidate(defaults: seq<NavItem>, nodes: seq<EditorNode>, pl: Place)
    requires WellFormed(defaults, nodes) && pl in Places(nodes, None, 0) && pl.node.Group?
    ensures pl.node.nodeKey in SavedGraph(defaults, nodes).candidate
    ensures SavedGraph(defaults, nodes).candidate[pl.node.nodeKey] == pl.parent
  {
    IdentityGood(defaults);
    var k := pl.node.nodeKey;
    StoredGroup(nodes, pl);
    PlacesAreThere(nodes, None, 0, pl);
    SavedKeys(defaults, nodes, k);
    EarlierThanFirst(nodes, k);
    var places := Places(nodes, None, 0);
    OnePlaceEach(nodes, None, 0, pl, places[PositionOf(places, GroupRef(k))]);
    if pl.parent.Some? {
      SavedKeys(defaults, nodes, pl.parent.value);
    }
  }

  /** The parents the rows ask for form no cycle, so the resolution keeps every one of them. */
  lemma SavedParent(defaults: seq<NavItem>, nodes: seq<EditorNode>, pl: Place)
    requires WellFormed(defaults, nodes) && pl in Places(nodes, None, 0) && pl.node.Group?
    ensures var g, order := SavedGraph(defaults, nodes), AllGroupKeys(IdentityOf(defaults).groups, Serialize(nodes));
      && pl.node.nodeKey in order && (forall k :: k in order ==> k in g.keys)
      && ResolveParents(g, order)[pl.node.nodeKey] == pl.parent
  {
    IdentityGood(defaults);
    var g, order := SavedGraph(defaults, nodes), AllGroupKeys(IdentityOf(defaults).groups, Serialize(nodes));
    var places := Places(nodes, None, 0);
    var rank := map k | k in g.keys :: PositionOf(places, GroupRef(k));
    forall k | k in rank && k in g.candidate && g.candidate[k].Some?
      ensures g.candidate[k].value in rank && rank[g.candidate[k].value] < rank[k]
    {
      SavedKeys(defaults, nodes, k);
      EarlierThanFirst(nodes, k);
      SavedCandidate(defaults, nodes, places[PositionOf(places, GroupRef(k))]);
    }
    GroundedGroupsKeepTheirParent(g, order, rank);
    SavedCandidate(defaults, nodes, pl);
  }

  /** The row of the resolved menu that a saved node comes back as. */
  ghost predicate ComesBackAs(pl: Place, row: Row) {
    && row.Order() == Fin(pl.index) && row.Parent() == pl.parent
    && RowRef(row) == RefOf(pl.node)
    && (if row.ItemEntry? then row.item.nameOverride else row.group.nameOverride) == pl.node.nameOverride
  }

  lemma SavedGroupRow(defaults: seq<NavItem>, nodes: seq<EditorNode>, pl: Place) returns (row: Row)
    requires WellFormed(defaults, nodes) && pl in Places(nodes, None, 0) && pl.node.Group?
    ensures IsRow(Resolve(defaults, Serialize(nodes)), row) && ComesBackAs(pl, row)
  {
    IdentityGood(defaults);
    var m := Resolve(defaults, Serialize(nodes));
    var id, order := DefaultConfig(defaults), AllGroupKeys(IdentityOf(defaults).groups, Serialize(nodes));
    SavedParent(defaults, nodes, pl);
    StoredGroup(nodes, pl);
    var i :| 0 <= i < |order| && order[i] == pl.node.nodeKey;
    var parents := ResolveParents(SavedGraph(defaults, nodes), order);
    assert m.groups[i] == ResolveGroup(order[i], id, GroupMap(Serialize(nodes).groups), parents);
    row := GroupEntry(m.groups[i]);
  }

  lemma SavedItemRow(defaults: seq<NavItem>, nodes: seq<EditorNode>, pl: Place) returns (row: Row)
    requires WellFormed(defaults, nodes) && pl in Places(nodes, None, 0) && pl.node.Item?
    ensures IsRow(Resolve(defaults, Serialize(nodes)), row) && ComesBackAs(pl, row)
  {
    IdentityGood(defaults);
    var m := Resolve(defaults, Serialize(nodes));
    PlacesAreThere(nodes, None, 0, pl);
    assert IsItemKey(defaults, pl.node.itemKey);
    StoredItem(nodes, pl);
    var i :| 0 <= i < |defaults| && defaults[i].key == pl.node.itemKey;
    if pl.parent.Some? {
      SavedKeys(defaults, nodes, pl.parent.value);
    }
    assert m.items[i] == ResolveItem(DefaultConfig(defaults).items[i], i, ItemMap(Serialize(nodes).items), SavedGraph(defaults, nodes).keys);
    row := ItemEntry(m.items[i]);
  }

  lemma SavedRow(defaults: seq<NavItem>, nodes: seq<EditorNode>, pl: Place) returns (row: Row)
    requires WellFormed(defaults, nodes) && pl in Places(nodes, None, 0)
    ensures IsRow(Resolve(defaults, Serialize(nodes)), row) && ComesBackAs(pl, row)
  {
    if pl.node.Item? {
      row := SavedItemRow(defaults, nodes, pl);
    } else {
      row := SavedGroupRow(defaults, nodes, pl);
    }
  }

  /** Every row of the resolved menu comes from a saved node. */
  lemma RowIsSaved(defaults: seq<NavItem>, nodes: seq<EditorNode>, row: Row) returns (pl: Place)
    requires UniqueKeys(defaults) && WellFormed(defaults, nodes) && IsRow(Resolve(defaults, Serialize(nodes)), row)
    ensures pl in Places(nodes, None, 0) && ComesBackAs(pl, row)
  {
    var r := RowRef(row);
    assert HasRow(Resolve(defaults, Serialize(nodes)), r);
    RowsOfResolve(defaults, Serialize(nodes), r);
    if r.GroupRef? {
      SavedKeys(defaults, nodes, r.nodeKey);
    }
    assert Has(nodes, r);
    pl := EveryNodeHasAPlace(nodes, None, 0, r);
    var back := SavedRow(defaults, nodes, pl);
    ResolveIsTidy(defaults, Serialize(nodes));
    SameRow(Resolve(defaults, Serialize(nodes)), row, back);
  }

  // ---------------------------------------------------------------- rebuilding the saved tree

  ghost predicate Returned(m: ResolvedMenu, pl: Place) {
    exists row :: IsRow(m, row) && ComesBackAs(pl, row)
  }

  ghost predicate Saved(nodes: seq<EditorNode>, row: Row) {
    exists pl :: pl in Places(nodes, None, 0) && ComesBackAs(pl, row)
  }

  /** The menu has one row for every node of the tree, in the node's place, and no others. */
  ghost predicate Restores(m: ResolvedMenu, nodes: seq<EditorNode>) {
    && Unique(nodes) && Tidy(m)
    && (forall pl :: pl in Places(nodes, None, 0) ==> Returned(m, pl))
    && (forall row :: IsRow(m, row) ==> Saved(nodes, row))
  }

  lemma SavedTreeIsRestored(defaults: seq<NavItem>, nodes: seq<EditorNode>)
    requires UniqueKeys(defaults) && WellFormed(defaults, nodes)
    ensures Restores(Resolve(defaults, Serialize(nodes)), nodes)
  {
    ResolveIsTidy(defaults, Serialize(nodes));
    forall pl | pl in Places(nodes, None, 0) ensures Returned(Resolve(defaults, Serialize(nodes)), pl) {
      var row := SavedRow(defaults, nodes, pl);
    }
    forall row | IsRow(Resolve(defaults, Serialize(nodes)), row) ensures Saved(nodes, row) {
      var pl := RowIsSaved(defaults, nodes, row);
    }
  }

  ghost predicate ComeBackInOrder(m: ResolvedMenu, container: Option<Key>, c: seq<EditorNode>, rows: seq<Row>) {
    && |rows| == |c|
    && (forall i :: 0 <= i < |c| ==> IsRow(m, rows[i]) && ComesBackAs(Place(c[i], container, i), rows[i]))
  }

  lemma ChildRow(m: ResolvedMenu, nodes: seq<EditorNode>, container: Option<Key>, c: seq<EditorNode>, i: nat) returns (row: Row)
    requires Restores(m, nodes) && ChildrenOf(nodes, container) == Some(c) && i < |c|
    ensures IsRow(m, row) && ComesBackAs(Place(c[i], container, i), row)
  {
    var pl := Place(c[i], container, i);
    ContainerPlaces(nodes, container, pl);
    assert Returned(m, pl);
    row :| IsRow(m, row) && ComesBackAs(pl, row);
  }

  /** The rows that the children of a container come back as, in the order of the children. */
  lemma {:induction false} TargetRows(m: ResolvedMenu, nodes: seq<EditorNode>, container: Option<Key>, c: seq<EditorNode>, n: nat)
    returns (rows: seq<Row>)
    requires Restores(m, nodes) && ChildrenOf(nodes, container) == Some(c) && n <= |c|
    ensures ComeBackInOrder(m, container, c[..n], rows)
  {
    if n == 0 {
      rows := [];
    } else {
      var before := TargetRows(m, nodes, container, c, n - 1);
      var row := ChildRow(m, nodes, container, c, n - 1);
      rows := before + [row];
      forall i | 0 <= i < n ensures IsRow(m, rows[i]) && ComesBackAs(Place(c[..n][i], container, i), rows[i]) {
        if i < n - 1 {
          assert c[..n - 1][i] == c[..n][i];
        }
      }
    }
  }

  lemma SameMembers<T>(a: seq<T>, b: seq<T>)
    requires NoDup(a) && NoDup(b) && forall x :: x in a <==> x in b
    ensures multiset(a) == multiset(b)
  {
    OnceCounts(a);
    OnceCounts(b);
  }

  lemma InOrderIsSorted(m: ResolvedMenu, container: Option<Key>, c: seq<EditorNode>, rows: seq<Row>)
    requires ComeBackInOrder(m, container, c, rows)
    ensures StrictlySorted(rows) && NoDup(rows)
  {
    forall i, j | 0 <= i < j < |rows| ensures Before(rows[i], rows[j]) && rows[i] != rows[j] {
      assert ComesBackAs(Place(c[i], container, i), rows[i]) && ComesBackAs(Place(c[j], container, j), rows[j]);
    }
  }

  lemma PlaceOfRow(m: ResolvedMenu, nodes: seq<EditorNode>, x: Row) returns (pl: Place)
    requires Restores(m, nodes) && IsRow(m, x)
    ensures pl in Places(nodes, None, 0) && ComesBackAs(pl, x)
  {
    assert Saved(nodes, x);
    pl :| pl in Places(nodes, None, 0) && ComesBackAs(pl, x);
  }

  lemma RowIsAmong(m: ResolvedMenu, nodes: seq<EditorNode>, container: Option<Key>, c: seq<EditorNode>, rows: seq<Row>, x: Row)
    requires Restores(m, nodes) && ChildrenOf(nodes, container) == Some(c) && ComeBackInOrder(m, container, c, rows)
    requires IsRow(m, x) && x.Parent() == container
    ensures x in rows
  {
    var pl := PlaceOfRow(m, nodes, x);
    ContainerPlaces(nodes, container, pl);
    assert ComesBackAs(Place(c[pl.index], container, pl.index), rows[pl.index]);
    SameRow(m, x, rows[pl.index]);
  }

  /** The rows of a container sort back into the order of its children. */
  lemma SortedBack(m: ResolvedMenu, nodes: seq<EditorNode>, container: Option<Key>, c: seq<EditorNode>)
    requires Restores(m, nodes) && ChildrenOf(nodes, container) == Some(c)
    ensures ComeBackInOrder(m, container, c, Sort(RowsUnder(m, container)))
  {
    var under := RowsUnder(m, container);
    var rows := TargetRows(m, nodes, container, c, |c|);
    assert c[..|c|] == c;
    InOrderIsSorted(m, container, c, rows);
    RowsUnderOnce(m, container);
    forall x ensures x in rows <==> x in under {
      if x in under {
        RowIsAmong(m, nodes, container, c, rows, x);
      }
      if x in rows {
        var i :| 0 <= i < |rows| && rows[i] == x;
        assert ComesBackAs(Place(c[i], container, i), rows[i]);
      }
    }
    SameMembers(rows, under);
    SortSpec(under);
    SortedUnique(Sort(under), rows);
  }

  lemma {:induction false} BuildRowsBack(m: ResolvedMenu, container: Option<Key>, rows: seq<Row>, c: seq<EditorNode>, index: nat)
    requires Forest(m) && Hangs(m, container) && |rows| == |c|
    requires forall row :: row in rows ==> IsRow(m, row) && row.Parent() == container
    requires forall i :: 0 <= i < |c| ==> ComesBackAs(Place(c[i], container, index + i), rows[i])
    requires forall i :: 0 <= i < |c| && c[i].Group? ==>
               HasGroup(m, c[i].nodeKey) && Build(m, Some(c[i].nodeKey)) == c[i].children
    ensures BuildRows(m, container, rows) == c
    decreases |rows|
  {
    if rows != [] {
      assert rows[0] in rows;
      assert ComesBackAs(Place(c[0], container, index), rows[0]);
      forall i | 0 <= i < |c[1..]| ensures ComesBackAs(Place(c[1..][i], container, index + 1 + i), rows[1..][i]) {
        assert ComesBackAs(Place(c[i + 1], container, index + (i + 1)), rows[i + 1]);
      }
      BuildRowsBack(m, container, rows[1..], c[1..], index + 1);
      assert c == [c[0]] + c[1..];
    }
  }

  lemma ChildGroupHangs(m: ResolvedMenu, nodes: seq<EditorNode>, container: Option<Key>, c: seq<EditorNode>, i: nat)
    requires Restores(m, nodes) && ChildrenOf(nodes, container) == Some(c) && i < |c| && c[i].Group?
    ensures HasGroup(m, c[i].nodeKey) && Hangs(m, Some(c[i].nodeKey)) && ChildrenOf(nodes, Some(c[i].nodeKey)) == Some(c[i].children)
  {
    var pl := Place(c[i], container, i);
    ContainerPlaces(nodes, container, pl);
    PlacedGroupIsFound(nodes, pl);
    var row := ChildRow(m, nodes, container, c, i);
  }

  /** The groups among the children are built back as they were. */
  ghost predicate GroupsBack(m: ResolvedMenu, c: seq<EditorNode>)
    requires Forest(m)
  {
    forall i :: 0 <= i < |c| && c[i].Group? ==> HasGroup(m, c[i].nodeKey) && Build(m, Some(c[i].nodeKey)) == c[i].children
  }

  lemma RebuildOneLevel(m: ResolvedMenu, nodes: seq<EditorNode>, container: Option<Key>, c: seq<EditorNode>)
    requires Restores(m, nodes) && ChildrenOf(nodes, container) == Some(c) && Hangs(m, container) && GroupsBack(m, c)
    ensures Build(m, container) == c
  {
    SortedBack(m, nodes, container, c);
    SortMembers(RowsUnder(m, container));
    BuildRowsBack(m, container, Sort(RowsUnder(m, container)), c, 0);
  }

  lemma {:induction false} Rebuild(m: ResolvedMenu, nodes: seq<EditorNode>, container: Option<Key>, c: seq<EditorNode>)
    requires Restores(m, nodes) && ChildrenOf(nodes, container) == Some(c) && Hangs(m, container)
    ensures Build(m, container) == c
    decreases c
  {
    forall i | 0 <= i < |c| && c[i].Group?
      ensures HasGroup(m, c[i].nodeKey) && Build(m, Some(c[i].nodeKey)) == c[i].children
    {
      ChildGroupHangs(m, nodes, container, c, i);
      Rebuild(m, nodes, Some(c[i].nodeKey), c[i].children);
    }
    RebuildOneLevel(m, nodes, container, c);
  }

  /** The editor shows a saved tree exactly as it was saved. */
  lemma RoundTrip(defaults: seq<NavItem>, nodes: seq<EditorNode>)
    requires UniqueKeys(defaults) && WellFormed(defaults, nodes)
    ensures BuildEditorState(defaults, Serialize(nodes)) == nodes
  {
    SavedTreeIsRestored(defaults, nodes);
    Rebuild(Resolve(defaults, Serialize(nodes)), nodes, None, nodes);
  }

  /** Saving what was loaded normalises the rows once; doing it again changes nothing. */
  lemma SavingIsIdempotent(defaults: seq<NavItem>, config: Config)
    requires UniqueKeys(defaults)
    ensures var saved := Serialize(BuildEditorState(defaults, config));
      Serialize(BuildEditorState(defaults, saved)) == saved
  {
    BuildIsWellFormed(defaults, config);
    RoundTrip(defaults, BuildEditorState(defaults, config));
  }

  /** A deleted code-default group is back after the next load, whatever else was saved. */
  lemma DefaultGroupsComeBack(defaults: seq<NavItem>, nodes: seq<EditorNode>, k: Key)
    requires UniqueKeys(defaults) && IsDefaultGroup(defaults, k)
    ensures Has(BuildEditorState(defaults, Serialize(nodes)), GroupRef(k))
  {
    BuildIsWellFormed(defaults, Serialize(nodes));
  }
}
