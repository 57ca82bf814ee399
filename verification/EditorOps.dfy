/** The edit operations and what each keeps (editor-state.ts:116-374). */
module EditorOps {
  import opened Options
  import opened MenuTypes
  import opened MenuResolve
  import opened EditorTree
  import opened EditorMoves
  import opened Strings

  // ---------------------------------------------------------------- moving

  /** Where a node is dropped; the index is the position before the node is taken out. */
  datatype DropTarget = Top(index: int) | Children(groupKey: Key, index: int) {
    function Container(): Option<Key> {
      if Top? then None else Some(groupKey)
    }
  }

  function GroupKeysIn(nodes: seq<EditorNode>): set<Key> {
    if nodes == [] then {}
    else
      (if nodes[0].Group? then {nodes[0].nodeKey} + GroupKeysIn(nodes[0].children) else {}) + GroupKeysIn(nodes[1..])
  }

  lemma {:induction false} GroupKeysAreThere(nodes: seq<EditorNode>, k: Key)
    ensures k in GroupKeysIn(nodes) <==> Has(nodes, GroupRef(k))
  {
    if nodes != [] {
      GroupKeysAreThere(nodes[1..], k);
      if nodes[0].Group? {
        GroupKeysAreThere(nodes[0].children, k);
      }
    }
  }

  function SubtreeKeys(group: EditorNode): set<Key>
    requires group.Group?
  {
    {group.nodeKey} + GroupKeysIn(group.children)
  }

  method CollectInto(nodes: seq<EditorNode>, before: set<Key>) returns (keys: set<Key>)
    ensures keys == before + GroupKeysIn(nodes)
    decreases nodes
  {
    keys := before;
    for i := 0 to |nodes|
      invariant keys + GroupKeysIn(nodes[i..]) == before + GroupKeysIn(nodes)
    {
      assert nodes[i..][1..] == nodes[i + 1..];
      if nodes[i].Group? {
        keys := keys + {nodes[i].nodeKey};
        keys := CollectInto(nodes[i].children, keys);
      }
    }
  }

  method CollectGroupSubtreeKeys(group: EditorNode) returns (keys: set<Key>)
    requires group.Group?
    ensures keys == SubtreeKeys(group)
  {
    keys := CollectInto(group.children, {group.nodeKey});
  }

  predicate TargetGuardFails(nodes: seq<EditorNode>, drag: NodeRef, target: DropTarget) {
    if target.Top? then false
    else if FindGroup(nodes, target.groupKey).None? then true
    else if drag.ItemRef? then false
    else
      var dragged := FindGroup(nodes, drag.nodeKey);
      if dragged.None? then true else target.groupKey in SubtreeKeys(dragged.value)
  }

  function InsertIndex(removal: Removal, target: DropTarget): int {
    if removal.container == target.Container() && removal.index < target.index then target.index - 1 else target.index
  }

  /** `moveEditorNode` without its guard. */
  function MoveUnguarded(nodes: seq<EditorNode>, drag: NodeRef, target: DropTarget): Option<seq<EditorNode>> {
    var removal := Remove(nodes, drag, None);
    if removal.None? then None
    else
      Some(InsertUnder(removal.value.nodes, target.Container(), InsertIndex(removal.value, target), removal.value.removed))
  }

  function Move(nodes: seq<EditorNode>, drag: NodeRef, target: DropTarget): Option<seq<EditorNode>> {
    if TargetGuardFails(nodes, drag, target) then None else MoveUnguarded(nodes, drag, target)
  }

  lemma {:induction false} FindGroupIsRemoved(nodes: seq<EditorNode>, k: Key, container: Option<Key>)
    requires Unique(nodes) && Has(nodes, GroupRef(k))
    ensures Remove(nodes, GroupRef(k), container).Some?
    ensures FindGroup(nodes, k) == Some(Remove(nodes, GroupRef(k), container).value.removed)
    decreases nodes, 1
  {
    RemoveParts(nodes, GroupRef(k), container, GroupRef(k));
    FindGroupLevel(nodes, k);
  }

  lemma {:induction false} FindGroupLevel(nodes: seq<EditorNode>, k: Key)
    requires Unique(nodes) && Has(nodes, GroupRef(k))
    ensures var i := FindIndex(nodes, GroupRef(k));
      if i < |nodes| then FindGroup(nodes, k) == Some(nodes[i])
      else RemoveBelow(nodes, GroupRef(k)).Some? && FindGroup(nodes, k) == Some(RemoveBelow(nodes, GroupRef(k)).value.removed)
    decreases nodes, 0
  {
    var head, rest := nodes[0], nodes[1..];
    UniqueParts(nodes);
    if head.Group? && head.nodeKey == k {
    } else if head.Group? && Has(head.children, GroupRef(k)) {
      FindGroupIsRemoved(head.children, k, Some(head.nodeKey));
      var i := FindIndex(nodes, GroupRef(k));
      if i < |nodes| {
        TopIsThere(rest, i - 1);
      }
    } else {
      if head.Group? {
        FindGroupSpec(head.children, k, GroupRef(k));
        RemoveParts(head.children, GroupRef(k), Some(head.nodeKey), GroupRef(k));
      }
      FindGroupLevel(rest, k);
    }
  }

  /** The drop target lies inside the dragged subtree. */
  ghost predicate TargetInside(nodes: seq<EditorNode>, drag: NodeRef, target: DropTarget) {
    var removal := Remove(nodes, drag, None);
    removal.Some? && target.Children? && NodeCount(removal.value.removed, GroupRef(target.groupKey)) > 0
  }

  /** The guard refuses exactly a missing target group, a missing dragged group and a drop into one's own subtree. */
  lemma GuardMeaning(nodes: seq<EditorNode>, drag: NodeRef, target: DropTarget)
    requires Unique(nodes)
    ensures TargetGuardFails(nodes, drag, target) <==>
            && target.Children?
            && (|| !Has(nodes, GroupRef(target.groupKey))
                || (drag.GroupRef? && !Has(nodes, drag))
                || TargetInside(nodes, drag, target))
  {
    if target.Children? {
      FindGroupSpec(nodes, target.groupKey, drag);
      RemoveParts(nodes, drag, None, drag);
      if drag.GroupRef? {
        FindGroupSpec(nodes, drag.nodeKey, drag);
        if Has(nodes, drag) {
          FindGroupIsRemoved(nodes, drag.nodeKey, None);
          GroupKeysAreThere(FindGroup(nodes, drag.nodeKey).value.children, target.groupKey);
        }
      }
    }
  }

  /** A move is refused only for an absent node or by the guard. */
  lemma MoveRefused(nodes: seq<EditorNode>, drag: NodeRef, target: DropTarget)
    requires Unique(nodes)
    ensures Move(nodes, drag, target).None? <==>
            || !Has(nodes, drag)
            || (target.Children? && !Has(nodes, GroupRef(target.groupKey)))
            || TargetInside(nodes, drag, target)
  {
    GuardMeaning(nodes, drag, target);
    RemoveParts(nodes, drag, None, drag);
  }

  /**
   * Among the `size` nodes that stay in the target container: at the wanted index, which counts the moved node itself when
   * it stood further up there; beyond the end at the end; and below zero counted from the end, but not before the start.
   */
  ghost predicate LandsAt(before: Removal, target: DropTarget, size: nat, i: int) {
    var wanted := target.index - if before.container == target.Container() && before.index < target.index then 1 else 0;
    && (size <= wanted ==> i == size) && (0 <= wanted < size ==> i == wanted)
    && (wanted < 0 <= size + wanted ==> i == size + wanted) && (size + wanted < 0 ==> i == 0)
  }

  /**
   * What a successful move does. Every node stays exactly once. Taking the moved node out of the new tree and out of
   * the old one gives the same subtree and the same remaining tree, so nothing else changed place; and it is found in
   * the asked container at the asked position.
   */
  lemma MoveSpec(nodes: seq<EditorNode>, drag: NodeRef, target: DropTarget)
    requires Unique(nodes) && Move(nodes, drag, target).Some?
    ensures Remove(nodes, drag, None).Some?
    ensures var moved, before := Move(nodes, drag, target).value, Remove(nodes, drag, None).value;
      && (forall r :: Count(moved, r) == Count(nodes, r))
      && ChildrenOf(before.nodes, target.Container()).Some?
      && Remove(moved, drag, None).Some?
      && var after := Remove(moved, drag, None).value;
         && after.nodes == before.nodes && after.removed == before.removed && after.container == target.Container()
         && LandsAt(before, target, |ChildrenOf(before.nodes, target.Container()).value|, after.index)
  {
    GuardMeaning(nodes, drag, target);
    RemoveParts(nodes, drag, None, drag);
    var before := Remove(nodes, drag, None).value;
    var index := InsertIndex(before, target);
    if target.Children? {
      RemoveParts(nodes, drag, None, GroupRef(target.groupKey));
    }
    forall r ensures Count(Move(nodes, drag, target).value, r) == Count(nodes, r) {
      RemoveParts(nodes, drag, None, r);
      if target.Top? {
        InsertAtCount(before.nodes, index, before.removed, r);
      } else {
        InsertIntoCount(before.nodes, target.groupKey, index, before.removed, r);
      }
    }
    RemoveAfterInsert(before.nodes, target.Container(), index, before.removed);
  }

  /** Without the guard, dropping a group into its own subtree would lose that whole subtree. */
  lemma UnguardedMoveLosesTheSubtree(nodes: seq<EditorNode>, drag: NodeRef, target: DropTarget)
    requires Unique(nodes) && TargetInside(nodes, drag, target)
    ensures MoveUnguarded(nodes, drag, target) == Some(Remove(nodes, drag, None).value.nodes)
    ensures forall r :: NodeCount(Remove(nodes, drag, None).value.removed, r) > 0 ==> !Has(MoveUnguarded(nodes, drag, target).value, r)
  {
    var before := Remove(nodes, drag, None).value;
    RemoveParts(nodes, drag, None, GroupRef(target.groupKey));
    InsertIntoAbsent(before.nodes, target.groupKey, InsertIndex(before, target), before.removed);
    forall r | NodeCount(before.removed, r) > 0 ensures !Has(before.nodes, r) {
      RemoveParts(nodes, drag, None, r);
    }
  }

  // ---------------------------------------------------------------- moving by one

  datatype Located = Located(index: nat, size: nat, container: Option<Key>)

  function Locate(nodes: seq<EditorNode>, drag: NodeRef, container: Option<Key>): Option<Located>
    decreases nodes, 1
  {
    var i := FindIndex(nodes, drag);
    if i < |nodes| then Some(Located(i, |nodes|, container)) else LocateBelow(nodes, drag)
  }

  function LocateBelow(nodes: seq<EditorNode>, drag: NodeRef): Option<Located>
    decreases nodes, 0
  {
    if nodes == [] then None
    else
      var inner := if nodes[0].Group? then Locate(nodes[0].children, drag, Some(nodes[0].nodeKey)) else None;
      if inner.Some? then inner else LocateBelow(nodes[1..], drag)
  }

  function MoveByOffset(nodes: seq<EditorNode>, drag: NodeRef, delta: int): Option<seq<EditorNode>>
    requires delta == 1 || delta == -1
  {
    var located := Locate(nodes, drag, None);
    if located.None? then None
    else
      var target := located.value.index + delta;
      if target < 0 || target >= located.value.size then None
      else
        var index := if delta == 1 then target + 1 else target;
        Move(nodes, drag, if located.value.container.None? then Top(index) else Children(located.value.container.value, index))
  }

  lemma {:induction false} LocateIsRemove(nodes: seq<EditorNode>, drag: NodeRef, container: Option<Key>)
    requires Unique(nodes)
    ensures var l, r := Locate(nodes, drag, container), Remove(nodes, drag, container);
      && (l.Some? <==> r.Some?)
      && (l.Some? ==> l.value.index == r.value.index && l.value.container == r.value.container)
      && (l.Some? ==> l.value.index < l.value.size)
      && (l.Some? && FindIndex(nodes, drag) < |nodes| ==> l.value.size == |r.value.nodes| + 1)
    decreases nodes, 1
  {
    if FindIndex(nodes, drag) == |nodes| {
      LocateBelowIsRemove(nodes, drag);
    }
  }

  lemma {:induction false} LocateBelowIsRemove(nodes: seq<EditorNode>, drag: NodeRef)
    requires Unique(nodes)
    ensures var l, r := LocateBelow(nodes, drag), RemoveBelow(nodes, drag);
      && (l.Some? <==> r.Some?)
      && (l.Some? ==> l.value.index == r.value.index && l.value.container == r.value.container)
      && (l.Some? ==> l.value.index < l.value.size)
      && (l.Some? ==> l.value.container.Some? && Has(nodes, GroupRef(l.value.container.value)))
      && (l.Some? ==> FindGroup(r.value.nodes, l.value.container.value).Some?
                      && l.value.size == |FindGroup(r.value.nodes, l.value.container.value).value.children| + 1)
    decreases nodes, 0
  {
    if nodes != [] {
      var head, rest := nodes[0], nodes[1..];
      UniqueParts(nodes);
      var inner := if head.Group? then Locate(head.children, drag, Some(head.nodeKey)) else None;
      if head.Group? {
        LocateIsRemove(head.children, drag, Some(head.nodeKey));
        if FindIndex(head.children, drag) == |head.children| {
          LocateBelowIsRemove(head.children, drag);
        }
      }
      if inner.None? {
        LocateBelowIsRemove(rest, drag);
        var later := RemoveBelow(rest, drag);
        if later.Some? {
          var r := RemoveBelow(nodes, drag).value;
          assert r.nodes[0] == head && r.nodes[1..] == later.value.nodes;
          if head.Group? {
            FindGroupSpec(head.children, later.value.container.value, drag);
          }
        }
      } else {
        var r := RemoveBelow(nodes, drag).value;
        assert r.nodes[1..] == rest;
      }
    }
  }

  lemma LocateIsRemoval(nodes: seq<EditorNode>, drag: NodeRef)
    requires Unique(nodes)
    ensures var l, r := Locate(nodes, drag, None), Remove(nodes, drag, None);
      && (l.Some? <==> r.Some?)
      && (l.Some? ==> l.value.index == r.value.index && l.value.container == r.value.container)
      && (l.Some? ==> l.value.index < l.value.size)
      && (l.Some? ==> ChildrenOf(r.value.nodes, r.value.container).Some?
                      && l.value.size == |ChildrenOf(r.value.nodes, r.value.container).value| + 1)
  {
    LocateIsRemove(nodes, drag, None);
    if FindIndex(nodes, drag) == |nodes| {
      LocateBelowIsRemove(nodes, drag);
    }
  }

  /** The drop target of an offset move: the node's own container, one place on. */
  function OffsetTarget(b: Removal, delta: int): DropTarget {
    var index := if delta == 1 then b.index + 2 else b.index - 1;
    if b.container.None? then Top(index) else Children(b.container.value, index)
  }

  lemma SiblingMove(nodes: seq<EditorNode>, drag: NodeRef, delta: int)
    requires Unique(nodes) && (delta == 1 || delta == -1) && Remove(nodes, drag, None).Some?
    requires var b := Remove(nodes, drag, None).value;
      ChildrenOf(b.nodes, b.container).Some? && 0 <= b.index + delta <= |ChildrenOf(b.nodes, b.container).value|
    ensures var b := Remove(nodes, drag, None).value; var r := Move(nodes, drag, OffsetTarget(b, delta));
      && r.Some? && Unique(r.value) && r.value == InsertUnder(b.nodes, b.container, b.index + delta, b.removed)
      && Remove(r.value, drag, None) == Some(b.(index := b.index + delta))
  {
    var b := Remove(nodes, drag, None).value;
    var target := OffsetTarget(b, delta);
    SiblingMoveSucceeds(nodes, drag, delta);
    MoveSpec(nodes, drag, target);
    assert InsertIndex(b, target) == b.index + delta;
  }

  lemma SiblingMoveSucceeds(nodes: seq<EditorNode>, drag: NodeRef, delta: int)
    requires Unique(nodes) && Remove(nodes, drag, None).Some?
    requires var b := Remove(nodes, drag, None).value; ChildrenOf(b.nodes, b.container).Some?
    ensures Move(nodes, drag, OffsetTarget(Remove(nodes, drag, None).value, delta)).Some?
  {
    RemoveParts(nodes, drag, None, drag);
    var b := Remove(nodes, drag, None).value;
    var target := OffsetTarget(b, delta);
    if target.Children? {
      RemoveParts(nodes, drag, None, GroupRef(target.groupKey));
      FindGroupSpec(b.nodes, target.groupKey, drag);
    }
    MoveRefused(nodes, drag, target);
  }

  /** The step is the move to the neighbouring place, within the siblings. */
  lemma OffsetIsMove(nodes: seq<EditorNode>, drag: NodeRef, delta: int)
    requires Unique(nodes) && (delta == 1 || delta == -1) && Has(nodes, drag)
    ensures Remove(nodes, drag, None).Some?
    ensures var b := Remove(nodes, drag, None).value;
      && ChildrenOf(b.nodes, b.container).Some?
      && MoveByOffset(nodes, drag, delta) ==
         if 0 <= b.index + delta <= |ChildrenOf(b.nodes, b.container).value| then Move(nodes, drag, OffsetTarget(b, delta)) else None
  {
    RemoveParts(nodes, drag, None, drag);
    LocateIsRemoval(nodes, drag);
  }

  /** An offset move succeeds unless the node is absent or at that end, and shifts the node by one among its siblings. */
  lemma MoveByOffsetSpec(nodes: seq<EditorNode>, drag: NodeRef, delta: int)
    requires Unique(nodes) && (delta == 1 || delta == -1)
    ensures Has(nodes, drag) ==> Remove(nodes, drag, None).Some?
                                 && ChildrenOf(Remove(nodes, drag, None).value.nodes, Remove(nodes, drag, None).value.container).Some?
    ensures MoveByOffset(nodes, drag, delta).Some? <==>
            Has(nodes, drag) &&
            var b := Remove(nodes, drag, None).value; 0 <= b.index + delta <= |ChildrenOf(b.nodes, b.container).value|
    ensures MoveByOffset(nodes, drag, delta).Some? ==>
              var moved, b := MoveByOffset(nodes, drag, delta).value, Remove(nodes, drag, None).value;
              && Unique(moved)
              && moved == InsertUnder(b.nodes, b.container, b.index + delta, b.removed)
              && Remove(moved, drag, None) == Some(b.(index := b.index + delta))
  {
    if Has(nodes, drag) {
      OffsetIsMove(nodes, drag, delta);
      var b := Remove(nodes, drag, None).value;
      var children := ChildrenOf(b.nodes, b.container).value;
      if 0 <= b.index + delta <= |children| {
        SiblingMove(nodes, drag, delta);
      }
    } else {
      RemoveParts(nodes, drag, None, drag);
      LocateIsRemoval(nodes, drag);
    }
  }

  /** One step and one step back - in either order, at any depth - is the identity. */
  lemma MoveByOffsetUndoes(nodes: seq<EditorNode>, drag: NodeRef, delta: int)
    requires Unique(nodes) && (delta == 1 || delta == -1)
    requires MoveByOffset(nodes, drag, delta).Some?
    ensures MoveByOffset(MoveByOffset(nodes, drag, delta).value, drag, -delta) == Some(nodes)
  {
    MoveByOffsetSpec(nodes, drag, delta);
    var moved, b := MoveByOffset(nodes, drag, delta).value, Remove(nodes, drag, None).value;
    assert b.index <= |ChildrenOf(b.nodes, b.container).value| by {
      LocateIsRemoval(nodes, drag);
    }
    assert Has(moved, drag) by {
      RemoveParts(moved, drag, None, drag);
    }
    MoveByOffsetSpec(moved, drag, -delta);
    InsertAfterRemove(nodes, drag);
  }

  // ---------------------------------------------------------------- creating and deleting groups

  /** The new key is drawn at random by the source; here it is given. */
  function Create(nodes: seq<EditorNode>, parent: Option<Key>, nodeKey: Key, name: Option<string>): Option<seq<EditorNode>> {
    var group := Group(nodeKey, name, []);
    if parent.None? then Some(nodes + [group])
    else if FindGroup(nodes, parent.value).None? then None
    else Some(AppendInto(nodes, parent.value, group))
  }

  function AppendInto(nodes: seq<EditorNode>, k: Key, node: EditorNode): seq<EditorNode> {
    if nodes == [] then []
    else
      [if nodes[0].Item? then nodes[0]
       else if nodes[0].nodeKey == k then nodes[0].(children := nodes[0].children + [node])
       else nodes[0].(children := AppendInto(nodes[0].children, k, node))]
      + AppendInto(nodes[1..], k, node)
  }

  function Delete(nodes: seq<EditorNode>, nodeKey: Key): Option<seq<EditorNode>> {
    var group := FindGroup(nodes, nodeKey);
    if group.None? || group.value.children != [] then None
    else
      var removal := Remove(nodes, GroupRef(nodeKey), None);
      if removal.Some? then Some(removal.value.nodes) else None
  }

  /** An index no list reaches. */
  function PastEnd(nodes: seq<EditorNode>): nat {
    |nodes| + if nodes == [] then 0 else (if nodes[0].Group? then PastEnd(nodes[0].children) else 0) + PastEnd(nodes[1..])
  }

  lemma {:induction false} AppendIsInsert(nodes: seq<EditorNode>, k: Key, node: EditorNode, index: nat)
    requires PastEnd(nodes) <= index
    ensures AppendInto(nodes, k, node) == InsertInto(nodes, k, index, node)
  {
    if nodes != [] {
      AppendIsInsert(nodes[1..], k, node, index);
      if nodes[0].Group? {
        AppendIsInsert(nodes[0].children, k, node, index);
        assert InsertAt(nodes[0].children, index, node) == nodes[0].children + [node];
      }
    }
  }

  lemma CreateIsInsert(nodes: seq<EditorNode>, parent: Option<Key>, nodeKey: Key, name: Option<string>)
    requires Create(nodes, parent, nodeKey, name).Some?
    ensures Create(nodes, parent, nodeKey, name).value == InsertUnder(nodes, parent, PastEnd(nodes), Group(nodeKey, name, []))
  {
    if parent.Some? {
      AppendIsInsert(nodes, parent.value, Group(nodeKey, name, []), PastEnd(nodes));
    }
  }

  lemma CreateCount(nodes: seq<EditorNode>, parent: Option<Key>, nodeKey: Key, name: Option<string>, r: NodeRef)
    requires Unique(nodes) && Create(nodes, parent, nodeKey, name).Some?
    ensures Count(Create(nodes, parent, nodeKey, name).value, r) == Count(nodes, r) + Indicator(r == GroupRef(nodeKey))
  {
    CreateIsInsert(nodes, parent, nodeKey, name);
    var group := Group(nodeKey, name, []);
    if parent.None? {
      InsertAtCount(nodes, PastEnd(nodes), group, r);
    } else {
      FindGroupSpec(nodes, parent.value, r);
      InsertIntoCount(nodes, parent.value, PastEnd(nodes), group, r);
    }
  }

  /** Deleting a group just created, at any depth, restores the tree. */
  lemma DeleteUndoesCreate(nodes: seq<EditorNode>, parent: Option<Key>, nodeKey: Key, name: Option<string>)
    requires Unique(nodes) && !Has(nodes, GroupRef(nodeKey)) && Create(nodes, parent, nodeKey, name).Some?
    ensures Delete(Create(nodes, parent, nodeKey, name).value, nodeKey) == Some(nodes)
  {
    var group := Group(nodeKey, name, []);
    var created := Create(nodes, parent, nodeKey, name).value;
    CreateIsInsert(nodes, parent, nodeKey, name);
    if parent.Some? {
      FindGroupSpec(nodes, parent.value, GroupRef(nodeKey));
    }
    RemoveAfterInsert(nodes, parent, PastEnd(nodes), group);
    forall r ensures Count(created, r) <= 1 {
      CreateCount(nodes, parent, nodeKey, name, r);
    }
    CreateCount(nodes, parent, nodeKey, name, GroupRef(nodeKey));
    FindGroupIsRemoved(created, nodeKey, None);
  }

  /** Only an existing empty group is deleted, and then exactly that node goes. */
  lemma DeleteSpec(nodes: seq<EditorNode>, nodeKey: Key)
    requires Unique(nodes)
    ensures Delete(nodes, nodeKey).Some? <==>
            FindGroup(nodes, nodeKey).Some? && FindGroup(nodes, nodeKey).value.children == []
    ensures Delete(nodes, nodeKey).Some? ==>
              forall r :: Count(nodes, r) == Count(Delete(nodes, nodeKey).value, r) + Indicator(r == GroupRef(nodeKey))
  {
    FindGroupSpec(nodes, nodeKey, GroupRef(nodeKey));
    RemoveParts(nodes, GroupRef(nodeKey), None, GroupRef(nodeKey));
    if FindGroup(nodes, nodeKey).Some? {
      FindGroupIsRemoved(nodes, nodeKey, None);
      forall r {
        RemoveParts(nodes, GroupRef(nodeKey), None, r);
      }
    }
  }

  // ---------------------------------------------------------------- renaming

  function NameFrom(raw: string): Option<string> {
    if Trim(raw) == "" then None else Some(Trim(raw))
  }

  /** A blank text is no name; another is one without the blanks around it. */
  ghost predicate NameGiven(raw: string, name: Option<string>) {
    match name
    case None => Blank(raw)
    case Some(t) => t != "" && IsTrimmed(raw, t)
  }

  lemma NameMeaning(raw: string)
    ensures NameGiven(raw, NameFrom(raw))
  {
    TrimMeaning(raw);
  }

  function WithName(node: EditorNode, name: Option<string>): EditorNode {
    if node.Item? then Item(node.itemKey, name) else Group(node.nodeKey, name, node.children)
  }

  /** The `walk` of `renameEditorNode`: below a renamed group nothing is visited. */
  function RenameIn(nodes: seq<EditorNode>, target: NodeRef, name: Option<string>): seq<EditorNode> {
    if nodes == [] then []
    else
      [if RefOf(nodes[0]) == target then WithName(nodes[0], name)
       else if nodes[0].Item? then nodes[0]
       else nodes[0].(children := RenameIn(nodes[0].children, target, name))]
      + RenameIn(nodes[1..], target, name)
  }

  lemma RenameStep(nodes: seq<EditorNode>, i: nat, target: NodeRef, name: Option<string>)
    requires i < |nodes|
    ensures RenameIn(nodes[i..], target, name) ==
            [if RefOf(nodes[i]) == target then WithName(nodes[i], name)
             else if nodes[i].Item? then nodes[i]
             else nodes[i].(children := RenameIn(nodes[i].children, target, name))]
            + RenameIn(nodes[i + 1..], target, name)
    ensures Has(nodes[i..], target) <==>
            RefOf(nodes[i]) == target || (nodes[i].Group? && Has(nodes[i].children, target)) || Has(nodes[i + 1..], target)
  {
    assert nodes[i..][1..] == nodes[i + 1..];
  }

  method RenameWalk(nodes: seq<EditorNode>, target: NodeRef, name: Option<string>)
      returns (renamed: seq<EditorNode>, found: bool)
    ensures renamed == RenameIn(nodes, target, name)
    ensures found <==> Has(nodes, target)
    decreases nodes
  {
    renamed, found := [], false;
    for i := 0 to |nodes|
      invariant renamed + RenameIn(nodes[i..], target, name) == RenameIn(nodes, target, name)
      invariant found || Has(nodes[i..], target) <==> Has(nodes, target)
    {
      var node := nodes[i];
      RenameStep(nodes, i, target, name);
      Reassociate(renamed, RenameIn(nodes[i..], target, name), RenameIn(nodes[i + 1..], target, name));
      if RefOf(node) == target {
        renamed, found := renamed + [WithName(node, name)], true;
      } else if node.Item? {
        renamed := renamed + [node];
      } else {
        var children, inner := RenameWalk(node.children, target, name);
        renamed, found := renamed + [node.(children := children)], found || inner;
      }
    }
  }

  lemma Reassociate(done: seq<EditorNode>, left: seq<EditorNode>, rest: seq<EditorNode>)
    ensures left != [] && left == [left[0]] + rest ==> done + left == done + [left[0]] + rest
  {
  }

  method RenameEditorNode(nodes: seq<EditorNode>, target: NodeRef, rawName: string) returns (r: Option<seq<EditorNode>>)
    ensures r == if Has(nodes, target) then Some(RenameIn(nodes, target, NameFrom(rawName))) else None
    ensures NameGiven(rawName, NameFrom(rawName))
  {
    NameMeaning(rawName);
    var renamed, found := RenameWalk(nodes, target, NameFrom(rawName));
    r := if found then Some(renamed) else None;
  }

  lemma {:induction false} RenameKeepsCounts(nodes: seq<EditorNode>, target: NodeRef, name: Option<string>, r: NodeRef)
    ensures Count(RenameIn(nodes, target, name), r) == Count(nodes, r)
  {
    if nodes != [] {
      RenameKeepsCounts(nodes[1..], target, name, r);
      if nodes[0].Group? {
        RenameKeepsCounts(nodes[0].children, target, name, r);
      }
    }
  }

  /** Every node with that identity shows that name override. */
  ghost predicate Named(nodes: seq<EditorNode>, target: NodeRef, name: Option<string>) {
    forall i :: 0 <= i < |nodes| ==>
      && (RefOf(nodes[i]) == target ==> nodes[i].nameOverride == name)
      && (nodes[i].Group? ==> Named(nodes[i].children, target, name))
  }

  lemma {:induction false} RenameSets(nodes: seq<EditorNode>, target: NodeRef, name: Option<string>)
    requires Unique(nodes)
    ensures Named(RenameIn(nodes, target, name), target, name)
  {
    if nodes != [] {
      UniqueParts(nodes);
      RenameSets(nodes[1..], target, name);
      if nodes[0].Group? {
        if RefOf(nodes[0]) == target {
          AbsentIsNamed(nodes[0].children, target, name);
        } else {
          RenameSets(nodes[0].children, target, name);
        }
      }
      var r := RenameIn(nodes, target, name);
      assert r[1..] == RenameIn(nodes[1..], target, name);
      assert forall i :: 1 <= i < |r| ==> r[i] == r[1..][i - 1];
    }
  }

  lemma {:induction false} AbsentIsNamed(nodes: seq<EditorNode>, target: NodeRef, name: Option<string>)
    requires !Has(nodes, target)
    ensures Named(nodes, target, name)
  {
    if nodes != [] {
      AbsentIsNamed(nodes[1..], target, name);
      if nodes[0].Group? {
        AbsentIsNamed(nodes[0].children, target, name);
      }
      assert forall i :: 1 <= i < |nodes| ==> nodes[i] == nodes[1..][i - 1];
    }
  }

  /** Renaming back to the name a node had restores the tree: nothing else was touched. */
  lemma {:induction false} RenameBack(nodes: seq<EditorNode>, target: NodeRef, name: Option<string>, was: Option<string>)
    requires Named(nodes, target, was)
    ensures RenameIn(RenameIn(nodes, target, name), target, was) == nodes
  {
    if nodes != [] {
      assert forall i :: 0 <= i < |nodes[1..]| ==> nodes[1..][i] == nodes[i + 1];
      RenameBack(nodes[1..], target, name, was);
      if nodes[0].Group? {
        RenameBack(nodes[0].children, target, name, was);
      }
      var r := RenameIn(nodes, target, name);
      assert r[1..] == RenameIn(nodes[1..], target, name);
    }
  }

  // ---------------------------------------------------------------- every edit keeps the tree well-formed

  lemma MoveKeepsWellFormed(defaults: seq<NavItem>, nodes: seq<EditorNode>, drag: NodeRef, target: DropTarget)
    requires WellFormed(defaults, nodes) && Move(nodes, drag, target).Some?
    ensures WellFormed(defaults, Move(nodes, drag, target).value)
  {
    MoveSpec(nodes, drag, target);
  }

  lemma RenameKeepsWellFormed(defaults: seq<NavItem>, nodes: seq<EditorNode>, target: NodeRef, name: Option<string>)
    requires WellFormed(defaults, nodes)
    ensures WellFormed(defaults, RenameIn(nodes, target, name))
  {
    forall r {
      RenameKeepsCounts(nodes, target, name, r);
    }
  }

  lemma CreateKeepsWellFormed(defaults: seq<NavItem>, nodes: seq<EditorNode>, parent: Option<Key>, nodeKey: Key, name: Option<string>)
    requires WellFormed(defaults, nodes) && Create(nodes, parent, nodeKey, name).Some?
    requires IsCustomGroupNodeKey(nodeKey) && !Has(nodes, GroupRef(nodeKey))
    ensures WellFormed(defaults, Create(nodes, parent, nodeKey, name).value)
  {
    var created := Create(nodes, parent, nodeKey, name).value;
    forall r ensures Count(created, r) == Count(nodes, r) + Indicator(r == GroupRef(nodeKey)) {
      CreateCount(nodes, parent, nodeKey, name, r);
    }
    assert forall r :: Has(created, r) <==> Has(nodes, r) || r == GroupRef(nodeKey);
  }

  /** Deletion keeps the tree well-formed exactly when the emptied group is not a code default. */
  lemma DeleteKeepsWellFormed(defaults: seq<NavItem>, nodes: seq<EditorNode>, nodeKey: Key)
    requires WellFormed(defaults, nodes) && Delete(nodes, nodeKey).Some?
    ensures WellFormed(defaults, Delete(nodes, nodeKey).value) <==> !IsDefaultGroup(defaults, nodeKey)
  {
    DeleteSpec(nodes, nodeKey);
    var less := Delete(nodes, nodeKey).value;
    assert forall r :: Count(nodes, r) == Count(less, r) + Indicator(r == GroupRef(nodeKey));
    assert forall r :: Has(less, r) ==> Has(nodes, r);
    assert forall r :: r != GroupRef(nodeKey) && Has(nodes, r) ==> Has(less, r);
    assert Count(nodes, GroupRef(nodeKey)) <= 1;
    assert !Has(less, GroupRef(nodeKey));
  }
}
