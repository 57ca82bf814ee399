/** Tree surgery of the menu editor: find, remove, insert, move, create, delete, rename (editor-state.ts:73-374). */
module EditorMoves {
  import opened Options
  import opened MenuTypes
  import opened MenuResolve
  import opened MenuMerge
  import opened EditorTree

  lemma {:induction false} CountConcat(a: seq<EditorNode>, b: seq<EditorNode>, x: NodeRef)
    ensures Count(a + b, x) == Count(a, x) + Count(b, x)
  {
    if a == [] {
      assert a + b == b;
    } else {
      assert (a + b)[1..] == a[1..] + b;
      CountConcat(a[1..], b, x);
    }
  }

  // ---------------------------------------------------------------- finding and removing

  function FindIndex(nodes: seq<EditorNode>, drag: NodeRef): (i: nat)
    ensures i <= |nodes|
    ensures i < |nodes| ==> RefOf(nodes[i]) == drag
    ensures forall j :: 0 <= j < i ==> RefOf(nodes[j]) != drag
  {
    if nodes == [] || RefOf(nodes[0]) == drag then 0 else 1 + FindIndex(nodes[1..], drag)
  }

  function FindGroup(nodes: seq<EditorNode>, k: Key): (r: Option<EditorNode>)
    ensures r.Some? ==> r.value.Group? && r.value.nodeKey == k
  {
    if nodes == [] then None
    else if nodes[0].Item? then FindGroup(nodes[1..], k)
    else if nodes[0].nodeKey == k then Some(nodes[0])
    else
      var found := FindGroup(nodes[0].children, k);
      if found.Some? then found else FindGroup(nodes[1..], k)
  }

  /** What `removeNode` returns; container `None` is the top level. */
  datatype Removal = Removal(nodes: seq<EditorNode>, removed: EditorNode, container: Option<Key>, index: nat)

  function Remove(nodes: seq<EditorNode>, drag: NodeRef, container: Option<Key>): Option<Removal>
    decreases nodes, 1
  {
    var i := FindIndex(nodes, drag);
    if i < |nodes| then Some(Removal(nodes[..i] + nodes[i + 1..], nodes[i], container, i))
    else RemoveBelow(nodes, drag)
  }

  /** The loop of `removeNode` over the groups of one level. */
  function RemoveBelow(nodes: seq<EditorNode>, drag: NodeRef): Option<Removal>
    decreases nodes, 0
  {
    if nodes == [] then None
    else
      var inner := if nodes[0].Group? then Remove(nodes[0].children, drag, Some(nodes[0].nodeKey)) else None;
      if inner.Some? then
        Some(inner.value.(nodes := [nodes[0].(children := inner.value.nodes)] + nodes[1..]))
      else
        var later := RemoveBelow(nodes[1..], drag);
        if later.Some? then Some(later.value.(nodes := [nodes[0]] + later.value.nodes)) else None
  }

  lemma SplitAt(nodes: seq<EditorNode>, i: nat, x: NodeRef)
    requires i < |nodes|
    ensures Count(nodes, x) == Count(nodes[..i] + nodes[i + 1..], x) + NodeCount(nodes[i], x)
  {
    assert nodes == nodes[..i] + ([nodes[i]] + nodes[i + 1..]);
    CountConcat(nodes[..i], [nodes[i]] + nodes[i + 1..], x);
    CountConcat(nodes[..i], nodes[i + 1..], x);
  }

  lemma TopIsThere(nodes: seq<EditorNode>, i: nat)
    requires i < |nodes|
    ensures Has(nodes, RefOf(nodes[i]))
  {
    SplitAt(nodes, i, RefOf(nodes[i]));
  }

  /** Removal finds the node whenever it is there, and parts the tree into the rest and the whole subtree. */
  lemma {:induction false} RemoveParts(nodes: seq<EditorNode>, drag: NodeRef, container: Option<Key>, x: NodeRef)
    ensures var r := Remove(nodes, drag, container);
      && (r.Some? <==> Has(nodes, drag))
      && (r.Some? ==> RefOf(r.value.removed) == drag)
      && (r.Some? ==> Count(nodes, x) == Count(r.value.nodes, x) + NodeCount(r.value.removed, x))
      && (r.Some? && r.value.container != container ==>
            r.value.container.Some? && Has(r.value.nodes, GroupRef(r.value.container.value)))
    decreases nodes, 1
  {
    var i := FindIndex(nodes, drag);
    if i < |nodes| {
      SplitAt(nodes, i, x);
      TopIsThere(nodes, i);
    } else {
      RemoveBelowParts(nodes, drag, x);
    }
  }

  lemma {:induction false} RemoveBelowParts(nodes: seq<EditorNode>, drag: NodeRef, x: NodeRef)
    requires forall i :: 0 <= i < |nodes| ==> RefOf(nodes[i]) != drag
    ensures var r := RemoveBelow(nodes, drag);
      && (r.Some? <==> Has(nodes, drag))
      && (r.Some? ==> RefOf(r.value.removed) == drag)
      && (r.Some? ==> Count(nodes, x) == Count(r.value.nodes, x) + NodeCount(r.value.removed, x))
      && (r.Some? ==> r.value.container.Some? && Has(r.value.nodes, GroupRef(r.value.container.value)))
    decreases nodes, 0
  {
    if nodes != [] {
      var head, rest := nodes[0], nodes[1..];
      var inner := if head.Group? then Remove(head.children, drag, Some(head.nodeKey)) else None;
      if head.Group? {
        RemoveParts(head.children, drag, Some(head.nodeKey), x);
      }
      if inner.None? {
        RemoveBelowParts(rest, drag, x);
      }
    }
  }

  lemma {:induction false} FindGroupSpec(nodes: seq<EditorNode>, k: Key, x: NodeRef)
    ensures FindGroup(nodes, k).Some? <==> Has(nodes, GroupRef(k))
    ensures FindGroup(nodes, k).Some? ==> NodeCount(FindGroup(nodes, k).value, x) <= Count(nodes, x)
  {
    if nodes != [] {
      FindGroupSpec(nodes[1..], k, x);
      if nodes[0].Group? {
        FindGroupSpec(nodes[0].children, k, x);
      }
    }
  }

  // ---------------------------------------------------------------- inserting

  /** The start position `splice` uses: clipped to the length, negative counted from the end. */
  function Position(index: int, length: nat): (p: nat)
    ensures p <= length
  {
    var i := if index < length then index else length;
    if i >= 0 then i else if length + i > 0 then length + i else 0
  }

  function InsertAt(list: seq<EditorNode>, index: int, node: EditorNode): seq<EditorNode> {
    var p := Position(index, |list|);
    list[..p] + [node] + list[p..]
  }

  function InsertInto(nodes: seq<EditorNode>, k: Key, index: int, node: EditorNode): (r: seq<EditorNode>)
    ensures |r| == |nodes| && forall i :: 0 <= i < |nodes| ==> RefOf(r[i]) == RefOf(nodes[i])
  {
    if nodes == [] then []
    else
      [if nodes[0].Item? then nodes[0]
       else if nodes[0].nodeKey == k then nodes[0].(children := InsertAt(nodes[0].children, index, node))
       else nodes[0].(children := InsertInto(nodes[0].children, k, index, node))]
      + InsertInto(nodes[1..], k, index, node)
  }

  /** Insertion into a container, named as `Removal.container` is. */
  function InsertUnder(nodes: seq<EditorNode>, container: Option<Key>, index: int, node: EditorNode): seq<EditorNode> {
    if container.None? then InsertAt(nodes, index, node) else InsertInto(nodes, container.value, index, node)
  }

  /** The children of a container of the tree; `None` when there is no such group. */
  function ChildrenOf(nodes: seq<EditorNode>, container: Option<Key>): Option<seq<EditorNode>> {
    if container.None? then Some(nodes)
    else
      var found := FindGroup(nodes, container.value);
      if found.Some? then Some(found.value.children) else None
  }

  lemma InsertAtCount(list: seq<EditorNode>, index: int, node: EditorNode, x: NodeRef)
    ensures Count(InsertAt(list, index, node), x) == Count(list, x) + NodeCount(node, x)
  {
    var p, r := Position(index, |list|), InsertAt(list, index, node);
    SplitAt(r, p, x);
    assert r[..p] + r[p + 1..] == list;
  }

  /** Inserting into a group that is not there changes nothing. */
  lemma {:induction false} InsertIntoAbsent(nodes: seq<EditorNode>, k: Key, index: int, node: EditorNode)
    requires !Has(nodes, GroupRef(k))
    ensures InsertInto(nodes, k, index, node) == nodes
  {
    if nodes != [] {
      InsertIntoAbsent(nodes[1..], k, index, node);
      if nodes[0].Group? {
        InsertIntoAbsent(nodes[0].children, k, index, node);
      }
    }
  }

  lemma {:induction false} InsertIntoCount(nodes: seq<EditorNode>, k: Key, index: int, node: EditorNode, x: NodeRef)
    requires Count(nodes, GroupRef(k)) == 1
    ensures Count(InsertInto(nodes, k, index, node), x) == Count(nodes, x) + NodeCount(node, x)
  {
    var head, rest := nodes[0], nodes[1..];
    if Has(rest, GroupRef(k)) {
      InsertIntoCount(rest, k, index, node, x);
      if head.Group? {
        InsertIntoAbsent(head.children, k, index, node);
      }
    } else {
      InsertIntoAbsent(rest, k, index, node);
      if head.nodeKey == k {
        InsertAtCount(head.children, index, node, x);
      } else {
        InsertIntoCount(head.children, k, index, node, x);
      }
    }
  }

  // ---------------------------------------------------------------- remove and insert undo each other

  lemma InsertAtFound(list: seq<EditorNode>, index: int, node: EditorNode)
    requires !Has(list, RefOf(node))
    ensures var p, r := Position(index, |list|), InsertAt(list, index, node);
      FindIndex(r, RefOf(node)) == p && p < |r| && r[p] == node && r[..p] + r[p + 1..] == list
  {
    var p, r := Position(index, |list|), InsertAt(list, index, node);
    assert r[..p] + r[p + 1..] == list;
    forall j | 0 <= j < p ensures RefOf(r[j]) != RefOf(node) {
      TopIsThere(list, j);
      assert r[j] == list[j];
    }
    assert r[p] == node;
  }

  lemma {:induction false} RemoveAfterInsertInto(nodes: seq<EditorNode>, k: Key, index: int, node: EditorNode)
    requires Count(nodes, GroupRef(k)) == 1 && !Has(nodes, RefOf(node))
    ensures FindGroup(nodes, k).Some?
    ensures RemoveBelow(InsertInto(nodes, k, index, node), RefOf(node)) ==
            Some(Removal(nodes, node, Some(k), Position(index, |FindGroup(nodes, k).value.children|)))
    decreases nodes, 0
  {
    var head, rest := nodes[0], nodes[1..];
    var inserted := InsertInto(nodes, k, index, node);
    assert inserted[1..] == InsertInto(rest, k, index, node);
    assert nodes == [head] + rest;
    if Has(rest, GroupRef(k)) {
      RemoveAfterInsertInto(rest, k, index, node);
      if head.Group? {
        InsertIntoAbsent(head.children, k, index, node);
        FindGroupSpec(head.children, k, RefOf(node));
        RemoveParts(head.children, RefOf(node), Some(head.nodeKey), RefOf(node));
      }
    } else {
      InsertIntoAbsent(rest, k, index, node);
      if head.nodeKey == k {
        InsertAtFound(head.children, index, node);
      } else {
        RemoveAfterInsertInto(head.children, k, index, node);
        NotAtThisLevel(head.children, k, index, node);
      }
    }
  }

  lemma NotAtThisLevel(nodes: seq<EditorNode>, k: Key, index: int, node: EditorNode)
    requires !Has(nodes, RefOf(node))
    ensures FindIndex(InsertInto(nodes, k, index, node), RefOf(node)) == |nodes|
  {
    var i := FindIndex(InsertInto(nodes, k, index, node), RefOf(node));
    if i < |nodes| {
      TopIsThere(nodes, i);
    }
  }

  /** Removing what was just inserted finds it at the asked position and gives the old tree back. */
  lemma RemoveAfterInsert(nodes: seq<EditorNode>, container: Option<Key>, index: int, node: EditorNode)
    requires !Has(nodes, RefOf(node))
    requires container.Some? ==> Count(nodes, GroupRef(container.value)) == 1
    ensures ChildrenOf(nodes, container).Some?
    ensures Remove(InsertUnder(nodes, container, index, node), RefOf(node), None) ==
            Some(Removal(nodes, node, container, Position(index, |ChildrenOf(nodes, container).value|)))
  {
    if container.None? {
      InsertAtFound(nodes, index, node);
    } else {
      RemoveAfterInsertInto(nodes, container.value, index, node);
      NotAtThisLevel(nodes, container.value, index, node);
    }
  }

  lemma UniqueParts(nodes: seq<EditorNode>)
    requires Unique(nodes) && nodes != []
    ensures Unique(nodes[1..])
    ensures nodes[0].Group? ==> Unique(nodes[0].children) && !Has(nodes[0].children, GroupRef(nodes[0].nodeKey))
    ensures forall r :: NodeCount(nodes[0], r) > 0 ==> !Has(nodes[1..], r)
  {
    assert forall r :: Count(nodes, r) == NodeCount(nodes[0], r) + Count(nodes[1..], r);
    if nodes[0].Group? {
      forall r ensures Count(nodes[0].children, r) + Indicator(RefOf(nodes[0]) == r) <= 1 {
        assert Count(nodes, r) <= 1;
      }
    }
  }

  lemma InsertAtBack(list: seq<EditorNode>, i: nat)
    requires i < |list|
    ensures InsertAt(list[..i] + list[i + 1..], i, list[i]) == list
  {
    var less := list[..i] + list[i + 1..];
    assert less[..i] == list[..i] && less[i..] == list[i + 1..];
  }

  lemma {:induction false} InsertAfterRemoveBelow(nodes: seq<EditorNode>, drag: NodeRef)
    requires Unique(nodes) && RemoveBelow(nodes, drag).Some?
    ensures var r := RemoveBelow(nodes, drag).value;
      r.container.Some? && Has(nodes, GroupRef(r.container.value)) &&
      InsertInto(r.nodes, r.container.value, r.index, r.removed) == nodes
    decreases nodes, 0
  {
    var head, rest := nodes[0], nodes[1..];
    var r := RemoveBelow(nodes, drag).value;
    assert nodes == [head] + rest;
    UniqueParts(nodes);
    var inner := if head.Group? then Remove(head.children, drag, Some(head.nodeKey)) else None;
    if inner.Some? {
      assert r.nodes[1..] == rest;
      var i := FindIndex(head.children, drag);
      if i < |head.children| {
        InsertAtBack(head.children, i);
      } else {
        InsertAfterRemoveBelow(head.children, drag);
      }
      InsertIntoAbsent(rest, r.container.value, r.index, r.removed);
    } else {
      assert r.nodes[1..] == RemoveBelow(rest, drag).value.nodes;
      InsertAfterRemoveBelow(rest, drag);
      if head.Group? {
        InsertIntoAbsent(head.children, r.container.value, r.index, r.removed);
      }
    }
  }

  /** Putting a removed node back where it was restores the tree. */
  lemma InsertAfterRemove(nodes: seq<EditorNode>, drag: NodeRef)
    requires Unique(nodes) && Has(nodes, drag)
    ensures Remove(nodes, drag, None).Some?
    ensures var r := Remove(nodes, drag, None).value;
      InsertUnder(r.nodes, r.container, r.index, r.removed) == nodes
  {
    RemoveParts(nodes, drag, None, drag);
    var i := FindIndex(nodes, drag);
    if i < |nodes| {
      InsertAtBack(nodes, i);
    } else {
      InsertAfterRemoveBelow(nodes, drag);
    }
  }
}
