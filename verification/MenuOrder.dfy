/** Rows of one container and their order: `comparePlacement` under a stable sort (merge.ts:28-36, 254-267). */
module MenuOrder {
  import opened Options
  import opened MenuTypes
  import opened MenuMerge
  import Sorting

  datatype Row = ItemEntry(item: ResolvedItem) | GroupEntry(group: ResolvedGroup) {
    function Order(): Rank {
      if ItemEntry? then item.order else group.order
    }

    function DefaultIndex(): Rank {
      if ItemEntry? then item.defaultIndex else group.defaultIndex
    }

    function Parent(): Option<Key> {
      if ItemEntry? then item.parentKey else group.parentKey
    }
  }

  /** `comparePlacement(a, b) < 0`; two infinite default indexes tie. */
  predicate Before(a: Row, b: Row) {
    a.Order().Less(b.Order()) || (a.Order() == b.Order() && a.DefaultIndex().Less(b.DefaultIndex()))
  }

  /** Not out of order; ties stay as they are. */
  function InOrder(): (Row, Row) -> bool {
    (x: Row, y: Row) => !Before(y, x)
  }

  /** The stable sort of `Array.prototype.sort`. */
  function Sort(s: seq<Row>): seq<Row> {
    Sorting.Sort(s, InOrder())
  }

  ghost predicate Sorted(s: seq<Row>) {
    Sorting.Sorted(s, InOrder())
  }

  lemma InOrderIsPreorder()
    ensures Sorting.Preorder(InOrder())
  {
    var le := InOrder();
    assert forall x: Row, y: Row :: le(x, y) <==> !Before(y, x);
    forall x: Row, y: Row, z: Row | !Before(y, x) && !Before(z, y) ensures !Before(z, x) {
    }
  }

  lemma SortSpec(s: seq<Row>)
    ensures Sorted(Sort(s)) && multiset(Sort(s)) == multiset(s)
  {
    InOrderIsPreorder();
    Sorting.SortSorts(s, InOrder());
    Sorting.SortMembers(s, InOrder());
  }

  lemma SortMembers(s: seq<Row>)
    ensures forall x :: x in Sort(s) <==> x in s
  {
    Sorting.SortHolds(s, InOrder());
  }

  ghost predicate StrictlySorted(s: seq<Row>) {
    forall i, j :: 0 <= i < j < |s| ==> Before(s[i], s[j])
  }

  /** A strictly ordered sequence is what any rearrangement of it sorts to. */
  lemma SortedUnique(a: seq<Row>, b: seq<Row>)
    requires Sorted(a) && StrictlySorted(b) && multiset(a) == multiset(b)
    ensures a == b
  {
    var le := InOrder();
    forall x, y | x in b && y in b && le(x, y) && le(y, x) ensures x == y {
      var i :| 0 <= i < |b| && b[i] == x;
      var j :| 0 <= j < |b| && b[j] == y;
      assert i == j || Before(x, y) || Before(y, x);
    }
    Sorting.SortedUnique(b, a, le);
  }

  // ---------------------------------------------------------------- filtering commutes with sorting

  predicate Kept(x: Row, used: set<Key>) {
    x.ItemEntry? || x.group.nodeKey in used
  }

  function Keep(s: seq<Row>, used: set<Key>): (r: seq<Row>)
    ensures forall x :: x in r <==> x in s && Kept(x, used)
  {
    Sorting.Filter(s, (x: Row) => Kept(x, used))
  }

  lemma KeepCons(x: Row, s: seq<Row>, used: set<Key>)
    ensures Keep([x] + s, used) == if Kept(x, used) then [x] + Keep(s, used) else Keep(s, used)
  {
    Sorting.FilterCons(x, s, (x: Row) => Kept(x, used));
  }

  /** Dropping the unused groups before sorting or after it gives the same list. */
  lemma KeepSort(s: seq<Row>, used: set<Key>)
    ensures Keep(Sort(s), used) == Sort(Keep(s, used))
  {
    InOrderIsPreorder();
    Sorting.SortFilter(s, InOrder(), (x: Row) => Kept(x, used));
  }

  // ---------------------------------------------------------------- the rows of a container

  function ItemsUnder(items: seq<ResolvedItem>, parent: Option<Key>): (r: seq<Row>)
    ensures forall x :: x in r <==> x.ItemEntry? && x.item in items && x.item.parentKey == parent
  {
    if items == [] then []
    else (if items[0].parentKey == parent then [ItemEntry(items[0])] else []) + ItemsUnder(items[1..], parent)
  }

  function GroupsUnder(groups: seq<ResolvedGroup>, parent: Option<Key>): (r: seq<Row>)
    ensures forall x :: x in r <==> x.GroupEntry? && x.group in groups && x.group.parentKey == parent
  {
    if groups == [] then []
    else (if groups[0].parentKey == parent then [GroupEntry(groups[0])] else []) + GroupsUnder(groups[1..], parent)
  }

  predicate IsRow(m: ResolvedMenu, x: Row) {
    if x.ItemEntry? then x.item in m.items else x.group in m.groups
  }

  function RowsUnder(m: ResolvedMenu, parent: Option<Key>): (r: seq<Row>)
    ensures forall x :: x in r <==> IsRow(m, x) && x.Parent() == parent
  {
    ItemsUnder(m.items, parent) + GroupsUnder(m.groups, parent)
  }

  /** Kept groups and items are listed once each. */
  ghost predicate Tidy(m: ResolvedMenu) {
    && Forest(m)
    && (forall i, j :: 0 <= i < j < |m.items| ==> m.items[i].itemKey != m.items[j].itemKey)
  }

  lemma ItemsUnderOnce(items: seq<ResolvedItem>, parent: Option<Key>)
    requires forall i, j :: 0 <= i < j < |items| ==> items[i].itemKey != items[j].itemKey
    ensures NoDup(ItemsUnder(items, parent))
  {
    if items != [] {
      ItemsUnderOnce(items[1..], parent);
      assert forall x :: x in ItemsUnder(items[1..], parent) ==> x != ItemEntry(items[0]);
    }
  }

  lemma GroupsUnderOnce(groups: seq<ResolvedGroup>, parent: Option<Key>)
    requires forall i, j :: 0 <= i < j < |groups| ==> groups[i].nodeKey != groups[j].nodeKey
    ensures NoDup(GroupsUnder(groups, parent))
  {
    if groups != [] {
      GroupsUnderOnce(groups[1..], parent);
      assert forall x :: x in GroupsUnder(groups[1..], parent) ==> x != GroupEntry(groups[0]);
    }
  }

  lemma NoDupConcat<T>(a: seq<T>, b: seq<T>)
    requires NoDup(a) && NoDup(b) && forall x :: x in a ==> x !in b
    ensures NoDup(a + b)
  {
    var s := a + b;
    forall i, j | 0 <= i < j < |s| ensures s[i] != s[j] {
      if i < |a| <= j {
        assert s[i] in a && s[j] in b;
      }
    }
  }

  lemma RowsUnderOnce(m: ResolvedMenu, parent: Option<Key>)
    requires Tidy(m)
    ensures NoDup(RowsUnder(m, parent))
  {
    ItemsUnderOnce(m.items, parent);
    GroupsUnderOnce(m.groups, parent);
    NoDupConcat(ItemsUnder(m.items, parent), GroupsUnder(m.groups, parent));
  }

  lemma OnceCounts<T>(s: seq<T>)
    requires NoDup(s)
    ensures forall x :: multiset(s)[x] == if x in s then 1 else 0
  {
    if s != [] {
      assert s == [s[0]] + s[1..];
      OnceCounts(s[1..]);
      assert s[0] !in s[1..];
    }
  }

  lemma SortOnce(s: seq<Row>)
    requires NoDup(s)
    ensures NoDup(Sort(s))
  {
    Sorting.SortDistinct(s, InOrder(), (x: Row) => x);
  }
}
