/**
 * The shell's sidebar (AppShell.tsx:45-114) before and after the first save over an empty table.
 * A container of the sidebar holds the rows of the menu in the order in which their items first come up (`FirstRows`);
 * in the default order and in the order of the saved menu that is the order of the sorted rows,
 * so the two sidebars are equal even where the items themselves changed order.
 * `MenuVisible` says what happens to the sidebar of a user who does not see every item.
 */
module MenuSidebar {
  import opened Options
  import opened MenuTypes
  import opened MenuResolve
  import opened MenuMerge
  import opened MenuOrder
  import opened EditorTree
  import opened MenuApply
  import opened MenuFirstSave
  import Seqs

  // ---------------------------------------------------------------- the sidebar

  datatype Entry = Leaf(key: Key, path: string, caption: string) | Sub(key: Key, name: string)

  /** The entries at the top and in each group. A group is known by its joined path, so paths that join alike share it. */
  datatype Sidebar = Sidebar(top: seq<Entry>, groups: map<Key, seq<Entry>>) {
    predicate Has(c: Option<Key>) {
      c.Some? ==> c.value in groups
    }

    function At(c: Option<Key>): seq<Entry>
      requires Has(c)
    {
      if c.None? then top else groups[c.value]
    }

    function Push(c: Option<Key>, entry: Entry): Sidebar
      requires Has(c)
    {
      if c.None? then this.(top := top + [entry]) else this.(groups := groups[c.value := groups[c.value] + [entry]])
    }

    /** The group `name` inside `c`, created if its key is not known. */
    function Enter(c: Option<Key>, name: string): Sidebar
      requires Has(c)
    {
      var k := ChildKey(c, name);
      if k in groups then this
      else
        var pushed := Push(c, Sub(k, name));
        pushed.(groups := pushed.groups[k := []])
    }
  }

  /** The sidebar with the groups of `path` created below `c`. */
  function Open(s: Sidebar, c: Option<Key>, path: seq<string>): (r: Sidebar)
    requires s.Has(c)
    ensures r.Has(JoinPath(c, path))
    decreases |path|
  {
    if path == [] then s else Open(s.Enter(c, path[0]), Some(ChildKey(c, path[0])), path[1..])
  }

  function JoinPath(c: Option<Key>, path: seq<string>): Option<Key>
    decreases |path|
  {
    if path == [] then c else JoinPath(Some(ChildKey(c, path[0])), path[1..])
  }

  function LeafOf(item: NavItem): Entry {
    Leaf(item.key, item.path, item.caption)
  }

  function Insert(s: Sidebar, path: seq<string>, leaf: Entry): Sidebar {
    Open(s, None, path).Push(JoinPath(None, path), leaf)
  }

  function SidebarOf(items: seq<NavItem>): Sidebar {
    if items == [] then Sidebar([], map[])
    else
      var last := items[|items| - 1];
      Insert(SidebarOf(items[..|items| - 1]), ShownPath(last), LeafOf(last))
  }

  /** AppShell.tsx:88-114 as written, without the home entry. */
  method MenuItems(items: seq<NavItem>) returns (sidebar: Sidebar)
    ensures sidebar == SidebarOf(items)
  {
    sidebar := Sidebar([], map[]);
    for i := 0 to |items|
      invariant sidebar == SidebarOf(items[..i])
    {
      var item := items[i];
      var path := ShownPath(item);
      var siblings: Option<Key> := None;
      ghost var before := sidebar;
      for depth := 0 to |path|
        invariant sidebar.Has(siblings)
        invariant JoinPath(None, path) == JoinPath(siblings, path[depth..])
        invariant Open(before, None, path) == Open(sidebar, siblings, path[depth..])
      {
        var key := ChildKey(siblings, path[depth]);
        assert path[depth..][1..] == path[depth + 1..];
        if key !in sidebar.groups {
          sidebar := sidebar.Push(siblings, Sub(key, path[depth]));
          sidebar := sidebar.(groups := sidebar.groups[key := []]);
        }
        siblings := Some(key);
      }
      sidebar := sidebar.Push(siblings, LeafOf(item));
      assert items[..i + 1][..i] == items[..i];
    }
    assert items[..|items|] == items;
  }

  // ---------------------------------------------------------------- the row of a container an item belongs to

  ghost predicate Belongs(defaults: seq<NavItem>, m: ResolvedMenu, c: Option<Key>, i: int, row: Row) {
    IsRow(m, row) && row.Parent() == c && Under(defaults, row, i)
  }

  ghost function RowAt(defaults: seq<NavItem>, m: ResolvedMenu, c: Option<Key>, i: int): (r: Option<Row>)
    ensures r.Some? ==> Belongs(defaults, m, c, i, r.value)
    ensures r.None? ==> forall row :: !Belongs(defaults, m, c, i, row)
  {
    if row :| Belongs(defaults, m, c, i, row) then Some(row) else None
  }

  lemma RowAtIs(defaults: seq<NavItem>, m: ResolvedMenu, c: Option<Key>, i: int, row: Row)
    requires ShowsDefaults(defaults, m) && UniqueKeys(defaults) && Belongs(defaults, m, c, i, row)
    ensures RowAt(defaults, m, c, i) == Some(row)
  {
    SiblingsAreApart(defaults, m, row, RowAt(defaults, m, c, i).value, i);
  }

  /** The rows of a container in the order in which items of theirs first come up. */
  ghost function FirstRows(defaults: seq<NavItem>, m: ResolvedMenu, c: Option<Key>, order: seq<int>): seq<Row> {
    if order == [] then []
    else
      var before := FirstRows(defaults, m, c, order[..|order| - 1]);
      var row := RowAt(defaults, m, c, order[|order| - 1]);
      if row.Some? && row.value !in before then before + [row.value] else before
  }

  lemma FirstRowsNext(defaults: seq<NavItem>, m: ResolvedMenu, c: Option<Key>, order: seq<int>, i: int)
    ensures var row, before := RowAt(defaults, m, c, i), FirstRows(defaults, m, c, order);
      FirstRows(defaults, m, c, order + [i]) == if row.Some? && row.value !in before then before + [row.value] else before
  {
    assert (order + [i])[..|order|] == order;
  }

  lemma {:induction false} FirstRowsMembers(defaults: seq<NavItem>, m: ResolvedMenu, c: Option<Key>, order: seq<int>, row: Row)
    ensures row in FirstRows(defaults, m, c, order) <==> exists i :: i in order && RowAt(defaults, m, c, i) == Some(row)
  {
    if order != [] {
      var front, last := order[..|order| - 1], order[|order| - 1];
      assert order == front + [last];
      FirstRowsMembers(defaults, m, c, front, row);
    }
  }

  // ---------------------------------------------------------------- in default order the rows come up sorted

  ghost function Upto(n: nat): (order: seq<int>)
    ensures IsDefaultOrder(order, n)
  {
    seq(n, i => i)
  }

  ghost predicate SortedBelow(m: ResolvedMenu, rows: seq<Row>, n: nat) {
    && StrictlySorted(rows)
    && forall row :: row in rows ==> IsRow(m, row) && row.Order() == Infinite && row.DefaultIndex().Less(Fin(n))
  }

  lemma SortedBelowNext(m: ResolvedMenu, rows: seq<Row>, n: nat, row: Row)
    requires SortedBelow(m, rows, n) && IsRow(m, row) && row.Order() == Infinite && row.DefaultIndex() == Fin(n)
    ensures SortedBelow(m, rows + [row], n + 1)
  {
    forall x | x in rows ensures Before(x, row) {
    }
  }

  /** A row's index is that of its first item, so the rows of a container come up by index. */
  lemma {:induction false} DefaultRowsAreSorted(defaults: seq<NavItem>, m: ResolvedMenu, c: Option<Key>, n: nat)
    requires ShowsDefaults(defaults, m) && UniqueKeys(defaults) && n <= |defaults|
    ensures SortedBelow(m, FirstRows(defaults, m, c, Upto(n)), n)
  {
    if n > 0 {
      var before, row := FirstRows(defaults, m, c, Upto(n - 1)), RowAt(defaults, m, c, n - 1);
      assert Upto(n) == Upto(n - 1) + [n - 1];
      FirstRowsNext(defaults, m, c, Upto(n - 1), n - 1);
      DefaultRowsAreSorted(defaults, m, c, n - 1);
      if row.Some? && row.value !in before {
        FirstIndexIsHere(defaults, m, c, n, row.value);
        SortedBelowNext(m, before, n - 1, row.value);
      }
    }
  }

  lemma {:induction false} FirstIndexIsHere(defaults: seq<NavItem>, m: ResolvedMenu, c: Option<Key>, n: nat, row: Row)
    requires ShowsDefaults(defaults, m) && UniqueKeys(defaults) && 0 < n <= |defaults|
    requires RowAt(defaults, m, c, n - 1) == Some(row) && row !in FirstRows(defaults, m, c, Upto(n - 1))
    ensures IsRow(m, row) && row.Order() == Infinite && row.DefaultIndex() == Fin(n - 1)
  {
    IndexIsFirst(defaults, m, row);
    var first := row.DefaultIndex().n;
    if first < n - 1 {
      assert Upto(n - 1)[first] == first;
      RowAtIs(defaults, m, c, first, row);
      FirstRowsMembers(defaults, m, c, Upto(n - 1), row);
    }
  }

  /** Every row has an item. */
  ghost predicate Inhabited(defaults: seq<NavItem>, m: ResolvedMenu) {
    forall row :: IsRow(m, row) ==> exists i :: Under(defaults, row, i)
  }

  lemma StrictlySortedOnce(rows: seq<Row>)
    requires StrictlySorted(rows)
    ensures NoDup(rows)
  {
  }

  ghost predicate IsPermutation(order: seq<int>, n: nat) {
    forall i :: i in order <==> 0 <= i < n
  }

  lemma {:induction false} EveryRowComesUp(defaults: seq<NavItem>, m: ResolvedMenu, c: Option<Key>, order: seq<int>, row: Row)
    requires ShowsDefaults(defaults, m) && UniqueKeys(defaults) && Inhabited(defaults, m) && IsPermutation(order, |defaults|)
    ensures row in FirstRows(defaults, m, c, order) <==> row in RowsUnder(m, c)
  {
    FirstRowsMembers(defaults, m, c, order, row);
    if row in RowsUnder(m, c) {
      var i :| Under(defaults, row, i);
      RowAtIs(defaults, m, c, i, row);
      assert i in order;
    }
  }

  lemma SameRowsSort(rows: seq<Row>, target: seq<Row>)
    requires StrictlySorted(rows) && NoDup(target) && forall row :: row in rows <==> row in target
    ensures Sort(target) == rows
  {
    OnceCounts(rows);
    OnceCounts(target);
    assert multiset(rows) == multiset(target);
    SortSpec(target);
    SortedUnique(Sort(target), rows);
  }

  lemma {:induction false} DefaultOrderIsPermutation(n: nat)
    ensures IsPermutation(Upto(n), n)
  {
    forall i | 0 <= i < n ensures i in Upto(n) {
      assert Upto(n)[i] == i;
    }
  }

  /** So in default order a container's rows come up as its sorted rows. */
  lemma {:induction false} DefaultRowsAreTheRows(defaults: seq<NavItem>, m: ResolvedMenu, c: Option<Key>)
    requires ShowsDefaults(defaults, m) && UniqueKeys(defaults) && Inhabited(defaults, m)
    ensures FirstRows(defaults, m, c, Upto(|defaults|)) == Sort(RowsUnder(m, c))
  {
    var rows := FirstRows(defaults, m, c, Upto(|defaults|));
    DefaultRowsAreSorted(defaults, m, c, |defaults|);
    DefaultOrderIsPermutation(|defaults|);
    RowsUnderOnce(m, c);
    forall row ensures row in rows <==> row in RowsUnder(m, c) {
      EveryRowComesUp(defaults, m, c, Upto(|defaults|), row);
    }
    SameRowsSort(rows, RowsUnder(m, c));
  }

  // ---------------------------------------------------------------- and so they do in the saved order

  lemma {:induction false} FirstRowsAgain(defaults: seq<NavItem>, m: ResolvedMenu, c: Option<Key>, a: seq<int>, b: seq<int>)
    requires forall i :: i in b ==> RowAt(defaults, m, c, i).None? || RowAt(defaults, m, c, i).value in FirstRows(defaults, m, c, a)
    ensures FirstRows(defaults, m, c, a + b) == FirstRows(defaults, m, c, a)
  {
    if b == [] {
      assert a + b == a;
    } else {
      var front, last := b[..|b| - 1], b[|b| - 1];
      assert last in b && forall i :: i in front ==> i in b;
      assert (a + b)[..|a + b| - 1] == a + front && (a + b)[|a + b| - 1] == last;
      FirstRowsAgain(defaults, m, c, a, front);
    }
  }

  /** A piece whose items all belong to one new row adds that row. */
  lemma {:induction false} PieceAddsItsRow(defaults: seq<NavItem>, m: ResolvedMenu, c: Option<Key>, a: seq<int>, b: seq<int>, row: Row)
    requires b != [] && (forall i :: i in b ==> RowAt(defaults, m, c, i) == Some(row)) && row !in FirstRows(defaults, m, c, a)
    ensures FirstRows(defaults, m, c, a + b) == FirstRows(defaults, m, c, a) + [row]
  {
    assert b[0] in b && (a + [b[0]])[..|a|] == a;
    assert a + b == (a + [b[0]]) + b[1..];
    assert forall i :: i in b[1..] ==> i in b;
    FirstRowsAgain(defaults, m, c, a + [b[0]], b[1..]);
  }

  lemma {:induction false} RowComesUp(defaults: seq<NavItem>, m: ResolvedMenu, row: Row, before: seq<int>)
    requires ShowsDefaults(defaults, m) && UniqueKeys(defaults) && Inhabited(defaults, m) && IsRow(m, row)
    requires row !in FirstRows(defaults, m, row.Parent(), before)
    ensures FirstRows(defaults, m, row.Parent(), before + RowOrder(m, row)) == FirstRows(defaults, m, row.Parent(), before) + [row]
  {
    PieceOfRow(defaults, m, row);
    PieceAddsItsRow(defaults, m, row.Parent(), before, RowOrder(m, row), row);
  }

  lemma NextIsNew(came: seq<Row>, rows: seq<Row>)
    requires NoDup(came + rows) && rows != []
    ensures rows[0] !in came && came + rows == (came + [rows[0]]) + rows[1..]
  {
    assert (came + rows)[|came|] == rows[0];
    forall i | 0 <= i < |came| ensures came[i] != rows[0] {
      assert (came + rows)[i] == came[i];
    }
  }

  lemma {:induction false} RowsComeUpInOrder(defaults: seq<NavItem>, m: ResolvedMenu, c: Option<Key>, rows: seq<Row>,
                                             before: seq<int>, came: seq<Row>)
    requires ShowsDefaults(defaults, m) && UniqueKeys(defaults) && Inhabited(defaults, m) && Hangs(m, c)
    requires forall row :: row in rows ==> IsRow(m, row) && row.Parent() == c
    requires FirstRows(defaults, m, c, before) == came && NoDup(came + rows)
    ensures FirstRows(defaults, m, c, before + OrderRows(m, c, rows)) == came + rows
    decreases |rows|
  {
    if rows == [] {
      assert before + [] == before;
    } else {
      var row, rest := rows[0], rows[1..];
      NextIsNew(came, rows);
      OrderRowsCons(m, c, rows);
      RowComesUp(defaults, m, row, before);
      RowsComeUpInOrder(defaults, m, c, rest, before + RowOrder(m, row), came + [row]);
      Seqs.Assoc(before, RowOrder(m, row), OrderRows(m, c, rest));
    }
  }

  lemma {:induction false} PieceOfRow(defaults: seq<NavItem>, m: ResolvedMenu, row: Row)
    requires ShowsDefaults(defaults, m) && UniqueKeys(defaults) && Inhabited(defaults, m) && IsRow(m, row)
    ensures RowOrder(m, row) != []
    ensures forall i :: i in RowOrder(m, row) ==> RowAt(defaults, m, row.Parent(), i) == Some(row)
  {
    OrderIsUnder(defaults, m, row);
    forall i | i in RowOrder(m, row) ensures RowAt(defaults, m, row.Parent(), i) == Some(row) {
      RowAtIs(defaults, m, row.Parent(), i, row);
    }
    var i :| Under(defaults, row, i);
    RowHangs(m, row);
    if row.GroupEntry? {
      BelowIsOrdered(defaults, m, Some(row.group.nodeKey), i);
    }
  }

  lemma {:induction false} OrderLists(defaults: seq<NavItem>, m: ResolvedMenu, c: Option<Key>)
    requires ShowsDefaults(defaults, m) && UniqueKeys(defaults) && Hangs(m, c)
    ensures NoDup(Order(m, c))
    decreases c.None?, Height(m, c), 1, 0
  {
    var rows := RowsUnder(m, c);
    SortMembers(rows);
    RowsUnderOnce(m, c);
    SortOnce(rows);
    OrderRowsLists(defaults, m, c, Sort(rows));
  }

  lemma {:induction false} OrderRowsLists(defaults: seq<NavItem>, m: ResolvedMenu, c: Option<Key>, rows: seq<Row>)
    requires ShowsDefaults(defaults, m) && UniqueKeys(defaults) && Hangs(m, c) && NoDup(rows)
    requires forall row :: row in rows ==> IsRow(m, row) && row.Parent() == c
    ensures NoDup(OrderRows(m, c, rows))
    decreases c.None?, Height(m, c), 0, |rows|
  {
    if rows != [] {
      var row, rest := rows[0], rows[1..];
      assert row in rows;
      RowHangs(m, row);
      OrderRowsLists(defaults, m, c, rest);
      OrderRowsCons(m, c, rows);
      if row.GroupEntry? {
        OrderLists(defaults, m, Some(row.group.nodeKey));
      }
      forall i | i in RowOrder(m, row) ensures i !in OrderRows(m, c, rest) {
        if i in OrderRows(m, c, rest) {
          var other := RowOfOrder(m, c, rest, i);
          OrderIsUnder(defaults, m, row);
          OrderIsUnder(defaults, m, other);
          SiblingsAreApart(defaults, m, row, other, i);
        }
      }
      NoDupConcat(RowOrder(m, row), OrderRows(m, c, rest));
    }
  }

  lemma ContainerStandsTogether(m: ResolvedMenu, c: Option<Key>) returns (at: nat)
    requires Forest(m) && Hangs(m, c)
    ensures StandsAt(Order(m, None), Order(m, c), at)
  {
    if c.None? {
      at := 0;
    } else {
      at := GroupStandsTogether(m, c.value);
    }
  }

  lemma NotBeforeItsPiece(whole: seq<int>, piece: seq<int>, at: nat, i: int)
    requires NoDup(whole) && StandsAt(whole, piece, at) && i in whole[..at]
    ensures i !in piece
  {
    var u :| 0 <= u < at && whole[u] == i;
    forall t | 0 <= t < |piece| ensures piece[t] != i {
      assert piece[t] == whole[at + t];
    }
  }

  /** No item of a container comes up before the container does. */
  lemma {:induction false} NothingBefore(defaults: seq<NavItem>, m: ResolvedMenu, c: Option<Key>, at: nat, i: int)
    requires ShowsDefaults(defaults, m) && UniqueKeys(defaults) && Hangs(m, c) && StandsAt(Order(m, None), Order(m, c), at)
    requires i in Order(m, None)[..at]
    ensures RowAt(defaults, m, c, i).None?
  {
    var row := RowAt(defaults, m, c, i);
    OrderLists(defaults, m, None);
    NotBeforeItsPiece(Order(m, None), Order(m, c), at, i);
    if row.Some? {
      RowIsBelow(defaults, m, row.value, i);
      BelowIsOrdered(defaults, m, c, i);
    }
  }

  lemma {:induction false} RowIsBelow(defaults: seq<NavItem>, m: ResolvedMenu, row: Row, i: int)
    requires ShowsDefaults(defaults, m) && UniqueKeys(defaults) && IsRow(m, row) && Under(defaults, row, i)
    ensures Below(defaults, row.Parent(), i)
  {
    if row.GroupEntry? {
      RowOrderIsBelow(defaults, m, row, i);
    } else {
      var j := RowOfItem(defaults, m, row);
      if row.Parent().Some? {
        assert row.Parent().value in Inside(defaults, row.Parent());
      }
    }
  }

  lemma {:induction false} NoRowsComeUp(defaults: seq<NavItem>, m: ResolvedMenu, c: Option<Key>, order: seq<int>)
    requires forall i :: i in order ==> RowAt(defaults, m, c, i).None?
    ensures FirstRows(defaults, m, c, order) == []
  {
    assert [] + order == order;
    FirstRowsAgain(defaults, m, c, [], order);
  }

  lemma {:induction false} ContainerComesUp(defaults: seq<NavItem>, m: ResolvedMenu, c: Option<Key>, pre: seq<int>)
    requires ShowsDefaults(defaults, m) && UniqueKeys(defaults) && Inhabited(defaults, m) && Hangs(m, c)
    requires FirstRows(defaults, m, c, pre) == []
    ensures FirstRows(defaults, m, c, pre + Order(m, c)) == Sort(RowsUnder(m, c))
  {
    var rows := RowsUnder(m, c);
    SortMembers(rows);
    RowsUnderOnce(m, c);
    SortOnce(rows);
    assert [] + Sort(rows) == Sort(rows);
    RowsComeUpInOrder(defaults, m, c, Sort(rows), pre, []);
  }

  lemma {:induction false} NothingAfter(defaults: seq<NavItem>, m: ResolvedMenu, c: Option<Key>, done: seq<int>, post: seq<int>)
    requires FirstRows(defaults, m, c, done) == Sort(RowsUnder(m, c))
    ensures FirstRows(defaults, m, c, done + post) == Sort(RowsUnder(m, c))
  {
    SortMembers(RowsUnder(m, c));
    forall i | i in post ensures RowAt(defaults, m, c, i).None? || RowAt(defaults, m, c, i).value in FirstRows(defaults, m, c, done) {
    }
    FirstRowsAgain(defaults, m, c, done, post);
  }

  lemma {:induction false} NothingUpTo(defaults: seq<NavItem>, m: ResolvedMenu, c: Option<Key>, at: nat)
    requires ShowsDefaults(defaults, m) && UniqueKeys(defaults) && Hangs(m, c) && StandsAt(Order(m, None), Order(m, c), at)
    ensures FirstRows(defaults, m, c, Order(m, None)[..at]) == []
  {
    forall i | i in Order(m, None)[..at] ensures RowAt(defaults, m, c, i).None? {
      NothingBefore(defaults, m, c, at, i);
    }
    NoRowsComeUp(defaults, m, c, Order(m, None)[..at]);
  }

  lemma SplitAround(whole: seq<int>, piece: seq<int>, at: nat)
    requires StandsAt(whole, piece, at)
    ensures whole == (whole[..at] + piece) + whole[at + |piece|..]
  {
    assert whole[at..at + |piece|] == piece;
  }

  /** In the order of the saved menu the rows of a container come up sorted, too. */
  lemma {:induction false} SavedRowsAreTheRows(defaults: seq<NavItem>, m: ResolvedMenu, c: Option<Key>)
    requires ShowsDefaults(defaults, m) && UniqueKeys(defaults) && Inhabited(defaults, m) && Hangs(m, c)
    ensures FirstRows(defaults, m, c, Order(m, None)) == Sort(RowsUnder(m, c))
  {
    var whole, piece := Order(m, None), Order(m, c);
    var at := ContainerStandsTogether(m, c);
    var pre, post := whole[..at], whole[at + |piece|..];
    SplitAround(whole, piece, at);
    NothingUpTo(defaults, m, c, at);
    ContainerComesUp(defaults, m, c, pre);
    NothingAfter(defaults, m, c, pre + piece, post);
  }

  // ---------------------------------------------------------------- the sidebar holds the rows as they come up

  predicate Indexed(defaults: seq<NavItem>, row: Row) {
    row.ItemEntry? ==> row.item.defaultIndex.Fin? && 0 <= row.item.defaultIndex.n < |defaults|
  }

  function EntryOf(defaults: seq<NavItem>, row: Row): Entry
    requires Indexed(defaults, row)
  {
    match row
    case ItemEntry(item) => LeafOf(defaults[item.defaultIndex.n])
    case GroupEntry(group) => Sub(group.nodeKey, GroupDefaultName(group.nodeKey))
  }

  function Entries(defaults: seq<NavItem>, rows: seq<Row>): (entries: seq<Entry>)
    requires forall row :: row in rows ==> Indexed(defaults, row)
    ensures |entries| == |rows| && forall i :: 0 <= i < |rows| ==> entries[i] == EntryOf(defaults, rows[i])
  {
    seq(|rows|, i requires 0 <= i < |rows| => EntryOf(defaults, rows[i]))
  }

  lemma {:induction false} RowsAreIndexed(defaults: seq<NavItem>, m: ResolvedMenu, c: Option<Key>, order: seq<int>)
    ensures forall row :: row in FirstRows(defaults, m, c, order) ==> Indexed(defaults, row)
  {
    forall row | row in FirstRows(defaults, m, c, order) ensures Indexed(defaults, row) {
      FirstRowsMembers(defaults, m, c, order, row);
    }
  }

  /** What the first rows of a container are shown as. */
  ghost function ShownRows(defaults: seq<NavItem>, m: ResolvedMenu, c: Option<Key>, order: seq<int>): seq<Entry> {
    RowsAreIndexed(defaults, m, c, order);
    Entries(defaults, FirstRows(defaults, m, c, order))
  }

  /** An item of `order` stands in the group `k`. */
  ghost predicate Entered(defaults: seq<NavItem>, order: seq<int>, k: Key) {
    exists i :: i in order && Below(defaults, Some(k), i)
  }

  ghost predicate Mirrors(defaults: seq<NavItem>, m: ResolvedMenu, s: Sidebar, order: seq<int>) {
    && (forall k :: k in s.groups <==> Entered(defaults, order, k))
    && (forall c :: s.Has(c) ==> s.At(c) == ShownRows(defaults, m, c, order))
  }

  /** The containers that inserting an item with these groups touches, outermost first. */
  function Containers(keys: seq<Key>): (cs: seq<Option<Key>>)
    ensures |cs| == |keys| + 1 && cs[0] == None && forall d :: 0 <= d < |keys| ==> cs[d + 1] == Some(keys[d])
  {
    [None] + seq(|keys|, d requires 0 <= d < |keys| => Some(keys[d]))
  }

  /** The first `d` containers of the i-th item have received its row, the others not. */
  ghost predicate MirrorsBut(defaults: seq<NavItem>, m: ResolvedMenu, s: Sidebar, order: seq<int>, i: nat, d: nat)
    requires i < |defaults| && d <= |GroupsAbove(defaults, i)|
  {
    var keys := GroupsAbove(defaults, i);
    && (forall k :: k in s.groups <==> Entered(defaults, order, k) || k in keys[..d])
    && (forall c :: s.Has(c) ==>
          s.At(c) == ShownRows(defaults, m, c, if c in Containers(keys)[..d] then order + [i] else order))
  }

  /** The row through which the i-th item goes down from its d-th container. */
  ghost function RowOfDepth(defaults: seq<NavItem>, m: ResolvedMenu, i: nat, d: nat): Row
    requires ShowsDefaults(defaults, m) && i < |defaults| && d <= |GroupsAbove(defaults, i)|
  {
    IdentityGood(defaults);
    var keys := GroupsAbove(defaults, i);
    ChainKeys(IdentityOf(defaults).groups, IdentityOf(defaults).items[i].parentKey);
    if d == |keys| then ItemEntry(m.items[i]) else GroupEntry(DefaultRow(DefaultConfig(defaults), keys[d]))
  }

  lemma {:induction false} ChainEnds(groups: seq<GroupRow>, parent: Option<Key>)
    requires GoodGroups(groups) && (parent.Some? ==> parent.value in GroupKeys(groups))
    ensures parent == EndOf(Chain(groups, parent))
  {
  }

  /** Each group of a chain stands in the one before it. */
  lemma {:induction false} ChainStep(groups: seq<GroupRow>, parent: Option<Key>, d: nat)
    requires GoodGroups(groups) && d < |Chain(groups, parent)|
    ensures var keys := Chain(groups, parent);
      keys[d] in GroupKeys(groups) && Over(groups, keys[d]) == Containers(keys)[d]
    decreases if parent.None? then 0 else 1 + |parent.value|
  {
    var up := Over(groups, parent.value);
    OverIsShorter(groups, parent.value);
    if d < |Chain(groups, up)| {
      ChainStep(groups, up, d);
    } else {
      ChainEnds(groups, up);
    }
  }

  lemma {:induction false} ChainHasNoRepeats(groups: seq<GroupRow>, parent: Option<Key>)
    requires GoodGroups(groups)
    ensures NoDup(Chain(groups, parent))
    decreases if parent.None? then 0 else 1 + |parent.value|
  {
    if parent.Some? && parent.value in GroupKeys(groups) {
      var up := Over(groups, parent.value);
      OverIsShorter(groups, parent.value);
      ChainHasNoRepeats(groups, up);
      ChainKeys(groups, up);
    }
  }

  lemma {:induction false} RowOfDepthBelongs(defaults: seq<NavItem>, m: ResolvedMenu, i: nat, d: nat)
    requires ShowsDefaults(defaults, m) && UniqueKeys(defaults) && i < |defaults| && d <= |GroupsAbove(defaults, i)|
    ensures RowAt(defaults, m, Containers(GroupsAbove(defaults, i))[d], i) == Some(RowOfDepth(defaults, m, i, d))
  {
    IdentityGood(defaults);
    var groups, own := IdentityOf(defaults).groups, IdentityOf(defaults).items[i].parentKey;
    assert IdentityOf(defaults).items[i] in IdentityOf(defaults).items;
    if d < |GroupsAbove(defaults, i)| {
      ChainStep(groups, own, d);
    } else {
      ChainEnds(groups, own);
    }
    RowAtIs(defaults, m, Containers(GroupsAbove(defaults, i))[d], i, RowOfDepth(defaults, m, i, d));
  }

  lemma {:induction false} NoRowElsewhere(defaults: seq<NavItem>, m: ResolvedMenu, i: nat, c: Option<Key>)
    requires ShowsDefaults(defaults, m) && UniqueKeys(defaults) && i < |defaults| && c !in Containers(GroupsAbove(defaults, i))
    ensures RowAt(defaults, m, c, i).None?
  {
    var row, keys := RowAt(defaults, m, c, i), GroupsAbove(defaults, i);
    assert Containers(keys)[0] == None;
    forall k | k in keys ensures Some(k) in Containers(keys) {
      var d :| 0 <= d < |keys| && keys[d] == k;
      assert Containers(keys)[d + 1] == Some(k);
    }
    if row.Some? {
      RowIsBelow(defaults, m, row.value, i);
    }
  }

  lemma {:induction false} RowIsShown(defaults: seq<NavItem>, m: ResolvedMenu, c: Option<Key>, order: seq<int>, i: int)
    ensures var row, before, after := RowAt(defaults, m, c, i), ShownRows(defaults, m, c, order), ShownRows(defaults, m, c, order + [i]);
      if row.Some? && row.value !in FirstRows(defaults, m, c, order) then
        Indexed(defaults, row.value) && after == before + [EntryOf(defaults, row.value)]
      else after == before
  {
    assert (order + [i])[..|order|] == order;
  }

  lemma {:induction false} GroupHasComeUp(defaults: seq<NavItem>, m: ResolvedMenu, order: seq<int>, row: Row)
    requires ShowsDefaults(defaults, m) && UniqueKeys(defaults) && IsRow(m, row) && row.GroupEntry?
    ensures row in FirstRows(defaults, m, row.Parent(), order) <==> Entered(defaults, order, row.group.nodeKey)
  {
    FirstRowsMembers(defaults, m, row.Parent(), order, row);
    forall i | i in order && Below(defaults, Some(row.group.nodeKey), i) ensures RowAt(defaults, m, row.Parent(), i) == Some(row) {
      RowAtIs(defaults, m, row.Parent(), i, row);
    }
  }

  lemma {:induction false} ItemIsNew(defaults: seq<NavItem>, m: ResolvedMenu, order: seq<int>, i: nat, c: Option<Key>)
    requires ShowsDefaults(defaults, m) && i < |defaults| && i !in order
    ensures ItemEntry(m.items[i]) !in FirstRows(defaults, m, c, order)
  {
    FirstRowsMembers(defaults, m, c, order, ItemEntry(m.items[i]));
  }

  lemma {:induction false} NothingEntered(defaults: seq<NavItem>, m: ResolvedMenu, order: seq<int>, k: Key)
    requires ShowsDefaults(defaults, m) && UniqueKeys(defaults) && !Entered(defaults, order, k)
    ensures ShownRows(defaults, m, Some(k), order) == []
  {
    forall i | i in order ensures RowAt(defaults, m, Some(k), i).None? {
      var row := RowAt(defaults, m, Some(k), i);
      if row.Some? {
        RowIsBelow(defaults, m, row.value, i);
      }
    }
    NoRowsComeUp(defaults, m, Some(k), order);
  }

  /** A group on the way is shown once, when its first item comes up, and is empty until then. */
  lemma {:induction false} GroupIsShown(defaults: seq<NavItem>, m: ResolvedMenu, order: seq<int>, i: nat, d: nat)
    requires ShowsDefaults(defaults, m) && UniqueKeys(defaults) && i < |defaults| && d < |GroupsAbove(defaults, i)|
    ensures var k, c := GroupsAbove(defaults, i)[d], Containers(GroupsAbove(defaults, i))[d];
      if Entered(defaults, order, k) then ShownRows(defaults, m, c, order + [i]) == ShownRows(defaults, m, c, order)
      else
        && ShownRows(defaults, m, c, order + [i]) == ShownRows(defaults, m, c, order) + [Sub(k, GroupDefaultName(k))]
        && ShownRows(defaults, m, Some(k), order) == []
  {
    var k, c := GroupsAbove(defaults, i)[d], Containers(GroupsAbove(defaults, i))[d];
    RowOfDepthBelongs(defaults, m, i, d);
    RowIsShown(defaults, m, c, order, i);
    GroupHasComeUp(defaults, m, order, RowOfDepth(defaults, m, i, d));
    if !Entered(defaults, order, k) {
      NothingEntered(defaults, m, order, k);
    }
  }

  lemma ContainersDiffer(keys: seq<Key>, d: nat)
    requires NoDup(keys) && d <= |keys|
    ensures Containers(keys)[d] !in Containers(keys)[..d]
    ensures d < |keys| ==> Some(keys[d]) !in Containers(keys)[..d + 1] && keys[d] !in keys[..d]
  {
  }

  lemma OneMore<T>(s: seq<T>, d: nat)
    requires d < |s|
    ensures forall x :: x in s[..d + 1] <==> x in s[..d] || x == s[d]
  {
    assert s[..d + 1] == s[..d] + [s[d]];
  }

  lemma {:induction false} NoRepeatsAbove(defaults: seq<NavItem>, i: nat)
    requires i < |defaults|
    ensures NoDup(GroupsAbove(defaults, i))
  {
    IdentityGood(defaults);
    ChainHasNoRepeats(IdentityOf(defaults).groups, IdentityOf(defaults).items[i].parentKey);
  }

  /** Entering a group changes its container and itself, and only when its key is new. */
  lemma EnterAt(s: Sidebar, c: Option<Key>, name: string, other: Option<Key>)
    requires s.Has(c) && s.Enter(c, name).Has(other)
    ensures var k := ChildKey(c, name);
      s.Enter(c, name).At(other) ==
      if k !in s.groups && other == c then s.At(c) + [Sub(k, name)]
      else if k !in s.groups && other == Some(k) then []
      else s.At(other)
    ensures s.Enter(c, name).groups.Keys == s.groups.Keys + {ChildKey(c, name)}
  {
    assert c.Some? ==> |ChildKey(c, name)| > |c.value|;
  }

  /** What each container shows after one group more, in terms of what it showed before. */
  lemma {:induction false} ShownAfter(defaults: seq<NavItem>, m: ResolvedMenu, order: seq<int>, i: nat, d: nat, other: Option<Key>)
    requires ShowsDefaults(defaults, m) && UniqueKeys(defaults) && i < |defaults| && d < |GroupsAbove(defaults, i)|
    ensures var keys := GroupsAbove(defaults, i);
      var cs := Containers(keys);
      var was := ShownRows(defaults, m, other, if other in cs[..d] then order + [i] else order);
      var now := ShownRows(defaults, m, other, if other in cs[..d + 1] then order + [i] else order);
      && (Entered(defaults, order, keys[d]) || (other != cs[d] && other != Some(keys[d])) ==> now == was)
      && (!Entered(defaults, order, keys[d]) && other == cs[d] ==> now == was + [Sub(keys[d], GroupDefaultName(keys[d]))])
      && (!Entered(defaults, order, keys[d]) && other == Some(keys[d]) ==> now == [])
  {
    var keys := GroupsAbove(defaults, i);
    NoRepeatsAbove(defaults, i);
    GroupIsShown(defaults, m, order, i, d);
    ContainersDiffer(keys, d);
    OneMore(Containers(keys), d);
  }

  lemma {:induction false} EnterMirrorsAt(defaults: seq<NavItem>, m: ResolvedMenu, s: Sidebar, order: seq<int>, i: nat, d: nat, name: string,
                                          other: Option<Key>)
    requires ShowsDefaults(defaults, m) && UniqueKeys(defaults) && i < |defaults| && d < |GroupsAbove(defaults, i)|
    requires MirrorsBut(defaults, m, s, order, i, d)
    requires var keys := GroupsAbove(defaults, i);
      && s.Has(Containers(keys)[d]) && ChildKey(Containers(keys)[d], name) == keys[d] && GroupDefaultName(keys[d]) == name
      && s.Enter(Containers(keys)[d], name).Has(other)
    ensures var cs := Containers(GroupsAbove(defaults, i));
      s.Enter(cs[d], name).At(other) == ShownRows(defaults, m, other, if other in cs[..d + 1] then order + [i] else order)
  {
    var keys := GroupsAbove(defaults, i);
    NoRepeatsAbove(defaults, i);
    ContainersDiffer(keys, d);
    ShownAfter(defaults, m, order, i, d, other);
    EnterAt(s, Containers(keys)[d], name, other);
  }

  lemma {:induction false} EnterMirrorsKeys(defaults: seq<NavItem>, m: ResolvedMenu, s: Sidebar, order: seq<int>, i: nat, d: nat, name: string)
    requires ShowsDefaults(defaults, m) && UniqueKeys(defaults) && i < |defaults| && d < |GroupsAbove(defaults, i)|
    requires MirrorsBut(defaults, m, s, order, i, d)
    requires var keys := GroupsAbove(defaults, i);
      s.Has(Containers(keys)[d]) && ChildKey(Containers(keys)[d], name) == keys[d]
    ensures var keys := GroupsAbove(defaults, i);
      forall k :: k in s.Enter(Containers(keys)[d], name).groups <==> Entered(defaults, order, k) || k in keys[..d + 1]
  {
    var keys := GroupsAbove(defaults, i);
    var c := Containers(keys)[d];
    EnterAt(s, c, name, c);
    OneMore(keys, d);
    forall k ensures k in s.Enter(c, name).groups <==> k in s.groups || k == keys[d] {
    }
  }

  /** Going one group further down keeps the mirror. */
  lemma {:induction false} EnterMirrors(defaults: seq<NavItem>, m: ResolvedMenu, s: Sidebar, order: seq<int>, i: nat, d: nat, name: string)
    requires ShowsDefaults(defaults, m) && UniqueKeys(defaults) && i < |defaults| && d < |GroupsAbove(defaults, i)|
    requires MirrorsBut(defaults, m, s, order, i, d)
    requires var keys := GroupsAbove(defaults, i);
      s.Has(Containers(keys)[d]) && ChildKey(Containers(keys)[d], name) == keys[d] && GroupDefaultName(keys[d]) == name
    ensures MirrorsBut(defaults, m, s.Enter(Containers(GroupsAbove(defaults, i))[d], name), order, i, d + 1)
  {
    var keys := GroupsAbove(defaults, i);
    var next := s.Enter(Containers(keys)[d], name);
    EnterMirrorsKeys(defaults, m, s, order, i, d, name);
    forall other | next.Has(other)
      ensures next.At(other) == ShownRows(defaults, m, other, if other in Containers(keys)[..d + 1] then order + [i] else order)
    {
      EnterMirrorsAt(defaults, m, s, order, i, d, name, other);
    }
  }

  /** An item is shown once, in the innermost of its containers. */
  lemma {:induction false} LeafIsShown(defaults: seq<NavItem>, m: ResolvedMenu, order: seq<int>, i: nat)
    requires ShowsDefaults(defaults, m) && UniqueKeys(defaults) && i < |defaults| && i !in order
    ensures var cs := Containers(GroupsAbove(defaults, i));
      var c := cs[|cs| - 1];
      && ShownRows(defaults, m, c, order + [i]) == ShownRows(defaults, m, c, order) + [LeafOf(defaults[i])]
      && forall other :: other !in cs ==> ShownRows(defaults, m, other, order + [i]) == ShownRows(defaults, m, other, order)
  {
    var cs := Containers(GroupsAbove(defaults, i));
    var c := cs[|cs| - 1];
    RowOfDepthBelongs(defaults, m, i, |cs| - 1);
    RowIsShown(defaults, m, c, order, i);
    ItemIsNew(defaults, m, order, i, c);
    forall other | other !in cs ensures ShownRows(defaults, m, other, order + [i]) == ShownRows(defaults, m, other, order) {
      NoRowElsewhere(defaults, m, i, other);
      RowIsShown(defaults, m, other, order, i);
    }
  }

  lemma EnteredNow(defaults: seq<NavItem>, order: seq<int>, i: nat, k: Key)
    requires i < |defaults|
    ensures Entered(defaults, order + [i], k) <==> Entered(defaults, order, k) || k in GroupsAbove(defaults, i)
  {
    assert i in order + [i] && forall j :: j in order ==> j in order + [i];
  }

  /** What each container shows after the leaf, in terms of what it showed before. */
  lemma {:induction false} ShownAfterLeaf(defaults: seq<NavItem>, m: ResolvedMenu, order: seq<int>, i: nat, other: Option<Key>)
    requires ShowsDefaults(defaults, m) && UniqueKeys(defaults) && i < |defaults| && i !in order
    ensures var keys := GroupsAbove(defaults, i);
      var cs := Containers(keys);
      var was := ShownRows(defaults, m, other, if other in cs[..|keys|] then order + [i] else order);
      ShownRows(defaults, m, other, order + [i]) == if other == cs[|keys|] then was + [LeafOf(defaults[i])] else was
  {
    var keys := GroupsAbove(defaults, i);
    var cs := Containers(keys);
    NoRepeatsAbove(defaults, i);
    LeafIsShown(defaults, m, order, i);
    ContainersDiffer(keys, |keys|);
    OneMore(cs, |keys|);
    assert cs[..|cs|] == cs;
  }

  lemma {:induction false} LeafMirrorsAt(defaults: seq<NavItem>, m: ResolvedMenu, s: Sidebar, order: seq<int>, i: nat, other: Option<Key>)
    requires ShowsDefaults(defaults, m) && UniqueKeys(defaults) && i < |defaults| && i !in order
    requires var keys := GroupsAbove(defaults, i);
      MirrorsBut(defaults, m, s, order, i, |keys|) && s.Has(Containers(keys)[|keys|]) && s.Has(other)
    ensures var keys := GroupsAbove(defaults, i);
      s.Push(Containers(keys)[|keys|], LeafOf(defaults[i])).At(other) == ShownRows(defaults, m, other, order + [i])
  {
    ShownAfterLeaf(defaults, m, order, i, other);
  }

  /** The leaf completes it. */
  lemma {:induction false} LeafMirrors(defaults: seq<NavItem>, m: ResolvedMenu, s: Sidebar, order: seq<int>, i: nat)
    requires ShowsDefaults(defaults, m) && UniqueKeys(defaults) && i < |defaults| && i !in order
    requires var keys := GroupsAbove(defaults, i);
      MirrorsBut(defaults, m, s, order, i, |keys|) && s.Has(Containers(keys)[|keys|])
    ensures var keys := GroupsAbove(defaults, i);
      Mirrors(defaults, m, s.Push(Containers(keys)[|keys|], LeafOf(defaults[i])), order + [i])
  {
    var keys := GroupsAbove(defaults, i);
    var next := s.Push(Containers(keys)[|keys|], LeafOf(defaults[i]));
    assert keys[..|keys|] == keys;
    forall k ensures k in next.groups <==> Entered(defaults, order + [i], k) {
      EnteredNow(defaults, order, i, k);
    }
    forall other | next.Has(other) ensures next.At(other) == ShownRows(defaults, m, other, order + [i]) {
      LeafMirrorsAt(defaults, m, s, order, i, other);
    }
  }

  /** A path that leads through the groups `keys`, each shown under its own name. */
  ghost predicate LeadsThrough(keys: seq<Key>, path: seq<string>) {
    && |keys| == |path|
    && forall d :: 0 <= d < |keys| ==> ChildKey(Containers(keys)[d], path[d]) == keys[d] && GroupDefaultName(keys[d]) == path[d]
  }

  lemma {:induction false} OpenMirrors(defaults: seq<NavItem>, m: ResolvedMenu, s: Sidebar, order: seq<int>, i: nat, d: nat, path: seq<string>)
    requires ShowsDefaults(defaults, m) && UniqueKeys(defaults) && i < |defaults| && d <= |path|
    requires LeadsThrough(GroupsAbove(defaults, i), path)
    requires MirrorsBut(defaults, m, s, order, i, d) && s.Has(Containers(GroupsAbove(defaults, i))[d])
    ensures var cs := Containers(GroupsAbove(defaults, i));
      && MirrorsBut(defaults, m, Open(s, cs[d], path[d..]), order, i, |path|)
      && JoinPath(cs[d], path[d..]) == cs[|path|]
    decreases |path| - d
  {
    var cs := Containers(GroupsAbove(defaults, i));
    if d < |path| {
      EnterMirrors(defaults, m, s, order, i, d, path[d]);
      assert path[d..][1..] == path[d + 1..];
      OpenMirrors(defaults, m, s.Enter(cs[d], path[d]), order, i, d + 1, path);
    }
  }

  lemma {:induction false} InsertMirrors(defaults: seq<NavItem>, m: ResolvedMenu, s: Sidebar, order: seq<int>, i: nat, path: seq<string>)
    requires ShowsDefaults(defaults, m) && UniqueKeys(defaults) && i < |defaults| && i !in order
    requires Mirrors(defaults, m, s, order) && LeadsThrough(GroupsAbove(defaults, i), path)
    ensures Mirrors(defaults, m, Insert(s, path, LeafOf(defaults[i])), order + [i])
  {
    var keys := GroupsAbove(defaults, i);
    assert Containers(keys)[..0] == [] && keys[..0] == [] && path[0..] == path;
    OpenMirrors(defaults, m, s, order, i, 0, path);
    LeafMirrors(defaults, m, Open(s, None, path), order, i);
  }

  /** `items` shows the default items in the given order, each under the names of its groups. */
  ghost predicate Displays(defaults: seq<NavItem>, items: seq<NavItem>, order: seq<int>) {
    && |items| == |order| && AreIndexes(order, |defaults|)
    && forall t :: 0 <= t < |order| ==>
         && LeafOf(items[t]) == LeafOf(defaults[order[t]])
         && LeadsThrough(GroupsAbove(defaults, order[t]), ShownPath(items[t]))
  }

  lemma {:induction false} SidebarMirrors(defaults: seq<NavItem>, m: ResolvedMenu, items: seq<NavItem>, order: seq<int>)
    requires ShowsDefaults(defaults, m) && UniqueKeys(defaults) && NoDup(order) && Displays(defaults, items, order)
    ensures Mirrors(defaults, m, SidebarOf(items), order)
    decreases |order|
  {
    if order != [] {
      var n := |order| - 1;
      assert order[..n] + [order[n]] == order;
      assert order[n] !in order[..n];
      SidebarMirrors(defaults, m, items[..n], order[..n]);
      InsertMirrors(defaults, m, SidebarOf(items[..n]), order[..n], order[n], ShownPath(items[n]));
    }
  }

  // ---------------------------------------------------------------- main result

  lemma {:induction false} GroupsHaveItems(defaults: seq<NavItem>, k: Key)
    requires k in GroupKeys(IdentityOf(defaults).groups)
    ensures exists i :: 0 <= i < |defaults| && k in PathKeys(PathOf(defaults[i]))
  {
    if defaults != [] {
      var before, last := defaults[..|defaults| - 1], defaults[|defaults| - 1];
      AddItemKeys(IdentityOf(before), last);
      if k in GroupKeys(IdentityOf(before).groups) {
        GroupsHaveItems(before, k);
        var i :| 0 <= i < |before| && k in PathKeys(PathOf(before[i]));
        assert before[i] == defaults[i];
      }
    }
  }

  lemma {:induction false} DefaultsAreInhabited(defaults: seq<NavItem>, m: ResolvedMenu)
    requires ShowsDefaults(defaults, m) && UniqueKeys(defaults) && SlashFree(defaults)
    ensures Inhabited(defaults, m)
  {
    forall row | IsRow(m, row) ensures exists i :: Under(defaults, row, i) {
      if row.GroupEntry? {
        GroupsHaveItems(defaults, row.group.nodeKey);
        var i :| 0 <= i < |defaults| && row.group.nodeKey in PathKeys(PathOf(defaults[i]));
        GroupsAreThePath(defaults, i);
        assert Under(defaults, row, i);
      } else {
        var i := RowOfItem(defaults, m, row);
        assert Under(defaults, row, i);
      }
    }
  }

  lemma {:induction false} PlainPathLeads(defaults: seq<NavItem>, i: nat)
    requires PlainNames(defaults) && i < |defaults|
    ensures LeadsThrough(GroupsAbove(defaults, i), PathOf(defaults[i])) && Names(GroupsAbove(defaults, i)) == PathOf(defaults[i])
  {
    assert defaults[i] in defaults;
    GroupsAreThePath(defaults, i);
    NamesOfPath(PathOf(defaults[i]));
  }

  lemma SameSidebar(a: Sidebar, b: Sidebar)
    requires forall k :: k in a.groups <==> k in b.groups
    requires forall c :: a.Has(c) ==> a.At(c) == b.At(c)
    ensures a == b
  {
    assert a.At(None) == b.At(None);
    forall k | k in a.groups ensures a.groups[k] == b.groups[k] {
      assert a.At(Some(k)) == b.At(Some(k));
    }
    assert a.groups == b.groups;
  }

  lemma {:induction false} SameContainer(defaults: seq<NavItem>, m: ResolvedMenu, c: Option<Key>)
    requires ShowsDefaults(defaults, m) && UniqueKeys(defaults) && Inhabited(defaults, m)
    requires c.Some? ==> Entered(defaults, Upto(|defaults|), c.value)
    ensures ShownRows(defaults, m, c, Upto(|defaults|)) == ShownRows(defaults, m, c, Order(m, None))
  {
    if c.Some? {
      var i :| i in Upto(|defaults|) && Below(defaults, c, i);
      GroupAboveIsThere(defaults, m, i, c.value);
    }
    DefaultRowsAreTheRows(defaults, m, c);
    SavedRowsAreTheRows(defaults, m, c);
  }

  lemma SameEntered(defaults: seq<NavItem>, a: seq<int>, b: seq<int>, k: Key)
    requires IsPermutation(a, |defaults|) && IsPermutation(b, |defaults|)
    ensures Entered(defaults, a, k) <==> Entered(defaults, b, k)
  {
  }

  /** In either order the same groups come up, and in each container the same rows. */
  lemma {:induction false} SameMirror(defaults: seq<NavItem>, m: ResolvedMenu, a: Sidebar, b: Sidebar)
    requires ShowsDefaults(defaults, m) && UniqueKeys(defaults) && Inhabited(defaults, m)
    requires Mirrors(defaults, m, a, Upto(|defaults|)) && Mirrors(defaults, m, b, Order(m, None))
    requires IsPermutation(Order(m, None), |defaults|)
    ensures a == b
  {
    DefaultOrderIsPermutation(|defaults|);
    SameGroupsEntered(defaults, m, a, b, Upto(|defaults|), Order(m, None));
    forall c | a.Has(c) ensures a.At(c) == b.At(c) {
      SameContainer(defaults, m, c);
    }
    SameSidebar(a, b);
  }

  lemma {:induction false} SameGroupsEntered(defaults: seq<NavItem>, m: ResolvedMenu, a: Sidebar, b: Sidebar, p: seq<int>, q: seq<int>)
    requires Mirrors(defaults, m, a, p) && Mirrors(defaults, m, b, q)
    requires IsPermutation(p, |defaults|) && IsPermutation(q, |defaults|)
    ensures a.groups.Keys == b.groups.Keys
    ensures forall c :: a.Has(c) <==> b.Has(c)
  {
    forall k ensures k in a.groups <==> k in b.groups {
      SameEntered(defaults, p, q, k);
    }
  }

  /** Where each item stands and what it is called, whatever the order. */
  function Places(items: seq<NavItem>): set<Look> {
    set look | look in Looks(items)
  }

  lemma {:induction false} OrderIsPermutation(defaults: seq<NavItem>, m: ResolvedMenu)
    requires ShowsDefaults(defaults, m) && UniqueKeys(defaults)
    ensures IsPermutation(Order(m, None), |defaults|)
  {
    OrderIsBelow(defaults, m, None);
    forall i | 0 <= i < |defaults| ensures i in Order(m, None) {
      BelowIsOrdered(defaults, m, None, i);
    }
  }

  lemma {:induction false} DefaultsDisplay(defaults: seq<NavItem>)
    requires Declared(defaults) && PlainNames(defaults)
    ensures Displays(defaults, defaults, Upto(|defaults|))
  {
    forall i | 0 <= i < |defaults| ensures LeadsThrough(GroupsAbove(defaults, i), ShownPath(defaults[i])) {
      assert defaults[i] in defaults;
      PlainPathLeads(defaults, i);
    }
  }

  lemma {:induction false} PlacedDisplay(defaults: seq<NavItem>, order: seq<int>)
    requires PlainNames(defaults) && AreIndexes(order, |defaults|)
    ensures Displays(defaults, PlacedAll(defaults, order), order)
  {
    forall t | 0 <= t < |order|
      ensures LeadsThrough(GroupsAbove(defaults, order[t]), ShownPath(Placed(defaults, order[t])))
      ensures LeafOf(Placed(defaults, order[t])) == LeafOf(defaults[order[t]])
    {
      PlainPathLeads(defaults, order[t]);
      LookOfPlaced(defaults, order[t]);
    }
  }

  lemma {:induction false} SidebarIsKept(defaults: seq<NavItem>, m: ResolvedMenu)
    requires UniqueKeys(defaults) && Declared(defaults) && PlainNames(defaults) && ShowsDefaults(defaults, m)
    requires AreIndexes(Order(m, None), |defaults|)
    ensures SidebarOf(PlacedAll(defaults, Order(m, None))) == SidebarOf(defaults)
  {
    var order := Order(m, None);
    OrderIsPermutation(defaults, m);
    OrderLists(defaults, m, None);
    DefaultsAreInhabited(defaults, m);
    DefaultsDisplay(defaults);
    PlacedDisplay(defaults, order);
    SidebarMirrors(defaults, m, defaults, Upto(|defaults|));
    SidebarMirrors(defaults, m, PlacedAll(defaults, order), order);
    SameMirror(defaults, m, SidebarOf(defaults), SidebarOf(PlacedAll(defaults, order)));
  }

  lemma {:induction false} PlacesAreKeptWhenSpelled(defaults: seq<NavItem>, order: seq<int>)
    requires UniqueKeys(defaults) && AreIndexes(order, |defaults|) && IsPermutation(order, |defaults|)
    ensures Places(PlacedAll(defaults, order)) == Places(defaults) <==> Spelled(defaults)
  {
    var placed := PlacedAll(defaults, order);
    PlacedLooks(defaults, order);
    if Places(placed) == Places(defaults) {
      forall i | 0 <= i < |defaults| ensures ShownPath(defaults[i]) == Names(GroupsAbove(defaults, i)) {
        assert i in order;
        var t :| 0 <= t < |order| && order[t] == i;
        assert Looks(placed)[t] in Places(placed);
        var j :| 0 <= j < |defaults| && Looks(defaults)[j] == Looks(placed)[t];
        assert defaults[j].key == defaults[i].key;
      }
    }
    if Spelled(defaults) {
      forall t | 0 <= t < |order| ensures Looks(placed)[t] == Looks(defaults)[order[t]] {
      }
      forall look ensures look in Places(placed) <==> look in Places(defaults) {
        if look in Places(defaults) {
          var i :| 0 <= i < |defaults| && Looks(defaults)[i] == look;
          assert i in order;
          var t :| 0 <= t < |order| && order[t] == i;
          assert Looks(placed)[t] == look;
        }
      }
    }
  }

  /**
   * Saving the untouched defaults leaves every item's place and name as it was exactly when no group name has a slash and no
   * outer one begins like a custom key; the whole sidebar is then as it was too, even if the items change order.
   */
  lemma {:induction false} FirstSaveKeepsTheSidebar(defaults: seq<NavItem>)
    requires UniqueKeys(defaults) && Declared(defaults)
    ensures Places(FirstSaved(defaults)) == Places(defaults) <==> PlainNames(defaults)
    ensures PlainNames(defaults) ==> SidebarOf(FirstSaved(defaults)) == SidebarOf(defaults)
  {
    var m := Resolve(defaults, EMPTY_MENU_CONFIG);
    FirstSavedIsOrder(defaults);
    OrderIsPermutation(defaults, m);
    PlacesAreKeptWhenSpelled(defaults, Order(m, None));
    SpelledExactlyWhenPlain(defaults);
    if PlainNames(defaults) {
      SidebarIsKept(defaults, m);
    }
  }

  // ---------------------------------------------------------------- users who do not see every item

  /** The shell shows an item that needs no permission or one of which the user has any (AppShell.tsx:74-77). */
  predicate Granted(item: NavItem, can: set<string>) {
    item.permission.None? || exists code :: code in item.permission.value && code in can
  }

  function VisibleItems(items: seq<NavItem>, can: set<string>): seq<NavItem> {
    if items == [] then []
    else VisibleItems(items[..|items| - 1], can) + if Granted(items[|items| - 1], can) then [items[|items| - 1]] else []
  }

  lemma {:induction false} SameLooksSameSidebar(a: seq<NavItem>, b: seq<NavItem>, can: set<string>)
    requires Looks(a) == Looks(b)
    ensures SidebarOf(VisibleItems(a, can)) == SidebarOf(VisibleItems(b, can))
  {
    if a != [] {
      var n := |a| - 1;
      assert |Looks(a)| == |Looks(b)| && LookOf(a[n]) == Looks(a)[n] && LookOf(b[n]) == Looks(b)[n];
      forall i | 0 <= i < n ensures Looks(a[..n])[i] == Looks(b[..n])[i] {
        assert Looks(a)[i] == Looks(b)[i];
      }
      SameLooksSameSidebar(a[..n], b[..n], can);
      VisibleSidebar(a, can);
      VisibleSidebar(b, can);
    }
  }

  lemma VisibleSidebar(items: seq<NavItem>, can: set<string>)
    requires items != []
    ensures var front, last := SidebarOf(VisibleItems(items[..|items| - 1], can)), items[|items| - 1];
      SidebarOf(VisibleItems(items, can)) == if Granted(last, can) then Insert(front, ShownPath(last), LeafOf(last)) else front
  {
    var front, last := VisibleItems(items[..|items| - 1], can), items[|items| - 1];
    if Granted(last, can) {
      assert (front + [last])[..|front|] == front;
    } else {
      assert front + [] == front;
    }
  }

  /** Without an interrupted group every user's sidebar is as it was. */
  lemma EveryUserSeesTheSame(defaults: seq<NavItem>, can: set<string>)
    requires UniqueKeys(defaults) && Declared(defaults) && PlainNames(defaults) && Unbroken(defaults)
    ensures SidebarOf(VisibleItems(FirstSaved(defaults), can)) == SidebarOf(VisibleItems(defaults, can))
  {
    SpelledExactlyWhenPlain(defaults);
    FirstSaveKeepsTheMenuExactly(defaults);
    SameLooksSameSidebar(FirstSaved(defaults), defaults, can);
  }
}
