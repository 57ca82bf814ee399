/** The canonical form behind a request's fingerprint (fingerprint.ts:9-21). */
module Canonical {
  import opened Sorting

  /** A payload; objects list their members in order, arrays may hold `undefined`. */
  datatype Json =
    | Undefined | Null | Bool(b: bool) | Number(n: real) | Text(s: string)
    | Array(items: seq<Json>) | Object(members: seq<Member>)

  datatype Member = Member(key: string, value: Json)

  /** `localeCompare` (at most) and `JSON.stringify`, which the program takes from its platform. */
  datatype Platform = Platform(atMost: (string, string) -> bool, stringify: Json -> string)

  // ---------------------------------------------------------------- the canonical form

  /** An array's comparison: the texts, with `undefined` last whatever the comparison says. */
  function ItemLe(p: Platform): (Json, Json) -> bool {
    (a: Json, b: Json) => b.Undefined? || (!a.Undefined? && p.atMost(p.stringify(a), p.stringify(b)))
  }

  function KeyLe(p: Platform): (Member, Member) -> bool {
    (a: Member, b: Member) => p.atMost(a.key, b.key)
  }

  function Canonicalize(v: Json, p: Platform): Json {
    match v
    case Array(items) => Array(Sort(CanonicalItems(items, p), ItemLe(p)))
    case Object(members) => Object(Sort(CanonicalMembers(members, p), KeyLe(p)))
    case _ => v
  }

  function CanonicalItems(items: seq<Json>, p: Platform): (r: seq<Json>)
    ensures |r| == |items| && forall i :: 0 <= i < |items| ==> r[i] == Canonicalize(items[i], p)
  {
    if items == [] then [] else [Canonicalize(items[0], p)] + CanonicalItems(items[1..], p)
  }

  /** Members whose value is `undefined` are dropped. */
  function CanonicalMembers(members: seq<Member>, p: Platform): seq<Member> {
    if members == [] then []
    else
      (if members[0].value.Undefined? then [] else [Member(members[0].key, Canonicalize(members[0].value, p))])
      + CanonicalMembers(members[1..], p)
  }

  // ---------------------------------------------------------------- the same payload, whatever the order

  function Without<T>(s: seq<T>, j: nat): seq<T>
    requires j < |s|
  {
    s[..j] + s[j + 1..]
  }

  function Defined(members: seq<Member>): seq<Member> {
    if members == [] then []
    else (if members[0].value.Undefined? then [] else [members[0]]) + Defined(members[1..])
  }

  /** Equal up to the order of array items and of object members at every depth, undefined members ignored. */
  ghost predicate Equivalent(a: Json, b: Json)
    decreases a, 0
  {
    if a.Array? && b.Array? then EquivalentItems(a.items, b.items)
    else if a.Object? && b.Object? then EquivalentMembers(a.members, Defined(b.members))
    else a == b && !a.Array? && !a.Object?
  }

  /** Every item of `xs` can be paired with one of `ys`, none left over. */
  ghost predicate EquivalentItems(xs: seq<Json>, ys: seq<Json>)
    decreases xs, 1
  {
    if xs == [] then ys == []
    else exists j :: 0 <= j < |ys| && Equivalent(xs[0], ys[j]) && EquivalentItems(xs[1..], Without(ys, j))
  }

  ghost predicate EquivalentMembers(xs: seq<Member>, ys: seq<Member>)
    decreases xs, 1
  {
    if xs == [] then ys == []
    else if xs[0].value.Undefined? then EquivalentMembers(xs[1..], ys)
    else
      exists j :: 0 <= j < |ys| && xs[0].key == ys[j].key && Equivalent(xs[0].value, ys[j].value)
             && EquivalentMembers(xs[1..], Without(ys, j))
  }

  predicate UniqueKeys(members: seq<Member>) {
    forall i, j :: 0 <= i < j < |members| ==> members[i].key != members[j].key
  }

  /** Objects have each key once. */
  predicate WellFormed(v: Json) {
    match v
    case Array(items) => forall x :: x in items ==> WellFormed(x)
    case Object(members) => UniqueKeys(members) && forall m :: m in members ==> WellFormed(m.value)
    case _ => true
  }

  // ---------------------------------------------------------------- pairing and multisets

  lemma WithoutMembers<T>(s: seq<T>, j: nat)
    requires j < |s|
    ensures multiset(Without(s, j)) == multiset(s) - multiset{s[j]}
    ensures forall x :: x in Without(s, j) ==> x in s
  {
    assert s == s[..j] + [s[j]] + s[j + 1..];
  }

  lemma PairFirst<T>(a: seq<T>, b: seq<T>, j: nat)
    requires a != [] && j < |b| && a[0] == b[j] && multiset(a[1..]) == multiset(Without(b, j))
    ensures multiset(a) == multiset(b)
  {
    WithoutMembers(b, j);
    DropFirst(a);
    assert multiset(a) == multiset(a[1..]) + multiset{a[0]};
    assert multiset(b) == multiset(Without(b, j)) + multiset{b[j]};
  }

  lemma FindsMember<T>(x: T, s: seq<T>) returns (j: nat)
    requires x in multiset(s)
    ensures j < |s| && s[j] == x
  {
    j :| j < |s| && s[j] == x;
  }

  lemma CanonicalWithout(items: seq<Json>, j: nat, p: Platform)
    requires j < |items|
    ensures CanonicalItems(Without(items, j), p) == Without(CanonicalItems(items, p), j)
  {
  }

  predicate AllDefined(members: seq<Member>) {
    forall m :: m in members ==> !m.value.Undefined?
  }

  lemma {:induction false} CanonicalDefined(members: seq<Member>, p: Platform)
    requires AllDefined(members)
    ensures var r := CanonicalMembers(members, p);
      |r| == |members| && forall i :: 0 <= i < |members| ==> r[i] == Member(members[i].key, Canonicalize(members[i].value, p))
  {
    if members != [] {
      CanonicalDefined(members[1..], p);
    }
  }

  lemma {:induction false} CanonicalOfDefined(members: seq<Member>, p: Platform)
    ensures AllDefined(Defined(members)) && CanonicalMembers(Defined(members), p) == CanonicalMembers(members, p)
    ensures forall m :: m in Defined(members) ==> m in members
  {
    if members != [] {
      CanonicalOfDefined(members[1..], p);
      var rest := Defined(members[1..]);
      if members[0].value.Undefined? {
        assert Defined(members) == rest && CanonicalMembers(members, p) == CanonicalMembers(members[1..], p);
      } else {
        assert Defined(members) == [members[0]] + rest && ([members[0]] + rest)[1..] == rest;
      }
    }
  }

  lemma CanonicalMembersWithout(members: seq<Member>, j: nat, p: Platform)
    requires j < |members| && AllDefined(members)
    ensures AllDefined(Without(members, j))
    ensures |CanonicalMembers(members, p)| == |members|
    ensures CanonicalMembers(Without(members, j), p) == Without(CanonicalMembers(members, p), j)
  {
    WithoutMembers(members, j);
    CanonicalDefined(members, p);
    CanonicalDefined(Without(members, j), p);
  }

  // ---------------------------------------------------------------- the same form means the same payload

  /** Needs nothing of the comparison: sorting only rearranges. */
  lemma {:induction false} SameFormIsEquivalent(a: Json, b: Json, p: Platform)
    requires Canonicalize(a, p) == Canonicalize(b, p)
    ensures Equivalent(a, b)
    decreases a, 0
  {
    match a {
      case Array(items) =>
        SortMembers(CanonicalItems(items, p), ItemLe(p));
        SortMembers(CanonicalItems(b.items, p), ItemLe(p));
        SameItems(items, b.items, p);
      case Object(members) =>
        SortMembers(CanonicalMembers(members, p), KeyLe(p));
        SortMembers(CanonicalMembers(b.members, p), KeyLe(p));
        CanonicalOfDefined(b.members, p);
        SameMembers(members, Defined(b.members), p);
      case _ =>
    }
  }

  lemma {:induction false} SameItems(xs: seq<Json>, ys: seq<Json>, p: Platform)
    requires multiset(CanonicalItems(xs, p)) == multiset(CanonicalItems(ys, p))
    ensures EquivalentItems(xs, ys)
    decreases xs, 1
  {
    var cx, cy := CanonicalItems(xs, p), CanonicalItems(ys, p);
    assert |multiset(cx)| == |cx| && |multiset(cy)| == |cy|;
    if xs != [] {
      assert cx[0] in multiset(cy);
      var j := FindsMember(cx[0], cy);
      SameFormIsEquivalent(xs[0], ys[j], p);
      CanonicalWithout(ys, j, p);
      WithoutMembers(cy, j);
      DropFirst(cx);
      SameItems(xs[1..], Without(ys, j), p);
    }
  }

  lemma {:induction false} SameMembers(xs: seq<Member>, ys: seq<Member>, p: Platform)
    requires AllDefined(ys) && multiset(CanonicalMembers(xs, p)) == multiset(CanonicalMembers(ys, p))
    ensures EquivalentMembers(xs, ys)
    decreases xs, 1
  {
    var cx, cy := CanonicalMembers(xs, p), CanonicalMembers(ys, p);
    assert |multiset(cx)| == |cx| && |multiset(cy)| == |cy|;
    CanonicalDefined(ys, p);
    if xs != [] {
      if xs[0].value.Undefined? {
        SameMembers(xs[1..], ys, p);
      } else {
        assert cx[0] in multiset(cy);
        var j := FindsMember(cx[0], cy);
        SameFormIsEquivalent(xs[0].value, ys[j].value, p);
        CanonicalMembersWithout(ys, j, p);
        WithoutMembers(cy, j);
        DropFirst(cx);
        SameMembers(xs[1..], Without(ys, j), p);
      }
    }
  }

  // ---------------------------------------------------------------- the same payload has the same form

  /** At no depth does the comparison tie two different canonical items of an array, or two keys of an object. */
  predicate TieFree(v: Json, p: Platform) {
    match v
    case Array(items) => NoTies(CanonicalItems(items, p), ItemLe(p)) && forall x :: x in items ==> TieFree(x, p)
    case Object(members) => NoTies(CanonicalMembers(members, p), KeyLe(p)) && forall m :: m in members ==> TieFree(m.value, p)
    case _ => true
  }

  lemma Preorders(p: Platform)
    requires Preorder(p.atMost)
    ensures Preorder(ItemLe(p)) && Preorder(KeyLe(p))
  {
    var itemLe, keyLe := ItemLe(p), KeyLe(p);
    assert forall x, y :: itemLe(x, y) || itemLe(y, x);
    assert forall x, y, z :: itemLe(x, y) && itemLe(y, z) ==> itemLe(x, z);
    assert forall x: Member, y: Member :: keyLe(x, y) <==> p.atMost(x.key, y.key);
    assert forall x, y :: keyLe(x, y) || keyLe(y, x);
    assert forall x, y, z :: keyLe(x, y) && keyLe(y, z) ==> keyLe(x, z);
  }

  /** Where a member of the form comes from. */
  lemma {:induction false} MemberOrigin(members: seq<Member>, p: Platform, m: Member) returns (i: nat)
    requires m in CanonicalMembers(members, p)
    ensures i < |members| && !members[i].value.Undefined? && m == Member(members[i].key, Canonicalize(members[i].value, p))
  {
    if !members[0].value.Undefined? && m == Member(members[0].key, Canonicalize(members[0].value, p)) {
      i := 0;
    } else {
      var j := MemberOrigin(members[1..], p, m);
      i := j + 1;
    }
  }

  lemma FixedItems(s: seq<Json>, p: Platform)
    requires forall x :: x in s ==> Canonicalize(x, p) == x
    ensures CanonicalItems(s, p) == s
  {
  }

  lemma FixedMembers(s: seq<Member>, p: Platform)
    requires AllDefined(s) && forall m :: m in s ==> Canonicalize(m.value, p) == m.value
    ensures CanonicalMembers(s, p) == s
  {
    CanonicalDefined(s, p);
  }

  /** Canonicalising twice is canonicalising once. */
  lemma {:induction false} CanonicalizeIsIdempotent(v: Json, p: Platform)
    requires Preorder(p.atMost)
    ensures Canonicalize(Canonicalize(v, p), p) == Canonicalize(v, p)
  {
    Preorders(p);
    match v {
      case Array(items) =>
        var c := CanonicalItems(items, p);
        SortHolds(c, ItemLe(p));
        forall x | x in Sort(c, ItemLe(p)) ensures Canonicalize(x, p) == x {
          var i :| 0 <= i < |c| && c[i] == x;
          CanonicalizeIsIdempotent(items[i], p);
        }
        FixedItems(Sort(c, ItemLe(p)), p);
        SortSorts(c, ItemLe(p));
        SortedStays(Sort(c, ItemLe(p)), ItemLe(p));
      case Object(members) =>
        var c := CanonicalMembers(members, p);
        SortHolds(c, KeyLe(p));
        forall m | m in Sort(c, KeyLe(p)) ensures Canonicalize(m.value, p) == m.value && !m.value.Undefined? {
          var i := MemberOrigin(members, p, m);
          CanonicalizeIsIdempotent(members[i].value, p);
        }
        FixedMembers(Sort(c, KeyLe(p)), p);
        SortSorts(c, KeyLe(p));
        SortedStays(Sort(c, KeyLe(p)), KeyLe(p));
      case _ =>
    }
  }

  /** A payload without ties has the form of every payload that is the same but for the order. */
  lemma {:induction false} EquivalentHasSameForm(a: Json, b: Json, p: Platform)
    requires Preorder(p.atMost) && TieFree(a, p) && Equivalent(a, b)
    ensures Canonicalize(a, p) == Canonicalize(b, p)
    decreases a, 0
  {
    Preorders(p);
    match a {
      case Array(items) =>
        PairedItems(items, b.items, p);
        SameSort(CanonicalItems(items, p), CanonicalItems(b.items, p), ItemLe(p));
      case Object(members) =>
        CanonicalOfDefined(b.members, p);
        PairedMembers(members, Defined(b.members), p);
        SameSort(CanonicalMembers(members, p), CanonicalMembers(b.members, p), KeyLe(p));
      case _ =>
    }
  }

  lemma SameSort<T(!new)>(a: seq<T>, b: seq<T>, le: (T, T) -> bool)
    requires Preorder(le) && NoTies(a, le) && multiset(a) == multiset(b)
    ensures Sort(a, le) == Sort(b, le)
  {
    SortMembers(a, le);
    SortMembers(b, le);
    SortHolds(a, le);
    SortSorts(a, le);
    SortSorts(b, le);
    SortedUnique(Sort(a, le), Sort(b, le), le);
  }

  lemma {:induction false} PairedItems(xs: seq<Json>, ys: seq<Json>, p: Platform)
    requires Preorder(p.atMost) && EquivalentItems(xs, ys) && forall x :: x in xs ==> TieFree(x, p)
    ensures multiset(CanonicalItems(xs, p)) == multiset(CanonicalItems(ys, p))
    decreases xs, 1
  {
    if xs != [] {
      var j :| 0 <= j < |ys| && Equivalent(xs[0], ys[j]) && EquivalentItems(xs[1..], Without(ys, j));
      var cx, cy := CanonicalItems(xs, p), CanonicalItems(ys, p);
      EquivalentHasSameForm(xs[0], ys[j], p);
      PairedItems(xs[1..], Without(ys, j), p);
      CanonicalWithout(ys, j, p);
      assert cx[1..] == CanonicalItems(xs[1..], p);
      PairFirst(cx, cy, j);
    }
  }

  lemma {:induction false} PairedMembers(xs: seq<Member>, ys: seq<Member>, p: Platform)
    requires Preorder(p.atMost) && EquivalentMembers(xs, ys) && AllDefined(ys) && forall x :: x in xs ==> TieFree(x.value, p)
    ensures multiset(CanonicalMembers(xs, p)) == multiset(CanonicalMembers(ys, p))
    decreases xs, 1
  {
    if xs != [] {
      if xs[0].value.Undefined? {
        PairedMembers(xs[1..], ys, p);
        assert CanonicalMembers(xs, p) == CanonicalMembers(xs[1..], p);
      } else {
        var j :| 0 <= j < |ys| && xs[0].key == ys[j].key && Equivalent(xs[0].value, ys[j].value) && EquivalentMembers(xs[1..], Without(ys, j));
        var cx, cy := CanonicalMembers(xs, p), CanonicalMembers(ys, p);
        EquivalentHasSameForm(xs[0].value, ys[j].value, p);
        CanonicalDefined(ys, p);
        CanonicalMembersWithout(ys, j, p);
        PairedMembers(xs[1..], Without(ys, j), p);
        assert cx[1..] == CanonicalMembers(xs[1..], p);
        PairFirst(cx, cy, j);
      }
    }
  }

  // ---------------------------------------------------------------- exactly when the form is a complete invariant

  lemma {:induction false} EquivalentToItself(v: Json)
    ensures Equivalent(v, v)
    decreases v, 0
  {
    match v {
      case Array(items) => EquivalentItemsToThemselves(items);
      case Object(members) => EquivalentMembersToThemselves(members);
      case _ =>
    }
  }

  lemma {:induction false} EquivalentItemsToThemselves(items: seq<Json>)
    ensures EquivalentItems(items, items)
    decreases items, 1
  {
    if items != [] {
      EquivalentToItself(items[0]);
      EquivalentItemsToThemselves(items[1..]);
      assert Without(items, 0) == items[1..];
    }
  }

  lemma {:induction false} EquivalentMembersToThemselves(members: seq<Member>)
    ensures EquivalentMembers(members, Defined(members))
    decreases members, 1
  {
    if members != [] {
      EquivalentMembersToThemselves(members[1..]);
      if members[0].value.Undefined? {
        assert Defined(members) == Defined(members[1..]);
      } else {
        EquivalentToItself(members[0].value);
        assert Without(Defined(members), 0) == Defined(members[1..]);
      }
    }
  }

  /** On these two payloads the form decides whether they are the same. */
  ghost predicate Decides(a: Json, b: Json, p: Platform) {
    Canonicalize(a, p) == Canonicalize(b, p) <==> Equivalent(a, b)
  }

  // Tied items keep their order in the form, so moving one or the other to the front gives different forms.

  function ToFront<T>(s: seq<T>, i: nat): seq<T>
    requires i < |s|
  {
    [s[i]] + Without(s, i)
  }

  lemma ToFrontMembers<T>(s: seq<T>, i: nat)
    requires i < |s|
    ensures multiset(ToFront(s, i)) == multiset(s)
    ensures forall x :: x in ToFront(s, i) <==> x in s
  {
    WithoutMembers(s, i);
    assert forall x :: x in ToFront(s, i) <==> x in multiset(ToFront(s, i));
  }

  lemma FrontComesFirst<T(!new)>(s: seq<T>, le: (T, T) -> bool, i: nat, x: T)
    requires Preorder(le) && i < |s| && le(x, s[i]) && le(s[i], x)
    ensures var f := Filter(Sort(ToFront(s, i), le), TiedWith(x, le)); f != [] && f[0] == s[i]
  {
    TiedStay(ToFront(s, i), le, x);
    FilterCons(s[i], Without(s, i), TiedWith(x, le));
  }

  lemma FrontsDiffer<T(!new)>(s: seq<T>, le: (T, T) -> bool, i: nat, j: nat)
    requires Preorder(le) && i < |s| && j < |s| && s[i] != s[j] && le(s[i], s[j]) && le(s[j], s[i])
    ensures Sort(ToFront(s, i), le) != Sort(ToFront(s, j), le)
  {
    FrontComesFirst(s, le, i, s[i]);
    FrontComesFirst(s, le, j, s[i]);
  }

  lemma UpdateDiffers<T>(s: seq<T>, i: nat, x: T)
    requires i < |s| && x != s[i]
    ensures multiset(s[i := x]) != multiset(s)
  {
    var rest := multiset(s[..i]) + multiset(s[i + 1..]);
    assert s == s[..i] + [s[i]] + s[i + 1..];
    assert s[i := x] == s[..i] + [x] + s[i + 1..];
    assert multiset(s) == rest + multiset{s[i]} && multiset(s[i := x]) == rest + multiset{x};
    assert multiset(s[i := x])[x] == multiset(s)[x] + 1;
  }

  lemma FindsTie<T(!new)>(s: seq<T>, le: (T, T) -> bool) returns (i: nat, j: nat)
    requires !NoTies(s, le)
    ensures i < |s| && j < |s| && s[i] != s[j] && le(s[i], s[j]) && le(s[j], s[i])
  {
    var x, y :| x in s && y in s && le(x, y) && le(y, x) && x != y;
    i :| 0 <= i < |s| && s[i] == x;
    j :| 0 <= j < |s| && s[j] == y;
  }

  /** Which of two rearrangements has another form. */
  lemma FrontThatDiffers<T(!new)>(s: seq<T>, le: (T, T) -> bool) returns (i: nat)
    requires Preorder(le) && !NoTies(s, le)
    ensures i < |s| && Sort(ToFront(s, i), le) != Sort(s, le)
  {
    var j;
    i, j := FindsTie(s, le);
    FrontsDiffer(s, le, i, j);
    i := if Sort(ToFront(s, i), le) != Sort(s, le) then i else j;
  }

  lemma SortsDiffer<T>(a: seq<T>, b: seq<T>, le: (T, T) -> bool)
    requires multiset(a) != multiset(b)
    ensures Sort(a, le) != Sort(b, le)
  {
    SortMembers(a, le);
    SortMembers(b, le);
  }

  /** Another order of the items, in which a tie is resolved differently. */
  lemma TiedItemsConfuse(items: seq<Json>, p: Platform) returns (other: seq<Json>)
    requires Preorder(p.atMost) && !NoTies(CanonicalItems(items, p), ItemLe(p))
    ensures forall x :: x in other <==> x in items
    ensures EquivalentItems(items, other) && Canonicalize(Array(other), p) != Canonicalize(Array(items), p)
  {
    Preorders(p);
    var i := FrontThatDiffers(CanonicalItems(items, p), ItemLe(p));
    ItemsToFront(items, i, p);
    other := ToFront(items, i);
  }

  lemma ItemsToFront(items: seq<Json>, i: nat, p: Platform)
    requires i < |items|
    ensures CanonicalItems(ToFront(items, i), p) == ToFront(CanonicalItems(items, p), i)
    ensures EquivalentItems(items, ToFront(items, i)) && forall x :: x in ToFront(items, i) <==> x in items
  {
    CanonicalWithout(items, i, p);
    ToFrontMembers(items, i);
    ToFrontMembers(CanonicalItems(items, p), i);
    SameItems(items, ToFront(items, i), p);
  }

  lemma {:induction false} FirstWithFirst(xs: seq<Json>, ys: seq<Json>)
    requires xs != [] && ys != [] && Equivalent(xs[0], ys[0]) && EquivalentItems(xs[1..], ys[1..])
    ensures EquivalentItems(xs, ys)
  {
    assert Without(ys, 0) == ys[1..];
  }

  lemma {:induction false} ReplaceItem(items: seq<Json>, i: nat, v: Json)
    requires i < |items| && Equivalent(items[i], v)
    ensures EquivalentItems(items, items[i := v])
  {
    var other := items[i := v];
    if i == 0 {
      EquivalentItemsToThemselves(items[1..]);
      assert other[1..] == items[1..];
    } else {
      EquivalentToItself(items[0]);
      ReplaceItem(items[1..], i - 1, v);
      assert items[1..][i - 1 := v] == other[1..];
    }
    FirstWithFirst(items, other);
  }

  lemma ReplacedItemDiffers(items: seq<Json>, i: nat, v: Json, p: Platform)
    requires i < |items| && Canonicalize(v, p) != Canonicalize(items[i], p)
    ensures Canonicalize(Array(items[i := v]), p) != Canonicalize(Array(items), p)
  {
    var c := CanonicalItems(items, p);
    assert CanonicalItems(items[i := v], p) == c[i := Canonicalize(v, p)];
    UpdateDiffers(c, i, Canonicalize(v, p));
    SortsDiffer(c[i := Canonicalize(v, p)], c, ItemLe(p));
  }

  // The same for the members of an object, of which only the defined ones count.

  lemma {:induction false} DefinedUnique(members: seq<Member>)
    requires UniqueKeys(members)
    ensures UniqueKeys(Defined(members)) && forall m :: m in Defined(members) <==> m in members && !m.value.Undefined?
  {
    if members != [] {
      assert members == [members[0]] + members[1..];
      DefinedUnique(members[1..]);
    }
  }

  lemma {:induction false} DefinedStays(members: seq<Member>)
    requires AllDefined(members)
    ensures Defined(members) == members
  {
    if members != [] {
      DefinedStays(members[1..]);
    }
  }

  lemma {:induction false} UndefinedAreSkipped(xs: seq<Member>, ys: seq<Member>)
    requires EquivalentMembers(Defined(xs), ys)
    ensures EquivalentMembers(xs, ys)
  {
    if xs != [] {
      var rest := Defined(xs[1..]);
      if xs[0].value.Undefined? {
        assert Defined(xs) == rest;
        UndefinedAreSkipped(xs[1..], ys);
      } else {
        assert Defined(xs) == [xs[0]] + rest && Defined(xs)[1..] == rest;
        var j :| 0 <= j < |ys| && xs[0].key == ys[j].key && Equivalent(xs[0].value, ys[j].value) && EquivalentMembers(rest, Without(ys, j));
        UndefinedAreSkipped(xs[1..], Without(ys, j));
      }
    }
  }

  lemma {:induction false} FirstMembers(xs: seq<Member>, ys: seq<Member>)
    requires xs != [] && ys != [] && !xs[0].value.Undefined?
    requires xs[0].key == ys[0].key && Equivalent(xs[0].value, ys[0].value) && EquivalentMembers(xs[1..], ys[1..])
    ensures EquivalentMembers(xs, ys)
  {
    assert Without(ys, 0) == ys[1..];
  }

  lemma {:induction false} ReplaceMember(members: seq<Member>, i: nat, v: Json)
    requires AllDefined(members) && i < |members| && Equivalent(members[i].value, v)
    ensures EquivalentMembers(members, members[i := Member(members[i].key, v)])
  {
    var other := members[i := Member(members[i].key, v)];
    assert members[0] in members;
    if i == 0 {
      DefinedStays(members[1..]);
      EquivalentMembersToThemselves(members[1..]);
      assert other[1..] == members[1..];
    } else {
      EquivalentToItself(members[0].value);
      ReplaceMember(members[1..], i - 1, v);
      assert members[1..][i - 1 := Member(members[i].key, v)] == other[1..];
    }
    FirstMembers(members, other);
  }

  lemma UpdatedMembers(members: seq<Member>, i: nat, v: Json, p: Platform)
    requires AllDefined(members) && i < |members| && !v.Undefined?
    ensures |CanonicalMembers(members, p)| == |members| && AllDefined(members[i := Member(members[i].key, v)])
    ensures CanonicalMembers(members[i := Member(members[i].key, v)], p) ==
            CanonicalMembers(members, p)[i := Member(members[i].key, Canonicalize(v, p))]
  {
    CanonicalDefined(members, p);
    CanonicalDefined(members[i := Member(members[i].key, v)], p);
  }

  lemma ReplacedMemberDiffers(members: seq<Member>, i: nat, v: Json, p: Platform)
    requires AllDefined(members) && i < |members| && !v.Undefined? && Canonicalize(v, p) != Canonicalize(members[i].value, p)
    ensures Canonicalize(Object(members[i := Member(members[i].key, v)]), p) != Canonicalize(Object(members), p)
  {
    var c, m, other := CanonicalMembers(members, p), Member(members[i].key, Canonicalize(v, p)), members[i := Member(members[i].key, v)];
    UpdatedMembers(members, i, v, p);
    MemberForm(members, i, p);
    UpdateDiffers(c, i, m);
    ObjectsDiffer(other, members, p);
  }

  lemma ObjectsDiffer(xs: seq<Member>, ys: seq<Member>, p: Platform)
    requires multiset(CanonicalMembers(xs, p)) != multiset(CanonicalMembers(ys, p))
    ensures Canonicalize(Object(xs), p) != Canonicalize(Object(ys), p)
  {
    SortsDiffer(CanonicalMembers(xs, p), CanonicalMembers(ys, p), KeyLe(p));
    FormsDiffer(xs, ys, p);
  }

  lemma MemberForm(members: seq<Member>, i: nat, p: Platform)
    requires AllDefined(members) && i < |members|
    ensures |CanonicalMembers(members, p)| == |members|
    ensures CanonicalMembers(members, p)[i] == Member(members[i].key, Canonicalize(members[i].value, p))
  {
    CanonicalDefined(members, p);
  }

  lemma CanonicalToFront(members: seq<Member>, i: nat, p: Platform)
    requires AllDefined(members) && i < |members|
    ensures |CanonicalMembers(members, p)| == |members| && AllDefined(ToFront(members, i))
    ensures CanonicalMembers(ToFront(members, i), p) == ToFront(CanonicalMembers(members, p), i)
  {
    var front := [members[i]] + Without(members, i);
    ToFrontMembers(members, i);
    CanonicalDefined(members, p);
    CanonicalMembersWithout(members, i, p);
    assert members[i] in members && front[1..] == Without(members, i);
    assert CanonicalMembers(front, p) == [CanonicalMembers(members, p)[i]] + CanonicalMembers(front[1..], p);
  }

  lemma UniqueToFront(members: seq<Member>, i: nat)
    requires UniqueKeys(members) && i < |members|
    ensures UniqueKeys(ToFront(members, i))
  {
  }

  lemma MembersToFront(members: seq<Member>, i: nat, p: Platform)
    requires AllDefined(members) && i < |members|
    ensures AllDefined(ToFront(members, i)) && EquivalentMembers(members, ToFront(members, i))
    ensures forall m :: m in ToFront(members, i) <==> m in members
  {
    CanonicalToFront(members, i, p);
    ToFrontMembers(members, i);
    ToFrontMembers(CanonicalMembers(members, p), i);
    SameMembers(members, ToFront(members, i), p);
  }

  lemma CanonicalCount(members: seq<Member>, p: Platform)
    requires AllDefined(members)
    ensures |CanonicalMembers(members, p)| == |members|
  {
    CanonicalDefined(members, p);
  }

  lemma TiedMembersConfuse(members: seq<Member>, p: Platform) returns (other: seq<Member>)
    requires Preorder(p.atMost) && AllDefined(members) && UniqueKeys(members) && !NoTies(CanonicalMembers(members, p), KeyLe(p))
    ensures UniqueKeys(other) && AllDefined(other) && forall m :: m in other <==> m in members
    ensures EquivalentMembers(members, other) && Canonicalize(Object(other), p) != Canonicalize(Object(members), p)
  {
    Preorders(p);
    CanonicalCount(members, p);
    var i := FrontThatDiffers(CanonicalMembers(members, p), KeyLe(p));
    other := ToFront(members, i);
    UniqueToFront(members, i);
    MembersToFront(members, i, p);
    CanonicalToFront(members, i, p);
    FormsDiffer(other, members, p);
  }

  lemma FormsDiffer(xs: seq<Member>, ys: seq<Member>, p: Platform)
    requires Sort(CanonicalMembers(xs, p), KeyLe(p)) != Sort(CanonicalMembers(ys, p), KeyLe(p))
    ensures Canonicalize(Object(xs), p) != Canonicalize(Object(ys), p)
  {
  }

  /** An object may be replaced by its defined members in any equivalent form. */
  lemma {:induction false} DefinedMembersMatter(a: Json, other: seq<Member>, p: Platform)
    requires a.Object? && AllDefined(other) && EquivalentMembers(Defined(a.members), other)
    ensures Equivalent(a, Object(other)) && Canonicalize(a, p) == Canonicalize(Object(Defined(a.members)), p)
  {
    DefinedStays(other);
    UndefinedAreSkipped(a.members, other);
    CanonicalOfDefined(a.members, p);
  }

  lemma ReplacedItemWellFormed(items: seq<Json>, i: nat, v: Json)
    requires i < |items| && WellFormed(Array(items)) && WellFormed(v)
    ensures WellFormed(Array(items[i := v]))
  {
  }

  lemma ReplacedMemberWellFormed(members: seq<Member>, i: nat, v: Json)
    requires i < |members| && WellFormed(Object(members)) && WellFormed(v)
    ensures WellFormed(Object(members[i := Member(members[i].key, v)]))
  {
  }

  /** A payload with a tie has another form in another order. */
  lemma {:induction false} TiesConfuse(a: Json, p: Platform) returns (b: Json)
    requires Preorder(p.atMost) && WellFormed(a) && !TieFree(a, p)
    ensures WellFormed(b) && Equivalent(a, b) && Canonicalize(b, p) != Canonicalize(a, p)
    decreases a, 1
  {
    if a.Array? {
      if i :| 0 <= i < |a.items| && !TieFree(a.items[i], p) {
        var v := TiesConfuse(a.items[i], p);
        b := Array(a.items[i := v]);
        ReplaceItem(a.items, i, v);
        ReplacedItemDiffers(a.items, i, v, p);
        ReplacedItemWellFormed(a.items, i, v);
      } else {
        var other := TiedItemsConfuse(a.items, p);
        b := Array(other);
      }
    } else {
      b := TiedObjectConfuses(a, p);
    }
  }

  lemma {:induction false} TiedObjectConfuses(a: Json, p: Platform) returns (b: Json)
    requires Preorder(p.atMost) && a.Object? && WellFormed(a) && !TieFree(a, p)
    ensures WellFormed(b) && Equivalent(a, b) && Canonicalize(b, p) != Canonicalize(a, p)
    decreases a, 0
  {
    var members := Defined(a.members);
    DefinedUnique(a.members);
    CanonicalOfDefined(a.members, p);
    if m :| m in a.members && !TieFree(m.value, p) {
      assert m in members;
      var i :| 0 <= i < |members| && members[i] == m;
      var v := TiesConfuse(m.value, p);
      var other := members[i := Member(members[i].key, v)];
      b := Object(other);
      ReplaceMember(members, i, v);
      UpdatedMembers(members, i, v, p);
      ReplacedMemberDiffers(members, i, v, p);
      ReplacedMemberWellFormed(members, i, v);
      DefinedMembersMatter(a, other, p);
    } else {
      var other := TiedMembersConfuse(members, p);
      b := Object(other);
      DefinedMembersMatter(a, other, p);
    }
  }

  /** The form of a payload decides which others are the same exactly if the payload has no tie. */
  lemma FormDecidesExactlyWhenTieFree(a: Json, p: Platform)
    requires Preorder(p.atMost) && WellFormed(a)
    ensures (forall b :: WellFormed(b) ==> Decides(a, b, p)) <==> TieFree(a, p)
  {
    if TieFree(a, p) {
      forall b | WellFormed(b) ensures Decides(a, b, p) {
        if Canonicalize(a, p) == Canonicalize(b, p) {
          SameFormIsEquivalent(a, b, p);
        }
        if Equivalent(a, b) {
          EquivalentHasSameForm(a, b, p);
        }
      }
    } else {
      var b := TiesConfuse(a, p);
      assert !Decides(a, b, p);
    }
  }
}
