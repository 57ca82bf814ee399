/** Where the SQL compiler is exact and where it is not: empty groups, unreferenced parameters, wildcard values. */
module FilterExact {
  import opened Options
  import opened SqlText
  import opened FilterTypes
  import opened FilterSql
  import opened FilterMemory
  import opened FilterMeaning

  // ---------------------------------------------------------------- empty groups do not parse

  predicate EmptyAt(ts: seq<Token>, i: nat) {
    i + 1 < |ts| && ts[i] == LParen && ts[i + 1] == RParen
  }

  ghost predicate HasEmptyParens(ts: seq<Token>) {
    exists i :: EmptyAt(ts, i)
  }

  /** A piece the parser can consume: it begins with no `)`, ends with no `(` and holds no `()`. */
  ghost predicate Solid(used: seq<Token>) {
    used != [] && used[0] != RParen && used[|used| - 1] != LParen && !HasEmptyParens(used)
  }

  predicate IsParen(t: Token) {
    t == LParen || t == RParen
  }

  lemma JoinEmpty(a: seq<Token>, t: Token, b: seq<Token>)
    requires !IsParen(t)
    ensures HasEmptyParens(a + [t] + b) ==> HasEmptyParens(a) || HasEmptyParens(b)
  {
    var whole := a + [t] + b;
    if i: nat :| EmptyAt(whole, i) {
      assert whole[|a|] == t;
      if i < |a| {
        assert EmptyAt(a, i);
      } else {
        assert EmptyAt(b, i - |a| - 1);
      }
    }
  }

  lemma SolidJoin(a: seq<Token>, t: Token, b: seq<Token>)
    requires Solid(a) && Solid(b) && !IsParen(t)
    ensures Solid(a + [t] + b)
  {
    JoinEmpty(a, t, b);
  }

  lemma ParensEmpty(inner: seq<Token>)
    requires inner != [] && inner[0] != RParen && inner[|inner| - 1] != LParen
    ensures HasEmptyParens([LParen] + inner + [RParen]) ==> HasEmptyParens(inner)
  {
    var whole := [LParen] + inner + [RParen];
    if i: nat :| EmptyAt(whole, i) {
      assert 0 < i < |inner|;
      assert EmptyAt(inner, i - 1);
    }
  }

  lemma SolidParens(inner: seq<Token>)
    requires Solid(inner)
    ensures Solid([LParen] + inner + [RParen])
  {
    ParensEmpty(inner);
  }

  lemma {:induction false} OperandUses(ts: seq<Token>) returns (used: seq<Token>)
    requires ParseOperand(ts).Some?
    ensures used != [] && ts == used + ParseOperand(ts).value.1 && forall t :: t in used ==> !IsParen(t)
    decreases |ts|
  {
    if |ts| >= 2 && ts[1] == ConcatOp {
      var more := OperandUses(ts[2..]);
      used := [ts[0], ts[1]] + more;
    } else {
      used := [ts[0]];
    }
  }

  lemma TailUses(a: Operand, ts: seq<Token>) returns (used: seq<Token>)
    requires ParseTail(a, ts).Some?
    ensures ts == used + ParseTail(a, ts).value.1 && forall t :: t in used ==> !IsParen(t)
  {
    if ts[0].Compare? || ts[0] == ILikeWord {
      var operand := OperandUses(ts[1..]);
      used := [ts[0]] + operand;
    } else if ts[0] == NotWord {
      var operand := OperandUses(ts[2..]);
      used := [ts[0], ts[1]] + operand;
    } else if ts[1] == NullWord {
      used := [ts[0], ts[1]];
    } else {
      used := [ts[0], ts[1], ts[2]];
    }
  }

  lemma {:induction false} PrimaryUses(ts: seq<Token>) returns (used: seq<Token>)
    requires ParsePrimary(ts).Some?
    ensures Solid(used) && ts == used + ParsePrimary(ts).value.1
    decreases |ts|, 0
  {
    if ts[0] == LParen {
      var inner := OrUses(ts[1..]);
      SolidParens(inner);
      used := [LParen] + inner + [RParen];
    } else {
      var operand := OperandUses(ts);
      var a := ParseOperand(ts).value;
      var tail := TailUses(a.0, a.1);
      used := operand + tail;
      assert forall i :: 0 <= i < |used| ==> used[i] in used;
    }
  }

  lemma {:induction false} AndUses(ts: seq<Token>) returns (used: seq<Token>)
    requires ParseAnd(ts).Some?
    ensures Solid(used) && ts == used + ParseAnd(ts).value.1
    decreases |ts|, 1
  {
    used := PrimaryUses(ts);
    var mid := ParsePrimary(ts).value.1;
    if mid != [] && mid[0] == AndWord {
      var more := AndUses(mid[1..]);
      SolidJoin(used, AndWord, more);
      used := used + [AndWord] + more;
    }
  }

  lemma {:induction false} OrUses(ts: seq<Token>) returns (used: seq<Token>)
    requires ParseOr(ts).Some?
    ensures Solid(used) && ts == used + ParseOr(ts).value.1
    decreases |ts|, 2
  {
    used := AndUses(ts);
    var mid := ParseAnd(ts).value.1;
    if mid != [] && mid[0] == OrWord {
      var more := OrUses(mid[1..]);
      SolidJoin(used, OrWord, more);
      used := used + [OrWord] + more;
    }
  }

  lemma EmptyParensInside(a: seq<Token>, b: seq<Token>, c: seq<Token>)
    requires HasEmptyParens(b)
    ensures HasEmptyParens(a + b + c)
  {
    var i :| EmptyAt(b, i);
    assert EmptyAt(a + b + c, |a| + i);
  }

  lemma {:induction false} EmptyGroupPrintsParens(node: Node, fields: Fields, env: Services, n: nat)
    requires CompileNode(node, fields, env, n).Some? && !NonEmpty(node)
    ensures HasEmptyParens(CompileNode(node, fields, env, n).value.text)
    decreases node, 0
  {
    var parts := CompileNodes(node.conditions, fields, env, n).value.0;
    if node.conditions == [] {
      assert EmptyAt(CompileNode(node, fields, env, n).value.text, 0);
    } else {
      EmptyGroupInside(node.conditions, node.logic, fields, env, n);
      EmptyParensInside([LParen], Joined(parts, node.logic), [RParen]);
    }
  }

  /** The joined text as its first part, the rest and what stands between. */
  lemma JoinedParts(nodes: seq<Node>, logic: Logic, fields: Fields, env: Services, n: nat) returns (joint: seq<Token>)
    requires CompileNodes(nodes, fields, env, n).Some? && nodes != []
    ensures var first := CompileNode(nodes[0], fields, env, n).value;
      var others := CompileNodes(nodes[1..], fields, env, n + |first.added|).value.0;
      Joined(CompileNodes(nodes, fields, env, n).value.0, logic) == first.text + joint + Joined(others, logic)
    ensures Referenced(joint) == {}
  {
    if |nodes| > 1 {
      joint := [if logic.AllOf? then AndWord else OrWord];
      var first := CompileNode(nodes[0], fields, env, n).value;
      var others := CompileNodes(nodes[1..], fields, env, n + |first.added|).value.0;
      assert Joined(others, logic) + [] == Joined(others, logic);
      assert Joined(CompileNodes(nodes, fields, env, n).value.0, logic) + [] == Joined(CompileNodes(nodes, fields, env, n).value.0, logic);
    } else {
      joint := [];
    }
  }

  lemma EmptyParensAround(a: seq<Token>, joint: seq<Token>, b: seq<Token>)
    requires HasEmptyParens(a) || HasEmptyParens(b)
    ensures HasEmptyParens(a + joint + b)
  {
    if HasEmptyParens(a) {
      EmptyParensInside([], a, joint + b);
      assert [] + a + (joint + b) == a + joint + b;
    } else {
      EmptyParensInside(a + joint, b, []);
      assert (a + joint) + b + [] == a + joint + b;
    }
  }

  lemma {:induction false} EmptyGroupInside(nodes: seq<Node>, logic: Logic, fields: Fields, env: Services, n: nat)
    requires CompileNodes(nodes, fields, env, n).Some? && !NonEmptyAll(nodes)
    ensures HasEmptyParens(Joined(CompileNodes(nodes, fields, env, n).value.0, logic))
    decreases nodes, 1
  {
    var first := CompileNode(nodes[0], fields, env, n).value;
    var rest := Joined(CompileNodes(nodes[1..], fields, env, n + |first.added|).value.0, logic);
    var joint := JoinedParts(nodes, logic, fields, env, n);
    if !NonEmpty(nodes[0]) {
      EmptyGroupPrintsParens(nodes[0], fields, env, n);
    } else {
      EmptyGroupInside(nodes[1..], logic, fields, env, n + |first.added|);
    }
    EmptyParensAround(first.text, joint, rest);
  }

  lemma ParsedIsSolid(text: seq<Token>)
    requires Parse(text).Some?
    ensures !HasEmptyParens(text)
  {
    var used := OrUses(text);
    assert used + [] == used;
  }

  /** The printed text is SQL exactly when no group is empty. */
  lemma ParsesExactlyWhenNonEmpty(node: Node, fields: Fields, env: Services, n: nat)
    requires CompileNode(node, fields, env, n).Some?
    ensures Parse(CompileNode(node, fields, env, n).value.text).Some? <==> NonEmpty(node)
  {
    var text := CompileNode(node, fields, env, n).value.text;
    if NonEmpty(node) {
      TextReadsAsTree(node, fields, env, n);
    } else {
      EmptyGroupPrintsParens(node, fields, env, n);
      if Parse(text).Some? {
        ParsedIsSolid(text);
      }
    }
  }

  // ---------------------------------------------------------------- every parameter is referenced, or not

  predicate IsDateAfter(c: Condition, fields: Fields) {
    c.field in fields && fields[c.field].kind.Date? && c.operator.After?
  }

  predicate NoDateAfter(node: Node, fields: Fields) {
    match node
    case Leaf(c) => !IsDateAfter(c, fields)
    case Group(_, nodes) => forall child :: child in nodes ==> NoDateAfter(child, fields)
  }

  predicate NoDateAfterAll(nodes: seq<Node>, fields: Fields) {
    forall child :: child in nodes ==> NoDateAfter(child, fields)
  }

  lemma NoDateAfterCons(nodes: seq<Node>, fields: Fields)
    requires nodes != []
    ensures NoDateAfterAll(nodes, fields) <==> NoDateAfter(nodes[0], fields) && NoDateAfterAll(nodes[1..], fields)
  {
    assert forall child :: child in nodes <==> child == nodes[0] || child in nodes[1..];
  }

  lemma ReferencedJoin(a: seq<Token>, b: seq<Token>)
    ensures Referenced(a + b) == Referenced(a) + Referenced(b)
  {
  }

  lemma NoneReferenced(ts: seq<Token>)
    requires forall t :: t in ts ==> !t.Param?
    ensures Referenced(ts) == {}
  {
  }

  lemma TextReferences(column: string, op: Operator, value: Scalar, n: nat)
    requires CompileText(column, op, value, n).Some?
    ensures Referenced(CompileText(column, op, value, n).value.text) == {n + 1}
  {
    var ts := CompileText(column, op, value, n).value.text;
    assert Param(n + 1) in ts;
    assert forall t :: t in ts && t.Param? ==> t.index == n + 1;
  }

  lemma LeafReferences(c: Condition, fields: Fields, env: Services, n: nat)
    requires CompileLeaf(c, fields, env, n).Some?
    ensures var printed := CompileLeaf(c, fields, env, n).value;
      && Referenced(printed.text) <= Numbers(n, |printed.added|)
      && (Referenced(printed.text) == Numbers(n, |printed.added|) <==> !IsDateAfter(c, fields))
  {
    var printed := CompileLeaf(c, fields, env, n).value;
    var column, kind := fields[c.field].column, fields[c.field].kind;
    var op1, op2 := LeafIsChain(c, fields, env, n);
    if IsValueless(c.operator) {
      NoneReferenced(printed.text);
    } else if |LeafChain(c, fields, env, n)| == 1 {
      if kind.Text? {
        TextReferences(column, c.operator, ScalarValue(c.value, kind, env).value, n);
      } else if kind.Date? && c.operator.NotEquals? {
        var inner := Compared(column, Lt, n + 1) + [OrWord] + Compared(column, Ge, n + 2);
        assert printed.text == [LParen] + inner + [RParen];
        ReferencedJoin([LParen] + inner, [RParen]);
        ReferencedJoin([LParen], inner);
        NoneReferenced([LParen]);
        NoneReferenced([RParen]);
      } else if kind.Date? && c.operator.After? {
        assert n + 1 in Numbers(n, 2);
      }
    }
  }

  /** The text references only parameters it registered, and all of them exactly when `all` holds. */
  ghost predicate Covers(text: seq<Token>, n: nat, count: nat, all: bool) {
    && Referenced(text) <= Numbers(n, count)
    && (Referenced(text) == Numbers(n, count) <==> all)
  }

  lemma CoversJoin(a: seq<Token>, joint: seq<Token>, b: seq<Token>, n: nat, ca: nat, cb: nat, all: bool, rest: bool)
    requires Covers(a, n, ca, all) && Covers(b, n + ca, cb, rest) && Referenced(joint) == {}
    ensures Covers(a + joint + b, n, ca + cb, all && rest)
  {
    ReferencedJoin(a + joint, b);
    ReferencedJoin(a, joint);
  }

  lemma {:induction false} NodeReferences(node: Node, fields: Fields, env: Services, n: nat)
    requires CompileNode(node, fields, env, n).Some?
    ensures var printed := CompileNode(node, fields, env, n).value;
      Covers(printed.text, n, |printed.added|, NoDateAfter(node, fields))
    decreases node, 0
  {
    match node {
      case Leaf(c) => LeafReferences(c, fields, env, n);
      case Group(logic, nodes) =>
        NodesReferences(nodes, logic, fields, env, n);
        var inner := Joined(CompileNodes(nodes, fields, env, n).value.0, logic);
        ReferencedJoin([LParen] + inner, [RParen]);
        ReferencedJoin([LParen], inner);
        NoneReferenced([LParen]);
        NoneReferenced([RParen]);
    }
  }

  lemma {:induction false} NodesReferences(nodes: seq<Node>, logic: Logic, fields: Fields, env: Services, n: nat)
    requires CompileNodes(nodes, fields, env, n).Some?
    ensures var (parts, added) := CompileNodes(nodes, fields, env, n).value;
      Covers(Joined(parts, logic), n, |added|, NoDateAfterAll(nodes, fields))
    decreases nodes, 1
  {
    if nodes != [] {
      var first := CompileNode(nodes[0], fields, env, n).value;
      var m := n + |first.added|;
      var (others, added) := CompileNodes(nodes[1..], fields, env, m).value;
      NodeReferences(nodes[0], fields, env, n);
      NodesReferences(nodes[1..], logic, fields, env, m);
      NoDateAfterCons(nodes, fields);
      var joint := JoinedParts(nodes, logic, fields, env, n);
      assert CompileNodes(nodes, fields, env, n).value.1 == first.added + added;
      CoversJoin(first.text, joint, Joined(others, logic), n, |first.added|, |added|,
                 NoDateAfter(nodes[0], fields), NoDateAfterAll(nodes[1..], fields));
    }
  }

  /** The text references only parameters it registered, and all of them exactly when no date field is tested with AFTER. */
  lemma EveryParameterIsReferenced(node: Node, fields: Fields, env: Services, n: nat)
    requires CompileNode(node, fields, env, n).Some?
    ensures var printed := CompileNode(node, fields, env, n).value;
      && Referenced(printed.text) <= Numbers(n, |printed.added|)
      && (Referenced(printed.text) == Numbers(n, |printed.added|) <==> NoDateAfter(node, fields))
  {
    NodeReferences(node, fields, env, n);
  }

  // ---------------------------------------------------------------- the whole query

  /**
   * For every tree the compiler accepts and under any parameter offset: the database takes the query exactly when no group
   * is empty and no date field is tested with AFTER; then it selects only rows the in-memory interpreter keeps, exactly
   * those when no tested cell is empty, and the interpreter does not throw.
   */
  lemma SqlSelectsWhatMemoryKeeps(node: Node, fields: Fields, env: Services, before: seq<Scalar>, row: Row)
    requires CompileNode(node, fields, env, |before|).Some?
    requires KeepsWild(env.fold) && TypedRow(row, fields) && PlainNode(node, fields)
    ensures var printed := CompileNode(node, fields, env, |before|).value;
      && (Accepted(printed.text, |before|, |printed.added|) <==> NonEmpty(node) && NoDateAfter(node, fields))
      && (Accepted(printed.text, |before|, |printed.added|) ==>
            Agrees(Selects(env.fold, printed.text, |before|, row, before + printed.added), MatchNode(row, node, fields, env),
                   FilledNode(node, fields, row)))
  {
    AcceptedExactly(node, fields, env, |before|);
    if NonEmpty(node) {
      TextAgreesWithMemory(node, fields, env, before, row);
    }
  }

  lemma AcceptedExactly(node: Node, fields: Fields, env: Services, n: nat)
    requires CompileNode(node, fields, env, n).Some?
    ensures var printed := CompileNode(node, fields, env, n).value;
      Accepted(printed.text, n, |printed.added|) <==> NonEmpty(node) && NoDateAfter(node, fields)
  {
    ParsesExactlyWhenNonEmpty(node, fields, env, n);
    EveryParameterIsReferenced(node, fields, env, n);
  }

  /**
   * What a caller sees who filters a date field by AFTER: two parameters are sent, the text mentions the second only, and
   * the database refuses it, while the same filter in memory keeps the rows of later days.
   */
  lemma DateAfterIsRefused(env: Services, day: string, start: int, row: Row)
    requires ScalarValue(day, Date, env) == Some(At(start))
    ensures var fields, c := map["createdAt" := SqlField("t.created_at", Date)], Condition("createdAt", After, day, None);
      && CompileLeaf(c, fields, env, 0) == Some(Printed([Column("t.created_at"), Compare(Ge), Param(2)], [At(start), At(start + DAY_MS)]))
      && !Accepted(CompileLeaf(c, fields, env, 0).value.text, 0, 2)
      && (CellOf(row, "t.created_at") == Value(At(start + DAY_MS)) ==> MatchLeaf(row, c, fields, env) == Some(true))
  {
    var fields, c := map["createdAt" := SqlField("t.created_at", Date)], Condition("createdAt", After, day, None);
    var text := CompileLeaf(c, fields, env, 0).value.text;
    assert text == [Column("t.created_at"), Compare(Ge), Param(2)];
    assert 1 in Numbers(0, 2) && 1 !in Referenced(text);
  }

  // ---------------------------------------------------------------- wildcard values

  predicate IsTextTest(op: Operator) {
    op.Equals? || op.NotEquals? || op.ContainsText? || op.NotContains? || op.StartsWith? || op.EndsWithText?
  }

  /** In SQL and in memory a condition says the same of a row that holds this text. */
  ghost predicate TextTestAgrees(c: Condition, fields: Fields, env: Services, n: nat, params: seq<Scalar>, s: string)
    requires c.field in fields && CompileLeaf(c, fields, env, n).Some?
  {
    var row := map[fields[c.field].column := Value(Str(s))];
    MatchLeaf(row, c, fields, env) == Some(Truth(env.fold, FoldAnd(LeafChain(c, fields, env, n)), row, params))
  }

  /** Any of the six text tests agrees with its in-memory form on every text exactly when its value carries no wildcard. */
  lemma TextTestsNeedPlainValues(c: Condition, fields: Fields, env: Services, n: nat, params: seq<Scalar>)
    requires KeepsWild(env.fold) && c.field in fields && fields[c.field].kind.Text? && IsTextTest(c.operator)
    requires Placed(params, n, [Str(c.value)])
    ensures CompileLeaf(c, fields, env, n).Some?
    ensures (forall s: string :: TextTestAgrees(c, fields, env, n, params, s)) <==> Plain(c.value)
  {
    var value, before, after := [Str(c.value)], AnyBefore(c.operator), AnyAfter(c.operator);
    assert params[n + 0] == value[0];
    ILikeIsExactExactlyWhenPlain(env.fold, c.value, before, after);
    forall s: string
      ensures TextTestAgrees(c, fields, env, n, params, s) <==> TestedAsMeant(env.fold, s, c.value, before, after)
    {
      TextTestMeaning(c, fields, env, n, params, s);
    }
  }

  lemma TextTestMeaning(c: Condition, fields: Fields, env: Services, n: nat, params: seq<Scalar>, s: string)
    requires c.field in fields && fields[c.field].kind.Text? && IsTextTest(c.operator) && n < |params| && params[n] == Str(c.value)
    ensures TextTestAgrees(c, fields, env, n, params, s) <==>
            TestedAsMeant(env.fold, s, c.value, AnyBefore(c.operator), AnyAfter(c.operator))
  {
    var row := map[fields[c.field].column := Value(Str(s))];
    assert CellOf(row, fields[c.field].column) == Value(Str(s));
    var negated := c.operator.NotEquals? || c.operator.NotContains?;
    assert LeafChain(c, fields, env, n) == [ILike(negated, Col(fields[c.field].column), Pattern(c.operator, n + 1))];
    PatternValue(c.operator, c.value, n, row, params);
    MatchTextIsFound(Folded(env.fold, s), c.operator, Folded(env.fold, c.value));
  }
}
