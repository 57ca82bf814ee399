/** The printed SQL, read with SQL precedence, selects what the in-memory interpreter selects. */
module FilterMeaning {
  import opened Options
  import opened SqlText
  import opened FilterTypes
  import opened FilterSql
  import opened FilterMemory

  // ---------------------------------------------------------------- conjunction and disjunction chains

  /** `x1 AND (x2 AND (...))`, and the same before a conjunction already read. */
  function FoldAnd(chain: seq<Sql>): Sql
    requires chain != []
  {
    if |chain| == 1 then chain[0] else And(chain[0], FoldAnd(chain[1..]))
  }

  function FoldOr(chain: seq<Sql>): Sql
    requires chain != []
  {
    if |chain| == 1 then chain[0] else Or(chain[0], FoldOr(chain[1..]))
  }

  ghost predicate Truth(fold: char -> char, e: Sql, row: Row, params: seq<Scalar>) {
    Eval(fold, e, row, params) == True
  }

  lemma {:induction false} FoldAndTruth(fold: char -> char, chain: seq<Sql>, row: Row, params: seq<Scalar>)
    requires chain != []
    ensures Truth(fold, FoldAnd(chain), row, params) <==> forall e :: e in chain ==> Truth(fold, e, row, params)
  {
    if |chain| > 1 {
      FoldAndTruth(fold, chain[1..], row, params);
      assert forall e :: e in chain <==> e == chain[0] || e in chain[1..];
      assert FoldAnd(chain) == And(chain[0], FoldAnd(chain[1..]));
      assert Truth(fold, FoldAnd(chain), row, params) <==>
             Truth(fold, chain[0], row, params) && Truth(fold, FoldAnd(chain[1..]), row, params);
    } else {
      assert forall e :: e in chain <==> e == chain[0];
    }
  }

  lemma {:induction false} FoldOrTruth(fold: char -> char, chain: seq<Sql>, row: Row, params: seq<Scalar>)
    requires chain != []
    ensures Truth(fold, FoldOr(chain), row, params) <==> exists e :: e in chain && Truth(fold, e, row, params)
  {
    if |chain| > 1 {
      FoldOrTruth(fold, chain[1..], row, params);
      assert forall e :: e in chain <==> e == chain[0] || e in chain[1..];
      assert FoldOr(chain) == Or(chain[0], FoldOr(chain[1..]));
      assert Truth(fold, FoldOr(chain), row, params) <==>
             Truth(fold, chain[0], row, params) || Truth(fold, FoldOr(chain[1..]), row, params);
    } else {
      assert forall e :: e in chain <==> e == chain[0];
    }
  }

  predicate EndsOr(rest: seq<Token>) {
    rest == [] || rest[0] == RParen
  }

  predicate EndsAnd(rest: seq<Token>) {
    EndsOr(rest) || rest[0] == OrWord
  }

  predicate EndsPrimary(rest: seq<Token>) {
    EndsAnd(rest) || rest[0] == AndWord
  }

  // ---------------------------------------------------------------- what a condition's text says

  /** The primaries a condition is printed as, joined by AND. */
  function LeafChain(c: Condition, fields: Fields, env: Services, n: nat): seq<Sql>
    requires CompileLeaf(c, fields, env, n).Some?
  {
    var column, kind := fields[c.field].column, fields[c.field].kind;
    var col, p1, p2 := Col(column), Par(n + 1), Par(n + 2);
    if IsValueless(c.operator) then
      [if kind.Text? then
         if c.operator.IsEmpty? then Or(IsNull(false, col), Cmp(Eq, col, Lit(""))) else And(IsNull(true, col), Cmp(Ne, col, Lit("")))
       else IsNull(!c.operator.IsEmpty?, col)]
    else if IsRelative(c.operator) then [Cmp(Ge, col, p1), Cmp(Lt, col, p2)]
    else if kind.Text? then
      var any := Lit("%");
      [ILike(c.operator.NotEquals? || c.operator.NotContains?, col,
             if c.operator.ContainsText? || c.operator.NotContains? then Cat(any, Cat(p1, any))
             else if c.operator.StartsWith? then Cat(p1, any)
             else if c.operator.EndsWithText? then Cat(any, p1)
             else p1)]
    else if kind.Date? then
      match c.operator
      case NotEquals => [Or(Cmp(Lt, col, p1), Cmp(Ge, col, p2))]
      case Before => [Cmp(Lt, col, p1)]
      case After => [Cmp(Ge, col, p2)]
      case _ => [Cmp(Ge, col, p1), Cmp(Lt, col, p2)]
    else if c.operator.Between? then [Cmp(Ge, col, p1), Cmp(Le, col, p2)]
    else [Cmp(if CompareOpOf(c.operator).Some? then CompareOpOf(c.operator).value else Eq, col, p1)]
  }

  lemma ReadCompared(column: string, op: CompareOp, index: nat, rest: seq<Token>)
    requires EndsPrimary(rest)
    ensures ParsePrimary(Compared(column, op, index) + rest) == Some((Cmp(op, Col(column), Par(index)), rest))
  {
    var ts := Compared(column, op, index) + rest;
    assert ts[1..] == [Compare(op), Param(index)] + rest;
    assert ts[1..][1..] == [Param(index)] + rest;
    assert ts[1..][1..][1..] == rest;
  }

  lemma ReadComparedText(column: string, op: CompareOp, text: string, rest: seq<Token>)
    requires EndsPrimary(rest)
    ensures ParsePrimary([Column(column), Compare(op), Quoted(text)] + rest) == Some((Cmp(op, Col(column), Lit(text)), rest))
  {
    var ts := [Column(column), Compare(op), Quoted(text)] + rest;
    assert ts[1..] == [Compare(op), Quoted(text)] + rest;
    assert ts[1..][1..] == [Quoted(text)] + rest;
    assert ts[1..][1..][1..] == rest;
  }

  lemma ReadIsNull(column: string, negated: bool, rest: seq<Token>)
    requires EndsPrimary(rest)
    ensures ParsePrimary([Column(column), IsWord] + (if negated then [NotWord, NullWord] else [NullWord]) + rest) ==
            Some((IsNull(negated, Col(column)), rest))
  {
    var ts := [Column(column), IsWord] + (if negated then [NotWord, NullWord] else [NullWord]) + rest;
    assert ts[1..] == [IsWord] + (if negated then [NotWord, NullWord] else [NullWord]) + rest;
    if negated {
      assert ts[1..][3..] == rest;
    } else {
      assert ts[1..][2..] == rest;
    }
  }

  /** The pattern operands: `$n`, `$n || '%'`, `'%' || $n` and `'%' || $n || '%'`. */
  lemma ReadPattern(index: nat, before: bool, after: bool, rest: seq<Token>)
    requires EndsPrimary(rest)
    ensures var any := Quoted("%");
      ParseOperand((if before then [any, ConcatOp] else []) + [Param(index)] + (if after then [ConcatOp, any] else []) + rest) ==
      Some((var p := if after then Cat(Par(index), Lit("%")) else Par(index); if before then Cat(Lit("%"), p) else p, rest))
  {
    var any := Quoted("%");
    var tail := [Param(index)] + (if after then [ConcatOp, any] else []) + rest;
    assert ParseOperand(tail) == Some((if after then Cat(Par(index), Lit("%")) else Par(index), rest)) by {
      if after {
        assert tail[2..] == [any] + rest;
        assert tail[2..][1..] == rest;
      } else {
        assert tail[1..] == rest;
      }
    }
    var ts := (if before then [any, ConcatOp] else []) + [Param(index)] + (if after then [ConcatOp, any] else []) + rest;
    if before {
      assert ts[2..] == tail;
    } else {
      assert ts == tail;
    }
  }

  lemma ReadILike(column: string, negated: bool, pattern: seq<Token>, o: Operand, rest: seq<Token>)
    requires ParseOperand(pattern + rest) == Some((o, rest))
    ensures ParsePrimary([Column(column)] + (if negated then [NotWord, ILikeWord] else [ILikeWord]) + pattern + rest) ==
            Some((ILike(negated, Col(column), o), rest))
  {
    var ts := [Column(column)] + (if negated then [NotWord, ILikeWord] else [ILikeWord]) + pattern + rest;
    assert ts[1..] == (if negated then [NotWord, ILikeWord] else [ILikeWord]) + pattern + rest;
    if negated {
      assert ts[1..][2..] == pattern + rest;
    } else {
      assert ts[1..][1..] == pattern + rest;
    }
  }

  /** A parenthesised text is read as its inside. */
  lemma ReadParens(inner: seq<Token>, e: Sql, rest: seq<Token>)
    requires ParseOr(inner + ([RParen] + rest)) == Some((e, [RParen] + rest))
    ensures ParsePrimary([LParen] + inner + [RParen] + rest) == Some((e, rest))
  {
    var ts := [LParen] + inner + [RParen] + rest;
    assert ts[1..] == inner + ([RParen] + rest);
    assert ([RParen] + rest)[1..] == rest;
  }

  lemma PrimaryThen(text: seq<Token>, e: Sql, more: seq<Token>, f: Sql, rest: seq<Token>)
    requires ParsePrimary(text + ([AndWord] + more)) == Some((e, [AndWord] + more))
    requires ParseAnd(more) == Some((f, rest))
    ensures ParseAnd(text + [AndWord] + more) == Some((And(e, f), rest))
  {
    assert text + [AndWord] + more == text + ([AndWord] + more);
    assert ([AndWord] + more)[1..] == more;
  }

  lemma AndEnds(text: seq<Token>, e: Sql, rest: seq<Token>)
    requires EndsOr(rest) && ParseAnd(text + rest) == Some((e, rest))
    ensures ParseOr(text + rest) == Some((e, rest))
  {
  }

  lemma AndThenOr(text: seq<Token>, e: Sql, more: seq<Token>, f: Sql, rest: seq<Token>)
    requires ParseAnd(text + ([OrWord] + more)) == Some((e, [OrWord] + more))
    requires ParseOr(more) == Some((f, rest))
    ensures ParseOr(text + [OrWord] + more) == Some((Or(e, f), rest))
  {
    assert text + [OrWord] + more == text + ([OrWord] + more);
    assert ([OrWord] + more)[1..] == more;
  }

  /** A condition is one primary, or two comparisons joined by AND. */
  lemma LeafIsChain(c: Condition, fields: Fields, env: Services, n: nat) returns (op1: CompareOp, op2: CompareOp)
    requires CompileLeaf(c, fields, env, n).Some?
    ensures var chain, text, column := LeafChain(c, fields, env, n), CompileLeaf(c, fields, env, n).value.text, fields[c.field].column;
      && 1 <= |chain| <= 2
      && (|chain| == 2 ==>
            && text == Compared(column, op1, n + 1) + [AndWord] + Compared(column, op2, n + 2)
            && chain == [Cmp(op1, Col(column), Par(n + 1)), Cmp(op2, Col(column), Par(n + 2))])
  {
    op1, op2 := Ge, if fields[c.field].kind.Date? then Lt else Le;
  }

  /** A date that is not on a day: before it or after it. */
  function Outside(column: string, n: nat): seq<Token> {
    [LParen] + (Compared(column, Lt, n + 1) + [OrWord] + Compared(column, Ge, n + 2)) + [RParen]
  }

  lemma ReadOutside(column: string, n: nat, rest: seq<Token>)
    ensures ParsePrimary(Outside(column, n) + rest) == Some((Or(Cmp(Lt, Col(column), Par(n + 1)), Cmp(Ge, Col(column), Par(n + 2))), rest))
  {
    var left, right, close := Compared(column, Lt, n + 1), Compared(column, Ge, n + 2), [RParen] + rest;
    var before, after := Cmp(Lt, Col(column), Par(n + 1)), Cmp(Ge, Col(column), Par(n + 2));
    assert ParseAnd(left + ([OrWord] + (right + close))) == Some((before, [OrWord] + (right + close))) by {
      ReadCompared(column, Lt, n + 1, [OrWord] + (right + close));
    }
    assert ParseOr(right + close) == Some((after, close)) by {
      ReadCompared(column, Ge, n + 2, close);
      AndEnds(right, after, close);
    }
    assert ParseOr((left + [OrWord] + right) + close) == Some((Or(before, after), close)) by {
      AndThenOr(left, before, right + close, after, close);
      assert (left + [OrWord] + right) + close == left + [OrWord] + (right + close);
    }
    ReadParens(left + [OrWord] + right, Or(before, after), rest);
  }

  lemma ReadSingleLeaf(c: Condition, fields: Fields, env: Services, n: nat, rest: seq<Token>)
    requires CompileLeaf(c, fields, env, n).Some? && |LeafChain(c, fields, env, n)| == 1 && EndsPrimary(rest)
    ensures ParsePrimary(CompileLeaf(c, fields, env, n).value.text + rest) == Some((LeafChain(c, fields, env, n)[0], rest))
  {
    var column, kind := fields[c.field].column, fields[c.field].kind;
    var text := CompileLeaf(c, fields, env, n).value.text;
    if IsValueless(c.operator) {
      ReadEmptyTest(column, kind, c.operator.IsEmpty?, rest);
    } else if kind.Text? {
      ReadTextTest(column, c.operator, ScalarValue(c.value, kind, env).value, n, rest);
    } else if kind.Date? {
      if c.operator.NotEquals? {
        ReadOutside(column, n, rest);
        assert text == Outside(column, n);
      } else if c.operator.Before? {
        ReadCompared(column, Lt, n + 1, rest);
      } else {
        ReadCompared(column, Ge, n + 2, rest);
      }
    } else {
      ReadCompared(column, CompareOpOf(c.operator).value, n + 1, rest);
    }
  }

  lemma ReadEmptyText(column: string, close: seq<Token>)
    requires close != [] && close[0] == RParen
    ensures ParseOr([Column(column), Compare(Eq), Quoted("")] + close) == Some((Cmp(Eq, Col(column), Lit("")), close))
  {
    ReadComparedText(column, Eq, "", close);
    AndEnds([Column(column), Compare(Eq), Quoted("")], Cmp(Eq, Col(column), Lit("")), close);
  }

  lemma ReadBlank(column: string, rest: seq<Token>)
    ensures ParsePrimary(CompileEmpty(column, Text, true) + rest) ==
            Some((Or(IsNull(false, Col(column)), Cmp(Eq, Col(column), Lit(""))), rest))
  {
    var close := [RParen] + rest;
    var left, right := [Column(column), IsWord] + [NullWord], [Column(column), Compare(Eq), Quoted("")];
    assert ParseAnd(left + ([OrWord] + (right + close))) == Some((IsNull(false, Col(column)), [OrWord] + (right + close))) by {
      ReadIsNull(column, false, [OrWord] + (right + close));
    }
    ReadEmptyText(column, close);
    AndThenOr(left, IsNull(false, Col(column)), right + close, Cmp(Eq, Col(column), Lit("")), close);
    assert (left + [OrWord] + right) + close == left + [OrWord] + (right + close);
    ReadParens(left + [OrWord] + right, Or(IsNull(false, Col(column)), Cmp(Eq, Col(column), Lit(""))), rest);
    assert CompileEmpty(column, Text, true) == [LParen] + (left + [OrWord] + right) + [RParen];
  }

  lemma ReadNotBlank(column: string, rest: seq<Token>)
    ensures ParsePrimary(CompileEmpty(column, Text, false) + rest) ==
            Some((And(IsNull(true, Col(column)), Cmp(Ne, Col(column), Lit(""))), rest))
  {
    var close := [RParen] + rest;
    var left, right := [Column(column), IsWord] + [NotWord, NullWord], [Column(column), Compare(Ne), Quoted("")];
    var both := And(IsNull(true, Col(column)), Cmp(Ne, Col(column), Lit("")));
    assert ParseAnd(right + close) == Some((Cmp(Ne, Col(column), Lit("")), close)) by {
      ReadComparedText(column, Ne, "", close);
    }
    assert ParseOr((left + [AndWord] + right) + close) == Some((both, close)) by {
      ReadIsNull(column, true, [AndWord] + (right + close));
      PrimaryThen(left, IsNull(true, Col(column)), right + close, Cmp(Ne, Col(column), Lit("")), close);
      assert (left + [AndWord] + right) + close == left + [AndWord] + (right + close);
      AndEnds(left + [AndWord] + right, both, close);
    }
    ReadParens(left + [AndWord] + right, both, rest);
    assert CompileEmpty(column, Text, false) == [LParen] + (left + [AndWord] + right) + [RParen];
  }

  lemma ReadEmptyTest(column: string, kind: FieldType, isEmpty: bool, rest: seq<Token>)
    requires EndsPrimary(rest)
    ensures ParsePrimary(CompileEmpty(column, kind, isEmpty) + rest) ==
            Some((if kind.Text? then
                    if isEmpty then Or(IsNull(false, Col(column)), Cmp(Eq, Col(column), Lit("")))
                    else And(IsNull(true, Col(column)), Cmp(Ne, Col(column), Lit("")))
                  else IsNull(!isEmpty, Col(column)), rest))
  {
    if kind.Text? {
      if isEmpty {
        ReadBlank(column, rest);
      } else {
        ReadNotBlank(column, rest);
      }
    } else {
      ReadIsNull(column, !isEmpty, rest);
      assert CompileEmpty(column, kind, isEmpty) == [Column(column), IsWord] + (if !isEmpty then [NotWord, NullWord] else [NullWord]);
    }
  }

  lemma ReadTextTest(column: string, op: Operator, value: Scalar, n: nat, rest: seq<Token>)
    requires EndsPrimary(rest) && CompileText(column, op, value, n).Some?
    ensures var any := Lit("%");
      ParsePrimary(CompileText(column, op, value, n).value.text + rest) ==
      Some((ILike(op.NotEquals? || op.NotContains?, Col(column),
                  if op.ContainsText? || op.NotContains? then Cat(any, Cat(Par(n + 1), any))
                  else if op.StartsWith? then Cat(Par(n + 1), any)
                  else if op.EndsWithText? then Cat(any, Par(n + 1))
                  else Par(n + 1)), rest))
  {
    var any := Quoted("%");
    var before := op.ContainsText? || op.NotContains? || op.EndsWithText?;
    var after := op.ContainsText? || op.NotContains? || op.StartsWith?;
    var negated := op.NotEquals? || op.NotContains?;
    var pattern := (if before then [any, ConcatOp] else []) + [Param(n + 1)] + (if after then [ConcatOp, any] else []);
    var o := var p := if after then Cat(Par(n + 1), Lit("%")) else Par(n + 1); if before then Cat(Lit("%"), p) else p;
    assert ParsePrimary([Column(column)] + (if negated then [NotWord, ILikeWord] else [ILikeWord]) + pattern + rest)
        == Some((ILike(negated, Col(column), o), rest)) by {
      ReadPattern(n + 1, before, after, rest);
      ReadILike(column, negated, pattern, o, rest);
    }
    assert CompileText(column, op, value, n).value.text ==
           [Column(column)] + (if negated then [NotWord, ILikeWord] else [ILikeWord]) + pattern;
  }

  // ---------------------------------------------------------------- what a tree's text says

  /** Every group holds something; an empty one would print `()`. */
  predicate NonEmpty(node: Node) {
    node.Group? ==> node.conditions != [] && forall child :: child in node.conditions ==> NonEmpty(child)
  }

  predicate NonEmptyAll(nodes: seq<Node>) {
    forall child :: child in nodes ==> NonEmpty(child)
  }

  /** The primaries a node is printed as, joined by AND: a group is one primary. */
  function ChainOf(node: Node, fields: Fields, env: Services, n: nat): (chain: seq<Sql>)
    requires CompileNode(node, fields, env, n).Some? && NonEmpty(node)
    ensures chain != []
    decreases node, 0
  {
    match node
    case Leaf(c) => LeafChain(c, fields, env, n)
    case Group(logic, nodes) =>
      [if logic.AllOf? then FoldAnd(AllChains(nodes, fields, env, n)) else FoldOr(AnyChains(nodes, fields, env, n))]
  }

  function AllChains(nodes: seq<Node>, fields: Fields, env: Services, n: nat): (chain: seq<Sql>)
    requires CompileNodes(nodes, fields, env, n).Some? && NonEmptyAll(nodes)
    ensures nodes != [] ==> chain != []
    decreases nodes, 1
  {
    if nodes == [] then []
    else
      ChainOf(nodes[0], fields, env, n)
      + AllChains(nodes[1..], fields, env, n + |CompileNode(nodes[0], fields, env, n).value.added|)
  }

  function AnyChains(nodes: seq<Node>, fields: Fields, env: Services, n: nat): (chain: seq<Sql>)
    requires CompileNodes(nodes, fields, env, n).Some? && NonEmptyAll(nodes)
    ensures |chain| == |nodes|
    decreases nodes, 1
  {
    if nodes == [] then []
    else
      [FoldAnd(ChainOf(nodes[0], fields, env, n))]
      + AnyChains(nodes[1..], fields, env, n + |CompileNode(nodes[0], fields, env, n).value.added|)
  }

  lemma {:induction false} FoldAndSplice(a: seq<Sql>, b: seq<Sql>)
    requires b != []
    ensures FoldAnd(a + [FoldAnd(b)]) == FoldAnd(a + b)
  {
    if a == [] {
      assert a + [FoldAnd(b)] == [FoldAnd(b)] && a + b == b;
    } else {
      FoldAndSplice(a[1..], b);
      assert (a + [FoldAnd(b)])[1..] == a[1..] + [FoldAnd(b)];
      assert (a + b)[1..] == a[1..] + b;
    }
  }

  lemma ReadPairEnds(column: string, op1: CompareOp, op2: CompareOp, n: nat, rest: seq<Token>)
    requires EndsAnd(rest)
    ensures ParseAnd(Compared(column, op1, n + 1) + [AndWord] + Compared(column, op2, n + 2) + rest) ==
            Some((And(Cmp(op1, Col(column), Par(n + 1)), Cmp(op2, Col(column), Par(n + 2))), rest))
  {
    var left, right := Compared(column, op1, n + 1), Compared(column, op2, n + 2);
    ReadCompared(column, op1, n + 1, [AndWord] + (right + rest));
    ReadCompared(column, op2, n + 2, rest);
    PrimaryThen(left, Cmp(op1, Col(column), Par(n + 1)), right + rest, Cmp(op2, Col(column), Par(n + 2)), rest);
    assert left + [AndWord] + right + rest == left + [AndWord] + (right + rest);
  }

  lemma ReadPairThen(column: string, op1: CompareOp, op2: CompareOp, n: nat, more: seq<Token>, f: Sql, rest: seq<Token>)
    requires ParseAnd(more) == Some((f, rest))
    ensures ParseAnd(Compared(column, op1, n + 1) + [AndWord] + Compared(column, op2, n + 2) + [AndWord] + more) ==
            Some((And(Cmp(op1, Col(column), Par(n + 1)), And(Cmp(op2, Col(column), Par(n + 2)), f)), rest))
  {
    var left, right := Compared(column, op1, n + 1), Compared(column, op2, n + 2);
    var tail := right + [AndWord] + more;
    var second := And(Cmp(op2, Col(column), Par(n + 2)), f);
    assert ParseAnd(tail) == Some((second, rest)) by {
      ReadCompared(column, op2, n + 2, [AndWord] + more);
      PrimaryThen(right, Cmp(op2, Col(column), Par(n + 2)), more, f, rest);
    }
    assert ParseAnd(left + [AndWord] + tail) == Some((And(Cmp(op1, Col(column), Par(n + 1)), second), rest)) by {
      ReadCompared(column, op1, n + 1, [AndWord] + tail);
      PrimaryThen(left, Cmp(op1, Col(column), Par(n + 1)), tail, second, rest);
    }
    assert left + [AndWord] + right + [AndWord] + more == left + [AndWord] + tail;
  }

  lemma FoldPair(a: Sql, b: Sql, f: Sql)
    ensures FoldAnd([a, b]) == And(a, b)
    ensures FoldAnd([a] + [f]) == And(a, f)
    ensures FoldAnd([a, b] + [f]) == And(a, And(b, f))
  {
    assert [a, b][1..] == [b] && ([a] + [f])[1..] == [f];
    assert ([a, b] + [f])[1..] == [b, f] && [b, f][1..] == [f];
  }

  /** A leaf where its AND chain ends. */
  lemma ReadLeafEnds(c: Condition, fields: Fields, env: Services, n: nat, rest: seq<Token>)
    requires CompileLeaf(c, fields, env, n).Some? && EndsAnd(rest)
    ensures ParseAnd(CompileLeaf(c, fields, env, n).value.text + rest) == Some((FoldAnd(LeafChain(c, fields, env, n)), rest))
  {
    var op1, op2 := LeafIsChain(c, fields, env, n);
    var chain := LeafChain(c, fields, env, n);
    if |chain| == 1 {
      ReadSingleLeaf(c, fields, env, n, rest);
    } else {
      ReadPairEnds(fields[c.field].column, op1, op2, n, rest);
      FoldPair(chain[0], chain[1], chain[0]);
    }
  }

  /** A leaf that another AND follows. */
  lemma ReadLeafThen(c: Condition, fields: Fields, env: Services, n: nat, more: seq<Token>, f: Sql, rest: seq<Token>)
    requires CompileLeaf(c, fields, env, n).Some? && ParseAnd(more) == Some((f, rest))
    ensures ParseAnd(CompileLeaf(c, fields, env, n).value.text + [AndWord] + more) ==
            Some((FoldAnd(LeafChain(c, fields, env, n) + [f]), rest))
  {
    var op1, op2 := LeafIsChain(c, fields, env, n);
    var chain := LeafChain(c, fields, env, n);
    if |chain| == 1 {
      ReadSingleLeaf(c, fields, env, n, [AndWord] + more);
      PrimaryThen(CompileLeaf(c, fields, env, n).value.text, chain[0], more, f, rest);
      FoldPair(chain[0], chain[0], f);
      assert chain == [chain[0]];
    } else {
      ReadPairThen(fields[c.field].column, op1, op2, n, more, f, rest);
      FoldPair(chain[0], chain[1], f);
      assert chain == [chain[0], chain[1]];
    }
  }

  lemma {:induction false} ReadEnds(node: Node, fields: Fields, env: Services, n: nat, rest: seq<Token>)
    requires CompileNode(node, fields, env, n).Some? && NonEmpty(node) && EndsAnd(rest)
    ensures ParseAnd(CompileNode(node, fields, env, n).value.text + rest) == Some((FoldAnd(ChainOf(node, fields, env, n)), rest))
    decreases node, 1
  {
    if node.Leaf? {
      ReadLeafEnds(node.condition, fields, env, n, rest);
    } else {
      ReadGroup(node, fields, env, n, rest);
    }
  }

  lemma {:induction false} ReadThen(node: Node, fields: Fields, env: Services, n: nat, more: seq<Token>, f: Sql, rest: seq<Token>)
    requires CompileNode(node, fields, env, n).Some? && NonEmpty(node) && ParseAnd(more) == Some((f, rest))
    ensures ParseAnd(CompileNode(node, fields, env, n).value.text + [AndWord] + more) ==
            Some((FoldAnd(ChainOf(node, fields, env, n) + [f]), rest))
    decreases node, 1
  {
    if node.Leaf? {
      ReadLeafThen(node.condition, fields, env, n, more, f, rest);
    } else {
      ReadGroup(node, fields, env, n, [AndWord] + more);
      var chain := ChainOf(node, fields, env, n);
      PrimaryThen(CompileNode(node, fields, env, n).value.text, chain[0], more, f, rest);
      assert (chain + [f])[1..] == [f];
    }
  }

  lemma {:induction false} ReadGroup(node: Node, fields: Fields, env: Services, n: nat, rest: seq<Token>)
    requires CompileNode(node, fields, env, n).Some? && NonEmpty(node) && node.Group?
    ensures ParsePrimary(CompileNode(node, fields, env, n).value.text + rest) == Some((ChainOf(node, fields, env, n)[0], rest))
    decreases node, 0
  {
    var parts := CompileNodes(node.conditions, fields, env, n).value.0;
    var inner := Joined(parts, node.logic);
    var e := ChainOf(node, fields, env, n)[0];
    if node.logic.AllOf? {
      ReadAll(node.conditions, fields, env, n, [RParen] + rest);
      AndEnds(inner, e, [RParen] + rest);
    } else {
      ReadAny(node.conditions, fields, env, n, [RParen] + rest);
    }
    ReadParens(inner, e, rest);
  }

  lemma AndThenAnd(text: seq<Token>, joined: seq<Token>, chain: seq<Sql>, more: seq<Token>, chains: seq<Sql>, rest: seq<Token>)
    requires chains != [] && joined == text + [AndWord] + more
    requires ParseAnd(text + [AndWord] + more) == Some((FoldAnd(chain + [FoldAnd(chains)]), rest))
    ensures ParseAnd(joined) == Some((FoldAnd(chain + chains), rest))
  {
    FoldAndSplice(chain, chains);
  }

  lemma OrThenOr(text: seq<Token>, joined: seq<Token>, e: Sql, more: seq<Token>, others: seq<Sql>, rest: seq<Token>)
    requires others != [] && joined == text + [OrWord] + more
    requires ParseAnd(text + ([OrWord] + more)) == Some((e, [OrWord] + more)) && ParseOr(more) == Some((FoldOr(others), rest))
    ensures ParseOr(joined) == Some((FoldOr([e] + others), rest))
  {
    AndThenOr(text, e, more, FoldOr(others), rest);
    assert ([e] + others)[1..] == others;
  }

  lemma {:induction false} ReadAll(nodes: seq<Node>, fields: Fields, env: Services, n: nat, rest: seq<Token>)
    requires CompileNodes(nodes, fields, env, n).Some? && nodes != [] && EndsAnd(rest)
    requires NonEmptyAll(nodes)
    ensures ParseAnd(Joined(CompileNodes(nodes, fields, env, n).value.0, AllOf) + rest) ==
            Some((FoldAnd(AllChains(nodes, fields, env, n)), rest))
    decreases nodes
  {
    var first := CompileNode(nodes[0], fields, env, n).value;
    var m := n + |first.added|;
    var chain := ChainOf(nodes[0], fields, env, n);
    assert nodes[0] in nodes;
    if |nodes| == 1 {
      ReadEnds(nodes[0], fields, env, n, rest);
    } else {
      var others := CompileNodes(nodes[1..], fields, env, m).value.0;
      var chains := AllChains(nodes[1..], fields, env, m);
      var more := Joined(others, AllOf) + rest;
      var joined := Joined(CompileNodes(nodes, fields, env, n).value.0, AllOf) + rest;
      assert joined == first.text + [AndWord] + more;
      assert ParseAnd(first.text + [AndWord] + more) == Some((FoldAnd(chain + [FoldAnd(chains)]), rest)) by {
        ReadAll(nodes[1..], fields, env, m, rest);
        ReadThen(nodes[0], fields, env, n, more, FoldAnd(chains), rest);
      }
      AndThenAnd(first.text, joined, chain, more, chains, rest);
      ChainsUnfold(nodes, fields, env, n);
    }
  }

  lemma {:induction false} ReadAny(nodes: seq<Node>, fields: Fields, env: Services, n: nat, rest: seq<Token>)
    requires CompileNodes(nodes, fields, env, n).Some? && nodes != [] && EndsOr(rest)
    requires NonEmptyAll(nodes)
    ensures ParseOr(Joined(CompileNodes(nodes, fields, env, n).value.0, AnyOf) + rest) ==
            Some((FoldOr(AnyChains(nodes, fields, env, n)), rest))
    decreases nodes
  {
    var first := CompileNode(nodes[0], fields, env, n).value;
    var m := n + |first.added|;
    var e := FoldAnd(ChainOf(nodes[0], fields, env, n));
    assert nodes[0] in nodes;
    if |nodes| == 1 {
      ReadEnds(nodes[0], fields, env, n, rest);
      AndEnds(first.text, e, rest);
    } else {
      var others := CompileNodes(nodes[1..], fields, env, m).value.0;
      var chains := AnyChains(nodes[1..], fields, env, m);
      var more := Joined(others, AnyOf) + rest;
      var joined := Joined(CompileNodes(nodes, fields, env, n).value.0, AnyOf) + rest;
      assert joined == first.text + [OrWord] + more;
      assert ParseAnd(first.text + ([OrWord] + more)) == Some((e, [OrWord] + more)) by {
        ReadEnds(nodes[0], fields, env, n, [OrWord] + more);
      }
      ReadAny(nodes[1..], fields, env, m, rest);
      OrThenOr(first.text, joined, e, more, chains, rest);
      ChainsUnfold(nodes, fields, env, n);
    }
  }

  /** The whole text is read as the tree says: mixing AND chains into OR groups never regroups them. */
  lemma TextReadsAsTree(node: Node, fields: Fields, env: Services, n: nat)
    requires CompileNode(node, fields, env, n).Some? && NonEmpty(node)
    ensures Parse(CompileNode(node, fields, env, n).value.text) == Some(FoldAnd(ChainOf(node, fields, env, n)))
  {
    var text := CompileNode(node, fields, env, n).value.text;
    ReadEnds(node, fields, env, n, []);
    assert text + [] == text;
    AndEnds(text, FoldAnd(ChainOf(node, fields, env, n)), []);
  }

  // ---------------------------------------------------------------- agreement of one condition

  predicate TypedCell(cell: Cell, kind: FieldType) {
    cell.Value? ==> HasType(cell.scalar, kind)
  }

  /** Every registered column holds values of its field's type, or nothing. */
  ghost predicate TypedRow(row: Row, fields: Fields) {
    forall f :: f in fields ==> TypedCell(CellOf(row, fields[f].column), fields[f].kind)
  }

  /** Text values that ILIKE takes as patterns carry no wildcard. */
  predicate PlainLeaf(c: Condition, fields: Fields) {
    c.field in fields && fields[c.field].kind.Text? && !IsValueless(c.operator) ==> Plain(c.value)
  }

  predicate FilledLeaf(c: Condition, fields: Fields, row: Row) {
    c.field in fields && !IsValueless(c.operator) ==> CellOf(row, fields[c.field].column).Value?
  }

  /** The parameters printed from position `n` on stand at their numbers. */
  ghost predicate Placed(params: seq<Scalar>, n: nat, added: seq<Scalar>) {
    n + |added| <= |params| && params[n..n + |added|] == added
  }

  /** `selected` by SQL implies `kept` in memory, and is the same when no tested cell is empty. */
  ghost predicate Agrees(selected: bool, kept: Option<bool>, filled: bool) {
    kept.Some? && (selected ==> kept.value) && (filled ==> (selected <==> kept.value))
  }

  lemma ChainTruth(fold: char -> char, chain: seq<Sql>, row: Row, params: seq<Scalar>)
    requires 1 <= |chain| <= 2
    ensures Truth(fold, FoldAnd(chain), row, params) <==>
            Truth(fold, chain[0], row, params) && (|chain| == 2 ==> Truth(fold, chain[1], row, params))
  {
    FoldAndTruth(fold, chain, row, params);
    assert forall e :: e in chain <==> e == chain[0] || (|chain| == 2 && e == chain[1]);
  }

  lemma LeafAgrees(c: Condition, fields: Fields, env: Services, n: nat, row: Row, params: seq<Scalar>)
    requires CompileLeaf(c, fields, env, n).Some? && KeepsWild(env.fold) && TypedRow(row, fields) && PlainLeaf(c, fields)
    requires Placed(params, n, CompileLeaf(c, fields, env, n).value.added)
    ensures Agrees(Truth(env.fold, FoldAnd(LeafChain(c, fields, env, n)), row, params), MatchLeaf(row, c, fields, env),
                   FilledLeaf(c, fields, row))
  {
    var column, kind := fields[c.field].column, fields[c.field].kind;
    var op1, op2 := LeafIsChain(c, fields, env, n);
    ChainTruth(env.fold, LeafChain(c, fields, env, n), row, params);
    assert TypedCell(CellOf(row, column), kind);
    if IsValueless(c.operator) {
      EmptyAgrees(c, fields, env, n, row, params);
    } else {
      if IsRelative(c.operator) {
        RelativeAgrees(c, fields, env, n, row, params);
      } else {
        match kind {
          case Text =>
            TextAgrees(c, column, env, n, row, params);
            assert LeafChain(c, fields, env, n)
                == [ILike(c.operator.NotEquals? || c.operator.NotContains?, Col(column), Pattern(c.operator, n + 1))];
          case Enum => EnumAgrees(c, fields, env, n, row, params);
          case Number => NumberAgrees(c, fields, env, n, row, params);
          case Time => NumberAgrees(c, fields, env, n, row, params);
          case Date => DateAgrees(c, fields, env, n, row, params);
        }
      }
    }
  }

  lemma EmptyAgrees(c: Condition, fields: Fields, env: Services, n: nat, row: Row, params: seq<Scalar>)
    requires CompileLeaf(c, fields, env, n).Some? && IsValueless(c.operator)
    requires TypedCell(CellOf(row, fields[c.field].column), fields[c.field].kind)
    ensures |LeafChain(c, fields, env, n)| == 1
    ensures MatchLeaf(row, c, fields, env) == Some(Truth(env.fold, LeafChain(c, fields, env, n)[0], row, params))
  {
    var column, kind := fields[c.field].column, fields[c.field].kind;
    var cell := CellOf(row, column);
    assert EvalOperand(Col(column), row, params) == if cell.Value? then Some(cell.scalar) else None;
    if kind.Text? {
      assert EvalOperand(Lit(""), row, params) == Some(Str(""));
      assert cell.Value? ==> cell.scalar.Str?;
      assert Truth(env.fold, IsNull(false, Col(column)), row, params) <==> !cell.Value?;
      assert Truth(env.fold, IsNull(true, Col(column)), row, params) <==> cell.Value?;
      assert Truth(env.fold, Cmp(Eq, Col(column), Lit("")), row, params) <==> cell.Value? && cell.scalar == Str("");
      assert Truth(env.fold, Cmp(Ne, Col(column), Lit("")), row, params) <==> cell.Value? && cell.scalar != Str("");
    }
  }

  /** The value of a single comparison with a parameter. */
  lemma CompareTruth(fold: char -> char, op: CompareOp, column: string, index: nat, row: Row, params: seq<Scalar>)
    requires 1 <= index <= |params|
    ensures var cell := CellOf(row, column);
      Truth(fold, Cmp(op, Col(column), Par(index)), row, params) <==>
      cell.Value? && EvalCompare(op, Some(cell.scalar), Some(params[index - 1])) == True
  {
  }

  lemma EnumAgrees(c: Condition, fields: Fields, env: Services, n: nat, row: Row, params: seq<Scalar>)
    requires CompileLeaf(c, fields, env, n).Some? && !IsValueless(c.operator) && !IsRelative(c.operator)
    requires fields[c.field].kind.Enum? && TypedCell(CellOf(row, fields[c.field].column), Enum)
    requires n < |params| && params[n] == Str(c.value)
    ensures |LeafChain(c, fields, env, n)| == 1
    ensures Agrees(Truth(env.fold, LeafChain(c, fields, env, n)[0], row, params), MatchLeaf(row, c, fields, env), FilledLeaf(c, fields, row))
  {
    CompareTruth(env.fold, CompareOpOf(c.operator).value, fields[c.field].column, n + 1, row, params);
  }

  lemma NumberAgrees(c: Condition, fields: Fields, env: Services, n: nat, row: Row, params: seq<Scalar>)
    requires CompileLeaf(c, fields, env, n).Some? && !IsValueless(c.operator) && !IsRelative(c.operator)
    requires fields[c.field].kind.Number? || fields[c.field].kind.Time?
    requires TypedCell(CellOf(row, fields[c.field].column), fields[c.field].kind)
    requires var added := CompileLeaf(c, fields, env, n).value.added;
      n + |added| <= |params| && forall i :: 0 <= i < |added| ==> params[n + i] == added[i]
    ensures var chain := LeafChain(c, fields, env, n);
      1 <= |chain| <= 2 &&
      Agrees(Truth(env.fold, chain[0], row, params) && (|chain| == 2 ==> Truth(env.fold, chain[1], row, params)),
             MatchLeaf(row, c, fields, env), FilledLeaf(c, fields, row))
  {
    var column, kind := fields[c.field].column, fields[c.field].kind;
    var value := ScalarValue(c.value, kind, env).value;
    var added := CompileLeaf(c, fields, env, n).value.added;
    assert added[0] == params[n + 0];
    if c.operator.Between? {
      RangeAgrees(c, fields, env, n, row, params);
    } else {
      CompareTruth(env.fold, CompareOpOf(c.operator).value, column, n + 1, row, params);
    }
  }

  lemma RangeAgrees(c: Condition, fields: Fields, env: Services, n: nat, row: Row, params: seq<Scalar>)
    requires CompileLeaf(c, fields, env, n).Some? && c.operator.Between?
    requires fields[c.field].kind.Number? || fields[c.field].kind.Time?
    requires TypedCell(CellOf(row, fields[c.field].column), fields[c.field].kind)
    requires var added := CompileLeaf(c, fields, env, n).value.added;
      n + |added| <= |params| && forall i :: 0 <= i < |added| ==> params[n + i] == added[i]
    ensures var chain := LeafChain(c, fields, env, n);
      |chain| == 2 &&
      Agrees(Truth(env.fold, chain[0], row, params) && Truth(env.fold, chain[1], row, params),
             MatchLeaf(row, c, fields, env), FilledLeaf(c, fields, row))
  {
    var column, added := fields[c.field].column, CompileLeaf(c, fields, env, n).value.added;
    assert added[0] == params[n + 0] && added[1] == params[n + 1];
    CompareTruth(env.fold, Ge, column, n + 1, row, params);
    CompareTruth(env.fold, Le, column, n + 2, row, params);
  }

  lemma DateAgrees(c: Condition, fields: Fields, env: Services, n: nat, row: Row, params: seq<Scalar>)
    requires CompileLeaf(c, fields, env, n).Some? && !IsValueless(c.operator) && !IsRelative(c.operator)
    requires fields[c.field].kind.Date? && TypedCell(CellOf(row, fields[c.field].column), Date)
    requires var added := CompileLeaf(c, fields, env, n).value.added;
      n + |added| <= |params| && forall i :: 0 <= i < |added| ==> params[n + i] == added[i]
    ensures var chain := LeafChain(c, fields, env, n);
      1 <= |chain| <= 2 &&
      Agrees(Truth(env.fold, chain[0], row, params) && (|chain| == 2 ==> Truth(env.fold, chain[1], row, params)),
             MatchLeaf(row, c, fields, env), FilledLeaf(c, fields, row))
  {
    var column := fields[c.field].column;
    var value := ScalarValue(c.value, Date, env).value;
    var added := CompileLeaf(c, fields, env, n).value.added;
    assert added[0] == params[n + 0];
    CompareTruth(env.fold, Ge, column, n + 1, row, params);
    CompareTruth(env.fold, Lt, column, n + 1, row, params);
    if !c.operator.Before? {
      assert added[1] == params[n + 1];
      CompareTruth(env.fold, Ge, column, n + 2, row, params);
      CompareTruth(env.fold, Lt, column, n + 2, row, params);
    }
  }

  lemma RelativeAgrees(c: Condition, fields: Fields, env: Services, n: nat, row: Row, params: seq<Scalar>)
    requires CompileLeaf(c, fields, env, n).Some? && IsRelative(c.operator) && TypedCell(CellOf(row, fields[c.field].column), Date)
    requires var added := CompileLeaf(c, fields, env, n).value.added;
      n + |added| <= |params| && forall i :: 0 <= i < |added| ==> params[n + i] == added[i]
    ensures fields[c.field].kind.Date?
    ensures var chain := LeafChain(c, fields, env, n);
      1 <= |chain| <= 2 &&
      Agrees(Truth(env.fold, chain[0], row, params) && (|chain| == 2 ==> Truth(env.fold, chain[1], row, params)),
             MatchLeaf(row, c, fields, env), FilledLeaf(c, fields, row))
  {
    var column, added := fields[c.field].column, CompileLeaf(c, fields, env, n).value.added;
    assert added[0] == params[n + 0] && added[1] == params[n + 1];
    CompareTruth(env.fold, Ge, column, n + 1, row, params);
    CompareTruth(env.fold, Lt, column, n + 2, row, params);
  }

  function Pattern(op: Operator, index: nat): Operand {
    var any, p1 := Lit("%"), Par(index);
    if op.ContainsText? || op.NotContains? then Cat(any, Cat(p1, any))
    else if op.StartsWith? then Cat(p1, any)
    else if op.EndsWithText? then Cat(any, p1)
    else p1
  }

  predicate AnyBefore(op: Operator) {
    op.ContainsText? || op.NotContains? || op.EndsWithText?
  }

  predicate AnyAfter(op: Operator) {
    op.ContainsText? || op.NotContains? || op.StartsWith?
  }

  lemma PatternValue(op: Operator, v: string, n: nat, row: Row, params: seq<Scalar>)
    requires n < |params| && params[n] == Str(v)
    ensures EvalOperand(Pattern(op, n + 1), row, params) == Some(Str(Affixed(v, AnyBefore(op), AnyAfter(op))))
  {
    assert EvalOperand(Par(n + 1), row, params) == Some(Str(v));
    assert EvalOperand(Lit("%"), row, params) == Some(Str("%"));
    assert EvalOperand(Cat(Par(n + 1), Lit("%")), row, params) == Some(Str(v + "%"));
  }

  lemma MatchTextIsFound(left: string, op: Operator, right: string)
    requires op.Equals? || op.NotEquals? || op.ContainsText? || op.NotContains? || op.StartsWith? || op.EndsWithText?
    ensures MatchText(left, op, right) == Some(Found(left, right, AnyBefore(op), AnyAfter(op)) != (op.NotEquals? || op.NotContains?))
  {
  }

  lemma TextAgrees(c: Condition, column: string, env: Services, n: nat, row: Row, params: seq<Scalar>)
    requires KeepsWild(env.fold) && Plain(c.value) && CompileText(column, c.operator, Str(c.value), n).Some?
    requires TypedCell(CellOf(row, column), Text)
    requires n < |params| && params[n] == Str(c.value)
    ensures Agrees(Truth(env.fold, ILike(c.operator.NotEquals? || c.operator.NotContains?, Col(column), Pattern(c.operator, n + 1)), row, params),
                   MatchText(Folded(env.fold, TextOf(CellOf(row, column))), c.operator, Folded(env.fold, c.value)),
                   CellOf(row, column).Value?)
  {
    PatternMeaning(env.fold, TextOf(CellOf(row, column)), c.value, AnyBefore(c.operator), AnyAfter(c.operator));
    PatternValue(c.operator, c.value, n, row, params);
    MatchTextIsFound(Folded(env.fold, TextOf(CellOf(row, column))), c.operator, Folded(env.fold, c.value));
  }

  // ---------------------------------------------------------------- agreement of a tree

  predicate PlainNode(node: Node, fields: Fields) {
    match node
    case Leaf(c) => PlainLeaf(c, fields)
    case Group(_, nodes) => forall child :: child in nodes ==> PlainNode(child, fields)
  }

  predicate FilledNode(node: Node, fields: Fields, row: Row) {
    match node
    case Leaf(c) => FilledLeaf(c, fields, row)
    case Group(_, nodes) => forall child :: child in nodes ==> FilledNode(child, fields, row)
  }

  predicate PlainAll(nodes: seq<Node>, fields: Fields) {
    forall child :: child in nodes ==> PlainNode(child, fields)
  }

  predicate FilledAll(nodes: seq<Node>, fields: Fields, row: Row) {
    forall child :: child in nodes ==> FilledNode(child, fields, row)
  }

  lemma PlacedSplit(params: seq<Scalar>, n: nat, a: seq<Scalar>, b: seq<Scalar>)
    requires Placed(params, n, a + b)
    ensures Placed(params, n, a) && Placed(params, n + |a|, b)
  {
    var whole := params[n..n + |a + b|];
    assert params[n..n + |a|] == whole[..|a|] == a;
    assert params[n + |a|..n + |a| + |b|] == whole[|a|..] == b;
  }

  /** The parameters of a list are those of its first node and then those of the others. */
  lemma NodesPlaced(nodes: seq<Node>, fields: Fields, env: Services, n: nat, params: seq<Scalar>)
    requires CompileNodes(nodes, fields, env, n).Some? && nodes != []
    requires Placed(params, n, CompileNodes(nodes, fields, env, n).value.1)
    ensures CompileNode(nodes[0], fields, env, n).Some?
    ensures var first := CompileNode(nodes[0], fields, env, n).value; var others := CompileNodes(nodes[1..], fields, env, n + |first.added|);
      Placed(params, n, first.added) && others.Some? && Placed(params, n + |first.added|, others.value.1)
  {
    var first := CompileNode(nodes[0], fields, env, n).value;
    PlacedSplit(params, n, first.added, CompileNodes(nodes[1..], fields, env, n + |first.added|).value.1);
  }

  lemma {:induction false} NodeAgrees(node: Node, fields: Fields, env: Services, n: nat, row: Row, params: seq<Scalar>)
    requires CompileNode(node, fields, env, n).Some? && NonEmpty(node)
    requires KeepsWild(env.fold) && TypedRow(row, fields) && PlainNode(node, fields)
    requires Placed(params, n, CompileNode(node, fields, env, n).value.added)
    ensures Agrees(Truth(env.fold, FoldAnd(ChainOf(node, fields, env, n)), row, params), MatchNode(row, node, fields, env),
                   FilledNode(node, fields, row))
    decreases node, 0
  {
    match node {
      case Leaf(c) =>
        LeafAgrees(c, fields, env, n, row, params);
      case Group(logic, nodes) =>
        NodesAgree(nodes, fields, env, n, row, params);
        if logic.AllOf? {
          FoldAndTruth(env.fold, AllChains(nodes, fields, env, n), row, params);
        } else {
          FoldOrTruth(env.fold, AnyChains(nodes, fields, env, n), row, params);
        }
    }
  }

  ghost predicate AllTrue(fold: char -> char, chain: seq<Sql>, row: Row, params: seq<Scalar>) {
    forall e :: e in chain ==> Truth(fold, e, row, params)
  }

  ghost predicate AnyTrue(fold: char -> char, chain: seq<Sql>, row: Row, params: seq<Scalar>) {
    exists e :: e in chain && Truth(fold, e, row, params)
  }

  /** The in-memory verdicts over all children, as one value. */
  function Every(kept: Option<seq<bool>>): Option<bool> {
    if kept.None? then None else Some(forall b :: b in kept.value ==> b)
  }

  function Some1(kept: Option<seq<bool>>): Option<bool> {
    if kept.None? then None else Some(exists b :: b in kept.value && b)
  }

  lemma EveryOrSome(verdicts: seq<bool>)
    ensures Every(Some(verdicts)) == Some(false !in verdicts) && Some1(Some(verdicts)) == Some(true in verdicts)
  {
    if b :| b in verdicts && !b {
      assert false in verdicts;
    }
    if b :| b in verdicts && b {
      assert true in verdicts;
    }
  }

  lemma VerdictsCons(first: bool, rest: seq<bool>)
    ensures Every(Some([first] + rest)) == Some(first && Every(Some(rest)).value)
    ensures Some1(Some([first] + rest)) == Some(first || Some1(Some(rest)).value)
  {
    var all := [first] + rest;
    EveryOrSome(all);
    EveryOrSome(rest);
    assert false in all <==> !first || false in rest;
    assert true in all <==> first || true in rest;
  }

  lemma MatchNodesCons(row: Row, nodes: seq<Node>, fields: Fields, env: Services)
    requires nodes != [] && MatchNode(row, nodes[0], fields, env).Some? && MatchNodes(row, nodes[1..], fields, env).Some?
    ensures var first, rest := MatchNode(row, nodes[0], fields, env).value, MatchNodes(row, nodes[1..], fields, env);
      && Every(MatchNodes(row, nodes, fields, env)) == Some(first && Every(rest).value)
      && Some1(MatchNodes(row, nodes, fields, env)) == Some(first || Some1(rest).value)
  {
    var first, rest := MatchNode(row, nodes[0], fields, env).value, MatchNodes(row, nodes[1..], fields, env).value;
    assert MatchNodes(row, nodes, fields, env) == Some([first] + rest);
    VerdictsCons(first, rest);
  }

  lemma {:induction false} NodesAgree(nodes: seq<Node>, fields: Fields, env: Services, n: nat, row: Row, params: seq<Scalar>)
    requires CompileNodes(nodes, fields, env, n).Some? && NonEmptyAll(nodes)
    requires KeepsWild(env.fold) && TypedRow(row, fields) && PlainAll(nodes, fields)
    requires Placed(params, n, CompileNodes(nodes, fields, env, n).value.1)
    ensures var kept, filled := MatchNodes(row, nodes, fields, env), FilledAll(nodes, fields, row);
      && Agrees(AllTrue(env.fold, AllChains(nodes, fields, env, n), row, params), Every(kept), filled)
      && Agrees(AnyTrue(env.fold, AnyChains(nodes, fields, env, n), row, params), Some1(kept), filled)
    decreases nodes, 1
  {
    if nodes != [] {
      var first := CompileNode(nodes[0], fields, env, n).value;
      var m := n + |first.added|;
      NodesPlaced(nodes, fields, env, n, params);
      NodeAgrees(nodes[0], fields, env, n, row, params);
      NodesAgree(nodes[1..], fields, env, m, row, params);
      ChainsCons(nodes, fields, env, n, row, params);
      MatchNodesCons(row, nodes, fields, env);
    }
  }

  lemma ChainsUnfold(nodes: seq<Node>, fields: Fields, env: Services, n: nat)
    requires CompileNodes(nodes, fields, env, n).Some? && nodes != [] && NonEmptyAll(nodes)
    ensures NonEmpty(nodes[0]) && NonEmptyAll(nodes[1..])
    ensures var m, chain := n + |CompileNode(nodes[0], fields, env, n).value.added|, ChainOf(nodes[0], fields, env, n);
      && AllChains(nodes, fields, env, n) == chain + AllChains(nodes[1..], fields, env, m)
      && AnyChains(nodes, fields, env, n) == [FoldAnd(chain)] + AnyChains(nodes[1..], fields, env, m)
  {
    assert forall child :: child in nodes <==> child == nodes[0] || child in nodes[1..];
  }

  lemma ChainsTruth(fold: char -> char, chain: seq<Sql>, all: seq<Sql>, any: seq<Sql>, row: Row, params: seq<Scalar>)
    requires chain != []
    ensures var head := Truth(fold, FoldAnd(chain), row, params);
      && (AllTrue(fold, chain + all, row, params) <==> head && AllTrue(fold, all, row, params))
      && (AnyTrue(fold, [FoldAnd(chain)] + any, row, params) <==> head || AnyTrue(fold, any, row, params))
  {
    FoldAndTruth(fold, chain, row, params);
    assert AnyTrue(fold, [FoldAnd(chain)], row, params) <==> Truth(fold, FoldAnd(chain), row, params) by {
      assert FoldAnd(chain) in [FoldAnd(chain)];
    }
  }

  lemma ChainsCons(nodes: seq<Node>, fields: Fields, env: Services, n: nat, row: Row, params: seq<Scalar>)
    requires CompileNodes(nodes, fields, env, n).Some? && nodes != [] && NonEmptyAll(nodes)
    ensures NonEmpty(nodes[0]) && NonEmptyAll(nodes[1..])
    ensures var m, head := n + |CompileNode(nodes[0], fields, env, n).value.added|,
                           Truth(env.fold, FoldAnd(ChainOf(nodes[0], fields, env, n)), row, params);
      && (AllTrue(env.fold, AllChains(nodes, fields, env, n), row, params) <==>
            head && AllTrue(env.fold, AllChains(nodes[1..], fields, env, m), row, params))
      && (AnyTrue(env.fold, AnyChains(nodes, fields, env, n), row, params) <==>
            head || AnyTrue(env.fold, AnyChains(nodes[1..], fields, env, m), row, params))
  {
    var m := n + |CompileNode(nodes[0], fields, env, n).value.added|;
    ChainsUnfold(nodes, fields, env, n);
    ChainsTruth(env.fold, ChainOf(nodes[0], fields, env, n), AllChains(nodes[1..], fields, env, m), AnyChains(nodes[1..], fields, env, m),
                row, params);
  }

  /**
   * For every tree without an empty group and under any parameter offset: the printed text parses, it is true only of rows
   * the in-memory interpreter keeps, exactly of those when no tested cell is empty, and the interpreter does not throw.
   */
  lemma TextAgreesWithMemory(node: Node, fields: Fields, env: Services, before: seq<Scalar>, row: Row)
    requires CompileNode(node, fields, env, |before|).Some? && NonEmpty(node)
    requires KeepsWild(env.fold) && TypedRow(row, fields) && PlainNode(node, fields)
    ensures var printed := CompileNode(node, fields, env, |before|).value;
      && Parse(printed.text).Some?
      && Agrees(Truth(env.fold, Parse(printed.text).value, row, before + printed.added), MatchNode(row, node, fields, env),
                FilledNode(node, fields, row))
  {
    var printed := CompileNode(node, fields, env, |before|).value;
    var params := before + printed.added;
    assert params[|before|..|before| + |printed.added|] == printed.added;
    TextReadsAsTree(node, fields, env, |before|);
    NodeAgrees(node, fields, env, |before|, row, params);
  }
}
