/** The third back end: Prisma filter objects for single-column fields (table-query.ts:331-425). */
module FilterPrisma {
  import opened Options
  import opened SqlText
  import opened FilterTypes
  import opened FilterSql
  import opened FilterMemory
  import opened FilterMeaning
  import opened FilterExact

  datatype TextMode = Whole | Inside | AtStart | AtEnd

  /** The test a filter object puts on one column. */
  datatype Test =
    | IsNullTest
    | NotNullTest
    | Is(value: Scalar)
    | IsNot(value: Scalar)
    | Bounds(lower: Option<(CompareOp, Scalar)>, upper: Option<(CompareOp, Scalar)>)
    | Insensitive(mode: TextMode, value: Scalar, negated: bool)

  datatype Where = On(column: string, test: Test) | NOT(inner: Where) | AND(all: seq<Where>) | OR(any: seq<Where>)

  function CompileCondition(c: Condition, fields: Fields, env: Services): Option<Where> {
    if c.field !in fields then None
    else
      var column, kind := fields[c.field].column, fields[c.field].kind;
      if IsValueless(c.operator) then Some(CompileEmptiness(column, kind, c.operator.IsEmpty?))
      else if IsRelative(c.operator) then
        if !kind.Date? then None
        else
          var (from, till) := env.relative(c.operator);
          Some(On(column, Bounds(Some((Ge, At(from))), Some((Lt, At(till))))))
      else
        var value := ScalarValue(c.value, kind, env);
        if value.None? then None
        else
          match kind
          case Text =>
            (match c.operator
             case Equals => Some(On(column, Insensitive(Whole, value.value, false)))
             case NotEquals => Some(On(column, Insensitive(Whole, value.value, true)))
             case ContainsText => Some(On(column, Insensitive(Inside, value.value, false)))
             case NotContains => Some(On(column, Insensitive(Inside, value.value, true)))
             case StartsWith => Some(On(column, Insensitive(AtStart, value.value, false)))
             case EndsWithText => Some(On(column, Insensitive(AtEnd, value.value, false)))
             case _ => None)
          case Enum =>
            if c.operator.Equals? then Some(On(column, Is(value.value)))
            else if c.operator.NotEquals? then Some(On(column, IsNot(value.value)))
            else None
          case Number => CompileRange(column, c, value.value, kind, env)
          case Time => CompileRange(column, c, value.value, kind, env)
          case Date => CompileDay(column, c, value.value, env)
  }

  function CompileEmptiness(column: string, kind: FieldType, isEmpty: bool): Where {
    if kind.Text? then
      if isEmpty then OR([On(column, IsNullTest), On(column, Is(Str("")))])
      else AND([NOT(On(column, IsNullTest)), NOT(On(column, Is(Str(""))))])
    else On(column, if isEmpty then IsNullTest else NotNullTest)
  }

  function CompileRange(column: string, c: Condition, value: Scalar, kind: FieldType, env: Services): Option<Where> {
    match c.operator
    case Equals => Some(On(column, Is(value)))
    case NotEquals => Some(On(column, IsNot(value)))
    case GreaterThan => Some(On(column, Bounds(Some((Gt, value)), None)))
    case GreaterThanOrEqual => Some(On(column, Bounds(Some((Ge, value)), None)))
    case LessThan => Some(On(column, Bounds(None, Some((Lt, value)))))
    case LessThanOrEqual => Some(On(column, Bounds(None, Some((Le, value)))))
    case Between =>
      var end := BetweenEnd(c, value, kind, env);
      if end.None? then None else Some(On(column, Bounds(Some((Ge, value)), Some((Le, end.value)))))
    case _ => None
  }

  function CompileDay(column: string, c: Condition, value: Scalar, env: Services): Option<Where> {
    match c.operator
    case Equals => Some(On(column, Bounds(Some((Ge, value)), Some((Lt, NextDay(value))))))
    case NotEquals =>
      Some(OR([On(column, Bounds(None, Some((Lt, value)))), On(column, Bounds(Some((Ge, NextDay(value))), None))]))
    case Before => Some(On(column, Bounds(None, Some((Lt, value)))))
    case After => Some(On(column, Bounds(Some((Ge, NextDay(value))), None)))
    case Between =>
      var end := BetweenEnd(c, value, Date, env);
      if end.None? then None else Some(On(column, Bounds(Some((Ge, value)), Some((Lt, NextDay(end.value))))))
    case _ => None
  }

  function CompileGroup(node: Node, fields: Fields, env: Services): Option<Where>
    decreases node, 0
  {
    match node
    case Leaf(c) => CompileCondition(c, fields, env)
    case Group(logic, nodes) =>
      var parts := CompileAll(nodes, fields, env);
      if parts.None? then None else Some(if logic.AllOf? then AND(parts.value) else OR(parts.value))
  }

  function CompileAll(nodes: seq<Node>, fields: Fields, env: Services): Option<seq<Where>>
    decreases nodes, 1
  {
    if nodes == [] then Some([])
    else
      var first, rest := CompileGroup(nodes[0], fields, env), CompileAll(nodes[1..], fields, env);
      if first.None? || rest.None? then None else Some([first.value] + rest.value)
  }

  // ---------------------------------------------------------------- what a filter object means

  function EvalBound(bound: Option<(CompareOp, Scalar)>, cell: Option<Scalar>): Tri {
    if bound.None? then True else EvalCompare(bound.value.0, cell, Some(bound.value.1))
  }

  function PatternOf(mode: TextMode, v: string): string {
    match mode
    case Whole => v
    case Inside => "%" + (v + "%")
    case AtStart => v + "%"
    case AtEnd => "%" + v
  }

  function EvalTest(fold: char -> char, test: Test, cell: Option<Scalar>): Tri {
    match test
    case IsNullTest => Of(cell.None?)
    case NotNullTest => Of(cell.Some?)
    case Is(v) => EvalCompare(Eq, cell, Some(v))
    case IsNot(v) => EvalCompare(Ne, cell, Some(v))
    case Bounds(lower, upper) => And3(EvalBound(lower, cell), EvalBound(upper, cell))
    case Insensitive(mode, v, negated) =>
      var t := EvalLike(fold, cell, if v.Str? then Some(Str(PatternOf(mode, v.s))) else None);
      if negated then Not3(t) else t
  }

  function EvalWhere(fold: char -> char, w: Where, row: Row): Tri {
    match w
    case On(column, test) => EvalTest(fold, test, EvalOperand(Col(column), row, []))
    case NOT(inner) => Not3(EvalWhere(fold, inner, row))
    case AND(all) => EvalAll(fold, all, row)
    case OR(any) => EvalAny(fold, any, row)
  }

  function EvalAll(fold: char -> char, list: seq<Where>, row: Row): Tri {
    if list == [] then True else And3(EvalWhere(fold, list[0], row), EvalAll(fold, list[1..], row))
  }

  function EvalAny(fold: char -> char, list: seq<Where>, row: Row): Tri {
    if list == [] then False else Or3(EvalWhere(fold, list[0], row), EvalAny(fold, list[1..], row))
  }

  // ---------------------------------------------------------------- agreement with the SQL form

  lemma {:induction false} SameAcceptance(node: Node, fields: Fields, env: Services, n: nat)
    ensures CompileGroup(node, fields, env).Some? <==> CompileNode(node, fields, env, n).Some?
    decreases node, 0
  {
    if node.Group? {
      SameAcceptanceAll(node.conditions, fields, env, n);
    }
  }

  lemma {:induction false} SameAcceptanceAll(nodes: seq<Node>, fields: Fields, env: Services, n: nat)
    ensures CompileAll(nodes, fields, env).Some? <==> CompileNodes(nodes, fields, env, n).Some?
    decreases nodes, 1
  {
    if nodes != [] {
      SameAcceptance(nodes[0], fields, env, n);
      var first := CompileNode(nodes[0], fields, env, n);
      if first.Some? {
        SameAcceptanceAll(nodes[1..], fields, env, n + |first.value.added|);
      }
    }
  }

  lemma PairTruth(fold: char -> char, a: Where, b: Where, row: Row)
    ensures EvalWhere(fold, AND([a, b]), row) == True <==> EvalWhere(fold, a, row) == True && EvalWhere(fold, b, row) == True
    ensures EvalWhere(fold, OR([a, b]), row) == True <==> EvalWhere(fold, a, row) == True || EvalWhere(fold, b, row) == True
  {
    assert [a, b][1..] == [b] && [b][1..] == [];
    assert EvalAll(fold, [b], row) == And3(EvalWhere(fold, b, row), EvalAll(fold, [], row));
    assert EvalAny(fold, [b], row) == Or3(EvalWhere(fold, b, row), EvalAny(fold, [], row));
  }

  /** The parameters of a condition, at their numbers. */
  ghost predicate Given(c: Condition, fields: Fields, env: Services, n: nat, params: seq<Scalar>) {
    CompileLeaf(c, fields, env, n).Some? &&
    var added := CompileLeaf(c, fields, env, n).value.added;
    n + |added| <= |params| && (|added| > 0 ==> params[n] == added[0]) && (|added| > 1 ==> params[n + 1] == added[1])
  }

  /** The filter object of a condition and the conjunction of its SQL comparisons are true together. */
  ghost predicate Same(c: Condition, fields: Fields, env: Services, n: nat, row: Row, params: seq<Scalar>)
    requires CompileLeaf(c, fields, env, n).Some?
  {
    var chain := LeafChain(c, fields, env, n);
    && CompileCondition(c, fields, env).Some?
    && 1 <= |chain| <= 2
    && (EvalWhere(env.fold, CompileCondition(c, fields, env).value, row) == True <==>
          Truth(env.fold, chain[0], row, params) && (|chain| == 2 ==> Truth(env.fold, chain[1], row, params)))
  }

  /** Compared with a parameter, as SQL and as a test on the cell. */
  lemma BoundTruth(fold: char -> char, op: CompareOp, column: string, index: nat, row: Row, params: seq<Scalar>)
    requires 1 <= index <= |params|
    ensures Truth(fold, Cmp(op, Col(column), Par(index)), row, params) <==>
            EvalCompare(op, EvalOperand(Col(column), row, []), Some(params[index - 1])) == True
  {
  }

  lemma TextSame(c: Condition, fields: Fields, env: Services, n: nat, row: Row, params: seq<Scalar>)
    requires Given(c, fields, env, n, params) && !IsValueless(c.operator) && !IsRelative(c.operator) && fields[c.field].kind.Text?
    ensures Same(c, fields, env, n, row, params)
  {
    PatternValue(c.operator, c.value, n, row, params);
    assert LeafChain(c, fields, env, n) ==
           [ILike(c.operator.NotEquals? || c.operator.NotContains?, Col(fields[c.field].column), Pattern(c.operator, n + 1))];
  }

  lemma EnumSame(c: Condition, fields: Fields, env: Services, n: nat, row: Row, params: seq<Scalar>)
    requires Given(c, fields, env, n, params) && !IsValueless(c.operator) && !IsRelative(c.operator) && fields[c.field].kind.Enum?
    ensures Same(c, fields, env, n, row, params)
  {
    BoundTruth(env.fold, CompareOpOf(c.operator).value, fields[c.field].column, n + 1, row, params);
  }

  lemma RangeSame(c: Condition, fields: Fields, env: Services, n: nat, row: Row, params: seq<Scalar>)
    requires Given(c, fields, env, n, params) && !IsValueless(c.operator) && !IsRelative(c.operator)
    requires fields[c.field].kind.Number? || fields[c.field].kind.Time?
    ensures Same(c, fields, env, n, row, params)
  {
    if c.operator.Between? {
      NumberRangeSame(c, fields, env, n, row, params);
    } else {
      BoundTruth(env.fold, CompareOpOf(c.operator).value, fields[c.field].column, n + 1, row, params);
    }
  }

  lemma NumberRangeSame(c: Condition, fields: Fields, env: Services, n: nat, row: Row, params: seq<Scalar>)
    requires Given(c, fields, env, n, params) && c.operator.Between?
    requires fields[c.field].kind.Number? || fields[c.field].kind.Time?
    ensures Same(c, fields, env, n, row, params)
  {
    BoundTruth(env.fold, Ge, fields[c.field].column, n + 1, row, params);
    BoundTruth(env.fold, Le, fields[c.field].column, n + 2, row, params);
  }

  lemma OtherDaysSame(c: Condition, fields: Fields, env: Services, n: nat, row: Row, params: seq<Scalar>)
    requires Given(c, fields, env, n, params) && fields[c.field].kind.Date? && c.operator.NotEquals?
    ensures Same(c, fields, env, n, row, params)
  {
    var column := fields[c.field].column;
    var value := ScalarValue(c.value, Date, env).value;
    BoundTruth(env.fold, Lt, column, n + 1, row, params);
    BoundTruth(env.fold, Ge, column, n + 2, row, params);
    var before, after := On(column, Bounds(None, Some((Lt, value)))), On(column, Bounds(Some((Ge, NextDay(value))), None));
    PairTruth(env.fold, before, after, row);
    assert CompileCondition(c, fields, env) == Some(OR([before, after]));
  }

  lemma DaySame(c: Condition, fields: Fields, env: Services, n: nat, row: Row, params: seq<Scalar>)
    requires Given(c, fields, env, n, params) && !IsValueless(c.operator) && !IsRelative(c.operator) && fields[c.field].kind.Date?
    ensures Same(c, fields, env, n, row, params)
  {
    var column := fields[c.field].column;
    if c.operator.NotEquals? {
      OtherDaysSame(c, fields, env, n, row, params);
    } else if c.operator.Before? {
      BoundTruth(env.fold, Lt, column, n + 1, row, params);
    } else if c.operator.After? {
      BoundTruth(env.fold, Ge, column, n + 2, row, params);
    } else {
      BoundTruth(env.fold, Ge, column, n + 1, row, params);
      BoundTruth(env.fold, Lt, column, n + 2, row, params);
    }
  }

  /** One condition: the filter object is true of a row exactly when its SQL is. */
  lemma ConditionSame(c: Condition, fields: Fields, env: Services, n: nat, row: Row, params: seq<Scalar>)
    requires CompileLeaf(c, fields, env, n).Some? && Placed(params, n, CompileLeaf(c, fields, env, n).value.added)
    ensures CompileCondition(c, fields, env).Some?
    ensures EvalWhere(env.fold, CompileCondition(c, fields, env).value, row) == True <==>
            Truth(env.fold, FoldAnd(LeafChain(c, fields, env, n)), row, params)
  {
    var op1, op2 := LeafIsChain(c, fields, env, n);
    ChainTruth(env.fold, LeafChain(c, fields, env, n), row, params);
    assert Same(c, fields, env, n, row, params) by {
      if IsValueless(c.operator) {
        EmptinessSame(c, fields, env, n, row, params);
      } else if !IsRelative(c.operator) {
        match fields[c.field].kind {
          case Text => TextSame(c, fields, env, n, row, params);
          case Enum => EnumSame(c, fields, env, n, row, params);
          case Number => RangeSame(c, fields, env, n, row, params);
          case Time => RangeSame(c, fields, env, n, row, params);
          case Date => DaySame(c, fields, env, n, row, params);
        }
      }
    }
  }

  lemma EmptinessSame(c: Condition, fields: Fields, env: Services, n: nat, row: Row, params: seq<Scalar>)
    requires CompileLeaf(c, fields, env, n).Some? && IsValueless(c.operator)
    ensures |LeafChain(c, fields, env, n)| == 1
    ensures EvalWhere(env.fold, CompileCondition(c, fields, env).value, row) == True <==>
            Truth(env.fold, LeafChain(c, fields, env, n)[0], row, params)
  {
    var column, kind := fields[c.field].column, fields[c.field].kind;
    var cell := EvalOperand(Col(column), row, params);
    assert cell == EvalOperand(Col(column), row, []);
    if kind.Text? {
      var isNull, isBlank := On(column, IsNullTest), On(column, Is(Str("")));
      PairTruth(env.fold, isNull, isBlank, row);
      PairTruth(env.fold, NOT(isNull), NOT(isBlank), row);
      assert EvalOperand(Lit(""), row, params) == Some(Str(""));
      assert Truth(env.fold, IsNull(false, Col(column)), row, params) <==> cell.None?;
      assert Truth(env.fold, IsNull(true, Col(column)), row, params) <==> cell.Some?;
      assert Truth(env.fold, Cmp(Eq, Col(column), Lit("")), row, params) <==> EvalCompare(Eq, cell, Some(Str(""))) == True;
      assert Truth(env.fold, Cmp(Ne, Col(column), Lit("")), row, params) <==> EvalCompare(Ne, cell, Some(Str(""))) == True;
      assert EvalWhere(env.fold, NOT(isNull), row) == True <==> cell.Some?;
      assert EvalWhere(env.fold, NOT(isBlank), row) == Not3(EvalCompare(Eq, cell, Some(Str(""))));
    }
  }

  /** The filter object of a tree is true of a row exactly when its chain of conditions is. */
  lemma {:induction false} NodeSame(node: Node, fields: Fields, env: Services, n: nat, row: Row, params: seq<Scalar>)
    requires CompileNode(node, fields, env, n).Some? && NonEmpty(node)
    requires TypedRow(row, fields) && Placed(params, n, CompileNode(node, fields, env, n).value.added)
    ensures CompileGroup(node, fields, env).Some?
    ensures EvalWhere(env.fold, CompileGroup(node, fields, env).value, row) == True <==>
            Truth(env.fold, FoldAnd(ChainOf(node, fields, env, n)), row, params)
    decreases node, 0
  {
    match node {
      case Leaf(c) => ConditionSame(c, fields, env, n, row, params);
      case Group(logic, nodes) =>
        SameAcceptance(node, fields, env, n);
        ListSame(nodes, fields, env, n, row, params);
        if logic.AllOf? {
          FoldAndTruth(env.fold, AllChains(nodes, fields, env, n), row, params);
        } else {
          FoldOrTruth(env.fold, AnyChains(nodes, fields, env, n), row, params);
        }
    }
  }

  /** A child and the others that each agree agree together. */
  lemma ListSameCons(nodes: seq<Node>, fields: Fields, env: Services, n: nat, row: Row, params: seq<Scalar>)
    requires CompileNodes(nodes, fields, env, n).Some? && nodes != [] && NonEmptyAll(nodes)
    requires CompileGroup(nodes[0], fields, env).Some? && CompileAll(nodes[1..], fields, env).Some?
    requires NonEmpty(nodes[0]) && NonEmptyAll(nodes[1..])
    requires EvalWhere(env.fold, CompileGroup(nodes[0], fields, env).value, row) == True <==>
             Truth(env.fold, FoldAnd(ChainOf(nodes[0], fields, env, n)), row, params)
    requires var m, list := n + |CompileNode(nodes[0], fields, env, n).value.added|, CompileAll(nodes[1..], fields, env).value;
      && (EvalAll(env.fold, list, row) == True <==> AllTrue(env.fold, AllChains(nodes[1..], fields, env, m), row, params))
      && (EvalAny(env.fold, list, row) == True <==> AnyTrue(env.fold, AnyChains(nodes[1..], fields, env, m), row, params))
    ensures CompileAll(nodes, fields, env).Some?
    ensures var list := CompileAll(nodes, fields, env).value;
      && (EvalAll(env.fold, list, row) == True <==> AllTrue(env.fold, AllChains(nodes, fields, env, n), row, params))
      && (EvalAny(env.fold, list, row) == True <==> AnyTrue(env.fold, AnyChains(nodes, fields, env, n), row, params))
  {
    var head, list := CompileGroup(nodes[0], fields, env).value, CompileAll(nodes[1..], fields, env).value;
    assert CompileAll(nodes, fields, env) == Some([head] + list);
    ChainsCons(nodes, fields, env, n, row, params);
  }

  lemma {:induction false} ListSame(nodes: seq<Node>, fields: Fields, env: Services, n: nat, row: Row, params: seq<Scalar>)
    requires CompileNodes(nodes, fields, env, n).Some? && NonEmptyAll(nodes)
    requires TypedRow(row, fields) && Placed(params, n, CompileNodes(nodes, fields, env, n).value.1)
    ensures CompileAll(nodes, fields, env).Some?
    ensures var list := CompileAll(nodes, fields, env).value;
      && (EvalAll(env.fold, list, row) == True <==> AllTrue(env.fold, AllChains(nodes, fields, env, n), row, params))
      && (EvalAny(env.fold, list, row) == True <==> AnyTrue(env.fold, AnyChains(nodes, fields, env, n), row, params))
    decreases nodes, 1
  {
    if nodes != [] {
      var first := CompileNode(nodes[0], fields, env, n).value;
      var m := n + |first.added|;
      NodesPlaced(nodes, fields, env, n, params);
      NodeSame(nodes[0], fields, env, n, row, params);
      ListSame(nodes[1..], fields, env, m, row, params);
      ListSameCons(nodes, fields, env, n, row, params);
    }
  }

  /**
   * Both query forms of a tree select the same rows, under any parameter offset, whenever the database takes the SQL one. The
   * filter object also works where it does not: for an empty group and for AFTER on a date field.
   */
  lemma PrismaSelectsWhatSqlSelects(node: Node, fields: Fields, env: Services, before: seq<Scalar>, row: Row)
    requires CompileNode(node, fields, env, |before|).Some? && TypedRow(row, fields)
    ensures CompileGroup(node, fields, env).Some?
    ensures var printed := CompileNode(node, fields, env, |before|).value;
      Accepted(printed.text, |before|, |printed.added|) ==>
        (EvalWhere(env.fold, CompileGroup(node, fields, env).value, row) == True <==>
           Selects(env.fold, printed.text, |before|, row, before + printed.added))
  {
    var printed := CompileNode(node, fields, env, |before|).value;
    var params := before + printed.added;
    assert params[|before|..|before| + |printed.added|] == printed.added;
    SameAcceptance(node, fields, env, |before|);
    ParsesExactlyWhenNonEmpty(node, fields, env, |before|);
    if NonEmpty(node) {
      TextReadsAsTree(node, fields, env, |before|);
      NodeSame(node, fields, env, |before|, row, params);
    }
  }
}
