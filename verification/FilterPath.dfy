/** From the filter editor to the rows: the payload read as a query, and what goes wrong on the way. */
module FilterPath {
  import opened Options
  import opened Strings
  import opened SqlText
  import opened FilterTypes
  import opened FilterSql
  import opened FilterMemory
  import opened FilterMeaning
  import opened FilterExact
  import opened FilterValues
  import P = FilterPayload

  // ---------------------------------------------------------------- a sent tree as a query

  /** The operator of a name in the closed list. */
  function OperatorNamed(name: string): Operator {
    match name
    case "EQUALS" => Equals
    case "NOT_EQUALS" => NotEquals
    case "CONTAINS" => ContainsText
    case "NOT_CONTAINS" => NotContains
    case "GREATER_THAN" => GreaterThan
    case "GREATER_THAN_OR_EQUAL" => GreaterThanOrEqual
    case "LESS_THAN" => LessThan
    case "LESS_THAN_OR_EQUAL" => LessThanOrEqual
    case "BEFORE" => Before
    case "AFTER" => After
    case "BETWEEN" => Between
    case "IS_EMPTY" => IsEmpty
    case "IS_NOT_EMPTY" => IsNotEmpty
    case "STARTS_WITH" => StartsWith
    case "ENDS_WITH" => EndsWithText
    case "TODAY" => Today
    case "THIS_WEEK" => ThisWeek
    case "THIS_MONTH" => ThisMonth
    case "THIS_YEAR" => ThisYear
    case "LAST_7_DAYS" => Last7Days
    case "LAST_30_DAYS" => Last30Days
    case _ => Other(name)
  }

  function ConditionOf(c: P.Condition): Condition {
    Condition(c.field, OperatorNamed(c.operator), c.value, c.valueEnd)
  }

  function NodeOf(p: P.PayloadNode): Node {
    match p
    case One(c) => Leaf(ConditionOf(c))
    case Many(logic, conditions) => Group(if logic.AND? then AllOf else AnyOf, NodesOf(conditions))
  }

  function NodesOf(ps: seq<P.PayloadNode>): (r: seq<Node>)
    ensures |r| == |ps|
  {
    if ps == [] then [] else [NodeOf(ps[0])] + NodesOf(ps[1..])
  }

  /** The verdict of the in-memory interpreter on one sent condition. */
  function Verdict(row: Row, fields: Fields, env: Services): P.Condition -> bool {
    (c: P.Condition) => MatchLeaf(row, ConditionOf(c), fields, env) == Some(true)
  }

  // ---------------------------------------------------------------- what the sent operators keep

  /** The number in a cell, an empty cell counting as zero. */
  ghost predicate HoldsNumber(cell: Cell, x: real) {
    cell == Value(Num(x)) || (cell == Null && x == 0.0)
  }

  /** A number or time is kept exactly if the sent value parses and the number in the cell stands in the named relation to it. */
  lemma SentNumberKeeps(row: Row, c: P.Condition, fields: Fields, env: Services)
    requires c.field in fields && (fields[c.field].kind.Number? || fields[c.field].kind.Time?)
    requires c.operator in {"EQUALS", "NOT_EQUALS", "GREATER_THAN", "GREATER_THAN_OR_EQUAL", "LESS_THAN", "LESS_THAN_OR_EQUAL"}
    ensures var v := NumberIn(ConditionOf(c), fields[c.field].kind, env);
      Verdict(row, fields, env)(c) <==>
      v.Some? && exists x :: HoldsNumber(CellOf(row, fields[c.field].column), x)
                             && (c.operator == "EQUALS" ==> x == v.value) && (c.operator == "NOT_EQUALS" ==> x != v.value)
                             && (c.operator == "GREATER_THAN" ==> x > v.value) && (c.operator == "GREATER_THAN_OR_EQUAL" ==> x >= v.value)
                             && (c.operator == "LESS_THAN" ==> x < v.value) && (c.operator == "LESS_THAN_OR_EQUAL" ==> x <= v.value)
  {
    NumberKeeps(row, ConditionOf(c), fields, env);
    var cell := CellOf(row, fields[c.field].column);
    assert cell.Value? && cell.scalar.Num? ==> HoldsNumber(cell, cell.scalar.n);
    assert cell.Null? ==> HoldsNumber(cell, 0.0);
  }

  /** A date is kept exactly if the sent day parses and the instant in the cell lies on it, off it, before it or after it. */
  lemma SentDateKeeps(row: Row, c: P.Condition, fields: Fields, env: Services)
    requires c.field in fields && fields[c.field].kind.Date? && c.operator in {"EQUALS", "NOT_EQUALS", "BEFORE", "AFTER"}
    ensures var cell, day := CellOf(row, fields[c.field].column), env.parseDate(c.value);
      Verdict(row, fields, env)(c) <==>
      && day.Some? && cell.Value? && cell.scalar.At?
      && var x := cell.scalar.ms;
         && (c.operator == "EQUALS" ==> day.value <= x < day.value + 86_400_000)
         && (c.operator == "NOT_EQUALS" ==> x < day.value || day.value + 86_400_000 <= x)
         && (c.operator == "BEFORE" ==> x < day.value) && (c.operator == "AFTER" ==> day.value + 86_400_000 <= x)
  {
    DateKeeps(row, ConditionOf(c), fields, env);
  }

  /** A text is kept exactly if, up to case, it is, is not, contains, does not contain, begins or ends with the sent value. */
  lemma SentTextKeeps(row: Row, c: P.Condition, fields: Fields, env: Services)
    requires c.field in fields && fields[c.field].kind.Text?
    requires c.operator in {"EQUALS", "NOT_EQUALS", "CONTAINS", "NOT_CONTAINS", "STARTS_WITH", "ENDS_WITH"}
    ensures var s := Folded(env.fold, match CellOf(row, fields[c.field].column) case Value(Str(x)) => x case _ => "");
      var v := Folded(env.fold, c.value);
      Verdict(row, fields, env)(c) <==>
      && (c.operator == "EQUALS" ==> s == v) && (c.operator == "NOT_EQUALS" ==> s != v)
      && (c.operator == "CONTAINS" ==> exists i :: 0 <= i <= |s| && v <= s[i..])
      && (c.operator == "NOT_CONTAINS" ==> !exists i :: 0 <= i <= |s| && v <= s[i..])
      && (c.operator == "STARTS_WITH" ==> v <= s) && (c.operator == "ENDS_WITH" ==> exists i :: 0 <= i <= |s| && s[i..] == v)
  {
    TextKeeps(row, ConditionOf(c), fields, env);
  }

  /** Empty and relative tests and ranges go by their names as well. */
  lemma SentNamesMeanThemselves(c: P.Condition)
    ensures c.operator == "IS_EMPTY" ==> ConditionOf(c) == Condition(c.field, IsEmpty, c.value, c.valueEnd)
    ensures c.operator == "IS_NOT_EMPTY" ==> ConditionOf(c) == Condition(c.field, IsNotEmpty, c.value, c.valueEnd)
    ensures c.operator == "TODAY" ==> ConditionOf(c) == Condition(c.field, Today, c.value, c.valueEnd)
    ensures c.operator == "THIS_WEEK" ==> ConditionOf(c) == Condition(c.field, ThisWeek, c.value, c.valueEnd)
    ensures c.operator == "THIS_MONTH" ==> ConditionOf(c) == Condition(c.field, ThisMonth, c.value, c.valueEnd)
    ensures c.operator == "THIS_YEAR" ==> ConditionOf(c) == Condition(c.field, ThisYear, c.value, c.valueEnd)
    ensures c.operator == "LAST_7_DAYS" ==> ConditionOf(c) == Condition(c.field, Last7Days, c.value, c.valueEnd)
    ensures c.operator == "LAST_30_DAYS" ==> ConditionOf(c) == Condition(c.field, Last30Days, c.value, c.valueEnd)
    ensures c.operator == "BETWEEN" ==> ConditionOf(c) == Condition(c.field, Between, c.value, c.valueEnd)
  {
  }

  // ---------------------------------------------------------------- a sent tree decides by its conditions

  /** Interpreting the query is deciding the sent tree by the verdicts on its conditions. */
  lemma {:induction false} MatchIsVerdict(p: P.PayloadNode, row: Row, fields: Fields, env: Services)
    ensures var kept := MatchNode(row, NodeOf(p), fields, env);
      kept.Some? ==> (kept.value <==> P.Holds(p, Verdict(row, fields, env)))
    decreases p, 0
  {
    if p.Many? {
      MatchesAreVerdicts(p.conditions, row, fields, env);
    }
  }

  lemma {:induction false} MatchesAreVerdicts(ps: seq<P.PayloadNode>, row: Row, fields: Fields, env: Services)
    ensures var kept := MatchNodes(row, NodesOf(ps), fields, env);
      kept.Some? ==>
        && ((forall b :: b in kept.value ==> b) <==> forall q :: q in ps ==> P.Holds(q, Verdict(row, fields, env)))
        && ((exists b :: b in kept.value && b) <==> exists q :: q in ps && P.Holds(q, Verdict(row, fields, env)))
    decreases ps, 1
  {
    var truth, kept := Verdict(row, fields, env), MatchNodes(row, NodesOf(ps), fields, env);
    if ps != [] && kept.Some? {
      MatchIsVerdict(ps[0], row, fields, env);
      MatchesAreVerdicts(ps[1..], row, fields, env);
      assert NodesOf(ps)[1..] == NodesOf(ps[1..]);
      var first, rest := MatchNode(row, NodeOf(ps[0]), fields, env).value, MatchNodes(row, NodesOf(ps[1..]), fields, env).value;
      assert kept.value == [first] + rest;
      VerdictsSplit(first, rest, ps, truth);
    }
  }

  lemma VerdictsSplit(first: bool, rest: seq<bool>, ps: seq<P.PayloadNode>, truth: P.Condition -> bool)
    requires ps != [] && (first <==> P.Holds(ps[0], truth))
    requires (forall b :: b in rest ==> b) <==> forall q :: q in ps[1..] ==> P.Holds(q, truth)
    requires (exists b :: b in rest && b) <==> exists q :: q in ps[1..] && P.Holds(q, truth)
    ensures (forall b :: b in [first] + rest ==> b) <==> forall q :: q in ps ==> P.Holds(q, truth)
    ensures (exists b :: b in [first] + rest && b) <==> exists q :: q in ps && P.Holds(q, truth)
  {
    VerdictsCons(first, rest);
    assert forall q :: q in ps <==> q == ps[0] || q in ps[1..];
  }

  // ---------------------------------------------------------------- what the server understands

  /**
   * A known field, an operator for its type, and a value that parses as it is sent; for a range an end that parses as well
   * and is not below the start.
   */
  ghost predicate Understood(c: Condition, fields: Fields, env: Services) {
    c.field in fields &&
    var kind := fields[c.field].kind;
    if c.operator in {IsEmpty, IsNotEmpty} then true
    else if c.operator in {Today, ThisWeek, ThisMonth, ThisYear, Last7Days, Last30Days} then kind == Date
    else if c.operator == Between then kind in {Number, Time, Date} && RangeGiven(c, kind, env)
    else
      && ScalarValue(c.value, kind, env).Some?
      && match kind
         case Text => c.operator in {Equals, NotEquals, ContainsText, NotContains, StartsWith, EndsWithText}
         case Enum => c.operator in {Equals, NotEquals}
         case Number => c.operator in {Equals, NotEquals, GreaterThan, GreaterThanOrEqual, LessThan, LessThanOrEqual}
         case Time => c.operator in {Equals, NotEquals, GreaterThan, GreaterThanOrEqual, LessThan, LessThanOrEqual}
         case Date => c.operator in {Equals, NotEquals, Before, After}
  }

  lemma LeafCompilesExactly(c: Condition, fields: Fields, env: Services, n: nat)
    ensures CompileLeaf(c, fields, env, n).Some? <==> Understood(c, fields, env)
  {
  }

  /** The conditions of a sent tree. */
  function Sent(p: P.PayloadNode): seq<P.Condition>
    decreases p, 0
  {
    match p
    case One(c) => [c]
    case Many(_, conditions) => SentAll(conditions)
  }

  function SentAll(ps: seq<P.PayloadNode>): seq<P.Condition>
    decreases ps, 1
  {
    if ps == [] then [] else Sent(ps[0]) + SentAll(ps[1..])
  }

  /** The compiler takes a sent tree exactly if it understands each of its conditions. */
  lemma {:induction false} SentCompilesExactly(p: P.PayloadNode, fields: Fields, env: Services, n: nat)
    ensures CompileNode(NodeOf(p), fields, env, n).Some? <==> forall c :: c in Sent(p) ==> Understood(ConditionOf(c), fields, env)
    decreases p, 0
  {
    match p {
      case One(c) => LeafCompilesExactly(ConditionOf(c), fields, env, n);
      case Many(_, conditions) => SentAllCompilesExactly(conditions, fields, env, n);
    }
  }

  lemma {:induction false} SentAllCompilesExactly(ps: seq<P.PayloadNode>, fields: Fields, env: Services, n: nat)
    ensures CompileNodes(NodesOf(ps), fields, env, n).Some? <==> forall c :: c in SentAll(ps) ==> Understood(ConditionOf(c), fields, env)
    decreases ps, 1
  {
    if ps != [] {
      var first := CompileNode(NodeOf(ps[0]), fields, env, n);
      SentCompilesExactly(ps[0], fields, env, n);
      assert NodesOf(ps)[1..] == NodesOf(ps[1..]);
      SentAllCompilesExactly(ps[1..], fields, env, if first.Some? then n + |first.value.added| else n);
      assert forall c :: c in SentAll(ps) <==> c in Sent(ps[0]) || c in SentAll(ps[1..]);
    }
  }

  lemma TimesAreTrimmed(s: string)
    requires ParseTime(s).Some?
    ensures Trim(s) == s
  {
    assert |s| == 5 && IsDigit(s[0]) && IsDigit(s[4]);
    assert !IsSpace(s[0]) && !IsSpace(s[4]);
  }

  lemma TimeEqualsIsUnderstood(c: P.Condition, fields: Fields, env: Services)
    requires c.field in fields && fields[c.field].kind.Time? && c.operator == "EQUALS"
    ensures Understood(ConditionOf(c), fields, env) <==> ParseTime(c.value).Some?
  {
    assert ConditionOf(c).operator == Equals;
  }

  /** The editor's format check on a value, which trims it first. */
  function TrimmedTime(): (string, string) -> bool {
    (_, value) => ParseTime(Trim(value)).Some?
  }

  /**
   * The editor trims a value before it checks its format and sends it as it was typed: a time that passes is compiled
   * exactly if there is nothing to trim.
   */
  lemma PaddedTimeIsRefused(c: P.Condition, fields: Fields, env: Services, n: nat)
    requires c.field in fields && fields[c.field].kind.Time? && c.operator == "EQUALS"
    requires ParseTime(Trim(c.value)).Some?
    ensures P.LineValid(c, TrimmedTime()) && P.IsPopulated(c)
    ensures CompileNode(NodeOf(P.One(c)), fields, env, n).Some? <==> Trim(c.value) == c.value
  {
    LeafCompilesExactly(ConditionOf(c), fields, env, n);
    TimeEqualsIsUnderstood(c, fields, env);
    if ParseTime(c.value).Some? {
      TimesAreTrimmed(c.value);
    }
  }

  // ---------------------------------------------------------------- main results

  /** What the editor sends has no empty group. */
  lemma SentIsNonEmpty(root: P.EditorNode)
    requires root.Group? && P.BuildFilterTreePayload(root).Some?
    ensures NonEmpty(NodeOf(P.BuildFilterTreePayload(root).value))
  {
    var children := P.PruneChildren(root.children);
    P.PrunedIsShallow(root.children);
    P.ShallowPayload(children);
    ShallowIsNonEmpty(P.ToPayloads(children));
  }

  lemma {:induction false} ShallowIsNonEmpty(ps: seq<P.PayloadNode>)
    requires forall q :: q in ps ==> P.TwoLevels(q) && (q.Many? ==> q.conditions != [])
    ensures NonEmptyAll(NodesOf(ps))
  {
    if ps != [] {
      assert ps[0] in ps;
      ShallowIsNonEmpty(ps[1..]);
      if ps[0].Many? {
        forall q | q in ps[0].conditions ensures P.TwoLevels(q) && (q.Many? ==> q.conditions != []) {
        }
        LinesAreNonEmpty(ps[0].conditions);
      }
      assert NonEmpty(NodesOf(ps)[0]);
    }
  }

  lemma {:induction false} LinesAreNonEmpty(ps: seq<P.PayloadNode>)
    requires forall q :: q in ps ==> q.One?
    ensures NonEmptyAll(NodesOf(ps))
  {
    if ps != [] {
      assert ps[0] in ps;
      LinesAreNonEmpty(ps[1..]);
    }
  }

  /**
   * From the editor to the rows. What the editor sends is read by the server as the tree it shows after pruning; if the
   * compiler takes it, the database takes the query exactly when it has no AFTER on a date field, and then selects, of the
   * rows whose tested cells are filled, just those that satisfy the shown tree - and no others of the rest.
   */
  lemma EditorFilterSelectsItsRows(root: P.EditorNode, fields: Fields, env: Services, before: seq<Scalar>, row: Row)
    requires root.Group? && P.BuildFilterTreePayload(root).Some?
    requires var node := NodeOf(P.BuildFilterTreePayload(root).value);
      CompileNode(node, fields, env, |before|).Some? && PlainNode(node, fields)
    requires KeepsWild(env.fold) && TypedRow(row, fields)
    ensures var sent := P.BuildFilterTreePayload(root).value; var node := NodeOf(sent);
      var printed, shown := CompileNode(node, fields, env, |before|).value, P.Satisfied(root, Verdict(row, fields, env));
      && P.NormalizeTableFilters(P.ToJson(sent)) == Some(sent)
      && (Accepted(printed.text, |before|, |printed.added|) <==> NoDateAfter(node, fields))
      && (NoDateAfter(node, fields) ==>
            Agrees(Selects(env.fold, printed.text, |before|, row, before + printed.added), Some(shown), FilledNode(node, fields, row)))
  {
    var sent := P.BuildFilterTreePayload(root).value;
    P.NormalizingKeepsThePayload(root);
    P.SendingKeepsTheMeaning(root, Verdict(row, fields, env));
    SentIsNonEmpty(root);
    SqlSelectsWhatMemoryKeeps(NodeOf(sent), fields, env, before, row);
    MatchIsVerdict(sent, row, fields, env);
  }

  /** An old `groups` payload keeps its meaning down to the rows the interpreter keeps. */
  lemma OldPayloadKeepsItsRows(groups: seq<seq<P.Condition>>, row: Row, fields: Fields, env: Services)
    ensures var tree := P.NormalizeTableFilters(P.JObject(map["logic" := P.JString("OR"), "groups" := P.JArray(P.OldGroupsJson(groups))]));
      tree.Some? &&
      var kept := MatchNode(row, NodeOf(tree.value), fields, env);
      kept.Some? ==> (kept.value <==> P.OldRule(groups, Verdict(row, fields, env)))
  {
    P.OldPayloadKeepsItsMeaning(groups, Verdict(row, fields, env));
    var tree := P.NormalizeTableFilters(P.JObject(map["logic" := P.JString("OR"), "groups" := P.JArray(P.OldGroupsJson(groups))]));
    MatchIsVerdict(tree.value, row, fields, env);
  }

  /** So does an old preset, as the editor reads it. */
  lemma OldPresetKeepsItsRows(j: P.Json, row: Row, fields: Fields, env: Services)
    requires !(P.Member(j, "filterTree").Some? && P.Member(j, "filterTree").value.JObject?)
    requires P.IsArray(P.Member(j, "filters")) || P.IsArray(P.Member(j, "filterGroups"))
    ensures var kept := MatchNode(row, NodeOf(P.ToPayload(P.NormalizePresetContent(j))), fields, env);
      kept.Some? ==> (kept.value <==> P.OldPresetRule(P.PresetOf(j), Verdict(row, fields, env)))
  {
    P.OldPresetKeepsItsMeaning(j, Verdict(row, fields, env));
    MatchIsVerdict(P.ToPayload(P.NormalizePresetContent(j)), row, fields, env);
  }

  // ---------------------------------------------------------------- what the server refuses

  /** A stored preset with one condition that carries an end value. */
  function PresetWithEnd(field: string, operator: string, value: string, valueEnd: string): P.Json {
    P.JObject(map["filters" := P.JArray([P.JObject(map[
      "field" := P.JString(field), "operator" := P.JString(operator), "value" := P.JString(value), "valueEnd" := P.JString(valueEnd)])])])
  }

  /** The editor shows such a preset as one line that keeps the end value. */
  lemma PresetIsShown(field: string, operator: string, value: string, valueEnd: string)
    ensures P.NormalizePresetContent(PresetWithEnd(field, operator, value, valueEnd))
         == P.Group("", P.AND, [P.Line("", P.Condition(field, operator, value, Some(valueEnd)), None)])
  {
    var item := P.JObject(map["field" := P.JString(field), "operator" := P.JString(operator), "value" := P.JString(value),
                              "valueEnd" := P.JString(valueEnd)]);
    var j := PresetWithEnd(field, operator, value, valueEnd);
    assert P.ToEditableCondition(item) == Some(P.Line("", P.Condition(field, operator, value, Some(valueEnd)), None));
    assert P.ShownLines([item]) == [P.ToEditableCondition(item).value] + P.ShownLines([item][1..]);
    assert P.Member(j, "filterTree").None? && P.Member(j, "filters") == Some(P.JArray([item])) && P.Member(j, "filterGroups").None?;
    assert P.ShownGroups([]) == [];
  }

  /**
   * The editor drops the end value whenever it changes an operator away from BETWEEN, but keeps one it reads from a stored
   * preset: applying such a preset sends a payload the grammar refuses, exactly when the operator is not BETWEEN.
   */
  lemma LeftoverEndIsRefused(field: string, operator: string, value: string, valueEnd: string)
    requires 1 <= |field| <= P.MAX_FIELD_LENGTH && operator in P.TABLE_FILTER_OPERATORS && Trim(value) != ""
    ensures var root := P.NormalizePresetContent(PresetWithEnd(field, operator, value, valueEnd));
      && root.Group? && P.BuildFilterTreePayload(root).Some?
      && (P.IsFilterTree(P.ToJson(P.BuildFilterTreePayload(root).value)) <==> operator == "BETWEEN")
  {
    var c := P.Condition(field, operator, value, Some(valueEnd));
    var root := P.Group("", P.AND, [P.Line("", c, None)]);
    PresetIsShown(field, operator, value, valueEnd);
    OneLineIsSent(c);
    P.PayloadAcceptedExactly(root);
    assert P.One(c) in [P.One(c)] && (P.AcceptableNode(P.One(c)) <==> operator == "BETWEEN");
  }

  lemma OneLineIsSent(c: P.Condition)
    requires P.IsPopulated(c)
    ensures P.BuildFilterTreePayload(P.Group("", P.AND, [P.Line("", c, None)])) == Some(P.Many(P.AND, [P.One(c)]))
    ensures P.WithinLimits([P.One(c)])
  {
    var line := P.Line("", c, None);
    assert [line][1..] == [] && [P.One(c)][1..] == [];
    assert P.PruneChildren([line]) == P.PruneOne(line) + P.PruneChildren([]);
    assert P.ToPayloads([line]) == [P.ToPayload(line)] + P.ToPayloads([]) == [P.One(c)];
    var root := P.Group("", P.AND, [line]);
    assert P.Prune(root) == root && P.ToPayload(root) == P.Many(P.AND, P.ToPayloads([line]));
    assert P.Groups([P.One(c)]) == P.Groups([]) && P.Conditions([P.One(c)]) == 1 + P.Conditions([]);
  }

  /**
   * The server's normalisation lets a tree without conditions pass: it prints `()`, which the database refuses, while the
   * in-memory interpreter keeps every row.
   */
  lemma EmptyGroupIsRefused(fields: Fields, env: Services, row: Row)
    ensures var j := P.JObject(map["logic" := P.JString("AND"), "conditions" := P.JArray([])]);
      P.NormalizeTableFilters(j) == Some(P.Many(P.AND, [])) && !P.IsFilterTree(j)
    ensures var node := NodeOf(P.Many(P.AND, []));
      && CompileNode(node, fields, env, 0) == Some(Printed([LParen, RParen], []))
      && !Accepted([LParen, RParen], 0, 0)
      && MatchNode(row, node, fields, env) == Some(true)
  {
    var j := P.JObject(map["logic" := P.JString("AND"), "conditions" := P.JArray([])]);
    assert P.Member(j, "conditions") == Some(P.JArray([]));
    var node := NodeOf(P.Many(P.AND, []));
    assert CompileNode(node, fields, env, 0).value.text == [LParen, RParen];
    ParsesExactlyWhenNonEmpty(node, fields, env, 0);
  }
}
