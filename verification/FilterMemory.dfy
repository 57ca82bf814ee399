/** The in-memory interpreter of the same trees (table-query.ts:230-254, 511-579). */
module FilterMemory {
  import opened Options
  import opened SqlText
  import opened FilterTypes
  import opened FilterSql

  /** `String(actual ?? '')` of a text or enum cell. */
  function TextOf(cell: Cell): string {
    if cell.Value? && cell.scalar.Str? then cell.scalar.s else ""
  }

  /** `Number(actual)`: null counts as zero, undefined as not-a-number. */
  function NumberOf(cell: Cell): Option<real> {
    if cell.Null? then Some(0.0) else if cell.Value? && cell.scalar.Num? then Some(cell.scalar.n) else None
  }

  function DateOf(cell: Cell): Option<int> {
    if cell.Value? && cell.scalar.At? then Some(cell.scalar.ms) else None
  }

  /** `matchesMemoryCondition`; `None` is the thrown validation error. */
  function MatchLeaf(row: Row, c: Condition, fields: Fields, env: Services): Option<bool> {
    if c.field !in fields then None
    else
      var kind, actual := fields[c.field].kind, CellOf(row, fields[c.field].column);
      if IsValueless(c.operator) then
        var isEmpty := !actual.Value? || (kind.Text? && actual.scalar == Str(""));
        Some(if c.operator.IsEmpty? then isEmpty else !isEmpty)
      else if IsRelative(c.operator) then
        if !kind.Date? then None
        else if DateOf(actual).None? then Some(false)
        else
          var (from, till) := env.relative(c.operator);
          Some(from <= DateOf(actual).value < till)
      else
        var expected := ScalarValue(c.value, kind, env);
        if expected.None? then None
        else
          match kind
          case Text => MatchText(Folded(env.fold, TextOf(actual)), c.operator, Folded(env.fold, c.value))
          case Enum => MatchEnum(TextOf(actual), c.operator, c.value)
          case Number => MatchNumber(NumberOf(actual), c, expected.value.n, kind, env)
          case Time => MatchNumber(NumberOf(actual), c, expected.value.n, kind, env)
          case Date => MatchDate(DateOf(actual), c, expected.value.ms, env)
  }

  function MatchText(left: string, op: Operator, right: string): Option<bool> {
    match op
    case Equals => Some(left == right)
    case NotEquals => Some(left != right)
    case ContainsText => Some(Contains(left, right))
    case NotContains => Some(!Contains(left, right))
    case StartsWith => Some(right <= left)
    case EndsWithText => Some(EndsWith(left, right))
    case _ => None
  }

  function MatchEnum(left: string, op: Operator, right: string): Option<bool> {
    match op
    case Equals => Some(left == right)
    case NotEquals => Some(left != right)
    case _ => None
  }

  function MatchNumber(left: Option<real>, c: Condition, expected: real, kind: FieldType, env: Services): Option<bool> {
    if left.None? then Some(false)
    else
      var x := left.value;
      match c.operator
      case Equals => Some(x == expected)
      case NotEquals => Some(x != expected)
      case GreaterThan => Some(x > expected)
      case GreaterThanOrEqual => Some(x >= expected)
      case LessThan => Some(x < expected)
      case LessThanOrEqual => Some(x <= expected)
      case Between =>
        var end := BetweenEnd(c, Num(expected), kind, env);
        if end.None? || !end.value.Num? then None else Some(expected <= x <= end.value.n)
      case _ => None
  }

  function MatchDate(left: Option<int>, c: Condition, expected: int, env: Services): Option<bool> {
    if left.None? then Some(false)
    else
      var x := left.value;
      match c.operator
      case Equals => Some(expected <= x < expected + DAY_MS)
      case NotEquals => Some(x < expected || x >= expected + DAY_MS)
      case Before => Some(x < expected)
      case After => Some(x >= expected + DAY_MS)
      case Between =>
        var end := BetweenEnd(c, At(expected), Date, env);
        if end.None? || !end.value.At? then None else Some(expected <= x < end.value.ms + DAY_MS)
      case _ => None
  }

  /** `matchesNode`: every child is evaluated, so one bad condition throws whatever the others say. */
  function MatchNode(row: Row, node: Node, fields: Fields, env: Services): Option<bool> {
    match node
    case Leaf(c) => MatchLeaf(row, c, fields, env)
    case Group(logic, nodes) =>
      var matches := MatchNodes(row, nodes, fields, env);
      if matches.None? then None
      else if logic.AllOf? then Some(forall b :: b in matches.value ==> b)
      else Some(exists b :: b in matches.value && b)
  }

  function MatchNodes(row: Row, nodes: seq<Node>, fields: Fields, env: Services): (r: Option<seq<bool>>)
    ensures r.Some? ==> |r.value| == |nodes|
  {
    if nodes == [] then Some([])
    else
      var first, rest := MatchNode(row, nodes[0], fields, env), MatchNodes(row, nodes[1..], fields, env);
      if first.None? || rest.None? then None else Some([first.value] + rest.value)
  }
}
