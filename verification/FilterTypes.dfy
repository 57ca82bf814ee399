/** Filter trees, field types and value parsing (table-query.ts:3-45, 132-139, 611-663). */
module FilterTypes {
  import opened Options
  import opened SqlText

  /** `Other` is any operator name outside the closed list; nothing accepts it. */
  datatype Operator =
    | Equals | NotEquals | ContainsText | NotContains | GreaterThan | GreaterThanOrEqual | LessThan | LessThanOrEqual
    | Before | After | Between | IsEmpty | IsNotEmpty | StartsWith | EndsWithText
    | Today | ThisWeek | ThisMonth | ThisYear | Last7Days | Last30Days
    | Other(name: string)

  datatype Logic = AllOf | AnyOf

  datatype Condition = Condition(field: string, operator: Operator, value: string, valueEnd: Option<string>)

  /** A condition, or a group of nodes; the root is a group. */
  datatype Node = Leaf(condition: Condition) | Group(logic: Logic, conditions: seq<Node>)

  datatype FieldType = Text | Number | Enum | Date | Time

  /** What is outside this model: case folding, number and date syntax, and the calendar range of a relative operator today. */
  datatype Services = Services(
    fold: char -> char,
    parseNumber: string -> Option<real>,
    parseDate: string -> Option<int>,
    relative: Operator -> (int, int))

  const DAY_MS := 24 * 60 * 60 * 1000

  predicate IsValueless(op: Operator) {
    op.IsEmpty? || op.IsNotEmpty?
  }

  predicate IsRelative(op: Operator) {
    op.Today? || op.ThisWeek? || op.ThisMonth? || op.ThisYear? || op.Last7Days? || op.Last30Days?
  }

  predicate IsDigit(c: char) {
    '0' <= c <= '9'
  }

  function Digit(c: char): nat
    requires IsDigit(c)
  {
    c as int - '0' as int
  }

  /** HH:mm as minutes of the day, with 24:00 as the end of the day. */
  function ParseTime(s: string): Option<int> {
    if s == "24:00" then Some(1440)
    else if |s| == 5 && IsDigit(s[0]) && IsDigit(s[1]) && s[2] == ':' && IsDigit(s[3]) && IsDigit(s[4])
            && 10 * Digit(s[0]) + Digit(s[1]) < 24 && Digit(s[3]) < 6 then
      Some(60 * (10 * Digit(s[0]) + Digit(s[1])) + 10 * Digit(s[3]) + Digit(s[4]))
    else None
  }

  /** `scalarValue`; `None` is the validation error. */
  function ScalarValue(value: string, kind: FieldType, env: Services): (r: Option<Scalar>)
    ensures r.Some? ==> HasType(r.value, kind)
  {
    match kind
    case Text => Some(Str(value))
    case Enum => Some(Str(value))
    case Number => var n := env.parseNumber(value); if n.None? then None else Some(Num(n.value))
    case Time => var t := ParseTime(value); if t.None? then None else Some(Num(t.value as real))
    case Date => var d := env.parseDate(value); if d.None? then None else Some(At(d.value))
  }

  predicate HasType(s: Scalar, kind: FieldType) {
    match kind
    case Text => s.Str?
    case Enum => s.Str?
    case Number => s.Num?
    case Time => s.Num?
    case Date => s.At?
  }

  function NextDay(s: Scalar): Scalar {
    if s.At? then At(s.ms + DAY_MS) else s
  }

  /** The parsed end of a BETWEEN: present, well-formed and not before the start. */
  function BetweenEnd(c: Condition, start: Scalar, kind: FieldType, env: Services): Option<Scalar> {
    if c.valueEnd.None? || c.valueEnd.value == "" then None
    else
      var end := ScalarValue(c.valueEnd.value, kind, env);
      if end.None? then None
      else
        match (start, end.value)
        case (Num(a), Num(b)) => if b < a then None else end
        case (At(a), At(b)) => if b < a then None else end
        case _ => None
  }
}
