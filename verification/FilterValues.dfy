/**
 * What each condition of a filter keeps, in the values of the condition and of the cell (table-query.ts:511-579, 611-634):
 * the times of day that parse, the ranges that are taken, and for every type which cells satisfy which operator.
 * The SQL and Prisma forms are proved to agree with the in-memory one, so this is what they mean, too.
 */
module FilterValues {
  import opened Options
  import opened SqlText
  import opened FilterTypes
  import opened FilterSql
  import opened FilterMemory

  // ---------------------------------------------------------------- times of day

  /** Two digits. */
  function Padded(n: nat): string
    requires n < 100
  {
    [(n / 10) as char + '0', (n % 10) as char + '0']
  }

  lemma DigitMeaning(d: nat)
    requires d < 10
    ensures IsDigit(d as char + '0') && Digit(d as char + '0') == d
  {
  }

  /** HH:mm is the minute of the day. */
  lemma TimeParses(h: nat, m: nat)
    requires h < 24 && m < 60
    ensures ParseTime(Padded(h) + ":" + Padded(m)) == Some(60 * h + m)
  {
    DigitMeaning(h / 10);
    DigitMeaning(h % 10);
    DigitMeaning(m / 10);
    DigitMeaning(m % 10);
    var s := Padded(h) + ":" + Padded(m);
    assert s[0] == (h / 10) as char + '0' && s[1] == (h % 10) as char + '0' && s[2] == ':';
    assert s[3] == (m / 10) as char + '0' && s[4] == (m % 10) as char + '0';
    assert 10 * (h / 10) + h % 10 == h && 10 * (m / 10) + m % 10 == m;
  }

  lemma DigitOf(c: char)
    requires IsDigit(c)
    ensures 0 <= Digit(c) < 10 && c == Digit(c) as char + '0'
  {
  }

  /** Nothing else parses but the end of the day, 24:00. */
  lemma OnlyTimesParse(s: string)
    requires ParseTime(s).Some?
    ensures (s == "24:00" && ParseTime(s) == Some(1440)) ||
            exists h: nat, m: nat :: h < 24 && m < 60 && s == Padded(h) + ":" + Padded(m) && ParseTime(s) == Some(60 * h + m)
  {
    if s != "24:00" {
      DigitOf(s[0]);
      DigitOf(s[1]);
      DigitOf(s[3]);
      DigitOf(s[4]);
      var h, m := 10 * Digit(s[0]) + Digit(s[1]), 10 * Digit(s[3]) + Digit(s[4]);
      assert h / 10 == Digit(s[0]) && h % 10 == Digit(s[1]) && m / 10 == Digit(s[3]) && m % 10 == Digit(s[4]);
      assert s == Padded(h) + ":" + Padded(m);
    }
  }

  // ---------------------------------------------------------------- ranges

  ghost predicate NotBelow(end: Scalar, start: Scalar) {
    match (start, end)
    case (Num(a), Num(b)) => a <= b
    case (At(a), At(b)) => a <= b
    case _ => false
  }

  /** Both ends are given and parse, and the end is not below the start. */
  ghost predicate RangeGiven(c: Condition, kind: FieldType, env: Services) {
    && c.valueEnd.Some? && c.valueEnd.value != ""
    && var start, end := ScalarValue(c.value, kind, env), ScalarValue(c.valueEnd.value, kind, env);
    start.Some? && end.Some? && NotBelow(end.value, start.value)
  }

  /** A value that is registered: a day after the given one for the end of a date range. */
  function RangeEnd(c: Condition, kind: FieldType, env: Services): Option<Scalar> {
    var end := if c.valueEnd.Some? then ScalarValue(c.valueEnd.value, kind, env) else None;
    match end
    case Some(At(ms)) => Some(At(ms + 86_400_000))
    case _ => end
  }

  /** BETWEEN on a number, time or date compiles exactly if the range is given, and registers its two ends. */
  lemma RangeCompiles(c: Condition, fields: Fields, env: Services, n: nat)
    requires c.operator.Between? && c.field in fields && (fields[c.field].kind.Number? || fields[c.field].kind.Time? || fields[c.field].kind.Date?)
    ensures var column, kind := fields[c.field].column, fields[c.field].kind;
      && (CompileLeaf(c, fields, env, n).Some? <==> RangeGiven(c, kind, env))
      && (RangeGiven(c, kind, env) ==>
            && RangeEnd(c, kind, env).Some?
            && CompileLeaf(c, fields, env, n) == Some(Printed(
                 [Column(column), Compare(Ge), Param(n + 1), AndWord, Column(column), Compare(if kind.Date? then Lt else Le), Param(n + 2)],
                 [ScalarValue(c.value, kind, env).value, RangeEnd(c, kind, env).value])))
  {
    var column := fields[c.field].column;
    forall op ensures Compared(column, Ge, n + 1) + [AndWord] + Compared(column, op, n + 2) ==
                      [Column(column), Compare(Ge), Param(n + 1), AndWord, Column(column), Compare(op), Param(n + 2)]
    {
    }
  }

  /** In memory it keeps the numbers and times from the start to the end, and of the dates the days from the first to the last. */
  lemma RangeKeeps(row: Row, c: Condition, fields: Fields, env: Services)
    requires c.operator.Between? && c.field in fields && RangeGiven(c, fields[c.field].kind, env)
    ensures var kind, cell := fields[c.field].kind, CellOf(row, fields[c.field].column);
      var start, end := ScalarValue(c.value, kind, env).value, ScalarValue(c.valueEnd.value, kind, env).value;
      && (kind.Number? || kind.Time? ==>
            MatchLeaf(row, c, fields, env) ==
            Some(match cell
                 case Value(Num(x)) => start.n <= x <= end.n
                 case Null => start.n <= 0.0 <= end.n
                 case _ => false))
      && (kind.Date? ==>
            MatchLeaf(row, c, fields, env) ==
            Some(match cell case Value(At(x)) => start.ms <= x < end.ms + 86_400_000 case _ => false))
  {
  }

  // ---------------------------------------------------------------- the other operators

  /** A cell without a value; an empty text is none. */
  ghost predicate Blank(cell: Cell, kind: FieldType) {
    cell == Null || cell == Undefined || (kind.Text? && cell == Value(Str("")))
  }

  lemma EmptyKeeps(row: Row, c: Condition, fields: Fields, env: Services)
    requires c.field in fields
    ensures var kind, cell := fields[c.field].kind, CellOf(row, fields[c.field].column);
      && (c.operator == IsEmpty ==> MatchLeaf(row, c, fields, env) == Some(Blank(cell, kind)))
      && (c.operator == IsNotEmpty ==> MatchLeaf(row, c, fields, env) == Some(!Blank(cell, kind)))
  {
  }

  /** The relative operators test the range of the calendar; no other field has them. */
  lemma RelativeKeeps(row: Row, c: Condition, fields: Fields, env: Services)
    requires c.field in fields && c.operator in {Today, ThisWeek, ThisMonth, ThisYear, Last7Days, Last30Days}
    ensures var kind, cell := fields[c.field].kind, CellOf(row, fields[c.field].column);
      MatchLeaf(row, c, fields, env) ==
      if kind != Date then None
      else Some(match cell case Value(At(x)) => env.relative(c.operator).0 <= x < env.relative(c.operator).1 case _ => false)
  {
  }

  function NumberIn(c: Condition, kind: FieldType, env: Services): Option<real> {
    if kind.Number? then env.parseNumber(c.value)
    else var t := ParseTime(c.value); if t.None? then None else Some(t.value as real)
  }

  /** Numbers and times: a value that does not parse is an error, a cell without a number is not kept, null counts as zero. */
  lemma NumberKeeps(row: Row, c: Condition, fields: Fields, env: Services)
    requires c.field in fields && (fields[c.field].kind.Number? || fields[c.field].kind.Time?)
    requires c.operator in {Equals, NotEquals, GreaterThan, GreaterThanOrEqual, LessThan, LessThanOrEqual}
    ensures var kind, cell := fields[c.field].kind, CellOf(row, fields[c.field].column);
      var v := NumberIn(c, kind, env);
      && (v.None? ==> MatchLeaf(row, c, fields, env) == None)
      && (v.Some? ==>
            MatchLeaf(row, c, fields, env) ==
            Some(match cell
                 case Value(Num(x)) => NumberTest(c.operator, x, v.value)
                 case Null => NumberTest(c.operator, 0.0, v.value)
                 case _ => false))
  {
  }

  ghost predicate NumberTest(op: Operator, x: real, v: real) {
    && (op == Equals ==> x == v) && (op == NotEquals ==> x != v)
    && (op == GreaterThan ==> x > v) && (op == GreaterThanOrEqual ==> x >= v)
    && (op == LessThan ==> x < v) && (op == LessThanOrEqual ==> x <= v)
  }

  /** Dates: the given day has 24 hours. */
  lemma DateKeeps(row: Row, c: Condition, fields: Fields, env: Services)
    requires c.field in fields && fields[c.field].kind.Date? && c.operator in {Equals, NotEquals, Before, After}
    ensures var cell, day := CellOf(row, fields[c.field].column), env.parseDate(c.value);
      && (day.None? ==> MatchLeaf(row, c, fields, env) == None)
      && (day.Some? ==>
            MatchLeaf(row, c, fields, env) ==
            Some(match cell case Value(At(x)) => DateTest(c.operator, x, day.value) case _ => false))
  {
  }

  ghost predicate DateTest(op: Operator, x: int, day: int) {
    && (op == Equals ==> day <= x < day + 86_400_000) && (op == NotEquals ==> x < day || day + 86_400_000 <= x)
    && (op == Before ==> x < day) && (op == After ==> day + 86_400_000 <= x)
  }

  /** Texts are compared up to case; a cell without a text counts as empty. */
  lemma TextKeeps(row: Row, c: Condition, fields: Fields, env: Services)
    requires c.field in fields && fields[c.field].kind.Text?
    requires c.operator in {Equals, NotEquals, ContainsText, NotContains, StartsWith, EndsWithText}
    ensures var cell := CellOf(row, fields[c.field].column);
      var s := Folded(env.fold, match cell case Value(Str(x)) => x case _ => "");
      MatchLeaf(row, c, fields, env) == Some(TextTest(c.operator, s, Folded(env.fold, c.value)))
  {
    LeafOfText(row, c, fields, env);
    TextTestMeaning(Folded(env.fold, TextOf(CellOf(row, fields[c.field].column))), c.operator, Folded(env.fold, c.value));
  }

  lemma LeafOfText(row: Row, c: Condition, fields: Fields, env: Services)
    requires c.field in fields && fields[c.field].kind.Text? && !IsValueless(c.operator) && !IsRelative(c.operator)
    ensures var cell := CellOf(row, fields[c.field].column);
      && TextOf(cell) == (match cell case Value(Str(x)) => x case _ => "")
      && MatchLeaf(row, c, fields, env) == MatchText(Folded(env.fold, TextOf(cell)), c.operator, Folded(env.fold, c.value))
  {
  }

  lemma TextTestMeaning(s: string, op: Operator, v: string)
    requires op in {Equals, NotEquals, ContainsText, NotContains, StartsWith, EndsWithText}
    ensures MatchText(s, op, v) == Some(TextTest(op, s, v))
  {
    if op == EndsWithText && EndsWith(s, v) {
      assert s[|s| - |v|..] == v;
    }
  }

  ghost predicate TextTest(op: Operator, s: string, v: string) {
    && (op == Equals ==> s == v) && (op == NotEquals ==> s != v)
    && (op == ContainsText ==> exists i :: 0 <= i <= |s| && v <= s[i..])
    && (op == NotContains ==> !exists i :: 0 <= i <= |s| && v <= s[i..])
    && (op == StartsWith ==> v <= s) && (op == EndsWithText ==> exists i :: 0 <= i <= |s| && s[i..] == v)
  }

  lemma EnumKeeps(row: Row, c: Condition, fields: Fields, env: Services)
    requires c.field in fields && fields[c.field].kind.Enum? && c.operator in {Equals, NotEquals}
    ensures var s := match CellOf(row, fields[c.field].column) case Value(Str(x)) => x case _ => "";
      MatchLeaf(row, c, fields, env) == Some(if c.operator == Equals then s == c.value else s != c.value)
  {
  }
}
