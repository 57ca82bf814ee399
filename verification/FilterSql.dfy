/**
 * Compiling a filter tree to parameterised SQL (table-query.ts:182-197, 428-508), and reading the text back.
 *
 * The functions give the text and the parameters of a node when `n` parameters are already numbered; the class is the
 * compiler as written, over its shared list of parameters.
 */
module FilterSql {
  import opened Options
  import opened SqlText
  import opened FilterTypes

  datatype SqlField = SqlField(column: string, kind: FieldType)

  type Fields = map<string, SqlField>

  /** Printed lexemes and the parameters registered while printing. */
  datatype Printed = Printed(text: seq<Token>, added: seq<Scalar>)

  function Compared(column: string, op: CompareOp, index: nat): seq<Token> {
    [Column(column), Compare(op), Param(index)]
  }

  function CompareOpOf(op: Operator): Option<CompareOp> {
    match op
    case Equals => Some(Eq)
    case NotEquals => Some(Ne)
    case GreaterThan => Some(Gt)
    case GreaterThanOrEqual => Some(Ge)
    case LessThan => Some(Lt)
    case LessThanOrEqual => Some(Le)
    case _ => None
  }

  /** `compileSqlCondition` for a field with a column; `n` parameters have been numbered before. */
  function CompileLeaf(c: Condition, fields: Fields, env: Services, n: nat): Option<Printed> {
    if c.field !in fields then None
    else
      var column, kind := fields[c.field].column, fields[c.field].kind;
      if IsValueless(c.operator) then Some(Printed(CompileEmpty(column, kind, c.operator.IsEmpty?), []))
      else if IsRelative(c.operator) then
        if !kind.Date? then None
        else
          var (from, till) := env.relative(c.operator);
          Some(Printed(Compared(column, Ge, n + 1) + [AndWord] + Compared(column, Lt, n + 2), [At(from), At(till)]))
      else
        var value := ScalarValue(c.value, kind, env);
        if value.None? then None
        else
          match kind
          case Text => CompileText(column, c.operator, value.value, n)
          case Enum => CompileEnum(column, c.operator, value.value, n)
          case Number => CompileNumber(column, c, value.value, kind, env, n)
          case Time => CompileNumber(column, c, value.value, kind, env, n)
          case Date => CompileDate(column, c, value.value, env, n)
  }

  function CompileEmpty(column: string, kind: FieldType, isEmpty: bool): seq<Token> {
    var col := Column(column);
    if kind.Text? then
      if isEmpty then [LParen, col, IsWord, NullWord, OrWord, col, Compare(Eq), Quoted(""), RParen]
      else [LParen, col, IsWord, NotWord, NullWord, AndWord, col, Compare(Ne), Quoted(""), RParen]
    else if isEmpty then [col, IsWord, NullWord]
    else [col, IsWord, NotWord, NullWord]
  }

  function CompileText(column: string, op: Operator, value: Scalar, n: nat): Option<Printed> {
    var col, par, any := Column(column), Param(n + 1), Quoted("%");
    match op
    case Equals => Some(Printed([col, ILikeWord, par], [value]))
    case NotEquals => Some(Printed([col, NotWord, ILikeWord, par], [value]))
    case ContainsText => Some(Printed([col, ILikeWord, any, ConcatOp, par, ConcatOp, any], [value]))
    case NotContains => Some(Printed([col, NotWord, ILikeWord, any, ConcatOp, par, ConcatOp, any], [value]))
    case StartsWith => Some(Printed([col, ILikeWord, par, ConcatOp, any], [value]))
    case EndsWithText => Some(Printed([col, ILikeWord, any, ConcatOp, par], [value]))
    case _ => None
  }

  function CompileEnum(column: string, op: Operator, value: Scalar, n: nat): Option<Printed> {
    match op
    case Equals => Some(Printed(Compared(column, Eq, n + 1), [value]))
    case NotEquals => Some(Printed(Compared(column, Ne, n + 1), [value]))
    case _ => None
  }

  function CompileNumber(column: string, c: Condition, value: Scalar, kind: FieldType, env: Services, n: nat): Option<Printed> {
    if CompareOpOf(c.operator).Some? then Some(Printed(Compared(column, CompareOpOf(c.operator).value, n + 1), [value]))
    else if c.operator.Between? then
      var end := BetweenEnd(c, value, kind, env);
      if end.None? then None
      else Some(Printed(Compared(column, Ge, n + 1) + [AndWord] + Compared(column, Le, n + 2), [value, end.value]))
    else None
  }

  function CompileDate(column: string, c: Condition, value: Scalar, env: Services, n: nat): Option<Printed> {
    match c.operator
    case Equals =>
      Some(Printed(Compared(column, Ge, n + 1) + [AndWord] + Compared(column, Lt, n + 2), [value, NextDay(value)]))
    case NotEquals =>
      Some(Printed([LParen] + (Compared(column, Lt, n + 1) + [OrWord] + Compared(column, Ge, n + 2)) + [RParen], [value, NextDay(value)]))
    case Before => Some(Printed(Compared(column, Lt, n + 1), [value]))
    case After => Some(Printed(Compared(column, Ge, n + 2), [value, NextDay(value)]))
    case Between =>
      var end := BetweenEnd(c, value, Date, env);
      if end.None? then None
      else Some(Printed(Compared(column, Ge, n + 1) + [AndWord] + Compared(column, Lt, n + 2), [value, NextDay(end.value)]))
    case _ => None
  }

  function Joined(parts: seq<seq<Token>>, logic: Logic): seq<Token> {
    if parts == [] then []
    else if |parts| == 1 then parts[0]
    else parts[0] + [if logic.AllOf? then AndWord else OrWord] + Joined(parts[1..], logic)
  }

  /** `compileNode`, with the count of parameters numbered so far. */
  function CompileNode(node: Node, fields: Fields, env: Services, n: nat): Option<Printed>
    decreases node, 0
  {
    match node
    case Leaf(c) => CompileLeaf(c, fields, env, n)
    case Group(logic, nodes) =>
      var parts := CompileNodes(nodes, fields, env, n);
      if parts.None? then None
      else Some(Printed([LParen] + Joined(parts.value.0, logic) + [RParen], parts.value.1))
  }

  function CompileNodes(nodes: seq<Node>, fields: Fields, env: Services, n: nat): (r: Option<(seq<seq<Token>>, seq<Scalar>)>)
    ensures r.Some? ==> |r.value.0| == |nodes|
    decreases nodes, 1
  {
    if nodes == [] then Some(([], []))
    else
      var first := CompileNode(nodes[0], fields, env, n);
      if first.None? then None
      else
        var rest := CompileNodes(nodes[1..], fields, env, n + |first.value.added|);
        if rest.None? then None
        else Some(([first.value.text] + rest.value.0, first.value.added + rest.value.1))
  }

  // ---------------------------------------------------------------- the compiler as written

  /** The shared `params` list of `buildTableSqlQuery`. */
  class SqlBuilder {
    const parameterOffset: nat
    var params: seq<Scalar>

    constructor (parameterOffset: nat)
      ensures this.parameterOffset == parameterOffset && params == []
    {
      this.parameterOffset := parameterOffset;
      params := [];
    }

    method NextParam(value: Scalar) returns (placeholder: Token)
      modifies this
      ensures params == old(params) + [value]
      ensures placeholder == Param(parameterOffset + |params|)
    {
      params := params + [value];
      placeholder := Param(parameterOffset + |params|);
    }

    /** On a validation error the query is abandoned, so only a success says anything about `params`. */
    method CompileSqlCondition(c: Condition, fields: Fields, env: Services) returns (text: Option<seq<Token>>)
      modifies this
      ensures var spec := CompileLeaf(c, fields, env, parameterOffset + |old(params)|);
        && (text.Some? <==> spec.Some?)
        && (text.Some? ==> text.value == spec.value.text && params == old(params) + spec.value.added)
    {
      if c.field !in fields {
        return None;
      }
      var column, kind := fields[c.field].column, fields[c.field].kind;
      var col := Column(column);
      if IsValueless(c.operator) {
        return Some(CompileEmpty(column, kind, c.operator.IsEmpty?));
      }
      if IsRelative(c.operator) {
        if !kind.Date? {
          return None;
        }
        var (from, till) := env.relative(c.operator);
        var p1 := NextParam(At(from));
        var p2 := NextParam(At(till));
        return Some([col, Compare(Ge), p1, AndWord, col, Compare(Lt), p2]);
      }
      var value := ScalarValue(c.value, kind, env);
      if value.None? {
        return None;
      }
      var parameter := NextParam(value.value);
      match kind {
        case Text =>
          var any := Quoted("%");
          match c.operator {
            case Equals => text := Some([col, ILikeWord, parameter]);
            case NotEquals => text := Some([col, NotWord, ILikeWord, parameter]);
            case ContainsText => text := Some([col, ILikeWord, any, ConcatOp, parameter, ConcatOp, any]);
            case NotContains => text := Some([col, NotWord, ILikeWord, any, ConcatOp, parameter, ConcatOp, any]);
            case StartsWith => text := Some([col, ILikeWord, parameter, ConcatOp, any]);
            case EndsWithText => text := Some([col, ILikeWord, any, ConcatOp, parameter]);
            case _ => text := None;
          }
        case Enum =>
          text := if c.operator.Equals? then Some([col, Compare(Eq), parameter])
                  else if c.operator.NotEquals? then Some([col, Compare(Ne), parameter])
                  else None;
        case Number =>
          text := CompileRange(c, col, parameter, value.value, kind, env);
        case Time =>
          text := CompileRange(c, col, parameter, value.value, kind, env);
        case Date =>
          text := CompileDay(c, col, parameter, value.value, env);
      }
    }

    method CompileRange(c: Condition, col: Token, parameter: Token, value: Scalar, kind: FieldType, env: Services)
        returns (text: Option<seq<Token>>)
      requires |params| > 0 && col.Column? && parameter == Param(parameterOffset + |params|) && params[|params| - 1] == value
      modifies this
      ensures var spec := CompileNumber(col.expr, c, value, kind, env, parameterOffset + |old(params)| - 1);
        && (text.Some? <==> spec.Some?)
        && (text.Some? ==> text.value == spec.value.text && params == old(params)[..|old(params)| - 1] + spec.value.added)
    {
      var operator := CompareOpOf(c.operator);
      if operator.Some? {
        assert params == params[..|params| - 1] + [value];
        return Some([col, Compare(operator.value), parameter]);
      }
      if c.operator.Between? {
        var end := BetweenEnd(c, value, kind, env);
        if end.None? {
          return None;
        }
        ghost var before := params;
        assert params == params[..|params| - 1] + [value];
        var p2 := NextParam(end.value);
        assert params == before[..|before| - 1] + [value, end.value];
        return Some([col, Compare(Ge), parameter, AndWord, col, Compare(Le), p2]);
      }
      return None;
    }

    method CompileDay(c: Condition, col: Token, parameter: Token, value: Scalar, env: Services) returns (text: Option<seq<Token>>)
      requires |params| > 0 && col.Column? && parameter == Param(parameterOffset + |params|) && params[|params| - 1] == value
      modifies this
      ensures var spec := CompileDate(col.expr, c, value, env, parameterOffset + |old(params)| - 1);
        && (text.Some? <==> spec.Some?)
        && (text.Some? ==> text.value == spec.value.text && params == old(params)[..|old(params)| - 1] + spec.value.added)
    {
      ghost var front := params[..|params| - 1];
      assert params == front + [value];
      match c.operator {
        case Equals =>
          var p2 := NextParam(NextDay(value));
          assert params == front + [value, NextDay(value)];
          text := Some([col, Compare(Ge), parameter, AndWord, col, Compare(Lt), p2]);
        case NotEquals =>
          var p2 := NextParam(NextDay(value));
          assert params == front + [value, NextDay(value)];
          text := Some([LParen, col, Compare(Lt), parameter, OrWord, col, Compare(Ge), p2, RParen]);
        case Before =>
          text := Some([col, Compare(Lt), parameter]);
        case After =>
          var p2 := NextParam(NextDay(value));
          assert params == front + [value, NextDay(value)];
          text := Some([col, Compare(Ge), p2]);
        case Between =>
          var end := BetweenEnd(c, value, Date, env);
          if end.None? {
            return None;
          }
          var p2 := NextParam(NextDay(end.value));
          assert params == front + [value, NextDay(end.value)];
          text := Some([col, Compare(Ge), parameter, AndWord, col, Compare(Lt), p2]);
        case _ =>
          text := None;
      }
    }

    method CompileTree(node: Node, fields: Fields, env: Services) returns (text: Option<seq<Token>>)
      modifies this
      ensures var spec := CompileNode(node, fields, env, parameterOffset + |old(params)|);
        && (text.Some? <==> spec.Some?)
        && (text.Some? ==> text.value == spec.value.text && params == old(params) + spec.value.added)
      decreases node, 0
    {
      match node {
        case Leaf(c) =>
          text := CompileSqlCondition(c, fields, env);
        case Group(logic, nodes) =>
          var parts := CompileParts(nodes, fields, env);
          text := if parts.None? then None else Some([LParen] + Joined(parts.value, logic) + [RParen]);
      }
    }

    method CompileParts(nodes: seq<Node>, fields: Fields, env: Services) returns (parts: Option<seq<seq<Token>>>)
      modifies this
      ensures var spec := CompileNodes(nodes, fields, env, parameterOffset + |old(params)|);
        && (parts.Some? <==> spec.Some?)
        && (parts.Some? ==> parts.value == spec.value.0 && params == old(params) + spec.value.1)
      decreases nodes, 1
    {
      if nodes == [] {
        return Some([]);
      }
      var first := CompileTree(nodes[0], fields, env);
      if first.None? {
        return None;
      }
      var rest := CompileParts(nodes[1..], fields, env);
      parts := if rest.None? then None else Some([first.value] + rest.value);
    }
  }
}
