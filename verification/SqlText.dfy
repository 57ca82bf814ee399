/** The part of PostgreSQL a filter is printed in: lexemes, their reading (documentation, section 4.1.6) and their meaning (section 9.1). */
module SqlText {
  import opened Options

  datatype Scalar = Str(s: string) | Num(n: real) | At(ms: int)

  /** A cell as the server holds it; the database stores both empty forms as NULL. */
  datatype Cell = Null | Undefined | Value(scalar: Scalar)

  /** Cells by column expression. */
  type Row = map<string, Cell>

  datatype CompareOp = Eq | Ne | Lt | Le | Gt | Ge

  datatype Token =
    | LParen | RParen | AndWord | OrWord | NotWord | IsWord | NullWord | ILikeWord | ConcatOp
    | Compare(op: CompareOp) | Column(expr: string) | Param(index: nat) | Quoted(text: string)

  datatype Operand = Col(expr: string) | Par(index: nat) | Lit(text: string) | Cat(left: Operand, right: Operand)

  datatype Sql =
    | Or(left: Sql, right: Sql)
    | And(left: Sql, right: Sql)
    | Cmp(op: CompareOp, a: Operand, b: Operand)
    | ILike(negated: bool, a: Operand, b: Operand)
    | IsNull(negated: bool, a: Operand)

  // ---------------------------------------------------------------- reading

  type Parsed<T> = Option<(T, seq<Token>)>

  /** OR binds weakest. */
  function ParseOr(ts: seq<Token>): (r: Parsed<Sql>)
    ensures r.Some? ==> |r.value.1| < |ts|
    decreases |ts|, 2
  {
    var left := ParseAnd(ts);
    if left.None? || left.value.1 == [] || left.value.1[0] != OrWord then left
    else
      var right := ParseOr(left.value.1[1..]);
      if right.None? then None else Some((Or(left.value.0, right.value.0), right.value.1))
  }

  function ParseAnd(ts: seq<Token>): (r: Parsed<Sql>)
    ensures r.Some? ==> |r.value.1| < |ts|
    decreases |ts|, 1
  {
    var left := ParsePrimary(ts);
    if left.None? || left.value.1 == [] || left.value.1[0] != AndWord then left
    else
      var right := ParseAnd(left.value.1[1..]);
      if right.None? then None else Some((And(left.value.0, right.value.0), right.value.1))
  }

  /** A parenthesised condition, or an operand with a comparison, [NOT] ILIKE or IS [NOT] NULL. */
  function ParsePrimary(ts: seq<Token>): (r: Parsed<Sql>)
    ensures r.Some? ==> |r.value.1| < |ts|
    decreases |ts|, 0
  {
    if ts != [] && ts[0] == LParen then
      var inner := ParseOr(ts[1..]);
      if inner.None? || inner.value.1 == [] || inner.value.1[0] != RParen then None
      else Some((inner.value.0, inner.value.1[1..]))
    else
      var a := ParseOperand(ts);
      if a.None? then None else ParseTail(a.value.0, a.value.1)
  }

  function ParseTail(a: Operand, ts: seq<Token>): (r: Parsed<Sql>)
    ensures r.Some? ==> |r.value.1| < |ts|
  {
    if ts == [] then None
    else if ts[0].Compare? then
      var b := ParseOperand(ts[1..]);
      if b.None? then None else Some((Cmp(ts[0].op, a, b.value.0), b.value.1))
    else if ts[0] == ILikeWord then
      var b := ParseOperand(ts[1..]);
      if b.None? then None else Some((ILike(false, a, b.value.0), b.value.1))
    else if |ts| >= 2 && ts[0] == NotWord && ts[1] == ILikeWord then
      var b := ParseOperand(ts[2..]);
      if b.None? then None else Some((ILike(true, a, b.value.0), b.value.1))
    else if |ts| >= 2 && ts[0] == IsWord && ts[1] == NullWord then Some((IsNull(false, a), ts[2..]))
    else if |ts| >= 3 && ts[0] == IsWord && ts[1] == NotWord && ts[2] == NullWord then Some((IsNull(true, a), ts[3..]))
    else None
  }

  /** `||` binds tighter than every comparison. */
  function ParseOperand(ts: seq<Token>): (r: Parsed<Operand>)
    ensures r.Some? ==> |r.value.1| < |ts|
    decreases |ts|
  {
    if ts == [] || !(ts[0].Column? || ts[0].Param? || ts[0].Quoted?) then None
    else
      var atom := match ts[0] case Column(e) => Col(e) case Param(i) => Par(i) case Quoted(t) => Lit(t) case _ => Lit("");
      if |ts| >= 2 && ts[1] == ConcatOp then
        var more := ParseOperand(ts[2..]);
        if more.None? then None else Some((Cat(atom, more.value.0), more.value.1))
      else Some((atom, ts[1..]))
  }

  function Parse(ts: seq<Token>): Option<Sql> {
    var r := ParseOr(ts);
    if r.Some? && r.value.1 == [] then Some(r.value.0) else None
  }

  // ---------------------------------------------------------------- meaning

  datatype Tri = True | False | Unknown

  function Not3(a: Tri): Tri {
    match a case True => False case False => True case Unknown => Unknown
  }

  function And3(a: Tri, b: Tri): Tri {
    if a == False || b == False then False else if a == True && b == True then True else Unknown
  }

  function Or3(a: Tri, b: Tri): Tri {
    if a == True || b == True then True else if a == False && b == False then False else Unknown
  }

  function Of(b: bool): Tri {
    if b then True else False
  }

  function CellOf(row: Row, expr: string): Cell {
    if expr in row then row[expr] else Null
  }

  /** `None` is NULL. Parameters count from one. */
  function EvalOperand(o: Operand, row: Row, params: seq<Scalar>): Option<Scalar> {
    match o
    case Col(e) => var c := CellOf(row, e); if c.Value? then Some(c.scalar) else None
    case Par(i) => if 1 <= i <= |params| then Some(params[i - 1]) else None
    case Lit(t) => Some(Str(t))
    case Cat(l, r) =>
      var a, b := EvalOperand(l, row, params), EvalOperand(r, row, params);
      if a.Some? && b.Some? && a.value.Str? && b.value.Str? then Some(Str(a.value.s + b.value.s)) else None
  }

  predicate Holds(op: CompareOp, less: bool, equal: bool) {
    match op
    case Eq => equal
    case Ne => !equal
    case Lt => less
    case Le => less || equal
    case Gt => !less && !equal
    case Ge => !less
  }

  /** NULL compares unknown; so does a type clash, which no typed row produces. */
  function EvalCompare(op: CompareOp, a: Option<Scalar>, b: Option<Scalar>): Tri {
    if a.None? || b.None? then Unknown
    else
      match (a.value, b.value)
      case (Num(x), Num(y)) => Of(Holds(op, x < y, x == y))
      case (At(x), At(y)) => Of(Holds(op, x < y, x == y))
      case (Str(x), Str(y)) => if op.Eq? then Of(x == y) else if op.Ne? then Of(x != y) else Unknown
      case _ => Unknown
  }

  function Folded(fold: char -> char, s: string): (r: string)
    ensures |r| == |s| && forall i :: 0 <= i < |s| ==> r[i] == fold(s[i])
  {
    seq(|s|, i requires 0 <= i < |s| => fold(s[i]))
  }

  /** LIKE: `%` any run, `_` any character, `\` takes the next pattern character literally. */
  predicate Like(s: string, p: string)
    decreases |p| + |s|
  {
    if p == [] then s == []
    else if p[0] == '%' then Like(s, p[1..]) || (s != [] && Like(s[1..], p))
    else if p[0] == '_' then s != [] && Like(s[1..], p[1..])
    else if p[0] == '\\' then |p| >= 2 && s != [] && s[0] == p[1] && Like(s[1..], p[2..])
    else s != [] && s[0] == p[0] && Like(s[1..], p[1..])
  }

  function EvalLike(fold: char -> char, a: Option<Scalar>, b: Option<Scalar>): Tri {
    if a.Some? && b.Some? && a.value.Str? && b.value.Str? then Of(Like(Folded(fold, a.value.s), Folded(fold, b.value.s)))
    else Unknown
  }

  function Eval(fold: char -> char, e: Sql, row: Row, params: seq<Scalar>): Tri {
    match e
    case Or(l, r) => Or3(Eval(fold, l, row, params), Eval(fold, r, row, params))
    case And(l, r) => And3(Eval(fold, l, row, params), Eval(fold, r, row, params))
    case Cmp(op, a, b) => EvalCompare(op, EvalOperand(a, row, params), EvalOperand(b, row, params))
    case ILike(negated, a, b) =>
      var t := EvalLike(fold, EvalOperand(a, row, params), EvalOperand(b, row, params));
      if negated then Not3(t) else t
    case IsNull(negated, a) => Of(EvalOperand(a, row, params).None? != negated)
  }

  function Referenced(ts: seq<Token>): set<nat> {
    set t | t in ts && t.Param? :: t.index
  }

  /** The parameter numbers from `n + 1` to `n + count`. */
  function Numbers(n: nat, count: nat): (r: set<nat>)
    ensures forall i :: i in r <==> n < i <= n + count
  {
    if count == 0 then {} else Numbers(n, count - 1) + {n + count}
  }

  /**
   * The database takes the condition with `count` parameters registered after the first `offset`: the text is well-formed
   * and mentions each of them, for the type of a parameter that occurs nowhere cannot be determined.
   */
  predicate Accepted(text: seq<Token>, offset: nat, count: nat) {
    Parse(text).Some? && Numbers(offset, count) <= Referenced(text)
  }

  /** Which rows `WHERE text` keeps: none if it is refused, else those for which the condition is true. */
  predicate Selects(fold: char -> char, text: seq<Token>, offset: nat, row: Row, params: seq<Scalar>)
    requires offset <= |params|
  {
    Accepted(text, offset, |params| - offset) && Eval(fold, Parse(text).value, row, params) == True
  }

  // ---------------------------------------------------------------- patterns without wildcards

  predicate IsWild(c: char) {
    c == '%' || c == '_' || c == '\\'
  }

  predicate Plain(s: string) {
    forall i :: 0 <= i < |s| ==> !IsWild(s[i])
  }

  /** Case folding leaves the wildcard characters apart. */
  ghost predicate KeepsWild(fold: char -> char) {
    forall c :: (IsWild(c) ==> fold(c) == c) && (IsWild(fold(c)) ==> IsWild(c))
  }

  predicate Contains(s: string, t: string) {
    exists i :: 0 <= i <= |s| && t <= s[i..]
  }

  predicate EndsWith(s: string, t: string) {
    |t| <= |s| && s[|s| - |t|..] == t
  }

  lemma {:induction false} LikePlain(s: string, p: string)
    requires Plain(p)
    ensures Like(s, p) <==> s == p
    decreases |p|
  {
    if p != [] {
      assert !IsWild(p[0]);
      if s != [] {
        LikePlain(s[1..], p[1..]);
        assert s == [s[0]] + s[1..] && p == [p[0]] + p[1..];
      }
    }
  }

  lemma {:induction false} LikePrefix(s: string, p: string)
    requires Plain(p)
    ensures Like(s, p + "%") <==> p <= s
    decreases |p|
  {
    if p == [] {
      assert p + "%" == "%";
      LikeAnything(s);
    } else {
      assert !IsWild(p[0]);
      assert (p + "%")[1..] == p[1..] + "%";
      if s != [] {
        LikePrefix(s[1..], p[1..]);
        assert s == [s[0]] + s[1..] && p == [p[0]] + p[1..];
      }
    }
  }

  lemma {:induction false} LikeAnything(s: string)
    ensures Like(s, "%")
    decreases |s|
  {
    if s == [] {
      assert "%"[1..] == [];
    } else {
      LikeAnything(s[1..]);
    }
  }

  /** A leading `%` matches exactly when some suffix matches the rest of the pattern. */
  lemma {:induction false} LikeSuffix(s: string, q: string)
    ensures Like(s, "%" + q) <==> exists i :: 0 <= i <= |s| && Like(s[i..], q)
    decreases |s|
  {
    assert ("%" + q)[1..] == q;
    assert s[0..] == s;
    if s != [] {
      LikeSuffix(s[1..], q);
      if Like(s[1..], "%" + q) {
        var i :| 0 <= i <= |s[1..]| && Like(s[1..][i..], q);
        assert s[1..][i..] == s[i + 1..];
      }
      if i :| 0 <= i <= |s| && Like(s[i..], q) {
        if i > 0 {
          assert s[i..] == s[1..][i - 1..];
        }
      }
    } else if i :| 0 <= i <= |s| && Like(s[i..], q) {
      assert s[i..] == s;
    }
  }

  lemma LikeContains(s: string, p: string)
    requires Plain(p)
    ensures Like(s, "%" + (p + "%")) <==> Contains(s, p)
  {
    LikeSuffix(s, p + "%");
    forall i | 0 <= i <= |s| ensures Like(s[i..], p + "%") <==> p <= s[i..] {
      LikePrefix(s[i..], p);
    }
  }

  lemma LikeEndsWith(s: string, p: string)
    requires Plain(p)
    ensures Like(s, "%" + p) <==> EndsWith(s, p)
  {
    LikeSuffix(s, p);
    forall i | 0 <= i <= |s| ensures Like(s[i..], p) <==> s[i..] == p {
      LikePlain(s[i..], p);
    }
    if EndsWith(s, p) {
      assert s[|s| - |p|..] == p;
    }
  }

  /** A string the pattern matches without using any wildcard freedom, if there is one. */
  function Witness(p: string): Option<string> {
    if p == [] then Some([])
    else if p[0] == '%' then Witness(p[1..])
    else if p[0] == '\\' then
      if |p| == 1 then None
      else
        var rest := Witness(p[2..]);
        if rest.None? then None else Some([p[1]] + rest.value)
    else
      var rest := Witness(p[1..]);
      if rest.None? then None else Some([if p[0] == '_' then 'a' else p[0]] + rest.value)
  }

  lemma FoldedTail(fold: char -> char, s: string, i: nat)
    requires i <= |s|
    ensures Folded(fold, s)[i..] == Folded(fold, s[i..])
  {
  }

  lemma {:induction false} WitnessMatches(fold: char -> char, p: string)
    requires KeepsWild(fold) && Witness(p).Some?
    ensures Like(Folded(fold, Witness(p).value), Folded(fold, p))
    ensures |Witness(p).value| <= |p|
    ensures !Plain(p) ==> Folded(fold, Witness(p).value) != Folded(fold, p)
    decreases |p|
  {
    if p != [] {
      var w, f := Witness(p).value, Folded(fold, p);
      FoldedTail(fold, p, 1);
      assert fold(p[0]) == f[0];
      if p[0] == '\\' {
        WitnessMatches(fold, p[2..]);
        FoldedTail(fold, p, 2);
        FoldedTail(fold, w, 1);
      } else if p[0] == '%' {
        WitnessMatches(fold, p[1..]);
      } else {
        WitnessMatches(fold, p[1..]);
        FoldedTail(fold, w, 1);
        assert !IsWild(fold('a'));
        assert Plain(p[1..]) && !IsWild(p[0]) ==> Plain(p);
      }
    }
  }

  lemma {:induction false} DanglingEscape(fold: char -> char, s: string, p: string)
    requires KeepsWild(fold) && Witness(p).None?
    ensures !Like(s, Folded(fold, p))
    decreases |p| + |s|
  {
    FoldedTail(fold, p, 1);
    assert fold(p[0]) == Folded(fold, p)[0];
    if p[0] == '%' {
      DanglingEscape(fold, s, p[1..]);
      if s != [] {
        DanglingEscape(fold, s[1..], p);
      }
    } else if s != [] {
      if p[0] == '\\' {
        if |p| >= 2 {
          FoldedTail(fold, p, 2);
          DanglingEscape(fold, s[1..], p[2..]);
        }
      } else {
        DanglingEscape(fold, s[1..], p[1..]);
      }
    }
  }

  lemma FoldedPlain(fold: char -> char, p: string)
    requires KeepsWild(fold)
    ensures Plain(Folded(fold, p)) <==> Plain(p)
  {
    forall i | 0 <= i < |p| ensures IsWild(Folded(fold, p)[i]) <==> IsWild(p[i]) {
    }
  }

  // ---------------------------------------------------------------- the six text tests

  /** A value with `%` printed before or after it. */
  function Affixed(v: string, before: bool, after: bool): string {
    var p := if after then v + "%" else v;
    if before then "%" + p else p
  }

  /** What such a pattern is meant to test: equality, prefix, suffix or containment. */
  predicate Found(s: string, v: string, before: bool, after: bool) {
    if before && after then Contains(s, v) else if before then EndsWith(s, v) else if after then v <= s else s == v
  }

  lemma FoldedAffixed(fold: char -> char, v: string, before: bool, after: bool)
    requires KeepsWild(fold)
    ensures Folded(fold, Affixed(v, before, after)) == Affixed(Folded(fold, v), before, after)
  {
    assert IsWild('%') && fold('%') == '%';
  }

  predicate TestedAsMeant(fold: char -> char, s: string, v: string, before: bool, after: bool) {
    Like(Folded(fold, s), Folded(fold, Affixed(v, before, after))) <==> Found(Folded(fold, s), Folded(fold, v), before, after)
  }

  /** A wildcard-free value is tested as meant. */
  lemma PatternMeaning(fold: char -> char, s: string, v: string, before: bool, after: bool)
    requires KeepsWild(fold) && Plain(v)
    ensures TestedAsMeant(fold, s, v, before, after)
  {
    var f, p := Folded(fold, s), Folded(fold, v);
    FoldedPlain(fold, v);
    FoldedAffixed(fold, v, before, after);
    LikePlain(f, p);
    LikePrefix(f, p);
    LikeContains(f, p);
    LikeEndsWith(f, p);
  }

  lemma {:induction false} LikeBeforeAny(s: string, p: string)
    requires Like(s, p)
    ensures Like(s, p + "%")
    decreases |p| + |s|
  {
    var q := p + "%";
    if p == [] {
      LikeAnything(s);
      assert q == "%";
    } else {
      assert q[0] == p[0] && q[1..] == p[1..] + "%";
      if p[0] == '%' {
        if Like(s, p[1..]) {
          LikeBeforeAny(s, p[1..]);
        } else {
          LikeBeforeAny(s[1..], p);
        }
      } else if p[0] == '\\' {
        assert q[1] == p[1] && q[2..] == p[2..] + "%";
        LikeBeforeAny(s[1..], p[2..]);
      } else {
        LikeBeforeAny(s[1..], p[1..]);
      }
    }
  }

  lemma LikeAffixed(s: string, p: string, before: bool, after: bool)
    requires Like(s, p)
    ensures Like(s, Affixed(p, before, after))
  {
    var q := if after then p + "%" else p;
    if after {
      LikeBeforeAny(s, p);
    }
    if before {
      LikeSuffix(s, q);
      assert s[0..] == s;
    }
  }

  /** A different text that is no longer than the value does not pass any of the tests. */
  lemma TooShortToHold(s: string, v: string, before: bool, after: bool)
    requires |s| <= |v| && s != v
    ensures !Found(s, v, before, after)
  {
    assert s[0..] == s;
    forall i | 0 <= i <= |s| ensures !(v <= s[i..]) {
      assert |s[i..]| == |s| - i;
    }
  }

  /** A value that ends in an unfinished escape takes the `%` printed after it as a letter. */
  lemma {:induction false} UnfinishedEscape(v: string)
    requires Witness(v).None?
    ensures v != [] && v[|v| - 1] == '\\'
    ensures var w := Witness(v + "%"); w.Some? && 0 < |w.value| <= |v| && w.value[|w.value| - 1] == '%'
    decreases |v|
  {
    var q := v + "%";
    assert q[0] == v[0] && q[1..] == v[1..] + "%";
    if v[0] == '\\' && |v| == 1 {
      assert q[2..] == [] && q[1] == '%';
    } else if v[0] == '\\' {
      assert q[1] == v[1] && q[2..] == v[2..] + "%";
      UnfinishedEscape(v[2..]);
    } else {
      UnfinishedEscape(v[1..]);
    }
  }

  /** For every value with a wildcard some text is told apart: by SQL and by the intended test. */
  lemma WildValueMisleads(fold: char -> char, v: string, before: bool, after: bool) returns (s: string)
    requires KeepsWild(fold) && !Plain(v)
    ensures !TestedAsMeant(fold, s, v, before, after)
  {
    var p := Folded(fold, v);
    FoldedAffixed(fold, v, before, after);
    if Witness(v).Some? {
      s := Witness(v).value;
      WitnessMatches(fold, v);
      LikeAffixed(Folded(fold, s), p, before, after);
      TooShortToHold(Folded(fold, s), p, before, after);
    } else {
      UnfinishedEscape(v);
      if after {
        s := Witness(v + "%").value;
        WitnessMatches(fold, v + "%");
        FoldedAffixed(fold, v, false, true);
        assert IsWild('%') && IsWild('\\');
        assert Folded(fold, s)[|s| - 1] == '%' && p[|v| - 1] == '\\';
        TooShortToHold(Folded(fold, s), p, before, after);
        LikeAffixed(Folded(fold, s), p + "%", before, false);
      } else {
        s := v;
        LikeSuffix(p, p);
        assert p[0..] == p;
        forall i | 0 <= i <= |p| ensures !Like(p[i..], p) {
          DanglingEscape(fold, p[i..], v);
        }
      }
    }
  }

  /** Without escaping, each of the text tests means what it should for all texts exactly for values free of `%`, `_` and `\`. */
  lemma ILikeIsExactExactlyWhenPlain(fold: char -> char, v: string, before: bool, after: bool)
    requires KeepsWild(fold)
    ensures (forall s: string :: TestedAsMeant(fold, s, v, before, after)) <==> Plain(v)
  {
    if Plain(v) {
      forall s: string ensures TestedAsMeant(fold, s, v, before, after) {
        PatternMeaning(fold, s, v, before, after);
      }
    } else {
      var s := WildValueMisleads(fold, v, before, after);
      assert !TestedAsMeant(fold, s, v, before, after);
    }
  }
}
