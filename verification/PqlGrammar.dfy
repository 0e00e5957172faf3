/**
 * What the recursive-descent parser computes, as functions from the remaining tokens to a tree
 * and the tokens after it. Precedence, loosest first: OR, AND, NOT, predicates, atoms.
 */
module PqlGrammar {
  import opened Base
  import opened PqlAst
  import opened PqlToken
  import Hlc

  datatype ParseError =
    | Expected(want: Token, got: Token)
    | ExpectedNamespace(got: Token)
    | UnexpectedToken(got: Token)
    | NoColumns
    | LikeExpectsString(got: Token)
    | ExpectedLiteral(got: Token)
    | ExpectedTimestamp(got: Token)
    | InvalidTimestamp(text: string)
    | ExpectedHlc(got: Token)
    | InvalidHlc(text: string)
    | ExpectedNonNegative(got: Token)

  /** A parsed value and the tokens that follow it. */
  type Parsed<T> = Result<(T, seq<Token>), ParseError>

  /** Reading past the end gives `Eof`. */
  function Peek(ts: seq<Token>): Token {
    if ts == [] then Eof else ts[0]
  }

  function Rest(ts: seq<Token>): seq<Token> {
    if ts == [] then [] else ts[1..]
  }

  function Expect(want: Token, ts: seq<Token>): (r: Result<seq<Token>, ParseError>)
    ensures r.Ok? && want != Eof ==> |r.value| < |ts|
  {
    if Peek(ts) == want then Ok(Rest(ts)) else Err(Expected(want, Peek(ts)))
  }

  function ParseLiteral(ts: seq<Token>): (r: Parsed<Literal>)
    ensures r.Ok? ==> |r.value.1| < |ts|
  {
    match Peek(ts)
    case Str(s) => Ok((Literal.Str(s), Rest(ts)))
    case Int(n) => Ok((Literal.Int(n), Rest(ts)))
    case Float(f) => Ok((Literal.Float(f), Rest(ts)))
    case True => Ok((Bool(true), Rest(ts)))
    case False => Ok((Bool(false), Rest(ts)))
    case Null => Ok((Literal.Null, Rest(ts)))
    case other => Err(ExpectedLiteral(other))
  }

  function ParseLiterals(values: seq<Literal>, ts: seq<Token>): (r: Parsed<seq<Literal>>)
    ensures r.Ok? ==> |r.value.1| < |ts| && |r.value.0| > |values|
    decreases |ts|
  {
    var (v, rest) :- ParseLiteral(ts);
    if Peek(rest) == Comma then ParseLiterals(values + [v], Rest(rest)) else Ok((values + [v], rest))
  }

  function OperatorOf(t: Token): Option<Operator> {
    match t
    case Eq => Some(Operator.Eq)
    case Ne => Some(Operator.Ne)
    case Lt => Some(Operator.Lt)
    case Le => Some(Operator.Le)
    case Gt => Some(Operator.Gt)
    case Ge => Some(Operator.Ge)
    case _ => None
  }

  function ParseOr(ts: seq<Token>): (r: Parsed<Expr>)
    ensures r.Ok? ==> |r.value.1| < |ts| && WellFormed(r.value.0)
    decreases |ts|, 4
  {
    var (left, rest) :- ParseAnd(ts);
    OrRest(left, rest)
  }

  function OrRest(left: Expr, ts: seq<Token>): (r: Parsed<Expr>)
    ensures r.Ok? ==> |r.value.1| <= |ts| && (WellFormed(left) ==> WellFormed(r.value.0))
    decreases |ts|, 5
  {
    if Peek(ts) != Token.Or then Ok((left, ts))
    else
      var (right, rest) :- ParseAnd(Rest(ts));
      OrRest(Expr.Or(left, right), rest)
  }

  function ParseAnd(ts: seq<Token>): (r: Parsed<Expr>)
    ensures r.Ok? ==> |r.value.1| < |ts| && WellFormed(r.value.0)
    decreases |ts|, 3
  {
    var (left, rest) :- ParseNot(ts);
    AndRest(left, rest)
  }

  function AndRest(left: Expr, ts: seq<Token>): (r: Parsed<Expr>)
    ensures r.Ok? ==> |r.value.1| <= |ts| && (WellFormed(left) ==> WellFormed(r.value.0))
    decreases |ts|, 5
  {
    if Peek(ts) != Token.And then Ok((left, ts))
    else
      var (right, rest) :- ParseNot(Rest(ts));
      AndRest(Expr.And(left, right), rest)
  }

  function ParseNot(ts: seq<Token>): (r: Parsed<Expr>)
    ensures r.Ok? ==> |r.value.1| < |ts| && WellFormed(r.value.0)
    decreases |ts|, 2
  {
    if Peek(ts) != Token.Not then ParsePredicate(ts)
    else
      var (inner, rest) :- ParseNot(Rest(ts));
      Ok((Expr.Not(inner), rest))
  }

  function ParsePredicate(ts: seq<Token>): (r: Parsed<Expr>)
    ensures r.Ok? ==> |r.value.1| < |ts| && WellFormed(r.value.0)
    decreases |ts|, 1
  {
    var (left, rest) :- ParseAtom(ts);
    PredicateRest(left, rest)
  }

  function PredicateRest(left: Expr, ts: seq<Token>): (r: Parsed<Expr>)
    ensures r.Ok? ==> |r.value.1| <= |ts| && (WellFormed(left) ==> WellFormed(r.value.0))
    decreases |ts|, 5
  {
    var op := OperatorOf(Peek(ts));
    if op.Some? then
      var (right, rest) :- ParseAtom(Rest(ts));
      Ok((BinOp(op.value, left, right), rest))
    else if Peek(ts) == Token.Like then
      match Peek(Rest(ts)) {
        case Str(pattern) => Ok((Expr.Like(left, pattern), Rest(Rest(ts))))
        case other => Err(LikeExpectsString(other))
      }
    else if Peek(ts) == Token.In then
      var open :- Expect(LParen, Rest(ts));
      var (values, after) :- ParseLiterals([], open);
      var rest :- Expect(RParen, after);
      Ok((Expr.In(left, values), rest))
    else if Peek(ts) == Is then
      var negated := Peek(Rest(ts)) == Token.Not;
      var rest :- Expect(Token.Null, if negated then Rest(Rest(ts)) else Rest(ts));
      Ok((if negated then IsNotNull(left) else IsNull(left), rest))
    else Ok((left, ts))
  }

  function ParseAtom(ts: seq<Token>): (r: Parsed<Expr>)
    ensures r.Ok? ==> |r.value.1| < |ts| && WellFormed(r.value.0)
    decreases |ts|, 0
  {
    match Peek(ts)
    case Ident(name) => Ok((Column(name), Rest(ts)))
    case LParen => ParseParens(Rest(ts))
    case _ => ParseLiteralExpr(ts)
  }

  function ParseLiteralExpr(ts: seq<Token>): (r: Parsed<Expr>)
    ensures r.Ok? ==> |r.value.1| < |ts| && WellFormed(r.value.0)
  {
    var (literal, rest) :- ParseLiteral(ts);
    Ok((Lit(literal), rest))
  }

  /** What follows an opening parenthesis. */
  function ParseParens(ts: seq<Token>): (r: Parsed<Expr>)
    ensures r.Ok? ==> |r.value.1| < |ts| && WellFormed(r.value.0)
    decreases |ts|, 5
  {
    var (inner, after) :- ParseOr(ts);
    var rest :- Expect(RParen, after);
    Ok((inner, rest))
  }

  // ---- whole queries ----------------------------------------------------------------------

  function ColumnsRest(cols: seq<SelectColumn>, ts: seq<Token>): (r: (seq<SelectColumn>, seq<Token>))
    ensures |r.1| <= |ts|
    decreases |ts|
  {
    match Peek(ts)
    case Star => AfterColumn(cols + [SelectColumn.Star], Rest(ts))
    case Ident(name) => AfterColumn(cols + [Named(name)], Rest(ts))
    case _ => (cols, ts)
  }

  function AfterColumn(cols: seq<SelectColumn>, ts: seq<Token>): (r: (seq<SelectColumn>, seq<Token>))
    ensures |r.1| <= |ts|
    decreases |ts|
  {
    if Peek(ts) == Comma then ColumnsRest(cols, Rest(ts)) else (cols, ts)
  }

  function ParseColumns(ts: seq<Token>): Parsed<seq<SelectColumn>> {
    var (cols, rest) := ColumnsRest([], ts);
    if cols == [] then Err(NoColumns) else Ok((cols, rest))
  }

  function ParseOrderBy(items: seq<OrderBy>, ts: seq<Token>): (r: (seq<OrderBy>, seq<Token>))
    ensures |r.1| <= |ts|
    decreases |ts|
  {
    match Peek(ts)
    case Ident(col) =>
      var next := Rest(ts);
      var direction := if Peek(next) == Token.Desc then Direction.Desc else Direction.Asc;
      var after := if Peek(next) == Token.Asc || Peek(next) == Token.Desc then Rest(next) else next;
      var all := items + [OrderBy.OrderBy(col, direction)];
      if Peek(after) == Comma then ParseOrderBy(all, Rest(after)) else (all, after)
    case _ => (items, ts)
  }

  function ParseDatetime(readTime: string -> Option<int>, ts: seq<Token>): Parsed<int> {
    match Peek(ts)
    case Str(s) => if readTime(s).Some? then Ok((readTime(s).value, Rest(ts))) else Err(InvalidTimestamp(s))
    case other => Err(ExpectedTimestamp(other))
  }

  function ParseHlc(ts: seq<Token>): Parsed<u64> {
    match Peek(ts)
    case Str(s) => if Hlc.Parse(s).Some? then Ok((Hlc.Parse(s).value, Rest(ts))) else Err(InvalidHlc(s))
    case other => Err(ExpectedHlc(other))
  }

  function ParseUsize(ts: seq<Token>): Parsed<nat> {
    match Peek(ts)
    case Int(n) => if n >= 0 then Ok((n, Rest(ts))) else Err(ExpectedNonNegative(Token.Int(n)))
    case other => Err(ExpectedNonNegative(other))
  }

  /** One clause, its keyword at the front. */
  function ParseClause(q: Query, readTime: string -> Option<int>, ts: seq<Token>): (r: Parsed<Query>)
    ensures r.Ok? ==> |r.value.1| < |ts|
  {
    match Peek(ts)
    case Where =>
      var (e, rest) :- ParseOr(Rest(ts));
      Ok((q.(filter := Some(e)), rest))
    case EffectiveAt =>
      var (at, rest) :- ParseDatetime(readTime, Rest(ts));
      Ok((q.(effectiveAt := Some(at)), rest))
    case AsOf =>
      var (at, rest) :- ParseHlc(Rest(ts));
      Ok((q.(asof := Some(at)), rest))
    case Order =>
      var (items, rest) := ParseOrderBy([], Rest(ts));
      Ok((q.(orderBy := items), rest))
    case Limit =>
      var (n, rest) :- ParseUsize(Rest(ts));
      Ok((q.(limit := Some(n)), rest))
    case Offset =>
      var (n, rest) :- ParseUsize(Rest(ts));
      Ok((q.(offset := Some(n)), rest))
    case other => Err(UnexpectedToken(other))
  }

  /** Clauses in any order and any number until the end; a later one of a kind replaces an earlier one. */
  function ParseClauses(q: Query, readTime: string -> Option<int>, ts: seq<Token>): Result<Query, ParseError>
    decreases |ts|
  {
    if Peek(ts) == Eof then Ok(q)
    else
      var (q', rest) :- ParseClause(q, readTime, ts);
      ParseClauses(q', readTime, rest)
  }

  function EmptyQuery(columns: seq<SelectColumn>, namespace: string): Query {
    Query(columns, namespace, None, None, None, [], None, None)
  }

  /** `SELECT columns FROM namespace`, as a query without clauses. */
  function ParseHeader(ts: seq<Token>): Parsed<Query> {
    var select :- Expect(Select, ts);
    var (columns, afterColumns) :- ParseColumns(select);
    ParseFrom(columns, afterColumns)
  }

  function ParseFrom(columns: seq<SelectColumn>, ts: seq<Token>): Parsed<Query> {
    var from :- Expect(From, ts);
    match Peek(from)
    case Ident(namespace) => Ok((EmptyQuery(columns, namespace), Rest(from)))
    case other => Err(ExpectedNamespace(other))
  }

  function ParseQuery(readTime: string -> Option<int>, ts: seq<Token>): Result<Query, ParseError> {
    var (q, rest) :- ParseHeader(ts);
    ParseClauses(q, readTime, rest)
  }
}
