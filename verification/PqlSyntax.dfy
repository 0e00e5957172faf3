/** The abstract syntax of a query. */
module PqlAst {
  import opened Base

  datatype Operator = Eq | Ne | Lt | Le | Gt | Ge

  /** A float keeps its text: no theorem depends on its rounding. */
  datatype Literal = Str(s: string) | Int(n: i64) | Float(text: string) | Bool(b: bool) | Null

  datatype Expr =
    | BinOp(op: Operator, left: Expr, right: Expr)
    | And(left: Expr, right: Expr)
    | Or(left: Expr, right: Expr)
    | Not(inner: Expr)
    | IsNull(expr: Expr)
    | IsNotNull(expr: Expr)
    | Like(expr: Expr, pattern: string)
    | In(expr: Expr, values: seq<Literal>)
    | Column(name: string)
    | Lit(literal: Literal)

  /** Every IN list has a member; the grammar has no way to write an empty one. */
  predicate WellFormed(e: Expr) {
    match e
    case BinOp(_, l, r) => WellFormed(l) && WellFormed(r)
    case And(l, r) => WellFormed(l) && WellFormed(r)
    case Or(l, r) => WellFormed(l) && WellFormed(r)
    case Not(x) => WellFormed(x)
    case IsNull(x) => WellFormed(x)
    case IsNotNull(x) => WellFormed(x)
    case Like(x, _) => WellFormed(x)
    case In(x, values) => WellFormed(x) && values != []
    case Column(_) => true
    case Lit(_) => true
  }

  datatype SelectColumn = Star | Named(name: string)

  datatype Direction = Asc | Desc

  datatype OrderBy = OrderBy(column: string, direction: Direction)

  datatype Query = Query(
    columns: seq<SelectColumn>,
    namespace: string,
    filter: Option<Expr>,
    effectiveAt: Option<int>,
    asof: Option<u64>,
    orderBy: seq<OrderBy>,
    limit: Option<nat>,
    offset: Option<nat>)
}

/** The tokens the lexer hands to the parser. */
module PqlToken {
  import opened Base

  datatype Token =
    | Select | From | Where | And | Or | Not | Order | By | Asc | Desc | Limit | Offset
    | EffectiveAt | AsOf | Like | In | Is | Null | True | False
    | Ident(name: string) | Str(s: string) | Int(n: i64) | Float(text: string)
    | Eq | Ne | Lt | Le | Gt | Ge | Star
    | Comma | Dot | LParen | RParen
    | Eof
}
