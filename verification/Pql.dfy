/** `pql::parse`: text to query, and the proof that printed queries are read back as themselves. */
module Pql {
  import opened Base
  import opened PqlAst
  import opened PqlToken
  import opened PqlGrammar
  import opened PqlPrinter
  import opened PqlQueryPrinter
  import PqlLexis
  import opened PqlText
  import opened PqlLexer
  import opened PqlParser
  import Hlc

  datatype QueryError = LexError(lex: PqlLexis.LexError) | ParseError(parse: PqlGrammar.ParseError)

  function ParseText(readTime: string -> Option<int>, input: string): Result<Query, QueryError> {
    match PqlLexis.Tokenize(input)
    case Err(e) => Err(LexError(e))
    case Ok(tokens) =>
      match ParseQuery(readTime, tokens) {
        case Err(e) => Err(ParseError(e))
        case Ok(q) => Ok(q)
      }
  }

  method Parse(readTime: string -> Option<int>, input: string) returns (r: Result<Query, QueryError>)
    ensures r == ParseText(readTime, input)
  {
    var lexer := new Lexer(input);
    var tokens := lexer.TokenizeAll();
    if tokens.Err? {
      return Err(LexError(tokens.error));
    }
    var parser := new Parser(tokens.value, readTime);
    var q := parser.Parse();
    return if q.Ok? then Ok(q.value) else Err(ParseError(q.error));
  }

  // ---- what can be written ----------------------------------------------------------------

  /** Tokens that all have a text, up to the end marker. */
  predicate Lexable(ts: seq<Token>) {
    LexableBy(Writables(), ts)
  }

  function Writables(): Token -> bool {
    (t: Token) => Writable(t)
  }

  predicate LexableBy(ok: Token -> bool, ts: seq<Token>) {
    ts != [] && ts[|ts| - 1] == Eof && forall i :: 0 <= i < |ts| - 1 ==> ok(ts[i])
  }

  predicate ReadableLiteral(l: Literal) {
    l.Float? ==> Writable(Token.Float(l.text))
  }

  /** Every name is an identifier and every float a float text. */
  predicate Readable(e: Expr) {
    match e
    case BinOp(_, l, r) => Readable(l) && Readable(r)
    case And(l, r) => Readable(l) && Readable(r)
    case Or(l, r) => Readable(l) && Readable(r)
    case Not(x) => Readable(x)
    case IsNull(x) => Readable(x)
    case IsNotNull(x) => Readable(x)
    case Like(x, _) => Readable(x)
    case In(x, values) => Readable(x) && values != [] && forall v | v in values :: ReadableLiteral(v)
    case Column(name) => IsName(name)
    case Lit(l) => ReadableLiteral(l)
  }

  lemma ConsLexable(t: Token, ts: seq<Token>)
    requires Writable(t) && Lexable(ts)
    ensures Lexable(Cons(t, ts))
  {
    assert Cons(t, ts)[1..] == ts;
  }

  lemma {:induction false} LiteralsLexable(values: seq<Literal>, i: nat, rest: seq<Token>)
    requires i < |values| && Lexable(rest) && forall v | v in values :: ReadableLiteral(v)
    ensures Lexable(PrintLiterals(values, i, rest))
    decreases |values| - i
  {
    if i == |values| - 1 {
      LastLiteral(values, i, rest);
    } else {
      LiteralsLexable(values, i + 1, rest);
      NextLiteral(values, i, rest, PrintLiterals(values, i + 1, rest));
    }
  }

  lemma LastLiteral(values: seq<Literal>, i: nat, rest: seq<Token>)
    requires i == |values| - 1 && Lexable(rest) && ReadableLiteral(values[i])
    ensures Lexable(PrintLiterals(values, i, rest))
  {
    ConsLexable(LiteralToken(values[i]), rest);
  }

  lemma NextLiteral(values: seq<Literal>, i: nat, rest: seq<Token>, next: seq<Token>)
    requires i < |values| - 1 && next == PrintLiterals(values, i + 1, rest) && Lexable(next)
    requires ReadableLiteral(values[i])
    ensures Lexable(PrintLiterals(values, i, rest))
  {
    LiteralLexable(values[i], next);
    assert PrintLiterals(values, i, rest) == Cons(LiteralToken(values[i]), Cons(Comma, next));
  }

  lemma LiteralLexable(l: Literal, next: seq<Token>)
    requires ReadableLiteral(l) && Lexable(next)
    ensures Lexable(Cons(LiteralToken(l), Cons(Comma, next)))
  {
    ConsLexable(Comma, next);
    ConsLexable(LiteralToken(l), Cons(Comma, next));
  }

  lemma {:induction false} PrintAtLexable(e: Expr, min: nat, rest: seq<Token>)
    requires Readable(e) && WellFormed(e) && Lexable(rest)
    ensures Lexable(PrintAt(e, min, rest))
    decreases e, 1
  {
    if Level(e) < min {
      ConsLexable(RParen, rest);
      PrintLexable(e, Cons(RParen, rest));
      ConsLexable(LParen, Print(e, Cons(RParen, rest)));
    } else {
      PrintLexable(e, rest);
    }
  }

  lemma {:induction false} PrintLexable(e: Expr, rest: seq<Token>)
    requires Readable(e) && WellFormed(e) && Lexable(rest)
    ensures Lexable(Print(e, rest))
    decreases e, 0
  {
    match e
    case Or(l, r) =>
      PrintAtLexable(r, 1, rest);
      ConsLexable(Token.Or, PrintAt(r, 1, rest));
      PrintAtLexable(l, 0, Cons(Token.Or, PrintAt(r, 1, rest)));
    case And(l, r) =>
      PrintAtLexable(r, 2, rest);
      ConsLexable(Token.And, PrintAt(r, 2, rest));
      PrintAtLexable(l, 1, Cons(Token.And, PrintAt(r, 2, rest)));
    case Not(x) =>
      PrintAtLexable(x, 2, rest);
      ConsLexable(Token.Not, PrintAt(x, 2, rest));
    case Column(name) => ConsLexable(Ident(name), rest);
    case Lit(l) => ConsLexable(LiteralToken(l), rest);
    case _ =>
      TailLexable(e, rest);
      PrintAtLexable(Operand(e), 4, PredicateTail(e, rest));
  }

  lemma {:induction false} TailLexable(e: Expr, rest: seq<Token>)
    requires Readable(e) && WellFormed(e) && Level(e) == 3 && Lexable(rest)
    ensures Readable(Operand(e)) && Lexable(PredicateTail(e, rest))
    decreases e, 0, 0
  {
    match e
    case BinOp(op, _, r) =>
      PrintAtLexable(r, 4, rest);
      ConsLexable(OperatorToken(op), PrintAt(r, 4, rest));
    case Like(_, pattern) =>
      ConsLexable(Token.Str(pattern), rest);
      ConsLexable(Token.Like, Cons(Token.Str(pattern), rest));
    case In(_, values) =>
      ConsLexable(RParen, rest);
      LiteralsLexable(values, 0, Cons(RParen, rest));
      ConsLexable(LParen, PrintLiterals(values, 0, Cons(RParen, rest)));
      ConsLexable(Token.In, Cons(LParen, PrintLiterals(values, 0, Cons(RParen, rest))));
    case IsNull(_) =>
      ConsLexable(Token.Null, rest);
      ConsLexable(Is, Cons(Token.Null, rest));
    case IsNotNull(_) =>
      ConsLexable(Token.Null, rest);
      ConsLexable(Token.Not, Cons(Token.Null, rest));
      ConsLexable(Is, Cons(Token.Not, Cons(Token.Null, rest)));
  }

  predicate ReadableClause(c: Clause) {
    match c
    case WhereClause(e) => Readable(e)
    case OrderClause(items) => forall o | o in items :: IsName(o.column)
    case _ => true
  }

  lemma ConsLexableBy(ok: Token -> bool, t: Token, ts: seq<Token>)
    requires ok(t) && LexableBy(ok, ts)
    ensures LexableBy(ok, Cons(t, ts))
  {
    forall i | 0 <= i < |ts| ensures ok(Cons(t, ts)[i]) {
      assert i > 0 ==> Cons(t, ts)[i] == ts[i - 1];
    }
  }

  /** What the tokens of a list of items are made of. */
  ghost predicate ItemsOk(ok: Token -> bool, items: seq<OrderBy>) {
    ok(Comma) && ok(Token.Asc) && ok(Token.Desc) && forall o | o in items :: ok(Ident(o.column))
  }

  lemma {:induction false} ItemsLexable(ok: Token -> bool, items: seq<OrderBy>, i: nat, rest: seq<Token>)
    requires ItemsOk(ok, items) && i < |items| && LexableBy(ok, rest)
    ensures LexableBy(ok, PrintItems(items, i, rest))
    decreases |items| - i
  {
    if i == |items| - 1 {
      LastLexable(ok, items, i, rest);
    } else {
      ItemsLexable(ok, items, i + 1, rest);
      NextLexable(ok, items, i, rest, PrintItems(items, i + 1, rest));
    }
  }

  lemma NoItems(rest: seq<Token>)
    ensures PrintItems([], 0, rest) == rest
  {
  }

  lemma LastLexable(ok: Token -> bool, items: seq<OrderBy>, i: nat, rest: seq<Token>)
    requires ItemsOk(ok, items) && i == |items| - 1 && LexableBy(ok, rest)
    ensures LexableBy(ok, PrintItems(items, i, rest))
  {
    ItemLexable(ok, items[i], rest);
    LastItem(items, i, rest);
  }

  lemma NextLexable(ok: Token -> bool, items: seq<OrderBy>, i: nat, rest: seq<Token>, next: seq<Token>)
    requires ItemsOk(ok, items) && i < |items| - 1 && next == PrintItems(items, i + 1, rest) && LexableBy(ok, next)
    ensures LexableBy(ok, PrintItems(items, i, rest))
  {
    AndMoreLexable(ok, items[i], next);
    NextItem(items, i, rest, next);
  }

  lemma LastItem(items: seq<OrderBy>, i: nat, rest: seq<Token>)
    requires i == |items| - 1
    ensures PrintItems(items, i, rest) == Cons(Ident(items[i].column), Cons(DirectionToken(items[i].direction), rest))
  {
  }

  lemma NextItem(items: seq<OrderBy>, i: nat, rest: seq<Token>, next: seq<Token>)
    requires i < |items| - 1 && next == PrintItems(items, i + 1, rest)
    ensures PrintItems(items, i, rest)
         == Cons(Ident(items[i].column), Cons(DirectionToken(items[i].direction), Cons(Comma, next)))
  {
  }

  lemma AndMoreLexable(ok: Token -> bool, o: OrderBy, next: seq<Token>)
    requires ok(Comma) && ok(Token.Asc) && ok(Token.Desc) && ok(Ident(o.column)) && LexableBy(ok, next)
    ensures LexableBy(ok, Cons(Ident(o.column), Cons(DirectionToken(o.direction), Cons(Comma, next))))
  {
    ConsLexableBy(ok, Comma, next);
    ItemLexable(ok, o, Cons(Comma, next));
  }

  lemma ItemLexable(ok: Token -> bool, o: OrderBy, after: seq<Token>)
    requires ok(Token.Asc) && ok(Token.Desc) && ok(Ident(o.column)) && LexableBy(ok, after)
    ensures LexableBy(ok, Cons(Ident(o.column), Cons(DirectionToken(o.direction), after)))
  {
    ConsLexableBy(ok, DirectionToken(o.direction), after);
    ConsLexableBy(ok, Ident(o.column), Cons(DirectionToken(o.direction), after));
  }

  lemma ClauseLexable(c: Clause, readTime: string -> Option<int>, rest: seq<Token>)
    requires Printable(c, readTime) && ReadableClause(c) && Lexable(rest)
    ensures Lexable(PrintClause(c, readTime, rest))
  {
    match c
    case WhereClause(e) =>
      PrintLexable(e, rest);
      ConsLexable(Where, Print(e, rest));
    case EffectiveAtClause(text, _) =>
      ConsLexable(Token.Str(text), rest);
      ConsLexable(EffectiveAt, Cons(Token.Str(text), rest));
    case AsOfClause(h) =>
      ConsLexable(Token.Str(Hlc.Display(h)), rest);
      ConsLexable(AsOf, Cons(Token.Str(Hlc.Display(h)), rest));
    case OrderClause(items) =>
      if items == [] {
        NoItems(rest);
      } else {
        ItemsLexable(Writables(), items, 0, rest);
      }
      ConsLexable(Order, PrintItems(items, 0, rest));
    case LimitClause(n) =>
      ConsLexable(Token.Int(n), rest);
      ConsLexable(Limit, Cons(Token.Int(n), rest));
    case OffsetClause(n) =>
      ConsLexable(Token.Int(n), rest);
      ConsLexable(Offset, Cons(Token.Int(n), rest));
  }

  lemma {:induction false} ClausesLexable(cs: seq<Clause>, readTime: string -> Option<int>)
    requires forall c | c in cs :: Printable(c, readTime) && ReadableClause(c)
    ensures Lexable(PrintClauses(cs, readTime))
    decreases |cs|
  {
    if cs != [] {
      ClausesLexable(cs[1..], readTime);
      ClauseLexable(cs[0], readTime, PrintClauses(cs[1..], readTime));
    }
  }

  predicate ReadableColumn(c: SelectColumn) {
    c.Named? ==> IsName(c.name)
  }

  lemma {:induction false} ColumnsLexable(cols: seq<SelectColumn>, i: nat, rest: seq<Token>)
    requires i < |cols| && Lexable(rest) && forall c | c in cols :: ReadableColumn(c)
    ensures Lexable(PrintColumns(cols, i, rest))
    decreases |cols| - i
  {
    assert ReadableColumn(cols[i]);
    if i < |cols| - 1 {
      ColumnsLexable(cols, i + 1, rest);
      ConsLexable(Comma, PrintColumns(cols, i + 1, rest));
      ConsLexable(ColumnToken(cols[i]), Cons(Comma, PrintColumns(cols, i + 1, rest)));
    } else {
      ConsLexable(ColumnToken(cols[i]), rest);
    }
  }

  /** The names of a query are identifiers and its other values have a text. */
  predicate ReadableQuery(q: Query, readTime: string -> Option<int>, showTime: int -> string) {
    && PrintableQuery(q, readTime, showTime)
    && IsName(q.namespace)
    && (forall c | c in q.columns :: ReadableColumn(c))
    && (q.filter.Some? ==> Readable(q.filter.value))
    && (forall o | o in q.orderBy :: IsName(o.column))
  }

  /** The tokens of a query and the end marker. */
  function QueryTokens(q: Query, readTime: string -> Option<int>, showTime: int -> string): (ts: seq<Token>)
    requires PrintableQuery(q, readTime, showTime)
    ensures ts != []
  {
    PrintedQueryParses(q, readTime, showTime);
    PrintQuery(q.columns, q.namespace, ClausesOf(q, showTime), readTime)
  }

  lemma HeaderLexable(cols: seq<SelectColumn>, namespace: string, rest: seq<Token>)
    requires cols != [] && (forall c | c in cols :: ReadableColumn(c)) && IsName(namespace) && Lexable(rest)
    ensures Lexable(Cons(Select, PrintColumns(cols, 0, Cons(From, Cons(Ident(namespace), rest)))))
  {
    ConsLexable(Ident(namespace), rest);
    ConsLexable(From, Cons(Ident(namespace), rest));
    ColumnsLexable(cols, 0, Cons(From, Cons(Ident(namespace), rest)));
    ConsLexable(Select, PrintColumns(cols, 0, Cons(From, Cons(Ident(namespace), rest))));
  }

  lemma ClausesReadable(q: Query, showTime: int -> string)
    requires q.filter.Some? ==> Readable(q.filter.value)
    requires forall o | o in q.orderBy :: IsName(o.column)
    ensures forall c | c in ClausesOf(q, showTime) :: ReadableClause(c)
  {
  }

  lemma QueryLexable(q: Query, readTime: string -> Option<int>, showTime: int -> string)
    requires ReadableQuery(q, readTime, showTime)
    ensures Lexable(QueryTokens(q, readTime, showTime))
  {
    PrintedQueryParses(q, readTime, showTime);
    ClausesReadable(q, showTime);
    ClausesLexable(ClausesOf(q, showTime), readTime);
    HeaderLexable(q.columns, q.namespace, PrintClauses(ClausesOf(q, showTime), readTime));
  }

  lemma {:induction false} LexableSplits(ts: seq<Token>)
    requires Lexable(ts)
    ensures ts == ts[..|ts| - 1] + [Eof]
    ensures forall t | t in ts[..|ts| - 1] :: Writable(t)
  {
    if |ts| > 1 {
      LexableSplits(ts[1..]);
      assert ts[..|ts| - 1] == [ts[0]] + ts[1..][..|ts| - 2];
    }
  }

  /** The tokens of a query without the end marker. */
  function TextTokens(q: Query, readTime: string -> Option<int>, showTime: int -> string): (ts: seq<Token>)
    requires ReadableQuery(q, readTime, showTime)
    ensures forall t | t in ts :: Writable(t)
  {
    var ts := QueryTokens(q, readTime, showTime);
    QueryLexable(q, readTime, showTime);
    LexableSplits(ts);
    ts[..|ts| - 1]
  }

  /**
   * Writing a query as text and parsing that text gives the query back, however its keywords are cased and its
   * tokens are spaced, with nothing between tokens that end where the next begins.
   */
  lemma WrittenQueryParses(q: Query, readTime: string -> Option<int>, showTime: int -> string, layouts: seq<Layout>)
    requires ReadableQuery(q, readTime, showTime) && LaidOut(TextTokens(q, readTime, showTime), layouts)
    ensures ParseText(readTime, WriteAll(TextTokens(q, readTime, showTime), layouts)) == Ok(q)
  {
    var ts := QueryTokens(q, readTime, showTime);
    QueryLexable(q, readTime, showTime);
    LexableSplits(ts);
    WrittenTokensRead(TextTokens(q, readTime, showTime), layouts);
    PrintedQueryParses(q, readTime, showTime);
  }
}
