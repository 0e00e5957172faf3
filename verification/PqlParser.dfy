/** The parser itself: a cursor over the tokens, advanced by every method. */
module PqlParser {
  import opened Base
  import opened PqlAst
  import opened PqlToken
  import opened PqlGrammar
  import Hlc

  class Parser {
    const tokens: seq<Token>
    const readTime: string -> Option<int>
    var pos: nat

    constructor (tokens: seq<Token>, readTime: string -> Option<int>)
      ensures this.tokens == tokens && this.readTime == readTime && Remaining() == tokens
    {
      this.tokens := tokens;
      this.readTime := readTime;
      this.pos := 0;
    }

    function Remaining(): seq<Token>
      reads this
    {
      if pos <= |tokens| then tokens[pos..] else []
    }

    /** A method's outcome is what the grammar computes, and the cursor stands after it. */
    ghost predicate Follows<T>(r: Result<T, ParseError>, spec: Parsed<T>)
      reads this
    {
      match spec
      case Ok((value, rest)) => r == Ok(value) && Remaining() == rest
      case Err(error) => r == Err(error)
    }

    function PeekToken(): (t: Token)
      reads this
      ensures t == Peek(Remaining())
    {
      if pos < |tokens| then tokens[pos] else Eof
    }

    method Advance() returns (t: Token)
      modifies this
      ensures t == Peek(old(Remaining())) && Remaining() == Rest(old(Remaining()))
    {
      t := if pos < |tokens| then tokens[pos] else Eof;
      pos := pos + 1;
    }

    method ExpectToken(want: Token) returns (r: Result<(), ParseError>)
      modifies this
      ensures match Expect(want, old(Remaining())) {
                case Ok(rest) => r == Ok(()) && Remaining() == rest
                case Err(error) => r == Err(error)
              }
    {
      var got := Advance();
      return if got == want then Ok(()) else Err(Expected(want, got));
    }

    method Literal() returns (r: Result<Literal, ParseError>)
      modifies this
      ensures Follows(r, ParseLiteral(old(Remaining())))
    {
      var got := Advance();
      match got
      case Str(s) => return Ok(PqlAst.Literal.Str(s));
      case Int(n) => return Ok(PqlAst.Literal.Int(n));
      case Float(f) => return Ok(PqlAst.Literal.Float(f));
      case True => return Ok(Bool(true));
      case False => return Ok(Bool(false));
      case Null => return Ok(PqlAst.Literal.Null);
      case other => return Err(ExpectedLiteral(other));
    }

    method OrExpr() returns (r: Result<Expr, ParseError>)
      modifies this
      ensures Follows(r, ParseOr(old(Remaining())))
      decreases |Remaining()|, 4
    {
      ghost var start := Remaining();
      var left :- AndExpr();
      while PeekToken() == Token.Or
        invariant |Remaining()| < |start|
        invariant OrRest(left, Remaining()) == ParseOr(start)
        decreases |Remaining()|
      {
        var _ := Advance();
        var right :- AndExpr();
        left := Expr.Or(left, right);
      }
      return Ok(left);
    }

    method AndExpr() returns (r: Result<Expr, ParseError>)
      modifies this
      ensures Follows(r, ParseAnd(old(Remaining())))
      decreases |Remaining()|, 3
    {
      ghost var start := Remaining();
      var left :- NotExpr();
      while PeekToken() == Token.And
        invariant |Remaining()| < |start|
        invariant AndRest(left, Remaining()) == ParseAnd(start)
        decreases |Remaining()|
      {
        var _ := Advance();
        var right :- NotExpr();
        left := Expr.And(left, right);
      }
      return Ok(left);
    }

    method NotExpr() returns (r: Result<Expr, ParseError>)
      modifies this
      ensures Follows(r, ParseNot(old(Remaining())))
      decreases |Remaining()|, 2
    {
      if PeekToken() == Token.Not {
        var _ := Advance();
        var inner :- NotExpr();
        return Ok(Expr.Not(inner));
      }
      r := Predicate();
    }

    method Predicate() returns (r: Result<Expr, ParseError>)
      modifies this
      ensures Follows(r, ParsePredicate(old(Remaining())))
      decreases |Remaining()|, 1
    {
      var left :- Atom();
      var op := OperatorOf(PeekToken());
      if op.Some? {
        var _ := Advance();
        var right :- Atom();
        return Ok(BinOp(op.value, left, right));
      }
      match PeekToken()
      case Like =>
        var _ := Advance();
        var got := Advance();
        if got.Str? {
          return Ok(Expr.Like(left, got.s));
        }
        return Err(LikeExpectsString(got));
      case In =>
        var _ := Advance();
        var _ :- ExpectToken(LParen);
        var values :- Literals();
        var _ :- ExpectToken(RParen);
        return Ok(Expr.In(left, values));
      case Is =>
        var _ := Advance();
        if PeekToken() == Token.Not {
          var _ := Advance();
          var _ :- ExpectToken(Token.Null);
          return Ok(IsNotNull(left));
        }
        var _ :- ExpectToken(Token.Null);
        return Ok(IsNull(left));
      case _ =>
        return Ok(left);
    }

    method Literals() returns (r: Result<seq<PqlAst.Literal>, ParseError>)
      modifies this
      ensures Follows(r, ParseLiterals([], old(Remaining())))
    {
      ghost var start := Remaining();
      var values: seq<PqlAst.Literal> := [];
      while true
        invariant ParseLiterals(values, Remaining()) == ParseLiterals([], start)
        decreases |Remaining()|
      {
        var v :- Literal();
        values := values + [v];
        if PeekToken() != Comma {
          break;
        }
        var _ := Advance();
      }
      return Ok(values);
    }

    method Atom() returns (r: Result<Expr, ParseError>)
      modifies this
      ensures Follows(r, ParseAtom(old(Remaining())))
      decreases |Remaining()|, 0
    {
      match PeekToken() {
        case Ident(name) =>
          var _ := Advance();
          return Ok(Column(name));
        case LParen =>
          var _ := Advance();
          r := Parens();
        case _ =>
          r := LiteralExpr();
      }
    }

    method LiteralExpr() returns (r: Result<Expr, ParseError>)
      modifies this
      ensures Follows(r, ParseLiteralExpr(old(Remaining())))
    {
      var literal :- Literal();
      return Ok(Lit(literal));
    }

    /** An expression and its closing parenthesis. */
    method Parens() returns (r: Result<Expr, ParseError>)
      modifies this
      ensures Follows(r, ParseParens(old(Remaining())))
      decreases |Remaining()|, 5
    {
      var inner :- OrExpr();
      var _ :- ExpectToken(RParen);
      return Ok(inner);
    }

    method Columns() returns (r: Result<seq<SelectColumn>, ParseError>)
      modifies this
      ensures Follows(r, ParseColumns(old(Remaining())))
    {
      ghost var start := Remaining();
      var cols: seq<SelectColumn> := [];
      while true
        invariant ColumnsRest(cols, Remaining()) == ColumnsRest([], start)
        decreases |Remaining()|
      {
        var column := OneColumn();
        if column.None? {
          break;
        }
        cols := cols + [column.value];
        if PeekToken() != Comma {
          break;
        }
        var _ := Advance();
      }
      return if cols == [] then Err(NoColumns) else Ok(cols);
    }

    /** One column, if there is one. */
    method OneColumn() returns (column: Option<SelectColumn>)
      modifies this
      ensures column == match Peek(old(Remaining())) {
                          case Star => Some(SelectColumn.Star)
                          case Ident(name) => Some(Named(name))
                          case _ => None
                        }
      ensures Remaining() == if column.Some? then Rest(old(Remaining())) else old(Remaining())
    {
      match PeekToken() {
        case Star =>
          var _ := Advance();
          return Some(SelectColumn.Star);
        case Ident(name) =>
          var _ := Advance();
          return Some(Named(name));
        case _ => return None;
      }
    }

    method OrderItems() returns (items: seq<OrderBy>)
      modifies this
      ensures (items, Remaining()) == ParseOrderBy([], old(Remaining()))
    {
      ghost var start := Remaining();
      items := [];
      while PeekToken().Ident?
        invariant ParseOrderBy(items, Remaining()) == ParseOrderBy([], start)
        decreases |Remaining()|
      {
        var column := Advance();
        var direction := Direction.Asc;
        if PeekToken() == Token.Asc {
          var _ := Advance();
        } else if PeekToken() == Token.Desc {
          var _ := Advance();
          direction := Direction.Desc;
        }
        items := items + [OrderBy.OrderBy(column.name, direction)];
        if PeekToken() != Comma {
          break;
        }
        var _ := Advance();
      }
    }

    method Usize() returns (r: Result<nat, ParseError>)
      modifies this
      ensures Follows(r, ParseUsize(old(Remaining())))
    {
      var got := Advance();
      return if got.Int? && got.n >= 0 then Ok(got.n) else Err(ExpectedNonNegative(got));
    }

    method Datetime() returns (r: Result<int, ParseError>)
      modifies this
      ensures Follows(r, ParseDatetime(readTime, old(Remaining())))
    {
      var got := Advance();
      if !got.Str? {
        return Err(ExpectedTimestamp(got));
      }
      var at := readTime(got.s);
      return if at.Some? then Ok(at.value) else Err(InvalidTimestamp(got.s));
    }

    method HlcText() returns (r: Result<u64, ParseError>)
      modifies this
      ensures Follows(r, ParseHlc(old(Remaining())))
    {
      var got := Advance();
      if !got.Str? {
        return Err(ExpectedHlc(got));
      }
      var at := Hlc.Parse(got.s);
      return if at.Some? then Ok(at.value) else Err(InvalidHlc(got.s));
    }

    method Header() returns (r: Result<Query, ParseError>)
      modifies this
      ensures Follows(r, ParseHeader(old(Remaining())))
    {
      var _ :- ExpectToken(Select);
      var columns :- Columns();
      r := Source(columns);
    }

    /** `FROM` and the namespace. */
    method Source(columns: seq<SelectColumn>) returns (r: Result<Query, ParseError>)
      modifies this
      ensures Follows(r, ParseFrom(columns, old(Remaining())))
    {
      var _ :- ExpectToken(From);
      var name := Advance();
      return if name.Ident? then Ok(EmptyQuery(columns, name.name)) else Err(ExpectedNamespace(name));
    }

    /** One clause; the query with that clause set. */
    method Clause(q: Query) returns (r: Result<Query, ParseError>)
      modifies this
      ensures Follows(r, ParseClause(q, readTime, old(Remaining())))
    {
      var keyword := PeekToken();
      if keyword !in {Where, EffectiveAt, AsOf, Order, Limit, Offset} {
        return Err(UnexpectedToken(keyword));
      }
      var _ := Advance();
      if keyword == Where {
        var e :- OrExpr();
        return Ok(q.(filter := Some(e)));
      } else if keyword == EffectiveAt {
        var at :- Datetime();
        return Ok(q.(effectiveAt := Some(at)));
      } else if keyword == AsOf {
        var at :- HlcText();
        return Ok(q.(asof := Some(at)));
      } else if keyword == Order {
        var items := OrderItems();
        return Ok(q.(orderBy := items));
      } else if keyword == Limit {
        var n :- Usize();
        return Ok(q.(limit := Some(n)));
      } else {
        var n :- Usize();
        return Ok(q.(offset := Some(n)));
      }
    }

    /** The whole query, clauses in any order. */
    method Parse() returns (r: Result<Query, ParseError>)
      modifies this
      ensures r == ParseQuery(readTime, old(Remaining()))
    {
      ghost var start := Remaining();
      var q :- Header();
      while PeekToken() != Eof
        invariant ParseClauses(q, readTime, Remaining()) == ParseQuery(readTime, start)
        decreases |Remaining()|
      {
        q :- Clause(q);
      }
      return Ok(q);
    }
  }
}
