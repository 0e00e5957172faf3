/** Printing whole queries and parsing them back; the clauses of a query may come in any order. */
module PqlQueryPrinter {
  import opened Base
  import opened PqlAst
  import opened PqlToken
  import opened PqlGrammar
  import opened PqlPrinter
  import Hlc

  /** A clause with the value it sets; a timestamp comes with its text. */
  datatype Clause =
    | WhereClause(e: Expr)
    | EffectiveAtClause(text: string, at: int)
    | AsOfClause(h: u64)
    | OrderClause(items: seq<OrderBy>)
    | LimitClause(n: nat)
    | OffsetClause(n: nat)

  /** The clause can be written down and means its value. */
  predicate Printable(c: Clause, readTime: string -> Option<int>) {
    match c
    case WhereClause(e) => WellFormed(e)
    case EffectiveAtClause(text, at) => readTime(text) == Some(at)
    case LimitClause(n) => n < 0x8000_0000_0000_0000
    case OffsetClause(n) => n < 0x8000_0000_0000_0000
    case _ => true
  }

  function Apply(q: Query, c: Clause): Query {
    match c
    case WhereClause(e) => q.(filter := Some(e))
    case EffectiveAtClause(_, at) => q.(effectiveAt := Some(at))
    case AsOfClause(h) => q.(asof := Some(h))
    case OrderClause(items) => q.(orderBy := items)
    case LimitClause(n) => q.(limit := Some(n))
    case OffsetClause(n) => q.(offset := Some(n))
  }

  function ApplyAll(q: Query, cs: seq<Clause>): Query
    decreases |cs|
  {
    if cs == [] then q else ApplyAll(Apply(q, cs[0]), cs[1..])
  }

  function DirectionToken(d: Direction): Token {
    match d
    case Asc => Token.Asc
    case Desc => Token.Desc
  }

  function PrintItems(items: seq<OrderBy>, i: nat, rest: seq<Token>): seq<Token>
    requires i <= |items|
    decreases |items| - i
  {
    if i == |items| then rest
    else
      Cons(Ident(items[i].column), Cons(DirectionToken(items[i].direction),
           if i == |items| - 1 then rest else Cons(Comma, PrintItems(items, i + 1, rest))))
  }

  function PrintClause(c: Clause, readTime: string -> Option<int>, rest: seq<Token>): (ts: seq<Token>)
    requires Printable(c, readTime)
    ensures StartsClause(ts) && Peek(ts) != Eof
  {
    match c
    case WhereClause(e) => Cons(Where, Print(e, rest))
    case EffectiveAtClause(text, _) => Cons(EffectiveAt, Cons(Token.Str(text), rest))
    case AsOfClause(h) => Cons(AsOf, Cons(Token.Str(Hlc.Display(h)), rest))
    case OrderClause(items) => Cons(Order, PrintItems(items, 0, rest))
    case LimitClause(n) => Cons(Limit, Cons(Token.Int(n), rest))
    case OffsetClause(n) => Cons(Offset, Cons(Token.Int(n), rest))
  }

  /** What may stand after a clause. */
  predicate StartsClause(ts: seq<Token>) {
    Peek(ts) in {Where, EffectiveAt, AsOf, Order, Limit, Offset, Eof}
  }

  function PrintClauses(cs: seq<Clause>, readTime: string -> Option<int>): (ts: seq<Token>)
    requires forall c | c in cs :: Printable(c, readTime)
    ensures StartsClause(ts)
  {
    if cs == [] then [Eof] else PrintClause(cs[0], readTime, PrintClauses(cs[1..], readTime))
  }

  function ColumnToken(c: SelectColumn): Token {
    match c
    case Star => Token.Star
    case Named(name) => Ident(name)
  }

  function PrintColumns(cols: seq<SelectColumn>, i: nat, rest: seq<Token>): seq<Token>
    requires i < |cols|
    decreases |cols| - i
  {
    Cons(ColumnToken(cols[i]),
         if i == |cols| - 1 then rest else Cons(Comma, PrintColumns(cols, i + 1, rest)))
  }

  function PrintQuery(cols: seq<SelectColumn>, namespace: string, cs: seq<Clause>,
                      readTime: string -> Option<int>): seq<Token>
    requires cols != [] && forall c | c in cs :: Printable(c, readTime)
  {
    Cons(Select, PrintColumns(cols, 0, Cons(From, Cons(Ident(namespace), PrintClauses(cs, readTime)))))
  }

  // ---- the inverse ------------------------------------------------------------------------

  lemma ItemStep(acc: seq<OrderBy>, item: OrderBy, ts: seq<Token>)
    requires !Peek(ts).Asc? && !Peek(ts).Desc?
    ensures ParseOrderBy(acc, Cons(Ident(item.column), Cons(DirectionToken(item.direction), ts))) ==
            if Peek(ts) == Comma then ParseOrderBy(acc + [item], Rest(ts)) else (acc + [item], ts)
  {
  }

  lemma {:induction false} ItemsParse(items: seq<OrderBy>, i: nat, rest: seq<Token>)
    requires i <= |items| && StartsClause(rest)
    ensures ParseOrderBy(items[..i], PrintItems(items, i, rest)) == (items, rest)
    decreases |items| - i
  {
    if i == |items| {
      assert items[..i] == items;
    } else {
      assert items[..i] + [items[i]] == items[..i + 1];
      if i < |items| - 1 {
        ItemStep(items[..i], items[i], Cons(Comma, PrintItems(items, i + 1, rest)));
        ItemsParse(items, i + 1, rest);
      } else {
        ItemStep(items[..i], items[i], rest);
        assert items[..i + 1] == items;
      }
    }
  }

  lemma ColumnStep(acc: seq<SelectColumn>, col: SelectColumn, ts: seq<Token>)
    ensures ColumnsRest(acc, Cons(ColumnToken(col), ts)) ==
            if Peek(ts) == Comma then ColumnsRest(acc + [col], Rest(ts)) else (acc + [col], ts)
  {
  }

  lemma {:induction false} ColumnsParse(cols: seq<SelectColumn>, i: nat, rest: seq<Token>)
    requires i < |cols| && Peek(rest) != Comma
    ensures ColumnsRest(cols[..i], PrintColumns(cols, i, rest)) == (cols, rest)
    decreases |cols| - i
  {
    assert cols[..i] + [cols[i]] == cols[..i + 1];
    if i < |cols| - 1 {
      ColumnStep(cols[..i], cols[i], Cons(Comma, PrintColumns(cols, i + 1, rest)));
      ColumnsParse(cols, i + 1, rest);
    } else {
      ColumnStep(cols[..i], cols[i], rest);
      assert cols[..i + 1] == cols;
    }
  }

  lemma WhereParses(q: Query, e: Expr, readTime: string -> Option<int>, ts: seq<Token>, rest: seq<Token>)
    requires ParseOr(ts) == Ok((e, rest))
    ensures ParseClause(q, readTime, Cons(Where, ts)) == Ok((Apply(q, WhereClause(e)), rest))
  {
  }

  lemma OrderParses(q: Query, items: seq<OrderBy>, readTime: string -> Option<int>, ts: seq<Token>, rest: seq<Token>)
    requires ParseOrderBy([], ts) == (items, rest)
    ensures ParseClause(q, readTime, Cons(Order, ts)) == Ok((Apply(q, OrderClause(items)), rest))
  {
  }

  lemma EffectiveAtParses(q: Query, text: string, at: int, readTime: string -> Option<int>, rest: seq<Token>)
    requires readTime(text) == Some(at)
    ensures ParseClause(q, readTime, Cons(EffectiveAt, Cons(Token.Str(text), rest)))
         == Ok((q.(effectiveAt := Some(at)), rest))
  {
  }

  lemma AsOfParses(q: Query, text: string, h: u64, readTime: string -> Option<int>, rest: seq<Token>)
    requires Hlc.Parse(text) == Some(h)
    ensures ParseClause(q, readTime, Cons(AsOf, Cons(Token.Str(text), rest))) == Ok((q.(asof := Some(h)), rest))
  {
  }

  lemma LimitParses(q: Query, n: nat, readTime: string -> Option<int>, rest: seq<Token>)
    requires n < 0x8000_0000_0000_0000
    ensures ParseClause(q, readTime, Cons(Limit, Cons(Token.Int(n), rest))) == Ok((q.(limit := Some(n)), rest))
  {
  }

  lemma OffsetParses(q: Query, n: nat, readTime: string -> Option<int>, rest: seq<Token>)
    requires n < 0x8000_0000_0000_0000
    ensures ParseClause(q, readTime, Cons(Offset, Cons(Token.Int(n), rest))) == Ok((q.(offset := Some(n)), rest))
  {
  }

  lemma ClauseParses(q: Query, c: Clause, readTime: string -> Option<int>, rest: seq<Token>)
    requires Printable(c, readTime) && StartsClause(rest)
    ensures ParseClause(q, readTime, PrintClause(c, readTime, rest)) == Ok((Apply(q, c), rest))
  {
    match c
    case WhereClause(e) =>
      PrintParses(e, rest);
      WhereParses(q, e, readTime, Print(e, rest), rest);
    case OrderClause(items) =>
      ItemsParse(items, 0, rest);
      assert items[..0] == [];
      OrderParses(q, items, readTime, PrintItems(items, 0, rest), rest);
    case EffectiveAtClause(text, at) => EffectiveAtParses(q, text, at, readTime, rest);
    case AsOfClause(h) =>
      Hlc.DisplayParses(h);
      AsOfParses(q, Hlc.Display(h), h, readTime, rest);
    case LimitClause(n) => LimitParses(q, n, readTime, rest);
    case OffsetClause(n) => OffsetParses(q, n, readTime, rest);
  }

  lemma {:induction false} ClausesParse(q: Query, cs: seq<Clause>, readTime: string -> Option<int>)
    requires forall c | c in cs :: Printable(c, readTime)
    ensures ParseClauses(q, readTime, PrintClauses(cs, readTime)) == Ok(ApplyAll(q, cs))
    decreases |cs|
  {
    if cs != [] {
      ClauseParses(q, cs[0], readTime, PrintClauses(cs[1..], readTime));
      ClausesParse(Apply(q, cs[0]), cs[1..], readTime);
    }
  }

  /** Any clauses, in any order and number: the printed query parses to what they set, in order. */
  lemma QueryParses(cols: seq<SelectColumn>, namespace: string, cs: seq<Clause>, readTime: string -> Option<int>)
    requires cols != [] && forall c | c in cs :: Printable(c, readTime)
    ensures ParseQuery(readTime, PrintQuery(cols, namespace, cs, readTime))
         == Ok(ApplyAll(EmptyQuery(cols, namespace), cs))
  {
    HeaderParses(cols, namespace, PrintClauses(cs, readTime));
    ClausesParse(EmptyQuery(cols, namespace), cs, readTime);
  }

  lemma HeaderContinues(cols: seq<SelectColumn>, namespace: string, ts: seq<Token>, rest: seq<Token>)
    requires cols != [] && ColumnsRest([], ts) == (cols, Cons(From, Cons(Ident(namespace), rest)))
    ensures ParseHeader(Cons(Select, ts)) == Ok((EmptyQuery(cols, namespace), rest))
  {
    var from := Cons(From, Cons(Ident(namespace), rest));
    assert ParseColumns(ts) == Ok((cols, from));
    assert Expect(From, from) == Ok(Cons(Ident(namespace), rest));
  }

  lemma HeaderParses(cols: seq<SelectColumn>, namespace: string, rest: seq<Token>)
    requires cols != []
    ensures ParseHeader(Cons(Select, PrintColumns(cols, 0, Cons(From, Cons(Ident(namespace), rest)))))
         == Ok((EmptyQuery(cols, namespace), rest))
  {
    var from := Cons(From, Cons(Ident(namespace), rest));
    ColumnsParse(cols, 0, from);
    assert cols[..0] == [];
    HeaderContinues(cols, namespace, PrintColumns(cols, 0, from), rest);
  }

  // ---- clause order -----------------------------------------------------------------------

  function KindOf(c: Clause): nat {
    match c
    case WhereClause(_) => 0
    case EffectiveAtClause(_, _) => 1
    case AsOfClause(_) => 2
    case OrderClause(_) => 3
    case LimitClause(_) => 4
    case OffsetClause(_) => 5
  }

  /** Each kind of clause is given at most once. */
  ghost predicate OncePerKind(cs: seq<Clause>) {
    forall i, j :: 0 <= i < j < |cs| ==> KindOf(cs[i]) != KindOf(cs[j])
  }

  lemma ClausesCommute(q: Query, c: Clause, d: Clause)
    requires KindOf(c) != KindOf(d)
    ensures Apply(Apply(q, c), d) == Apply(Apply(q, d), c)
  {
  }

  function Without<T>(xs: seq<T>, i: nat): (r: seq<T>)
    requires i < |xs|
    ensures multiset(r) == multiset(xs) - multiset{xs[i]}
  {
    assert xs == xs[..i] + [xs[i]] + xs[i + 1..];
    xs[..i] + xs[i + 1..]
  }

  lemma {:induction false} ApplyFirst(q: Query, cs: seq<Clause>, i: nat)
    requires OncePerKind(cs) && i < |cs|
    ensures ApplyAll(q, cs) == ApplyAll(Apply(q, cs[i]), Without(cs, i))
    decreases |cs|
  {
    if i == 0 {
      assert Without(cs, 0) == cs[1..];
    } else {
      ClausesCommute(q, cs[0], cs[i]);
      ApplyFirst(Apply(q, cs[0]), cs[1..], i - 1);
      assert Without(cs, i)[0] == cs[0] && Without(cs, i)[1..] == Without(cs[1..], i - 1);
    }
  }

  /** Clauses given once each may be written in any order. */
  lemma {:induction false} ClauseOrderIsIrrelevant(q: Query, cs: seq<Clause>, ds: seq<Clause>)
    requires OncePerKind(cs) && OncePerKind(ds) && multiset(cs) == multiset(ds)
    ensures ApplyAll(q, cs) == ApplyAll(q, ds)
    decreases |cs|
  {
    if cs == [] {
      assert |multiset(ds)| == 0;
    } else {
      var i := Position(ds, cs[0]) by { assert cs[0] in multiset(cs); }
      ApplyFirst(q, ds, i);
      WithoutKeepsOnce(ds, i);
      assert cs == [cs[0]] + cs[1..];
      ClauseOrderIsIrrelevant(Apply(q, cs[0]), cs[1..], Without(ds, i));
    }
  }

  lemma Position<T>(xs: seq<T>, x: T) returns (i: nat)
    requires x in multiset(xs)
    ensures i < |xs| && xs[i] == x
  {
    i :| 0 <= i < |xs| && xs[i] == x;
  }

  lemma WithoutKeepsOnce(cs: seq<Clause>, i: nat)
    requires OncePerKind(cs) && i < |cs|
    ensures OncePerKind(Without(cs, i))
  {
    var r := Without(cs, i);
    assert forall j :: 0 <= j < |r| ==> r[j] == cs[if j < i then j else j + 1];
  }

  // ---- printing a query value -------------------------------------------------------------

  function TimeClauses(q: Query, showTime: int -> string): seq<Clause> {
    (if q.effectiveAt.Some? then [EffectiveAtClause(showTime(q.effectiveAt.value), q.effectiveAt.value)] else [])
    + (if q.asof.Some? then [AsOfClause(q.asof.value)] else [])
  }

  function PageClauses(q: Query): seq<Clause> {
    (if q.limit.Some? then [LimitClause(q.limit.value)] else [])
    + (if q.offset.Some? then [OffsetClause(q.offset.value)] else [])
  }

  /** One clause for each field a query sets. */
  function ClausesOf(q: Query, showTime: int -> string): seq<Clause> {
    (if q.filter.Some? then [WhereClause(q.filter.value)] else [])
    + TimeClauses(q, showTime) + [OrderClause(q.orderBy)] + PageClauses(q)
  }

  predicate PrintableQuery(q: Query, readTime: string -> Option<int>, showTime: int -> string) {
    && q.columns != []
    && (q.filter.Some? ==> WellFormed(q.filter.value))
    && (q.effectiveAt.Some? ==> readTime(showTime(q.effectiveAt.value)) == q.effectiveAt)
    && (q.limit.Some? ==> q.limit.value < 0x8000_0000_0000_0000)
    && (q.offset.Some? ==> q.offset.value < 0x8000_0000_0000_0000)
  }

  lemma {:induction false} ApplyAllConcat(q: Query, cs: seq<Clause>, ds: seq<Clause>)
    ensures ApplyAll(q, cs + ds) == ApplyAll(ApplyAll(q, cs), ds)
    decreases |cs|
  {
    if cs == [] {
      assert cs + ds == ds;
    } else {
      assert (cs + ds)[1..] == cs[1..] + ds;
      ApplyAllConcat(Apply(q, cs[0]), cs[1..], ds);
    }
  }

  lemma ClausesRebuild(q: Query, showTime: int -> string)
    ensures ApplyAll(EmptyQuery(q.columns, q.namespace), ClausesOf(q, showTime)) == q
  {
    var q0 := EmptyQuery(q.columns, q.namespace);
    var where := if q.filter.Some? then [WhereClause(q.filter.value)] else [];
    var times, pages := TimeClauses(q, showTime), PageClauses(q);
    ApplyAllConcat(q0, where + times + [OrderClause(q.orderBy)], pages);
    ApplyAllConcat(q0, where + times, [OrderClause(q.orderBy)]);
    ApplyAllConcat(q0, where, times);
    var q1 := q0.(filter := q.filter);
    var q2 := q1.(effectiveAt := q.effectiveAt, asof := q.asof);
    var q3 := q2.(orderBy := q.orderBy);
    assert ApplyAll(q0, where) == q1;
    TimesRebuild(q1, q, showTime);
    assert ApplyAll(q2, [OrderClause(q.orderBy)]) == q3;
    PagesRebuild(q3, q);
  }

  lemma TimesRebuild(q1: Query, q: Query, showTime: int -> string)
    requires q1.effectiveAt == None && q1.asof == None
    ensures ApplyAll(q1, TimeClauses(q, showTime)) == q1.(effectiveAt := q.effectiveAt, asof := q.asof)
  {
    ApplyAllConcat(q1,
      if q.effectiveAt.Some? then [EffectiveAtClause(showTime(q.effectiveAt.value), q.effectiveAt.value)] else [],
      if q.asof.Some? then [AsOfClause(q.asof.value)] else []);
  }

  lemma PagesRebuild(q3: Query, q: Query)
    requires q3.limit == None && q3.offset == None
    ensures ApplyAll(q3, PageClauses(q)) == q3.(limit := q.limit, offset := q.offset)
  {
    ApplyAllConcat(q3, if q.limit.Some? then [LimitClause(q.limit.value)] else [],
                       if q.offset.Some? then [OffsetClause(q.offset.value)] else []);
  }

  /** Every printable query is read back as itself. */
  lemma PrintedQueryParses(q: Query, readTime: string -> Option<int>, showTime: int -> string)
    requires PrintableQuery(q, readTime, showTime)
    ensures (forall c | c in ClausesOf(q, showTime) :: Printable(c, readTime))
    ensures ParseQuery(readTime, PrintQuery(q.columns, q.namespace, ClausesOf(q, showTime), readTime)) == Ok(q)
  {
    QueryParses(q.columns, q.namespace, ClausesOf(q, showTime), readTime);
    ClausesRebuild(q, showTime);
  }
}
