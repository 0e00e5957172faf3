/**
 * Evaluating a query: what is pushed down to the store's scan, what is filtered, sorted and paged
 * afterwards, and when the two together compute what the query says.
 */
module PqlEval {
  import opened Base
  import opened Lists
  import opened StableSort
  import opened Strings
  import opened Ledger
  import opened PqlAst
  import opened Like

  // ---- the filter -------------------------------------------------------------------------

  function ColToLit(col: string, f: Fact): Option<Literal> {
    if col == "entity" then Some(Literal.Str(f.entity))
    else if col == "attr" then Some(Literal.Str(f.attr))
    else if col == "branch" then Some(Literal.Str(f.branch))
    else if col == "namespace" then Some(Literal.Str(f.namespace))
    else if col == "author" then if f.author.Some? then Some(Literal.Str(f.author.value)) else None
    else if col == "value" then
      match f.value {
        case Str(s) => Some(Literal.Str(s))
        case Int(n) => Some(Literal.Int(n))
        case Float(x) => Some(Literal.Float(x))
        case Bool(b) => Some(Literal.Bool(b))
        case _ => None
      }
    else None
  }

  function ColStr(col: string, f: Fact): string {
    var l := ColToLit(col, f);
    if l.Some? && l.value.Str? then l.value.s else ""
  }

  predicate LitEq(fl: Floats, a: Literal, b: Literal) {
    if a.Float? && b.Float? then fl.eq(a.text, b.text) else a == b
  }

  function CompareBool(a: bool, b: bool): Ordering {
    if a == b then Equal else if b then Less else Greater
  }

  function CompareLits(fl: Floats, a: Literal, b: Literal): Option<Ordering> {
    match (a, b)
    case (Int(x), Int(y)) => Some(CompareInt(x, y))
    case (Float(x), Float(y)) => fl.compare(x, y)
    case (Int(x), Float(y)) => fl.compareInt(x, y)
    case (Float(x), Int(y)) => fl.compareToInt(x, y)
    case (Str(x), Str(y)) => Some(CompareStr(x, y))
    case (Bool(x), Bool(y)) => Some(CompareBool(x, y))
    case _ => None
  }

  function Resolve(e: Expr, f: Fact): Option<Literal> {
    match e
    case Column(col) => ColToLit(col, f)
    case Lit(l) => Some(l)
    case _ => None
  }

  predicate EvalBinOp(fl: Floats, op: Operator, left: Expr, right: Expr, f: Fact) {
    var a, b := Resolve(left, f), Resolve(right, f);
    a.Some? && b.Some? &&
    var order := CompareLits(fl, a.value, b.value);
    match op
    case Eq => LitEq(fl, a.value, b.value)
    case Ne => !LitEq(fl, a.value, b.value)
    case Lt => order == Some(Less)
    case Le => order == Some(Less) || order == Some(Equal)
    case Gt => order == Some(Greater)
    case Ge => order == Some(Greater) || order == Some(Equal)
  }

  predicate EvalFilter(fl: Floats, e: Expr, f: Fact) {
    match e
    case And(a, b) => EvalFilter(fl, a, f) && EvalFilter(fl, b, f)
    case Or(a, b) => EvalFilter(fl, a, f) || EvalFilter(fl, b, f)
    case Not(x) => !EvalFilter(fl, x, f)
    case IsNull(x) => x.Column? && (ColToLit(x.name, f) == None || ColToLit(x.name, f) == Some(Literal.Null))
    case IsNotNull(x) => x.Column? ==> ColToLit(x.name, f).Some? && ColToLit(x.name, f).value != Literal.Null
    case Like(x, pattern) => x.Column? && Wild(ColStr(x.name, f), pattern)
    case In(x, values) =>
      x.Column? && ColToLit(x.name, f).Some? && exists v | v in values :: LitEq(fl, ColToLit(x.name, f).value, v)
    case BinOp(op, l, r) => EvalBinOp(fl, op, l, r, f)
    case Column(_) => true
    case Lit(_) => true
  }

  function Passing(fl: Floats, filter: Option<Expr>): Fact -> bool {
    (f: Fact) => filter.None? || EvalFilter(fl, filter.value, f)
  }

  // ---- sorting ----------------------------------------------------------------------------

  function CompareCol(col: string, a: Fact, b: Fact): Ordering {
    if col == "valid_from" then CompareInt(a.validFrom, b.validFrom)
    else if col == "tx_time" then CompareInt(a.txTime, b.txTime)
    else if col == "entity" then CompareStr(a.entity, b.entity)
    else if col == "attr" then CompareStr(a.attr, b.attr)
    else Equal
  }

  /** The order `sort_by` is given for one key. */
  function KeyLeq(ob: OrderBy): (Fact, Fact) -> bool {
    (a: Fact, b: Fact) =>
      var order := CompareCol(ob.column, a, b);
      (if ob.direction == Desc then order.Reverse() else order) != Greater
  }

  /** Key by key, the first deciding. */
  function LexLeq(keys: seq<OrderBy>): (Fact, Fact) -> bool {
    if keys == [] then (a: Fact, b: Fact) => true else Lex(KeyLeq(keys[0]), LexLeq(keys[1..]))
  }

  /** One stable sort for each key, the last key first. */
  function SortByKeys(keys: seq<OrderBy>, facts: seq<Fact>): seq<Fact> {
    if keys == [] then facts else Sort(KeyLeq(keys[0]), SortByKeys(keys[1..], facts))
  }

  lemma KeyLeqPreorder(ob: OrderBy)
    ensures TotalPreorder(KeyLeq(ob))
  {
    var leq := KeyLeq(ob);
    forall a, b ensures leq(a, b) || leq(b, a) {
      CompareStrReverse(a.entity, b.entity);
      CompareStrReverse(a.attr, b.attr);
    }
    forall a, b, c | leq(a, b) && leq(b, c) ensures leq(a, c) {
      KeyLeqTransitive(ob, a, b, c);
    }
  }

  lemma StrTransitive(desc: bool, a: string, b: string, c: string)
    requires (if desc then CompareStr(a, b).Reverse() else CompareStr(a, b)) != Greater
    requires (if desc then CompareStr(b, c).Reverse() else CompareStr(b, c)) != Greater
    ensures (if desc then CompareStr(a, c).Reverse() else CompareStr(a, c)) != Greater
  {
    if desc {
      CompareStrReverse(a, b);
      CompareStrReverse(b, c);
      CompareStrReverse(a, c);
      StrLeqTransitive(c, b, a);
    } else {
      StrLeqTransitive(a, b, c);
    }
  }

  lemma KeyLeqTransitive(ob: OrderBy, a: Fact, b: Fact, c: Fact)
    requires KeyLeq(ob)(a, b) && KeyLeq(ob)(b, c)
    ensures KeyLeq(ob)(a, c)
  {
    if ob.column == "entity" {
      StrTransitive(ob.direction == Desc, a.entity, b.entity, c.entity);
    } else if ob.column == "attr" {
      StrTransitive(ob.direction == Desc, a.attr, b.attr, c.attr);
    }
  }

  lemma {:induction false} LexLeqPreorder(keys: seq<OrderBy>)
    ensures TotalPreorder(LexLeq(keys))
  {
    if keys != [] {
      KeyLeqPreorder(keys[0]);
      LexLeqPreorder(keys[1..]);
      LexPreorder(KeyLeq(keys[0]), LexLeq(keys[1..]));
    }
  }

  /** Repeated stable sorts, last key first, are one sort by all keys in order. */
  lemma {:induction false} RepeatedSortsAreLexicographic(keys: seq<OrderBy>, facts: seq<Fact>)
    ensures SortByKeys(keys, facts) == Sort(LexLeq(keys), facts)
    ensures StablySorts(LexLeq(keys), facts, SortByKeys(keys, facts))
    decreases |keys|
  {
    LexLeqPreorder(keys);
    if keys == [] {
      AllEqualSorted(LexLeq(keys), facts);
      SortOfSorted(LexLeq(keys), facts);
    } else {
      KeyLeqPreorder(keys[0]);
      LexLeqPreorder(keys[1..]);
      RepeatedSortsAreLexicographic(keys[1..], facts);
      SortTwice(KeyLeq(keys[0]), LexLeq(keys[1..]), facts);
    }
    SortIsStable(LexLeq(keys), facts);
  }

  /** A key on a column the evaluator does not know leaves the order alone. */
  lemma UnknownKeyIsNoOp(ob: OrderBy, facts: seq<Fact>)
    requires ob.column !in {"valid_from", "tx_time", "entity", "attr"}
    ensures Sort(KeyLeq(ob), facts) == facts
  {
    AllEqualSorted(KeyLeq(ob), facts);
    SortOfSorted(KeyLeq(ob), facts);
  }

  // ---- evaluation -------------------------------------------------------------------------

  /** The rows of a query over given facts, before projection. */
  function Evaluate(fl: Floats, q: Query, facts: seq<Fact>): seq<Fact> {
    var sorted := SortByKeys(q.orderBy, Filter(Passing(fl, q.filter), facts));
    if q.filter.Some? then Page(sorted, q.offset, q.limit) else sorted
  }

  method Eval(fl: Floats, q: Query, facts: seq<Fact>) returns (results: seq<Fact>)
    ensures results == Evaluate(fl, q, facts)
  {
    results := Filter(Passing(fl, q.filter), facts);
    ghost var kept := results;
    var i := |q.orderBy|;
    while i > 0
      invariant 0 <= i <= |q.orderBy|
      invariant results == SortByKeys(q.orderBy[i..], kept)
    {
      i := i - 1;
      assert q.orderBy[i..][1..] == q.orderBy[i + 1..];
      results := Sort(KeyLeq(q.orderBy[i]), results);
    }
    assert q.orderBy[0..] == q.orderBy;
    if q.filter.Some? {
      results := Page(results, q.offset, q.limit);
    }
  }

  /** The equality conjuncts on `entity` and `attr`, a later one replacing an earlier one. */
  function Extract(e: Expr, found: (Option<string>, Option<string>)): (Option<string>, Option<string>) {
    match e
    case And(a, b) => Extract(b, Extract(a, found))
    case BinOp(Eq, Column(col), Lit(Str(val))) =>
      if col == "entity" then (Some(val), found.1)
      else if col == "attr" then (found.0, Some(val))
      else found
    case _ => found
  }

  function ToScanQuery(q: Query, branch: string): ScanQuery {
    var (entity, attr) := if q.filter.Some? then Extract(q.filter.value, (None, None)) else (None, None);
    ScanQuery(q.namespace, branch, entity, attr, q.asof, q.effectiveAt, false,
              if q.filter.None? then q.limit else None,
              if q.filter.None? then q.offset else None)
  }

  /** A query request: scan what was pushed down, evaluate the rest. */
  function RunQuery(fl: Floats, q: Query, branch: string, facts: seq<Fact>): seq<Fact> {
    Evaluate(fl, q, Scan(facts, ToScanQuery(q, branch)))
  }

  /** The live facts at the query's AS OF and EFFECTIVE AT, newest first. */
  function Visible(q: Query, branch: string, facts: seq<Fact>): seq<Fact> {
    Scan(facts, ScanQuery(q.namespace, branch, None, None, q.asof, q.effectiveAt, false, None, None))
  }

  /** What a query says: filter the visible facts, order them by all keys, take the page. */
  function Answer(fl: Floats, q: Query, branch: string, facts: seq<Fact>): seq<Fact> {
    Page(Sort(LexLeq(q.orderBy), Filter(Passing(fl, q.filter), Visible(q, branch, facts))), q.offset, q.limit)
  }

  // ---- pushdown ---------------------------------------------------------------------------

  predicate Allows(found: (Option<string>, Option<string>), f: Fact) {
    (found.0.Some? ==> f.entity == found.0.value) && (found.1.Some? ==> f.attr == found.1.value)
  }

  /** What is pushed down is implied by the filter, repeated conjuncts included. */
  lemma {:induction false} ExtractIsImplied(fl: Floats, e: Expr, found: (Option<string>, Option<string>), f: Fact)
    requires EvalFilter(fl, e, f) && Allows(found, f)
    ensures Allows(Extract(e, found), f)
  {
    match e
    case And(a, b) =>
      ExtractIsImplied(fl, a, found, f);
      ExtractIsImplied(fl, b, Extract(a, found), f);
    case _ =>
  }

  /** The text the last of the filter's equality conjuncts on the column asks for. */
  function LastEquality(e: Expr, column: string): Option<string> {
    match e
    case And(a, b) => if LastEquality(b, column).Some? then LastEquality(b, column) else LastEquality(a, column)
    case BinOp(Eq, Column(col), Lit(Str(val))) => if col == column then Some(val) else None
    case _ => None
  }

  /** What is pushed down is the last equality conjunct on each of the two columns, if there is one. */
  lemma {:induction false} ExtractIsLast(e: Expr, found: (Option<string>, Option<string>))
    ensures Extract(e, found).0 == if LastEquality(e, "entity").Some? then LastEquality(e, "entity") else found.0
    ensures Extract(e, found).1 == if LastEquality(e, "attr").Some? then LastEquality(e, "attr") else found.1
  {
    match e
    case And(a, b) =>
      ExtractIsLast(a, found);
      ExtractIsLast(b, Extract(a, found));
    case _ =>
  }

  /** With a filter, restricting the scan and filtering afterwards is filtering the visible facts. */
  lemma FilteredPushdown(fl: Floats, q: Query, branch: string, facts: seq<Fact>)
    requires q.filter.Some?
    ensures RunQuery(fl, q, branch, facts) == Answer(fl, q, branch, facts)
  {
    var all := ScanQuery(q.namespace, branch, None, None, q.asof, q.effectiveAt, false, None, None);
    var pushed := ToScanQuery(q, branch);
    var p := Passing(fl, q.filter);
    var both := (f: Fact) => Matches(all, f) && p(f);
    forall f | f in facts ensures both(f) <==> Matches(pushed, f) && p(f) {
      if Matches(all, f) && p(f) {
        ExtractIsImplied(fl, q.filter.value, (None, None), f);
      }
    }
    NewestFirstPreorder();
    FilterSort(NewestFirst, p, Filter(Matching(pushed), facts));
    FilterSort(NewestFirst, p, Filter(Matching(all), facts));
    FilterFilter(p, Matching(pushed), both, facts);
    FilterFilter(p, Matching(all), both, facts);
    RepeatedSortsAreLexicographic(q.orderBy, Filter(p, Scan(facts, pushed)));
  }

  /** Without a filter the page is taken before the rows are sorted. */
  lemma UnfilteredRun(fl: Floats, q: Query, branch: string, facts: seq<Fact>)
    requires q.filter.None?
    ensures RunQuery(fl, q, branch, facts)
         == Sort(LexLeq(q.orderBy), Page(Visible(q, branch, facts), q.offset, q.limit))
    ensures Answer(fl, q, branch, facts)
         == Page(Sort(LexLeq(q.orderBy), Visible(q, branch, facts)), q.offset, q.limit)
  {
    var all := ScanQuery(q.namespace, branch, None, None, q.asof, q.effectiveAt, false, None, None);
    var pushed := ToScanQuery(q, branch);
    FilterSame(Matching(pushed), Matching(all), facts);
    assert Scan(facts, pushed) == Page(Visible(q, branch, facts), q.offset, q.limit);
    FilterAll(Passing(fl, q.filter), Visible(q, branch, facts));
    FilterAll(Passing(fl, q.filter), Scan(facts, pushed));
    RepeatedSortsAreLexicographic(q.orderBy, Scan(facts, pushed));
  }

  /** The page asked for is everything, or nothing. */
  predicate PageIsTrivial(q: Query) {
    || q.limit == Some(0)
    || (q.limit == None && (q.offset == None || q.offset == Some(0)))
  }

  /** The keys never move a newest-first list: only transaction time can decide, and newest first. */
  predicate KeepsNewestFirst(keys: seq<OrderBy>, asof: Option<u64>) {
    keys == [] ||
    if keys[0].column in {"valid_from", "entity", "attr"} then false
    else if keys[0].column == "tx_time" then
      (keys[0].direction == Desc || asof == Some(0)) && OnlyTxTime(keys[1..])
    else KeepsNewestFirst(keys[1..], asof)
  }

  predicate OnlyTxTime(keys: seq<OrderBy>) {
    keys == [] || (keys[0].column !in {"valid_from", "entity", "attr"} && OnlyTxTime(keys[1..]))
  }

  /** When pushing LIMIT and OFFSET below ORDER BY is harmless. */
  predicate PushdownIsSafe(q: Query) {
    q.filter.Some? || PageIsTrivial(q) || KeepsNewestFirst(q.orderBy, q.asof)
  }

  lemma {:induction false} TxTimeTies(keys: seq<OrderBy>, a: Fact, b: Fact)
    requires OnlyTxTime(keys) && a.txTime == b.txTime
    ensures LexLeq(keys)(a, b)
  {
    if keys != [] {
      TxTimeTies(keys[1..], a, b);
    }
  }

  lemma {:induction false} KeepsOrder(keys: seq<OrderBy>, asof: Option<u64>, a: Fact, b: Fact)
    requires KeepsNewestFirst(keys, asof) && NewestFirst(a, b)
    requires asof.Some? ==> a.txTime <= asof.value && b.txTime <= asof.value
    ensures LexLeq(keys)(a, b)
  {
    if keys != [] {
      if keys[0].column == "tx_time" {
        if a.txTime == b.txTime {
          TxTimeTies(keys[1..], a, b);
        }
      } else {
        KeepsOrder(keys[1..], asof, a, b);
      }
    }
  }

  lemma {:induction false} SortedRefines(leq: (Fact, Fact) -> bool, finer: (Fact, Fact) -> bool, xs: seq<Fact>)
    requires Sorted(leq, xs) && forall a, b | a in xs && b in xs && leq(a, b) :: finer(a, b)
    ensures Sorted(finer, xs)
  {
    if xs != [] {
      SortedRefines(leq, finer, xs[1..]);
    }
  }

  /** The scan of a query without a page is the visible facts, newest first. */
  lemma VisibleIsNewestFirst(q: Query, branch: string, facts: seq<Fact>)
    ensures Sorted(NewestFirst, Visible(q, branch, facts))
    ensures forall f | f in Visible(q, branch, facts) :: q.asof.Some? ==> f.txTime <= q.asof.value
  {
    var all := ScanQuery(q.namespace, branch, None, None, q.asof, q.effectiveAt, false, None, None);
    NewestFirstPreorder();
    SortSorted(NewestFirst, Filter(Matching(all), facts));
  }

  lemma SortedPage(leq: (Fact, Fact) -> bool, xs: seq<Fact>, offset: Option<nat>, limit: Option<nat>)
    requires Sorted(leq, xs)
    ensures Sorted(leq, Page(xs, offset, limit))
  {
    var skip := if offset.Some? then offset.value else 0;
    if skip <= |xs| {
      SortedSuffix(leq, xs, skip);
      if limit.Some? && limit.value <= |xs[skip..]| {
        SortedPrefix(leq, xs[skip..], limit.value);
      }
    }
  }

  lemma SortedPageCommutes(leq: (Fact, Fact) -> bool, xs: seq<Fact>, offset: Option<nat>, limit: Option<nat>)
    requires Sorted(leq, xs)
    ensures Sort(leq, Page(xs, offset, limit)) == Page(Sort(leq, xs), offset, limit)
  {
    SortOfSorted(leq, xs);
    SortedPage(leq, xs, offset, limit);
    SortOfSorted(leq, Page(xs, offset, limit));
  }

  lemma TrivialPageCommutes(leq: (Fact, Fact) -> bool, xs: seq<Fact>, q: Query)
    requires PageIsTrivial(q)
    ensures Sort(leq, Page(xs, q.offset, q.limit)) == Page(Sort(leq, xs), q.offset, q.limit)
  {
    if q.limit == Some(0) {
      assert Page(xs, q.offset, q.limit) == [] == Page(Sort(leq, xs), q.offset, q.limit);
    }
  }

  lemma KeptOrderIsSorted(q: Query, branch: string, facts: seq<Fact>)
    requires KeepsNewestFirst(q.orderBy, q.asof)
    ensures Sorted(LexLeq(q.orderBy), Visible(q, branch, facts))
  {
    var v, lex := Visible(q, branch, facts), LexLeq(q.orderBy);
    VisibleIsNewestFirst(q, branch, facts);
    forall a, b | a in v && b in v && NewestFirst(a, b) ensures lex(a, b) {
      KeepsOrder(q.orderBy, q.asof, a, b);
    }
    SortedRefines(NewestFirst, lex, v);
  }

  /** Safe queries compute what they say, on every store. */
  lemma SafePushdown(fl: Floats, q: Query, branch: string, facts: seq<Fact>)
    requires PushdownIsSafe(q)
    ensures RunQuery(fl, q, branch, facts) == Answer(fl, q, branch, facts)
  {
    if q.filter.Some? {
      FilteredPushdown(fl, q, branch, facts);
    } else {
      UnfilteredRun(fl, q, branch, facts);
      if PageIsTrivial(q) {
        TrivialPageCommutes(LexLeq(q.orderBy), Visible(q, branch, facts), q);
      } else {
        KeptOrderIsSorted(q, branch, facts);
        SortedPageCommutes(LexLeq(q.orderBy), Visible(q, branch, facts), q.offset, q.limit);
      }
    }
  }

  // ---- why nothing else is safe -----------------------------------------------------------

  /** What makes a fact that the scan lists last sort first: an older time, or a column's value. */
  datatype Twist = ByTime | ByColumn(column: string, direction: Direction)

  function ColumnTwist(keys: seq<OrderBy>): Twist
    requires !OnlyTxTime(keys)
  {
    if keys[0].column in {"valid_from", "entity", "attr"} then ByColumn(keys[0].column, keys[0].direction)
    else ColumnTwist(keys[1..])
  }

  function TwistOf(keys: seq<OrderBy>, asof: Option<u64>): Twist
    requires !KeepsNewestFirst(keys, asof)
  {
    if keys[0].column in {"valid_from", "entity", "attr"} then ByColumn(keys[0].column, keys[0].direction)
    else if keys[0].column != "tx_time" then TwistOf(keys[1..], asof)
    else if keys[0].direction == Asc && asof != Some(0) then ByTime
    else ColumnTwist(keys[1..])
  }

  /** The `i`th of many visible facts that no key tells apart. */
  function Common(q: Query, branch: string, twist: Twist, i: nat): Fact {
    var at := if q.effectiveAt.Some? then q.effectiveAt.value else 0;
    Fact(seq(i, _ => 'x'), q.namespace, "m", "m", Value.Null, at - 1, None, "tx",
         if twist == ByTime then 1 else 0, branch, None, false, None)
  }

  /** A visible fact, no newer than the others, that the keys put before them. */
  function Special(q: Query, branch: string, twist: Twist): Fact {
    var c := Common(q, branch, twist, 0);
    if twist == ByTime then c.(txTime := 0)
    else
      var first := twist.direction == Asc;
      if twist.column == "valid_from" then c.(validFrom := if first then c.validFrom - 1 else c.validFrom + 1)
      else if twist.column == "entity" then c.(entity := if first then "a" else "z")
      else c.(attr := if first then "a" else "z")
  }

  lemma {:induction false} CommonsTie(keys: seq<OrderBy>, a: Fact, b: Fact)
    requires a.validFrom == b.validFrom && a.txTime == b.txTime && a.entity == b.entity && a.attr == b.attr
    ensures LexLeq(keys)(a, b)
  {
    if keys != [] {
      CompareStrEqual(a.entity, b.entity);
      CompareStrEqual(a.attr, b.attr);
      CommonsTie(keys[1..], a, b);
    }
  }

  /** A column's twist decides its own key, and times are tied. */
  lemma SpecialDecides(q: Query, branch: string, ob: OrderBy, i: nat)
    requires ob.column in {"valid_from", "entity", "attr"}
    ensures var t := ByColumn(ob.column, ob.direction);
      KeyLeq(ob)(Special(q, branch, t), Common(q, branch, t, i))
      && !KeyLeq(ob)(Common(q, branch, t, i), Special(q, branch, t))
  {
  }

  lemma {:induction false} ColumnTwistDecides(q: Query, branch: string, keys: seq<OrderBy>, i: nat)
    requires !OnlyTxTime(keys)
    ensures var t := ColumnTwist(keys);
      && LexLeq(keys)(Special(q, branch, t), Common(q, branch, t, i))
      && !LexLeq(keys)(Common(q, branch, t, i), Special(q, branch, t))
  {
    if keys[0].column in {"valid_from", "entity", "attr"} {
      SpecialDecides(q, branch, keys[0], i);
    } else {
      ColumnTwistIsColumn(keys[1..]);
      ColumnTwistDecides(q, branch, keys[1..], i);
    }
  }

  lemma {:induction false} TwistDecides(q: Query, branch: string, keys: seq<OrderBy>, asof: Option<u64>, i: nat)
    requires !KeepsNewestFirst(keys, asof)
    ensures var t := TwistOf(keys, asof);
      && LexLeq(keys)(Special(q, branch, t), Common(q, branch, t, i))
      && !LexLeq(keys)(Common(q, branch, t, i), Special(q, branch, t))
  {
    if keys[0].column in {"valid_from", "entity", "attr"} {
      SpecialDecides(q, branch, keys[0], i);
    } else if keys[0].column != "tx_time" {
      TwistDecides(q, branch, keys[1..], asof, i);
    } else if !(keys[0].direction == Asc && asof != Some(0)) {
      ColumnTwistIsColumn(keys[1..]);
      ColumnTwistDecides(q, branch, keys[1..], i);
    }
  }

  /** The store that shows it: `n` common facts and then the special one. */
  function Commons(q: Query, branch: string, twist: Twist, n: nat): (cs: seq<Fact>)
    ensures |cs| == n
    ensures forall c | c in cs :: exists i: nat :: i < n && c == Common(q, branch, twist, i)
  {
    if n == 0 then [] else
      var cs := Commons(q, branch, twist, n - 1) + [Common(q, branch, twist, n - 1)];
      assert cs[n - 1] == Common(q, branch, twist, n - 1);
      cs
  }

  lemma {:induction false} TiedThenLast(leq: (Fact, Fact) -> bool, cs: seq<Fact>, w: Fact)
    requires forall a, b | a in cs && b in cs :: leq(a, b)
    requires forall c | c in cs :: leq(c, w)
    ensures Sorted(leq, cs + [w])
  {
    if cs == [] {
      assert cs + [w] == [w];
    } else {
      TiedThenLast(leq, cs[1..], w);
      assert (cs + [w])[1..] == cs[1..] + [w];
    }
  }

  /** All of the store is visible, in the order it is stored. */
  lemma WitnessVisible(q: Query, branch: string, n: nat)
    requires !KeepsNewestFirst(q.orderBy, q.asof)
    ensures var t := TwistOf(q.orderBy, q.asof); var facts := Commons(q, branch, t, n) + [Special(q, branch, t)];
            Visible(q, branch, facts) == facts
  {
    var t := TwistOf(q.orderBy, q.asof);
    var facts := Commons(q, branch, t, n) + [Special(q, branch, t)];
    var all := ScanQuery(q.namespace, branch, None, None, q.asof, q.effectiveAt, false, None, None);
    TimeTwistNeedsRoom(q.orderBy, q.asof);
    forall f | f in facts ensures Matches(all, f) {
    }
    FilterAll(Matching(all), facts);
    TiedThenLast(NewestFirst, Commons(q, branch, t, n), Special(q, branch, t));
    SortOfSorted(NewestFirst, facts);
  }

  lemma {:induction false} TimeTwistNeedsRoom(keys: seq<OrderBy>, asof: Option<u64>)
    requires !KeepsNewestFirst(keys, asof)
    ensures TwistOf(keys, asof) == ByTime ==> asof != Some(0)
  {
    if keys[0].column !in {"valid_from", "entity", "attr", "tx_time"} {
      TimeTwistNeedsRoom(keys[1..], asof);
    } else if keys[0].column == "tx_time" && !(keys[0].direction == Asc && asof != Some(0)) {
      ColumnTwistIsColumn(keys[1..]);
    }
  }

  lemma {:induction false} ColumnTwistIsColumn(keys: seq<OrderBy>)
    requires !OnlyTxTime(keys)
    ensures ColumnTwist(keys).ByColumn?
  {
    if keys[0].column !in {"valid_from", "entity", "attr"} {
      ColumnTwistIsColumn(keys[1..]);
    }
  }

  lemma WitnessSorted(q: Query, branch: string, n: nat)
    requires !KeepsNewestFirst(q.orderBy, q.asof)
    ensures var t := TwistOf(q.orderBy, q.asof); var cs, w := Commons(q, branch, t, n), Special(q, branch, t);
            w !in cs && Sort(LexLeq(q.orderBy), cs + [w]) == [w] + cs
  {
    var t, lex := TwistOf(q.orderBy, q.asof), LexLeq(q.orderBy);
    var cs, w := Commons(q, branch, t, n), Special(q, branch, t);
    forall c | c in cs ensures lex(w, c) && !lex(c, w) {
      var i: nat :| i < n && c == Common(q, branch, t, i);
      TwistDecides(q, branch, q.orderBy, q.asof, i);
    }
    forall a, b | a in cs && b in cs ensures lex(a, b) {
      CommonsTie(q.orderBy, a, b);
    }
    MovesToFront(lex, cs, w);
  }

  /** Paging before moving the last fact to the front, and after, take different facts. */
  lemma PagesDiffer(q: Query, cs: seq<Fact>, w: Fact, page: seq<Fact>)
    requires !PageIsTrivial(q) && w !in cs
    requires |cs| == (if q.offset.Some? && q.offset.value > 0
                      then q.offset.value + (if q.limit.Some? then q.limit.value else 1) - 1
                      else q.limit.value)
    requires forall f :: f in page <==> f in Page(cs + [w], q.offset, q.limit)
    ensures page != Page([w] + cs, q.offset, q.limit)
  {
    var before, after := Page(cs + [w], q.offset, q.limit), Page([w] + cs, q.offset, q.limit);
    if q.offset.Some? && q.offset.value > 0 {
      assert before == (cs + [w])[q.offset.value..];
      assert before[|before| - 1] == w;
      assert forall f | f in after :: f in cs;
    } else {
      assert before == cs;
      assert after[0] == w;
    }
  }

  lemma UnsafePushdown(fl: Floats, q: Query, branch: string) returns (facts: seq<Fact>)
    requires !PushdownIsSafe(q)
    ensures RunQuery(fl, q, branch, facts) != Answer(fl, q, branch, facts)
  {
    var t := TwistOf(q.orderBy, q.asof);
    var n := if q.offset.Some? && q.offset.value > 0
             then q.offset.value + (if q.limit.Some? then q.limit.value else 1) - 1
             else q.limit.value;
    var cs, w := Commons(q, branch, t, n), Special(q, branch, t);
    facts := cs + [w];
    UnfilteredRun(fl, q, branch, facts);
    WitnessVisible(q, branch, n);
    WitnessSorted(q, branch, n);
    PagesDiffer(q, cs, w, Sort(LexLeq(q.orderBy), Page(facts, q.offset, q.limit)));
  }

  /** Pushing a query down keeps its meaning on every store exactly when it is safe by its text. */
  lemma PushdownPreservesMeaningExactly(fl: Floats, q: Query, branch: string)
    ensures (forall facts :: RunQuery(fl, q, branch, facts) == Answer(fl, q, branch, facts)) <==> PushdownIsSafe(q)
  {
    if PushdownIsSafe(q) {
      forall facts ensures RunQuery(fl, q, branch, facts) == Answer(fl, q, branch, facts) {
        SafePushdown(fl, q, branch, facts);
      }
    } else {
      var facts := UnsafePushdown(fl, q, branch);
    }
  }

  lemma PageIsWhole(xs: seq<Fact>, offset: Option<nat>, limit: Option<nat>)
    ensures Page(xs, offset, limit) == xs
       <==> (limit.Some? ==> |xs| <= limit.value) && (offset.Some? ==> offset.value == 0 || xs == [])
  {
    var page := Page(xs, offset, limit);
    if offset.Some? && offset.value > 0 && xs != [] {
      assert |page| < |xs|;
    } else if limit.Some? && |xs| > limit.value {
      assert |page| < |xs|;
    }
  }

  /** Evaluating given facts without a scan pages only filtered queries: LIMIT alone has no effect. */
  lemma EvaluateAloneIgnoresPage(fl: Floats, q: Query, facts: seq<Fact>)
    requires q.filter.None?
    ensures Evaluate(fl, q, facts) == Sort(LexLeq(q.orderBy), facts)
    ensures Evaluate(fl, q, facts) == Page(Sort(LexLeq(q.orderBy), facts), q.offset, q.limit)
       <==> (q.limit.Some? ==> |facts| <= q.limit.value) && (q.offset.Some? ==> q.offset.value == 0 || facts == [])
  {
    FilterAll(Passing(fl, q.filter), facts);
    RepeatedSortsAreLexicographic(q.orderBy, facts);
    var sorted := Sort(LexLeq(q.orderBy), facts);
    assert |sorted| == |facts|;
    PageIsWhole(sorted, q.offset, q.limit);
  }
}
