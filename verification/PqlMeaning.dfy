/**
 * What a query says, on the fields of facts: which values its comparisons relate, which facts its rows are, and
 * in which order they come.
 */
module PqlMeaning {
  import opened Base
  import opened Lists
  import opened StableSort
  import opened Strings
  import opened Ledger
  import opened PqlAst
  import opened Like
  import opened PqlEval
  import opened Reads

  // ---- operands ----------------------------------------------------------------------------

  /** The literal that a stored value is compared as; a JSON value or a null is not compared. */
  predicate IsValue(v: Value, l: Literal) {
    || (v.Str? && l == Literal.Str(v.s))
    || (v.Int? && l == Literal.Int(v.n))
    || (v.Float? && l == Literal.Float(v.text))
    || (v.Bool? && l == Literal.Bool(v.b))
  }

  /** The operand stands for the literal: the literal itself, or the fact's field of the column's name. */
  predicate Denotes(e: Expr, f: Fact, l: Literal) {
    match e
    case Lit(x) => x == l
    case Column(name) =>
      || (l.Str? && name == "entity" && l.s == f.entity)
      || (l.Str? && name == "attr" && l.s == f.attr)
      || (l.Str? && name == "branch" && l.s == f.branch)
      || (l.Str? && name == "namespace" && l.s == f.namespace)
      || (l.Str? && name == "author" && f.author == Some(l.s))
      || (name == "value" && IsValue(f.value, l))
    case _ => false
  }

  lemma ResolveDenotes(e: Expr, f: Fact)
    ensures forall l :: Resolve(e, f) == Some(l) <==> Denotes(e, f, l)
  {
  }

  /** The column has no value in the fact: an absent author, a JSON value or a null, or no column at all. */
  predicate HasNoValue(column: string, f: Fact) {
    || (column == "author" && f.author == None)
    || (column == "value" && (f.value.Json? || f.value.Null?))
    || column !in {"entity", "attr", "branch", "namespace", "author", "value"}
  }

  lemma HasNoValueIs(column: string, f: Fact)
    ensures HasNoValue(column, f) <==> forall l :: !Denotes(Column(column), f, l)
    ensures !Denotes(Column(column), f, Literal.Null)
    ensures HasNoValue(column, f) <==> ColToLit(column, f) == None
  {
    ResolveDenotes(Column(column), f);
    if ColToLit(column, f).Some? {
      assert Denotes(Column(column), f, ColToLit(column, f).value);
    }
  }

  // ---- comparisons -------------------------------------------------------------------------

  predicate IntHolds(op: Operator, x: int, y: int) {
    match op
    case Eq => x == y
    case Ne => x != y
    case Lt => x < y
    case Le => x <= y
    case Gt => x > y
    case Ge => x >= y
  }

  /** Strings in the order of the first character that differs. */
  ghost predicate TextHolds(op: Operator, x: string, y: string) {
    match op
    case Eq => x == y
    case Ne => x != y
    case Lt => Before(x, y)
    case Le => Before(x, y) || x == y
    case Gt => Before(y, x)
    case Ge => Before(y, x) || x == y
  }

  /** `false` comes before `true`. */
  predicate BoolHolds(op: Operator, x: bool, y: bool) {
    match op
    case Eq => x == y
    case Ne => x != y
    case Lt => !x && y
    case Le => !x || y
    case Gt => x && !y
    case Ge => x || !y
  }

  /** What a floating-point comparison says of an operator, given whether the operands are equal. */
  predicate FloatHolds(op: Operator, equal: bool, order: Option<Ordering>) {
    match op
    case Eq => equal
    case Ne => !equal
    case Lt => order == Some(Less)
    case Le => order == Some(Less) || order == Some(Equal)
    case Gt => order == Some(Greater)
    case Ge => order == Some(Greater) || order == Some(Equal)
  }

  /** Values of one kind are compared as such, an integer and a float never equal; others only differ. */
  ghost predicate Holds(fl: Floats, op: Operator, a: Literal, b: Literal) {
    match (a, b)
    case (Int(x), Int(y)) => IntHolds(op, x, y)
    case (Str(x), Str(y)) => TextHolds(op, x, y)
    case (Bool(x), Bool(y)) => BoolHolds(op, x, y)
    case (Float(x), Float(y)) => FloatHolds(op, fl.eq(x, y), fl.compare(x, y))
    case (Int(x), Float(y)) => FloatHolds(op, false, fl.compareInt(x, y))
    case (Float(x), Int(y)) => FloatHolds(op, false, fl.compareToInt(x, y))
    case (Null, Null) => op == Eq
    case _ => op == Ne
  }

  lemma LiteralsCompare(fl: Floats, op: Operator, a: Literal, b: Literal, f: Fact)
    ensures EvalFilter(fl, BinOp(op, Lit(a), Lit(b)), f) <==> Holds(fl, op, a, b)
  {
    if a.Str? && b.Str? {
      CompareStrIs(a.s, b.s);
    }
  }

  /** A comparison holds exactly when both operands stand for literals that the operator relates. */
  lemma ComparisonMeaning(fl: Floats, op: Operator, left: Expr, right: Expr, f: Fact)
    ensures EvalFilter(fl, BinOp(op, left, right), f)
       <==> exists a, b :: Denotes(left, f, a) && Denotes(right, f, b) && Holds(fl, op, a, b)
  {
    ResolveDenotes(left, f);
    ResolveDenotes(right, f);
    var a, b := Resolve(left, f), Resolve(right, f);
    if a.Some? && b.Some? {
      LiteralsCompare(fl, op, a.value, b.value, f);
      assert Denotes(left, f, a.value) && Denotes(right, f, b.value);
    }
  }

  /** An integer value against an integer by magnitude; a value of another kind only differs. */
  predicate IntegerValueHolds(fl: Floats, op: Operator, v: Value, n: i64) {
    match v
    case Int(m) => IntHolds(op, m, n)
    case Float(x) => FloatHolds(op, false, fl.compareToInt(x, n))
    case Str(_) => op == Ne
    case Bool(_) => op == Ne
    case _ => false
  }

  /** A fact's value against an integer literal. */
  lemma ValueAgainstInteger(fl: Floats, op: Operator, n: i64, f: Fact)
    ensures EvalFilter(fl, BinOp(op, Column("value"), Lit(Literal.Int(n))), f)
       <==> IntegerValueHolds(fl, op, f.value, n)
  {
    ValueAgainst(fl, op, Literal.Int(n), f);
  }

  /** A text value against a text by the first differing character; a value of another kind only differs. */
  ghost predicate TextValueHolds(op: Operator, v: Value, s: string) {
    match v
    case Str(t) => TextHolds(op, t, s)
    case Json(_) => false
    case Null => false
    case _ => op == Ne
  }

  lemma ValueAgainstText(fl: Floats, op: Operator, s: string, f: Fact)
    ensures EvalFilter(fl, BinOp(op, Column("value"), Lit(Literal.Str(s))), f) <==> TextValueHolds(op, f.value, s)
  {
    ValueAgainst(fl, op, Literal.Str(s), f);
    if f.value.Str? {
      assert IsValue(f.value, Literal.Str(f.value.s));
    }
  }

  predicate BoolValueHolds(op: Operator, v: Value, b: bool) {
    match v
    case Bool(c) => BoolHolds(op, c, b)
    case Json(_) => false
    case Null => false
    case _ => op == Ne
  }

  lemma ValueAgainstBool(fl: Floats, op: Operator, b: bool, f: Fact)
    ensures EvalFilter(fl, BinOp(op, Column("value"), Lit(Literal.Bool(b))), f) <==> BoolValueHolds(op, f.value, b)
  {
    ValueAgainst(fl, op, Literal.Bool(b), f);
  }

  lemma ValueAgainst(fl: Floats, op: Operator, l: Literal, f: Fact)
    ensures EvalFilter(fl, BinOp(op, Column("value"), Lit(l)), f)
       <==> exists a :: IsValue(f.value, a) && Holds(fl, op, a, l)
  {
    ComparisonMeaning(fl, op, Column("value"), Lit(l), f);
    if EvalFilter(fl, BinOp(op, Column("value"), Lit(l)), f) {
      var a, b :| Denotes(Column("value"), f, a) && Denotes(Lit(l), f, b) && Holds(fl, op, a, b);
      assert IsValue(f.value, a);
    } else {
      forall a | IsValue(f.value, a) ensures !Holds(fl, op, a, l) {
        assert Denotes(Column("value"), f, a) && Denotes(Lit(l), f, l);
      }
    }
  }

  /** The other columns are the texts of the fields of their names. */
  lemma TextColumns(fl: Floats, op: Operator, s: string, f: Fact)
    ensures EvalFilter(fl, BinOp(op, Column("entity"), Lit(Literal.Str(s))), f) <==> TextHolds(op, f.entity, s)
    ensures EvalFilter(fl, BinOp(op, Column("attr"), Lit(Literal.Str(s))), f) <==> TextHolds(op, f.attr, s)
    ensures EvalFilter(fl, BinOp(op, Column("branch"), Lit(Literal.Str(s))), f) <==> TextHolds(op, f.branch, s)
    ensures EvalFilter(fl, BinOp(op, Column("namespace"), Lit(Literal.Str(s))), f) <==> TextHolds(op, f.namespace, s)
    ensures EvalFilter(fl, BinOp(op, Column("author"), Lit(Literal.Str(s))), f)
       <==> f.author.Some? && TextHolds(op, f.author.value, s)
  {
    TextColumn(fl, op, "entity", f.entity, s, f);
    TextColumn(fl, op, "attr", f.attr, s, f);
    TextColumn(fl, op, "branch", f.branch, s, f);
    TextColumn(fl, op, "namespace", f.namespace, s, f);
    if f.author.Some? {
      TextColumn(fl, op, "author", f.author.value, s, f);
    } else {
      NoValueFailsComparisons(fl, op, "author", Lit(Literal.Str(s)), f);
    }
  }

  lemma TextColumn(fl: Floats, op: Operator, column: string, t: string, s: string, f: Fact)
    requires Denotes(Column(column), f, Literal.Str(t))
    ensures EvalFilter(fl, BinOp(op, Column(column), Lit(Literal.Str(s))), f) <==> TextHolds(op, t, s)
  {
    ResolveDenotes(Column(column), f);
    LiteralsCompare(fl, op, Literal.Str(t), Literal.Str(s), f);
  }

  // ---- laws of comparisons -----------------------------------------------------------------

  /** Values of one kind other than floats. */
  predicate Comparable(a: Literal, b: Literal) {
    (a.Int? && b.Int?) || (a.Str? && b.Str?) || (a.Bool? && b.Bool?)
  }

  lemma DenotedCompare(fl: Floats, op: Operator, left: Expr, right: Expr, f: Fact, a: Literal, b: Literal)
    requires Denotes(left, f, a) && Denotes(right, f, b)
    ensures EvalFilter(fl, BinOp(op, left, right), f) <==> Holds(fl, op, a, b)
  {
    ResolveDenotes(left, f);
    ResolveDenotes(right, f);
    LiteralsCompare(fl, op, a, b, f);
  }

  /** Exactly one of `<`, `=` and `>` holds, and the other operators follow from these. */
  ghost predicate OneOfThree(holds: Operator -> bool) {
    && (holds(Lt) || holds(Eq) || holds(Gt))
    && !(holds(Lt) && holds(Eq)) && !(holds(Eq) && holds(Gt)) && !(holds(Lt) && holds(Gt))
    && (holds(Le) <==> !holds(Gt)) && (holds(Ge) <==> !holds(Lt)) && (holds(Ne) <==> !holds(Eq))
  }

  lemma ComparableTrichotomy(fl: Floats, holds: Operator -> bool, a: Literal, b: Literal)
    requires Comparable(a, b) && forall op :: holds(op) <==> Holds(fl, op, a, b)
    ensures OneOfThree(holds)
  {
    if a.Str? {
      CompareStrIs(a.s, b.s);
    }
  }

  /** Exactly one of `<`, `=` and `>` holds of comparable operands. */
  lemma Trichotomy(fl: Floats, left: Expr, right: Expr, f: Fact, a: Literal, b: Literal)
    requires Denotes(left, f, a) && Denotes(right, f, b) && Comparable(a, b)
    ensures OneOfThree(op => EvalFilter(fl, BinOp(op, left, right), f))
  {
    var holds := op => EvalFilter(fl, BinOp(op, left, right), f);
    forall op ensures holds(op) <==> Holds(fl, op, a, b) {
      DenotedCompare(fl, op, left, right, f, a, b);
    }
    ComparableTrichotomy(fl, holds, a, b);
  }

  function Exchanged(op: Operator): Operator {
    match op
    case Lt => Gt
    case Le => Ge
    case Gt => Lt
    case Ge => Le
    case _ => op
  }

  function ReverseOrder(o: Option<Ordering>): Option<Ordering> {
    match o
    case Some(Less) => Some(Greater)
    case Some(Greater) => Some(Less)
    case _ => o
  }

  /** Comparing floats the other way round gives the opposite. */
  ghost predicate FloatsExchange(fl: Floats) {
    && (forall x, y :: fl.eq(x, y) == fl.eq(y, x))
    && (forall x, y :: fl.compare(y, x) == ReverseOrder(fl.compare(x, y)))
    && (forall n, x :: fl.compareToInt(x, n) == ReverseOrder(fl.compareInt(n, x)))
  }

  lemma LiteralsExchange(fl: Floats, op: Operator, a: Literal, b: Literal)
    requires FloatsExchange(fl)
    ensures Holds(fl, op, a, b) <==> Holds(fl, Exchanged(op), b, a)
  {
  }

  /** With its operands exchanged, a comparison holds with the operator turned round. */
  lemma OperandsExchange(fl: Floats, op: Operator, left: Expr, right: Expr, f: Fact)
    requires FloatsExchange(fl)
    ensures EvalFilter(fl, BinOp(op, left, right), f) <==> EvalFilter(fl, BinOp(Exchanged(op), right, left), f)
  {
    ResolveDenotes(left, f);
    ResolveDenotes(right, f);
    var a, b := Resolve(left, f), Resolve(right, f);
    if a.Some? && b.Some? {
      LiteralsExchange(fl, op, a.value, b.value);
      LiteralsCompare(fl, op, a.value, b.value, f);
      LiteralsCompare(fl, Exchanged(op), b.value, a.value, f);
    }
  }

  // ---- columns without a value, lists, patterns, connectives ---------------------------------

  /** A column without a value fails every comparison, on either side. */
  lemma NoValueFailsComparisons(fl: Floats, op: Operator, column: string, e: Expr, f: Fact)
    requires HasNoValue(column, f)
    ensures !EvalFilter(fl, BinOp(op, Column(column), e), f) && !EvalFilter(fl, BinOp(op, e, Column(column)), f)
  {
    HasNoValueIs(column, f);
  }

  /** IS NULL selects exactly the facts whose column has no value, IS NOT NULL exactly the others. */
  lemma IsNullMeaning(fl: Floats, column: string, f: Fact)
    ensures EvalFilter(fl, IsNull(Column(column)), f) <==> HasNoValue(column, f)
    ensures EvalFilter(fl, IsNotNull(Column(column)), f) <==> !HasNoValue(column, f)
    ensures HasNoValue(column, f)
       <==> forall op: Operator, l: Literal :: !EvalFilter(fl, BinOp(op, Column(column), Lit(l)), f)
  {
    HasNoValueIs(column, f);
    if !HasNoValue(column, f) {
      var l := ColToLit(column, f).value;
      assert EvalFilter(fl, BinOp(Ne, Column(column), Lit(Literal.Null)), f);
    }
  }

  /** IN is the disjunction of the equalities with its members. */
  lemma InMeaning(fl: Floats, column: string, values: seq<Literal>, f: Fact)
    ensures EvalFilter(fl, In(Column(column), values), f)
       <==> exists v | v in values :: EvalFilter(fl, BinOp(Eq, Column(column), Lit(v)), f)
  {
    if EvalFilter(fl, In(Column(column), values), f) {
      var v :| v in values && LitEq(fl, ColToLit(column, f).value, v);
      assert EvalFilter(fl, BinOp(Eq, Column(column), Lit(v)), f);
    }
  }

  /** LIKE matches the text of the column, or the empty text if it has none, with the pattern. */
  lemma LikeMeaning(fl: Floats, column: string, pattern: string, f: Fact)
    ensures (forall s :: Denotes(Column(column), f, Literal.Str(s)) ==>
               (EvalFilter(fl, PqlAst.Like(Column(column), pattern), f) <==> Wild(s, pattern)))
    ensures (forall s :: !Denotes(Column(column), f, Literal.Str(s))) ==>
              (EvalFilter(fl, PqlAst.Like(Column(column), pattern), f) <==> Wild("", pattern))
  {
    ResolveDenotes(Column(column), f);
  }

  /** The connectives are those of logic; a name or a literal alone lets every fact pass. */
  lemma ConnectivesMean(fl: Floats, a: Expr, b: Expr, f: Fact)
    ensures EvalFilter(fl, And(a, b), f) <==> EvalFilter(fl, a, f) && EvalFilter(fl, b, f)
    ensures EvalFilter(fl, Or(a, b), f) <==> EvalFilter(fl, Not(And(Not(a), Not(b))), f)
    ensures EvalFilter(fl, Not(a), f) <==> !EvalFilter(fl, a, f)
    ensures a.Column? || a.Lit? ==> EvalFilter(fl, a, f)
  {
    assert EvalFilter(fl, And(Not(a), Not(b)), f) <==> EvalFilter(fl, Not(a), f) && EvalFilter(fl, Not(b), f);
  }

  /** Only a column can be tested for a value, for membership or against a pattern. */
  lemma OnlyColumnsAreTested(fl: Floats, e: Expr, values: seq<Literal>, pattern: string, f: Fact)
    requires !e.Column?
    ensures !EvalFilter(fl, IsNull(e), f) && EvalFilter(fl, IsNotNull(e), f)
    ensures !EvalFilter(fl, In(e, values), f) && !EvalFilter(fl, PqlAst.Like(e, pattern), f)
    ensures !e.Lit? ==> forall op, d :: !EvalFilter(fl, BinOp(op, e, d), f) && !EvalFilter(fl, BinOp(op, d, e), f)
  {
  }

  // ---- rows --------------------------------------------------------------------------------

  /** A fact that a query can have among its rows, on its fields. */
  predicate IsRow(fl: Floats, q: Query, branch: string, f: Fact) {
    && f.namespace == q.namespace && f.branch == branch && !f.retracted
    && (q.asof.Some? ==> f.txTime <= q.asof.value)
    && (q.effectiveAt.Some? ==> ValidAt(f, q.effectiveAt.value))
    && (q.filter.Some? ==> EvalFilter(fl, q.filter.value, f))
  }

  /** The facts a query ranges over are the live ones of its branch that its AS OF and EFFECTIVE AT let through. */
  lemma VisibleSelects(q: Query, branch: string, facts: seq<Fact>)
    ensures forall f :: f in Visible(q, branch, facts) <==>
              && f in facts && f.namespace == q.namespace && f.branch == branch && !f.retracted
              && (q.asof.Some? ==> f.txTime <= q.asof.value)
              && (q.effectiveAt.Some? ==> ValidAt(f, q.effectiveAt.value))
  {
    ScanLists(facts, ScanQuery(q.namespace, branch, None, None, q.asof, q.effectiveAt, false, None, None));
  }

  /** Filtering and sorting without a page keep exactly what passes. */
  lemma KeepsWhatPasses(leq: (Fact, Fact) -> bool, p: Fact -> bool, xs: seq<Fact>)
    ensures forall f :: f in Page(Sort(leq, Filter(p, xs)), None, None) <==> f in xs && p(f)
  {
    var kept := Sort(leq, Filter(p, xs));
    assert Page(kept, None, None) == kept;
  }

  lemma AnswerSelects(fl: Floats, q: Query, branch: string, facts: seq<Fact>)
    requires q.limit == None && q.offset == None
    ensures forall f :: f in Answer(fl, q, branch, facts) <==> f in facts && IsRow(fl, q, branch, f)
  {
    VisibleSelects(q, branch, facts);
    KeepsWhatPasses(LexLeq(q.orderBy), Passing(fl, q.filter), Visible(q, branch, facts));
    forall f ensures f in Answer(fl, q, branch, facts) <==> f in facts && IsRow(fl, q, branch, f) {
      assert Passing(fl, q.filter)(f) <==> q.filter.None? || EvalFilter(fl, q.filter.value, f);
    }
  }

  /** A query without a page has as rows exactly the facts that pass, each as often as it is stored. */
  lemma RowsAreExactly(fl: Floats, q: Query, branch: string, facts: seq<Fact>)
    requires q.limit == None && q.offset == None
    ensures forall f :: f in RunQuery(fl, q, branch, facts) <==> f in facts && IsRow(fl, q, branch, f)
  {
    SafePushdown(fl, q, branch, facts);
    AnswerSelects(fl, q, branch, facts);
  }

  /** A fact valid from `a` until before `b` is among the rows of EFFECTIVE AT at exactly the instants in between. */
  lemma ValidityShowsExactly(fl: Floats, q: Query, branch: string, facts: seq<Fact>, f: Fact, at: int)
    requires q.limit == None && q.offset == None && q.effectiveAt == Some(at)
    requires f in facts && IsRow(fl, q.(effectiveAt := None), branch, f)
    ensures f in RunQuery(fl, q, branch, facts)
       <==> f.validFrom <= at && (f.validTo == None || at < f.validTo.value)
  {
    RowsAreExactly(fl, q, branch, facts);
  }

  // ---- order -------------------------------------------------------------------------------

  /** The first fact is below the second in the column: an earlier time, or a text that comes before. */
  ghost predicate ColumnBelow(column: string, a: Fact, b: Fact) {
    || (column == "tx_time" && a.txTime < b.txTime)
    || (column == "valid_from" && a.validFrom < b.validFrom)
    || (column == "entity" && Before(a.entity, b.entity))
    || (column == "attr" && Before(a.attr, b.attr))
  }

  /** The key puts the first fact before the second. */
  ghost predicate KeyBefore(ob: OrderBy, a: Fact, b: Fact) {
    if ob.direction == Asc then ColumnBelow(ob.column, a, b) else ColumnBelow(ob.column, b, a)
  }

  ghost predicate KeyTies(ob: OrderBy, a: Fact, b: Fact) {
    !KeyBefore(ob, a, b) && !KeyBefore(ob, b, a)
  }

  /** Some key puts the first fact before the second, and no key before it tells them apart. */
  ghost predicate ComesBefore(keys: seq<OrderBy>, a: Fact, b: Fact) {
    exists k :: 0 <= k < |keys| && KeyBefore(keys[k], a, b) && forall i :: 0 <= i < k ==> KeyTies(keys[i], a, b)
  }

  lemma ColumnCompared(column: string, a: Fact, b: Fact)
    ensures CompareCol(column, a, b) == Less <==> ColumnBelow(column, a, b)
    ensures CompareCol(column, a, b) == Greater <==> ColumnBelow(column, b, a)
  {
    CompareStrIs(a.entity, b.entity);
    CompareStrIs(a.attr, b.attr);
  }

  lemma KeyCompared(ob: OrderBy, a: Fact, b: Fact)
    ensures KeyLeq(ob)(a, b) <==> !KeyBefore(ob, b, a)
  {
    ColumnCompared(ob.column, a, b);
  }

  lemma ComesBeforeLater(keys: seq<OrderBy>, a: Fact, b: Fact)
    requires keys != [] && KeyTies(keys[0], a, b)
    ensures ComesBefore(keys, a, b) <==> ComesBefore(keys[1..], a, b)
  {
    var rest := keys[1..];
    if ComesBefore(keys, a, b) {
      var k :| 0 <= k < |keys| && KeyBefore(keys[k], a, b) && forall i :: 0 <= i < k ==> KeyTies(keys[i], a, b);
      assert rest[k - 1] == keys[k] && forall i :: 0 <= i < k - 1 ==> rest[i] == keys[i + 1];
    }
    if ComesBefore(rest, a, b) {
      var k :| 0 <= k < |rest| && KeyBefore(rest[k], a, b) && forall i :: 0 <= i < k ==> KeyTies(rest[i], a, b);
      assert keys[k + 1] == rest[k] && forall i :: 0 < i < k + 1 ==> keys[i] == rest[i - 1];
    }
  }

  lemma {:induction false} LexCompared(keys: seq<OrderBy>, a: Fact, b: Fact)
    ensures LexLeq(keys)(a, b) <==> !ComesBefore(keys, b, a)
  {
    if keys != [] {
      KeyCompared(keys[0], a, b);
      KeyCompared(keys[0], b, a);
      if KeyTies(keys[0], a, b) {
        LexCompared(keys[1..], a, b);
        ComesBeforeLater(keys, b, a);
      } else if KeyBefore(keys[0], b, a) {
        assert ComesBefore(keys, b, a);
      }
    }
  }

  /** The order of rows: by the keys, and newest first where no key decides. */
  ghost predicate InOrder(keys: seq<OrderBy>, a: Fact, b: Fact) {
    !ComesBefore(keys, b, a) && (!ComesBefore(keys, a, b) ==> a.txTime >= b.txTime)
  }

  lemma {:induction false} FilterOfSorted(p: Fact -> bool, xs: seq<Fact>)
    requires Sorted(NewestFirst, xs)
    ensures Sorted(NewestFirst, Filter(p, xs))
  {
    NewestFirstPreorder();
    SortOfSorted(NewestFirst, xs);
    FilterSort(NewestFirst, p, xs);
    SortSorted(NewestFirst, Filter(p, xs));
  }

  /** The rows of a query come in the order of its keys, and newest first where no key decides. */
  lemma RowsAreOrdered(fl: Floats, q: Query, branch: string, facts: seq<Fact>, i: nat, j: nat)
    requires i < j < |RunQuery(fl, q, branch, facts)|
    ensures InOrder(q.orderBy, RunQuery(fl, q, branch, facts)[i], RunQuery(fl, q, branch, facts)[j])
  {
    var rows := RunQuery(fl, q, branch, facts);
    RowsAreSorted(fl, q, branch, facts);
    SortedAt(Lex(LexLeq(q.orderBy), NewestFirst), rows, i, j);
    LexCompared(q.orderBy, rows[i], rows[j]);
    LexCompared(q.orderBy, rows[j], rows[i]);
  }

  lemma RowsAreSorted(fl: Floats, q: Query, branch: string, facts: seq<Fact>)
    ensures Sorted(Lex(LexLeq(q.orderBy), NewestFirst), RunQuery(fl, q, branch, facts))
  {
    var scan := Scan(facts, ToScanQuery(q, branch));
    var kept := Filter(Passing(fl, q.filter), scan);
    NewestFirstPreorder();
    SortSorted(NewestFirst, Filter(Matching(ToScanQuery(q, branch)), facts));
    SortedPage(NewestFirst, Sort(NewestFirst, Filter(Matching(ToScanQuery(q, branch)), facts)),
               ToScanQuery(q, branch).offset, ToScanQuery(q, branch).limit);
    FilterOfSorted(Passing(fl, q.filter), scan);
    LexLeqPreorder(q.orderBy);
    SortLexSorted(LexLeq(q.orderBy), NewestFirst, kept);
    RepeatedSortsAreLexicographic(q.orderBy, kept);
    SortedPage(Lex(LexLeq(q.orderBy), NewestFirst), Sort(LexLeq(q.orderBy), kept), q.offset, q.limit);
  }

  /** The page of a query is that page of the rows it has without one. */
  lemma AnswerIsPaged(fl: Floats, q: Query, branch: string, facts: seq<Fact>)
    ensures IsPage(Answer(fl, q.(limit := None, offset := None), branch, facts), q.offset, q.limit,
                   Answer(fl, q, branch, facts))
  {
    PageRows(Answer(fl, q.(limit := None, offset := None), branch, facts), q.offset, q.limit);
  }
}
