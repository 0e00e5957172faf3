/** Printing syntax trees with as few parentheses as the grammar needs, and parsing them back. */
module PqlPrinter {
  import opened Base
  import opened PqlAst
  import opened PqlToken
  import opened PqlGrammar

  /** How tightly the outermost construct binds: OR 0, AND 1, NOT 2, predicates 3, atoms 4. */
  function Level(e: Expr): nat {
    match e
    case Or(_, _) => 0
    case And(_, _) => 1
    case Not(_) => 2
    case Column(_) => 4
    case Lit(_) => 4
    case _ => 3
  }

  function OperatorToken(op: Operator): (t: Token)
    ensures OperatorOf(t) == Some(op)
  {
    match op
    case Eq => Token.Eq
    case Ne => Token.Ne
    case Lt => Token.Lt
    case Le => Token.Le
    case Gt => Token.Gt
    case Ge => Token.Ge
  }

  function LiteralToken(l: Literal): (t: Token)
    ensures t != Token.Not && !t.Ident? && t != LParen
  {
    match l
    case Str(s) => Token.Str(s)
    case Int(n) => Token.Int(n)
    case Float(f) => Token.Float(f)
    case Bool(b) => if b then True else False
    case Null => Token.Null
  }

  function Cons(t: Token, ts: seq<Token>): (r: seq<Token>)
    ensures Peek(r) == t && Rest(r) == ts && |r| == |ts| + 1
  {
    [t] + ts
  }

  /** The members of a list from position `i` on, followed by `rest`. */
  function PrintLiterals(values: seq<Literal>, i: nat, rest: seq<Token>): seq<Token>
    requires i < |values|
    decreases |values| - i
  {
    Cons(LiteralToken(values[i]),
         if i == |values| - 1 then rest else Cons(Comma, PrintLiterals(values, i + 1, rest)))
  }

  /** `e`, where the grammar expects something that binds at least as tightly as `min`, followed by `rest`. */
  function PrintAt(e: Expr, min: nat, rest: seq<Token>): (ts: seq<Token>)
    requires WellFormed(e)
    decreases e, 2
  {
    if Level(e) < min then Cons(LParen, Print(e, Cons(RParen, rest))) else Print(e, rest)
  }

  function Print(e: Expr, rest: seq<Token>): (ts: seq<Token>)
    requires WellFormed(e)
    decreases e, 1
  {
    match e
    case Or(l, r) => PrintAt(l, 0, Cons(Token.Or, PrintAt(r, 1, rest)))
    case And(l, r) => PrintAt(l, 1, Cons(Token.And, PrintAt(r, 2, rest)))
    case Not(x) => Cons(Token.Not, PrintAt(x, 2, rest))
    case Column(name) => Cons(Ident(name), rest)
    case Lit(l) => Cons(LiteralToken(l), rest)
    case _ => PrintAt(Operand(e), 4, PredicateTail(e, rest))
  }

  /** The left operand of a predicate. */
  function Operand(e: Expr): (x: Expr)
    requires Level(e) == 3
    ensures x < e && (WellFormed(e) ==> WellFormed(x))
  {
    match e
    case BinOp(_, l, _) => l
    case Like(x, _) => x
    case In(x, _) => x
    case IsNull(x) => x
    case IsNotNull(x) => x
  }

  /** A printed predicate after its left operand. */
  function PredicateTail(e: Expr, rest: seq<Token>): (tail: seq<Token>)
    requires WellFormed(e) && Level(e) == 3
    decreases e, 0
  {
    match e
    case BinOp(op, _, r) => Cons(OperatorToken(op), PrintAt(r, 4, rest))
    case Like(_, pattern) => Cons(Token.Like, Cons(Token.Str(pattern), rest))
    case In(_, values) => Cons(Token.In, Cons(LParen, PrintLiterals(values, 0, Cons(RParen, rest))))
    case IsNull(_) => Cons(Is, Cons(Token.Null, rest))
    case IsNotNull(_) => Cons(Is, Cons(Token.Not, Cons(Token.Null, rest)))
  }

  /** A printed predicate or atom, and whatever is put in parentheses, does not begin with NOT. */
  lemma {:induction false} StartsWithoutNot(e: Expr, min: nat, rest: seq<Token>)
    requires WellFormed(e) && (Level(e) >= 3 || Level(e) < min)
    ensures Peek(PrintAt(e, min, rest)) != Token.Not
    decreases e
  {
    if Level(e) == 3 && Level(e) >= min {
      StartsWithoutNot(Operand(e), 4, PredicateTail(e, rest));
    }
  }

  // ---- what may follow --------------------------------------------------------------------

  predicate EndsPredicate(ts: seq<Token>) {
    var t := Peek(ts);
    OperatorOf(t).None? && t != Token.Like && t != Token.In && t != Is
  }

  predicate EndsConjunction(ts: seq<Token>) {
    EndsPredicate(ts) && Peek(ts) != Token.And
  }

  predicate EndsExpr(ts: seq<Token>) {
    EndsConjunction(ts) && Peek(ts) != Token.Or
  }

  // ---- the inverse, level by level --------------------------------------------------------

  lemma LiteralsStep(acc: seq<Literal>, v: Literal, ts: seq<Token>)
    ensures ParseLiterals(acc, Cons(LiteralToken(v), ts)) ==
            if Peek(ts) == Comma then ParseLiterals(acc + [v], Rest(ts)) else Ok((acc + [v], ts))
  {
    assert ParseLiteral(Cons(LiteralToken(v), ts)) == Ok((v, ts));
  }

  lemma {:induction false} LiteralsParse(values: seq<Literal>, i: nat, rest: seq<Token>)
    requires i < |values| && Peek(rest) != Comma
    ensures ParseLiterals(values[..i], PrintLiterals(values, i, rest)) == Ok((values, rest))
    decreases |values| - i
  {
    assert values[..i] + [values[i]] == values[..i + 1];
    if i == |values| - 1 {
      LiteralsStep(values[..i], values[i], rest);
      assert values[..i + 1] == values;
    } else {
      LiteralsStep(values[..i], values[i], Cons(Comma, PrintLiterals(values, i + 1, rest)));
      LiteralsParse(values, i + 1, rest);
    }
  }

  lemma InContinues(x: Expr, values: seq<Literal>, ts: seq<Token>, rest: seq<Token>)
    requires ParseLiterals([], ts) == Ok((values, Cons(RParen, rest)))
    ensures PredicateRest(x, Cons(Token.In, Cons(LParen, ts))) == Ok((Expr.In(x, values), rest))
  {
  }

  lemma OperatorContinues(op: Operator, l: Expr, r: Expr, ts: seq<Token>, rest: seq<Token>)
    requires ParseAtom(ts) == Ok((r, rest))
    ensures PredicateRest(l, Cons(OperatorToken(op), ts)) == Ok((BinOp(op, l, r), rest))
  {
  }

  lemma LikeContinues(x: Expr, pattern: string, rest: seq<Token>)
    ensures PredicateRest(x, Cons(Token.Like, Cons(Token.Str(pattern), rest))) == Ok((Expr.Like(x, pattern), rest))
  {
  }

  lemma IsContinues(x: Expr, rest: seq<Token>)
    ensures PredicateRest(x, Cons(Is, Cons(Token.Null, rest))) == Ok((IsNull(x), rest))
    ensures PredicateRest(x, Cons(Is, Cons(Token.Not, Cons(Token.Null, rest)))) == Ok((IsNotNull(x), rest))
  {
  }

  lemma InParses(x: Expr, values: seq<Literal>, rest: seq<Token>)
    requires values != []
    ensures PredicateRest(x, Cons(Token.In, Cons(LParen, PrintLiterals(values, 0, Cons(RParen, rest)))))
         == Ok((Expr.In(x, values), rest))
  {
    LiteralsParse(values, 0, Cons(RParen, rest));
    assert values[..0] == [];
    InContinues(x, values, PrintLiterals(values, 0, Cons(RParen, rest)), rest);
  }

  lemma PredicateContinues(x: Expr, ts: seq<Token>, tail: seq<Token>)
    requires ParseAtom(ts) == Ok((x, tail))
    ensures ParsePredicate(ts) == PredicateRest(x, tail)
    ensures EndsPredicate(tail) ==> ParsePredicate(ts) == Ok((x, tail))
  {
  }

  lemma {:induction false} AtomParses(e: Expr, rest: seq<Token>)
    requires WellFormed(e)
    ensures ParseAtom(PrintAt(e, 4, rest)) == Ok((e, rest))
    decreases e, if Level(e) < 4 then 5 else 0
  {
    if Level(e) < 4 {
      OrParses(e, Cons(RParen, rest));
      ParensContinue(e, Print(e, Cons(RParen, rest)), rest);
    }
  }

  lemma ParensContinue(e: Expr, ts: seq<Token>, rest: seq<Token>)
    requires ParseOr(ts) == Ok((e, Cons(RParen, rest)))
    ensures ParseAtom(Cons(LParen, ts)) == Ok((e, rest))
  {
  }

  lemma {:induction false} PredicateParses(e: Expr, rest: seq<Token>)
    requires WellFormed(e) && EndsPredicate(rest)
    ensures ParsePredicate(PrintAt(e, 3, rest)) == Ok((e, rest))
    decreases e, if Level(e) < 3 then 6 else 1
  {
    if Level(e) == 3 {
      var x, tail := Operand(e), PredicateTail(e, rest);
      AtomParses(x, tail);
      TailParses(e, rest);
      PredicateContinues(x, Print(e, rest), tail);
    } else {
      AtomParses(e, rest);
      PredicateContinues(e, PrintAt(e, 3, rest), rest);
    }
  }

  lemma {:induction false} TailParses(e: Expr, rest: seq<Token>)
    requires WellFormed(e) && Level(e) == 3
    ensures PredicateRest(Operand(e), PredicateTail(e, rest)) == Ok((e, rest))
    decreases e, 0
  {
    match e
    case BinOp(op, l, r) =>
      AtomParses(r, rest);
      OperatorContinues(op, l, r, PrintAt(r, 4, rest), rest);
    case Like(x, pattern) => LikeContinues(x, pattern, rest);
    case In(x, values) => InParses(x, values, rest);
    case IsNull(x) => IsContinues(x, rest);
    case IsNotNull(x) => IsContinues(x, rest);
  }

  lemma {:induction false} NotParses(e: Expr, rest: seq<Token>)
    requires WellFormed(e) && EndsPredicate(rest)
    ensures ParseNot(PrintAt(e, 2, rest)) == Ok((e, rest))
    decreases e, if Level(e) < 2 then 7 else 2
  {
    if Level(e) == 2 {
      NotParses(e.inner, rest);
    } else {
      StartsWithoutNot(e, 2, rest);
      PredicateParses(e, rest);
    }
  }

  /** Reading a printed conjunction gets as far as its tree, ready for more conjuncts. */
  lemma {:induction false} AndParses(e: Expr, rest: seq<Token>)
    requires WellFormed(e) && EndsPredicate(rest)
    ensures ParseAnd(PrintAt(e, 1, rest)) == AndRest(e, rest)
    decreases e, if Level(e) < 1 then 8 else 3
  {
    if Level(e) == 1 {
      AndParses(e.left, Cons(Token.And, PrintAt(e.right, 2, rest)));
      NotParses(e.right, rest);
    } else {
      NotParses(e, rest);
    }
  }

  lemma {:induction false} OrParses(e: Expr, rest: seq<Token>)
    requires WellFormed(e) && EndsConjunction(rest)
    ensures ParseOr(Print(e, rest)) == OrRest(e, rest)
    decreases e, 4
  {
    if Level(e) == 0 {
      OrParses(e.left, Cons(Token.Or, PrintAt(e.right, 1, rest)));
      AndParses(e.right, rest);
    } else {
      AndParses(e, rest);
    }
  }

  /** Printing then parsing gives the same tree and leaves exactly the tokens that follow. */
  lemma PrintParses(e: Expr, rest: seq<Token>)
    requires WellFormed(e) && EndsExpr(rest)
    ensures ParseOr(Print(e, rest)) == Ok((e, rest))
  {
    OrParses(e, rest);
  }

  // ---- no shorter text --------------------------------------------------------------------

  /** The number of tokens of `e` where the grammar expects something that binds at least as tightly as `min`. */
  function WidthAt(e: Expr, min: nat): nat
    decreases e, 1
  {
    if Level(e) < min then Width(e) + 2 else Width(e)
  }

  function Width(e: Expr): nat
    decreases e, 0
  {
    match e
    case Or(l, r) => WidthAt(l, 0) + 1 + WidthAt(r, 1)
    case And(l, r) => WidthAt(l, 1) + 1 + WidthAt(r, 2)
    case Not(x) => 1 + WidthAt(x, 2)
    case BinOp(_, l, r) => WidthAt(l, 4) + 1 + WidthAt(r, 4)
    case Like(x, _) => WidthAt(x, 4) + 2
    case In(x, values) => WidthAt(x, 4) + 3 + ListWidth(|values|)
    case IsNull(x) => WidthAt(x, 4) + 2
    case IsNotNull(x) => WidthAt(x, 4) + 3
    case _ => 1
  }

  /** The tokens of a list of `n` literals and the commas between them. */
  function ListWidth(n: nat): nat {
    if n == 0 then 0 else 2 * n - 1
  }

  lemma {:induction false} LiteralsWidth(values: seq<Literal>, i: nat, rest: seq<Token>)
    requires i < |values|
    ensures |PrintLiterals(values, i, rest)| == ListWidth(|values| - i) + |rest|
    decreases |values| - i
  {
    if i < |values| - 1 {
      LiteralsWidth(values, i + 1, rest);
    }
  }

  lemma {:induction false} PrintWidth(e: Expr, rest: seq<Token>)
    requires WellFormed(e)
    ensures |Print(e, rest)| == Width(e) + |rest|
    decreases e, 0
  {
    match e
    case Or(l, r) => PrintAtWidth(r, 1, rest); PrintAtWidth(l, 0, Cons(Token.Or, PrintAt(r, 1, rest)));
    case And(l, r) => PrintAtWidth(r, 2, rest); PrintAtWidth(l, 1, Cons(Token.And, PrintAt(r, 2, rest)));
    case Not(x) => PrintAtWidth(x, 2, rest);
    case BinOp(op, l, r) => PrintAtWidth(r, 4, rest); PrintAtWidth(l, 4, PredicateTail(e, rest));
    case Like(x, _) => PrintAtWidth(x, 4, PredicateTail(e, rest));
    case In(x, values) => LiteralsWidth(values, 0, Cons(RParen, rest)); PrintAtWidth(x, 4, PredicateTail(e, rest));
    case IsNull(x) => PrintAtWidth(x, 4, PredicateTail(e, rest));
    case IsNotNull(x) => PrintAtWidth(x, 4, PredicateTail(e, rest));
    case _ =>
  }

  lemma {:induction false} PrintAtWidth(e: Expr, min: nat, rest: seq<Token>)
    requires WellFormed(e)
    ensures |PrintAt(e, min, rest)| == WidthAt(e, min) + |rest|
    decreases e, 1
  {
    if Level(e) < min {
      PrintWidth(e, Cons(RParen, rest));
    } else {
      PrintWidth(e, rest);
    }
  }

  lemma {:induction false} LiteralsCost(values: seq<Literal>, ts: seq<Token>)
    requires ParseLiterals(values, ts).Ok?
    ensures var (all, rest) := ParseLiterals(values, ts).value;
            |all| > |values| && ListWidth(|all| - |values|) + |rest| <= |ts|
    decreases |ts|
  {
    var (v, rest) := ParseLiteral(ts).value;
    if Peek(rest) == Comma {
      LiteralsCost(values + [v], Rest(rest));
    }
  }

  /** What is parsed as an atom took at least the tokens it is printed with. */
  lemma {:induction false} AtomCost(ts: seq<Token>)
    requires ParseAtom(ts).Ok?
    ensures var (e, rest) := ParseAtom(ts).value; WidthAt(e, 4) + |rest| <= |ts|
    decreases |ts|, 0
  {
    if Peek(ts) == LParen {
      OrCost(Rest(ts));
    }
  }

  /** A list in parentheses takes its width and the two of them. */
  lemma ListCost(ts: seq<Token>) returns (values: seq<Literal>, rest: seq<Token>)
    requires Expect(LParen, ts).Ok? && ParseLiterals([], Rest(ts)).Ok?
    requires Expect(RParen, ParseLiterals([], Rest(ts)).value.1).Ok?
    ensures values == ParseLiterals([], Rest(ts)).value.0
    ensures rest == Expect(RParen, ParseLiterals([], Rest(ts)).value.1).value
    ensures ListWidth(|values|) + 2 + |rest| <= |ts|
  {
    LiteralsCost([], Rest(ts));
    values, rest := ParseLiterals([], Rest(ts)).value.0, Rest(ParseLiterals([], Rest(ts)).value.1);
  }

  lemma InCost(left: Expr, ts: seq<Token>)
    requires Peek(ts) == Token.In && PredicateRest(left, ts).Ok?
    ensures var (e, rest) := PredicateRest(left, ts).value; WidthAt(e, 3) + |rest| <= WidthAt(left, 4) + |ts|
  {
    var values, rest := ListCost(Rest(ts));
    assert PredicateRest(left, ts) == Ok((Expr.In(left, values), rest));
  }

  lemma LikeCost(left: Expr, ts: seq<Token>)
    requires Peek(ts) == Token.Like && PredicateRest(left, ts).Ok?
    ensures var (e, rest) := PredicateRest(left, ts).value; WidthAt(e, 3) + |rest| <= WidthAt(left, 4) + |ts|
  {
  }

  lemma IsCost(left: Expr, ts: seq<Token>)
    requires Peek(ts) == Is && PredicateRest(left, ts).Ok?
    ensures var (e, rest) := PredicateRest(left, ts).value; WidthAt(e, 3) + |rest| <= WidthAt(left, 4) + |ts|
  {
  }

  lemma {:induction false} PredicateCost(ts: seq<Token>)
    requires ParsePredicate(ts).Ok?
    ensures var (e, rest) := ParsePredicate(ts).value; WidthAt(e, 3) + |rest| <= |ts|
    decreases |ts|, 1
  {
    AtomCost(ts);
    var (left, tail) := ParseAtom(ts).value;
    if OperatorOf(Peek(tail)).Some? {
      AtomCost(Rest(tail));
    } else if Peek(tail) == Token.In {
      InCost(left, tail);
    } else if Peek(tail) == Token.Like {
      LikeCost(left, tail);
    } else if Peek(tail) == Is {
      IsCost(left, tail);
    }
  }

  lemma {:induction false} NotCost(ts: seq<Token>)
    requires ParseNot(ts).Ok?
    ensures var (e, rest) := ParseNot(ts).value; WidthAt(e, 2) + |rest| <= |ts|
    decreases |ts|, 2
  {
    if Peek(ts) == Token.Not {
      NotCost(Rest(ts));
    } else {
      PredicateCost(ts);
    }
  }

  lemma {:induction false} AndRestCost(left: Expr, ts: seq<Token>)
    requires AndRest(left, ts).Ok?
    ensures var (e, rest) := AndRest(left, ts).value; WidthAt(e, 1) + |rest| <= WidthAt(left, 1) + |ts|
    decreases |ts|, 5
  {
    if Peek(ts) == Token.And {
      NotCost(Rest(ts));
      var (right, rest) := ParseNot(Rest(ts)).value;
      AndRestCost(Expr.And(left, right), rest);
    }
  }

  lemma {:induction false} AndCost(ts: seq<Token>)
    requires ParseAnd(ts).Ok?
    ensures var (e, rest) := ParseAnd(ts).value; WidthAt(e, 1) + |rest| <= |ts|
    decreases |ts|, 3
  {
    NotCost(ts);
    var (left, rest) := ParseNot(ts).value;
    AndRestCost(left, rest);
  }

  lemma {:induction false} OrRestCost(left: Expr, ts: seq<Token>)
    requires OrRest(left, ts).Ok?
    ensures var (e, rest) := OrRest(left, ts).value; Width(e) + |rest| <= Width(left) + |ts|
    decreases |ts|, 5
  {
    if Peek(ts) == Token.Or {
      AndCost(Rest(ts));
      var (right, rest) := ParseAnd(Rest(ts)).value;
      OrRestCost(Expr.Or(left, right), rest);
    }
  }

  lemma {:induction false} OrCost(ts: seq<Token>)
    requires ParseOr(ts).Ok?
    ensures var (e, rest) := ParseOr(ts).value; Width(e) + |rest| <= |ts|
    decreases |ts|, 4
  {
    AndCost(ts);
    var (left, rest) := ParseAnd(ts).value;
    OrRestCost(left, rest);
  }

  /**
   * No tokens that parse to the tree are fewer than those printed: whatever is left out of the printed text, a pair of
   * parentheses or anything else, what remains parses to another tree or not at all.
   */
  lemma PrintIsShortest(e: Expr, ts: seq<Token>, rest: seq<Token>)
    requires ParseOr(ts) == Ok((e, rest))
    ensures |Print(e, rest)| <= |ts|
  {
    OrCost(ts);
    PrintWidth(e, rest);
  }

  /** The parser produces exactly the well-formed trees. */
  lemma ParsesExactlyWellFormed(e: Expr)
    ensures WellFormed(e) <==> exists ts :: ParseOr(ts) == Ok((e, []))
  {
    if WellFormed(e) {
      PrintParses(e, []);
    }
  }
}
