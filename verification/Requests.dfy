/** A query request from its text to its rows, against a store that keeps changing. */
module Requests {
  import opened Base
  import opened Ledger
  import opened StoreRuns
  import opened MemoryStore
  import opened PqlAst
  import opened PqlEval
  import opened PqlMeaning
  import opened Pql
  import opened PqlText
  import AsofRuns

  /** The rows of a query's text, or why it is not a query. */
  function Rows(fl: Floats, readTime: string -> Option<int>, text: string, branch: string, facts: seq<Fact>):
    Result<seq<Fact>, QueryError>
  {
    match ParseText(readTime, text)
    case Err(e) => Err(e)
    case Ok(q) => Ok(RunQuery(fl, q, branch, facts))
  }

  /** Parses the text, scans the store with what can be pushed down, and evaluates the rest. */
  method RunRequest(fl: Floats, readTime: string -> Option<int>, text: string, branch: string, store: MemoryStore)
    returns (r: Result<seq<Fact>, QueryError>)
    ensures r == Rows(fl, readTime, text, branch, store.facts)
  {
    var query := Parse(readTime, text);
    if query.Err? {
      return Err(query.error);
    }
    var facts := store.Scan(ToScanQuery(query.value, branch));
    var rows := Eval(fl, query.value, facts);
    return Ok(rows);
  }

  /**
   * From text to rows: however a query is spaced and its keywords cased, the rows of its text are what the query says
   * (filter the visible facts, order by all keys, take the page) on every store, exactly if LIMIT and OFFSET can be
   * pushed down safely.
   */
  lemma WrittenQueriesAnswerExactly(fl: Floats, q: Query, readTime: string -> Option<int>, showTime: int -> string,
                                    layouts: seq<Layout>, branch: string)
    requires ReadableQuery(q, readTime, showTime) && LaidOut(TextTokens(q, readTime, showTime), layouts)
    ensures var text := WriteAll(TextTokens(q, readTime, showTime), layouts);
            (forall facts :: Rows(fl, readTime, text, branch, facts) == Ok(Answer(fl, q, branch, facts)))
            <==> PushdownIsSafe(q)
  {
    WrittenQueryParses(q, readTime, showTime, layouts);
    PushdownPreservesMeaningExactly(fl, q, branch);
    var text := WriteAll(TextTokens(q, readTime, showTime), layouts);
    forall facts ensures Rows(fl, readTime, text, branch, facts) == Ok(RunQuery(fl, q, branch, facts)) {
    }
    if !PushdownIsSafe(q) {
      var facts :| RunQuery(fl, q, branch, facts) != Answer(fl, q, branch, facts);
      assert Rows(fl, readTime, text, branch, facts) != Ok(Answer(fl, q, branch, facts));
    }
  }

  /**
   * The rows of a written query without LIMIT and OFFSET are exactly the live facts of the branch that its AS OF, its
   * EFFECTIVE AT and its WHERE let through, in the order of its keys.
   */
  lemma WrittenQueriesSelect(fl: Floats, q: Query, readTime: string -> Option<int>, showTime: int -> string,
                             layouts: seq<Layout>, branch: string, facts: seq<Fact>)
    requires ReadableQuery(q, readTime, showTime) && LaidOut(TextTokens(q, readTime, showTime), layouts)
    requires q.limit == None && q.offset == None
    ensures var r := Rows(fl, readTime, WriteAll(TextTokens(q, readTime, showTime), layouts), branch, facts);
            && r.Ok?
            && (forall f :: f in r.value <==> f in facts && IsRow(fl, q, branch, f))
            && (forall i, j :: 0 <= i < j < |r.value| ==> InOrder(q.orderBy, r.value[i], r.value[j]))
  {
    WrittenQueryParses(q, readTime, showTime, layouts);
    RowsAreExactly(fl, q, branch, facts);
    var rows := RunQuery(fl, q, branch, facts);
    forall i, j | 0 <= i < j < |rows| ensures InOrder(q.orderBy, rows[i], rows[j]) {
      RowsAreOrdered(fl, q, branch, facts, i, j);
    }
  }

  /** A query AS OF a past time has the same rows after any run of later operations other than retracts. */
  lemma PastQueriesRepeat(fl: Floats, q: Query, branch: string, w: World, ops: seq<Op>, ids: nat -> FactId,
                          txs: nat -> TxId, at: u64)
    requires q.asof.Some? && q.asof.value <= at && forall op :: op in ops ==> AsofRuns.After(op, at)
    ensures RunQuery(fl, q, branch, Run(w, ops, ids, txs).store.facts) == RunQuery(fl, q, branch, w.store.facts)
  {
    AsofRuns.RunSameAt(w, ops, ids, txs, at);
    var scan := ToScanQuery(q, branch);
    assert scan.asofTx == q.asof && !scan.includeRetracted;
  }
}
