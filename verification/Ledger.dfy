/** Facts and the one read operation of the store, `scan`. */
module Ledger {
  import opened Base
  import opened Lists
  import opened StableSort

  /** Identifiers are UUIDs; only their text and their distinctness matter. */
  type FactId = string
  type TxId = string

  datatype Value = Str(s: string) | Int(n: i64) | Float(text: string) | Bool(b: bool) | Json(json: string) | Null

  /** Floating-point comparison is a parameter; nothing here depends on how floats compare. */
  datatype Floats = Floats(
    eq: (string, string) -> bool,
    compare: (string, string) -> Option<Ordering>,
    compareInt: (i64, string) -> Option<Ordering>,
    compareToInt: (string, i64) -> Option<Ordering>)

  predicate ValueEq(fl: Floats, a: Value, b: Value) {
    if a.Float? && b.Float? then fl.eq(a.text, b.text) else a == b
  }

  datatype Fact = Fact(
    id: FactId,
    namespace: string,
    entity: string,
    attr: string,
    value: Value,
    validFrom: int,
    validTo: Option<int>,
    txId: TxId,
    txTime: u64,
    branch: string,
    author: Option<string>,
    retracted: bool,
    causedBy: Option<TxId>)

  predicate FactEq(fl: Floats, a: Fact, b: Fact) {
    a.(value := Null) == b.(value := Null) && ValueEq(fl, a.value, b.value)
  }

  datatype ScanQuery = ScanQuery(
    namespace: string,
    branch: string,
    entity: Option<string>,
    attr: Option<string>,
    asofTx: Option<u64>,
    asofValid: Option<int>,
    includeRetracted: bool,
    limit: Option<nat>,
    offset: Option<nat>)

  predicate Matches(q: ScanQuery, f: Fact) {
    && f.namespace == q.namespace && f.branch == q.branch
    && (q.entity.Some? ==> q.entity.value == f.entity)
    && (q.attr.Some? ==> q.attr.value == f.attr)
    && (q.includeRetracted || !f.retracted)
    && (q.asofTx.Some? ==> f.txTime <= q.asofTx.value)
    && (q.asofValid.Some? ==>
          f.validFrom <= q.asofValid.value && (f.validTo.Some? ==> q.asofValid.value < f.validTo.value))
  }

  function Matching(q: ScanQuery): Fact -> bool {
    (f: Fact) => Matches(q, f)
  }

  predicate NewestFirst(a: Fact, b: Fact) {
    a.txTime >= b.txTime
  }

  lemma NewestFirstPreorder()
    ensures TotalPreorder(NewestFirst)
  {
  }

  /** The facts that match, newest first, insertion order among equal times, one page of them. */
  function Scan(facts: seq<Fact>, q: ScanQuery): seq<Fact> {
    Page(Sort(NewestFirst, Filter(Matching(q), facts)), q.offset, q.limit)
  }

  /** The query with every filter but namespace and branch left out: the live facts. */
  function LiveQuery(namespace: string, branch: string): ScanQuery {
    ScanQuery(namespace, branch, None, None, None, None, false, None, None)
  }
}
