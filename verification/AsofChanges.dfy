/** What each operation does to a read at a transaction time: when it changes the answer, exactly. */
module AsofChanges {
  import opened Base
  import opened Lists
  import opened Ledger
  import opened Store
  import opened Reads
  import opened StoreRuns
  import Collect = Gc
  import Merge
  import Retention

  // ---- records -----------------------------------------------------------------------------

  /** The record writes the key no later than `at`, is no duplicate, and overtakes the answer there is. */
  predicate RecordDisturbs(s: State, p: RecordParams, namespace: string, branch: string, k: Key, at: u64) {
    && !IsDuplicate(s, p)
    && p.namespace == namespace && p.branch == branch && (p.entity, p.attr) == k && p.txTime <= at
    && Overtakes(p.txTime, Asof(s.facts, namespace, branch, k.0, k.1, at))
  }

  lemma AppendedAnswer(facts: seq<Fact>, f: Fact, namespace: string, branch: string, k: Key, at: u64)
    ensures var was := Asof(facts, namespace, branch, k.0, k.1, at);
            var now := Asof(facts + [f], namespace, branch, k.0, k.1, at);
            now == if Matches(AsofQuery(namespace, branch, k.0, k.1, at), f) && Overtakes(f.txTime, was) then Some(f)
                   else was
  {
    var q := AsofQuery(namespace, branch, k.0, k.1, at);
    ScanOne(facts, q);
    ScanOne(facts + [f], q);
    NewestMatchWith(Matching(q), facts, f);
  }

  lemma NewAnswer(s: State, p: RecordParams, id: FactId, namespace: string, branch: string, k: Key, at: u64)
    requires !IsDuplicate(s, p)
    ensures Matches(AsofQuery(namespace, branch, k.0, k.1, at), NewFact(p, id))
            && Overtakes(p.txTime, Asof(s.facts, namespace, branch, k.0, k.1, at))
       <==> RecordDisturbs(s, p, namespace, branch, k, at)
  {
  }

  /** A record, whatever its time, changes a read exactly if it disturbs it; the answer is then its fact. */
  lemma RecordChangesAsofExactly(s: State, p: RecordParams, id: FactId, namespace: string, branch: string, k: Key,
                                 at: u64)
    ensures Asof(Record(s, p, id).0.facts, namespace, branch, k.0, k.1, at)
         == if RecordDisturbs(s, p, namespace, branch, k, at) then Some(NewFact(p, id))
            else Asof(s.facts, namespace, branch, k.0, k.1, at)
    ensures RecordDisturbs(s, p, namespace, branch, k, at) ==>
              Overtakes(NewFact(p, id).txTime, Asof(s.facts, namespace, branch, k.0, k.1, at))
  {
    if !IsDuplicate(s, p) {
      AppendedAnswer(s.facts, NewFact(p, id), namespace, branch, k, at);
      NewAnswer(s, p, id, namespace, branch, k, at);
    }
  }

  // ---- bulk records ------------------------------------------------------------------------

  /** Some record of the batch disturbs the read when its turn comes. */
  predicate BulkDisturbs(w: World, ps: seq<RecordParams>, tx: TxId, ids: nat -> FactId, namespace: string,
                         branch: string, k: Key, at: u64)
    decreases |ps|
  {
    ps != []
    && (|| BulkDisturbs(w, ps[..|ps| - 1], tx, ids, namespace, branch, k, at)
        || RecordDisturbs(RecordAll(w, ps[..|ps| - 1], tx, ids).store, ps[|ps| - 1].(txId := tx), namespace, branch, k,
                          at))
  }

  lemma RisesTwice(a: Option<Fact>, b: Option<Fact>, c: Option<Fact>)
    requires Rises(a, b) && Rises(b, c)
    ensures Rises(a, c) && (c == a <==> b == a && c == b)
  {
  }

  lemma {:induction false} BulkChangesAsofExactly(w: World, ps: seq<RecordParams>, tx: TxId, ids: nat -> FactId,
                                                  namespace: string, branch: string, k: Key, at: u64)
    ensures var was := Asof(w.store.facts, namespace, branch, k.0, k.1, at);
            var now := Asof(RecordAll(w, ps, tx, ids).store.facts, namespace, branch, k.0, k.1, at);
            Rises(was, now) && (now != was <==> BulkDisturbs(w, ps, tx, ids, namespace, branch, k, at))
    decreases |ps|
  {
    if ps != [] {
      var front, last := ps[..|ps| - 1], ps[|ps| - 1].(txId := tx);
      var before := RecordAll(w, front, tx, ids);
      BulkChangesAsofExactly(w, front, tx, ids, namespace, branch, k, at);
      RecordChangesAsofExactly(before.store, last, ids(before.nextId), namespace, branch, k, at);
      RisesTwice(Asof(w.store.facts, namespace, branch, k.0, k.1, at),
                 Asof(before.store.facts, namespace, branch, k.0, k.1, at),
                 Asof(Record(before.store, last, ids(before.nextId)).0.facts, namespace, branch, k.0, k.1, at));
    }
  }

  // ---- retracts ----------------------------------------------------------------------------

  lemma {:induction false} NewestWithout(facts: seq<Fact>, id: FactId)
    requires Newest(facts).Some? && Newest(facts).value.id != id
    ensures Newest(Filter(Retention.NotIn({id}), facts)) == Newest(facts)
  {
    var front, last := facts[..|facts| - 1], facts[|facts| - 1];
    var keep := Retention.NotIn({id});
    assert facts == front + [last];
    FilterSnoc(keep, front, last);
    NewestSnoc(Filter(keep, front), last);
    if Newest(front).Some? && Newest(front).value.id != id {
      NewestWithout(front, id);
    } else {
      NewestNotAfter(front, keep);
    }
  }

  /** Leaving facts out never makes a newer fact appear. */
  lemma NewestNotAfter(facts: seq<Fact>, keep: Fact -> bool)
    ensures var kept := Newest(Filter(keep, facts));
            kept.Some? ==> Newest(facts).Some? && kept.value.txTime <= Newest(facts).value.txTime
  {
    var kept := Newest(Filter(keep, facts));
    NewestIs(facts);
    NewestIs(Filter(keep, facts));
    if kept.Some? {
      assert IsNewest(Filter(keep, facts), kept.value);
      assert kept.value in facts;
      assert IsNewest(facts, Newest(facts).value);
    }
  }

  /** The live facts that match are those that matched before, but the retracted one. */
  lemma RetractedFound(s: State, id: FactId, r: RetractParams, q: ScanQuery)
    requires Retention.Unique(s.facts) && Retract(s, id, r).Ok? && !q.includeRetracted
    ensures Filter(Matching(q), Retract(s, id, r).value.facts)
         == Filter(Retention.NotIn({id}), Filter(Matching(q), s.facts))
  {
    var after := Retract(s, id, r).value.facts;
    var i := FindRetractable(s.facts, id, r);
    Retention.RetractedDrops(s.facts, i, Retracted(s.facts[i], r));
    FilterFilter(Matching(q), Retention.IsLive, Matching(q), s.facts);
    FilterFilter(Matching(q), Retention.IsLive, Matching(q), after);
    FiltersCommute(Matching(q), Retention.NotIn({id}), Retention.AllLive(s.facts));
  }

  lemma NewestWithoutExactly(found: seq<Fact>, id: FactId)
    ensures Newest(Filter(Retention.NotIn({id}), found)) != Newest(found) <==>
            Newest(found).Some? && Newest(found).value.id == id
  {
    var left := Filter(Retention.NotIn({id}), found);
    NewestIs(found);
    NewestIs(left);
    if Newest(found).Some? && Newest(found).value.id != id {
      NewestWithout(found, id);
    } else if Newest(left).Some? {
      assert IsNewest(left, Newest(left).value);
      assert Newest(left).value in left;
    }
  }

  /**
   * A successful retract changes the answer of a past read, of whatever namespace, branch and key, exactly when that
   * answer was the retracted fact.
   */
  lemma RetractChangesAsofExactly(s: State, id: FactId, r: RetractParams, namespace: string, branch: string, k: Key,
                                  at: u64)
    requires Retention.Unique(s.facts) && Retract(s, id, r).Ok?
    ensures var was := Asof(s.facts, namespace, branch, k.0, k.1, at);
            Asof(Retract(s, id, r).value.facts, namespace, branch, k.0, k.1, at) != was <==>
            was.Some? && was.value.id == id
  {
    var q := AsofQuery(namespace, branch, k.0, k.1, at);
    RetractedFound(s, id, r, q);
    ScanOne(s.facts, q);
    ScanOne(Retract(s, id, r).value.facts, q);
    NewestWithoutExactly(Filter(Matching(q), s.facts), id);
  }

  // ---- every operation ---------------------------------------------------------------------

  /** The operation disturbs the read of the key at `at`. */
  predicate OpDisturbs(w: World, op: Op, ids: nat -> FactId, txs: nat -> TxId, namespace: string, branch: string,
                       k: Key, at: u64)
  {
    var s, tx := w.store, txs(w.nextTx);
    match op
    case RecordOp(p) => RecordDisturbs(s, p.(txId := tx), namespace, branch, k, at)
    case BulkOp(ps) => BulkDisturbs(w.(nextTx := w.nextTx + 1), ps, tx, ids, namespace, branch, k, at)
    case RetractOp(id, r) =>
      Retract(s, id, r.(txId := tx)).Ok? && IsAnswer(Asof(s.facts, namespace, branch, k.0, k.1, at), id)
    case MergeOp(m, ts) => Merge.Disturbs(s, m, ts, namespace, branch, k, at)
    case _ => false
  }

  predicate IsAnswer(answer: Option<Fact>, id: FactId) {
    answer.Some? && answer.value.id == id
  }

  /** How an operation moves an answer: exactly if it disturbs the read, and up unless it is a retract. */
  ghost predicate Moves(w: World, op: Op, ids: nat -> FactId, txs: nat -> TxId, namespace: string, branch: string,
                        k: Key, at: u64)
  {
    MovedAs(Asof(w.store.facts, namespace, branch, k.0, k.1, at),
          Asof(Apply(w, op, ids, txs).store.facts, namespace, branch, k.0, k.1, at),
          OpDisturbs(w, op, ids, txs, namespace, branch, k, at), !op.RetractOp?)
  }

  ghost predicate MovedAs(was: Option<Fact>, now: Option<Fact>, disturbed: bool, up: bool) {
    (now != was <==> disturbed) && (up ==> Rises(was, now))
  }

  lemma RecordMoves(w: World, p: RecordParams, ids: nat -> FactId, txs: nat -> TxId, namespace: string,
                    branch: string, k: Key, at: u64)
    ensures Moves(w, RecordOp(p), ids, txs, namespace, branch, k, at)
  {
    RecordChangesAsofExactly(w.store, p.(txId := txs(w.nextTx)), ids(w.nextId), namespace, branch, k, at);
  }

  lemma BulkMoves(w: World, ps: seq<RecordParams>, ids: nat -> FactId, txs: nat -> TxId, namespace: string,
                  branch: string, k: Key, at: u64)
    ensures Moves(w, BulkOp(ps), ids, txs, namespace, branch, k, at)
  {
    var begun, tx := w.(nextTx := w.nextTx + 1), txs(w.nextTx);
    var after := RecordAll(begun, ps, tx, ids);
    BulkChangesAsofExactly(begun, ps, tx, ids, namespace, branch, k, at);
    BulkApplied(w, ps, ids, txs, after, namespace, branch, k, at);
    MovesBy(w, BulkOp(ps), ids, txs, after, namespace, branch, k, at);
  }

  lemma BulkApplied(w: World, ps: seq<RecordParams>, ids: nat -> FactId, txs: nat -> TxId, after: World,
                    namespace: string, branch: string, k: Key, at: u64)
    requires after == RecordAll(w.(nextTx := w.nextTx + 1), ps, txs(w.nextTx), ids)
    ensures Apply(w, BulkOp(ps), ids, txs) == after
    ensures OpDisturbs(w, BulkOp(ps), ids, txs, namespace, branch, k, at)
         == BulkDisturbs(w.(nextTx := w.nextTx + 1), ps, txs(w.nextTx), ids, namespace, branch, k, at)
  {
  }

  lemma MovesBy(w: World, op: Op, ids: nat -> FactId, txs: nat -> TxId, after: World, namespace: string,
                branch: string, k: Key, at: u64)
    requires after == Apply(w, op, ids, txs)
    requires MovedAs(Asof(w.store.facts, namespace, branch, k.0, k.1, at),
                   Asof(after.store.facts, namespace, branch, k.0, k.1, at),
                   OpDisturbs(w, op, ids, txs, namespace, branch, k, at), !op.RetractOp?)
    ensures Moves(w, op, ids, txs, namespace, branch, k, at)
  {
  }

  lemma RetractMoves(w: World, id: FactId, r: RetractParams, ids: nat -> FactId, txs: nat -> TxId, namespace: string,
                     branch: string, k: Key, at: u64)
    requires Retention.Unique(w.store.facts)
    ensures Moves(w, RetractOp(id, r), ids, txs, namespace, branch, k, at)
  {
    var p := r.(txId := txs(w.nextTx));
    if Retract(w.store, id, p).Ok? {
      RetractChangesAsofExactly(w.store, id, p, namespace, branch, k, at);
    }
  }

  lemma MergeMoves(w: World, m: MergeParams, ts: u64, ids: nat -> FactId, txs: nat -> TxId, namespace: string,
                   branch: string, k: Key, at: u64)
    ensures Moves(w, MergeOp(m, ts), ids, txs, namespace, branch, k, at)
  {
    Merge.MergeChangesAsofExactly(w.store, m, ts, txs(w.nextTx), From(ids, w.nextId), namespace, branch, k, at);
    assert Apply(w, MergeOp(m, ts), ids, txs).store
        == Store.Merge(w.store, m, ts, txs(w.nextTx), From(ids, w.nextId)).0;
  }

  /** Collecting, and creating and deleting branches and namespaces, moves no answer. */
  lemma OtherMoves(w: World, op: Op, ids: nat -> FactId, txs: nat -> TxId, namespace: string, branch: string, k: Key,
                   at: u64)
    requires !op.RecordOp? && !op.BulkOp? && !op.RetractOp? && !op.MergeOp?
    ensures Moves(w, op, ids, txs, namespace, branch, k, at)
  {
    if op.GcOp? {
      GcKeepsAnswer(w.store, op.g, namespace, branch, k, at);
    }
    OtherAnswer(w, op, ids, txs, namespace, branch, k, at);
    MovesBy(w, op, ids, txs, Apply(w, op, ids, txs), namespace, branch, k, at);
  }

  lemma GcKeepsAnswer(s: State, g: GcParams, namespace: string, branch: string, k: Key, at: u64)
    ensures Asof(Store.Gc(s, g).0.facts, namespace, branch, k.0, k.1, at)
         == Asof(s.facts, namespace, branch, k.0, k.1, at)
  {
    Collect.LiveScansUnchanged(s, g, AsofQuery(namespace, branch, k.0, k.1, at));
  }

  lemma OtherAnswer(w: World, op: Op, ids: nat -> FactId, txs: nat -> TxId, namespace: string, branch: string, k: Key,
                    at: u64)
    requires !op.RecordOp? && !op.BulkOp? && !op.RetractOp? && !op.MergeOp?
    requires op.GcOp? ==> Asof(Store.Gc(w.store, op.g).0.facts, namespace, branch, k.0, k.1, at)
                          == Asof(w.store.facts, namespace, branch, k.0, k.1, at)
    ensures Asof(Apply(w, op, ids, txs).store.facts, namespace, branch, k.0, k.1, at)
         == Asof(w.store.facts, namespace, branch, k.0, k.1, at)
    ensures !OpDisturbs(w, op, ids, txs, namespace, branch, k, at)
  {
    OtherFacts(w, op, ids, txs);
  }

  lemma OtherFacts(w: World, op: Op, ids: nat -> FactId, txs: nat -> TxId)
    requires !op.RecordOp? && !op.BulkOp? && !op.RetractOp? && !op.MergeOp?
    ensures Apply(w, op, ids, txs).store.facts == if op.GcOp? then Store.Gc(w.store, op.g).0.facts else w.store.facts
  {
  }

  /**
   * An operation changes the answer of a read at a past or present time exactly if it disturbs it, and raises it
   * unless it is a retract.
   */
  lemma OpChangesAsofExactly(w: World, op: Op, ids: nat -> FactId, txs: nat -> TxId, namespace: string,
                             branch: string, k: Key, at: u64)
    requires op.RetractOp? ==> Retention.Unique(w.store.facts)
    ensures Moves(w, op, ids, txs, namespace, branch, k, at)
  {
    if op.RecordOp? {
      RecordMoves(w, op.p, ids, txs, namespace, branch, k, at);
    } else if op.BulkOp? {
      BulkMoves(w, op.ps, ids, txs, namespace, branch, k, at);
    } else if op.RetractOp? {
      RetractMoves(w, op.id, op.r, ids, txs, namespace, branch, k, at);
    } else if op.MergeOp? {
      MergeMoves(w, op.m, op.ts, ids, txs, namespace, branch, k, at);
    } else {
      OtherMoves(w, op, ids, txs, namespace, branch, k, at);
    }
  }

  /** A record that disturbed a read, once retracted, has the old answer back. */
  lemma RetractedAnswerComesBack(s: State, p: RecordParams, id: FactId, r: RetractParams, namespace: string,
                                 branch: string, k: Key, at: u64)
    requires RecordDisturbs(s, p, namespace, branch, k, at) && forall f :: f in s.facts ==> f.id != id
    requires Retention.Unique(Record(s, p, id).0.facts) && Retract(Record(s, p, id).0, id, r).Ok?
    ensures var was, later := s.facts, Retract(Record(s, p, id).0, id, r).value.facts;
            && Asof(Record(s, p, id).0.facts, namespace, branch, k.0, k.1, at)
               != Asof(was, namespace, branch, k.0, k.1, at)
            && Asof(later, namespace, branch, k.0, k.1, at) == Asof(was, namespace, branch, k.0, k.1, at)
  {
    var q, mid := AsofQuery(namespace, branch, k.0, k.1, at), Record(s, p, id).0;
    RecordChangesAsofExactly(s, p, id, namespace, branch, k, at);
    RetractedFound(mid, id, r, q);
    FoundWithout(Matching(q), s.facts, NewFact(p, id));
    ScanOne(s.facts, q);
    ScanOne(Retract(mid, id, r).value.facts, q);
  }

  lemma FoundWithout(q: Fact -> bool, facts: seq<Fact>, f: Fact)
    requires forall g :: g in facts ==> g.id != f.id
    ensures Filter(Retention.NotIn({f.id}), Filter(q, facts + [f])) == Filter(q, facts)
  {
    FilterSnoc(q, facts, f);
    FilterSnoc(Retention.NotIn({f.id}), Filter(q, facts), f);
    FilterAll(Retention.NotIn({f.id}), Filter(q, facts));
  }
}
