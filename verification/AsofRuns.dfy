/** Reads at a past transaction time, over runs of the store. */
module AsofRuns {
  import opened Base
  import opened Lists
  import opened Ledger
  import opened Store
  import opened Reads
  import opened StoreRuns
  import opened AsofChanges
  import Clock
  import Hlc
  import Collect = Gc
  import Retention

  /** The operation is not a retract, and whatever it records is stamped after `at`. */
  ghost predicate After(op: Op, at: u64) {
    match op
    case RecordOp(p) => p.txTime > at
    case BulkOp(ps) => forall p :: p in ps ==> p.txTime > at
    case RetractOp(_, _) => false
    case MergeOp(_, ts) => ts > at
    case _ => true
  }

  /** No scan up to `at` that leaves retracted facts out can tell the two stores apart. */
  ghost predicate SameAt(before: State, after: State, at: u64) {
    forall q: ScanQuery | q.asofTx.Some? && q.asofTx.value <= at && !q.includeRetracted ::
      Scan(after.facts, q) == Scan(before.facts, q)
  }

  lemma AppendSameAt(s: State, more: seq<Fact>, after: State, at: u64)
    requires after.facts == s.facts + more && forall f :: f in more ==> f.txTime > at
    ensures SameAt(s, after, at)
  {
    forall q: ScanQuery | q.asofTx.Some? && q.asofTx.value <= at && !q.includeRetracted
      ensures Scan(after.facts, q) == Scan(s.facts, q)
    {
      ScanIgnores(s.facts, more, q);
    }
  }

  lemma RecordSameAt(s: State, p: RecordParams, id: FactId, at: u64)
    requires p.txTime > at
    ensures SameAt(s, Record(s, p, id).0, at)
  {
    if !IsDuplicate(s, p) {
      AppendSameAt(s, [NewFact(p, id)], Record(s, p, id).0, at);
    }
  }

  lemma {:induction false} BulkSameAt(w: World, ps: seq<RecordParams>, tx: TxId, ids: nat -> FactId, at: u64)
    requires forall p :: p in ps ==> p.txTime > at
    ensures SameAt(w.store, RecordAll(w, ps, tx, ids).store, at)
  {
    if ps != [] {
      var front, last := ps[..|ps| - 1], ps[|ps| - 1];
      BulkSameAt(w, front, tx, ids, at);
      var before := RecordAll(w, front, tx, ids);
      RecordSameAt(before.store, last.(txId := tx), ids(before.nextId), at);
    }
  }

  lemma MergeSameAt(s: State, m: MergeParams, ts: u64, tx: TxId, ids: nat -> FactId, at: u64)
    requires ts > at
    ensures SameAt(s, Store.Merge(s, m, ts, tx, ids).0, at)
  {
    if m.namespace in s.namespaces {
      var policy := s.namespaces[m.namespace].mergePolicy;
      var src, idx := LiveFacts(s, m.namespace, m.source), BranchIndex(s, m.namespace, m.target);
      var applied := Filter(Applies(policy, idx), src[..Processed(policy, idx, src)]);
      AppendSameAt(s, Copies(m, applied, ts, tx, ids), Store.Merge(s, m, ts, tx, ids).0, at);
    }
  }

  lemma GcSameAt(s: State, g: GcParams, after: State, at: u64)
    requires after.facts == Store.Gc(s, g).0.facts
    ensures SameAt(s, after, at)
  {
    forall q: ScanQuery | q.asofTx.Some? && q.asofTx.value <= at && !q.includeRetracted
      ensures Scan(after.facts, q) == Scan(s.facts, q)
    {
      Collect.LiveScansUnchanged(s, g, q);
    }
  }

  lemma BranchOpSameFacts(w: World, op: Op, ids: nat -> FactId, txs: nat -> TxId)
    requires op.CreateBranchOp? || op.DeleteBranchOp? || op.CreateNamespaceOp?
    ensures Apply(w, op, ids, txs).store.facts == w.store.facts
  {
  }

  ghost predicate StepSame(w: World, op: Op, ids: nat -> FactId, txs: nat -> TxId, at: u64) {
    SameAt(w.store, Apply(w, op, ids, txs).store, at)
  }

  lemma RecordStepSame(w: World, p: RecordParams, ids: nat -> FactId, txs: nat -> TxId, at: u64)
    requires p.txTime > at
    ensures StepSame(w, RecordOp(p), ids, txs, at)
  {
    RecordSameAt(w.store, p.(txId := txs(w.nextTx)), ids(w.nextId), at);
  }

  lemma BulkStepSame(w: World, ps: seq<RecordParams>, ids: nat -> FactId, txs: nat -> TxId, at: u64)
    requires forall p :: p in ps ==> p.txTime > at
    ensures StepSame(w, BulkOp(ps), ids, txs, at)
  {
    BulkSameAt(w.(nextTx := w.nextTx + 1), ps, txs(w.nextTx), ids, at);
    assert Apply(w, BulkOp(ps), ids, txs) == RecordAll(w.(nextTx := w.nextTx + 1), ps, txs(w.nextTx), ids);
  }

  lemma MergeStepSame(w: World, m: MergeParams, ts: u64, ids: nat -> FactId, txs: nat -> TxId, at: u64)
    requires ts > at
    ensures StepSame(w, MergeOp(m, ts), ids, txs, at)
  {
    MergeSameAt(w.store, m, ts, txs(w.nextTx), From(ids, w.nextId), at);
    assert Apply(w, MergeOp(m, ts), ids, txs).store
        == Store.Merge(w.store, m, ts, txs(w.nextTx), From(ids, w.nextId)).0;
  }

  lemma GcStepSame(w: World, g: GcParams, ids: nat -> FactId, txs: nat -> TxId, at: u64)
    ensures StepSame(w, GcOp(g), ids, txs, at)
  {
    var after := Apply(w, GcOp(g), ids, txs).store;
    assert after == Store.Gc(w.store, g).0;
    GcSameAt(w.store, g, after, at);
  }

  lemma StepSameAt(w: World, op: Op, ids: nat -> FactId, txs: nat -> TxId, at: u64)
    requires After(op, at)
    ensures StepSame(w, op, ids, txs, at)
  {
    match op
    case RecordOp(p) => RecordStepSame(w, p, ids, txs, at);
    case BulkOp(ps) => BulkStepSame(w, ps, ids, txs, at);
    case MergeOp(m, ts) => MergeStepSame(w, m, ts, ids, txs, at);
    case GcOp(g) => GcStepSame(w, g, ids, txs, at);
    case _ => BranchOpSameFacts(w, op, ids, txs);
  }

  lemma {:induction false} RunSameAt(w: World, ops: seq<Op>, ids: nat -> FactId, txs: nat -> TxId, at: u64)
    requires forall op :: op in ops ==> After(op, at)
    ensures SameAt(w.store, Run(w, ops, ids, txs).store, at)
  {
    if ops != [] {
      var front := ops[..|ops| - 1];
      RunSameAt(w, front, ids, txs, at);
      StepSameAt(Run(w, front, ids, txs), ops[|ops| - 1], ids, txs, at);
    }
  }

  /**
   * As-of reads repeat: over any run of records, bulk records, merges stamped after `at`, collections, and branch
   * and namespace operations, `asof(at)` answers the same for every key.
   */
  lemma AsofRepeats(w: World, ops: seq<Op>, ids: nat -> FactId, txs: nat -> TxId, namespace: string, branch: string,
                    entity: string, attr: string, at: u64)
    requires forall op :: op in ops ==> After(op, at)
    ensures Asof(Run(w, ops, ids, txs).store.facts, namespace, branch, entity, attr, at)
         == Asof(w.store.facts, namespace, branch, entity, attr, at)
  {
    RunSameAt(w, ops, ids, txs, at);
    assert AsofQuery(namespace, branch, entity, attr, at).asofTx == Some(at);
  }

  // ---- the shared clock --------------------------------------------------------------------

  /** The clock's word after ticking once per wall reading, unless some tick spins. */
  function TickedTo(word: u64, walls: seq<Clock.wallMs>): Option<u64> {
    if walls == [] then Some(word)
    else
      var before := TickedTo(word, walls[..|walls| - 1]);
      if before.None? then None else Clock.TickTarget(before.value, walls[|walls| - 1])
  }

  lemma {:induction false} LaterTicks(word: u64, walls: seq<Clock.wallMs>)
    requires TickedTo(word, walls).Some?
    ensures TickedTo(word, walls).value >= word && (walls != [] ==> TickedTo(word, walls).value > word)
  {
    if walls != [] {
      var front, wall := walls[..|walls| - 1], walls[|walls| - 1];
      LaterTicks(word, front);
      Clock.TickTargetOk(TickedTo(word, front).value, wall);
    }
  }

  ghost predicate TicksAfter(word: u64, t: u64) {
    exists walls: seq<Clock.wallMs> :: walls != [] && TickedTo(word, walls) == Some(t)
  }

  /** Recorded with ticks of the clock whose word was `word`; a merge is stamped by a clock of its own, anyhow. */
  ghost predicate StampedAfter(op: Op, word: u64) {
    match op
    case RecordOp(p) => TicksAfter(word, p.txTime)
    case BulkOp(ps) => forall p :: p in ps ==> TicksAfter(word, p.txTime)
    case RetractOp(_, _) => false
    case _ => true
  }

  // ---- when answers change -----------------------------------------------------------------

  /** Which operations of a run disturb the read at `at`, where they stand in the run. */
  function Disturbed(w: World, ops: seq<Op>, ids: nat -> FactId, txs: nat -> TxId, namespace: string, branch: string,
                     k: Key, at: u64): nat -> bool
  {
    (i: nat) => i < |ops| && OpDisturbs(Run(w, ops[..i], ids, txs), ops[i], ids, txs, namespace, branch, k, at)
  }

  function AnswerTo(w: World, ops: seq<Op>, ids: nat -> FactId, txs: nat -> TxId, namespace: string, branch: string,
                    k: Key, at: u64): nat -> Option<Fact>
  {
    (i: nat) =>
      if i <= |ops| then Asof(Run(w, ops[..i], ids, txs).store.facts, namespace, branch, k.0, k.1, at) else None
  }

  /** One operation of a run moves the answer exactly if it disturbs it, and up unless it is a retract. */
  lemma StepMoves(w: World, ops: seq<Op>, ids: nat -> FactId, txs: nat -> TxId, i: nat, namespace: string,
                  branch: string, k: Key, at: u64)
    requires i < |ops| && (ops[i].RetractOp? ==> Retention.Unique(Run(w, ops[..i], ids, txs).store.facts))
    ensures var answer := AnswerTo(w, ops, ids, txs, namespace, branch, k, at);
            MovedAs(answer(i), answer(i + 1), Disturbed(w, ops, ids, txs, namespace, branch, k, at)(i),
                  !ops[i].RetractOp?)
  {
    RunNext(w, ops, ids, txs, i);
    OpMoves(Run(w, ops[..i], ids, txs), ops[i], ids, txs, Run(w, ops[..i + 1], ids, txs), namespace, branch, k, at);
  }

  lemma RunNext(w: World, ops: seq<Op>, ids: nat -> FactId, txs: nat -> TxId, i: nat)
    requires i < |ops|
    ensures Run(w, ops[..i + 1], ids, txs) == Apply(Run(w, ops[..i], ids, txs), ops[i], ids, txs)
  {
    assert ops[..i + 1][..i] == ops[..i];
  }

  lemma OpMoves(before: World, op: Op, ids: nat -> FactId, txs: nat -> TxId, after: World, namespace: string,
                branch: string, k: Key, at: u64)
    requires after == Apply(before, op, ids, txs) && (op.RetractOp? ==> Retention.Unique(before.store.facts))
    ensures MovedAs(Asof(before.store.facts, namespace, branch, k.0, k.1, at),
                    Asof(after.store.facts, namespace, branch, k.0, k.1, at),
                    OpDisturbs(before, op, ids, txs, namespace, branch, k, at), !op.RetractOp?)
  {
    OpChangesAsofExactly(before, op, ids, txs, namespace, branch, k, at);
  }

  lemma {:induction false} RunSound(w: World, ops: seq<Op>, ids: nat -> FactId, txs: nat -> TxId)
    requires Injective(ids) && Injective(txs) && Sound(w, ids, txs)
    ensures Sound(Run(w, ops, ids, txs), ids, txs)
  {
    if ops != [] {
      RunSound(w, ops[..|ops| - 1], ids, txs);
      StepKeeps(Run(w, ops[..|ops| - 1], ids, txs), ops[|ops| - 1], ids, txs);
    }
  }

  /**
   * Over any run whatsoever, retracts and merges of any stamp included, an answer holds all along if and only if no
   * operation disturbs it.
   */
  lemma AsofHoldsExactly(w: World, ops: seq<Op>, ids: nat -> FactId, txs: nat -> TxId, namespace: string,
                         branch: string, k: Key, at: u64)
    requires Injective(ids) && Injective(txs) && Sound(w, ids, txs)
    ensures var answer := AnswerTo(w, ops, ids, txs, namespace, branch, k, at);
            Holds(answer, |ops|) <==> Still(Disturbed(w, ops, ids, txs, namespace, branch, k, at), |ops|)
  {
    var answer, moved := AnswerTo(w, ops, ids, txs, namespace, branch, k, at),
                         Disturbed(w, ops, ids, txs, namespace, branch, k, at);
    forall i: nat | i < |ops| ensures answer(i + 1) != answer(i) <==> moved(i) {
      RunSound(w, ops[..i], ids, txs);
      StepMoves(w, ops, ids, txs, i, namespace, branch, k, at);
    }
    HoldsIfStill(answer, moved, |ops|);
  }

  /** Without retracts an answer once disturbed never comes back, so it is enough to ask again at the end. */
  lemma AsofRepeatsExactly(w: World, ops: seq<Op>, ids: nat -> FactId, txs: nat -> TxId, namespace: string,
                           branch: string, k: Key, at: u64)
    requires forall op :: op in ops ==> !op.RetractOp?
    ensures Asof(Run(w, ops, ids, txs).store.facts, namespace, branch, k.0, k.1, at)
         == Asof(w.store.facts, namespace, branch, k.0, k.1, at)
       <==> Still(Disturbed(w, ops, ids, txs, namespace, branch, k, at), |ops|)
  {
    var answer, moved := AnswerTo(w, ops, ids, txs, namespace, branch, k, at),
                         Disturbed(w, ops, ids, txs, namespace, branch, k, at);
    forall i: nat | i < |ops| ensures MovesAt(answer, moved, i) {
      StepMoves(w, ops, ids, txs, i, namespace, branch, k, at);
    }
    RisingAnswers(answer, moved, |ops|);
    assert ops[..|ops|] == ops && ops[..0] == [];
  }

  lemma LaterStamp(op: Op, now: u64)
    requires StampedAfter(op, now) && !op.MergeOp?
    ensures After(op, now)
  {
    forall t: u64 | TicksAfter(now, t) ensures t > now {
      var walls :| walls != [] && TickedTo(now, walls) == Some(t);
      LaterTicks(now, walls);
    }
  }

  /** What is stamped later does not disturb. */
  lemma LaterDoesNot(w: World, op: Op, ids: nat -> FactId, txs: nat -> TxId, namespace: string, branch: string,
                     k: Key, at: u64)
    requires After(op, at)
    ensures !OpDisturbs(w, op, ids, txs, namespace, branch, k, at)
  {
    StepSameAt(w, op, ids, txs, at);
    OpChangesAsofExactly(w, op, ids, txs, namespace, branch, k, at);
    assert AsofQuery(namespace, branch, k.0, k.1, at).asofTx == Some(at);
  }

  /**
   * With one shared clock for records, only a merge can disturb a read at its present word: the read repeats over a
   * run if and only if no merge of the run writes the key no later than that word, over an answer older than the
   * merge.
   */
  lemma AsofNowRepeatsExactly(w: World, ops: seq<Op>, ids: nat -> FactId, txs: nat -> TxId, namespace: string,
                              branch: string, k: Key, now: u64)
    requires forall op :: op in ops ==> StampedAfter(op, now)
    ensures var moved := Disturbed(w, ops, ids, txs, namespace, branch, k, now);
            && ((Asof(Run(w, ops, ids, txs).store.facts, namespace, branch, k.0, k.1, now)
                 == Asof(w.store.facts, namespace, branch, k.0, k.1, now)) <==> Still(moved, |ops|))
            && (forall i: nat :: i < |ops| && moved(i) ==> ops[i].MergeOp?)
  {
    var moved := Disturbed(w, ops, ids, txs, namespace, branch, k, now);
    AsofRepeatsExactly(w, ops, ids, txs, namespace, branch, k, now);
    forall i: nat | i < |ops| && moved(i) ensures ops[i].MergeOp? {
      if !ops[i].MergeOp? {
        LaterStamp(ops[i], now);
        LaterDoesNot(Run(w, ops[..i], ids, txs), ops[i], ids, txs, namespace, branch, k, now);
      }
    }
  }

  /**
   * A merge ticks a clock it has just made, from the reading `born`, at the reading `wall`. Its stamp is later than
   * the shared clock's word exactly under this condition; two shared ticks within the merge's millisecond break it.
   */
  lemma MergeStampIsLaterExactly(word: u64, born: Clock.wallMs, wall: Clock.wallMs)
    ensures var stamp := Clock.TickTarget(Hlc.FromParts(born, 0), wall);
            && stamp.Some?
            && (stamp.value > word <==>
                if wall > born then word < Hlc.FromParts(wall, 0) else word <= Hlc.FromParts(born, 0))
  {
    Hlc.FromPartsFits(born, 0);
    Hlc.FromPartsFits(born, 1);
    Hlc.FromPartsFits(wall, 0);
  }
}
