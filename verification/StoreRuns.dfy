/** Runs of store operations: what every reachable state keeps. */
module StoreRuns {
  import opened Base
  import opened Lists
  import opened Ledger
  import opened Store
  import Merge

  /** The store, and how many fact and transaction ids have been drawn from their generators. */
  datatype World = World(store: State, nextId: nat, nextTx: nat)

  datatype Op =
    | RecordOp(p: RecordParams)
    | BulkOp(ps: seq<RecordParams>)
    | RetractOp(id: FactId, r: RetractParams)
    | MergeOp(m: MergeParams, ts: u64)
    | GcOp(g: GcParams)
    | CreateBranchOp(namespace: string, name: string, forkFrom: string, forkAt: u64, now: int)
    | DeleteBranchOp(namespace: string, name: string)
    | CreateNamespaceOp(namespace: string, policy: MergePolicy, schema: Option<Schema>, now: int)

  /** An id generator never repeats itself. */
  ghost predicate Injective(g: nat -> string) {
    forall i, j :: g(i) == g(j) ==> i == j
  }

  function From(g: nat -> string, n: nat): nat -> string {
    (i: nat) => g(n + i)
  }

  /** Records all in one transaction. */
  function RecordAll(w: World, ps: seq<RecordParams>, tx: TxId, ids: nat -> FactId): World {
    if ps == [] then w
    else
      var before := RecordAll(w, ps[..|ps| - 1], tx, ids);
      World(Record(before.store, ps[|ps| - 1].(txId := tx), ids(before.nextId)).0, before.nextId + 1, before.nextTx)
  }

  function OrSame(s: State, r: Result<State, Error>): State {
    if r.Ok? then r.value else s
  }

  function Apply(w: World, op: Op, ids: nat -> FactId, txs: nat -> TxId): World {
    var s, tx := w.store, txs(w.nextTx);
    match op
    case RecordOp(p) => World(Record(s, p.(txId := tx), ids(w.nextId)).0, w.nextId + 1, w.nextTx + 1)
    case BulkOp(ps) => RecordAll(w.(nextTx := w.nextTx + 1), ps, tx, ids)
    case RetractOp(id, r) => World(OrSame(s, Retract(s, id, r.(txId := tx))), w.nextId, w.nextTx + 1)
    case MergeOp(m, ts) =>
      var after := Store.Merge(s, m, ts, tx, From(ids, w.nextId)).0;
      World(after, w.nextId + |after.facts|, w.nextTx + 1)
    case GcOp(g) => w.(store := Gc(s, g).0)
    case CreateBranchOp(ns, name, fork, at, now) => w.(store := OrSame(s, CreateBranch(s, ns, name, fork, at, now)))
    case DeleteBranchOp(ns, name) => w.(store := OrSame(s, DeleteBranch(s, ns, name)))
    case CreateNamespaceOp(ns, policy, schema, now) =>
      w.(store := OrSame(s, CreateNamespace(s, ns, policy, schema, now)))
  }

  function Run(w: World, ops: seq<Op>, ids: nat -> FactId, txs: nat -> TxId): World {
    if ops == [] then w else Apply(Run(w, ops[..|ops| - 1], ids, txs), ops[|ops| - 1], ids, txs)
  }

  function Start(now: int): World {
    World(Empty(now), 0, 0)
  }

  lemma {:induction false} RecordAllDraws(w: World, ps: seq<RecordParams>, tx: TxId, ids: nat -> FactId)
    ensures RecordAll(w, ps, tx, ids).nextId == w.nextId + |ps| && RecordAll(w, ps, tx, ids).nextTx == w.nextTx
  {
    if ps != [] {
      RecordAllDraws(w, ps[..|ps| - 1], tx, ids);
    }
  }

  /** How many ids an operation draws: one for each fact it may write, and one for its transaction. */
  lemma OpDraws(w: World, op: Op, ids: nat -> FactId, txs: nat -> TxId)
    ensures var after := Apply(w, op, ids, txs);
            && after.nextTx == w.nextTx
               + (if op.RecordOp? || op.BulkOp? || op.RetractOp? || op.MergeOp? then 1 else 0)
            && (op.RecordOp? ==> after.nextId == w.nextId + 1)
            && (op.BulkOp? ==> after.nextId == w.nextId + |op.ps|)
            && (op.MergeOp? ==> after.nextId >= w.nextId + |after.store.facts| - |w.store.facts|)
            && (!op.RecordOp? && !op.BulkOp? && !op.MergeOp? ==> after.nextId == w.nextId)
  {
    if op.BulkOp? {
      RecordAllDraws(w.(nextTx := w.nextTx + 1), op.ps, txs(w.nextTx), ids);
    }
  }

  // ---- the invariant -----------------------------------------------------------------------

  predicate Distinct(xs: seq<string>) {
    forall i, j :: 0 <= i < j < |xs| ==> xs[i] != xs[j]
  }

  function FactIdOf(f: Fact): FactId {
    f.id
  }

  function TxIdOf(t: Transaction): TxId {
    t.id
  }

  function FactIds(facts: seq<Fact>): seq<FactId> {
    Map(FactIdOf, facts)
  }

  function TxIds(txs: seq<Transaction>): seq<TxId> {
    Map(TxIdOf, txs)
  }

  /** Only ids already drawn are in use. */
  ghost predicate Drawn(g: nat -> string, n: nat, xs: seq<string>) {
    forall x :: x in xs ==> exists i: nat :: i < n && g(i) == x
  }

  ghost predicate FactsSound(w: World, ids: nat -> FactId) {
    Distinct(FactIds(w.store.facts)) && Drawn(ids, w.nextId, FactIds(w.store.facts))
  }

  ghost predicate TransactionsSound(w: World, txs: nat -> TxId) {
    Distinct(TxIds(w.store.transactions)) && Drawn(txs, w.nextTx, TxIds(w.store.transactions))
  }

  /** Every fact's transaction exists. */
  ghost predicate FactsHaveTransactions(s: State) {
    forall f :: f in s.facts ==> f.txId in TxIds(s.transactions)
  }

  /** Every namespace has its main branch, without a parent. */
  ghost predicate MainBranchesStand(s: State) {
    forall ns :: ns in s.namespaces ==> (ns, "main") in s.branches && s.branches[(ns, "main")].parent == None
  }

  ghost predicate Sound(w: World, ids: nat -> FactId, txs: nat -> TxId) {
    FactsSound(w, ids) && TransactionsSound(w, txs) && FactsHaveTransactions(w.store) && MainBranchesStand(w.store)
  }

  function TotalCount(txs: seq<Transaction>): nat {
    if txs == [] then 0 else txs[0].factCount + TotalCount(txs[1..])
  }

  predicate IsRetracted(f: Fact) {
    f.retracted
  }

  /** The transactions count every fact once, and once more when it is retracted; set heads name transactions. */
  ghost predicate Balanced(s: State) {
    && TotalCount(s.transactions) == |s.facts| + |Filter(IsRetracted, s.facts)|
    && (forall k :: k in s.branches && s.branches[k].headTx.Some? ==>
                      s.branches[k].headTx.value in TxIds(s.transactions))
  }

  // ---- one record --------------------------------------------------------------------------

  lemma {:induction false} TouchIds(txs: seq<Transaction>, p: RecordParams)
    ensures TxIds(Touch(txs, p)) == if p.txId in TxIds(txs) then TxIds(txs) else TxIds(txs) + [p.txId]
    ensures TotalCount(Touch(txs, p)) == TotalCount(txs) + 1
  {
    if txs != [] {
      assert TxIds(txs) == [txs[0].id] + TxIds(txs[1..]);
      if txs[0].id != p.txId {
        TouchIds(txs[1..], p);
        var rest := Touch(txs[1..], p);
        assert ([txs[0]] + rest)[1..] == rest;
        assert TxIds([txs[0]] + rest) == [txs[0].id] + TxIds(rest);
      } else {
        var first := txs[0].(factCount := txs[0].factCount + 1);
        assert ([first] + txs[1..])[1..] == txs[1..];
      }
    } else {
      assert Touch(txs, p)[1..] == [];
    }
  }

  lemma DistinctSnoc(xs: seq<string>, x: string)
    requires Distinct(xs) && x !in xs
    ensures Distinct(xs + [x])
  {
  }

  lemma DrawnSnoc(g: nat -> string, n: nat, m: nat, xs: seq<string>, i: nat)
    requires Drawn(g, n, xs) && n <= m && i < m
    ensures Drawn(g, m, xs + [g(i)]) && Drawn(g, m, xs)
  {
  }

  lemma NextIsFresh(g: nat -> string, n: nat, xs: seq<string>)
    requires Injective(g) && Drawn(g, n, xs)
    ensures g(n) !in xs
  {
  }

  lemma RecordKeepsFacts(w: World, p: RecordParams, ids: nat -> FactId)
    requires Injective(ids) && FactsSound(w, ids)
    ensures FactsSound(World(Record(w.store, p, ids(w.nextId)).0, w.nextId + 1, w.nextTx), ids)
  {
    var before, id := FactIds(w.store.facts), ids(w.nextId);
    NextIsFresh(ids, w.nextId, before);
    DistinctSnoc(before, id);
    DrawnSnoc(ids, w.nextId, w.nextId + 1, before, w.nextId);
    assert FactIds(w.store.facts + [NewFact(p, id)]) == before + [id];
  }

  /** Touching a transaction keeps the ids there are, and adds the one if it is new. */
  lemma TouchKeepsIds(before: seq<TxId>, after: seq<TxId>, n: nat, txs: nat -> TxId, i: nat)
    requires after == (if txs(i) in before then before else before + [txs(i)])
    requires Distinct(before) && Drawn(txs, n, before) && i < n
    ensures Distinct(after) && Drawn(txs, n, after)
    ensures txs(i) in after && forall id :: id in before ==> id in after
  {
    DrawnSnoc(txs, n, n, before, i);
    if txs(i) !in before {
      DistinctSnoc(before, txs(i));
    }
  }

  lemma RecordKeepsTransactions(w: World, p: RecordParams, id: FactId, txs: nat -> TxId, i: nat)
    requires TransactionsSound(w, txs) && FactsHaveTransactions(w.store) && i < w.nextTx && p.txId == txs(i)
    ensures var after := w.(store := Record(w.store, p, id).0);
            TransactionsSound(after, txs) && FactsHaveTransactions(after.store)
  {
    var before := TxIds(w.store.transactions);
    TouchIds(w.store.transactions, p);
    TouchKeepsIds(before, TxIds(Touch(w.store.transactions, p)), w.nextTx, txs, i);
  }

  lemma RecordKeepsBalance(s: State, p: RecordParams, id: FactId)
    requires Balanced(s)
    ensures Balanced(Record(s, p, id).0)
  {
    TouchIds(s.transactions, p);
    FilterSnoc(IsRetracted, s.facts, NewFact(p, id));
  }

  lemma RecordKeepsMain(s: State, p: RecordParams, id: FactId)
    requires MainBranchesStand(s)
    ensures MainBranchesStand(Record(s, p, id).0)
  {
  }

  lemma RecordKeeps(w: World, p: RecordParams, ids: nat -> FactId, txs: nat -> TxId, i: nat)
    requires Injective(ids) && Sound(w, ids, txs) && i < w.nextTx && p.txId == txs(i)
    ensures var after := World(Record(w.store, p, ids(w.nextId)).0, w.nextId + 1, w.nextTx);
            Sound(after, ids, txs) && (Balanced(w.store) ==> Balanced(after.store))
  {
    RecordKeepsFacts(w, p, ids);
    RecordKeepsTransactions(w, p, ids(w.nextId), txs, i);
    RecordKeepsMain(w.store, p, ids(w.nextId));
    if Balanced(w.store) {
      RecordKeepsBalance(w.store, p, ids(w.nextId));
    }
  }

  lemma {:induction false} BulkKeeps(w: World, ps: seq<RecordParams>, ids: nat -> FactId, txs: nat -> TxId, i: nat)
    requires Injective(ids) && Sound(w, ids, txs) && i < w.nextTx
    ensures var after := RecordAll(w, ps, txs(i), ids);
            && after.nextTx == w.nextTx && Sound(after, ids, txs) && (Balanced(w.store) ==> Balanced(after.store))
  {
    if ps != [] {
      BulkKeeps(w, ps[..|ps| - 1], ids, txs, i);
      RecordKeeps(RecordAll(w, ps[..|ps| - 1], txs(i), ids), ps[|ps| - 1].(txId := txs(i)), ids, txs, i);
    }
  }

  // ---- the other operations ----------------------------------------------------------------

  /** Copies are records, one after another. */
  lemma {:induction false} CopiesKeep(w: World, m: MergeParams, fs: seq<Fact>, ts: u64, ids: nat -> FactId,
                                      txs: nat -> TxId, i: nat)
    requires Injective(ids) && Sound(w, ids, txs) && i < w.nextTx
    ensures var after := AfterCopies(w.store, m, fs, ts, txs(i), From(ids, w.nextId));
            && Sound(World(after, w.nextId + |fs|, w.nextTx), ids, txs)
            && (Balanced(w.store) ==> Balanced(after))
  {
    var g := From(ids, w.nextId);
    if fs == [] {
      Merge.NoCopiesNoChange(w.store, m, fs, ts, txs(i), g);
    } else {
      var front, last := fs[..|fs| - 1], fs[|fs| - 1];
      assert fs == front + [last];
      CopiesKeep(w, m, front, ts, ids, txs, i);
      Merge.CopyStep(w.store, m, front, last, ts, txs(i), g);
      RecordKeeps(World(AfterCopies(w.store, m, front, ts, txs(i), g), w.nextId + |front|, w.nextTx),
                  CopyParams(m, last, ts, txs(i)), ids, txs, i);
    }
  }

  lemma DrawnMore(g: nat -> string, n: nat, m: nat, xs: seq<string>)
    requires Drawn(g, n, xs) && n <= m
    ensures Drawn(g, m, xs)
  {
  }

  lemma SoundLater(w: World, nextId: nat, nextTx: nat, ids: nat -> FactId, txs: nat -> TxId)
    requires Sound(w, ids, txs) && w.nextId <= nextId && w.nextTx <= nextTx
    ensures Sound(World(w.store, nextId, nextTx), ids, txs)
  {
    DrawnMore(ids, w.nextId, nextId, FactIds(w.store.facts));
    DrawnMore(txs, w.nextTx, nextTx, TxIds(w.store.transactions));
  }

  lemma MergeKeeps(w: World, m: MergeParams, ts: u64, ids: nat -> FactId, txs: nat -> TxId)
    requires Injective(ids) && Sound(w, ids, txs)
    ensures Keeps(w, MergeOp(m, ts), ids, txs)
  {
    var after := Store.Merge(w.store, m, ts, txs(w.nextTx), From(ids, w.nextId)).0;
    MergeSound(w, m, ts, ids, txs, after);
    KeepsBy(w, MergeOp(m, ts), World(after, w.nextId + |after.facts|, w.nextTx + 1), ids, txs);
  }

  lemma MergeSound(w: World, m: MergeParams, ts: u64, ids: nat -> FactId, txs: nat -> TxId, after: State)
    requires Injective(ids) && Sound(w, ids, txs)
    requires after == Store.Merge(w.store, m, ts, txs(w.nextTx), From(ids, w.nextId)).0
    ensures Sound(World(after, w.nextId + |after.facts|, w.nextTx + 1), ids, txs)
    ensures Balanced(w.store) ==> Balanced(after)
  {
    var s := w.store;
    SoundLater(w, w.nextId, w.nextTx + 1, ids, txs);
    if m.namespace in s.namespaces {
      var policy := s.namespaces[m.namespace].mergePolicy;
      var src, idx := LiveFacts(s, m.namespace, m.source), BranchIndex(s, m.namespace, m.target);
      var applied := Filter(Applies(policy, idx), src[..Processed(policy, idx, src)]);
      assert after == AfterCopies(s, m, applied, ts, txs(w.nextTx), From(ids, w.nextId));
      CopiesKeep(World(s, w.nextId, w.nextTx + 1), m, applied, ts, ids, txs, w.nextTx);
      SoundLater(World(after, w.nextId + |applied|, w.nextTx + 1), w.nextId + |after.facts|, w.nextTx + 1, ids, txs);
    } else {
      SoundLater(w, w.nextId + |s.facts|, w.nextTx + 1, ids, txs);
    }
  }

  /** Retracting changes one live fact in place. */
  lemma {:induction false} RetractedCount(facts: seq<Fact>, i: nat, f: Fact)
    requires i < |facts| && !facts[i].retracted && f.retracted
    ensures |Filter(IsRetracted, facts[i := f])| == |Filter(IsRetracted, facts)| + 1
  {
    if i == 0 {
      assert facts[0 := f][1..] == facts[1..];
    } else {
      assert facts[i := f][1..] == facts[1..][i - 1 := f];
      RetractedCount(facts[1..], i - 1, f);
    }
  }

  lemma {:induction false} TotalCountSnoc(txs: seq<Transaction>, t: Transaction)
    ensures TotalCount(txs + [t]) == TotalCount(txs) + t.factCount
  {
    if txs == [] {
      assert txs + [t] == [t] && [t][1..] == [];
    } else {
      assert (txs + [t])[1..] == txs[1..] + [t];
      TotalCountSnoc(txs[1..], t);
    }
  }

  /** The transaction a retract adds. */
  function RetractTx(r: RetractParams): Transaction {
    Transaction(r.txId, r.namespace, r.branch, r.txTime, r.author, r.message, 1, None)
  }

  lemma RetractIs(s: State, id: FactId, r: RetractParams)
    ensures var i := FindRetractable(s.facts, id, r);
            OrSame(s, Retract(s, id, r)) ==
            if i == |s.facts| then s
            else s.(facts := s.facts[i := Retracted(s.facts[i], r)],
                    transactions := s.transactions + [RetractTx(r)],
                    branches := SetHead(s.branches, r.namespace, r.branch, r.txId))
  {
  }

  lemma RetractKeepsTransactions(w: World, r: RetractParams, txs: nat -> TxId)
    requires Injective(txs) && TransactionsSound(w, txs) && r.txId == txs(w.nextTx)
    ensures var after := w.store.(transactions := w.store.transactions + [RetractTx(r)]);
            TransactionsSound(World(after, w.nextId, w.nextTx + 1), txs)
  {
    var before := TxIds(w.store.transactions);
    assert TxIds(w.store.transactions + [RetractTx(r)]) == before + [r.txId];
    NextIsFresh(txs, w.nextTx, before);
    DistinctSnoc(before, r.txId);
    DrawnSnoc(txs, w.nextTx, w.nextTx + 1, before, w.nextTx);
  }

  lemma RetractBalances(s: State, i: nat, r: RetractParams)
    requires Balanced(s) && i < |s.facts| && !s.facts[i].retracted
    ensures Balanced(s.(facts := s.facts[i := Retracted(s.facts[i], r)],
                        transactions := s.transactions + [RetractTx(r)],
                        branches := SetHead(s.branches, r.namespace, r.branch, r.txId)))
  {
    RetractedCount(s.facts, i, Retracted(s.facts[i], r));
    TotalCountSnoc(s.transactions, RetractTx(r));
    assert TxIds(s.transactions + [RetractTx(r)]) == TxIds(s.transactions) + [r.txId];
  }

  lemma RetractKeeps(w: World, id: FactId, r: RetractParams, ids: nat -> FactId, txs: nat -> TxId)
    requires Injective(txs) && Sound(w, ids, txs) && r.txId == txs(w.nextTx)
    ensures var after := World(OrSame(w.store, Retract(w.store, id, r)), w.nextId, w.nextTx + 1);
            Sound(after, ids, txs) && (Balanced(w.store) ==> Balanced(after.store))
  {
    var s, i := w.store, FindRetractable(w.store.facts, id, r);
    SoundLater(w, w.nextId, w.nextTx + 1, ids, txs);
    RetractIs(s, id, r);
    if i < |s.facts| {
      var facts := s.facts[i := Retracted(s.facts[i], r)];
      assert FactIds(facts) == FactIds(s.facts);
      RetractKeepsTransactions(w, r, txs);
      RetractHasTransactions(s, facts, i, RetractTx(r));
      if Balanced(s) {
        RetractBalances(s, i, r);
      }
    }
  }

  lemma RetractHasTransactions(s: State, facts: seq<Fact>, i: nat, tx: Transaction)
    requires FactsHaveTransactions(s) && i < |s.facts| == |facts| && facts[i].txId == s.facts[i].txId
    requires facts == s.facts[i := facts[i]]
    ensures forall f :: f in facts ==> f.txId in TxIds(s.transactions + [tx])
  {
    assert TxIds(s.transactions + [tx]) == TxIds(s.transactions) + [tx.id];
    forall f | f in facts ensures f.txId in TxIds(s.transactions) {
      var j :| 0 <= j < |facts| && facts[j] == f;
      assert s.facts[j] in s.facts && s.facts[j].txId == f.txId;
    }
  }

  /** Filtering drops ids and adds none. */
  lemma {:induction false} DistinctFilter<T>(g: T -> string, q: T -> bool, xs: seq<T>)
    requires Distinct(Map(g, xs))
    ensures Distinct(Map(g, Filter(q, xs)))
    ensures forall id :: id in Map(g, Filter(q, xs)) ==> id in Map(g, xs)
  {
    if xs != [] {
      var ids, rest := Map(g, xs), Map(g, xs[1..]);
      assert ids == [g(xs[0])] + rest;
      assert forall i :: 0 <= i < |rest| ==> rest[i] == ids[i + 1];
      DistinctFilter(g, q, xs[1..]);
      var kept := Map(g, Filter(q, xs[1..]));
      if q(xs[0]) {
        assert Map(g, Filter(q, xs)) == [g(xs[0])] + kept;
        assert g(xs[0]) !in rest;
        assert g(xs[0]) !in kept;
      }
    }
  }

  lemma GcKeeps(w: World, g: GcParams, ids: nat -> FactId, txs: nat -> TxId)
    requires Sound(w, ids, txs)
    ensures Sound(w.(store := Gc(w.store, g).0), ids, txs)
  {
    var s, after := w.store, Gc(w.store, g).0;
    if !g.dryRun {
      DistinctFilter(FactIdOf, Kept(g), s.facts);
      DistinctFilter(TxIdOf, HasFacts(after.facts), s.transactions);
      forall f | f in after.facts ensures f.txId in TxIds(after.transactions) {
        var i :| 0 <= i < |s.transactions| && TxIds(s.transactions)[i] == f.txId;
        var t := s.transactions[i];
        assert t in s.transactions && HasFacts(after.facts)(t);
        var j :| 0 <= j < |after.transactions| && after.transactions[j] == t;
        assert TxIds(after.transactions)[j] == f.txId;
      }
    }
  }

  /** Operations on branches and namespaces touch neither facts nor transactions. */
  lemma SoundWithBranches(w: World, after: State, ids: nat -> FactId, txs: nat -> TxId)
    requires Sound(w, ids, txs) && after.facts == w.store.facts && after.transactions == w.store.transactions
    requires MainBranchesStand(after)
    requires forall k :: k in after.branches && after.branches[k].headTx.Some? ==>
                           k in w.store.branches && w.store.branches[k] == after.branches[k]
    ensures Sound(w.(store := after), ids, txs) && (Balanced(w.store) ==> Balanced(after))
  {
  }

  lemma CreateBranchKeeps(w: World, ns: string, name: string, fork: string, at: u64, now: int, ids: nat -> FactId,
                          txs: nat -> TxId)
    requires Sound(w, ids, txs)
    ensures Keeps(w, CreateBranchOp(ns, name, fork, at, now), ids, txs)
  {
    var after := OrSame(w.store, CreateBranch(w.store, ns, name, fork, at, now));
    SoundWithBranches(w, after, ids, txs);
    assert Apply(w, CreateBranchOp(ns, name, fork, at, now), ids, txs) == w.(store := after);
  }

  lemma DeleteBranchKeeps(w: World, ns: string, name: string, ids: nat -> FactId, txs: nat -> TxId)
    requires Sound(w, ids, txs)
    ensures Keeps(w, DeleteBranchOp(ns, name), ids, txs)
  {
    var after := OrSame(w.store, DeleteBranch(w.store, ns, name));
    SoundWithBranches(w, after, ids, txs);
    assert Apply(w, DeleteBranchOp(ns, name), ids, txs) == w.(store := after);
  }

  lemma NewNamespaceHasMain(s: State, ns: string, policy: MergePolicy, schema: Option<Schema>, now: int)
    requires MainBranchesStand(s)
    ensures var after := OrSame(s, CreateNamespace(s, ns, policy, schema, now));
            && MainBranchesStand(after) && after.facts == s.facts && after.transactions == s.transactions
            && (forall k :: k in after.branches && after.branches[k].headTx.Some? ==>
                              k in s.branches && s.branches[k] == after.branches[k])
  {
  }

  lemma CreateNamespaceKeeps(w: World, ns: string, policy: MergePolicy, schema: Option<Schema>, now: int,
                             ids: nat -> FactId, txs: nat -> TxId)
    requires Sound(w, ids, txs)
    ensures Keeps(w, CreateNamespaceOp(ns, policy, schema, now), ids, txs)
  {
    NewNamespaceHasMain(w.store, ns, policy, schema, now);
    var after := OrSame(w.store, CreateNamespace(w.store, ns, policy, schema, now));
    SoundWithBranches(w, after, ids, txs);
    assert Apply(w, CreateNamespaceOp(ns, policy, schema, now), ids, txs) == w.(store := after);
  }

  // ---- whole runs --------------------------------------------------------------------------

  ghost predicate Keeps(w: World, op: Op, ids: nat -> FactId, txs: nat -> TxId) {
    var after := Apply(w, op, ids, txs);
    Sound(after, ids, txs) && (!op.GcOp? && Balanced(w.store) ==> Balanced(after.store))
  }

  lemma KeepsBy(w: World, op: Op, after: World, ids: nat -> FactId, txs: nat -> TxId)
    requires after == Apply(w, op, ids, txs) && Sound(after, ids, txs)
    requires Balanced(w.store) ==> Balanced(after.store)
    ensures Keeps(w, op, ids, txs)
  {
  }

  lemma RecordOpKeeps(w: World, p: RecordParams, ids: nat -> FactId, txs: nat -> TxId)
    requires Injective(ids) && Sound(w, ids, txs)
    ensures Keeps(w, RecordOp(p), ids, txs)
  {
    SoundLater(w, w.nextId, w.nextTx + 1, ids, txs);
    RecordKeeps(w.(nextTx := w.nextTx + 1), p.(txId := txs(w.nextTx)), ids, txs, w.nextTx);
  }

  lemma BulkOpKeeps(w: World, ps: seq<RecordParams>, ids: nat -> FactId, txs: nat -> TxId)
    requires Injective(ids) && Sound(w, ids, txs)
    ensures Keeps(w, BulkOp(ps), ids, txs)
  {
    SoundLater(w, w.nextId, w.nextTx + 1, ids, txs);
    BulkKeeps(w.(nextTx := w.nextTx + 1), ps, ids, txs, w.nextTx);
    KeepsBy(w, BulkOp(ps), RecordAll(w.(nextTx := w.nextTx + 1), ps, txs(w.nextTx), ids), ids, txs);
  }

  lemma RetractOpKeeps(w: World, id: FactId, r: RetractParams, ids: nat -> FactId, txs: nat -> TxId)
    requires Injective(txs) && Sound(w, ids, txs)
    ensures Keeps(w, RetractOp(id, r), ids, txs)
  {
    RetractKeeps(w, id, r.(txId := txs(w.nextTx)), ids, txs);
  }

  lemma GcOpKeeps(w: World, g: GcParams, ids: nat -> FactId, txs: nat -> TxId)
    requires Sound(w, ids, txs)
    ensures Keeps(w, GcOp(g), ids, txs)
  {
    GcKeeps(w, g, ids, txs);
  }

  /** Every operation keeps the invariant. */
  lemma StepKeeps(w: World, op: Op, ids: nat -> FactId, txs: nat -> TxId)
    requires Injective(ids) && Injective(txs) && Sound(w, ids, txs)
    ensures Keeps(w, op, ids, txs)
  {
    match op
    case RecordOp(p) => RecordOpKeeps(w, p, ids, txs);
    case BulkOp(ps) => BulkOpKeeps(w, ps, ids, txs);
    case RetractOp(id, r) => RetractOpKeeps(w, id, r, ids, txs);
    case MergeOp(m, ts) => MergeKeeps(w, m, ts, ids, txs);
    case GcOp(g) => GcOpKeeps(w, g, ids, txs);
    case CreateBranchOp(ns, name, fork, at, now) => CreateBranchKeeps(w, ns, name, fork, at, now, ids, txs);
    case DeleteBranchOp(ns, name) => DeleteBranchKeeps(w, ns, name, ids, txs);
    case CreateNamespaceOp(ns, policy, schema, now) => CreateNamespaceKeeps(w, ns, policy, schema, now, ids, txs);
  }

  /**
   * In every reachable state fact and transaction ids are unique, every fact's transaction exists, and every
   * namespace keeps its parentless main branch.
   */
  lemma {:induction false} ReachableStatesAreSound(now: int, ops: seq<Op>, ids: nat -> FactId, txs: nat -> TxId)
    requires Injective(ids) && Injective(txs)
    ensures Sound(Run(Start(now), ops, ids, txs), ids, txs)
  {
    if ops != [] {
      ReachableStatesAreSound(now, ops[..|ops| - 1], ids, txs);
      StepKeeps(Run(Start(now), ops[..|ops| - 1], ids, txs), ops[|ops| - 1], ids, txs);
    }
  }

  /** As long as nothing is collected, the counts balance and every head names a transaction. */
  lemma {:induction false} RunsWithoutGcBalance(now: int, ops: seq<Op>, ids: nat -> FactId, txs: nat -> TxId)
    requires Injective(ids) && Injective(txs) && forall op :: op in ops ==> !op.GcOp?
    ensures Balanced(Run(Start(now), ops, ids, txs).store)
  {
    if ops != [] {
      RunsWithoutGcBalance(now, ops[..|ops| - 1], ids, txs);
      ReachableStatesAreSound(now, ops[..|ops| - 1], ids, txs);
      StepKeeps(Run(Start(now), ops[..|ops| - 1], ids, txs), ops[|ops| - 1], ids, txs);
    }
  }

  // ---- branch names ------------------------------------------------------------------------

  /** Every branch record carries the name it is stored under. */
  ghost predicate NamedByKey(branches: map<(string, string), BranchInfo>) {
    forall k :: k in branches ==> branches[k].name == k.1
  }

  lemma {:induction false} BulkKeepsNames(w: World, ps: seq<RecordParams>, tx: TxId, ids: nat -> FactId)
    requires NamedByKey(w.store.branches)
    ensures NamedByKey(RecordAll(w, ps, tx, ids).store.branches)
  {
    if ps != [] {
      BulkKeepsNames(w, ps[..|ps| - 1], tx, ids);
    }
  }

  lemma MergeKeepsNames(s: State, m: MergeParams, ts: u64, tx: TxId, ids: nat -> FactId)
    requires NamedByKey(s.branches)
    ensures NamedByKey(Store.Merge(s, m, ts, tx, ids).0.branches)
  {
  }

  lemma StepKeepsNames(w: World, op: Op, ids: nat -> FactId, txs: nat -> TxId)
    requires NamedByKey(w.store.branches)
    ensures NamedByKey(Apply(w, op, ids, txs).store.branches)
  {
    match op
    case BulkOp(ps) => BulkKeepsNames(w.(nextTx := w.nextTx + 1), ps, txs(w.nextTx), ids);
    case MergeOp(m, ts) => MergeKeepsNames(w.store, m, ts, txs(w.nextTx), From(ids, w.nextId));
    case _ =>
  }

  /** So in every reachable state no namespace lists a branch name twice. */
  lemma {:induction false} ReachableBranchesAreNamed(now: int, ops: seq<Op>, ids: nat -> FactId, txs: nat -> TxId)
    ensures NamedByKey(Run(Start(now), ops, ids, txs).store.branches)
  {
    if ops != [] {
      ReachableBranchesAreNamed(now, ops[..|ops| - 1], ids, txs);
      StepKeepsNames(Run(Start(now), ops[..|ops| - 1], ids, txs), ops[|ops| - 1], ids, txs);
    }
  }

  // ---- idempotency -------------------------------------------------------------------------

  lemma {:induction false} BulkKeepsKeys(w: World, ps: seq<RecordParams>, tx: TxId, ids: nat -> FactId, key: string)
    requires key in w.store.idem
    ensures var after := RecordAll(w, ps, tx, ids).store;
            key in after.idem && after.idem[key] == w.store.idem[key]
  {
    if ps != [] {
      BulkKeepsKeys(w, ps[..|ps| - 1], tx, ids, key);
    }
  }

  lemma StepKeepsKeys(w: World, op: Op, ids: nat -> FactId, txs: nat -> TxId, key: string)
    requires key in w.store.idem
    ensures var after := Apply(w, op, ids, txs).store;
            key in after.idem && after.idem[key] == w.store.idem[key]
  {
    if op.BulkOp? {
      BulkKeepsKeys(w.(nextTx := w.nextTx + 1), op.ps, txs(w.nextTx), ids, key);
    }
  }

  lemma {:induction false} RunKeepsKeys(w: World, ops: seq<Op>, ids: nat -> FactId, txs: nat -> TxId, key: string)
    requires key in w.store.idem
    ensures var after := Run(w, ops, ids, txs).store;
            key in after.idem && after.idem[key] == w.store.idem[key]
  {
    if ops != [] {
      RunKeepsKeys(w, ops[..|ops| - 1], ids, txs, key);
      StepKeepsKeys(Run(w, ops[..|ops| - 1], ids, txs), ops[|ops| - 1], ids, txs, key);
    }
  }

  /**
   * A key used once answers every later record with the same ids, whatever happened in between, even if the fact
   * was retracted or collected; the later record changes nothing.
   */
  lemma KeysAreIdempotent(s: State, first: RecordParams, id: FactId, nextId: nat, nextTx: nat, between: seq<Op>,
                          again: RecordParams, otherId: FactId, ids: nat -> FactId, txs: nat -> TxId)
    requires first.idempotencyKey.Some? && again.idempotencyKey == first.idempotencyKey
    ensures var (after, r) := Record(s, first, id);
            var later := Run(World(after, nextId, nextTx), between, ids, txs).store;
            Record(later, again, otherId) == (later, RecordResult(r.factId, r.txId, true))
  {
    var after := Record(s, first, id).0;
    RunKeepsKeys(World(after, nextId, nextTx), between, ids, txs, first.idempotencyKey.value);
  }
}
