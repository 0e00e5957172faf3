/** What each operation of the store writes, field by field, and what it leaves alone. */
module Writes {
  import opened Base
  import opened Lists
  import opened Ledger
  import opened Store

  // ---- transactions and heads --------------------------------------------------------------

  /** A new transaction of one fact. */
  predicate IsTransaction(t: Transaction, id: TxId, namespace: string, branch: string, ts: u64,
                          author: Option<string>, message: Option<string>, causedBy: Option<TxId>)
  {
    && t.id == id && t.namespace == namespace && t.branch == branch && t.ts == ts && t.factCount == 1
    && t.author == author && t.message == message && t.causedBy == causedBy
  }

  /** The same transaction with one more fact. */
  predicate CountsOneMore(before: Transaction, after: Transaction) {
    && after.factCount == before.factCount + 1
    && after.id == before.id && after.namespace == before.namespace && after.branch == before.branch
    && after.ts == before.ts && after.author == before.author && after.message == before.message
    && after.causedBy == before.causedBy
  }

  /** Everything but position `i` is the same. */
  ghost predicate OnlyAt<T(!new)>(before: seq<T>, after: seq<T>, i: nat) {
    |after| == |before| && forall j :: 0 <= j < |before| && j != i ==> after[j] == before[j]
  }

  /** The first transaction of the record's id counts one more fact; if there is none, a new one stands last. */
  ghost predicate IsCounted(txs: seq<Transaction>, after: seq<Transaction>, p: RecordParams, i: nat) {
    && i < |after| && i <= |txs| && (forall j :: 0 <= j < i ==> txs[j].id != p.txId)
    && (if i < |txs| then txs[i].id == p.txId && OnlyAt(txs, after, i) && CountsOneMore(txs[i], after[i])
        else |after| == |txs| + 1 && txs <= after
             && IsTransaction(after[i], p.txId, p.namespace, p.branch, p.txTime, p.author, p.message, p.causedBy))
  }

  lemma {:induction false} RecordIsCounted(txs: seq<Transaction>, p: RecordParams) returns (i: nat)
    ensures IsCounted(txs, Touch(txs, p), p, i)
  {
    if txs == [] || txs[0].id == p.txId {
      i := 0;
    } else {
      var k := RecordIsCounted(txs[1..], p);
      i := k + 1;
      var rest := Touch(txs[1..], p);
      assert Touch(txs, p) == [txs[0]] + rest;
      assert forall j :: 0 < j < |txs| ==> txs[j] == txs[1..][j - 1];
    }
  }

  /** The branch, if there is one, names the transaction as its head and is otherwise as it was, like all others. */
  ghost predicate HeadMoved(before: map<(string, string), BranchInfo>, after: map<(string, string), BranchInfo>,
                            namespace: string, branch: string, tx: TxId)
  {
    && after.Keys == before.Keys
    && forall k :: k in before ==>
         var b, a := before[k], after[k];
         && a.headTx == (if k == (namespace, branch) then Some(tx) else b.headTx)
         && a.namespace == b.namespace && a.name == b.name && a.parent == b.parent && a.forkAt == b.forkAt
         && a.createdAt == b.createdAt && a.closed == b.closed
  }

  lemma HeadIsSet(branches: map<(string, string), BranchInfo>, namespace: string, branch: string, tx: TxId)
    ensures HeadMoved(branches, SetHead(branches, namespace, branch, tx), namespace, branch, tx)
  {
  }

  // ---- records -----------------------------------------------------------------------------

  /** The fact holds what the record says, and is live. */
  predicate IsRecorded(p: RecordParams, id: FactId, f: Fact) {
    && f.id == id && f.namespace == p.namespace && f.branch == p.branch
    && f.entity == p.entity && f.attr == p.attr && f.value == p.value
    && f.validFrom == p.validFrom && f.validTo == p.validTo
    && f.txId == p.txId && f.txTime == p.txTime
    && f.author == p.author && f.causedBy == p.causedBy && !f.retracted
  }

  /** A record of a new key, or without one, appends its fact, counts it, moves the head and remembers the key. */
  lemma RecordWrites(s: State, p: RecordParams, id: FactId)
    requires p.idempotencyKey.Some? ==> p.idempotencyKey.value !in s.idem
    ensures var (after, r) := Record(s, p, id);
            && s.facts <= after.facts && |after.facts| == |s.facts| + 1 && IsRecorded(p, id, after.facts[|s.facts|])
            && (exists i: nat :: IsCounted(s.transactions, after.transactions, p, i))
            && HeadMoved(s.branches, after.branches, p.namespace, p.branch, p.txId)
            && after.namespaces == s.namespaces
            && (forall k :: k in after.idem <==> k in s.idem || p.idempotencyKey == Some(k))
            && (forall k :: k in after.idem ==> after.idem[k] == if k in s.idem then s.idem[k] else (id, p.txId))
            && r.factId == id && r.txId == p.txId && !r.wasDuplicate
  {
    HeadIsSet(s.branches, p.namespace, p.branch, p.txId);
    var i := RecordIsCounted(s.transactions, p);
  }

  /** A record with a key already used changes nothing and gives the ids of the first one. */
  lemma DuplicateRecordChangesNothing(s: State, p: RecordParams, id: FactId)
    requires p.idempotencyKey.Some? && p.idempotencyKey.value in s.idem
    ensures var (after, r) := Record(s, p, id);
            && after == s && r.wasDuplicate
            && (r.factId, r.txId) == s.idem[p.idempotencyKey.value]
  {
  }

  // ---- retracts ----------------------------------------------------------------------------

  /** A live fact of the id, on the branch. */
  predicate IsLiveFact(f: Fact, id: FactId, namespace: string, branch: string) {
    f.id == id && f.namespace == namespace && f.branch == branch && !f.retracted
  }

  /** The same fact, no longer live, with its validity ended at the millisecond of the time, in nanoseconds. */
  predicate IsRetractionOf(f: Fact, g: Fact, at: u64) {
    && g.retracted && g.validTo == Some(at / 0x1_0000 * 1_000_000)
    && g.id == f.id && g.namespace == f.namespace && g.branch == f.branch && g.entity == f.entity
    && g.attr == f.attr && g.value == f.value && g.validFrom == f.validFrom && g.txId == f.txId
    && g.txTime == f.txTime && g.author == f.author && g.causedBy == f.causedBy
  }

  /** A retract is refused exactly if the branch has no live fact of the id. */
  lemma RetractRefusedExactly(s: State, id: FactId, p: RetractParams)
    ensures Retract(s, id, p).Err? <==> forall f | f in s.facts :: !IsLiveFact(f, id, p.namespace, p.branch)
    ensures Retract(s, id, p).Err? ==> Retract(s, id, p).error == FactNotFound(id)
  {
    var i := FindRetractable(s.facts, id, p);
    if i < |s.facts| {
      assert s.facts[i] in s.facts;
    }
  }

  /** Otherwise it changes the first such fact in place, appends its own transaction and moves the head. */
  lemma RetractWrites(s: State, id: FactId, p: RetractParams) returns (i: nat)
    requires Retract(s, id, p).Ok?
    ensures var after := Retract(s, id, p).value;
            && i < |s.facts| && IsLiveFact(s.facts[i], id, p.namespace, p.branch)
            && (forall j :: 0 <= j < i ==> !IsLiveFact(s.facts[j], id, p.namespace, p.branch))
            && OnlyAt(s.facts, after.facts, i) && IsRetractionOf(s.facts[i], after.facts[i], p.txTime)
            && |after.transactions| == |s.transactions| + 1 && s.transactions <= after.transactions
            && IsTransaction(after.transactions[|s.transactions|], p.txId, p.namespace, p.branch, p.txTime, p.author,
                             p.message, None)
            && HeadMoved(s.branches, after.branches, p.namespace, p.branch, p.txId)
            && after.namespaces == s.namespaces && after.idem == s.idem
  {
    i := FindRetractable(s.facts, id, p);
    HeadIsSet(s.branches, p.namespace, p.branch, p.txId);
  }

  // ---- branches and namespaces -------------------------------------------------------------

  /** Only branches may differ. */
  predicate OnlyBranches(s: State, after: State) {
    && after.facts == s.facts && after.transactions == s.transactions && after.idem == s.idem
  }

  /** A branch without facts of its own or a head. */
  predicate IsNewBranch(b: BranchInfo, namespace: string, name: string, parent: Option<string>, forkAt: Option<u64>,
                        now: int)
  {
    && b.namespace == namespace && b.name == name && b.parent == parent && b.forkAt == forkAt
    && b.createdAt == now && b.headTx == None && !b.closed
  }

  /** All branches but one are the same. */
  ghost predicate OtherBranchesStand(s: State, after: State, key: (string, string)) {
    forall k :: k != key ==>
      (k in after.branches <==> k in s.branches) && (k in s.branches ==> after.branches[k] == s.branches[k])
  }

  /** A branch is created in a namespace there is, under a name there is not; nothing else changes. */
  lemma CreateBranchWrites(s: State, namespace: string, name: string, forkFrom: string, forkAt: u64, now: int)
    ensures var r := CreateBranch(s, namespace, name, forkFrom, forkAt, now);
            && (r == Err(NamespaceNotFound(namespace)) <==> namespace !in s.namespaces)
            && (r == Err(BranchExists(name, namespace)) <==>
                  namespace in s.namespaces && (namespace, name) in s.branches)
            && (r.Ok? <==> namespace in s.namespaces && (namespace, name) !in s.branches)
            && (r.Ok? ==> && OnlyBranches(s, r.value) && r.value.namespaces == s.namespaces
                          && OtherBranchesStand(s, r.value, (namespace, name))
                          && (namespace, name) in r.value.branches
                          && IsNewBranch(r.value.branches[(namespace, name)], namespace, name, Some(forkFrom),
                                         Some(forkAt), now))
  {
  }

  /** A branch with a parent is deleted, its facts staying; nothing else changes. */
  lemma DeleteBranchWrites(s: State, namespace: string, name: string)
    ensures var r, key := DeleteBranch(s, namespace, name), (namespace, name);
            && (r == Err(BranchNotFound(name, namespace)) <==> key !in s.branches)
            && (r == Err(CannotDeleteRoot(name, namespace)) <==> key in s.branches && s.branches[key].parent == None)
            && (r.Ok? <==> key in s.branches && s.branches[key].parent.Some?)
            && (r.Ok? ==> && OnlyBranches(s, r.value) && r.value.namespaces == s.namespaces
                          && OtherBranchesStand(s, r.value, key) && key !in r.value.branches)
  {
  }

  /** A namespace is created with its policy, its schema and a main branch, if there is none of the name. */
  lemma CreateNamespaceWrites(s: State, namespace: string, policy: MergePolicy, schema: Option<Schema>, now: int)
    ensures var r := CreateNamespace(s, namespace, policy, schema, now);
            && (r == Err(NamespaceExists(namespace)) <==> namespace in s.namespaces)
            && (r.Ok? <==> namespace !in s.namespaces)
            && (r.Ok? ==> && OnlyBranches(s, r.value) && OtherBranchesStand(s, r.value, (namespace, "main"))
                          && (namespace, "main") in r.value.branches
                          && IsNewBranch(r.value.branches[(namespace, "main")], namespace, "main", None, None, now)
                          && r.value.namespaces.Keys == s.namespaces.Keys + {namespace}
                          && (forall n :: n in s.namespaces ==> r.value.namespaces[n] == s.namespaces[n])
                          && r.value.namespaces[namespace].name == namespace
                          && r.value.namespaces[namespace].mergePolicy == policy
                          && r.value.namespaces[namespace].schema == schema)
  {
  }

  /** A new store has no facts and one namespace, `default`, with last-write-wins, no schema and a main branch. */
  lemma NewStoreHolds(now: int)
    ensures var s := Empty(now);
            && s.facts == [] && s.transactions == [] && s.idem == map[]
            && s.namespaces.Keys == {"default"} && s.branches.Keys == {("default", "main")}
            && s.namespaces["default"].name == "default" && s.namespaces["default"].schema == None
            && s.namespaces["default"].mergePolicy == LastWriteWins
            && IsNewBranch(s.branches[("default", "main")], "default", "main", None, None, now)
  {
  }
}
