/** The in-memory store: its fields and the methods that change them in place. */
module MemoryStore {
  import opened Base
  import opened Lists
  import opened StableSort
  import opened Strings
  import opened Ledger
  import opened Store
  import Merging = Merge

  class MemoryStore {
    var facts: seq<Fact>
    var transactions: seq<Transaction>
    var branches: map<(string, string), BranchInfo>
    var namespaces: map<string, NamespaceInfo>
    var idem: map<string, (FactId, TxId)>

    ghost function St(): State
      reads this
    {
      State(facts, transactions, branches, namespaces, idem)
    }

    constructor (now: int)
      ensures St() == Empty(now)
    {
      facts, transactions := [], [];
      branches := map[("default", "main") := RootBranch("default", now)];
      namespaces := map["default" := NamespaceInfo("default", LastWriteWins, None)];
      idem := map[];
    }

    method Record(p: RecordParams, freshId: FactId) returns (r: RecordResult)
      modifies this
      ensures (St(), r) == Store.Record(old(St()), p, freshId)
    {
      if p.idempotencyKey.Some? {
        if p.idempotencyKey.value in idem {
          var (fid, tid) := idem[p.idempotencyKey.value];
          return RecordResult(fid, tid, true);
        }
      }
      facts := facts + [NewFact(p, freshId)];
      CountFact(p);
      branches := SetHead(branches, p.namespace, p.branch, p.txId);
      if p.idempotencyKey.Some? {
        idem := idem[p.idempotencyKey.value := (freshId, p.txId)];
      }
      return RecordResult(freshId, p.txId, false);
    }

    /** Finds the transaction and counts one more fact, or appends a new transaction. */
    method CountFact(p: RecordParams)
      modifies this`transactions
      ensures transactions == Touch(old(transactions), p)
    {
      var i := 0;
      while i < |transactions| && transactions[i].id != p.txId
        invariant 0 <= i <= |transactions|
        invariant forall j :: 0 <= j < i ==> transactions[j].id != p.txId
      {
        i := i + 1;
      }
      TouchAt(transactions, p, i);
      if i < |transactions| {
        var tx := transactions[i];
        transactions := transactions[i := tx.(factCount := tx.factCount + 1)];
      } else {
        transactions := transactions
          + [Transaction(p.txId, p.namespace, p.branch, p.txTime, p.author, p.message, 1, p.causedBy)];
      }
    }

    method Retract(id: FactId, p: RetractParams) returns (r: Result<TxId, Error>)
      modifies this
      ensures match Store.Retract(old(St()), id, p) {
                case Ok(s) => r == Ok(p.txId) && St() == s
                case Err(e) => r == Err(e) && St() == old(St())
              }
    {
      var i := FindRetractable(facts, id, p);
      if i == |facts| {
        return Err(FactNotFound(id));
      }
      facts := facts[i := facts[i].(retracted := true)];
      facts := facts[i := facts[i].(validTo := Some(InstantOf(p.txTime)))];
      transactions := transactions
        + [Transaction(p.txId, p.namespace, p.branch, p.txTime, p.author, p.message, 1, None)];
      branches := SetHead(branches, p.namespace, p.branch, p.txId);
      return Ok(p.txId);
    }

    method Scan(q: ScanQuery) returns (r: seq<Fact>)
      ensures r == Ledger.Scan(facts, q)
    {
      var found := Filter(Matching(q), facts);
      found := Sort(NewestFirst, found);
      r := Page(found, q.offset, q.limit);
    }

    method CreateBranch(namespace: string, name: string, forkFrom: string, forkAt: u64, now: int)
      returns (r: Result<(), Error>)
      modifies this
      ensures match Store.CreateBranch(old(St()), namespace, name, forkFrom, forkAt, now) {
                case Ok(s) => r == Ok(()) && St() == s
                case Err(e) => r == Err(e) && St() == old(St())
              }
    {
      if namespace !in namespaces {
        return Err(NamespaceNotFound(namespace));
      }
      var key := (namespace, name);
      if key in branches {
        return Err(BranchExists(name, namespace));
      }
      branches := branches[key := BranchInfo(namespace, name, Some(forkFrom), Some(forkAt), now, None, false)];
      return Ok(());
    }

    method DeleteBranch(namespace: string, name: string) returns (r: Result<(), Error>)
      modifies this
      ensures match Store.DeleteBranch(old(St()), namespace, name) {
                case Ok(s) => r == Ok(()) && St() == s
                case Err(e) => r == Err(e) && St() == old(St())
              }
    {
      var key := (namespace, name);
      if key !in branches {
        return Err(BranchNotFound(name, namespace));
      } else if branches[key].parent.None? {
        return Err(CannotDeleteRoot(name, namespace));
      }
      branches := branches - {key};
      return Ok(());
    }

    method CreateNamespace(namespace: string, policy: MergePolicy, schema: Option<Schema>, now: int)
      returns (r: Result<(), Error>)
      modifies this
      ensures match Store.CreateNamespace(old(St()), namespace, policy, schema, now) {
                case Ok(s) => r == Ok(()) && St() == s
                case Err(e) => r == Err(e) && St() == old(St())
              }
    {
      if namespace in namespaces {
        return Err(NamespaceExists(namespace));
      }
      namespaces := namespaces[namespace := NamespaceInfo(namespace, policy, schema)];
      branches := branches[(namespace, "main") := RootBranch(namespace, now)];
      return Ok(());
    }

    /** Removes the eligible facts from the last to the first, then the transactions left without facts. */
    method Gc(p: GcParams) returns (r: GcReport)
      modifies this
      ensures (St(), r) == Store.Gc(old(St()), p)
    {
      var eligible := EligibleFrom(p, facts, 0);
      var removed := |eligible|;
      ghost var before := facts;
      EligibleCount(p, facts, 0);
      assert facts[0..] == facts;
      if p.dryRun {
        return GcReport(removed, 0, true);
      }
      RemoveFacts(p, eligible);
      var count := |transactions|;
      transactions := Filter(HasFacts(facts), transactions);
      return GcReport(removed, count - |transactions|, false);
    }

    /** Removes the facts at the given positions, from the last to the first so that earlier ones stay put. */
    method RemoveFacts(p: GcParams, eligible: seq<nat>)
      requires eligible == EligibleFrom(p, facts, 0)
      modifies this`facts
      ensures facts == Filter(Kept(p), old(facts))
    {
      ghost var before, bound: nat := facts, |facts|;
      assert before[..bound] + Filter(Kept(p), before[bound..]) == before;
      var k := |eligible|;
      while k > 0
        invariant 0 <= k <= |eligible|
        invariant bound == if k < |eligible| then eligible[k] else |before|
        invariant facts == before[..bound] + Filter(Kept(p), before[bound..])
      {
        k := k - 1;
        var i := eligible[k];
        forall j | i < j < bound ensures !Collectable(p, before[j]) {
          GapIsKept(p, before, eligible, k, j);
        }
        RemovalStep(p, before, i, bound);
        facts := facts[..i] + facts[i + 1..];
        bound := i;
      }
      NothingBefore(p, before, eligible);
      RemovalEnds(p, before, bound);
    }

    /** The distinct entities with a live fact on the branch, in order. */
    method ListEntities(namespace: string, branch: string) returns (entities: seq<string>)
      ensures forall e :: e in entities <==> e in LiveEntities(facts, namespace, branch)
      ensures StrictlySorted(StrLeq, entities) && Ascend(entities)
    {
      var seen: set<string> := {};
      entities := [];
      for i := 0 to |facts|
        invariant seen == LiveEntities(facts[..i], namespace, branch)
        invariant (forall e :: e in entities <==> e in seen) && NoneEqual(StrLeq, entities)
      {
        var f := facts[i];
        assert facts[..i + 1] == facts[..i] + [f];
        if f.namespace == namespace && f.branch == branch && !f.retracted && f.entity !in seen {
          seen := seen + {f.entity};
          NameIsNew(entities, f.entity);
          entities := entities + [f.entity];
        }
      }
      assert facts[..|facts|] == facts;
      StrLeqPreorder();
      SortStrict(StrLeq, entities);
      entities := Sort(StrLeq, entities);
      StrictAscends(entities);
    }

    /** The distinct attributes with a live fact on the entity, in order. */
    method ListAttrs(namespace: string, branch: string, entity: string) returns (attrs: seq<string>)
      ensures forall a :: a in attrs <==> a in LiveAttrs(facts, namespace, branch, entity)
      ensures StrictlySorted(StrLeq, attrs) && Ascend(attrs)
    {
      var seen: set<string> := {};
      attrs := [];
      for i := 0 to |facts|
        invariant seen == LiveAttrs(facts[..i], namespace, branch, entity)
        invariant (forall a :: a in attrs <==> a in seen) && NoneEqual(StrLeq, attrs)
      {
        var f := facts[i];
        assert facts[..i + 1] == facts[..i] + [f];
        if f.namespace == namespace && f.branch == branch && f.entity == entity && !f.retracted && f.attr !in seen {
          seen := seen + {f.attr};
          NameIsNew(attrs, f.attr);
          attrs := attrs + [f.attr];
        }
      }
      assert facts[..|facts|] == facts;
      StrLeqPreorder();
      SortStrict(StrLeq, attrs);
      attrs := Sort(StrLeq, attrs);
      StrictAscends(attrs);
    }

    /** The branches of a namespace, oldest first. */
    method ListBranches(namespace: string) returns (r: seq<BranchInfo>)
      ensures forall b :: b in r <==> exists k | k in branches :: k.0 == namespace && branches[k] == b
      ensures |r| == |KeysOf(branches.Keys, namespace)|
      ensures OldestCreatedFirst(r)
    {
      r := [];
      var left := branches.Keys;
      ghost var seen: set<(string, string)> := {};
      while left != {}
        invariant seen + left == branches.Keys
        invariant forall b :: b in r <==> exists k | k in seen :: k.0 == namespace && branches[k] == b
        invariant seen !! left && |r| == |KeysOf(seen, namespace)|
        decreases |left|
      {
        var k :| k in left;
        KeysOfStep(seen, k, namespace);
        left, seen := left - {k}, seen + {k};
        if k.0 == namespace {
          r := r + [branches[k]];
        }
      }
      assert seen == branches.Keys;
      SortSorted(OlderFirst, r);
      r := Sort(OlderFirst, r);
      SortedByCreation(r);
    }

    /** Replays the source's live facts onto the target, one record after another. */
    method Merge(p: MergeParams, ts: u64, txId: TxId, ids: nat -> FactId) returns (r: Result<MergeResult, Error>)
      modifies this
      ensures (St(), r) == Store.Merge(old(St()), p, ts, txId, ids)
    {
      var src := Scan(LiveQuery(p.namespace, p.source));
      var tgt := Scan(LiveQuery(p.namespace, p.target));
      var idx := IndexOf(tgt);
      if p.namespace !in namespaces {
        return Err(NamespaceNotFound(p.namespace));
      }
      r := Replay(p, namespaces[p.namespace].mergePolicy, idx, src, ts, txId, ids);
    }

    /** One source fact: its conflict entry if its key is live in the target, and its copy if it is let through. */
    method ReplayOne(p: MergeParams, policy: MergePolicy, idx: map<Key, Fact>, f: Fact, ts: u64, txId: TxId, id: FactId)
      returns (entry: Option<ConflictEntry>, copied: bool)
      requires policy == ErrorOnConflict ==> !InConflict(idx, f)
      modifies this
      ensures entry == if InConflict(idx, f) then Some(EntryFor(policy, idx)(f)) else None
      ensures copied == Applies(policy, idx)(f)
      ensures St() == if copied then Store.Record(old(St()), CopyParams(p, f, ts, txId), id).0 else old(St())
    {
      entry, copied := None, true;
      if KeyOf(f) in idx {
        var found := idx[KeyOf(f)];
        copied := policy == LastWriteWins && f.txTime > found.txTime;
        entry := Some(EntryFor(policy, idx)(f));
        if !copied {
          return;
        }
      }
      var _ := Record(CopyParams(p, f, ts, txId), id);
    }

    /** The loop of `merge` over the source facts. */
    method Replay(p: MergeParams, policy: MergePolicy, idx: map<Key, Fact>, src: seq<Fact>, ts: u64, txId: TxId,
                  ids: nat -> FactId)
      returns (r: Result<MergeResult, Error>)
      modifies this
      ensures (St(), r) == Replayed(old(St()), p, policy, idx, src, ts, txId, ids)
    {
      var conflicts: seq<ConflictEntry> := [];
      var applied, i := 0, 0;
      ghost var rec := CopyRecorder(p, ts, txId, ids);
      while i < |src|
        invariant 0 <= i <= |src|
        invariant NoneRejected(policy, idx, src, i)
        invariant St() == ReplayTo(rec, old(St()), policy, idx, src, i)
        invariant applied == |AppliedTo(policy, idx, src, i)| && conflicts == EntriesTo(policy, idx, src, i)
      {
        var f := src[i];
        if policy == ErrorOnConflict && KeyOf(f) in idx {
          ReplayEnds(old(St()), p, policy, idx, src, ts, txId, ids, i);
          return Err(Conflict(f.entity, f.attr));
        }
        ReplayStep(rec, old(St()), policy, idx, src, i);
        var entry, copied := ReplayOne(p, policy, idx, f, ts, txId, ids(applied));
        if entry.Some? {
          conflicts := conflicts + [entry.value];
        }
        if copied {
          applied := applied + 1;
        }
        i := i + 1;
      }
      ReplayEnds(old(St()), p, policy, idx, src, ts, txId, ids, i);
      return Ok(MergeResult(txId, ts, applied, conflicts));
    }

    /** Compares the indexes of two branches, key by key in no particular order, and sorts the result. */
    method Diff(fl: Floats, namespace: string, source: string, target: string) returns (entries: seq<DiffEntry>)
      ensures IsDiff(fl, BranchIndex(St(), namespace, source), BranchIndex(St(), namespace, target), entries)
    {
      var src := Scan(LiveQuery(namespace, source));
      var tgt := Scan(LiveQuery(namespace, target));
      var srcIdx, tgtIdx := IndexOf(src), IndexOf(tgt);
      entries := Differences(fl, srcIdx, tgtIdx);
      DifferencesSorted(fl, srcIdx, tgtIdx, entries);
      entries := Sort(KeyLeq, entries);
    }

    /** The entries of the keys whose facts differ, in no particular order. */
    method Differences(fl: Floats, src: map<Key, Fact>, tgt: map<Key, Fact>) returns (entries: seq<DiffEntry>)
      ensures Collected(fl, src, tgt, src.Keys + tgt.Keys, entries)
    {
      ghost var all := src.Keys + tgt.Keys;
      var keys := src.Keys + tgt.Keys;
      entries := [];
      while keys != {}
        invariant keys <= all && Collected(fl, src, tgt, all - keys, entries)
        decreases |keys|
      {
        var k :| k in keys;
        CollectOne(fl, src, tgt, all - keys, entries, k);
        assert all - (keys - {k}) == all - keys + {k};
        entries := WithEntry(entries, DiffAt(fl, src, tgt, k));
        keys := keys - {k};
      }
      assert all - keys == all;
    }
  }

  function KeysOf(keys: set<(string, string)>, namespace: string): set<(string, string)> {
    set k | k in keys && k.0 == namespace
  }

  lemma KeysOfStep(keys: set<(string, string)>, k: (string, string), namespace: string)
    requires k !in keys
    ensures |KeysOf(keys + {k}, namespace)| == |KeysOf(keys, namespace)| + if k.0 == namespace then 1 else 0
  {
    assert KeysOf(keys + {k}, namespace)
        == if k.0 == namespace then KeysOf(keys, namespace) + {k} else KeysOf(keys, namespace);
  }

  predicate OlderFirst(a: BranchInfo, b: BranchInfo) {
    a.createdAt <= b.createdAt
  }

  ghost predicate OldestCreatedFirst(bs: seq<BranchInfo>) {
    forall i, j :: 0 <= i < j < |bs| ==> bs[i].createdAt <= bs[j].createdAt
  }

  lemma SortedByCreation(bs: seq<BranchInfo>)
    requires Sorted(OlderFirst, bs)
    ensures OldestCreatedFirst(bs)
  {
    forall i, j | 0 <= i < j < |bs| ensures bs[i].createdAt <= bs[j].createdAt {
      SortedAt(OlderFirst, bs, i, j);
    }
  }

  // ---- recording and merging --------------------------------------------------------------

  lemma {:induction false} TouchSkips(txs: seq<Transaction>, p: RecordParams, i: nat)
    requires i <= |txs| && (forall j :: 0 <= j < i ==> txs[j].id != p.txId)
    ensures Touch(txs, p) == txs[..i] + Touch(txs[i..], p)
  {
    if i == 0 {
      assert txs[0..] == txs;
    } else {
      TouchSkips(txs, p, i - 1);
      assert txs[i - 1..][1..] == txs[i..] && txs[..i] == txs[..i - 1] + [txs[i - 1]];
    }
  }

  lemma TouchAt(txs: seq<Transaction>, p: RecordParams, i: nat)
    requires i <= |txs| && (forall j :: 0 <= j < i ==> txs[j].id != p.txId)
    requires i < |txs| ==> txs[i].id == p.txId
    ensures Touch(txs, p) ==
            if i < |txs| then txs[i := txs[i].(factCount := txs[i].factCount + 1)]
            else txs + [Transaction(p.txId, p.namespace, p.branch, p.txTime, p.author, p.message, 1, p.causedBy)]
  {
    TouchSkips(txs, p, i);
    if i < |txs| {
      assert txs[i..][1..] == txs[i + 1..];
      UpdateAt(txs, i, txs[i].(factCount := txs[i].factCount + 1));
    } else {
      assert txs[..i] == txs && txs[i..] == [];
    }
  }

  lemma UpdateAt<T>(xs: seq<T>, i: nat, y: T)
    requires i < |xs|
    ensures xs[..i] + ([y] + xs[i + 1..]) == xs[i := y]
  {
  }

  lemma ProcessedIs(policy: MergePolicy, idx: map<Key, Fact>, src: seq<Fact>, i: nat)
    requires i <= |src| && (policy == ErrorOnConflict ==> forall j :: 0 <= j < i ==> !InConflict(idx, src[j]))
    requires i < |src| ==> policy == ErrorOnConflict && InConflict(idx, src[i])
    ensures Processed(policy, idx, src) == i
  {
  }

  ghost predicate NoneRejected(policy: MergePolicy, idx: map<Key, Fact>, src: seq<Fact>, i: nat)
    requires i <= |src|
  {
    policy == ErrorOnConflict ==> forall j :: 0 <= j < i ==> !InConflict(idx, src[j])
  }

  /** The first `i` source facts that the policy lets through. */
  ghost function AppliedTo(policy: MergePolicy, idx: map<Key, Fact>, src: seq<Fact>, i: nat): seq<Fact>
    requires i <= |src|
  {
    Lists.FilterTo(Applies(policy, idx), src, i)
  }

  /** How the `n`-th copy is recorded. */
  ghost function CopyRecorder(p: MergeParams, ts: u64, txId: TxId, ids: nat -> FactId): (State, Fact, nat) -> State {
    (now: State, f: Fact, n: nat) => Store.Record(now, CopyParams(p, f, ts, txId), ids(n)).0
  }

  /** The store after the first `i` source facts. */
  ghost function ReplayTo(rec: (State, Fact, nat) -> State, s: State, policy: MergePolicy, idx: map<Key, Fact>,
                          src: seq<Fact>, i: nat): State
    requires i <= |src|
  {
    if i == 0 then s
    else
      var now := ReplayTo(rec, s, policy, idx, src, i - 1);
      if Applies(policy, idx)(src[i - 1]) then rec(now, src[i - 1], |AppliedTo(policy, idx, src, i - 1)|) else now
  }

  /** The conflict entries of the first `i` source facts. */
  ghost function EntriesTo(policy: MergePolicy, idx: map<Key, Fact>, src: seq<Fact>, i: nat): seq<ConflictEntry>
    requires i <= |src|
  {
    Map(EntryFor(policy, idx), Lists.FilterTo(Conflicting(idx), src, i))
  }

  lemma ConflictStep(policy: MergePolicy, idx: map<Key, Fact>, src: seq<Fact>, i: nat)
    requires i < |src|
    ensures EntriesTo(policy, idx, src, i + 1) ==
            if InConflict(idx, src[i]) then EntriesTo(policy, idx, src, i) + [EntryFor(policy, idx)(src[i])]
            else EntriesTo(policy, idx, src, i)
  {
    MapSnoc(EntryFor(policy, idx), Lists.FilterTo(Conflicting(idx), src, i), src[i]);
  }

  /** One more source fact that is not rejected. */
  lemma ReplayStep(rec: (State, Fact, nat) -> State, s: State, policy: MergePolicy, idx: map<Key, Fact>,
                   src: seq<Fact>, i: nat)
    requires i < |src| && NoneRejected(policy, idx, src, i) && !(policy == ErrorOnConflict && InConflict(idx, src[i]))
    ensures NoneRejected(policy, idx, src, i + 1)
    ensures ReplayTo(rec, s, policy, idx, src, i + 1) ==
            if Applies(policy, idx)(src[i]) then
              rec(ReplayTo(rec, s, policy, idx, src, i), src[i], |AppliedTo(policy, idx, src, i)|)
            else ReplayTo(rec, s, policy, idx, src, i)
    ensures |AppliedTo(policy, idx, src, i + 1)|
         == |AppliedTo(policy, idx, src, i)| + if Applies(policy, idx)(src[i]) then 1 else 0
    ensures EntriesTo(policy, idx, src, i + 1) ==
            if InConflict(idx, src[i]) then EntriesTo(policy, idx, src, i) + [EntryFor(policy, idx)(src[i])]
            else EntriesTo(policy, idx, src, i)
  {
    ConflictStep(policy, idx, src, i);
  }

  ghost predicate StepsAt(rec: (State, Fact, nat) -> State, after: seq<Fact> -> State, policy: MergePolicy,
                          idx: map<Key, Fact>, src: seq<Fact>, j: nat)
    requires j < |src|
  {
    var done := AppliedTo(policy, idx, src, j);
    rec(after(done), src[j], |done|) == after(done + [src[j]])
  }

  lemma {:induction false} ReplayToIs(rec: (State, Fact, nat) -> State, after: seq<Fact> -> State, s: State,
                                      policy: MergePolicy, idx: map<Key, Fact>, src: seq<Fact>, i: nat)
    requires i <= |src| && after([]) == s
    requires forall j :: 0 <= j < i ==> StepsAt(rec, after, policy, idx, src, j)
    ensures ReplayTo(rec, s, policy, idx, src, i) == after(AppliedTo(policy, idx, src, i))
  {
    if i > 0 {
      ReplayToIs(rec, after, s, policy, idx, src, i - 1);
      assert StepsAt(rec, after, policy, idx, src, i - 1);
    }
  }

  lemma ReplayToCopies(s: State, p: MergeParams, policy: MergePolicy, idx: map<Key, Fact>, src: seq<Fact>, ts: u64,
                       txId: TxId, ids: nat -> FactId, i: nat)
    requires i <= |src|
    ensures ReplayTo(CopyRecorder(p, ts, txId, ids), s, policy, idx, src, i)
         == AfterCopies(s, p, AppliedTo(policy, idx, src, i), ts, txId, ids)
  {
    var rec := CopyRecorder(p, ts, txId, ids);
    var after := (done: seq<Fact>) => AfterCopies(s, p, done, ts, txId, ids);
    assert s.facts + Copies(p, [], ts, txId, ids) == s.facts;
    forall j | 0 <= j < i ensures StepsAt(rec, after, policy, idx, src, j) {
      Merging.CopyStep(s, p, AppliedTo(policy, idx, src, j), src[j], ts, txId, ids);
    }
    ReplayToIs(rec, after, s, policy, idx, src, i);
  }

  /** The replay stops at the first fact rejected, or at the end. */
  lemma ReplayEnds(s: State, p: MergeParams, policy: MergePolicy, idx: map<Key, Fact>, src: seq<Fact>, ts: u64,
                   txId: TxId, ids: nat -> FactId, i: nat)
    requires i <= |src| && NoneRejected(policy, idx, src, i)
    requires i < |src| ==> policy == ErrorOnConflict && InConflict(idx, src[i])
    ensures Replayed(s, p, policy, idx, src, ts, txId, ids) ==
            (ReplayTo(CopyRecorder(p, ts, txId, ids), s, policy, idx, src, i),
             if i < |src| then Err(Conflict(src[i].entity, src[i].attr))
             else Ok(MergeResult(txId, ts, |AppliedTo(policy, idx, src, i)|, EntriesTo(policy, idx, src, i))))
  {
    ReplayToCopies(s, p, policy, idx, src, ts, txId, ids, i);
    FilterToIs(Applies(policy, idx), src, i);
    FilterToIs(Conflicting(idx), src, i);
    ProcessedIs(policy, idx, src, i);
    assert i == |src| ==> src[..i] == src;
  }

  // ---- diff -------------------------------------------------------------------------------

  lemma KeyLeqPreorder()
    ensures TotalPreorder(KeyLeq)
  {
    forall a, b ensures KeyLeq(a, b) || KeyLeq(b, a) {
      CompareStrReverse(a.entity, b.entity);
      CompareStrReverse(a.attr, b.attr);
    }
    forall a, b, c | KeyLeq(a, b) && KeyLeq(b, c) ensures KeyLeq(a, c) {
      StrLeqTransitive(a.entity, b.entity, c.entity);
      CompareStrEqual(a.entity, b.entity);
      CompareStrEqual(b.entity, c.entity);
      CompareStrEqual(a.entity, c.entity);
      if a.entity == b.entity == c.entity {
        StrLeqTransitive(a.attr, b.attr, c.attr);
      }
    }
  }

  lemma KeyLeqAntisymmetric(a: DiffEntry, b: DiffEntry)
    requires KeyLeq(a, b) && KeyLeq(b, a)
    ensures EntryKey(a) == EntryKey(b)
  {
    CompareStrReverse(a.entity, b.entity);
    CompareStrEqual(a.entity, b.entity);
    CompareStrReverse(a.attr, b.attr);
    CompareStrEqual(a.attr, b.attr);
  }

  /** The entries of the keys seen so far, each once. */
  ghost predicate Collected(fl: Floats, src: map<Key, Fact>, tgt: map<Key, Fact>, seen: set<Key>,
                            entries: seq<DiffEntry>)
  {
    && (forall e :: e in entries <==> EntryKey(e) in seen && DiffAt(fl, src, tgt, EntryKey(e)) == Some(e))
    && NoneEqual(KeyLeq, entries)
  }

  function WithEntry(entries: seq<DiffEntry>, d: Option<DiffEntry>): seq<DiffEntry> {
    if d.Some? then entries + [d.value] else entries
  }

  lemma CollectOne(fl: Floats, src: map<Key, Fact>, tgt: map<Key, Fact>, seen: set<Key>, entries: seq<DiffEntry>,
                   k: Key)
    requires Collected(fl, src, tgt, seen, entries) && k !in seen
    ensures Collected(fl, src, tgt, seen + {k}, WithEntry(entries, DiffAt(fl, src, tgt, k)))
  {
    var d := DiffAt(fl, src, tgt, k);
    if d.Some? {
      EntryIsNew(entries, d.value, seen);
    }
  }

  lemma EntryIsNew(entries: seq<DiffEntry>, e: DiffEntry, seen: set<Key>)
    requires NoneEqual(KeyLeq, entries) && EntryKey(e) !in seen
    requires forall x :: x in entries ==> EntryKey(x) in seen
    ensures NoneEqual(KeyLeq, entries + [e])
  {
    forall x | x in entries ensures !KeyLeq(x, e) || !KeyLeq(e, x) {
      if KeyLeq(x, e) && KeyLeq(e, x) {
        KeyLeqAntisymmetric(x, e);
      }
    }
    NoneEqualSnoc(KeyLeq, entries, e);
  }

  /** Once every key is collected, sorting the entries gives the difference. */
  lemma DifferencesSorted(fl: Floats, src: map<Key, Fact>, tgt: map<Key, Fact>, entries: seq<DiffEntry>)
    requires Collected(fl, src, tgt, src.Keys + tgt.Keys, entries)
    ensures IsDiff(fl, src, tgt, Sort(KeyLeq, entries))
  {
    KeyLeqPreorder();
    SortStrict(KeyLeq, entries);
    var sorted := Sort(KeyLeq, entries);
    forall e ensures e in sorted <==> DiffAt(fl, src, tgt, EntryKey(e)) == Some(e) {
      assert e in sorted <==> e in entries;
    }
  }

  // ---- collecting from the end ------------------------------------------------------------

  /** The positions of collectable facts from `i` on: increasing, and missing none. */
  function EligibleFrom(p: GcParams, facts: seq<Fact>, i: nat): (r: seq<nat>)
    requires i <= |facts|
    ensures forall k :: 0 <= k < |r| ==> i <= r[k] < |facts| && Collectable(p, facts[r[k]])
    ensures forall k, m :: 0 <= k < m < |r| ==> r[k] < r[m]
    ensures forall j :: i <= j < |facts| && Collectable(p, facts[j]) ==> j in r
    decreases |facts| - i
  {
    if i == |facts| then []
    else if Collectable(p, facts[i]) then [i] + EligibleFrom(p, facts, i + 1)
    else EligibleFrom(p, facts, i + 1)
  }

  lemma {:induction false} EligibleCount(p: GcParams, facts: seq<Fact>, i: nat)
    requires i <= |facts|
    ensures |EligibleFrom(p, facts, i)| == |facts| - i - |Filter(Kept(p), facts[i..])|
    decreases |facts| - i
  {
    if i < |facts| {
      EligibleCount(p, facts, i + 1);
      assert facts[i..][1..] == facts[i + 1..];
    }
  }

  /** Between one eligible position and the next nothing is collectable. */
  lemma GapIsKept(p: GcParams, facts: seq<Fact>, e: seq<nat>, k: nat, j: nat)
    requires e == EligibleFrom(p, facts, 0) && k < |e|
    requires e[k] < j < if k + 1 < |e| then e[k + 1] else |facts|
    ensures !Collectable(p, facts[j])
  {
    if Collectable(p, facts[j]) {
      var m :| 0 <= m < |e| && e[m] == j;
      if m != k && m != k + 1 {
        assert false;
      }
    }
  }

  /** Before the first eligible position nothing is collectable. */
  lemma NothingBefore(p: GcParams, facts: seq<Fact>, e: seq<nat>)
    requires e == EligibleFrom(p, facts, 0)
    ensures forall j :: 0 <= j < (if e == [] then |facts| else e[0]) ==> !Collectable(p, facts[j])
  {
  }

  /** Removing position `i`, with nothing collectable between it and the bound. */
  lemma RemovalStep(p: GcParams, before: seq<Fact>, i: nat, bound: nat)
    requires i < bound <= |before| && Collectable(p, before[i])
    requires forall j :: i < j < bound ==> !Collectable(p, before[j])
    ensures var now := before[..bound] + Filter(Kept(p), before[bound..]);
            now[..i] + now[i + 1..] == before[..i] + Filter(Kept(p), before[i..])
  {
    var between, after := before[i + 1..bound], Filter(Kept(p), before[bound..]);
    assert before[..bound] == before[..i] + [before[i]] + between;
    DropAt(before[..i], before[i], between, after);
    assert before[i..][1..] == between + before[bound..];
    FilterConcat(Kept(p), between, before[bound..]);
    FilterAll(Kept(p), between);
  }

  lemma DropAt<T>(a: seq<T>, x: T, b: seq<T>, c: seq<T>)
    ensures var s := a + [x] + b + c; s[..|a|] + s[|a| + 1..] == a + (b + c)
  {
  }

  lemma RemovalEnds(p: GcParams, before: seq<Fact>, bound: nat)
    requires bound <= |before| && forall j :: 0 <= j < bound ==> !Collectable(p, before[j])
    ensures before[..bound] + Filter(Kept(p), before[bound..]) == Filter(Kept(p), before)
  {
    FilterKeepsFront(Kept(p), before, bound);
  }

  // ---- listing ----------------------------------------------------------------------------

  function LiveEntities(facts: seq<Fact>, namespace: string, branch: string): set<string> {
    set f | f in facts && f.namespace == namespace && f.branch == branch && !f.retracted :: f.entity
  }

  function LiveAttrs(facts: seq<Fact>, namespace: string, branch: string, entity: string): set<string> {
    set f | f in facts && f.namespace == namespace && f.branch == branch && f.entity == entity && !f.retracted
      :: f.attr
  }

  /** Every name comes before every later one, by the first character that differs. */
  ghost predicate Ascend(names: seq<string>) {
    forall i, j :: 0 <= i < j < |names| ==> Before(names[i], names[j])
  }

  lemma StrictAscends(names: seq<string>)
    requires StrictlySorted(StrLeq, names)
    ensures Ascend(names)
  {
    forall i, j | 0 <= i < j < |names| ensures Before(names[i], names[j]) {
      StrictlyAt(StrLeq, names, i, j);
      CompareStrReverse(names[i], names[j]);
      CompareStrIs(names[i], names[j]);
    }
  }

  lemma StrLeqPreorder()
    ensures TotalPreorder(StrLeq)
  {
    forall a, b ensures StrLeq(a, b) || StrLeq(b, a) {
      CompareStrReverse(a, b);
    }
    forall a, b, c | StrLeq(a, b) && StrLeq(b, c) ensures StrLeq(a, c) {
      StrLeqTransitive(a, b, c);
    }
  }

  /** Adding a name not yet listed. */
  lemma NameIsNew(names: seq<string>, name: string)
    requires NoneEqual(StrLeq, names) && name !in names
    ensures NoneEqual(StrLeq, names + [name])
  {
    forall x | x in names ensures !StrLeq(x, name) || !StrLeq(name, x) {
      CompareStrReverse(x, name);
      CompareStrEqual(x, name);
    }
    NoneEqualSnoc(StrLeq, names, name);
  }
}
