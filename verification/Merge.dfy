/** What a merge means: what it appends, which facts it compares with, and what reads see afterwards. */
module Merge {
  import opened Base
  import opened Lists
  import opened StableSort
  import opened Ledger
  import opened Store
  import opened Reads
  import opened Writes

  // ---- the index ---------------------------------------------------------------------------

  function HasKey(k: Key): Fact -> bool {
    (f: Fact) => KeyOf(f) == k
  }

  predicate IsLiveAt(namespace: string, branch: string, k: Key, f: Fact) {
    IsLive(f, namespace, branch, k.0, k.1)
  }

  function LiveAt(namespace: string, branch: string, k: Key): Fact -> bool {
    (f: Fact) => IsLiveAt(namespace, branch, k, f)
  }

  /** The live facts of one key on a branch, in insertion order. */
  function LiveOf(s: State, namespace: string, branch: string, k: Key): seq<Fact> {
    Filter(LiveAt(namespace, branch, k), s.facts)
  }

  /** `f` is the oldest of `facts`, and every fact as old comes before it. */
  ghost predicate IsOldest(facts: seq<Fact>, f: Fact) {
    exists i :: && 0 <= i < |facts| && facts[i] == f
                && (forall j :: 0 <= j < |facts| ==> facts[j].txTime >= f.txTime)
                && (forall j :: i < j < |facts| ==> facts[j].txTime > f.txTime)
  }

  /** The fact with the least transaction time, the latest of those if there are several. */
  function Oldest(facts: seq<Fact>): Option<Fact> {
    if facts == [] then None
    else
      var best, first := Oldest(facts[1..]), facts[0];
      if best.None? || first.txTime < best.value.txTime then Some(first) else best
  }

  lemma {:induction false} OldestIs(facts: seq<Fact>)
    ensures Oldest(facts) == None <==> facts == []
    ensures forall f :: Oldest(facts) == Some(f) <==> IsOldest(facts, f)
  {
    if facts != [] {
      var best, rest := Oldest(facts[1..]), facts[1..];
      OldestIs(rest);
      if best.None? || facts[0].txTime < best.value.txTime {
        assert forall j :: 0 < j < |facts| ==> facts[j] == rest[j - 1];
        assert IsOldest(facts, facts[0]);
      } else {
        OlderInRest(facts, best.value);
      }
      forall f | IsOldest(facts, f) ensures Oldest(facts) == Some(f) {
        OldestUnique(facts, f, Oldest(facts).value);
      }
    }
  }

  lemma OlderInRest(facts: seq<Fact>, f: Fact)
    requires facts != [] && IsOldest(facts[1..], f) && f.txTime <= facts[0].txTime
    ensures IsOldest(facts, f)
  {
    var rest := facts[1..];
    var i :| && 0 <= i < |rest| && rest[i] == f && (forall j :: 0 <= j < |rest| ==> rest[j].txTime >= f.txTime)
             && (forall j :: i < j < |rest| ==> rest[j].txTime > f.txTime);
    assert facts[i + 1] == f;
    forall j | 0 <= j < |facts| ensures facts[j].txTime >= f.txTime {
      assert j > 0 ==> facts[j] == rest[j - 1];
    }
    forall j | i + 1 < j < |facts| ensures facts[j].txTime > f.txTime {
      assert facts[j] == rest[j - 1];
    }
  }

  lemma OldestUnique(facts: seq<Fact>, f: Fact, g: Fact)
    requires IsOldest(facts, f) && IsOldest(facts, g)
    ensures f == g
  {
  }

  function Last<T>(xs: seq<T>): Option<T> {
    if xs == [] then None else Some(xs[|xs| - 1])
  }

  lemma IndexSnoc(front: seq<Fact>, last: Fact, k: Key)
    requires Lookup(IndexOf(front), k) == Last(Filter(HasKey(k), front))
    ensures Lookup(IndexOf(front + [last]), k) == Last(Filter(HasKey(k), front + [last]))
  {
    LastKept(HasKey(k), front, last);
    assert (front + [last])[..|front|] == front;
  }

  lemma IndexStep(facts: seq<Fact>, k: Key, i: nat)
    requires i < |facts| && Lookup(IndexOf(facts[..i]), k) == Last(Filter(HasKey(k), facts[..i]))
    ensures Lookup(IndexOf(facts[..i + 1]), k) == Last(Filter(HasKey(k), facts[..i + 1]))
  {
    assert facts[..i + 1] == facts[..i] + [facts[i]];
    IndexSnoc(facts[..i], facts[i], k);
  }

  lemma {:induction false} IndexIsLast(facts: seq<Fact>, k: Key, i: nat)
    requires i <= |facts|
    ensures Lookup(IndexOf(facts[..i]), k) == Last(Filter(HasKey(k), facts[..i]))
  {
    if i > 0 {
      IndexIsLast(facts, k, i - 1);
      IndexStep(facts, k, i - 1);
    }
  }

  lemma LastKept<T>(q: T -> bool, front: seq<T>, last: T)
    ensures Last(Filter(q, front + [last])) == if q(last) then Some(last) else Last(Filter(q, front))
  {
    FilterSnoc(q, front, last);
  }

  lemma LastOfCons<T>(x: T, xs: seq<T>)
    ensures Last([x] + xs) == if xs == [] then Some(x) else Last(xs)
  {
  }

  lemma {:induction false} InsertLast(x: Fact, ys: seq<Fact>)
    requires Sorted(NewestFirst, ys)
    ensures Last(Insert(NewestFirst, x, ys)) ==
            if ys == [] || x.txTime < ys[|ys| - 1].txTime then Some(x) else Last(ys)
  {
    if ys != [] {
      if NewestFirst(x, ys[0]) {
        assert |ys| > 1 ==> ys[|ys| - 1] in ys[1..];
      } else {
        var rest := ys[1..];
        InsertLast(x, rest);
        LastOfCons(ys[0], Insert(NewestFirst, x, rest));
        LastOfCons(ys[0], rest);
        assert ys == [ys[0]] + rest;
      }
    }
  }

  lemma {:induction false} SortLast(facts: seq<Fact>)
    ensures Last(Sort(NewestFirst, facts)) == Oldest(facts)
  {
    if facts != [] {
      SortLast(facts[1..]);
      SortSorted(NewestFirst, facts[1..]);
      InsertLast(facts[0], Sort(NewestFirst, facts[1..]));
    }
  }

  /** The live facts of one key, as a scan lists them. */
  lemma KeyOfScan(s: State, namespace: string, branch: string, k: Key)
    ensures Filter(HasKey(k), LiveFacts(s, namespace, branch)) == Sort(NewestFirst, LiveOf(s, namespace, branch, k))
  {
    var live := Matching(LiveQuery(namespace, branch));
    FilterSort(NewestFirst, HasKey(k), Filter(live, s.facts));
    FilterFilter(HasKey(k), live, LiveAt(namespace, branch, k), s.facts);
  }

  /** The facts a merge or a diff reads from a branch are its live facts, newest first. */
  lemma LiveFactsAre(s: State, namespace: string, branch: string)
    ensures var live := LiveFacts(s, namespace, branch);
            && (forall f :: f in live <==> f in s.facts && IsLive(f, namespace, branch, f.entity, f.attr))
            && (forall i, j :: 0 <= i < j < |live| ==> live[i].txTime >= live[j].txTime)
  {
    ScanLists(s.facts, LiveQuery(namespace, branch));
  }

  lemma IndexOldest(s: State, namespace: string, branch: string, k: Key)
    ensures Lookup(BranchIndex(s, namespace, branch), k) == Oldest(LiveOf(s, namespace, branch, k))
  {
    var scan := LiveFacts(s, namespace, branch);
    IndexIsLast(scan, k, |scan|);
    assert scan[..|scan|] == scan;
    KeyOfScan(s, namespace, branch, k);
    SortLast(LiveOf(s, namespace, branch, k));
  }

  /**
   * The index built from a newest-first scan holds, for each live key, its oldest live fact: the latest inserted
   * on ties.
   */
  lemma IndexHoldsOldest(s: State, namespace: string, branch: string, k: Key)
    ensures var live := LiveOf(s, namespace, branch, k);
            var found := Lookup(BranchIndex(s, namespace, branch), k);
            (found == None <==> live == []) && (forall f :: found == Some(f) <==> IsOldest(live, f))
  {
    IndexOldest(s, namespace, branch, k);
    OldestIs(LiveOf(s, namespace, branch, k));
  }

  /** The policy is really last-write-wins for a key exactly when all its live facts in the target have one time. */
  lemma LastWriteWinsExactly(s: State, namespace: string, target: string, k: Key)
    requires LiveOf(s, namespace, target, k) != []
    ensures var live, idx := LiveOf(s, namespace, target, k), BranchIndex(s, namespace, target);
            (forall f: Fact | KeyOf(f) == k :: Applies(LastWriteWins, idx)(f) <==> f.txTime > Newest(live).value.txTime)
            <==> (forall a, b | a in live && b in live :: a.txTime == b.txTime)
  {
    var live, idx := LiveOf(s, namespace, target, k), BranchIndex(s, namespace, target);
    IndexHoldsOldest(s, namespace, target, k);
    NewestIs(live);
    var oldest, newest := idx[k], Newest(live).value;
    assert IsOldest(live, oldest) && IsNewest(live, newest);
    assert oldest in live && newest in live && KeyOf(newest) == k;
    forall a | a in live ensures oldest.txTime <= a.txTime <= newest.txTime {
    }
    if oldest.txTime < newest.txTime {
      assert Applies(LastWriteWins, idx)(newest);
    }
  }

  // ---- what is appended --------------------------------------------------------------------

  function Won(e: ConflictEntry): bool {
    e.resolution == TargetWins
  }

  lemma {:induction false} CountEntries(policy: MergePolicy, idx: map<Key, Fact>, src: seq<Fact>)
    ensures |Filter(Won, ConflictsOf(policy, idx, src))| + |Filter(Applies(policy, idx), src)| == |src|
  {
    if src != [] {
      CountEntries(policy, idx, src[1..]);
      if InConflict(idx, src[0]) {
        var entry, rest := EntryFor(policy, idx)(src[0]), ConflictsOf(policy, idx, src[1..]);
        assert Filter(Conflicting(idx), src)[1..] == Filter(Conflicting(idx), src[1..]);
        assert ConflictsOf(policy, idx, src) == [entry] + rest;
        assert ([entry] + rest)[1..] == rest;
      }
    }
  }

  /** The fact says what the source fact says, on the target branch, in the merge's one transaction, and is live. */
  predicate IsCopy(p: MergeParams, ts: u64, txId: TxId, f: Fact, copy: Fact) {
    && copy.entity == f.entity && copy.attr == f.attr && copy.value == f.value
    && copy.validFrom == f.validFrom && copy.validTo == f.validTo
    && copy.namespace == p.namespace && copy.branch == p.target
    && copy.author == p.author && copy.causedBy == p.causedBy
    && copy.txTime == ts && copy.txId == txId && !copy.retracted
  }

  /** The facts from position `n` on are copies of these, with the next ids. */
  ghost predicate CopiesFrom(p: MergeParams, ts: u64, txId: TxId, ids: nat -> FactId, facts: seq<Fact>, n: nat,
                             fs: seq<Fact>)
  {
    && |facts| == n + |fs|
    && forall i :: 0 <= i < |fs| ==> IsCopy(p, ts, txId, fs[i], facts[n + i]) && facts[n + i].id == ids(i)
  }

  lemma CopiesAreCopies(p: MergeParams, ts: u64, txId: TxId, ids: nat -> FactId, facts: seq<Fact>, fs: seq<Fact>)
    ensures CopiesFrom(p, ts, txId, ids, facts + Copies(p, fs, ts, txId, ids), |facts|, fs)
  {
    var copies := Copies(p, fs, ts, txId, ids);
    forall i | 0 <= i < |fs|
      ensures IsCopy(p, ts, txId, fs[i], (facts + copies)[|facts| + i])
           && (facts + copies)[|facts| + i].id == ids(i)
    {
      assert (facts + copies)[|facts| + i] == copies[i];
    }
  }

  /** The target has no live fact of the key, or last-write-wins and its oldest one is older than the source fact. */
  predicate IsLetThrough(s: State, p: MergeParams, f: Fact)
    requires p.namespace in s.namespaces
  {
    var oldest := Oldest(LiveOf(s, p.namespace, p.target, (f.entity, f.attr)));
    oldest.None? || (s.namespaces[p.namespace].mergePolicy == LastWriteWins && f.txTime > oldest.value.txTime)
  }

  function LetThrough(s: State, p: MergeParams): Fact -> bool
    requires p.namespace in s.namespaces
  {
    (f: Fact) => IsLetThrough(s, p, f)
  }

  lemma LetThroughApplies(s: State, p: MergeParams, fs: seq<Fact>)
    requires p.namespace in s.namespaces
    ensures Filter(LetThrough(s, p), fs)
         == Filter(Applies(s.namespaces[p.namespace].mergePolicy, BranchIndex(s, p.namespace, p.target)), fs)
  {
    var policy, idx := s.namespaces[p.namespace].mergePolicy, BranchIndex(s, p.namespace, p.target);
    forall f | f in fs ensures LetThrough(s, p)(f) == Applies(policy, idx)(f) {
      IndexOldest(s, p.namespace, p.target, KeyOf(f));
      AppliesOf(policy, idx, f, KeyOf(f));
    }
    FilterSame(LetThrough(s, p), Applies(policy, idx), fs);
  }

  /**
   * A merge keeps the facts before it as a prefix and appends a copy of each live source fact let through, in scan
   * order; every source fact is either appended or reported as won by the target; the conflicts are the source
   * facts whose key is live in the target.
   */
  lemma MergeAppends(s: State, p: MergeParams, ts: u64, txId: TxId, ids: nat -> FactId)
    requires p.namespace in s.namespaces && Store.Merge(s, p, ts, txId, ids).1.Ok?
    ensures var (after, r) := Store.Merge(s, p, ts, txId, ids);
            var src := LiveFacts(s, p.namespace, p.source);
            && s.facts <= after.facts && r.value.factsApplied == |Filter(LetThrough(s, p), src)|
            && CopiesFrom(p, ts, txId, ids, after.facts, |s.facts|, Filter(LetThrough(s, p), src))
            && r.value.txId == txId && r.value.ts == ts
            && r.value.factsApplied + |Filter(Won, r.value.conflicts)| == |src|
            && |r.value.conflicts| == |Filter(MeetsTarget(s, p), src)|
  {
    var src := LiveFacts(s, p.namespace, p.source);
    ReplayAppends(s, p, s.namespaces[p.namespace].mergePolicy, BranchIndex(s, p.namespace, p.target), src, ts, txId,
                  ids);
    LetThroughApplies(s, p, src);
    CopiesAreCopies(p, ts, txId, ids, s.facts, Filter(LetThrough(s, p), src));
    MergeReportsConflicts(s, p, ts, txId, ids);
  }

  lemma ReplayAppends(s: State, p: MergeParams, policy: MergePolicy, idx: map<Key, Fact>, src: seq<Fact>, ts: u64,
                      txId: TxId, ids: nat -> FactId)
    requires Replayed(s, p, policy, idx, src, ts, txId, ids).1.Ok?
    ensures var (after, r) := Replayed(s, p, policy, idx, src, ts, txId, ids);
            && after.facts == s.facts + Copies(p, Filter(Applies(policy, idx), src), ts, txId, ids)
            && r.value.factsApplied == |Filter(Applies(policy, idx), src)|
            && r.value.txId == txId && r.value.ts == ts
            && r.value.factsApplied + |Filter(Won, r.value.conflicts)| == |src|
  {
    ReplayAppendsFacts(s, p, policy, idx, src, ts, txId, ids);
    ReplayCounts(s, p, policy, idx, src, ts, txId, ids);
  }

  lemma ReplayAppendsFacts(s: State, p: MergeParams, policy: MergePolicy, idx: map<Key, Fact>, src: seq<Fact>, ts: u64,
                           txId: TxId, ids: nat -> FactId)
    requires Replayed(s, p, policy, idx, src, ts, txId, ids).1.Ok?
    ensures Replayed(s, p, policy, idx, src, ts, txId, ids).0.facts
         == s.facts + Copies(p, Filter(Applies(policy, idx), src), ts, txId, ids)
  {
    assert src[..|src|] == src;
  }

  lemma ReplayCounts(s: State, p: MergeParams, policy: MergePolicy, idx: map<Key, Fact>, src: seq<Fact>, ts: u64,
                     txId: TxId, ids: nat -> FactId)
    requires Replayed(s, p, policy, idx, src, ts, txId, ids).1.Ok?
    ensures var r := Replayed(s, p, policy, idx, src, ts, txId, ids).1.value;
            && r.factsApplied == |Filter(Applies(policy, idx), src)|
            && r.txId == txId && r.ts == ts
            && r.factsApplied + |Filter(Won, r.conflicts)| == |src|
  {
    assert src[..|src|] == src;
    CountEntries(policy, idx, src);
  }

  /** The source fact's key is live in the target. */
  function MeetsTarget(s: State, p: MergeParams): Fact -> bool {
    (f: Fact) => LiveOf(s, p.namespace, p.target, KeyOf(f)) != []
  }

  /** The entry names the source fact, the oldest live fact of its key in the target, and which of them wins. */
  predicate Reports(s: State, p: MergeParams, f: Fact, e: ConflictEntry)
    requires p.namespace in s.namespaces
  {
    var oldest := Oldest(LiveOf(s, p.namespace, p.target, KeyOf(f)));
    && e.entity == f.entity && e.attr == f.attr && e.sourceFact == f.id
    && oldest.Some? && e.targetFact == oldest.value.id
    && (e.resolution == SourceWins <==>
        s.namespaces[p.namespace].mergePolicy == LastWriteWins && f.txTime > oldest.value.txTime)
  }

  /** The conflicts are reported in scan order: one for each source fact whose key is live in the target. */
  lemma MergeReportsConflicts(s: State, p: MergeParams, ts: u64, txId: TxId, ids: nat -> FactId)
    requires p.namespace in s.namespaces && Store.Merge(s, p, ts, txId, ids).1.Ok?
    ensures var met := Filter(MeetsTarget(s, p), LiveFacts(s, p.namespace, p.source));
            var conflicts := Store.Merge(s, p, ts, txId, ids).1.value.conflicts;
            |conflicts| == |met| && forall i :: 0 <= i < |met| ==> Reports(s, p, met[i], conflicts[i])
  {
    var src, idx := LiveFacts(s, p.namespace, p.source), BranchIndex(s, p.namespace, p.target);
    forall f | f in src ensures Conflicting(idx)(f) == MeetsTarget(s, p)(f) {
      TargetIndexed(s, p, f);
    }
    FilterSame(Conflicting(idx), MeetsTarget(s, p), src);
    var met := Filter(Conflicting(idx), src);
    forall i | 0 <= i < |met|
      ensures Reports(s, p, met[i], EntryFor(s.namespaces[p.namespace].mergePolicy, idx)(met[i]))
    {
      assert met[i] in met;
      TargetIndexed(s, p, met[i]);
    }
  }

  lemma TargetIndexed(s: State, p: MergeParams, f: Fact)
    requires p.namespace in s.namespaces
    ensures var idx := BranchIndex(s, p.namespace, p.target);
            && Conflicting(idx)(f) == MeetsTarget(s, p)(f)
            && (Conflicting(idx)(f) ==>
                  Reports(s, p, f, EntryFor(s.namespaces[p.namespace].mergePolicy, idx)(f)))
  {
    IndexOldest(s, p.namespace, p.target, KeyOf(f));
    OldestIs(LiveOf(s, p.namespace, p.target, KeyOf(f)));
    AppliesOf(s.namespaces[p.namespace].mergePolicy, BranchIndex(s, p.namespace, p.target), f, KeyOf(f));
  }

  /** Under ErrorOnConflict a merge that fails has recorded the `n` source facts before the first conflict. */
  lemma FailedMergeKeepsPrefix(s: State, p: MergeParams, ts: u64, txId: TxId, ids: nat -> FactId) returns (n: nat)
    requires p.namespace in s.namespaces && Store.Merge(s, p, ts, txId, ids).1.Err?
    ensures s.namespaces[p.namespace].mergePolicy == ErrorOnConflict
    ensures var src := LiveFacts(s, p.namespace, p.source);
            var (after, r) := Store.Merge(s, p, ts, txId, ids);
            && n < |src| && MeetsTarget(s, p)(src[n]) && (forall j :: 0 <= j < n ==> !MeetsTarget(s, p)(src[j]))
            && r == Err(Conflict(src[n].entity, src[n].attr))
            && s.facts <= after.facts && CopiesFrom(p, ts, txId, ids, after.facts, |s.facts|, src[..n])
            && (after == s <==> n == 0)
  {
    n := ReplayFails(s, p, s.namespaces[p.namespace].mergePolicy, BranchIndex(s, p.namespace, p.target),
                     LiveFacts(s, p.namespace, p.source), ts, txId, ids);
    forall j | 0 <= j <= n
      ensures MeetsTarget(s, p)(LiveFacts(s, p.namespace, p.source)[j])
           == InConflict(BranchIndex(s, p.namespace, p.target), LiveFacts(s, p.namespace, p.source)[j])
    {
      TargetIndexed(s, p, LiveFacts(s, p.namespace, p.source)[j]);
    }
    CopiesAreCopies(p, ts, txId, ids, s.facts, LiveFacts(s, p.namespace, p.source)[..n]);
  }

  lemma ReplayFails(s: State, p: MergeParams, policy: MergePolicy, idx: map<Key, Fact>, src: seq<Fact>, ts: u64,
                    txId: TxId, ids: nat -> FactId) returns (n: nat)
    requires Replayed(s, p, policy, idx, src, ts, txId, ids).1.Err?
    ensures policy == ErrorOnConflict
    ensures var (after, r) := Replayed(s, p, policy, idx, src, ts, txId, ids);
            && n < |src| && InConflict(idx, src[n]) && (forall j :: 0 <= j < n ==> !InConflict(idx, src[j]))
            && r == Err(Conflict(src[n].entity, src[n].attr))
            && after.facts == s.facts + Copies(p, src[..n], ts, txId, ids)
            && (after == s <==> n == 0)
  {
    n := Processed(policy, idx, src);
    FilterAll(Applies(policy, idx), src[..n]);
    NoCopiesNoChange(s, p, src[..n], ts, txId, ids);
  }

  lemma NoCopiesNoChange(s: State, p: MergeParams, fs: seq<Fact>, ts: u64, txId: TxId, ids: nat -> FactId)
    ensures AfterCopies(s, p, fs, ts, txId, ids) == s <==> fs == []
  {
    var copies := Copies(p, fs, ts, txId, ids);
    assert |s.facts + copies| == |s.facts| + |fs|;
    assert fs == [] ==> s.facts + copies == s.facts;
  }

  /** The whole merge is one transaction that counts what was applied, and the target's head. */
  lemma MergeIsOneTransaction(s: State, p: MergeParams, ts: u64, txId: TxId, ids: nat -> FactId)
    requires p.namespace in s.namespaces && forall t :: t in s.transactions ==> t.id != txId
    ensures var (after, r) := Store.Merge(s, p, ts, txId, ids);
            var applied := |after.facts| - |s.facts|;
            && after.transactions == s.transactions
               + (if applied == 0 then []
                  else [Transaction(txId, p.namespace, p.target, ts, p.author, p.message, applied, p.causedBy)])
            && (if applied == 0 then after.branches == s.branches
                else HeadMoved(s.branches, after.branches, p.namespace, p.target, txId))
            && after.namespaces == s.namespaces && after.idem == s.idem
  {
    var policy := s.namespaces[p.namespace].mergePolicy;
    var src, idx := LiveFacts(s, p.namespace, p.source), BranchIndex(s, p.namespace, p.target);
    TouchEachCounts(s.transactions, p, Filter(Applies(policy, idx), src[..Processed(policy, idx, src)]), ts, txId);
    HeadIsSet(s.branches, p.namespace, p.target, txId);
  }

  lemma {:induction false} TouchEachCounts(txs: seq<Transaction>, p: MergeParams, fs: seq<Fact>, ts: u64, txId: TxId)
    requires forall t :: t in txs ==> t.id != txId
    ensures TouchEach(txs, p, fs, ts, txId) == txs
              + (if fs == [] then []
                 else [Transaction(txId, p.namespace, p.target, ts, p.author, p.message, |fs|, p.causedBy)])
  {
    if fs != [] {
      var front := fs[..|fs| - 1];
      TouchEachCounts(txs, p, front, ts, txId);
      var n := |front|;
      if n == 0 {
        assert TouchEach(txs, p, front, ts, txId) == txs;
        TouchNew(txs, CopyParams(p, fs[n], ts, txId));
      } else {
        TouchLast(txs, Transaction(txId, p.namespace, p.target, ts, p.author, p.message, n, p.causedBy),
                  CopyParams(p, fs[n], ts, txId));
      }
    }
  }

  lemma {:induction false} TouchNew(txs: seq<Transaction>, p: RecordParams)
    requires forall t :: t in txs ==> t.id != p.txId
    ensures Touch(txs, p) ==
            txs + [Transaction(p.txId, p.namespace, p.branch, p.txTime, p.author, p.message, 1, p.causedBy)]
  {
    if txs != [] {
      TouchNew(txs[1..], p);
      assert txs == [txs[0]] + txs[1..];
    }
  }

  lemma {:induction false} TouchLast(txs: seq<Transaction>, last: Transaction, p: RecordParams)
    requires (forall t :: t in txs ==> t.id != p.txId) && last.id == p.txId
    ensures Touch(txs + [last], p) == txs + [last.(factCount := last.factCount + 1)]
  {
    var all := txs + [last];
    if txs == [] {
      assert all[1..] == [];
    } else {
      assert all[0] == txs[0] && all[1..] == txs[1..] + [last];
      TouchLast(txs[1..], last, p);
      assert txs == [txs[0]] + txs[1..];
    }
  }

  /** Recording one more copy. */
  lemma CopyStep(s: State, p: MergeParams, done: seq<Fact>, f: Fact, ts: u64, txId: TxId, ids: nat -> FactId)
    ensures Store.Record(AfterCopies(s, p, done, ts, txId, ids), CopyParams(p, f, ts, txId), ids(|done|)).0
         == AfterCopies(s, p, done + [f], ts, txId, ids)
  {
    TouchSnoc(s.transactions, p, done, f, ts, txId);
    CopiesSnoc(p, done, f, ts, txId, ids);
    AppendAssoc(s.facts, Copies(p, done, ts, txId, ids), [Copy(p, f, ts, txId, ids(|done|))]);
  }

  lemma CopiesSnoc(p: MergeParams, done: seq<Fact>, f: Fact, ts: u64, txId: TxId, ids: nat -> FactId)
    ensures Copies(p, done + [f], ts, txId, ids)
         == Copies(p, done, ts, txId, ids) + [Copy(p, f, ts, txId, ids(|done|))]
  {
  }

  lemma TouchSnoc(txs: seq<Transaction>, p: MergeParams, done: seq<Fact>, f: Fact, ts: u64, txId: TxId)
    ensures TouchEach(txs, p, done + [f], ts, txId)
         == Touch(TouchEach(txs, p, done, ts, txId), CopyParams(p, f, ts, txId))
  {
    assert (done + [f])[..|done|] == done;
  }

  lemma AppendAssoc<T>(a: seq<T>, b: seq<T>, c: seq<T>)
    ensures a + (b + c) == (a + b) + c
  {
  }

  /** Reads of every other branch and namespace are unchanged. */
  lemma MergeLeavesOthers(s: State, p: MergeParams, ts: u64, txId: TxId, ids: nat -> FactId, q: ScanQuery)
    requires q.branch != p.target || q.namespace != p.namespace
    ensures Scan(Store.Merge(s, p, ts, txId, ids).0.facts, q) == Scan(s.facts, q)
  {
    if p.namespace in s.namespaces {
      var policy := s.namespaces[p.namespace].mergePolicy;
      var src, idx := LiveFacts(s, p.namespace, p.source), BranchIndex(s, p.namespace, p.target);
      var applied := Filter(Applies(policy, idx), src[..Processed(policy, idx, src)]);
      ScanIgnores(s.facts, Copies(p, applied, ts, txId, ids), q);
    }
  }

  // ---- what reads see afterwards -----------------------------------------------------------

  lemma {:induction false} FirstKept<T>(q: T -> bool, xs: seq<T>) returns (i: nat)
    requires exists x :: x in xs && q(x)
    ensures i < |xs| && q(xs[i]) && (forall j :: 0 <= j < i ==> !q(xs[j]))
    ensures Filter(q, xs) != [] && Filter(q, xs)[0] == xs[i]
  {
    if q(xs[0]) {
      i := 0;
    } else {
      var k := FirstKept(q, xs[1..]);
      i := k + 1;
      forall j | 0 <= j < i ensures !q(xs[j]) {
        assert j > 0 ==> xs[j] == xs[1..][j - 1];
      }
    }
  }

  /** The merge comes to the fact before it is refused, if it is. */
  predicate Reached(s: State, p: MergeParams, f: Fact)
    requires p.namespace in s.namespaces
  {
    var src := LiveFacts(s, p.namespace, p.source);
    f in src[..Processed(s.namespaces[p.namespace].mergePolicy, BranchIndex(s, p.namespace, p.target), src)]
  }

  /** The source has a newer fact than the one the target is indexed by, or the target has none. */
  predicate Replaces(s: State, p: MergeParams, k: Key)
    requires p.namespace in s.namespaces
  {
    var newest, oldest := Newest(LiveOf(s, p.namespace, p.source, k)), Oldest(LiveOf(s, p.namespace, p.target, k));
    && newest.Some? && Reached(s, p, newest.value)
    && (oldest.None?
        || (s.namespaces[p.namespace].mergePolicy == LastWriteWins && newest.value.txTime > oldest.value.txTime))
  }

  /** A merge that succeeds comes to every source fact. */
  lemma SuccessReachesAll(s: State, p: MergeParams, ts: u64, txId: TxId, ids: nat -> FactId, k: Key)
    requires p.namespace in s.namespaces && Store.Merge(s, p, ts, txId, ids).1.Ok?
    ensures var newest := Newest(LiveOf(s, p.namespace, p.source, k));
            newest.Some? ==> Reached(s, p, newest.value)
  {
    var src := LiveFacts(s, p.namespace, p.source);
    assert src[..|src|] == src;
    ScanFirst(s, p.namespace, p.source, k);
    if Filter(HasKey(k), src) != [] {
      assert Filter(HasKey(k), src)[0] in Filter(HasKey(k), src);
    }
  }

  /** The first fact applied for a key is the newest live source fact of that key. */
  lemma FirstApplied(policy: MergePolicy, idx: map<Key, Fact>, src: seq<Fact>, k: Key)
    requires Sorted(NewestFirst, src)
    ensures var ofKey, applied := Filter(HasKey(k), src), Filter(HasKey(k), Filter(Applies(policy, idx), src));
            && (applied != [] <==> ofKey != [] && Applies(policy, idx)(ofKey[0]))
            && (applied != [] ==> applied[0] == ofKey[0])
  {
    var ofKey, applied := Filter(HasKey(k), src), Filter(HasKey(k), Filter(Applies(policy, idx), src));
    var both := (f: Fact) => Applies(policy, idx)(f) && HasKey(k)(f);
    FilterFilter(HasKey(k), Applies(policy, idx), both, src);
    forall f, g | f in src && g in src && HasKey(k)(f) && HasKey(k)(g) && NewestFirst(f, g) && Applies(policy, idx)(g)
      ensures Applies(policy, idx)(f)
    {
    }
    FirstOfBoth(HasKey(k), Applies(policy, idx), both, src);
  }

  /** If letting a later one through means letting an earlier one through, the first is the first let through. */
  lemma FirstOfBoth(q: Fact -> bool, applies: Fact -> bool, both: Fact -> bool, src: seq<Fact>)
    requires Sorted(NewestFirst, src) && forall f :: both(f) <==> applies(f) && q(f)
    requires forall f, g | f in src && g in src && q(f) && q(g) && NewestFirst(f, g) :: applies(g) ==> applies(f)
    ensures Filter(both, src) != [] <==> Filter(q, src) != [] && applies(Filter(q, src)[0])
    ensures Filter(both, src) != [] ==> Filter(both, src)[0] == Filter(q, src)[0]
  {
    assert forall f :: f in Filter(both, src) ==> f in Filter(q, src);
    if Filter(q, src) == [] {
      FilterNone(both, src);
    } else {
      var i := FirstKept(q, src);
      if Filter(both, src) != [] {
        var j := FirstKept(both, src);
        assert both(src[j]) && i <= j;
        if i < j {
          SortedAt(NewestFirst, src, i, j);
        }
        assert both(src[i]);
      }
    }
  }

  /** Among the copies, those of one key as a point read sees them. */
  lemma CopiesOfKey(p: MergeParams, fs: seq<Fact>, ts: u64, txId: TxId, ids: nat -> FactId, k: Key, at: u64)
    requires ts <= at
    ensures var q := AsofQuery(p.namespace, p.target, k.0, k.1, at);
            var seen, ofKey := Filter(Matching(q), Copies(p, fs, ts, txId, ids)), Filter(HasKey(k), fs);
            && (seen != [] <==> ofKey != [])
            && (seen != [] ==> IsCopy(p, ts, txId, ofKey[0], seen[0]))
            && (forall f :: f in seen ==> f.txTime == ts)
  {
    var q, copies := AsofQuery(p.namespace, p.target, k.0, k.1, at), Copies(p, fs, ts, txId, ids);
    FirstAlike(Matching(q), copies, HasKey(k), fs);
  }

  /** Two sequences filtered alike start at the same position. */
  lemma {:induction false} FirstAlike<T, U>(q: T -> bool, xs: seq<T>, r: U -> bool, ys: seq<U>)
    requires |xs| == |ys| && forall i :: 0 <= i < |xs| ==> q(xs[i]) == r(ys[i])
    ensures Filter(q, xs) != [] <==> Filter(r, ys) != []
    ensures Filter(q, xs) != [] ==>
              exists i :: 0 <= i < |xs| && Filter(q, xs)[0] == xs[i] && Filter(r, ys)[0] == ys[i]
  {
    if xs != [] {
      if q(xs[0]) {
        assert Filter(q, xs)[0] == xs[0] && Filter(r, ys)[0] == ys[0];
      } else {
        FirstAlike(q, xs[1..], r, ys[1..]);
        if Filter(q, xs) != [] {
          var i :| 0 <= i < |xs[1..]| && Filter(q, xs[1..])[0] == xs[1..][i] && Filter(r, ys[1..])[0] == ys[1..][i];
          assert xs[1..][i] == xs[i + 1] && ys[1..][i] == ys[i + 1];
        }
      }
    }
  }

  /**
   * After a merge, successful or refused, a read of the target at the merge's time or later answers with the copy
   * of the key's newest live source fact if the source replaces the key and the merge's time overtakes the answer
   * there was, and as before otherwise.
   */
  lemma AsofAfterMerge(s: State, p: MergeParams, ts: u64, txId: TxId, ids: nat -> FactId, k: Key, at: u64)
    requires p.namespace in s.namespaces && ts <= at
    ensures var was := Asof(s.facts, p.namespace, p.target, k.0, k.1, at);
            var answer := Asof(Store.Merge(s, p, ts, txId, ids).0.facts, p.namespace, p.target, k.0, k.1, at);
            if Replaces(s, p, k) && Overtakes(ts, was) then
              answer.Some? && IsCopy(p, ts, txId, Newest(LiveOf(s, p.namespace, p.source, k)).value, answer.value)
            else answer == was
  {
    var policy := s.namespaces[p.namespace].mergePolicy;
    var src, idx := LiveFacts(s, p.namespace, p.source), BranchIndex(s, p.namespace, p.target);
    var applied := Filter(Applies(policy, idx), src[..Processed(policy, idx, src)]);
    var q, copies := AsofQuery(p.namespace, p.target, k.0, k.1, at), Copies(p, applied, ts, txId, ids);
    ReplacesIs(s, p, k);
    CopiesOfKey(p, applied, ts, txId, ids, k, at);
    FilterConcat(Matching(q), s.facts, copies);
    ScanOne(s.facts, q);
    ScanOne(s.facts + copies, q);
    NewestAppend(Filter(Matching(q), s.facts), Filter(Matching(q), copies), ts);
  }

  /** The merge writes to the branch no later than `at`, replaces the key, and overtakes the answer there is. */
  predicate Disturbs(s: State, p: MergeParams, ts: u64, namespace: string, branch: string, k: Key, at: u64) {
    && namespace == p.namespace && branch == p.target && namespace in s.namespaces && ts <= at
    && Replaces(s, p, k) && Overtakes(ts, Asof(s.facts, namespace, branch, k.0, k.1, at))
  }

  /** The answer moves exactly if the merge disturbs it, and then to a fact of the merge's time. */
  ghost predicate MovesExactly(s: State, p: MergeParams, ts: u64, namespace: string, branch: string, k: Key, at: u64,
                               now: Option<Fact>)
  {
    var was := Asof(s.facts, namespace, branch, k.0, k.1, at);
    && (now != was <==> Disturbs(s, p, ts, namespace, branch, k, at))
    && (now != was ==> now.Some? && now.value.txTime == ts)
  }

  lemma StaysExactly(s: State, p: MergeParams, ts: u64, namespace: string, branch: string, k: Key, at: u64)
    requires namespace != p.namespace || branch != p.target || namespace !in s.namespaces || at < ts
    ensures MovesExactly(s, p, ts, namespace, branch, k, at, Asof(s.facts, namespace, branch, k.0, k.1, at))
  {
  }

  lemma TargetMovesExactly(s: State, p: MergeParams, ts: u64, txId: TxId, ids: nat -> FactId, k: Key, at: u64)
    requires p.namespace in s.namespaces && ts <= at
    ensures MovesExactly(s, p, ts, p.namespace, p.target, k, at,
                         Asof(Store.Merge(s, p, ts, txId, ids).0.facts, p.namespace, p.target, k.0, k.1, at))
  {
    StampAfterMerge(s, p, ts, txId, ids, k, at);
    MovesTo(s, p, ts, k, at,
            Asof(Store.Merge(s, p, ts, txId, ids).0.facts, p.namespace, p.target, k.0, k.1, at));
  }

  lemma StampAfterMerge(s: State, p: MergeParams, ts: u64, txId: TxId, ids: nat -> FactId, k: Key, at: u64)
    requires p.namespace in s.namespaces && ts <= at
    ensures var was := Asof(s.facts, p.namespace, p.target, k.0, k.1, at);
            var now := Asof(Store.Merge(s, p, ts, txId, ids).0.facts, p.namespace, p.target, k.0, k.1, at);
            if Replaces(s, p, k) && Overtakes(ts, was) then now.Some? && now.value.txTime == ts else now == was
  {
    AsofAfterMerge(s, p, ts, txId, ids, k, at);
  }

  /** An answer stamped `ts` in place of one it overtakes is another. */
  lemma MovesTo(s: State, p: MergeParams, ts: u64, k: Key, at: u64, now: Option<Fact>)
    requires p.namespace in s.namespaces && ts <= at
    requires var was := Asof(s.facts, p.namespace, p.target, k.0, k.1, at);
             if Replaces(s, p, k) && Overtakes(ts, was) then now.Some? && now.value.txTime == ts else now == was
    ensures MovesExactly(s, p, ts, p.namespace, p.target, k, at, now)
  {
  }

  /** Whether a merge changes a read at one time of one key of one branch. */
  lemma MergeChangesAsofExactly(s: State, p: MergeParams, ts: u64, txId: TxId, ids: nat -> FactId, namespace: string,
                                branch: string, k: Key, at: u64)
    ensures MovesExactly(s, p, ts, namespace, branch, k, at,
                         Asof(Store.Merge(s, p, ts, txId, ids).0.facts, namespace, branch, k.0, k.1, at))
  {
    if namespace != p.namespace || branch != p.target {
      MergeLeavesOthers(s, p, ts, txId, ids, AsofQuery(namespace, branch, k.0, k.1, at));
      StaysExactly(s, p, ts, namespace, branch, k, at);
    } else if p.namespace !in s.namespaces {
      StaysExactly(s, p, ts, namespace, branch, k, at);
    } else if ts <= at {
      TargetMovesExactly(s, p, ts, txId, ids, k, at);
    } else {
      AsofBeforeMerge(s, p, ts, txId, ids, branch, k, at);
      StaysExactly(s, p, ts, namespace, branch, k, at);
    }
  }

  /** A key is replaced exactly when some source fact of the key is applied; the first is the newest. */
  lemma ReplacesIs(s: State, p: MergeParams, k: Key)
    requires p.namespace in s.namespaces
    ensures var policy := s.namespaces[p.namespace].mergePolicy;
            var src, idx := LiveFacts(s, p.namespace, p.source), BranchIndex(s, p.namespace, p.target);
            var applied := Filter(HasKey(k), Filter(Applies(policy, idx), src[..Processed(policy, idx, src)]));
            && (Replaces(s, p, k) <==> applied != [])
            && (applied != [] ==> Newest(LiveOf(s, p.namespace, p.source, k)) == Some(applied[0]))
  {
    var policy := s.namespaces[p.namespace].mergePolicy;
    var src, idx := LiveFacts(s, p.namespace, p.source), BranchIndex(s, p.namespace, p.target);
    ScanFirst(s, p.namespace, p.source, k);
    IndexOldest(s, p.namespace, p.target, k);
    LiveFactsSorted(s, p.namespace, p.source);
    FrontReplaces(policy, idx, src, Processed(policy, idx, src), k);
  }

  lemma LiveFactsSorted(s: State, namespace: string, branch: string)
    ensures Sorted(NewestFirst, LiveFacts(s, namespace, branch))
  {
    SortSorted(NewestFirst, Filter(Matching(LiveQuery(namespace, branch)), s.facts));
  }

  /** The newest source fact of the key was applied, and first, among the first `n`. */
  predicate FirstOfKey(policy: MergePolicy, idx: map<Key, Fact>, src: seq<Fact>, front: seq<Fact>, k: Key) {
    var newest, oldest := First(Filter(HasKey(k), src)), Lookup(idx, k);
    var applied := Filter(HasKey(k), Filter(Applies(policy, idx), front));
    && (applied != [] <==>
        && newest.Some? && newest.value in front
        && (oldest.None? || (policy == LastWriteWins && newest.value.txTime > oldest.value.txTime)))
    && (applied != [] ==> newest == Some(applied[0]))
  }

  lemma FrontReplaces(policy: MergePolicy, idx: map<Key, Fact>, src: seq<Fact>, n: nat, k: Key)
    requires Sorted(NewestFirst, src) && n <= |src|
    ensures FirstOfKey(policy, idx, src, src[..n], k)
  {
    SortedPrefix(NewestFirst, src, n);
    Rejoin(src, n);
    FirstReplaces(policy, idx, src, src[..n], src[n..], k);
  }

  lemma Rejoin<T>(xs: seq<T>, n: nat)
    requires n <= |xs|
    ensures xs == xs[..n] + xs[n..]
  {
  }

  lemma FirstReplaces(policy: MergePolicy, idx: map<Key, Fact>, src: seq<Fact>, front: seq<Fact>, rest: seq<Fact>,
                      k: Key)
    requires src == front + rest && Sorted(NewestFirst, front)
    ensures FirstOfKey(policy, idx, src, front, k)
  {
    var ofKey := Filter(HasKey(k), front);
    FirstApplied(policy, idx, front, k);
    FirstInFront(HasKey(k), front, rest);
    if ofKey != [] {
      HeadPasses(HasKey(k), front);
      AppliesOf(policy, idx, ofKey[0], k);
    }
  }

  lemma HeadPasses<T>(q: T -> bool, xs: seq<T>)
    requires Filter(q, xs) != []
    ensures q(Filter(q, xs)[0])
  {
    assert Filter(q, xs)[0] in Filter(q, xs);
  }

  lemma AppliesOf(policy: MergePolicy, idx: map<Key, Fact>, f: Fact, k: Key)
    requires HasKey(k)(f)
    ensures Applies(policy, idx)(f) <==>
            Lookup(idx, k).None? || (policy == LastWriteWins && f.txTime > Lookup(idx, k).value.txTime)
  {
  }

  lemma FirstInFront<T>(q: T -> bool, front: seq<T>, rest: seq<T>)
    ensures var all, kept := Filter(q, front + rest), Filter(q, front);
            && (kept != [] <==> all != [] && all[0] in front)
            && (kept != [] ==> all[0] == kept[0])
  {
    FilterConcat(q, front, rest);
    var all := Filter(q, front + rest);
    if all != [] {
      var first := all[0];
      assert first in all;
      if first in front {
        assert first in Filter(q, front);
      }
    }
  }

  lemma ScanFirst(s: State, namespace: string, branch: string, k: Key)
    ensures First(Filter(HasKey(k), LiveFacts(s, namespace, branch))) == Newest(LiveOf(s, namespace, branch, k))
  {
    KeyOfScan(s, namespace, branch, k);
    SortFirst(LiveOf(s, namespace, branch, k));
  }

  /** Reads at earlier times are unchanged. */
  lemma AsofBeforeMerge(s: State, p: MergeParams, ts: u64, txId: TxId, ids: nat -> FactId, branch: string, k: Key,
                        at: u64)
    requires at < ts
    ensures Asof(Store.Merge(s, p, ts, txId, ids).0.facts, p.namespace, branch, k.0, k.1, at)
         == Asof(s.facts, p.namespace, branch, k.0, k.1, at)
  {
    if p.namespace in s.namespaces {
      var policy := s.namespaces[p.namespace].mergePolicy;
      var src, idx := LiveFacts(s, p.namespace, p.source), BranchIndex(s, p.namespace, p.target);
      var applied := Filter(Applies(policy, idx), src[..Processed(policy, idx, src)]);
      ScanIgnores(s.facts, Copies(p, applied, ts, txId, ids), AsofQuery(p.namespace, branch, k.0, k.1, at));
    }
  }
}
