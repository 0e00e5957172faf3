/** The retention loops: what they compute from key to key, and what every pass keeps, loses and leaves. */
module RetentionLoops {
  import opened Base
  import opened Lists
  import opened StableSort
  import opened Strings
  import opened Ledger
  import opened Store
  import opened Merge
  import opened MemoryStore
  import opened Generators
  import opened Retention
  import opened RetentionHistory
  import opened RetentionPass

  datatype RetentionResult = RetentionResult(inspected: nat, eligible: nat, retracted: nat, branchesProcessed: nat)

  /** How far a pass has come: the store, the ticks and readings of the clock drawn, and the result so far. */
  datatype Pass = Pass(s: State, used: nat, looked: nat, result: RetentionResult)

  // ---- what the loops compute --------------------------------------------------------------

  /** What one key of a branch does to a pass. */
  type Step = (Pass, string, Key) -> Result<Pass, Error>

  /** One key: the cutoff by the next reading of the clock, the key's history retained, and the counts. */
  function KeyStep(src: Sources, namespace: string, policy: RetentionPolicy): Step {
    (p: Pass, branch: string, k: Key) =>
      Advance(p, RetainKey(p.s, namespace, branch, k, policy, Cutoff(policy, src.nowMs(p.looked)), src.ticks,
                           src.txIds, p.used))
  }

  /** The step is that of the loops: what it does to a key is looked up where the key's retention is at hand. */
  ghost predicate IsStep(step: Step, src: Sources, namespace: string, policy: RetentionPolicy) {
    forall p: Pass, branch: string, k: Key
      {:trigger RetainKey(p.s, namespace, branch, k, policy, Cutoff(policy, src.nowMs(p.looked)), src.ticks, src.txIds,
                          p.used)} ::
      step(p, branch, k) == Advance(p, RetainKey(p.s, namespace, branch, k, policy,
                                                 Cutoff(policy, src.nowMs(p.looked)), src.ticks, src.txIds, p.used))
  }

  lemma KeyStepIs(src: Sources, namespace: string, policy: RetentionPolicy)
    ensures IsStep(KeyStep(src, namespace, policy), src, namespace, policy)
  {
  }

  function Advance(p: Pass, r: Result<Retained, Error>): Result<Pass, Error> {
    if r.Err? then Err(r.error) else Ok(Next(p, r.value))
  }

  function Next(p: Pass, r: Retained): Pass {
    Pass(r.s, r.used, p.looked + 1, Tally(p.result, r.inspected, r.eligible, p.used, r.used))
  }

  /** One more key: its history, its eligible facts, and one retract for each tick. */
  function Tally(result: RetentionResult, inspected: nat, eligible: nat, drawn: nat, used: nat): RetentionResult {
    result.(inspected := result.inspected + inspected, eligible := result.eligible + eligible,
            retracted := result.retracted + if used <= drawn then 0 else used - drawn)
  }

  function AttrsPass(step: Step, p: Pass, branch: string, entity: string, attrs: seq<string>): Result<Pass, Error>
    decreases |attrs|
  {
    if attrs == [] then Ok(p)
    else
      var r := step(p, branch, (entity, attrs[0]));
      if r.Err? then r else AttrsPass(step, r.value, branch, entity, attrs[1..])
  }

  ghost predicate InOrderOf(r: seq<string>, names: set<string>) {
    StrictlySorted(StrLeq, r) && forall n :: n in r <==> n in names
  }

  /** The names in order. */
  ghost function Listed(names: set<string>): (r: seq<string>)
    ensures InOrderOf(r, names)
  {
    Orderable(names);
    var r :| InOrderOf(r, names);
    r
  }

  lemma {:induction false} Orderable(names: set<string>)
    ensures exists r :: InOrderOf(r, names)
  {
    if names == {} {
      assert InOrderOf([], names);
    } else {
      var n :| n in names;
      Orderable(names - {n});
      var rest :| InOrderOf(rest, names - {n});
      NewIsStrict(n, rest);
      assert InOrderOf(Insert(StrLeq, n, rest), names);
    }
  }

  lemma NewIsStrict(n: string, rest: seq<string>)
    requires StrictlySorted(StrLeq, rest) && n !in rest
    ensures StrictlySorted(StrLeq, Insert(StrLeq, n, rest))
    ensures forall x :: x in Insert(StrLeq, n, rest) <==> x == n || x in rest
  {
    StrLeqPreorder();
    forall y | y in rest ensures !StrLeq(n, y) || !StrLeq(y, n) {
      CompareStrReverse(n, y);
      CompareStrEqual(n, y);
    }
    InsertStrict(StrLeq, n, rest);
  }

  lemma ListedIs(names: set<string>, xs: seq<string>)
    requires StrictlySorted(StrLeq, xs) && forall n :: n in xs <==> n in names
    ensures Listed(names) == xs
  {
    assert InOrderOf(Listed(names), names);
    StrictlySortedUnique(StrLeq, Listed(names), xs);
  }

  /** One entity: its live attributes, as listed when its turn comes. */
  ghost function EntityPass(step: Step, p: Pass, namespace: string, branch: string, entity: string):
    Result<Pass, Error>
  {
    AttrsPass(step, p, branch, entity, Listed(LiveAttrs(p.s.facts, namespace, branch, entity)))
  }

  ghost function EntitiesPass(step: Step, p: Pass, namespace: string, branch: string, entities: seq<string>):
    Result<Pass, Error>
    decreases |entities|
  {
    if entities == [] then Ok(p)
    else
      var r := EntityPass(step, p, namespace, branch, entities[0]);
      if r.Err? then r else EntitiesPass(step, r.value, namespace, branch, entities[1..])
  }

  /** One branch: its live entities, as listed when its turn comes. */
  ghost function BranchPass(step: Step, p: Pass, namespace: string, branch: string): Result<Pass, Error> {
    EntitiesPass(step, p, namespace, branch, Listed(LiveEntities(p.s.facts, namespace, branch)))
  }

  ghost function BranchesPass(step: Step, p: Pass, namespace: string, branches: seq<string>): Result<Pass, Error>
    decreases |branches|
  {
    if branches == [] then Ok(p)
    else
      var r := BranchPass(step, p, namespace, branches[0]);
      if r.Err? then r else BranchesPass(step, r.value, namespace, branches[1..])
  }

  lemma StepIs(step: Step, p: Pass, src: Sources, namespace: string, branch: string, k: Key, policy: RetentionPolicy,
               r: Result<Retained, Error>)
    requires IsStep(step, src, namespace, policy)
    requires RetainKey(p.s, namespace, branch, k, policy, Cutoff(policy, src.nowMs(p.looked)), src.ticks, src.txIds,
                       p.used) == r
    ensures step(p, branch, k) == Advance(p, r)
  {
  }

  lemma AttrsPassNext(step: Step, p: Pass, branch: string, entity: string, attrs: seq<string>, i: nat)
    requires i < |attrs|
    ensures var r := step(p, branch, (entity, attrs[i]));
            AttrsPass(step, p, branch, entity, attrs[i..]) ==
            if r.Err? then r else AttrsPass(step, r.value, branch, entity, attrs[i + 1..])
  {
    assert attrs[i..][1..] == attrs[i + 1..];
  }

  lemma EntitiesPassNext(step: Step, p: Pass, namespace: string, branch: string, entities: seq<string>, i: nat)
    requires i < |entities|
    ensures var r := EntityPass(step, p, namespace, branch, entities[i]);
            EntitiesPass(step, p, namespace, branch, entities[i..]) ==
            if r.Err? then r else EntitiesPass(step, r.value, namespace, branch, entities[i + 1..])
  {
    assert entities[i..][1..] == entities[i + 1..];
  }

  lemma BranchesPassNext(step: Step, p: Pass, namespace: string, branches: seq<string>, i: nat)
    requires i < |branches|
    ensures var r := BranchPass(step, p, namespace, branches[i]);
            BranchesPass(step, p, namespace, branches[i..]) ==
            if r.Err? then r else BranchesPass(step, r.value, namespace, branches[i + 1..])
  {
    assert branches[i..][1..] == branches[i + 1..];
  }

  // ---- one retract after another ----------------------------------------------------------

  lemma RetractNext(s: State, fs: seq<Fact>, i: nat, namespace: string, branch: string, ticks: nat -> u64,
                    txIds: nat -> TxId, used: nat, now: State, u: nat)
    requires i < |fs| && RetractAll(s, fs[..i], namespace, branch, ticks, txIds, used) == Ok((now, u))
    ensures var r := Store.Retract(now, fs[i].id, RetainParams(namespace, branch, ticks(u), txIds(u)));
            RetractAll(s, fs[..i + 1], namespace, branch, ticks, txIds, used) ==
            if fs[i].retracted then Ok((now, u)) else if r.Err? then Err(r.error) else Ok((r.value, u + 1))
    ensures var r := Store.Retract(now, fs[i].id, RetainParams(namespace, branch, ticks(u), txIds(u)));
            !fs[i].retracted && r.Err? ==> RetractAll(s, fs, namespace, branch, ticks, txIds, used) == Err(r.error)
  {
    assert fs[..i + 1][..i] == fs[..i];
    RetractAllStep(s, fs[..i + 1], namespace, branch, ticks, txIds, used, now, u);
    if RetractAll(s, fs[..i + 1], namespace, branch, ticks, txIds, used).Err? {
      RetractAllFails(s, fs, namespace, branch, ticks, txIds, used, i + 1);
    }
  }

  /** The first failure is the outcome. */
  lemma {:induction false} RetractAllFails(s: State, fs: seq<Fact>, namespace: string, branch: string,
                                           ticks: nat -> u64, txIds: nat -> TxId, used: nat, i: nat)
    requires i <= |fs| && RetractAll(s, fs[..i], namespace, branch, ticks, txIds, used).Err?
    ensures RetractAll(s, fs, namespace, branch, ticks, txIds, used)
         == RetractAll(s, fs[..i], namespace, branch, ticks, txIds, used)
    decreases |fs|
  {
    if i < |fs| {
      var front := fs[..|fs| - 1];
      assert front[..i] == fs[..i];
      RetractAllFails(s, front, namespace, branch, ticks, txIds, used, i);
    } else {
      assert fs[..i] == fs;
    }
  }

  // ---- what every pass keeps ---------------------------------------------------------------

  /** Only surplus facts of the branches were lost, one tick for each; a dry run changes nothing. */
  ghost predicate Passed(policy: RetentionPolicy, nowMs: nat -> u64, a: Pass, b: Pass, namespace: string,
                         branches: set<string>)
  {
    && Unique(b.s.facts) && a.looked <= b.looked
    && b.result.retracted == a.result.retracted + b.used - a.used
    && b.result.branchesProcessed == a.result.branchesProcessed
    && b.used == a.used + |AllLive(a.s.facts)| - |AllLive(b.s.facts)|
    && (policy.dryRun ==> b.s == a.s)
    && Shrinks(a.s.facts, b.s.facts, namespace, branches)
    && Elsewhere(a.s.facts, b.s.facts, branches)
    && Spares(policy, nowMs, a.looked, b.looked, a.s.facts, b.s.facts)
  }

  lemma NotPassed(policy: RetentionPolicy, nowMs: nat -> u64, p: Pass, namespace: string, branches: set<string>)
    requires Unique(p.s.facts)
    ensures Passed(policy, nowMs, p, p, namespace, branches)
  {
    SparesAll(policy, nowMs, p.looked, p.s.facts);
    ShrinksNot(p.s.facts, namespace, branches);
  }

  lemma PassedTwice(policy: RetentionPolicy, nowMs: nat -> u64, a: Pass, b: Pass, c: Pass, namespace: string,
                    branches: set<string>)
    requires Unique(a.s.facts)
    requires Passed(policy, nowMs, a, b, namespace, branches) && Passed(policy, nowMs, b, c, namespace, branches)
    ensures Passed(policy, nowMs, a, c, namespace, branches)
  {
    SparesTwice(policy, nowMs, a.looked, b.looked, c.looked, a.s.facts, b.s.facts, c.s.facts);
    ShrinksTwice(a.s.facts, b.s.facts, c.s.facts, namespace, branches);
    ElsewhereTwice(a.s.facts, b.s.facts, c.s.facts, branches);
  }

  lemma PassedWider(policy: RetentionPolicy, nowMs: nat -> u64, a: Pass, b: Pass, namespace: string,
                    branches: set<string>, wider: set<string>)
    requires Passed(policy, nowMs, a, b, namespace, branches) && branches <= wider
    ensures Passed(policy, nowMs, a, b, namespace, wider)
  {
    ShrinksWider(a.s.facts, b.s.facts, namespace, branches, wider);
  }

  /** Every key of the branch that `done` names is settled by a reading taken since `a`. */
  ghost predicate SettledKeys(policy: RetentionPolicy, nowMs: nat -> u64, a: Pass, b: Pass, namespace: string,
                              branch: string, done: iset<Key>)
  {
    !policy.dryRun ==>
      forall k :: k in done ==> Settled(policy, nowMs, a.looked, b.looked, b.s.facts, namespace, branch, k)
  }

  lemma StaySettled(policy: RetentionPolicy, nowMs: nat -> u64, a: Pass, b: Pass, c: Pass, namespace: string,
                    branches: set<string>, branch: string, done: iset<Key>)
    requires SettledKeys(policy, nowMs, a, b, namespace, branch, done)
    requires Passed(policy, nowMs, b, c, namespace, branches)
    ensures SettledKeys(policy, nowMs, a, c, namespace, branch, done)
  {
    if !policy.dryRun {
      forall k | k in done ensures Settled(policy, nowMs, a.looked, c.looked, c.s.facts, namespace, branch, k) {
        SettledStays(policy, nowMs, a.looked, b.looked, c.looked, b.s.facts, c.s.facts, namespace, branches, namespace,
                     branch, k);
      }
    }
  }

  lemma MoreSettled(policy: RetentionPolicy, nowMs: nat -> u64, a: Pass, b: Pass, c: Pass, namespace: string,
                    branch: string, done: iset<Key>, more: iset<Key>)
    requires a.looked <= b.looked
    requires SettledKeys(policy, nowMs, a, c, namespace, branch, done)
    requires SettledKeys(policy, nowMs, b, c, namespace, branch, more)
    ensures SettledKeys(policy, nowMs, a, c, namespace, branch, done + more)
  {
    if !policy.dryRun {
      forall k | k in done + more ensures Settled(policy, nowMs, a.looked, c.looked, c.s.facts, namespace, branch, k) {
        if k !in done {
          SettledEarlier(policy, nowMs, a.looked, b.looked, c.looked, c.s.facts, namespace, branch, k);
        }
      }
    }
  }

  lemma SettledEarlier(policy: RetentionPolicy, nowMs: nat -> u64, lo: nat, mid: nat, hi: nat, facts: seq<Fact>,
                       namespace: string, branch: string, k: Key)
    requires lo <= mid && Settled(policy, nowMs, mid, hi, facts, namespace, branch, k)
    ensures Settled(policy, nowMs, lo, hi, facts, namespace, branch, k)
  {
    var recent := Recent(facts, namespace, branch, k);
    if !policy.onlyRetracted && recent != [] {
      var j: nat :| mid <= j < hi && Within(policy, Cutoff(policy, nowMs(j)), recent);
      assert lo <= j < hi && Within(policy, Cutoff(policy, nowMs(j)), recent);
    }
  }

  lemma IdleSettled(policy: RetentionPolicy, nowMs: nat -> u64, p: Pass, namespace: string, branch: string,
                    done: iset<Key>)
    requires forall k :: k in done ==> Filter(LiveAt(namespace, branch, k), p.s.facts) == []
    ensures SettledKeys(policy, nowMs, p, p, namespace, branch, done)
  {
  }

  // ---- key after key -----------------------------------------------------------------------

  /** What retaining one key comes to. */
  ghost predicate KeyDone(p: Pass, r: Retained, policy: RetentionPolicy, nowMs: nat -> u64, namespace: string,
                          branch: string, k: Key)
  {
    if policy.dryRun then r.s == p.s && r.used == p.used
    else
      && Shrinks(p.s.facts, r.s.facts, namespace, {branch})
      && Elsewhere(p.s.facts, r.s.facts, {branch})
      && Spares(policy, nowMs, p.looked, p.looked + 1, p.s.facts, r.s.facts)
      && Settled(policy, nowMs, p.looked, p.looked + 1, r.s.facts, namespace, branch, k)
      && |AllLive(r.s.facts)| <= |AllLive(p.s.facts)|
      && r.used == p.used + |AllLive(p.s.facts)| - |AllLive(r.s.facts)|
  }

  lemma RealKey(p: Pass, src: Sources, namespace: string, branch: string, k: Key, policy: RetentionPolicy,
                cutoff: Option<nat>) returns (r: Retained)
    requires Unique(p.s.facts) && cutoff == Cutoff(policy, src.nowMs(p.looked)) && !policy.dryRun
    ensures RetainKey(p.s, namespace, branch, k, policy, cutoff, src.ticks, src.txIds, p.used) == Ok(r)
    ensures Shrinks(p.s.facts, r.s.facts, namespace, {branch}) && Elsewhere(p.s.facts, r.s.facts, {branch})
    ensures Spares(policy, src.nowMs, p.looked, p.looked + 1, p.s.facts, r.s.facts)
    ensures Settled(policy, src.nowMs, p.looked, p.looked + 1, r.s.facts, namespace, branch, k)
    ensures |AllLive(r.s.facts)| <= |AllLive(p.s.facts)|
    ensures r.used == p.used + |AllLive(p.s.facts)| - |AllLive(r.s.facts)|
  {
    RetainKeyShrinks(p.s, namespace, branch, k, policy, src.nowMs, p.looked, p.looked, src.ticks, src.txIds, p.used);
    RetainKeySpares(p.s, namespace, branch, k, policy, src.nowMs, p.looked, src.ticks, src.txIds, p.used);
    RetainKeyElsewhere(p.s, namespace, branch, k, policy, cutoff, src.ticks, src.txIds, p.used);
    r := RetainKey(p.s, namespace, branch, k, policy, cutoff, src.ticks, src.txIds, p.used).value;
  }

  lemma DryKey(p: Pass, src: Sources, namespace: string, branch: string, k: Key, policy: RetentionPolicy,
               cutoff: Option<nat>) returns (r: Retained)
    requires Unique(p.s.facts) && cutoff == Cutoff(policy, src.nowMs(p.looked)) && policy.dryRun
    ensures RetainKey(p.s, namespace, branch, k, policy, cutoff, src.ticks, src.txIds, p.used) == Ok(r)
    ensures KeyDone(p, r, policy, src.nowMs, namespace, branch, k)
  {
    r := RetainKey(p.s, namespace, branch, k, policy, cutoff, src.ticks, src.txIds, p.used).value;
  }

  lemma OneKey(p: Pass, src: Sources, namespace: string, branch: string, k: Key, policy: RetentionPolicy,
               cutoff: Option<nat>) returns (r: Retained)
    requires Unique(p.s.facts) && cutoff == Cutoff(policy, src.nowMs(p.looked))
    ensures RetainKey(p.s, namespace, branch, k, policy, cutoff, src.ticks, src.txIds, p.used) == Ok(r)
    ensures KeyDone(p, r, policy, src.nowMs, namespace, branch, k)
  {
    if policy.dryRun {
      r := DryKey(p, src, namespace, branch, k, policy, cutoff);
    } else {
      r := RealKey(p, src, namespace, branch, k, policy, cutoff);
    }
  }

  lemma DryPasses(p: Pass, q: Pass, policy: RetentionPolicy, nowMs: nat -> u64, namespace: string, branch: string,
                  k: Key)
    requires Unique(p.s.facts) && policy.dryRun && q.s == p.s && q.used == p.used && p.looked <= q.looked
    requires q.result.retracted == p.result.retracted && q.result.branchesProcessed == p.result.branchesProcessed
    ensures Passed(policy, nowMs, p, q, namespace, {branch})
    ensures SettledKeys(policy, nowMs, p, q, namespace, branch, iset{k})
  {
    DrySpares(policy, nowMs, p.looked, q.looked, p.s.facts);
    ShrinksNot(p.s.facts, namespace, {branch});
    assert Elsewhere(p.s.facts, q.s.facts, {branch});
  }

  lemma OneSettled(policy: RetentionPolicy, nowMs: nat -> u64, a: Pass, b: Pass, namespace: string, branch: string,
                   k: Key)
    requires Settled(policy, nowMs, a.looked, b.looked, b.s.facts, namespace, branch, k)
    ensures SettledKeys(policy, nowMs, a, b, namespace, branch, iset{k})
  {
  }

  lemma RealPasses(p: Pass, q: Pass, policy: RetentionPolicy, nowMs: nat -> u64, namespace: string, branch: string,
                   k: Key)
    requires !policy.dryRun && q.looked == p.looked + 1 && q.used >= p.used
    requires q.result.retracted == p.result.retracted + q.used - p.used
    requires q.result.branchesProcessed == p.result.branchesProcessed
    requires Shrinks(p.s.facts, q.s.facts, namespace, {branch}) && Elsewhere(p.s.facts, q.s.facts, {branch})
    requires Spares(policy, nowMs, p.looked, p.looked + 1, p.s.facts, q.s.facts)
    requires q.used == p.used + |AllLive(p.s.facts)| - |AllLive(q.s.facts)|
    ensures Passed(policy, nowMs, p, q, namespace, {branch})
  {
  }

  lemma DonePasses(p: Pass, r: Retained, policy: RetentionPolicy, nowMs: nat -> u64, namespace: string,
                   branch: string, k: Key)
    requires Unique(p.s.facts) && KeyDone(p, r, policy, nowMs, namespace, branch, k)
    ensures Passed(policy, nowMs, p, Next(p, r), namespace, {branch})
    ensures SettledKeys(policy, nowMs, p, Next(p, r), namespace, branch, iset{k})
  {
    if policy.dryRun {
      DryPasses(p, Next(p, r), policy, nowMs, namespace, branch, k);
    } else {
      RealPasses(p, Next(p, r), policy, nowMs, namespace, branch, k);
      OneSettled(policy, nowMs, p, Next(p, r), namespace, branch, k);
    }
  }

  lemma KeyPasses(step: Step, p: Pass, src: Sources, namespace: string, branch: string, k: Key, policy: RetentionPolicy)
    returns (q: Pass)
    requires IsStep(step, src, namespace, policy) && Unique(p.s.facts)
    ensures step(p, branch, k) == Ok(q)
    ensures Passed(policy, src.nowMs, p, q, namespace, {branch})
    ensures SettledKeys(policy, src.nowMs, p, q, namespace, branch, iset{k})
  {
    var r := OneKey(p, src, namespace, branch, k, policy, Cutoff(policy, src.nowMs(p.looked)));
    DonePasses(p, r, policy, src.nowMs, namespace, branch, k);
    StepIs(step, p, src, namespace, branch, k, policy, Ok(r));
    q := Next(p, r);
  }

  lemma DrySpares(policy: RetentionPolicy, nowMs: nat -> u64, lo: nat, hi: nat, facts: seq<Fact>)
    ensures Spares(policy, nowMs, lo, hi, facts, facts)
  {
    HistoryThinsSelf(facts);
  }

  ghost function OfEntities(entities: seq<string>): iset<Key> {
    iset k: Key | k.0 in entities
  }

  ghost function OfAttrs(entity: string, attrs: seq<string>): iset<Key> {
    iset k: Key | k.0 == entity && k.1 in attrs
  }

  lemma {:induction false} AttrsPasses(step: Step, p: Pass, src: Sources, namespace: string, branch: string,
                                       entity: string, attrs: seq<string>, policy: RetentionPolicy)
    requires IsStep(step, src, namespace, policy) && Unique(p.s.facts)
    ensures var r := AttrsPass(step, p, branch, entity, attrs);
            && r.Ok? && Passed(policy, src.nowMs, p, r.value, namespace, {branch})
            && SettledKeys(policy, src.nowMs, p, r.value, namespace, branch, OfAttrs(entity, attrs))
    decreases |attrs|
  {
    if attrs == [] {
      NotPassed(policy, src.nowMs, p, namespace, {branch});
    } else {
      var q := FirstAttrPasses(step, p, src, namespace, branch, entity, attrs, policy);
      AttrsPasses(step, q, src, namespace, branch, entity, attrs[1..], policy);
      AnotherPass(policy, src.nowMs, p, q, AttrsPass(step, q, branch, entity, attrs[1..]).value,
                  namespace, branch, iset{(entity, attrs[0])}, OfAttrs(entity, attrs[1..]));
      AttrsCons(entity, attrs);
    }
  }

  lemma AttrsCons(entity: string, attrs: seq<string>)
    requires attrs != []
    ensures iset{(entity, attrs[0])} + OfAttrs(entity, attrs[1..]) == OfAttrs(entity, attrs)
  {
    assert attrs == [attrs[0]] + attrs[1..];
  }

  lemma FirstAttrPasses(step: Step, p: Pass, src: Sources, namespace: string, branch: string, entity: string,
                        attrs: seq<string>, policy: RetentionPolicy) returns (q: Pass)
    requires IsStep(step, src, namespace, policy) && Unique(p.s.facts) && attrs != []
    ensures step(p, branch, (entity, attrs[0])) == Ok(q)
    ensures AttrsPass(step, p, branch, entity, attrs)
         == AttrsPass(step, q, branch, entity, attrs[1..])
    ensures Passed(policy, src.nowMs, p, q, namespace, {branch})
    ensures SettledKeys(policy, src.nowMs, p, q, namespace, branch, iset{(entity, attrs[0])})
  {
    q := KeyPasses(step, p, src, namespace, branch, (entity, attrs[0]), policy);
  }

  lemma AnotherPass(policy: RetentionPolicy, nowMs: nat -> u64, a: Pass, b: Pass, c: Pass, namespace: string,
                    branch: string, done: iset<Key>, more: iset<Key>)
    requires Unique(a.s.facts)
    requires Passed(policy, nowMs, a, b, namespace, {branch}) && Passed(policy, nowMs, b, c, namespace, {branch})
    requires SettledKeys(policy, nowMs, a, b, namespace, branch, done)
    requires SettledKeys(policy, nowMs, b, c, namespace, branch, more)
    ensures Passed(policy, nowMs, a, c, namespace, {branch})
    ensures SettledKeys(policy, nowMs, a, c, namespace, branch, done + more)
  {
    PassedTwice(policy, nowMs, a, b, c, namespace, {branch});
    StaySettled(policy, nowMs, a, b, c, namespace, {branch}, branch, done);
    MoreSettled(policy, nowMs, a, b, c, namespace, branch, done, more);
  }

  /** The attributes that are not listed have no live fact, so after an entity all its keys are settled. */
  lemma EntityPasses(step: Step, p: Pass, src: Sources, namespace: string, branch: string, entity: string,
                     policy: RetentionPolicy)
    requires IsStep(step, src, namespace, policy) && Unique(p.s.facts)
    ensures var r := EntityPass(step, p, namespace, branch, entity);
            && r.Ok? && Passed(policy, src.nowMs, p, r.value, namespace, {branch})
            && SettledKeys(policy, src.nowMs, p, r.value, namespace, branch, OfEntities([entity]))
  {
    var attrs := Listed(LiveAttrs(p.s.facts, namespace, branch, entity));
    var others := OfEntities([entity]) - OfAttrs(entity, attrs);
    AttrsPasses(step, p, src, namespace, branch, entity, attrs, policy);
    forall k | k in others ensures Filter(LiveAt(namespace, branch, k), p.s.facts) == [] {
      FilterNone(LiveAt(namespace, branch, k), p.s.facts);
    }
    IdleSettled(policy, src.nowMs, p, namespace, branch, others);
    NotPassed(policy, src.nowMs, p, namespace, {branch});
    AnotherPass(policy, src.nowMs, p, p, EntityPass(step, p, namespace, branch, entity).value, namespace, branch,
                others, OfAttrs(entity, attrs));
    assert others + OfAttrs(entity, attrs) == OfEntities([entity]);
  }

  lemma {:induction false} EntitiesPasses(step: Step, p: Pass, src: Sources, namespace: string, branch: string,
                                          entities: seq<string>, policy: RetentionPolicy)
    requires IsStep(step, src, namespace, policy) && Unique(p.s.facts)
    ensures var r := EntitiesPass(step, p, namespace, branch, entities);
            && r.Ok? && Passed(policy, src.nowMs, p, r.value, namespace, {branch})
            && SettledKeys(policy, src.nowMs, p, r.value, namespace, branch, OfEntities(entities))
    decreases |entities|
  {
    if entities == [] {
      NotPassed(policy, src.nowMs, p, namespace, {branch});
    } else {
      EntityPasses(step, p, src, namespace, branch, entities[0], policy);
      var q := EntityPass(step, p, namespace, branch, entities[0]).value;
      EntitiesPasses(step, q, src, namespace, branch, entities[1..], policy);
      var end := EntitiesPass(step, q, namespace, branch, entities[1..]).value;
      AnotherPass(policy, src.nowMs, p, q, end, namespace, branch, OfEntities([entities[0]]),
                  OfEntities(entities[1..]));
      assert entities == [entities[0]] + entities[1..];
      assert OfEntities([entities[0]]) + OfEntities(entities[1..]) == OfEntities(entities);
    }
  }

  ghost function AllKeys(): iset<Key> {
    iset k: Key | IsKey(k)
  }

  predicate IsKey(k: Key) {
    true
  }

  lemma BranchPasses(step: Step, p: Pass, src: Sources, namespace: string, branch: string, policy: RetentionPolicy)
    requires IsStep(step, src, namespace, policy) && Unique(p.s.facts)
    ensures var r := BranchPass(step, p, namespace, branch);
            && r.Ok? && Passed(policy, src.nowMs, p, r.value, namespace, {branch})
            && SettledKeys(policy, src.nowMs, p, r.value, namespace, branch, AllKeys())
  {
    var entities := Listed(LiveEntities(p.s.facts, namespace, branch));
    var others := AllKeys() - OfEntities(entities);
    EntitiesPasses(step, p, src, namespace, branch, entities, policy);
    forall k | k in others ensures Filter(LiveAt(namespace, branch, k), p.s.facts) == [] {
      FilterNone(LiveAt(namespace, branch, k), p.s.facts);
    }
    IdleSettled(policy, src.nowMs, p, namespace, branch, others);
    NotPassed(policy, src.nowMs, p, namespace, {branch});
    AnotherPass(policy, src.nowMs, p, p, BranchPass(step, p, namespace, branch).value, namespace, branch,
                others, OfEntities(entities));
    assert others + OfEntities(entities) == AllKeys();
  }

  ghost predicate SettledBranches(policy: RetentionPolicy, nowMs: nat -> u64, a: Pass, b: Pass, namespace: string,
                                  branches: set<string>)
  {
    forall br :: br in branches ==> SettledKeys(policy, nowMs, a, b, namespace, br, AllKeys())
  }

  function Named(branches: seq<string>): set<string> {
    set b | b in branches
  }

  lemma NamedCons(branches: seq<string>)
    requires branches != []
    ensures Named(branches) == {branches[0]} + Named(branches[1..])
  {
    assert branches == [branches[0]] + branches[1..];
  }

  lemma {:induction false} BranchesPasses(step: Step, p: Pass, src: Sources, namespace: string, branches: seq<string>,
                                          policy: RetentionPolicy)
    requires IsStep(step, src, namespace, policy) && Unique(p.s.facts)
    ensures var r := BranchesPass(step, p, namespace, branches);
            && r.Ok? && Passed(policy, src.nowMs, p, r.value, namespace, Named(branches))
            && SettledBranches(policy, src.nowMs, p, r.value, namespace, Named(branches))
    decreases |branches|
  {
    if branches == [] {
      NotPassed(policy, src.nowMs, p, namespace, Named(branches));
    } else {
      BranchPasses(step, p, src, namespace, branches[0], policy);
      var q := BranchPass(step, p, namespace, branches[0]).value;
      BranchesPasses(step, q, src, namespace, branches[1..], policy);
      NamedCons(branches);
      AnotherBranch(policy, src.nowMs, p, q, BranchesPass(step, q, namespace, branches[1..]).value, namespace,
                    branches[0], Named(branches[1..]));
    }
  }

  lemma AnotherBranch(policy: RetentionPolicy, nowMs: nat -> u64, a: Pass, b: Pass, c: Pass, namespace: string,
                      branch: string, rest: set<string>)
    requires Unique(a.s.facts)
    requires Passed(policy, nowMs, a, b, namespace, {branch}) && Passed(policy, nowMs, b, c, namespace, rest)
    requires SettledKeys(policy, nowMs, a, b, namespace, branch, AllKeys())
    requires SettledBranches(policy, nowMs, b, c, namespace, rest)
    ensures Passed(policy, nowMs, a, c, namespace, {branch} + rest)
    ensures SettledBranches(policy, nowMs, a, c, namespace, {branch} + rest)
  {
    PassedWider(policy, nowMs, a, b, namespace, {branch}, {branch} + rest);
    PassedWider(policy, nowMs, b, c, namespace, rest, {branch} + rest);
    PassedTwice(policy, nowMs, a, b, c, namespace, {branch} + rest);
    forall br | br in {branch} + rest ensures SettledKeys(policy, nowMs, a, c, namespace, br, AllKeys()) {
      if br == branch {
        StaySettled(policy, nowMs, a, b, c, namespace, rest, br, AllKeys());
      } else {
        MoreSettled(policy, nowMs, a, b, c, namespace, br, iset{}, AllKeys());
        assert iset{} + AllKeys() == AllKeys();
      }
    }
  }
}
