/** What retention counts: the history and the eligible facts of one key, and those of a whole dry run. */
module RetentionCounts {
  import opened Base
  import opened Lists
  import opened StableSort
  import opened Strings
  import opened Ledger
  import opened Store
  import opened Writes
  import opened StoreRuns
  import opened MemoryStore
  import opened Generators
  import opened Retention
  import opened RetentionLoops

  // ---- one key -----------------------------------------------------------------------------

  /** A fact of the key on the branch, retracted or not. */
  predicate IsOfKey(f: Fact, namespace: string, branch: string, k: Key) {
    f.namespace == namespace && f.branch == branch && f.entity == k.0 && f.attr == k.1
  }

  function OfKey(namespace: string, branch: string, k: Key): Fact -> bool {
    (f: Fact) => IsOfKey(f, namespace, branch, k)
  }

  /** The history of a key is its facts, retracted or not, oldest first. */
  lemma HistoryIs(facts: seq<Fact>, namespace: string, branch: string, k: Key)
    ensures var history := Ordered(facts, namespace, branch, k);
            && multiset(history) == multiset(Filter(OfKey(namespace, branch, k), facts))
            && |history| == |Filter(OfKey(namespace, branch, k), facts)|
            && (forall i, j :: 0 <= i < j < |history| ==> history[i].txTime <= history[j].txTime)
  {
    var history := Ordered(facts, namespace, branch, k);
    HistoryFacts(facts, namespace, branch, k);
    OrderedLive(facts, namespace, branch, k);
    forall i, j | 0 <= i < j < |history| ensures history[i].txTime <= history[j].txTime {
      SortedAt(OldestFirst, history, i, j);
    }
  }

  lemma HistoryFacts(facts: seq<Fact>, namespace: string, branch: string, k: Key)
    ensures multiset(Ordered(facts, namespace, branch, k)) == multiset(Filter(OfKey(namespace, branch, k), facts))
    ensures |Ordered(facts, namespace, branch, k)| == |Filter(OfKey(namespace, branch, k), facts)|
  {
    FilterSame(OfKey(namespace, branch, k), Matching(HistoryQuery(namespace, branch, k)), facts);
  }

  /** The fact at position `i` of `n` is past the age and the number of versions, as far as these are limited. */
  predicate IsPast(policy: RetentionPolicy, cutoff: Option<nat>, n: nat, i: nat, f: Fact) {
    && (policy.onlyRetracted ==> f.retracted)
    && (cutoff == None || f.txTime < cutoff.value)
    && (policy.maxVersions == None || i + policy.maxVersions.value < n)
  }

  /** The positions before `i` of the facts that are past. */
  ghost function PastTo(policy: RetentionPolicy, cutoff: Option<nat>, history: seq<Fact>, i: nat): set<nat>
    requires i <= |history|
  {
    set j: nat | j < i && IsPast(policy, cutoff, |history|, j, history[j])
  }

  lemma PastStep(policy: RetentionPolicy, cutoff: Option<nat>, history: seq<Fact>, i: nat)
    requires i < |history|
    ensures i !in PastTo(policy, cutoff, history, i)
    ensures PastTo(policy, cutoff, history, i + 1)
         == PastTo(policy, cutoff, history, i) + if IsPast(policy, cutoff, |history|, i, history[i]) then {i} else {}
  {
  }

  /** As many facts are eligible as there are positions that are past. */
  lemma {:induction false} EligibleCount(policy: RetentionPolicy, cutoff: Option<nat>, history: seq<Fact>, i: nat)
    requires i <= |history|
    ensures |EligibleTo(policy, cutoff, history, i)| == |PastTo(policy, cutoff, history, i)| <= i
  {
    if i > 0 {
      EligibleCount(policy, cutoff, history, i - 1);
      PastStep(policy, cutoff, history, i - 1);
    }
  }

  /** The eligible facts are those at the positions that are past. */
  lemma {:induction false} EligibleIs(policy: RetentionPolicy, cutoff: Option<nat>, history: seq<Fact>, i: nat, f: Fact)
    requires i <= |history|
    ensures f in EligibleTo(policy, cutoff, history, i)
       <==> exists j: nat :: j < i && history[j] == f && IsPast(policy, cutoff, |history|, j, f)
  {
    if i > 0 {
      EligibleIs(policy, cutoff, history, i - 1, f);
    }
  }

  lemma SamePosition(history: seq<Fact>, i: nat, j: nat)
    requires Unique(history) && i < |history| && j < |history| && history[i].id == history[j].id
    ensures i == j
  {
    assert FactIds(history)[i] == FactIds(history)[j];
  }

  /**
   * A live fact outlasts the turn of its key exactly if the policy is for retracted facts only, the fact is not older
   * than the age limit allows, or it is among the most recent versions.
   */
  lemma TurnKeepsExactly(s: State, namespace: string, branch: string, k: Key, policy: RetentionPolicy,
                         cutoff: Option<nat>, ticks: nat -> u64, txIds: nat -> TxId, used: nat, i: nat)
    requires Unique(s.facts) && !policy.dryRun && i < |Ordered(s.facts, namespace, branch, k)|
    requires !Ordered(s.facts, namespace, branch, k)[i].retracted
    ensures var history := Ordered(s.facts, namespace, branch, k);
            var r := RetainKey(s, namespace, branch, k, policy, cutoff, ticks, txIds, used);
            && r.Ok?
            && (history[i] in r.value.s.facts <==>
                || policy.onlyRetracted
                || (cutoff.Some? && cutoff.value <= history[i].txTime)
                || (policy.maxVersions.Some? && |history| - i <= policy.maxVersions.value))
  {
    var history := Ordered(s.facts, namespace, branch, k);
    RetainKeyDrops(s, namespace, branch, k, policy, cutoff, ticks, txIds, used);
    OrderedUnique(s.facts, namespace, branch, k);
    assert history[i] in history;
    TurnKeepsAt(s, RetainKey(s, namespace, branch, k, policy, cutoff, ticks, txIds, used).value.s, policy, cutoff,
                history, i);
  }

  lemma TurnKeepsAt(s: State, now: State, policy: RetentionPolicy, cutoff: Option<nat>, history: seq<Fact>, i: nat)
    requires Unique(history) && i < |history| && history[i] in s.facts && IsLive(history[i])
    requires Dropped(s, now, LiveIds(EligibleTo(policy, cutoff, history, |history|)))
    ensures history[i] in now.facts <==>
            || policy.onlyRetracted
            || (cutoff.Some? && cutoff.value <= history[i].txTime)
            || (policy.maxVersions.Some? && |history| - i <= policy.maxVersions.value)
  {
    LiveUnlessDropped(s, now, LiveIds(EligibleTo(policy, cutoff, history, |history|)), history[i]);
    EligibleAt(policy, cutoff, history, i);
  }

  lemma LiveUnlessDropped(s: State, now: State, ids: set<FactId>, f: Fact)
    requires Dropped(s, now, ids) && f in s.facts && IsLive(f)
    ensures f in now.facts <==> f.id !in ids
  {
    assert f in AllLive(s.facts);
    assert f in now.facts <==> f in AllLive(now.facts);
  }

  lemma EligibleAt(policy: RetentionPolicy, cutoff: Option<nat>, history: seq<Fact>, i: nat)
    requires Unique(history) && i < |history| && IsLive(history[i])
    ensures history[i].id in LiveIds(EligibleTo(policy, cutoff, history, |history|))
       <==> IsPast(policy, cutoff, |history|, i, history[i])
  {
    var eligible := EligibleTo(policy, cutoff, history, |history|);
    EligibleIs(policy, cutoff, history, |history|, history[i]);
    if history[i].id in LiveIds(eligible) {
      var g :| g in eligible && IsLive(g) && g.id == history[i].id;
      EligibleIs(policy, cutoff, history, |history|, g);
      var j: nat :| j < |history| && history[j] == g && IsPast(policy, cutoff, |history|, j, g);
      SamePosition(history, i, j);
    }
  }

  /** An age limit is the time that long before now, and wraps round at 64 bits if it is longer than all time. */
  lemma CutoffIs(policy: RetentionPolicy, nowMs: u64)
    ensures Cutoff(policy, nowMs) == None <==> policy.maxAgeSecs == None
    ensures policy.maxAgeSecs.Some? ==>
              var c := Cutoff(policy, nowMs).value;
              && (1000 * policy.maxAgeSecs.value <= nowMs ==> c == nowMs - 1000 * policy.maxAgeSecs.value)
              && (nowMs < 1000 * policy.maxAgeSecs.value <= nowMs + 0x1_0000_0000_0000_0000 ==>
                    c == nowMs + 0x1_0000_0000_0000_0000 - 1000 * policy.maxAgeSecs.value)
  {
  }

  /** One key's turn adds its history to what was inspected and its past facts to what was eligible. */
  lemma TurnIsCounted(step: Step, p: Pass, src: Sources, namespace: string, branch: string, k: Key,
                      policy: RetentionPolicy)
    requires IsStep(step, src, namespace, policy) && step(p, branch, k).Ok?
    ensures var q, history := step(p, branch, k).value, Ordered(p.s.facts, namespace, branch, k);
            var cutoff := Cutoff(policy, src.nowMs(p.looked));
            && q.looked == p.looked + 1
            && q.result.inspected == p.result.inspected + |Filter(OfKey(namespace, branch, k), p.s.facts)|
            && q.result.eligible == p.result.eligible + |PastTo(policy, cutoff, history, |history|)|
            && |PastTo(policy, cutoff, history, |history|)| <= |Filter(OfKey(namespace, branch, k), p.s.facts)|
            && (policy.dryRun ==> q.s == p.s && q.used == p.used && q.result.retracted == p.result.retracted)
  {
    var cutoff := Cutoff(policy, src.nowMs(p.looked));
    var r := RetainKey(p.s, namespace, branch, k, policy, cutoff, src.ticks, src.txIds, p.used);
    StepIs(step, p, src, namespace, branch, k, policy, r);
    HistoryIs(p.s.facts, namespace, branch, k);
    EligibleCount(policy, cutoff, Ordered(p.s.facts, namespace, branch, k), r.value.inspected);
  }

  // ---- a dry run ---------------------------------------------------------------------------

  lemma LastCounts(fs: seq<Fact>)
    requires fs != []
    ensures |Filter(IsLive, fs)| == |Filter(IsLive, fs[..|fs| - 1])| + if IsLive(fs[|fs| - 1]) then 1 else 0
  {
    assert fs == fs[..|fs| - 1] + [fs[|fs| - 1]];
    FilterSnoc(IsLive, fs[..|fs| - 1], fs[|fs| - 1]);
  }

  lemma {:induction false} OneTickEach(s: State, fs: seq<Fact>, namespace: string, branch: string, ticks: nat -> u64,
                                       txIds: nat -> TxId, used: nat)
    requires RetractAll(s, fs, namespace, branch, ticks, txIds, used).Ok?
    ensures RetractAll(s, fs, namespace, branch, ticks, txIds, used).value.1 == used + |Filter(IsLive, fs)|
  {
    if fs != [] {
      OneTickEach(s, fs[..|fs| - 1], namespace, branch, ticks, txIds, used);
      LastCounts(fs);
    }
  }

  /** The transactions from position `n` on are those of retention's retracts, each with the next tick and id. */
  ghost predicate AreRetracts(txs: seq<Transaction>, n: nat, namespace: string, branch: string, ticks: nat -> u64,
                              txIds: nat -> TxId, used: nat, u: nat)
  {
    && used <= u && |txs| == n + u - used
    && forall j {:trigger txs[j]} :: n <= j < |txs| ==>
         IsTransaction(txs[j], txIds(used + j - n), namespace, branch, ticks(used + j - n), Some("polo-retain"),
                       Some("retention policy"), None)
  }

  lemma OneMoreRetract(txs: seq<Transaction>, t: Transaction, n: nat, namespace: string, branch: string,
                       ticks: nat -> u64, txIds: nat -> TxId, used: nat, u: nat)
    requires AreRetracts(txs, n, namespace, branch, ticks, txIds, used, u)
    requires IsTransaction(t, txIds(u), namespace, branch, ticks(u), Some("polo-retain"), Some("retention policy"),
                           None)
    ensures AreRetracts(txs + [t], n, namespace, branch, ticks, txIds, used, u + 1)
  {
  }

  /** Every retract of retention is a transaction of its own, signed and explained. */
  lemma {:induction false} RetractsAreSigned(s: State, fs: seq<Fact>, namespace: string, branch: string,
                                             ticks: nat -> u64, txIds: nat -> TxId, used: nat)
    requires RetractAll(s, fs, namespace, branch, ticks, txIds, used).Ok?
    ensures var (now, u) := RetractAll(s, fs, namespace, branch, ticks, txIds, used).value;
            && s.transactions <= now.transactions
            && AreRetracts(now.transactions, |s.transactions|, namespace, branch, ticks, txIds, used, u)
  {
    if fs != [] {
      RetractsAreSigned(s, fs[..|fs| - 1], namespace, branch, ticks, txIds, used);
      var (now, u) := RetractAll(s, fs[..|fs| - 1], namespace, branch, ticks, txIds, used).value;
      var f := fs[|fs| - 1];
      if IsLive(f) {
        var p := RetainParams(namespace, branch, ticks(u), txIds(u));
        var t := Transaction(p.txId, p.namespace, p.branch, p.txTime, p.author, p.message, 1, None);
        OneMoreRetract(now.transactions, t, |s.transactions|, namespace, branch, ticks, txIds, used, u);
      }
    }
  }

  /**
   * A dry run counts what a real run would: the same history and the same eligible facts; without retracted facts in
   * the history, the eligible facts are exactly as many as the real run lets go.
   */
  lemma DryRunForetells(s: State, namespace: string, branch: string, k: Key, policy: RetentionPolicy,
                        cutoff: Option<nat>, ticks: nat -> u64, txIds: nat -> TxId, used: nat)
    requires Unique(s.facts) && !policy.dryRun
    ensures var dry := RetainKey(s, namespace, branch, k, policy.(dryRun := true), cutoff, ticks, txIds, used);
            var live := RetainKey(s, namespace, branch, k, policy, cutoff, ticks, txIds, used);
            && dry.Ok? && live.Ok? && dry.value.s == s
            && dry.value.inspected == live.value.inspected && dry.value.eligible == live.value.eligible
            && ((forall f | f in s.facts && IsOfKey(f, namespace, branch, k) :: !f.retracted) ==>
                  dry.value.eligible == |AllLive(s.facts)| - |AllLive(live.value.s.facts)|)
  {
    var history := Ordered(s.facts, namespace, branch, k);
    var eligible := EligibleTo(policy, cutoff, history, |history|);
    RetainKeyDrops(s, namespace, branch, k, policy, cutoff, ticks, txIds, used);
    SameEligible(policy, policy.(dryRun := true), cutoff, history, |history|);
    OneTickEach(s, eligible, namespace, branch, ticks, txIds, used);
    if forall f | f in s.facts && IsOfKey(f, namespace, branch, k) :: !f.retracted {
      EligibleBelong(s, namespace, branch, k, policy, cutoff);
      FilterAll(IsLive, eligible);
    }
  }

  /** Whether a run is dry does not matter to what is eligible. */
  lemma {:induction false} SameEligible(a: RetentionPolicy, b: RetentionPolicy, cutoff: Option<nat>,
                                        history: seq<Fact>, i: nat)
    requires i <= |history| && b == a.(dryRun := b.dryRun)
    ensures EligibleTo(a, cutoff, history, i) == EligibleTo(b, cutoff, history, i)
  {
    if i > 0 {
      SameEligible(a, b, cutoff, history, i - 1);
    }
  }

  /** A fact whose key is live on the branch. */
  predicate IsInspected(facts: seq<Fact>, namespace: string, branch: string, f: Fact) {
    && f.namespace == namespace && f.branch == branch
    && exists g | g in facts :: IsOfKey(g, namespace, branch, (f.entity, f.attr)) && !g.retracted
  }

  function Inspected(facts: seq<Fact>, namespace: string, branch: string): Fact -> bool {
    (f: Fact) => IsInspected(facts, namespace, branch, f)
  }

  /** The facts of live keys of all the branches. */
  function InspectedOn(facts: seq<Fact>, namespace: string, branches: seq<string>): nat {
    if branches == [] then 0
    else |Filter(Inspected(facts, namespace, branches[0]), facts)| + InspectedOn(facts, namespace, branches[1..])
  }

  lemma {:induction false} CountSplits<T>(p: T -> bool, q: T -> bool, both: T -> bool, xs: seq<T>)
    requires forall x | x in xs :: (both(x) <==> p(x) || q(x)) && !(p(x) && q(x))
    ensures |Filter(both, xs)| == |Filter(p, xs)| + |Filter(q, xs)|
  {
    if xs != [] {
      CountSplits(p, q, both, xs[1..]);
    }
  }

  /** So many facts more were inspected, and no more of them were eligible. */
  predicate Inspects(p: Pass, q: Pass, n: nat) {
    && q.s == p.s && q.result.inspected == p.result.inspected + n
    && p.result.eligible <= q.result.eligible <= p.result.eligible + n
  }

  /** A fact of the entity with one of the attributes. */
  function OfAttrs(namespace: string, branch: string, entity: string, attrs: seq<string>): Fact -> bool {
    (f: Fact) => f.namespace == namespace && f.branch == branch && f.entity == entity && f.attr in attrs
  }

  lemma OneMoreAttr(facts: seq<Fact>, namespace: string, branch: string, entity: string, attr: string,
                    rest: seq<string>, attrs: seq<string>)
    requires attr !in rest && forall a :: a in attrs <==> a == attr || a in rest
    ensures |Filter(OfAttrs(namespace, branch, entity, attrs), facts)|
         == |Filter(OfKey(namespace, branch, (entity, attr)), facts)|
            + |Filter(OfAttrs(namespace, branch, entity, rest), facts)|
  {
    CountSplits(OfKey(namespace, branch, (entity, attr)), OfAttrs(namespace, branch, entity, rest),
                OfAttrs(namespace, branch, entity, attrs), facts);
  }

  lemma HeadIsNew(xs: seq<string>)
    requires xs != [] && StrictlySorted(StrLeq, xs)
    ensures xs[0] !in xs[1..] && forall x :: x in xs <==> x == xs[0] || x in xs[1..]
  {
    assert xs == [xs[0]] + xs[1..];
  }

  lemma {:induction false} AttrsAreCounted(step: Step, p: Pass, src: Sources, namespace: string, branch: string,
                                           entity: string, attrs: seq<string>, policy: RetentionPolicy)
    requires IsStep(step, src, namespace, policy) && policy.dryRun && StrictlySorted(StrLeq, attrs)
    requires AttrsPass(step, p, branch, entity, attrs).Ok?
    ensures Inspects(p, AttrsPass(step, p, branch, entity, attrs).value,
                     |Filter(OfAttrs(namespace, branch, entity, attrs), p.s.facts)|)
    decreases |attrs|
  {
    var facts := p.s.facts;
    if attrs == [] {
      FilterNone(OfAttrs(namespace, branch, entity, attrs), facts);
    } else {
      TurnIsCounted(step, p, src, namespace, branch, (entity, attrs[0]), policy);
      var next := step(p, branch, (entity, attrs[0])).value;
      AttrsAreCounted(step, next, src, namespace, branch, entity, attrs[1..], policy);
      HeadIsNew(attrs);
      OneMoreAttr(facts, namespace, branch, entity, attrs[0], attrs[1..], attrs);
    }
  }

  /** An inspected fact of one of the entities. */
  function OfEntities(facts: seq<Fact>, namespace: string, branch: string, entities: seq<string>): Fact -> bool {
    (f: Fact) => IsInspected(facts, namespace, branch, f) && f.entity in entities
  }

  lemma EntityIsCounted(step: Step, p: Pass, src: Sources, namespace: string, branch: string, entity: string,
                        policy: RetentionPolicy)
    requires IsStep(step, src, namespace, policy) && policy.dryRun
    requires EntityPass(step, p, namespace, branch, entity).Ok?
    ensures Inspects(p, EntityPass(step, p, namespace, branch, entity).value,
                     |Filter(OfEntities(p.s.facts, namespace, branch, [entity]), p.s.facts)|)
  {
    var attrs := Listed(LiveAttrs(p.s.facts, namespace, branch, entity));
    AttrsAreCounted(step, p, src, namespace, branch, entity, attrs, policy);
    forall f | f in p.s.facts
      ensures OfAttrs(namespace, branch, entity, attrs)(f) == OfEntities(p.s.facts, namespace, branch, [entity])(f)
    {
    }
    FilterSame(OfAttrs(namespace, branch, entity, attrs), OfEntities(p.s.facts, namespace, branch, [entity]),
               p.s.facts);
  }

  lemma {:induction false} EntitiesAreCounted(step: Step, p: Pass, src: Sources, namespace: string, branch: string,
                                              entities: seq<string>, policy: RetentionPolicy)
    requires IsStep(step, src, namespace, policy) && policy.dryRun && StrictlySorted(StrLeq, entities)
    requires EntitiesPass(step, p, namespace, branch, entities).Ok?
    ensures Inspects(p, EntitiesPass(step, p, namespace, branch, entities).value,
                     |Filter(OfEntities(p.s.facts, namespace, branch, entities), p.s.facts)|)
    decreases |entities|
  {
    var facts := p.s.facts;
    if entities == [] {
      FilterNone(OfEntities(facts, namespace, branch, entities), facts);
    } else {
      EntityIsCounted(step, p, src, namespace, branch, entities[0], policy);
      var next := EntityPass(step, p, namespace, branch, entities[0]).value;
      EntitiesAreCounted(step, next, src, namespace, branch, entities[1..], policy);
      HeadIsNew(entities);
      CountSplits(OfEntities(facts, namespace, branch, [entities[0]]),
                  OfEntities(facts, namespace, branch, entities[1..]),
                  OfEntities(facts, namespace, branch, entities), facts);
    }
  }

  /** A dry run inspects every fact of a live key of the branches, no more of them eligible, and changes nothing. */
  lemma {:induction false} DryRunInspects(step: Step, p: Pass, src: Sources, namespace: string,
                                          branches: seq<string>, policy: RetentionPolicy)
    requires IsStep(step, src, namespace, policy) && policy.dryRun
    requires BranchesPass(step, p, namespace, branches).Ok?
    ensures Inspects(p, BranchesPass(step, p, namespace, branches).value,
                     InspectedOn(p.s.facts, namespace, branches))
    decreases |branches|
  {
    var facts := p.s.facts;
    if branches != [] {
      var branch := branches[0];
      var entities := Listed(LiveEntities(facts, namespace, branch));
      EntitiesAreCounted(step, p, src, namespace, branch, entities, policy);
      forall f | f in facts
        ensures OfEntities(facts, namespace, branch, entities)(f) == Inspected(facts, namespace, branch)(f)
      {
      }
      FilterSame(OfEntities(facts, namespace, branch, entities), Inspected(facts, namespace, branch), facts);
      DryRunInspects(step, BranchPass(step, p, namespace, branch).value, src, namespace, branches[1..], policy);
    }
  }
}
