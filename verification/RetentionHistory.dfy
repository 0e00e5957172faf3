/**
 * What retention does to the histories of all keys: retracts leave a history in place, collection thins it, and a
 * live fact lost was past every threshold by its place in the history there was at the start.
 */
module RetentionHistory {
  import opened Base
  import opened Lists
  import opened StableSort
  import opened Ledger
  import opened Store
  import opened StoreRuns
  import opened Retention

  /** The ids of a key's history, oldest first. */
  function HistIds(facts: seq<Fact>, namespace: string, branch: string, k: Key): seq<FactId> {
    FactIds(Ordered(facts, namespace, branch, k))
  }

  function Among(ids: seq<string>): string -> bool {
    (id: string) => id in ids
  }

  /** What is left of `before`, in the same order. */
  predicate Thins(after: seq<string>, before: seq<string>) {
    after == Filter(Among(after), before)
  }

  lemma ThinsSelf(ids: seq<string>)
    ensures Thins(ids, ids)
  {
    FilterAll(Among(ids), ids);
  }

  lemma ThinsTwice(a: seq<string>, b: seq<string>, c: seq<string>)
    requires Thins(b, a) && Thins(c, b)
    ensures Thins(c, a)
  {
    forall id | id in a ensures Among(c)(id) <==> Among(b)(id) && Among(c)(id) {
      if id in c {
        assert id in Filter(Among(c), b);
      }
    }
    FilterFilter(Among(c), Among(b), Among(c), a);
  }

  ghost predicate HistoryThins(before: seq<Fact>, after: seq<Fact>) {
    forall n, b, k :: Thins(HistIds(after, n, b, k), HistIds(before, n, b, k))
  }

  lemma HistoryThinsSelf(facts: seq<Fact>)
    ensures HistoryThins(facts, facts)
  {
    forall n, b, k ensures Thins(HistIds(facts, n, b, k), HistIds(facts, n, b, k)) {
      ThinsSelf(HistIds(facts, n, b, k));
    }
  }

  lemma HistoryThinsTwice(a: seq<Fact>, b: seq<Fact>, c: seq<Fact>)
    requires HistoryThins(a, b) && HistoryThins(b, c)
    ensures HistoryThins(a, c)
  {
    forall n, br, k ensures Thins(HistIds(c, n, br, k), HistIds(a, n, br, k)) {
      ThinsTwice(HistIds(a, n, br, k), HistIds(b, n, br, k), HistIds(c, n, br, k));
    }
  }

  // ---- a retract changes facts in place ----------------------------------------------------

  lemma {:induction false} FilterMapped<T>(q: T -> bool, h: T -> T, xs: seq<T>)
    requires forall x | x in xs :: q(h(x)) == q(x)
    ensures Filter(q, Map(h, xs)) == Map(h, Filter(q, xs))
  {
    if xs != [] {
      var rest := Map(h, xs[1..]);
      FilterMapped(q, h, xs[1..]);
      assert Map(h, xs) == [h(xs[0])] + rest && ([h(xs[0])] + rest)[1..] == rest;
      assert xs[0] in xs;
      if q(xs[0]) {
        MapCons(h, xs[0], Filter(q, xs[1..]));
      }
    }
  }

  lemma {:induction false} InsertMapped<T>(leq: (T, T) -> bool, h: T -> T, x: T, ys: seq<T>)
    requires forall y | y in ys :: leq(h(x), h(y)) == leq(x, y)
    ensures Insert(leq, h(x), Map(h, ys)) == Map(h, Insert(leq, x, ys))
  {
    if ys != [] {
      var rest := Map(h, ys[1..]);
      assert Map(h, ys) == [h(ys[0])] + rest && ([h(ys[0])] + rest)[1..] == rest;
      assert ys[0] in ys;
      if leq(x, ys[0]) {
        MapCons(h, x, ys);
      } else {
        InsertMapped(leq, h, x, ys[1..]);
        MapCons(h, ys[0], Insert(leq, x, ys[1..]));
      }
    } else {
      MapCons(h, x, []);
    }
  }

  lemma {:induction false} SortMapped<T>(leq: (T, T) -> bool, h: T -> T, xs: seq<T>)
    requires forall x, y | x in xs && y in xs :: leq(h(x), h(y)) == leq(x, y)
    ensures Sort(leq, Map(h, xs)) == Map(h, Sort(leq, xs))
  {
    if xs != [] {
      var rest := Map(h, xs[1..]);
      SortMapped(leq, h, xs[1..]);
      assert Map(h, xs) == [h(xs[0])] + rest && ([h(xs[0])] + rest)[1..] == rest;
      InsertMapped(leq, h, xs[0], Sort(leq, xs[1..]));
    }
  }

  function RetractIn(id: FactId, p: RetractParams): Fact -> Fact {
    (f: Fact) => if f.id == id then Retracted(f, p) else f
  }

  lemma RetractIsMap(facts: seq<Fact>, i: nat, p: RetractParams)
    requires Unique(facts) && i < |facts|
    ensures facts[i := Retracted(facts[i], p)] == Map(RetractIn(facts[i].id, p), facts)
  {
    var h := RetractIn(facts[i].id, p);
    forall j | 0 <= j < |facts| && j != i ensures h(facts[j]) == facts[j] {
      assert FactIds(facts)[j] == facts[j].id && FactIds(facts)[i] == facts[i].id;
    }
    UpdateIsMap(h, facts, i, Retracted(facts[i], p));
  }

  lemma UpdateIsMap<T>(h: T -> T, xs: seq<T>, i: nat, y: T)
    requires i < |xs| && h(xs[i]) == y && forall j :: 0 <= j < |xs| && j != i ==> h(xs[j]) == xs[j]
    ensures xs[i := y] == Map(h, xs)
  {
  }

  lemma MappedIds(h: Fact -> Fact, facts: seq<Fact>)
    requires forall f :: h(f).id == f.id
    ensures FactIds(Map(h, facts)) == FactIds(facts)
  {
  }

  lemma SortsMapped(h: Fact -> Fact, found: seq<Fact>)
    requires forall f :: h(f).txTime == f.txTime
    ensures Sort(OldestFirst, Sort(NewestFirst, Map(h, found))) == Map(h, Sort(OldestFirst, Sort(NewestFirst, found)))
  {
    SortMapped(NewestFirst, h, found);
    SortMapped(OldestFirst, h, Sort(NewestFirst, found));
  }

  lemma OrderedMapped(facts: seq<Fact>, id: FactId, p: RetractParams, namespace: string, branch: string, k: Key)
    ensures Ordered(Map(RetractIn(id, p), facts), namespace, branch, k)
         == Map(RetractIn(id, p), Ordered(facts, namespace, branch, k))
  {
    var h, q := RetractIn(id, p), Matching(HistoryQuery(namespace, branch, k));
    FilterMapped(q, h, facts);
    SortsMapped(h, Filter(q, facts));
    ScanHistory(facts, namespace, branch, k);
    ScanHistory(Map(h, facts), namespace, branch, k);
  }

  lemma ScanHistory(facts: seq<Fact>, namespace: string, branch: string, k: Key)
    ensures Scan(facts, HistoryQuery(namespace, branch, k))
         == Sort(NewestFirst, Filter(Matching(HistoryQuery(namespace, branch, k)), facts))
  {
  }

  lemma RetractKeepsHistory(s: State, id: FactId, p: RetractParams)
    requires Unique(s.facts) && Retract(s, id, p).Ok?
    ensures HistoryThins(s.facts, Retract(s, id, p).value.facts)
  {
    var i := FindRetractable(s.facts, id, p);
    RetractIsMap(s.facts, i, p);
    MappedHistory(s.facts, id, p);
  }

  lemma MappedHistory(facts: seq<Fact>, id: FactId, p: RetractParams)
    ensures HistoryThins(facts, Map(RetractIn(id, p), facts))
  {
    forall n, b, k ensures Thins(HistIds(Map(RetractIn(id, p), facts), n, b, k), HistIds(facts, n, b, k)) {
      OrderedMapped(facts, id, p, n, b, k);
      MappedIds(RetractIn(id, p), Ordered(facts, n, b, k));
      ThinsSelf(HistIds(facts, n, b, k));
    }
  }

  lemma {:induction false} RetractAllKeepsHistory(s: State, fs: seq<Fact>, namespace: string, branch: string,
                                                  ticks: nat -> u64, txIds: nat -> TxId, used: nat)
    requires Unique(s.facts) && Belong(s, fs, namespace, branch)
    ensures var r := RetractAll(s, fs, namespace, branch, ticks, txIds, used);
            r.Ok? && HistoryThins(s.facts, r.value.0.facts)
  {
    RetractAllSucceeds(s, fs, namespace, branch, ticks, txIds, used);
    if fs == [] {
      HistoryThinsSelf(s.facts);
    } else {
      var front, f := fs[..|fs| - 1], fs[|fs| - 1];
      UniqueFront(fs);
      RetractAllSucceeds(s, front, namespace, branch, ticks, txIds, used);
      RetractAllKeepsHistory(s, front, namespace, branch, ticks, txIds, used);
      var (now, u) := RetractAll(s, front, namespace, branch, ticks, txIds, used).value;
      RetractAllStep(s, fs, namespace, branch, ticks, txIds, used, now, u);
      if IsLive(f) {
        var p := RetainParams(namespace, branch, ticks(u), txIds(u));
        RetractKeepsHistory(now, f.id, p);
        HistoryThinsTwice(s.facts, now.facts, Retract(now, f.id, p).value.facts);
      }
    }
  }

  // ---- a collection drops facts ------------------------------------------------------------

  lemma OrderedKept(facts: seq<Fact>, kept: Fact -> bool, namespace: string, branch: string, k: Key)
    ensures Ordered(Filter(kept, facts), namespace, branch, k) == Filter(kept, Ordered(facts, namespace, branch, k))
  {
    var q := Matching(HistoryQuery(namespace, branch, k));
    OldestFirstPreorder();
    ScanHistory(facts, namespace, branch, k);
    ScanHistory(Filter(kept, facts), namespace, branch, k);
    FilterSort(OldestFirst, kept, Sort(NewestFirst, Filter(q, facts)));
    FilterSort(NewestFirst, kept, Filter(q, facts));
    FiltersCommute(q, kept, facts);
  }

  /** The ids of what is kept are the ids that are kept. */
  lemma {:induction false} KeptIds(kept: Fact -> bool, facts: seq<Fact>, ids: seq<FactId>)
    requires forall f | f in facts :: kept(f) == (f.id in ids)
    ensures FactIds(Filter(kept, facts)) == Filter(Among(ids), FactIds(facts))
  {
    if facts != [] {
      KeptIds(kept, facts[1..], ids);
      MapCons(FactIdOf, facts[0], facts[1..]);
      assert facts == [facts[0]] + facts[1..];
      assert FactIds(facts)[1..] == FactIds(facts[1..]);
      if kept(facts[0]) {
        MapCons(FactIdOf, facts[0], Filter(kept, facts[1..]));
      }
    }
  }

  lemma KeptThins(kept: Fact -> bool, ordered: seq<Fact>)
    requires Unique(ordered)
    ensures Thins(FactIds(Filter(kept, ordered)), FactIds(ordered))
  {
    var left := Filter(kept, ordered);
    forall f | f in ordered ensures kept(f) == (f.id in FactIds(left)) {
      if kept(f) {
        assert f in left;
        var i :| 0 <= i < |left| && left[i] == f;
        assert FactIds(left)[i] == f.id;
      }
      if f.id in FactIds(left) {
        var i :| 0 <= i < |left| && FactIds(left)[i] == f.id;
        assert left[i] in left;
        SameFactById(ordered, f, left[i]);
      }
    }
    KeptIds(kept, ordered, FactIds(left));
  }

  lemma GcThinsHistory(s: State, p: GcParams)
    requires Unique(s.facts)
    ensures HistoryThins(s.facts, Gc(s, p).0.facts)
  {
    if p.dryRun {
      HistoryThinsSelf(s.facts);
    } else {
      forall n, b, k ensures Thins(HistIds(Gc(s, p).0.facts, n, b, k), HistIds(s.facts, n, b, k)) {
        OrderedKept(s.facts, Kept(p), n, b, k);
        OrderedUnique(s.facts, n, b, k);
        KeptThins(Kept(p), Ordered(s.facts, n, b, k));
      }
    }
  }

  // ---- only the surplus goes ---------------------------------------------------------------

  /** By its place in the oldest-first history of its key, retracted facts included, it is past every threshold. */
  ghost predicate Surplus(policy: RetentionPolicy, cutoff: Option<nat>, facts: seq<Fact>, f: Fact) {
    && !policy.onlyRetracted
    && var ordered := Ordered(facts, f.namespace, f.branch, KeyOf(f));
       exists i :: 0 <= i < |ordered| && ordered[i] == f && Exceeds(policy, cutoff, |ordered|, i, f)
  }

  /** Surplus by some reading of the clock among the `lo`-th to the one before the `hi`-th. */
  ghost predicate SurplusBy(policy: RetentionPolicy, nowMs: nat -> u64, lo: nat, hi: nat, facts: seq<Fact>, f: Fact) {
    exists j: nat :: lo <= j < hi && Surplus(policy, Cutoff(policy, nowMs(j)), facts, f)
  }

  /** Histories only thin out, and every live fact lost was surplus at the start by a reading taken since. */
  ghost predicate Spares(policy: RetentionPolicy, nowMs: nat -> u64, lo: nat, hi: nat, before: seq<Fact>,
                         after: seq<Fact>)
  {
    && HistoryThins(before, after)
    && (forall f :: f in before && IsLive(f) && f !in after ==> SurplusBy(policy, nowMs, lo, hi, before, f))
  }

  lemma SparesAll(policy: RetentionPolicy, nowMs: nat -> u64, lo: nat, facts: seq<Fact>)
    ensures Spares(policy, nowMs, lo, lo, facts, facts)
  {
    HistoryThinsSelf(facts);
  }

  /** What is surplus in a thinned history was surplus before. */
  lemma SurplusEarlier(policy: RetentionPolicy, cutoff: Option<nat>, before: seq<Fact>, after: seq<Fact>, f: Fact)
    requires Unique(before) && HistoryThins(before, after) && f in before && Surplus(policy, cutoff, after, f)
    ensures Surplus(policy, cutoff, before, f)
  {
    var now := Ordered(after, f.namespace, f.branch, KeyOf(f));
    var i :| 0 <= i < |now| && now[i] == f && Exceeds(policy, cutoff, |now|, i, f);
    var j := EarlierPlace(before, after, f.namespace, f.branch, KeyOf(f), i);
    var was := Ordered(before, f.namespace, f.branch, KeyOf(f));
    SameFactById(before, was[j], f);
  }

  /** Where a fact stood in the history before it thinned: no nearer to the end. */
  lemma EarlierPlace(before: seq<Fact>, after: seq<Fact>, namespace: string, branch: string, k: Key, i: nat)
    returns (j: nat)
    requires HistoryThins(before, after) && i < |Ordered(after, namespace, branch, k)|
    ensures var was, now := Ordered(before, namespace, branch, k), Ordered(after, namespace, branch, k);
            j < |was| && was[j] in before && was[j].id == now[i].id && |now| - i <= |was| - j
  {
    var wasIds, nowIds := HistIds(before, namespace, branch, k), HistIds(after, namespace, branch, k);
    assert Thins(nowIds, wasIds);
    j := FilterFromEnd(Among(nowIds), wasIds, i);
    assert Ordered(before, namespace, branch, k)[j] in Ordered(before, namespace, branch, k);
  }

  lemma SparesTwice(policy: RetentionPolicy, nowMs: nat -> u64, lo: nat, mid: nat, hi: nat, a: seq<Fact>, b: seq<Fact>,
                    c: seq<Fact>)
    requires Unique(a) && lo <= mid <= hi
    requires Spares(policy, nowMs, lo, mid, a, b) && Spares(policy, nowMs, mid, hi, b, c)
    ensures Spares(policy, nowMs, lo, hi, a, c)
  {
    HistoryThinsTwice(a, b, c);
    forall f | f in a && IsLive(f) && f !in c ensures SurplusBy(policy, nowMs, lo, hi, a, f) {
      if f in b {
        var j: nat :| mid <= j < hi && Surplus(policy, Cutoff(policy, nowMs(j)), b, f);
        SurplusEarlier(policy, Cutoff(policy, nowMs(j)), a, b, f);
        assert lo <= j < hi && Surplus(policy, Cutoff(policy, nowMs(j)), a, f);
      } else {
        var j: nat :| lo <= j < mid && Surplus(policy, Cutoff(policy, nowMs(j)), a, f);
        assert lo <= j < hi;
      }
    }
  }

  lemma {:induction false} EligibleExceed(policy: RetentionPolicy, cutoff: Option<nat>, ordered: seq<Fact>, i: nat,
                                          f: Fact) returns (j: nat)
    requires i <= |ordered| && f in EligibleTo(policy, cutoff, ordered, i)
    ensures j < |ordered| && ordered[j] == f && Eligible(policy, cutoff, |ordered|, j, f)
  {
    if f in EligibleTo(policy, cutoff, ordered, i - 1) {
      j := EligibleExceed(policy, cutoff, ordered, i - 1, f);
    } else {
      j := i - 1;
    }
  }

  /** A live fact that retention of a key drops is surplus. */
  lemma DroppedIsSurplus(s: State, namespace: string, branch: string, k: Key, policy: RetentionPolicy,
                         cutoff: Option<nat>, f: Fact)
    requires var ordered := Ordered(s.facts, namespace, branch, k);
             f.id in LiveIds(EligibleTo(policy, cutoff, ordered, |ordered|))
    requires Unique(s.facts) && f in s.facts && IsLive(f)
    ensures Surplus(policy, cutoff, s.facts, f)
  {
    var ordered := Ordered(s.facts, namespace, branch, k);
    var eligible := EligibleTo(policy, cutoff, ordered, |ordered|);
    EligibleBelong(s, namespace, branch, k, policy, cutoff);
    var g :| g in eligible && IsLive(g) && g.id == f.id;
    SameFactById(s.facts, f, g);
    var j := EligibleExceed(policy, cutoff, ordered, |ordered|, f);
  }

  lemma LostWasDropped(s: State, now: State, ids: set<FactId>, f: Fact)
    requires Dropped(s, now, ids) && f in s.facts && IsLive(f) && f !in now.facts
    ensures f.id in ids
  {
    assert f in AllLive(s.facts);
    assert f !in AllLive(now.facts);
  }

  /** Retaining a key loses only surplus, by the one reading it takes. */
  lemma RetainKeySpares(s: State, namespace: string, branch: string, k: Key, policy: RetentionPolicy,
                        nowMs: nat -> u64, look: nat, ticks: nat -> u64, txIds: nat -> TxId, used: nat)
    requires Unique(s.facts) && !policy.dryRun
    ensures var r := RetainKey(s, namespace, branch, k, policy, Cutoff(policy, nowMs(look)), ticks, txIds, used);
            r.Ok? && Spares(policy, nowMs, look, look + 1, s.facts, r.value.s.facts)
  {
    var cutoff := Cutoff(policy, nowMs(look));
    var ordered := Ordered(s.facts, namespace, branch, k);
    var eligible := EligibleTo(policy, cutoff, ordered, |ordered|);
    RetainKeyDrops(s, namespace, branch, k, policy, cutoff, ticks, txIds, used);
    RetainKeyThins(s, namespace, branch, k, policy, cutoff, ticks, txIds, used);
    var after := RetainKey(s, namespace, branch, k, policy, cutoff, ticks, txIds, used).value.s;
    forall f | f in s.facts && IsLive(f) && f !in after.facts
      ensures SurplusBy(policy, nowMs, look, look + 1, s.facts, f)
    {
      LostWasDropped(s, after, LiveIds(eligible), f);
      DroppedIsSurplus(s, namespace, branch, k, policy, cutoff, f);
      assert look <= look < look + 1 && Surplus(policy, Cutoff(policy, nowMs(look)), s.facts, f);
    }
  }

  lemma RetainKeyThins(s: State, namespace: string, branch: string, k: Key, policy: RetentionPolicy,
                       cutoff: Option<nat>, ticks: nat -> u64, txIds: nat -> TxId, used: nat)
    requires Unique(s.facts) && !policy.dryRun
    ensures var r := RetainKey(s, namespace, branch, k, policy, cutoff, ticks, txIds, used);
            r.Ok? && HistoryThins(s.facts, r.value.s.facts)
  {
    var ordered := Ordered(s.facts, namespace, branch, k);
    var eligible := EligibleTo(policy, cutoff, ordered, |ordered|);
    EligibleBelong(s, namespace, branch, k, policy, cutoff);
    RetractAllSucceeds(s, eligible, namespace, branch, ticks, txIds, used);
    RetractAllKeepsHistory(s, eligible, namespace, branch, ticks, txIds, used);
    var mid := RetractAll(s, eligible, namespace, branch, ticks, txIds, used).value.0;
    GcThinsHistory(mid, GcParams(cutoff, Some(branch), false));
    HistoryThinsTwice(s.facts, mid.facts, Gc(mid, GcParams(cutoff, Some(branch), false)).0.facts);
  }
}
