/** Retention of one key: which facts exceed the policy, and what is left after retracting and collecting them. */
module Retention {
  import opened Base
  import opened Lists
  import opened StableSort
  import opened Ledger
  import opened Store
  import opened StoreRuns
  import opened Merge
  import Hlc

  datatype RetentionPolicy = RetentionPolicy(
    maxAgeSecs: Option<nat>,
    maxVersions: Option<nat>,
    onlyRetracted: bool,
    branches: seq<string>,
    dryRun: bool)

  /** Unsigned 64-bit subtraction, which wraps when the age exceeds the clock. */
  function Cutoff(policy: RetentionPolicy, nowMs: u64): Option<nat> {
    if policy.maxAgeSecs.None? then None
    else Some((nowMs - policy.maxAgeSecs.value * 1000) % 0x1_0000_0000_0000_0000)
  }

  function HistoryQuery(namespace: string, branch: string, k: Key): ScanQuery {
    ScanQuery(namespace, branch, Some(k.0), Some(k.1), None, None, true, None, None)
  }

  predicate OldestFirst(a: Fact, b: Fact) {
    a.txTime <= b.txTime
  }

  /** The history of a key, retracted facts included, oldest first. */
  function Ordered(facts: seq<Fact>, namespace: string, branch: string, k: Key): seq<Fact> {
    Sort(OldestFirst, Scan(facts, HistoryQuery(namespace, branch, k)))
  }

  /** Position `i` of `n` is past every threshold the policy sets. */
  predicate Exceeds(policy: RetentionPolicy, cutoff: Option<nat>, n: nat, i: nat, f: Fact) {
    && (cutoff.Some? ==> f.txTime < cutoff.value)
    && (policy.maxVersions.Some? ==> n - i > policy.maxVersions.value)
  }

  predicate Eligible(policy: RetentionPolicy, cutoff: Option<nat>, n: nat, i: nat, f: Fact) {
    Exceeds(policy, cutoff, n, i, f) && (policy.onlyRetracted ==> f.retracted)
  }

  /** The eligible facts among the first `i`. */
  function EligibleTo(policy: RetentionPolicy, cutoff: Option<nat>, ordered: seq<Fact>, i: nat): seq<Fact>
    requires i <= |ordered|
  {
    if i == 0 then []
    else
      var before, f := EligibleTo(policy, cutoff, ordered, i - 1), ordered[i - 1];
      if Eligible(policy, cutoff, |ordered|, i - 1, f) then before + [f] else before
  }

  function RetainParams(namespace: string, branch: string, tick: u64, txId: TxId): RetractParams {
    RetractParams(namespace, branch, Some("polo-retain"), Some("retention policy"), tick, txId)
  }

  /** Retracts the live facts among `fs`, each with the next tick and transaction id. */
  function RetractAll(s: State, fs: seq<Fact>, namespace: string, branch: string, ticks: nat -> u64,
                      txIds: nat -> TxId, used: nat): Result<(State, nat), Error>
  {
    if fs == [] then Ok((s, used))
    else
      var before := RetractAll(s, fs[..|fs| - 1], namespace, branch, ticks, txIds, used);
      var f := fs[|fs| - 1];
      if before.Err? || f.retracted then before
      else
        var (now, u) := before.value;
        var r := Retract(now, f.id, RetainParams(namespace, branch, ticks(u), txIds(u)));
        if r.Err? then Err(r.error) else Ok((r.value, u + 1))
  }

  datatype Retained = Retained(s: State, used: nat, inspected: nat, eligible: nat)

  /** One key: retract what is eligible and live, then collect the branch. */
  function RetainKey(s: State, namespace: string, branch: string, k: Key, policy: RetentionPolicy,
                     cutoff: Option<nat>, ticks: nat -> u64, txIds: nat -> TxId, used: nat): Result<Retained, Error>
  {
    var ordered := Ordered(s.facts, namespace, branch, k);
    var eligible := EligibleTo(policy, cutoff, ordered, |ordered|);
    if policy.dryRun then Ok(Retained(s, used, |ordered|, |eligible|))
    else
      var r := RetractAll(s, eligible, namespace, branch, ticks, txIds, used);
      if r.Err? then Err(r.error)
      else Ok(Retained(Gc(r.value.0, GcParams(cutoff, Some(branch), false)).0, r.value.1, |ordered|, |eligible|))
  }

  // ---- the live facts ----------------------------------------------------------------------

  predicate IsLive(f: Fact) {
    !f.retracted
  }

  function AllLive(facts: seq<Fact>): seq<Fact> {
    Filter(IsLive, facts)
  }

  function NotIn(ids: set<FactId>): Fact -> bool {
    (f: Fact) => f.id !in ids
  }

  function LiveIds(fs: seq<Fact>): set<FactId> {
    set f | f in fs && IsLive(f) :: f.id
  }

  /** The live facts of a key, oldest first. */
  function Recent(facts: seq<Fact>, namespace: string, branch: string, k: Key): seq<Fact> {
    Sort(OldestFirst, Filter(LiveAt(namespace, branch, k), facts))
  }

  ghost predicate Unique(facts: seq<Fact>) {
    Distinct(FactIds(facts))
  }

  /** Replacing one element that passes a filter by one that does not. */
  lemma ReplaceDrops<T>(live: T -> bool, others: T -> bool, xs: seq<T>, i: nat, y: T)
    requires i < |xs| && live(xs[i]) && !live(y) && !others(xs[i])
    requires forall j :: 0 <= j < |xs| && j != i ==> others(xs[j])
    ensures Filter(live, xs[i := y]) == Filter(others, Filter(live, xs))
    ensures |Filter(live, xs[i := y])| == |Filter(live, xs)| - 1
  {
    var a, b := xs[..i], xs[i + 1..];
    assert xs == (a + [xs[i]]) + b && xs[i := y] == (a + [y]) + b;
    FilterConcat(live, a + [xs[i]], b);
    FilterConcat(live, a + [y], b);
    FilterSnoc(live, a, xs[i]);
    FilterSnoc(live, a, y);
    FilterAll(others, Filter(live, a));
    FilterAll(others, Filter(live, b));
    FilterSnoc(others, Filter(live, a), xs[i]);
    FilterConcat(others, Filter(live, a) + [xs[i]], Filter(live, b));
  }

  /** Retracting a live fact in place takes exactly it from the live facts. */
  lemma RetractedDrops(facts: seq<Fact>, i: nat, g: Fact)
    requires Unique(facts) && i < |facts| && IsLive(facts[i]) && !IsLive(g) && g.id == facts[i].id
    ensures AllLive(facts[i := g]) == Filter(NotIn({g.id}), AllLive(facts))
    ensures |AllLive(facts[i := g])| == |AllLive(facts)| - 1
    ensures Unique(facts[i := g])
  {
    assert FactIds(facts[i := g]) == FactIds(facts);
    forall j | 0 <= j < |facts| && j != i ensures NotIn({g.id})(facts[j]) {
      assert FactIds(facts)[j] == facts[j].id && FactIds(facts)[i] == facts[i].id;
    }
    ReplaceDrops(IsLive, NotIn({g.id}), facts, i, g);
  }

  /** A retract of a live fact of the branch succeeds and drops that fact only. */
  lemma RetractSucceeds(s: State, f: Fact, p: RetractParams)
    requires Unique(s.facts) && f in s.facts && Retractable(f, f.id, p)
    ensures var r := Retract(s, f.id, p);
            && r.Ok? && Unique(r.value.facts)
            && AllLive(r.value.facts) == Filter(NotIn({f.id}), AllLive(s.facts))
            && |AllLive(r.value.facts)| == |AllLive(s.facts)| - 1
  {
    var i, j := FindRetractable(s.facts, f.id, p), 0;
    j :| 0 <= j < |s.facts| && s.facts[j] == f;
    assert i <= j;
    RetractedDrops(s.facts, i, Retracted(s.facts[i], p));
  }

  lemma DropBoth(a: set<FactId>, b: set<FactId>, facts: seq<Fact>)
    ensures Filter(NotIn(b), Filter(NotIn(a), facts)) == Filter(NotIn(a + b), facts)
  {
    FilterFilter(NotIn(b), NotIn(a), NotIn(a + b), facts);
  }

  lemma LiveIdsSnoc(front: seq<Fact>, f: Fact)
    ensures LiveIds(front + [f]) == if IsLive(f) then LiveIds(front) + {f.id} else LiveIds(front)
  {
    assert f in front + [f];
    assert forall x :: x in front + [f] <==> x in front || x == f;
  }

  /** All facts belong to the branch and are in the store. */
  ghost predicate Belong(s: State, fs: seq<Fact>, namespace: string, branch: string) {
    Unique(fs) && forall f :: f in fs ==> f in s.facts && f.namespace == namespace && f.branch == branch
  }

  lemma UniqueFront(facts: seq<Fact>)
    requires Unique(facts) && facts != []
    ensures Unique(facts[..|facts| - 1]) && forall f :: f in facts[..|facts| - 1] ==> f.id != facts[|facts| - 1].id
  {
    var front, n := facts[..|facts| - 1], |facts| - 1;
    assert forall i :: 0 <= i < n ==> FactIds(front)[i] == FactIds(facts)[i];
    forall f | f in front ensures f.id != facts[n].id {
      var i :| 0 <= i < |front| && front[i] == f;
      assert FactIds(facts)[i] == f.id && FactIds(facts)[n] == facts[n].id;
    }
  }

  /** One more live fact retracted, after those of `dropped`. */
  lemma DropOne(s: State, now: State, dropped: set<FactId>, f: Fact, p: RetractParams)
    requires Dropped(s, now, dropped)
    requires f in s.facts && Retractable(f, f.id, p) && f.id !in dropped
    ensures var r := Retract(now, f.id, p);
            && r.Ok? && Dropped(s, r.value, dropped + {f.id})
            && |AllLive(r.value.facts)| == |AllLive(now.facts)| - 1
  {
    assert f in AllLive(s.facts);
    assert f in AllLive(now.facts);
    RetractSucceeds(now, f, p);
    DropBoth(dropped, {f.id}, AllLive(s.facts));
  }

  ghost predicate Dropped(s: State, now: State, ids: set<FactId>) {
    Unique(now.facts) && AllLive(now.facts) == Filter(NotIn(ids), AllLive(s.facts))
  }

  lemma RetractAllStep(s: State, fs: seq<Fact>, namespace: string, branch: string, ticks: nat -> u64,
                       txIds: nat -> TxId, used: nat, now: State, u: nat)
    requires fs != [] && RetractAll(s, fs[..|fs| - 1], namespace, branch, ticks, txIds, used) == Ok((now, u))
    ensures var f := fs[|fs| - 1];
            var r := Retract(now, f.id, RetainParams(namespace, branch, ticks(u), txIds(u)));
            RetractAll(s, fs, namespace, branch, ticks, txIds, used) ==
            if f.retracted then Ok((now, u)) else if r.Err? then Err(r.error) else Ok((r.value, u + 1))
  {
  }

  lemma LiveIdsStep(fs: seq<Fact>)
    requires fs != [] && Unique(fs)
    ensures var front, f := fs[..|fs| - 1], fs[|fs| - 1];
            && LiveIds(fs) == (if IsLive(f) then LiveIds(front) + {f.id} else LiveIds(front))
            && f.id !in LiveIds(front)
  {
    UniqueFront(fs);
    LiveIdsSnoc(fs[..|fs| - 1], fs[|fs| - 1]);
    assert fs == fs[..|fs| - 1] + [fs[|fs| - 1]];
  }

  /** No internal retract fails, and exactly the live facts among `fs` stop being live, one retract each. */
  lemma {:induction false} RetractAllSucceeds(s: State, fs: seq<Fact>, namespace: string, branch: string,
                                              ticks: nat -> u64, txIds: nat -> TxId, used: nat)
    requires Unique(s.facts) && Belong(s, fs, namespace, branch)
    ensures var r := RetractAll(s, fs, namespace, branch, ticks, txIds, used);
            && r.Ok? && Dropped(s, r.value.0, LiveIds(fs))
            && r.value.1 == used + |AllLive(s.facts)| - |AllLive(r.value.0.facts)|
  {
    if fs == [] {
      assert LiveIds(fs) == {};
      FilterAll(NotIn({}), AllLive(s.facts));
    } else {
      var front, f := fs[..|fs| - 1], fs[|fs| - 1];
      UniqueFront(fs);
      LiveIdsStep(fs);
      RetractAllSucceeds(s, front, namespace, branch, ticks, txIds, used);
      var (now, u) := RetractAll(s, front, namespace, branch, ticks, txIds, used).value;
      RetractAllStep(s, fs, namespace, branch, ticks, txIds, used, now, u);
      if IsLive(f) {
        DropOne(s, now, LiveIds(front), f, RetainParams(namespace, branch, ticks(u), txIds(u)));
      }
    }
  }

  lemma GcKeepsLive(s: State, p: GcParams)
    ensures AllLive(Gc(s, p).0.facts) == AllLive(s.facts)
    ensures Unique(s.facts) ==> Unique(Gc(s, p).0.facts)
  {
    if !p.dryRun {
      FilterFilter(IsLive, Kept(p), IsLive, s.facts);
      if Unique(s.facts) {
        DistinctFilter(FactIdOf, Kept(p), s.facts);
      }
    }
  }

  // ---- the eligible facts ------------------------------------------------------------------

  lemma OldestFirstPreorder()
    ensures TotalPreorder(OldestFirst)
  {
  }

  /** The live part of the ordered history. */
  lemma OrderedLive(facts: seq<Fact>, namespace: string, branch: string, k: Key)
    ensures Filter(IsLive, Ordered(facts, namespace, branch, k)) == Recent(facts, namespace, branch, k)
    ensures Sorted(OldestFirst, Ordered(facts, namespace, branch, k))
  {
    var found := Filter(Matching(HistoryQuery(namespace, branch, k)), facts);
    FilterFilter(IsLive, Matching(HistoryQuery(namespace, branch, k)), LiveAt(namespace, branch, k), facts);
    assert Scan(facts, HistoryQuery(namespace, branch, k)) == Sort(NewestFirst, found);
    ResortLive(found);
  }

  /** Sorting newest first and then oldest first leaves ties in insertion order. */
  lemma ResortLive(found: seq<Fact>)
    ensures var ordered := Sort(OldestFirst, Sort(NewestFirst, found));
            Filter(IsLive, ordered) == Sort(OldestFirst, Filter(IsLive, found)) && Sorted(OldestFirst, ordered)
  {
    var live := Filter(IsLive, found);
    OldestFirstPreorder();
    SortSorted(OldestFirst, Sort(NewestFirst, found));
    FilterSort(OldestFirst, IsLive, Sort(NewestFirst, found));
    FilterSort(NewestFirst, IsLive, found);
    SortTwice(OldestFirst, NewestFirst, live);
    SortByEquivalent(Lex(OldestFirst, NewestFirst), OldestFirst, live);
  }

  lemma DistinctCons(x: string, xs: seq<string>)
    ensures Distinct([x] + xs) <==> x !in xs && Distinct(xs)
  {
    var all := [x] + xs;
    assert forall i :: 0 <= i < |xs| ==> all[i + 1] == xs[i];
    if x in xs {
      var i :| 0 <= i < |xs| && xs[i] == x;
      assert all[i + 1] == all[0];
    }
    if Distinct(all) {
      forall i, j | 0 <= i < j < |xs| ensures xs[i] != xs[j] {
        assert all[i + 1] != all[j + 1];
      }
    }
  }

  lemma MapCons<T, U>(g: T -> U, x: T, ys: seq<T>)
    ensures Map(g, [x] + ys) == [g(x)] + Map(g, ys)
  {
    assert ([x] + ys)[1..] == ys;
  }

  lemma {:induction false} DistinctInsert<T>(g: T -> string, leq: (T, T) -> bool, x: T, ys: seq<T>)
    requires Distinct(Map(g, ys)) && g(x) !in Map(g, ys)
    ensures Distinct(Map(g, Insert(leq, x, ys)))
    ensures forall id :: id in Map(g, Insert(leq, x, ys)) <==> id == g(x) || id in Map(g, ys)
  {
    if ys == [] || leq(x, ys[0]) {
      assert Insert(leq, x, ys) == [x] + ys;
      MapCons(g, x, ys);
      DistinctCons(g(x), Map(g, ys));
    } else {
      var y, rest := ys[0], ys[1..];
      MapCons(g, y, Insert(leq, x, rest));
      DistinctCons(g(y), Map(g, rest));
      DistinctInsert(g, leq, x, rest);
      DistinctCons(g(y), Map(g, Insert(leq, x, rest)));
    }
  }

  lemma {:induction false} DistinctSort<T>(g: T -> string, leq: (T, T) -> bool, xs: seq<T>)
    requires Distinct(Map(g, xs))
    ensures Distinct(Map(g, Sort(leq, xs)))
    ensures forall id :: id in Map(g, Sort(leq, xs)) <==> id in Map(g, xs)
  {
    if xs != [] {
      DistinctCons(g(xs[0]), Map(g, xs[1..]));
      DistinctSort(g, leq, xs[1..]);
      DistinctInsert(g, leq, xs[0], Sort(leq, xs[1..]));
    }
  }

  lemma OrderedUnique(facts: seq<Fact>, namespace: string, branch: string, k: Key)
    requires Unique(facts)
    ensures Unique(Ordered(facts, namespace, branch, k))
  {
    var q := HistoryQuery(namespace, branch, k);
    DistinctFilter(FactIdOf, Matching(q), facts);
    DistinctSort(FactIdOf, NewestFirst, Filter(Matching(q), facts));
    DistinctSort(FactIdOf, OldestFirst, Sort(NewestFirst, Filter(Matching(q), facts)));
  }

  lemma UniqueSnoc(fs: seq<Fact>, f: Fact)
    requires Unique(fs) && forall x :: x in fs ==> x.id != f.id
    ensures Unique(fs + [f])
  {
    assert FactIds(fs + [f]) == FactIds(fs) + [f.id];
  }

  lemma {:induction false} EligibleUnique(policy: RetentionPolicy, cutoff: Option<nat>, ordered: seq<Fact>, i: nat)
    requires Unique(ordered) && i <= |ordered|
    ensures Unique(EligibleTo(policy, cutoff, ordered, i))
    ensures forall f :: f in EligibleTo(policy, cutoff, ordered, i) ==>
              (policy.onlyRetracted ==> f.retracted) && exists j :: 0 <= j < i && ordered[j] == f
  {
    if i > 0 {
      EligibleUnique(policy, cutoff, ordered, i - 1);
      var before, f := EligibleTo(policy, cutoff, ordered, i - 1), ordered[i - 1];
      forall x | x in before ensures x.id != f.id {
        var j :| 0 <= j < i - 1 && ordered[j] == x;
        assert FactIds(ordered)[j] == x.id && FactIds(ordered)[i - 1] == f.id;
      }
      UniqueSnoc(before, f);
    }
  }

  /** How many facts, from the oldest on, exceed the thresholds. */
  function Excess(policy: RetentionPolicy, cutoff: Option<nat>, ordered: seq<Fact>, i: nat): (m: nat)
    requires i <= |ordered|
    ensures m <= i
  {
    if i == 0 then 0
    else if Exceeds(policy, cutoff, |ordered|, i - 1, ordered[i - 1]) then i
    else Excess(policy, cutoff, ordered, i - 1)
  }

  /** The excess is exactly the facts that exceed: in oldest-first order both thresholds cut off a prefix. */
  lemma {:induction false} ExcessIs(policy: RetentionPolicy, cutoff: Option<nat>, ordered: seq<Fact>, i: nat)
    requires Sorted(OldestFirst, ordered) && i <= |ordered|
    ensures var m := Excess(policy, cutoff, ordered, i);
            forall j :: 0 <= j < i ==> (Exceeds(policy, cutoff, |ordered|, j, ordered[j]) <==> j < m)
    ensures !policy.onlyRetracted ==>
              EligibleTo(policy, cutoff, ordered, i) == ordered[..Excess(policy, cutoff, ordered, i)]
  {
    if i > 0 {
      ExcessIs(policy, cutoff, ordered, i - 1);
      if Exceeds(policy, cutoff, |ordered|, i - 1, ordered[i - 1]) {
        forall j | 0 <= j < i - 1 ensures Exceeds(policy, cutoff, |ordered|, j, ordered[j]) {
          SortedAt(OldestFirst, ordered, j, i - 1);
        }
        assert Excess(policy, cutoff, ordered, i - 1) == i - 1 by {
          if i > 1 {
            assert Exceeds(policy, cutoff, |ordered|, i - 2, ordered[i - 2]);
          }
        }
        assert ordered[..i] == ordered[..i - 1] + [ordered[i - 1]];
      }
    }
  }

  // ---- one key -----------------------------------------------------------------------------

  predicate IsSuffix<T(==)>(xs: seq<T>, ys: seq<T>) {
    |xs| <= |ys| && xs == ys[|ys| - |xs|..]
  }

  /** No fact is past every threshold. */
  ghost predicate Within(policy: RetentionPolicy, cutoff: Option<nat>, recent: seq<Fact>) {
    forall i :: 0 <= i < |recent| ==> !Exceeds(policy, cutoff, |recent|, i, recent[i])
  }

  /** Dropping ids from the live facts drops them from the live facts of every key. */
  lemma DropAtKey(s: State, now: State, ids: set<FactId>, namespace: string, branch: string, k: Key)
    requires Dropped(s, now, ids)
    ensures Filter(LiveAt(namespace, branch, k), now.facts)
         == Filter(NotIn(ids), Filter(LiveAt(namespace, branch, k), s.facts))
    ensures Recent(now.facts, namespace, branch, k) == Filter(NotIn(ids), Recent(s.facts, namespace, branch, k))
  {
    var at := LiveAt(namespace, branch, k);
    var both := (f: Fact) => at(f) && NotIn(ids)(f);
    FilterFilter(at, IsLive, at, now.facts);
    FilterFilter(at, IsLive, at, s.facts);
    FilterFilter(at, NotIn(ids), both, AllLive(s.facts));
    FilterFilter(NotIn(ids), at, both, AllLive(s.facts));
    OldestFirstPreorder();
    FilterSort(OldestFirst, NotIn(ids), Filter(at, s.facts));
  }

  lemma SameFactById(facts: seq<Fact>, f: Fact, g: Fact)
    requires Unique(facts) && f in facts && g in facts && f.id == g.id
    ensures f == g
  {
    var i :| 0 <= i < |facts| && facts[i] == f;
    var j :| 0 <= j < |facts| && facts[j] == g;
    assert FactIds(facts)[i] == f.id && FactIds(facts)[j] == g.id;
  }

  /** Facts of one key dropped leave every other key alone. */
  lemma OtherKeysUntouched(s: State, now: State, fs: seq<Fact>, namespace: string, branch: string, k: Key,
                           namespace': string, branch': string, k': Key)
    requires Unique(s.facts) && Dropped(s, now, LiveIds(fs))
    requires forall f :: f in fs ==> f in s.facts && f.namespace == namespace && f.branch == branch && KeyOf(f) == k
    requires (namespace', branch', k') != (namespace, branch, k)
    ensures Filter(LiveAt(namespace', branch', k'), now.facts) == Filter(LiveAt(namespace', branch', k'), s.facts)
  {
    var here := Filter(LiveAt(namespace', branch', k'), s.facts);
    DropAtKey(s, now, LiveIds(fs), namespace', branch', k');
    forall f | f in here ensures NotIn(LiveIds(fs))(f) {
      if f.id in LiveIds(fs) {
        var g :| g in fs && IsLive(g) && g.id == f.id;
        SameFactById(s.facts, f, g);
      }
    }
    FilterAll(NotIn(LiveIds(fs)), here);
  }

  /** A kept element is no farther from the end than where it stood. */
  lemma {:induction false} FilterFromEnd<T>(q: T -> bool, xs: seq<T>, i: nat) returns (j: nat)
    requires i < |Filter(q, xs)|
    ensures j < |xs| && Filter(q, xs)[i] == xs[j] && |Filter(q, xs)| - i <= |xs| - j
  {
    if q(xs[0]) {
      if i == 0 {
        j := 0;
      } else {
        var t := FilterFromEnd(q, xs[1..], i - 1);
        j := t + 1;
      }
    } else {
      var t := FilterFromEnd(q, xs[1..], i);
      j := t + 1;
    }
  }

  /** Cutting off a first part whose kept elements all go and sparing a second part. */
  lemma CutParts<T>(live: T -> bool, stays: T -> bool, a: seq<T>, b: seq<T>)
    requires forall x | x in a :: live(x) ==> !stays(x)
    requires forall x | x in b :: live(x) ==> stays(x)
    ensures Filter(stays, Filter(live, a + b)) == Filter(live, b)
    ensures IsSuffix(Filter(live, b), Filter(live, a + b))
  {
    FilterConcat(live, a, b);
    FilterConcat(stays, Filter(live, a), Filter(live, b));
    FilterNone(stays, Filter(live, a));
    FilterAll(stays, Filter(live, b));
  }

  lemma PartsApart(ordered: seq<Fact>, m: nat, f: Fact, g: Fact)
    requires Unique(ordered) && m <= |ordered| && f in ordered[..m] && g in ordered[m..]
    ensures f.id != g.id
  {
    var i :| 0 <= i < m && ordered[..m][i] == f;
    var j :| 0 <= j < |ordered[m..]| && ordered[m..][j] == g;
    assert FactIds(ordered)[i] == f.id && FactIds(ordered)[m + j] == g.id;
  }

  /** The live facts after the excess is cut off. */
  lemma CutOff(ordered: seq<Fact>, m: nat)
    requires Unique(ordered) && m <= |ordered|
    ensures Filter(NotIn(LiveIds(ordered[..m])), Filter(IsLive, ordered)) == Filter(IsLive, ordered[m..])
    ensures IsSuffix(Filter(IsLive, ordered[m..]), Filter(IsLive, ordered))
  {
    var a, b := ordered[..m], ordered[m..];
    PartsStay(ordered, m);
    CutParts(IsLive, NotIn(LiveIds(a)), a, b);
    TakeDrop(ordered, m);
  }

  lemma TakeDrop<T>(xs: seq<T>, m: nat)
    requires m <= |xs|
    ensures xs[..m] + xs[m..] == xs
  {
  }

  lemma PartsStay(ordered: seq<Fact>, m: nat)
    requires Unique(ordered) && m <= |ordered|
    ensures forall f | f in ordered[..m] :: IsLive(f) ==> !NotIn(LiveIds(ordered[..m]))(f)
    ensures forall g | g in ordered[m..] :: NotIn(LiveIds(ordered[..m]))(g)
  {
    forall f, g | f in ordered[..m] && g in ordered[m..] ensures f.id != g.id {
      PartsApart(ordered, m, f, g);
    }
  }

  lemma RestIsWithin(policy: RetentionPolicy, cutoff: Option<nat>, ordered: seq<Fact>)
    requires Sorted(OldestFirst, ordered)
    ensures Within(policy, cutoff, Filter(IsLive, ordered[Excess(policy, cutoff, ordered, |ordered|)..]))
  {
    var m := Excess(policy, cutoff, ordered, |ordered|);
    var rest := ordered[m..];
    var recent := Filter(IsLive, rest);
    ExcessIs(policy, cutoff, ordered, |ordered|);
    forall i | 0 <= i < |recent| ensures !Exceeds(policy, cutoff, |recent|, i, recent[i]) {
      var j := FilterFromEnd(IsLive, rest, i);
      assert rest[j] == ordered[m + j];
    }
  }

  lemma EligibleBelong(s: State, namespace: string, branch: string, k: Key, policy: RetentionPolicy,
                       cutoff: Option<nat>)
    requires Unique(s.facts)
    ensures var ordered := Ordered(s.facts, namespace, branch, k);
            var eligible := EligibleTo(policy, cutoff, ordered, |ordered|);
            && Belong(s, eligible, namespace, branch)
            && (forall f :: f in eligible ==> KeyOf(f) == k && (policy.onlyRetracted ==> f.retracted))
  {
    var ordered := Ordered(s.facts, namespace, branch, k);
    OrderedUnique(s.facts, namespace, branch, k);
    EligibleUnique(policy, cutoff, ordered, |ordered|);
    forall f | f in EligibleTo(policy, cutoff, ordered, |ordered|)
      ensures f in s.facts && f.namespace == namespace && f.branch == branch && KeyOf(f) == k
    {
      assert f in ordered;
    }
  }

  /** Retaining a key never fails; it drops exactly the eligible live facts, and collects the branch. */
  lemma RetainKeyDrops(s: State, namespace: string, branch: string, k: Key, policy: RetentionPolicy,
                       cutoff: Option<nat>, ticks: nat -> u64, txIds: nat -> TxId, used: nat)
    requires Unique(s.facts) && !policy.dryRun
    ensures var ordered := Ordered(s.facts, namespace, branch, k);
            var r := RetainKey(s, namespace, branch, k, policy, cutoff, ticks, txIds, used);
            && r.Ok? && Dropped(s, r.value.s, LiveIds(EligibleTo(policy, cutoff, ordered, |ordered|)))
            && |AllLive(r.value.s.facts)| <= |AllLive(s.facts)|
            && r.value.used == used + |AllLive(s.facts)| - |AllLive(r.value.s.facts)|
            && (forall f :: f in r.value.s.facts ==> !Collectable(GcParams(cutoff, Some(branch), false), f))
  {
    var ordered := Ordered(s.facts, namespace, branch, k);
    var eligible := EligibleTo(policy, cutoff, ordered, |ordered|);
    EligibleBelong(s, namespace, branch, k, policy, cutoff);
    RetractAllSucceeds(s, eligible, namespace, branch, ticks, txIds, used);
    var r := RetractAll(s, eligible, namespace, branch, ticks, txIds, used);
    GcKeepsLive(r.value.0, GcParams(cutoff, Some(branch), false));
  }

  /**
   * The key keeps a suffix of its live facts in oldest-first order, so the most recent ones, and none of them is
   * past every threshold; every other key keeps all its live facts.
   */
  lemma RetainKeyTrims(s: State, namespace: string, branch: string, k: Key, policy: RetentionPolicy,
                       cutoff: Option<nat>, ticks: nat -> u64, txIds: nat -> TxId, used: nat)
    requires Unique(s.facts) && !policy.dryRun
    ensures var r := RetainKey(s, namespace, branch, k, policy, cutoff, ticks, txIds, used);
            && r.Ok?
            && IsSuffix(Recent(r.value.s.facts, namespace, branch, k), Recent(s.facts, namespace, branch, k))
            && (policy.onlyRetracted ==>
                  Recent(r.value.s.facts, namespace, branch, k) == Recent(s.facts, namespace, branch, k))
            && (!policy.onlyRetracted ==>
                  Within(policy, cutoff, Recent(r.value.s.facts, namespace, branch, k)))
  {
    var ordered := Ordered(s.facts, namespace, branch, k);
    var m := Excess(policy, cutoff, ordered, |ordered|);
    var eligible := EligibleTo(policy, cutoff, ordered, |ordered|);
    RetainKeyDrops(s, namespace, branch, k, policy, cutoff, ticks, txIds, used);
    var now := RetainKey(s, namespace, branch, k, policy, cutoff, ticks, txIds, used).value.s;
    DropAtKey(s, now, LiveIds(eligible), namespace, branch, k);
    OrderedLive(s.facts, namespace, branch, k);
    if policy.onlyRetracted {
      EligibleBelong(s, namespace, branch, k, policy, cutoff);
      assert LiveIds(eligible) == {};
      FilterAll(NotIn({}), Recent(s.facts, namespace, branch, k));
    } else {
      OrderedUnique(s.facts, namespace, branch, k);
      ExcessIs(policy, cutoff, ordered, |ordered|);
      CutOff(ordered, m);
      RestIsWithin(policy, cutoff, ordered);
    }
  }

  lemma RetainKeySparesOthers(s: State, namespace: string, branch: string, k: Key, policy: RetentionPolicy,
                              cutoff: Option<nat>, ticks: nat -> u64, txIds: nat -> TxId, used: nat,
                              namespace': string, branch': string, k': Key)
    requires Unique(s.facts) && !policy.dryRun && (namespace', branch', k') != (namespace, branch, k)
    ensures var r := RetainKey(s, namespace, branch, k, policy, cutoff, ticks, txIds, used);
            r.Ok? && Filter(LiveAt(namespace', branch', k'), r.value.s.facts)
                  == Filter(LiveAt(namespace', branch', k'), s.facts)
  {
    var ordered := Ordered(s.facts, namespace, branch, k);
    RetainKeyDrops(s, namespace, branch, k, policy, cutoff, ticks, txIds, used);
    EligibleBelong(s, namespace, branch, k, policy, cutoff);
    OtherKeysUntouched(s, RetainKey(s, namespace, branch, k, policy, cutoff, ticks, txIds, used).value.s,
                       EligibleTo(policy, cutoff, ordered, |ordered|), namespace, branch, k, namespace', branch', k');
  }

  // ---- the age limit -----------------------------------------------------------------------

  /** What the policy's words promise: the age is measured on the fact's own time in milliseconds. */
  predicate AgedOut(policy: RetentionPolicy, cutoff: Option<nat>, n: nat, i: nat, f: Fact) {
    && (cutoff.Some? ==> Hlc.PhysicalMs(f.txTime) < cutoff.value)
    && (policy.maxVersions.Some? ==> n - i > policy.maxVersions.value)
    && (policy.onlyRetracted ==> f.retracted)
  }

  /** The facts among the first `i` that the policy means to let go. */
  function IntendedTo(policy: RetentionPolicy, cutoff: Option<nat>, ordered: seq<Fact>, i: nat): seq<Fact>
    requires i <= |ordered|
  {
    if i == 0 then []
    else
      var before, f := IntendedTo(policy, cutoff, ordered, i - 1), ordered[i - 1];
      if AgedOut(policy, cutoff, |ordered|, i - 1, f) then before + [f] else before
  }

  lemma EligibleIsIntended(policy: RetentionPolicy, cutoff: Option<nat>, n: nat, i: nat, f: Fact)
    ensures Eligible(policy, cutoff, n, i, f) ==> AgedOut(policy, cutoff, n, i, f)
    ensures AgedOut(policy, cutoff, n, i, f) && (cutoff.Some? ==> f.txTime < cutoff.value)
            ==> Eligible(policy, cutoff, n, i, f)
  {
    Hlc.PackedParts(f.txTime);
  }

  /**
   * The age limit, in milliseconds, is compared with the packed timestamp. No fact goes that should stay, and every
   * fact that should go goes if and only if none of them has its time in milliseconds before the cutoff and its
   * packed timestamp not before it.
   */
  lemma {:induction false} AgeLimitRetiresIntendedExactly(policy: RetentionPolicy, cutoff: Option<nat>,
                                                          ordered: seq<Fact>, i: nat)
    requires i <= |ordered|
    ensures |EligibleTo(policy, cutoff, ordered, i)| <= |IntendedTo(policy, cutoff, ordered, i)|
    ensures EligibleTo(policy, cutoff, ordered, i) == IntendedTo(policy, cutoff, ordered, i) <==>
            forall j :: 0 <= j < i && AgedOut(policy, cutoff, |ordered|, j, ordered[j]) && cutoff.Some? ==>
                          ordered[j].txTime < cutoff.value
  {
    if i > 0 {
      var f := ordered[i - 1];
      AgeLimitRetiresIntendedExactly(policy, cutoff, ordered, i - 1);
      EligibleIsIntended(policy, cutoff, |ordered|, i - 1, f);
      SnocEqual(EligibleTo(policy, cutoff, ordered, i - 1), IntendedTo(policy, cutoff, ordered, i - 1), f);
      assert AgedOut(policy, cutoff, |ordered|, i - 1, f) && cutoff.Some? && f.txTime >= cutoff.value ==>
               |EligibleTo(policy, cutoff, ordered, i)| < |IntendedTo(policy, cutoff, ordered, i)|;
    }
  }

  lemma SnocEqual<T>(xs: seq<T>, ys: seq<T>, x: T)
    ensures xs + [x] == ys + [x] <==> xs == ys
  {
    if xs + [x] == ys + [x] {
      assert (xs + [x])[..|xs|] == xs && (ys + [x])[..|ys|] == ys;
    }
  }

  /** So an age limit a clock can show lets no fact go that is stamped 2^32 milliseconds after the epoch or later. */
  lemma {:induction false} RealAgeLimitRetiresNothing(policy: RetentionPolicy, cutoff: nat, ordered: seq<Fact>, i: nat)
    requires i <= |ordered| && cutoff <= 0x1_0000_0000_0000
    requires forall j :: 0 <= j < i ==> Hlc.PhysicalMs(ordered[j].txTime) >= 0x1_0000_0000
    ensures EligibleTo(policy, Some(cutoff), ordered, i) == []
  {
    if i > 0 {
      RealAgeLimitRetiresNothing(policy, cutoff, ordered, i - 1);
      Hlc.PackedParts(ordered[i - 1].txTime);
    }
  }
}
