/** Retention key after key: what every key keeps and loses, and without an age limit exactly what is left. */
module RetentionPass {
  import opened Base
  import opened Lists
  import opened StableSort
  import opened Strings
  import opened Ledger
  import opened Store
  import opened Merge
  import opened Retention
  import opened RetentionHistory

  // ---- whole passes ------------------------------------------------------------------------

  /**
   * From `before` to `after`, every key keeps a suffix of its live facts in oldest-first order, and keys of other
   * namespaces and branches keep all of them, in place.
   */
  ghost predicate Shrinks(before: seq<Fact>, after: seq<Fact>, namespace: string, branches: set<string>) {
    && Unique(after)
    && (forall n, b, k :: IsSuffix(Recent(after, n, b, k), Recent(before, n, b, k)))
    && (forall n, b, k :: n != namespace || b !in branches ==>
                            Filter(LiveAt(n, b, k), after) == Filter(LiveAt(n, b, k), before))
  }

  lemma ShrinksNot(facts: seq<Fact>, namespace: string, branches: set<string>)
    requires Unique(facts)
    ensures Shrinks(facts, facts, namespace, branches)
  {
  }

  lemma SuffixOfSuffix<T>(xs: seq<T>, ys: seq<T>, zs: seq<T>)
    requires IsSuffix(xs, ys) && IsSuffix(ys, zs)
    ensures IsSuffix(xs, zs)
  {
  }

  lemma ShrinksTwice(a: seq<Fact>, b: seq<Fact>, c: seq<Fact>, namespace: string, branches: set<string>)
    requires Shrinks(a, b, namespace, branches) && Shrinks(b, c, namespace, branches)
    ensures Shrinks(a, c, namespace, branches)
  {
    forall n, br, k ensures IsSuffix(Recent(c, n, br, k), Recent(a, n, br, k)) {
      SuffixOfSuffix(Recent(c, n, br, k), Recent(b, n, br, k), Recent(a, n, br, k));
    }
    forall n, br, k | n != namespace || br !in branches
      ensures Filter(LiveAt(n, br, k), c) == Filter(LiveAt(n, br, k), a)
    {
      assert Filter(LiveAt(n, br, k), c) == Filter(LiveAt(n, br, k), b);
      assert Filter(LiveAt(n, br, k), b) == Filter(LiveAt(n, br, k), a);
    }
  }

  lemma ShrinksWider(a: seq<Fact>, b: seq<Fact>, namespace: string, branches: set<string>, wider: set<string>)
    requires Shrinks(a, b, namespace, branches) && branches <= wider
    ensures Shrinks(a, b, namespace, wider)
  {
    forall n, br, k | n != namespace || br !in wider
      ensures Filter(LiveAt(n, br, k), b) == Filter(LiveAt(n, br, k), a)
    {
    }
  }

  /**
   * The key holds no live fact past every threshold, by a reading of the clock among the `lo`-th to the one before the
   * `hi`-th; nothing is asked of a policy for retracted facts only.
   */
  ghost predicate Settled(policy: RetentionPolicy, nowMs: nat -> u64, lo: nat, hi: nat, facts: seq<Fact>,
                          namespace: string, branch: string, k: Key)
  {
    || policy.onlyRetracted
    || Recent(facts, namespace, branch, k) == []
    || exists j: nat :: lo <= j < hi && Within(policy, Cutoff(policy, nowMs(j)), Recent(facts, namespace, branch, k))
  }

  lemma WithinSuffix(policy: RetentionPolicy, cutoff: Option<nat>, xs: seq<Fact>, ys: seq<Fact>)
    requires Within(policy, cutoff, ys) && IsSuffix(xs, ys)
    ensures Within(policy, cutoff, xs)
  {
    var d := |ys| - |xs|;
    forall i | 0 <= i < |xs| ensures !Exceeds(policy, cutoff, |xs|, i, xs[i]) {
      assert xs[i] == ys[d + i];
    }
  }

  /** Once settled, a key stays settled. */
  lemma SettledStays(policy: RetentionPolicy, nowMs: nat -> u64, lo: nat, mid: nat, hi: nat, before: seq<Fact>,
                     after: seq<Fact>, namespace: string, branches: set<string>, n: string, b: string, k: Key)
    requires Shrinks(before, after, namespace, branches) && Settled(policy, nowMs, lo, mid, before, n, b, k)
    requires mid <= hi
    ensures Settled(policy, nowMs, lo, hi, after, n, b, k)
  {
    var was, now := Recent(before, n, b, k), Recent(after, n, b, k);
    assert IsSuffix(now, was);
    if !policy.onlyRetracted && now != [] {
      var j: nat :| lo <= j < mid && Within(policy, Cutoff(policy, nowMs(j)), was);
      WithinSuffix(policy, Cutoff(policy, nowMs(j)), now, was);
      assert lo <= j < hi && Within(policy, Cutoff(policy, nowMs(j)), now);
    }
  }

  /** A reading that bounds the age of what is left settles the key. */
  lemma WithinSettles(policy: RetentionPolicy, nowMs: nat -> u64, lo: nat, look: nat, facts: seq<Fact>, n: string,
                      b: string, k: Key)
    requires lo <= look && Within(policy, Cutoff(policy, nowMs(look)), Recent(facts, n, b, k))
    ensures Settled(policy, nowMs, lo, look + 1, facts, n, b, k)
  {
    assert lo <= look < look + 1 && Within(policy, Cutoff(policy, nowMs(look)), Recent(facts, n, b, k));
  }

  /** Retaining one key shrinks and settles it, by the one reading it takes. */
  lemma RetainKeyShrinks(s: State, namespace: string, branch: string, k: Key, policy: RetentionPolicy,
                         nowMs: nat -> u64, lo: nat, look: nat, ticks: nat -> u64, txIds: nat -> TxId, used: nat)
    requires Unique(s.facts) && !policy.dryRun && lo <= look
    ensures var r := RetainKey(s, namespace, branch, k, policy, Cutoff(policy, nowMs(look)), ticks, txIds, used);
            && r.Ok? && Shrinks(s.facts, r.value.s.facts, namespace, {branch})
            && Settled(policy, nowMs, lo, look + 1, r.value.s.facts, namespace, branch, k)
            && |AllLive(r.value.s.facts)| <= |AllLive(s.facts)|
            && r.value.used == used + |AllLive(s.facts)| - |AllLive(r.value.s.facts)|
  {
    var cutoff := Cutoff(policy, nowMs(look));
    RetainKeyDrops(s, namespace, branch, k, policy, cutoff, ticks, txIds, used);
    RetainKeyTrims(s, namespace, branch, k, policy, cutoff, ticks, txIds, used);
    var after := RetainKey(s, namespace, branch, k, policy, cutoff, ticks, txIds, used).value.s;
    if !policy.onlyRetracted {
      WithinSettles(policy, nowMs, lo, look, after.facts, namespace, branch, k);
    }
    forall n, b, k' | (n, b, k') != (namespace, branch, k)
      ensures Filter(LiveAt(n, b, k'), after.facts) == Filter(LiveAt(n, b, k'), s.facts)
    {
      RetainKeySparesOthers(s, namespace, branch, k, policy, cutoff, ticks, txIds, used, n, b, k');
    }
    forall n, b, k' ensures IsSuffix(Recent(after.facts, n, b, k'), Recent(s.facts, n, b, k')) {
      if (n, b, k') != (namespace, branch, k) {
        assert Filter(LiveAt(n, b, k'), after.facts) == Filter(LiveAt(n, b, k'), s.facts);
      }
    }
  }

  /** What a settled key means when only a number of versions is asked for: at most that many live facts. */
  lemma SettledVersions(policy: RetentionPolicy, nowMs: nat -> u64, lo: nat, hi: nat, facts: seq<Fact>, n: string,
                        b: string, k: Key)
    requires Settled(policy, nowMs, lo, hi, facts, n, b, k) && !policy.onlyRetracted
    requires policy.maxVersions.Some? && policy.maxAgeSecs.None?
    ensures |Recent(facts, n, b, k)| <= policy.maxVersions.value
  {
    var recent := Recent(facts, n, b, k);
    if recent != [] {
      var j: nat :| lo <= j < hi && Within(policy, Cutoff(policy, nowMs(j)), recent);
      assert !Exceeds(policy, None, |recent|, 0, recent[0]);
    }
  }

  /** A policy that sets no threshold leaves no live fact at all. */
  lemma EmptyPolicyLeavesNothing(policy: RetentionPolicy, nowMs: nat -> u64, lo: nat, hi: nat, facts: seq<Fact>,
                                 n: string, b: string, k: Key)
    requires Settled(policy, nowMs, lo, hi, facts, n, b, k) && !policy.onlyRetracted
    requires policy.maxVersions.None? && policy.maxAgeSecs.None?
    ensures Recent(facts, n, b, k) == []
  {
    var recent := Recent(facts, n, b, k);
    if j: nat :| lo <= j < hi && Within(policy, Cutoff(policy, nowMs(j)), recent) {
      NoThreshold(policy, recent);
    }
  }

  lemma NoThreshold(policy: RetentionPolicy, recent: seq<Fact>)
    requires policy.maxVersions.None? && Within(policy, None, recent)
    ensures recent == []
  {
    assert recent == [] || !Exceeds(policy, None, |recent|, 0, recent[0]);
  }

  // ---- other branches ----------------------------------------------------------------------

  function OnBranch(branch: string): Fact -> bool {
    (f: Fact) => f.branch == branch
  }

  /** Branches of other names keep every fact as it is, retracted ones and other namespaces included. */
  ghost predicate Elsewhere(before: seq<Fact>, after: seq<Fact>, branches: set<string>) {
    forall b :: b !in branches ==> Filter(OnBranch(b), after) == Filter(OnBranch(b), before)
  }

  lemma ElsewhereTwice(a: seq<Fact>, b: seq<Fact>, c: seq<Fact>, branches: set<string>)
    requires Elsewhere(a, b, branches) && Elsewhere(b, c, branches)
    ensures Elsewhere(a, c, branches)
  {
    forall br | br !in branches ensures Filter(OnBranch(br), c) == Filter(OnBranch(br), a) {
      assert Filter(OnBranch(br), c) == Filter(OnBranch(br), b);
      assert Filter(OnBranch(br), b) == Filter(OnBranch(br), a);
    }
  }

  /** Replacing an element a filter leaves out by another it leaves out. */
  lemma ReplaceOutside<T>(q: T -> bool, xs: seq<T>, i: nat, y: T)
    requires i < |xs| && !q(y) && !q(xs[i])
    ensures Filter(q, xs[i := y]) == Filter(q, xs)
  {
    var a, b := xs[..i], xs[i + 1..];
    assert xs == (a + [xs[i]]) + b && xs[i := y] == (a + [y]) + b;
    FilterConcat(q, a + [xs[i]], b);
    FilterConcat(q, a + [y], b);
    FilterSnoc(q, a, xs[i]);
    FilterSnoc(q, a, y);
  }

  lemma RetractElsewhere(s: State, id: FactId, p: RetractParams)
    requires Retract(s, id, p).Ok?
    ensures Elsewhere(s.facts, Retract(s, id, p).value.facts, {p.branch})
  {
    var i := FindRetractable(s.facts, id, p);
    forall b | b !in {p.branch}
      ensures Filter(OnBranch(b), Retract(s, id, p).value.facts) == Filter(OnBranch(b), s.facts)
    {
      ReplaceOutside(OnBranch(b), s.facts, i, Retracted(s.facts[i], p));
    }
  }

  lemma {:induction false} RetractAllElsewhere(s: State, fs: seq<Fact>, namespace: string, branch: string,
                                               ticks: nat -> u64, txIds: nat -> TxId, used: nat)
    requires RetractAll(s, fs, namespace, branch, ticks, txIds, used).Ok?
    ensures Elsewhere(s.facts, RetractAll(s, fs, namespace, branch, ticks, txIds, used).value.0.facts, {branch})
  {
    if fs != [] {
      var front, f := fs[..|fs| - 1], fs[|fs| - 1];
      RetractAllElsewhere(s, front, namespace, branch, ticks, txIds, used);
      var (now, u) := RetractAll(s, front, namespace, branch, ticks, txIds, used).value;
      RetractAllStep(s, fs, namespace, branch, ticks, txIds, used, now, u);
      if IsLive(f) {
        var p := RetainParams(namespace, branch, ticks(u), txIds(u));
        RetractElsewhere(now, f.id, p);
        ElsewhereTwice(s.facts, now.facts, Retract(now, f.id, p).value.facts, {branch});
      }
    }
  }

  lemma GcElsewhere(s: State, cutoff: Option<nat>, branch: string)
    ensures Elsewhere(s.facts, Gc(s, GcParams(cutoff, Some(branch), false)).0.facts, {branch})
  {
    var p := GcParams(cutoff, Some(branch), false);
    forall b | b !in {branch} ensures Filter(OnBranch(b), Gc(s, p).0.facts) == Filter(OnBranch(b), s.facts) {
      FilterFilter(OnBranch(b), Kept(p), OnBranch(b), s.facts);
    }
  }

  lemma RetainKeyElsewhere(s: State, namespace: string, branch: string, k: Key, policy: RetentionPolicy,
                           cutoff: Option<nat>, ticks: nat -> u64, txIds: nat -> TxId, used: nat)
    requires !policy.dryRun && RetainKey(s, namespace, branch, k, policy, cutoff, ticks, txIds, used).Ok?
    ensures Elsewhere(s.facts, RetainKey(s, namespace, branch, k, policy, cutoff, ticks, txIds, used).value.s.facts,
                      {branch})
  {
    var ordered := Ordered(s.facts, namespace, branch, k);
    var eligible := EligibleTo(policy, cutoff, ordered, |ordered|);
    RetractAllElsewhere(s, eligible, namespace, branch, ticks, txIds, used);
    var mid := RetractAll(s, eligible, namespace, branch, ticks, txIds, used).value.0;
    GcElsewhere(mid, cutoff, branch);
    ElsewhereTwice(s.facts, mid.facts, Gc(mid, GcParams(cutoff, Some(branch), false)).0.facts, {branch});
  }

  // ---- exactly what is left, without an age limit ------------------------------------------

  /** The last of a list that the policy keeps: the number of versions, or none if it sets no number. */
  function Keep<T>(policy: RetentionPolicy, xs: seq<T>): seq<T> {
    if policy.maxVersions.None? then []
    else if |xs| <= policy.maxVersions.value then xs
    else xs[|xs| - policy.maxVersions.value..]
  }

  predicate NoAge(policy: RetentionPolicy) {
    policy.maxAgeSecs.None? && !policy.onlyRetracted && !policy.dryRun
  }

  predicate KeyBefore(a: Key, b: Key) {
    CompareStr(a.0, b.0) == Less || (a.0 == b.0 && StrLeq(a.1, b.1))
  }

  /** The key is live on the branch and comes first of its live keys: the one whose turn comes first. */
  ghost predicate IsLeast(facts: seq<Fact>, namespace: string, branch: string, k: Key) {
    && Filter(LiveAt(namespace, branch, k), facts) != []
    && (forall f :: f in facts && Matches(LiveQuery(namespace, branch), f) ==> KeyBefore(k, KeyOf(f)))
  }

  /**
   * What retention leaves of a key. On the key whose turn comes first, retracted facts still count as versions; its
   * turn collects them all, so on every other key only live facts count.
   */
  ghost function Expect(policy: RetentionPolicy, facts: seq<Fact>, namespace: string, branch: string, k: Key):
    seq<Fact>
  {
    if IsLeast(facts, namespace, branch, k) then Filter(IsLive, Keep(policy, Ordered(facts, namespace, branch, k)))
    else Keep(policy, Recent(facts, namespace, branch, k))
  }

  /** No fact on a branch of the name is retracted. */
  predicate Clean(facts: seq<Fact>, branch: string) {
    forall f | f in facts :: f.branch == branch ==> IsLive(f)
  }

  lemma CleanHistory(facts: seq<Fact>, namespace: string, branch: string, k: Key)
    requires Clean(facts, branch)
    ensures Ordered(facts, namespace, branch, k) == Recent(facts, namespace, branch, k)
  {
    var ordered := Ordered(facts, namespace, branch, k);
    OrderedLive(facts, namespace, branch, k);
    forall f | f in ordered ensures IsLive(f) {
      assert f in facts && f.branch == branch;
    }
    FilterAll(IsLive, ordered);
  }

  lemma KeepsLive(policy: RetentionPolicy, facts: seq<Fact>)
    requires forall f | f in facts :: IsLive(f)
    ensures Filter(IsLive, Keep(policy, facts)) == Keep(policy, facts)
  {
    FilterAll(IsLive, Keep(policy, facts));
  }

  /** Without an age limit the excess is all but the versions to keep. */
  lemma ExcessKeeps(policy: RetentionPolicy, ordered: seq<Fact>)
    requires Sorted(OldestFirst, ordered)
    ensures ordered[Excess(policy, None, ordered, |ordered|)..] == Keep(policy, ordered)
  {
    var n, m := |ordered|, Excess(policy, None, ordered, |ordered|);
    ExcessIs(policy, None, ordered, n);
    if policy.maxVersions.None? {
      assert n > 0 ==> Exceeds(policy, None, n, n - 1, ordered[n - 1]);
    } else {
      var v := policy.maxVersions.value;
      assert m < n ==> !Exceeds(policy, None, n, m, ordered[m]);
      assert 0 < m ==> Exceeds(policy, None, n, m - 1, ordered[m - 1]);
      assert m == if n <= v then 0 else n - v;
    }
  }

  lemma CollectedIsClean(facts: seq<Fact>, branch: string)
    requires forall f :: f in facts ==> !Collectable(GcParams(None, Some(branch), false), f)
    ensures Clean(facts, branch)
  {
  }

  lemma KeyBeforeAntisymmetric(a: Key, b: Key)
    requires KeyBefore(a, b) && KeyBefore(b, a)
    ensures a == b
  {
    CompareStrReverse(a.0, b.0);
    CompareStrEqual(a.0, b.0);
    CompareStrReverse(a.1, b.1);
    CompareStrEqual(a.1, b.1);
  }

  lemma LeastIsUnique(facts: seq<Fact>, namespace: string, branch: string, a: Key, b: Key)
    requires IsLeast(facts, namespace, branch, a) && IsLeast(facts, namespace, branch, b)
    ensures a == b
  {
    var f, g := Filter(LiveAt(namespace, branch, a), facts)[0], Filter(LiveAt(namespace, branch, b), facts)[0];
    assert f in Filter(LiveAt(namespace, branch, a), facts) && g in Filter(LiveAt(namespace, branch, b), facts);
    KeyBeforeAntisymmetric(a, b);
  }

  /** A key without live facts is as expected without a turn. */
  lemma NothingToDo(policy: RetentionPolicy, start: seq<Fact>, namespace: string, branch: string, k: Key)
    requires Recent(start, namespace, branch, k) == []
    ensures Expect(policy, start, namespace, branch, k) == []
  {
    assert |Recent(start, namespace, branch, k)| == |Filter(LiveAt(namespace, branch, k), start)|;
  }

  // ---- whole branches ----------------------------------------------------------------------

  /** Every key of the branch is as expected. */
  ghost predicate AsExpected(policy: RetentionPolicy, start: seq<Fact>, now: seq<Fact>, namespace: string,
                             branch: string)
  {
    forall k :: Recent(now, namespace, branch, k) == Expect(policy, start, namespace, branch, k)
  }

  predicate Idle(facts: seq<Fact>, namespace: string, branch: string) {
    forall f | f in facts :: !Matches(LiveQuery(namespace, branch), f)
  }

  /** Nothing is retracted on the branch, or nothing is live. */
  predicate Tidy(facts: seq<Fact>, namespace: string, branch: string) {
    Clean(facts, branch) || Idle(facts, namespace, branch)
  }

  lemma IdleHasNoKeys(facts: seq<Fact>, namespace: string, branch: string, k: Key)
    requires Idle(facts, namespace, branch)
    ensures Filter(LiveAt(namespace, branch, k), facts) == [] && Recent(facts, namespace, branch, k) == []
  {
    FilterNone(LiveAt(namespace, branch, k), facts);
  }

  /** A tidy branch within its number of versions has nothing more to lose. */
  lemma TidyExpectsNothing(policy: RetentionPolicy, facts: seq<Fact>, namespace: string, branch: string, k: Key)
    requires Tidy(facts, namespace, branch)
    requires Keep(policy, Recent(facts, namespace, branch, k)) == Recent(facts, namespace, branch, k)
    ensures Expect(policy, facts, namespace, branch, k) == Recent(facts, namespace, branch, k)
  {
    if Clean(facts, branch) {
      CleanHistory(facts, namespace, branch, k);
      OrderedLive(facts, namespace, branch, k);
      KeepsLive(policy, Recent(facts, namespace, branch, k));
    } else {
      IdleHasNoKeys(facts, namespace, branch, k);
    }
  }

  /** A clean branch keeps exactly its most recent live facts, as many as the policy says. */
  lemma CleanExpects(policy: RetentionPolicy, facts: seq<Fact>, namespace: string, branch: string, k: Key)
    requires Clean(facts, branch)
    ensures Expect(policy, facts, namespace, branch, k) == Keep(policy, Recent(facts, namespace, branch, k))
  {
    CleanHistory(facts, namespace, branch, k);
    OrderedLive(facts, namespace, branch, k);
    KeepsLive(policy, Recent(facts, namespace, branch, k));
  }

  /** What is read of a branch depends only on the facts of its name. */
  lemma SameBranchSameReads(before: seq<Fact>, after: seq<Fact>, namespace: string, branch: string, k: Key)
    requires Filter(OnBranch(branch), after) == Filter(OnBranch(branch), before)
    ensures Recent(after, namespace, branch, k) == Recent(before, namespace, branch, k)
    ensures Ordered(after, namespace, branch, k) == Ordered(before, namespace, branch, k)
    ensures Filter(LiveAt(namespace, branch, k), after) == Filter(LiveAt(namespace, branch, k), before)
  {
    OfBranch(before, namespace, branch, k);
    OfBranch(after, namespace, branch, k);
    ScanHistory(before, namespace, branch, k);
    ScanHistory(after, namespace, branch, k);
  }

  lemma OfBranch(facts: seq<Fact>, namespace: string, branch: string, k: Key)
    ensures Filter(LiveAt(namespace, branch, k), facts)
         == Filter(LiveAt(namespace, branch, k), Filter(OnBranch(branch), facts))
    ensures var q := Matching(HistoryQuery(namespace, branch, k));
            Filter(q, facts) == Filter(q, Filter(OnBranch(branch), facts))
  {
    FilterFilter(LiveAt(namespace, branch, k), OnBranch(branch), LiveAt(namespace, branch, k), facts);
    var q := Matching(HistoryQuery(namespace, branch, k));
    FilterFilter(q, OnBranch(branch), q, facts);
  }

  lemma SameMembers(before: seq<Fact>, after: seq<Fact>, branch: string, f: Fact)
    requires Filter(OnBranch(branch), after) == Filter(OnBranch(branch), before) && f.branch == branch
    ensures f in after <==> f in before
  {
    assert OnBranch(branch)(f);
    assert f in after <==> f in Filter(OnBranch(branch), after);
    assert f in before <==> f in Filter(OnBranch(branch), before);
  }

  lemma SameBranchSameExpectation(policy: RetentionPolicy, before: seq<Fact>, after: seq<Fact>, namespace: string,
                                  branch: string, k: Key)
    requires Filter(OnBranch(branch), after) == Filter(OnBranch(branch), before)
    ensures Expect(policy, after, namespace, branch, k) == Expect(policy, before, namespace, branch, k)
  {
    SameBranchSameReads(before, after, namespace, branch, k);
    forall f | Matches(LiveQuery(namespace, branch), f) ensures f in after <==> f in before {
      SameMembers(before, after, branch, f);
    }
  }

  lemma SameBranchTidy(before: seq<Fact>, after: seq<Fact>, namespace: string, branch: string)
    requires Filter(OnBranch(branch), after) == Filter(OnBranch(branch), before)
    ensures Tidy(after, namespace, branch) == Tidy(before, namespace, branch)
  {
    forall f: Fact | f.branch == branch ensures f in after <==> f in before {
      SameMembers(before, after, branch, f);
    }
  }
}
