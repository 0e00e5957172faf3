/**
 * Retention turn after turn, exactly: what is left of the history of every key of a branch, whatever the policy, given
 * the readings of the clock that the turns take.
 */
module RetentionTurns {
  import opened Base
  import opened Lists
  import opened StableSort
  import opened Ledger
  import opened Store
  import opened Retention
  import opened RetentionHistory

  // ---- what a collection leaves of a history -----------------------------------------------

  /** Retracted facts of earlier packed times are collected; without a cutoff, all of them. */
  function Reach(cutoff: Option<nat>): nat {
    if cutoff.None? then 0x1_0000_0000_0000_0000 else cutoff.value
  }

  /** What collections that reached up to `bound` leave: live facts, and later ones. */
  function Surviving(bound: nat): Fact -> bool {
    (f: Fact) => IsLive(f) || f.txTime >= bound
  }

  lemma SurviveTwice(a: nat, b: nat, facts: seq<Fact>)
    ensures Filter(Surviving(a), Filter(Surviving(b), facts)) == Filter(Surviving(Max(a, b)), facts)
  {
    FilterFilter(Surviving(a), Surviving(b), Surviving(Max(a, b)), facts);
  }

  lemma SurviveNone(facts: seq<Fact>)
    ensures Filter(Surviving(0), facts) == facts
  {
    FilterAll(Surviving(0), facts);
  }

  lemma SurvivorsAreLive(facts: seq<Fact>)
    ensures Filter(Surviving(0x1_0000_0000_0000_0000), facts) == Filter(IsLive, facts)
  {
    FilterSame(Surviving(0x1_0000_0000_0000_0000), IsLive, facts);
  }

  lemma LiveSurvive(bound: nat, facts: seq<Fact>)
    ensures Filter(IsLive, Filter(Surviving(bound), facts)) == Filter(IsLive, facts)
  {
    FilterFilter(IsLive, Surviving(bound), IsLive, facts);
  }

  /** What a turn leaves of its key's history before it collects: all but the excess. */
  function Left(policy: RetentionPolicy, cutoff: Option<nat>, history: seq<Fact>): seq<Fact> {
    if policy.onlyRetracted then history else history[Excess(policy, cutoff, history, |history|)..]
  }

  lemma LeftIsPart(policy: RetentionPolicy, cutoff: Option<nat>, history: seq<Fact>)
    ensures forall f :: f in Left(policy, cutoff, history) ==> f in history
  {
  }

  // ---- the history after one turn ----------------------------------------------------------

  /** The history with the facts of these ids retracted in place. */
  ghost predicate RetractedFrom(was: seq<Fact>, now: seq<Fact>, ids: set<FactId>) {
    |now| == |was| && forall i :: 0 <= i < |was| ==> RetractedTo(was[i], now[i], was[i].id in ids)
  }

  predicate RetractedTo(was: Fact, now: Fact, retracted: bool) {
    if retracted then now.retracted && now.id == was.id && now.txTime == was.txTime && now.branch == was.branch
    else now == was
  }

  lemma OneMoreRetracted(was: seq<Fact>, now: seq<Fact>, ids: set<FactId>, id: FactId, p: RetractParams)
    requires RetractedFrom(was, now, ids)
    ensures RetractedFrom(was, Map(RetractIn(id, p), now), ids + {id})
  {
    forall i | 0 <= i < |was| ensures RetractedTo(was[i], Map(RetractIn(id, p), now)[i], was[i].id in ids + {id}) {
      assert RetractedTo(was[i], now[i], was[i].id in ids);
    }
  }

  lemma RetractedOrdered(s: State, id: FactId, p: RetractParams, namespace: string, branch: string, k: Key)
    requires Unique(s.facts) && Retract(s, id, p).Ok?
    ensures Ordered(Retract(s, id, p).value.facts, namespace, branch, k)
         == Map(RetractIn(id, p), Ordered(s.facts, namespace, branch, k))
  {
    RetractIsMap(s.facts, FindRetractable(s.facts, id, p), p);
    OrderedMapped(s.facts, id, p, namespace, branch, k);
  }

  /** Retracting the live facts of a list retracts exactly them in the history of every key. */
  lemma {:induction false} RetractedHistories(s: State, fs: seq<Fact>, namespace: string, branch: string,
                                              ticks: nat -> u64, txIds: nat -> TxId, used: nat, k: Key)
    requires Unique(s.facts) && Belong(s, fs, namespace, branch)
    ensures var r := RetractAll(s, fs, namespace, branch, ticks, txIds, used);
            r.Ok? && RetractedFrom(Ordered(s.facts, namespace, branch, k),
                                   Ordered(r.value.0.facts, namespace, branch, k), LiveIds(fs))
  {
    RetractAllSucceeds(s, fs, namespace, branch, ticks, txIds, used);
    if fs == [] {
      assert LiveIds(fs) == {};
    } else {
      var front, f := fs[..|fs| - 1], fs[|fs| - 1];
      UniqueFront(fs);
      LiveIdsStep(fs);
      RetractAllSucceeds(s, front, namespace, branch, ticks, txIds, used);
      RetractedHistories(s, front, namespace, branch, ticks, txIds, used, k);
      var (now, u) := RetractAll(s, front, namespace, branch, ticks, txIds, used).value;
      RetractAllStep(s, fs, namespace, branch, ticks, txIds, used, now, u);
      if IsLive(f) {
        var p := RetainParams(namespace, branch, ticks(u), txIds(u));
        RetractedOrdered(now, f.id, p, namespace, branch, k);
        OneMoreRetracted(Ordered(s.facts, namespace, branch, k), Ordered(now.facts, namespace, branch, k),
                         LiveIds(front), f.id, p);
      }
    }
  }

  lemma {:induction false} FilterAgree<T>(p: T -> bool, q: T -> bool, xs: seq<T>, ys: seq<T>)
    requires |xs| == |ys| && forall i :: 0 <= i < |xs| ==> p(xs[i]) == q(ys[i]) && (p(xs[i]) ==> xs[i] == ys[i])
    ensures Filter(p, xs) == Filter(q, ys)
  {
    if xs != [] {
      FilterAgree(p, q, xs[1..], ys[1..]);
    }
  }

  lemma KeptSurvives(cutoff: Option<nat>, branch: string, f: Fact)
    requires f.branch == branch
    ensures Kept(GcParams(cutoff, Some(branch), false))(f) == Surviving(Reach(cutoff))(f)
  {
    var time: u64 := f.txTime;
  }

  /** Collecting after the retracts drops the facts retracted, if the cutoff reaches them, and older retracted ones. */
  lemma CollectedHistory(was: seq<Fact>, now: seq<Fact>, ids: set<FactId>, cutoff: Option<nat>, branch: string)
    requires RetractedFrom(was, now, ids) && forall f :: f in was ==> f.branch == branch
    requires forall f :: f in was && f.id in ids ==> f.txTime < Reach(cutoff)
    ensures Filter(Kept(GcParams(cutoff, Some(branch), false)), now)
         == Filter(Surviving(Reach(cutoff)), Filter(NotIn(ids), was))
  {
    var kept := Kept(GcParams(cutoff, Some(branch), false));
    var q := (f: Fact) => NotIn(ids)(f) && Surviving(Reach(cutoff))(f);
    forall i | 0 <= i < |was| ensures kept(now[i]) == q(was[i]) && (kept(now[i]) ==> now[i] == was[i]) {
      assert was[i] in was && RetractedTo(was[i], now[i], was[i].id in ids);
      KeptSurvives(cutoff, branch, now[i]);
    }
    FilterAgree(kept, q, now, was);
    FilterFilter(Surviving(Reach(cutoff)), NotIn(ids), q, was);
  }

  /** The ids retracted in a key's turn are of that key only. */
  lemma OtherHistories(facts: seq<Fact>, fs: seq<Fact>, namespace: string, branch: string, k: Key, other: Key)
    requires Unique(facts) && k != other && forall f :: f in fs ==> f in facts && KeyOf(f) == k
    ensures var history := Ordered(facts, namespace, branch, other);
            && Filter(NotIn(LiveIds(fs)), history) == history
            && forall f :: f in history ==> f.id !in LiveIds(fs)
  {
    var history := Ordered(facts, namespace, branch, other);
    forall f, g | f in history && g in fs ensures f.id != g.id {
      if f.id == g.id {
        SameFactById(facts, f, g);
      }
    }
    FilterAll(NotIn(LiveIds(fs)), history);
  }

  /** Of the key's own history, the excess goes and what follows stays, up to what is collected. */
  lemma OwnHistory(policy: RetentionPolicy, cutoff: Option<nat>, history: seq<Fact>)
    requires Unique(history) && Sorted(OldestFirst, history)
    ensures var ids := LiveIds(EligibleTo(policy, cutoff, history, |history|));
            && Filter(Surviving(Reach(cutoff)), Filter(NotIn(ids), history))
               == Filter(Surviving(Reach(cutoff)), Left(policy, cutoff, history))
            && forall f :: f in history && f.id in ids ==> f.txTime < Reach(cutoff)
  {
    if policy.onlyRetracted {
      NoneRetracted(policy, cutoff, history);
    } else {
      var m := Excess(policy, cutoff, history, |history|);
      ExcessIs(policy, cutoff, history, |history|);
      OwnExcess(policy, cutoff, history, m, history[..m], history[m..]);
    }
  }

  lemma NoneRetracted(policy: RetentionPolicy, cutoff: Option<nat>, history: seq<Fact>)
    requires policy.onlyRetracted
    ensures LiveIds(EligibleTo(policy, cutoff, history, |history|)) == {}
    ensures Filter(NotIn(LiveIds(EligibleTo(policy, cutoff, history, |history|))), history) == history
  {
    forall f | f in EligibleTo(policy, cutoff, history, |history|) ensures f.retracted {
      var j := EligibleExceed(policy, cutoff, history, |history|, f);
    }
    FilterAll(NotIn({}), history);
  }

  lemma OwnExcess(policy: RetentionPolicy, cutoff: Option<nat>, history: seq<Fact>, m: nat, a: seq<Fact>, b: seq<Fact>)
    requires Unique(history) && m <= |history| && a == history[..m] && b == history[m..]
    requires forall j :: 0 <= j < |history| ==> (Exceeds(policy, cutoff, |history|, j, history[j]) <==> j < m)
    ensures Filter(Surviving(Reach(cutoff)), Filter(NotIn(LiveIds(a)), history))
         == Filter(Surviving(Reach(cutoff)), b)
    ensures forall f :: f in history && f.id in LiveIds(a) ==> f.txTime < Reach(cutoff)
  {
    ExcessReached(policy, cutoff, history, m);
    PartsStay(history, m);
    ExcessGone(cutoff, a, b, LiveIds(a));
    assert a + b == history;
  }

  /** Everything in the excess is older than the cutoff. */
  lemma ExcessReached(policy: RetentionPolicy, cutoff: Option<nat>, history: seq<Fact>, m: nat)
    requires m <= |history| && Unique(history)
    requires forall j :: 0 <= j < |history| ==> (Exceeds(policy, cutoff, |history|, j, history[j]) <==> j < m)
    ensures forall f :: f in history[..m] ==> f.txTime < Reach(cutoff)
    ensures forall f :: f in history && f.id in LiveIds(history[..m]) ==> f.txTime < Reach(cutoff)
  {
    forall f | f in history[..m] ensures f.txTime < Reach(cutoff) {
      var j :| 0 <= j < m && history[..m][j] == f;
      assert Exceeds(policy, cutoff, |history|, j, history[j]);
    }
    forall f | f in history && f.id in LiveIds(history[..m]) ensures f.txTime < Reach(cutoff) {
      var g :| g in history[..m] && IsLive(g) && g.id == f.id;
      SameFactById(history, f, g);
    }
  }

  lemma ExcessGone(cutoff: Option<nat>, a: seq<Fact>, b: seq<Fact>, ids: set<FactId>)
    requires forall f :: f in a ==> f.txTime < Reach(cutoff) && (IsLive(f) ==> f.id in ids)
    requires forall f :: f in b ==> f.id !in ids
    ensures Filter(Surviving(Reach(cutoff)), Filter(NotIn(ids), a + b)) == Filter(Surviving(Reach(cutoff)), b)
  {
    FrontGone(NotIn(ids), Surviving(Reach(cutoff)), a, b);
  }

  lemma FrontGone<T>(stays: T -> bool, keep: T -> bool, a: seq<T>, b: seq<T>)
    requires forall x :: x in a && stays(x) ==> !keep(x)
    requires forall x :: x in b ==> stays(x)
    ensures Filter(keep, Filter(stays, a + b)) == Filter(keep, b)
  {
    FilterConcat(stays, a, b);
    FilterAll(stays, b);
    FilterConcat(keep, Filter(stays, a), b);
    FilterNone(keep, Filter(stays, a));
  }

  /** One turn, exactly, whatever the policy: what is left of the history of every key of the branch. */
  lemma TurnExactly(s: State, namespace: string, branch: string, k: Key, policy: RetentionPolicy, cutoff: Option<nat>,
                    ticks: nat -> u64, txIds: nat -> TxId, used: nat, other: Key)
    requires Unique(s.facts) && !policy.dryRun
    ensures var r := RetainKey(s, namespace, branch, k, policy, cutoff, ticks, txIds, used);
            var history := Ordered(s.facts, namespace, branch, other);
            r.Ok? && Ordered(r.value.s.facts, namespace, branch, other)
                  == Filter(Surviving(Reach(cutoff)), if other == k then Left(policy, cutoff, history) else history)
  {
    var ordered := Ordered(s.facts, namespace, branch, k);
    var eligible := EligibleTo(policy, cutoff, ordered, |ordered|);
    EligibleBelong(s, namespace, branch, k, policy, cutoff);
    EligibleGone(s.facts, namespace, branch, k, policy, cutoff, other);
    RetractedAndCollected(s, eligible, namespace, branch, cutoff, ticks, txIds, used, other);
    RetainKeyIs(s, namespace, branch, k, policy, cutoff, ticks, txIds, used);
  }

  lemma RetainKeyIs(s: State, namespace: string, branch: string, k: Key, policy: RetentionPolicy, cutoff: Option<nat>,
                    ticks: nat -> u64, txIds: nat -> TxId, used: nat)
    requires !policy.dryRun
    ensures var ordered := Ordered(s.facts, namespace, branch, k);
            var eligible := EligibleTo(policy, cutoff, ordered, |ordered|);
            var r := RetractAll(s, eligible, namespace, branch, ticks, txIds, used);
            var after := RetainKey(s, namespace, branch, k, policy, cutoff, ticks, txIds, used);
            r.Ok? ==> after.Ok? && after.value.s == Gc(r.value.0, GcParams(cutoff, Some(branch), false)).0
  {
  }

  /** What a turn drops from the history of its key, and from others. */
  lemma EligibleGone(facts: seq<Fact>, namespace: string, branch: string, k: Key, policy: RetentionPolicy,
                     cutoff: Option<nat>, other: Key)
    requires Unique(facts)
    requires var ordered := Ordered(facts, namespace, branch, k);
             forall f :: f in EligibleTo(policy, cutoff, ordered, |ordered|) ==> f in facts && KeyOf(f) == k
    ensures var ordered, history := Ordered(facts, namespace, branch, k), Ordered(facts, namespace, branch, other);
            var ids := LiveIds(EligibleTo(policy, cutoff, ordered, |ordered|));
            && Filter(Surviving(Reach(cutoff)), Filter(NotIn(ids), history))
               == Filter(Surviving(Reach(cutoff)), if other == k then Left(policy, cutoff, history) else history)
            && forall f :: f in history && f.id in ids ==> f.txTime < Reach(cutoff)
  {
    var ordered := Ordered(facts, namespace, branch, k);
    if other == k {
      OrderedUnique(facts, namespace, branch, k);
      OrderedLive(facts, namespace, branch, k);
      OwnHistory(policy, cutoff, ordered);
    } else {
      OtherHistories(facts, EligibleTo(policy, cutoff, ordered, |ordered|), namespace, branch, k, other);
    }
  }

  lemma RetractedAndCollected(s: State, fs: seq<Fact>, namespace: string, branch: string, cutoff: Option<nat>,
                              ticks: nat -> u64, txIds: nat -> TxId, used: nat, k: Key)
    requires Unique(s.facts) && Belong(s, fs, namespace, branch)
    requires forall f :: f in Ordered(s.facts, namespace, branch, k) && f.id in LiveIds(fs) ==> f.txTime < Reach(cutoff)
    ensures var r := RetractAll(s, fs, namespace, branch, ticks, txIds, used);
            r.Ok? && Ordered(Gc(r.value.0, GcParams(cutoff, Some(branch), false)).0.facts, namespace, branch, k)
                  == Filter(Surviving(Reach(cutoff)),
                            Filter(NotIn(LiveIds(fs)), Ordered(s.facts, namespace, branch, k)))
  {
    RetractedHistories(s, fs, namespace, branch, ticks, txIds, used, k);
    CollectedOrdered(s.facts, RetractAll(s, fs, namespace, branch, ticks, txIds, used).value.0, LiveIds(fs), namespace,
                     branch, cutoff, k);
  }

  lemma CollectedOrdered(facts: seq<Fact>, mid: State, ids: set<FactId>, namespace: string, branch: string,
                         cutoff: Option<nat>, k: Key)
    requires var history := Ordered(facts, namespace, branch, k);
             && RetractedFrom(history, Ordered(mid.facts, namespace, branch, k), ids)
             && forall f :: f in history && f.id in ids ==> f.txTime < Reach(cutoff)
    ensures Ordered(Gc(mid, GcParams(cutoff, Some(branch), false)).0.facts, namespace, branch, k)
         == Filter(Surviving(Reach(cutoff)), Filter(NotIn(ids), Ordered(facts, namespace, branch, k)))
  {
    GcOrdered(mid, cutoff, namespace, branch, k);
    OrderedBranch(facts, namespace, branch, k);
    CollectedHistory(Ordered(facts, namespace, branch, k), Ordered(mid.facts, namespace, branch, k), ids, cutoff,
                     branch);
  }

  lemma OrderedBranch(facts: seq<Fact>, namespace: string, branch: string, k: Key)
    ensures forall f :: f in Ordered(facts, namespace, branch, k) ==> f.branch == branch
  {
  }

  lemma GcOrdered(s: State, cutoff: Option<nat>, namespace: string, branch: string, k: Key)
    ensures var p := GcParams(cutoff, Some(branch), false);
            Ordered(Gc(s, p).0.facts, namespace, branch, k) == Filter(Kept(p), Ordered(s.facts, namespace, branch, k))
  {
    OrderedKept(s.facts, Kept(GcParams(cutoff, Some(branch), false)), namespace, branch, k);
  }

  // ---- turn after turn ---------------------------------------------------------------------

  /** The cutoffs of the turns that take the readings from the `lo`-th on. */
  function Cuts(policy: RetentionPolicy, nowMs: nat -> u64, lo: nat): nat -> Option<nat> {
    (j: nat) => Cutoff(policy, nowMs(lo + j))
  }

  /** How far the collections of the first `i` turns reach. */
  function ReachTo(cuts: nat -> Option<nat>, i: nat): nat {
    if i == 0 then 0 else Max(Reach(cuts(i - 1)), ReachTo(cuts, i - 1))
  }

  /** Which of the first `i` turns was the key's. */
  function Place(turns: seq<Key>, i: nat, k: Key): (r: Option<nat>)
    requires i <= |turns|
    ensures r.Some? ==> r.value < i && turns[r.value] == k
    ensures r.None? ==> forall j :: 0 <= j < i ==> turns[j] != k
  {
    if i == 0 then None else if turns[i - 1] == k then Some(i - 1) else Place(turns, i - 1, k)
  }

  /** What the key's own turn leaves of its history, if it was among the first `i`. */
  function OwnLeft(policy: RetentionPolicy, cuts: nat -> Option<nat>, start: Key -> seq<Fact>, turns: seq<Key>, i: nat,
                   k: Key): seq<Fact>
    requires i <= |turns|
  {
    match Place(turns, i, k)
    case None => start(k)
    case Some(j) =>
      Left(policy, cuts(j), Filter(Surviving(ReachTo(cuts, j)), start(k)))
  }

  /** The history of a key after the first `i` turns. */
  function HistoryAfter(policy: RetentionPolicy, cuts: nat -> Option<nat>, start: Key -> seq<Fact>, turns: seq<Key>,
                        i: nat, k: Key): seq<Fact>
    requires i <= |turns|
  {
    Filter(Surviving(ReachTo(cuts, i)), OwnLeft(policy, cuts, start, turns, i, k))
  }

  function Histories(facts: seq<Fact>, namespace: string, branch: string): Key -> seq<Fact> {
    (k: Key) => Ordered(facts, namespace, branch, k)
  }

  /** Every history is what the first `i` turns leave of it. */
  ghost predicate AfterTurns(policy: RetentionPolicy, cuts: nat -> Option<nat>, start: Key -> seq<Fact>,
                             now: Key -> seq<Fact>, turns: seq<Key>, i: nat)
    requires i <= |turns|
  {
    forall k :: now(k) == HistoryAfter(policy, cuts, start, turns, i, k)
  }

  lemma NoTurns(policy: RetentionPolicy, cuts: nat -> Option<nat>, start: Key -> seq<Fact>, turns: seq<Key>)
    ensures AfterTurns(policy, cuts, start, start, turns, 0)
  {
    forall k ensures start(k) == HistoryAfter(policy, cuts, start, turns, 0, k) {
      SurviveNone(start(k));
    }
  }

  /** What one turn does to every history. */
  ghost predicate IsTurn(policy: RetentionPolicy, cutoff: Option<nat>, before: Key -> seq<Fact>,
                         after: Key -> seq<Fact>, k: Key)
  {
    forall o :: after(o) == Filter(Surviving(Reach(cutoff)),
                                   if o == k then Left(policy, cutoff, before(o)) else before(o))
  }

  lemma NextTurn(policy: RetentionPolicy, cuts: nat -> Option<nat>, start: Key -> seq<Fact>, before: Key -> seq<Fact>,
                 after: Key -> seq<Fact>, turns: seq<Key>, i: nat)
    requires i < |turns| && AfterTurns(policy, cuts, start, before, turns, i)
    requires Place(turns, i, turns[i]).None?
    requires IsTurn(policy, cuts(i), before, after, turns[i])
    ensures AfterTurns(policy, cuts, start, after, turns, i + 1)
  {
    forall k ensures after(k) == HistoryAfter(policy, cuts, start, turns, i + 1, k) {
      assert before(k) == HistoryAfter(policy, cuts, start, turns, i, k);
      if k == turns[i] {
        OwnTurn(policy, cuts, start, turns, i, before(k));
      } else {
        OtherTurn(policy, cuts, start, turns, i, k, before(k));
      }
    }
  }

  lemma OtherTurn(policy: RetentionPolicy, cuts: nat -> Option<nat>, start: Key -> seq<Fact>, turns: seq<Key>, i: nat,
                  k: Key, was: seq<Fact>)
    requires i < |turns| && k != turns[i] && was == HistoryAfter(policy, cuts, start, turns, i, k)
    ensures Filter(Surviving(Reach(cuts(i))), was)
         == HistoryAfter(policy, cuts, start, turns, i + 1, k)
  {
    SurviveTwice(Reach(cuts(i)), ReachTo(cuts, i),
                 OwnLeft(policy, cuts, start, turns, i, k));
  }

  /** What is left of survivors survives what they survived. */
  lemma OwnTurn(policy: RetentionPolicy, cuts: nat -> Option<nat>, start: Key -> seq<Fact>, turns: seq<Key>, i: nat,
                was: seq<Fact>)
    requires i < |turns| && Place(turns, i, turns[i]).None?
    requires was == HistoryAfter(policy, cuts, start, turns, i, turns[i])
    ensures var cutoff := cuts(i);
            Filter(Surviving(Reach(cutoff)), Left(policy, cutoff, was))
            == HistoryAfter(policy, cuts, start, turns, i + 1, turns[i])
  {
    var cutoff := cuts(i);
    SurvivorsLeft(policy, cutoff, ReachTo(cuts, i), start(turns[i]), was);
  }

  lemma SurvivorsLeft(policy: RetentionPolicy, cutoff: Option<nat>, bound: nat, start: seq<Fact>, was: seq<Fact>)
    requires was == Filter(Surviving(bound), start)
    ensures Filter(Surviving(Reach(cutoff)), Left(policy, cutoff, was))
         == Filter(Surviving(Max(Reach(cutoff), bound)), Left(policy, cutoff, was))
  {
    LeftIsPart(policy, cutoff, was);
    FilterSame(Surviving(Reach(cutoff)), Surviving(Max(Reach(cutoff), bound)), Left(policy, cutoff, was));
  }

  /** A key's live facts: its own turn decides what is left of them. */
  lemma LiveAfter(policy: RetentionPolicy, cuts: nat -> Option<nat>, start: Key -> seq<Fact>, turns: seq<Key>, i: nat,
                  k: Key)
    requires i <= |turns|
    ensures Filter(IsLive, HistoryAfter(policy, cuts, start, turns, i, k))
         == Filter(IsLive, OwnLeft(policy, cuts, start, turns, i, k))
  {
    LiveSurvive(ReachTo(cuts, i), OwnLeft(policy, cuts, start, turns, i, k));
  }
}
