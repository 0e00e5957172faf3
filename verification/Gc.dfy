/** What garbage collection keeps, and how its report relates to the change. */
module Gc {
  import opened Base
  import opened Lists
  import opened Ledger
  import opened Store
  import Hlc

  /** A scan that leaves retracted facts out reads the same before and after. */
  lemma LiveScansUnchanged(s: State, p: GcParams, q: ScanQuery)
    requires !q.includeRetracted
    ensures Scan(Gc(s, p).0.facts, q) == Scan(s.facts, q)
  {
    if !p.dryRun {
      FilterFilter(Matching(q), Kept(p), Matching(q), s.facts);
    }
  }

  /** A retracted fact of the branch, or of any, that is older than the cutoff, or of any age. */
  predicate IsRemoved(p: GcParams, f: Fact) {
    && f.retracted
    && (p.branch == None || p.branch == Some(f.branch))
    && (p.beforeMs == None || f.txTime < p.beforeMs.value)
  }

  /** What is removed is exactly the retracted facts the parameters name; the others stay, in order. */
  lemma OnlyCollectableRemoved(s: State, p: GcParams)
    requires !p.dryRun
    ensures forall f :: f in Gc(s, p).0.facts <==> f in s.facts && !IsRemoved(p, f)
    ensures forall q: Fact -> bool | (forall f :: q(f) ==> !IsRemoved(p, f)) ::
              Filter(q, Gc(s, p).0.facts) == Filter(q, s.facts)
  {
    forall q: Fact -> bool | (forall f :: q(f) ==> !IsRemoved(p, f))
      ensures Filter(q, Gc(s, p).0.facts) == Filter(q, s.facts)
    {
      FilterFilter(q, Kept(p), q, s.facts);
    }
  }

  /** Both counts are the drops in size, and nothing else changes. */
  lemma ReportCountsTheDrops(s: State, p: GcParams)
    ensures var (after, r) := Gc(s, p);
            && r.dryRun == p.dryRun
            && after == s.(facts := after.facts, transactions := after.transactions)
            && r.factsRemoved == |s.facts| - |Filter(Kept(p), s.facts)|
            && (p.dryRun ==> after == s && r.transactionsRemoved == 0)
            && (!p.dryRun ==> |after.facts| + r.factsRemoved == |s.facts|
                              && |after.transactions| + r.transactionsRemoved == |s.transactions|)
  {
  }

  /** A dry run reports the number of facts a real run removes, and changes nothing. */
  lemma DryRunPredicts(s: State, p: GcParams)
    ensures Gc(s, p.(dryRun := true)).0 == s
    ensures Gc(s, p.(dryRun := true)).1.factsRemoved == |s.facts| - |Gc(s, p.(dryRun := false)).0.facts|
  {
    ReportCountsTheDrops(s, p.(dryRun := true));
    ReportCountsTheDrops(s, p.(dryRun := false));
    FilterSame(Kept(p.(dryRun := true)), Kept(p.(dryRun := false)), s.facts);
  }

  /** A second identical run removes no facts and no transactions. */
  lemma SecondRunRemovesNothing(s: State, p: GcParams)
    requires !p.dryRun
    ensures Gc(Gc(s, p).0, p) == (Gc(s, p).0, GcReport(0, 0, false))
  {
    var once := Gc(s, p).0;
    FilterAll(Kept(p), once.facts);
    FilterAll(HasFacts(once.facts), once.transactions);
  }

  /** A transaction survives exactly if it still has a fact. */
  lemma TransactionsWithFactsSurvive(s: State, p: GcParams, t: Transaction)
    requires !p.dryRun
    ensures t in Gc(s, p).0.transactions <==>
            t in s.transactions && exists f :: f in s.facts && f.txId == t.id && !IsRemoved(p, f)
  {
    var after := Gc(s, p).0;
    assert HasFacts(after.facts)(t) <==> exists f :: f in after.facts && f.txId == t.id;
  }

  /** What the parameter's name promises: the fact's own time in milliseconds is before the cutoff. */
  predicate Intended(p: GcParams, f: Fact) {
    && f.retracted
    && (p.beforeMs.Some? ==> Hlc.PhysicalMs(f.txTime) < p.beforeMs.value)
    && (p.branch.Some? ==> p.branch.value == f.branch)
  }

  function NotIntended(p: GcParams): Fact -> bool {
    (f: Fact) => !Intended(p, f)
  }

  /**
   * The cutoff is in milliseconds but is compared with the packed timestamp. Nothing is collected that should not
   * be, and everything that should be is exactly if no fact's time in milliseconds is before the cutoff while its
   * packed timestamp is not.
   */
  lemma CutoffCollectsIntendedExactly(s: State, p: GcParams)
    requires !p.dryRun
    ensures forall f :: Collectable(p, f) ==> Intended(p, f)
    ensures Gc(s, p).0.facts == Filter(NotIntended(p), s.facts) <==>
            forall f :: f in s.facts && Intended(p, f) && p.beforeMs.Some? ==> f.txTime < p.beforeMs.value
  {
    forall f | Collectable(p, f) ensures Intended(p, f) {
      Hlc.PackedParts(f.txTime);
    }
    if forall f :: f in s.facts && Intended(p, f) && p.beforeMs.Some? ==> f.txTime < p.beforeMs.value {
      FilterSame(Kept(p), NotIntended(p), s.facts);
    } else {
      var f :| f in s.facts && Intended(p, f) && p.beforeMs.Some? && f.txTime >= p.beforeMs.value;
      assert Kept(p)(f) && !NotIntended(p)(f);
      assert f in Gc(s, p).0.facts && f !in Filter(NotIntended(p), s.facts);
    }
  }

  /** So a cutoff a clock can show collects no fact stamped 2^32 milliseconds after the epoch or later. */
  lemma RealCutoffCollectsNothing(s: State, p: GcParams)
    requires p.beforeMs.Some? && p.beforeMs.value <= 0x1_0000_0000_0000
    requires forall f :: f in s.facts ==> Hlc.PhysicalMs(f.txTime) >= 0x1_0000_0000
    ensures Gc(s, p).0.facts == s.facts && Gc(s, p).1.factsRemoved == 0
  {
    forall f | f in s.facts ensures Kept(p)(f) {
      Hlc.PackedParts(f.txTime);
    }
    FilterAll(Kept(p), s.facts);
  }

  /** A branch head that named a transaction is left dangling exactly when the transaction keeps no fact. */
  lemma HeadDanglesExactly(s: State, p: GcParams, key: (string, string))
    requires !p.dryRun && key in s.branches && s.branches[key].headTx.Some?
    requires exists t :: t in s.transactions && Some(t.id) == s.branches[key].headTx
    ensures var after := Gc(s, p).0;
            key in after.branches && after.branches[key] == s.branches[key]
    ensures var after := Gc(s, p).0;
            !(exists t :: t in after.transactions && Some(t.id) == after.branches[key].headTx) <==>
            (forall f :: f in s.facts && Some(f.txId) == s.branches[key].headTx ==> IsRemoved(p, f))
  {
    var after := Gc(s, p).0;
    var t :| t in s.transactions && Some(t.id) == s.branches[key].headTx;
    if forall f :: f in s.facts && Some(f.txId) == s.branches[key].headTx ==> IsRemoved(p, f) {
      forall u | u in after.transactions ensures Some(u.id) != s.branches[key].headTx {
        TransactionsWithFactsSurvive(s, p, u);
      }
    } else {
      var f :| f in s.facts && Some(f.txId) == s.branches[key].headTx && !IsRemoved(p, f);
      TransactionsWithFactsSurvive(s, p, t);
      assert t in after.transactions;
    }
  }
}
