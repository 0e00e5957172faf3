/** The two point reads of the database, `asof` and `effective`, over the store's scan. */
module Reads {
  import opened Base
  import opened Lists
  import opened StableSort
  import opened Ledger

  function AsofQuery(namespace: string, branch: string, entity: string, attr: string, at: u64): ScanQuery {
    ScanQuery(namespace, branch, Some(entity), Some(attr), Some(at), None, false, Some(1), None)
  }

  function EffectiveQuery(namespace: string, branch: string, entity: string, attr: string, at: int): ScanQuery {
    ScanQuery(namespace, branch, Some(entity), Some(attr), None, Some(at), false, Some(1), None)
  }

  function First<T>(xs: seq<T>): Option<T> {
    if xs == [] then None else Some(xs[0])
  }

  function Asof(facts: seq<Fact>, namespace: string, branch: string, entity: string, attr: string, at: u64):
    Option<Fact>
  {
    First(Scan(facts, AsofQuery(namespace, branch, entity, attr, at)))
  }

  function Effective(facts: seq<Fact>, namespace: string, branch: string, entity: string, attr: string, at: int):
    Option<Fact>
  {
    First(Scan(facts, EffectiveQuery(namespace, branch, entity, attr, at)))
  }

  /** The fact with the greatest transaction time, the earliest of those if there are several. */
  function Newest(facts: seq<Fact>): Option<Fact> {
    if facts == [] then None
    else
      var best, last := Newest(facts[..|facts| - 1]), facts[|facts| - 1];
      if best.None? || last.txTime > best.value.txTime then Some(last) else best
  }

  /** `f` is the newest of `facts`, and every fact as new comes after it. */
  ghost predicate IsNewest(facts: seq<Fact>, f: Fact) {
    exists i :: && 0 <= i < |facts| && facts[i] == f
                && (forall j :: 0 <= j < |facts| ==> facts[j].txTime <= f.txTime)
                && (forall j :: 0 <= j < i ==> facts[j].txTime < f.txTime)
  }

  lemma {:induction false} NewestIs(facts: seq<Fact>)
    ensures Newest(facts) == None <==> facts == []
    ensures forall f :: Newest(facts) == Some(f) <==> IsNewest(facts, f)
  {
    if facts != [] {
      var front, last := facts[..|facts| - 1], facts[|facts| - 1];
      NewestIs(front);
      var best := Newest(front);
      if best.None? || last.txTime > best.value.txTime {
        assert forall j :: 0 <= j < |front| ==> facts[j] == front[j];
        assert facts[|front|] == last;
        assert IsNewest(facts, last);
      } else {
        var i :| && 0 <= i < |front| && front[i] == best.value
                 && (forall j :: 0 <= j < |front| ==> front[j].txTime <= best.value.txTime)
                 && (forall j :: 0 <= j < i ==> front[j].txTime < best.value.txTime);
        assert facts[i] == best.value;
        forall j | 0 <= j < |facts| ensures facts[j].txTime <= best.value.txTime {
          assert j < |front| ==> facts[j] == front[j];
        }
        forall j | 0 <= j < i ensures facts[j].txTime < best.value.txTime {
          assert facts[j] == front[j];
        }
        assert IsNewest(facts, best.value);
      }
      forall f | IsNewest(facts, f) ensures Newest(facts) == Some(f) {
        NewestUnique(facts, f, Newest(facts).value);
      }
    }
  }

  lemma NewestUnique(facts: seq<Fact>, f: Fact, g: Fact)
    requires IsNewest(facts, f) && IsNewest(facts, g)
    ensures f == g
  {
  }

  lemma SortFirst(facts: seq<Fact>)
    ensures First(Sort(NewestFirst, facts)) == Newest(facts)
  {
    NewestIs(facts);
    if facts != [] {
      var i := SortHead(NewestFirst, facts);
      assert IsNewest(facts, facts[i]);
    }
  }

  lemma FirstOfPage<T>(xs: seq<T>)
    ensures First(Page(xs, None, Some(1))) == First(xs)
  {
  }

  /** A scan limited to one fact is the newest fact that matches. */
  lemma {:induction false} ScanOne(facts: seq<Fact>, q: ScanQuery)
    requires q.limit == Some(1) && q.offset == None
    ensures First(Scan(facts, q)) == Newest(Filter(Matching(q), facts))
  {
    SortFirst(Filter(Matching(q), facts));
    FirstOfPage(Sort(NewestFirst, Filter(Matching(q), facts)));
  }

  /** A scan without a page is the whole sorted list. */
  lemma PlainScan(facts: seq<Fact>, q: ScanQuery)
    requires q.limit == None && q.offset == None
    ensures Scan(facts, q) == Sort(NewestFirst, Filter(Matching(q), facts))
  {
  }

  // ---- what a scan lists -------------------------------------------------------------------

  /** A live fact of one key of a branch. */
  predicate IsLive(f: Fact, namespace: string, branch: string, entity: string, attr: string) {
    f.namespace == namespace && f.branch == branch && f.entity == entity && f.attr == attr && !f.retracted
  }

  /** The validity of a fact starts with its first instant and ends before its last. */
  predicate ValidAt(f: Fact, at: int) {
    f.validFrom <= at && (f.validTo.Some? ==> at < f.validTo.value)
  }

  /** What a scan may list: the options that are given, on the fields they name. */
  predicate IsListed(q: ScanQuery, f: Fact) {
    && f.namespace == q.namespace && f.branch == q.branch
    && (q.entity == None || q.entity == Some(f.entity))
    && (q.attr == None || q.attr == Some(f.attr))
    && (f.retracted ==> q.includeRetracted)
    && (q.asofTx.None? || f.txTime <= q.asofTx.value)
    && (q.asofValid.None? || ValidAt(f, q.asofValid.value))
  }

  function OfTime(t: u64): Fact -> bool {
    (f: Fact) => f.txTime == t
  }

  /** Of all facts, those of one time a scan may list. */
  function ListedOfTime(q: ScanQuery, t: u64): Fact -> bool {
    (f: Fact) => IsListed(q, f) && f.txTime == t
  }

  /** Without a page, a scan lists what it may, newest first. */
  lemma ScanLists(facts: seq<Fact>, q: ScanQuery)
    requires q.limit == None && q.offset == None
    ensures var rows := Scan(facts, q);
            && (forall f :: f in rows <==> f in facts && IsListed(q, f))
            && (forall i, j :: 0 <= i < j < |rows| ==> rows[i].txTime >= rows[j].txTime)
  {
    var rows := Scan(facts, q);
    SortSorted(NewestFirst, Filter(Matching(q), facts));
    forall i, j | 0 <= i < j < |rows| ensures rows[i].txTime >= rows[j].txTime {
      SortedAt(NewestFirst, rows, i, j);
    }
  }

  /** The facts of one time are listed in insertion order, each as often as it was inserted. */
  lemma ScanKeepsInsertionOrder(facts: seq<Fact>, q: ScanQuery, t: u64)
    requires q.limit == None && q.offset == None
    ensures Filter(OfTime(t), Scan(facts, q)) == Filter(ListedOfTime(q, t), facts)
  {
    NewestFirstPreorder();
    SortKeepsClass(NewestFirst, OfTime(t), Filter(Matching(q), facts));
    FilterFilter(OfTime(t), Matching(q), ListedOfTime(q, t), facts);
  }

  /** A scan with a page takes that page of the scan without one. */
  lemma ScanPage(facts: seq<Fact>, q: ScanQuery, whole: ScanQuery)
    requires whole == q.(limit := None, offset := None)
    ensures IsPage(Scan(facts, whole), q.offset, q.limit, Scan(facts, q))
  {
    FilterSame(Matching(q), Matching(whole), facts);
    PlainScan(facts, whole);
    PageRows(Scan(facts, whole), q.offset, q.limit);
  }

  // ---- what the point reads answer ---------------------------------------------------------

  /** Of the facts that pass, the one with the greatest transaction time, the earliest inserted on ties. */
  ghost predicate IsPicked(facts: seq<Fact>, p: Fact -> bool, f: Fact) {
    exists i :: && 0 <= i < |facts| && facts[i] == f && p(f)
                && (forall j :: 0 <= j < |facts| && p(facts[j]) ==> facts[j].txTime <= f.txTime)
                && (forall j :: 0 <= j < i && p(facts[j]) ==> facts[j].txTime < f.txTime)
  }

  lemma PickedUnique(facts: seq<Fact>, p: Fact -> bool, f: Fact, g: Fact)
    requires IsPicked(facts, p, f) && IsPicked(facts, p, g)
    ensures f == g
  {
  }

  lemma PickStays(facts: seq<Fact>, last: Fact, p: Fact -> bool, f: Fact)
    requires IsPicked(facts, p, f) && (p(last) ==> last.txTime <= f.txTime)
    ensures IsPicked(facts + [last], p, f)
  {
    var all := facts + [last];
    var i :| && 0 <= i < |facts| && facts[i] == f
             && (forall j :: 0 <= j < |facts| && p(facts[j]) ==> facts[j].txTime <= f.txTime)
             && (forall j :: 0 <= j < i && p(facts[j]) ==> facts[j].txTime < f.txTime);
    assert all[i] == f && forall j :: 0 <= j < |facts| ==> all[j] == facts[j];
  }

  lemma PickMoves(facts: seq<Fact>, last: Fact, p: Fact -> bool)
    requires p(last) && forall g | g in facts && p(g) :: g.txTime < last.txTime
    ensures IsPicked(facts + [last], p, last)
  {
    var all := facts + [last];
    assert all[|facts|] == last && forall j :: 0 <= j < |facts| ==> all[j] == facts[j] && facts[j] in facts;
  }

  lemma {:induction false} NewestIsPicked(facts: seq<Fact>, p: Fact -> bool)
    ensures Newest(Filter(p, facts)) == None <==> forall f | f in facts :: !p(f)
    ensures Newest(Filter(p, facts)).Some? ==> IsPicked(facts, p, Newest(Filter(p, facts)).value)
  {
    if facts == [] {
    } else {
      var front, last := facts[..|facts| - 1], facts[|facts| - 1];
      assert facts == front + [last];
      NewestIsPicked(front, p);
      NewestMatchWith(p, front, last);
      var was := Newest(Filter(p, front));
      if p(last) && Overtakes(last.txTime, was) {
        if was.Some? {
          PickBounds(front, p, was.value);
        }
        PickMoves(front, last, p);
      } else if was.Some? {
        PickStays(front, last, p, was.value);
      }
    }
  }

  lemma PickBounds(facts: seq<Fact>, p: Fact -> bool, f: Fact)
    requires IsPicked(facts, p, f)
    ensures f in facts && p(f) && forall g | g in facts && p(g) :: g.txTime <= f.txTime
  {
  }

  function LiveNotAfter(namespace: string, branch: string, entity: string, attr: string, at: u64): Fact -> bool {
    (f: Fact) => IsLive(f, namespace, branch, entity, attr) && f.txTime <= at
  }

  function LiveAndValid(namespace: string, branch: string, entity: string, attr: string, at: int): Fact -> bool {
    (f: Fact) => IsLive(f, namespace, branch, entity, attr) && ValidAt(f, at)
  }

  /** `answer` is the newest of the facts that pass, or nothing if none does. */
  ghost predicate PicksNewest(facts: seq<Fact>, p: Fact -> bool, answer: Option<Fact>) {
    && (answer == None <==> forall f | f in facts :: !p(f))
    && (forall f :: answer == Some(f) <==> IsPicked(facts, p, f))
  }

  lemma ScanAnswers(facts: seq<Fact>, q: ScanQuery, p: Fact -> bool)
    requires q.limit == Some(1) && q.offset == None && forall f :: p(f) == Matches(q, f)
    ensures PicksNewest(facts, p, First(Scan(facts, q)))
  {
    ScanOne(facts, q);
    FilterSame(p, Matching(q), facts);
    NewestIsPicked(facts, p);
    forall f | IsPicked(facts, p, f) ensures First(Scan(facts, q)) == Some(f) {
      PickedUnique(facts, p, f, Newest(Filter(p, facts)).value);
    }
  }

  /**
   * `asof` answers with the live fact of the greatest transaction time not after `at`, the earliest inserted on
   * ties.
   */
  lemma AsofMeaning(facts: seq<Fact>, namespace: string, branch: string, entity: string, attr: string, at: u64)
    ensures PicksNewest(facts, LiveNotAfter(namespace, branch, entity, attr, at),
                     Asof(facts, namespace, branch, entity, attr, at))
  {
    ScanAnswers(facts, AsofQuery(namespace, branch, entity, attr, at),
                LiveNotAfter(namespace, branch, entity, attr, at));
  }

  /** `effective` answers with the newest live fact whose validity contains `at`. */
  lemma EffectiveMeaning(facts: seq<Fact>, namespace: string, branch: string, entity: string, attr: string, at: int)
    ensures PicksNewest(facts, LiveAndValid(namespace, branch, entity, attr, at),
                     Effective(facts, namespace, branch, entity, attr, at))
  {
    ScanAnswers(facts, EffectiveQuery(namespace, branch, entity, attr, at),
                LiveAndValid(namespace, branch, entity, attr, at));
  }

  /** The only live fact of its key is answered at exactly the instants from its start until before its end. */
  lemma OnlyFactAnswersExactly(facts: seq<Fact>, f: Fact, at: int)
    requires f in facts && !f.retracted
    requires forall g | g in facts && IsLive(g, f.namespace, f.branch, f.entity, f.attr) :: g == f
    ensures Effective(facts, f.namespace, f.branch, f.entity, f.attr, at) ==
            if f.validFrom <= at && (f.validTo == None || at < f.validTo.value) then Some(f) else None
  {
    var answer := Effective(facts, f.namespace, f.branch, f.entity, f.attr, at);
    EffectiveMeaning(facts, f.namespace, f.branch, f.entity, f.attr, at);
    assert LiveAndValid(f.namespace, f.branch, f.entity, f.attr, at)(f) <==> ValidAt(f, at);
    if answer.Some? {
      PickBounds(facts, LiveAndValid(f.namespace, f.branch, f.entity, f.attr, at), answer.value);
    }
  }

  /** Two live facts of a key, the second valid from `b`, where the first ends, split the instants at `b`. */
  lemma TwoFactsSplitTheInstants(facts: seq<Fact>, f: Fact, g: Fact, b: int, at: int)
    requires f in facts && g in facts && !f.retracted && IsLive(g, f.namespace, f.branch, f.entity, f.attr)
    requires forall h | h in facts && IsLive(h, f.namespace, f.branch, f.entity, f.attr) :: h == f || h == g
    requires f.validFrom <= b && f.validTo == Some(b) && g.validFrom == b
    ensures Effective(facts, f.namespace, f.branch, f.entity, f.attr, at) ==
            if at < f.validFrom then None
            else if at < b then Some(f)
            else if g.validTo == None || at < g.validTo.value then Some(g)
            else None
  {
    var answer := Effective(facts, f.namespace, f.branch, f.entity, f.attr, at);
    EffectiveMeaning(facts, f.namespace, f.branch, f.entity, f.attr, at);
    assert LiveAndValid(f.namespace, f.branch, f.entity, f.attr, at)(f) <==> ValidAt(f, at);
    assert LiveAndValid(f.namespace, f.branch, f.entity, f.attr, at)(g) <==> ValidAt(g, at);
    if answer.Some? {
      PickBounds(facts, LiveAndValid(f.namespace, f.branch, f.entity, f.attr, at), answer.value);
    }
  }

  /** Facts that do not match change no read. */
  lemma ScanIgnores(facts: seq<Fact>, more: seq<Fact>, q: ScanQuery)
    requires forall f :: f in more ==> !Matches(q, f)
    ensures Filter(Matching(q), facts + more) == Filter(Matching(q), facts)
    ensures Scan(facts + more, q) == Scan(facts, q)
  {
    FilterConcat(Matching(q), facts, more);
    FilterNone(Matching(q), more);
  }

  lemma NewestSnoc(facts: seq<Fact>, f: Fact)
    ensures Newest(facts + [f]) ==
            if Newest(facts).None? || f.txTime > Newest(facts).value.txTime then Some(f) else Newest(facts)
  {
    assert (facts + [f])[..|facts|] == facts;
  }

  /** A fact of time `ts` recorded now would be answered instead of `answer`. */
  predicate Overtakes(ts: u64, answer: Option<Fact>) {
    answer.None? || answer.value.txTime < ts
  }

  /** Facts of one time put behind others: the first of them is the newest exactly if their time overtakes. */
  lemma {:induction false} NewestAppend(facts: seq<Fact>, more: seq<Fact>, ts: u64)
    requires forall f :: f in more ==> f.txTime == ts
    ensures Newest(facts + more) == if more != [] && Overtakes(ts, Newest(facts)) then Some(more[0]) else Newest(facts)
    decreases |more|
  {
    if more == [] {
      assert facts + more == facts;
    } else {
      var front, last := more[..|more| - 1], more[|more| - 1];
      NewestAppend(facts, front, ts);
      assert last in more;
      assert facts + more == (facts + front) + [last];
      NewestSnoc(facts + front, last);
    }
  }

  /** One more fact is the newest match exactly if it matches and overtakes. */
  lemma NewestMatchWith(q: Fact -> bool, facts: seq<Fact>, f: Fact)
    ensures var was := Newest(Filter(q, facts));
            Newest(Filter(q, facts + [f])) == if q(f) && Overtakes(f.txTime, was) then Some(f) else was
  {
    FilterSnoc(q, facts, f);
    if q(f) {
      NewestSnoc(Filter(q, facts), f);
    }
  }

  // ---- answers over time -------------------------------------------------------------------

  /** The answer stays, or a newer fact takes its place. */
  predicate Rises(was: Option<Fact>, now: Option<Fact>) {
    now == was || (now.Some? && Overtakes(now.value.txTime, was))
  }

  /** From `i` on to the next, the answer stays or rises, and moves exactly if `moved` says so. */
  ghost predicate MovesAt(answers: nat -> Option<Fact>, moved: nat -> bool, i: nat) {
    Rises(answers(i), answers(i + 1)) && (answers(i + 1) != answers(i) <==> moved(i))
  }

  /** Answers that only ever stay or rise end where they began exactly if none of them moved. */
  lemma {:induction false} RisingAnswers(answers: nat -> Option<Fact>, moved: nat -> bool, n: nat)
    requires forall i: nat :: i < n ==> MovesAt(answers, moved, i)
    ensures Rises(answers(0), answers(n))
    ensures answers(n) == answers(0) <==> Still(moved, n)
  {
    if n > 0 {
      RisingAnswers(answers, moved, n - 1);
      assert MovesAt(answers, moved, n - 1);
    }
  }

  /** The answer is the same at every moment up to the `n`-th. */
  ghost predicate Holds(answers: nat -> Option<Fact>, n: nat) {
    forall j: nat :: j <= n ==> answers(j) == answers(0)
  }

  /** Nothing moved before the `n`-th moment. */
  ghost predicate Still(moved: nat -> bool, n: nat) {
    forall i: nat :: i < n ==> !moved(i)
  }

  lemma HoldsNext(answers: nat -> Option<Fact>, n: nat)
    requires Holds(answers, n)
    ensures Holds(answers, n + 1) <==> answers(n + 1) == answers(n)
  {
    assert answers(n) == answers(0);
  }

  lemma {:induction false} HoldsIfStill(answers: nat -> Option<Fact>, moved: nat -> bool, n: nat)
    requires forall i: nat :: i < n ==> (answers(i + 1) != answers(i) <==> moved(i))
    ensures Holds(answers, n) <==> Still(moved, n)
  {
    if n > 0 {
      HoldsIfStill(answers, moved, n - 1);
      assert answers(n - 1 + 1) != answers(n - 1) <==> moved(n - 1);
      if Holds(answers, n - 1) {
        HoldsNext(answers, n - 1);
      }
    }
  }
}
