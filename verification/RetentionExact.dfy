/** Whole retention passes, exactly: the turns of every branch, what they leave of every history, and what follows. */
module RetentionExact {
  import opened Base
  import opened Lists
  import opened StableSort
  import opened Strings
  import opened Ledger
  import opened Store
  import opened Merge
  import opened MemoryStore
  import opened Generators
  import opened Retention
  import opened RetentionHistory
  import opened RetentionTurns
  import opened RetentionPass
  import opened RetentionLoops

  // ---- the keys in turn --------------------------------------------------------------------

  lemma StrictStep<T(!new)>(leq: (T, T) -> bool, xs: seq<T>)
    requires StrictlySorted(leq, xs) && xs != []
    ensures xs[0] !in xs[1..] && StrictlySorted(leq, xs[1..]) && xs == [xs[0]] + xs[1..]
  {
  }

  lemma StrictFirst<T(!new)>(leq: (T, T) -> bool, xs: seq<T>, x: T)
    requires StrictlySorted(leq, xs) && x in xs
    ensures x == xs[0] || (leq(xs[0], x) && !leq(x, xs[0]))
  {
    assert xs == [xs[0]] + xs[1..];
  }

  lemma FirstName(names: seq<string>, n: string)
    requires StrictlySorted(StrLeq, names) && n in names
    ensures n == names[0] || CompareStr(names[0], n) == Less
  {
    StrictFirst(StrLeq, names, n);
    CompareStrReverse(names[0], n);
    CompareStrEqual(names[0], n);
  }

  function InEntity(entity: string): string -> Key {
    (attr: string) => (entity, attr)
  }

  /** The live keys of an entity, in order. */
  ghost function AttrKeys(facts: seq<Fact>, namespace: string, branch: string, entity: string): seq<Key> {
    Map(InEntity(entity), Listed(LiveAttrs(facts, namespace, branch, entity)))
  }

  ghost function TurnsOf(facts: seq<Fact>, namespace: string, branch: string, entities: seq<string>): seq<Key> {
    if entities == [] then []
    else AttrKeys(facts, namespace, branch, entities[0]) + TurnsOf(facts, namespace, branch, entities[1..])
  }

  /** The keys of a branch in the order of their turns: the live ones, by entity and attribute. */
  ghost function TurnKeys(facts: seq<Fact>, namespace: string, branch: string): seq<Key> {
    TurnsOf(facts, namespace, branch, Listed(LiveEntities(facts, namespace, branch)))
  }

  /** The key has a live fact. */
  predicate IsLiveKey(facts: seq<Fact>, namespace: string, branch: string, k: Key) {
    k.1 in LiveAttrs(facts, namespace, branch, k.0)
  }

  lemma LiveKeyIsRecent(facts: seq<Fact>, namespace: string, branch: string, k: Key)
    ensures IsLiveKey(facts, namespace, branch, k) <==> Recent(facts, namespace, branch, k) != []
  {
    var live := Filter(LiveAt(namespace, branch, k), facts);
    if IsLiveKey(facts, namespace, branch, k) {
      var f :| f in facts && f.namespace == namespace && f.branch == branch && f.entity == k.0 && !f.retracted
               && f.attr == k.1;
      assert LiveAt(namespace, branch, k)(f);
      assert f in live;
    }
    if live != [] {
      assert live[0] in live;
    }
    assert |Recent(facts, namespace, branch, k)| == |live|;
  }

  lemma {:induction false} TurnsMembers(facts: seq<Fact>, namespace: string, branch: string, entities: seq<string>,
                                        k: Key)
    ensures k in TurnsOf(facts, namespace, branch, entities) <==>
            k.0 in entities && IsLiveKey(facts, namespace, branch, k)
  {
    if entities != [] {
      TurnsMembers(facts, namespace, branch, entities[1..], k);
      AttrMembers(facts, namespace, branch, entities[0], k);
      assert entities == [entities[0]] + entities[1..];
    }
  }

  lemma AttrMembers(facts: seq<Fact>, namespace: string, branch: string, entity: string, k: Key)
    ensures k in AttrKeys(facts, namespace, branch, entity) <==>
            k.0 == entity && IsLiveKey(facts, namespace, branch, k)
  {
    var attrs, keys := Listed(LiveAttrs(facts, namespace, branch, entity)), AttrKeys(facts, namespace, branch, entity);
    if k in keys {
      var i :| 0 <= i < |keys| && keys[i] == k;
      assert keys[i] == InEntity(entity)(attrs[i]) && attrs[i] in attrs;
    }
    if k.0 == entity && IsLiveKey(facts, namespace, branch, k) {
      assert k.1 in attrs;
      var i :| 0 <= i < |attrs| && attrs[i] == k.1;
      assert keys[i] == k;
    }
  }

  /** Every live key has a turn, and no other. */
  lemma TurnKeysAreLive(facts: seq<Fact>, namespace: string, branch: string, k: Key)
    ensures k in TurnKeys(facts, namespace, branch) <==> Recent(facts, namespace, branch, k) != []
  {
    TurnsMembers(facts, namespace, branch, Listed(LiveEntities(facts, namespace, branch)), k);
    LiveKeyIsRecent(facts, namespace, branch, k);
    if IsLiveKey(facts, namespace, branch, k) {
      var f :| f in facts && f.namespace == namespace && f.branch == branch && f.entity == k.0 && !f.retracted
               && f.attr == k.1;
      assert k.0 in LiveEntities(facts, namespace, branch);
    }
  }

  ghost predicate NoneTwice<T(!new)>(xs: seq<T>) {
    forall i, j :: 0 <= i < j < |xs| ==> xs[i] != xs[j]
  }

  lemma {:induction false} StrictNoneTwice<T(!new)>(leq: (T, T) -> bool, xs: seq<T>)
    requires StrictlySorted(leq, xs)
    ensures NoneTwice(xs)
  {
    if xs != [] {
      StrictStep(leq, xs);
      StrictNoneTwice(leq, xs[1..]);
      NoneTwiceCons(xs[0], xs[1..]);
    }
  }

  lemma NoneTwiceCons<T(!new)>(x: T, xs: seq<T>)
    requires NoneTwice(xs) && x !in xs
    ensures NoneTwice([x] + xs)
  {
    var all := [x] + xs;
    forall i, j | 0 <= i < j < |all| ensures all[i] != all[j] {
      assert all[j] == xs[j - 1];
      assert i > 0 ==> all[i] == xs[i - 1];
    }
  }

  lemma NoneTwiceConcat<T(!new)>(xs: seq<T>, ys: seq<T>)
    requires NoneTwice(xs) && NoneTwice(ys) && forall x :: x in xs ==> x !in ys
    ensures NoneTwice(xs + ys)
  {
    var all := xs + ys;
    forall i, j | 0 <= i < j < |all| ensures all[i] != all[j] {
      if j < |xs| {
        assert all[i] == xs[i] && all[j] == xs[j];
      } else if i >= |xs| {
        assert all[i] == ys[i - |xs|] && all[j] == ys[j - |xs|];
      } else {
        assert xs[i] in xs && ys[j - |xs|] in ys;
      }
    }
  }

  lemma AttrKeysNoneTwice(facts: seq<Fact>, namespace: string, branch: string, entity: string)
    ensures NoneTwice(AttrKeys(facts, namespace, branch, entity))
  {
    var attrs, keys := Listed(LiveAttrs(facts, namespace, branch, entity)), AttrKeys(facts, namespace, branch, entity);
    StrictNoneTwice(StrLeq, attrs);
    forall i, j | 0 <= i < j < |keys| ensures keys[i] != keys[j] {
      assert keys[i] == InEntity(entity)(attrs[i]) && keys[j] == InEntity(entity)(attrs[j]);
    }
  }

  lemma {:induction false} TurnsNoneTwice(facts: seq<Fact>, namespace: string, branch: string, entities: seq<string>)
    requires StrictlySorted(StrLeq, entities)
    ensures NoneTwice(TurnsOf(facts, namespace, branch, entities))
  {
    if entities != [] {
      StrictStep(StrLeq, entities);
      AttrKeysNoneTwice(facts, namespace, branch, entities[0]);
      TurnsNoneTwice(facts, namespace, branch, entities[1..]);
      forall k | k in AttrKeys(facts, namespace, branch, entities[0])
        ensures k !in TurnsOf(facts, namespace, branch, entities[1..])
      {
        AttrMembers(facts, namespace, branch, entities[0], k);
        TurnsMembers(facts, namespace, branch, entities[1..], k);
      }
      NoneTwiceConcat(AttrKeys(facts, namespace, branch, entities[0]),
                      TurnsOf(facts, namespace, branch, entities[1..]));
    }
  }

  /** The entity has a live fact, and comes first of those that do. */
  ghost predicate FirstEntity(facts: seq<Fact>, namespace: string, branch: string, entity: string) {
    && entity in LiveEntities(facts, namespace, branch)
    && (forall e :: e in LiveEntities(facts, namespace, branch) ==> e == entity || CompareStr(entity, e) == Less)
  }

  lemma ListedFirst(facts: seq<Fact>, namespace: string, branch: string, entities: seq<string>)
    requires StrictlySorted(StrLeq, entities) && entities != []
    requires forall e :: e in entities <==> e in LiveEntities(facts, namespace, branch)
    ensures FirstEntity(facts, namespace, branch, entities[0])
  {
    assert entities[0] in entities;
    forall e | e in LiveEntities(facts, namespace, branch)
      ensures e == entities[0] || CompareStr(entities[0], e) == Less
    {
      FirstName(entities, e);
    }
  }

  /** The first attribute of the first entity is the first key. */
  lemma FirstKey(facts: seq<Fact>, namespace: string, branch: string, entity: string, attrs: seq<string>)
    requires FirstEntity(facts, namespace, branch, entity) && StrictlySorted(StrLeq, attrs)
    requires forall a :: a in attrs <==> a in LiveAttrs(facts, namespace, branch, entity)
    ensures attrs != [] && IsLeast(facts, namespace, branch, (entity, attrs[0]))
  {
    var f :| f in facts && f.namespace == namespace && f.branch == branch && !f.retracted && f.entity == entity;
    assert f.attr in attrs;
    assert attrs[0] in attrs;
    var k := (entity, attrs[0]);
    var g :| g in facts && g.namespace == namespace && g.branch == branch && g.entity == entity && !g.retracted
             && g.attr == attrs[0];
    assert LiveAt(namespace, branch, k)(g);
    assert g in Filter(LiveAt(namespace, branch, k), facts);
    forall h | h in facts && Matches(LiveQuery(namespace, branch), h) ensures KeyBefore(k, KeyOf(h)) {
      assert h.entity in LiveEntities(facts, namespace, branch);
      if h.entity == entity {
        assert h.attr in attrs;
        FirstName(attrs, h.attr);
        CompareStrEqual(attrs[0], h.attr);
      }
    }
  }

  /** The first key in turn is the least live key. */
  lemma FirstTurn(facts: seq<Fact>, namespace: string, branch: string)
    requires TurnKeys(facts, namespace, branch) != []
    ensures IsLeast(facts, namespace, branch, TurnKeys(facts, namespace, branch)[0])
  {
    var entities := Listed(LiveEntities(facts, namespace, branch));
    ListedFirst(facts, namespace, branch, entities);
    FirstKey(facts, namespace, branch, entities[0], Listed(LiveAttrs(facts, namespace, branch, entities[0])));
  }

  // ---- turn after turn ---------------------------------------------------------------------

  /** Where the turns of a branch stand: `i` of them have left every history as they should, with as many readings. */
  ghost predicate At(policy: RetentionPolicy, cuts: nat -> Option<nat>, lo: nat, start: Key -> seq<Fact>,
                     turns: seq<Key>, namespace: string, branch: string, p: Pass, i: nat)
  {
    && i <= |turns| && Unique(p.s.facts) && p.looked == lo + i
    && AfterTurns(policy, cuts, start, Histories(p.s.facts, namespace, branch), turns, i)
    && (NoAge(policy) && i > 0 ==> Clean(p.s.facts, branch))
  }

  lemma TurnCleans(s: State, namespace: string, branch: string, k: Key, policy: RetentionPolicy, cutoff: Option<nat>,
                   ticks: nat -> u64, txIds: nat -> TxId, used: nat)
    requires Unique(s.facts) && NoAge(policy) && cutoff.None?
    ensures var r := RetainKey(s, namespace, branch, k, policy, cutoff, ticks, txIds, used);
            r.Ok? && Clean(r.value.s.facts, branch)
  {
    RetainKeyDrops(s, namespace, branch, k, policy, cutoff, ticks, txIds, used);
    CollectedIsClean(RetainKey(s, namespace, branch, k, policy, cutoff, ticks, txIds, used).value.s.facts, branch);
  }

  /** What one step does to all histories of the branch. */
  lemma StepIsTurn(p: Pass, r: Retained, src: Sources, namespace: string, branch: string, k: Key,
                   policy: RetentionPolicy, cutoff: Option<nat>)
    requires Unique(p.s.facts) && !policy.dryRun
    requires RetainKey(p.s, namespace, branch, k, policy, cutoff, src.ticks, src.txIds, p.used) == Ok(r)
    ensures IsTurn(policy, cutoff, Histories(p.s.facts, namespace, branch), Histories(r.s.facts, namespace, branch), k)
    ensures NoAge(policy) && cutoff.None? ==> Clean(r.s.facts, branch)
  {
    forall o ensures Ordered(r.s.facts, namespace, branch, o)
                  == Filter(Surviving(Reach(cutoff)),
                            if o == k then Left(policy, cutoff, Ordered(p.s.facts, namespace, branch, o))
                            else Ordered(p.s.facts, namespace, branch, o))
    {
      TurnExactly(p.s, namespace, branch, k, policy, cutoff, src.ticks, src.txIds, p.used, o);
    }
    if NoAge(policy) && cutoff.None? {
      TurnCleans(p.s, namespace, branch, k, policy, cutoff, src.ticks, src.txIds, p.used);
    }
  }

  lemma CutAt(policy: RetentionPolicy, nowMs: nat -> u64, lo: nat, i: nat, looked: nat)
    requires looked == lo + i
    ensures Cuts(policy, nowMs, lo)(i) == Cutoff(policy, nowMs(looked))
  {
  }

  lemma AtNext(policy: RetentionPolicy, cuts: nat -> Option<nat>, lo: nat, start: Key -> seq<Fact>, turns: seq<Key>,
               namespace: string, branch: string, p: Pass, q: Pass, i: nat)
    requires i < |turns| && NoneTwice(turns) && At(policy, cuts, lo, start, turns, namespace, branch, p, i)
    requires q.looked == p.looked + 1 && Unique(q.s.facts) && (NoAge(policy) ==> Clean(q.s.facts, branch))
    requires IsTurn(policy, cuts(i), Histories(p.s.facts, namespace, branch), Histories(q.s.facts, namespace, branch),
                    turns[i])
    ensures At(policy, cuts, lo, start, turns, namespace, branch, q, i + 1)
  {
    NextTurn(policy, cuts, start, Histories(p.s.facts, namespace, branch),
             Histories(q.s.facts, namespace, branch), turns, i);
  }

  /** A key takes its turn. */
  lemma OneTurn(step: Step, p: Pass, src: Sources, namespace: string, branch: string, k: Key, policy: RetentionPolicy)
    returns (q: Pass)
    requires IsStep(step, src, namespace, policy) && !policy.dryRun && Unique(p.s.facts)
    ensures step(p, branch, k) == Ok(q)
    ensures q.looked == p.looked + 1 && Unique(q.s.facts) && (NoAge(policy) ==> Clean(q.s.facts, branch))
    ensures IsTurn(policy, Cutoff(policy, src.nowMs(p.looked)), Histories(p.s.facts, namespace, branch),
                   Histories(q.s.facts, namespace, branch), k)
  {
    var r := OneKey(p, src, namespace, branch, k, policy, Cutoff(policy, src.nowMs(p.looked)));
    StepIs(step, p, src, namespace, branch, k, policy, Ok(r));
    DonePasses(p, r, policy, src.nowMs, namespace, branch, k);
    q := Next(p, r);
    StepIsTurn(p, r, src, namespace, branch, k, policy, Cutoff(policy, src.nowMs(p.looked)));
  }

  /** The `i`-th key takes its turn. */
  lemma KeyTurn(step: Step, p: Pass, src: Sources, namespace: string, branch: string, k: Key, policy: RetentionPolicy,
                cuts: nat -> Option<nat>, lo: nat, start: Key -> seq<Fact>, turns: seq<Key>, i: nat) returns (q: Pass)
    requires IsStep(step, src, namespace, policy) && cuts == Cuts(policy, src.nowMs, lo) && !policy.dryRun
    requires i < |turns| && turns[i] == k
    requires At(policy, cuts, lo, start, turns, namespace, branch, p, i) && NoneTwice(turns)
    ensures step(p, branch, k) == Ok(q)
    ensures At(policy, cuts, lo, start, turns, namespace, branch, q, i + 1)
  {
    q := OneTurn(step, p, src, namespace, branch, k, policy);
    CutAt(policy, src.nowMs, lo, i, p.looked);
    AtNext(policy, cuts, lo, start, turns, namespace, branch, p, q, i);
  }

  /** The live parts of the histories at the start are the live facts there were. */
  ghost predicate Starts(start: Key -> seq<Fact>, before: seq<Fact>, namespace: string, branch: string) {
    forall k {:trigger Recent(before, namespace, branch, k)} ::
      Filter(IsLive, start(k)) == Recent(before, namespace, branch, k)
  }

  lemma HistoriesStart(facts: seq<Fact>, namespace: string, branch: string)
    ensures Starts(Histories(facts, namespace, branch), facts, namespace, branch)
  {
    forall k ensures Filter(IsLive, Histories(facts, namespace, branch)(k)) == Recent(facts, namespace, branch, k) {
      OrderedLive(facts, namespace, branch, k);
    }
  }

  /** Live attributes whose turns are to come are as at the start. */
  lemma SameAttrs(policy: RetentionPolicy, cuts: nat -> Option<nat>, before: seq<Fact>, start: Key -> seq<Fact>,
                  now: seq<Fact>, namespace: string, branch: string, turns: seq<Key>, i: nat, entity: string)
    requires i <= |turns| && forall j :: 0 <= j < i ==> turns[j].0 != entity
    requires AfterTurns(policy, cuts, start, Histories(now, namespace, branch), turns, i)
    requires Starts(start, before, namespace, branch)
    ensures Listed(LiveAttrs(now, namespace, branch, entity)) == Listed(LiveAttrs(before, namespace, branch, entity))
  {
    forall a: string
      ensures a in LiveAttrs(now, namespace, branch, entity) <==> a in LiveAttrs(before, namespace, branch, entity)
    {
      SameRecent(policy, cuts, before, start, now, namespace, branch, turns, i, (entity, a));
      LiveKeyIsRecent(now, namespace, branch, (entity, a));
      LiveKeyIsRecent(before, namespace, branch, (entity, a));
    }
    assert LiveAttrs(now, namespace, branch, entity) == LiveAttrs(before, namespace, branch, entity);
  }

  lemma SameRecent(policy: RetentionPolicy, cuts: nat -> Option<nat>, before: seq<Fact>, start: Key -> seq<Fact>,
                   now: seq<Fact>, namespace: string, branch: string, turns: seq<Key>, i: nat, k: Key)
    requires i <= |turns| && Place(turns, i, k).None?
    requires AfterTurns(policy, cuts, start, Histories(now, namespace, branch), turns, i)
    requires Starts(start, before, namespace, branch)
    ensures Recent(now, namespace, branch, k) == Recent(before, namespace, branch, k)
  {
    assert Histories(now, namespace, branch)(k) == HistoryAfter(policy, cuts, start, turns, i, k);
    LiveAfter(policy, cuts, start, turns, i, k);
    OrderedLive(now, namespace, branch, k);
    assert Filter(IsLive, start(k)) == Recent(before, namespace, branch, k);
  }

  /** The keys of one entity, or what is left of them, are the turns from the `i`-th on. */
  ghost predicate TurnsFrom(turns: seq<Key>, i: nat, keys: seq<Key>) {
    i + |keys| <= |turns| && forall j :: 0 <= j < |keys| ==> turns[i + j] == keys[j]
  }

  lemma TurnsFromParts(turns: seq<Key>, i: nat, a: seq<Key>, b: seq<Key>)
    requires TurnsFrom(turns, i, a + b)
    ensures TurnsFrom(turns, i, a) && TurnsFrom(turns, i + |a|, b)
  {
    forall j | 0 <= j < |a| ensures turns[i + j] == a[j] {
      assert (a + b)[j] == a[j];
    }
    forall j | 0 <= j < |b| ensures turns[i + |a| + j] == b[j] {
      assert (a + b)[|a| + j] == b[j];
    }
  }

  lemma MapHead<T, U>(h: T -> U, xs: seq<T>)
    requires xs != []
    ensures Map(h, xs) == [h(xs[0])] + Map(h, xs[1..])
  {
  }

  // ---- the loops over the turns ------------------------------------------------------------

  /** What holds of a pass after a number of turns. */
  type Standing = (Pass, nat) -> bool

  ghost predicate TurnKeeps(at: Standing, step: Step, branch: string, k: Key, p: Pass, i: nat) {
    var r := step(p, branch, k);
    r.Ok? && at(r.value, i + 1)
  }

  /** Every turn keeps it. */
  ghost predicate Keeps(at: Standing, step: Step, branch: string, turns: seq<Key>) {
    forall p: Pass, i: nat {:trigger TurnKeeps(at, step, branch, turns[i], p, i)} ::
      i < |turns| && at(p, i) ==> TurnKeeps(at, step, branch, turns[i], p, i)
  }

  ghost predicate SameList(p: Pass, before: seq<Fact>, namespace: string, branch: string, entity: string) {
    Listed(LiveAttrs(p.s.facts, namespace, branch, entity)) == Listed(LiveAttrs(before, namespace, branch, entity))
  }

  /** It says that entities whose turns are to come list as at the start. */
  ghost predicate ListsSame(at: Standing, turns: seq<Key>, before: seq<Fact>, namespace: string, branch: string) {
    forall p: Pass, i: nat, entity: string {:trigger at(p, i), SameList(p, before, namespace, branch, entity)} ::
      i <= |turns| && at(p, i) && NoneOf(turns, i, [entity]) ==> SameList(p, before, namespace, branch, entity)
  }

  lemma {:induction false} AttrsTurns(at: Standing, step: Step, p: Pass, branch: string, entity: string,
                                      attrs: seq<string>, turns: seq<Key>, i: nat) returns (q: Pass)
    requires Keeps(at, step, branch, turns) && at(p, i) && TurnsFrom(turns, i, Map(InEntity(entity), attrs))
    ensures AttrsPass(step, p, branch, entity, attrs) == Ok(q) && at(q, i + |attrs|)
    decreases |attrs|
  {
    q := p;
    if attrs != [] {
      MapHead(InEntity(entity), attrs);
      TurnsFromParts(turns, i, [InEntity(entity)(attrs[0])], Map(InEntity(entity), attrs[1..]));
      assert turns[i + 0] == [InEntity(entity)(attrs[0])][0];
      assert TurnKeeps(at, step, branch, turns[i], p, i);
      var mid := step(p, branch, (entity, attrs[0])).value;
      q := AttrsTurns(at, step, mid, branch, entity, attrs[1..], turns, i + 1);
    }
  }

  lemma EntityTurns(at: Standing, step: Step, p: Pass, namespace: string, branch: string, entity: string,
                    before: seq<Fact>, turns: seq<Key>, i: nat) returns (q: Pass)
    requires Keeps(at, step, branch, turns) && ListsSame(at, turns, before, namespace, branch) && at(p, i)
    requires TurnsFrom(turns, i, AttrKeys(before, namespace, branch, entity)) && NoneOf(turns, i, [entity])
    ensures EntityPass(step, p, namespace, branch, entity) == Ok(q)
    ensures at(q, i + |AttrKeys(before, namespace, branch, entity)|)
  {
    var attrs := Listed(LiveAttrs(before, namespace, branch, entity));
    assert SameList(p, before, namespace, branch, entity);
    AttrKeysAre(before, namespace, branch, entity, attrs);
    EntityPassIs(step, p, namespace, branch, entity, attrs);
    q := AttrsTurns(at, step, p, branch, entity, attrs, turns, i);
  }

  lemma EntityPassIs(step: Step, p: Pass, namespace: string, branch: string, entity: string, attrs: seq<string>)
    requires attrs == Listed(LiveAttrs(p.s.facts, namespace, branch, entity))
    ensures EntityPass(step, p, namespace, branch, entity) == AttrsPass(step, p, branch, entity, attrs)
  {
  }

  lemma AttrKeysAre(facts: seq<Fact>, namespace: string, branch: string, entity: string, attrs: seq<string>)
    requires attrs == Listed(LiveAttrs(facts, namespace, branch, entity))
    ensures AttrKeys(facts, namespace, branch, entity) == Map(InEntity(entity), attrs)
  {
  }

  lemma EntityTurnsOwn(facts: seq<Fact>, namespace: string, branch: string, entity: string, turns: seq<Key>, i: nat)
    requires TurnsFrom(turns, i, AttrKeys(facts, namespace, branch, entity))
    ensures forall j :: i <= j < i + |AttrKeys(facts, namespace, branch, entity)| ==> turns[j].0 == entity
  {
    var keys := AttrKeys(facts, namespace, branch, entity);
    forall j | i <= j < i + |keys| ensures turns[j].0 == entity {
      assert turns[i + (j - i)] == keys[j - i];
    }
  }

  /** No turn up to the `i`-th was of these entities. */
  ghost predicate NoneOf(turns: seq<Key>, i: nat, entities: seq<string>)
    requires i <= |turns|
  {
    forall j :: 0 <= j < i ==> turns[j].0 !in entities
  }

  lemma {:induction false} EntitiesTurns(at: Standing, step: Step, p: Pass, namespace: string, branch: string,
                                         entities: seq<string>, before: seq<Fact>, turns: seq<Key>, i: nat)
    returns (q: Pass)
    requires Keeps(at, step, branch, turns) && ListsSame(at, turns, before, namespace, branch) && at(p, i)
    requires StrictlySorted(StrLeq, entities) && TurnsFrom(turns, i, TurnsOf(before, namespace, branch, entities))
    requires NoneOf(turns, i, entities)
    ensures EntitiesPass(step, p, namespace, branch, entities) == Ok(q)
    ensures at(q, i + |TurnsOf(before, namespace, branch, entities)|)
    decreases |entities|
  {
    q := p;
    if entities != [] {
      var keys := AttrKeys(before, namespace, branch, entities[0]);
      StrictStep(StrLeq, entities);
      TurnsFromParts(turns, i, keys, TurnsOf(before, namespace, branch, entities[1..]));
      EntityTurnsOwn(before, namespace, branch, entities[0], turns, i);
      var mid := EntityTurns(at, step, p, namespace, branch, entities[0], before, turns, i);
      q := EntitiesTurns(at, step, mid, namespace, branch, entities[1..], before, turns, i + |keys|);
    }
  }

  /** From `before` to `after` all turns of the branch have left every history as they should. */
  ghost predicate BranchExact(policy: RetentionPolicy, nowMs: nat -> u64, lo: nat, before: seq<Fact>,
                              after: seq<Fact>, namespace: string, branch: string)
  {
    var turns := TurnKeys(before, namespace, branch);
    AfterTurns(policy, Cuts(policy, nowMs, lo), Histories(before, namespace, branch),
               Histories(after, namespace, branch), turns, |turns|)
  }

  /**
   * The turns of a branch, whatever the policy: what is left of the history of every key of it is known exactly from
   * the start and the readings taken, one for each live key.
   */
  lemma BranchTurns(step: Step, p: Pass, src: Sources, namespace: string, branch: string, policy: RetentionPolicy)
    returns (q: Pass)
    requires IsStep(step, src, namespace, policy) && Unique(p.s.facts) && !policy.dryRun
    ensures BranchPass(step, p, namespace, branch) == Ok(q)
    ensures BranchExact(policy, src.nowMs, p.looked, p.s.facts, q.s.facts, namespace, branch)
    ensures q.looked == p.looked + |TurnKeys(p.s.facts, namespace, branch)|
    ensures NoAge(policy) ==> Tidy(q.s.facts, namespace, branch)
  {
    StandsFirst(policy, src, p, namespace, branch);
    StandingKept(step, src, p, namespace, branch, policy);
    StandingLists(policy, src, p, namespace, branch);
    q := AllTurns(Stands(policy, src, p, namespace, branch), step, p, namespace, branch);
    StandsLast(policy, src, p, q, namespace, branch);
    if TurnKeys(p.s.facts, namespace, branch) == [] {
      NoTurnsNoEntities(p.s.facts, namespace, branch);
      assert q == p;
    }
  }

  lemma AllTurns(at: Standing, step: Step, p: Pass, namespace: string, branch: string) returns (q: Pass)
    requires Keeps(at, step, branch, TurnKeys(p.s.facts, namespace, branch))
    requires ListsSame(at, TurnKeys(p.s.facts, namespace, branch), p.s.facts, namespace, branch) && at(p, 0)
    ensures BranchPass(step, p, namespace, branch) == Ok(q) && at(q, |TurnKeys(p.s.facts, namespace, branch)|)
  {
    var turns := TurnKeys(p.s.facts, namespace, branch);
    q := EntitiesTurns(at, step, p, namespace, branch, Listed(LiveEntities(p.s.facts, namespace, branch)), p.s.facts,
                       turns, 0);
  }

  lemma StandsFirst(policy: RetentionPolicy, src: Sources, p: Pass, namespace: string, branch: string)
    requires Unique(p.s.facts)
    ensures Stands(policy, src, p, namespace, branch)(p, 0)
    ensures NoneTwice(TurnKeys(p.s.facts, namespace, branch))
  {
    TurnsNoneTwice(p.s.facts, namespace, branch, Listed(LiveEntities(p.s.facts, namespace, branch)));
    NoTurns(policy, Cuts(policy, src.nowMs, p.looked), Histories(p.s.facts, namespace, branch),
            TurnKeys(p.s.facts, namespace, branch));
  }

  lemma StandsLast(policy: RetentionPolicy, src: Sources, p: Pass, q: Pass, namespace: string, branch: string)
    requires Stands(policy, src, p, namespace, branch)(q, |TurnKeys(p.s.facts, namespace, branch)|)
    ensures BranchExact(policy, src.nowMs, p.looked, p.s.facts, q.s.facts, namespace, branch)
    ensures q.looked == p.looked + |TurnKeys(p.s.facts, namespace, branch)|
    ensures NoAge(policy) && TurnKeys(p.s.facts, namespace, branch) != [] ==> Clean(q.s.facts, branch)
  {
  }

  /** Where the turns of a branch stand that began at `p`. */
  ghost function Stands(policy: RetentionPolicy, src: Sources, p: Pass, namespace: string, branch: string): Standing {
    (q: Pass, i: nat) =>
      At(policy, Cuts(policy, src.nowMs, p.looked), p.looked, Histories(p.s.facts, namespace, branch),
         TurnKeys(p.s.facts, namespace, branch), namespace, branch, q, i)
  }

  lemma StandingKept(step: Step, src: Sources, p: Pass, namespace: string, branch: string, policy: RetentionPolicy)
    requires IsStep(step, src, namespace, policy) && !policy.dryRun && NoneTwice(TurnKeys(p.s.facts, namespace, branch))
    ensures Keeps(Stands(policy, src, p, namespace, branch), step, branch, TurnKeys(p.s.facts, namespace, branch))
  {
    var at, turns := Stands(policy, src, p, namespace, branch), TurnKeys(p.s.facts, namespace, branch);
    forall q: Pass, i: nat | i < |turns| && at(q, i) ensures TurnKeeps(at, step, branch, turns[i], q, i) {
      StandingTurn(at, step, src, p, namespace, branch, policy, turns, q, i);
    }
  }

  lemma StandingTurn(at: Standing, step: Step, src: Sources, p: Pass, namespace: string, branch: string,
                     policy: RetentionPolicy, turns: seq<Key>, q: Pass, i: nat)
    requires IsStep(step, src, namespace, policy) && !policy.dryRun
    requires at == Stands(policy, src, p, namespace, branch) && turns == TurnKeys(p.s.facts, namespace, branch)
    requires NoneTwice(turns) && i < |turns| && at(q, i)
    ensures TurnKeeps(at, step, branch, turns[i], q, i)
  {
    var r := KeyTurn(step, q, src, namespace, branch, turns[i], policy, Cuts(policy, src.nowMs, p.looked), p.looked,
                     Histories(p.s.facts, namespace, branch), turns, i);
  }

  lemma StandingLists(policy: RetentionPolicy, src: Sources, p: Pass, namespace: string, branch: string)
    ensures ListsSame(Stands(policy, src, p, namespace, branch), TurnKeys(p.s.facts, namespace, branch), p.s.facts,
                      namespace, branch)
  {
    var at, turns := Stands(policy, src, p, namespace, branch), TurnKeys(p.s.facts, namespace, branch);
    HistoriesStart(p.s.facts, namespace, branch);
    forall q: Pass, i: nat, entity: string | i <= |turns| && at(q, i) && NoneOf(turns, i, [entity])
      ensures SameList(q, p.s.facts, namespace, branch, entity)
    {
      SameAttrs(policy, Cuts(policy, src.nowMs, p.looked), p.s.facts, Histories(p.s.facts, namespace, branch),
                q.s.facts, namespace, branch, turns, i, entity);
    }
  }

  lemma NoTurnsNoEntities(facts: seq<Fact>, namespace: string, branch: string)
    requires TurnKeys(facts, namespace, branch) == []
    ensures Listed(LiveEntities(facts, namespace, branch)) == [] && Idle(facts, namespace, branch)
  {
    forall f | f in facts ensures !Matches(LiveQuery(namespace, branch), f) {
      TurnKeysAreLive(facts, namespace, branch, KeyOf(f));
      LiveKeyIsRecent(facts, namespace, branch, KeyOf(f));
    }
    assert LiveEntities(facts, namespace, branch) == {};
    assert Listed(LiveEntities(facts, namespace, branch)) == [] by {
      ListedIs({}, []);
    }
  }

  // ---- without an age limit ----------------------------------------------------------------

  /** Without an age limit the exact histories come to what is expected of every key. */
  lemma ExactIsExpected(policy: RetentionPolicy, nowMs: nat -> u64, lo: nat, before: seq<Fact>, after: seq<Fact>,
                        namespace: string, branch: string)
    requires NoAge(policy) && BranchExact(policy, nowMs, lo, before, after, namespace, branch)
    ensures AsExpected(policy, before, after, namespace, branch)
  {
    NoCuts(policy, nowMs, lo);
    forall k ensures Recent(after, namespace, branch, k) == Expect(policy, before, namespace, branch, k) {
      RecentAfter(policy, nowMs, lo, before, after, namespace, branch, k);
      OwnIsExpected(policy, Cuts(policy, nowMs, lo), before, namespace, branch, TurnKeys(before, namespace, branch), k);
    }
  }

  lemma NoCuts(policy: RetentionPolicy, nowMs: nat -> u64, lo: nat)
    requires NoAge(policy)
    ensures forall j :: Cuts(policy, nowMs, lo)(j) == None
  {
    forall j: nat ensures Cuts(policy, nowMs, lo)(j) == None {
      CutAt(policy, nowMs, lo, j, lo + j);
    }
  }

  /** A key's live facts after the turns of its branch: what its own turn leaves live. */
  lemma RecentAfter(policy: RetentionPolicy, nowMs: nat -> u64, lo: nat, before: seq<Fact>, after: seq<Fact>,
                    namespace: string, branch: string, k: Key)
    requires BranchExact(policy, nowMs, lo, before, after, namespace, branch)
    ensures var turns := TurnKeys(before, namespace, branch);
            Recent(after, namespace, branch, k)
            == Filter(IsLive, OwnLeft(policy, Cuts(policy, nowMs, lo), Histories(before, namespace, branch), turns,
                                      |turns|, k))
  {
    var turns, cuts, start :=
      TurnKeys(before, namespace, branch), Cuts(policy, nowMs, lo), Histories(before, namespace, branch);
    assert Histories(after, namespace, branch)(k) == HistoryAfter(policy, cuts, start, turns, |turns|, k);
    LiveAfter(policy, cuts, start, turns, |turns|, k);
    OrderedLive(after, namespace, branch, k);
  }

  lemma OwnIsExpected(policy: RetentionPolicy, cuts: nat -> Option<nat>, before: seq<Fact>, namespace: string,
                      branch: string, turns: seq<Key>, k: Key)
    requires NoAge(policy) && turns == TurnKeys(before, namespace, branch) && (forall j :: cuts(j) == None)
    ensures Filter(IsLive, OwnLeft(policy, cuts, Histories(before, namespace, branch), turns, |turns|, k))
         == Expect(policy, before, namespace, branch, k)
  {
    OrderedLive(before, namespace, branch, k);
    match Place(turns, |turns|, k)
    case None =>
      TurnKeysAreLive(before, namespace, branch, k);
      NothingToDo(policy, before, namespace, branch, k);
    case Some(j) =>
      FirstTurn(before, namespace, branch);
      if j == 0 {
        SurviveNone(Ordered(before, namespace, branch, k));
        ExcessKeeps(policy, Ordered(before, namespace, branch, k));
      } else {
        LaterTurn(policy, cuts, before, namespace, branch, turns, j);
      }
  }

  /** From the second turn on only live facts are left to count. */
  lemma LaterTurn(policy: RetentionPolicy, cuts: nat -> Option<nat>, before: seq<Fact>, namespace: string,
                  branch: string, turns: seq<Key>, j: nat)
    requires NoAge(policy) && turns == TurnKeys(before, namespace, branch) && 0 < j < |turns|
    requires forall i :: cuts(i) == None
    ensures Filter(IsLive, Left(policy, None, Filter(Surviving(ReachTo(cuts, j)),
                                                     Ordered(before, namespace, branch, turns[j]))))
         == Expect(policy, before, namespace, branch, turns[j])
  {
    var k := turns[j];
    ReachesAll(cuts, j);
    SurvivorsAreLive(Ordered(before, namespace, branch, k));
    OrderedLive(before, namespace, branch, k);
    RecentSorted(before, namespace, branch, k);
    ExcessKeeps(policy, Recent(before, namespace, branch, k));
    KeepsLive(policy, Recent(before, namespace, branch, k));
    TurnsNoneTwice(before, namespace, branch, Listed(LiveEntities(before, namespace, branch)));
    FirstTurn(before, namespace, branch);
    if IsLeast(before, namespace, branch, k) {
      LeastIsUnique(before, namespace, branch, k, turns[0]);
    }
  }

  lemma RecentSorted(facts: seq<Fact>, namespace: string, branch: string, k: Key)
    ensures Sorted(OldestFirst, Recent(facts, namespace, branch, k))
    ensures forall f | f in Recent(facts, namespace, branch, k) :: IsLive(f)
  {
    OldestFirstPreorder();
    SortSorted(OldestFirst, Filter(LiveAt(namespace, branch, k), facts));
  }

  lemma {:induction false} ReachesAll(cuts: nat -> Option<nat>, j: nat)
    requires j > 0 && forall i :: cuts(i) == None
    ensures ReachTo(cuts, j) == 0x1_0000_0000_0000_0000
  {
    if j > 1 {
      ReachesAll(cuts, j - 1);
    }
  }

  // ---- branch after branch -----------------------------------------------------------------

  /** The branches done so far are as expected from how they were at the start, and stay that way if done again. */
  ghost predicate AllAsExpected(policy: RetentionPolicy, start: seq<Fact>, now: seq<Fact>, namespace: string,
                                done: set<string>)
  {
    forall b :: b in done ==> AsExpected(policy, start, now, namespace, b) && Tidy(now, namespace, b)
  }

  /** What is left of a key is no more than the policy keeps. */
  lemma ExpectIsKept(policy: RetentionPolicy, facts: seq<Fact>, namespace: string, branch: string, k: Key)
    ensures var left := Expect(policy, facts, namespace, branch, k); Keep(policy, left) == left
  {
    var ordered, recent := Ordered(facts, namespace, branch, k), Recent(facts, namespace, branch, k);
    KeepShortens(policy, recent);
    KeepShortens(policy, ordered);
    KeepAll(policy, Keep(policy, recent));
    KeepAll(policy, Filter(IsLive, Keep(policy, ordered)));
  }

  lemma KeepShortens<T>(policy: RetentionPolicy, xs: seq<T>)
    ensures |Keep(policy, xs)| <= |xs|
    ensures |Keep(policy, xs)| <= if policy.maxVersions.None? then 0 else policy.maxVersions.value
  {
  }

  lemma KeepAll<T>(policy: RetentionPolicy, xs: seq<T>)
    requires |xs| <= if policy.maxVersions.None? then 0 else policy.maxVersions.value
    ensures Keep(policy, xs) == xs
  {
  }

  lemma AgainExact(policy: RetentionPolicy, start: seq<Fact>, mid: seq<Fact>, now: seq<Fact>, namespace: string,
                   branch: string)
    requires AsExpected(policy, start, mid, namespace, branch) && Tidy(mid, namespace, branch)
    requires AsExpected(policy, mid, now, namespace, branch)
    ensures AsExpected(policy, start, now, namespace, branch)
  {
    forall k ensures Recent(now, namespace, branch, k) == Expect(policy, start, namespace, branch, k) {
      assert Recent(mid, namespace, branch, k) == Expect(policy, start, namespace, branch, k);
      ExpectIsKept(policy, start, namespace, branch, k);
      TidyExpectsNothing(policy, mid, namespace, branch, k);
    }
  }

  /** A branch that nothing happened to before its turns is as expected from the start of all. */
  lemma LaterExact(policy: RetentionPolicy, start: seq<Fact>, mid: seq<Fact>, now: seq<Fact>, namespace: string,
                   branch: string)
    requires Filter(OnBranch(branch), mid) == Filter(OnBranch(branch), start)
    requires AsExpected(policy, mid, now, namespace, branch)
    ensures AsExpected(policy, start, now, namespace, branch)
  {
    forall k ensures Recent(now, namespace, branch, k) == Expect(policy, start, namespace, branch, k) {
      assert Recent(now, namespace, branch, k) == Expect(policy, mid, namespace, branch, k);
      SameBranchSameExpectation(policy, start, mid, namespace, branch, k);
    }
  }

  lemma StaysExact(policy: RetentionPolicy, start: seq<Fact>, mid: seq<Fact>, now: seq<Fact>, namespace: string,
                   branch: string)
    requires Filter(OnBranch(branch), now) == Filter(OnBranch(branch), mid)
    requires AsExpected(policy, start, mid, namespace, branch) && Tidy(mid, namespace, branch)
    ensures AsExpected(policy, start, now, namespace, branch) && Tidy(now, namespace, branch)
  {
    SameBranchTidy(mid, now, namespace, branch);
    forall k ensures Recent(now, namespace, branch, k) == Expect(policy, start, namespace, branch, k) {
      assert Recent(mid, namespace, branch, k) == Expect(policy, start, namespace, branch, k);
      SameBranchSameReads(mid, now, namespace, branch, k);
    }
  }

  lemma OneMoreExact(policy: RetentionPolicy, start: seq<Fact>, mid: seq<Fact>, now: seq<Fact>, namespace: string,
                     done: set<string>, branch: string)
    requires AllAsExpected(policy, start, mid, namespace, done) && Elsewhere(start, mid, done)
    requires AsExpected(policy, mid, now, namespace, branch) && Tidy(now, namespace, branch)
    requires Elsewhere(mid, now, {branch})
    ensures AllAsExpected(policy, start, now, namespace, done + {branch})
  {
    forall b | b in done + {branch}
      ensures AsExpected(policy, start, now, namespace, b) && Tidy(now, namespace, b)
    {
      if b != branch {
        StaysExact(policy, start, mid, now, namespace, b);
      } else if b in done {
        AgainExact(policy, start, mid, now, namespace, b);
      } else {
        LaterExact(policy, start, mid, now, namespace, b);
      }
    }
  }

  /** Without an age limit a pass leaves each key of each of its branches exactly as expected. */
  lemma {:induction false} BranchesTurns(step: Step, p: Pass, src: Sources, namespace: string, branches: seq<string>,
                                         policy: RetentionPolicy, start: seq<Fact>, done: set<string>)
    requires IsStep(step, src, namespace, policy) && Unique(p.s.facts) && NoAge(policy)
    requires AllAsExpected(policy, start, p.s.facts, namespace, done) && Elsewhere(start, p.s.facts, done)
    ensures var r := BranchesPass(step, p, namespace, branches);
            r.Ok? && AllAsExpected(policy, start, r.value.s.facts, namespace, done + Named(branches))
    decreases |branches|
  {
    if branches == [] {
      assert done + Named(branches) == done;
    } else {
      var q := BranchTurns(step, p, src, namespace, branches[0], policy);
      ExactIsExpected(policy, src.nowMs, p.looked, p.s.facts, q.s.facts, namespace, branches[0]);
      BranchPasses(step, p, src, namespace, branches[0], policy);
      OneMoreExact(policy, start, p.s.facts, q.s.facts, namespace, done, branches[0]);
      ElsewhereMore(start, p.s.facts, q.s.facts, done, branches[0]);
      BranchesTurns(step, q, src, namespace, branches[1..], policy, start, done + {branches[0]});
      NamedCons(branches);
      assert done + {branches[0]} + Named(branches[1..]) == done + Named(branches);
    }
  }

  lemma ElsewhereMore(a: seq<Fact>, b: seq<Fact>, c: seq<Fact>, done: set<string>, branch: string)
    requires Elsewhere(a, b, done) && Elsewhere(b, c, {branch})
    ensures Elsewhere(a, c, done + {branch})
  {
    forall br | br !in done + {branch} ensures Filter(OnBranch(br), c) == Filter(OnBranch(br), a) {
      assert Filter(OnBranch(br), c) == Filter(OnBranch(br), b);
      assert Filter(OnBranch(br), b) == Filter(OnBranch(br), a);
    }
  }

  // ---- every branch of a pass, whatever the policy -----------------------------------------

  /**
   * The branches one after another, each exactly from how it is when its turns come and the readings they take, one for
   * each key that is then live; nothing else happens to branches of other names.
   */
  ghost predicate ExactPass(policy: RetentionPolicy, nowMs: nat -> u64, lo: nat, hi: nat, before: seq<Fact>,
                            after: seq<Fact>, namespace: string, branches: seq<string>)
    decreases |branches|
  {
    if branches == [] then lo == hi && after == before
    else
      exists mid: seq<Fact>, look: nat ::
        && BranchDone(policy, nowMs, lo, look, before, mid, namespace, branches[0])
        && ExactPass(policy, nowMs, look, hi, mid, after, namespace, branches[1..])
  }

  ghost predicate BranchDone(policy: RetentionPolicy, nowMs: nat -> u64, lo: nat, hi: nat, before: seq<Fact>,
                             after: seq<Fact>, namespace: string, branch: string)
  {
    && hi == lo + |TurnKeys(before, namespace, branch)|
    && BranchExact(policy, nowMs, lo, before, after, namespace, branch)
    && Elsewhere(before, after, {branch})
  }

  lemma ExactHead(policy: RetentionPolicy, nowMs: nat -> u64, lo: nat, hi: nat, before: seq<Fact>, after: seq<Fact>,
                  namespace: string, branches: seq<string>) returns (mid: seq<Fact>, look: nat)
    requires branches != [] && ExactPass(policy, nowMs, lo, hi, before, after, namespace, branches)
    ensures BranchDone(policy, nowMs, lo, look, before, mid, namespace, branches[0])
    ensures ExactPass(policy, nowMs, look, hi, mid, after, namespace, branches[1..])
  {
    mid, look :|
      && BranchDone(policy, nowMs, lo, look, before, mid, namespace, branches[0])
      && ExactPass(policy, nowMs, look, hi, mid, after, namespace, branches[1..]);
  }

  lemma ExactCons(policy: RetentionPolicy, nowMs: nat -> u64, lo: nat, look: nat, hi: nat, before: seq<Fact>,
                  mid: seq<Fact>, after: seq<Fact>, namespace: string, branches: seq<string>)
    requires branches != [] && BranchDone(policy, nowMs, lo, look, before, mid, namespace, branches[0])
    requires ExactPass(policy, nowMs, look, hi, mid, after, namespace, branches[1..])
    ensures ExactPass(policy, nowMs, lo, hi, before, after, namespace, branches)
  {
  }

  lemma {:induction false} PassIsExact(step: Step, p: Pass, src: Sources, namespace: string, branches: seq<string>,
                                       policy: RetentionPolicy) returns (q: Pass)
    requires IsStep(step, src, namespace, policy) && Unique(p.s.facts) && !policy.dryRun
    ensures BranchesPass(step, p, namespace, branches) == Ok(q)
    ensures ExactPass(policy, src.nowMs, p.looked, q.looked, p.s.facts, q.s.facts, namespace, branches)
    decreases |branches|
  {
    q := p;
    if branches != [] {
      var mid := FirstBranchTurns(step, p, src, namespace, branches, policy);
      q := PassIsExact(step, mid, src, namespace, branches[1..], policy);
      ExactCons(policy, src.nowMs, p.looked, mid.looked, q.looked, p.s.facts, mid.s.facts, q.s.facts, namespace,
                branches);
    }
  }

  lemma FirstBranchTurns(step: Step, p: Pass, src: Sources, namespace: string, branches: seq<string>,
                         policy: RetentionPolicy) returns (q: Pass)
    requires IsStep(step, src, namespace, policy) && Unique(p.s.facts) && !policy.dryRun && branches != []
    ensures BranchesPass(step, p, namespace, branches) == BranchesPass(step, q, namespace, branches[1..])
    ensures Unique(q.s.facts)
    ensures BranchDone(policy, src.nowMs, p.looked, q.looked, p.s.facts, q.s.facts, namespace, branches[0])
  {
    q := BranchTurns(step, p, src, namespace, branches[0], policy);
    BranchPasses(step, p, src, namespace, branches[0], policy);
  }

  lemma {:induction false} ExactElsewhere(policy: RetentionPolicy, nowMs: nat -> u64, lo: nat, hi: nat,
                                          before: seq<Fact>, after: seq<Fact>, namespace: string,
                                          branches: seq<string>, b: string)
    requires ExactPass(policy, nowMs, lo, hi, before, after, namespace, branches) && b !in branches
    ensures Filter(OnBranch(b), after) == Filter(OnBranch(b), before)
    decreases |branches|
  {
    if branches != [] {
      var mid, look := ExactHead(policy, nowMs, lo, hi, before, after, namespace, branches);
      ExactElsewhere(policy, nowMs, look, hi, mid, after, namespace, branches[1..], b);
      DoneElsewhere(policy, nowMs, lo, look, before, mid, namespace, branches[0], b);
    }
  }

  lemma DoneElsewhere(policy: RetentionPolicy, nowMs: nat -> u64, lo: nat, hi: nat, before: seq<Fact>,
                      after: seq<Fact>, namespace: string, branch: string, b: string)
    requires BranchDone(policy, nowMs, lo, hi, before, after, namespace, branch) && b != branch
    ensures Filter(OnBranch(b), after) == Filter(OnBranch(b), before)
  {
    assert b !in {branch};
  }

  /** The readings taken by the branches before the `i`-th. */
  ghost function TurnsBefore(facts: seq<Fact>, namespace: string, branches: seq<string>, i: nat): nat
    requires i <= |branches|
  {
    if i == 0 then 0
    else |TurnKeys(facts, namespace, branches[0])| + TurnsBefore(facts, namespace, branches[1..], i - 1)
  }

  lemma SameBranchSameTurns(before: seq<Fact>, after: seq<Fact>, namespace: string, branch: string)
    requires Filter(OnBranch(branch), after) == Filter(OnBranch(branch), before)
    ensures TurnKeys(after, namespace, branch) == TurnKeys(before, namespace, branch)
  {
    forall f: Fact | f.branch == branch ensures f in after <==> f in before {
      SameMembers(before, after, branch, f);
    }
    assert LiveEntities(after, namespace, branch) == LiveEntities(before, namespace, branch);
    SameTurnsOf(before, after, namespace, branch, Listed(LiveEntities(before, namespace, branch)));
  }

  lemma {:induction false} SameTurnsOf(before: seq<Fact>, after: seq<Fact>, namespace: string, branch: string,
                                       entities: seq<string>)
    requires forall f: Fact | f.branch == branch :: f in after <==> f in before
    ensures TurnsOf(after, namespace, branch, entities) == TurnsOf(before, namespace, branch, entities)
  {
    if entities != [] {
      assert LiveAttrs(after, namespace, branch, entities[0]) == LiveAttrs(before, namespace, branch, entities[0]);
      SameTurnsOf(before, after, namespace, branch, entities[1..]);
    }
  }

  /** Exactness of a branch depends only on the facts of its name. */
  lemma SameBranchExact(policy: RetentionPolicy, nowMs: nat -> u64, lo: nat, before: seq<Fact>, before': seq<Fact>,
                        after: seq<Fact>, after': seq<Fact>, namespace: string, branch: string)
    requires Filter(OnBranch(branch), before') == Filter(OnBranch(branch), before)
    requires Filter(OnBranch(branch), after') == Filter(OnBranch(branch), after)
    requires BranchExact(policy, nowMs, lo, before, after, namespace, branch)
    ensures BranchExact(policy, nowMs, lo, before', after', namespace, branch)
  {
    var turns, cuts := TurnKeys(before, namespace, branch), Cuts(policy, nowMs, lo);
    var start, start' := Histories(before, namespace, branch), Histories(before', namespace, branch);
    SameBranchSameTurns(before, before', namespace, branch);
    forall k ensures Histories(after', namespace, branch)(k) == HistoryAfter(policy, cuts, start', turns, |turns|, k) {
      SameBranchSameReads(before, before', namespace, branch, k);
      SameBranchSameReads(after, after', namespace, branch, k);
      assert Histories(after, namespace, branch)(k) == HistoryAfter(policy, cuts, start, turns, |turns|, k);
      SameStart(policy, cuts, start, start', turns, |turns|, k);
    }
  }

  lemma SameStart(policy: RetentionPolicy, cuts: nat -> Option<nat>, start: Key -> seq<Fact>,
                  start': Key -> seq<Fact>, turns: seq<Key>, i: nat, k: Key)
    requires i <= |turns| && start(k) == start'(k)
    ensures HistoryAfter(policy, cuts, start, turns, i, k) == HistoryAfter(policy, cuts, start', turns, i, k)
  {
  }

  /**
   * If no branch comes twice, each is exact from the start of the pass, with the readings that follow those of the
   * branches before it.
   */
  lemma {:induction false} DistinctBranchesExact(policy: RetentionPolicy, nowMs: nat -> u64, lo: nat, hi: nat,
                                                 before: seq<Fact>, after: seq<Fact>, namespace: string,
                                                 branches: seq<string>, i: nat, b: string) returns (first: nat)
    requires ExactPass(policy, nowMs, lo, hi, before, after, namespace, branches) && NoneTwice(branches)
    requires i < |branches| && b == branches[i]
    ensures first == lo + TurnsBefore(before, namespace, branches, i)
    ensures BranchExact(policy, nowMs, first, before, after, namespace, b)
    decreases i
  {
    var mid, look := ExactHead(policy, nowMs, lo, hi, before, after, namespace, branches);
    RestNoneTwice(branches);
    if i == 0 {
      first := lo;
      FirstBranchExact(policy, nowMs, lo, look, hi, before, mid, after, namespace, b, branches[1..]);
    } else {
      RestAt(branches, i);
      first := DistinctBranchesExact(policy, nowMs, look, hi, mid, after, namespace, branches[1..], i - 1, b);
      LaterBranchExact(policy, nowMs, lo, look, first, before, mid, after, namespace, branches, i, b);
    }
  }

  lemma RestAt(names: seq<string>, i: nat)
    requires 0 < i < |names| && names[0] !in names[1..]
    ensures names[1..][i - 1] == names[i] && names[i] != names[0]
  {
    assert names[1..][i - 1] in names[1..];
  }

  lemma NextTurnsBefore(policy: RetentionPolicy, nowMs: nat -> u64, lo: nat, look: nat, before: seq<Fact>,
                        mid: seq<Fact>, namespace: string, branches: seq<string>, i: nat)
    requires 0 < i < |branches| && branches[0] !in branches[1..]
    requires BranchDone(policy, nowMs, lo, look, before, mid, namespace, branches[0])
    ensures look + TurnsBefore(mid, namespace, branches[1..], i - 1) == lo + TurnsBefore(before, namespace, branches, i)
  {
    SameTurnsBefore(before, mid, namespace, branches[1..], i - 1, branches[0]);
  }

  lemma FirstBranchExact(policy: RetentionPolicy, nowMs: nat -> u64, lo: nat, look: nat, hi: nat, before: seq<Fact>,
                         mid: seq<Fact>, after: seq<Fact>, namespace: string, b: string, rest: seq<string>)
    requires b !in rest && BranchDone(policy, nowMs, lo, look, before, mid, namespace, b)
    requires ExactPass(policy, nowMs, look, hi, mid, after, namespace, rest)
    ensures BranchExact(policy, nowMs, lo, before, after, namespace, b)
  {
    ExactElsewhere(policy, nowMs, look, hi, mid, after, namespace, rest, b);
    SameBranchExact(policy, nowMs, lo, before, before, mid, after, namespace, b);
  }

  lemma LaterBranchExact(policy: RetentionPolicy, nowMs: nat -> u64, lo: nat, look: nat, first: nat,
                         before: seq<Fact>, mid: seq<Fact>, after: seq<Fact>, namespace: string,
                         branches: seq<string>, i: nat, b: string)
    requires 0 < i < |branches| && branches[0] !in branches[1..] && b != branches[0]
    requires BranchDone(policy, nowMs, lo, look, before, mid, namespace, branches[0])
    requires first == look + TurnsBefore(mid, namespace, branches[1..], i - 1)
    requires BranchExact(policy, nowMs, first, mid, after, namespace, b)
    ensures first == lo + TurnsBefore(before, namespace, branches, i)
    ensures BranchExact(policy, nowMs, first, before, after, namespace, b)
  {
    NextTurnsBefore(policy, nowMs, lo, look, before, mid, namespace, branches, i);
    DoneElsewhere(policy, nowMs, lo, look, before, mid, namespace, branches[0], b);
    SameBranchExact(policy, nowMs, first, mid, before, after, after, namespace, b);
  }

  lemma RestNoneTwice(names: seq<string>)
    requires NoneTwice(names) && names != []
    ensures NoneTwice(names[1..]) && names[0] !in names[1..]
  {
    var rest := names[1..];
    forall i | 0 <= i < |rest| ensures rest[i] != names[0] {
      assert rest[i] == names[i + 1];
    }
    forall i, j | 0 <= i < j < |rest| ensures rest[i] != rest[j] {
      assert rest[i] == names[i + 1] && rest[j] == names[j + 1];
    }
  }

  lemma {:induction false} SameTurnsBefore(before: seq<Fact>, after: seq<Fact>, namespace: string,
                                           branches: seq<string>, i: nat, b: string)
    requires i <= |branches| && b !in branches && Elsewhere(before, after, {b})
    ensures TurnsBefore(after, namespace, branches, i) == TurnsBefore(before, namespace, branches, i)
  {
    if i > 0 {
      var first := branches[0];
      assert first in branches && first !in {b};
      SameBranchSameTurns(before, after, namespace, first);
      SameTurnsBefore(before, after, namespace, branches[1..], i - 1, b);
    }
  }

  // ---- what a whole pass leaves ------------------------------------------------------------

  /**
   * What a pass over branches keeps, loses and leaves. Each key keeps a suffix of its live facts in oldest-first order,
   * none of them past every threshold by a reading of this pass, and loses only what was past every threshold in its
   * history; without an age limit what each key keeps is said exactly; other branches and namespaces keep all theirs.
   */
  ghost predicate Retains(policy: RetentionPolicy, nowMs: nat -> u64, lo: nat, hi: nat, before: seq<Fact>,
                          after: seq<Fact>, namespace: string, branches: set<string>)
  {
    && Shrinks(before, after, namespace, branches)
    && Elsewhere(before, after, branches)
    && Spares(policy, nowMs, lo, hi, before, after)
    && (forall b, k :: b in branches ==> Settled(policy, nowMs, lo, hi, after, namespace, b, k))
    && (NoAge(policy) ==> forall b :: b in branches ==> AsExpected(policy, before, after, namespace, b))
  }

  lemma PassRetains(step: Step, p: Pass, src: Sources, namespace: string, branches: seq<string>,
                    policy: RetentionPolicy)
    requires IsStep(step, src, namespace, policy) && Unique(p.s.facts)
    ensures var r := BranchesPass(step, p, namespace, branches);
            && r.Ok? && p.looked <= r.value.looked
            && (policy.dryRun ==> r.value.s == p.s)
            && r.value.used == p.used + |AllLive(p.s.facts)| - |AllLive(r.value.s.facts)|
            && r.value.result.retracted == p.result.retracted + r.value.used - p.used
            && r.value.result.branchesProcessed == p.result.branchesProcessed
            && (!policy.dryRun ==>
                  && Retains(policy, src.nowMs, p.looked, r.value.looked, p.s.facts, r.value.s.facts, namespace,
                             Named(branches))
                  && ExactPass(policy, src.nowMs, p.looked, r.value.looked, p.s.facts, r.value.s.facts, namespace,
                               branches))
  {
    BranchesPasses(step, p, src, namespace, branches, policy);
    var q := BranchesPass(step, p, namespace, branches).value;
    if !policy.dryRun {
      forall b, k | b in Named(branches)
        ensures Settled(policy, src.nowMs, p.looked, q.looked, q.s.facts, namespace, b, k)
      {
        assert SettledKeys(policy, src.nowMs, p, q, namespace, b, AllKeys());
        assert IsKey(k);
      }
    }
    if !policy.dryRun {
      var _ := PassIsExact(step, p, src, namespace, branches, policy);
    }
    if NoAge(policy) {
      BranchesTurns(step, p, src, namespace, branches, policy, p.s.facts, {});
      assert {} + Named(branches) == Named(branches);
    }
  }

  /** A policy that sets only a number of versions leaves at most that many live facts. */
  lemma AtMostVersions(policy: RetentionPolicy, nowMs: nat -> u64, lo: nat, hi: nat, before: seq<Fact>,
                       after: seq<Fact>, namespace: string, branches: set<string>, b: string, k: Key)
    requires Retains(policy, nowMs, lo, hi, before, after, namespace, branches) && b in branches
    requires !policy.onlyRetracted && policy.maxVersions.Some? && policy.maxAgeSecs.None?
    ensures |Recent(after, namespace, b, k)| <= policy.maxVersions.value
  {
    SettledVersions(policy, nowMs, lo, hi, after, namespace, b, k);
  }

  /**
   * A key keeps exactly its most recent live facts: as many as the policy says, or all of them if there are no more.
   * So it is for every key of a branch with no retracted fact, and otherwise for all keys but the first, the only one
   * of which retracted facts count as versions.
   */
  lemma KeysKeepVersions(policy: RetentionPolicy, before: seq<Fact>, after: seq<Fact>, namespace: string,
                         branch: string, k: Key)
    requires AsExpected(policy, before, after, namespace, branch)
    requires Clean(before, branch) || !IsLeast(before, namespace, branch, k)
    ensures var was, now := Recent(before, namespace, branch, k), Recent(after, namespace, branch, k);
            && IsSuffix(now, was)
            && |now| == if policy.maxVersions.None? then 0
                        else if |was| <= policy.maxVersions.value then |was| else policy.maxVersions.value
  {
    assert Recent(after, namespace, branch, k) == Expect(policy, before, namespace, branch, k);
    if Clean(before, branch) {
      CleanExpects(policy, before, namespace, branch, k);
    }
    KeepIsSuffix(policy, Recent(before, namespace, branch, k));
  }

  lemma KeepIsSuffix<T>(policy: RetentionPolicy, xs: seq<T>)
    ensures var kept := Keep(policy, xs);
            && IsSuffix(kept, xs)
            && |kept| == if policy.maxVersions.None? then 0
                         else if |xs| <= policy.maxVersions.value then |xs| else policy.maxVersions.value
  {
  }
}
