/** The database over the in-memory store: records, reads, bulk records and the retention loops. */
module Db {
  import opened Base
  import opened Lists
  import opened StableSort
  import opened Ledger
  import opened Store
  import opened Reads
  import opened Writes
  import opened StoreRuns
  import opened Generators
  import opened Retention
  import opened RetentionLoops
  import opened RetentionExact
  import opened RetentionCounts
  import opened MemoryStore

  datatype RecordOpts = RecordOpts(
    author: Option<string>,
    message: Option<string>,
    validFrom: Option<int>,
    validTo: Option<int>,
    causedBy: Option<TxId>,
    idempotencyKey: Option<string>)

  datatype BulkSpec = BulkSpec(entity: string, attr: string, value: Value, validFrom: Option<int>, validTo: Option<int>)

  datatype BulkResult = BulkResult(txId: TxId, applied: nat, factIds: seq<FactId>)

  /** The store, and how much has been drawn from each generator. */
  datatype Session = Session(s: State, ticked: nat, named: nat)

  // ---- record ------------------------------------------------------------------------------

  predicate SchemaAccepts(s: State, namespace: string, attr: string, value: Value) {
    namespace in s.namespaces && s.namespaces[namespace].schema.Some? ==>
      s.namespaces[namespace].schema.value.Accepts(attr, value)
  }

  function ParamsOf(namespace: string, entity: string, attr: string, value: Value, branch: string, opts: RecordOpts,
                    now: int, tick: u64, txId: TxId): RecordParams
  {
    RecordParams(namespace, entity, attr, value, branch, opts.author, opts.message,
                 if opts.validFrom.Some? then opts.validFrom.value else now, opts.validTo, tick, txId, opts.causedBy,
                 opts.idempotencyKey)
  }

  /** A record is refused before the clock ticks if its validity is empty or the schema forbids it. */
  function RecordIn(w: Session, src: Sources, namespace: string, entity: string, attr: string, value: Value,
                    branch: string, opts: RecordOpts, now: int): (Session, Result<RecordResult, Error>)
  {
    var p := ParamsOf(namespace, entity, attr, value, branch, opts, now, src.ticks(w.ticked), src.txIds(w.ticked));
    if p.validTo.Some? && p.validTo.value <= p.validFrom then (w, Err(InvalidTimeRange))
    else if !SchemaAccepts(w.s, namespace, attr, value) then (w, Err(SchemaViolation(attr)))
    else
      var (after, r) := Store.Record(w.s, p, src.factIds(w.named));
      (Session(after, w.ticked + 1, w.named + 1), Ok(r))
  }

  /** The type of an attribute admits the values of its kind, `Any` admits every value. */
  predicate Admits(t: AttrType, v: Value) {
    || t.AnyType?
    || (t.StrType? && v.Str?)
    || (t.IntType? && v.Int?)
    || (t.FloatType? && v.Float?)
    || (t.BoolType? && v.Bool?)
    || (t.JsonType? && v.Json?)
  }

  /** The namespace has a schema that declares the attribute with another type, or does not declare it and is strict. */
  predicate IsForbidden(s: State, namespace: string, attr: string, v: Value) {
    && namespace in s.namespaces && s.namespaces[namespace].schema.Some?
    && var schema := s.namespaces[namespace].schema.value;
       if attr in schema.attrs then !Admits(schema.attrs[attr], v) else schema.strict
  }

  /** The fact says what was asked for, valid from now on if nothing else was, under the next tick and ids. */
  predicate IsRecordedFact(f: Fact, w: Session, src: Sources, namespace: string, entity: string, attr: string,
                           value: Value, branch: string, opts: RecordOpts, now: int)
  {
    && f.id == src.factIds(w.named) && f.txId == src.txIds(w.ticked) && f.txTime == src.ticks(w.ticked)
    && f.namespace == namespace && f.branch == branch && f.entity == entity && f.attr == attr && f.value == value
    && f.validFrom == (if opts.validFrom.Some? then opts.validFrom.value else now) && f.validTo == opts.validTo
    && f.author == opts.author && f.causedBy == opts.causedBy && !f.retracted
  }

  /**
   * A record is refused, with nothing drawn, exactly if its validity ends no later than it begins or the schema
   * forbids the value; otherwise it draws one tick and one id and, unless its key was used, appends the one fact.
   */
  lemma RecordMeaning(w: Session, src: Sources, namespace: string, entity: string, attr: string, value: Value,
                      branch: string, opts: RecordOpts, now: int)
    ensures var (after, r) := RecordIn(w, src, namespace, entity, attr, value, branch, opts, now);
            var from := if opts.validFrom.Some? then opts.validFrom.value else now;
            var empty := opts.validTo.Some? && opts.validTo.value <= from;
            var used := opts.idempotencyKey.Some? && opts.idempotencyKey.value in w.s.idem;
            && (r == Err(InvalidTimeRange) <==> empty)
            && (r == Err(SchemaViolation(attr)) <==> !empty && IsForbidden(w.s, namespace, attr, value))
            && (r.Err? ==> after == w && (empty || IsForbidden(w.s, namespace, attr, value)))
            && (r.Ok? ==> after.ticked == w.ticked + 1 && after.named == w.named + 1 && r.value.wasDuplicate == used)
            && (r.Ok? && used ==>
                  after.s == w.s && (r.value.factId, r.value.txId) == w.s.idem[opts.idempotencyKey.value])
            && (r.Ok? && !used ==>
                  && w.s.facts <= after.s.facts && |after.s.facts| == |w.s.facts| + 1
                  && IsRecordedFact(after.s.facts[|w.s.facts|], w, src, namespace, entity, attr, value, branch, opts,
                                    now)
                  && (opts.idempotencyKey.Some? ==> opts.idempotencyKey.value in after.s.idem))
  {
    var p := ParamsOf(namespace, entity, attr, value, branch, opts, now, src.ticks(w.ticked), src.txIds(w.ticked));
    SchemaForbids(w.s, namespace, attr, value);
    if p.idempotencyKey.Some? ==> p.idempotencyKey.value !in w.s.idem {
      RecordWrites(w.s, p, src.factIds(w.named));
    } else {
      DuplicateRecordChangesNothing(w.s, p, src.factIds(w.named));
    }
  }

  lemma SchemaForbids(s: State, namespace: string, attr: string, value: Value)
    ensures SchemaAccepts(s, namespace, attr, value) <==> !IsForbidden(s, namespace, attr, value)
  {
  }

  function BulkParams(namespace: string, branch: string, sp: BulkSpec, author: Option<string>,
                      message: Option<string>, now: int, tick: u64, txId: TxId): RecordParams
  {
    RecordParams(namespace, sp.entity, sp.attr, sp.value, branch, author, message,
                 if sp.validFrom.Some? then sp.validFrom.value else now, sp.validTo, tick, txId, None, None)
  }

  /** What each spec of a bulk record is recorded as: one transaction, one time. */
  function BulkRecords(namespace: string, branch: string, specs: seq<BulkSpec>, author: Option<string>,
                       message: Option<string>, nows: nat -> int, tick: u64, txId: TxId): (r: seq<RecordParams>)
    ensures |r| == |specs|
    ensures forall i :: 0 <= i < |specs| ==>
                          r[i] == BulkParams(namespace, branch, specs[i], author, message, nows(i), tick, txId)
  {
    seq(|specs|, (i: int) requires 0 <= i < |specs| =>
      BulkParams(namespace, branch, specs[i], author, message, nows(i), tick, txId))
  }

  function BulkIn(w: Session, src: Sources, namespace: string, branch: string, specs: seq<BulkSpec>,
                  author: Option<string>, message: Option<string>, nows: nat -> int):
    (Session, Result<BulkResult, Error>)
  {
    if specs == [] then (w, Err(NoSpecs))
    else
      var tick, txId := src.ticks(w.ticked), src.txIds(w.ticked);
      var ps := BulkRecords(namespace, branch, specs, author, message, nows, tick, txId);
      var after := RecordAll(World(w.s, w.named, w.ticked + 1), ps, txId, src.factIds);
      (Session(after.store, after.nextTx, after.nextId),
       Ok(BulkResult(txId, |specs|, NextIds(src.factIds, w.named, |specs|))))
  }

  /** The next `n` ids. */
  function NextIds(ids: nat -> FactId, from: nat, n: nat): (r: seq<FactId>)
    ensures |r| == n && forall i :: 0 <= i < n ==> r[i] == ids(from + i)
  {
    seq(n, (i: int) requires 0 <= i < n => ids(from + i))
  }

  lemma NextIdsSnoc(ids: nat -> FactId, from: nat, n: nat)
    ensures NextIds(ids, from, n + 1) == NextIds(ids, from, n) + [ids(from + n)]
  {
  }

  class Db {
    const store: MemoryStore
    const src: Sources
    var ticked: nat
    var named: nat
    var looked: nat

    constructor (store: MemoryStore, src: Sources)
      ensures this.store == store && this.src == src && ticked == 0 && named == 0 && looked == 0
    {
      this.store, this.src := store, src;
      ticked, named, looked := 0, 0, 0;
    }

    ghost function Now(): Session
      reads this, store
    {
      Session(store.St(), ticked, named)
    }

    method Record(namespace: string, entity: string, attr: string, value: Value, branch: string, opts: RecordOpts,
                  now: int)
      returns (r: Result<RecordResult, Error>)
      modifies this, store
      ensures (Now(), r) == RecordIn(old(Now()), src, namespace, entity, attr, value, branch, opts, now)
    {
      var validFrom := if opts.validFrom.Some? then opts.validFrom.value else now;
      if opts.validTo.Some? {
        if opts.validTo.value <= validFrom {
          return Err(InvalidTimeRange);
        }
      }
      if namespace in store.namespaces {
        var schema := store.namespaces[namespace].schema;
        if schema.Some? && !schema.value.Accepts(attr, value) {
          return Err(SchemaViolation(attr));
        }
      }
      var tick, txId := src.ticks(ticked), src.txIds(ticked);
      var stored := store.Record(
        RecordParams(namespace, entity, attr, value, branch, opts.author, opts.message, validFrom, opts.validTo, tick,
                     txId, opts.causedBy, opts.idempotencyKey),
        src.factIds(named));
      ticked, named := ticked + 1, named + 1;
      return Ok(stored);
    }

    /** Records every spec under one tick and one transaction id. */
    method BulkRecord(namespace: string, branch: string, specs: seq<BulkSpec>, author: Option<string>,
                      message: Option<string>, nows: nat -> int)
      returns (r: Result<BulkResult, Error>)
      modifies this, store
      ensures (Now(), r) == BulkIn(old(Now()), src, namespace, branch, specs, author, message, nows)
    {
      if specs == [] {
        return Err(NoSpecs);
      }
      var tick, txId := src.ticks(ticked), src.txIds(ticked);
      ticked := ticked + 1;
      var ids := RecordSpecs(BulkRecords(namespace, branch, specs, author, message, nows, tick, txId), txId);
      return Ok(BulkResult(txId, |ids|, ids));
    }

    /** The loop of a bulk record over its specs. */
    method RecordSpecs(ps: seq<RecordParams>, txId: TxId) returns (ids: seq<FactId>)
      requires NoKeys(ps) && forall i :: 0 <= i < |ps| ==> ps[i].txId == txId
      modifies this, store
      ensures World(store.St(), named, ticked)
           == RecordAll(old(World(store.St(), named, ticked)), ps, txId, src.factIds)
      ensures ids == NextIds(src.factIds, old(named), |ps|)
    {
      ghost var start := World(store.St(), named, ticked);
      ids := [];
      var i := 0;
      while i < |ps|
        invariant 0 <= i <= |ps| && named == start.nextId + i
        invariant RecordAll(start, ps[..i], txId, src.factIds) == World(store.St(), named, ticked)
        invariant ids == NextIds(src.factIds, start.nextId, i)
      {
        NextSpec(start, ps, i, txId, src.factIds, World(store.St(), named, ticked));
        var stored := store.Record(ps[i], src.factIds(named));
        NextIdsSnoc(src.factIds, start.nextId, i);
        ids := ids + [stored.factId];
        named := named + 1;
        i := i + 1;
      }
      assert ps[..i] == ps;
    }

    method Asof(namespace: string, branch: string, entity: string, attr: string, at: u64) returns (r: Option<Fact>)
      ensures r == Reads.Asof(store.facts, namespace, branch, entity, attr, at)
    {
      var facts := store.Scan(AsofQuery(namespace, branch, entity, attr, at));
      r := if facts == [] then None else Some(facts[0]);
    }

    method Effective(namespace: string, branch: string, entity: string, attr: string, at: int)
      returns (r: Option<Fact>)
      ensures r == Reads.Effective(store.facts, namespace, branch, entity, attr, at)
    {
      var facts := store.Scan(EffectiveQuery(namespace, branch, entity, attr, at));
      r := if facts == [] then None else Some(facts[0]);
    }

    method Retract(namespace: string, id: FactId, branch: string, author: Option<string>, message: Option<string>)
      returns (r: Result<TxId, Error>)
      modifies this, store
      ensures var p := RetractParams(namespace, branch, author, message, src.ticks(old(ticked)),
                                     src.txIds(old(ticked)));
              && (match Store.Retract(old(store.St()), id, p) {
                    case Ok(s) => r == Ok(p.txId) && store.St() == s
                    case Err(e) => r == Err(e) && store.St() == old(store.St())
                  })
              && ticked == old(ticked) + 1 && named == old(named) && looked == old(looked)
    {
      var p := RetractParams(namespace, branch, author, message, src.ticks(ticked), src.txIds(ticked));
      ticked := ticked + 1;
      r := store.Retract(id, p);
    }

    // ---- retention -------------------------------------------------------------------------

    /** One key of the retention loops: history, eligible facts, retracts, collection, as `Retention.RetainKey` says. */
    method RetainKey(namespace: string, branch: string, k: Key, policy: RetentionPolicy, cutoff: Option<nat>,
                     ghost start: Pass, ghost step: Step)
      returns (r: Result<(nat, nat), Error>)
      requires IsStep(step, src, namespace, policy) && cutoff == Cutoff(policy, src.nowMs(start.looked))
      requires start.s == store.St() && start.used == ticked
      modifies this, store
      ensures step(start, branch, k)
           == Advance(start, if r.Err? then Err(r.error) else Ok(Retained(store.St(), ticked, r.value.0, r.value.1)))
      ensures looked == old(looked) && named == old(named)
    {
      var hist := store.Scan(HistoryQuery(namespace, branch, k));
      var ordered := Sort(Retention.OldestFirst, hist);
      var eligible := SelectEligible(policy, cutoff, ordered);
      ghost var spec :=
        Retention.RetainKey(start.s, namespace, branch, k, policy, cutoff, src.ticks, src.txIds, ticked);
      StepIs(step, start, src, namespace, branch, k, policy, spec);
      if !policy.dryRun {
        var failed := RetractEach(namespace, branch, eligible);
        if failed.Some? {
          return Err(failed.value);
        }
        var _ := store.Gc(GcParams(cutoff, Some(branch), false));
      }
      assert spec == Ok(Retained(store.St(), ticked, |hist|, |eligible|));
      return Ok((|hist|, |eligible|));
    }

    /** Retracts the live facts among those given, until one fails. */
    method RetractEach(namespace: string, branch: string, fs: seq<Fact>) returns (failed: Option<Error>)
      modifies this, store
      ensures var spec := RetractAll(old(store.St()), fs, namespace, branch, src.ticks, src.txIds, old(ticked));
              if failed.Some? then spec == Err(failed.value) else spec == Ok((store.St(), ticked))
      ensures looked == old(looked) && named == old(named)
    {
      var i := 0;
      while i < |fs|
        invariant 0 <= i <= |fs|
        invariant RetractAll(old(store.St()), fs[..i], namespace, branch, src.ticks, src.txIds, old(ticked))
               == Ok((store.St(), ticked))
        invariant looked == old(looked) && named == old(named)
      {
        RetractNext(old(store.St()), fs, i, namespace, branch, src.ticks, src.txIds, old(ticked), store.St(), ticked);
        if !fs[i].retracted {
          var r := Retract(namespace, fs[i].id, branch, Some("polo-retain"), Some("retention policy"));
          if r.Err? {
            return Some(r.error);
          }
        }
        i := i + 1;
      }
      assert fs[..i] == fs;
      return None;
    }

    /** The names of the branches a policy is applied to. */
    ghost function Chosen(namespace: string, policy: RetentionPolicy): set<string>
      reads store
    {
      if policy.branches != [] then set b | b in policy.branches
      else set k | k in store.branches && k.0 == namespace :: store.branches[k].name
    }

    /** The branches a policy is applied to: its own, or all of the namespace, oldest first. */
    method ChosenBranches(namespace: string, policy: RetentionPolicy) returns (branches: seq<string>)
      ensures policy.branches != [] ==> branches == policy.branches
      ensures forall b :: b in branches <==> b in Chosen(namespace, policy)
    {
      branches := policy.branches;
      if branches == [] {
        var infos := store.ListBranches(namespace);
        branches := Map((b: BranchInfo) => b.name, infos);
        ListedNames(store.branches, namespace, infos, branches);
      }
    }

    /** Where a retention pass stands, with the result so far. */
    ghost function At(result: RetentionResult): Pass
      reads this, store
    {
      Pass(store.St(), ticked, looked, result)
    }

    /** The outcome is the one computed; on an error only the error is said. */
    ghost predicate Meets(r: Result<RetentionResult, Error>, spec: Result<Pass, Error>)
      reads this, store
    {
      if r.Ok? then spec == Ok(At(r.value)) else spec == Err(r.error)
    }

    /** One key, by the next reading of the clock, and the counts. */
    method RetainNext(namespace: string, branch: string, k: Key, policy: RetentionPolicy, sofar: RetentionResult,
                      ghost step: Step)
      returns (r: Result<RetentionResult, Error>)
      requires IsStep(step, src, namespace, policy)
      modifies this, store
      ensures Meets(r, step(old(At(sofar)), branch, k)) && named == old(named)
    {
      var drawn := ticked;
      var done := RetainKey(namespace, branch, k, policy, Cutoff(policy, src.nowMs(looked)), At(sofar), step);
      looked := looked + 1;
      if done.Err? {
        return Err(done.error);
      }
      return Ok(Tally(sofar, done.value.0, done.value.1, drawn, ticked));
    }

    /** The attributes of one entity with a live fact. */
    method RetainEntity(namespace: string, branch: string, entity: string, policy: RetentionPolicy,
                        sofar: RetentionResult, ghost step: Step)
      returns (r: Result<RetentionResult, Error>)
      requires IsStep(step, src, namespace, policy)
      modifies this, store
      ensures Meets(r, EntityPass(step, old(At(sofar)), namespace, branch, entity)) && named == old(named)
    {
      var result := sofar;
      var attrs := store.ListAttrs(namespace, branch, entity);
      ListedIs(LiveAttrs(store.facts, namespace, branch, entity), attrs);
      ghost var spec := AttrsPass(step, At(sofar), branch, entity, attrs);
      assert attrs[0..] == attrs;
      var i := 0;
      while i < |attrs|
        invariant 0 <= i <= |attrs| && named == old(named)
        invariant AttrsPass(step, At(result), branch, entity, attrs[i..]) == spec
      {
        AttrsPassNext(step, At(result), branch, entity, attrs, i);
        var done := RetainNext(namespace, branch, (entity, attrs[i]), policy, result, step);
        if done.Err? {
          return done;
        }
        result := done.value;
        i := i + 1;
      }
      return Ok(result);
    }

    /** The entities of one branch with a live fact. */
    method RetainBranch(namespace: string, branch: string, policy: RetentionPolicy, sofar: RetentionResult,
                      ghost step: Step)
      returns (r: Result<RetentionResult, Error>)
      requires IsStep(step, src, namespace, policy)
      modifies this, store
      ensures Meets(r, BranchPass(step, old(At(sofar)), namespace, branch)) && named == old(named)
    {
      var result := sofar;
      var entities := store.ListEntities(namespace, branch);
      ListedIs(LiveEntities(store.facts, namespace, branch), entities);
      ghost var spec := EntitiesPass(step, At(sofar), namespace, branch, entities);
      assert entities[0..] == entities;
      var i := 0;
      while i < |entities|
        invariant 0 <= i <= |entities| && named == old(named)
        invariant EntitiesPass(step, At(result), namespace, branch, entities[i..]) == spec
      {
        EntitiesPassNext(step, At(result), namespace, branch, entities, i);
        var done := RetainEntity(namespace, branch, entities[i], policy, result, step);
        if done.Err? {
          return done;
        }
        result := done.value;
        i := i + 1;
      }
      return Ok(result);
    }

    /** The branches one after another. */
    method RetainBranches(namespace: string, branches: seq<string>, policy: RetentionPolicy, sofar: RetentionResult,
                      ghost step: Step)
      returns (r: Result<RetentionResult, Error>)
      requires IsStep(step, src, namespace, policy)
      modifies this, store
      ensures Meets(r, BranchesPass(step, old(At(sofar)), namespace, branches)) && named == old(named)
    {
      var result := sofar;
      ghost var spec := BranchesPass(step, At(sofar), namespace, branches);
      assert branches[0..] == branches;
      var i := 0;
      while i < |branches|
        invariant 0 <= i <= |branches| && named == old(named)
        invariant BranchesPass(step, At(result), namespace, branches[i..]) == spec
      {
        BranchesPassNext(step, At(result), namespace, branches, i);
        var done := RetainBranch(namespace, branches[i], policy, result, step);
        if done.Err? {
          return done;
        }
        result := done.value;
        i := i + 1;
      }
      return Ok(result);
    }

    /**
     * Applies the policy to every key of the chosen branches, with the state, counts and error of the specification.
     * In a store whose facts have distinct ids it never fails, keeps and loses what `Retains` says by the readings of
     * this call, leaves of every history what `ExactPass` says of each branch's turns, and reports as retracted the
     * drop in live facts, one tick for each; a dry run changes nothing and inspects the facts of all live keys.
     */
    method ApplyRetention(namespace: string, policy: RetentionPolicy)
      returns (r: Result<RetentionResult, Error>, ghost branches: seq<string>)
      modifies this, store
      ensures policy.branches != [] ==> branches == policy.branches
      ensures Named(branches) == old(Chosen(namespace, policy))
      ensures Meets(r, BranchesPass(KeyStep(src, namespace, policy), old(At(Begun(branches))), namespace, branches))
      ensures named == old(named)
      ensures Unique(old(store.facts)) ==>
                && r.Ok? && (policy.dryRun ==> store.St() == old(store.St()))
                && (!policy.dryRun ==>
                      && Retains(policy, src.nowMs, old(looked), looked, old(store.facts), store.facts, namespace,
                                 Named(branches))
                      && ExactPass(policy, src.nowMs, old(looked), looked, old(store.facts), store.facts, namespace,
                                   branches))
                && r.value.retracted == |AllLive(old(store.facts))| - |AllLive(store.facts)|
                && ticked == old(ticked) + r.value.retracted && r.value.branchesProcessed == |branches|
                && (policy.dryRun ==>
                      && r.value.inspected == InspectedOn(old(store.facts), namespace, branches)
                      && r.value.eligible <= r.value.inspected)
    {
      var chosen := ChosenBranches(namespace, policy);
      branches := chosen;
      assert Named(branches) == Chosen(namespace, policy);
      ghost var start, step := At(Begun(branches)), KeyStep(src, namespace, policy);
      KeyStepIs(src, namespace, policy);
      r := RetainBranches(namespace, chosen, policy, Begun(chosen), step);
      if Unique(old(store.facts)) {
        PassRetains(step, start, src, namespace, branches, policy);
        if policy.dryRun {
          DryRunInspects(step, start, src, namespace, branches, policy);
        }
      }
    }
  }

  /** The result before any key's turn. */
  function Begun(branches: seq<string>): RetentionResult {
    RetentionResult(0, 0, 0, |branches|)
  }

  /** The facts of a history, oldest first, that the policy lets go. */
  method SelectEligible(policy: RetentionPolicy, cutoff: Option<nat>, ordered: seq<Fact>) returns (eligible: seq<Fact>)
    ensures eligible == EligibleTo(policy, cutoff, ordered, |ordered|)
  {
    eligible := [];
    for i := 0 to |ordered|
      invariant eligible == EligibleTo(policy, cutoff, ordered, i)
    {
      var f := ordered[i];
      if policy.onlyRetracted && !f.retracted {
        continue;
      }
      if cutoff.Some? && f.txTime >= cutoff.value {
        continue;
      }
      if policy.maxVersions.Some? && |ordered| - i <= policy.maxVersions.value {
        continue;
      }
      eligible := eligible + [f];
    }
  }

  ghost predicate NoKeys(ps: seq<RecordParams>) {
    forall i :: 0 <= i < |ps| ==> ps[i].idempotencyKey == None
  }

  /** One more spec, from where the first `i` have come to. */
  lemma NextSpec(w: World, ps: seq<RecordParams>, i: nat, tx: TxId, ids: nat -> FactId, before: World)
    requires i < |ps| && ps[i].txId == tx && RecordAll(w, ps[..i], tx, ids) == before
    ensures RecordAll(w, ps[..i + 1], tx, ids)
         == World(Store.Record(before.store, ps[i], ids(before.nextId)).0, before.nextId + 1, before.nextTx)
  {
    RecordAllStep(w, ps, i, tx, ids);
    assert ps[i].(txId := tx) == ps[i];
  }

  lemma RecordAllStep(w: World, ps: seq<RecordParams>, i: nat, tx: TxId, ids: nat -> FactId)
    requires i < |ps|
    ensures var before := RecordAll(w, ps[..i], tx, ids);
            var after := RecordAll(w, ps[..i + 1], tx, ids);
            after == World(Store.Record(before.store, ps[i].(txId := tx), ids(before.nextId)).0, before.nextId + 1,
                           before.nextTx)
  {
    assert ps[..i + 1][..i] == ps[..i];
  }

  /** One more record without a key appends its fact. */
  lemma RecordAllNext(w: World, ps: seq<RecordParams>, front: seq<RecordParams>, last: RecordParams, tx: TxId,
                      ids: nat -> FactId)
    requires ps == front + [last] && last.idempotencyKey == None
    ensures var before, after := RecordAll(w, front, tx, ids), RecordAll(w, ps, tx, ids);
            && after.nextId == before.nextId + 1 && after.nextTx == before.nextTx
            && after.store.facts == before.store.facts + [NewFact(last.(txId := tx), ids(before.nextId))]
  {
    assert ps[..|ps| - 1] == front;
  }

  /** A bulk record without idempotency keys appends one fact for each spec. */
  lemma {:induction false} RecordAllAppends(w: World, ps: seq<RecordParams>, tx: TxId, ids: nat -> FactId)
    requires NoKeys(ps)
    ensures var after := RecordAll(w, ps, tx, ids);
            && after.nextId == w.nextId + |ps| && after.nextTx == w.nextTx
            && |after.store.facts| == |w.store.facts| + |ps| && w.store.facts <= after.store.facts
  {
    if ps != [] {
      FrontAndLast(ps);
      RecordAllAppends(w, ps[..|ps| - 1], tx, ids);
      RecordAllNext(w, ps, ps[..|ps| - 1], ps[|ps| - 1], tx, ids);
    }
  }

  lemma FrontAndLast<T>(xs: seq<T>)
    requires xs != []
    ensures xs == xs[..|xs| - 1] + [xs[|xs| - 1]]
  {
  }

  /** The `j`-th fact appended is the `j`-th spec's. */
  lemma {:induction false} RecordAllAppendsAt(w: World, ps: seq<RecordParams>, tx: TxId, ids: nat -> FactId, j: nat)
    requires j < |ps| && NoKeys(ps)
    ensures |RecordAll(w, ps, tx, ids).store.facts| == |w.store.facts| + |ps|
    ensures RecordAll(w, ps, tx, ids).store.facts[|w.store.facts| + j]
         == NewFact(ps[j].(txId := tx), ids(w.nextId + j))
  {
    var front := ps[..|ps| - 1];
    FrontAndLast(ps);
    RecordAllAppends(w, front, tx, ids);
    RecordAllNext(w, ps, front, ps[|ps| - 1], tx, ids);
    if j < |front| {
      RecordAllAppendsAt(w, front, tx, ids, j);
      SnocAt(RecordAll(w, front, tx, ids).store.facts,
             NewFact(ps[|ps| - 1].(txId := tx), ids(w.nextId + |front|)), |w.store.facts| + j);
    }
  }

  lemma SnocAt<T>(xs: seq<T>, x: T, i: nat)
    requires i < |xs|
    ensures (xs + [x])[i] == xs[i]
  {
  }

  /** The `i`-th fact of a bulk record: what its spec says, under the common time and transaction. */
  ghost predicate IsBulkFact(f: Fact, namespace: string, branch: string, sp: BulkSpec, author: Option<string>,
                             now: int, r: BulkResult, i: nat, tick: u64)
    requires i < |r.factIds|
  {
    && f.id == r.factIds[i] && f.txId == r.txId && f.txTime == tick
    && f.entity == sp.entity && f.attr == sp.attr && f.value == sp.value
    && f.validFrom == (if sp.validFrom.Some? then sp.validFrom.value else now) && f.validTo == sp.validTo
    && f.namespace == namespace && f.branch == branch && f.author == author && f.causedBy == None && !f.retracted
  }

  /** A bulk record appends its facts under one time and one transaction, and never finds a duplicate. */
  lemma BulkAppends(w: Session, src: Sources, namespace: string, branch: string, specs: seq<BulkSpec>,
                    author: Option<string>, message: Option<string>, nows: nat -> int)
    requires specs != []
    ensures var (after, r) := BulkIn(w, src, namespace, branch, specs, author, message, nows);
            && r.Ok? && r.value.applied == |specs| == |r.value.factIds| && r.value.txId == src.txIds(w.ticked)
            && (forall i :: 0 <= i < |specs| ==> r.value.factIds[i] == src.factIds(w.named + i))
            && after.ticked == w.ticked + 1 && after.named == w.named + |specs|
            && |after.s.facts| == |w.s.facts| + |specs| && w.s.facts <= after.s.facts
            && (forall i :: 0 <= i < |specs| ==>
                  IsBulkFact(after.s.facts[|w.s.facts| + i], namespace, branch, specs[i], author, nows(i), r.value, i,
                             src.ticks(w.ticked)))
  {
    var ps, after, r := BulkIs(w, src, namespace, branch, specs, author, message, nows);
    RecordAllAppends(World(w.s, w.named, w.ticked + 1), ps, src.txIds(w.ticked), src.factIds);
    forall i | 0 <= i < |specs|
      ensures IsBulkFact(after.s.facts[|w.s.facts| + i], namespace, branch, specs[i], author, nows(i), r, i,
                         src.ticks(w.ticked))
    {
      BulkFactAt(World(w.s, w.named, w.ticked + 1), src.factIds, namespace, branch, specs, author, message, nows,
                 src.ticks(w.ticked), ps, after.s.facts, r, i);
    }
  }

  lemma BulkFactAt(w: World, ids: nat -> FactId, namespace: string, branch: string, specs: seq<BulkSpec>,
                   author: Option<string>, message: Option<string>, nows: nat -> int, tick: u64,
                   ps: seq<RecordParams>, facts: seq<Fact>, r: BulkResult, i: nat)
    requires ps == BulkRecords(namespace, branch, specs, author, message, nows, tick, r.txId) && i < |specs|
    requires facts == RecordAll(w, ps, r.txId, ids).store.facts
    requires |r.factIds| == |specs| && r.factIds[i] == ids(w.nextId + i)
    ensures |facts| == |w.store.facts| + |specs|
    ensures IsBulkFact(facts[|w.store.facts| + i], namespace, branch, specs[i], author, nows(i), r, i, tick)
  {
    RecordAllAppendsAt(w, ps, r.txId, ids, i);
    SpecIsFact(ps[i], namespace, branch, specs[i], author, message, nows(i), tick, r, i);
  }

  /** What a bulk record of at least one spec comes to. */
  lemma BulkIs(w: Session, src: Sources, namespace: string, branch: string, specs: seq<BulkSpec>,
               author: Option<string>, message: Option<string>, nows: nat -> int)
    returns (ps: seq<RecordParams>, after: Session, r: BulkResult)
    requires specs != []
    ensures ps == BulkRecords(namespace, branch, specs, author, message, nows, src.ticks(w.ticked), src.txIds(w.ticked))
    ensures BulkIn(w, src, namespace, branch, specs, author, message, nows) == (after, Ok(r))
    ensures var all := RecordAll(World(w.s, w.named, w.ticked + 1), ps, src.txIds(w.ticked), src.factIds);
            after == Session(all.store, all.nextTx, all.nextId)
    ensures r.txId == src.txIds(w.ticked) && r.applied == |specs| == |r.factIds|
    ensures forall i :: 0 <= i < |specs| ==> r.factIds[i] == src.factIds(w.named + i)
  {
    ps := BulkRecords(namespace, branch, specs, author, message, nows, src.ticks(w.ticked), src.txIds(w.ticked));
    after := BulkIn(w, src, namespace, branch, specs, author, message, nows).0;
    r := BulkIn(w, src, namespace, branch, specs, author, message, nows).1.value;
  }

  lemma SpecIsFact(p: RecordParams, namespace: string, branch: string, sp: BulkSpec, author: Option<string>,
                   message: Option<string>, now: int, tick: u64, r: BulkResult, i: nat)
    requires i < |r.factIds| && p == BulkParams(namespace, branch, sp, author, message, now, tick, r.txId)
    ensures IsBulkFact(NewFact(p.(txId := r.txId), r.factIds[i]), namespace, branch, sp, author, now, r, i, tick)
  {
  }

  lemma ListedNames(branches: map<(string, string), BranchInfo>, namespace: string, infos: seq<BranchInfo>,
                    names: seq<string>)
    requires forall b :: b in infos <==> exists k | k in branches :: k.0 == namespace && branches[k] == b
    requires |names| == |infos| && forall i :: 0 <= i < |infos| ==> names[i] == infos[i].name
    ensures forall n :: n in names <==> n in (set k | k in branches && k.0 == namespace :: branches[k].name)
  {
    forall k | k in branches && k.0 == namespace ensures branches[k].name in names {
      assert branches[k] in infos;
      var i :| 0 <= i < |infos| && infos[i] == branches[k];
      assert names[i] == branches[k].name;
    }
    forall n | n in names ensures n in (set k | k in branches && k.0 == namespace :: branches[k].name) {
      var i :| 0 <= i < |names| && names[i] == n;
      assert infos[i] in infos;
    }
  }
}
