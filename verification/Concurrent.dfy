/**
 * Operations made concurrently. The database ticks the shared clock and applies a record, a bulk record or a retract
 * in two steps, so one may be applied after a read whose time its own tick precedes; a merge is stamped by a clock
 * made for it.
 */
module Concurrent {
  import opened Base
  import opened Ledger
  import opened Store
  import opened StoreRuns
  import opened Reads
  import opened AsofChanges
  import AsofRuns
  import Retention
  import Clock
  import Hlc

  /** The clocks and calls of all threads, one store, and the returned ticks whose operations are applied. */
  datatype Moment = Moment(clock: Clock.State, world: World, applied: set<nat>)

  /**
   * Any step of the clock protocol; a call applies the operation it ticked for, `e` being the return of its tick; a
   * merge, with the readings its own clock takes; or an operation without a time.
   */
  datatype Step =
    | ClockStep(a: Clock.Action)
    | Ticked(e: nat, op: Op)
    | Merged(m: MergeParams, born: Clock.wallMs, wall: Clock.wallMs)
    | Untimed(op: Op)

  /** The tick returned, on the database's node, and its operation is not yet applied. */
  predicate Ready(m: Moment, node: nat, e: nat) {
    && e < |m.clock.trace| && m.clock.trace[e].Return? && m.clock.trace[e].kind == Clock.Tick
    && m.clock.trace[e].node == node && e !in m.applied
  }

  /** The operation under its tick; the others are not applied that way. */
  function Stamped(op: Op, value: u64): Option<Op> {
    match op
    case RecordOp(p) => Some(RecordOp(p.(txTime := value)))
    case BulkOp(ps) => Some(BulkOp(AllStamped(ps, value)))
    case RetractOp(id, r) => Some(RetractOp(id, r.(txTime := value)))
    case _ => None
  }

  function AllStamped(ps: seq<RecordParams>, value: u64): (r: seq<RecordParams>)
    ensures |r| == |ps| && forall p :: p in r ==> p.txTime == value
  {
    if ps == [] then [] else [ps[0].(txTime := value)] + AllStamped(ps[1..], value)
  }

  function FreshStamp(born: Clock.wallMs, wall: Clock.wallMs): u64 {
    var ticked := Clock.TickTarget(Hlc.FromParts(born, 0), wall);
    if ticked.Some? then ticked.value else Hlc.FromParts(born, 0)
  }

  /** What a step applies to the store. */
  function Applies(m: Moment, node: nat, step: Step): Option<Op> {
    match step
    case ClockStep(_) => None
    case Ticked(e, op) => if Ready(m, node, e) then Stamped(op, m.clock.trace[e].value) else None
    case Merged(mp, born, wall) => Some(MergeOp(mp, FreshStamp(born, wall)))
    case Untimed(op) =>
      if op.RecordOp? || op.BulkOp? || op.RetractOp? || op.MergeOp? then None else Some(op)
  }

  /** One step; one that is not ready changes nothing. */
  function After(m: Moment, node: nat, step: Step, ids: nat -> FactId, txs: nat -> TxId): Moment {
    var op := Applies(m, node, step);
    if step.ClockStep? then m.(clock := Clock.Step(m.clock, step.a))
    else if op.None? then m
    else
      m.(world := Apply(m.world, op.value, ids, txs),
         applied := if step.Ticked? then m.applied + {step.e} else m.applied)
  }

  function Run(m: Moment, node: nat, steps: seq<Step>, ids: nat -> FactId, txs: nat -> TxId): Moment {
    if steps == [] then m else After(Run(m, node, steps[..|steps| - 1], ids, txs), node, steps[|steps| - 1], ids, txs)
  }

  lemma RunNext(m: Moment, node: nat, steps: seq<Step>, ids: nat -> FactId, txs: nat -> TxId, i: nat)
    requires i < |steps|
    ensures Run(m, node, steps[..i + 1], ids, txs)
         == After(Run(m, node, steps[..i], ids, txs), node, steps[i], ids, txs)
  {
    assert steps[..i + 1][..i] == steps[..i];
  }

  // ---- what holds in every moment ----------------------------------------------------------

  /** Since `read`, the clock kept its invariant, its node's word has not gone down, and no application is undone. */
  ghost predicate Since(read: Moment, m: Moment, node: nat) {
    && Clock.Inv(m.clock) && Clock.NotBehind(read.clock, m.clock, node) && read.applied <= m.applied
  }

  lemma SinceStep(read: Moment, m: Moment, node: nat, step: Step, ids: nat -> FactId, txs: nat -> TxId)
    requires Since(read, m, node)
    ensures Since(read, After(m, node, step, ids, txs), node)
  {
    if step.ClockStep? {
      Clock.StepInv(m.clock, step.a);
      Clock.NotBehindStep(read.clock, m.clock, step.a, node);
    }
  }

  lemma {:induction false} SinceRun(read: Moment, node: nat, steps: seq<Step>, ids: nat -> FactId, txs: nat -> TxId)
    requires Clock.Inv(read.clock) && node in read.clock.words
    ensures Since(read, Run(read, node, steps, ids, txs), node)
  {
    if steps != [] {
      SinceRun(read, node, steps[..|steps| - 1], ids, txs);
      SinceStep(read, Run(read, node, steps[..|steps| - 1], ids, txs), node, steps[|steps| - 1], ids, txs);
    }
  }

  lemma StepSound(m: Moment, node: nat, step: Step, ids: nat -> FactId, txs: nat -> TxId)
    requires Injective(ids) && Injective(txs) && Sound(m.world, ids, txs)
    ensures Sound(After(m, node, step, ids, txs).world, ids, txs)
  {
    var op := Applies(m, node, step);
    if op.Some? {
      StepKeeps(m.world, op.value, ids, txs);
    }
  }

  lemma {:induction false} RunSound(m: Moment, node: nat, steps: seq<Step>, ids: nat -> FactId, txs: nat -> TxId)
    requires Injective(ids) && Injective(txs) && Sound(m.world, ids, txs)
    ensures Sound(Run(m, node, steps, ids, txs).world, ids, txs)
  {
    if steps != [] {
      RunSound(m, node, steps[..|steps| - 1], ids, txs);
      StepSound(Run(m, node, steps[..|steps| - 1], ids, txs), node, steps[|steps| - 1], ids, txs);
    }
  }

  lemma StepClock(m: Moment, node: nat, step: Step, ids: nat -> FactId, txs: nat -> TxId)
    requires Clock.Inv(m.clock)
    ensures Clock.Inv(After(m, node, step, ids, txs).clock)
    ensures After(m, node, step, ids, txs).clock.words.Keys == m.clock.words.Keys
  {
    if step.ClockStep? {
      Clock.StepInv(m.clock, step.a);
      Clock.StepGrows(m.clock, step.a);
    }
  }

  /**
   * From the start of clocks and store, every moment satisfies the clock's and the store's invariants, which the
   * theorems below ask for.
   */
  lemma {:induction false} ReachableMoments(clock: Clock.State, now: int, node: nat, steps: seq<Step>,
                                            ids: nat -> FactId, txs: nat -> TxId)
    requires Clock.Initial(clock) && Injective(ids) && Injective(txs)
    ensures var m := Run(Moment(clock, Start(now), {}), node, steps, ids, txs);
            Clock.Inv(m.clock) && m.clock.words.Keys == clock.words.Keys && Sound(m.world, ids, txs)
  {
    var m := Moment(clock, Start(now), {});
    if steps == [] {
      Clock.InitialInv(clock);
      ReachableStatesAreSound(now, [], ids, txs);
    } else {
      ReachableMoments(clock, now, node, steps[..|steps| - 1], ids, txs);
      var before := Run(m, node, steps[..|steps| - 1], ids, txs);
      StepClock(before, node, steps[|steps| - 1], ids, txs);
      StepSound(before, node, steps[|steps| - 1], ids, txs);
    }
  }

  // ---- what is applied ---------------------------------------------------------------------

  /** The call's tick has returned and the step applies what it ticked for. */
  predicate IsApplied(m: Moment, node: nat, step: Step) {
    step.Ticked? && Applies(m, node, step).Some?
  }

  /** The time a call's operation is applied under. */
  function TimeOf(m: Moment, node: nat, step: Step): u64
    requires IsApplied(m, node, step)
  {
    m.clock.trace[step.e].value
  }

  lemma AppliedIsNoted(m: Moment, node: nat, step: Step, ids: nat -> FactId, txs: nat -> TxId)
    requires IsApplied(m, node, step)
    ensures step.e in After(m, node, step, ids, txs).applied && After(m, node, step, ids, txs).clock == m.clock
  {
  }

  /** Whatever comes in between, no call is applied twice, and no two calls of a node are applied under one time. */
  lemma CallsApplyOnce(m: Moment, node: nat, step: Step, more: seq<Step>, later: Step, ids: nat -> FactId,
                       txs: nat -> TxId)
    requires Clock.Inv(m.clock) && node in m.clock.words && IsApplied(m, node, step)
    requires IsApplied(Run(After(m, node, step, ids, txs), node, more, ids, txs), node, later)
    ensures step.e != later.e
    ensures TimeOf(m, node, step) != TimeOf(Run(After(m, node, step, ids, txs), node, more, ids, txs), node, later)
  {
    var next := After(m, node, step, ids, txs);
    AppliedIsNoted(m, node, step, ids, txs);
    SinceRun(next, node, more, ids, txs);
    TimesDiffer(m, next, Run(next, node, more, ids, txs), node, step.e, later.e);
  }

  lemma TimesDiffer(m: Moment, next: Moment, last: Moment, node: nat, d: nat, e: nat)
    requires next.clock == m.clock && d in next.applied && Since(next, last, node)
    requires Ready(m, node, d) && Ready(last, node, e)
    ensures d != e && m.clock.trace[d].value != last.clock.trace[e].value
  {
    assert last.clock.trace[d] == m.clock.trace[d];
    Clock.ReturnedTicksDiffer(last.clock, if d < e then d else e, if d < e then e else d);
  }

  /** Collections, branches and namespaces need no tick, and are applied as they are. */
  lemma UntimedAppliesAtOnce(m: Moment, node: nat, op: Op, ids: nat -> FactId, txs: nat -> TxId)
    requires op.GcOp? || op.CreateBranchOp? || op.DeleteBranchOp? || op.CreateNamespaceOp?
    ensures After(m, node, Untimed(op), ids, txs).world == Apply(m.world, op, ids, txs)
  {
  }

  // ---- when answers change -----------------------------------------------------------------

  /** The step applies an operation that disturbs the read. */
  predicate Disturbs(m: Moment, node: nat, step: Step, ids: nat -> FactId, txs: nat -> TxId, namespace: string,
                     branch: string, k: Key, at: u64)
  {
    var op := Applies(m, node, step);
    op.Some? && OpDisturbs(m.world, op.value, ids, txs, namespace, branch, k, at)
  }

  /** Which steps of a run disturb the read, where they stand in the run. */
  function Disturbing(m: Moment, node: nat, steps: seq<Step>, ids: nat -> FactId, txs: nat -> TxId, namespace: string,
                      branch: string, k: Key, at: u64): nat -> bool
  {
    (i: nat) =>
      i < |steps| && Disturbs(Run(m, node, steps[..i], ids, txs), node, steps[i], ids, txs, namespace, branch, k, at)
  }

  function AnswerAfter(m: Moment, node: nat, steps: seq<Step>, ids: nat -> FactId, txs: nat -> TxId,
                       namespace: string, branch: string, k: Key, at: u64): nat -> Option<Fact>
  {
    (i: nat) =>
      if i <= |steps| then
        Asof(Run(m, node, steps[..i], ids, txs).world.store.facts, namespace, branch, k.0, k.1, at)
      else None
  }

  predicate IsRetract(step: Step) {
    step.Ticked? && step.op.RetractOp?
  }

  /** One step moves the answer exactly if it disturbs the read, and up unless it is a retract. */
  lemma StepMoves(m: Moment, node: nat, step: Step, ids: nat -> FactId, txs: nat -> TxId, after: Moment,
                  namespace: string, branch: string, k: Key, at: u64)
    requires after == After(m, node, step, ids, txs) && Retention.Unique(m.world.store.facts)
    ensures MovedAs(Asof(m.world.store.facts, namespace, branch, k.0, k.1, at),
                    Asof(after.world.store.facts, namespace, branch, k.0, k.1, at),
                    Disturbs(m, node, step, ids, txs, namespace, branch, k, at), !IsRetract(step))
  {
    var op := Applies(m, node, step);
    if op.Some? {
      AsofRuns.OpMoves(m.world, op.value, ids, txs, Apply(m.world, op.value, ids, txs), namespace, branch, k, at);
      SameWorld(m, node, step, ids, txs, op.value);
    }
  }

  lemma SameWorld(m: Moment, node: nat, step: Step, ids: nat -> FactId, txs: nat -> TxId, op: Op)
    requires Applies(m, node, step) == Some(op)
    ensures After(m, node, step, ids, txs).world == Apply(m.world, op, ids, txs)
    ensures op.RetractOp? ==> IsRetract(step)
  {
  }

  lemma StepMovesAt(read: Moment, node: nat, steps: seq<Step>, ids: nat -> FactId, txs: nat -> TxId, i: nat,
                    namespace: string, branch: string, k: Key, at: u64)
    requires i < |steps| && Injective(ids) && Injective(txs) && Sound(read.world, ids, txs)
    ensures var answer := AnswerAfter(read, node, steps, ids, txs, namespace, branch, k, at);
            MovedAs(answer(i), answer(i + 1),
                    Disturbing(read, node, steps, ids, txs, namespace, branch, k, at)(i), !IsRetract(steps[i]))
  {
    RunSound(read, node, steps[..i], ids, txs);
    RunNext(read, node, steps, ids, txs, i);
    StepMoves(Run(read, node, steps[..i], ids, txs), node, steps[i], ids, txs,
              Run(read, node, steps[..i + 1], ids, txs), namespace, branch, k, at);
  }

  // ---- why answers change ------------------------------------------------------------------

  /** The merge's stamp is not later than the word. */
  predicate Lags(word: u64, born: Clock.wallMs, wall: Clock.wallMs) {
    if wall > born then word >= Hlc.FromParts(wall, 0) else word > Hlc.FromParts(born, 0)
  }

  lemma LagsExactly(word: u64, born: Clock.wallMs, wall: Clock.wallMs)
    ensures FreshStamp(born, wall) <= word <==> Lags(word, born, wall)
  {
    AsofRuns.MergeStampIsLaterExactly(word, born, wall);
  }

  /** The tick of `e` had committed, but its operation was not applied, at the read. */
  ghost predicate Pending(read: Moment, m: Moment, node: nat, e: nat) {
    && Ready(m, node, e) && m.clock.trace[e].commitAt < |read.clock.trace| && e !in read.applied
  }

  /** What is stamped no later than the word at the read was ticked for before the read, and not applied by then. */
  lemma EarlyWerePending(read: Moment, m: Moment, node: nat, e: nat)
    requires Since(read, m, node) && node in read.clock.words && Ready(m, node, e)
    requires m.clock.trace[e].value <= read.clock.words[node]
    ensures Pending(read, m, node, e)
  {
    var trace := m.clock.trace;
    assert Clock.IsCommitOf(trace, trace[e].commitAt, node, Clock.Tick, trace[e].value);
  }

  /**
   * Why a step disturbs a read at the present: a record or bulk record of a call that had ticked and not yet applied it
   * at the read, a retract of the answer there is, or a merge whose own clock lags.
   */
  ghost predicate Reason(read: Moment, m: Moment, node: nat, step: Step, namespace: string, branch: string, k: Key,
                         now: u64)
  {
    match step
    case Ticked(e, op) =>
      if op.RetractOp? then IsAnswer(Asof(m.world.store.facts, namespace, branch, k.0, k.1, now), op.id)
      else Pending(read, m, node, e)
    case Merged(_, born, wall) => Lags(now, born, wall)
    case _ => false
  }

  lemma {:induction false} BulkIsEarly(w: World, ps: seq<RecordParams>, tx: TxId, ids: nat -> FactId,
                                       namespace: string, branch: string, k: Key, at: u64, time: u64)
    requires BulkDisturbs(w, ps, tx, ids, namespace, branch, k, at) && forall p :: p in ps ==> p.txTime == time
    ensures time <= at
    decreases |ps|
  {
    var front := ps[..|ps| - 1];
    if BulkDisturbs(w, front, tx, ids, namespace, branch, k, at) {
      BulkIsEarly(w, front, tx, ids, namespace, branch, k, at, time);
    } else {
      assert ps[|ps| - 1] in ps;
    }
  }

  /** A record or bulk record that disturbs is stamped no later than the read. */
  lemma TickedIsEarly(w: World, op: Op, value: u64, ids: nat -> FactId, txs: nat -> TxId, namespace: string,
                      branch: string, k: Key, at: u64)
    requires Stamped(op, value).Some? && !op.RetractOp?
    requires OpDisturbs(w, Stamped(op, value).value, ids, txs, namespace, branch, k, at)
    ensures value <= at
  {
    if op.BulkOp? {
      BulkIsEarly(w.(nextTx := w.nextTx + 1), AllStamped(op.ps, value), txs(w.nextTx), ids, namespace, branch, k, at,
                  value);
    }
  }

  lemma DisturbsForReason(read: Moment, m: Moment, node: nat, step: Step, ids: nat -> FactId, txs: nat -> TxId,
                          namespace: string, branch: string, k: Key)
    requires Since(read, m, node) && node in read.clock.words
    requires Disturbs(m, node, step, ids, txs, namespace, branch, k, read.clock.words[node])
    ensures Reason(read, m, node, step, namespace, branch, k, read.clock.words[node])
  {
    var now := read.clock.words[node];
    if step.Ticked? && !step.op.RetractOp? {
      TickedIsEarly(m.world, step.op, m.clock.trace[step.e].value, ids, txs, namespace, branch, k, now);
      EarlyWerePending(read, m, node, step.e);
    } else if step.Merged? {
      LagsExactly(now, step.born, step.wall);
    }
  }

  // ---- reads at the present ----------------------------------------------------------------

  /** Every disturbing step of the run has one of the reasons there are. */
  ghost predicate Explained(read: Moment, node: nat, steps: seq<Step>, ids: nat -> FactId, txs: nat -> TxId,
                            namespace: string, branch: string, k: Key, now: u64)
  {
    forall i: nat :: i < |steps| && Disturbing(read, node, steps, ids, txs, namespace, branch, k, now)(i) ==>
      Reason(read, Run(read, node, steps[..i], ids, txs), node, steps[i], namespace, branch, k, now)
  }

  lemma RunIsExplained(read: Moment, node: nat, steps: seq<Step>, ids: nat -> FactId, txs: nat -> TxId,
                       namespace: string, branch: string, k: Key)
    requires Clock.Inv(read.clock) && node in read.clock.words
    ensures Explained(read, node, steps, ids, txs, namespace, branch, k, read.clock.words[node])
  {
    var now := read.clock.words[node];
    forall i: nat | i < |steps| && Disturbing(read, node, steps, ids, txs, namespace, branch, k, now)(i)
      ensures Reason(read, Run(read, node, steps[..i], ids, txs), node, steps[i], namespace, branch, k, now)
    {
      SinceRun(read, node, steps[..i], ids, txs);
      DisturbsForReason(read, Run(read, node, steps[..i], ids, txs), node, steps[i], ids, txs, namespace, branch, k);
    }
  }

  /**
   * Under any interleaving of clock steps, records, bulk records, retracts, merges, collections and branch operations,
   * the answer to a read at the clock's present word holds all along if and only if no step disturbs it, and every
   * step that does has its reason.
   */
  lemma PresentReadsHoldExactly(read: Moment, node: nat, steps: seq<Step>, ids: nat -> FactId, txs: nat -> TxId,
                                namespace: string, branch: string, k: Key)
    requires Clock.Inv(read.clock) && node in read.clock.words
    requires Injective(ids) && Injective(txs) && Sound(read.world, ids, txs)
    ensures var now := read.clock.words[node];
            && (Holds(AnswerAfter(read, node, steps, ids, txs, namespace, branch, k, now), |steps|)
                <==> Still(Disturbing(read, node, steps, ids, txs, namespace, branch, k, now), |steps|))
            && Explained(read, node, steps, ids, txs, namespace, branch, k, now)
  {
    var now := read.clock.words[node];
    var answer := AnswerAfter(read, node, steps, ids, txs, namespace, branch, k, now);
    var moved := Disturbing(read, node, steps, ids, txs, namespace, branch, k, now);
    forall i: nat | i < |steps| ensures answer(i + 1) != answer(i) <==> moved(i) {
      StepMovesAt(read, node, steps, ids, txs, i, namespace, branch, k, now);
    }
    HoldsIfStill(answer, moved, |steps|);
    RunIsExplained(read, node, steps, ids, txs, namespace, branch, k);
  }

  /** Without retracts an answer once disturbed never comes back, so it is enough to read again at the end. */
  lemma PresentReadsRepeatExactly(read: Moment, node: nat, steps: seq<Step>, ids: nat -> FactId, txs: nat -> TxId,
                                  namespace: string, branch: string, k: Key)
    requires node in read.clock.words && forall step :: step in steps ==> !IsRetract(step)
    requires Injective(ids) && Injective(txs) && Sound(read.world, ids, txs)
    ensures var now := read.clock.words[node];
            (Asof(Run(read, node, steps, ids, txs).world.store.facts, namespace, branch, k.0, k.1, now)
             == Asof(read.world.store.facts, namespace, branch, k.0, k.1, now))
            <==> Still(Disturbing(read, node, steps, ids, txs, namespace, branch, k, now), |steps|)
  {
    var now := read.clock.words[node];
    var answer := AnswerAfter(read, node, steps, ids, txs, namespace, branch, k, now);
    var moved := Disturbing(read, node, steps, ids, txs, namespace, branch, k, now);
    forall i: nat | i < |steps| ensures MovesAt(answer, moved, i) {
      StepMovesAt(read, node, steps, ids, txs, i, namespace, branch, k, now);
      assert steps[i] in steps;
    }
    RisingAnswers(answer, moved, |steps|);
    assert steps[..|steps|] == steps && steps[..0] == [];
  }

  /** Every tick committed on the node has returned and its operation is applied. */
  ghost predicate Quiet(m: Moment, node: nat) {
    forall c: nat | c < |m.clock.trace| && IsTickCommit(m, node, c) :: AppliedFor(m, c)
  }

  predicate IsTickCommit(m: Moment, node: nat, c: nat)
    requires c < |m.clock.trace|
  {
    m.clock.trace[c].Commit? && m.clock.trace[c].node == node && m.clock.trace[c].kind == Clock.Tick
  }

  ghost predicate AppliedFor(m: Moment, c: nat) {
    exists e :: e in m.applied && e < |m.clock.trace| && m.clock.trace[e].Return? && m.clock.trace[e].commitAt == c
  }

  /** The step is no merge whose own clock lags behind the word, and does not retract the answer. */
  predicate Harmless(step: Step, word: u64, answer: Option<Fact>) {
    && (step.Merged? ==> !Lags(word, step.born, step.wall))
    && (IsRetract(step) ==> !IsAnswer(answer, step.op.id))
  }

  /**
   * A read made while no call is under way holds for ever, as long as nothing retracts its answer and no merge's own
   * clock lags behind the word.
   */
  lemma {:induction false} QuietReadsHold(read: Moment, node: nat, steps: seq<Step>, ids: nat -> FactId,
                                          txs: nat -> TxId, namespace: string, branch: string, k: Key, n: nat)
    requires Clock.Inv(read.clock) && node in read.clock.words && Quiet(read, node) && n <= |steps|
    requires Injective(ids) && Injective(txs) && Sound(read.world, ids, txs)
    requires AllHarmless(steps, read.clock.words[node],
                         Asof(read.world.store.facts, namespace, branch, k.0, k.1, read.clock.words[node]))
    ensures Holds(AnswerAfter(read, node, steps, ids, txs, namespace, branch, k, read.clock.words[node]), n)
  {
    var answer := AnswerAfter(read, node, steps, ids, txs, namespace, branch, k, read.clock.words[node]);
    if n > 0 {
      QuietReadsHold(read, node, steps, ids, txs, namespace, branch, k, n - 1);
      QuietStep(read, node, steps, ids, txs, namespace, branch, k, n - 1);
      HoldsNext(answer, n - 1);
    }
  }

  ghost predicate AllHarmless(steps: seq<Step>, word: u64, answer: Option<Fact>) {
    forall step :: step in steps ==> Harmless(step, word, answer)
  }

  lemma QuietStep(read: Moment, node: nat, steps: seq<Step>, ids: nat -> FactId, txs: nat -> TxId, namespace: string,
                  branch: string, k: Key, n: nat)
    requires Clock.Inv(read.clock) && node in read.clock.words && Quiet(read, node) && n < |steps|
    requires Injective(ids) && Injective(txs) && Sound(read.world, ids, txs)
    requires AllHarmless(steps, read.clock.words[node],
                         Asof(read.world.store.facts, namespace, branch, k.0, k.1, read.clock.words[node]))
    requires var answer := AnswerAfter(read, node, steps, ids, txs, namespace, branch, k, read.clock.words[node]);
             answer(n) == answer(0)
    ensures var answer := AnswerAfter(read, node, steps, ids, txs, namespace, branch, k, read.clock.words[node]);
            answer(n + 1) == answer(n)
  {
    StepMovesAt(read, node, steps, ids, txs, n, namespace, branch, k, read.clock.words[node]);
    SinceRun(read, node, steps[..n], ids, txs);
    assert steps[..0] == [] && steps[n] in steps;
    HarmlessDoesNot(read, Run(read, node, steps[..n], ids, txs), node, steps[n], ids, txs, namespace, branch, k);
  }

  lemma HarmlessDoesNot(read: Moment, m: Moment, node: nat, step: Step, ids: nat -> FactId, txs: nat -> TxId,
                        namespace: string, branch: string, k: Key)
    requires Since(read, m, node) && node in read.clock.words && Quiet(read, node)
    requires var now := read.clock.words[node];
             Harmless(step, now, Asof(m.world.store.facts, namespace, branch, k.0, k.1, now))
    ensures !Disturbs(m, node, step, ids, txs, namespace, branch, k, read.clock.words[node])
  {
    var now := read.clock.words[node];
    if Disturbs(m, node, step, ids, txs, namespace, branch, k, now) {
      DisturbsForReason(read, m, node, step, ids, txs, namespace, branch, k);
      if step.Ticked? && !IsRetract(step) {
        NothingPending(read, m, node, step.e);
      }
    }
  }

  lemma SameReturn(trace: seq<Clock.Event>, d: nat, e: nat)
    requires Clock.ReturnsMatch(trace) && d < |trace| && e < |trace| && trace[d].Return? && trace[e].Return?
    requires trace[d].commitAt == trace[e].commitAt
    ensures d == e
  {
  }

  lemma AppliedReturn(read: Moment, trace: seq<Clock.Event>, e: nat)
    requires Clock.ReturnsMatch(trace) && read.clock.trace <= trace && e < |trace| && trace[e].Return?
    ensures AppliedFor(read, trace[e].commitAt) ==> e in read.applied
  {
    if AppliedFor(read, trace[e].commitAt) {
      var d :| d in read.applied && d < |read.clock.trace| && read.clock.trace[d].Return?
               && read.clock.trace[d].commitAt == trace[e].commitAt;
      SameReturn(trace, d, e);
    }
  }

  lemma NothingPending(read: Moment, m: Moment, node: nat, e: nat)
    requires Since(read, m, node) && Quiet(read, node) && Ready(m, node, e)
    ensures m.clock.trace[e].commitAt >= |read.clock.trace|
  {
    var trace, c := m.clock.trace, m.clock.trace[e].commitAt;
    assert Clock.IsCommitOf(trace, c, node, Clock.Tick, trace[e].value);
    AppliedReturn(read, trace, e);
    if c < |read.clock.trace| {
      assert IsTickCommit(read, node, c);
    }
  }
}
