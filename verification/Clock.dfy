/**
 * The lock-free clock. `Clock::tick` and `Clock::observe` are compare-and-swap loops over one
 * shared word; here every load and every compare-and-swap is a step of its own, taken by any
 * number of threads on any number of nodes in any order.
 */
module Clock {
  import opened Base
  import opened Hlc

  /** A wall-clock reading that fits the 48 physical bits; readings may go backwards. */
  type wallMs = n: nat | n < PHYSICAL_LIMIT

  // ---- one iteration of each loop ---------------------------------------------------------

  /** The value `tick` tries to install, or nothing when it must spin. */
  function TickTarget(cur: u64, wall: u64): Option<u64> {
    if wall > PhysicalMs(cur) then Some(FromParts(wall, 0))
    else if Logical(cur) < LOGICAL_MAX then Some(FromParts(PhysicalMs(cur), Logical(cur) + 1))
    else None
  }

  predicate ExcessiveDrift(received: u64, wall: u64) {
    PhysicalMs(received) > wall + MAX_DRIFT_MS
  }

  function SaturatingNext(l: u16): u16 {
    if l < LOGICAL_MAX then l + 1 else LOGICAL_MAX
  }

  function MaxPhysical(cur: u64, received: u64, wall: u64): u64 {
    Max(Max(wall, PhysicalMs(received)), PhysicalMs(cur))
  }

  /** The value `observe` tries to install. */
  function ObserveTarget(cur: u64, received: u64, wall: u64): u64 {
    var phys := MaxPhysical(cur, received, wall);
    var logi :=
      if phys == PhysicalMs(received) && phys == PhysicalMs(cur) then
        SaturatingNext(Max(Logical(received), Logical(cur)))
      else if phys == PhysicalMs(received) then SaturatingNext(Logical(received))
      else if phys == PhysicalMs(cur) then SaturatingNext(Logical(cur))
      else 0;
    FromParts(phys, logi)
  }

  /** A winning timestamp already has the last counter value. */
  predicate Saturates(cur: u64, received: u64, wall: u64) {
    var phys := MaxPhysical(cur, received, wall);
    || (phys == PhysicalMs(received) && Logical(received) == LOGICAL_MAX)
    || (phys == PhysicalMs(cur) && Logical(cur) == LOGICAL_MAX)
  }

  /**
   * `tick` spins exactly on a reading that is not ahead of a word with an exhausted counter; otherwise it moves the
   * word up exactly when the reading does not lose bits that decide the comparison.
   */
  lemma TickAdvancesExactly(cur: u64, wall: u64)
    ensures TickTarget(cur, wall).None? <==> wall <= PhysicalMs(cur) && cur % 0x1_0000 == 0xFFFF
    ensures TickTarget(cur, wall).Some? ==>
              (TickTarget(cur, wall).value > cur
               <==> wall <= PhysicalMs(cur) || wall % PHYSICAL_LIMIT > PhysicalMs(cur))
  {
    if TickTarget(cur, wall).Some? {
      IntegerOrderIsPairOrder(TickTarget(cur, wall).value, cur);
      if wall > PhysicalMs(cur) {
        FromPartsTruncates(wall, 0);
      } else {
        FromPartsFits(PhysicalMs(cur), Logical(cur) + 1);
      }
    }
  }

  /** `observe` never goes below either input, and passes both exactly when no winner is saturated. */
  lemma ObserveAdvancesExactly(cur: u64, received: u64, wall: wallMs)
    ensures ObserveTarget(cur, received, wall) >= cur
    ensures ObserveTarget(cur, received, wall) >= received
    ensures ObserveTarget(cur, received, wall) > cur && ObserveTarget(cur, received, wall) > received
       <==> !Saturates(cur, received, wall)
    ensures PhysicalMs(ObserveTarget(cur, received, wall)) == MaxPhysical(cur, received, wall)
  {
    var phys := MaxPhysical(cur, received, wall);
    PackedParts(cur);
    PackedParts(received);
    var logi: u16 :| ObserveTarget(cur, received, wall) == FromParts(phys, logi)
      && (phys == PhysicalMs(received) ==>
            logi >= Logical(received) && (logi == Logical(received) ==> logi == LOGICAL_MAX))
      && (phys == PhysicalMs(cur) ==> logi >= Logical(cur) && (logi == Logical(cur) ==> logi == LOGICAL_MAX));
    FromPartsFits(phys, logi);
  }

  /** A timestamp after `cur` that is not before the reading. */
  predicate IsNext(cur: u64, wall: wallMs, h: u64) {
    h > cur && PhysicalMs(h) >= wall
  }

  /** `tick` takes the least timestamp after its word that is not before the reading. */
  lemma TickIsLeast(cur: u64, wall: wallMs)
    requires TickTarget(cur, wall).Some?
    ensures IsNext(cur, wall, TickTarget(cur, wall).value)
    ensures forall h: u64 | IsNext(cur, wall, h) :: TickTarget(cur, wall).value <= h
  {
    TickAdvancesExactly(cur, wall);
    FromPartsFits(wall, 0);
    PackedParts(cur);
    if wall <= PhysicalMs(cur) {
      FromPartsFits(PhysicalMs(cur), Logical(cur) + 1);
    }
  }

  /** What `tick` would need is in a later millisecond than its word exactly when it spins. */
  lemma SpinsExactly(cur: u64, wall: wallMs)
    ensures TickTarget(cur, wall).None?
       <==> wall <= PhysicalMs(cur) && forall h: u64 | IsNext(cur, wall, h) :: PhysicalMs(h) > PhysicalMs(cur)
  {
    if Logical(cur) < LOGICAL_MAX {
      PackedParts(cur);
      FromPartsFits(PhysicalMs(cur), Logical(cur) + 1);
      assert wall <= PhysicalMs(cur) ==> IsNext(cur, wall, FromParts(PhysicalMs(cur), Logical(cur) + 1));
    }
  }

  /** A timestamp after both `cur` and `received` that is not before the reading. */
  predicate IsAfterBoth(cur: u64, received: u64, wall: wallMs, h: u64) {
    h > cur && h > received && PhysicalMs(h) >= wall
  }

  /**
   * `observe` takes the least timestamp after its word and the one received that is not before the reading; if a
   * winner is saturated, the last timestamp of the latest of the three milliseconds.
   */
  lemma ObserveIsLeast(cur: u64, received: u64, wall: wallMs)
    ensures !Saturates(cur, received, wall) ==>
              && IsAfterBoth(cur, received, wall, ObserveTarget(cur, received, wall))
              && (forall h: u64 | IsAfterBoth(cur, received, wall, h) :: ObserveTarget(cur, received, wall) <= h)
    ensures Saturates(cur, received, wall) ==>
              ObserveTarget(cur, received, wall) == Max(cur, received) && Max(cur, received) % 0x1_0000 == 0xFFFF
  {
    ObserveAdvancesExactly(cur, received, wall);
    PackedParts(cur);
    PackedParts(received);
    var phys := MaxPhysical(cur, received, wall);
    forall l: u16 ensures FromParts(phys, l) == phys * 0x1_0000 + l {
      FromPartsFits(phys, l);
    }
  }

  /** `observe` is saturated exactly when the greatest of its inputs is the last timestamp of its millisecond. */
  lemma SaturatesExactly(cur: u64, received: u64, wall: wallMs)
    ensures Saturates(cur, received, wall)
       <==> Max(cur, received) % 0x1_0000 == 0xFFFF && wall <= PhysicalMs(Max(cur, received))
  {
    PackedParts(cur);
    PackedParts(received);
  }

  // ---- the protocol -----------------------------------------------------------------------

  datatype Kind = Tick | Observe

  /** Where a call stands in its loop. */
  datatype Pc =
    | TickLoop
    | TickCas(wall: wallMs, cur: u64)
    | ObserveLoop(wall: wallMs, received: u64, from: Option<nat>)
    | ObserveCas(wall: wallMs, received: u64, from: Option<nat>, cur: u64)
    | Returning(value: u64, commitAt: nat)

  /** A call in progress: its node and the place of its start in the trace. */
  datatype Call = Call(node: nat, kind: Kind, startAt: nat, pc: Pc)

  /** What happened, in order. A commit is a successful compare-and-swap. */
  datatype Event =
    | Start(thread: nat, node: nat, kind: Kind)
    | Commit(thread: nat, node: nat, kind: Kind, value: u64, from: Option<nat>, saturated: bool)
    | Return(thread: nat, node: nat, kind: Kind, value: u64, startAt: nat, commitAt: nat)
    | Reject(thread: nat, node: nat)

  /** `newest` is the largest wall reading of each node so far, counting the one that created its clock. */
  datatype State = State(words: map<nat, u64>, calls: map<nat, Call>, trace: seq<Event>, newest: map<nat, nat>)

  datatype Action =
    | BeginTick(thread: nat, node: nat)
    | BeginObserve(thread: nat, node: nat, received: u64, from: Option<nat>, wall: wallMs)
    | Load(thread: nat, wall: wallMs)
    | CompareExchange(thread: nat)
    | Finish(thread: nat)

  ghost predicate Initial(s: State) {
    && s.calls == map[] && s.trace == []
    && s.newest.Keys == s.words.Keys
    && (forall n :: n in s.words ==> s.newest[n] < PHYSICAL_LIMIT && s.words[n] == FromParts(s.newest[n], 0))
  }

  /** A message carries the timestamp of an earlier tick. */
  predicate Carries(trace: seq<Event>, from: Option<nat>, received: u64) {
    from.Some? ==> from.value < |trace| && trace[from.value].Commit? && trace[from.value].value == received
  }

  function Read(newest: map<nat, nat>, node: nat, wall: wallMs): map<nat, nat>
    requires node in newest
  {
    newest[node := Max(newest[node], wall)]
  }

  function SetPc(s: State, thread: nat, pc: Pc): State
    requires thread in s.calls
  {
    s.(calls := s.calls[thread := s.calls[thread].(pc := pc)])
  }

  /** A compare-and-swap: on success the word moves and the call may return, else the loop restarts. */
  function Swap(s: State, thread: nat, cur: u64, next: u64, from: Option<nat>, saturated: bool, retry: Pc): State
    requires thread in s.calls && s.calls[thread].node in s.words
  {
    var c := s.calls[thread];
    if s.words[c.node] == cur then
      SetPc(s, thread, Returning(next, |s.trace|)).(
        words := s.words[c.node := next],
        trace := s.trace + [Commit(thread, c.node, c.kind, next, from, saturated)])
    else SetPc(s, thread, retry)
  }

  /** One step; an action that is not enabled changes nothing. */
  function Step(s: State, a: Action): State {
    match a
    case BeginTick(t, n) =>
      if t in s.calls || n !in s.words then s
      else s.(calls := s.calls[t := Call(n, Tick, |s.trace|, TickLoop)], trace := s.trace + [Start(t, n, Tick)])
    case BeginObserve(t, n, received, from, wall) =>
      if t in s.calls || n !in s.words || n !in s.newest || !Carries(s.trace, from, received) then s
      else if ExcessiveDrift(received, wall) then
        s.(newest := Read(s.newest, n, wall), trace := s.trace + [Reject(t, n)])
      else
        s.(calls := s.calls[t := Call(n, Observe, |s.trace|, ObserveLoop(wall, received, from))],
           newest := Read(s.newest, n, wall), trace := s.trace + [Start(t, n, Observe)])
    case Load(t, wall) =>
      if t !in s.calls || s.calls[t].node !in s.words || s.calls[t].node !in s.newest then s
      else
        var n := s.calls[t].node;
        (match s.calls[t].pc
         case TickLoop => SetPc(s, t, TickCas(wall, s.words[n])).(newest := Read(s.newest, n, wall))
         case ObserveLoop(w, received, from) => SetPc(s, t, ObserveCas(w, received, from, s.words[n]))
         case _ => s)
    case CompareExchange(t) =>
      if t !in s.calls || s.calls[t].node !in s.words then s
      else
        (match s.calls[t].pc
         case TickCas(wall, cur) =>
           var next := TickTarget(cur, wall);
           if next.None? then SetPc(s, t, TickLoop)
           else Swap(s, t, cur, next.value, None, false, TickLoop)
         case ObserveCas(wall, received, from, cur) =>
           Swap(s, t, cur, ObserveTarget(cur, received, wall), from, Saturates(cur, received, wall),
                ObserveLoop(wall, received, from))
         case _ => s)
    case Finish(t) =>
      if t !in s.calls || !s.calls[t].pc.Returning? then s
      else
        var c := s.calls[t];
        s.(calls := s.calls - {t},
           trace := s.trace + [Return(t, c.node, c.kind, c.pc.value, c.startAt, c.pc.commitAt)])
  }

  function Run(s: State, actions: seq<Action>): State
    decreases |actions|
  {
    if actions == [] then s else Step(Run(s, actions[..|actions| - 1]), actions[|actions| - 1])
  }

  // ---- what every step keeps --------------------------------------------------------------

  predicate Strict(e: Event)
    requires e.Commit?
  {
    e.kind == Tick || !e.saturated
  }

  /** Two commits, earlier and later. */
  predicate InOrder(e: Event, later: Event)
    requires e.Commit? && later.Commit?
  {
    e.value <= later.value && (Strict(later) ==> e.value < later.value)
  }

  ghost predicate CommitsInOrder(trace: seq<Event>) {
    forall i, j :: 0 <= i < j < |trace| && trace[i].Commit? && trace[j].Commit? && trace[i].node == trace[j].node
      ==> InOrder(trace[i], trace[j])
  }

  ghost predicate MessagesInOrder(trace: seq<Event>) {
    forall j :: 0 <= j < |trace| && trace[j].Commit? && trace[j].from.Some? ==>
      trace[j].from.value < j && trace[trace[j].from.value].Commit? && InOrder(trace[trace[j].from.value], trace[j])
  }

  ghost predicate WordsBoundCommits(s: State) {
    forall i :: 0 <= i < |s.trace| && s.trace[i].Commit? ==>
      s.trace[i].node in s.words && s.trace[i].value <= s.words[s.trace[i].node]
  }

  ghost predicate IsCommitOf(trace: seq<Event>, i: nat, node: nat, kind: Kind, value: u64) {
    i < |trace| && trace[i].Commit? && trace[i].node == node && trace[i].kind == kind && trace[i].value == value
  }

  ghost predicate ReturnsMatch(trace: seq<Event>) {
    && (forall i :: 0 <= i < |trace| && trace[i].Return? ==>
          trace[i].startAt < trace[i].commitAt < i
          && IsCommitOf(trace, trace[i].commitAt, trace[i].node, trace[i].kind, trace[i].value))
    && (forall i, j :: 0 <= i < j < |trace| && trace[i].Return? && trace[j].Return? ==>
          trace[i].commitAt != trace[j].commitAt)
  }

  ghost predicate CallOk(s: State, t: nat)
    requires t in s.calls
  {
    var c := s.calls[t];
    && c.node in s.words && c.node in s.newest && c.startAt < |s.trace|
    && match c.pc {
         case TickLoop => c.kind == Tick
         case TickCas(wall, cur) => c.kind == Tick && wall <= s.newest[c.node]
         case ObserveLoop(wall, received, from) =>
           && c.kind == Observe && wall <= s.newest[c.node] && Carries(s.trace, from, received)
           && !ExcessiveDrift(received, wall)
         case ObserveCas(wall, received, from, cur) =>
           && c.kind == Observe && wall <= s.newest[c.node] && Carries(s.trace, from, received)
           && !ExcessiveDrift(received, wall)
         case Returning(value, commitAt) =>
           && c.startAt < commitAt && IsCommitOf(s.trace, commitAt, c.node, c.kind, value)
           && (forall i :: 0 <= i < |s.trace| && s.trace[i].Return? ==> s.trace[i].commitAt != commitAt)
       }
  }

  predicate DistinctCommits(a: Pc, b: Pc) {
    a.Returning? && b.Returning? ==> a.commitAt != b.commitAt
  }

  ghost predicate CallsOk(s: State) {
    && (forall t :: t in s.calls ==> CallOk(s, t))
    && (forall t, u | t in s.calls && u in s.calls && t != u :: DistinctCommits(s.calls[t].pc, s.calls[u].pc))
  }

  ghost predicate DriftBounded(s: State) {
    && s.newest.Keys == s.words.Keys
    && (forall n :: n in s.words ==> PhysicalMs(s.words[n]) <= s.newest[n] + MAX_DRIFT_MS)
  }

  ghost predicate Inv(s: State) {
    && CommitsInOrder(s.trace) && MessagesInOrder(s.trace) && WordsBoundCommits(s)
    && ReturnsMatch(s.trace) && CallsOk(s) && DriftBounded(s)
  }

  lemma InitialInv(s: State)
    requires Initial(s)
    ensures Inv(s)
  {
    forall n | n in s.words ensures PhysicalMs(s.words[n]) <= s.newest[n] + MAX_DRIFT_MS {
      FromPartsTruncates(s.newest[n], 0);
    }
  }

  /** What `tick` installs is above the word it replaces and not ahead of the readings. */
  lemma TickTargetOk(cur: u64, wall: wallMs)
    requires TickTarget(cur, wall).Some?
    ensures TickTarget(cur, wall).value > cur
    ensures PhysicalMs(TickTarget(cur, wall).value) <= Max(PhysicalMs(cur), wall)
  {
    TickAdvancesExactly(cur, wall);
    FromPartsFits(wall, 0);
    if wall <= PhysicalMs(cur) {
      FromPartsFits(PhysicalMs(cur), Logical(cur) + 1);
    }
  }

  lemma AppendNonCommit(s: State, e: Event)
    requires Inv(s) && !e.Commit?
    ensures CommitsInOrder(s.trace + [e]) && MessagesInOrder(s.trace + [e])
    ensures WordsBoundCommits(s.(trace := s.trace + [e]))
  {
  }

  lemma AppendNonReturn(trace: seq<Event>, e: Event)
    requires ReturnsMatch(trace) && !e.Return?
    ensures ReturnsMatch(trace + [e])
  {
  }

  lemma AppendCommit(s: State, e: Event)
    requires Inv(s) && e.Commit? && e.node in s.words
    requires s.words[e.node] <= e.value && (Strict(e) ==> s.words[e.node] < e.value)
    requires e.from.Some? ==> e.from.value < |s.trace| && s.trace[e.from.value].Commit?
    requires e.from.Some? ==> InOrder(s.trace[e.from.value], e)
    ensures CommitsInOrder(s.trace + [e]) && MessagesInOrder(s.trace + [e])
    ensures WordsBoundCommits(s.(words := s.words[e.node := e.value], trace := s.trace + [e]))
  {
    var trace := s.trace + [e];
    assert forall i :: 0 <= i < |s.trace| ==> trace[i] == s.trace[i];
  }

  lemma AppendReturn(trace: seq<Event>, e: Event)
    requires ReturnsMatch(trace) && e.Return? && e.startAt < e.commitAt
    requires IsCommitOf(trace, e.commitAt, e.node, e.kind, e.value)
    requires forall i :: 0 <= i < |trace| && trace[i].Return? ==> trace[i].commitAt != e.commitAt
    ensures ReturnsMatch(trace + [e])
  {
    var trace' := trace + [e];
    assert forall i :: 0 <= i < |trace| ==> trace'[i] == trace[i];
  }

  ghost predicate Extends(s: State, s': State) {
    && s.trace <= s'.trace
    && s'.words.Keys == s.words.Keys && s'.newest.Keys == s.newest.Keys
    && (forall n :: n in s.newest ==> s.newest[n] <= s'.newest[n])
  }

  lemma CallKept(s: State, s': State, t: nat)
    requires t in s.calls && CallOk(s, t) && t in s'.calls && s'.calls[t] == s.calls[t] && Extends(s, s')
    requires s.calls[t].pc.Returning? ==>
               forall i :: |s.trace| <= i < |s'.trace| && s'.trace[i].Return? ==>
                 s'.trace[i].commitAt != s.calls[t].pc.commitAt
    ensures CallOk(s', t)
  {
    assert forall i :: 0 <= i < |s.trace| ==> s'.trace[i] == s.trace[i];
  }

  lemma RetryInv(s: State, t: nat, pc: Pc)
    requires Inv(s) && t in s.calls && !pc.Returning? && CallOk(SetPc(s, t, pc), t)
    ensures Inv(SetPc(s, t, pc))
  {
    var s' := SetPc(s, t, pc);
    forall u | u in s'.calls ensures CallOk(s', u) {
      if u != t { CallKept(s, s', u); }
    }
  }

  /** The state after thread `t` commits `e`. */
  function Committed(s: State, t: nat, e: Event): State
    requires t in s.calls && e.Commit?
  {
    SetPc(s, t, Returning(e.value, |s.trace|)).(
      words := s.words[e.node := e.value], trace := s.trace + [e])
  }

  lemma CommitCalls(s: State, t: nat, e: Event)
    requires Inv(s) && t in s.calls && !s.calls[t].pc.Returning?
    requires e.Commit? && e.node == s.calls[t].node && e.kind == s.calls[t].kind && e.node in s.words
    ensures CallsOk(Committed(s, t, e))
  {
    var s' := Committed(s, t, e);
    assert CallOk(s, t);
    forall u | u in s'.calls ensures CallOk(s', u) {
      if u != t { CallKept(s, s', u); }
    }
    forall u | u in s.calls && u != t ensures DistinctCommits(s.calls[u].pc, s'.calls[t].pc) {
      assert CallOk(s, u);
    }
  }

  lemma CommitInv(s: State, t: nat, e: Event)
    requires Inv(s) && t in s.calls && !s.calls[t].pc.Returning?
    requires e.Commit? && e.node == s.calls[t].node && e.kind == s.calls[t].kind && e.node in s.words
    requires s.words[e.node] <= e.value && (Strict(e) ==> s.words[e.node] < e.value)
    requires e.node in s.newest
    requires PhysicalMs(e.value) <= Max(PhysicalMs(s.words[e.node]), s.newest[e.node] + MAX_DRIFT_MS)
    requires e.from.Some? ==> e.from.value < |s.trace| && s.trace[e.from.value].Commit?
    requires e.from.Some? ==> InOrder(s.trace[e.from.value], e)
    ensures Inv(Committed(s, t, e))
  {
    AppendCommit(s, e);
    AppendNonReturn(s.trace, e);
    CommitCalls(s, t, e);
  }

  lemma ExchangeInv(s: State, t: nat)
    requires Inv(s)
    ensures Inv(Step(s, CompareExchange(t)))
  {
    if t in s.calls {
      assert CallOk(s, t);
      var c := s.calls[t];
      match c.pc
      case TickCas(wall, cur) =>
        var next := TickTarget(cur, wall);
        if next.None? || s.words[c.node] != cur {
          RetryInv(s, t, TickLoop);
        } else {
          TickTargetOk(cur, wall);
          CommitInv(s, t, Commit(t, c.node, c.kind, next.value, None, false));
        }
      case ObserveCas(wall, received, from, cur) =>
        if s.words[c.node] != cur {
          RetryInv(s, t, ObserveLoop(wall, received, from));
        } else {
          ObserveAdvancesExactly(cur, received, wall);
          CommitInv(s, t, Commit(t, c.node, c.kind, ObserveTarget(cur, received, wall), from,
                                 Saturates(cur, received, wall)));
        }
      case _ =>
    }
  }

  lemma FinishInv(s: State, t: nat)
    requires Inv(s)
    ensures Inv(Step(s, Finish(t)))
  {
    if t in s.calls && s.calls[t].pc.Returning? {
      assert CallOk(s, t);
      var c := s.calls[t];
      var e := Return(t, c.node, c.kind, c.pc.value, c.startAt, c.pc.commitAt);
      var s' := Step(s, Finish(t));
      AppendNonCommit(s, e);
      AppendReturn(s.trace, e);
      assert s'.trace == s.trace + [e];
      forall u | u in s'.calls ensures CallOk(s', u) {
        CallKept(s, s', u);
      }
    }
  }

  lemma BeginTickInv(s: State, t: nat, n: nat)
    requires Inv(s)
    ensures Inv(Step(s, BeginTick(t, n)))
  {
    var s' := Step(s, BeginTick(t, n));
    if t !in s.calls && n in s.words {
      AppendNonCommit(s, Start(t, n, Tick));
      AppendNonReturn(s.trace, Start(t, n, Tick));
      forall u | u in s'.calls ensures CallOk(s', u) {
        if u != t { CallKept(s, s', u); }
      }
    }
  }

  lemma RejectInv(s: State, t: nat, n: nat, wall: wallMs)
    requires Inv(s) && n in s.newest
    ensures Inv(s.(newest := Read(s.newest, n, wall), trace := s.trace + [Reject(t, n)]))
  {
    var s' := s.(newest := Read(s.newest, n, wall), trace := s.trace + [Reject(t, n)]);
    AppendNonCommit(s, Reject(t, n));
    AppendNonReturn(s.trace, Reject(t, n));
    forall u | u in s'.calls ensures CallOk(s', u) {
      CallKept(s, s', u);
    }
  }

  lemma BeginObserveInv(s: State, t: nat, n: nat, received: u64, from: Option<nat>, wall: wallMs)
    requires Inv(s)
    ensures Inv(Step(s, BeginObserve(t, n, received, from, wall)))
  {
    if t in s.calls || n !in s.words || !Carries(s.trace, from, received) {
    } else if ExcessiveDrift(received, wall) {
      RejectInv(s, t, n, wall);
    } else {
      AppendNonCommit(s, Start(t, n, Observe));
      AppendNonReturn(s.trace, Start(t, n, Observe));
      BegunCalls(s, t, n, received, from, wall);
    }
  }

  lemma BegunCalls(s: State, t: nat, n: nat, received: u64, from: Option<nat>, wall: wallMs)
    requires Inv(s) && t !in s.calls && n in s.words && n in s.newest && Carries(s.trace, from, received)
    requires !ExcessiveDrift(received, wall)
    ensures CallsOk(Step(s, BeginObserve(t, n, received, from, wall)))
  {
    var s' := Step(s, BeginObserve(t, n, received, from, wall));
    assert Carries(s'.trace, from, received);
    forall u | u in s'.calls ensures CallOk(s', u) {
      if u != t { CallKept(s, s', u); }
    }
  }

  lemma LoadInv(s: State, t: nat, wall: wallMs)
    requires Inv(s)
    ensures Inv(Step(s, Load(t, wall)))
  {
    var s' := Step(s, Load(t, wall));
    if t in s.calls {
      assert CallOk(s, t);
    }
    forall u | u in s'.calls ensures CallOk(s', u) {
      if u != t { CallKept(s, s', u); }
    }
  }

  lemma StepInv(s: State, a: Action)
    requires Inv(s)
    ensures Inv(Step(s, a))
  {
    match a
    case CompareExchange(t) => ExchangeInv(s, t);
    case Finish(t) => FinishInv(s, t);
    case Load(t, wall) => LoadInv(s, t, wall);
    case BeginTick(t, n) => BeginTickInv(s, t, n);
    case BeginObserve(t, n, received, from, wall) => BeginObserveInv(s, t, n, received, from, wall);
  }

  lemma {:induction false} RunInv(s: State, actions: seq<Action>)
    requires Initial(s)
    ensures Inv(Run(s, actions))
    decreases |actions|
  {
    if actions == [] {
      InitialInv(s);
    } else {
      RunInv(s, actions[..|actions| - 1]);
      StepInv(Run(s, actions[..|actions| - 1]), actions[|actions| - 1]);
    }
  }

  // ---- what the clock promises ------------------------------------------------------------

  /** No step takes back a word or an event, and a commit is above the word it replaces. */
  ghost predicate Grows(s: State, s': State) {
    && s.trace <= s'.trace && |s'.trace| <= |s.trace| + 1 && s'.words.Keys == s.words.Keys
    && (forall n :: n in s.words ==> s.words[n] <= s'.words[n])
    && (|s'.trace| > |s.trace| && s'.trace[|s.trace|].Commit? ==>
          var e := s'.trace[|s.trace|];
          e.node in s.words && s.words[e.node] <= e.value && (Strict(e) ==> s.words[e.node] < e.value))
  }

  lemma SwapGrows(s: State, t: nat, cur: u64, next: u64, from: Option<nat>, saturated: bool, retry: Pc)
    requires t in s.calls && s.calls[t].node in s.words && cur <= next
    requires s.calls[t].kind == Tick || !saturated ==> cur < next
    ensures Grows(s, Swap(s, t, cur, next, from, saturated, retry))
  {
  }

  lemma ExchangeGrows(s: State, t: nat)
    requires Inv(s)
    ensures Grows(s, Step(s, CompareExchange(t)))
  {
    if t in s.calls && s.calls[t].node in s.words {
      assert CallOk(s, t);
      match s.calls[t].pc
      case TickCas(wall, cur) =>
        if TickTarget(cur, wall).Some? {
          TickTargetOk(cur, wall);
          SwapGrows(s, t, cur, TickTarget(cur, wall).value, None, false, TickLoop);
        }
      case ObserveCas(wall, received, from, cur) =>
        ObserveAdvancesExactly(cur, received, wall);
        SwapGrows(s, t, cur, ObserveTarget(cur, received, wall), from, Saturates(cur, received, wall),
                  ObserveLoop(wall, received, from));
      case _ =>
    }
  }

  lemma StepGrows(s: State, a: Action)
    requires Inv(s)
    ensures Grows(s, Step(s, a))
  {
    if a.CompareExchange? {
      ExchangeGrows(s, a.thread);
    }
  }

  /** The word of node `n` has not gone down, and every commit since is above what `now` would have read. */
  ghost predicate NotBehind(before: State, after: State, n: nat) {
    && before.trace <= after.trace
    && n in before.words && n in after.words && before.words[n] <= after.words[n]
    && (forall i :: |before.trace| <= i < |after.trace| && after.trace[i].Commit? && after.trace[i].node == n ==>
          && before.words[n] <= after.trace[i].value
          && (Strict(after.trace[i]) ==> before.words[n] < after.trace[i].value))
  }

  lemma NotBehindStep(before: State, s: State, a: Action, n: nat)
    requires NotBehind(before, s, n) && Inv(s)
    ensures NotBehind(before, Step(s, a), n)
  {
    StepGrows(s, a);
    NotBehindGrown(before, s, Step(s, a), n);
  }

  lemma NotBehindGrown(before: State, s: State, s': State, n: nat)
    requires NotBehind(before, s, n) && Grows(s, s')
    ensures NotBehind(before, s', n)
  {
    assert forall i :: 0 <= i < |s.trace| ==> s'.trace[i] == s.trace[i];
  }

  lemma {:induction false} NotBehindRun(before: State, s: State, actions: seq<Action>, a: Action, n: nat)
    requires Initial(s) && NotBehind(before, Run(s, actions), n)
    ensures NotBehind(before, Run(s, actions + [a]), n)
  {
    RunInv(s, actions);
    assert (actions + [a])[..|actions|] == actions;
    NotBehindStep(before, Run(s, actions), a, n);
  }

  lemma {:induction false} ClockNeverGoesBack(s: State, actions: seq<Action>, more: seq<Action>, n: nat)
    requires Initial(s) && n in s.words
    ensures NotBehind(Run(s, actions), Run(s, actions + more), n)
    decreases |more|
  {
    if more == [] {
      assert actions + more == actions;
      RunKeepsNodes(s, actions);
    } else {
      var last := |more| - 1;
      ClockNeverGoesBack(s, actions, more[..last], n);
      assert actions + more == (actions + more[..last]) + [more[last]];
      NotBehindRun(Run(s, actions), s, actions + more[..last], more[last], n);
    }
  }

  lemma {:induction false} RunKeepsNodes(s: State, actions: seq<Action>)
    requires Initial(s)
    ensures Run(s, actions).words.Keys == s.words.Keys
    decreases |actions|
  {
    if actions != [] {
      RunKeepsNodes(s, actions[..|actions| - 1]);
      var before := Run(s, actions[..|actions| - 1]);
      RunInv(s, actions[..|actions| - 1]);
      StepGrows(before, actions[|actions| - 1]);
    }
  }

  lemma ReturnedTicksDiffer(s: State, i: nat, j: nat)
    requires Inv(s) && i < j < |s.trace| && s.trace[i].Return? && s.trace[j].Return?
    requires s.trace[i].kind == Tick && s.trace[j].kind == Tick && s.trace[i].node == s.trace[j].node
    ensures s.trace[i].value != s.trace[j].value
  {
    var trace := s.trace;
    var a, b := trace[i].commitAt, trace[j].commitAt;
    assert IsCommitOf(trace, a, trace[i].node, Tick, trace[i].value);
    assert IsCommitOf(trace, b, trace[j].node, Tick, trace[j].value);
    assert a < b ==> InOrder(trace[a], trace[b]);
    assert b < a ==> InOrder(trace[b], trace[a]);
  }

  /** No two ticks of a node ever return the same timestamp. */
  lemma TicksAreDistinct(s: State, actions: seq<Action>, i: nat, j: nat)
    requires Initial(s)
    requires var trace := Run(s, actions).trace;
      && i < j < |trace| && trace[i].Return? && trace[j].Return?
      && trace[i].kind == Tick && trace[j].kind == Tick && trace[i].node == trace[j].node
    ensures Run(s, actions).trace[i].value != Run(s, actions).trace[j].value
  {
    RunInv(s, actions);
    ReturnedTicksDiffer(Run(s, actions), i, j);
  }

  /** A call that starts after another returned never returns less, and a tick returns strictly more. */
  lemma RealTimeOrder(s: State, actions: seq<Action>, i: nat, j: nat)
    requires Initial(s)
    requires var trace := Run(s, actions).trace;
      && i < |trace| && j < |trace| && trace[i].Return? && trace[j].Return?
      && trace[i].node == trace[j].node && i < trace[j].startAt
    ensures var trace := Run(s, actions).trace;
      && trace[i].value <= trace[j].value
      && (trace[j].kind == Tick ==> trace[i].value < trace[j].value)
  {
    RunInv(s, actions);
    var trace := Run(s, actions).trace;
    assert IsCommitOf(trace, trace[i].commitAt, trace[i].node, trace[i].kind, trace[i].value);
    assert IsCommitOf(trace, trace[j].commitAt, trace[j].node, trace[j].kind, trace[j].value);
    assert InOrder(trace[trace[i].commitAt], trace[trace[j].commitAt]);
  }

  /** A timestamp rejected for drift leaves every word and every call as it was. */
  lemma DriftRejectionChangesNothing(s: State, t: nat, n: nat, received: u64, from: Option<nat>, wall: wallMs)
    requires Inv(s) && t !in s.calls && n in s.words && Carries(s.trace, from, received)
    ensures var s' := Step(s, BeginObserve(t, n, received, from, wall));
      PhysicalMs(received) > wall + 60_000 <==>
      s'.words == s.words && s'.calls == s.calls && s'.trace == s.trace + [Reject(t, n)]
  {
    assert s.trace + [Start(t, n, Observe)] != s.trace + [Reject(t, n)] by {
      assert (s.trace + [Start(t, n, Observe)])[|s.trace|] != (s.trace + [Reject(t, n)])[|s.trace|];
    }
  }

  /** No clock runs further ahead of the largest wall reading of its node than the drift limit. */
  lemma DriftIsBounded(s: State, actions: seq<Action>, i: nat)
    requires Initial(s)
    requires i < |Run(s, actions).trace| && Run(s, actions).trace[i].Commit?
    ensures var r := Run(s, actions); var e := r.trace[i];
      e.node in r.newest && PhysicalMs(e.value) <= r.newest[e.node] + MAX_DRIFT_MS
  {
    RunInv(s, actions);
    var r := Run(s, actions);
    assert r.trace[i].value <= r.words[r.trace[i].node];
  }

  /** The ticks a node issued within one physical millisecond, in order. */
  function TicksWithin(trace: seq<Event>, node: nat, ms: nat): seq<u64> {
    if trace == [] then []
    else
      var e := trace[|trace| - 1];
      TicksWithin(trace[..|trace| - 1], node, ms)
      + if e.Commit? && e.node == node && e.kind == Tick && PhysicalMs(e.value) == ms then [e.value] else []
  }

  ghost predicate Issued(trace: seq<Event>, node: nat, value: u64) {
    exists k :: 0 <= k < |trace| && trace[k].Commit? && trace[k].node == node && trace[k].value == value
  }

  ghost predicate Increasing(v: seq<u64>) {
    forall i, j :: 0 <= i < j < |v| ==> v[i] < v[j]
  }

  lemma {:induction false} TicksWithinIncrease(trace: seq<Event>, node: nat, ms: nat)
    requires CommitsInOrder(trace)
    ensures Increasing(TicksWithin(trace, node, ms))
    ensures forall x | x in TicksWithin(trace, node, ms) :: PhysicalMs(x) == ms && Issued(trace, node, x)
    decreases |trace|
  {
    if trace != [] {
      var shorter := trace[..|trace| - 1];
      var e := trace[|trace| - 1];
      TicksWithinIncrease(shorter, node, ms);
      var v := TicksWithin(shorter, node, ms);
      forall x | x in v ensures Issued(trace, node, x) {
        assert Issued(shorter, node, x);
        var k :| 0 <= k < |shorter| && shorter[k].Commit? && shorter[k].node == node && shorter[k].value == x;
        assert trace[k] == shorter[k];
      }
      if e.Commit? && e.node == node && e.kind == Tick && PhysicalMs(e.value) == ms {
        assert Issued(trace, node, e.value);
        forall x | x in v ensures x < e.value {
          assert Issued(shorter, node, x);
          var k :| 0 <= k < |shorter| && shorter[k].Commit? && shorter[k].node == node && shorter[k].value == x;
          assert InOrder(trace[k], trace[|trace| - 1]);
        }
        assert TicksWithin(trace, node, ms) == v + [e.value];
        assert forall i :: 0 <= i < |v| ==> v[i] in v;
      } else {
        assert TicksWithin(trace, node, ms) == v;
      }
    }
  }

  lemma {:induction false} IncreasingSpread(v: seq<u64>)
    requires v != [] && Increasing(v)
    ensures v[|v| - 1] - v[0] >= |v| - 1
  {
    if |v| > 1 {
      IncreasingSpread(v[..|v| - 1]);
    }
  }

  /** At most 65536 ticks share a physical millisecond, whatever the readings do. */
  lemma TicksPerMillisecond(s: State, actions: seq<Action>, node: nat, ms: nat)
    requires Initial(s)
    ensures |TicksWithin(Run(s, actions).trace, node, ms)| <= 0x1_0000
  {
    RunInv(s, actions);
    var v := TicksWithin(Run(s, actions).trace, node, ms);
    TicksWithinIncrease(Run(s, actions).trace, node, ms);
    if v != [] {
      IncreasingSpread(v);
      assert v[0] in v && v[|v| - 1] in v;
      PackedParts(v[0]);
      PackedParts(v[|v| - 1]);
    }
  }

  /** One step of happens-before: the order of a node, or a message received. */
  predicate Precedes(trace: seq<Event>, i: nat, j: nat) {
    && i < |trace| && j < |trace| && trace[i].Commit? && trace[j].Commit?
    && ((i < j && trace[i].node == trace[j].node) || trace[j].from == Some(i))
  }

  /** `path` leads from one commit to another along happens-before steps. */
  predicate HappensBefore(trace: seq<Event>, path: seq<nat>) {
    |path| >= 2 && forall k :: 0 <= k < |path| - 1 ==> Precedes(trace, path[k], path[k + 1])
  }

  lemma PrecedesInOrder(trace: seq<Event>, i: nat, j: nat)
    requires CommitsInOrder(trace) && MessagesInOrder(trace) && Precedes(trace, i, j)
    ensures InOrder(trace[i], trace[j])
  {
  }

  lemma {:induction false} NeverFalls(trace: seq<Event>, path: seq<nat>, a: nat, b: nat)
    requires CommitsInOrder(trace) && MessagesInOrder(trace) && HappensBefore(trace, path) && a <= b < |path|
    ensures OnPath(trace, path, a) && OnPath(trace, path, b)
    ensures trace[path[a]].value <= trace[path[b]].value
  {
    PathCommits(trace, path, a);
    PathCommits(trace, path, b);
    if a < b {
      NeverFalls(trace, path, a, b - 1);
      assert Precedes(trace, path[b - 1], path[b - 1 + 1]);
      PrecedesInOrder(trace, path[b - 1], path[b]);
    }
  }

  ghost predicate OnPath(trace: seq<Event>, path: seq<nat>, k: nat)
    requires k < |path|
  {
    path[k] < |trace| && trace[path[k]].Commit?
  }

  lemma PathCommits(trace: seq<Event>, path: seq<nat>, k: nat)
    requires HappensBefore(trace, path) && k < |path|
    ensures OnPath(trace, path, k)
  {
    if k == 0 {
      assert Precedes(trace, path[0], path[0 + 1]);
    } else {
      assert Precedes(trace, path[k - 1], path[k - 1 + 1]);
    }
  }

  /** Across nodes, happens-before never lowers a timestamp, saturated or not. */
  lemma HappensBeforeNeverFalls(s: State, actions: seq<Action>, path: seq<nat>)
    requires Initial(s) && HappensBefore(Run(s, actions).trace, path)
    ensures var trace, last := Run(s, actions).trace, |path| - 1;
            && OnPath(trace, path, 0) && OnPath(trace, path, last)
            && trace[path[0]].value <= trace[path[last]].value
  {
    RunInv(s, actions);
    NeverFalls(Run(s, actions).trace, path, 0, |path| - 1);
  }

  /**
   * It raises the timestamp strictly as soon as one commit after the first is a tick or an observe that did not
   * saturate.
   */
  lemma HappensBeforeIsOrdered(s: State, actions: seq<Action>, path: seq<nat>, k: nat)
    requires Initial(s) && HappensBefore(Run(s, actions).trace, path) && 0 < k < |path|
    requires OnPath(Run(s, actions).trace, path, k) ==> Strict(Run(s, actions).trace[path[k]])
    ensures var trace, last := Run(s, actions).trace, |path| - 1;
            && OnPath(trace, path, 0) && OnPath(trace, path, last)
            && trace[path[0]].value < trace[path[last]].value
  {
    RunInv(s, actions);
    RisesAt(Run(s, actions).trace, path, k);
  }

  lemma RisesAt(trace: seq<Event>, path: seq<nat>, k: nat)
    requires CommitsInOrder(trace) && MessagesInOrder(trace) && HappensBefore(trace, path) && 0 < k < |path|
    requires OnPath(trace, path, k) ==> Strict(trace[path[k]])
    ensures OnPath(trace, path, 0) && OnPath(trace, path, |path| - 1)
    ensures trace[path[0]].value < trace[path[|path| - 1]].value
  {
    NeverFalls(trace, path, 0, k - 1);
    NeverFalls(trace, path, k, |path| - 1);
    assert Precedes(trace, path[k - 1], path[k - 1 + 1]);
    PrecedesInOrder(trace, path[k - 1], path[k]);
  }
}
