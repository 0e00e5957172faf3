/** Dumping a namespace and replaying the dump through the idempotency cache. */
module Restore {
  import opened Base
  import opened Lists
  import opened StableSort
  import opened Ledger
  import opened Store
  import opened StoreRuns
  import opened Reads
  import opened Writes
  import opened Retention
  import opened MemoryStore
  import opened Generators
  import Data = Db

  /** A line of the body: blank once trimmed, not a fact, or a fact. */
  datatype Line = Blank | Bad | Parsed(fact: Fact)

  datatype Restored = Restored(w: Data.Session, imported: nat, skipped: nat)

  function OptsOf(f: Fact): Data.RecordOpts {
    Data.RecordOpts(f.author, Some("restore"), Some(f.validFrom), f.validTo, None, Some(f.id))
  }

  function RecordLine(w: Data.Session, src: Sources, namespace: string, f: Fact, now: int):
    (Data.Session, Result<RecordResult, Error>)
  {
    Data.RecordIn(w, src, namespace, f.entity, f.attr, f.value, f.branch, OptsOf(f), now)
  }

  function RestoreLine(r: Restored, src: Sources, namespace: string, line: Line, now: int): Restored {
    match line
    case Blank => r
    case Bad => r.(skipped := r.skipped + 1)
    case Parsed(f) =>
      var (after, stored) := RecordLine(r.w, src, namespace, f, now);
      if stored.Ok? && !stored.value.wasDuplicate then Restored(after, r.imported + 1, r.skipped)
      else Restored(after, r.imported, r.skipped + 1)
  }

  /** After the first `i` lines. */
  function RestoreTo(w: Data.Session, src: Sources, namespace: string, lines: seq<Line>, nows: nat -> int, i: nat):
    Restored
    requires i <= |lines|
  {
    if i == 0 then Restored(w, 0, 0)
    else RestoreLine(RestoreTo(w, src, namespace, lines, nows, i - 1), src, namespace, lines[i - 1], nows(i - 1))
  }

  function RestoreAll(w: Data.Session, src: Sources, namespace: string, lines: seq<Line>, nows: nat -> int):
    Restored
  {
    RestoreTo(w, src, namespace, lines, nows, |lines|)
  }

  /** Replays the lines in order; a line that cannot be recorded is skipped. */
  method RestoreNamespace(db: Data.Db, namespace: string, lines: seq<Line>, nows: nat -> int)
    returns (imported: nat, skipped: nat)
    modifies db, db.store
    ensures Restored(db.Now(), imported, skipped) == RestoreAll(old(db.Now()), db.src, namespace, lines, nows)
  {
    imported, skipped := 0, 0;
    for i := 0 to |lines|
      invariant Restored(db.Now(), imported, skipped) == RestoreTo(old(db.Now()), db.src, namespace, lines, nows, i)
    {
      match lines[i] {
        case Blank =>
        case Bad => skipped := skipped + 1;
        case Parsed(f) =>
          var r := db.Record(namespace, f.entity, f.attr, f.value, f.branch, OptsOf(f), nows(i));
          if r.Ok? && !r.value.wasDuplicate {
            imported := imported + 1;
          } else {
            skipped := skipped + 1;
          }
      }
    }
  }

  predicate NotBlank(line: Line) {
    !line.Blank?
  }

  // ---- one pass ----------------------------------------------------------------------------

  /** A line either records one fact, or leaves the store as it was. */
  lemma LineRecordsOne(w: Data.Session, src: Sources, namespace: string, f: Fact, now: int)
    ensures var (after, stored) := RecordLine(w, src, namespace, f, now);
            if stored.Ok? && !stored.value.wasDuplicate then
              && after.ticked == w.ticked + 1 && after.named == w.named + 1
              && after.s.facts == w.s.facts + [RestoredFact(src, namespace, f, w.ticked, w.named)]
            else after.s == w.s
  {
  }

  /** The imported fact's transaction is new, its own, and says where it came from. */
  lemma ImportIsSigned(w: Data.Session, src: Sources, namespace: string, f: Fact, now: int)
    requires forall t | t in w.s.transactions :: t.id != src.txIds(w.ticked)
    requires var stored := RecordLine(w, src, namespace, f, now).1; stored.Ok? && !stored.value.wasDuplicate
    ensures var before, after := w.s.transactions, RecordLine(w, src, namespace, f, now).0.s.transactions;
            && |after| == |before| + 1 && before <= after
            && IsTransaction(after[|before|], src.txIds(w.ticked), namespace, f.branch, src.ticks(w.ticked), f.author,
                             Some("restore"), None)
  {
    var p := Data.ParamsOf(namespace, f.entity, f.attr, f.value, f.branch, OptsOf(f), now, src.ticks(w.ticked),
                           src.txIds(w.ticked));
    var i := RecordIsCounted(w.s.transactions, p);
    assert forall j :: 0 <= j < |w.s.transactions| ==> w.s.transactions[j] in w.s.transactions;
  }

  /** What a line is restored as: a live fact with a new id, stamped now. */
  function RestoredFact(src: Sources, namespace: string, f: Fact, ticked: nat, named: nat): Fact {
    Fact(src.factIds(named), namespace, f.entity, f.attr, f.value, f.validFrom, f.validTo, src.txIds(ticked),
         src.ticks(ticked), f.branch, f.author, false, None)
  }

  lemma {:induction false} CountsTo(w: Data.Session, src: Sources, namespace: string, lines: seq<Line>,
                                    nows: nat -> int, i: nat)
    requires i <= |lines|
    ensures var r := RestoreTo(w, src, namespace, lines, nows, i);
            && r.imported + r.skipped == |Filter(NotBlank, lines[..i])|
            && w.s.facts <= r.w.s.facts && |r.w.s.facts| == |w.s.facts| + r.imported
  {
    if i > 0 {
      CountsTo(w, src, namespace, lines, nows, i - 1);
      assert lines[..i] == lines[..i - 1] + [lines[i - 1]];
      FilterSnoc(NotBlank, lines[..i - 1], lines[i - 1]);
      if lines[i - 1].Parsed? {
        var before := RestoreTo(w, src, namespace, lines, nows, i - 1);
        LineRecordsOne(before.w, src, namespace, lines[i - 1].fact, nows(i - 1));
      }
    }
  }

  /** Imported and skipped lines are the lines that are not blank; each imported line is one appended fact. */
  lemma RestoreCounts(w: Data.Session, src: Sources, namespace: string, lines: seq<Line>, nows: nat -> int)
    ensures var r := RestoreAll(w, src, namespace, lines, nows);
            && r.imported + r.skipped == |Filter(NotBlank, lines)|
            && w.s.facts <= r.w.s.facts && |r.w.s.facts| == |w.s.facts| + r.imported
  {
    CountsTo(w, src, namespace, lines, nows, |lines|);
    assert lines[..|lines|] == lines;
  }

  // ---- a second pass -----------------------------------------------------------------------

  /** The later store still has every namespace and idempotency key of the earlier one. */
  ghost predicate Remembers(later: State, earlier: State) {
    && (forall n :: n in earlier.namespaces ==> n in later.namespaces && later.namespaces[n] == earlier.namespaces[n])
    && (forall k :: k in earlier.idem ==> k in later.idem)
  }

  /** Recording the fact would change nothing: it is refused, or its key is taken. */
  ghost predicate Spent(s: State, namespace: string, f: Fact) {
    || (f.validTo.Some? && f.validTo.value <= f.validFrom)
    || !Data.SchemaAccepts(s, namespace, f.attr, f.value)
    || f.id in s.idem
  }

  lemma SpentStays(later: State, earlier: State, namespace: string, f: Fact)
    requires Remembers(later, earlier) && Spent(earlier, namespace, f)
    ensures Spent(later, namespace, f)
  {
  }

  lemma LineSpends(w: Data.Session, src: Sources, namespace: string, f: Fact, now: int)
    ensures var after := RecordLine(w, src, namespace, f, now).0.s;
            Spent(after, namespace, f) && Remembers(after, w.s)
  {
  }

  /** Once a pass has gone by, every fact of its lines is spent. */
  lemma {:induction false} PassSpends(w: Data.Session, src: Sources, namespace: string, lines: seq<Line>,
                                      nows: nat -> int, i: nat)
    requires i <= |lines|
    ensures var after := RestoreTo(w, src, namespace, lines, nows, i).w.s;
            forall j :: 0 <= j < i && lines[j].Parsed? ==> Spent(after, namespace, lines[j].fact)
  {
    if i > 0 {
      PassSpends(w, src, namespace, lines, nows, i - 1);
      var before := RestoreTo(w, src, namespace, lines, nows, i - 1);
      if lines[i - 1].Parsed? {
        LineSpends(before.w, src, namespace, lines[i - 1].fact, nows(i - 1));
        var after := RestoreTo(w, src, namespace, lines, nows, i).w.s;
        forall j | 0 <= j < i - 1 && lines[j].Parsed? ensures Spent(after, namespace, lines[j].fact) {
          SpentStays(after, before.w.s, namespace, lines[j].fact);
        }
      }
    }
  }

  lemma SpentLine(w: Data.Session, src: Sources, namespace: string, f: Fact, now: int)
    requires Spent(w.s, namespace, f)
    ensures var (after, stored) := RecordLine(w, src, namespace, f, now);
            after.s == w.s && (stored.Err? || stored.value.wasDuplicate)
  {
  }

  lemma {:induction false} SpentPass(w: Data.Session, src: Sources, namespace: string, lines: seq<Line>,
                                     nows: nat -> int, i: nat)
    requires i <= |lines| && forall j :: 0 <= j < |lines| && lines[j].Parsed? ==> Spent(w.s, namespace, lines[j].fact)
    ensures var r := RestoreTo(w, src, namespace, lines, nows, i);
            r.imported == 0 && r.w.s == w.s
  {
    if i > 0 {
      SpentPass(w, src, namespace, lines, nows, i - 1);
      if lines[i - 1].Parsed? {
        SpentLine(RestoreTo(w, src, namespace, lines, nows, i - 1).w, src, namespace, lines[i - 1].fact, nows(i - 1));
      }
    }
  }

  lemma StepRemembers(w: World, op: Op, ids: nat -> FactId, txs: nat -> TxId)
    ensures Remembers(Apply(w, op, ids, txs).store, w.store)
  {
    forall k | k in w.store.idem ensures k in Apply(w, op, ids, txs).store.idem {
      StepKeepsKeys(w, op, ids, txs, k);
    }
    StepKeepsNamespaces(w, op, ids, txs);
  }

  lemma {:induction false} RecordAllKeepsNamespaces(w: World, ps: seq<RecordParams>, tx: TxId, ids: nat -> FactId)
    ensures RecordAll(w, ps, tx, ids).store.namespaces == w.store.namespaces
  {
    if ps != [] {
      RecordAllKeepsNamespaces(w, ps[..|ps| - 1], tx, ids);
    }
  }

  lemma StepKeepsNamespaces(w: World, op: Op, ids: nat -> FactId, txs: nat -> TxId)
    ensures var after := Apply(w, op, ids, txs).store;
            forall n :: n in w.store.namespaces ==>
                          n in after.namespaces && after.namespaces[n] == w.store.namespaces[n]
  {
    if op.BulkOp? {
      RecordAllKeepsNamespaces(w.(nextTx := w.nextTx + 1), op.ps, txs(w.nextTx), ids);
    }
  }

  lemma {:induction false} RunRemembers(w: World, ops: seq<Op>, ids: nat -> FactId, txs: nat -> TxId)
    ensures Remembers(Run(w, ops, ids, txs).store, w.store)
  {
    if ops != [] {
      RunRemembers(w, ops[..|ops| - 1], ids, txs);
      StepRemembers(Run(w, ops[..|ops| - 1], ids, txs), ops[|ops| - 1], ids, txs);
    }
  }

  /**
   * Restoring a body again imports nothing and leaves the store as it is, whatever operations came in between:
   * even if the facts were retracted or collected, their keys stay taken.
   */
  lemma SecondRestoreImportsNothing(w: Data.Session, src: Sources, namespace: string, lines: seq<Line>,
                                    nows: nat -> int, nextId: nat, nextTx: nat, between: seq<Op>, ids: nat -> FactId,
                                    txs: nat -> TxId, src': Sources, ticked: nat, named: nat, nows': nat -> int)
    ensures var first := RestoreAll(w, src, namespace, lines, nows).w.s;
            var later := Run(World(first, nextId, nextTx), between, ids, txs).store;
            var r := RestoreAll(Data.Session(later, ticked, named), src', namespace, lines, nows');
            && r.imported == 0 && r.skipped == |Filter(NotBlank, lines)| && r.w.s == later
  {
    var first := RestoreAll(w, src, namespace, lines, nows).w.s;
    var later := Run(World(first, nextId, nextTx), between, ids, txs).store;
    PassSpends(w, src, namespace, lines, nows, |lines|);
    RunRemembers(World(first, nextId, nextTx), between, ids, txs);
    forall j | 0 <= j < |lines| && lines[j].Parsed? ensures Spent(later, namespace, lines[j].fact) {
      SpentStays(later, first, namespace, lines[j].fact);
    }
    SpentPass(Data.Session(later, ticked, named), src', namespace, lines, nows', |lines|);
    RestoreCounts(Data.Session(later, ticked, named), src', namespace, lines, nows');
  }

  // ---- which lines are imported ------------------------------------------------------------

  /** `record` takes the fact: its validity is not empty, and the schema accepts it. */
  predicate Recordable(s: State, namespace: string, f: Fact) {
    (f.validTo.Some? ==> f.validFrom < f.validTo.value) && Data.SchemaAccepts(s, namespace, f.attr, f.value)
  }

  /** The line uses a tick, and takes its key if that is free. */
  predicate Takes(s: State, namespace: string, line: Line) {
    line.Parsed? && Recordable(s, namespace, line.fact)
  }

  /** The number of ticks the first `i` lines use. */
  function Drawn(s: State, namespace: string, lines: seq<Line>, i: nat): nat
    requires i <= |lines|
  {
    if i == 0 then 0 else Drawn(s, namespace, lines, i - 1) + if Takes(s, namespace, lines[i - 1]) then 1 else 0
  }

  /** The line takes the key. */
  predicate TakesKey(s: State, namespace: string, line: Line, id: FactId) {
    Takes(s, namespace, line) && line.fact.id == id
  }

  /** An earlier line took the key. */
  predicate Seen(s: State, namespace: string, lines: seq<Line>, i: nat, id: FactId)
    requires i <= |lines|
  {
    exists j :: 0 <= j < i && TakesKey(s, namespace, lines[j], id)
  }

  /** The line is taken, and the first that is for its id, which the store has not seen either. */
  predicate Imported(s: State, namespace: string, lines: seq<Line>, i: nat)
    requires i < |lines|
  {
    && Takes(s, namespace, lines[i]) && lines[i].fact.id !in s.idem
    && !Seen(s, namespace, lines, i, lines[i].fact.id)
  }

  /** A fact to import, and the number of ticks used before it. */
  datatype Import = Import(fact: Fact, drawn: nat)

  function ImportsTo(s: State, namespace: string, lines: seq<Line>, i: nat): seq<Import>
    requires i <= |lines|
  {
    if i == 0 then []
    else if Imported(s, namespace, lines, i - 1) then
      ImportsTo(s, namespace, lines, i - 1) + [Import(lines[i - 1].fact, Drawn(s, namespace, lines, i - 1))]
    else ImportsTo(s, namespace, lines, i - 1)
  }

  /** What an import becomes. */
  function Stamp(w: Data.Session, src: Sources, namespace: string): Import -> Fact {
    (m: Import) => RestoredFact(src, namespace, m.fact, w.ticked + m.drawn, w.named + m.drawn)
  }

  /** After the first `i` lines exactly their imports are appended, in order, and exactly their keys are taken. */
  ghost predicate IsRestored(w: Data.Session, src: Sources, namespace: string, lines: seq<Line>, i: nat, r: Restored)
    requires i <= |lines|
  {
    && r.w.ticked == w.ticked + Drawn(w.s, namespace, lines, i)
    && r.w.named == w.named + Drawn(w.s, namespace, lines, i)
    && r.imported == |ImportsTo(w.s, namespace, lines, i)|
    && r.w.s.facts == w.s.facts + Map(Stamp(w, src, namespace), ImportsTo(w.s, namespace, lines, i))
    && r.w.s.namespaces == w.s.namespaces
    && (forall id :: id in r.w.s.idem <==> id in w.s.idem || Seen(w.s, namespace, lines, i, id))
  }

  /** One line: refused, a duplicate, or recorded under the next tick and id. */
  lemma LineTakes(w: Data.Session, src: Sources, namespace: string, f: Fact, now: int)
    ensures var (after, stored) := RecordLine(w, src, namespace, f, now);
            if !Recordable(w.s, namespace, f) then after == w && stored.Err?
            else
              && stored.Ok? && stored.value.wasDuplicate == (f.id in w.s.idem)
              && after.ticked == w.ticked + 1 && after.named == w.named + 1
              && after.s.namespaces == w.s.namespaces
              && (forall id :: id in after.s.idem <==> id in w.s.idem || id == f.id)
              && after.s.facts == if f.id in w.s.idem then w.s.facts
                                  else w.s.facts + [RestoredFact(src, namespace, f, w.ticked, w.named)]
  {
  }

  lemma SeenStep(s: State, namespace: string, lines: seq<Line>, i: nat, id: FactId)
    requires i < |lines|
    ensures Seen(s, namespace, lines, i + 1, id) <==>
            Seen(s, namespace, lines, i, id) || TakesKey(s, namespace, lines[i], id)
  {
    if TakesKey(s, namespace, lines[i], id) {
      assert i < i + 1;
    }
    if j :| 0 <= j < i && TakesKey(s, namespace, lines[j], id) {
      assert j < i + 1;
    }
  }

  /** A line that is not taken changes nothing. */
  lemma LineRefused(r: Restored, src: Sources, namespace: string, line: Line, now: int)
    requires !Takes(r.w.s, namespace, line)
    ensures var after := RestoreLine(r, src, namespace, line, now); after.w == r.w && after.imported == r.imported
  {
    if line.Parsed? {
      LineTakes(r.w, src, namespace, line.fact, now);
    }
  }

  /** A line that is taken draws a tick and takes its key; it is imported if the key was free. */
  lemma LineTaken(r: Restored, src: Sources, namespace: string, line: Line, now: int)
    requires Takes(r.w.s, namespace, line)
    ensures var after, f := RestoreLine(r, src, namespace, line, now), line.fact;
            && after.w.ticked == r.w.ticked + 1 && after.w.named == r.w.named + 1
            && after.w.s.namespaces == r.w.s.namespaces
            && (forall id :: id in after.w.s.idem <==> id in r.w.s.idem || id == f.id)
            && (if f.id in r.w.s.idem then after.imported == r.imported && after.w.s.facts == r.w.s.facts
                else
                  && after.imported == r.imported + 1
                  && after.w.s.facts == r.w.s.facts + [RestoredFact(src, namespace, f, r.w.ticked, r.w.named)])
  {
    LineTakes(r.w, src, namespace, line.fact, now);
  }

  lemma LineRestores(w: Data.Session, src: Sources, namespace: string, lines: seq<Line>, i: nat, r: Restored, now: int)
    requires i < |lines| && IsRestored(w, src, namespace, lines, i, r)
    ensures IsRestored(w, src, namespace, lines, i + 1, RestoreLine(r, src, namespace, lines[i], now))
  {
    assert Takes(r.w.s, namespace, lines[i]) == Takes(w.s, namespace, lines[i]);
    forall id ensures Seen(w.s, namespace, lines, i + 1, id) <==>
                      Seen(w.s, namespace, lines, i, id) || TakesKey(w.s, namespace, lines[i], id)
    {
      SeenStep(w.s, namespace, lines, i, id);
    }
    if Takes(w.s, namespace, lines[i]) {
      LineTaken(r, src, namespace, lines[i], now);
      if Imported(w.s, namespace, lines, i) {
        ImportAppended(w, src, namespace, ImportsTo(w.s, namespace, lines, i), lines[i].fact,
                       Drawn(w.s, namespace, lines, i));
      }
    } else {
      LineRefused(r, src, namespace, lines[i], now);
    }
  }

  lemma ImportAppended(w: Data.Session, src: Sources, namespace: string, imports: seq<Import>, f: Fact, drawn: nat)
    ensures w.s.facts + Map(Stamp(w, src, namespace), imports + [Import(f, drawn)])
         == (w.s.facts + Map(Stamp(w, src, namespace), imports))
            + [RestoredFact(src, namespace, f, w.ticked + drawn, w.named + drawn)]
  {
    MapSnoc(Stamp(w, src, namespace), imports, Import(f, drawn));
  }

  /**
   * A restore imports exactly the lines whose validity is not empty, whose value the schema accepts, and whose id is
   * seen for the first time: not by an earlier such line, nor by the store. Each becomes a live fact with a new id,
   * stamped with the next tick when its turn comes.
   */
  lemma {:induction false} RestoreImportsExactly(w: Data.Session, src: Sources, namespace: string, lines: seq<Line>,
                                                 nows: nat -> int, i: nat)
    requires i <= |lines|
    ensures IsRestored(w, src, namespace, lines, i, RestoreTo(w, src, namespace, lines, nows, i))
  {
    if i == 0 {
      NothingRestored(w, src, namespace, lines);
    } else {
      RestoreImportsExactly(w, src, namespace, lines, nows, i - 1);
      NextRestores(w, src, namespace, lines, nows, i - 1, RestoreTo(w, src, namespace, lines, nows, i - 1));
    }
  }

  lemma NothingRestored(w: Data.Session, src: Sources, namespace: string, lines: seq<Line>)
    ensures IsRestored(w, src, namespace, lines, 0, Restored(w, 0, 0))
  {
  }

  lemma NextRestores(w: Data.Session, src: Sources, namespace: string, lines: seq<Line>, nows: nat -> int, i: nat,
                     r: Restored)
    requires i < |lines| && r == RestoreTo(w, src, namespace, lines, nows, i)
    requires IsRestored(w, src, namespace, lines, i, r)
    ensures IsRestored(w, src, namespace, lines, i + 1, RestoreTo(w, src, namespace, lines, nows, i + 1))
  {
    LineRestores(w, src, namespace, lines, i, r, nows(i));
  }

  // ---- a branch after a restore ------------------------------------------------------------

  /** What a dump lists for one branch: its facts, retracted ones included, newest first. */
  function DumpQuery(namespace: string, branch: string): ScanQuery {
    ScanQuery(namespace, branch, None, None, None, None, true, None, None)
  }

  ghost predicate TicksAscend(src: Sources) {
    forall i: nat, j: nat :: i < j ==> src.ticks(i) < src.ticks(j)
  }

  /** Ascending in time. */
  ghost predicate Ascending(facts: seq<Fact>) {
    facts == [] || ((forall y :: y in facts[1..] ==> y.txTime > facts[0].txTime) && Ascending(facts[1..]))
  }

  /** Each import is drawn after the ones before it, and all before `end`. */
  ghost predicate Increasing(imports: seq<Import>, end: nat) {
    && (forall i :: 0 <= i < |imports| ==> imports[i].drawn < end)
    && (forall i, j :: 0 <= i < j < |imports| ==> imports[i].drawn < imports[j].drawn)
  }

  lemma IncreasingSnoc(imports: seq<Import>, m: Import)
    requires Increasing(imports, m.drawn)
    ensures Increasing(imports + [m], m.drawn + 1)
  {
  }

  lemma {:induction false} ImportsIncrease(s: State, namespace: string, lines: seq<Line>, i: nat)
    requires i <= |lines|
    ensures Increasing(ImportsTo(s, namespace, lines, i), Drawn(s, namespace, lines, i))
  {
    if i > 0 {
      var d := Drawn(s, namespace, lines, i - 1);
      ImportsIncrease(s, namespace, lines, i - 1);
      if Imported(s, namespace, lines, i - 1) {
        IncreasingSnoc(ImportsTo(s, namespace, lines, i - 1), Import(lines[i - 1].fact, d));
      }
    }
  }

  /** So the restored facts ascend in time, from the next tick on. */
  lemma StampsAscend(w: Data.Session, src: Sources, namespace: string, imports: seq<Import>, end: nat)
    requires TicksAscend(src) && Increasing(imports, end)
    ensures Ascending(Map(Stamp(w, src, namespace), imports))
    ensures forall i :: 0 <= i < |imports| ==>
                          src.ticks(w.ticked) <= Map(Stamp(w, src, namespace), imports)[i].txTime
  {
    var stamp := Stamp(w, src, namespace);
    var stamped := Map(stamp, imports);
    forall i, j | 0 <= i < j < |stamped| ensures stamped[i].txTime < stamped[j].txTime {
      StampLater(w, src, namespace, imports[i], imports[j]);
    }
    forall i | 0 <= i < |stamped| ensures src.ticks(w.ticked) <= stamped[i].txTime {
      StampLater(w, src, namespace, Import(imports[i].fact, 0), imports[i]);
    }
    AscendingFrom(stamped, 0);
    assert stamped[0..] == stamped;
  }

  lemma StampLater(w: Data.Session, src: Sources, namespace: string, m: Import, n: Import)
    requires TicksAscend(src) && m.drawn <= n.drawn
    ensures Stamp(w, src, namespace)(m).txTime == src.ticks(w.ticked + m.drawn) <= Stamp(w, src, namespace)(n).txTime
    ensures m.drawn < n.drawn ==> Stamp(w, src, namespace)(m).txTime < Stamp(w, src, namespace)(n).txTime
  {
  }

  lemma {:induction false} AscendingFrom(facts: seq<Fact>, i: nat)
    requires i <= |facts| && forall j, k :: 0 <= j < k < |facts| ==> facts[j].txTime < facts[k].txTime
    ensures Ascending(facts[i..])
    decreases |facts| - i
  {
    if i < |facts| {
      AscendingFrom(facts, i + 1);
      var rest := facts[i..];
      assert rest[1..] == facts[i + 1..] && rest[0] == facts[i];
    }
  }

  lemma {:induction false} AscendingFilter(q: Fact -> bool, facts: seq<Fact>)
    requires Ascending(facts)
    ensures Ascending(Filter(q, facts))
  {
    if facts != [] {
      AscendingFilter(q, facts[1..]);
      if q(facts[0]) {
        assert ([facts[0]] + Filter(q, facts[1..]))[1..] == Filter(q, facts[1..]);
      }
    }
  }

  lemma InsertCons<T>(leq: (T, T) -> bool, x: T, y: T, ys: seq<T>)
    ensures Insert(leq, x, [y] + ys) == if leq(x, y) then [x] + ([y] + ys) else [y] + Insert(leq, x, ys)
  {
    assert ([y] + ys)[1..] == ys;
  }

  lemma ConsConcat<T>(y: T, ys: seq<T>, zs: seq<T>)
    ensures ([y] + ys) + zs == [y] + (ys + zs)
  {
  }

  lemma {:induction false} InsertPast<T>(leq: (T, T) -> bool, x: T, ys: seq<T>, zs: seq<T>)
    requires forall y :: y in ys ==> !leq(x, y)
    ensures Insert(leq, x, ys + zs) == ys + Insert(leq, x, zs)
  {
    if ys == [] {
      assert ys + zs == zs && ys + Insert(leq, x, zs) == Insert(leq, x, zs);
    } else {
      var y, rest := ys[0], ys[1..];
      assert ys == [y] + rest;
      InsertPast(leq, x, rest, zs);
      ConsConcat(y, rest, zs);
      InsertCons(leq, x, y, rest + zs);
      ConsConcat(y, rest, Insert(leq, x, zs));
    }
  }

  lemma {:induction false} ReverseMembers<T>(xs: seq<T>)
    ensures forall x :: x in Reverse(xs) ==> x in xs
  {
    if xs != [] {
      ReverseMembers(xs[1..]);
    }
  }

  /** Facts in ascending order of time are listed in reverse. */
  lemma {:induction false} AscendingReverses(facts: seq<Fact>)
    requires Ascending(facts)
    ensures Sort(NewestFirst, facts) == Reverse(facts)
  {
    if facts != [] {
      AscendingReverses(facts[1..]);
      ReverseMembers(facts[1..]);
      InsertPast(NewestFirst, facts[0], Reverse(facts[1..]), []);
      assert Reverse(facts[1..]) + [] == Reverse(facts[1..]);
    }
  }

  lemma SortCons<T>(leq: (T, T) -> bool, x: T, xs: seq<T>)
    ensures Sort(leq, [x] + xs) == Insert(leq, x, Sort(leq, xs))
  {
    assert ([x] + xs)[1..] == xs;
  }

  /** What sorts before all of `earlier` stays in front of it. */
  lemma {:induction false} SortsInFront<T>(leq: (T, T) -> bool, earlier: seq<T>, later: seq<T>)
    requires forall x, y :: x in earlier && y in Sort(leq, later) ==> !leq(x, y)
    ensures Sort(leq, earlier + later) == Sort(leq, later) + Sort(leq, earlier)
  {
    if earlier == [] {
      assert earlier + later == later && Sort(leq, later) + Sort(leq, earlier) == Sort(leq, later);
    } else {
      var x, rest := earlier[0], earlier[1..];
      assert earlier == [x] + rest;
      SortsInFront(leq, rest, later);
      ConsConcat(x, rest, later);
      SortCons(leq, x, rest + later);
      SortCons(leq, x, rest);
      InsertPast(leq, x, Sort(leq, later), Sort(leq, rest));
    }
  }

  /** Later facts in ascending order are listed in reverse, before the earlier ones. */
  lemma LaterFirst(earlier: seq<Fact>, later: seq<Fact>)
    requires Ascending(later)
    requires forall x, y :: x in earlier && y in later ==> x.txTime < y.txTime
    ensures Sort(NewestFirst, earlier + later) == Reverse(later) + Sort(NewestFirst, earlier)
  {
    AscendingReverses(later);
    ReverseMembers(later);
    SortsInFront(NewestFirst, earlier, later);
  }

  function OnBranch(branch: string): Import -> bool {
    (m: Import) => m.fact.branch == branch
  }

  lemma {:induction false} FilterMap<T, U>(q: U -> bool, h: T -> U, p: T -> bool, xs: seq<T>)
    requires forall x :: x in xs ==> q(h(x)) == p(x)
    ensures Filter(q, Map(h, xs)) == Map(h, Filter(p, xs))
  {
    if xs != [] {
      var rest := Map(h, xs[1..]);
      FilterMap(q, h, p, xs[1..]);
      assert Map(h, xs) == [h(xs[0])] + rest && ([h(xs[0])] + rest)[1..] == rest;
      if p(xs[0]) {
        MapCons(h, xs[0], Filter(p, xs[1..]));
      }
    }
  }

  /**
   * If the branch's facts are older than the next tick, then after a restore it lists what was imported for it in
   * reverse of the order of the lines, and then what it listed before.
   */
  lemma RestoredBranch(w: Data.Session, src: Sources, target: string, lines: seq<Line>, nows: nat -> int,
                       branch: string)
    requires TicksAscend(src) && OlderThan(w.s.facts, target, branch, src.ticks(w.ticked))
    ensures var came := Filter(OnBranch(branch), ImportsTo(w.s, target, lines, |lines|));
            Scan(RestoreAll(w, src, target, lines, nows).w.s.facts, DumpQuery(target, branch))
            == Reverse(Map(Stamp(w, src, target), came)) + Scan(w.s.facts, DumpQuery(target, branch))
  {
    AppendedFacts(w, src, target, lines, nows);
    ImportsIncrease(w.s, target, lines, |lines|);
    ScanAppended(w, src, target, ImportsTo(w.s, target, lines, |lines|), Drawn(w.s, target, lines, |lines|), branch);
  }

  lemma ScanAppended(w: Data.Session, src: Sources, target: string, imports: seq<Import>, end: nat, branch: string)
    requires TicksAscend(src) && OlderThan(w.s.facts, target, branch, src.ticks(w.ticked))
    requires Increasing(imports, end)
    ensures Scan(w.s.facts + Map(Stamp(w, src, target), imports), DumpQuery(target, branch))
         == Reverse(Map(Stamp(w, src, target), Filter(OnBranch(branch), imports)))
            + Scan(w.s.facts, DumpQuery(target, branch))
  {
    StampsAscend(w, src, target, imports, end);
    OnBranchStamped(w, src, target, imports, branch);
    ScanLater(w.s.facts, Map(Stamp(w, src, target), imports), target, branch, src.ticks(w.ticked));
  }

  lemma OnBranchStamped(w: Data.Session, src: Sources, target: string, imports: seq<Import>, branch: string)
    ensures Filter(Matching(DumpQuery(target, branch)), Map(Stamp(w, src, target), imports))
         == Map(Stamp(w, src, target), Filter(OnBranch(branch), imports))
  {
    FilterMap(Matching(DumpQuery(target, branch)), Stamp(w, src, target), OnBranch(branch), imports);
  }

  lemma AppendedFacts(w: Data.Session, src: Sources, target: string, lines: seq<Line>, nows: nat -> int)
    ensures RestoreAll(w, src, target, lines, nows).w.s.facts
         == w.s.facts + Map(Stamp(w, src, target), ImportsTo(w.s, target, lines, |lines|))
  {
    RestoreImportsExactly(w, src, target, lines, nows, |lines|);
  }

  ghost predicate OlderThan(facts: seq<Fact>, namespace: string, branch: string, time: u64) {
    forall f :: f in facts && f.namespace == namespace && f.branch == branch ==> f.txTime < time
  }

  lemma ScanLater(facts: seq<Fact>, later: seq<Fact>, target: string, branch: string, time: u64)
    requires Ascending(later) && forall i :: 0 <= i < |later| ==> time <= later[i].txTime
    requires OlderThan(facts, target, branch, time)
    ensures Scan(facts + later, DumpQuery(target, branch))
         == Reverse(Filter(Matching(DumpQuery(target, branch)), later)) + Scan(facts, DumpQuery(target, branch))
  {
    var q := Matching(DumpQuery(target, branch));
    PlainScan(facts, DumpQuery(target, branch));
    PlainScan(facts + later, DumpQuery(target, branch));
    FilterConcat(q, facts, later);
    AscendingFilter(q, later);
    LaterFirst(Filter(q, facts), Filter(q, later));
  }

  // ---- dumps -------------------------------------------------------------------------------

  /** The facts of a dump, branch after branch. */
  function Dumped(facts: seq<Fact>, namespace: string, branches: seq<string>): seq<Fact> {
    if branches == [] then []
    else
      Dumped(facts, namespace, branches[..|branches| - 1])
      + Scan(facts, DumpQuery(namespace, branches[|branches| - 1]))
  }

  function Dump(facts: seq<Fact>, namespace: string, branches: seq<string>): seq<Line> {
    Map(AsLine, Dumped(facts, namespace, branches))
  }

  function AsLine(f: Fact): Line {
    Parsed(f)
  }

  /** The lines dump all branches of the namespace in some order, each once if the records carry their names. */
  ghost predicate IsDump(facts: seq<Fact>, branches: map<(string, string), BranchInfo>, namespace: string,
                         lines: seq<Line>)
  {
    exists names: seq<string> ::
      && lines == Dump(facts, namespace, names)
      && (forall n :: n in names <==> n in BranchNames(branches, namespace))
      && (NamedByKey(branches) ==> Distinct(names))
  }

  /** Lists the branches and dumps one after another. */
  method DumpNamespace(db: Data.Db, namespace: string) returns (lines: seq<Line>)
    ensures IsDump(db.store.facts, db.store.branches, namespace, lines)
  {
    var names := NamesOf(db, namespace);
    lines := [];
    var i := 0;
    while i < |names|
      invariant 0 <= i <= |names| && lines == Dump(db.store.facts, namespace, names[..i])
    {
      var facts := db.store.Scan(DumpQuery(namespace, names[i]));
      DumpNext(db.store.facts, namespace, names, i);
      lines := lines + Map(AsLine, facts);
      i := i + 1;
    }
    assert names[..i] == names;
    DumpIsWhole(db.store.facts, db.store.branches, namespace, names, lines);
  }

  lemma DumpIsWhole(facts: seq<Fact>, branches: map<(string, string), BranchInfo>, namespace: string,
                    names: seq<string>, lines: seq<Line>)
    requires lines == Dump(facts, namespace, names)
    requires forall n :: n in names <==> n in BranchNames(branches, namespace)
    requires NamedByKey(branches) ==> Distinct(names)
    ensures IsDump(facts, branches, namespace, lines)
  {
  }

  /** The names of the namespace's branches, none twice if the records carry their names. */
  method NamesOf(db: Data.Db, namespace: string) returns (names: seq<string>)
    ensures forall n :: n in names <==> n in BranchNames(db.store.branches, namespace)
    ensures NamedByKey(db.store.branches) ==> Distinct(names)
  {
    var infos := db.store.ListBranches(namespace);
    names := Map((b: BranchInfo) => b.name, infos);
    Data.ListedNames(db.store.branches, namespace, infos, names);
    NamesDistinct(db.store.branches, namespace, names);
  }

  lemma DumpNext(facts: seq<Fact>, namespace: string, branches: seq<string>, i: nat)
    requires i < |branches|
    ensures Dump(facts, namespace, branches[..i + 1])
         == Dump(facts, namespace, branches[..i]) + Map(AsLine, Scan(facts, DumpQuery(namespace, branches[i])))
  {
    assert branches[..i + 1][..i] == branches[..i];
    MapConcat(AsLine, Dumped(facts, namespace, branches[..i]), Scan(facts, DumpQuery(namespace, branches[i])));
  }

  function BranchNames(branches: map<(string, string), BranchInfo>, namespace: string): set<string> {
    set k | k in branches && k.0 == namespace :: branches[k].name
  }

  /** As many names as keys, and all of them: none twice. */
  lemma NamesDistinct(branches: map<(string, string), BranchInfo>, namespace: string, names: seq<string>)
    requires |names| == |KeysOf(branches.Keys, namespace)|
    requires forall n :: n in names <==> n in BranchNames(branches, namespace)
    ensures NamedByKey(branches) ==> Distinct(names)
  {
    if NamedByKey(branches) {
      var keys := KeysOf(branches.Keys, namespace);
      var all := set n | n in names;
      assert keys == set n | n in all :: (namespace, n);
      SameNumber(namespace, all);
      AllDifferent(names);
    }
  }

  lemma {:induction false} SameNumber(namespace: string, names: set<string>)
    ensures |set n | n in names :: (namespace, n)| == |names|
  {
    if names != {} {
      var x :| x in names;
      SameNumber(namespace, names - {x});
      assert (set n | n in names :: (namespace, n)) == (set n | n in names - {x} :: (namespace, n)) + {(namespace, x)};
    }
  }

  lemma {:induction false} AtMostLength(xs: seq<string>)
    ensures |set x | x in xs| <= |xs|
  {
    if xs != [] {
      AtMostLength(xs[1..]);
      assert xs == [xs[0]] + xs[1..];
      assert (set x | x in xs) == {xs[0]} + (set x | x in xs[1..]);
    }
  }

  lemma {:induction false} AllDifferent(xs: seq<string>)
    requires |set x | x in xs| == |xs|
    ensures Distinct(xs)
  {
    if xs != [] {
      var rest := xs[1..];
      assert xs == [xs[0]] + rest;
      assert (set x | x in xs) == {xs[0]} + (set x | x in rest);
      AtMostLength(rest);
      AllDifferent(rest);
      DistinctCons(xs[0], rest);
    }
  }

  // ---- dump and restore --------------------------------------------------------------------

  /** The fact is imported from a dump in which its id occurs once. */
  predicate Fits(s: State, namespace: string, f: Fact) {
    Recordable(s, namespace, f) && f.id !in s.idem
  }

  function Fitting(s: State, namespace: string): Fact -> bool {
    (f: Fact) => Fits(s, namespace, f)
  }

  function FactOf(m: Import): Fact {
    m.fact
  }

  /** From lines with different ids exactly the fitting ones are imported. */
  lemma {:induction false} DistinctImports(s: State, namespace: string, facts: seq<Fact>, i: nat)
    requires i <= |facts| && Unique(facts)
    ensures Map(FactOf, ImportsTo(s, namespace, Map(AsLine, facts), i)) == Filter(Fitting(s, namespace), facts[..i])
  {
    if i > 0 {
      DistinctImports(s, namespace, facts, i - 1);
      NextDistinct(s, namespace, facts, Map(AsLine, facts), i - 1);
    }
  }

  lemma NextDistinct(s: State, namespace: string, facts: seq<Fact>, lines: seq<Line>, i: nat)
    requires i < |facts| && Unique(facts) && lines == Map(AsLine, facts)
    requires Map(FactOf, ImportsTo(s, namespace, lines, i)) == Filter(Fitting(s, namespace), facts[..i])
    ensures Map(FactOf, ImportsTo(s, namespace, lines, i + 1)) == Filter(Fitting(s, namespace), facts[..i + 1])
  {
    FittingStep(s, namespace, facts, i);
    NotSeen(s, namespace, facts, i);
    NextImport(s, namespace, facts, lines, i);
  }

  lemma FittingStep(s: State, namespace: string, facts: seq<Fact>, i: nat)
    requires i < |facts|
    ensures Filter(Fitting(s, namespace), facts[..i + 1])
         == Filter(Fitting(s, namespace), facts[..i]) + if Fitting(s, namespace)(facts[i]) then [facts[i]] else []
  {
    assert facts[..i + 1] == facts[..i] + [facts[i]];
    FilterSnoc(Fitting(s, namespace), facts[..i], facts[i]);
  }

  /** A line first seen is imported exactly if its fact fits. */
  lemma NextImport(s: State, namespace: string, facts: seq<Fact>, lines: seq<Line>, i: nat)
    requires i < |facts| && lines == Map(AsLine, facts) && !Seen(s, namespace, lines, i, facts[i].id)
    ensures Map(FactOf, ImportsTo(s, namespace, lines, i + 1))
         == Map(FactOf, ImportsTo(s, namespace, lines, i))
            + if Fitting(s, namespace)(facts[i]) then [facts[i]] else []
  {
    if Imported(s, namespace, lines, i) {
      MapSnoc(FactOf, ImportsTo(s, namespace, lines, i), Import(facts[i], Drawn(s, namespace, lines, i)));
    }
  }

  lemma NotSeen(s: State, namespace: string, facts: seq<Fact>, i: nat)
    requires i < |facts| && Unique(facts)
    ensures !Seen(s, namespace, Map(AsLine, facts), i, facts[i].id)
  {
    forall j | 0 <= j < i ensures facts[j].id != facts[i].id {
      assert FactIds(facts)[j] == facts[j].id && FactIds(facts)[i] == facts[i].id;
    }
  }

  function OfBranch(branch: string): Fact -> bool {
    (f: Fact) => f.branch == branch
  }

  lemma ScanBelongs(facts: seq<Fact>, q: ScanQuery)
    requires q.limit == None && q.offset == None
    ensures forall f :: f in Scan(facts, q) ==> f in facts && Matches(q, f)
  {
    PlainScan(facts, q);
  }

  /** A branch's part of a dump is what the branch lists. */
  lemma {:induction false} DumpOfBranch(facts: seq<Fact>, namespace: string, branches: seq<string>, branch: string)
    requires Distinct(branches)
    ensures Filter(OfBranch(branch), Dumped(facts, namespace, branches))
         == if branch in branches then Scan(facts, DumpQuery(namespace, branch)) else []
  {
    if branches != [] {
      var front, last := branches[..|branches| - 1], branches[|branches| - 1];
      DumpOfBranch(facts, namespace, front, branch);
      FilterConcat(OfBranch(branch), Dumped(facts, namespace, front), Scan(facts, DumpQuery(namespace, last)));
      ListedOf(facts, namespace, last, branch);
      LastIsNew(branches, front, last);
      assert branch in branches <==> branch in front || branch == last;
    }
  }

  lemma ListedOf(facts: seq<Fact>, namespace: string, listed: string, branch: string)
    ensures Filter(OfBranch(branch), Scan(facts, DumpQuery(namespace, listed)))
         == if branch == listed then Scan(facts, DumpQuery(namespace, branch)) else []
  {
    ScanBelongs(facts, DumpQuery(namespace, listed));
    if branch == listed {
      FilterAll(OfBranch(branch), Scan(facts, DumpQuery(namespace, listed)));
    } else {
      FilterNone(OfBranch(branch), Scan(facts, DumpQuery(namespace, listed)));
    }
  }

  lemma LastIsNew(names: seq<string>, front: seq<string>, last: string)
    requires Distinct(names) && names != [] && front == names[..|names| - 1] && last == names[|names| - 1]
    ensures last !in front && Distinct(front) && names == front + [last]
  {
    forall i | 0 <= i < |front| ensures front[i] != last {
      assert front[i] == names[i];
    }
  }

  lemma {:induction false} DumpedUnique(facts: seq<Fact>, namespace: string, branches: seq<string>)
    requires Unique(facts) && Distinct(branches)
    ensures Unique(Dumped(facts, namespace, branches))
    ensures forall f :: f in Dumped(facts, namespace, branches) ==> f in facts && f.branch in branches
  {
    if branches != [] {
      var front, last := branches[..|branches| - 1], branches[|branches| - 1];
      var before, listed := Dumped(facts, namespace, front), Scan(facts, DumpQuery(namespace, last));
      DumpedUnique(facts, namespace, front);
      ScanUnique(facts, DumpQuery(namespace, last));
      ScanBelongs(facts, DumpQuery(namespace, last));
      LastIsNew(branches, front, last);
      forall f, g | f in before && g in listed ensures f.id != g.id {
        if f.id == g.id {
          SameFactById(facts, f, g);
        }
      }
      UniqueConcat(before, listed);
    }
  }

  lemma ScanUnique(facts: seq<Fact>, q: ScanQuery)
    requires Unique(facts) && q.limit == None && q.offset == None
    ensures Unique(Scan(facts, q))
  {
    PlainScan(facts, q);
    DistinctFilter(FactIdOf, Matching(q), facts);
    DistinctSort(FactIdOf, NewestFirst, Filter(Matching(q), facts));
  }

  lemma UniqueConcat(xs: seq<Fact>, ys: seq<Fact>)
    requires Unique(xs) && Unique(ys) && forall x, y :: x in xs && y in ys ==> x.id != y.id
    ensures Unique(xs + ys)
  {
    var ids := FactIds(xs + ys);
    forall i, j | 0 <= i < j < |ids| ensures ids[i] != ids[j] {
      if j < |xs| {
        assert FactIds(xs)[i] == ids[i] && FactIds(xs)[j] == ids[j];
      } else if i >= |xs| {
        assert FactIds(ys)[i - |xs|] == ids[i] && FactIds(ys)[j - |xs|] == ids[j];
      } else {
        assert xs[i] in xs && ys[j - |xs|] in ys;
      }
    }
  }

  lemma {:induction false} FilterKeepsAll<T>(p: T -> bool, xs: seq<T>)
    ensures |Filter(p, xs)| == |xs| <==> forall x :: x in xs ==> p(x)
  {
    if xs != [] {
      FilterKeepsAll(p, xs[1..]);
      assert xs == [xs[0]] + xs[1..];
    }
  }

  /** From a dump exactly the fitting facts are imported; all of them if and only if every one fits. */
  lemma DumpImportsExactly(dumped: seq<Fact>, namespace: string, branches: seq<string>, w: Data.Session,
                           src: Sources, target: string, nows: nat -> int)
    requires Unique(dumped) && Distinct(branches)
    ensures var lines := Dump(dumped, namespace, branches);
            var all := Dumped(dumped, namespace, branches);
            var r := RestoreAll(w, src, target, lines, nows);
            && r.imported == |Filter(Fitting(w.s, target), all)|
            && (r.imported == |lines| <==> forall f :: f in all ==> Fits(w.s, target, f))
  {
    var all := Dumped(dumped, namespace, branches);
    var lines := Dump(dumped, namespace, branches);
    DumpedUnique(dumped, namespace, branches);
    RestoreImportsExactly(w, src, target, lines, nows, |lines|);
    DistinctImports(w.s, target, all, |all|);
    assert all[..|all|] == all;
    FilterKeepsAll(Fitting(w.s, target), all);
  }

  lemma {:induction false} DumpedHas(facts: seq<Fact>, namespace: string, branches: seq<string>, f: Fact)
    requires f in facts && f.namespace == namespace && f.branch in branches
    ensures f in Dumped(facts, namespace, branches)
  {
    var front, last := branches[..|branches| - 1], branches[|branches| - 1];
    assert branches == front + [last];
    if f.branch == last {
      PlainScan(facts, DumpQuery(namespace, last));
      assert Matching(DumpQuery(namespace, last))(f);
    } else {
      DumpedHas(facts, namespace, front, f);
    }
  }

  /**
   * A fact that was retracted comes back from a dump if and only if it was retracted after it became valid: retracting
   * closes its validity at that instant, and `record` refuses an empty one.
   */
  lemma RetractedComesBackExactly(s: State, id: FactId, p: RetractParams, branches: seq<string>, target: State,
                                  namespace: string)
    requires Retract(s, id, p).Ok? && p.branch in branches && id !in target.idem
    requires var f := s.facts[FindRetractable(s.facts, id, p)]; Data.SchemaAccepts(target, namespace, f.attr, f.value)
    ensures var f := s.facts[FindRetractable(s.facts, id, p)];
            Retracted(f, p) in Filter(Fitting(target, namespace),
                                      Dumped(Retract(s, id, p).value.facts, p.namespace, branches))
            <==> f.validFrom < InstantOf(p.txTime)
  {
    var i := FindRetractable(s.facts, id, p);
    var after := Retract(s, id, p).value.facts;
    assert after[i] == Retracted(s.facts[i], p);
    DumpedHas(after, p.namespace, branches, Retracted(s.facts[i], p));
    assert Fitting(target, namespace)(Retracted(s.facts[i], p)) <==> s.facts[i].validFrom < InstantOf(p.txTime);
  }

  /** The restored fact says what the dumped one said, but is live. */
  ghost predicate SaysAgain(a: Fact, b: Fact) {
    && a.entity == b.entity && a.attr == b.attr && a.value == b.value && a.validFrom == b.validFrom
    && a.validTo == b.validTo && a.author == b.author && a.branch == b.branch && a.causedBy == None && !a.retracted
  }

  /** The imports of a branch are its fitting facts, newest first. */
  lemma BranchImports(dumped: seq<Fact>, namespace: string, branches: seq<string>, branch: string, s: State,
                      target: string)
    requires Unique(dumped) && Distinct(branches) && branch in branches
    ensures var lines := Dump(dumped, namespace, branches);
            Map(FactOf, Filter(OnBranch(branch), ImportsTo(s, target, lines, |lines|)))
            == Filter(Fitting(s, target), Scan(dumped, DumpQuery(namespace, branch)))
  {
    var all, fits := Dumped(dumped, namespace, branches), Fitting(s, target);
    var lines := Dump(dumped, namespace, branches);
    DumpedUnique(dumped, namespace, branches);
    DistinctImports(s, target, all, |all|);
    assert all[..|all|] == all;
    FilterMap(OfBranch(branch), FactOf, OnBranch(branch), ImportsTo(s, target, lines, |lines|));
    DumpOfBranch(dumped, namespace, branches, branch);
    FiltersCommute(OfBranch(branch), fits, all);
  }

  /** First what `was` said, in reverse, and then `before`. */
  ghost predicate ListsAgain(now: seq<Fact>, was: seq<Fact>, before: seq<Fact>) {
    && |now| == |was| + |before| && now[|was|..] == before
    && forall i :: 0 <= i < |was| ==> SaysAgain(now[i], was[|was| - 1 - i])
  }

  /**
   * A dump restored: every dumped branch lists its fitting facts, live, in reverse of the order it listed them in
   * before, and then what the target branch listed before.
   */
  lemma RestoredHistoryIsReversed(dumped: seq<Fact>, namespace: string, branches: seq<string>, branch: string,
                                  w: Data.Session, src: Sources, target: string, nows: nat -> int)
    requires Unique(dumped) && Distinct(branches) && branch in branches
    requires TicksAscend(src) && OlderThan(w.s.facts, target, branch, src.ticks(w.ticked))
    ensures ListsAgain(Scan(RestoreAll(w, src, target, Dump(dumped, namespace, branches), nows).w.s.facts,
                            DumpQuery(target, branch)),
                       Filter(Fitting(w.s, target), Scan(dumped, DumpQuery(namespace, branch))),
                       Scan(w.s.facts, DumpQuery(target, branch)))
  {
    var lines := Dump(dumped, namespace, branches);
    var came := Filter(OnBranch(branch), ImportsTo(w.s, target, lines, |lines|));
    RestoredBranch(w, src, target, lines, nows, branch);
    BranchImports(dumped, namespace, branches, branch, w.s, target);
    StampedSays(w, src, target, came);
    ReverseSays(Map(Stamp(w, src, target), came), Map(FactOf, came), Scan(w.s.facts, DumpQuery(target, branch)));
  }

  ghost predicate EachSaysAgain(now: seq<Fact>, was: seq<Fact>) {
    |now| == |was| && forall i :: 0 <= i < |was| ==> SaysAgain(now[i], was[i])
  }

  lemma StampedSays(w: Data.Session, src: Sources, target: string, came: seq<Import>)
    ensures EachSaysAgain(Map(Stamp(w, src, target), came), Map(FactOf, came))
  {
  }

  lemma ReverseSays(now: seq<Fact>, was: seq<Fact>, before: seq<Fact>)
    requires EachSaysAgain(now, was)
    ensures ListsAgain(Reverse(now) + before, was, before)
  {
    var back := Reverse(now);
    DropFront(back, before);
    forall i | 0 <= i < |was| ensures SaysAgain((back + before)[i], was[|was| - 1 - i]) {
      assert back[i] == now[|was| - 1 - i];
    }
  }

  lemma DropFront<T>(xs: seq<T>, ys: seq<T>)
    ensures (xs + ys)[|xs|..] == ys
  {
  }
}
