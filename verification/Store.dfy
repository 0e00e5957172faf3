/** The state of the in-memory store and what each operation does to it. */
module Store {
  import opened Base
  import opened Lists
  import opened StableSort
  import opened Strings
  import opened Ledger
  import Hlc

  datatype Transaction = Transaction(
    id: TxId,
    namespace: string,
    branch: string,
    ts: u64,
    author: Option<string>,
    message: Option<string>,
    factCount: nat,
    causedBy: Option<TxId>)

  datatype BranchInfo = BranchInfo(
    namespace: string,
    name: string,
    parent: Option<string>,
    forkAt: Option<u64>,
    createdAt: int,
    headTx: Option<TxId>,
    closed: bool)

  datatype MergePolicy = LastWriteWins | FirstWriteWins | ErrorOnConflict

  datatype AttrType = StrType | IntType | FloatType | BoolType | JsonType | AnyType {
    predicate Accepts(v: Value) {
      match this
      case StrType => v.Str?
      case IntType => v.Int?
      case FloatType => v.Float?
      case BoolType => v.Bool?
      case JsonType => v.Json?
      case AnyType => true
    }
  }

  datatype Schema = Schema(attrs: map<string, AttrType>, strict: bool) {
    predicate Accepts(attr: string, v: Value) {
      if attr in attrs then attrs[attr].Accepts(v) else !strict
    }
  }

  datatype NamespaceInfo = NamespaceInfo(name: string, mergePolicy: MergePolicy, schema: Option<Schema>)

  datatype State = State(
    facts: seq<Fact>,
    transactions: seq<Transaction>,
    branches: map<(string, string), BranchInfo>,
    namespaces: map<string, NamespaceInfo>,
    idem: map<string, (FactId, TxId)>)

  datatype Error =
    | FactNotFound(id: FactId)
    | NamespaceNotFound(namespace: string)
    | NamespaceExists(namespace: string)
    | BranchNotFound(branch: string, namespace: string)
    | BranchExists(branch: string, namespace: string)
    | CannotDeleteRoot(branch: string, namespace: string)
    | Conflict(entity: string, attr: string)
    | SchemaViolation(attr: string)
    | InvalidTimeRange
    | NoSpecs

  function RootBranch(namespace: string, createdAt: int): BranchInfo {
    BranchInfo(namespace, "main", None, None, createdAt, None, false)
  }

  /** A new store: the default namespace and its main branch. */
  function Empty(createdAt: int): State {
    State([], [], map[("default", "main") := RootBranch("default", createdAt)],
          map["default" := NamespaceInfo("default", LastWriteWins, None)], map[])
  }

  // ---- record -----------------------------------------------------------------------------

  datatype RecordParams = RecordParams(
    namespace: string,
    entity: string,
    attr: string,
    value: Value,
    branch: string,
    author: Option<string>,
    message: Option<string>,
    validFrom: int,
    validTo: Option<int>,
    txTime: u64,
    txId: TxId,
    causedBy: Option<TxId>,
    idempotencyKey: Option<string>)

  datatype RecordResult = RecordResult(factId: FactId, txId: TxId, wasDuplicate: bool)

  function NewFact(p: RecordParams, id: FactId): Fact {
    Fact(id, p.namespace, p.entity, p.attr, p.value, p.validFrom, p.validTo, p.txId, p.txTime, p.branch,
         p.author, false, p.causedBy)
  }

  /** The first transaction with this id counts one more fact; if there is none, a new one counts one. */
  function Touch(txs: seq<Transaction>, p: RecordParams): seq<Transaction> {
    if txs == [] then
      [Transaction(p.txId, p.namespace, p.branch, p.txTime, p.author, p.message, 1, p.causedBy)]
    else if txs[0].id == p.txId then [txs[0].(factCount := txs[0].factCount + 1)] + txs[1..]
    else [txs[0]] + Touch(txs[1..], p)
  }

  /** The branch, if it exists, points at this transaction. */
  function SetHead(branches: map<(string, string), BranchInfo>, namespace: string, branch: string, tx: TxId):
    map<(string, string), BranchInfo>
  {
    var key := (namespace, branch);
    if key in branches then branches[key := branches[key].(headTx := Some(tx))] else branches
  }

  predicate IsDuplicate(s: State, p: RecordParams) {
    p.idempotencyKey.Some? && p.idempotencyKey.value in s.idem
  }

  function Record(s: State, p: RecordParams, freshId: FactId): (State, RecordResult) {
    if IsDuplicate(s, p) then
      var (fid, tid) := s.idem[p.idempotencyKey.value];
      (s, RecordResult(fid, tid, true))
    else
      (State(s.facts + [NewFact(p, freshId)],
             Touch(s.transactions, p),
             SetHead(s.branches, p.namespace, p.branch, p.txId),
             s.namespaces,
             if p.idempotencyKey.Some? then s.idem[p.idempotencyKey.value := (freshId, p.txId)] else s.idem),
       RecordResult(freshId, p.txId, false))
  }

  // ---- retract ----------------------------------------------------------------------------

  datatype RetractParams = RetractParams(
    namespace: string,
    branch: string,
    author: Option<string>,
    message: Option<string>,
    txTime: u64,
    txId: TxId)

  /** The instant of a timestamp, in nanoseconds. */
  function InstantOf(h: u64): int {
    Hlc.PhysicalMs(h) * 1_000_000
  }

  predicate Retractable(f: Fact, id: FactId, p: RetractParams) {
    f.id == id && !f.retracted && f.branch == p.branch && f.namespace == p.namespace
  }

  function Retracted(f: Fact, p: RetractParams): Fact {
    f.(retracted := true, validTo := Some(InstantOf(p.txTime)))
  }

  /** The position of the first fact `retract` accepts, or the end. */
  function FindRetractable(facts: seq<Fact>, id: FactId, p: RetractParams): (i: nat)
    ensures i <= |facts|
    ensures i < |facts| ==> Retractable(facts[i], id, p)
    ensures forall j :: 0 <= j < i ==> !Retractable(facts[j], id, p)
  {
    if facts == [] || Retractable(facts[0], id, p) then 0
    else 1 + FindRetractable(facts[1..], id, p)
  }

  function Retract(s: State, id: FactId, p: RetractParams): Result<State, Error> {
    var i := FindRetractable(s.facts, id, p);
    if i == |s.facts| then Err(FactNotFound(id))
    else
      Ok(s.(facts := s.facts[i := Retracted(s.facts[i], p)],
            transactions := s.transactions
              + [Transaction(p.txId, p.namespace, p.branch, p.txTime, p.author, p.message, 1, None)],
            branches := SetHead(s.branches, p.namespace, p.branch, p.txId)))
  }

  // ---- branches and namespaces ------------------------------------------------------------

  function CreateBranch(s: State, namespace: string, name: string, forkFrom: string, forkAt: u64, now: int):
    Result<State, Error>
  {
    if namespace !in s.namespaces then Err(NamespaceNotFound(namespace))
    else if (namespace, name) in s.branches then Err(BranchExists(name, namespace))
    else
      Ok(s.(branches := s.branches[(namespace, name) :=
              BranchInfo(namespace, name, Some(forkFrom), Some(forkAt), now, None, false)]))
  }

  function DeleteBranch(s: State, namespace: string, name: string): Result<State, Error> {
    var key := (namespace, name);
    if key !in s.branches then Err(BranchNotFound(name, namespace))
    else if s.branches[key].parent.None? then Err(CannotDeleteRoot(name, namespace))
    else Ok(s.(branches := s.branches - {key}))
  }

  function CreateNamespace(s: State, namespace: string, policy: MergePolicy, schema: Option<Schema>, now: int):
    Result<State, Error>
  {
    if namespace in s.namespaces then Err(NamespaceExists(namespace))
    else
      Ok(s.(namespaces := s.namespaces[namespace := NamespaceInfo(namespace, policy, schema)],
            branches := s.branches[(namespace, "main") := RootBranch(namespace, now)]))
  }

  // ---- garbage collection -----------------------------------------------------------------

  datatype GcParams = GcParams(beforeMs: Option<nat>, branch: Option<string>, dryRun: bool)

  datatype GcReport = GcReport(factsRemoved: nat, transactionsRemoved: nat, dryRun: bool)

  /** The cutoff, named in milliseconds, is compared with the packed timestamp. */
  predicate Collectable(p: GcParams, f: Fact) {
    && f.retracted
    && (p.beforeMs.Some? ==> f.txTime < p.beforeMs.value)
    && (p.branch.Some? ==> p.branch.value == f.branch)
  }

  function Kept(p: GcParams): Fact -> bool {
    (f: Fact) => !Collectable(p, f)
  }

  /** Some fact belongs to the transaction. */
  function HasFacts(facts: seq<Fact>): Transaction -> bool {
    (t: Transaction) => exists f | f in facts :: f.txId == t.id
  }

  function Gc(s: State, p: GcParams): (State, GcReport) {
    var facts := Filter(Kept(p), s.facts);
    var removed := |s.facts| - |facts|;
    if p.dryRun then (s, GcReport(removed, 0, true))
    else
      var txs := Filter(HasFacts(facts), s.transactions);
      (s.(facts := facts, transactions := txs), GcReport(removed, |s.transactions| - |txs|, false))
  }

  // ---- merge ------------------------------------------------------------------------------

  datatype MergeParams = MergeParams(
    namespace: string,
    source: string,
    target: string,
    author: Option<string>,
    message: Option<string>,
    causedBy: Option<TxId>)

  datatype Resolution = SourceWins | TargetWins

  datatype ConflictEntry = ConflictEntry(
    entity: string,
    attr: string,
    sourceFact: FactId,
    targetFact: FactId,
    resolution: Resolution)

  datatype MergeResult = MergeResult(txId: TxId, ts: u64, factsApplied: nat, conflicts: seq<ConflictEntry>)

  type Key = (string, string)

  function KeyOf(f: Fact): Key {
    (f.entity, f.attr)
  }

  /** One fact per key, a later one in the list replacing an earlier one. */
  function IndexOf(facts: seq<Fact>): map<Key, Fact> {
    if facts == [] then map[]
    else
      var last := facts[|facts| - 1];
      IndexOf(facts[..|facts| - 1])[KeyOf(last) := last]
  }

  function LiveFacts(s: State, namespace: string, branch: string): seq<Fact> {
    Scan(s.facts, LiveQuery(namespace, branch))
  }

  /** The index a merge or a diff builds for a branch. */
  function BranchIndex(s: State, namespace: string, branch: string): map<Key, Fact> {
    IndexOf(LiveFacts(s, namespace, branch))
  }

  predicate InConflict(idx: map<Key, Fact>, f: Fact) {
    KeyOf(f) in idx
  }

  function Conflicting(idx: map<Key, Fact>): Fact -> bool {
    (f: Fact) => InConflict(idx, f)
  }

  /** The policy lets the source fact through. */
  function Applies(policy: MergePolicy, idx: map<Key, Fact>): Fact -> bool {
    (f: Fact) => KeyOf(f) !in idx || (policy == LastWriteWins && f.txTime > idx[KeyOf(f)].txTime)
  }

  function EntryFor(policy: MergePolicy, idx: map<Key, Fact>): Fact -> ConflictEntry {
    (f: Fact) =>
      ConflictEntry(f.entity, f.attr, f.id,
                    if KeyOf(f) in idx then idx[KeyOf(f)].id else f.id,
                    if Applies(policy, idx)(f) then SourceWins else TargetWins)
  }

  /** One entry for each source fact whose key is live in the target, in scan order. */
  function ConflictsOf(policy: MergePolicy, idx: map<Key, Fact>, src: seq<Fact>): seq<ConflictEntry> {
    Map(EntryFor(policy, idx), Filter(Conflicting(idx), src))
  }

  /** How many source facts are processed: under ErrorOnConflict, those before the first conflict. */
  function Processed(policy: MergePolicy, idx: map<Key, Fact>, src: seq<Fact>): (n: nat)
    ensures n <= |src|
    ensures n < |src| ==> policy == ErrorOnConflict && InConflict(idx, src[n])
    ensures policy == ErrorOnConflict ==> forall j :: 0 <= j < n ==> !InConflict(idx, src[j])
  {
    if src == [] || (policy == ErrorOnConflict && InConflict(idx, src[0])) then 0
    else 1 + Processed(policy, idx, src[1..])
  }

  function CopyParams(p: MergeParams, f: Fact, ts: u64, txId: TxId): RecordParams {
    RecordParams(p.namespace, f.entity, f.attr, f.value, p.target, p.author, p.message,
                 f.validFrom, f.validTo, ts, txId, p.causedBy, None)
  }

  function Copy(p: MergeParams, f: Fact, ts: u64, txId: TxId, id: FactId): Fact {
    NewFact(CopyParams(p, f, ts, txId), id)
  }

  /** The copies of applied source facts, all in one transaction. */
  function Copies(p: MergeParams, fs: seq<Fact>, ts: u64, txId: TxId, ids: nat -> FactId): (r: seq<Fact>)
    ensures |r| == |fs|
    ensures forall i :: 0 <= i < |fs| ==> r[i] == Copy(p, fs[i], ts, txId, ids(i))
  {
    seq(|fs|, (i: int) requires 0 <= i < |fs| => Copy(p, fs[i], ts, txId, ids(i)))
  }

  /** `Touch` once for each applied fact. */
  function TouchEach(txs: seq<Transaction>, p: MergeParams, fs: seq<Fact>, ts: u64, txId: TxId): seq<Transaction> {
    if fs == [] then txs
    else Touch(TouchEach(txs, p, fs[..|fs| - 1], ts, txId), CopyParams(p, fs[|fs| - 1], ts, txId))
  }

  /** The store after recording the copies of `fs`. */
  function AfterCopies(s: State, p: MergeParams, fs: seq<Fact>, ts: u64, txId: TxId, ids: nat -> FactId): State {
    s.(facts := s.facts + Copies(p, fs, ts, txId, ids),
       transactions := TouchEach(s.transactions, p, fs, ts, txId),
       branches := if fs == [] then s.branches else SetHead(s.branches, p.namespace, p.target, txId))
  }

  /** Each source fact in turn: an entry if its key is live in the target, a copy if the policy lets it through. */
  function Replayed(s: State, p: MergeParams, policy: MergePolicy, idx: map<Key, Fact>, src: seq<Fact>, ts: u64,
                    txId: TxId, ids: nat -> FactId): (State, Result<MergeResult, Error>)
  {
    var n := Processed(policy, idx, src);
    var applied := Filter(Applies(policy, idx), src[..n]);
    (AfterCopies(s, p, applied, ts, txId, ids),
     if n < |src| then Err(Conflict(src[n].entity, src[n].attr))
     else Ok(MergeResult(txId, ts, |applied|, ConflictsOf(policy, idx, src))))
  }

  /** The source's live facts are replayed onto the target's, indexed by key. */
  function Merge(s: State, p: MergeParams, ts: u64, txId: TxId, ids: nat -> FactId):
    (State, Result<MergeResult, Error>)
  {
    if p.namespace !in s.namespaces then (s, Err(NamespaceNotFound(p.namespace)))
    else
      Replayed(s, p, s.namespaces[p.namespace].mergePolicy, BranchIndex(s, p.namespace, p.target),
               LiveFacts(s, p.namespace, p.source), ts, txId, ids)
  }

  // ---- diff -------------------------------------------------------------------------------

  datatype DiffEntry = DiffEntry(entity: string, attr: string, source: Option<Fact>, target: Option<Fact>)

  function EntryKey(e: DiffEntry): Key {
    (e.entity, e.attr)
  }

  function Lookup(idx: map<Key, Fact>, k: Key): Option<Fact> {
    if k in idx then Some(idx[k]) else None
  }

  predicate SameFact(fl: Floats, a: Option<Fact>, b: Option<Fact>) {
    if a.Some? && b.Some? then FactEq(fl, a.value, b.value) else a.None? && b.None?
  }

  /** The entry of a key, if the indexed facts differ. */
  function DiffAt(fl: Floats, src: map<Key, Fact>, tgt: map<Key, Fact>, k: Key): Option<DiffEntry> {
    var s, t := Lookup(src, k), Lookup(tgt, k);
    if SameFact(fl, s, t) then None else Some(DiffEntry(k.0, k.1, s, t))
  }

  predicate KeyLeq(a: DiffEntry, b: DiffEntry) {
    var byEntity := CompareStr(a.entity, b.entity);
    byEntity == Less || (byEntity == Equal && StrLeq(a.attr, b.attr))
  }

  /** Strictly sorted by key, with exactly the entries of the keys whose indexed facts differ. */
  ghost predicate IsDiff(fl: Floats, src: map<Key, Fact>, tgt: map<Key, Fact>, entries: seq<DiffEntry>) {
    && StrictlySorted(KeyLeq, entries)
    && (forall e :: e in entries <==> DiffAt(fl, src, tgt, EntryKey(e)) == Some(e))
  }
}
