/** Dispense settlement as interleaved steps of any number of requests.

    Every request to `validate_code` or `complete_dispense` is a worker that moves through phases; a
    step is what one request does between two points where another one may run.  Litres are whole
    millilitres.  A code stands for its fingerprint, which the source uses as lock, set and cache key.

    Exceptions and crashes may strike a worker in every phase except between the commit and the write
    to the consumed set, the lock of a code that is not in the consumed set expires only when no live
    worker holds it, and the consumed set loses no entry: three assumptions that `DispenseFaults` shows to be
    exactly what is needed.
 */
module DispenseProtocol {
  import opened Common

  type Code = nat
  type Id = nat
  type Worker = nat

  const GRACE := 500
  const PARTIAL_MIN_REMAINING := 1000
  const MAX_ATTEMPTS := 5

  // ---------------------------------------------------------------- rows, Redis keys, requests

  datatype CodeStatus = Active | Consumed
  datatype AllocationStatus = Pending | PartialFulfilled | Fulfilled
  datatype TransactionStatus = Completed | OverDispense

  datatype CodeRow = CodeRow(id: Id, allocation: Id, authorized: nat, consumed: nat, status: CodeStatus, attempts: nat)

  datatype Allocation = Allocation(quota: nat, dispensed: nat, remaining: nat, status: AllocationStatus)

  datatype Transaction = Transaction(codeId: Id, allocation: Id, actual: nat, status: TransactionStatus)

  /** What the per-code cache holds. */
  datatype Payload = Payload(codeId: Id, allocation: Id, remaining: nat)

  /** Database tables and Redis keys.  `parents` is history only: which allocation a successor came from. */
  datatype Store = Store(
    codes: map<Code, CodeRow>,
    allocations: map<Id, Allocation>,
    transactions: seq<Transaction>,
    nextId: Id,
    locks: set<Code>,
    consumed: set<Code>,
    cache: map<Code, Payload>,
    parents: map<Id, Id>)

  /** The code issued for the litres a partial dispense leaves, with its cache entry. */
  datatype Successor = Successor(newCode: Code, payload: Payload)

  /** How a request ends: settled now, settled before, refused, or with an exception. */
  datatype Reply =
    | Dispensed(transaction: Transaction, successor: Option<Successor>)
    | Replayed(transaction: Transaction)
    | Refused
    | Failed

  datatype Phase =
    // complete_dispense
    | Holding(code: Code, actual: nat)                                         // lock acquired
    | Replaying(code: Code)                                                    // found in the consumed set
    | Cleared(code: Code, actual: nat)                                         // not in the consumed set
    | Loaded(code: Code, actual: nat, row: CodeRow, allocation: Allocation)    // rows read
    | Settled(code: Code, transaction: Transaction, successor: Option<Successor>)  // committed
    | Marked(code: Code, transaction: Transaction, successor: Option<Successor>)   // in the consumed set
    | Evicted(code: Code, transaction: Transaction, successor: Option<Successor>)  // cache entry deleted
    | Finishing(code: Code, reply: Reply)                                      // about to release the lock
    // validate_code
    | Asking(code: Code)                                                       // not consumed, not throttled
    | Missed(code: Code)                                                       // no cache entry
    | Granted(code: Code, payload: Payload)                                    // attempt counted, cache not written
  {
    predicate HoldsLock() {
      !Asking? && !Missed? && !Granted?
    }
  }

  datatype System = System(store: Store, workers: map<Worker, Phase>)

  const INITIAL := System(Store(map[], map[], [], 0, {}, {}, map[], map[]), map[])

  // ---------------------------------------------------------------- settlement arithmetic

  predicate IsOver(remaining: nat, actual: nat) {
    actual > remaining + GRACE
  }

  predicate IsPartial(remaining: nat, actual: nat) {
    !IsOver(remaining, actual) && remaining - actual > PARTIAL_MIN_REMAINING
  }

  function SettleAllocation(a: Allocation, actual: nat): Allocation {
    Allocation(a.quota, a.dispensed + actual, if a.remaining > actual then a.remaining - actual else 0,
               if IsPartial(a.remaining, actual) then PartialFulfilled else Fulfilled)
  }

  function NewTransaction(row: CodeRow, a: Allocation, actual: nat): Transaction {
    Transaction(row.id, row.allocation, actual, if IsOver(a.remaining, actual) then OverDispense else Completed)
  }

  function FreshAllocation(liters: nat): Allocation {
    Allocation(liters, 0, liters, Pending)
  }

  function CachePayload(row: CodeRow, liters: nat): Payload {
    Payload(row.id, row.allocation, liters)
  }

  /** Inserts an allocation and its one ACTIVE code. */
  function Issue(s: Store, code: Code, liters: nat): Store {
    s.(codes := s.codes[code := CodeRow(s.nextId + 1, s.nextId, liters, 0, Active, 0)],
       allocations := s.allocations[s.nextId := FreshAllocation(liters)],
       nextId := s.nextId + 2)
  }

  /** The database transaction of `complete_dispense` up to the successor rows. */
  function SettleRows(s: Store, code: Code, actual: nat, row: CodeRow, a: Allocation): Store
    requires code in s.codes
  {
    s.(codes := s.codes[code := s.codes[code].(consumed := row.consumed + actual, status := Consumed)],
       allocations := s.allocations[row.allocation := SettleAllocation(a, actual)],
       transactions := s.transactions + [NewTransaction(row, a, actual)])
  }

  /** The whole database transaction; `newCode` is used only when the dispense is partial. */
  function CommitRows(s: Store, code: Code, actual: nat, row: CodeRow, a: Allocation, newCode: Code): Store
    requires code in s.codes
  {
    var settled := SettleRows(s, code, actual, row, a);
    if IsPartial(a.remaining, actual) then
      Issue(settled, newCode, a.remaining - actual).(parents := s.parents[s.nextId := row.allocation])
    else settled
  }

  function NewSuccessor(s: Store, actual: nat, a: Allocation, newCode: Code): Option<Successor> {
    if IsPartial(a.remaining, actual)
    then Some(Successor(newCode, Payload(s.nextId + 1, s.nextId, a.remaining - actual)))
    else None
  }

  /** `_find_existing_txn`: the latest transaction of a code row. */
  function LatestOf(transactions: seq<Transaction>, id: Id): Option<Transaction> {
    if transactions == [] then None
    else
      var last := transactions[|transactions| - 1];
      if last.codeId == id then Some(last) else LatestOf(transactions[..|transactions| - 1], id)
  }

  function ReplayReply(s: Store, code: Code): Reply {
    if code !in s.codes then Refused
    else
      match LatestOf(s.transactions, s.codes[code].id)
      case Some(t) => Replayed(t)
      case None => Refused
  }

  // ---------------------------------------------------------------- steps

  datatype Step =
    | Upload(code: Code, liters: nat)
    | Acquire(w: Worker, code: Code, actual: nat)
    | CheckConsumed(w: Worker)
    | FindExisting(w: Worker)
    | Load(w: Worker)
    | Commit(w: Worker, newCode: Code)
    | Mark(w: Worker)
    | Evict(w: Worker)
    | CacheSuccessor(w: Worker)
    | Fault(w: Worker)
    | Crash(w: Worker)
    | Release(w: Worker)
    | ExpireLock(code: Code)
    | Ask(w: Worker, code: Code)
    | ReadCache(w: Worker)
    | Grant(w: Worker)
    | WriteCache(w: Worker)
    | GiveUp(w: Worker)
    | ExpireCache(code: Code)

  /** May the step happen?  Guards are the branch conditions of the source, the database's unique index on
      the fingerprint, and the two assumptions on failures. */
  predicate Enabled(s: System, step: Step) {
    match step
    case Upload(code, _) => code !in s.store.codes
    case Acquire(w, code, _) => w !in s.workers && code !in s.store.locks
    case CheckConsumed(w) => w in s.workers && s.workers[w].Holding?
    case FindExisting(w) => w in s.workers && s.workers[w].Replaying?
    case Load(w) => w in s.workers && s.workers[w].Cleared?
    case Commit(w, newCode) =>
      && w in s.workers && s.workers[w].Loaded? && s.workers[w].code in s.store.codes
      && (IsPartial(s.workers[w].allocation.remaining, s.workers[w].actual) ==> newCode !in s.store.codes)
    case Mark(w) => w in s.workers && s.workers[w].Settled?
    case Evict(w) => w in s.workers && s.workers[w].Marked?
    case CacheSuccessor(w) => w in s.workers && s.workers[w].Evicted?
    case Fault(w) => w in s.workers && s.workers[w].HoldsLock() && !s.workers[w].Settled?
    case Crash(w) => w in s.workers && !s.workers[w].Settled?
    case Release(w) => w in s.workers && s.workers[w].Finishing?
    case ExpireLock(code) =>
      || code in s.store.consumed
      || forall w <- s.workers :: s.workers[w].HoldsLock() ==> s.workers[w].code != code
    case Ask(w, code) => w !in s.workers && code !in s.store.consumed
    case ReadCache(w) => w in s.workers && s.workers[w].Asking?
    case Grant(w) =>
      && w in s.workers && s.workers[w].Missed?
      && s.workers[w].code in s.store.codes
      && var row := s.store.codes[s.workers[w].code];
      && row.status == Active && row.attempts < MAX_ATTEMPTS
      && row.allocation in s.store.allocations && s.store.allocations[row.allocation].status != Fulfilled
    case WriteCache(w) => w in s.workers && s.workers[w].Granted?
    case GiveUp(w) => w in s.workers && !s.workers[w].HoldsLock()
    case ExpireCache(_) => true
  }

  function Next(s: System, step: Step): System
    requires Enabled(s, step)
  {
    var d, ws := s.store, s.workers;
    match step
    case Upload(code, liters) => s.(store := Issue(d, code, liters))
    case Acquire(w, code, actual) => System(d.(locks := d.locks + {code}), ws[w := Holding(code, actual)])
    case CheckConsumed(w) =>
      var code := ws[w].code;
      s.(workers := ws[w := if code in d.consumed then Replaying(code) else Cleared(code, ws[w].actual)])
    case FindExisting(w) => s.(workers := ws[w := Finishing(ws[w].code, ReplayReply(d, ws[w].code))])
    case Load(w) =>
      var code := ws[w].code;
      s.(workers := ws[w :=
          if code in d.codes && d.codes[code].allocation in d.allocations
          then Loaded(code, ws[w].actual, d.codes[code], d.allocations[d.codes[code].allocation])
          else Finishing(code, Refused)])
    case Commit(w, newCode) =>
      var p := ws[w];
      System(CommitRows(d, p.code, p.actual, p.row, p.allocation, newCode),
             ws[w := Settled(p.code, NewTransaction(p.row, p.allocation, p.actual),
                             NewSuccessor(d, p.actual, p.allocation, newCode))])
    case Mark(w) =>
      System(d.(consumed := d.consumed + {ws[w].code}),
             ws[w := Marked(ws[w].code, ws[w].transaction, ws[w].successor)])
    case Evict(w) =>
      System(d.(cache := d.cache - {ws[w].code}),
             ws[w := Evicted(ws[w].code, ws[w].transaction, ws[w].successor)])
    case CacheSuccessor(w) =>
      System(if ws[w].successor.None? then d
             else d.(cache := d.cache[ws[w].successor.value.newCode := ws[w].successor.value.payload]),
             ws[w := Finishing(ws[w].code, Dispensed(ws[w].transaction, ws[w].successor))])
    case Fault(w) => s.(workers := ws[w := Finishing(ws[w].code, Failed)])
    case Crash(w) => s.(workers := ws - {w})
    case Release(w) => System(d.(locks := d.locks - {ws[w].code}), ws - {w})
    case ExpireLock(code) => s.(store := d.(locks := d.locks - {code}))
    case Ask(w, code) => s.(workers := ws[w := Asking(code)])
    case ReadCache(w) => s.(workers := if ws[w].code in d.cache then ws - {w} else ws[w := Missed(ws[w].code)])
    case Grant(w) =>
      var row := d.codes[ws[w].code];
      System(d.(codes := d.codes[ws[w].code := row.(attempts := row.attempts + 1)]),
             ws[w := Granted(ws[w].code, CachePayload(row, d.allocations[row.allocation].remaining))])
    case WriteCache(w) => System(d.(cache := d.cache[ws[w].code := ws[w].payload]), ws - {w})
    case GiveUp(w) => s.(workers := ws - {w})
    case ExpireCache(code) => s.(store := d.(cache := d.cache - {code}))
  }

  /** Every step of the run is enabled where it happens. */
  predicate ValidRun(s: System, steps: seq<Step>)
    decreases |steps|
  {
    steps == [] || (Enabled(s, steps[0]) && ValidRun(Next(s, steps[0]), steps[1..]))
  }

  function Run(s: System, steps: seq<Step>): System
    requires ValidRun(s, steps)
    decreases |steps|
  {
    if steps == [] then s else Run(Next(s, steps[0]), steps[1..])
  }
}
