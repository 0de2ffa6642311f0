/** What every interleaving of dispense requests keeps: one settlement per code, an exact cache, correct
    replays, and litres that add up.
 */
module DispenseInvariants {
  import opened Common
  import opened DispenseProtocol

  // ---------------------------------------------------------------- the invariant

  function CountOf(transactions: seq<Transaction>, id: Id): nat {
    if transactions == [] then 0
    else
      var last := |transactions| - 1;
      CountOf(transactions[..last], id) + if transactions[last].codeId == id then 1 else 0
  }

  /** Code and allocation rows pair up one to one, and all ids come from the counter. */
  ghost predicate RowsPaired(d: Store) {
    && (forall c <- d.codes ::
          && d.codes[c].id < d.nextId && d.codes[c].allocation < d.nextId
          && d.codes[c].allocation in d.allocations)
    && (forall b, c | b in d.codes && c in d.codes && b != c ::
          d.codes[b].id != d.codes[c].id && d.codes[b].allocation != d.codes[c].allocation)
    && (forall a <- d.allocations :: a < d.nextId)
    && (forall t <- d.transactions :: t.codeId < d.nextId)
  }

  /** A code row, its allocation and its transactions tell the same story. */
  ghost predicate RowSettled(d: Store, c: Code)
    requires c in d.codes && d.codes[c].allocation in d.allocations
  {
    var row := d.codes[c];
    var fresh0 := FreshAllocation(row.authorized);
    match row.status
    case Active =>
      && row.consumed == 0
      && d.allocations[row.allocation] == fresh0
      && CountOf(d.transactions, row.id) == 0
    case Consumed =>
      && d.allocations[row.allocation] == SettleAllocation(fresh0, row.consumed)
      && CountOf(d.transactions, row.id) == 1
      && LatestOf(d.transactions, row.id) == Some(NewTransaction(row, fresh0, row.consumed))
  }

  ghost predicate CommittedNotMarked(s: System, c: Code) {
    exists w :: w in s.workers && s.workers[w].Settled? && s.workers[w].code == c
  }

  /** The consumed set holds consumed codes only, and misses one only while its settler is between commit
      and sadd. */
  ghost predicate ConsumedSetExact(s: System) {
    && (forall c <- s.store.consumed :: c in s.store.codes && s.store.codes[c].status == Consumed)
    && (forall c <- s.store.codes :: s.store.codes[c].status == Consumed ==>
          c in s.store.consumed || CommittedNotMarked(s, c))
  }

  /** Whoever is inside the critical section of an unsettled code has its lock, and is there alone. */
  ghost predicate LocksHeld(s: System) {
    && (forall w <- s.workers ::
          s.workers[w].HoldsLock() && s.workers[w].code !in s.store.consumed ==> s.workers[w].code in s.store.locks)
    && (forall v, w | v in s.workers && w in s.workers && v != w
                      && s.workers[v].HoldsLock() && s.workers[w].HoldsLock() ::
          s.workers[v].code in s.store.consumed || s.workers[v].code != s.workers[w].code)
  }

  /** The payload a code was issued with. */
  ghost predicate IssuedPayload(d: Store, c: Code, payload: Payload) {
    c in d.codes && payload == CachePayload(d.codes[c], d.codes[c].authorized)
  }

  ghost predicate SettledFacts(d: Store, c: Code, t: Transaction, successor: Option<Successor>) {
    && c in d.codes && d.codes[c].status == Consumed
    && LatestOf(d.transactions, d.codes[c].id) == Some(t)
    && (successor.Some? ==> IssuedPayload(d, successor.value.newCode, successor.value.payload))
  }

  /** A settlement has a successor exactly when more than a litre is left, and that for the litres left. */
  ghost predicate SuccessorFacts(d: Store, c: Code, t: Transaction, successor: Option<Successor>) {
    && c in d.codes
    && (successor.Some? <==> d.codes[c].authorized - t.actual > 1000)
    && (successor.Some? ==> successor.value.payload.remaining == d.codes[c].authorized - t.actual)
  }

  ghost predicate PhaseFacts(d: Store, p: Phase) {
    match p
    case Holding(_, _) => true
    case Replaying(c) => c in d.consumed
    case Cleared(c, _) => c !in d.consumed
    case Loaded(c, _, row, a) =>
      && c !in d.consumed
      && c in d.codes && row.(attempts := 0) == d.codes[c].(attempts := 0)
      && row.allocation in d.allocations && a == d.allocations[row.allocation]
    case Settled(c, t, successor) =>
      c !in d.consumed && SettledFacts(d, c, t, successor) && SuccessorFacts(d, c, t, successor)
    case Marked(c, t, successor) =>
      c in d.consumed && SettledFacts(d, c, t, successor) && SuccessorFacts(d, c, t, successor)
    case Evicted(c, t, successor) =>
      c in d.consumed && SettledFacts(d, c, t, successor) && SuccessorFacts(d, c, t, successor)
    case Finishing(c, reply) =>
      && (reply.Dispensed? ==>
            && SettledFacts(d, c, reply.transaction, reply.successor)
            && SuccessorFacts(d, c, reply.transaction, reply.successor))
      && (reply.Replayed? ==> SettledFacts(d, c, reply.transaction, None))
    case Asking(_) => true
    case Missed(_) => true
    case Granted(c, payload) => IssuedPayload(d, c, payload)
  }

  ghost predicate CacheIssued(d: Store) {
    forall c <- d.cache :: IssuedPayload(d, c, d.cache[c])
  }

  ghost predicate RowsConsistent(d: Store) {
    && RowsPaired(d)
    && forall c <- d.codes :: RowSettled(d, c)
  }

  ghost predicate AllFacts(s: System) {
    forall w <- s.workers :: PhaseFacts(s.store, s.workers[w])
  }

  ghost predicate Inv(s: System) {
    && RowsConsistent(s.store)
    && ConsumedSetExact(s)
    && LocksHeld(s)
    && AllFacts(s)
    && CacheIssued(s.store)
  }

  // ---------------------------------------------------------------- transactions

  lemma {:induction false} CountFresh(transactions: seq<Transaction>, id: Id)
    requires forall t <- transactions :: t.codeId < id
    ensures CountOf(transactions, id) == 0
  {
    if transactions != [] {
      CountFresh(transactions[..|transactions| - 1], id);
    }
  }

  lemma CountAppend(transactions: seq<Transaction>, t: Transaction, id: Id)
    ensures CountOf(transactions + [t], id) == CountOf(transactions, id) + if t.codeId == id then 1 else 0
    ensures LatestOf(transactions + [t], id) == if t.codeId == id then Some(t) else LatestOf(transactions, id)
  {
  }

  // ---------------------------------------------------------------- framing

  ghost predicate SameTables(d: Store, d': Store) {
    && d'.codes == d.codes && d'.allocations == d.allocations && d'.transactions == d.transactions
    && d'.nextId == d.nextId && d'.consumed == d.consumed
  }

  /** Codes keep their identity and consumed codes keep their row and latest transaction. */
  ghost predicate Extends(d: Store, d': Store) {
    && d'.consumed == d.consumed
    && (forall c <- d.codes ::
          && c in d'.codes
          && d'.codes[c].(attempts := 0, consumed := 0, status := Active)
             == d.codes[c].(attempts := 0, consumed := 0, status := Active)
          && (d.codes[c].status == Consumed ==>
                && d'.codes[c] == d.codes[c]
                && LatestOf(d'.transactions, d.codes[c].id) == LatestOf(d.transactions, d.codes[c].id)))
  }

  lemma SameTablesKeepRows(d: Store, d': Store)
    requires SameTables(d, d') && RowsConsistent(d)
    ensures RowsConsistent(d') && Extends(d, d')
  {
  }

  lemma FactsExtend(d: Store, d': Store, p: Phase)
    requires Extends(d, d') && PhaseFacts(d, p)
    requires p.Loaded? ==>
               && p.code in d.codes && p.code in d'.codes
               && d'.codes[p.code].(attempts := 0) == d.codes[p.code].(attempts := 0)
               && p.row.allocation in d.allocations && p.row.allocation in d'.allocations
               && d'.allocations[p.row.allocation] == d.allocations[p.row.allocation]
    ensures PhaseFacts(d', p)
  {
  }

  lemma CacheExtends(d: Store, d': Store)
    requires Extends(d, d') && CacheIssued(d) && (forall c <- d'.cache :: c in d.cache && d'.cache[c] == d.cache[c])
    ensures CacheIssued(d')
  {
  }

  /** No worker enters or leaves the window between commit and sadd. */
  ghost predicate SameSettled(s: System, s': System) {
    forall w :: (w in s.workers && s.workers[w].Settled?) ==> w in s'.workers && s'.workers[w] == s.workers[w]
  }

  lemma ConsumedSetKept(s: System, s': System)
    requires ConsumedSetExact(s) && SameSettled(s, s') && s'.store.consumed == s.store.consumed
    requires forall c <- s.store.codes :: c in s'.store.codes && s'.store.codes[c].status == s.store.codes[c].status
    requires forall c <- s'.store.codes :: c !in s.store.codes ==> s'.store.codes[c].status == Active
    ensures ConsumedSetExact(s')
  {
  }

  /** A step of worker `w` that leaves tables and consumed set alone keeps everything but the lock and cache
      facts, which the caller supplies together with the facts of the worker's new phase. */
  lemma WorkerStep(s: System, s': System, w: Worker)
    requires Inv(s) && SameTables(s.store, s'.store)
    requires w in s.workers ==> !s.workers[w].Settled?
    requires forall v :: v != w ==> (v in s.workers <==> v in s'.workers)
    requires forall v :: v != w && v in s.workers ==> s'.workers[v] == s.workers[v]
    requires w in s'.workers ==> PhaseFacts(s'.store, s'.workers[w])
    requires LocksHeld(s') && CacheIssued(s'.store)
    ensures Inv(s')
  {
    SameTablesKeepRows(s.store, s'.store);
    ConsumedSetKept(s, s');
    hide PhaseFacts, RowsConsistent, Extends, ConsumedSetExact;
    forall v | v in s'.workers ensures PhaseFacts(s'.store, s'.workers[v]) {
      if v != w {
        TablesSame(s.store, s'.store, s.workers[v]);
      }
    }
  }

  lemma TablesSame(d: Store, d': Store, p: Phase)
    requires SameTables(d, d') && PhaseFacts(d, p)
    ensures PhaseFacts(d', p)
  {
  }

  // ---------------------------------------------------------------- steps that leave the tables alone

  lemma InitialInv()
    ensures Inv(INITIAL)
  {
  }

  lemma ReplayFindsTransaction(d: Store, c: Code)
    requires RowsConsistent(d) && c in d.codes && d.codes[c].status == Consumed
    ensures ReplayReply(d, c).Replayed? && SettledFacts(d, c, ReplayReply(d, c).transaction, None)
  {
  }

  predicate ReadsTables(step: Step) {
    match step
    case Upload(_, _) => false
    case Commit(_, _) => false
    case Mark(_) => false
    case Grant(_) => false
    case ExpireLock(_) => false
    case ExpireCache(_) => false
    case _ => true
  }

  /** Locks stay right when nobody enters a critical section, no lock is dropped and the consumed set only grows. */
  lemma SameHolders(s: System, s': System)
    requires LocksHeld(s) && s.store.locks <= s'.store.locks && s.store.consumed <= s'.store.consumed
    requires forall w <- s'.workers :: s'.workers[w].HoldsLock() ==>
               w in s.workers && s.workers[w].HoldsLock() && s'.workers[w].code == s.workers[w].code
    ensures LocksHeld(s')
  {
  }

  predicate MovesLock(step: Step) {
    step.Acquire? || step.Release? || step.ExpireLock?
  }

  lemma OthersKeepHolders(s: System, step: Step)
    requires Enabled(s, step) && !MovesLock(step)
    ensures var s' := Next(s, step);
            && s'.store.locks == s.store.locks && s.store.consumed <= s'.store.consumed
            && forall w <- s'.workers :: s'.workers[w].HoldsLock() ==>
                 w in s.workers && s.workers[w].HoldsLock() && s'.workers[w].code == s.workers[w].code
  {
    hide IsPartial, NewTransaction, NewSuccessor, ReplayReply, LatestOf;
  }

  lemma LockMoves(s: System, step: Step)
    requires LocksHeld(s) && Enabled(s, step) && MovesLock(step)
    ensures LocksHeld(Next(s, step))
  {
  }

  lemma LocksKept(s: System, step: Step)
    requires LocksHeld(s) && Enabled(s, step)
    ensures LocksHeld(Next(s, step))
  {
    hide *;
    if MovesLock(step) {
      LockMoves(s, step);
    } else {
      OthersKeepHolders(s, step);
      SameHolders(s, Next(s, step));
    }
  }

  lemma CacheKept(s: System, step: Step)
    requires Inv(s) && Enabled(s, step) && (ReadsTables(step) || step.ExpireLock? || step.ExpireCache?)
    ensures CacheIssued(Next(s, step).store)
  {
    if step.CacheSuccessor? || step.WriteCache? {
      assert PhaseFacts(s.store, s.workers[step.w]);
      hide RowsConsistent, ConsumedSetExact, LocksHeld, AllFacts;
    } else {
      hide RowsConsistent, ConsumedSetExact, LocksHeld, AllFacts, IssuedPayload;
      CacheShrinks(s, step);
      forall c | c in Next(s, step).store.cache
        ensures IssuedPayload(Next(s, step).store, c, Next(s, step).store.cache[c])
      {
        SamePayload(s.store, Next(s, step).store, c, s.store.cache[c]);
      }
    }
  }

  lemma CacheShrinks(s: System, step: Step)
    requires Enabled(s, step) && (ReadsTables(step) || step.ExpireLock? || step.ExpireCache?)
    requires !step.CacheSuccessor? && !step.WriteCache?
    ensures var d, d' := s.store, Next(s, step).store;
            d'.codes == d.codes && forall c <- d'.cache :: c in d.cache && d'.cache[c] == d.cache[c]
  {
    hide ReplayReply;
  }

  lemma SamePayload(d: Store, d': Store, c: Code, payload: Payload)
    requires IssuedPayload(d, c, payload) && d'.codes == d.codes
    ensures IssuedPayload(d', c, payload)
  {
  }

  lemma NewFacts(s: System, step: Step)
    requires Inv(s) && Enabled(s, step) && ReadsTables(step)
    ensures var s' := Next(s, step); step.w in s'.workers ==> PhaseFacts(s'.store, s'.workers[step.w])
  {
    match step
    case FindExisting(w) =>
      assert PhaseFacts(s.store, s.workers[w]);
      ReplayFindsTransaction(s.store, s.workers[w].code);
    case Load(w) => assert PhaseFacts(s.store, s.workers[w]);
    case Evict(w) => assert PhaseFacts(s.store, s.workers[w]);
    case CacheSuccessor(w) => assert PhaseFacts(s.store, s.workers[w]);
    case _ =>
  }

  /** Such a step moves one worker, not a settler, and leaves the others and the tables alone. */
  lemma ReadingStepFrame(s: System, step: Step)
    requires Enabled(s, step) && ReadsTables(step)
    ensures var s', w := Next(s, step), step.w;
            && SameTables(s.store, s'.store)
            && (w in s.workers ==> !s.workers[w].Settled?)
            && (forall v :: v != w ==> (v in s.workers <==> v in s'.workers))
            && (forall v :: v != w && v in s.workers ==> s'.workers[v] == s.workers[v])
  {
  }

  lemma ReadingStepKeeps(s: System, step: Step)
    requires Inv(s) && Enabled(s, step) && ReadsTables(step)
    ensures Inv(Next(s, step))
  {
    LocksKept(s, step);
    CacheKept(s, step);
    NewFacts(s, step);
    ReadingStepFrame(s, step);
    hide *;
    WorkerStep(s, Next(s, step), step.w);
  }

  lemma ExpiryKeeps(s: System, step: Step)
    requires Inv(s) && Enabled(s, step) && (step.ExpireLock? || step.ExpireCache?)
    ensures Inv(Next(s, step))
  {
    LocksKept(s, step);
    CacheKept(s, step);
    var s' := Next(s, step);
    hide PhaseFacts, RowsPaired, RowSettled, Extends;
    SameTablesKeepRows(s.store, s'.store);
    ConsumedSetKept(s, s');
    forall v | v in s'.workers ensures PhaseFacts(s'.store, s'.workers[v]) {
      TablesSame(s.store, s'.store, s.workers[v]);
    }
  }

  // ---------------------------------------------------------------- steps that write rows

  lemma IssueKeepsPairing(d: Store, code: Code, liters: nat)
    requires RowsPaired(d) && code !in d.codes
    ensures RowsPaired(Issue(d, code, liters))
  {
  }

  lemma IssueKeepsRow(d: Store, code: Code, liters: nat, c: Code)
    requires RowsPaired(d) && code !in d.codes && c in d.codes && RowSettled(d, c)
    ensures RowsPaired(Issue(d, code, liters)) && RowSettled(Issue(d, code, liters), c)
  {
    IssueKeepsPairing(d, code, liters);
  }

  lemma IssuedRowSettled(d: Store, code: Code, liters: nat)
    requires RowsPaired(d) && code !in d.codes
    ensures RowsPaired(Issue(d, code, liters)) && RowSettled(Issue(d, code, liters), code)
  {
    IssueKeepsPairing(d, code, liters);
    CountFresh(d.transactions, d.nextId + 1);
  }

  /** New rows with fresh ids leave everything known about old rows as it was. */
  lemma IssueKeepsRows(d: Store, code: Code, liters: nat)
    requires RowsConsistent(d) && code !in d.codes
    ensures RowsConsistent(Issue(d, code, liters))
    ensures Extends(d, Issue(d, code, liters))
    ensures IssuedPayload(Issue(d, code, liters), code, Payload(d.nextId + 1, d.nextId, liters))
  {
    var d' := Issue(d, code, liters);
    IssuedRowSettled(d, code, liters);
    hide RowSettled, RowsPaired;
    forall c | c in d'.codes ensures RowSettled(d', c) {
      if c != code {
        IssueKeepsRow(d, code, liters, c);
      }
    }
  }

  lemma FactsAcrossIssue(d: Store, code: Code, liters: nat, p: Phase)
    requires RowsConsistent(d) && code !in d.codes && PhaseFacts(d, p)
    ensures PhaseFacts(Issue(d, code, liters), p)
  {
  }

  lemma UploadKeeps(s: System, code: Code, liters: nat)
    requires Inv(s) && Enabled(s, Upload(code, liters))
    ensures Inv(Next(s, Upload(code, liters)))
  {
    var s' := Next(s, Upload(code, liters));
    IssueKeepsRows(s.store, code, liters);
    CacheExtends(s.store, s'.store);
    ConsumedSetKept(s, s');
    LocksKept(s, Upload(code, liters));
    hide LocksHeld, ConsumedSetExact;
    forall w | w in s'.workers ensures PhaseFacts(s'.store, s'.workers[w]) {
      FactsAcrossIssue(s.store, code, liters, s.workers[w]);
    }
    hide PhaseFacts, RowsPaired, RowSettled, Extends, ConsumedSetExact, IssuedPayload, CacheIssued;
  }

  lemma GrantKeeps(s: System, w: Worker)
    requires Inv(s) && Enabled(s, Grant(w))
    ensures Inv(Next(s, Grant(w)))
  {
    var s' := Next(s, Grant(w));
    GrantKeepsRows(s, w);
    GrantKeepsFacts(s, w);
    LocksKept(s, Grant(w));
    CacheExtends(s.store, s'.store);
    hide PhaseFacts, RowsConsistent, Extends, IssuedPayload, CacheIssued, LocksHeld;
    ConsumedSetKept(s, s');
  }

  lemma GrantKeepsFacts(s: System, w: Worker)
    requires Inv(s) && Enabled(s, Grant(w))
    ensures AllFacts(Next(s, Grant(w)))
  {
    var s' := Next(s, Grant(w));
    GrantKeepsRows(s, w);
    GrantIssuesPayload(s, w);
    hide RowsConsistent, CacheIssued, ConsumedSetExact, LocksHeld, PhaseFacts, Extends;
    forall v | v in s'.workers ensures PhaseFacts(s'.store, s'.workers[v]) {
      if v != w {
        assert PhaseFacts(s.store, s.workers[v]);
        FactsExtend(s.store, s'.store, s.workers[v]);
      }
    }
  }

  lemma GrantIssuesPayload(s: System, w: Worker)
    requires Inv(s) && Enabled(s, Grant(w))
    ensures w in Next(s, Grant(w)).workers && PhaseFacts(Next(s, Grant(w)).store, Next(s, Grant(w)).workers[w])
  {
    assert RowSettled(s.store, s.workers[w].code);
  }

  lemma GrantKeepsRows(s: System, w: Worker)
    requires Inv(s) && Enabled(s, Grant(w))
    ensures RowsConsistent(Next(s, Grant(w)).store)
    ensures Extends(s.store, Next(s, Grant(w)).store)
  {
    var d, d' := s.store, Next(s, Grant(w)).store;
    forall c | c in d'.codes ensures RowSettled(d', c) {
      assert RowSettled(d, c);
    }
  }

  lemma MarkKeeps(s: System, w: Worker)
    requires Inv(s) && Enabled(s, Mark(w))
    ensures Inv(Next(s, Mark(w)))
  {
    var s' := Next(s, Mark(w));
    MarkKeepsConsumedSet(s, w);
    MarkKeepsFacts(s, w);
    LocksKept(s, Mark(w));
    hide PhaseFacts, RowSettled, RowsPaired, ConsumedSetExact, LocksHeld, IssuedPayload;
    forall c | c in s'.store.codes ensures RowsPaired(s'.store) && RowSettled(s'.store, c) {
      RowUnmarked(s.store, s'.store, c);
    }
    PairingUnmarked(s.store, s'.store);
    forall c | c in s'.store.cache ensures IssuedPayload(s'.store, c, s'.store.cache[c]) {
      PayloadUnmarked(s.store, s'.store, c, s.store.cache[c]);
    }
  }

  lemma PairingUnmarked(d: Store, d': Store)
    requires RowsPaired(d) && d' == d.(consumed := d'.consumed)
    ensures RowsPaired(d')
  {
  }

  lemma RowUnmarked(d: Store, d': Store, c: Code)
    requires RowsPaired(d) && d' == d.(consumed := d'.consumed) && c in d.codes && RowSettled(d, c)
    ensures RowsPaired(d') && RowSettled(d', c)
  {
  }

  lemma PayloadUnmarked(d: Store, d': Store, c: Code, payload: Payload)
    requires IssuedPayload(d, c, payload) && d' == d.(consumed := d'.consumed)
    ensures IssuedPayload(d', c, payload)
  {
  }

  lemma MarkKeepsConsumedSet(s: System, w: Worker)
    requires Inv(s) && Enabled(s, Mark(w))
    ensures ConsumedSetExact(Next(s, Mark(w)))
  {
    var s' := Next(s, Mark(w));
    var code := s.workers[w].code;
    assert PhaseFacts(s.store, s.workers[w]);
    hide RowsConsistent, LocksHeld, CacheIssued, AllFacts, PhaseFacts;
    forall c | c in s'.store.codes && s'.store.codes[c].status == Consumed
      ensures c in s'.store.consumed || CommittedNotMarked(s', c)
    {
      if c !in s.store.consumed && c != code {
        var v :| v in s.workers && s.workers[v].Settled? && s.workers[v].code == c;
        assert v in s'.workers;
      }
    }
  }

  lemma MarkKeepsFacts(s: System, w: Worker)
    requires Inv(s) && Enabled(s, Mark(w))
    ensures AllFacts(Next(s, Mark(w)))
  {
    var s', code := Next(s, Mark(w)), s.workers[w].code;
    forall v | v in s.workers && v != w
      ensures (s.workers[v].Cleared? || s.workers[v].Loaded? || s.workers[v].Settled?) ==> s.workers[v].code != code
    {
      assert PhaseFacts(s.store, s.workers[w]);
    }
    assert PhaseFacts(s.store, s.workers[w]);
    hide RowsConsistent, CacheIssued, ConsumedSetExact, LocksHeld, PhaseFacts;
    forall v | v in s'.workers ensures PhaseFacts(s'.store, s'.workers[v]) {
      if v == w {
        MarkerFacts(s.store, s.workers[w]);
      } else {
        MarkedElsewhere(s.store, code, s.workers[v]);
      }
    }
  }

  lemma MarkerFacts(d: Store, p: Phase)
    requires p.Settled? && PhaseFacts(d, p)
    ensures PhaseFacts(d.(consumed := d.consumed + {p.code}), Marked(p.code, p.transaction, p.successor))
  {
  }

  lemma MarkedElsewhere(d: Store, code: Code, p: Phase)
    requires PhaseFacts(d, p) && ((p.Cleared? || p.Loaded? || p.Settled?) ==> p.code != code)
    ensures PhaseFacts(d.(consumed := d.consumed + {code}), p)
  {
  }

  /** The transaction of `complete_dispense` settles an ACTIVE row exactly once. */
  lemma SettleKeepsRows(d: Store, code: Code, actual: nat, row: CodeRow, a: Allocation)
    requires RowsConsistent(d) && code in d.codes && d.codes[code].status == Active
    requires row.(attempts := 0) == d.codes[code].(attempts := 0)
    requires row.allocation in d.allocations && a == d.allocations[row.allocation]
    ensures RowsConsistent(SettleRows(d, code, actual, row, a))
    ensures Extends(d, SettleRows(d, code, actual, row, a))
    ensures SettledFacts(SettleRows(d, code, actual, row, a), code, NewTransaction(row, a, actual), None)
  {
    SettledRowSettled(d, code, actual, row, a);
    SettleExtends(d, code, actual, row, a);
    hide RowSettled, RowsPaired, SettledFacts, Extends;
    forall c | c in SettleRows(d, code, actual, row, a).codes
      ensures RowSettled(SettleRows(d, code, actual, row, a), c)
    {
      if c != code {
        SettleKeepsRow(d, code, actual, row, a, c);
      }
    }
  }

  lemma SettleExtends(d: Store, code: Code, actual: nat, row: CodeRow, a: Allocation)
    requires RowsConsistent(d) && code in d.codes && d.codes[code].status == Active
    requires row.(attempts := 0) == d.codes[code].(attempts := 0)
    ensures Extends(d, SettleRows(d, code, actual, row, a))
  {
  }

  lemma SettleKeepsRow(d: Store, code: Code, actual: nat, row: CodeRow, a: Allocation, c: Code)
    requires RowsPaired(d) && code in d.codes && row.(attempts := 0) == d.codes[code].(attempts := 0)
    requires c in d.codes && c != code && RowSettled(d, c)
    ensures RowsPaired(SettleRows(d, code, actual, row, a)) && RowSettled(SettleRows(d, code, actual, row, a), c)
    ensures LatestOf(SettleRows(d, code, actual, row, a).transactions, d.codes[c].id)
         == LatestOf(d.transactions, d.codes[c].id)
  {
    SettleKeepsPairing(d, code, actual, row, a);
    CountAppend(d.transactions, NewTransaction(row, a, actual), d.codes[c].id);
  }

  lemma SettleKeepsPairing(d: Store, code: Code, actual: nat, row: CodeRow, a: Allocation)
    requires RowsPaired(d) && code in d.codes && row.(attempts := 0) == d.codes[code].(attempts := 0)
    ensures RowsPaired(SettleRows(d, code, actual, row, a))
  {
  }

  lemma SettledRowSettled(d: Store, code: Code, actual: nat, row: CodeRow, a: Allocation)
    requires RowsPaired(d) && code in d.codes && d.codes[code].status == Active && RowSettled(d, code)
    requires row.(attempts := 0) == d.codes[code].(attempts := 0)
    requires row.allocation in d.allocations && a == d.allocations[row.allocation]
    ensures RowsPaired(SettleRows(d, code, actual, row, a)) && RowSettled(SettleRows(d, code, actual, row, a), code)
    ensures SettledFacts(SettleRows(d, code, actual, row, a), code, NewTransaction(row, a, actual), None)
  {
    SettleKeepsPairing(d, code, actual, row, a);
    assert row.id == d.codes[code].id && row.allocation == d.codes[code].allocation;
    CountAppend(d.transactions, NewTransaction(row, a, actual), row.id);
  }

  /** Only the settled code and the freshly issued one differ. */
  ghost predicate OthersUntouched(d: Store, d': Store, code: Code) {
    && d'.cache == d.cache && d'.locks == d.locks
    && (forall c <- d.codes :: c in d'.codes && (c != code ==>
          && d'.codes[c] == d.codes[c]
          && d.codes[c].allocation in d.allocations && d.codes[c].allocation in d'.allocations
          && d'.allocations[d.codes[c].allocation] == d.allocations[d.codes[c].allocation]))
    && (forall c <- d'.codes :: c !in d.codes ==> d'.codes[c].status == Active)
  }

  lemma CommitTouches(d: Store, code: Code, actual: nat, row: CodeRow, a: Allocation, newCode: Code)
    requires RowsPaired(d) && code in d.codes && row.(attempts := 0) == d.codes[code].(attempts := 0)
    requires IsPartial(a.remaining, actual) ==> newCode !in d.codes
    ensures OthersUntouched(d, CommitRows(d, code, actual, row, a, newCode), code)
  {
    hide NewTransaction, SettleAllocation;
    assert row.allocation == d.codes[code].allocation;
    assert d.nextId !in d.allocations;
    var settled := SettleRows(d, code, actual, row, a);
    SettleTouches(d, code, actual, row, a);
    if IsPartial(a.remaining, actual) {
      IssueTouches(d, settled, code, newCode, a.remaining - actual);
    }
  }

  lemma SettleTouches(d: Store, code: Code, actual: nat, row: CodeRow, a: Allocation)
    requires RowsPaired(d) && code in d.codes && row.allocation == d.codes[code].allocation
    ensures OthersUntouched(d, SettleRows(d, code, actual, row, a), code)
  {
  }

  lemma IssueTouches(d: Store, settled: Store, code: Code, newCode: Code, liters: nat)
    requires OthersUntouched(d, settled, code) && RowsPaired(d) && settled.nextId == d.nextId
    requires code in d.codes && newCode !in d.codes
    ensures OthersUntouched(d, Issue(settled, newCode, liters), code)
  {
  }

  lemma CommitKeepsRows(d: Store, code: Code, actual: nat, row: CodeRow, a: Allocation, newCode: Code)
    requires RowsConsistent(d) && code in d.codes && d.codes[code].status == Active
    requires row.(attempts := 0) == d.codes[code].(attempts := 0)
    requires row.allocation in d.allocations && a == d.allocations[row.allocation]
    requires IsPartial(a.remaining, actual) ==> newCode !in d.codes
    ensures RowsConsistent(CommitRows(d, code, actual, row, a, newCode))
    ensures Extends(d, CommitRows(d, code, actual, row, a, newCode))
    ensures SettledFacts(CommitRows(d, code, actual, row, a, newCode), code, NewTransaction(row, a, actual),
                         NewSuccessor(d, actual, a, newCode))
    ensures OthersUntouched(d, CommitRows(d, code, actual, row, a, newCode), code)
  {
    hide RowsPaired, RowSettled, OthersUntouched, SettleRows;
    var settled := SettleRows(d, code, actual, row, a);
    SettleKeepsRows(d, code, actual, row, a);
    CommitTouches(d, code, actual, row, a, newCode);
    if IsPartial(a.remaining, actual) {
      IssueAfterSettle(d, settled, code, actual, row, a, newCode);
    }
  }

  lemma IssueAfterSettle(d: Store, settled: Store, code: Code, actual: nat, row: CodeRow, a: Allocation, newCode: Code)
    requires code in d.codes && settled == SettleRows(d, code, actual, row, a) && RowsConsistent(settled)
    requires Extends(d, settled) && newCode !in d.codes && IsPartial(a.remaining, actual)
    requires SettledFacts(settled, code, NewTransaction(row, a, actual), None)
    ensures RowsConsistent(CommitRows(d, code, actual, row, a, newCode))
    ensures Extends(d, CommitRows(d, code, actual, row, a, newCode))
    ensures SettledFacts(CommitRows(d, code, actual, row, a, newCode), code, NewTransaction(row, a, actual),
                         NewSuccessor(d, actual, a, newCode))
  {
    hide RowsPaired, RowSettled;
    assert settled.nextId == d.nextId && newCode !in settled.codes;
    var issued := Issue(settled, newCode, a.remaining - actual);
    IssueKeepsRows(settled, newCode, a.remaining - actual);
    SameTablesKeepRows(issued, CommitRows(d, code, actual, row, a, newCode));
  }

  lemma CommitKeeps(s: System, w: Worker, newCode: Code)
    requires Inv(s) && Enabled(s, Commit(w, newCode))
    ensures Inv(Next(s, Commit(w, newCode)))
  {
    var s' := Next(s, Commit(w, newCode));
    var p := s.workers[w];
    LoadedIsActive(s, w);
    CommitKeepsRows(s.store, p.code, p.actual, p.row, p.allocation, newCode);
    LocksKept(s, Commit(w, newCode));
    CommitKeepsConsumedSet(s, w, newCode);
    CommitKeepsFacts(s, w, newCode);
    hide PhaseFacts, RowsPaired, RowSettled, ConsumedSetExact, LocksHeld, SettledFacts;
    CacheExtends(s.store, s'.store);
  }

  lemma CommitKeepsFacts(s: System, w: Worker, newCode: Code)
    requires Inv(s) && Enabled(s, Commit(w, newCode))
    ensures AllFacts(Next(s, Commit(w, newCode)))
  {
    var s' := Next(s, Commit(w, newCode));
    var p := s.workers[w];
    LoadedIsActive(s, w);
    CommitKeepsRows(s.store, p.code, p.actual, p.row, p.allocation, newCode);
    hide Inv, PhaseFacts, SettledFacts, Extends, RowsConsistent, OthersUntouched, CommitRows;
    forall v | v in s'.workers ensures PhaseFacts(s'.store, s'.workers[v]) {
      if v == w {
        SettlerFacts(s, w, newCode);
      } else {
        BystanderFacts(s, w, newCode, v);
      }
    }
  }

  lemma SettlerFacts(s: System, w: Worker, newCode: Code)
    requires Enabled(s, Commit(w, newCode)) && PhaseFacts(s.store, s.workers[w])
    requires var p := s.workers[w];
             SettledFacts(CommitRows(s.store, p.code, p.actual, p.row, p.allocation, newCode), p.code,
                          NewTransaction(p.row, p.allocation, p.actual),
                          NewSuccessor(s.store, p.actual, p.allocation, newCode))
    requires s.store.codes[s.workers[w].code].authorized == s.workers[w].allocation.remaining
    ensures PhaseFacts(Next(s, Commit(w, newCode)).store, Next(s, Commit(w, newCode)).workers[w])
  {
  }

  lemma BystanderFacts(s: System, w: Worker, newCode: Code, v: Worker)
    requires Inv(s) && Enabled(s, Commit(w, newCode)) && v in s.workers && v != w
    requires Extends(s.store, Next(s, Commit(w, newCode)).store)
    requires OthersUntouched(s.store, Next(s, Commit(w, newCode)).store, s.workers[w].code)
    ensures PhaseFacts(Next(s, Commit(w, newCode)).store, s.workers[v])
  {
    hide RowsConsistent, ConsumedSetExact, CacheIssued, Extends, CommitRows;
    assert PhaseFacts(s.store, s.workers[v]);
    FactsExtend(s.store, Next(s, Commit(w, newCode)).store, s.workers[v]);
  }

  /** A worker that has loaded its rows holds the lock of a code nobody has settled. */
  lemma LoadedIsActive(s: System, w: Worker)
    requires Inv(s) && w in s.workers && s.workers[w].Loaded?
    ensures PhaseFacts(s.store, s.workers[w])
    ensures s.store.codes[s.workers[w].code].status == Active
    ensures s.store.codes[s.workers[w].code].authorized == s.workers[w].allocation.remaining
  {
    assert PhaseFacts(s.store, s.workers[w]);
    assert RowSettled(s.store, s.workers[w].code);
  }

  lemma CommitKeepsConsumedSet(s: System, w: Worker, newCode: Code)
    requires Inv(s) && Enabled(s, Commit(w, newCode))
    ensures ConsumedSetExact(Next(s, Commit(w, newCode)))
  {
    var s' := Next(s, Commit(w, newCode));
    var p := s.workers[w];
    LoadedIsActive(s, w);
    CommitKeepsRows(s.store, p.code, p.actual, p.row, p.allocation, newCode);
    hide Inv, RowsConsistent, SettledFacts, OthersUntouched, Extends, ConsumedSetExact, PhaseFacts;
    SettlerAddsCode(s, s', w, p.code);
  }

  lemma SettlerAddsCode(s: System, s': System, w: Worker, code: Code)
    requires ConsumedSetExact(s) && w in s.workers && !s.workers[w].Settled?
    requires s'.workers.Keys == s.workers.Keys && s'.workers[w].Settled? && s'.workers[w].code == code
    requires forall v <- s.workers :: v != w ==> s'.workers[v] == s.workers[v]
    requires OthersUntouched(s.store, s'.store, code) && Extends(s.store, s'.store) && code in s.store.codes
    ensures ConsumedSetExact(s')
  {
    forall c | c in s'.store.codes && s'.store.codes[c].status == Consumed
      ensures c in s'.store.consumed || CommittedNotMarked(s', c)
    {
      if c == code {
        assert w in s'.workers && s'.workers[w].Settled?;
      } else if c !in s.store.consumed {
        var v :| v in s.workers && s.workers[v].Settled? && s.workers[v].code == c;
        assert v in s'.workers;
      }
    }
  }

  /** Every step keeps the invariant. */
  lemma StepKeeps(s: System, step: Step)
    requires Inv(s) && Enabled(s, step)
    ensures Inv(Next(s, step))
  {
    hide Inv;
    match step
    case Upload(code, liters) => UploadKeeps(s, code, liters);
    case Commit(w, newCode) => CommitKeeps(s, w, newCode);
    case Mark(w) => MarkKeeps(s, w);
    case Grant(w) => GrantKeeps(s, w);
    case ExpireLock(_) => ExpiryKeeps(s, step);
    case ExpireCache(_) => ExpiryKeeps(s, step);
    case _ => ReadingStepKeeps(s, step);
  }

  lemma {:induction false} RunKeeps(s: System, steps: seq<Step>)
    requires Inv(s) && ValidRun(s, steps)
    ensures Inv(Run(s, steps))
    decreases |steps|
  {
    hide Inv;
    if steps != [] {
      StepKeeps(s, steps[0]);
      RunKeeps(Next(s, steps[0]), steps[1..]);
    }
  }
}
