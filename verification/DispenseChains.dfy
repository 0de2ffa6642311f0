/** Litres along a chain of successor allocations.

    A partial dispense leaves its remaining litres on the old allocation and starts a new allocation with
    the same amount, so only the tail of a chain may count its remaining litres.
 */
module DispenseChains {
  import opened Common
  import opened DispenseProtocol
  import opened DispenseInvariants

  // ---------------------------------------------------------------- the chain invariant

  /** An allocation is as issued, or as one settlement of `dispensed` litres leaves it. */
  ghost predicate Shaped(a: Allocation) {
    a == FreshAllocation(a.quota) || a == SettleAllocation(FreshAllocation(a.quota), a.dispensed)
  }

  /** Allocation `i` continues allocation `parents[i]`: an older one, settled partially, whose remaining litres
      are `i`'s quota. */
  ghost predicate Linked(d: Store, i: Id)
    requires i in d.parents
  {
    && i in d.allocations && d.parents[i] in d.allocations && d.parents[i] < i
    && d.allocations[d.parents[i]].status == PartialFulfilled
    && d.allocations[i].quota == d.allocations[d.parents[i]].remaining
  }

  ghost predicate Continued(d: Store, i: Id) {
    exists j :: j in d.parents && d.parents[j] == i
  }

  /** Chains are paths: every partially settled allocation has exactly one successor, no other has any. */
  ghost predicate ChainInv(d: Store) {
    && (forall i <- d.allocations :: Shaped(d.allocations[i]))
    && (forall i <- d.parents :: Linked(d, i))
    && (forall i <- d.allocations :: d.allocations[i].status == PartialFulfilled <==> Continued(d, i))
    && (forall i, j | i in d.parents && j in d.parents && i != j :: d.parents[i] != d.parents[j])
  }

  lemma UploadKeepsChains(s: System, code: Code, liters: nat)
    requires Inv(s) && ChainInv(s.store) && Enabled(s, Upload(code, liters))
    ensures ChainInv(Next(s, Upload(code, liters)).store)
  {
    var d, d' := s.store, Next(s, Upload(code, liters)).store;
    hide RowSettled, ConsumedSetExact, LocksHeld, PhaseFacts, CacheIssued;
    assert d.nextId !in d.allocations;
    forall i | i in d'.allocations ensures d'.allocations[i].status == PartialFulfilled <==> Continued(d', i) {
      assert Continued(d', i) <==> Continued(d, i);
    }
    forall i | i in d'.parents ensures Linked(d', i) {
      assert Linked(d, i);
    }
  }

  lemma CommitKeepsChains(s: System, w: Worker, newCode: Code)
    requires Inv(s) && ChainInv(s.store) && Enabled(s, Commit(w, newCode))
    ensures ChainInv(Next(s, Commit(w, newCode)).store)
  {
    var p := s.workers[w];
    LoadedIsActive(s, w);
    assert RowSettled(s.store, p.code);
    assert s.store.nextId !in s.store.allocations;
    hide Inv, PhaseFacts;
    SettlementKeepsChains(s.store, p.code, p.actual, p.row, p.allocation, newCode);
  }

  lemma SettlementKeepsChains(d: Store, code: Code, actual: nat, row: CodeRow, a: Allocation, newCode: Code)
    requires ChainInv(d) && code in d.codes && row.allocation in d.allocations
    requires a == d.allocations[row.allocation] == FreshAllocation(a.quota)
    requires d.nextId !in d.allocations && row.allocation < d.nextId
    ensures ChainInv(CommitRows(d, code, actual, row, a, newCode))
  {
    SettlementLinks(d, code, actual, row, a, newCode);
    SettlementContinues(d, code, actual, row, a, newCode);
    NoSecondSuccessor(d, row.allocation);
    hide Linked, Continued, IsPartial;
  }

  /** An unsettled allocation has no successor yet, so settling it gives it its only one. */
  lemma NoSecondSuccessor(d: Store, i: Id)
    requires ChainInv(d) && i in d.allocations && d.allocations[i].status != PartialFulfilled
    ensures forall j <- d.parents :: d.parents[j] != i
  {
  }

  lemma SettlementLinks(d: Store, code: Code, actual: nat, row: CodeRow, a: Allocation, newCode: Code)
    requires ChainInv(d) && code in d.codes && row.allocation in d.allocations
    requires a == d.allocations[row.allocation] == FreshAllocation(a.quota)
    requires d.nextId !in d.allocations && row.allocation < d.nextId
    ensures forall i <- CommitRows(d, code, actual, row, a, newCode).parents ::
              Linked(CommitRows(d, code, actual, row, a, newCode), i)
  {
  }

  lemma SettlementContinues(d: Store, code: Code, actual: nat, row: CodeRow, a: Allocation, newCode: Code)
    requires ChainInv(d) && code in d.codes && row.allocation in d.allocations
    requires a == d.allocations[row.allocation] == FreshAllocation(a.quota)
    requires d.nextId !in d.allocations && row.allocation < d.nextId
    ensures var d' := CommitRows(d, code, actual, row, a, newCode);
            forall i <- d'.allocations :: d'.allocations[i].status == PartialFulfilled <==> Continued(d', i)
  {
    var d' := CommitRows(d, code, actual, row, a, newCode);
    NoSecondSuccessor(d, row.allocation);
    forall i | i in d'.allocations ensures d'.allocations[i].status == PartialFulfilled <==> Continued(d', i) {
      if i == row.allocation {
        if IsPartial(a.remaining, actual) {
          assert d'.parents[d.nextId] == i;
        }
      } else if i in d.allocations {
        OldSuccessorStays(d, d', i);
      } else {
        NoSuccessorOfNew(d, d', i);
      }
    }
  }

  lemma OldSuccessorStays(d: Store, d': Store, i: Id)
    requires d.nextId !in d.allocations && (forall j <- d.parents :: j in d.allocations)
    requires || d'.parents == d.parents
             || (d.nextId in d'.parents && d'.parents == d.parents[d.nextId := d'.parents[d.nextId]]
                 && d'.parents[d.nextId] != i)
    ensures Continued(d', i) <==> Continued(d, i)
  {
    if Continued(d, i) {
      var j :| j in d.parents && d.parents[j] == i;
      assert j in d'.parents && d'.parents[j] == i;
    }
  }

  lemma NoSuccessorOfNew(d: Store, d': Store, i: Id)
    requires ChainInv(d) && i !in d.allocations
    requires forall j <- d'.parents :: j !in d.parents ==> d'.parents[j] in d.allocations
    requires forall j <- d'.parents :: j in d.parents ==> d'.parents[j] == d.parents[j]
    ensures !Continued(d', i)
  {
  }

  lemma StepKeepsChains(s: System, step: Step)
    requires Inv(s) && ChainInv(s.store) && Enabled(s, step)
    ensures ChainInv(Next(s, step).store)
  {
    match step
    case Upload(code, liters) => UploadKeepsChains(s, code, liters);
    case Commit(w, newCode) => CommitKeepsChains(s, w, newCode);
    case _ => OtherStepsKeepChains(s, step);
  }

  lemma OtherStepsKeepChains(s: System, step: Step)
    requires ChainInv(s.store) && Enabled(s, step) && !step.Upload? && !step.Commit?
    ensures ChainInv(Next(s, step).store)
  {
    hide ChainInv, ReplayReply, LatestOf, NewTransaction;
    SameChains(s.store, Next(s, step).store);
  }

  lemma SameChains(d: Store, d': Store)
    requires ChainInv(d) && d'.allocations == d.allocations && d'.parents == d.parents
    ensures ChainInv(d')
  {
  }

  lemma {:induction false} RunKeepsChains(s: System, steps: seq<Step>)
    requires Inv(s) && ChainInv(s.store) && ValidRun(s, steps)
    ensures ChainInv(Run(s, steps).store)
    decreases |steps|
  {
    if steps != [] {
      hide Inv, ChainInv;
      StepKeeps(s, steps[0]);
      StepKeepsChains(s, steps[0]);
      RunKeepsChains(Next(s, steps[0]), steps[1..]);
    }
  }

  // ---------------------------------------------------------------- conservation

  /** The allocation an upload started the chain of `i` with. */
  function Root(d: Store, i: Id): Id
  {
    if i in d.parents && d.parents[i] < i then Root(d, d.parents[i]) else i
  }

  /** Litres dispensed by allocation `i` and everything before it in its chain. */
  function ChainDispensed(d: Store, i: Id): nat
    requires i in d.allocations
    requires forall j <- d.parents :: d.parents[j] in d.allocations
  {
    d.allocations[i].dispensed
    + if i in d.parents && d.parents[i] < i then ChainDispensed(d, d.parents[i]) else 0
  }

  /** What the chain has dispensed before `i` plus `i`'s quota is the quota of the root. */
  lemma {:induction false} ChainBalance(d: Store, i: Id)
    requires ChainInv(d) && i in d.allocations
    ensures forall j <- d.parents :: d.parents[j] in d.allocations
    ensures Root(d, i) in d.allocations && Root(d, i) !in d.parents
    ensures ChainDispensed(d, i) - d.allocations[i].dispensed + d.allocations[i].quota
         == d.allocations[Root(d, i)].quota
    decreases i
  {
    assert forall j <- d.parents :: Linked(d, j);
    if i in d.parents {
      var p := d.parents[i];
      ChainBalance(d, p);
      assert Shaped(d.allocations[p]);
      PartialConserves(d.allocations[p]);
    }
  }

  lemma PartialConserves(a: Allocation)
    requires Shaped(a) && a.status == PartialFulfilled
    ensures a.dispensed + a.remaining == a.quota
  {
  }

  /** Litres are conserved along every chain of every reachable state: while the tail is unsettled, what the
      chain has dispensed plus what the tail still holds is the uploaded quota; once the tail is settled
      without over-dispensing, the chain has dispensed the quota up to the write-off and the grace, which
      are granted once for the whole chain and not once per partial dispense. */
  lemma EveryChainConserves(steps: seq<Step>, tail: Id)
    requires ValidRun(INITIAL, steps)
    requires tail in Run(INITIAL, steps).store.allocations
    requires Run(INITIAL, steps).store.allocations[tail].status != PartialFulfilled
    ensures var d := Run(INITIAL, steps).store;
            && (forall j <- d.parents :: d.parents[j] in d.allocations)
            && Root(d, tail) in d.allocations && Root(d, tail) !in d.parents
            && var quota, total, a := d.allocations[Root(d, tail)].quota, ChainDispensed(d, tail), d.allocations[tail];
            && (a.status == Pending ==> total + a.remaining == quota)
            && (a.status == Fulfilled ==>
                  && quota <= total + 1000
                  && (total <= quota + 500 <==> a.dispensed <= a.quota + 500))
  {
    InitialInv();
    assert ChainInv(INITIAL.store);
    hide *;
    RunKeepsChains(INITIAL, steps);
    ChainConserves(Run(INITIAL, steps).store, tail);
  }

  lemma ChainConserves(d: Store, tail: Id)
    requires ChainInv(d) && tail in d.allocations && d.allocations[tail].status != PartialFulfilled
    ensures && (forall j <- d.parents :: d.parents[j] in d.allocations)
            && Root(d, tail) in d.allocations && Root(d, tail) !in d.parents
            && var quota, total, a := d.allocations[Root(d, tail)].quota, ChainDispensed(d, tail), d.allocations[tail];
            && (a.status == Pending ==> total + a.remaining == quota)
            && (a.status == Fulfilled ==>
                  && quota <= total + 1000
                  && (total <= quota + 500 <==> a.dispensed <= a.quota + 500))
  {
    ChainBalance(d, tail);
    assert Shaped(d.allocations[tail]);
    hide ChainInv, ChainDispensed, Root;
  }

  /** The status of the tail's transaction says which of the two happened. */
  lemma EveryOverDispenseIsRecorded(steps: seq<Step>, c: Code)
    requires ValidRun(INITIAL, steps)
    requires c in Run(INITIAL, steps).store.codes && Run(INITIAL, steps).store.codes[c].status == Consumed
    ensures var d := Run(INITIAL, steps).store;
            && d.codes[c].allocation in d.allocations
            && LatestOf(d.transactions, d.codes[c].id).Some?
            && var a, t := d.allocations[d.codes[c].allocation], LatestOf(d.transactions, d.codes[c].id).value;
            && t.allocation == d.codes[c].allocation && t.actual == a.dispensed
            && (t.status == OverDispense <==> a.dispensed > a.quota + 500)
  {
    InitialInv();
    RunKeeps(INITIAL, steps);
    assert RowSettled(Run(INITIAL, steps).store, c);
  }

  /** An upload starts a new chain of its own and leaves root and litres of every old allocation as they were. */
  lemma UploadStartsChain(s: System, code: Code, liters: nat)
    requires Inv(s) && ChainInv(s.store) && Enabled(s, Upload(code, liters))
    ensures var d, d' := s.store, Next(s, Upload(code, liters)).store;
            && d.nextId in d'.allocations && Root(d', d.nextId) == d.nextId
            && (forall j <- d.parents :: d.parents[j] in d.allocations)
            && (forall j <- d'.parents :: d'.parents[j] in d'.allocations)
            && ChainDispensed(d', d.nextId) == 0 && d'.allocations[d.nextId].remaining == liters
            && forall i <- d.allocations :: Root(d', i) == Root(d, i) && ChainDispensed(d', i) == ChainDispensed(d, i)
  {
    var d, d' := s.store, Next(s, Upload(code, liters)).store;
    UploadKeepsChains(s, code, liters);
    assert d.nextId !in d.allocations && d.nextId !in d.parents by {
      assert d.nextId in d.parents ==> Linked(d, d.nextId);
    }
    forall j | j in d.parents
      ensures d.parents[j] in d.allocations && d'.parents[j] in d'.allocations
    {
      assert Linked(d, j);
    }
    forall i | i in d.allocations
      ensures Root(d', i) == Root(d, i) && ChainDispensed(d', i) == ChainDispensed(d, i)
    {
      SameChainBelow(d, d', i);
    }
  }

  /** Root and litres of a chain depend on the rows of the chain only. */
  lemma {:induction false} SameChainBelow(d: Store, d': Store, i: Id)
    requires i in d.allocations && d'.parents == d.parents
    requires (forall j <- d.parents :: d.parents[j] in d.allocations) && d.allocations.Keys <= d'.allocations.Keys
    requires forall j <- d.allocations :: d'.allocations[j] == d.allocations[j]
    ensures Root(d', i) == Root(d, i) && ChainDispensed(d', i) == ChainDispensed(d, i)
    decreases i
  {
    if i in d.parents && d.parents[i] < i {
      SameChainBelow(d, d', d.parents[i]);
    }
  }
}
