/** What settlements and validations do to litres, codes and counters, in numbers: in every state that any interleaving
    of requests can reach.
 */
module DispenseAmounts {
  import opened Common
  import opened DispenseProtocol
  import opened DispenseInvariants
  import opened DispenseTheorems
  import opened DispenseChains
  import opened DispenseReplies

  // ---------------------------------------------------------------- litres

  /** A code, its allocation and its transaction in numbers: unsettled, it holds its whole quota; settled, its
      allocation is partially fulfilled if and only if more than a litre is left, and holds what is left. */
  lemma EverySettlementExact(steps: seq<Step>, c: Code)
    requires ValidRun(INITIAL, steps) && c in Run(INITIAL, steps).store.codes
    ensures var d := Run(INITIAL, steps).store;
            && d.codes[c].allocation in d.allocations
            && var row, a, settled := d.codes[c], d.allocations[d.codes[c].allocation],
                                      CountOf(d.transactions, d.codes[c].id);
            && row.authorized == a.quota && row.consumed == a.dispensed && settled <= 1
            && (settled == 0 ==>
                  row.status == Active && a.status == Pending && a.dispensed == 0 && a.remaining == a.quota)
            && (settled == 1 ==>
                  && row.status == Consumed
                  && (a.status == PartialFulfilled <==> a.quota - a.dispensed > 1000)
                  && (a.status == Fulfilled <==> a.quota - a.dispensed <= 1000)
                  && a.remaining == if a.quota > a.dispensed then a.quota - a.dispensed else 0)
  {
    InitialInv();
    RunKeeps(INITIAL, steps);
    assert RowSettled(Run(INITIAL, steps).store, c);
  }

  /** Every allocation has a code. */
  ghost predicate Coded(d: Store) {
    forall i <- d.allocations :: exists c <- d.codes :: d.codes[c].allocation == i
  }

  lemma StepKeepsCoded(s: System, step: Step)
    requires Inv(s) && Coded(s.store) && Enabled(s, step)
    ensures Coded(Next(s, step).store)
  {
    var d, d' := s.store, Next(s, step).store;
    CodesKeepAllocation(s, step);
    hide Inv, Enabled, Next;
    forall i | i in d'.allocations
      ensures exists c <- d'.codes :: d'.codes[c].allocation == i
    {
      if i in d.allocations {
        var c :| c in d.codes && d.codes[c].allocation == i;
        assert c in d'.codes && d'.codes[c].allocation == i;
      }
    }
  }

  /** Codes keep their allocation, and a new allocation comes with a code. */
  lemma CodesKeepAllocation(s: System, step: Step)
    requires Inv(s) && Enabled(s, step)
    ensures var d, d' := s.store, Next(s, step).store;
            && (forall c <- d.codes :: c in d'.codes && d'.codes[c].allocation == d.codes[c].allocation)
            && (forall i <- d'.allocations :: i !in d.allocations ==>
                  exists c <- d'.codes :: d'.codes[c].allocation == i)
  {
    hide Inv, ReplayReply, CommitRows, NewTransaction, NewSuccessor;
    match step
    case Upload(code, liters) =>
      assert Next(s, step).store.codes[code].allocation == s.store.nextId;
    case Commit(w, newCode) =>
      var p := s.workers[w];
      LoadedIsActive(s, w);
      CommitKeepsAllocations(s.store, p.code, p.actual, p.row, p.allocation, newCode);
    case _ =>
  }

  lemma CommitKeepsAllocations(d: Store, code: Code, actual: nat, row: CodeRow, a: Allocation, newCode: Code)
    requires code in d.codes && row.allocation in d.allocations
    requires IsPartial(a.remaining, actual) ==> newCode !in d.codes
    ensures var d' := CommitRows(d, code, actual, row, a, newCode);
            && (forall c <- d.codes :: c in d'.codes && d'.codes[c].allocation == d.codes[c].allocation)
            && (forall i <- d'.allocations :: i !in d.allocations ==>
                  exists c <- d'.codes :: d'.codes[c].allocation == i)
  {
    hide NewTransaction, SettleAllocation;
    if IsPartial(a.remaining, actual) {
      assert CommitRows(d, code, actual, row, a, newCode).codes[newCode].allocation == d.nextId;
    }
  }

  lemma {:induction false} RunKeepsCoded(s: System, steps: seq<Step>)
    requires Inv(s) && Coded(s.store) && ValidRun(s, steps)
    ensures Coded(Run(s, steps).store)
    decreases |steps|
  {
    hide Inv, Coded, Next, Enabled;
    if steps != [] {
      StepKeeps(s, steps[0]);
      StepKeepsCoded(s, steps[0]);
      RunKeepsCoded(Next(s, steps[0]), steps[1..]);
    }
  }

  /** A successor exists if and only if a settlement left more than a litre; it is for exactly the litres left, and
      there is a code to draw them with. */
  ghost predicate ContinuedExactly(d: Store, i: Id)
    requires i in d.allocations
  {
    var a := d.allocations[i];
    && (Continued(d, i) <==> a.status != Pending && a.quota - a.dispensed > 1000)
    && forall j <- d.parents :: d.parents[j] == i ==>
         && j in d.allocations && d.allocations[j].quota == a.quota - a.dispensed
         && exists c <- d.codes :: d.codes[c].allocation == j && d.codes[c].authorized == a.quota - a.dispensed
  }

  /** So it is with every allocation of every reachable state. */
  lemma EverySuccessorExact(steps: seq<Step>, i: Id)
    requires ValidRun(INITIAL, steps) && i in Run(INITIAL, steps).store.allocations
    ensures ContinuedExactly(Run(INITIAL, steps).store, i)
  {
    InitialInv();
    assert ChainInv(INITIAL.store) && Coded(INITIAL.store);
    hide *;
    RunKeeps(INITIAL, steps);
    RunKeepsChains(INITIAL, steps);
    RunKeepsCoded(INITIAL, steps);
    InvRows(Run(INITIAL, steps));
    SuccessorExact(Run(INITIAL, steps).store, i);
  }

  lemma InvRows(s: System)
    requires Inv(s)
    ensures RowsConsistent(s.store)
  {
  }

  lemma SuccessorExact(d: Store, i: Id)
    requires RowsConsistent(d) && ChainInv(d) && Coded(d) && i in d.allocations
    ensures ContinuedExactly(d, i)
  {
    var a := d.allocations[i];
    assert DispenseChains.Shaped(a);
    forall j | j in d.parents && d.parents[j] == i
      ensures j in d.allocations && d.allocations[j].quota == a.quota - a.dispensed
      ensures exists c <- d.codes :: d.codes[c].allocation == j && d.codes[c].authorized == a.quota - a.dispensed
    {
      assert Linked(d, j);
      var c :| c in d.codes && d.codes[c].allocation == j;
      assert RowSettled(d, c);
    }
  }

  // ---------------------------------------------------------------- responses

  /** The answer to a settlement in numbers, whatever other requests have done: litres, status, and the block about the
      rest, with the code that draws it. */
  lemma EveryResponseExact(steps: seq<Step>, w: Worker)
    requires ValidRun(INITIAL, steps)
    requires var s := Run(INITIAL, steps);
             w in s.workers && s.workers[w].Finishing? && s.workers[w].reply.Dispensed?
    ensures var d, c := Run(INITIAL, steps).store, Run(INITIAL, steps).workers[w].code;
            var answer := Answer(Run(INITIAL, steps).workers[w].reply);
            && c in d.codes && answer.Some? && answer.value.outcome.Some?
            && var r, o, left := answer.value, answer.value.outcome.value, d.codes[c].authorized - answer.value.actual;
            && r.transaction in d.transactions && r.transaction.codeId == d.codes[c].id
            && r.transaction.actual == r.actual == o.dispensed && o.originalCode == d.codes[c].id
            && (r.status == OVER_DISPENSE <==> left < -500)
            && (r.status == PARTIAL <==> left > 1000) && (o.partial <==> left > 1000)
            && o.remaining == (if left > 1000 then left else 0)
            && (NewCode(r).Some? <==> left > 1000)
            && (left > 1000 ==> NewCode(r).value in d.codes && d.codes[NewCode(r).value].authorized == left)
  {
    InitialInv();
    RunKeeps(INITIAL, steps);
    var s := Run(INITIAL, steps);
    SettlementFacts(s, w);
    assert PhaseFacts(s.store, s.workers[w]);
    hide Inv, Run, ValidRun;
  }

  /** A request that found its code in the consumed set is answered with the one transaction of that code. */
  lemma EveryReplayAnswered(steps: seq<Step>, w: Worker)
    requires ValidRun(INITIAL, steps)
    requires var s := Run(INITIAL, steps); w in s.workers && s.workers[w].Replaying?
    ensures var s := Run(INITIAL, steps);
            var c := s.workers[w].code;
            && Enabled(s, FindExisting(w)) && w in Next(s, FindExisting(w)).workers
            && var p := Next(s, FindExisting(w)).workers[w];
            && p.Finishing? && p.code == c && p.reply.Replayed? && c in s.store.codes
            && p.reply.transaction in s.store.transactions
            && forall t <- s.store.transactions :: t.codeId == s.store.codes[c].id <==> t == p.reply.transaction
  {
    var s := Run(INITIAL, steps);
    InitialInv();
    RunKeeps(INITIAL, steps);
    assert PhaseFacts(s.store, s.workers[w]);
    EveryRunReplaysFaithfully(steps, s.workers[w].code);
    var c := s.workers[w].code;
    LatestHasId(s.store.transactions, s.store.codes[c].id);
    hide Run, ValidRun, Inv, LatestOf;
  }

  lemma {:induction false} LatestHasId(transactions: seq<Transaction>, id: Id)
    ensures LatestOf(transactions, id).Some? ==> LatestOf(transactions, id).value.codeId == id
  {
    if transactions != [] {
      LatestHasId(transactions[..|transactions| - 1], id);
    }
  }

  // ---------------------------------------------------------------- attempts

  /** How many validations of the code are granted from the tables in the course of the steps. */
  function Grants(s: System, steps: seq<Step>, c: Code): nat
    requires ValidRun(s, steps)
    decreases |steps|
  {
    if steps == [] then 0
    else (if steps[0].Grant? && s.workers[steps[0].w].code == c then 1 else 0)
         + Grants(Next(s, steps[0]), steps[1..], c)
  }

  function Attempts(d: Store, c: Code): nat {
    if c in d.codes then d.codes[c].attempts else 0
  }

  lemma StepAttempts(s: System, step: Step, c: Code)
    requires Inv(s) && Enabled(s, step)
    ensures var d, d' := s.store, Next(s, step).store;
            && Attempts(d', c) == Attempts(d, c) + (if step.Grant? && s.workers[step.w].code == c then 1 else 0)
            && (Attempts(d, c) <= 5 ==> Attempts(d', c) <= 5)
  {
    hide Inv, ReplayReply, NewTransaction, SettleAllocation;
    if step.Commit? {
      LoadedIsActive(s, step.w);
    }
  }

  lemma {:induction false} RunAttempts(s: System, steps: seq<Step>, c: Code)
    requires Inv(s) && ValidRun(s, steps)
    ensures Attempts(Run(s, steps).store, c) == Attempts(s.store, c) + Grants(s, steps, c)
    ensures Attempts(s.store, c) <= 5 ==> Attempts(Run(s, steps).store, c) <= 5
    decreases |steps|
  {
    if steps != [] {
      StepKeeps(s, steps[0]);
      StepAttempts(s, steps[0], c);
      hide Inv, Next, Enabled, Attempts;
      RunAttempts(Next(s, steps[0]), steps[1..], c);
    }
  }

  /** The counter of a code is the number of validations granted for it, and no code is ever granted more than five;
      the next one is granted if and only if the code exists, is unsettled and has had fewer than five. */
  lemma EveryGrantCounted(steps: seq<Step>, c: Code)
    requires ValidRun(INITIAL, steps)
    ensures var s := Run(INITIAL, steps);
            && Grants(INITIAL, steps, c) <= 5
            && (c in s.store.codes ==> s.store.codes[c].attempts == Grants(INITIAL, steps, c))
            && forall w <- s.workers :: s.workers[w].Missed? && s.workers[w].code == c ==>
                 (Enabled(s, Grant(w)) <==>
                    && c in s.store.codes && CountOf(s.store.transactions, s.store.codes[c].id) == 0
                    && Grants(INITIAL, steps, c) < 5)
  {
    InitialInv();
    assert Attempts(INITIAL.store, c) == 0;
    hide Inv, Run, ValidRun, Grants;
    RunAttempts(INITIAL, steps, c);
    RunKeeps(INITIAL, steps);
    GrantEnabledIff(Run(INITIAL, steps), c);
  }

  lemma GrantEnabledIff(s: System, c: Code)
    requires Inv(s)
    ensures forall w <- s.workers :: s.workers[w].Missed? && s.workers[w].code == c ==>
              (Enabled(s, Grant(w)) <==>
                 && c in s.store.codes && CountOf(s.store.transactions, s.store.codes[c].id) == 0
                 && s.store.codes[c].attempts < 5)
  {
    if c in s.store.codes {
      assert RowSettled(s.store, c);
    }
  }

  // ---------------------------------------------------------------- the cache

  /** Does the step write a cache entry for the code? */
  predicate WritesEntry(s: System, step: Step, c: Code)
    requires Enabled(s, step)
  {
    match step
    case WriteCache(w) => s.workers[w].code == c
    case CacheSuccessor(w) => s.workers[w].successor.Some? && s.workers[w].successor.value.newCode == c
    case _ => false
  }

  ghost predicate NeverWritten(s: System, steps: seq<Step>, c: Code)
    requires ValidRun(s, steps)
    decreases |steps|
  {
    steps == [] || (!WritesEntry(s, steps[0], c) && NeverWritten(Next(s, steps[0]), steps[1..], c))
  }

  lemma NoEntryBefore(s: System, step: Step, c: Code)
    requires Enabled(s, step) && c !in s.store.cache && !WritesEntry(s, step, c)
    ensures c !in Next(s, step).store.cache
  {
    hide ReplayReply, NewTransaction, SettleAllocation;
  }

  /** A settlement removes the entry of its code, and it comes back only if a validation that read the rows earlier, or
      the settlement that issued the code, writes it afterwards. */
  lemma EvictedStaysOut(s: System, w: Worker, steps: seq<Step>, c: Code)
    requires Enabled(s, Evict(w)) && s.workers[w].code == c
    requires ValidRun(Next(s, Evict(w)), steps) && NeverWritten(Next(s, Evict(w)), steps, c)
    ensures c !in Run(Next(s, Evict(w)), steps).store.cache
  {
    StaysOut(Next(s, Evict(w)), steps, c);
  }

  lemma {:induction false} StaysOut(s: System, steps: seq<Step>, c: Code)
    requires c !in s.store.cache && ValidRun(s, steps) && NeverWritten(s, steps, c)
    ensures c !in Run(s, steps).store.cache
    decreases |steps|
  {
    if steps != [] {
      NoEntryBefore(s, steps[0], c);
      hide Next, Enabled, WritesEntry;
      StaysOut(Next(s, steps[0]), steps[1..], c);
    }
  }
}
