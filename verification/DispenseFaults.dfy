/** Why the protocol excludes a failure between commit and sadd, the loss of the lock of an unsettled code, and the loss
    of a consumed entry.
 */
module DispenseFaults {
  import opened Common
  import opened DispenseProtocol
  import opened DispenseInvariants
  import opened DispenseTheorems

  /** An exception strikes worker `w`: the `finally` clause runs next, whatever the phase. */
  function Struck(s: System, w: Worker): System
    requires w in s.workers
  {
    s.(workers := s.workers[w := Finishing(s.workers[w].code, Failed)])
  }

  /** No continuation of `s` settles a code twice. */
  ghost predicate StaysSingle(s: System) {
    forall steps :: ValidRun(s, steps) ==> SettledOnceOnly(Run(s, steps))
  }

  ghost predicate SettledOnceOnly(s: System) {
    forall c <- s.store.codes :: CountOf(s.store.transactions, s.store.codes[c].id) <= 1
  }

  lemma RunCons(s: System, step: Step, steps: seq<Step>)
    requires Enabled(s, step) && ValidRun(Next(s, step), steps)
    ensures ValidRun(s, [step] + steps) && Run(s, [step] + steps) == Run(Next(s, step), steps)
  {
  }

  /** What one step leads to can still happen. */
  lemma BackStep(s: System, step: Step)
    requires Enabled(s, step) && !StaysSingle(Next(s, step))
    ensures !StaysSingle(s)
  {
    hide Enabled, Next, SettledOnceOnly, Run;
    var steps :| ValidRun(Next(s, step), steps) && !SettledOnceOnly(Run(Next(s, step), steps));
    RunCons(s, step, steps);
  }

  lemma BackNothing(s: System)
    requires !SettledOnceOnly(s)
    ensures !StaysSingle(s)
  {
    assert ValidRun(s, []) && Run(s, []) == s;
  }

  ghost predicate HasRows(d: Store, c: Code) {
    c in d.codes && d.codes[c].allocation in d.allocations
  }

  function Remaining(d: Store, c: Code): nat
    requires c in d.codes && d.codes[c].allocation in d.allocations
  {
    d.allocations[d.codes[c].allocation].remaining
  }

  /** A new request for all litres of a code whose lock is free, taken up to the point where it has read the rows. */
  function Reading(s: System, v: Worker, c: Code): System
    requires c in s.store.codes && s.store.codes[c].allocation in s.store.allocations
  {
    var row := s.store.codes[c];
    System(s.store.(locks := s.store.locks + {c}),
           s.workers[v := Loaded(c, Remaining(s.store, c), row, s.store.allocations[row.allocation])])
  }

  lemma BackReading(s: System, v: Worker, c: Code)
    requires v !in s.workers && c !in s.store.locks && c !in s.store.consumed && HasRows(s.store, c)
    requires !StaysSingle(Reading(s, v, c))
    ensures !StaysSingle(s)
  {
    var acquire := Acquire(v, c, Remaining(s.store, c));
    var s1 := Next(s, acquire);
    var s2 := Next(s1, CheckConsumed(v));
    assert Next(s2, Load(v)).workers == Reading(s, v, c).workers;
    hide StaysSingle;
    BackStep(s2, Load(v));
    BackStep(s1, CheckConsumed(v));
    BackStep(s, acquire);
  }

  /** A loaded request for all remaining litres can commit, whatever others have done to the rows, and adds a
      transaction of the code. */
  lemma CommitsOnce(s: System, v: Worker, c: Code)
    requires v in s.workers && s.workers[v].Loaded? && s.workers[v].code == c && c in s.store.codes
    requires s.workers[v].actual == s.workers[v].allocation.remaining && s.workers[v].row.id == s.store.codes[c].id
    ensures Enabled(s, Commit(v, 0))
    ensures var s' := Next(s, Commit(v, 0));
            && c in s'.store.codes && s'.store.codes[c].id == s.store.codes[c].id
            && CountOf(s'.store.transactions, s.store.codes[c].id)
               == CountOf(s.store.transactions, s.store.codes[c].id) + 1
            && forall w <- s.workers :: w != v ==> w in s'.workers && s'.workers[w] == s.workers[w]
  {
  }

  /** Between commit and sadd, whoever gets the lock settles the code a second time. */
  lemma SecondSettlement(s: System, v: Worker, c: Code)
    requires v !in s.workers && c !in s.store.locks && c !in s.store.consumed && HasRows(s.store, c)
    requires CountOf(s.store.transactions, s.store.codes[c].id) == 1
    ensures !StaysSingle(s)
  {
    var s1 := Reading(s, v, c);
    CommitsOnce(s1, v, c);
    BackNothing(Next(s1, Commit(v, 0)));
    BackStep(s1, Commit(v, 0));
    BackReading(s, v, c);
  }

  lemma CommittedRows(s: System, w: Worker)
    requires Inv(s) && w in s.workers && s.workers[w].Settled?
    ensures s.workers[w].code !in s.store.consumed && HasRows(s.store, s.workers[w].code)
    ensures CountOf(s.store.transactions, s.store.codes[s.workers[w].code].id) == 1
  {
  }

  lemma SettlesTwice(s: System, w: Worker)
    requires Inv(s) && w in s.workers && s.workers[w].Settled?
    ensures !StaysSingle(Struck(s, w))
  {
    CommittedRows(s, w);
    hide Inv, StaysSingle, CountOf;
    SecondSettlement(Next(Struck(s, w), Release(w)), w, s.workers[w].code);
    BackStep(Struck(s, w), Release(w));
  }

  /** The exact failure window: an exception in the critical section is harmless, whatever happens afterwards,
      if and only if it does not fall between the commit and the write to the consumed set. */
  lemma FaultHarmlessIff(s: System, w: Worker)
    requires Inv(s) && w in s.workers && s.workers[w].HoldsLock()
    ensures StaysSingle(Struck(s, w)) <==> !s.workers[w].Settled?
  {
    if s.workers[w].Settled? {
      SettlesTwice(s, w);
    } else {
      assert Next(s, Fault(w)) == Struck(s, w);
      StepKeeps(s, Fault(w));
      InvStaysSingle(Struck(s, w));
    }
  }

  // ---------------------------------------------------------------- a crash in the critical section

  /** The process of worker `w` dies: nothing of it runs any more, and its lock is left to expire. */
  function Crashed(s: System, w: Worker): System {
    s.(workers := s.workers - {w})
  }

  /** A crash is harmless, whatever happens afterwards, if and only if it does not fall between the commit and the
      write to the consumed set: the lock then expires and the next request settles again. */
  lemma CrashHarmlessIff(s: System, w: Worker)
    requires Inv(s) && w in s.workers
    ensures StaysSingle(Crashed(s, w)) <==> !s.workers[w].Settled?
  {
    if s.workers[w].Settled? {
      CrashSettlesTwice(s, w);
    } else {
      assert Next(s, Crash(w)) == Crashed(s, w);
      StepKeeps(s, Crash(w));
      InvStaysSingle(Crashed(s, w));
    }
  }

  lemma CrashSettlesTwice(s: System, w: Worker)
    requires Inv(s) && w in s.workers && s.workers[w].Settled?
    ensures !StaysSingle(Crashed(s, w))
  {
    var c := s.workers[w].code;
    CommittedRows(s, w);
    assert Enabled(Crashed(s, w), ExpireLock(c));
    hide Inv, StaysSingle, CountOf;
    SecondSettlement(Next(Crashed(s, w), ExpireLock(c)), w, c);
    BackStep(Crashed(s, w), ExpireLock(c));
  }

  lemma InvStaysSingle(s: System)
    requires Inv(s)
    ensures StaysSingle(s)
  {
    hide Inv;
    forall steps | ValidRun(s, steps) ensures SettledOnceOnly(Run(s, steps)) {
      RunKeeps(s, steps);
      InvSettledOnce(Run(s, steps));
    }
  }

  // ---------------------------------------------------------------- a lock lost while held

  /** The lock of `c` expires although a request is inside its critical section. */
  function Lost(s: System, c: Code): System {
    s.(store := s.store.(locks := s.store.locks - {c}))
  }

  lemma FreshWorker(ws: map<Worker, Phase>) returns (v: Worker)
    ensures v !in ws
  {
    v := MaxPlusOne(ws.Keys);
  }

  lemma {:induction false} MaxPlusOne(ids: set<Worker>) returns (v: Worker)
    ensures forall i <- ids :: i < v
    decreases |ids|
  {
    v := 0;
    if ids != {} {
      var i :| i in ids;
      var rest := ids - {i};
      v := MaxPlusOne(rest);
      if v <= i {
        v := i + 1;
      }
      assert forall j <- ids :: j == i || j in rest;
    }
  }

  /** A request about to release frees whatever lock the code has by then: a second request is let in, the first
      one's release throws the lock away, a third is let in, and both settle. */
  lemma ReleaseLetsTwoIn(s: System, w: Worker, c: Code)
    requires w in s.workers && s.workers[w].Finishing? && s.workers[w].code == c
    requires c !in s.store.locks && c !in s.store.consumed && HasRows(s.store, c)
    ensures !StaysSingle(s)
  {
    var v := FreshWorker(s.workers);
    var s1 := Reading(s, v, c);
    var s2 := Next(s1, Release(w));
    var s3 := Reading(s2, w, c);
    CommitsOnce(s3, v, c);
    var s4 := Next(s3, Commit(v, 0));
    CommitsOnce(s4, w, c);
    hide StaysSingle, CountOf, Next, Enabled;
    BackNothing(Next(s4, Commit(w, 0)));
    BackStep(s4, Commit(w, 0));
    BackStep(s3, Commit(v, 0));
    BackReading(s2, w, c);
    EnabledRelease(s1, w);
    BackStep(s1, Release(w));
    BackReading(s, v, c);
  }

  lemma EnabledRelease(s: System, w: Worker)
    requires w in s.workers && s.workers[w].Finishing?
    ensures Enabled(s, Release(w))
  {
  }

  /** The same for a code that does not exist yet: it is uploaded first. */
  lemma FinishingLosesLock(s: System, w: Worker, c: Code)
    requires RowsPaired(s.store) && w in s.workers && s.workers[w].Finishing? && s.workers[w].code == c
    requires c !in s.store.locks && c !in s.store.consumed
    ensures !StaysSingle(s)
  {
    hide StaysSingle;
    if c in s.store.codes {
      ReleaseLetsTwoIn(s, w, c);
    } else {
      ReleaseLetsTwoIn(Next(s, Upload(c, 1)), w, c);
      BackStep(s, Upload(c, 1));
    }
  }

  lemma LosesLock(s: System, w: Worker)
    requires Inv(s) && w in s.workers && s.workers[w].HoldsLock() && s.workers[w].code !in s.store.consumed
    ensures !StaysSingle(Lost(s, s.workers[w].code))
  {
    var c := s.workers[w].code;
    if s.workers[w].Settled? {
      CommittedRows(s, w);
      var v := FreshWorker(s.workers);
      SecondSettlement(Lost(s, c), v, c);
    } else {
      var t := Next(Lost(s, c), Fault(w));
      hide StaysSingle;
      FinishingLosesLock(t, w, c);
      BackStep(Lost(s, c), Fault(w));
    }
  }

  /** Losing the lock while a request is inside the critical section is harmless, whatever happens afterwards, if
      and only if the code is already in the consumed set. */
  lemma LockLossHarmlessIff(s: System, w: Worker)
    requires Inv(s) && w in s.workers && s.workers[w].HoldsLock()
    ensures StaysSingle(Lost(s, s.workers[w].code)) <==> s.workers[w].code in s.store.consumed
  {
    var c := s.workers[w].code;
    if c !in s.store.consumed {
      LosesLock(s, w);
    } else {
      assert Next(s, ExpireLock(c)) == Lost(s, c);
      StepKeeps(s, ExpireLock(c));
      InvStaysSingle(Lost(s, c));
    }
  }

  // ---------------------------------------------------------------- the consumed set forgets a code

  /** The entry of `c` is gone from the consumed set. */
  function Forgot(s: System, c: Code): System {
    s.(store := s.store.(consumed := s.store.consumed - {c}))
  }

  lemma ConsumedRows(s: System, c: Code)
    requires Inv(s) && c in s.store.consumed
    ensures HasRows(s.store, c) && CountOf(s.store.transactions, s.store.codes[c].id) == 1
    ensures forall w <- s.workers :: s.workers[w].Settled? ==> s.workers[w].code != c
  {
  }

  /** A settled code outside the consumed set is settled again: whoever holds its lock crashes, the lock expires, and
      the next request finds no trace of the settlement. */
  lemma {:induction false} SettledAgain(s: System, c: Code)
    requires c !in s.store.consumed && HasRows(s.store, c)
    requires CountOf(s.store.transactions, s.store.codes[c].id) == 1
    requires forall w <- s.workers :: s.workers[w].Settled? ==> s.workers[w].code != c
    ensures !StaysSingle(s)
    decreases |s.workers|
  {
    hide StaysSingle, CountOf;
    if w :| w in s.workers && s.workers[w].HoldsLock() && s.workers[w].code == c {
      var t := Next(s, Crash(w));
      assert t.workers.Keys == s.workers.Keys - {w};
      assert |t.workers| == |t.workers.Keys| && |s.workers| == |s.workers.Keys|;
      SettledAgain(t, c);
      BackStep(s, Crash(w));
    } else {
      var v := FreshWorker(s.workers);
      SecondSettlement(Next(s, ExpireLock(c)), v, c);
      BackStep(s, ExpireLock(c));
    }
  }

  /** Losing the entry of a code in the consumed set is harmless, whatever happens afterwards, if and only if the code
      had none: `complete_dispense` asks nothing else. */
  lemma ConsumedLossHarmlessIff(s: System, c: Code)
    requires Inv(s)
    ensures StaysSingle(Forgot(s, c)) <==> c !in s.store.consumed
  {
    if c in s.store.consumed {
      ConsumedRows(s, c);
      hide Inv, StaysSingle, CountOf;
      SettledAgain(Forgot(s, c), c);
    } else {
      assert Forgot(s, c) == s;
      InvStaysSingle(s);
    }
  }
}
