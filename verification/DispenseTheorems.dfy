/** The results about dispensing that hold in every reachable state of every interleaving. */
module DispenseTheorems {
  import opened Common
  import opened DispenseProtocol
  import opened DispenseInvariants

  /** A code is settled at most once, and it has its transaction exactly when its fingerprint is consumed or
      its settler is between commit and sadd. */
  ghost predicate SettledOnce(s: System) {
    forall c <- s.store.codes ::
      && CountOf(s.store.transactions, s.store.codes[c].id) <= 1
      && (CountOf(s.store.transactions, s.store.codes[c].id) == 1
          <==> c in s.store.consumed || CommittedNotMarked(s, c))
  }

  lemma InvSettledOnce(s: System)
    requires Inv(s)
    ensures SettledOnce(s)
  {
  }

  /** Every interleaving of any number of requests settles every code at most once. */
  lemma EveryRunSettlesOnce(steps: seq<Step>)
    requires ValidRun(INITIAL, steps)
    ensures SettledOnce(Run(INITIAL, steps))
  {
    InitialInv();
    RunKeeps(INITIAL, steps);
    InvSettledOnce(Run(INITIAL, steps));
  }

  /** What the per-code cache may hold: the id of the code's own row, and litres that are exact unless the code
      is settled - and then the code is consumed or its settler is between commit and sadd. */
  ghost predicate CacheExact(s: System) {
    forall c <- s.store.cache ::
      && c in s.store.codes
      && var row := s.store.codes[c];
      && row.allocation in s.store.allocations
      && s.store.cache[c].codeId == row.id
      && s.store.cache[c].allocation == row.allocation
      && s.store.cache[c].remaining == s.store.allocations[row.allocation].quota
      && (row.status == Active ==> s.store.cache[c].remaining == s.store.allocations[row.allocation].remaining)
      && (row.status != Active ==> c in s.store.consumed || CommittedNotMarked(s, c))
  }

  lemma EveryRunCachesExactly(steps: seq<Step>)
    requires ValidRun(INITIAL, steps)
    ensures CacheExact(Run(INITIAL, steps))
  {
    InitialInv();
    RunKeeps(INITIAL, steps);
    var s := Run(INITIAL, steps);
    forall c | c in s.store.cache
      ensures RowsPaired(s.store) && IssuedPayload(s.store, c, s.store.cache[c]) && RowSettled(s.store, c)
    {
      assert IssuedPayload(s.store, c, s.store.cache[c]);
    }
  }

  /** A replayed request is answered with the one transaction of its code, never refused. */
  lemma EveryRunReplaysFaithfully(steps: seq<Step>, c: Code)
    requires ValidRun(INITIAL, steps) && c in Run(INITIAL, steps).store.consumed
    ensures var d := Run(INITIAL, steps).store;
            && c in d.codes
            && ReplayReply(d, c).Replayed?
            && ReplayReply(d, c).transaction in d.transactions
            && forall t <- d.transactions :: t.codeId == d.codes[c].id ==> t == ReplayReply(d, c).transaction
  {
    InitialInv();
    RunKeeps(INITIAL, steps);
    var d := Run(INITIAL, steps).store;
    ReplayFindsTransaction(d, c);
    assert RowSettled(d, c);
    OnlyOne(d.transactions, d.codes[c].id);
  }

  lemma {:induction false} OnlyOne(transactions: seq<Transaction>, id: Id)
    ensures CountOf(transactions, id) == 0 ==> forall t <- transactions :: t.codeId != id
    ensures CountOf(transactions, id) == 1 ==>
              && LatestOf(transactions, id).Some?
              && LatestOf(transactions, id).value in transactions
              && forall t <- transactions :: t.codeId == id ==> t == LatestOf(transactions, id).value
  {
    if transactions != [] {
      var front := transactions[..|transactions| - 1];
      OnlyOne(front, id);
      assert transactions == front + [transactions[|transactions| - 1]];
    }
  }

  /** No two requests are ever inside the critical section of one code that is not yet in the consumed set. */
  lemma EveryRunExcludes(steps: seq<Step>, v: Worker, w: Worker)
    requires ValidRun(INITIAL, steps)
    requires var ws := Run(INITIAL, steps).workers;
             v in ws && w in ws && v != w && ws[v].HoldsLock() && ws[w].HoldsLock()
    requires Run(INITIAL, steps).workers[v].code !in Run(INITIAL, steps).store.consumed
    ensures Run(INITIAL, steps).workers[v].code != Run(INITIAL, steps).workers[w].code
  {
    InitialInv();
    RunKeeps(INITIAL, steps);
  }
}
