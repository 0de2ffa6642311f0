/** What a client is told: the answer to a settlement and the answers to its replays.
 */
module DispenseReplies {
  import opened Common
  import opened DispenseProtocol
  import opened DispenseInvariants
  import opened DispenseTheorems
  import opened DispenseFaults
  import opened DispenseEngine

  datatype Status = COMPLETED | PARTIAL | OVER_DISPENSE

  /** The block about the rest of a dispense: whether there is one, and under which code it can be drawn. */
  datatype Outcome =
    Outcome(partial: bool, originalCode: Id, dispensed: nat, remaining: nat, successor: Option<Successor>)

  datatype Response = Response(transaction: Transaction, status: Status, actual: nat, outcome: Option<Outcome>)

  /** The response to a finished request, if it has one: a settlement reports what it did, a replay is built by
      `_from_existing` from the transaction alone. */
  function Answer(reply: Reply): Option<Response> {
    match reply
    case Dispensed(t, successor) =>
      Some(Response(t,
                    if t.status == OverDispense then OVER_DISPENSE else if successor.Some? then PARTIAL else COMPLETED,
                    t.actual, Some(Outcome(successor.Some?, t.codeId, t.actual, Rest(successor), successor))))
    case Replayed(t) => Some(Response(t, COMPLETED, t.actual, None))
    case Refused => None
    case Failed => None
  }

  function Rest(successor: Option<Successor>): nat {
    match successor
    case None => 0
    case Some(s) => s.payload.remaining
  }

  /** The code under which the response tells the client to draw the rest. */
  function NewCode(r: Response): Option<Code> {
    if r.outcome.Some? && r.outcome.value.successor.Some? then Some(r.outcome.value.successor.value.newCode) else None
  }

  // ---------------------------------------------------------------- what later steps leave of a settlement

  /** Codes keep their identity and quota, and transactions stay. */
  ghost predicate Grows(d: Store, d': Store) {
    && (forall c <- d.codes ::
          c in d'.codes && d'.codes[c].id == d.codes[c].id && d'.codes[c].authorized == d.codes[c].authorized)
    && (forall t <- d.transactions :: t in d'.transactions)
  }

  lemma StepGrows(s: System, step: Step)
    requires Inv(s) && Enabled(s, step)
    ensures Grows(s.store, Next(s, step).store)
  {
    match step
    case Commit(w, newCode) =>
      assert PhaseFacts(s.store, s.workers[w]);
    case _ =>
  }

  lemma {:induction false} RunGrows(s: System, steps: seq<Step>)
    requires Inv(s) && ValidRun(s, steps)
    ensures Grows(s.store, Run(s, steps).store)
    decreases |steps|
  {
    if steps != [] {
      StepKeeps(s, steps[0]);
      StepGrows(s, steps[0]);
      hide Inv, Next, Enabled;
      RunGrows(Next(s, steps[0]), steps[1..]);
    }
  }

  /** What the answer to a settlement rests on follows from the litres and the quota of its code. */
  lemma SettlementFacts(s: System, w: Worker)
    requires Inv(s) && w in s.workers && s.workers[w].Finishing? && s.workers[w].reply.Dispensed?
    ensures var d, c := s.store, s.workers[w].code;
            var t, successor := s.workers[w].reply.transaction, s.workers[w].reply.successor;
            && c in d.codes && t in d.transactions && t.codeId == d.codes[c].id
            && (t.status == OverDispense <==> t.actual > d.codes[c].authorized + 500)
            && (successor.Some? <==> d.codes[c].authorized - t.actual > 1000)
  {
    assert PhaseFacts(s.store, s.workers[w]);
    assert RowSettled(s.store, s.workers[w].code);
    OnlyOne(s.store.transactions, s.store.codes[s.workers[w].code].id);
  }

  lemma ReplayFinds(s: System, c: Code, t: Transaction)
    requires Inv(s) && c in s.store.codes && t in s.store.transactions && t.codeId == s.store.codes[c].id
    ensures ReplayReply(s.store, c) == Replayed(t)
  {
    assert RowSettled(s.store, c);
    OnlyOne(s.store.transactions, s.store.codes[c].id);
  }

  /** Every replay of a settlement, however late, repeats its transaction and litres.  It repeats the status exactly
      when the dispense was neither partial nor over, and the new code exactly when it was not partial, that is, when
      there was none: a client that missed the first answer to a partial dispense never learns it.  The two responses
      are never equal altogether, because a replay carries no outcome block. */
  lemma ReplayTellsIff(before: seq<Step>, w: Worker, after: seq<Step>)
    requires ValidRun(INITIAL, before)
    requires var s := Run(INITIAL, before);
             w in s.workers && s.workers[w].Finishing? && s.workers[w].reply.Dispensed? && ValidRun(s, after)
    ensures var s := Run(INITIAL, before);
            var d, c, first := Run(s, after).store, s.workers[w].code, s.workers[w].reply;
            var replay := ReplayReply(d, c);
            && c in d.codes && Answer(first).Some? && Answer(replay).Some?
            && var quota, actual := d.codes[c].authorized, first.transaction.actual;
            var a, b := Answer(first).value, Answer(replay).value;
            && b.transaction == a.transaction && b.actual == a.actual == actual
            && (b.status == a.status <==> -500 <= quota - actual <= 1000)
            && (NewCode(b) == NewCode(a) <==> quota - actual <= 1000)
            && b != a
  {
    var s := Run(INITIAL, before);
    InitialInv();
    RunKeeps(INITIAL, before);
    SettlementFacts(s, w);
    RunGrows(s, after);
    RunKeeps(s, after);
    hide Inv, Run, ValidRun, ReplayReply;
    ReplayFinds(Run(s, after), s.workers[w].code, s.workers[w].reply.transaction);
  }

  // ---------------------------------------------------------------- every case happens

  /** An upload of `quota` followed by one undisturbed dispense of `actual`. */
  function FirstDispense(quota: nat, actual: nat): seq<Step> {
    [Upload(0, quota)] + StepsAlone(Issue(INITIAL.store, 0, quota), 0, 0, actual, [Draw(1, false)], true)
  }

  lemma FirstDispenseEnds(quota: nat, actual: nat)
    ensures ValidRun(INITIAL, FirstDispense(quota, actual))
    ensures var ws := Run(INITIAL, FirstDispense(quota, actual)).workers;
            && 0 in ws && ws[0].Finishing? && ws[0].code == 0
            && ws[0].reply.Dispensed? && ws[0].reply.transaction.actual == actual
    ensures var d := Run(INITIAL, FirstDispense(quota, actual)).store;
            0 in d.codes && d.codes[0].authorized == quota
  {
    var d := Issue(INITIAL.store, 0, quota);
    var steps := StepsAlone(d, 0, 0, actual, [Draw(1, false)], true);
    assert Next(INITIAL, Upload(0, quota)) == System(d, map[]);
    RunsAlone(d, 0, 0, actual, [Draw(1, false)], true);
    RunCons(INITIAL, Upload(0, quota), steps);
    hide Run, ValidRun, StepsAlone;
  }

  /** For every quota and every amount there is a run in which the dispense is answered as the litres demand; so a
      replay of it says "completed" of a partial and of an over-dispense alike. */
  lemma FirstDispenseAnswered(quota: nat, actual: nat)
    ensures ValidRun(INITIAL, FirstDispense(quota, actual))
    ensures var s := Run(INITIAL, FirstDispense(quota, actual));
            && 0 in s.workers && s.workers[0].Finishing? && s.workers[0].reply.Dispensed?
            && s.workers[0].code == 0 && Answer(s.workers[0].reply).Some?
            && Answer(s.workers[0].reply).value.actual == actual
            && Answer(s.workers[0].reply).value.status
               == (if actual > quota + 500 then OVER_DISPENSE
                   else if quota - actual > 1000 then PARTIAL else COMPLETED)
            && Answer(ReplayReply(s.store, 0)).Some? && Answer(ReplayReply(s.store, 0)).value.status == COMPLETED
  {
    hide *;
    FirstDispenseEnds(quota, actual);
    InitialInv();
    RunKeeps(INITIAL, FirstDispense(quota, actual));
    AnswersOf(Run(INITIAL, FirstDispense(quota, actual)), 0);
  }

  lemma AnswersOf(s: System, w: Worker)
    requires Inv(s) && w in s.workers && s.workers[w].Finishing? && s.workers[w].reply.Dispensed?
    ensures var d, c, first := s.store, s.workers[w].code, s.workers[w].reply;
            && c in d.codes && Answer(first).Some? && Answer(ReplayReply(d, c)).Some?
            && Answer(first).value.actual == first.transaction.actual
            && Answer(first).value.status
               == (if first.transaction.actual > d.codes[c].authorized + 500 then OVER_DISPENSE
                   else if d.codes[c].authorized - first.transaction.actual > 1000 then PARTIAL else COMPLETED)
            && Answer(ReplayReply(d, c)).value.status == COMPLETED
  {
    hide Inv, ReplayReply;
    SettlementFacts(s, w);
    ReplayFinds(s, s.workers[w].code, s.workers[w].reply.transaction);
  }

  // ---------------------------------------------------------------- from the validation to the cache of the rest

  /** The tables after a code for `quota` has been uploaded and validated once. */
  function ValidatedStore(quota: nat): Store {
    Issue(INITIAL.store, 0, quota).(codes := map[0 := CodeRow(1, 0, quota, 0, Active, 1)],
                                    cache := map[0 := Payload(1, 0, quota)])
  }

  function ValidatedDispense(quota: nat, actual: nat): seq<Step> {
    [Upload(0, quota)] + ([Ask(0, 0)] + ([ReadCache(0)] + ([Grant(0)] + ([WriteCache(0)]
      + StepsAlone(ValidatedStore(quota), 0, 0, actual, [Draw(1, false)], true)))))
  }

  lemma ValidationSteps(quota: nat)
    ensures var s1 := Next(INITIAL, Upload(0, quota));
            && Enabled(s1, Ask(0, 0))
            && var s2 := Next(s1, Ask(0, 0));
            && Enabled(s2, ReadCache(0))
            && var s3 := Next(s2, ReadCache(0));
            && Enabled(s3, Grant(0))
            && var s4 := Next(s3, Grant(0));
            && Enabled(s4, WriteCache(0)) && Next(s4, WriteCache(0)) == System(ValidatedStore(quota), map[])
  {
    var d, payload := CountedStore(quota, 0), Payload(1, 0, quota);
    UploadAlone(quota);
    AskAlone(d);
    GrantAlone(quota, 0);
    CacheAlone(CountedStore(quota, 1), payload);
    assert ValidatedStore(quota) == CountedStore(quota, 1).(cache := map[0 := payload]);
    hide Next, Enabled, CountedStore, ValidatedStore;
  }

  lemma UploadAlone(quota: nat)
    ensures Enabled(INITIAL, Upload(0, quota))
    ensures Next(INITIAL, Upload(0, quota)) == System(CountedStore(quota, 0), map[])
    ensures 0 !in CountedStore(quota, 0).consumed
    ensures CountedStore(quota, 0).cache == CountedStore(quota, 1).cache == map[]
  {
  }

  /** For every quota and amount: validating a code writes its quota to the cache, settling it takes that entry out
      again, and what stays is the entry of the code for the rest, if more than a litre is left. */
  lemma CacheFollows(quota: nat, actual: nat)
    ensures ValidRun(INITIAL, ValidatedDispense(quota, actual))
    ensures var s := Run(INITIAL, ValidatedDispense(quota, actual));
            && s.store.consumed == {0} && s.store.locks == {0}
            && s.store.cache == if quota - actual > 1000 then map[1 := Payload(3, 2, quota - actual)] else map[]
  {
    var d := ValidatedStore(quota);
    var rest := StepsAlone(d, 0, 0, actual, [Draw(1, false)], true);
    ValidationSteps(quota);
    RunsAlone(d, 0, 0, actual, [Draw(1, false)], true);
    OutcomeOfValidated(quota, actual);
    hide ValidRun, Run, StepsAlone, Next, Enabled, OutcomeAlone;
    var s1 := Next(INITIAL, Upload(0, quota));
    var s2 := Next(s1, Ask(0, 0));
    var s3 := Next(s2, ReadCache(0));
    var s4 := Next(s3, Grant(0));
    RunCons(s4, WriteCache(0), rest);
    RunCons(s3, Grant(0), [WriteCache(0)] + rest);
    RunCons(s2, ReadCache(0), [Grant(0)] + ([WriteCache(0)] + rest));
    RunCons(s1, Ask(0, 0), [ReadCache(0)] + ([Grant(0)] + ([WriteCache(0)] + rest)));
    RunCons(INITIAL, Upload(0, quota), [Ask(0, 0)] + ([ReadCache(0)] + ([Grant(0)] + ([WriteCache(0)] + rest))));
  }

  /** Validations of one code, one after the other. */
  function Validations(n: nat): seq<Step> {
    if n == 0 then [] else [Ask(0, 0)] + ([ReadCache(0)] + Validations(n - 1))
  }

  lemma CachedRound(quota: nat)
    ensures var s := System(ValidatedStore(quota), map[]);
            && Enabled(s, Ask(0, 0))
            && Enabled(Next(s, Ask(0, 0)), ReadCache(0)) && Next(Next(s, Ask(0, 0)), ReadCache(0)) == s
  {
    var s := System(ValidatedStore(quota), map[]);
    assert Next(Next(s, Ask(0, 0)), ReadCache(0)).workers == map[];
  }

  /** As long as the entry of a code is cached any number of validations is answered from it, without counting an
      attempt or changing anything else. */
  lemma {:induction false} CachedValidationsAreFree(quota: nat, n: nat)
    ensures var s := System(ValidatedStore(quota), map[]);
            ValidRun(s, Validations(n)) && Run(s, Validations(n)) == s
  {
    hide Next, Enabled;
    var s := System(ValidatedStore(quota), map[]);
    if n > 0 {
      CachedRound(quota);
      CachedValidationsAreFree(quota, n - 1);
      RunCons(Next(s, Ask(0, 0)), ReadCache(0), Validations(n - 1));
      RunCons(s, Ask(0, 0), [ReadCache(0)] + Validations(n - 1));
    }
  }

  /** The tables after a code for `quota` has been validated `n` times, its cache entry gone. */
  function CountedStore(quota: nat, n: nat): Store {
    Issue(INITIAL.store, 0, quota).(codes := map[0 := CodeRow(1, 0, quota, 0, Active, n)])
  }

  /** Validations of one code, each after the cache entry of the one before has expired. */
  function UncachedValidations(n: nat): seq<Step> {
    if n == 0 then []
    else
      [Ask(0, 0)]
      + ([ReadCache(0)] + ([Grant(0)] + ([WriteCache(0)] + ([ExpireCache(0)] + UncachedValidations(n - 1)))))
  }

  lemma AskAlone(d: Store)
    requires 0 !in d.consumed && 0 !in d.cache
    ensures var s, s1 := System(d, map[]), System(d, map[0 := Asking(0)]);
            && Enabled(s, Ask(0, 0)) && Next(s, Ask(0, 0)) == s1
            && Enabled(s1, ReadCache(0)) && Next(s1, ReadCache(0)) == System(d, map[0 := Missed(0)])
  {
  }

  lemma GrantAlone(quota: nat, n: nat)
    ensures var s := System(CountedStore(quota, n), map[0 := Missed(0)]);
            && (Enabled(s, Grant(0)) <==> n < 5)
            && (n < 5 ==>
                  Next(s, Grant(0)) == System(CountedStore(quota, n + 1), map[0 := Granted(0, Payload(1, 0, quota))]))
  {
  }

  lemma CacheAlone(d: Store, payload: Payload)
    requires d.cache == map[]
    ensures var s, s1 := System(d, map[0 := Granted(0, payload)]), System(d.(cache := map[0 := payload]), map[]);
            && Enabled(s, WriteCache(0)) && Next(s, WriteCache(0)) == s1
            && Enabled(s1, ExpireCache(0)) && Next(s1, ExpireCache(0)) == System(d, map[])
  {
    var s := System(d, map[0 := Granted(0, payload)]);
    assert Next(s, WriteCache(0)).workers == map[];
    assert map[0 := payload] - {0} == map[];
  }

  lemma UncachedRound(quota: nat, n: nat, rest: seq<Step>)
    requires n < 5 && ValidRun(System(CountedStore(quota, n + 1), map[]), rest)
    ensures var s := System(CountedStore(quota, n), map[]);
            var steps := [Ask(0, 0)] + ([ReadCache(0)] + ([Grant(0)] + ([WriteCache(0)] + ([ExpireCache(0)] + rest))));
            ValidRun(s, steps) && Run(s, steps) == Run(System(CountedStore(quota, n + 1), map[]), rest)
  {
    var d, d', payload := CountedStore(quota, n), CountedStore(quota, n + 1), Payload(1, 0, quota);
    AskAlone(d);
    GrantAlone(quota, n);
    CacheAlone(d', payload);
    hide *;
    RunCons(System(d'.(cache := map[0 := payload]), map[]), ExpireCache(0), rest);
    RunCons(System(d', map[0 := Granted(0, payload)]), WriteCache(0), [ExpireCache(0)] + rest);
    RunCons(System(d, map[0 := Missed(0)]), Grant(0), [WriteCache(0)] + ([ExpireCache(0)] + rest));
    RunCons(System(d, map[0 := Asking(0)]), ReadCache(0), [Grant(0)] + ([WriteCache(0)] + ([ExpireCache(0)] + rest)));
    RunCons(System(d, map[]), Ask(0, 0),
            [ReadCache(0)] + ([Grant(0)] + ([WriteCache(0)] + ([ExpireCache(0)] + rest))));
  }

  /** Without the cache every validation counts: five of them are granted, one after the other, and a sixth is not. */
  lemma {:induction false} FiveValidations(quota: nat, k: nat)
    requires k <= 5
    ensures var s := System(CountedStore(quota, k), map[]);
            ValidRun(s, UncachedValidations(5 - k))
            && Run(s, UncachedValidations(5 - k)) == System(CountedStore(quota, 5), map[])
    ensures !Enabled(System(CountedStore(quota, 5), map[0 := Missed(0)]), Grant(0))
    decreases 5 - k
  {
    hide CountedStore, Enabled, Next;
    GrantAlone(quota, 5);
    if k < 5 {
      FiveValidations(quota, k + 1);
      UncachedRound(quota, k, UncachedValidations(4 - k));
    }
  }

  lemma OutcomeOfValidated(quota: nat, actual: nat)
    ensures var after := OutcomeAlone(ValidatedStore(quota), 0, actual, [Draw(1, false)], true).0;
            && after.consumed == {0}
            && after.cache == if quota - actual > 1000 then map[1 := Payload(3, 2, quota - actual)] else map[]
  {
    var after := OutcomeAlone(ValidatedStore(quota), 0, actual, [Draw(1, false)], true).0;
    assert ValidatedStore(quota).cache - {0} == map[];
  }
}
