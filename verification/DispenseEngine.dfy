/** `complete_dispense` and `generate_unique_code` as the imperative code they are, tied to the protocol: a
    request that meets no other request runs exactly the protocol steps its branches stand for.
 */
module DispenseEngine {
  import opened Common
  import opened DispenseProtocol
  import opened DispenseFaults

  const MAX_COLLISION_ATTEMPTS := 5

  /** One draw of the random source; `hashTaken` says whether a stored code bears the salted hash of this draw. */
  datatype Draw = Draw(code: Code, hashTaken: bool)

  predicate Unknown(d: Store, draw: Draw) {
    draw.code !in d.consumed && draw.code !in d.codes && !draw.hashTaken
  }

  /** The first acceptable one of the codes the random source would draw. */
  function FirstUnknown(d: Store, draws: seq<Draw>): Option<Code> {
    if draws == [] then None
    else if Unknown(d, draws[0]) then Some(draws[0].code)
    else FirstUnknown(d, draws[1..])
  }

  lemma {:induction false} FirstUnknownIs(d: Store, draws: seq<Draw>)
    ensures match FirstUnknown(d, draws)
            case None => forall draw <- draws :: !Unknown(d, draw)
            case Some(c) =>
              exists k :: 0 <= k < |draws| && draws[k].code == c && Unknown(d, draws[k])
                          && forall j :: 0 <= j < k ==> !Unknown(d, draws[j])
  {
    hide Unknown;
    if draws != [] && !Unknown(d, draws[0]) {
      FirstUnknownIs(d, draws[1..]);
      assert draws == [draws[0]] + draws[1..];
      if FirstUnknown(d, draws[1..]).Some? {
        var k :| 0 <= k < |draws[1..]| && draws[1..][k].code == FirstUnknown(d, draws).value
                 && Unknown(d, draws[1..][k]) && forall j :: 0 <= j < k ==> !Unknown(d, draws[1..][j]);
        forall j | 0 <= j < k + 1 ensures !Unknown(d, draws[j]) {
          if j > 0 {
            assert draws[j] == draws[1..][j - 1];
          }
        }
        assert draws[k + 1] == draws[1..][k];
      }
    }
  }

  /** `generate_unique_code`: gives up after five collisions. */
  method GenerateUniqueCode(d: Store, draws: seq<Draw>) returns (code: Option<Code>)
    requires |draws| == 5
    ensures code == FirstUnknown(d, draws)
    ensures code.Some? ==> code.value !in d.consumed && code.value !in d.codes
    ensures match code
            case None => forall draw <- draws :: !Unknown(d, draw)
            case Some(c) =>
              exists k :: 0 <= k < |draws| && draws[k].code == c && Unknown(d, draws[k])
                          && forall j :: 0 <= j < k ==> !Unknown(d, draws[j])
  {
    FirstUnknownIs(d, draws);
    for attempt := 0 to MAX_COLLISION_ATTEMPTS
      invariant FirstUnknown(d, draws) == FirstUnknown(d, draws[attempt..])
    {
      var candidate := draws[attempt].code;
      assert draws[attempt..][1..] == draws[attempt + 1..];
      if candidate in d.consumed {
        continue;
      }
      if candidate in d.codes {
        continue;
      }
      if draws[attempt].hashTaken {
        continue;
      }
      return Some(candidate);
    }
    return None;
  }

  /** Does the request get as far as a successful commit? */
  predicate Commits(d: Store, code: Code, actual: nat, draws: seq<Draw>, commitSucceeds: bool)
    requires code in d.codes && d.codes[code].allocation in d.allocations
  {
    commitSucceeds
    && (IsPartial(d.allocations[d.codes[code].allocation].remaining, actual) ==> FirstUnknown(d, draws).Some?)
  }

  function CodeOr0(code: Option<Code>): Code {
    match code
    case Some(c) => c
    case None => 0
  }

  /** The protocol steps of one request that runs alone, up to the release of the lock. */
  function StepsAlone(d: Store, w: Worker, code: Code, actual: nat, draws: seq<Draw>, commitSucceeds: bool): seq<Step> {
    [Acquire(w, code, actual), CheckConsumed(w)]
    + if code in d.consumed then [FindExisting(w)]
      else if code !in d.codes || d.codes[code].allocation !in d.allocations then [Load(w)]
      else if !Commits(d, code, actual, draws, commitSucceeds) then [Load(w), Fault(w)]
      else [Load(w), Commit(w, CodeOr0(FirstUnknown(d, draws))), Mark(w), Evict(w), CacheSuccessor(w)]
  }

  /** The Redis writes after the commit. */
  function Publish(d: Store, code: Code, successor: Option<Successor>): Store {
    d.(consumed := d.consumed + {code},
       cache := if successor.Some? then (d.cache - {code})[successor.value.newCode := successor.value.payload]
                else d.cache - {code})
  }

  function OutcomeAlone(d: Store, code: Code, actual: nat, draws: seq<Draw>, commitSucceeds: bool): (Store, Reply) {
    if code in d.consumed then (d, ReplayReply(d, code))
    else if code !in d.codes || d.codes[code].allocation !in d.allocations then (d, Refused)
    else if !Commits(d, code, actual, draws, commitSucceeds) then (d, Failed)
    else
      var row := d.codes[code];
      var a := d.allocations[row.allocation];
      var newCode := CodeOr0(FirstUnknown(d, draws));
      (Publish(CommitRows(d, code, actual, row, a, newCode), code, NewSuccessor(d, actual, a, newCode)),
       Dispensed(NewTransaction(row, a, actual), NewSuccessor(d, actual, a, newCode)))
  }

  lemma LoadsAlone(d: Store, w: Worker, code: Code, actual: nat, rest: seq<Step>)
    requires code !in d.locks && code !in d.consumed && code in d.codes && d.codes[code].allocation in d.allocations
    requires var loaded := System(d.(locks := d.locks + {code}),
                                  map[w := Loaded(code, actual, d.codes[code],
                                                  d.allocations[d.codes[code].allocation])]);
             ValidRun(loaded, rest)
    ensures var start := System(d, map[]);
            var loaded := System(d.(locks := d.locks + {code}),
                                 map[w := Loaded(code, actual, d.codes[code],
                                                  d.allocations[d.codes[code].allocation])]);
            var steps := [Acquire(w, code, actual)] + ([CheckConsumed(w)] + ([Load(w)] + rest));
            && ValidRun(start, steps) && Run(start, steps) == Run(loaded, rest)
  {
    var start := System(d, map[]);
    var s1 := Next(start, Acquire(w, code, actual));
    var s2 := Next(s1, CheckConsumed(w));
    var s3 := Next(s2, Load(w));
    assert s3 == System(d.(locks := d.locks + {code}),
                        map[w := Loaded(code, actual, d.codes[code],
                                                  d.allocations[d.codes[code].allocation])]);
    hide Next, Run, ValidRun;
    RunCons(s2, Load(w), rest);
    RunCons(s1, CheckConsumed(w), [Load(w)] + rest);
    RunCons(start, Acquire(w, code, actual), [CheckConsumed(w)] + ([Load(w)] + rest));
  }

  lemma MarksAlone(d: Store, w: Worker, code: Code, t: Transaction, successor: Option<Successor>)
    ensures var s := System(d, map[w := Settled(code, t, successor)]);
            Enabled(s, Mark(w)) && Next(s, Mark(w))
            == System(d.(consumed := d.consumed + {code}), map[w := Marked(code, t, successor)])
  {
  }

  lemma EvictsAlone(d: Store, w: Worker, code: Code, t: Transaction, successor: Option<Successor>)
    ensures var s := System(d, map[w := Marked(code, t, successor)]);
            Enabled(s, Evict(w)) && Next(s, Evict(w))
            == System(d.(cache := d.cache - {code}), map[w := Evicted(code, t, successor)])
  {
  }

  lemma CachesAlone(d: Store, w: Worker, code: Code, t: Transaction, successor: Option<Successor>)
    ensures var s := System(d, map[w := Evicted(code, t, successor)]);
            Enabled(s, CacheSuccessor(w)) && Next(s, CacheSuccessor(w))
            == System(if successor.None? then d
                      else d.(cache := d.cache[successor.value.newCode := successor.value.payload]),
                      map[w := Finishing(code, Dispensed(t, successor))])
  {
  }

  lemma PublishesAlone(d: Store, w: Worker, code: Code, t: Transaction, successor: Option<Successor>)
    ensures var s := System(d, map[w := Settled(code, t, successor)]);
            var steps := [Mark(w)] + ([Evict(w)] + ([CacheSuccessor(w)] + []));
            && ValidRun(s, steps)
            && Run(s, steps)
            == System(Publish(d, code, successor), map[w := Finishing(code, Dispensed(t, successor))])
  {
    hide Next, Run, ValidRun, Enabled;
    var marked := d.(consumed := d.consumed + {code});
    var evicted := marked.(cache := marked.cache - {code});
    MarksAlone(d, w, code, t, successor);
    EvictsAlone(marked, w, code, t, successor);
    CachesAlone(evicted, w, code, t, successor);
    var s1 := System(marked, map[w := Marked(code, t, successor)]);
    var s2 := System(evicted, map[w := Evicted(code, t, successor)]);
    RunOne(s2, CacheSuccessor(w));
    RunCons(s1, Evict(w), [CacheSuccessor(w)] + []);
    RunCons(System(d, map[w := Settled(code, t, successor)]), Mark(w), [Evict(w)] + ([CacheSuccessor(w)] + []));
  }

  lemma RunOne(s: System, step: Step)
    requires Enabled(s, step)
    ensures ValidRun(s, [step] + []) && Run(s, [step] + []) == Next(s, step)
  {
    hide Next, Enabled;
    RunCons(s, step, []);
  }

  lemma CommitsAlone(d: Store, w: Worker, code: Code, actual: nat, row: CodeRow, a: Allocation, newCode: Code)
    requires code in d.codes && (IsPartial(a.remaining, actual) ==> newCode !in d.codes)
    ensures var s := System(d, map[w := Loaded(code, actual, row, a)]);
            var steps := [Commit(w, newCode)] + ([Mark(w)] + ([Evict(w)] + ([CacheSuccessor(w)] + [])));
            var t, successor := NewTransaction(row, a, actual), NewSuccessor(d, actual, a, newCode);
            && ValidRun(s, steps)
            && Run(s, steps) == System(Publish(CommitRows(d, code, actual, row, a, newCode), code, successor),
                                       map[w := Finishing(code, Dispensed(t, successor))])
  {
    hide CommitRows, NewSuccessor, NewTransaction, IsPartial, Publish, Run, ValidRun;
    var s := System(d, map[w := Loaded(code, actual, row, a)]);
    var t, successor := NewTransaction(row, a, actual), NewSuccessor(d, actual, a, newCode);
    assert Next(s, Commit(w, newCode))
        == System(CommitRows(d, code, actual, row, a, newCode), map[w := Settled(code, t, successor)]);
    hide Next;
    PublishesAlone(CommitRows(d, code, actual, row, a, newCode), w, code, t, successor);
    RunCons(s, Commit(w, newCode), [Mark(w)] + ([Evict(w)] + ([CacheSuccessor(w)] + [])));
  }

  lemma StopsAlone(d: Store, w: Worker, code: Code, actual: nat)
    requires code !in d.locks
    requires code in d.consumed || code !in d.codes || d.codes[code].allocation !in d.allocations
    ensures var start := System(d, map[]);
            var last := if code in d.consumed then FindExisting(w) else Load(w);
            var steps := [Acquire(w, code, actual)] + ([CheckConsumed(w)] + ([last] + []));
            && ValidRun(start, steps)
            && Run(start, steps) == System(d.(locks := d.locks + {code}),
                                           map[w := Finishing(code, if code in d.consumed then ReplayReply(d, code)
                                                                    else Refused)])
  {
    var start := System(d, map[]);
    var last := if code in d.consumed then FindExisting(w) else Load(w);
    var s1 := Next(start, Acquire(w, code, actual));
    var s2 := Next(s1, CheckConsumed(w));
    RunCons(s2, last, []);
    RunCons(s1, CheckConsumed(w), [last] + []);
    RunCons(start, Acquire(w, code, actual), [CheckConsumed(w)] + ([last] + []));
  }

  /** Running a request's protocol steps with nobody else around ends in `OutcomeAlone`, lock still held. */
  lemma RunsAlone(d: Store, w: Worker, code: Code, actual: nat, draws: seq<Draw>, commitSucceeds: bool)
    requires code !in d.locks
    ensures var start := System(d, map[]);
            var steps := StepsAlone(d, w, code, actual, draws, commitSucceeds);
            var (after, reply) := OutcomeAlone(d, code, actual, draws, commitSucceeds);
            && ValidRun(start, steps)
            && Run(start, steps) == System(after.(locks := d.locks + {code}), map[w := Finishing(code, reply)])
  {
    hide ValidRun, Run, Next, Enabled, CommitRows, NewSuccessor, IsPartial, FirstUnknown;
    var steps := StepsAlone(d, w, code, actual, draws, commitSucceeds);
    if code in d.consumed || code !in d.codes || d.codes[code].allocation !in d.allocations {
      StopsAlone(d, w, code, actual);
      var last := if code in d.consumed then FindExisting(w) else Load(w);
      assert steps == [Acquire(w, code, actual)] + ([CheckConsumed(w)] + ([last] + []));
    } else {
      var row := d.codes[code];
      var a := d.allocations[row.allocation];
      var locked := d.(locks := d.locks + {code});
      if Commits(d, code, actual, draws, commitSucceeds) {
        var newCode := CodeOr0(FirstUnknown(d, draws));
        var rest := [Commit(w, newCode)] + ([Mark(w)] + ([Evict(w)] + ([CacheSuccessor(w)] + [])));
        FirstUnknownIs(d, draws);
        CommitsAlone(locked, w, code, actual, row, a, newCode);
        LoadsAlone(d, w, code, actual, rest);
        LocksDoNotMatter(d, locked, code, actual, row, a, newCode);
        assert steps == [Acquire(w, code, actual)] + ([CheckConsumed(w)] + ([Load(w)] + rest));
      } else {
        FaultsAlone(locked, w, code, actual, row, a);
        LoadsAlone(d, w, code, actual, [Fault(w)] + []);
        assert steps == [Acquire(w, code, actual)] + ([CheckConsumed(w)] + ([Load(w)] + ([Fault(w)] + [])));
      }
    }
  }

  lemma FaultsAlone(d: Store, w: Worker, code: Code, actual: nat, row: CodeRow, a: Allocation)
    ensures var s := System(d, map[w := Loaded(code, actual, row, a)]);
            && ValidRun(s, [Fault(w)] + [])
            && Run(s, [Fault(w)] + []) == System(d, map[w := Finishing(code, Failed)])
  {
  }

  lemma LocksDoNotMatter(d: Store, locked: Store, code: Code, actual: nat, row: CodeRow, a: Allocation, newCode: Code)
    requires code in d.codes && locked == d.(locks := locked.locks)
    ensures CommitRows(locked, code, actual, row, a, newCode)
         == CommitRows(d, code, actual, row, a, newCode).(locks := locked.locks)
    ensures NewSuccessor(locked, actual, a, newCode) == NewSuccessor(d, actual, a, newCode)
  {
  }

  lemma OutcomeIgnoresLocks(d: Store, locked: Store, code: Code, actual: nat, draws: seq<Draw>, commitSucceeds: bool)
    requires locked == d.(locks := locked.locks)
    ensures var (after, reply) := OutcomeAlone(d, code, actual, draws, commitSucceeds);
            && after.locks == d.locks
            && OutcomeAlone(locked, code, actual, draws, commitSucceeds) == (after.(locks := locked.locks), reply)
  {
    SameUnknown(d, locked, draws);
    if code in d.codes && d.codes[code].allocation in d.allocations {
      var row := d.codes[code];
      LocksDoNotMatter(d, locked, code, actual, row, d.allocations[row.allocation], CodeOr0(FirstUnknown(d, draws)));
    }
  }

  lemma {:induction false} SameUnknown(d: Store, d': Store, draws: seq<Draw>)
    requires d'.codes == d.codes && d'.consumed == d.consumed
    ensures FirstUnknown(d', draws) == FirstUnknown(d, draws)
  {
    if draws != [] {
      SameUnknown(d, d', draws[1..]);
    }
  }

  /** Is `t` the last transaction of the row with this id? */
  ghost predicate IsLast(transactions: seq<Transaction>, id: Id, t: Transaction) {
    exists k :: 0 <= k < |transactions| && transactions[k] == t && t.codeId == id
                && forall j :: k < j < |transactions| ==> transactions[j].codeId != id
  }

  lemma {:induction false} LatestIsLast(transactions: seq<Transaction>, id: Id)
    ensures match LatestOf(transactions, id)
            case None => forall t <- transactions :: t.codeId != id
            case Some(t) => t in transactions && IsLast(transactions, id, t)
  {
    if transactions != [] {
      var n := |transactions| - 1;
      LatestIsLast(transactions[..n], id);
      assert transactions == transactions[..n] + [transactions[n]];
    }
  }

  class Engine {
    var codes: map<Code, CodeRow>
    var allocations: map<Id, Allocation>
    var transactions: seq<Transaction>
    var nextId: Id
    var locks: set<Code>
    var consumed: set<Code>
    var cache: map<Code, Payload>
    var parents: map<Id, Id>

    function State(): Store
      reads this
    {
      Store(codes, allocations, transactions, nextId, locks, consumed, cache, parents)
    }

    /** `complete_dispense` with nobody else around: tables and keys end up as the steps of the protocol leave
        them, the reply is the one the protocol's worker finishes with, and the lock is free again. */
    method CompleteDispense(code: Code, actual: nat, draws: seq<Draw>, commitSucceeds: bool) returns (reply: Reply)
      requires |draws| == 5
      modifies this
      ensures code in old(locks) ==> reply == Failed && State() == old(State())
      ensures code !in old(locks) ==>
                var start := System(old(State()), map[]);
                var steps := StepsAlone(old(State()), 0, code, actual, draws, commitSucceeds);
                && ValidRun(start, steps)
                && Run(start, steps) == System(State().(locks := old(locks) + {code}), map[0 := Finishing(code, reply)])
                && locks == old(locks)
    {
      hide ValidRun, Run, CommitRows, NewSuccessor, NewTransaction, StepsAlone, FirstUnknown;
      if code in locks {
        return Failed;
      }
      RunsAlone(State(), 0, code, actual, draws, commitSucceeds);
      OutcomeIgnoresLocks(State(), State().(locks := locks + {code}), code, actual, draws, commitSucceeds);
      hide OutcomeAlone;
      locks := locks + {code};
      reply := CompleteLocked(code, actual, draws, commitSucceeds);
      locks := locks - {code};
    }

    /** The part of `complete_dispense` under the lock. */
    method CompleteLocked(code: Code, actual: nat, draws: seq<Draw>, commitSucceeds: bool) returns (reply: Reply)
      requires |draws| == 5
      modifies this
      ensures (State(), reply) == OutcomeAlone(old(State()), code, actual, draws, commitSucceeds)
    {
      if code in consumed {
        reply := FindExisting(code);
        return;
      }
      if code !in codes || codes[code].allocation !in allocations {
        return Refused;
      }
      var row := codes[code];
      var allocation := allocations[row.allocation];
      var over := actual > allocation.remaining + GRACE;
      var isPartial := !over && allocation.remaining - actual > PARTIAL_MIN_REMAINING;

      // Nothing is written before the commit; a failure rolls back.
      var newCode := None;
      if isPartial {
        newCode := GenerateUniqueCode(State(), draws);
        if newCode.None? {
          return Failed;
        }
      }
      if !commitSucceeds {
        return Failed;
      }
      var transaction, successor := CommitTransaction(code, actual, row, allocation, CodeOr0(newCode));
      UnusedCode(old(State()), code, actual, row, allocation, CodeOr0(newCode),
                 CodeOr0(FirstUnknown(old(State()), draws)));
      PublishSettlement(code, successor);
      return Dispensed(transaction, successor);
    }

    /** The rows `complete_dispense` writes in its one database transaction. */
    method CommitTransaction(code: Code, actual: nat, row: CodeRow, allocation: Allocation, newCode: Code)
      returns (transaction: Transaction, successor: Option<Successor>)
      requires code in codes && row == codes[code]
      requires row.allocation in allocations && allocation == allocations[row.allocation]
      modifies this
      ensures State() == CommitRows(old(State()), code, actual, row, allocation, newCode)
      ensures transaction == NewTransaction(row, allocation, actual)
      ensures successor == NewSuccessor(old(State()), actual, allocation, newCode)
    {
      var remainingBefore := allocation.remaining;
      var over := actual > remainingBefore + GRACE;
      var isPartial := !over && remainingBefore - actual > PARTIAL_MIN_REMAINING;
      codes := codes[code := row.(consumed := row.consumed + actual, status := Consumed)];
      allocations := allocations[row.allocation :=
        Allocation(allocation.quota, allocation.dispensed + actual,
                   if remainingBefore > actual then remainingBefore - actual else 0,
                   if isPartial then PartialFulfilled else Fulfilled)];
      transaction := Transaction(row.id, row.allocation, actual, if over then OverDispense else Completed);
      transactions := transactions + [transaction];
      successor := None;
      if isPartial {
        var remainder := remainingBefore - actual;
        successor := Some(Successor(newCode, Payload(nextId + 1, nextId, remainder)));
        allocations := allocations[nextId := Allocation(remainder, 0, remainder, Pending)];
        codes := codes[newCode := CodeRow(nextId + 1, nextId, remainder, 0, Active, 0)];
        parents := parents[nextId := row.allocation];
        nextId := nextId + 2;
      }
    }

    /** The Redis writes after the commit, in the source's order. */
    method PublishSettlement(code: Code, successor: Option<Successor>)
      modifies this`consumed, this`cache
      ensures consumed == old(consumed) + {code}
      ensures cache == if successor.Some? then (old(cache) - {code})[successor.value.newCode := successor.value.payload]
                       else old(cache) - {code}
    {
      consumed := consumed + {code};
      cache := cache - {code};
      if successor.Some? {
        cache := cache[successor.value.newCode := successor.value.payload];
      }
    }

    /** `_find_existing_txn` and the reply built from it: the last transaction of the code's row, if it has any. */
    method FindExisting(code: Code) returns (reply: Reply)
      ensures reply == ReplayReply(State(), code)
      ensures reply.Replayed? <==> code in codes && exists t <- transactions :: t.codeId == codes[code].id
      ensures reply.Replayed? ==> IsLast(transactions, codes[code].id, reply.transaction)
    {
      if code in codes {
        LatestIsLast(transactions, codes[code].id);
      }
      if code !in codes {
        return Refused;
      }
      var found := LatestOf(transactions, codes[code].id);
      return if found.Some? then Replayed(found.value) else Refused;
    }
  }

  /** A full dispense ignores the code drawn for a successor. */
  lemma UnusedCode(d: Store, code: Code, actual: nat, row: CodeRow, a: Allocation, b: Code, c: Code)
    requires code in d.codes && (IsPartial(a.remaining, actual) ==> b == c)
    ensures CommitRows(d, code, actual, row, a, b) == CommitRows(d, code, actual, row, a, c)
    ensures NewSuccessor(d, actual, a, b) == NewSuccessor(d, actual, a, c)
  {
  }
}
