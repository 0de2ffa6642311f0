/** The gateway's command handler with its duplicate filter, and what it guarantees when the platform delivers
    a command more than once.
 */
module CommandRegistry {
  const DUP_TTL := 24 * 3600
  const MIN_INTERVAL := 5
  const MAX_INTERVAL := 3600
  const KINDS: set<string> := {"ping", "status_probe", "set_interval", "reboot"}

  /** `payload["seconds"]` after `int(...)`. */
  datatype Seconds = NotANumber | Number(value: int)

  /** A missing id or type is the empty string. */
  datatype Command = Command(id: string, kind: string, seconds: Seconds)

  datatype Effect = NoEffect | Probe | SetInterval(seconds: int) | Reboot

  datatype Detail = PingOk | ProbeRequested | IntervalNow(seconds: int) | Rebooting
                  | InvalidInterval | UnsupportedCommand | Duplicate

  datatype Reply = NotAckable | Ack(executed: bool, detail: Detail, effect: Effect)

  predicate Ackable(c: Command) {
    c.id != "" && c.kind != ""
  }

  predicate Supported(c: Command) {
    Ackable(c) && c.kind in KINDS
  }

  // ---------------------------------------------------------------- dispatch

  /** `_dispatch`, with the rejection folded into the reply as `handle` does. */
  function Dispatch(c: Command): (r: Reply)
    requires Supported(c)
    ensures r.Ack?
    ensures r.effect.SetInterval? ==> MIN_INTERVAL <= r.effect.seconds <= MAX_INTERVAL
    ensures !r.executed ==> r.effect == NoEffect
    ensures r.executed <==> !(c.kind == "set_interval" && c.seconds.NotANumber?)
    ensures r.effect.SetInterval? <==> c.kind == "set_interval" && c.seconds.Number?
    ensures r.effect.SetInterval? ==> r.detail == IntervalNow(r.effect.seconds)
    ensures r.effect.SetInterval? && 5 <= c.seconds.value <= 3600 ==> r.effect.seconds == c.seconds.value
    ensures r.effect.SetInterval? && c.seconds.value < 5 ==> r.effect.seconds == 5
    ensures r.effect.SetInterval? && c.seconds.value > 3600 ==> r.effect.seconds == 3600
  {
    if c.kind == "ping" then Ack(true, PingOk, NoEffect)
    else if c.kind == "status_probe" then Ack(true, ProbeRequested, Probe)
    else if c.kind == "set_interval" then
      match c.seconds
      case NotANumber => Ack(false, InvalidInterval, NoEffect)
      case Number(value) =>
        var seconds := Max(MIN_INTERVAL, Min(value, MAX_INTERVAL));
        Ack(true, IntervalNow(seconds), SetInterval(seconds))
    else Ack(true, Rebooting, Reboot)
  }

  function Min(a: int, b: int): int {
    if b < a then b else a
  }

  function Max(a: int, b: int): int {
    if b > a then b else a
  }

  // ---------------------------------------------------------------- one call, as a relation

  type Recent = map<string, int>

  function Pruned(recent: Recent, now: int): Recent {
    map id | id in recent && recent[id] >= now - DUP_TTL :: recent[id]
  }

  /** Is the id unknown, or known from longer ago than the filter remembers? */
  predicate Fresh(recent: Recent, id: string, now: int) {
    id !in recent || recent[id] < now - DUP_TTL
  }

  /** The table after pruning and, for a fresh id, inserting it. */
  function Noted(recent: Recent, id: string, now: int): Recent {
    var kept := Pruned(recent, now);
    if id in kept then kept else kept[id := now]
  }

  predicate Oldest(recent: Recent, id: string) {
    id in recent && forall x <- recent :: recent[id] <= recent[x]
  }

  /** `_remember`: at capacity some entry with the least stamp goes first. */
  ghost predicate Remembers(maxRecent: int, recent: Recent, id: string, now: int, after: Recent) {
    if |recent| >= maxRecent
    then exists oldest :: Oldest(recent, oldest) && after == (recent - {oldest})[id := now]
    else after == recent[id := now]
  }

  ghost predicate Handles(maxRecent: int, recent: Recent, c: Command, now: int, after: Recent, reply: Reply) {
    if !Ackable(c) then after == recent && reply == NotAckable
    else if !Supported(c) then
      && Remembers(maxRecent, Noted(recent, c.id, now), c.id, now, after)
      && reply == Ack(false, UnsupportedCommand, NoEffect)
    else
      && after == Noted(recent, c.id, now)
      && reply == if Fresh(recent, c.id, now) then Dispatch(c) else Ack(true, Duplicate, NoEffect)
  }

  // ---------------------------------------------------------------- the class

  class Registry {
    const maxRecent: int
    var recent: Recent

    constructor (maxRecent: int)
      ensures this.maxRecent == maxRecent && recent == map[]
    {
      this.maxRecent := maxRecent;
      recent := map[];
    }

    method Handle(c: Command, now: int) returns (reply: Reply)
      modifies this
      ensures Handles(maxRecent, old(recent), c, now, recent, reply)
    {
      hide Remembers, Dispatch;
      if c.id == "" || c.kind == "" {
        return NotAckable;
      }
      Prune(now);
      var unseen := c.id !in recent;
      if unseen {
        recent := recent[c.id := now];
      }
      if c.kind !in KINDS {
        Remember(c.id, now);
        return Ack(false, UnsupportedCommand, NoEffect);
      }
      if !unseen {
        return Ack(true, Duplicate, NoEffect);
      }
      reply := Dispatch(c);
    }

    method Prune(now: int)
      modifies this
      ensures recent == Pruned(old(recent), now)
    {
      var cutoff := now - DUP_TTL;
      var stale := set id | id in recent && recent[id] < cutoff;
      while stale != {}
        invariant stale <= recent.Keys
        invariant forall id :: id in recent <==> id in old(recent) && (old(recent)[id] >= cutoff || id in stale)
        invariant forall id <- recent :: recent[id] == old(recent)[id]
        invariant forall id <- stale :: old(recent)[id] < cutoff
        decreases |stale|
      {
        var id :| id in stale;
        recent := recent - {id};
        stale := stale - {id};
      }
    }

    method Remember(id: string, now: int)
      requires id in recent
      modifies this
      ensures Remembers(maxRecent, old(recent), id, now, recent)
    {
      if |recent| >= maxRecent {
        var oldest := OldestIn(recent, id);
        recent := recent - {oldest};
      }
      recent := recent[id := now];
    }
  }

  /** `min(recent, key=recent.get)`, started from any known id. */
  method OldestIn(recent: Recent, start: string) returns (oldest: string)
    requires start in recent
    ensures Oldest(recent, oldest)
  {
    oldest := start;
    var rest := recent.Keys;
    while rest != {}
      invariant rest <= recent.Keys && oldest in recent
      invariant forall x <- recent.Keys - rest :: recent[oldest] <= recent[x]
      decreases |rest|
    {
      var x :| x in rest;
      if recent[x] < recent[oldest] {
        oldest := x;
      }
      rest := rest - {x};
    }
    assert recent.Keys - rest == recent.Keys;
  }

  // ---------------------------------------------------------------- whole runs

  datatype Call = Call(command: Command, now: int)

  /** Calls in order, whether the gateway was restarted since the call before, the table each call leaves (and the
      empty one first), and the replies. */
  datatype Run = Run(maxRecent: int, calls: seq<Call>, boots: seq<bool>, tables: seq<Recent>, replies: seq<Reply>)

  predicate Shaped(run: Run) {
    |run.boots| == |run.replies| == |run.calls| && |run.tables| == |run.calls| + 1
  }

  /** The table call `k` meets: a restart loses it, since it lives in memory only. */
  function TableAt(run: Run, k: nat): Recent
    requires Shaped(run) && k < |run.calls|
  {
    if run.boots[k] then map[] else run.tables[k]
  }

  ghost predicate StepOf(run: Run, k: nat)
    requires Shaped(run) && k < |run.calls|
  {
    Handles(run.maxRecent, TableAt(run, k), run.calls[k].command, run.calls[k].now, run.tables[k + 1], run.replies[k])
  }

  /** The clock never goes back while the gateway is up. */
  ghost predicate Monotone(calls: seq<Call>, boots: seq<bool>)
    requires |boots| == |calls|
  {
    forall k :: 0 < k < |calls| ==> boots[k] || calls[k - 1].now <= calls[k].now
  }

  /** A run starts with the empty table of a booted gateway. */
  ghost predicate IsRun(run: Run) {
    && Shaped(run)
    && run.tables[0] == map[]
    && (forall k: nat | k < |run.calls| :: StepOf(run, k))
    && Monotone(run.calls, run.boots)
  }

  /** Does call `k` reach `_dispatch`? */
  predicate Dispatched(run: Run, k: nat)
    requires Shaped(run) && k < |run.calls|
  {
    var call := run.calls[k];
    Supported(call.command) && Fresh(TableAt(run, k), call.command.id, call.now)
  }

  /** Is call `k` an unsupported command that finds the table full, with nothing in it stamped before `since`? */
  ghost predicate CrowdsOut(run: Run, k: nat, since: int)
    requires Shaped(run) && k < |run.calls|
  {
    var call := run.calls[k];
    var noted := Noted(TableAt(run, k), call.command.id, call.now);
    && Ackable(call.command) && !Supported(call.command)
    && |noted| >= run.maxRecent
    && forall id <- noted :: noted[id] >= since
  }

  /** Is there such a call between `i` and `j`? */
  ghost predicate CrowdedBetween(run: Run, i: nat, j: nat)
    requires Shaped(run) && i < j < |run.calls|
  {
    exists k: nat :: i < k < j && CrowdsOut(run, k, run.calls[i].now)
  }

  /** Was the gateway restarted after call `i` and before call `j` or with it? */
  ghost predicate RestartBetween(run: Run, i: nat, j: nat)
    requires Shaped(run) && i < j < |run.calls|
  {
    exists k: nat :: i < k <= j && run.boots[k]
  }

  /** Is call `i` the last time before call `j` that the id of both was carried out?  Supported redeliveries may lie
      in between. */
  ghost predicate LastDispatch(run: Run, i: nat, j: nat)
    requires Shaped(run) && i < j < |run.calls|
  {
    && Dispatched(run, i) && run.calls[j].command.id == run.calls[i].command.id
    && forall k: nat | i < k < j && run.calls[k].command.id == run.calls[i].command.id ::
         Supported(run.calls[k].command) && !Dispatched(run, k)
  }

  /** No command with another id is handled at the very instant of call `i`, up to call `j`. */
  ghost predicate AloneAtItsInstant(run: Run, i: nat, j: nat)
    requires i < j < |run.calls|
  {
    forall k: nat | k < j && run.calls[k].command.id != run.calls[i].command.id :: run.calls[k].now != run.calls[i].now
  }

  /** An effect leaves the handler exactly at a dispatched call whose command has one. */
  lemma EffectsComeFromDispatch(run: Run, k: nat)
    requires IsRun(run) && k < |run.calls|
    ensures run.replies[k].Ack? && run.replies[k].effect != NoEffect
       <==> Dispatched(run, k) && Dispatch(run.calls[k].command).effect != NoEffect
  {
    assert StepOf(run, k);
  }

  /** Every reply of every run, by the command and by whether its id is known: an interval is set to the value sent, or
      to the nearest one from 5 to 3600, and the detail names the same seconds. */
  lemma RepliesExact(run: Run, k: nat)
    requires IsRun(run) && k < |run.calls|
    ensures var c, r, table := run.calls[k].command, run.replies[k], TableAt(run, k);
            var known := c.id in table && table[c.id] >= run.calls[k].now - 86_400;
            && (c.id == "" || c.kind == "" <==> r == NotAckable)
            && (r.Ack? && c.kind !in {"ping", "status_probe", "set_interval", "reboot"} ==>
                  r == Ack(false, UnsupportedCommand, NoEffect))
            && (r.Ack? && c.kind in {"ping", "status_probe", "set_interval", "reboot"} ==>
                  && (known ==> r == Ack(true, Duplicate, NoEffect))
                  && (!known && c.kind == "ping" ==> r == Ack(true, PingOk, NoEffect))
                  && (!known && c.kind == "status_probe" ==> r == Ack(true, ProbeRequested, Probe))
                  && (!known && c.kind == "reboot" ==> r == Ack(true, Detail.Rebooting, Effect.Reboot))
                  && (!known && c.kind == "set_interval" && c.seconds.NotANumber? ==>
                        r == Ack(false, InvalidInterval, NoEffect))
                  && (!known && c.kind == "set_interval" && c.seconds.Number? ==>
                        && r.executed && r.effect.SetInterval? && r.detail == IntervalNow(r.effect.seconds)
                        && 5 <= r.effect.seconds <= 3600
                        && forall n | 5 <= n <= 3600 ::
                             Distance(c.seconds.value, r.effect.seconds) <= Distance(c.seconds.value, n)))
  {
    assert StepOf(run, k);
  }

  function Distance(a: int, b: int): nat {
    if a < b then b - a else a - b
  }

  // ---------------------------------------------------------------- an id stays known ...

  /** One step keeps an id that is young enough, unless the step crowds it out. */
  lemma StepRemembers(run: Run, k: nat, id: string, since: int)
    requires IsRun(run) && k < |run.calls|
    requires id in TableAt(run, k) && TableAt(run, k)[id] >= since && run.calls[k].now <= since + DUP_TTL
    requires since <= run.calls[k].now && !CrowdsOut(run, k, since)
    ensures id in run.tables[k + 1] && run.tables[k + 1][id] >= since
  {
    hide Dispatch, Monotone;
    assert StepOf(run, k);
    var call := run.calls[k];
    if Ackable(call.command) {
      var noted := Noted(TableAt(run, k), call.command.id, call.now);
      assert id in noted && noted[id] >= since;
      if !Supported(call.command) && |noted| >= run.maxRecent {
        var oldest :| Oldest(noted, oldest) && run.tables[k + 1] == (noted - {oldest})[call.command.id := call.now];
        assert CrowdsOut(run, k, since) <==> noted[oldest] >= since;
      }
    }
  }

  lemma {:induction false} ClockSteady(run: Run, i: nat, j: nat)
    requires IsRun(run) && i <= j < |run.calls| && forall k: nat | i < k <= j :: !run.boots[k]
    ensures run.calls[i].now <= run.calls[j].now
    decreases j
  {
    hide StepOf;
    if i < j {
      ClockSteady(run, i, j - 1);
    }
  }

  /** From its dispatch on, an id stays known for the whole retention time unless it is crowded out or the gateway
      is restarted. */
  lemma {:induction false} StaysKnown(run: Run, i: nat, j: nat)
    requires IsRun(run) && i < j < |run.calls| && Dispatched(run, i)
    requires run.calls[j].now <= run.calls[i].now + 86_400 && !CrowdedBetween(run, i, j) && !RestartBetween(run, i, j)
    ensures var id := run.calls[i].command.id; id in TableAt(run, j) && TableAt(run, j)[id] >= run.calls[i].now
    decreases j
  {
    hide Dispatch, CrowdsOut;
    assert !run.boots[j];
    if j == i + 1 {
      assert StepOf(run, i);
    } else {
      ClockSteady(run, j - 1, j);
      ClockSteady(run, i, j - 1);
      StaysKnown(run, i, j - 1);
      StepRemembers(run, j - 1, run.calls[i].command.id, run.calls[i].now);
    }
  }

  /** Two calls with one id both reach `_dispatch` only if they are more than the retention time apart, or an
      unsupported command between them found at least `maxRecent` ids, all of them noted since the first call, or the
      gateway was restarted between them. */
  lemma DispatchedTwice(run: Run, i: nat, j: nat)
    requires IsRun(run) && i < j < |run.calls|
    requires Dispatched(run, i) && Dispatched(run, j) && run.calls[i].command.id == run.calls[j].command.id
    ensures || run.calls[j].now > run.calls[i].now + 86_400
            || CrowdedBetween(run, i, j)
            || RestartBetween(run, i, j)
  {
    hide Dispatch, CrowdedBetween, RestartBetween;
    if run.calls[j].now <= run.calls[i].now + 86_400 && !CrowdedBetween(run, i, j) && !RestartBetween(run, i, j) {
      StaysKnown(run, i, j);
    }
  }

  // ---------------------------------------------------------------- ... and is forgotten

  /** Every stamp in the table is the time of an earlier call with its id. */
  lemma {:induction false} StampsComeFromCalls(run: Run, m: nat, id: string) returns (l: nat)
    requires IsRun(run) && m <= |run.calls| && id in run.tables[m]
    ensures l < m && Ackable(run.calls[l].command)
    ensures run.calls[l].command.id == id && run.calls[l].now == run.tables[m][id]
  {
    hide Dispatch;
    assert StepOf(run, m - 1);
    var call := run.calls[m - 1];
    if id == call.command.id && run.tables[m][id] == call.now && Ackable(call.command) {
      l := m - 1;
    } else {
      StampFromBefore(run, m, id);
      l := StampsComeFromCalls(run, m - 1, id);
    }
  }

  lemma StampFromBefore(run: Run, m: nat, id: string)
    requires IsRun(run) && 0 < m <= |run.calls| && id in run.tables[m]
    requires var call := run.calls[m - 1];
             !(id == call.command.id && run.tables[m][id] == call.now && Ackable(call.command))
    ensures id in run.tables[m - 1] && run.tables[m - 1][id] == run.tables[m][id]
  {
    hide Dispatch;
    assert StepOf(run, m - 1);
  }

  /** After the last dispatch of an id and before its next one, its entry keeps the stamp of that dispatch as long
      as it is there, and once gone it does not come back. */
  lemma StampStep(run: Run, i: nat, k: nat, j: nat)
    requires IsRun(run) && i < k < j < |run.calls| && LastDispatch(run, i, j)
    ensures var id, before, after := run.calls[i].command.id, run.tables[k], run.tables[k + 1];
            id in after ==> id in TableAt(run, k) && id in before && after[id] == before[id]
  {
    hide Dispatch, Monotone;
    assert StepOf(run, k);
  }

  lemma {:induction false} StampKept(run: Run, i: nat, k: nat, j: nat)
    requires IsRun(run) && i < k <= j < |run.calls| && LastDispatch(run, i, j)
    ensures var id := run.calls[i].command.id; id in run.tables[k] ==> run.tables[k][id] == run.calls[i].now
    decreases k
  {
    hide Dispatch, LastDispatch;
    if k == i + 1 {
      LastDispatchIs(run, i, j);
      DispatchStamps(run, i);
    } else {
      StampKept(run, i, k - 1, j);
      StampStep(run, i, k - 1, j);
    }
  }

  lemma DispatchStamps(run: Run, i: nat)
    requires IsRun(run) && i < |run.calls|
    ensures var id := run.calls[i].command.id;
            Dispatched(run, i) ==> id in run.tables[i + 1] && run.tables[i + 1][id] == run.calls[i].now
  {
    hide Dispatch;
    assert StepOf(run, i);
  }

  lemma {:induction false} StaysGone(run: Run, i: nat, k: nat, m: nat, j: nat)
    requires IsRun(run) && i < k <= m <= j < |run.calls| && LastDispatch(run, i, j)
    requires run.calls[i].command.id !in run.tables[k]
    ensures run.calls[i].command.id !in run.tables[m]
    decreases m
  {
    hide Dispatch, LastDispatch, IsRun;
    if k < m {
      StaysGone(run, i, k, m - 1, j);
      StampStep(run, i, m - 1, j);
    }
  }

  /** A crowding call throws the id out, if no other id bears the same stamp. */
  lemma CrowdingEvicts(run: Run, i: nat, k: nat, j: nat)
    requires IsRun(run) && i < k < j < |run.calls| && LastDispatch(run, i, j)
    requires CrowdsOut(run, k, run.calls[i].now) && AloneAtItsInstant(run, i, j)
    ensures run.calls[i].command.id !in run.tables[k + 1]
  {
    hide Dispatch, Monotone;
    var id, call, since := run.calls[i].command.id, run.calls[k], run.calls[i].now;
    assert StepOf(run, k);
    StampKept(run, i, k, j);
    StampStep(run, i, k, j);
    assert call.command.id != id;
    var noted := Noted(TableAt(run, k), call.command.id, call.now);
    if id in noted {
      var oldest :| Oldest(noted, oldest) && run.tables[k + 1] == (noted - {oldest})[call.command.id := call.now];
      assert noted[oldest] == since;
      OnlyBearer(run, i, k, j, oldest);
    }
  }

  lemma OnlyBearer(run: Run, i: nat, k: nat, j: nat, x: string)
    requires IsRun(run) && i < k < j < |run.calls| && AloneAtItsInstant(run, i, j)
    requires var noted := Noted(TableAt(run, k), run.calls[k].command.id, run.calls[k].now);
             x in noted && noted[x] == run.calls[i].now
    ensures x == run.calls[i].command.id
  {
    hide StepOf, Monotone;
    if x in TableAt(run, k) && TableAt(run, k)[x] == run.calls[i].now {
      var l := StampsComeFromCalls(run, k, x);
    }
  }

  /** After a restart the next delivery of the id is carried out again. */
  lemma RestartForgets(run: Run, i: nat, j: nat)
    requires IsRun(run) && i < j < |run.calls| && LastDispatch(run, i, j) && Supported(run.calls[j].command)
    requires RestartBetween(run, i, j)
    ensures Dispatched(run, j)
  {
    hide Dispatch, LastDispatch, StepOf;
    var k: nat :| i < k <= j && run.boots[k];
    LastDispatchIs(run, i, j);
    if k < j {
      StampStep(run, i, k, j);
      StaysGone(run, i, k + 1, j, j);
    }
  }

  /** The exact condition: a redelivery is dispatched again if and only if it comes more than the retention time
      after the last dispatch of its id, or an unsupported command in between crowds the id out, or the gateway is
      restarted in between. */
  lemma RedeliveryDispatchedIff(run: Run, i: nat, j: nat)
    requires IsRun(run) && i < j < |run.calls| && LastDispatch(run, i, j) && Supported(run.calls[j].command)
    requires AloneAtItsInstant(run, i, j)
    ensures Dispatched(run, j)
       <==> || run.calls[j].now > run.calls[i].now + 86_400
            || CrowdedBetween(run, i, j)
            || RestartBetween(run, i, j)
    ensures !Dispatched(run, j) ==> run.replies[j] == Ack(true, Duplicate, NoEffect)
  {
    hide Dispatch, CrowdsOut, LastDispatch, AloneAtItsInstant, RestartBetween;
    var id := run.calls[i].command.id;
    LastDispatchIs(run, i, j);
    assert StepOf(run, j);
    if RestartBetween(run, i, j) {
      RestartForgets(run, i, j);
    } else if CrowdedBetween(run, i, j) {
      var k: nat :| i < k < j && CrowdsOut(run, k, run.calls[i].now);
      CrowdingEvicts(run, i, k, j);
      StaysGone(run, i, k + 1, j, j);
    } else if run.calls[j].now <= run.calls[i].now + 86_400 {
      StaysKnown(run, i, j);
    } else {
      StampKept(run, i, j, j);
    }
  }

  lemma LastDispatchIs(run: Run, i: nat, j: nat)
    requires Shaped(run) && i < j < |run.calls| && LastDispatch(run, i, j)
    ensures Dispatched(run, i) && run.calls[j].command.id == run.calls[i].command.id
  {
  }

  /** When another id bears the stamp of the dispatch, the choice among equal stamps decides: two runs of the same
      calls, one that carries the command out again and one that does not. */
  lemma TiesDecide(c: Command, other: Command, odd: Command) returns (again: Run, once: Run)
    requires Supported(c) && Supported(other) && Ackable(odd) && !Supported(odd)
    requires c.id != other.id && c.id != odd.id && other.id != odd.id
    ensures IsRun(again) && IsRun(once) && again.maxRecent == once.maxRecent == 2
    ensures again.boots == once.boots
    ensures again.calls == once.calls == [Call(c, 0), Call(other, 0), Call(odd, 1), Call(c, 2)]
    ensures Dispatched(again, 3) && !Dispatched(once, 3)
  {
    again := TieRun(c, other, odd, c.id);
    once := TieRun(c, other, odd, other.id);
  }

  lemma TieRun(c: Command, other: Command, odd: Command, victim: string) returns (run: Run)
    requires Supported(c) && Supported(other) && Ackable(odd) && !Supported(odd)
    requires c.id != other.id && c.id != odd.id && other.id != odd.id && victim in {c.id, other.id}
    ensures IsRun(run) && run.maxRecent == 2 && run.boots == [false, false, false, false]
    ensures run.calls == [Call(c, 0), Call(other, 0), Call(odd, 1), Call(c, 2)]
    ensures Dispatched(run, 3) <==> victim == c.id
  {
    hide Supported, Dispatch, Handles;
    var both: Recent := map[c.id := 0, other.id := 0];
    var left := (both[odd.id := 1] - {victim})[odd.id := 1];
    var last := if victim == c.id then left[c.id := 2] else left;
    var reply := if victim == c.id then Dispatch(c) else Ack(true, Duplicate, NoEffect);
    HandlesUnknown(2, map[], c, 0);
    HandlesUnknown(2, map[c.id := 0], other, 0);
    assert map[c.id := 0][other.id := 0] == both;
    HandlesCrowding(2, both, odd, 1, victim);
    if victim == c.id {
      HandlesUnknown(2, left, c, 2);
    } else {
      HandlesKnown(2, left, c, 2);
    }
    run := Run(2, [Call(c, 0), Call(other, 0), Call(odd, 1), Call(c, 2)], [false, false, false, false],
               [map[], map[c.id := 0], both, left, last],
               [Dispatch(c), Dispatch(other), Ack(false, UnsupportedCommand, NoEffect), reply]);
    assert StepOf(run, 0) && StepOf(run, 1) && StepOf(run, 2) && StepOf(run, 3);
  }

  lemma HandlesUnknown(maxRecent: int, recent: Recent, c: Command, now: int)
    requires Supported(c) && c.id !in recent && forall id <- recent :: recent[id] >= now - DUP_TTL
    ensures Handles(maxRecent, recent, c, now, recent[c.id := now], Dispatch(c))
  {
    hide Dispatch;
    assert Pruned(recent, now) == recent;
  }

  lemma HandlesKnown(maxRecent: int, recent: Recent, c: Command, now: int)
    requires Supported(c) && c.id in recent && forall id <- recent :: recent[id] >= now - DUP_TTL
    ensures Handles(maxRecent, recent, c, now, recent, Ack(true, Duplicate, NoEffect))
  {
    assert Pruned(recent, now) == recent;
  }

  lemma HandlesCrowding(maxRecent: int, recent: Recent, odd: Command, now: int, victim: string)
    requires Ackable(odd) && !Supported(odd) && odd.id !in recent
    requires forall id <- recent :: now >= recent[id] >= now - DUP_TTL
    requires |recent| + 1 >= maxRecent && Oldest(recent, victim)
    ensures Handles(maxRecent, recent, odd, now, (recent[odd.id := now] - {victim})[odd.id := now],
                    Ack(false, UnsupportedCommand, NoEffect))
  {
    assert Pruned(recent, now) == recent;
    assert Noted(recent, odd.id, now) == recent[odd.id := now];
    assert Oldest(recent[odd.id := now], victim);
  }

  // ---------------------------------------------------------------- duplicates of rejected commands

  /** The acknowledgement of a redelivery agrees with the first one about the outcome exactly when the command can be
      carried out at all, or is dispatched again: the duplicate of a rejected command is acknowledged as executed. */
  lemma DuplicateAckAgreesIff(run: Run, i: nat, j: nat)
    requires IsRun(run) && i < j < |run.calls| && LastDispatch(run, i, j)
    requires run.calls[j].command == run.calls[i].command && AloneAtItsInstant(run, i, j)
    ensures run.replies[i].Ack? && run.replies[j].Ack?
    ensures run.replies[i].executed == run.replies[j].executed
       <==> || !(run.calls[i].command.kind == "set_interval" && run.calls[i].command.seconds.NotANumber?)
            || run.calls[j].now > run.calls[i].now + 86_400
            || CrowdedBetween(run, i, j)
            || RestartBetween(run, i, j)
  {
    RedeliveryDispatchedIff(run, i, j);
    assert StepOf(run, i) && StepOf(run, j);
    hide Noted, CrowdedBetween, RestartBetween;
  }

  // ---------------------------------------------------------------- any table size can be crowded

  lemma {:induction false} OldestExists(recent: Recent) returns (id: string)
    requires recent != map[]
    ensures Oldest(recent, id)
    decreases |recent|
  {
    id :| id in recent;
    var rest := recent - {id};
    assert forall x <- recent :: x == id || x in rest;
    if rest != map[] {
      var best := OldestExists(rest);
      if recent[best] < recent[id] {
        id := best;
      }
    }
  }

  /** Whatever the table and the call, the handler has an answer. */
  lemma HandlesTotal(maxRecent: int, recent: Recent, c: Command, now: int) returns (after: Recent, reply: Reply)
    ensures Handles(maxRecent, recent, c, now, after, reply)
  {
    hide Dispatch;
    if !Ackable(c) {
      after, reply := recent, NotAckable;
    } else {
      var noted := Noted(recent, c.id, now);
      if Supported(c) {
        after, reply := noted, if Fresh(recent, c.id, now) then Dispatch(c) else Ack(true, Duplicate, NoEffect);
      } else {
        reply := Ack(false, UnsupportedCommand, NoEffect);
        assert c.id in noted;
        var oldest := OldestExists(noted);
        after := (if |noted| >= maxRecent then noted - {oldest} else noted)[c.id := now];
      }
    }
  }

  /** Every sequence of calls and restarts with such a clock belongs to a run. */
  lemma {:induction false} RunExists(maxRecent: int, calls: seq<Call>, boots: seq<bool>) returns (run: Run)
    requires |boots| == |calls| && Monotone(calls, boots)
    ensures IsRun(run) && run.maxRecent == maxRecent && run.calls == calls && run.boots == boots
    decreases |calls|
  {
    hide Handles;
    if calls == [] {
      run := Run(maxRecent, [], [], [map[]], []);
    } else {
      var n := |calls| - 1;
      var before := RunExists(maxRecent, calls[..n], boots[..n]);
      var met: Recent := if boots[n] then map[] else before.tables[n];
      var after, reply := HandlesTotal(maxRecent, met, calls[n].command, calls[n].now);
      run := Run(maxRecent, calls, boots, before.tables + [after], before.replies + [reply]);
      forall k: nat | k < |calls|
        ensures StepOf(run, k)
      {
        if k < n {
          assert StepOf(before, k);
        }
      }
    }
  }

  /** Supported commands with pairwise different ids, none of them `c`'s. */
  ghost predicate Fillers(c: Command, fillers: seq<Command>) {
    && (forall f <- fillers :: Supported(f) && f.id != c.id)
    && (forall i, j :: 0 <= i < j < |fillers| ==> fillers[i].id != fillers[j].id)
  }

  /** `c`, then the fillers, then an unsupported command, then `c` again, all within three seconds. */
  function CrowdingCalls(c: Command, fillers: seq<Command>, odd: Command): seq<Call> {
    [Call(c, 0)] + seq(|fillers|, k requires 0 <= k < |fillers| => Call(fillers[k], 1)) + [Call(odd, 2), Call(c, 3)]
  }

  /** While supported commands with new ids come in, the table holds one entry for each. */
  lemma {:induction false} TableFills(run: Run, c: Command, fillers: seq<Command>, odd: Command, k: nat)
    requires IsRun(run) && Supported(c) && Fillers(c, fillers) && run.calls == CrowdingCalls(c, fillers, odd)
    requires 1 <= k <= |fillers| + 1 && forall l: nat | 0 < l < k :: !run.boots[l]
    ensures |run.tables[k]| == k
    ensures forall id <- run.tables[k] :: id == c.id || exists l :: 0 <= l < k - 1 && fillers[l].id == id
    ensures forall id <- run.tables[k] :: 0 <= run.tables[k][id] <= 1
  {
    hide Supported, Dispatch, Monotone, Handles;
    assert StepOf(run, k - 1);
    if k == 1 {
      FreshSupported(run.maxRecent, map[], c, 0, run.tables[1], run.replies[0]);
    } else {
      TableFills(run, c, fillers, odd, k - 1);
      var f := fillers[k - 2];
      assert f in fillers && run.calls[k - 1] == Call(f, 1);
      FreshSupported(run.maxRecent, run.tables[k - 1], f, 1, run.tables[k], run.replies[k - 1]);
    }
  }

  lemma FreshSupported(maxRecent: int, recent: Recent, c: Command, now: int, after: Recent, reply: Reply)
    requires Handles(maxRecent, recent, c, now, after, reply) && Supported(c) && c.id !in recent
    requires forall id <- recent :: recent[id] >= now - DUP_TTL
    ensures after == recent[c.id := now] && |after| == |recent| + 1
  {
    hide Dispatch;
    assert Pruned(recent, now) == recent;
    assert after.Keys == recent.Keys + {c.id} && |after| == |after.Keys| && |recent| == |recent.Keys|;
  }

  /** The promise of one effect per id fails for every table size: any supported command is carried out twice within
      three seconds when `maxRecent - 1` new ids and an unsupported command come in between. */
  lemma CarriedOutTwice(run: Run, c: Command, fillers: seq<Command>, odd: Command)
    requires IsRun(run) && run.calls == CrowdingCalls(c, fillers, odd) && run.maxRecent <= |fillers| + 1
    requires Supported(c) && Fillers(c, fillers) && Ackable(odd) && !Supported(odd) && odd.id != c.id
    ensures run.replies[0] == run.replies[|run.calls| - 1] == Dispatch(c)
  {
    hide Dispatch, Supported, CrowdedBetween, Monotone;
    var n := |fillers| + 1;
    assert run.calls[n] == Call(odd, 2) && run.calls[n + 1] == Call(c, 3);
    if !RestartBetween(run, 0, n + 1) {
      TableFills(run, c, fillers, odd, n);
      FillersCrowdOut(run, n, odd);
      CrowdedBy(run, 0, n, n + 1);
    }
    hide RestartBetween;
    assert LastDispatch(run, 0, n + 1) && AloneAtItsInstant(run, 0, n + 1) by {
      assert forall k: nat | 0 < k < n :: run.calls[k].command in fillers && run.calls[k].now == 1;
    }
    RedeliveryDispatchedIff(run, 0, n + 1);
    assert |run.calls| == n + 2 && Dispatched(run, 0) && Dispatched(run, n + 1);
    DispatchedReply(run, 0);
    DispatchedReply(run, n + 1);
  }

  lemma DispatchedReply(run: Run, k: nat)
    requires IsRun(run) && k < |run.calls| && Dispatched(run, k)
    ensures run.replies[k] == Dispatch(run.calls[k].command)
  {
    hide Dispatch;
    assert StepOf(run, k);
  }

  lemma CrowdedBy(run: Run, i: nat, k: nat, j: nat)
    requires Shaped(run) && i < k < j < |run.calls| && CrowdsOut(run, k, run.calls[i].now)
    ensures CrowdedBetween(run, i, j)
  {
  }

  lemma FillersCrowdOut(run: Run, n: nat, odd: Command)
    requires Shaped(run) && n < |run.calls| && run.calls[n] == Call(odd, 2) && Ackable(odd) && !Supported(odd)
    requires !run.boots[n]
    requires |run.tables[n]| == n >= run.maxRecent && forall id <- run.tables[n] :: 0 <= run.tables[n][id] <= 1
    ensures CrowdsOut(run, n, 0)
  {
    var recent := run.tables[n];
    assert Pruned(recent, 2) == recent;
    var noted := Noted(recent, odd.id, 2);
    assert recent.Keys <= noted.Keys && |noted.Keys| == |noted| && |recent.Keys| == |recent|;
    SubsetSize(recent.Keys, noted.Keys);
    assert |noted| >= run.maxRecent;
    assert forall id <- noted :: noted[id] >= 0;
  }

  lemma {:induction false} SubsetSize(a: set<string>, b: set<string>)
    requires a <= b
    ensures |a| <= |b|
  {
    if a != {} {
      var x :| x in a;
      SubsetSize(a - {x}, b - {x});
    }
  }

  /** Such runs exist for every table size. */
  lemma CrowdingRunExists(maxRecent: nat, c: Command, fillers: seq<Command>, odd: Command) returns (run: Run)
    requires Supported(c) && Fillers(c, fillers) && |fillers| + 1 == maxRecent
    requires Ackable(odd) && !Supported(odd) && odd.id != c.id
    ensures IsRun(run) && run.maxRecent == maxRecent && run.calls == CrowdingCalls(c, fillers, odd)
    ensures forall k :: 0 <= k < |run.calls| ==> !run.boots[k]
    ensures run.replies[0] == run.replies[|run.calls| - 1] == Dispatch(c)
  {
    hide Handles;
    run := RunExists(maxRecent, CrowdingCalls(c, fillers, odd), seq(|fillers| + 3, _ => false));
    CarriedOutTwice(run, c, fillers, odd);
  }
}
