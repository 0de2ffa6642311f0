/** What becomes of a command's effect on the gateway: the handler returns it, the callback keeps it only if the
    acknowledgement goes out, the main loop applies whatever effect it finds, and a reboot forgets everything.
 */
module CommandEffects {
  import opened Common
  import opened CommandRegistry

  /** What the gateway does, in order.  Publishing an acknowledgement reads packets, so another command may be handled
      before it returns or raises. */
  datatype Event =
    | Handle             // on_command: the handler has answered the next call
    | AckOk(k: nat)      // publishing the acknowledgement of call k has returned
    | AckRaised(k: nat)  // publishing it has raised
    | Apply              // the main loop takes the pending effect, if there is one
    | Restart            // reset by a reboot, the watchdog or a power cut

  /** A run of the handler and the events it happened in. */
  datatype Log = Log(run: Run, events: seq<Event>)

  predicate HasEffect(run: Run, k: nat) {
    k < |run.replies| && run.replies[k].Ack? && run.replies[k].effect != NoEffect
  }

  // ---------------------------------------------------------------- the state after some events

  /** How many calls have been handled. */
  function Handled(events: seq<Event>): nat {
    if events == [] then 0
    else Handled(events[..|events| - 1]) + if events[|events| - 1].Handle? then 1 else 0
  }

  /** The calls whose acknowledgement is being published, innermost last. */
  function Underway(run: Run, events: seq<Event>): seq<nat> {
    if events == [] then []
    else
      var earlier := events[..|events| - 1];
      var before := Underway(run, earlier);
      match events[|events| - 1]
      case Handle =>
        if Handled(earlier) < |run.replies| && run.replies[Handled(earlier)].Ack?
        then before + [Handled(earlier)]
        else before
      case AckOk(_) => if before == [] then [] else before[..|before| - 1]
      case AckRaised(_) => if before == [] then [] else before[..|before| - 1]
      case Apply => before
      case Restart => []
  }

  /** The call whose effect waits for the main loop; there is room for one. */
  function Pending(run: Run, events: seq<Event>): Option<nat> {
    if events == [] then None
    else
      var before := Pending(run, events[..|events| - 1]);
      match events[|events| - 1]
      case AckOk(k) => if HasEffect(run, k) then Some(k) else before
      case Apply => None
      case Restart => None
      case _ => before
  }

  /** Has there been a restart since the last call, or since the start? */
  predicate Restarted(events: seq<Event>) {
    events != []
    && (events[|events| - 1].Restart? || (!events[|events| - 1].Handle? && Restarted(events[..|events| - 1])))
  }

  /** Has the main loop just applied a reboot? */
  predicate Rebooting(run: Run, events: seq<Event>) {
    events != [] && events[|events| - 1].Apply?
    && var pending := Pending(run, events[..|events| - 1]);
    pending.Some? && HasEffect(run, pending.value) && run.replies[pending.value].effect == Effect.Reboot
  }

  /** May the event follow? */
  predicate Allowed(run: Run, events: seq<Event>, e: Event)
    requires Shaped(run)
  {
    match e
    case Restart => true
    case Handle =>
      && !Rebooting(run, events) && Handled(events) < |run.calls|
      && run.boots[Handled(events)] == Restarted(events)
    case Apply => !Rebooting(run, events) && Underway(run, events) == []
    case AckOk(k) =>
      !Rebooting(run, events) && Underway(run, events) != [] && Underway(run, events)[|Underway(run, events)| - 1] == k
    case AckRaised(k) =>
      !Rebooting(run, events) && Underway(run, events) != [] && Underway(run, events)[|Underway(run, events)| - 1] == k
  }

  ghost predicate AllowedAt(log: Log, n: nat)
    requires Shaped(log.run) && n < |log.events|
  {
    Allowed(log.run, log.events[..n], log.events[n])
  }

  ghost predicate IsLog(log: Log) {
    && IsRun(log.run)
    && Handled(log.events) == |log.run.calls|
    && forall n: nat | n < |log.events| :: AllowedAt(log, n)
  }

  /** Does event `n` apply the effect of call `k`? */
  predicate AppliedAt(log: Log, n: nat, k: nat) {
    n < |log.events| && log.events[n].Apply? && Pending(log.run, log.events[..n]) == Some(k)
  }

  /** Does event `m` take the room of a pending effect? */
  predicate Displaces(log: Log, m: nat)
    requires m < |log.events|
  {
    var e := log.events[m];
    e.Apply? || e.Restart? || (e.AckOk? && HasEffect(log.run, e.k))
  }

  /** Did event `p` make the effect of call `k` pending, and has nothing displaced it before event `q`? */
  ghost predicate Waits(log: Log, k: nat, p: nat, q: nat)
    requires q <= |log.events|
  {
    p < q && log.events[p] == AckOk(k) && forall m: nat | p < m < q :: !Displaces(log, m)
  }

  /** Is the acknowledgement of call `k` published, and is the next thing that touches the pending effect the main
      loop applying it? */
  ghost predicate Lands(log: Log, k: nat) {
    HasEffect(log.run, k)
    && exists p: nat, q: nat :: q < |log.events| && log.events[q].Apply? && Waits(log, k, p, q)
  }

  // ---------------------------------------------------------------- when an effect is applied

  lemma {:induction false} PendingIff(log: Log, q: nat, k: nat)
    requires q <= |log.events|
    ensures Pending(log.run, log.events[..q]) == Some(k)
       <==> HasEffect(log.run, k) && exists p: nat :: Waits(log, k, p, q)
  {
    hide HasEffect;
    if q > 0 {
      var es := log.events[..q];
      assert es[..q - 1] == log.events[..q - 1] && es[q - 1] == log.events[q - 1];
      PendingIff(log, q - 1, k);
      if exists p: nat :: Waits(log, k, p, q) {
        var p: nat :| Waits(log, k, p, q);
        if p < q - 1 {
          assert Waits(log, k, p, q - 1) && !Displaces(log, q - 1);
        }
      }
      if Pending(log.run, es) == Some(k) {
        if log.events[q - 1] == AckOk(k) {
          assert Waits(log, k, q - 1, q);
        } else {
          var p: nat :| Waits(log, k, p, q - 1);
          assert Waits(log, k, p, q);
        }
      }
    }
  }

  /** The exact fate of an effect: it is applied if and only if its acknowledgement is published and neither a restart
      nor the effect of another acknowledged command comes before the main loop. */
  lemma AppliedIff(log: Log, k: nat)
    ensures (exists n: nat :: AppliedAt(log, n, k)) <==> Lands(log, k)
  {
    hide Pending, HasEffect, Waits;
    forall n: nat | n < |log.events|
      ensures Pending(log.run, log.events[..n]) == Some(k)
         <==> HasEffect(log.run, k) && exists p: nat :: Waits(log, k, p, n)
    {
      PendingIff(log, n, k);
    }
    if Lands(log, k) {
      var p: nat, q: nat :| q < |log.events| && log.events[q].Apply? && Waits(log, k, p, q);
      assert AppliedAt(log, q, k);
    }
  }

  ghost predicate AscendingBelow(u: seq<nat>, bound: nat) {
    && (forall i :: 0 <= i < |u| ==> u[i] < bound)
    && (forall i, j :: 0 <= i < j < |u| ==> u[i] < u[j])
  }

  /** Calls under way are in the order they were handled. */
  lemma {:induction false} UnderwayAscends(run: Run, events: seq<Event>)
    ensures AscendingBelow(Underway(run, events), Handled(events))
  {
    if events != [] {
      UnderwayAscends(run, events[..|events| - 1]);
    }
  }

  /** An acknowledgement that has returned is not under way any more. */
  lemma {:induction false} AckedIsGone(log: Log, p: nat, n: nat, k: nat)
    requires IsLog(log) && p < n <= |log.events| && log.events[p] == AckOk(k)
    ensures k < Handled(log.events[..n]) && k !in Underway(log.run, log.events[..n])
    decreases n
  {
    var es := log.events[..n];
    assert es[..n - 1] == log.events[..n - 1] && es[n - 1] == log.events[n - 1];
    UnderwayAscends(log.run, log.events[..n - 1]);
    assert AllowedAt(log, n - 1);
    hide IsRun, Pending, Rebooting;
    if p < n - 1 {
      AckedIsGone(log, p, n - 1, k);
    }
  }

  lemma AckedOnce(log: Log, p: nat, q: nat, k: nat)
    requires IsLog(log) && p < |log.events| && q < |log.events|
    requires log.events[p] == log.events[q] == AckOk(k)
    ensures p == q
  {
    assert AllowedAt(log, p) && AllowedAt(log, q);
    hide StepOf, Monotone, Pending, Rebooting;
    if p < q {
      AckedIsGone(log, p, q, k);
    } else if q < p {
      AckedIsGone(log, q, p, k);
    }
  }

  /** The effect of one call is applied at most once. */
  lemma AppliedOnce(log: Log, n: nat, m: nat, k: nat)
    requires IsLog(log) && AppliedAt(log, n, k) && AppliedAt(log, m, k)
    ensures n == m
  {
    hide IsLog, Pending, HasEffect;
    PendingIff(log, n, k);
    PendingIff(log, m, k);
    var p: nat :| Waits(log, k, p, n);
    var q: nat :| Waits(log, k, q, m);
    AckedOnce(log, p, q, k);
    assert Displaces(log, n) && Displaces(log, m);
  }

  /** What is applied is the effect of a dispatched command, handled before. */
  lemma AppliedIsDispatched(log: Log, n: nat, k: nat)
    requires IsLog(log) && AppliedAt(log, n, k)
    ensures k < Handled(log.events[..n]) && k < |log.run.calls| && Dispatched(log.run, k)
    ensures log.run.replies[k] == Dispatch(log.run.calls[k].command)
  {
    hide Pending, Dispatch, Handled, Allowed;
    PendingIff(log, n, k);
    var p: nat :| Waits(log, k, p, n);
    AckedIsGone(log, p, n, k);
    EffectsComeFromDispatch(log.run, k);
    DispatchedReply(log.run, k);
  }

  /** So the effects of an id happen as often as dispatches of the id land: at least once, and at most once. */
  lemma EffectsOfIdIff(log: Log, id: string)
    requires IsLog(log)
    ensures (exists n: nat, k: nat :: AppliedAt(log, n, k) && OfId(log.run, id, k))
       <==> exists k: nat :: OfId(log.run, id, k) && Lands(log, k)
    ensures (forall n: nat, m: nat, k: nat, l: nat ::
               AppliedAt(log, n, k) && AppliedAt(log, m, l) && OfId(log.run, id, k) && OfId(log.run, id, l) ==> n == m)
       <==> forall k: nat, l: nat ::
              OfId(log.run, id, k) && OfId(log.run, id, l) && Lands(log, k) && Lands(log, l) ==> k == l
  {
    hide IsLog, AppliedAt, Lands, OfId;
    forall k: nat
      ensures (exists n: nat :: AppliedAt(log, n, k)) <==> Lands(log, k)
    {
      AppliedIff(log, k);
    }
    forall n: nat, m: nat, k: nat | AppliedAt(log, n, k) && AppliedAt(log, m, k)
      ensures n == m
    {
      AppliedOnce(log, n, m, k);
    }
    forall n: nat, k: nat, l: nat | AppliedAt(log, n, k) && AppliedAt(log, n, l)
      ensures k == l
    {
      OneAtATime(log, n, k, l);
    }
  }

  predicate OfId(run: Run, id: string, k: nat) {
    k < |run.calls| && run.calls[k].command.id == id
  }

  lemma OneAtATime(log: Log, n: nat, k: nat, l: nat)
    requires AppliedAt(log, n, k) && AppliedAt(log, n, l)
    ensures k == l
  {
  }

  // ---------------------------------------------------------------- a reboot forgets itself

  /** The next call after a restart meets an empty table. */
  lemma {:induction false} BootAfterRestart(log: Log, n: nat, h: nat)
    requires IsLog(log) && n <= |log.events| && h < |log.run.calls|
    requires Handled(log.events[..n]) == h && Restarted(log.events[..n])
    ensures log.run.boots[h]
    decreases |log.events| - n
  {
    assert log.events[..|log.events|] == log.events;
    if n < |log.events| {
      var next := log.events[..n + 1];
      assert next[..n] == log.events[..n] && next[n] == log.events[n];
      assert AllowedAt(log, n);
      hide IsRun, Pending, Rebooting, Underway;
      if !log.events[n].Handle? {
        BootAfterRestart(log, n + 1, h);
      }
    }
  }

  /** Whatever comes after an applied reboot comes after a restart. */
  lemma RebootRestarts(log: Log, n: nat, i: nat, j: nat)
    requires IsLog(log) && AppliedAt(log, n, i) && i < |log.run.replies|
    requires log.run.replies[i].Ack? && log.run.replies[i].effect == Effect.Reboot
    requires Handled(log.events[..n]) <= j < |log.run.calls|
    ensures i < j && RestartBetween(log.run, i, j)
  {
    AppliedIsDispatched(log, n, i);
    var h := Handled(log.events[..n]);
    var es := log.events[..n + 1];
    assert es[..n] == log.events[..n] && es[n] == log.events[n];
    assert Rebooting(log.run, es) && Handled(es) == h;
    assert log.events[..|log.events|] == log.events;
    if n + 1 < |log.events| {
      assert AllowedAt(log, n + 1);
      var fs := log.events[..n + 2];
      assert fs[..n + 1] == es && fs[n + 1] == log.events[n + 1];
      assert Restarted(fs) && Handled(fs) == h;
      BootAfterRestart(log, n + 2, h);
    }
  }

  /** A reboot is never filtered out once it has happened: the next delivery of its id reaches the dispatcher again,
      however soon it comes. */
  lemma RebootRunsAgain(log: Log, n: nat, i: nat, j: nat)
    requires IsLog(log) && AppliedAt(log, n, i) && i < j < |log.run.calls| && LastDispatch(log.run, i, j)
    requires log.run.calls[i].command.kind == "reboot" && log.run.calls[j].command == log.run.calls[i].command
    requires Handled(log.events[..n]) <= j
    ensures Dispatched(log.run, j) && log.run.replies[j] == Dispatch(log.run.calls[i].command)
    ensures log.run.replies[j].effect == Effect.Reboot
  {
    hide Pending, Allowed, LastDispatch, Handled;
    AppliedIsDispatched(log, n, i);
    RebootRestarts(log, n, i, j);
    RestartForgets(log.run, i, j);
    DispatchedReply(log.run, j);
  }

  /** `n` deliveries of one reboot command, a minute apart. */
  function RebootRun(c: Command, n: nat): Run
    requires Supported(c)
  {
    Run(256, seq(n, k requires 0 <= k => Call(c, 60 * k)), seq(n, k requires 0 <= k => k > 0),
        [map[]] + seq(n, k requires 0 <= k => map[c.id := 60 * k]), seq(n, _ => Dispatch(c)))
  }

  /** Each of them is handled, acknowledged, applied and followed by the reset. */
  function RebootEvents(n: nat): seq<Event> {
    if n == 0 then [] else RebootEvents(n - 1) + [Handle, AckOk(n - 1), Apply, Restart]
  }

  /** The state between two rounds. */
  ghost predicate AtRest(run: Run, events: seq<Event>, k: nat) {
    && Handled(events) == k && Underway(run, events) == [] && Pending(run, events) == None
    && Restarted(events) == (k > 0) && !Rebooting(run, events)
  }

  lemma OneMore(run: Run, events: seq<Event>, e: Event)
    ensures (events + [e])[..|events|] == events && (events + [e])[|events|] == e
    ensures Handled(events + [e]) == Handled(events) + if e.Handle? then 1 else 0
    ensures Restarted(events + [e]) <==> e.Restart? || (!e.Handle? && Restarted(events))
    ensures Rebooting(run, events + [e])
       <==> e.Apply? && Pending(run, events).Some? && HasEffect(run, Pending(run, events).value)
            && run.replies[Pending(run, events).value].effect == Effect.Reboot
    ensures e.AckOk? ==>
              Pending(run, events + [e]) == if HasEffect(run, e.k) then Some(e.k) else Pending(run, events)
    ensures e.Apply? || e.Restart? ==> Pending(run, events + [e]) == None
    ensures e.Handle? || e.AckRaised? ==> Pending(run, events + [e]) == Pending(run, events)
    ensures e.Handle? && Handled(events) < |run.replies| && run.replies[Handled(events)].Ack? ==>
              Underway(run, events + [e]) == Underway(run, events) + [Handled(events)]
    ensures (e.AckOk? || e.AckRaised?) && Underway(run, events) != [] ==>
              Underway(run, events + [e]) == Underway(run, events)[..|Underway(run, events)| - 1]
    ensures e.Apply? ==> Underway(run, events + [e]) == Underway(run, events)
    ensures e.Restart? ==> Underway(run, events + [e]) == []
  {
    assert (events + [e])[..|events|] == events;
  }

  lemma RebootRound(run: Run, events: seq<Event>, k: nat)
    requires Shaped(run) && k < |run.calls| && AtRest(run, events, k) && run.boots[k] == (k > 0)
    requires run.replies[k].Ack? && run.replies[k].effect == Effect.Reboot
    ensures var a := events + [Handle];
            var b := a + [AckOk(k)];
            var c := b + [Apply];
            && Allowed(run, events, Handle) && Allowed(run, a, AckOk(k)) && Allowed(run, b, Apply)
            && Allowed(run, c, Restart)
            && Pending(run, b) == Some(k) && AtRest(run, c + [Restart], k + 1)
  {
    OneMore(run, events, Handle);
    var a := events + [Handle];
    OneMore(run, a, AckOk(k));
    var b := a + [AckOk(k)];
    OneMore(run, b, Apply);
    var c := b + [Apply];
    OneMore(run, c, Restart);
    hide Handled, Underway, Pending, Restarted, Rebooting;
  }

  ghost predicate AllAllowed(run: Run, events: seq<Event>)
    requires Shaped(run)
  {
    forall m: nat | m < |events| :: Allowed(run, events[..m], events[m])
  }

  lemma AllowedSnoc(run: Run, events: seq<Event>, e: Event)
    requires Shaped(run) && AllAllowed(run, events) && Allowed(run, events, e)
    ensures AllAllowed(run, events + [e])
  {
    hide Allowed;
    forall m: nat | m < |events + [e]|
      ensures Allowed(run, (events + [e])[..m], (events + [e])[m])
    {
      if m < |events| {
        assert (events + [e])[..m] == events[..m];
      } else {
        assert (events + [e])[..m] == events;
      }
    }
  }

  /** Does the third event of each of the first `n` rounds apply the effect of that round's call? */
  ghost predicate AppliesEach(run: Run, events: seq<Event>, n: nat) {
    forall k: nat | k < n ::
      4 * k + 2 < |events| && events[4 * k + 2].Apply? && Pending(run, events[..4 * k + 2]) == Some(k)
  }

  lemma AppliesOneMore(run: Run, events: seq<Event>, more: seq<Event>, n: nat)
    requires |events| == 4 * n && AppliesEach(run, events, n)
    requires |more| == 4 && more[2].Apply? && Pending(run, events + more[..2]) == Some(n)
    ensures AppliesEach(run, events + more, n + 1)
  {
    hide Pending;
    forall k: nat | k < n + 1
      ensures (events + more)[4 * k + 2].Apply? && Pending(run, (events + more)[..4 * k + 2]) == Some(k)
    {
      if k < n {
        assert (events + more)[..4 * k + 2] == events[..4 * k + 2];
      } else {
        assert (events + more)[..4 * k + 2] == events + more[..2];
      }
    }
  }

  lemma {:induction false} RebootRounds(run: Run, n: nat)
    requires Shaped(run) && n <= |run.calls|
    requires forall k :: 0 <= k < |run.calls| ==>
               && run.replies[k].Ack? && run.replies[k].effect == Effect.Reboot && run.boots[k] == (k > 0)
    ensures var es := RebootEvents(n);
            |es| == 4 * n && AtRest(run, es, n) && AllAllowed(run, es) && AppliesEach(run, es, n)
  {
    hide *;
    if n == 0 {
      NoRounds(run);
    } else {
      var before, more := RebootEvents(n - 1), [Handle, AckOk(n - 1), Apply, Restart];
      RebootRounds(run, n - 1);
      RebootRound(run, before, n - 1);
      AllowedSnoc(run, before, Handle);
      AllowedSnoc(run, before + [Handle], AckOk(n - 1));
      AllowedSnoc(run, before + [Handle] + [AckOk(n - 1)], Apply);
      AllowedSnoc(run, before + [Handle] + [AckOk(n - 1)] + [Apply], Restart);
      OneRoundMore(before, n - 1);
      AppliesOneMore(run, before, more, n - 1);
    }
  }

  lemma NoRounds(run: Run)
    requires Shaped(run)
    ensures RebootEvents(0) == [] && AtRest(run, [], 0) && AllAllowed(run, []) && AppliesEach(run, [], 0)
  {
  }

  lemma OneRoundMore(before: seq<Event>, k: nat)
    ensures var more := [Handle, AckOk(k), Apply, Restart];
            && before + more == before + [Handle] + [AckOk(k)] + [Apply] + [Restart]
            && before + more[..2] == before + [Handle] + [AckOk(k)]
    ensures before == RebootEvents(k) ==> RebootEvents(k + 1) == before + [Handle, AckOk(k), Apply, Restart]
  {
  }

  /** For every reboot command and every number of deliveries a minute apart: all of them reboot the gateway. */
  lemma RebootsEveryTime(c: Command, n: nat) returns (log: Log)
    requires Supported(c) && c.kind == "reboot"
    ensures IsLog(log) && |log.run.calls| == n
    ensures forall k: nat | k < n :: log.run.calls[k] == Call(c, 60 * k) && AppliedAt(log, 4 * k + 2, k)
  {
    log := Log(RebootRun(c, n), RebootEvents(n));
    forall k: nat | k < n
      ensures StepOf(log.run, k)
    {
      HandlesUnknown(256, map[], c, 60 * k);
      assert map[][c.id := 60 * k] == map[c.id := 60 * k];
    }
    assert Dispatch(c) == Ack(true, Detail.Rebooting, Effect.Reboot);
    hide Handles, Dispatch, Pending, Allowed;
    RebootRounds(log.run, n);
  }

  // ---------------------------------------------------------------- effects that are lost

  /** When the effect of the last dispatch does not land, the redelivery is acknowledged as executed all the same, and
      no delivery of the id from that dispatch on applies anything. */
  lemma ExecutedButNotApplied(log: Log, i: nat, j: nat)
    requires IsLog(log) && i < j < |log.run.calls| && LastDispatch(log.run, i, j)
    requires Supported(log.run.calls[j].command) && !Dispatched(log.run, j) && !Lands(log, i)
    ensures log.run.replies[j] == Ack(true, Duplicate, NoEffect)
    ensures forall n: nat, k: nat | i <= k <= j && OfId(log.run, log.run.calls[i].command.id, k) ::
              !AppliedAt(log, n, k)
  {
    hide Dispatch, Allowed, Pending, Handled, Waits;
    assert StepOf(log.run, j);
    forall n: nat, k: nat | i <= k <= j && OfId(log.run, log.run.calls[i].command.id, k)
      ensures !AppliedAt(log, n, k)
    {
      if AppliedAt(log, n, k) {
        AppliedIsDispatched(log, n, k);
        AppliedIff(log, i);
      }
    }
  }

  /** The events so far are allowed and leave this state, with no restart since the start. */
  ghost predicate Leaves(run: Run, events: seq<Event>, handled: nat, underway: seq<nat>, pending: Option<nat>) {
    && Shaped(run) && AllAllowed(run, events) && !Restarted(events) && !Rebooting(run, events)
    && Handled(events) == handled && Underway(run, events) == underway && Pending(run, events) == pending
  }

  lemma NothingYet(run: Run)
    requires Shaped(run)
    ensures Leaves(run, [], 0, [], None)
  {
  }

  lemma HandleNext(run: Run, events: seq<Event>, k: nat, pending: Option<nat>)
    requires Leaves(run, events, k, [], pending) && k < |run.calls| && !run.boots[k] && run.replies[k].Ack?
    ensures Leaves(run, events + [Handle], k + 1, [k], pending)
  {
    hide AllAllowed, Handled, Underway, Pending, Restarted, Rebooting, HasEffect;
    OneMore(run, events, Handle);
    AllowedSnoc(run, events, Handle);
  }

  lemma AckNext(run: Run, events: seq<Event>, handled: nat, k: nat, pending: Option<nat>, ack: Event)
    requires Leaves(run, events, handled, [k], pending) && (ack == AckOk(k) || ack == AckRaised(k))
    ensures Leaves(run, events + [ack], handled, [], if ack.AckOk? && HasEffect(run, k) then Some(k) else pending)
  {
    hide AllAllowed, Handled, Underway, Pending, Restarted, Rebooting, HasEffect;
    OneMore(run, events, ack);
    AllowedSnoc(run, events, ack);
  }

  lemma ApplyNext(run: Run, events: seq<Event>, handled: nat, pending: Option<nat>)
    requires Leaves(run, events, handled, [], pending)
    ensures AllAllowed(run, events + [Apply]) && Handled(events + [Apply]) == handled
    ensures (events + [Apply])[..|events|] == events && Pending(run, events) == pending
  {
    hide AllAllowed, Handled, Underway, Pending, Restarted, Rebooting, HasEffect;
    OneMore(run, events, Apply);
    AllowedSnoc(run, events, Apply);
  }

  /** Two commands handled one after the other without a restart: what the first handling, its acknowledgement, the
      second handling and its acknowledgement leave. */
  lemma TwoCalls(run: Run, ack: Event)
    requires ack == AckOk(0) || ack == AckRaised(0)
    requires Shaped(run) && |run.calls| == 2 && run.boots == [false, false]
    requires run.replies[0].Ack? && run.replies[1].Ack?
    ensures var es := [Handle, ack, Handle, AckOk(1), Apply];
            && AllAllowed(run, es) && Handled(es) == 2
            && Pending(run, es[..4])
               == if HasEffect(run, 1) then Some(1) else if ack.AckOk? && HasEffect(run, 0) then Some(0) else None
  {
    hide *;
    var first := if ack.AckOk? && HasEffect(run, 0) then Some(0) else None;
    NothingYet(run);
    HandleNext(run, [], 0, None);
    assert [] + [Handle] == [Handle];
    AckNext(run, [Handle], 1, 0, None, ack);
    HandleNext(run, [Handle] + [ack], 1, first);
    AckNext(run, [Handle] + [ack] + [Handle], 2, 1, first, AckOk(1));
    ApplyNext(run, [Handle] + [ack] + [Handle] + [AckOk(1)], 2, if HasEffect(run, 1) then Some(1) else first);
    FiveEvents(Handle, ack, Handle, AckOk(1), Apply);
  }

  lemma FiveEvents(a: Event, b: Event, c: Event, d: Event, e: Event)
    ensures [a] + [b] + [c] + [d] + [e] == [a, b, c, d, e] && [a, b, c, d, e][..4] == [a] + [b] + [c] + [d]
  {
  }

  /** Whatever the effect: when publishing the first acknowledgement raises, the effect never happens, and the
      redelivery a minute later is acknowledged as executed. */
  lemma FailedAckLosesEffect(c: Command) returns (log: Log)
    requires Supported(c) && Dispatch(c).effect != NoEffect
    ensures IsLog(log) && log.run.calls == [Call(c, 0), Call(c, 60)]
    ensures log.run.replies == [Dispatch(c), Ack(true, Duplicate, NoEffect)]
    ensures log.events == [Handle, AckRaised(0), Handle, AckOk(1), Apply]
    ensures forall n: nat, k: nat :: !AppliedAt(log, n, k)
  {
    var nothing: Recent := map[];
    var table := nothing[c.id := 0];
    HandlesUnknown(256, nothing, c, 0);
    HandlesKnown(256, table, c, 60);
    hide *;
    var run := TwoCallRun(Call(c, 0), Call(c, 60), table, table, Dispatch(c), Ack(true, Duplicate, NoEffect));
    TwoCalls(run, AckRaised(0));
    NoEffectOf(run);
    log := Log(run, [Handle, AckRaised(0), Handle, AckOk(1), Apply]);
    assert Pending(log.run, log.events[..4]) == None;
    LogOf(log);
    OneApply(log);
  }

  /** Of two commands acknowledged before the main loop comes round, only the later effect happens. */
  lemma LaterEffectWins(c: Command, d: Command) returns (log: Log)
    requires Supported(c) && Supported(d) && c.id != d.id
    requires Dispatch(c).effect != NoEffect && Dispatch(d).effect != NoEffect
    ensures IsLog(log) && log.run.calls == [Call(c, 0), Call(d, 1)]
    ensures log.run.replies == [Dispatch(c), Dispatch(d)]
    ensures log.events == [Handle, AckOk(0), Handle, AckOk(1), Apply]
    ensures AppliedAt(log, 4, 1) && forall n: nat :: !AppliedAt(log, n, 0)
  {
    var nothing: Recent := map[];
    var one := nothing[c.id := 0];
    HandlesUnknown(256, nothing, c, 0);
    HandlesUnknown(256, one, d, 1);
    hide *;
    var run := TwoCallRun(Call(c, 0), Call(d, 1), one, one[d.id := 1], Dispatch(c), Dispatch(d));
    TwoCalls(run, AckOk(0));
    EffectOf(run, 1);
    log := Log(run, [Handle, AckOk(0), Handle, AckOk(1), Apply]);
    LogOf(log);
    OneApply(log);
  }

  /** Two handled calls without a restart make a run. */
  lemma TwoCallRun(a: Call, b: Call, one: Recent, two: Recent, first: Reply, second: Reply) returns (run: Run)
    requires Handles(256, map[], a.command, a.now, one, first) && Handles(256, one, b.command, b.now, two, second)
    requires a.now <= b.now
    ensures IsRun(run) && Shaped(run) && run.calls == [a, b] && run.boots == [false, false]
    ensures run.replies == [first, second]
  {
    hide Handles;
    run := Run(256, [a, b], [false, false], [map[], one, two], [first, second]);
    assert StepOf(run, 0) && StepOf(run, 1);
  }

  lemma NoEffectOf(run: Run)
    requires |run.replies| == 2 && run.replies[1].Ack? && run.replies[1].effect == NoEffect
    ensures !HasEffect(run, 1)
  {
  }

  lemma EffectOf(run: Run, k: nat)
    requires k < |run.replies| && run.replies[k].Ack? && run.replies[k].effect != NoEffect
    ensures HasEffect(run, k)
  {
  }

  lemma LogOf(log: Log)
    requires IsRun(log.run) && Shaped(log.run) && AllAllowed(log.run, log.events)
    requires Handled(log.events) == |log.run.calls|
    ensures IsLog(log)
  {
    hide IsRun, Handled, Allowed;
  }

  /** With the main loop coming round once, as event 4, an effect is applied only there. */
  lemma OneApply(log: Log)
    requires |log.events| == 5 && forall n :: 0 <= n < 4 ==> !log.events[n].Apply?
    ensures forall n: nat, k: nat :: AppliedAt(log, n, k)
              <==> n == 4 && log.events[4].Apply? && Pending(log.run, log.events[..4]) == Some(k)
  {
    hide Pending;
  }
}
