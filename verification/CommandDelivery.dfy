/** The command plane end to end: what the relay and the broker deliver at least once, the gateway dispatches exactly
    once - and exactly when, restarts included - and what then becomes of the effect.
 */
module CommandDelivery {
  import Relay = CommandRelay
  import Registry = CommandRegistry
  import Effects = CommandEffects

  /** The gateway has handled every frame the broker accepted at least once; `parse` reads the published text. */
  ghost predicate AllDelivered(s: Relay.State, run: Registry.Run, parse: Relay.Frame -> Registry.Command) {
    forall frame <- s.accepted :: Handled(run, parse(frame))
  }

  ghost predicate Handled(run: Registry.Run, c: Registry.Command) {
    exists call <- run.calls :: call.command == c
  }

  /** The gateway has handled nothing else. */
  ghost predicate OnlyAccepted(s: Relay.State, run: Registry.Run, parse: Relay.Frame -> Registry.Command) {
    forall call <- run.calls :: exists frame <- s.accepted :: call.command == parse(frame)
  }

  /** No copy of the frame waits or is in flight any more. */
  predicate Settled(s: Relay.State, frame: Relay.Frame) {
    frame !in s.outbound && frame !in s.inflight
  }

  /** The id belongs to one command, and no other command is handled at the same instant as one with this id. */
  ghost predicate IdOwned(run: Registry.Run, c: Registry.Command) {
    && (forall call <- run.calls :: call.command.id == c.id ==> call.command == c)
    && (forall a, b | a in run.calls && b in run.calls && a.command.id == c.id && b.command.id != c.id ::
          a.now != b.now)
  }

  /** At least once: a frame that was ever enqueued and has left both lists has reached the gateway. */
  lemma ReachesGateway(steps: seq<Relay.Step>, run: Registry.Run, parse: Relay.Frame -> Registry.Command,
                       frame: Relay.Frame)
    requires Relay.ValidRun(Relay.INITIAL, steps)
    requires var s := Relay.Run(Relay.INITIAL, steps);
             frame in s.enqueued && Settled(s, frame) && AllDelivered(s, run, parse)
    ensures Handled(run, parse(frame))
  {
    hide Relay.Run, Relay.ValidRun, Handled;
    Relay.NoFrameLost(steps, frame);
    var s := Relay.Run(Relay.INITIAL, steps);
    assert multiset(s.outbound)[frame] == 0 == multiset(s.inflight)[frame];
    assert frame in s.accepted;
  }

  /** Nothing unrequested: the gateway handles only commands that were enqueued. */
  lemma OnlyEnqueuedReach(steps: seq<Relay.Step>, run: Registry.Run, parse: Relay.Frame -> Registry.Command,
                          call: Registry.Call)
    requires Relay.ValidRun(Relay.INITIAL, steps) && call in run.calls
    requires OnlyAccepted(Relay.Run(Relay.INITIAL, steps), run, parse)
    ensures exists frame <- Relay.Run(Relay.INITIAL, steps).enqueued :: call.command == parse(frame)
  {
    assert Sound(Relay.INITIAL);
    hide Relay.Run, Relay.ValidRun;
    var s := Relay.Run(Relay.INITIAL, steps);
    var frame :| frame in s.accepted && call.command == parse(frame);
    RunSound(Relay.INITIAL, steps);
  }

  /** Whatever lies anywhere was enqueued once. */
  ghost predicate Sound(s: Relay.State) {
    && (forall frame <- s.outbound :: frame in s.enqueued)
    && (forall frame <- s.inflight :: frame in s.enqueued)
    && (forall frame <- s.accepted :: frame in s.enqueued)
    && (s.stage.Taken? || s.stage.Published? || s.stage.Released? || s.stage.Failed? ==> s.stage.frame in s.enqueued)
  }

  lemma StepSound(s: Relay.State, step: Relay.Step)
    requires Sound(s) && Relay.Enabled(s, step)
    ensures Sound(Relay.Next(s, step))
  {
  }

  lemma {:induction false} RunSound(s: Relay.State, steps: seq<Relay.Step>)
    requires Sound(s) && Relay.ValidRun(s, steps)
    ensures Sound(Relay.Run(s, steps))
    decreases |steps|
  {
    hide Sound;
    if steps != [] {
      StepSound(s, steps[0]);
      RunSound(Relay.Next(s, steps[0]), steps[1..]);
    }
  }

  // ---------------------------------------------------------------- exactly once

  /** Is call `f` the first with this id? */
  ghost predicate FirstWith(run: Registry.Run, id: string, f: nat) {
    f < |run.calls| && run.calls[f].command.id == id && forall k :: 0 <= k < f ==> run.calls[k].command.id != id
  }

  lemma {:induction false} FirstExists(run: Registry.Run, id: string, n: nat) returns (f: nat)
    requires n < |run.calls| && run.calls[n].command.id == id
    ensures f <= n && FirstWith(run, id, f)
    decreases n
  {
    if exists k: nat :: k < n && run.calls[k].command.id == id {
      var k: nat :| k < n && run.calls[k].command.id == id;
      f := FirstExists(run, id, k);
    } else {
      f := n;
    }
  }

  lemma FirstIsDispatched(run: Registry.Run, id: string, f: nat)
    requires Registry.IsRun(run) && FirstWith(run, id, f) && Registry.Supported(run.calls[f].command)
    ensures Registry.Dispatched(run, f)
  {
    hide Registry.IsRun, Registry.Supported;
    assert Registry.Shaped(run) by {
      ShapedRun(run);
    }
    if id in run.tables[f] {
      var l := Registry.StampsComeFromCalls(run, f, id);
    }
  }

  lemma ShapedRun(run: Registry.Run)
    requires Registry.IsRun(run)
    ensures Registry.Shaped(run)
  {
  }

  /** Is the id dispatched at call `f` and never again? */
  ghost predicate OnlyAt(run: Registry.Run, id: string, f: nat)
    requires Registry.Shaped(run)
  {
    forall j: nat | j < |run.calls| && run.calls[j].command.id == id && Registry.Dispatched(run, j) :: j == f
  }

  /** Does a delivery of the id come more than the retention time after call `f`, or after the id was crowded out, or
      after a restart? */
  ghost predicate TooLate(run: Registry.Run, f: nat, j: nat)
    requires Registry.Shaped(run) && f < j < |run.calls|
  {
    || run.calls[j].now > run.calls[f].now + 86_400
    || Registry.CrowdedBetween(run, f, j)
    || Registry.RestartBetween(run, f, j)
  }

  lemma NextDispatchIff(run: Registry.Run, c: Registry.Command, f: nat, j: nat)
    requires Registry.IsRun(run) && FirstWith(run, c.id, f) && f < j < |run.calls|
    requires Registry.Supported(c) && IdOwned(run, c) && run.calls[j].command.id == c.id
    requires forall k: nat | f < k < j && run.calls[k].command.id == c.id :: !Registry.Dispatched(run, k)
    ensures Registry.Dispatched(run, j) <==> TooLate(run, f, j)
  {
    hide Registry.Supported, Registry.StepOf, Registry.Monotone, Registry.CrowdedBetween, Registry.RestartBetween;
    assert forall k: nat | k < |run.calls| :: run.calls[k] in run.calls;
    FirstIsDispatched(run, c.id, f);
    assert Registry.LastDispatch(run, f, j);
    assert Registry.AloneAtItsInstant(run, f, j);
    Registry.RedeliveryDispatchedIff(run, f, j);
  }

  lemma {:induction false} NoneLater(run: Registry.Run, c: Registry.Command, f: nat, j: nat)
    requires Registry.IsRun(run) && FirstWith(run, c.id, f) && f < j <= |run.calls|
    requires Registry.Supported(c) && IdOwned(run, c)
    requires forall m: nat | f < m < |run.calls| && run.calls[m].command.id == c.id :: !TooLate(run, f, m)
    ensures forall k: nat | f < k < j && run.calls[k].command.id == c.id :: !Registry.Dispatched(run, k)
    decreases j
  {
    hide Registry.Supported, Registry.IsRun, IdOwned, TooLate, Registry.Dispatched, FirstWith;
    if j > f + 1 {
      NoneLater(run, c, f, j - 1);
      if run.calls[j - 1].command.id == c.id {
        NextDispatchIff(run, c, f, j - 1);
      }
    }
  }

  /** Exactly once: the first delivery is dispatched, and it stays the only one if and only if no later delivery comes
      more than 24 h after it, or after the id was crowded out of the gateway's table, or after a restart. */
  lemma ExactlyOnceIff(steps: seq<Relay.Step>, run: Registry.Run, parse: Relay.Frame -> Registry.Command,
                       frame: Relay.Frame) returns (f: nat)
    requires Relay.ValidRun(Relay.INITIAL, steps)
    requires var s := Relay.Run(Relay.INITIAL, steps);
             frame in s.enqueued && Settled(s, frame) && AllDelivered(s, run, parse)
    requires Registry.IsRun(run) && Registry.Supported(parse(frame)) && IdOwned(run, parse(frame))
    ensures FirstWith(run, parse(frame).id, f) && Registry.Shaped(run) && Registry.Dispatched(run, f)
    ensures run.replies[f] == Registry.Dispatch(parse(frame))
    ensures OnlyAt(run, parse(frame).id, f)
       <==> forall j: nat | f < j < |run.calls| && run.calls[j].command.id == parse(frame).id :: !TooLate(run, f, j)
  {
    hide *;
    ReachesGateway(steps, run, parse, frame);
    f := FirstHandled(run, parse(frame));
    OnlyAtIff(run, parse(frame), f);
  }

  lemma FirstHandled(run: Registry.Run, c: Registry.Command) returns (f: nat)
    requires Registry.IsRun(run) && Registry.Supported(c) && IdOwned(run, c) && Handled(run, c)
    ensures FirstWith(run, c.id, f) && Registry.Shaped(run) && Registry.Dispatched(run, f)
    ensures run.replies[f] == Registry.Dispatch(c)
  {
    hide Registry.IsRun, Registry.Supported, Registry.Dispatch, Registry.Dispatched;
    var call :| call in run.calls && call.command == c;
    var n: nat :| n < |run.calls| && run.calls[n] == call;
    f := FirstExists(run, c.id, n);
    assert run.calls[f] in run.calls && run.calls[f].command == c;
    ShapedRun(run);
    FirstIsDispatched(run, c.id, f);
    Registry.DispatchedReply(run, f);
  }

  lemma OnlyAtIff(run: Registry.Run, c: Registry.Command, f: nat)
    requires Registry.IsRun(run) && FirstWith(run, c.id, f) && Registry.Supported(c) && IdOwned(run, c)
    ensures Registry.Shaped(run)
    ensures OnlyAt(run, c.id, f)
       <==> forall j: nat | f < j < |run.calls| && run.calls[j].command.id == c.id :: !TooLate(run, f, j)
  {
    ShapedRun(run);
    hide Registry.Supported, Registry.IsRun, IdOwned, TooLate, Registry.Dispatched;
    if forall j: nat | f < j < |run.calls| && run.calls[j].command.id == c.id :: !TooLate(run, f, j) {
      NoneLater(run, c, f, |run.calls|);
    }
    if OnlyAt(run, c.id, f) {
      forall j: nat | f < j < |run.calls| && run.calls[j].command.id == c.id
        ensures !TooLate(run, f, j)
      {
        NextDispatchIff(run, c, f, j);
      }
    }
  }

  // ---------------------------------------------------------------- the effect

  /** As long as the id is dispatched only once, its effect happens at most once, and it happens if and only if the
      acknowledgement of that dispatch is published and neither a restart nor a later effect overtakes the main loop. */
  lemma EffectOnceIff(log: Effects.Log, id: string, f: nat)
    requires Effects.IsLog(log) && Registry.Shaped(log.run) && f < |log.run.calls| && OnlyAt(log.run, id, f)
    ensures (exists n: nat :: Effects.AppliedAt(log, n, f)) <==> Effects.Lands(log, f)
    ensures forall n: nat, m: nat, k: nat, l: nat ::
              (Effects.AppliedAt(log, n, k) && Effects.AppliedAt(log, m, l)
               && Effects.OfId(log.run, id, k) && Effects.OfId(log.run, id, l)) ==> k == l == f && n == m
  {
    hide Effects.IsLog, Effects.AppliedAt, Effects.Lands, Registry.Dispatched, Registry.Dispatch;
    Effects.AppliedIff(log, f);
    forall n: nat, m: nat, k: nat, l: nat | Effects.AppliedAt(log, n, k) && Effects.AppliedAt(log, m, l)
      && Effects.OfId(log.run, id, k) && Effects.OfId(log.run, id, l)
      ensures k == l == f && n == m
    {
      Effects.AppliedIsDispatched(log, n, k);
      Effects.AppliedIsDispatched(log, m, l);
      Effects.AppliedOnce(log, n, m, f);
    }
  }

  /** A reboot is the command for which it never stays at one: once its effect has happened, every redelivery that
      reaches the gateway comes too late, so the command is dispatched again. */
  lemma RebootNeverOnlyOnce(log: Effects.Log, n: nat, f: nat, j: nat)
    requires Effects.IsLog(log) && Effects.AppliedAt(log, n, f)
    requires f < |log.run.calls| && FirstWith(log.run, log.run.calls[f].command.id, f)
    requires IdOwned(log.run, log.run.calls[f].command) && log.run.calls[f].command.kind == "reboot"
    requires Effects.Handled(log.events[..n]) <= j < |log.run.calls|
    requires log.run.calls[j].command.id == log.run.calls[f].command.id
    ensures Registry.Shaped(log.run) && !OnlyAt(log.run, log.run.calls[f].command.id, f)
  {
    hide Effects.Handled, Effects.Pending, Effects.Allowed, IdOwned;
    Effects.AppliedIsDispatched(log, n, f);
    Effects.RebootRestarts(log, n, f, j);
    OnlyAtIff(log.run, log.run.calls[f].command, f);
    assert TooLate(log.run, f, j);
  }
}
