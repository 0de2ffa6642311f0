/** When a command is retried, failed or expired: the clock of its last counted step and the number of those steps say
    it all.
 */
module CommandTimes {
  import opened CommandRelay
  import opened CommandRows
  import opened CommandAttempts

  // ---------------------------------------------------------------- the clocks of a life

  /** The clocks read by the marks and requeues of a life, in order. */
  function Clocks(row: Row, events: seq<Event>): seq<int>
    decreases |events|
  {
    if events == [] then []
    else
      var rest := Clocks(After(row, events[0]), events[1..]);
      match events[0]
      case Marked(now) => [now] + rest
      case Retry(now, clock) => if Retries(row, now) then [clock] + rest else rest
      case _ => rest
  }

  /** Does the row stand where these clocks put it? */
  ghost predicate Timed(row: Row, clocks: seq<int>) {
    && row.attempts == |clocks|
    && (row.status == Sent ==>
          clocks != [] && row.nextRetry == At(clocks[|clocks| - 1] + Wait(|clocks|)))
  }

  lemma StepTimed(row: Row, clocks: seq<int>, e: Event)
    requires Timed(row, clocks)
    ensures Timed(After(row, e), clocks + Clocks(row, [e]))
  {
    BackoffIs(row.attempts + 1);
    hide Backoff, Wait;
    assert [e][1..] == [];
    assert Clocks(row, [e])
        == if e.Marked? then [e.now] else if e.Retry? && Retries(row, e.now) then [e.clock] else [];
    assert clocks + [] == clocks;
  }

  lemma {:induction false} LifeTimed(row: Row, clocks: seq<int>, events: seq<Event>)
    requires Timed(row, clocks)
    ensures Timed(Life(row, events), clocks + Clocks(row, events))
    decreases |events|
  {
    if events == [] {
      assert clocks + [] == clocks;
    } else {
      StepTimed(row, clocks, events[0]);
      ClocksFirst(row, events);
      hide After, Timed;
      LifeTimed(After(row, events[0]), clocks + Clocks(row, [events[0]]), events[1..]);
      assert clocks + (Clocks(row, [events[0]]) + Clocks(After(row, events[0]), events[1..]))
          == clocks + Clocks(row, [events[0]]) + Clocks(After(row, events[0]), events[1..]);
    }
  }

  lemma ClocksFirst(row: Row, events: seq<Event>)
    requires events != []
    ensures Clocks(row, events) == Clocks(row, [events[0]]) + Clocks(After(row, events[0]), events[1..])
  {
    hide After;
    assert [events[0]][1..] == [];
  }

  /** Over every life of a new command: after its `n`-th mark or requeue, read at clock `t`, its retry time is `t` plus
      60, 120, 240, 480 and from then on 900 s. */
  lemma RetryTimeExact(frame: Frame, maxAttempts: nat, created: int, events: seq<Event>)
    ensures var row, clocks := Life(NewRow(frame, maxAttempts, created), events),
                               Clocks(NewRow(frame, maxAttempts, created), events);
            && row.attempts == |clocks|
            && (row.status == Sent ==>
                  clocks != [] && row.nextRetry == At(clocks[|clocks| - 1] + Wait(|clocks|)))
  {
    var row := NewRow(frame, maxAttempts, created);
    LifeTimed(row, [], events);
    assert [] + Clocks(row, events) == Clocks(row, events);
  }

  /** What a sweep at `now` does to the command at any point of its life: it requeues or fails a sent one if and only if
      the wait since the last counted step is over, and which of the two the number of those steps decides. */
  lemma SweepExact(frame: Frame, maxAttempts: nat, created: int, events: seq<Event>, now: int, clock: int)
    ensures var row, clocks := Life(NewRow(frame, maxAttempts, created), events),
                               Clocks(NewRow(frame, maxAttempts, created), events);
            var n := |clocks|;
            var over := row.status == Sent && n > 0 && now > clocks[n - 1] + Wait(n);
            && (Due(row, now) <==> over)
            && RetryRow(row, now, clock)
               == (if over && n < maxAttempts
                   then row.(attempts := n + 1, nextRetry := At(clock + Wait(n + 1)))
                   else row)
            && FailRow(row, now) == if over && n >= maxAttempts then row.(status := Status.Failed) else row
  {
    var row := NewRow(frame, maxAttempts, created);
    RetryTimeExact(frame, maxAttempts, created, events);
    AttemptsGrow(row, events);
    BackoffIs(|Clocks(row, events)| + 1);
    hide Life, Clocks, Backoff, Wait;
  }

  // ---------------------------------------------------------------- answers and expiry

  ghost predicate SweeperOnly(events: seq<Event>) {
    forall e <- events :: e.Retry? || e.Fail? || e.Expire?
  }

  /** A command the relay never picks up fails if and only if a sweep comes more than two minutes after its creation;
      until then it stays as it was, and no sweep ever requeues it. */
  lemma {:induction false} PendingExpiresIff(row: Row, events: seq<Event>)
    requires SweeperOnly(events) && row.status == Pending
    ensures var late := exists e <- events :: e.Expire? && e.now > row.created + 120;
            Life(row, events) == if late then row.(status := Status.Failed) else row
    ensures Requeues(row, events) == 0
    decreases |events|
  {
    if events != [] {
      var e, rest := events[0], events[1..];
      assert events == [e] + rest;
      if e.Expire? && e.now > row.created + 120 {
        assert e in events;
        ClosedStays(After(row, e), rest);
      } else {
        PendingExpiresIff(row, rest);
      }
    }
  }

  /** Nothing the sweeper does changes a failed or answered command. */
  lemma {:induction false} ClosedStays(row: Row, events: seq<Event>)
    requires SweeperOnly(events) && row.status != Sent && row.status != Pending
    ensures Life(row, events) == row && Requeues(row, events) == 0
    decreases |events|
  {
    if events != [] {
      assert events[0] in events;
      ClosedStays(row, events[1..]);
    }
  }

  /** An answer says how the command ended, costs no attempt, and stands whatever the sweeper does. */
  lemma AnswerStands(row: Row, executed: bool, events: seq<Event>)
    requires SweeperOnly(events)
    ensures Life(row, [Answered(executed)] + events)
         == row.(status := if executed then Acked else Rejected, nextRetry := Never)
    ensures Requeues(row, [Answered(executed)] + events) == 0
  {
    assert ([Answered(executed)] + events)[1..] == events;
    ClosedStays(After(row, Answered(executed)), events);
  }

  // ---------------------------------------------------------------- the sweep that fails an unanswered command

  function Flat(items: seq<Item>): seq<Event> {
    if items == [] then [] else EventsOf(items[0]) + Flat(items[1..])
  }

  lemma {:induction false} FlatLife(row: Row, items: seq<Item>)
    ensures ItemsAfter(row, items) == Life(row, Flat(items))
    decreases |items|
  {
    hide After, EventsOf;
    if items != [] {
      FlatLife(ItemAfter(row, items[0]), items[1..]);
      LifeConcat(row, EventsOf(items[0]), Flat(items[1..]));
    }
  }

  /** The sweep that fails an unanswered command comes at a known time: the attempts are used up, and the wait after the
      last mark or requeue is over. */
  lemma ExhaustsWhen(row: Row, clocks: seq<int>, items: seq<Item>, k: nat)
    requires Timed(row, clocks) && k < |items| && forall item <- items :: Unanswered(item)
    ensures var all := clocks + Clocks(row, Flat(items[..k]));
            Exhausts(row, items, k)
            <==> && items[k].Swept? && RowAt(row, items, k).status == Sent
                 && |all| >= row.maxAttempts && |all| > 0 && items[k].now > all[|all| - 1] + Wait(|all|)
  {
    var before := items[..k];
    AttemptsCounted(row, before);
    FlatLife(row, before);
    LifeTimed(row, clocks, Flat(before));
    hide ItemsAfter, Life, Clocks, Flat, Unanswered, MarkCount, RetryCount, Wait;
  }
}
