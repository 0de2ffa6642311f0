/** The life of a command row: marked sent by the relay, retried, failed or expired by the sweeper, and
    closed by the gateway's acknowledgement.
 */
module CommandRows {
  import opened Common
  import opened CommandRelay

  const BACKOFF_BASE := 60
  const BACKOFF_MAX := 900
  const PENDING_TTL := 120

  datatype Status = Pending | Sent | Acked | Rejected | Failed

  datatype RetryAt = Never | At(time: int)

  datatype Row = Row(frame: Frame, status: Status, attempts: nat, maxAttempts: nat, nextRetry: RetryAt, created: int)

  function NewRow(frame: Frame, maxAttempts: nat, created: int): Row {
    Row(frame, Pending, 0, maxAttempts, Never, created)
  }

  // ---------------------------------------------------------------- backoff

  function Power2(n: nat): nat {
    if n == 0 then 1 else 2 * Power2(n - 1)
  }

  /** `compute_backoff`, in seconds. */
  function Backoff(attempts: nat): nat
    requires attempts >= 1
  {
    var seconds := BACKOFF_BASE * Power2(attempts - 1);
    if seconds < BACKOFF_MAX then seconds else BACKOFF_MAX
  }

  /** Every wait is twice the one before it until the cap, and never shorter than the base. */
  lemma BackoffDoubles(attempts: nat)
    requires attempts >= 1
    ensures Backoff(1) == BACKOFF_BASE
    ensures Backoff(attempts + 1) == if 2 * Backoff(attempts) < BACKOFF_MAX then 2 * Backoff(attempts) else BACKOFF_MAX
    ensures BACKOFF_BASE <= Backoff(attempts) <= BACKOFF_MAX
  {
    PowerPositive(attempts - 1);
  }

  lemma {:induction false} PowerPositive(n: nat)
    ensures Power2(n) >= 1
  {
    if n > 0 {
      PowerPositive(n - 1);
    }
  }

  /** The wait after the `n`-th counted step, in seconds. */
  function Wait(n: nat): int {
    if n <= 1 then 60 else if n == 2 then 120 else if n == 3 then 240 else if n == 4 then 480 else 900
  }

  /** The backoff doubles from one minute to eight and then stays at a quarter of an hour. */
  lemma BackoffIs(n: nat)
    requires n >= 1
    ensures Backoff(n) == Wait(n)
  {
    if n <= 4 {
      assert Power2(0) == 1 && Power2(1) == 2 && Power2(2) == 4 && Power2(3) == 2 * Power2(2);
    } else {
      PowerAtLeast16(n - 1);
    }
  }

  lemma {:induction false} PowerAtLeast16(n: nat)
    requires n >= 4
    ensures Power2(n) >= 16
    decreases n
  {
    if n == 4 {
      assert Power2(2) == 4 && Power2(3) == 8;
    } else {
      PowerAtLeast16(n - 1);
    }
  }

  // ---------------------------------------------------------------- steps on one row

  function MarkSent(row: Row, now: int): Row {
    row.(status := Sent, attempts := row.attempts + 1, nextRetry := At(now + Backoff(row.attempts + 1)))
  }

  function Acknowledge(row: Row, executed: bool): Row {
    row.(status := if executed then Acked else Rejected, nextRetry := Never)
  }

  predicate Due(row: Row, now: int) {
    row.status == Sent && row.nextRetry.At? && row.nextRetry.time < now
  }

  predicate Retries(row: Row, now: int) {
    Due(row, now) && row.attempts < row.maxAttempts
  }

  function RetryRow(row: Row, now: int, clock: int): Row {
    if Retries(row, now)
    then row.(attempts := row.attempts + 1, nextRetry := At(clock + Backoff(row.attempts + 1)))
    else row
  }

  function FailRow(row: Row, now: int): Row {
    if Due(row, now) && row.attempts >= row.maxAttempts then row.(status := Status.Failed) else row
  }

  function ExpireRow(row: Row, now: int): Row {
    if row.status == Pending && row.created < now - PENDING_TTL then row.(status := Status.Failed) else row
  }

  // ---------------------------------------------------------------- lives

  /** What can happen to a row, in any order: the relay marks it, the gateway answers, and the sweeper's three passes
      are three queries, between which the others may come. */
  datatype Event =
    | Marked(now: int)
    | Retry(now: int, clock: int)
    | Fail(now: int)
    | Expire(now: int)
    | Answered(executed: bool)

  function After(row: Row, e: Event): Row {
    match e
    case Marked(now) => MarkSent(row, now)
    case Retry(now, clock) => RetryRow(row, now, clock)
    case Fail(now) => FailRow(row, now)
    case Expire(now) => ExpireRow(row, now)
    case Answered(executed) => Acknowledge(row, executed)
  }

  function Life(row: Row, events: seq<Event>): Row
    decreases |events|
  {
    if events == [] then row else Life(After(row, events[0]), events[1..])
  }

  lemma {:induction false} LifeConcat(row: Row, a: seq<Event>, b: seq<Event>)
    ensures Life(row, a + b) == Life(Life(row, a), b)
    decreases |a|
  {
    if a == [] {
      assert a + b == b;
    } else {
      LifeConcat(After(row, a[0]), a[1..], b);
      assert (a + b)[1..] == a[1..] + b;
    }
  }

  // ---------------------------------------------------------------- the sweeper

  /** The frames one sweep requeues, in the order it does so. */
  function Retried(rows: seq<Row>, now: int): seq<Frame> {
    if rows == [] then []
    else
      var last := |rows| - 1;
      Retried(rows[..last], now) + if Retries(rows[last], now) then [rows[last].frame] else []
  }

  lemma RetriedSnoc(rows: seq<Row>, i: nat, now: int)
    requires i < |rows|
    ensures Retried(rows[..i + 1], now)
         == Retried(rows[..i], now) + if Retries(rows[i], now) then [rows[i].frame] else []
  {
    assert rows[..i + 1][..i] == rows[..i];
  }

  /** Exactly the rows that are sent, past their retry time and have attempts left are requeued, each once and in the
      order of the table. */
  lemma {:induction false} RetriedIs(rows: seq<Row>, now: int) returns (at: seq<nat>)
    ensures Picked(Retried(rows, now), Frames(rows), Retrying(rows, now), at)
    decreases |rows|
  {
    at := [];
    if rows != [] {
      var n := |rows| - 1;
      at := RetriedIs(rows[..n], now);
      assert Frames(rows) == Frames(rows[..n]) + [rows[n].frame];
      assert Retrying(rows, now) == Retrying(rows[..n], now) + [Retries(rows[n], now)];
      assert Retried(rows[..n], now) + [] == Retried(rows[..n], now);
      PickedSnoc(Retried(rows[..n], now), Frames(rows[..n]), Retrying(rows[..n], now), at, rows[n].frame);
      if Retries(rows[n], now) {
        at := at + [n];
      }
    }
  }

  function Frames(rows: seq<Row>): seq<Frame> {
    seq(|rows|, i requires 0 <= i < |rows| => rows[i].frame)
  }

  function Retrying(rows: seq<Row>, now: int): seq<bool> {
    seq(|rows|, i requires 0 <= i < |rows| =>
      rows[i].status == Sent && rows[i].nextRetry.At? && rows[i].nextRetry.time < now
      && rows[i].attempts < rows[i].maxAttempts)
  }

  class Table {
    var rows: seq<Row>

    constructor ()
      ensures rows == []
    {
      rows := [];
    }

    /** First pass of `_scan_and_sweep`: requeue what is due and has attempts left. `clocks[i]` is the clock read
        when row `i` is rescheduled. */
    method RequeueDue(q: Queues, now: int, clocks: seq<int>)
      requires |clocks| == |rows|
      modifies this, q
      ensures |rows| == |old(rows)|
      ensures forall i :: 0 <= i < |rows| ==> rows[i] == RetryRow(old(rows[i]), now, clocks[i])
      ensures q.ReadOrder() == old(q.ReadOrder()) + Retried(old(rows), now) && q.inflight == old(q.inflight)
    {
      hide Backoff;
      var n := |rows|;
      for i := 0 to n
        invariant |rows| == n
        invariant forall k :: 0 <= k < i ==> rows[k] == RetryRow(old(rows[k]), now, clocks[k])
        invariant rows[i..] == old(rows)[i..]
        invariant q.ReadOrder() == old(q.ReadOrder()) + Retried(old(rows)[..i], now) && q.inflight == old(q.inflight)
      {
        var row := rows[i];
        assert row == rows[i..][0] == old(rows)[i];
        RetriedSnoc(old(rows), i, now);
        if row.status == Sent && row.nextRetry.At? && row.nextRetry.time < now && row.attempts < row.maxAttempts {
          q.EnqueueCommand(row.frame);
          var attempts := row.attempts + 1;
          rows := rows[i := row.(attempts := attempts, nextRetry := At(clocks[i] + Backoff(attempts)))];
        }
      }
      assert old(rows)[..n] == old(rows);
    }

    /** Second pass: fail what is due and out of attempts. */
    method FailExhausted(now: int)
      modifies this
      ensures |rows| == |old(rows)|
      ensures forall i :: 0 <= i < |rows| ==> rows[i] == FailRow(old(rows[i]), now)
    {
      var n := |rows|;
      for i := 0 to n
        invariant |rows| == n
        invariant forall k :: 0 <= k < n ==> rows[k] == if k < i then FailRow(old(rows[k]), now) else old(rows[k])
      {
        var row := rows[i];
        if row.status == Sent && row.nextRetry.At? && row.nextRetry.time < now && row.attempts >= row.maxAttempts {
          rows := rows[i := row.(status := Status.Failed)];
        }
      }
    }

    /** Third pass: fail what the relay never picked up. */
    method ExpirePending(now: int)
      modifies this
      ensures |rows| == |old(rows)|
      ensures forall i :: 0 <= i < |rows| ==> rows[i] == ExpireRow(old(rows[i]), now)
    {
      var n := |rows|;
      for i := 0 to n
        invariant |rows| == n
        invariant forall k :: 0 <= k < n ==> rows[k] == if k < i then ExpireRow(old(rows[k]), now) else old(rows[k])
      {
        var row := rows[i];
        if row.status == Pending && row.created < now - PENDING_TTL {
          rows := rows[i := row.(status := Status.Failed)];
        }
      }
    }

    /** `_scan_and_sweep`, with what the relay and the gateway do to the table between its three queries. */
    method Sweep(q: Queues, now: int, clocks: seq<int>, first: seq<Outside>, second: seq<Outside>)
      requires |clocks| == |rows|
      modifies this, q
      ensures |rows| == |old(rows)|
      ensures forall i :: 0 <= i < |rows| ==>
                rows[i] == Life(old(rows[i]), SweepEvents(now, clocks[i], EventsFor(old(rows), i, first),
                                                          EventsFor(old(rows), i, second)))
      ensures q.ReadOrder() == old(q.ReadOrder()) + Retried(old(rows), now) && q.inflight == old(q.inflight)
    {
      hide *;
      ghost var before := rows;
      RequeueDue(q, now, clocks);
      ghost var retried := rows;
      RetryKeepsIds(before, retried, now, clocks);
      Meanwhile(first);
      ghost var between := rows;
      EventsKeepIds(retried, between, first);
      SameIdsTransitive(before, retried, between);
      FailExhausted(now);
      ghost var failed := rows;
      FailKeepsIds(between, failed, now);
      Meanwhile(second);
      ghost var last := rows;
      ExpirePending(now);
      forall i | 0 <= i < |rows|
        ensures rows[i] == Life(before[i], SweepEvents(now, clocks[i], EventsFor(before, i, first),
                                                       EventsFor(before, i, second)))
      {
        SameIdsSameEvents(before, retried, i, first);
        SameIdsSameEvents(before, between, i, second);
        SameIdsSameEvents(between, failed, i, second);
        LifeOfSweep(before[i], now, clocks[i], EventsFor(before, i, first), EventsFor(before, i, second));
      }
    }

    /** Marks and acknowledgements of other processes, in order. */
    method Meanwhile(mid: seq<Outside>)
      modifies this
      ensures |rows| == |old(rows)|
      ensures forall i :: 0 <= i < |rows| ==> rows[i] == Life(old(rows[i]), EventsFor(old(rows), i, mid))
    {
      hide After, FirstWithId;
      ghost var before := rows;
      for k := 0 to |mid|
        invariant |rows| == |before|
        invariant forall i :: 0 <= i < |rows| ==> rows[i] == Life(before[i], EventsFor(before, i, mid[..k]))
      {
        ghost var was := rows;
        assert mid[..k + 1][..k] == mid[..k];
        EventsKeepIds(before, was, mid[..k]);
        match mid[k] {
          case Mark(id, now) => MarkRowSent(id, now);
          case Ack(id, executed) => HandleAck(id, executed);
        }
        forall i | 0 <= i < |rows|
          ensures rows[i] == Life(before[i], EventsFor(before, i, mid[..k + 1]))
        {
          OneOutside(was, rows, i, mid[k]);
          SameIdsSameTarget(before, was, i, mid[k]);
          LifeConcat(before[i], EventsFor(before, i, mid[..k]), EventFor(before, i, mid[k]));
        }
      }
      assert mid[..|mid|] == mid;
    }

    /** The row of a command id, or the table length when there is none. */
    method Locate(commandId: nat) returns (i: nat)
      ensures i <= |rows|
      ensures i < |rows| ==> rows[i].frame.commandId == commandId
      ensures forall k :: 0 <= k < i ==> rows[k].frame.commandId != commandId
    {
      i := 0;
      while i < |rows| && rows[i].frame.commandId != commandId
        invariant i <= |rows|
        invariant forall k :: 0 <= k < i ==> rows[k].frame.commandId != commandId
      {
        i := i + 1;
      }
    }

    /** `_mark_sent`: unknown ids are ignored. */
    method MarkRowSent(commandId: nat, now: int)
      modifies this
      ensures |rows| == |old(rows)|
      ensures forall i :: 0 <= i < |rows| ==>
                rows[i] == (if FirstWithId(old(rows), commandId, i) then MarkSent(old(rows[i]), now) else old(rows[i]))
      ensures forall i :: 0 <= i < |rows| && old(rows[i]).frame.commandId != commandId ==> rows[i] == old(rows[i])
      ensures forall i :: 0 <= i < |rows| && old(rows[i]).frame.commandId == commandId
                          && (forall k :: 0 <= k < i ==> old(rows[k]).frame.commandId != commandId) ==>
                && rows[i].status == Sent && rows[i].attempts == old(rows[i]).attempts + 1
                && rows[i].nextRetry == At(now + Wait(rows[i].attempts))
    {
      var i := Locate(commandId);
      if i < |rows| {
        BackoffIs(rows[i].attempts + 1);
        var attempts := rows[i].attempts + 1;
        rows := rows[i := rows[i].(status := Sent, attempts := attempts, nextRetry := At(now + Backoff(attempts)))];
      }
    }

    /** `_handle_command_ack` for a well-formed ack: unknown ids are ignored. */
    method HandleAck(commandId: nat, executed: bool)
      modifies this
      ensures |rows| == |old(rows)|
      ensures forall i :: 0 <= i < |rows| ==>
                rows[i] == (if FirstWithId(old(rows), commandId, i) then Acknowledge(old(rows[i]), executed)
                            else old(rows[i]))
      ensures forall i :: 0 <= i < |rows| && old(rows[i]).frame.commandId != commandId ==> rows[i] == old(rows[i])
      ensures forall i :: 0 <= i < |rows| && old(rows[i]).frame.commandId == commandId
                          && (forall k :: 0 <= k < i ==> old(rows[k]).frame.commandId != commandId) ==>
                rows[i] == old(rows[i]).(status := if executed then Acked else Rejected, nextRetry := Never)
    {
      var i := Locate(commandId);
      if i < |rows| {
        rows := rows[i := rows[i].(status := if executed then Acked else Rejected, nextRetry := Never)];
      }
    }
  }

  // ---------------------------------------------------------------- the table and its rows' lives

  ghost predicate FirstWithId(rows: seq<Row>, commandId: nat, i: int)
    requires 0 <= i < |rows|
  {
    rows[i].frame.commandId == commandId && forall k :: 0 <= k < i ==> rows[k].frame.commandId != commandId
  }

  /** What another process does to the table. */
  datatype Outside = Mark(commandId: nat, now: int) | Ack(commandId: nat, executed: bool)

  /** What that means for row `i`. */
  ghost function EventFor(rows: seq<Row>, i: nat, o: Outside): seq<Event>
    requires i < |rows|
  {
    if !FirstWithId(rows, o.commandId, i) then []
    else
      match o
      case Mark(_, now) => [Marked(now)]
      case Ack(_, executed) => [Answered(executed)]
  }

  ghost function EventsFor(rows: seq<Row>, i: nat, mid: seq<Outside>): seq<Event>
    requires i < |rows|
  {
    if mid == [] then [] else EventsFor(rows, i, mid[..|mid| - 1]) + EventFor(rows, i, mid[|mid| - 1])
  }

  /** The events one sweep is for one row. */
  function SweepEvents(now: int, clock: int, first: seq<Event>, second: seq<Event>): seq<Event> {
    [Retry(now, clock)] + (first + ([Fail(now)] + (second + [Expire(now)])))
  }

  lemma LifeOfSweep(row: Row, now: int, clock: int, first: seq<Event>, second: seq<Event>)
    ensures Life(row, SweepEvents(now, clock, first, second))
         == ExpireRow(Life(FailRow(Life(RetryRow(row, now, clock), first), now), second), now)
  {
    hide RetryRow, FailRow, ExpireRow;
    var retried := Life(RetryRow(row, now, clock), first);
    LifeConcat(row, [Retry(now, clock)], first + ([Fail(now)] + (second + [Expire(now)])));
    LifeConcat(RetryRow(row, now, clock), first, [Fail(now)] + (second + [Expire(now)]));
    LifeConcat(retried, [Fail(now)], second + [Expire(now)]);
    LifeConcat(FailRow(retried, now), second, [Expire(now)]);
    LifeOfOne(row, Retry(now, clock));
    LifeOfOne(retried, Fail(now));
    LifeOfOne(Life(FailRow(retried, now), second), Expire(now));
  }

  lemma LifeOfOne(row: Row, e: Event)
    ensures Life(row, [e]) == After(row, e)
  {
    assert [e][1..] == [];
  }

  ghost predicate SameIds(a: seq<Row>, b: seq<Row>) {
    |a| == |b| && forall k :: 0 <= k < |a| ==> a[k].frame == b[k].frame
  }

  lemma SameIdsTransitive(a: seq<Row>, b: seq<Row>, c: seq<Row>)
    requires SameIds(a, b) && SameIds(b, c)
    ensures SameIds(a, c)
  {
  }

  lemma {:induction false} LifeKeepsId(row: Row, events: seq<Event>)
    ensures Life(row, events).frame == row.frame
    decreases |events|
  {
    if events != [] {
      LifeKeepsId(After(row, events[0]), events[1..]);
    }
  }

  lemma RetryKeepsIds(a: seq<Row>, b: seq<Row>, now: int, clocks: seq<int>)
    requires |a| == |b| == |clocks| && forall i :: 0 <= i < |a| ==> b[i] == RetryRow(a[i], now, clocks[i])
    ensures SameIds(a, b)
  {
  }

  lemma FailKeepsIds(a: seq<Row>, b: seq<Row>, now: int)
    requires |a| == |b| && forall i :: 0 <= i < |a| ==> b[i] == FailRow(a[i], now)
    ensures SameIds(a, b)
  {
  }

  lemma EventsKeepIds(a: seq<Row>, b: seq<Row>, mid: seq<Outside>)
    requires |a| == |b| && forall i :: 0 <= i < |a| ==> b[i] == Life(a[i], EventsFor(a, i, mid))
    ensures SameIds(a, b)
  {
    hide Life, EventsFor;
    forall k | 0 <= k < |a|
      ensures a[k].frame == b[k].frame
    {
      LifeKeepsId(a[k], EventsFor(a, k, mid));
    }
  }

  lemma SameIdsSameTarget(a: seq<Row>, b: seq<Row>, i: nat, o: Outside)
    requires SameIds(a, b) && i < |a|
    ensures EventFor(a, i, o) == EventFor(b, i, o)
  {
  }

  lemma {:induction false} SameIdsSameEvents(a: seq<Row>, b: seq<Row>, i: nat, mid: seq<Outside>)
    requires SameIds(a, b) && i < |a|
    ensures EventsFor(a, i, mid) == EventsFor(b, i, mid)
  {
    hide EventFor, SameIds;
    if mid != [] {
      SameIdsSameEvents(a, b, i, mid[..|mid| - 1]);
      SameIdsSameTarget(a, b, i, mid[|mid| - 1]);
    }
  }

  lemma OneOutside(a: seq<Row>, b: seq<Row>, i: nat, o: Outside)
    requires i < |a| == |b|
    requires b[i] == if !FirstWithId(a, o.commandId, i) then a[i]
                     else match o
                          case Mark(_, now) => MarkSent(a[i], now)
                          case Ack(_, executed) => Acknowledge(a[i], executed)
    ensures b[i] == Life(a[i], EventFor(a, i, o))
  {
    hide FirstWithId;
    if FirstWithId(a, o.commandId, i) {
      LifeOfOne(a[i], EventFor(a, i, o)[0]);
    }
  }

  // ---------------------------------------------------------------- what every life keeps

  ghost predicate SentTracked(row: Row) {
    row.status == Sent ==> row.attempts >= 1 && row.nextRetry.At?
  }

  /** In every life "sent" means at least one attempt and a retry time, and attempts never fall. */
  lemma {:induction false} LifeKeeps(row: Row, events: seq<Event>)
    requires SentTracked(row)
    ensures SentTracked(Life(row, events))
    ensures Life(row, events).attempts >= row.attempts && Life(row, events).maxAttempts == row.maxAttempts
    decreases |events|
  {
    if events != [] {
      LifeKeeps(After(row, events[0]), events[1..]);
    }
  }

  /** How often the sweeper requeues the row. */
  function Requeues(row: Row, events: seq<Event>): nat
    decreases |events|
  {
    if events == [] then 0
    else (if events[0].Retry? && Retries(row, events[0].now) then 1 else 0)
         + Requeues(After(row, events[0]), events[1..])
  }

  function AttemptsLeft(row: Row): nat {
    if row.attempts < row.maxAttempts then row.maxAttempts - row.attempts else 0
  }

  /** Requeues from here on are bounded by the attempts left. */
  lemma {:induction false} RequeuesBounded(row: Row, events: seq<Event>)
    ensures Requeues(row, events) <= AttemptsLeft(row)
    decreases |events|
  {
    if events != [] {
      RequeuesBounded(After(row, events[0]), events[1..]);
    }
  }

  lemma {:induction false} UnsentRequeues(row: Row, events: seq<Event>)
    requires row.attempts == 0 && row.status != Sent
    ensures Requeues(row, events) <= if row.maxAttempts > 0 then row.maxAttempts - 1 else 0
    decreases |events|
  {
    if events != [] {
      var next := After(row, events[0]);
      if events[0].Marked? {
        RequeuesBounded(next, events[1..]);
      } else {
        UnsentRequeues(next, events[1..]);
      }
    }
  }

  /** The sweeper requeues a new command at most `max_attempts - 1` times, whatever the relay, the clock and the
      gateway do and in whichever order the passes come. */
  lemma NewRowRequeues(frame: Frame, maxAttempts: nat, created: int, events: seq<Event>)
    ensures Requeues(NewRow(frame, maxAttempts, created), events) <= if maxAttempts > 0 then maxAttempts - 1 else 0
  {
    UnsentRequeues(NewRow(frame, maxAttempts, created), events);
  }

  /** No event of the sequence reads a clock before `now`. */
  ghost predicate NotBefore(events: seq<Event>, now: int) {
    forall e <- events :: (e.Marked? ==> e.now >= now) && (e.Retry? ==> e.clock >= now)
  }

  lemma {:induction false} NotDueStays(row: Row, events: seq<Event>, now: int)
    requires NotBefore(events, now) && (row.nextRetry.At? ==> row.nextRetry.time >= now)
    ensures Life(row, events).nextRetry.At? ==> Life(row, events).nextRetry.time >= now
    decreases |events|
  {
    if events != [] {
      assert events[0] in events;
      BackoffDoubles(row.attempts + 1);
      NotDueStays(After(row, events[0]), events[1..], now);
    }
  }

  /** A row the sweep has just retried is not failed by the same sweep, whatever happens to the row in between. */
  lemma NoRetryAndFail(row: Row, now: int, clock: int, between: seq<Event>)
    requires now <= clock && Retries(row, now) && NotBefore(between, now)
    ensures RetryRow(row, now, clock).status == Sent && RetryRow(row, now, clock).attempts == row.attempts + 1
    ensures var met := Life(RetryRow(row, now, clock), between); FailRow(met, now) == met
  {
    BackoffDoubles(row.attempts + 1);
    NotDueStays(RetryRow(row, now, clock), between, now);
  }

  // ---------------------------------------------------------------- due sweeps

  /** A mark or an answer on its own, or one sweep with the marks and answers between its passes. */
  datatype Item = Alone(e: Event) | Swept(now: int, clock: int, first: seq<Event>, second: seq<Event>)

  ghost predicate FromOutside(events: seq<Event>, now: int) {
    forall e <- events :: e.Answered? || (e.Marked? && e.now >= now)
  }

  ghost predicate Orderly(item: Item) {
    match item
    case Alone(e) => e.Marked? || e.Answered?
    case Swept(now, clock, first, second) => now <= clock && FromOutside(first, now) && FromOutside(second, now)
  }

  function EventsOf(item: Item): seq<Event> {
    match item
    case Alone(e) => [e]
    case Swept(now, clock, first, second) => SweepEvents(now, clock, first, second)
  }

  function ItemAfter(row: Row, item: Item): Row {
    Life(row, EventsOf(item))
  }

  /** Does the item end with the row in "sent" although it was a sweep that found the row due? */
  predicate Survives(row: Row, item: Item) {
    item.Swept? && Due(row, item.now) && ItemAfter(row, item).status == Sent
  }

  /** Is it such a sweep, and did it find no attempts left? */
  predicate Rescued(row: Row, item: Item) {
    Survives(row, item) && row.attempts >= row.maxAttempts
  }

  /** Where marks and answers leave a row, and that a mark puts the retry time off. */
  lemma {:induction false} OutsideLeaves(row: Row, events: seq<Event>, now: int)
    requires FromOutside(events, now) && events != []
    ensures var after := Life(row, events);
            && after.status == (if events[|events| - 1].Marked? then Sent
                                else if events[|events| - 1].executed then Acked else Rejected)
            && !Due(after, now)
    decreases |events|
  {
    var next := After(row, events[0]);
    assert events[0] in events;
    BackoffDoubles(row.attempts + 1);
    if |events| == 1 {
      assert events[1..] == [];
    } else {
      OutsideLeaves(next, events[1..], now);
    }
  }

  /** The exact outcome of a sweep that finds the row due: it ends in "sent" when the last thing that comes between
      its passes is a mark, or when nothing comes between and attempts were left. */
  lemma SurvivesIff(row: Row, item: Item)
    requires Orderly(item) && item.Swept? && Due(row, item.now)
    ensures var mid := item.first + item.second;
            Survives(row, item) <==> if mid == [] then row.attempts < row.maxAttempts else mid[|mid| - 1].Marked?
  {
    var now, first, second := item.now, item.first, item.second;
    LifeOfSweep(row, now, item.clock, first, second);
    var retried := RetryRow(row, now, item.clock);
    BackoffDoubles(row.attempts + 1);
    var met := Life(retried, first);
    if first != [] {
      OutsideLeaves(retried, first, now);
    }
    var failed := FailRow(met, now);
    assert first != [] ==> failed == met;
    hide Due;
    if second != [] {
      OutsideLeaves(failed, second, now);
    }
  }

  function SurvivedCount(row: Row, items: seq<Item>): nat
    decreases |items|
  {
    if items == [] then 0
    else (if Survives(row, items[0]) then 1 else 0) + SurvivedCount(ItemAfter(row, items[0]), items[1..])
  }

  function RescueCount(row: Row, items: seq<Item>): nat
    decreases |items|
  {
    if items == [] then 0
    else (if Rescued(row, items[0]) then 1 else 0) + RescueCount(ItemAfter(row, items[0]), items[1..])
  }

  lemma ItemAttempts(row: Row, item: Item)
    ensures ItemAfter(row, item).maxAttempts == row.maxAttempts
    ensures ItemAfter(row, item).attempts >= row.attempts
    ensures Survives(row, item) && !Rescued(row, item) ==> ItemAfter(row, item).attempts > row.attempts
  {
    hide SweepEvents;
    AttemptsGrow(row, EventsOf(item));
    if item.Swept? {
      var retried := RetryRow(row, item.now, item.clock);
      LifeOfSweep(row, item.now, item.clock, item.first, item.second);
      AttemptsGrow(retried, item.first);
      AttemptsGrow(FailRow(Life(retried, item.first), item.now), item.second);
    }
  }

  lemma {:induction false} AttemptsGrow(row: Row, events: seq<Event>)
    ensures Life(row, events).attempts >= row.attempts && Life(row, events).maxAttempts == row.maxAttempts
    decreases |events|
  {
    if events != [] {
      AttemptsGrow(After(row, events[0]), events[1..]);
    }
  }

  /** The due sweeps a command survives in "sent" are at most `max_attempts - attempts`, plus the ones that found no
      attempts left and were saved by a mark between their passes. */
  lemma {:induction false} DueSweepsBounded(row: Row, items: seq<Item>)
    ensures SurvivedCount(row, items) <= AttemptsLeft(row) + RescueCount(row, items)
    decreases |items|
  {
    hide Survives, ItemAfter;
    if items != [] {
      DueSweepsBounded(ItemAfter(row, items[0]), items[1..]);
      ItemAttempts(row, items[0]);
    }
  }

  /** Does the bound `max_attempts - attempts` hold from every point of the life on? */
  predicate BoundThroughout(row: Row, items: seq<Item>)
    decreases |items|
  {
    && SurvivedCount(row, items) <= AttemptsLeft(row)
    && (items != [] ==> BoundThroughout(ItemAfter(row, items[0]), items[1..]))
  }

  /** The exact condition: the bound holds throughout a life if and only if no sweep that finds the row exhausted is
      saved, which by `SurvivesIff` takes a mark as the last thing between its passes. */
  lemma {:induction false} BoundThroughoutIff(row: Row, items: seq<Item>)
    ensures BoundThroughout(row, items) <==> RescueCount(row, items) == 0
    decreases |items|
  {
    hide Survives, ItemAfter;
    DueSweepsBounded(row, items);
    if items != [] {
      BoundThroughoutIff(ItemAfter(row, items[0]), items[1..]);
    }
  }

  /** Without the condition there is no bound at all: a row without attempts left can survive any number of due
      sweeps, one mark of the relay between the passes of each. */
  lemma {:induction false} MarksSaveForever(row: Row, n: nat) returns (items: seq<Item>)
    requires row.status == Sent && row.nextRetry.At? && AttemptsLeft(row) == 0
    ensures |items| == n && SurvivedCount(row, items) == n && forall item <- items :: Orderly(item)
    decreases n
  {
    items := [];
    if n > 0 {
      var now := row.nextRetry.time + 1;
      var item := Swept(now, now, [Marked(now)], []);
      SurvivesIff(row, item);
      MarkSaves(row, now);
      ItemAttempts(row, item);
      var rest := MarksSaveForever(ItemAfter(row, item), n - 1);
      items := [item] + rest;
      assert items[1..] == rest;
    }
  }

  lemma MarkSaves(row: Row, now: int)
    requires row.status == Sent && AttemptsLeft(row) == 0 && Due(row, now)
    ensures ItemAfter(row, Swept(now, now, [Marked(now)], [])) == MarkSent(row, now)
  {
    LifeOfSweep(row, now, now, [Marked(now)], []);
    LifeOfOne(row, Marked(now));
    BackoffDoubles(row.attempts + 1);
  }

  /** Is every item an undisturbed sweep that finds the row due? */
  predicate AllDue(row: Row, items: seq<Item>)
    decreases |items|
  {
    items == []
    || (items[0].Swept? && items[0].first == items[0].second == [] && items[0].now <= items[0].clock
        && Due(row, items[0].now) && AllDue(ItemAfter(row, items[0]), items[1..]))
  }

  function ItemsAfter(row: Row, items: seq<Item>): Row
    decreases |items|
  {
    if items == [] then row else ItemsAfter(ItemAfter(row, items[0]), items[1..])
  }

  /** A sent command that nobody answers and the relay does not mark again is failed by exactly the due sweep after its
      last attempt, not earlier and not later. */
  lemma {:induction false} UnmarkedFails(row: Row, items: seq<Item>)
    requires row.status == Sent && AllDue(row, items)
    ensures |items| <= AttemptsLeft(row) + 1
    ensures ItemsAfter(row, items).status == Status.Failed <==> |items| == AttemptsLeft(row) + 1
    ensures ItemsAfter(row, items).status == Sent <==> |items| <= AttemptsLeft(row)
    decreases |items|
  {
    if items != [] {
      var now, clock := items[0].now, items[0].clock;
      var next := ItemAfter(row, items[0]);
      Undisturbed(row, now, clock);
      hide ItemAfter;
      if Retries(row, now) {
        UnmarkedFails(next, items[1..]);
      } else {
        assert next.status == Status.Failed;
        assert items[1..] == [];
      }
    }
  }

  lemma Undisturbed(row: Row, now: int, clock: int)
    requires Due(row, now) && now <= clock
    ensures ItemAfter(row, Swept(now, clock, [], []))
         == if Retries(row, now) then RetryRow(row, now, clock) else row.(status := Status.Failed)
  {
    LifeOfSweep(row, now, clock, [], []);
    BackoffDoubles(row.attempts + 1);
  }
}
