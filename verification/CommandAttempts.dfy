/** How a command uses up its attempts when nobody answers: the relay counts one for every mark, the sweeper one for
    every requeue, and the relay marks the requeued frame again.
 */
module CommandAttempts {
  import opened CommandRelay
  import opened CommandRows

  // ---------------------------------------------------------------- when an unanswered command fails

  /** A mark of the relay, or a sweep with nothing between its passes; no answer. */
  predicate Unanswered(item: Item) {
    match item
    case Alone(e) => e.Marked?
    case Swept(now, clock, first, second) => first == second == [] && now <= clock
  }

  function MarkCount(items: seq<Item>): nat {
    if items == [] then 0 else (if items[0].Alone? then 1 else 0) + MarkCount(items[1..])
  }

  /** How many of the sweeps requeue the row. */
  function RetryCount(row: Row, items: seq<Item>): nat
    decreases |items|
  {
    if items == [] then 0
    else (if items[0].Swept? && Retries(row, items[0].now) then 1 else 0)
         + RetryCount(ItemAfter(row, items[0]), items[1..])
  }

  /** The row before item `k`. */
  function RowAt(row: Row, items: seq<Item>, k: nat): Row
    requires k <= |items|
  {
    ItemsAfter(row, items[..k])
  }

  /** Does sweep `k` find the row due after marks and requeues have used up its attempts? */
  predicate Exhausts(row: Row, items: seq<Item>, k: nat)
    requires k < |items|
  {
    && items[k].Swept? && Due(RowAt(row, items, k), items[k].now)
    && row.attempts + MarkCount(items[..k]) + RetryCount(row, items[..k]) >= row.maxAttempts
  }

  lemma {:induction false} ItemsAfterSnoc(row: Row, items: seq<Item>, k: nat)
    requires k < |items|
    ensures RowAt(row, items, k + 1) == ItemAfter(RowAt(row, items, k), items[k])
    decreases k
  {
    hide ItemAfter;
    var all := items[..k + 1];
    var next := ItemAfter(row, items[0]);
    if k == 0 {
      assert all[0] == items[0] && ItemsAfter(next, all[1..]) == next;
    } else {
      ItemsAfterSnoc(next, items[1..], k - 1);
      assert all[0] == items[0] && all[1..] == items[1..][..k];
      assert items[..k][0] == items[0] && items[..k][1..] == items[1..][..k - 1];
      assert RowAt(row, items, k) == RowAt(next, items[1..], k - 1);
      assert RowAt(row, items, k + 1) == RowAt(next, items[1..], k);
    }
  }

  /** One undisturbed item. */
  lemma ItemOutcome(row: Row, item: Item)
    requires Unanswered(item)
    ensures ItemAfter(row, item).maxAttempts == row.maxAttempts
    ensures ItemAfter(row, item).attempts
         == row.attempts + if item.Alone? || Retries(row, item.now) then 1 else 0
    ensures row.status == Sent ==>
              ItemAfter(row, item).status
              == if item.Swept? && Due(row, item.now) && row.attempts >= row.maxAttempts then Status.Failed else Sent
  {
    if item.Alone? {
      LifeOfOne(row, item.e);
    } else {
      LifeOfSweep(row, item.now, item.clock, [], []);
      BackoffDoubles(row.attempts + 1);
    }
  }

  /** Every mark and every requeue counts one attempt, and nothing else does. */
  lemma {:induction false} AttemptsCounted(row: Row, items: seq<Item>)
    requires forall item <- items :: Unanswered(item)
    ensures ItemsAfter(row, items).attempts == row.attempts + MarkCount(items) + RetryCount(row, items)
    ensures ItemsAfter(row, items).maxAttempts == row.maxAttempts
    decreases |items|
  {
    hide ItemAfter, Unanswered, Retries;
    if items != [] {
      ItemOutcome(row, items[0]);
      AttemptsCounted(ItemAfter(row, items[0]), items[1..]);
    }
  }

  /** From one item to the next: a sent row is failed exactly by a sweep that exhausts it. */
  lemma SentStep(row: Row, items: seq<Item>, k: nat)
    requires k < |items| && (forall item <- items :: Unanswered(item)) && RowAt(row, items, k).status == Sent
    ensures RowAt(row, items, k + 1).status == if Exhausts(row, items, k) then Status.Failed else Sent
  {
    hide ItemAfter, ItemsAfter, Unanswered, Due;
    AttemptsCounted(row, items[..k]);
    ItemsAfterSnoc(row, items, k);
    ItemOutcome(RowAt(row, items, k), items[k]);
  }

  /** A sent command that nobody answers, however often the relay marks it, stays sent exactly until the first sweep
      that finds it due with its attempts used up by marks and requeues, and that sweep fails it. */
  lemma {:induction false} UnansweredFails(row: Row, items: seq<Item>, k: nat)
    requires row.status == Sent && k <= |items| && forall item <- items :: Unanswered(item)
    ensures (forall j: nat | j <= k :: RowAt(row, items, j).status == Sent)
       <==> forall j: nat | j < k :: !Exhausts(row, items, j)
    ensures forall j: nat | j < k && Exhausts(row, items, j) && (forall i: nat | i < j :: !Exhausts(row, items, i)) ::
              RowAt(row, items, j + 1).status == Status.Failed
    decreases k
  {
    hide Exhausts, RowAt, Unanswered;
    if k == 0 {
      assert RowAt(row, items, 0) == row by {
        StartsAt(row, items);
      }
    } else {
      UnansweredFails(row, items, k - 1);
      if forall j: nat | j < k - 1 :: !Exhausts(row, items, j) {
        SentStep(row, items, k - 1);
      }
    }
  }

  lemma StartsAt(row: Row, items: seq<Item>)
    ensures RowAt(row, items, 0) == row
  {
  }

  // ---------------------------------------------------------------- attempts are counted twice

  /** Does a mark come between any two requeues, and before the first one unless `marked`?  So it is when the relay
      picks every requeued frame up before the sweeper finds the row due again. */
  predicate MarkedBetween(row: Row, events: seq<Event>, marked: bool)
    decreases |events|
  {
    if events == [] then true
    else
      var e, next, rest := events[0], After(row, events[0]), events[1..];
      if e.Retry? && Retries(row, e.now) then marked && MarkedBetween(next, rest, false)
      else MarkedBetween(next, rest, marked || e.Marked?)
  }

  lemma {:induction false} RequeuesCostTwo(row: Row, events: seq<Event>, marked: bool)
    requires MarkedBetween(row, events, marked)
    ensures var left := row.maxAttempts - row.attempts + if marked then 1 else 0;
            2 * Requeues(row, events) <= if left > 0 then left else 0
    decreases |events|
  {
    if events != [] {
      var e := events[0];
      RequeuesCostTwo(After(row, e), events[1..],
                      if e.Retry? && Retries(row, e.now) then false else marked || e.Marked?);
    }
  }

  /** With the relay at work every requeue costs two attempts, so a new command is requeued at most half as often as
      `max_attempts` says: once for the default of three. */
  lemma RequeuesHalved(frame: Frame, maxAttempts: nat, created: int, events: seq<Event>)
    requires MarkedBetween(NewRow(frame, maxAttempts, created), events, false)
    ensures Requeues(NewRow(frame, maxAttempts, created), events) <= maxAttempts / 2
  {
    RequeuesCostTwo(NewRow(frame, maxAttempts, created), events, false);
  }

  /** A mark, then the retry pass of a sweep that finds the row due. */
  function Round(row: Row, now: int): seq<Event> {
    var sent := MarkSent(row, now);
    [Marked(now), Retry(sent.nextRetry.time + 1, sent.nextRetry.time + 1)]
  }

  lemma {:induction false} RoundsRequeue(row: Row, n: nat) returns (events: seq<Event>)
    requires row.attempts + 2 * n <= row.maxAttempts
    ensures MarkedBetween(row, events, false) && Requeues(row, events) == n
    decreases n
  {
    events := [];
    if n > 0 {
      var round := Round(row, 0);
      var sent := MarkSent(row, 0);
      var requeued := RetryRow(sent, round[1].now, round[1].clock);
      var rest := RoundsRequeue(requeued, n - 1);
      events := round + rest;
      assert events[1..] == [round[1]] + rest && events[1..][1..] == rest;
      assert MarkedBetween(sent, events[1..], true);
    }
  }

  /** And that often it can be, whatever the maximum. */
  lemma HalfReached(frame: Frame, maxAttempts: nat, created: int) returns (events: seq<Event>)
    ensures MarkedBetween(NewRow(frame, maxAttempts, created), events, false)
    ensures Requeues(NewRow(frame, maxAttempts, created), events) == maxAttempts / 2
  {
    events := RoundsRequeue(NewRow(frame, maxAttempts, created), maxAttempts / 2);
  }
}
