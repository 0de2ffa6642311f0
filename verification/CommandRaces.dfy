/** The sweeper's passes when they are not alone: each reads its rows with a query and writes them with a commit, and
    the relay or the gateway may change a row in between.
 */
module CommandRaces {
  import opened CommandRelay
  import opened CommandRows

  /** Marks and answers. */
  ghost predicate Outsiders(mid: seq<Event>) {
    forall e <- mid :: e.Marked? || e.Answered?
  }

  /** A pass of the sweeper and what comes between its query and its commit; marks and answers are short, so nothing
      comes between theirs. */
  datatype Pass = Pass(e: Event, mid: seq<Event>)

  ghost predicate Orderly(p: Pass) {
    if p.e.Marked? || p.e.Answered? then p.mid == [] else Outsiders(p.mid)
  }

  /** Did the query of the pass select the row? */
  predicate Selects(read: Row, e: Event) {
    match e
    case Retry(now, _) => Retries(read, now)
    case Fail(now) => Due(read, now) && read.attempts >= read.maxAttempts
    case Expire(now) => read.status == Pending && read.created < now - PENDING_TTL
    case _ => true
  }

  /** The commit writes the columns the pass assigned, computed from the row it read, over the row as it is by then. */
  function Written(read: Row, met: Row, e: Event): Row {
    if !Selects(read, e) then met
    else
      match e
      case Retry(_, clock) =>
        met.(attempts := read.attempts + 1, nextRetry := At(clock + Backoff(read.attempts + 1)))
      case Fail(_) => met.(status := Status.Failed)
      case Expire(_) => met.(status := Status.Failed)
      case _ => After(met, e)
  }

  function Raced(row: Row, p: Pass): Row {
    Written(row, Life(row, p.mid), p.e)
  }

  /** With nothing in between, a pass is the single step of `CommandRows`. */
  lemma AloneIsAtomic(row: Row, e: Event)
    ensures Raced(row, Pass(e, [])) == After(row, e)
  {
  }

  // ---------------------------------------------------------------- what is lost

  function Marks(events: seq<Event>): nat {
    if events == [] then 0 else (if events[0].Marked? then 1 else 0) + Marks(events[1..])
  }

  lemma {:induction false} MarksCount(row: Row, mid: seq<Event>)
    requires Outsiders(mid)
    ensures Life(row, mid).attempts == row.attempts + Marks(mid) && Life(row, mid).maxAttempts == row.maxAttempts
    decreases |mid|
  {
    if mid != [] {
      MarksCount(After(row, mid[0]), mid[1..]);
    }
  }

  /** The retry pass counts one attempt, whatever has been counted since its query: exactly the marks in between are
      lost, against the same steps one after the other.  The status they leave stays. */
  lemma RetryLosesMarks(row: Row, now: int, clock: int, mid: seq<Event>)
    requires Retries(row, now) && Outsiders(mid)
    ensures var after := Raced(row, Pass(Retry(now, clock), mid));
            && after.attempts == row.attempts + 1 && after.nextRetry == At(clock + Wait(row.attempts + 1))
            && after.attempts + Marks(mid) == Life(RetryRow(row, now, clock), mid).attempts
            && (after.attempts < Life(row, mid).attempts <==> Marks(mid) > 1)
            && after.status == Life(row, mid).status == Life(RetryRow(row, now, clock), mid).status
  {
    BackoffIs(row.attempts + 1);
    hide Backoff, Wait;
    MarksCount(row, mid);
    MarksCount(RetryRow(row, now, clock), mid);
    SameStatus(row, RetryRow(row, now, clock), mid);
  }

  lemma {:induction false} SameStatus(a: Row, b: Row, mid: seq<Event>)
    requires Outsiders(mid) && a.status == b.status
    ensures Life(a, mid).status == Life(b, mid).status
    decreases |mid|
  {
    if mid != [] {
      SameStatus(After(a, mid[0]), After(b, mid[0]), mid[1..]);
    }
  }

  /** An answer that comes between the query and the commit of a pass stays in the row if and only if the pass is not
      one that fails it: the fail pass and the expire pass write "failed" over it. */
  lemma AnswerStaysIff(row: Row, e: Event, mid: seq<Event>, executed: bool)
    requires Outsiders(mid) && (e.Retry? || e.Fail? || e.Expire?)
    ensures var after := Raced(row, Pass(e, mid + [Answered(executed)]));
            after.status == (if executed then Acked else Rejected) <==> e.Retry? || !Selects(row, e)
  {
    LifeConcat(row, mid, [Answered(executed)]);
    LifeOfOne(Life(row, mid), Answered(executed));
  }

  // ---------------------------------------------------------------- what survives

  /** From one commit to the next attempts never fall, and a requeue still counts one. */
  lemma RacedAttempts(row: Row, p: Pass)
    ensures Raced(row, p).maxAttempts == row.maxAttempts && Raced(row, p).attempts >= row.attempts
    ensures p.e.Retry? && Retries(row, p.e.now) ==> Raced(row, p).attempts == row.attempts + 1
  {
    AttemptsGrow(row, p.mid);
  }

  function RacedRequeues(row: Row, passes: seq<Pass>): nat
    decreases |passes|
  {
    if passes == [] then 0
    else (if passes[0].e.Retry? && Retries(row, passes[0].e.now) then 1 else 0)
         + RacedRequeues(Raced(row, passes[0]), passes[1..])
  }

  lemma {:induction false} RacedBounded(row: Row, passes: seq<Pass>)
    ensures RacedRequeues(row, passes) <= AttemptsLeft(row)
    decreases |passes|
  {
    hide Raced;
    if passes != [] {
      RacedAttempts(row, passes[0]);
      RacedBounded(Raced(row, passes[0]), passes[1..]);
    }
  }

  lemma {:induction false} SentWasMarked(row: Row, events: seq<Event>)
    requires row.attempts == 0 ==> row.status != Sent
    ensures Life(row, events).attempts == 0 ==> Life(row, events).status != Sent
    decreases |events|
  {
    if events != [] {
      SentWasMarked(After(row, events[0]), events[1..]);
    }
  }

  lemma {:induction false} RacedUnsent(row: Row, passes: seq<Pass>)
    requires row.attempts == 0 && row.status != Sent
    ensures RacedRequeues(row, passes) <= if row.maxAttempts > 0 then row.maxAttempts - 1 else 0
    decreases |passes|
  {
    if passes != [] {
      var next := Raced(row, passes[0]);
      RacedAttempts(row, passes[0]);
      SentWasMarked(row, passes[0].mid);
      if next.attempts == 0 {
        RacedUnsent(next, passes[1..]);
      } else {
        RacedBounded(next, passes[1..]);
      }
    }
  }

  /** The bound on requeues survives every race with the relay and the gateway. */
  lemma RacedRequeuesBounded(frame: Frame, maxAttempts: nat, created: int, passes: seq<Pass>)
    ensures RacedRequeues(NewRow(frame, maxAttempts, created), passes) <= if maxAttempts > 0 then maxAttempts - 1 else 0
  {
    RacedUnsent(NewRow(frame, maxAttempts, created), passes);
  }

  /** A retry pass during which the relay marks the requeued frame. */
  function Overtaken(row: Row): Pass
    requires row.nextRetry.At?
  {
    var now := row.nextRetry.time + 1;
    Pass(Retry(now, now), [Marked(now)])
  }

  lemma {:induction false} OvertakenRounds(row: Row, n: nat) returns (passes: seq<Pass>)
    requires row.status == Sent && row.nextRetry.At? && row.attempts + n <= row.maxAttempts
    ensures RacedRequeues(row, passes) == n == |passes|
    ensures forall p <- passes :: Orderly(p) && p.e.Retry? && Marks(p.mid) == 1
    decreases n
  {
    passes := [];
    if n > 0 {
      var p := Overtaken(row);
      LifeOfOne(row, p.mid[0]);
      var rest := OvertakenRounds(Raced(row, p), n - 1);
      passes := [p] + rest;
      assert passes[1..] == rest;
    }
  }

  /** And it is reached even by a relay that marks every requeued frame, if it does so before the pass commits: then
      a requeue costs one attempt, not two. */
  lemma LostMarksReachBound(frame: Frame, maxAttempts: nat, created: int) returns (passes: seq<Pass>)
    requires maxAttempts > 0
    ensures RacedRequeues(NewRow(frame, maxAttempts, created), passes) == maxAttempts - 1 == |passes| - 1
    ensures passes[0].e.Marked? && forall p <- passes[1..] :: Orderly(p) && p.e.Retry? && Marks(p.mid) == 1
  {
    var row := NewRow(frame, maxAttempts, created);
    var first := Pass(Marked(0), []);
    AloneIsAtomic(row, Marked(0));
    var rest := OvertakenRounds(Raced(row, first), maxAttempts - 1);
    passes := [first] + rest;
    assert passes[1..] == rest;
  }
}
