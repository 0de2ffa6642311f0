/** The durable two-list command queue and the relay that publishes from it.

    Index 0 of a list is its left end: LPUSH puts there, LPOP takes from there, RPOPLPUSH and BRPOPLPUSH
    take from the right end of one list and push to the left end of another.
 */
module CommandRelay {
  import opened Common

  /** A queued command; the JSON text of a frame is taken as its value. */
  datatype Frame = Frame(commandId: nat, gateway: string, kind: string, payload: string)

  // ---------------------------------------------------------------- the two lists

  class Queues {
    var outbound: seq<Frame>
    var inflight: seq<Frame>

    constructor ()
      ensures outbound == [] && inflight == []
    {
      outbound, inflight := [], [];
    }

    /** The order in which the relay will take the outbound frames. */
    ghost function ReadOrder(): seq<Frame>
      reads this
    {
      Reverse(outbound)
    }

    /** `enqueue_command` */
    method EnqueueCommand(frame: Frame)
      modifies this
      ensures ReadOrder() == old(ReadOrder()) + [frame] && outbound == [frame] + old(outbound)
      ensures inflight == old(inflight)
    {
      outbound := [frame] + outbound;
    }

    /** `take_command`: the oldest outbound frame, now at the left end of inflight. */
    method TakeCommand() returns (frame: seq<Frame>)
      modifies this
      ensures old(outbound) == [] ==> frame == [] && outbound == [] && inflight == old(inflight)
      ensures old(outbound) != [] ==>
                && |frame| == 1
                && old(ReadOrder()) == frame + ReadOrder()
                && outbound + frame == old(outbound)
                && inflight == frame + old(inflight)
    {
      if outbound == [] {
        return [];
      }
      var n := |outbound| - 1;
      frame := [outbound[n]];
      assert outbound == outbound[..n] + frame;
      ReverseAppend(outbound[..n], frame);
      outbound, inflight := outbound[..n], frame + inflight;
    }

    /** `release_command`: pops the left end of inflight. */
    method ReleaseCommand()
      modifies this
      ensures outbound == old(outbound)
      ensures inflight == if old(inflight) == [] then [] else old(inflight)[1..]
    {
      if inflight != [] {
        inflight := inflight[1..];
      }
    }

    /** `drain_inflight`: leftover frames follow the waiting ones, oldest first. */
    method DrainInflight()
      modifies this
      ensures inflight == [] && outbound == old(inflight) + old(outbound)
      ensures ReadOrder() == old(ReadOrder()) + Reverse(old(inflight))
    {
      ReverseAppend(inflight, outbound);
      while inflight != []
        invariant inflight + outbound == old(inflight) + old(outbound)
        decreases |inflight|
      {
        var n := |inflight| - 1;
        assert inflight[..n] + ([inflight[n]] + outbound) == inflight + outbound;
        inflight, outbound := inflight[..n], [inflight[n]] + outbound;
      }
      assert inflight + outbound == outbound;
    }
  }

  /** Of the first `|accepts|` frames, those whose publish returned `want`. */
  function Chosen(frames: seq<Frame>, accepts: seq<bool>, want: bool): seq<Frame>
    requires |accepts| <= |frames|
    decreases |accepts|
  {
    if accepts == [] then []
    else (if accepts[0] == want then [frames[0]] else []) + Chosen(frames[1..], accepts[1..], want)
  }

  lemma {:induction false} ChosenSnoc(frames: seq<Frame>, accepts: seq<bool>, k: nat, want: bool)
    requires k < |accepts| <= |frames|
    ensures accepts[k] == want ==>
              Chosen(frames, accepts[..k + 1], want) == Chosen(frames, accepts[..k], want) + [frames[k]]
    ensures accepts[k] != want ==> Chosen(frames, accepts[..k + 1], want) == Chosen(frames, accepts[..k], want)
    decreases k
  {
    if k > 0 {
      ChosenSnoc(frames[1..], accepts[1..], k - 1, want);
      assert accepts[..k + 1][1..] == accepts[1..][..k];
      assert accepts[..k][1..] == accepts[1..][..k - 1];
    } else {
      assert accepts[..1] == [accepts[0]];
    }
  }

  /** Chosen are exactly the frames with that outcome, each once and in order. */
  lemma {:induction false} ChosenIs(frames: seq<Frame>, accepts: seq<bool>, want: bool, n: nat) returns (at: seq<nat>)
    requires n <= |accepts| <= |frames|
    ensures Picked(Chosen(frames, accepts[..n], want), frames[..n], seq(n, i requires 0 <= i < n => accepts[i] == want),
                   at)
    decreases n
  {
    at := [];
    if n > 0 {
      at := ChosenIs(frames, accepts, want, n - 1);
      ChosenSnoc(frames, accepts, n - 1, want);
      var before := seq(n - 1, i requires 0 <= i < n - 1 => accepts[i] == want);
      assert seq(n, i requires 0 <= i < n => accepts[i] == want) == before + [accepts[n - 1] == want];
      assert frames[..n] == frames[..n - 1] + [frames[n - 1]];
      PickedSnoc(Chosen(frames, accepts[..n - 1], want), frames[..n - 1], before, at, frames[n - 1]);
      if accepts[n - 1] == want {
        at := at + [n - 1];
      }
    } else {
      assert Chosen(frames, accepts[..0], want) == [];
    }
  }

  /** `command_relay_loop` for `max_frames` frames without failures: accepted frames are published in the order
      they were enqueued, rejected ones stay in flight in that order, newest leftmost. */
  method RelayLoop(q: Queues, accepts: seq<bool>) returns (published: seq<Frame>)
    requires |accepts| <= |q.outbound| + |q.inflight|
    modifies q
    ensures published == Chosen(old(q.ReadOrder() + Reverse(q.inflight)), accepts, true)
    ensures q.inflight == Reverse(Chosen(old(q.ReadOrder() + Reverse(q.inflight)), accepts, false))
    ensures q.ReadOrder() == old(q.ReadOrder() + Reverse(q.inflight))[|accepts|..]
  {
    ghost var order := q.ReadOrder() + Reverse(q.inflight);
    q.DrainInflight();
    published := [];
    for taken := 0 to |accepts|
      invariant q.ReadOrder() == order[taken..]
      invariant published == Chosen(order, accepts[..taken], true)
      invariant q.inflight == Reverse(Chosen(order, accepts[..taken], false))
    {
      ReverseEmpty(q.outbound);
      var frame := q.TakeCommand();
      assert order[taken..] == frame + q.ReadOrder();
      assert frame == [order[taken]];
      assert q.ReadOrder() == order[taken..][1..] == order[taken + 1..];
      ChosenSnoc(order, accepts, taken, true);
      ChosenSnoc(order, accepts, taken, false);
      if accepts[taken] {
        published := published + frame;
        q.ReleaseCommand();
      } else {
        ReverseAppend(Chosen(order, accepts[..taken], false), frame);
        assert Reverse(frame) == frame by {
          assert frame[1..] == [];
        }
      }
    }
    assert accepts[..|accepts|] == accepts;
  }

  lemma ReverseEmpty(s: seq<Frame>)
    ensures Reverse(s) == [] <==> s == []
  {
  }

  // ---------------------------------------------------------------- the relay with failures anywhere

  /** Where the one relay stands between two Redis operations. */
  datatype Stage =
    | Draining
    | Idle
    | Taken(frame: Frame)      // in inflight, not published
    | Published(frame: Frame)  // accepted by the broker, not released
    | Released(frame: Frame)   // off inflight, row not yet marked sent
    | Failed(frame: Frame)     // an exception was caught; about to requeue
    | Stopped

  /** `enqueued`, `accepted` are history: every frame ever enqueued, and every accepted publish. */
  datatype State = State(outbound: seq<Frame>, inflight: seq<Frame>, stage: Stage,
                         enqueued: multiset<Frame>, accepted: multiset<Frame>)

  const INITIAL := State([], [], Draining, multiset{}, multiset{})

  datatype Step =
    | Enqueue(frame: Frame)   // API or sweeper, any time
    | DrainOne                // one RPOPLPUSH of drain_inflight
    | Take
    | Accept                  // publish returned success
    | Reject                  // publish returned an error code
    | Release
    | Mark                    // mark_sent done
    | Raise                   // exception inside the publish block
    | Requeue                 // LPUSH in the except branch
    | Stop                    // crash, cancellation or an escaping exception
    | Restart

  predicate Enabled(s: State, step: Step) {
    match step
    case Enqueue(_) => true
    case DrainOne => s.stage.Draining?
    case Take => s.stage.Idle? && s.outbound != []
    case Accept => s.stage.Taken?
    case Reject => s.stage.Taken?
    case Release => s.stage.Published? && s.inflight != []
    case Mark => s.stage.Released?
    case Raise => s.stage.Taken? || s.stage.Published? || s.stage.Released?
    case Requeue => s.stage.Failed?
    case Stop => !s.stage.Stopped?
    case Restart => s.stage.Stopped?
  }

  function Next(s: State, step: Step): State
    requires Enabled(s, step)
  {
    match step
    case Enqueue(frame) => s.(outbound := [frame] + s.outbound, enqueued := s.enqueued + multiset{frame})
    case DrainOne =>
      if s.inflight == [] then s.(stage := Idle)
      else
        var n := |s.inflight| - 1;
        s.(inflight := s.inflight[..n], outbound := [s.inflight[n]] + s.outbound)
    case Take =>
      var n := |s.outbound| - 1;
      s.(outbound := s.outbound[..n], inflight := [s.outbound[n]] + s.inflight, stage := Taken(s.outbound[n]))
    case Accept => s.(stage := Published(s.stage.frame), accepted := s.accepted + multiset{s.stage.frame})
    case Reject => s.(stage := Idle)
    case Release => s.(inflight := s.inflight[1..], stage := Released(s.stage.frame))
    case Mark => s.(stage := Idle)
    case Raise => s.(stage := Failed(s.stage.frame))
    case Requeue => s.(outbound := [s.stage.frame] + s.outbound, stage := Idle)
    case Stop => s.(stage := Stopped)
    case Restart => s.(stage := Draining)
  }

  predicate ValidRun(s: State, steps: seq<Step>)
    decreases |steps|
  {
    steps == [] || (Enabled(s, steps[0]) && ValidRun(Next(s, steps[0]), steps[1..]))
  }

  function Run(s: State, steps: seq<Step>): State
    requires ValidRun(s, steps)
    decreases |steps|
  {
    if steps == [] then s else Run(Next(s, steps[0]), steps[1..])
  }

  function Everywhere(s: State): multiset<Frame> {
    multiset(s.outbound) + multiset(s.inflight) + s.accepted
  }

  /** Nothing is lost, counting how often each frame was enqueued; and the frame the relay holds is the left
      end of inflight, however many rejected frames lie behind it. */
  ghost predicate Inv(s: State) {
    && s.enqueued <= Everywhere(s)
    && (s.stage.Published? ==> s.enqueued + multiset{s.stage.frame} <= Everywhere(s))
    && (s.stage.Taken? || s.stage.Published? ==> s.inflight != [] && s.inflight[0] == s.stage.frame)
  }

  lemma DrainKeeps(s: State)
    requires Inv(s) && Enabled(s, DrainOne)
    ensures Inv(Next(s, DrainOne))
  {
    if s.inflight != [] {
      var n := |s.inflight| - 1;
      assert s.inflight == s.inflight[..n] + [s.inflight[n]];
    }
  }

  lemma TakeKeeps(s: State)
    requires Inv(s) && Enabled(s, Take)
    ensures Inv(Next(s, Take))
  {
    var n := |s.outbound| - 1;
    assert s.outbound == s.outbound[..n] + [s.outbound[n]];
  }

  lemma ReleaseKeeps(s: State)
    requires Inv(s) && Enabled(s, Release)
    ensures Inv(Next(s, Release))
  {
    assert s.inflight == [s.inflight[0]] + s.inflight[1..];
  }

  lemma StepKeeps(s: State, step: Step)
    requires Inv(s) && Enabled(s, step)
    ensures Inv(Next(s, step))
  {
    match step
    case DrainOne => DrainKeeps(s);
    case Take => TakeKeeps(s);
    case Release => ReleaseKeeps(s);
    case _ =>
  }

  lemma {:induction false} RunKeeps(s: State, steps: seq<Step>)
    requires Inv(s) && ValidRun(s, steps)
    ensures Inv(Run(s, steps))
    decreases |steps|
  {
    hide Inv;
    if steps != [] {
      StepKeeps(s, steps[0]);
      RunKeeps(Next(s, steps[0]), steps[1..]);
    }
  }

  /** At-least-once: with one relay, exceptions and crashes between any two operations and any number of
      restarts, each frame has at least as many copies waiting, in flight or accepted by the broker as it
      was enqueued. */
  lemma NoFrameLost(steps: seq<Step>, frame: Frame)
    requires ValidRun(INITIAL, steps)
    ensures var s := Run(INITIAL, steps);
            s.enqueued[frame] <= multiset(s.outbound)[frame] + multiset(s.inflight)[frame] + s.accepted[frame]
  {
    assert Inv(INITIAL);
    RunKeeps(INITIAL, steps);
  }

  /** The pop after a publish removes exactly the frame that was published. */
  lemma ReleaseRemovesPublished(steps: seq<Step>)
    requires ValidRun(INITIAL, steps) && Run(INITIAL, steps).stage.Published?
    ensures var s := Run(INITIAL, steps);
            && Enabled(s, Release)
            && s.inflight == [s.stage.frame] + Next(s, Release).inflight
  {
    assert Inv(INITIAL);
    RunKeeps(INITIAL, steps);
  }

  /** The frame a step puts into the outbound list: an enqueued, drained or requeued one. */
  function PutIn(s: State, step: Step): seq<Frame>
    requires Enabled(s, step)
  {
    match step
    case Enqueue(frame) => [frame]
    case DrainOne => if s.inflight == [] then [] else [s.inflight[|s.inflight| - 1]]
    case Requeue => [s.stage.frame]
    case _ => []
  }

  /** The frame a step takes for publishing. */
  function TakenBy(s: State, step: Step): seq<Frame>
    requires Enabled(s, step)
  {
    var stage := Next(s, step).stage;
    if step.Take? && stage.Taken? then [stage.frame] else []
  }

  function AllPutIn(s: State, steps: seq<Step>): seq<Frame>
    requires ValidRun(s, steps)
    decreases |steps|
  {
    if steps == [] then [] else PutIn(s, steps[0]) + AllPutIn(Next(s, steps[0]), steps[1..])
  }

  function AllTaken(s: State, steps: seq<Step>): seq<Frame>
    requires ValidRun(s, steps)
    decreases |steps|
  {
    if steps == [] then [] else TakenBy(s, steps[0]) + AllTaken(Next(s, steps[0]), steps[1..])
  }

  /** In read order a take removes the first frame and what comes in comes in last. */
  lemma StepInOrder(s: State, step: Step)
    requires Enabled(s, step)
    ensures TakenBy(s, step) + Reverse(Next(s, step).outbound) == Reverse(s.outbound) + PutIn(s, step)
    ensures step.Take? ==> |TakenBy(s, step)| == 1 && Next(s, step).inflight == TakenBy(s, step) + s.inflight
  {
    if step.Take? {
      var n := |s.outbound| - 1;
      assert s.outbound == s.outbound[..n] + [s.outbound[n]];
      ReverseAppend(s.outbound[..n], [s.outbound[n]]);
      assert Reverse([s.outbound[n]]) == [s.outbound[n]];
    }
  }

  /** First in, first out, over every run with any failures: what has been taken so far, followed by what still waits,
      is what was put in, in the order in which it was put in. */
  lemma {:induction false} FirstInFirstOut(s: State, steps: seq<Step>)
    requires ValidRun(s, steps)
    ensures AllTaken(s, steps) + Reverse(Run(s, steps).outbound) == Reverse(s.outbound) + AllPutIn(s, steps)
    decreases |steps|
  {
    hide Next, Enabled, Reverse, PutIn, TakenBy;
    if steps == [] {
      assert [] + Reverse(s.outbound) == Reverse(s.outbound) + [];
    } else {
      var next, rest := Next(s, steps[0]), steps[1..];
      StepInOrder(s, steps[0]);
      FirstInFirstOut(next, rest);
      Reassociate(TakenBy(s, steps[0]), AllTaken(next, rest), Reverse(Run(next, rest).outbound),
                  Reverse(next.outbound), AllPutIn(next, rest), Reverse(s.outbound), PutIn(s, steps[0]));
    }
  }

  lemma Reassociate(a: seq<Frame>, b: seq<Frame>, c: seq<Frame>, d: seq<Frame>, e: seq<Frame>, f: seq<Frame>,
                    g: seq<Frame>)
    requires a + d == f + g && b + c == d + e
    ensures a + b + c == f + (g + e)
  {
    assert a + b + c == a + (b + c);
    assert a + (d + e) == a + d + e;
    assert f + g + e == f + (g + e);
  }

  /** One frame from enqueueing to marking, and then the rest. */
  function Delivery(frame: Frame, rest: seq<Step>): seq<Step> {
    [Enqueue(frame)] + ([Take] + ([Accept] + ([Release] + ([Mark] + rest))))
  }

  function Deliveries(frames: seq<Frame>): seq<Step> {
    if frames == [] then [] else Delivery(frames[0], Deliveries(frames[1..]))
  }

  lemma DeliversOne(s: State, frame: Frame, rest: seq<Step>)
    requires s.stage.Idle? && s.outbound == [] && s.inflight == []
    requires var after := s.(enqueued := s.enqueued + multiset{frame}, accepted := s.accepted + multiset{frame});
             ValidRun(after, rest)
    ensures var after := s.(enqueued := s.enqueued + multiset{frame}, accepted := s.accepted + multiset{frame});
            ValidRun(s, Delivery(frame, rest)) && Run(s, Delivery(frame, rest)) == Run(after, rest)
  {
    DeliverySteps(s, frame);
    hide Next, Enabled, Run, ValidRun;
    var s1 := Next(s, Enqueue(frame));
    var s2 := Next(s1, Take);
    var s3 := Next(s2, Accept);
    var s4 := Next(s3, Release);
    RunCons(s4, Mark, rest);
    RunCons(s3, Release, [Mark] + rest);
    RunCons(s2, Accept, [Release] + ([Mark] + rest));
    RunCons(s1, Take, [Accept] + ([Release] + ([Mark] + rest)));
    RunCons(s, Enqueue(frame), [Take] + ([Accept] + ([Release] + ([Mark] + rest))));
  }

  lemma DeliverySteps(s: State, frame: Frame)
    requires s.stage.Idle? && s.outbound == [] && s.inflight == []
    ensures var s1 := Next(s, Enqueue(frame));
            && Enabled(s1, Take)
            && var s2 := Next(s1, Take);
            && Enabled(s2, Accept)
            && var s3 := Next(s2, Accept);
            && Enabled(s3, Release)
            && var s4 := Next(s3, Release);
            && Enabled(s4, Mark)
            && Next(s4, Mark) == s.(enqueued := s.enqueued + multiset{frame}, accepted := s.accepted + multiset{frame})
    ensures Enabled(s, Enqueue(frame))
  {
    assert [frame] + s.outbound == [frame] && [frame][..0] == [];
    assert [frame] + s.inflight == [frame] && [frame][1..] == [];
  }

  lemma RunCons(s: State, step: Step, steps: seq<Step>)
    requires Enabled(s, step) && ValidRun(Next(s, step), steps)
    ensures ValidRun(s, [step] + steps) && Run(s, [step] + steps) == Run(Next(s, step), steps)
  {
  }

  /** Without failures every frame goes all the way: it is accepted once and leaves both lists. */
  lemma {:induction false} DeliversAll(s: State, frames: seq<Frame>)
    requires s.stage.Idle? && s.outbound == [] && s.inflight == []
    ensures ValidRun(s, Deliveries(frames))
    ensures Run(s, Deliveries(frames))
         == s.(enqueued := s.enqueued + multiset(frames), accepted := s.accepted + multiset(frames))
    decreases |frames|
  {
    if frames != [] {
      var f := frames[0];
      var after := s.(enqueued := s.enqueued + multiset{f}, accepted := s.accepted + multiset{f});
      DeliversAll(after, frames[1..]);
      DeliversOne(s, f, Deliveries(frames[1..]));
      assert frames == [f] + frames[1..];
      assert s.enqueued + multiset{f} + multiset(frames[1..]) == s.enqueued + multiset(frames);
      assert s.accepted + multiset{f} + multiset(frames[1..]) == s.accepted + multiset(frames);
    } else {
      assert s.enqueued + multiset(frames) == s.enqueued && s.accepted + multiset(frames) == s.accepted;
    }
  }

  /** Steps a running relay takes alone while it drains. */
  function DrainSteps(n: nat): (steps: seq<Step>)
    ensures |steps| == n + 1
  {
    if n == 0 then [DrainOne] else [DrainOne] + DrainSteps(n - 1)
  }

  /** After a restart the drain ends, and puts the leftovers behind the waiting frames, oldest first. */
  lemma {:induction false} DrainTerminates(s: State)
    requires s.stage.Draining?
    ensures var steps := DrainSteps(|s.inflight|);
            && ValidRun(s, steps)
            && Run(s, steps) == s.(stage := Idle, inflight := [], outbound := s.inflight + s.outbound)
            && Reverse(s.inflight + s.outbound) == Reverse(s.outbound) + Reverse(s.inflight)
    decreases |s.inflight|
  {
    ReverseAppend(s.inflight, s.outbound);
    hide Reverse;
    if s.inflight == [] {
      assert s.inflight + s.outbound == s.outbound;
    } else {
      var n := |s.inflight| - 1;
      var s' := Next(s, DrainOne);
      DrainTerminates(s');
      assert s'.inflight + s'.outbound == s.inflight + s.outbound;
      hide Next;
      assert DrainSteps(n + 1)[0] == DrainOne && DrainSteps(n + 1)[1..] == DrainSteps(n);
    }
  }
}
