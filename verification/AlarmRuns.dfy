/** What the alarm handling guarantees over every sequence of frames mixed with operator actions. */
module AlarmRuns {
  import opened AlarmPipeline
  import opened Common

  /** A frame and the operator actions taken before the next one. */
  datatype Round = Round(frame: Frame, actions: seq<Operator>)

  /** `monitors[k]` is the state before round `k`, `mids[k]` the state between its frame and its actions. */
  datatype Run = Run(tank: Tank, rounds: seq<Round>, monitors: seq<Monitor>, mids: seq<Monitor>,
                     fired: seq<seq<AlarmType>>)

  function Operated(m: Monitor, actions: seq<Operator>): Monitor {
    if actions == [] then m
    else OperatorStep(Operated(m, actions[..|actions| - 1]), actions[|actions| - 1])
  }

  predicate Shaped(run: Run) {
    |run.monitors| == |run.rounds| + 1 && |run.mids| == |run.fired| == |run.rounds|
  }

  ghost predicate FrameOf(run: Run, k: nat)
    requires Shaped(run) && k < |run.rounds|
  {
    FrameStep(run.tank, run.monitors[k], run.rounds[k].frame, run.mids[k], run.fired[k])
  }

  ghost predicate ActionsOf(run: Run, k: nat)
    requires Shaped(run) && k < |run.rounds|
  {
    run.monitors[k + 1] == Operated(run.mids[k], run.rounds[k].actions)
  }

  ghost predicate IsRun(run: Run) {
    && Shaped(run)
    && run.monitors[0] == Monitor(None, {}, map[])
    && (forall k: nat | k < |run.rounds| :: FrameOf(run, k))
    && (forall k: nat | k < |run.rounds| :: ActionsOf(run, k))
  }

  function SmoothedAt(run: Run, k: nat): real
    requires Shaped(run) && k < |run.rounds|
  {
    Smooth(run.monitors[k].ema, run.rounds[k].frame.raw)
  }

  function ReadingAt(run: Run, k: nat): Reading
    requires Shaped(run) && k < |run.rounds|
  {
    ReadingOf(run.tank, run.monitors[k].ema, run.rounds[k].frame)
  }

  predicate RaisedAt(run: Run, t: AlarmType, k: nat)
    requires Shaped(run) && k < |run.rounds|
  {
    Raised(run.tank, t, ReadingAt(run, k))
  }

  predicate HoldsAt(run: Run, t: AlarmType, k: nat)
    requires Shaped(run) && k < |run.rounds|
  {
    Holds(run.tank, t, ReadingAt(run, k))
  }

  /** Is the value where the alarm is raised and let go by the same frame? The hysteresis widens the clear region
      of these three types into their raise region. */
  predicate InBand(tank: Tank, t: AlarmType, r: Reading) {
    match t
    case HighLevel => tank.high.Some? && tank.high.value <= r.level < tank.high.value + 0.05
    case LowVolume =>
      tank.lowVolume.Some? && tank.lowVolume.value - 25.0 < r.volume <= tank.lowVolume.value
    case HighVolume =>
      tank.highVolume.Some? && tank.highVolume.value <= r.volume < tank.highVolume.value + 25.0
    case _ => false
  }

  predicate InBandAt(run: Run, t: AlarmType, k: nat)
    requires Shaped(run) && k < |run.rounds|
  {
    InBand(run.tank, t, ReadingAt(run, k))
  }

  /** Only inside the band is a raised alarm not held; outside both regions agree. */
  lemma HoldsIffOutsideBand(tank: Tank, t: AlarmType, r: Reading)
    ensures Holds(tank, t, r) <==> Raised(tank, t, r) && !InBand(tank, t, r)
    ensures InBand(tank, t, r) ==> Raised(tank, t, r)
  {
  }

  // ---------------------------------------------------------------- the open-set

  lemma {:induction false} ActionsKeepSignals(m: Monitor, actions: seq<Operator>)
    ensures Operated(m, actions).ema == m.ema && Operated(m, actions).open == m.open
  {
    if actions != [] {
      ActionsKeepSignals(m, actions[..|actions| - 1]);
    }
  }

  /** A reading keeps or sets a key exactly when it holds the alarm, given that only watched types have keys. */
  lemma KeyStep(tank: Tank, t: AlarmType, r: Reading, wasOpen: bool)
    requires wasOpen ==> Watched(tank, t)
    ensures (wasOpen || Raised(tank, t, r)) && !Cleared(tank, t, r) <==> Holds(tank, t, r)
    ensures Holds(tank, t, r) ==> Watched(tank, t)
  {
  }

  predicate Watched(tank: Tank, t: AlarmType) {
    t == SensorFault || Threshold(tank, t).Some?
  }

  /** A key is in the open-set exactly when the last frame holds its alarm, whatever the operators did. */
  lemma {:induction false} KeyIffHeld(run: Run, t: AlarmType, k: nat)
    requires IsRun(run) && k <= |run.rounds|
    ensures t in run.monitors[k].open <==> k > 0 && HoldsAt(run, t, k - 1)
    ensures t in run.monitors[k].open ==> Watched(run.tank, t)
  {
    hide Raised, Cleared, Holds, Threshold, ReadingOf, ResolvesIf, Operated;
    if k > 0 {
      KeyIffHeld(run, t, k - 1);
      assert FrameOf(run, k - 1) && ActionsOf(run, k - 1);
      ActionsKeepSignals(run.mids[k - 1], run.rounds[k - 1].actions);
      KeyStep(run.tank, t, ReadingAt(run, k - 1), t in run.monitors[k - 1].open);
    }
  }

  /** A frame fires an alarm exactly when it raises the condition and the frame before it did not hold it. */
  lemma FiresIff(run: Run, t: AlarmType, k: nat)
    requires IsRun(run) && k < |run.rounds|
    ensures t in run.fired[k] <==> RaisedAt(run, t, k) && !(k > 0 && HoldsAt(run, t, k - 1))
  {
    hide Raised, Cleared, ReadingOf, ResolvesIf;
    assert FrameOf(run, k);
    KeyIffHeld(run, t, k);
  }

  // ---------------------------------------------------------------- counting alarms

  /** Alarms of one type fired in the first `n` rounds. */
  function Alarms(run: Run, t: AlarmType, n: nat): nat
    requires Shaped(run) && n <= |run.rounds|
  {
    if n == 0 then 0 else Alarms(run, t, n - 1) + if t in run.fired[n - 1] then 1 else 0
  }

  /** Does round `k` start a maximal run of violating frames? */
  predicate StartsRun(run: Run, t: AlarmType, k: nat)
    requires Shaped(run) && k < |run.rounds|
  {
    RaisedAt(run, t, k) && !(k > 0 && RaisedAt(run, t, k - 1))
  }

  function MaximalRuns(run: Run, t: AlarmType, n: nat): nat
    requires Shaped(run) && n <= |run.rounds|
  {
    if n == 0 then 0 else MaximalRuns(run, t, n - 1) + if StartsRun(run, t, n - 1) then 1 else 0
  }

  /** Does round `k` continue a run whose previous frame lay in the band? */
  predicate Repeats(run: Run, t: AlarmType, k: nat)
    requires Shaped(run) && k < |run.rounds|
  {
    RaisedAt(run, t, k) && k > 0 && InBandAt(run, t, k - 1)
  }

  function RepeatCount(run: Run, t: AlarmType, n: nat): nat
    requires Shaped(run) && n <= |run.rounds|
  {
    if n == 0 then 0 else RepeatCount(run, t, n - 1) + if Repeats(run, t, n - 1) then 1 else 0
  }

  /** For every type: one alarm per maximal run of violating frames, plus one for every frame that follows a frame
      in the band. */
  lemma {:induction false} AlarmsCounted(run: Run, t: AlarmType, n: nat)
    requires IsRun(run) && n <= |run.rounds|
    ensures Alarms(run, t, n) == MaximalRuns(run, t, n) + RepeatCount(run, t, n)
  {
    hide FrameOf, ActionsOf, Raised, Holds, ReadingOf, InBand;
    if n > 0 {
      AlarmsCounted(run, t, n - 1);
      FiresIff(run, t, n - 1);
      if n > 1 {
        HoldsIffOutsideBand(run.tank, t, ReadingAt(run, n - 2));
      }
    }
  }

  lemma {:induction false} NoRepeatsIff(run: Run, t: AlarmType, n: nat)
    requires Shaped(run) && n <= |run.rounds|
    ensures RepeatCount(run, t, n) == 0 <==> forall k: nat | k < n :: !Repeats(run, t, k)
  {
    if n > 0 {
      NoRepeatsIff(run, t, n - 1);
    }
  }

  /** The promise of exactly one alarm per maximal run holds if and only if no violating frame follows a frame in
      the band. */
  lemma OneAlarmPerRunIff(run: Run, t: AlarmType, n: nat)
    requires IsRun(run) && n <= |run.rounds|
    ensures Alarms(run, t, n) == MaximalRuns(run, t, n)
       <==> forall k: nat | k < n :: !Repeats(run, t, k)
  {
    AlarmsCounted(run, t, n);
    NoRepeatsIff(run, t, n);
  }

  predicate Unbanded(t: AlarmType) {
    t == CriticalLevel || t == LowLevel || t == SensorFault
  }

  /** Low-level, critical-level and sensor-fault alarms fire exactly once per maximal run of violating frames. */
  lemma OneAlarmPerRun(run: Run, t: AlarmType, n: nat)
    requires IsRun(run) && n <= |run.rounds| && Unbanded(t)
    ensures Alarms(run, t, n) == MaximalRuns(run, t, n)
  {
    OneAlarmPerRunIff(run, t, n);
  }

  // ---------------------------------------------------------------- alarm rows

  function RowsAt(run: Run, t: AlarmType, k: nat): seq<Row>
    requires Shaped(run) && k <= |run.rounds|
  {
    RowsOf(run.monitors[k].rows, t)
  }

  /** Same rows at the same places, and what is resolved stays as it is. */
  ghost predicate Carries(before: seq<Row>, after: seq<Row>) {
    && |before| <= |after|
    && forall i :: 0 <= i < |before| && !Live(before[i]) ==> after[i] == before[i]
  }

  lemma {:induction false} ActionsCarry(m: Monitor, actions: seq<Operator>, t: AlarmType)
    ensures |RowsOf(Operated(m, actions).rows, t)| == |RowsOf(m.rows, t)|
    ensures Carries(RowsOf(m.rows, t), RowsOf(Operated(m, actions).rows, t))
    ensures forall i :: 0 <= i < |RowsOf(m.rows, t)| && Live(RowsOf(Operated(m, actions).rows, t)[i])
              ==> Live(RowsOf(m.rows, t)[i])
  {
    if actions != [] {
      ActionsCarry(m, actions[..|actions| - 1], t);
    }
  }

  lemma FrameCarries(run: Run, t: AlarmType, k: nat)
    requires IsRun(run) && k < |run.rounds|
    ensures Carries(RowsAt(run, t, k), RowsOf(run.mids[k].rows, t))
    ensures |RowsOf(run.mids[k].rows, t)| == |RowsAt(run, t, k)| + if t in run.fired[k] then 1 else 0
  {
    hide Raised, Cleared, ReadingOf, Operated;
    assert FrameOf(run, k);
  }

  lemma RoundCarries(run: Run, t: AlarmType, k: nat)
    requires IsRun(run) && k < |run.rounds|
    ensures Carries(RowsAt(run, t, k), RowsAt(run, t, k + 1))
    ensures |RowsAt(run, t, k + 1)| == |RowsAt(run, t, k)| + if t in run.fired[k] then 1 else 0
  {
    hide FrameOf, Operated;
    assert ActionsOf(run, k);
    FrameCarries(run, t, k);
    ActionsCarry(run.mids[k], run.rounds[k].actions, t);
  }

  /** Once resolved, a row is never changed again, neither by frames nor by operators. */
  lemma {:induction false} ResolvedForGood(run: Run, t: AlarmType, k: nat, n: nat, i: nat)
    requires IsRun(run) && k <= n <= |run.rounds|
    requires i < |RowsAt(run, t, k)| && RowsAt(run, t, k)[i].state == Resolved
    ensures i < |RowsAt(run, t, n)| && RowsAt(run, t, n)[i] == RowsAt(run, t, k)[i]
    decreases n
  {
    hide FrameOf, ActionsOf;
    if k < n {
      ResolvedForGood(run, t, k, n - 1, i);
      RoundCarries(run, t, n - 1);
    }
  }

  /** Every fired alarm is one row, and no row appears or disappears otherwise. */
  lemma {:induction false} OneRowPerAlarm(run: Run, t: AlarmType, n: nat)
    requires IsRun(run) && n <= |run.rounds|
    ensures |RowsAt(run, t, n)| == Alarms(run, t, n)
  {
    if n > 0 {
      OneRowPerAlarm(run, t, n - 1);
      RoundCarries(run, t, n - 1);
    }
  }

  /** At most one row is open, and an open row has its key in the open-set. */
  ghost predicate Tracked(m: Monitor, t: AlarmType) {
    var rows := RowsOf(m.rows, t);
    && (forall i, j :: 0 <= i < |rows| && 0 <= j < |rows| && Live(rows[i]) && Live(rows[j]) ==> i == j)
    && (AnyLive(rows) ==> t in m.open)
  }

  /** A frame breaks the tracking of open rows exactly when its value lies in the band and the frame before it did
      not hold the alarm. */
  lemma FrameTracksIff(run: Run, t: AlarmType, k: nat)
    requires IsRun(run) && k < |run.rounds| && Tracked(run.monitors[k], t)
    ensures Tracked(run.mids[k], t) <==> !(InBandAt(run, t, k) && !(k > 0 && HoldsAt(run, t, k - 1)))
  {
    hide FrameOf, ActionsOf, Tracked;
    FiringInBandUntracks(run, t, k);
    FiresIff(run, t, k);
    HoldsIffOutsideBand(run.tank, t, ReadingAt(run, k));
  }

  lemma FiringInBandUntracks(run: Run, t: AlarmType, k: nat)
    requires IsRun(run) && k < |run.rounds| && Tracked(run.monitors[k], t)
    ensures Tracked(run.mids[k], t) <==> !(InBandAt(run, t, k) && t in run.fired[k])
  {
    hide Raised, Cleared, Holds, ReadingOf, Operated, InBand, ResolvesIf, AnyLive;
    var reading := ReadingAt(run, k);
    var cleared := Cleared(run.tank, t, reading);
    HoldsIffOutsideBand(run.tank, t, reading);
    if t in run.fired[k] {
      var mid := FiringFrame(run, t, k);
      FiredFrameTracksIff(run.monitors[k], run.mids[k], t, cleared, mid, run.rounds[k].frame.at);
      HoldsIsNotCleared(run.tank, t, reading);
    } else {
      QuietFrame(run, t, k);
      QuietFrameTracks(run.monitors[k], run.mids[k], t, cleared);
    }
  }

  lemma HoldsIsNotCleared(tank: Tank, t: AlarmType, r: Reading)
    ensures Holds(tank, t, r) <==> Raised(tank, t, r) && !Cleared(tank, t, r)
  {
  }

  lemma FiringFrame(run: Run, t: AlarmType, k: nat) returns (mid: seq<Row>)
    requires IsRun(run) && k < |run.rounds| && t in run.fired[k]
    ensures var cleared := Cleared(run.tank, t, ReadingAt(run, k));
            && RaisedAt(run, t, k) && t !in run.monitors[k].open
            && ResolvesIf(cleared, RowsAt(run, t, k), mid)
            && RowsOf(run.mids[k].rows, t) == mid + [Row(Active, run.rounds[k].frame.at)]
            && (t in run.mids[k].open <==> !cleared)
  {
    hide Raised, Cleared, ReadingOf, Operated, ResolvesIf;
    assert FrameOf(run, k);
    var rows, after, at := RowsAt(run, t, k), RowsOf(run.mids[k].rows, t), run.rounds[k].frame.at;
    mid :| ResolvesIf(Cleared(run.tank, t, ReadingAt(run, k)), rows, mid) && after == mid + Inserted(true, at);
  }

  /** A new row keeps the tracking exactly when its key survives the frame. */
  lemma FiredFrameTracksIff(m: Monitor, after: Monitor, t: AlarmType, cleared: bool, mid: seq<Row>, at: int)
    requires Tracked(m, t) && t !in m.open && ResolvesIf(cleared, RowsOf(m.rows, t), mid)
    requires RowsOf(after.rows, t) == mid + [Row(Active, at)]
    requires t in after.open <==> !cleared
    ensures Tracked(after, t) <==> !cleared
  {
    assert mid == RowsOf(m.rows, t);
    var rows := RowsOf(after.rows, t);
    assert Live(rows[|mid|]);
    assert forall i :: 0 <= i < |mid| ==> !Live(rows[i]);
  }

  /** Without a new alarm, either nothing happens to the rows or the one open row goes with its key. */
  lemma QuietFrameTracks(m: Monitor, after: Monitor, t: AlarmType, cleared: bool)
    requires Tracked(m, t) && ResolvesIf(t in m.open && cleared, RowsOf(m.rows, t), RowsOf(after.rows, t))
    requires t in after.open <==> t in m.open && !cleared
    ensures Tracked(after, t)
  {
  }

  lemma QuietFrame(run: Run, t: AlarmType, k: nat)
    requires IsRun(run) && k < |run.rounds| && t !in run.fired[k]
    ensures var cleared := Cleared(run.tank, t, ReadingAt(run, k));
            && ResolvesIf(t in run.monitors[k].open && cleared, RowsAt(run, t, k), RowsOf(run.mids[k].rows, t))
            && (t in run.mids[k].open <==> t in run.monitors[k].open && !cleared)
  {
    hide Raised, Cleared, ReadingOf, Operated, ResolvesLatest;
    assert FrameOf(run, k);
    var rows, after := RowsAt(run, t, k), RowsOf(run.mids[k].rows, t);
    assert forall mid: seq<Row> :: mid + Inserted(false, run.rounds[k].frame.at) == mid;
  }

  /** As long as every frame in the band follows one that holds the alarm, at most one row is open and it has its
      key. */
  lemma {:induction false} OpenRowsTracked(run: Run, t: AlarmType, n: nat)
    requires IsRun(run) && n <= |run.rounds|
    requires forall k: nat | k < n :: InBandAt(run, t, k) ==> k > 0 && HoldsAt(run, t, k - 1)
    ensures Tracked(run.monitors[n], t)
  {
    hide FrameOf, InBand, ReadingOf, Operated;
    if n > 0 {
      OpenRowsTracked(run, t, n - 1);
      FrameTracksIff(run, t, n - 1);
      assert ActionsOf(run, n - 1);
      ActionsKeepSignals(run.mids[n - 1], run.rounds[n - 1].actions);
      ActionsCarry(run.mids[n - 1], run.rounds[n - 1].actions, t);
    }
  }

  /** For low-level, critical-level and sensor-fault alarms that is every run. */
  lemma AtMostOneOpenRow(run: Run, t: AlarmType, n: nat)
    requires IsRun(run) && n <= |run.rounds| && Unbanded(t)
    ensures Tracked(run.monitors[n], t)
  {
    OpenRowsTracked(run, t, n);
  }

  // ---------------------------------------------------------------- smoothing and over-range

  /** Is the smoothing value absent before round `k`: at the start, or because round `k - 1` was over range? */
  lemma {:induction false} EmaAfter(run: Run, k: nat)
    requires IsRun(run) && k <= |run.rounds|
    ensures run.monitors[k].ema ==
            if k == 0 || ReadingAt(run, k - 1).overRange then None else Some(SmoothedAt(run, k - 1))
  {
    hide LaneStep, ReadingOf, Smooth, Operated;
    if k > 0 {
      assert FrameOf(run, k - 1) && ActionsOf(run, k - 1);
      ActionsKeepSignals(run.mids[k - 1], run.rounds[k - 1].actions);
    }
  }

  lemma SmoothBetween(value: real, sample: real, lo: real, hi: real)
    requires lo <= value <= hi && lo <= sample <= hi
    ensures lo <= Smooth(Some(value), sample) <= hi
  {
  }

  ghost predicate RawBetween(run: Run, i: nat, k: nat, lo: real, hi: real)
    requires k < |run.rounds|
  {
    forall j: nat | i <= j <= k :: lo <= run.rounds[j].frame.raw <= hi
  }

  /** The smoothed level lies between the least and the greatest raw level since the last reset. */
  lemma {:induction false} SmoothedBetween(run: Run, i: nat, k: nat, lo: real, hi: real)
    requires IsRun(run) && i <= k < |run.rounds| && run.monitors[i].ema == None
    requires RawBetween(run, i, k, lo, hi)
    requires forall j: nat | i <= j < k :: !ReadingAt(run, j).overRange
    ensures lo <= SmoothedAt(run, k) <= hi
    decreases k
  {
    hide FrameOf, ActionsOf, ReadingOf;
    if i < k {
      SmoothedBetween(run, i, k - 1, lo, hi);
      EmaAfter(run, k);
      SmoothBetween(SmoothedAt(run, k - 1), run.rounds[k].frame.raw, lo, hi);
    }
  }

  lemma {:induction false} LowestRaw(run: Run, i: nat, k: nat) returns (lo: real)
    requires i <= k < |run.rounds|
    ensures forall j: nat | i <= j <= k :: lo <= run.rounds[j].frame.raw
    decreases k
  {
    lo := run.rounds[k].frame.raw;
    if i < k {
      var below := LowestRaw(run, i, k - 1);
      lo := if below < lo then below else lo;
    }
  }

  /** No frame is over range as long as every raw level since the last reset is in range. */
  lemma {:induction false} InRangeRawsNoFault(run: Run, i: nat, k: nat)
    requires IsRun(run) && i <= k < |run.rounds| && run.monitors[i].ema == None
    requires forall j: nat | i <= j <= k :: !OverRange(run.tank, run.rounds[j].frame.raw)
    ensures !ReadingAt(run, k).overRange
    decreases k
  {
    hide FrameOf, ActionsOf, Smooth;
    forall j: nat | i <= j < k
      ensures !ReadingAt(run, j).overRange
    {
      InRangeRawsNoFault(run, i, j);
    }
    var height := Height(run.tank);
    if height.Some? && height.value > 0.0 {
      var lo := LowestRaw(run, i, k);
      SmoothedBetween(run, i, k, lo, height.value * OVER_RANGE_TOLERANCE);
    }
  }

  /** After an over-range frame the next one is judged on its raw level alone: the open fault stays exactly when
      that level is over range again, and no fault row is left open when it is not. */
  lemma FaultClearsAtFirstGoodFrame(run: Run, k: nat)
    requires IsRun(run) && k + 1 < |run.rounds| && ReadingAt(run, k).overRange
    ensures SmoothedAt(run, k + 1) == run.rounds[k + 1].frame.raw
    ensures SensorFault in run.monitors[k + 1].open
    ensures SensorFault in run.monitors[k + 2].open <==> OverRange(run.tank, run.rounds[k + 1].frame.raw)
    ensures !OverRange(run.tank, run.rounds[k + 1].frame.raw) ==> !AnyLive(RowsAt(run, SensorFault, k + 2))
  {
    hide FrameOf, ActionsOf;
    EmaAfter(run, k + 1);
    KeyIffHeld(run, SensorFault, k + 1);
    KeyIffHeld(run, SensorFault, k + 2);
    AtMostOneOpenRow(run, SensorFault, k + 2);
  }

  // ---------------------------------------------------------------- the alarm storm

  /** A tank with nothing but a high-level threshold. */
  function HighOnly(threshold: real): Tank {
    Tank(None, None, Some(threshold), None, None, None, 0.0, false, 0.0)
  }

  function StormMonitor(raw: real, k: nat): Monitor {
    if k == 0 then Monitor(None, {}, map[])
    else Monitor(Some(raw), {}, map[HighLevel := seq(k, i => Row(if i == k - 1 then Active else Resolved, 0))])
  }

  /** A steady level on the high-level line raises a new alarm with every frame, each one closing the row before
      it, and the last row stays open without its key: the contrary of what the hysteresis is meant to do. */
  lemma SteadyLevelStorms(threshold: real, raw: real, n: nat) returns (run: Run)
    requires threshold <= raw < threshold + CLEAR_HYSTERESIS_METERS
    ensures IsRun(run) && |run.rounds| == n && run.tank == HighOnly(threshold)
    ensures forall k :: 0 <= k < n ==> run.rounds[k].frame.raw == raw && HighLevel in run.fired[k]
    ensures Alarms(run, HighLevel, n) == |RowsAt(run, HighLevel, n)| == n
    ensures n > 0 ==> !Tracked(run.monitors[n], HighLevel)
  {
    hide StormMonitor, FrameStep;
    run := Run(HighOnly(threshold), seq(n, _ => Round(Frame(raw, 0.0, 0), [])),
               seq(n + 1, k requires 0 <= k => StormMonitor(raw, k)),
               seq(n, k requires 0 <= k => StormMonitor(raw, k + 1)), seq(n, _ => [HighLevel]));
    forall k: nat | k < n
      ensures FrameOf(run, k)
    {
      StormFrame(threshold, raw, k);
    }
    assert forall k: nat | k < n :: ActionsOf(run, k);
    StormRows(raw, 0);
    StormRows(raw, n);
    OneRowPerAlarm(run, HighLevel, n);
  }

  lemma StormRows(raw: real, k: nat)
    ensures |RowsOf(StormMonitor(raw, k).rows, HighLevel)| == k
    ensures k > 0 ==> !Tracked(StormMonitor(raw, k), HighLevel)
    ensures StormMonitor(raw, 0) == Monitor(None, {}, map[])
  {
    if k > 0 {
      assert Live(RowsOf(StormMonitor(raw, k).rows, HighLevel)[k - 1]);
    }
  }

  lemma StormFrame(threshold: real, raw: real, k: nat)
    requires threshold <= raw < threshold + CLEAR_HYSTERESIS_METERS
    ensures FrameStep(HighOnly(threshold), StormMonitor(raw, k), Frame(raw, 0.0, 0), StormMonitor(raw, k + 1),
                      [HighLevel])
  {
    var tank, m, after := HighOnly(threshold), StormMonitor(raw, k), StormMonitor(raw, k + 1);
    var reading := ReadingOf(tank, m.ema, Frame(raw, 0.0, 0));
    assert reading == Reading(raw, 0.0, false);
    var rows, mid := RowsOf(m.rows, HighLevel), seq(k, _ => Row(Resolved, 0));
    assert RowsOf(after.rows, HighLevel) == mid + Inserted(true, 0);
    assert ResolvesLatest(rows, mid) by {
      if k > 0 {
        assert LatestLive(rows, k - 1) && mid == rows[k - 1 := rows[k - 1].(state := Resolved)];
      } else {
        assert mid == rows;
      }
    }
    forall t: AlarmType
      ensures LaneStep(t in m.open, Raised(tank, t, reading), Cleared(tank, t, reading), 0,
                       RowsOf(m.rows, t), t in after.open, RowsOf(after.rows, t), t in [HighLevel])
    {
      if t != HighLevel {
        assert RowsOf(after.rows, t) == RowsOf(m.rows, t) == RowsOf(m.rows, t) + Inserted(false, 0);
        assert ResolvesIf(false, RowsOf(m.rows, t), RowsOf(m.rows, t));
      }
    }
  }
}
