/** Which readings raise and clear which alarm, in terms of the tank's columns, and what frames and operators leave in
    the alarm rows.
 */
module AlarmConditions {
  import opened Common
  import opened AlarmPipeline
  import opened AlarmRuns

  // ---------------------------------------------------------------- thresholds

  /** The columns and comparisons behind every alarm. */
  lemma RaisedInNumbers(tank: Tank, r: Reading)
    ensures Raised(tank, CriticalLevel, r) <==> tank.critical.Some? && r.level <= tank.critical.value
    ensures Raised(tank, LowLevel, r) <==> tank.low.Some? && r.level <= tank.low.value
    ensures Raised(tank, HighLevel, r) <==> tank.high.Some? && r.level >= tank.high.value
    ensures Raised(tank, LowVolume, r) <==> tank.lowVolume.Some? && r.volume <= tank.lowVolume.value
    ensures Raised(tank, HighVolume, r) <==> tank.highVolume.Some? && r.volume >= tank.highVolume.value
    ensures Raised(tank, SensorFault, r) <==> r.overRange
  {
  }

  const RULES := [CriticalLevel, LowLevel, HighLevel, LowVolume, HighVolume, SensorFault]

  /** Alarms in the order of the rules are a selection from their list, in its order and without repeats. */
  lemma RuleOrderIs(types: seq<AlarmType>)
    ensures InRuleOrder(types)
       <==> exists at: seq<nat> ::
              Increasing(at, |RULES|) && |at| == |types| && forall k :: 0 <= k < |at| ==> types[k] == RULES[at[k]]
  {
    assert forall t: AlarmType :: RULES[Rank(t)] == t;
    assert forall i: nat | i < |RULES| :: Rank(RULES[i]) == i;
    if InRuleOrder(types) {
      var at: seq<nat> := seq(|types|, k requires 0 <= k < |types| => Rank(types[k]));
      assert Increasing(at, |RULES|) && forall k :: 0 <= k < |at| ==> types[k] == RULES[at[k]];
    }
  }

  /** A tank that empties further never loses a low alarm and one that fills further never loses a high one. */
  lemma RaisedAcrossLevels(tank: Tank, a: Reading, b: Reading)
    requires a.level <= b.level && a.volume <= b.volume
    ensures Raised(tank, CriticalLevel, b) ==> Raised(tank, CriticalLevel, a)
    ensures Raised(tank, LowLevel, b) ==> Raised(tank, LowLevel, a)
    ensures Raised(tank, LowVolume, b) ==> Raised(tank, LowVolume, a)
    ensures Raised(tank, HighLevel, a) ==> Raised(tank, HighLevel, b)
    ensures Raised(tank, HighVolume, a) ==> Raised(tank, HighVolume, b)
  {
    RaisedInNumbers(tank, a);
    RaisedInNumbers(tank, b);
    hide Raised;
  }

  /** With both thresholds set, every critical reading is a low one if and only if the critical threshold is not above
      the low one. */
  lemma CriticalImpliesLowIff(tank: Tank)
    requires tank.critical.Some? && tank.low.Some?
    ensures (forall r: Reading :: Raised(tank, CriticalLevel, r) ==> Raised(tank, LowLevel, r))
       <==> tank.critical.value <= tank.low.value
  {
    forall r: Reading
      ensures Raised(tank, CriticalLevel, r) <==> r.level <= tank.critical.value
      ensures Raised(tank, LowLevel, r) <==> r.level <= tank.low.value
    {
      RaisedInNumbers(tank, r);
    }
    assert Reading(tank.critical.value, 0.0, false).level == tank.critical.value;
    hide Raised;
    var r := Reading(tank.critical.value, 0.0, false);
    assert Raised(tank, CriticalLevel, r) && (Raised(tank, LowLevel, r) <==> tank.critical.value <= tank.low.value);
  }

  /** The level at which a frame counts as over range: 5 % above the tank's height, or above the diameter of a vertical
      tank without one. */
  lemma OverRangeIff(tank: Tank, level: real)
    ensures OverRange(tank, level)
       <==> if tank.tankHeight.Some? && tank.tankHeight.value != 0.0
            then tank.tankHeight.value > 0.0 && 20.0 * level > 21.0 * tank.tankHeight.value
            else tank.vertical && tank.diameter > 0.0 && 20.0 * level > 21.0 * tank.diameter
  {
  }

  /** What a frame makes of its level: over range it is reported as such, at the rounded height of the tank, and raises
      a sensor fault; otherwise the smoothed level is believed. */
  lemma ReadingExact(run: Run, k: nat)
    requires IsRun(run) && k < |run.rounds|
    ensures var r, over := ReadingAt(run, k), OverRange(run.tank, SmoothedAt(run, k));
            && (r.overRange <==> over) && (RaisedAt(run, SensorFault, k) <==> over)
            && r.level == (if over then run.tank.roundedHeight else SmoothedAt(run, k))
            && r.volume == run.rounds[k].frame.volume
  {
    hide OverRange, Smooth;
  }

  // ---------------------------------------------------------------- smoothing

  function Power(a: real, n: nat): real {
    if n == 0 then 1.0 else a * Power(a, n - 1)
  }

  /** The distance of the smoothed level from a raw level that has stayed the same for `n` frames shrinks to nine
      elevenths with each of them. */
  lemma {:induction false} StepResponse(run: Run, k: nat, n: nat, raw: real)
    requires IsRun(run) && 0 < k && k + n < |run.rounds|
    requires forall j: nat | k <= j <= k + n :: !ReadingAt(run, j).overRange
    requires forall j: nat | k < j <= k + n :: run.rounds[j].frame.raw == raw
    ensures SmoothedAt(run, k + n) - raw == Power(9.0 / 11.0, n) * (SmoothedAt(run, k) - raw)
  {
    hide FrameOf, ActionsOf, ReadingOf;
    if n > 0 {
      StepResponse(run, k, n - 1, raw);
      EmaAfter(run, k + n);
      Shrinks(SmoothedAt(run, k + n - 1), raw, Power(9.0 / 11.0, n - 1), SmoothedAt(run, k) - raw);
    }
  }

  lemma Shrinks(value: real, raw: real, p: real, d: real)
    requires value - raw == p * d
    ensures Smooth(Some(value), raw) - raw == (9.0 / 11.0) * p * d
  {
    assert (9.0 / 11.0) * p * d == (9.0 / 11.0) * (p * d);
  }

  // ---------------------------------------------------------------- rows

  /** A fired alarm is an active row with the time of its frame, behind the rows that were there. */
  lemma FiredRow(run: Run, t: AlarmType, k: nat)
    requires IsRun(run) && k < |run.rounds| && t in run.fired[k]
    ensures var rows := RowsOf(run.mids[k].rows, t);
            rows != [] && rows[|rows| - 1] == Row(Active, run.rounds[k].frame.at)
  {
    hide Raised, Cleared, ReadingOf, Operated;
    assert FrameOf(run, k);
  }


  /** What any sequence of operator actions makes of a row: it is resolved if and only if it was or an action resolves
      it; it is active if and only if it was and no action touches it; and an acknowledgement does nothing else. */
  lemma {:induction false} ActionsOnRow(m: Monitor, actions: seq<Operator>, t: AlarmType, i: nat)
    requires i < |RowsOf(m.rows, t)|
    ensures i < |RowsOf(Operated(m, actions).rows, t)|
    ensures var row, after := RowsOf(m.rows, t)[i], RowsOf(Operated(m, actions).rows, t)[i];
            && after.timestamp == row.timestamp
            && (after.state == Resolved <==> row.state == Resolved || ResolveRow(t, i) in actions)
            && (after.state == Active <==>
                  row.state == Active && ResolveRow(t, i) !in actions && AckRow(t, i) !in actions)
            && (after.state == Escalated <==> row.state == Escalated && ResolveRow(t, i) !in actions)
  {
    if actions != [] {
      var earlier, last := actions[..|actions| - 1], actions[|actions| - 1];
      assert actions == earlier + [last];
      ActionsOnRow(m, earlier, t, i);
      OneAction(Operated(m, earlier), last, t, i);
    }
  }

  lemma OneAction(m: Monitor, op: Operator, t: AlarmType, i: nat)
    requires i < |RowsOf(m.rows, t)|
    ensures i < |RowsOf(OperatorStep(m, op).rows, t)|
    ensures var row, after := RowsOf(m.rows, t)[i], RowsOf(OperatorStep(m, op).rows, t)[i];
            && after.timestamp == row.timestamp
            && (op != AckRow(t, i) && op != ResolveRow(t, i) ==> after == row)
            && (op == ResolveRow(t, i) ==> after.state == Resolved)
            && (op == AckRow(t, i) ==>
                  after.state == if row.state == Active then Acknowledged else row.state)
  {
  }

  /** No row is older than the one before it. */
  ghost predicate InTime(rows: seq<Row>) {
    forall i, j :: 0 <= i < j < |rows| ==> rows[i].timestamp < rows[j].timestamp
  }

  lemma NewestIsResolved(rows: seq<Row>, after: seq<Row>, i: nat)
    requires InTime(rows) && ResolvesLatest(rows, after) && i < |rows| && Live(rows[i])
    requires forall j :: i < j < |rows| ==> !Live(rows[j])
    ensures after == rows[i := Row(Resolved, rows[i].timestamp)]
  {
    assert AnyLive(rows);
    var k: nat :| LatestLive(rows, k) && after == rows[k := rows[k].(state := Resolved)];
    assert rows[k].timestamp >= rows[i].timestamp;
  }

  ghost predicate FramesInTime(run: Run) {
    forall j, k :: 0 <= j < k < |run.rounds| ==> run.rounds[j].frame.at < run.rounds[k].frame.at
  }

  ghost predicate SameTimes(a: seq<Row>, b: seq<Row>) {
    |a| == |b| && forall i :: 0 <= i < |a| ==> a[i].timestamp == b[i].timestamp
  }

  /** Rows keep their times, and a new one takes that of its frame. */
  lemma RoundTimes(run: Run, t: AlarmType, k: nat)
    requires IsRun(run) && k < |run.rounds|
    ensures var before, after := RowsAt(run, t, k), RowsAt(run, t, k + 1);
            if t in run.fired[k]
            then |after| == |before| + 1 && SameTimes(before, after[..|before|])
                 && after[|before|].timestamp == run.rounds[k].frame.at
            else SameTimes(before, after)
  {
    assert ActionsOf(run, k);
    hide FrameOf, Operated;
    FrameTimes(run, t, k);
    ActionTimes(run.mids[k], run.rounds[k].actions, t);
  }

  lemma FrameTimes(run: Run, t: AlarmType, k: nat)
    requires IsRun(run) && k < |run.rounds|
    ensures var before, mid := RowsAt(run, t, k), RowsOf(run.mids[k].rows, t);
            if t in run.fired[k]
            then |mid| == |before| + 1 && SameTimes(before, mid[..|before|])
                 && mid[|before|].timestamp == run.rounds[k].frame.at
            else SameTimes(before, mid)
  {
    hide Raised, Cleared, ReadingOf, Operated;
    assert FrameOf(run, k);
  }

  lemma ActionTimes(m: Monitor, actions: seq<Operator>, t: AlarmType)
    ensures SameTimes(RowsOf(m.rows, t), RowsOf(Operated(m, actions).rows, t))
  {
    ActionsCarry(m, actions, t);
    hide Operated;
    forall i | 0 <= i < |RowsOf(m.rows, t)|
      ensures RowsOf(Operated(m, actions).rows, t)[i].timestamp == RowsOf(m.rows, t)[i].timestamp
    {
      ActionsOnRow(m, actions, t, i);
    }
  }

  lemma {:induction false} RowsInTime(run: Run, t: AlarmType, n: nat)
    requires IsRun(run) && FramesInTime(run) && n <= |run.rounds|
    ensures InTime(RowsAt(run, t, n))
    ensures forall row <- RowsAt(run, t, n) :: n > 0 && row.timestamp <= run.rounds[n - 1].frame.at
  {
    hide FrameOf, ActionsOf;
    if n > 0 {
      RowsInTime(run, t, n - 1);
      RoundTimes(run, t, n - 1);
    }
  }

  /** With frames in the order of their times, a frame that clears an alarm resolves the row that fired last among its
      live ones, and no other. */
  lemma ClearsNewest(run: Run, t: AlarmType, k: nat, i: nat)
    requires IsRun(run) && FramesInTime(run) && k < |run.rounds|
    requires Cleared(run.tank, t, ReadingAt(run, k)) && (t in run.monitors[k].open || RaisedAt(run, t, k))
    requires i < |RowsAt(run, t, k)| && Live(RowsAt(run, t, k)[i])
    requires forall j :: i < j < |RowsAt(run, t, k)| ==> !Live(RowsAt(run, t, k)[j])
    ensures var before, after := RowsAt(run, t, k), RowsOf(run.mids[k].rows, t);
            after == before[i := Row(Resolved, before[i].timestamp)]
                     + Inserted(t in run.fired[k], run.rounds[k].frame.at)
  {
    RowsInTime(run, t, k);
    hide Raised, Cleared, ReadingOf, Operated, ResolvesLatest;
    assert FrameOf(run, k);
    var before, after := RowsAt(run, t, k), RowsOf(run.mids[k].rows, t);
    var mid :| ResolvesIf(true, before, mid) && after == mid + Inserted(t in run.fired[k], run.rounds[k].frame.at);
    NewestIsResolved(before, mid, i);
  }

  /** Whatever the times: the row a clearing frame resolves has the latest time of all live ones. */
  lemma ClearsLatest(run: Run, t: AlarmType, k: nat) returns (i: nat)
    requires IsRun(run) && k < |run.rounds| && AnyLive(RowsAt(run, t, k))
    requires Cleared(run.tank, t, ReadingAt(run, k)) && (t in run.monitors[k].open || RaisedAt(run, t, k))
    ensures var before, after := RowsAt(run, t, k), RowsOf(run.mids[k].rows, t);
            && i < |before| && Live(before[i])
            && after == before[i := Row(Resolved, before[i].timestamp)]
                        + Inserted(t in run.fired[k], run.rounds[k].frame.at)
            && forall j :: 0 <= j < |before| && Live(before[j]) ==> before[j].timestamp <= before[i].timestamp
  {
    hide Raised, Cleared, ReadingOf, Operated;
    assert FrameOf(run, k);
    var before, after := RowsAt(run, t, k), RowsOf(run.mids[k].rows, t);
    var mid :| ResolvesIf(true, before, mid) && after == mid + Inserted(t in run.fired[k], run.rounds[k].frame.at);
    i :| LatestLive(before, i) && mid == before[i := before[i].(state := Resolved)];
  }

  /** A frame that does not clear an alarm leaves its rows alone, but for the new one. */
  lemma UnclearedStays(run: Run, t: AlarmType, k: nat)
    requires IsRun(run) && k < |run.rounds|
    requires !Cleared(run.tank, t, ReadingAt(run, k)) || (t !in run.monitors[k].open && !RaisedAt(run, t, k))
    ensures RowsOf(run.mids[k].rows, t)
         == RowsAt(run, t, k) + Inserted(t in run.fired[k], run.rounds[k].frame.at)
  {
    hide Raised, Cleared, ReadingOf, Operated, ResolvesLatest;
    assert FrameOf(run, k);
  }

  ghost predicate NoneResolvedByHand(run: Run, t: AlarmType, n: nat)
    requires n <= |run.rounds|
  {
    forall k: nat, i: nat | k < n :: ResolveRow(t, i) !in run.rounds[k].actions
  }

  lemma ActionsKeepLive(m: Monitor, actions: seq<Operator>, t: AlarmType)
    requires AnyLive(RowsOf(m.rows, t)) && forall i: nat :: ResolveRow(t, i) !in actions
    ensures AnyLive(RowsOf(Operated(m, actions).rows, t))
  {
    var i: nat :| i < |RowsOf(m.rows, t)| && Live(RowsOf(m.rows, t)[i]);
    ActionsOnRow(m, actions, t, i);
    assert Live(RowsOf(Operated(m, actions).rows, t)[i]);
  }

  /** As long as no operator resolves an alarm by hand, an open key always has an open row behind it. */
  lemma {:induction false} KeyHasRow(run: Run, t: AlarmType, n: nat)
    requires IsRun(run) && n <= |run.rounds| && NoneResolvedByHand(run, t, n)
    ensures t in run.monitors[n].open ==> AnyLive(RowsAt(run, t, n))
  {
    hide FrameOf, Raised, Cleared, Holds, ReadingOf, Operated, AnyLive;
    if n > 0 && t in run.monitors[n].open {
      var k := n - 1;
      KeyIffHeld(run, t, n);
      KeyIffHeld(run, t, k);
      FiresIff(run, t, k);
      HoldsIsNotCleared(run.tank, t, ReadingAt(run, k));
      UnclearedStays(run, t, k);
      KeyHasRow(run, t, k);
      LiveBehind(RowsAt(run, t, k), t in run.fired[k], run.rounds[k].frame.at);
      assert ActionsOf(run, k);
      ActionsKeepLive(run.mids[k], run.rounds[k].actions, t);
    }
  }

  lemma LiveBehind(rows: seq<Row>, fired: bool, at: int)
    requires fired || AnyLive(rows)
    ensures AnyLive(rows + Inserted(fired, at))
  {
    var after := rows + Inserted(fired, at);
    if fired {
      assert Live(after[|rows|]);
    } else {
      var i :| 0 <= i < |rows| && Live(rows[i]);
      assert Live(after[i]);
    }
  }

  /** For low-level, critical-level and sensor-fault alarms there is then exactly one open row while the last frame
      raises the alarm, and none otherwise. */
  lemma OneOpenRowIffHeld(run: Run, t: AlarmType, n: nat)
    requires IsRun(run) && n <= |run.rounds| && NoneResolvedByHand(run, t, n) && Unbanded(t)
    ensures AnyLive(RowsAt(run, t, n)) <==> n > 0 && RaisedAt(run, t, n - 1)
    ensures Tracked(run.monitors[n], t)
  {
    KeyHasRow(run, t, n);
    KeyIffHeld(run, t, n);
    AtMostOneOpenRow(run, t, n);
    if n > 0 {
      HoldsIffOutsideBand(run.tank, t, ReadingAt(run, n - 1));
    }
    hide IsRun, AnyLive;
  }
}
