/** One tank's alarm handling in the ingestion pipeline: smoothing, over-range detection, threshold rules, the
    open-set that suppresses repeats, and the automatic resolution of alarms whose condition has cleared.
 */
module AlarmPipeline {
  import opened Common

  const OVER_RANGE_TOLERANCE := 1.05
  const CLEAR_HYSTERESIS_METERS := 0.05
  const CLEAR_HYSTERESIS_LITERS := 25.0
  const ALPHA := 2.0 / 11.0

  datatype AlarmType = CriticalLevel | LowLevel | HighLevel | LowVolume | HighVolume | SensorFault

  const LEVEL_RULES := [CriticalLevel, LowLevel, HighLevel]
  const VOLUME_RULES := [LowVolume, HighVolume]

  /** The tank columns the pipeline reads; `roundedHeight` is the height rounded to millimetres. */
  datatype Tank = Tank(
    critical: Option<real>, low: Option<real>, high: Option<real>,
    lowVolume: Option<real>, highVolume: Option<real>,
    tankHeight: Option<real>, diameter: real, vertical: bool, roundedHeight: real)

  datatype RowState = Active | Acknowledged | Escalated | Resolved

  datatype Row = Row(state: RowState, timestamp: int)

  /** A sensor frame after calibration: the raw level, the volume of the level finally believed, and its time. */
  datatype Frame = Frame(raw: real, volume: real, at: int)

  datatype Reading = Reading(level: real, volume: real, overRange: bool)

  /** The smoothing value, the open-set, and the alarm rows by type, oldest insertion first. */
  datatype Monitor = Monitor(ema: Option<real>, open: set<AlarmType>, rows: map<AlarmType, seq<Row>>)

  // ---------------------------------------------------------------- conditions

  function Threshold(tank: Tank, t: AlarmType): Option<real> {
    match t
    case CriticalLevel => tank.critical
    case LowLevel => tank.low
    case HighLevel => tank.high
    case LowVolume => tank.lowVolume
    case HighVolume => tank.highVolume
    case SensorFault => None
  }

  function ValueFor(t: AlarmType, r: Reading): real {
    if t in VOLUME_RULES then r.volume else r.level
  }

  /** `_is_violated`. */
  predicate IsViolated(t: AlarmType, value: real, threshold: real, meters: real, liters: real)
    requires t != SensorFault
  {
    match t
    case CriticalLevel => value <= threshold
    case LowLevel => value <= threshold
    case HighLevel => value >= threshold + meters
    case LowVolume => value <= threshold - liters
    case HighVolume => value >= threshold + liters
  }

  /** Does this reading raise the alarm? */
  predicate Raised(tank: Tank, t: AlarmType, r: Reading) {
    if t == SensorFault then r.overRange
    else Threshold(tank, t).Some? && IsViolated(t, ValueFor(t, r), Threshold(tank, t).value, 0.0, 0.0)
  }

  function HysteresisFor(t: AlarmType): real {
    if t in VOLUME_RULES then CLEAR_HYSTERESIS_LITERS else CLEAR_HYSTERESIS_METERS
  }

  /** Does this reading let an open alarm go? A type without a threshold is never looked at. */
  predicate Cleared(tank: Tank, t: AlarmType, r: Reading) {
    if t == SensorFault then !r.overRange
    else
      && Threshold(tank, t).Some?
      && !IsViolated(t, ValueFor(t, r), Threshold(tank, t).value, HysteresisFor(t), HysteresisFor(t))
  }

  /** Does this reading keep an open alarm open? */
  predicate Holds(tank: Tank, t: AlarmType, r: Reading) {
    Raised(tank, t, r) && !Cleared(tank, t, r)
  }

  // ---------------------------------------------------------------- readings

  function Height(tank: Tank): Option<real> {
    if tank.tankHeight.Some? && tank.tankHeight.value != 0.0 then tank.tankHeight
    else if tank.vertical then Some(tank.diameter)
    else None
  }

  predicate OverRange(tank: Tank, level: real) {
    Height(tank).Some? && Height(tank).value > 0.0 && level > Height(tank).value * OVER_RANGE_TOLERANCE
  }

  /** The exponential moving average after one more sample; the first one is taken at face value. */
  function Averaged(alpha: real, value: Option<real>, sample: real): real {
    if value.None? then sample else alpha * sample + (1.0 - alpha) * value.value
  }

  /** The pipeline's own smoothing, of span 10. */
  function Smooth(value: Option<real>, sample: real): real {
    Averaged(ALPHA, value, sample)
  }

  function ReadingOf(tank: Tank, ema: Option<real>, f: Frame): Reading {
    var level := Smooth(ema, f.raw);
    if OverRange(tank, level) then Reading(tank.roundedHeight, f.volume, true) else Reading(level, f.volume, false)
  }

  lemma SpanAlpha(width: real, alpha: real)
    requires width >= 1.0 && alpha == 2.0 / width
    ensures width >= 2.0 ==> 0.0 < alpha <= 1.0
  {
    assert alpha * width == 2.0;
    if alpha > 1.0 {
      NonNegativeProduct(alpha - 1.0, width);
      assert (alpha - 1.0) * width == 2.0 - width;
    }
    if alpha <= 0.0 {
      NonNegativeProduct(-alpha, width);
      assert -alpha * width == -2.0;
    }
  }

  predicate Between(a: real, b: real, x: real) {
    a <= x <= b || b <= x <= a
  }

  lemma AverageBetween(alpha: real, value: real, sample: real)
    requires 0.0 <= alpha <= 1.0
    ensures Between(value, sample, alpha * sample + (1.0 - alpha) * value)
  {
    var p, q := alpha * sample, alpha * value;
    assert (1.0 - alpha) * value == value - q;
    if value <= sample {
      NonNegativeProduct(alpha, sample - value);
      NonNegativeProduct(1.0 - alpha, sample - value);
      assert alpha * (sample - value) == p - q;
      assert (1.0 - alpha) * (sample - value) == sample - value - (p - q);
    } else {
      NonNegativeProduct(alpha, value - sample);
      NonNegativeProduct(1.0 - alpha, value - sample);
      assert alpha * (value - sample) == q - p;
      assert (1.0 - alpha) * (value - sample) == value - sample - (q - p);
    }
  }

  lemma NonNegativeProduct(a: real, b: real)
    requires a >= 0.0 && b >= 0.0
    ensures a * b >= 0.0
  {
  }

  class EMA {
    const alpha: real
    var value: Option<real>

    constructor (span: nat)
      ensures alpha == 2.0 / (span as real + 1.0) && value == None
      ensures span >= 1 ==> 0.0 < alpha <= 1.0
    {
      SpanAlpha(span as real + 1.0, 2.0 / (span as real + 1.0));
      alpha := 2.0 / (span as real + 1.0);
      value := None;
    }

    method Update(sample: real) returns (r: real)
      modifies this
      ensures r == Averaged(alpha, old(value), sample) && value == Some(r)
      ensures old(value).None? ==> r == sample
      ensures old(value).Some? && 0.0 <= alpha <= 1.0 ==> Between(old(value).value, sample, r)
    {
      if value.Some? && 0.0 <= alpha <= 1.0 {
        AverageBetween(alpha, value.value, sample);
      }
      if value.None? {
        value := Some(sample);
      } else {
        value := Some(alpha * sample + (1.0 - alpha) * value.value);
      }
      r := value.value;
    }

    method Reset()
      modifies this
      ensures value == None
    {
      value := None;
    }
  }

  // ---------------------------------------------------------------- one frame, as a relation

  function RowsOf(rows: map<AlarmType, seq<Row>>, t: AlarmType): seq<Row> {
    if t in rows then rows[t] else []
  }

  predicate Live(row: Row) {
    row.state != Resolved
  }

  /** Is row `i` the live row with the latest timestamp? */
  predicate LatestLive(rows: seq<Row>, i: nat) {
    && i < |rows| && Live(rows[i])
    && forall k :: 0 <= k < |rows| && Live(rows[k]) ==> rows[k].timestamp <= rows[i].timestamp
  }

  ghost predicate AnyLive(rows: seq<Row>) {
    exists k :: 0 <= k < |rows| && Live(rows[k])
  }

  /** The latest live row, if any, becomes resolved; nothing else changes. */
  ghost predicate ResolvesLatest(rows: seq<Row>, after: seq<Row>) {
    if AnyLive(rows)
    then exists i: nat :: LatestLive(rows, i) && after == rows[i := rows[i].(state := Resolved)]
    else after == rows
  }

  ghost predicate ResolvesIf(on: bool, rows: seq<Row>, after: seq<Row>) {
    if on then ResolvesLatest(rows, after) else after == rows
  }

  /** What one frame does to one alarm type. */
  ghost predicate LaneStep(wasOpen: bool, raised: bool, cleared: bool, at: int,
                           rows: seq<Row>, isOpen: bool, after: seq<Row>, fired: bool)
  {
    && fired == (raised && !wasOpen)
    && isOpen == ((wasOpen || raised) && !cleared)
    && exists mid :: ResolvesIf((wasOpen || raised) && cleared, rows, mid) && after == mid + Inserted(fired, at)
  }

  function Inserted(fired: bool, at: int): seq<Row> {
    if fired then [Row(Active, at)] else []
  }

  /** `process` for one frame that is handled without an exception; `fired` lists the new alarms. */
  ghost predicate FrameStep(tank: Tank, m: Monitor, f: Frame, after: Monitor, fired: seq<AlarmType>) {
    var reading := ReadingOf(tank, m.ema, f);
    && after.ema == (if reading.overRange then None else Some(Smooth(m.ema, f.raw)))
    && forall t: AlarmType ::
         LaneStep(t in m.open, Raised(tank, t, reading), Cleared(tank, t, reading), f.at,
                  RowsOf(m.rows, t), t in after.open, RowsOf(after.rows, t), t in fired)
  }

  /** The operator's two actions on a row. */
  datatype Operator = AckRow(t: AlarmType, i: nat) | ResolveRow(t: AlarmType, i: nat)

  function OperatorStep(m: Monitor, op: Operator): Monitor {
    var rows := RowsOf(m.rows, op.t);
    if op.i >= |rows| then m
    else
      var row := rows[op.i];
      var state :=
        match op
        case AckRow(_, _) => if row.state == Active then Acknowledged else row.state
        case ResolveRow(_, _) => Resolved;
      m.(rows := m.rows[op.t := rows[op.i := row.(state := state)]])
  }

  // ---------------------------------------------------------------- the pipeline

  function Rank(t: AlarmType): nat {
    match t
    case CriticalLevel => 0
    case LowLevel => 1
    case HighLevel => 2
    case LowVolume => 3
    case HighVolume => 4
    case SensorFault => 5
  }

  /** Without repeats, in the order of the rules. */
  predicate InRuleOrder(types: seq<AlarmType>) {
    forall i, j :: 0 <= i < j < |types| ==> Rank(types[i]) < Rank(types[j])
  }

  /** `evaluate_alarm_rules`. */
  method EvaluateAlarmRules(tank: Tank, level: real, volume: real) returns (candidates: seq<AlarmType>)
    ensures forall t :: t in candidates <==> t != SensorFault && Raised(tank, t, Reading(level, volume, false))
    ensures CriticalLevel in candidates <==> tank.critical.Some? && level <= tank.critical.value
    ensures LowLevel in candidates <==> tank.low.Some? && level <= tank.low.value
    ensures HighLevel in candidates <==> tank.high.Some? && level >= tank.high.value
    ensures LowVolume in candidates <==> tank.lowVolume.Some? && volume <= tank.lowVolume.value
    ensures HighVolume in candidates <==> tank.highVolume.Some? && volume >= tank.highVolume.value
    ensures InRuleOrder(candidates)
  {
    candidates := [];
    for i := 0 to |LEVEL_RULES|
      invariant forall t :: t in candidates <==> Rank(t) < i && Raised(tank, t, Reading(level, volume, false))
      invariant InRuleOrder(candidates)
    {
      var t := LEVEL_RULES[i];
      if Threshold(tank, t).Some? && IsViolated(t, level, Threshold(tank, t).value, 0.0, 0.0) {
        candidates := candidates + [t];
      }
    }
    for i := 0 to |VOLUME_RULES|
      invariant forall t :: t in candidates <==> Rank(t) < 3 + i && Raised(tank, t, Reading(level, volume, false))
      invariant InRuleOrder(candidates)
    {
      var t := VOLUME_RULES[i];
      if Threshold(tank, t).Some? && IsViolated(t, volume, Threshold(tank, t).value, 0.0, 0.0) {
        candidates := candidates + [t];
      }
    }
  }

  /** The live row with the latest timestamp, or the table length when no row is live. */
  method FindLatestLive(rows: seq<Row>) returns (i: nat)
    ensures i <= |rows|
    ensures i < |rows| ==> LatestLive(rows, i)
    ensures i == |rows| <==> !AnyLive(rows)
  {
    i := |rows|;
    for k := 0 to |rows|
      invariant i == |rows| ==> forall j :: 0 <= j < k ==> !Live(rows[j])
      invariant i < |rows| ==> i < k && Live(rows[i])
      invariant i < |rows| ==> forall j :: 0 <= j < k && Live(rows[j]) ==> rows[j].timestamp <= rows[i].timestamp
      invariant i <= |rows|
    {
      if Live(rows[k]) && (i == |rows| || rows[i].timestamp < rows[k].timestamp) {
        i := k;
      }
    }
  }

  class Pipeline {
    const tank: Tank
    const ema: EMA
    var open: set<AlarmType>
    var rows: map<AlarmType, seq<Row>>

    constructor (tank: Tank)
      ensures this.tank == tank && fresh(ema) && ema.alpha == ALPHA
      ensures View() == Monitor(None, {}, map[])
    {
      this.tank := tank;
      ema := new EMA(10);
      open, rows := {}, map[];
    }

    ghost function View(): Monitor
      reads this, ema
    {
      Monitor(ema.value, open, rows)
    }

    /** `process`, for a frame that is handled without an exception. */
    method Process(f: Frame) returns (fired: seq<AlarmType>)
      requires ema.alpha == ALPHA
      modifies this, ema
      ensures FrameStep(tank, old(View()), f, View(), fired)
      ensures InRuleOrder(fired)
    {
      hide Raised, Cleared, ResolvesIf, Averaged, OverRange, LaneStep, Inserted, InRuleOrder, RowsOf;
      var level := ema.Update(f.raw);
      var overRange := OverRange(tank, level);
      if overRange {
        level := tank.roundedHeight;
        ema.Reset();
      }
      ghost var reading := ReadingOf(tank, old(ema.value), f);
      var candidates := EvaluateAlarmRules(tank, level, f.volume);
      if overRange {
        AppendInOrder(candidates, SensorFault);
        candidates := candidates + [SensorFault];
      }
      CandidatesAreRaised(tank, reading, candidates);

      fired := RaiseNew(candidates);
      ghost var openNow := open;
      ResolveCleared(level, f.volume, candidates);
      ghost var mid := rows;
      InsertRows(fired, f.at);
      forall t: AlarmType
        ensures LaneStep(t in old(open), Raised(tank, t, reading), Cleared(tank, t, reading), f.at,
                         RowsOf(old(rows), t), t in open, RowsOf(rows, t), t in fired)
      {
        assert t in openNow <==> t in old(open) || Raised(tank, t, reading);
        LaneFrom(t in old(open), Raised(tank, t, reading), Cleared(tank, t, reading), f.at, RowsOf(old(rows), t),
                 RowsOf(mid, t), t in open, RowsOf(rows, t), t in fired);
      }
    }

    /** The raise part of `process`: a candidate fires unless its key is already in the open-set. */
    method RaiseNew(candidates: seq<AlarmType>) returns (fired: seq<AlarmType>)
      requires InRuleOrder(candidates)
      modifies `open
      ensures open == old(open) + set t | t in candidates
      ensures forall t :: t in fired <==> t in candidates && t !in old(open)
      ensures InRuleOrder(fired)
    {
      hide InRuleOrder;
      fired := [];
      EmptyInOrder();
      for i := 0 to |candidates|
        invariant open == old(open) + set t | t in candidates[..i]
        invariant forall t :: t in fired <==> t in candidates[..i] && t !in old(open)
        invariant InRuleOrder(fired)
      {
        var t := candidates[i];
        assert candidates[..i + 1] == candidates[..i] + [t];
        RankAbove(candidates, i);
        if t !in open {
          open := open + {t};
          AppendInOrder(fired, t);
          fired := fired + [t];
        }
      }
    }

    /** One entry of the check list: may an open alarm of this type go? */
    method ConditionCleared(t: AlarmType, level: real, volume: real, raised: seq<AlarmType>) returns (cleared: bool)
      ensures cleared == Cleared(tank, t, Reading(level, volume, SensorFault in raised))
    {
      if t == SensorFault {
        return t !in raised;
      }
      if Threshold(tank, t).None? {
        return false;
      }
      var value := if t in VOLUME_RULES then volume else level;
      var hysteresis := if t in VOLUME_RULES then CLEAR_HYSTERESIS_LITERS else CLEAR_HYSTERESIS_METERS;
      cleared := !IsViolated(t, value, Threshold(tank, t).value, hysteresis, hysteresis);
    }

    /** `_resolve_cleared`. */
    method ResolveCleared(level: real, volume: real, raised: seq<AlarmType>)
      modifies `open, `rows
      ensures forall t ::
                t in open <==> t in old(open) && !Cleared(tank, t, Reading(level, volume, SensorFault in raised))
      ensures forall t ::
                ResolvesIf(t in old(open) && Cleared(tank, t, Reading(level, volume, SensorFault in raised)),
                           RowsOf(old(rows), t), RowsOf(rows, t))
    {
      hide ResolvesLatest, Cleared, RowsOf;
      var checks := LEVEL_RULES + VOLUME_RULES + [SensorFault];
      ghost var reading := Reading(level, volume, SensorFault in raised);
      for i := 0 to |checks|
        invariant forall t :: t in open <==> t in old(open) && !(Rank(t) < i && Cleared(tank, t, reading))
        invariant forall t ::
                    ResolvesIf(Rank(t) < i && t in old(open) && Cleared(tank, t, reading),
                               RowsOf(old(rows), t), RowsOf(rows, t))
      {
        var t := checks[i];
        assert Rank(t) == i && forall u :: Rank(u) == i ==> u == t;
        var cleared := ConditionCleared(t, level, volume, raised);
        if t in open && cleared {
          ResolveLatest(t);
          open := open - {t};
        }
      }
    }

    method ResolveLatest(t: AlarmType)
      modifies `rows
      ensures ResolvesLatest(RowsOf(old(rows), t), RowsOf(rows, t))
      ensures forall u :: u != t ==> RowsOf(rows, u) == RowsOf(old(rows), u)
    {
      var ofType := RowsOf(rows, t);
      var i := FindLatestLive(ofType);
      if i < |ofType| {
        rows := rows[t := ofType[i := ofType[i].(state := Resolved)]];
      }
    }

    method InsertRows(fired: seq<AlarmType>, at: int)
      requires InRuleOrder(fired)
      modifies `rows
      ensures forall t :: RowsOf(rows, t) == RowsOf(old(rows), t) + Inserted(t in fired, at)
    {
      for i := 0 to |fired|
        invariant forall t :: RowsOf(rows, t) == RowsOf(old(rows), t) + Inserted(t in fired[..i], at)
      {
        var t := fired[i];
        assert t !in fired[..i];
        rows := rows[t := RowsOf(rows, t) + [Row(Active, at)]];
      }
    }

    /** `ack_alarm` and `resolve_alarm`. */
    method Operate(op: Operator)
      modifies `rows
      ensures View() == OperatorStep(old(View()), op)
    {
      var ofType := RowsOf(rows, op.t);
      if op.i < |ofType| {
        match op {
          case AckRow(t, i) =>
            assert ofType[i := ofType[i]] == ofType && rows[t := ofType] == rows;
            if ofType[i].state == Active {
              rows := rows[t := ofType[i := ofType[i].(state := Acknowledged)]];
            }
          case ResolveRow(t, i) =>
            rows := rows[t := ofType[i := ofType[i].(state := Resolved)]];
        }
      }
    }
  }

  /** One lane, from what raising, resolving and inserting did to it. */
  lemma LaneFrom(wasOpen: bool, raised: bool, cleared: bool, at: int, rows: seq<Row>, mid: seq<Row>, isOpen: bool,
                 after: seq<Row>, fired: bool)
    requires fired == (raised && !wasOpen) && isOpen == ((wasOpen || raised) && !cleared)
    requires ResolvesIf((wasOpen || raised) && cleared, rows, mid) && after == mid + Inserted(fired, at)
    ensures LaneStep(wasOpen, raised, cleared, at, rows, isOpen, after, fired)
  {
  }

  /** The candidates are exactly the raised types. */
  lemma CandidatesAreRaised(tank: Tank, reading: Reading, candidates: seq<AlarmType>)
    requires forall t :: t in candidates <==>
               if t == SensorFault then reading.overRange
               else Raised(tank, t, Reading(reading.level, reading.volume, false))
    ensures forall t :: t in candidates <==> Raised(tank, t, reading)
  {
  }

  lemma EmptyInOrder()
    ensures InRuleOrder([])
  {
  }

  lemma RankAbove(types: seq<AlarmType>, i: nat)
    requires InRuleOrder(types) && i < |types|
    ensures forall u <- types[..i] :: Rank(u) < Rank(types[i])
  {
  }

  lemma AppendInOrder(types: seq<AlarmType>, t: AlarmType)
    requires InRuleOrder(types) && forall u <- types :: Rank(u) < Rank(t)
    ensures InRuleOrder(types + [t])
  {
  }
}
