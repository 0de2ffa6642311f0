/** The backend and the web client compute the same volumes: exactly when, and why.

    The web client's documentation presents its geometry as a port that matches the backend.  The two
    programs solve the spline system differently and pick different segments at a knot, which makes no
    difference, but they do not refuse the same tables.
 */
module GeometryAgreement {
  import opened SplineTheory
  import opened StrappingTable
  import BackendGeometry
  import WebGeometry

  function MethodName(linear: bool): string {
    if linear then "linear" else "cubic_spline"
  }

  /** Both refuse, or both return the same volume. */
  predicate SameAnswer(b: Outcome, w: Outcome) {
    if b.Volume? then w == b else w.Rejected?
  }

  ghost predicate SharesHeight(points: seq<Point>) {
    exists i, j :: 0 <= i < j < |points| && points[i].height == points[j].height
  }

  lemma {:induction false} DistinctIff(points: seq<Point>)
    ensures DistinctHeights(points) <==> !SharesHeight(points)
  {
    if points != [] {
      var rest := points[1..];
      DistinctIff(rest);
      if SharesHeight(rest) {
        var i, j :| 0 <= i < j < |rest| && rest[i].height == rest[j].height;
        assert points[i + 1].height == points[j + 1].height;
      }
      if SharesHeight(points) {
        var i, j :| 0 <= i < j < |points| && points[i].height == points[j].height;
        if i > 0 {
          assert rest[i - 1].height == rest[j - 1].height;
        } else {
          assert rest[j - 1].height == points[0].height && rest[j - 1] in rest;
        }
      }
      if exists q <- rest :: q.height == points[0].height {
        var j :| 0 <= j < |rest| && rest[j].height == points[0].height;
        assert points[j + 1].height == points[0].height;
      }
    }
  }

  /** What the backend refuses, and why: a short table first, then two points with one height, then an unknown method,
      and nothing else. */
  lemma RefusalsExact(points: seq<Point>, level: real, kind: string, b: Outcome)
    requires BackendGeometry.Answer(points, level, kind, b)
    ensures b == Rejected(TooFewPoints) <==> |points| < 2
    ensures b == Rejected(HeightsNotIncreasing) <==> |points| >= 2 && SharesHeight(points)
    ensures b == Rejected(UnknownMethod)
       <==> |points| >= 2 && !SharesHeight(points) && kind !in {"linear", "cubic_spline"}
  {
    DistinctIff(points);
    hide Heights, Volumes, DistinctHeights, SharesHeight, SortPoints, LinearValue, SplineValue;
  }

  /** On every table with distinct heights the two programs agree, for both methods and every level,
      including levels exactly on a knot. */
  lemma AgreeOnDistinctHeights(points: seq<Point>, level: real, linear: bool, b: Outcome, w: Outcome)
    requires BackendGeometry.Answer(points, level, MethodName(linear), b)
    requires WebGeometry.Answer(points, level, linear, w)
    requires 2 <= |points| && DistinctHeights(points)
    ensures b.Volume? && w == b
  {
    WebValue(points, level, linear, w);
    SortsAgree(points);
    hide Heights, Volumes, SplineValue, LinearValue, DistinctHeights, SortPoints, StrictlyIncreasing;
    hide WebGeometry.Answer;
    var pts := SortPoints(true, points);
    if linear {
      LinearValueUnique(Heights(pts), Volumes(pts), level, b.liters, w.liters);
    } else {
      SplineValueUnique(Heights(pts), Volumes(pts), level, b.liters, w.liters);
    }
  }

  /** On a table the backend would accept, the web client's answer is the interpolated value too. */
  lemma WebValue(points: seq<Point>, level: real, linear: bool, w: Outcome)
    requires WebGeometry.Answer(points, level, linear, w) && 2 <= |points| && DistinctHeights(points)
    ensures w.Volume?
    ensures var pts := SortPoints(false, points);
            && Table(Heights(pts), Volumes(pts))
            && if linear then LinearValue(Heights(pts), Volumes(pts), level, w.liters)
               else SplineValue(Heights(pts), Volumes(pts), level, w.liters)
  {
    SortedTable(points);
    hide Heights, Volumes, DistinctHeights, SortPoints, Table, LinearValue, SplineValue, WebGeometry.AnswerOn;
    WebValueOn(Heights(SortPoints(false, points)), Volumes(SortPoints(false, points)), level, linear, w);
  }

  lemma SortedTable(points: seq<Point>)
    requires 2 <= |points| && DistinctHeights(points)
    ensures Table(Heights(SortPoints(false, points)), Volumes(SortPoints(false, points)))
  {
    SortedIncreasingIffDistinct(false, points);
  }

  lemma WebValueOn(hs: seq<real>, vs: seq<real>, level: real, linear: bool, w: Outcome)
    requires Table(hs, vs) && WebGeometry.AnswerOn(hs, vs, true, level, linear, w)
    ensures w.Volume? && if linear then LinearValue(hs, vs, level, w.liters) else SplineValue(hs, vs, level, w.liters)
  {
  }

  /** The exact condition: the answers coincide unless points share a height and the web client never
      checks for it, because the method is linear or the level is at or beyond an end of the table. */
  lemma AgreeIff(points: seq<Point>, level: real, linear: bool, b: Outcome, w: Outcome)
    requires BackendGeometry.Answer(points, level, MethodName(linear), b)
    requires WebGeometry.Answer(points, level, linear, w)
    ensures SameAnswer(b, w) <==>
              || |points| < 2
              || DistinctHeights(points)
              || (!linear && Lowest(points) < level < Highest(points))
  {
    hide Heights, Volumes, SplineValue, LinearValue, OnChord, DistinctHeights, SortPoints, Lowest, Highest;
    hide StrictlyIncreasing, BackendGeometry.Answer, WebGeometry.Answer;
    if |points| < 2 {
      TooFew(points, level, linear, b, w);
    } else {
      if DistinctHeights(points) {
        AgreeOnDistinctHeights(points, level, linear, b, w);
      } else {
        RefusedByBackend(points, level, linear, b, w);
      }
    }
  }

  lemma TooFew(points: seq<Point>, level: real, linear: bool, b: Outcome, w: Outcome)
    requires BackendGeometry.Answer(points, level, MethodName(linear), b)
    requires WebGeometry.Answer(points, level, linear, w)
    requires |points| < 2
    ensures b.Rejected? && w.Rejected?
  {
  }

  lemma RefusedByBackend(points: seq<Point>, level: real, linear: bool, b: Outcome, w: Outcome)
    requires BackendGeometry.Answer(points, level, MethodName(linear), b)
    requires WebGeometry.Answer(points, level, linear, w)
    requires 2 <= |points| && !DistinctHeights(points)
    ensures b.Rejected?
    ensures w.Rejected? <==> !linear && Lowest(points) < level < Highest(points)
  {
    hide *;
    BackendRefuses(points, level, MethodName(linear), b);
    WebRefusesInside(points, level, linear, w);
  }

  lemma BackendRefuses(points: seq<Point>, level: real, kind: string, b: Outcome)
    requires BackendGeometry.Answer(points, level, kind, b) && 2 <= |points| && !DistinctHeights(points)
    ensures b.Rejected?
  {
    hide Heights, Volumes, DistinctHeights, SortPoints, Table, LinearValue, SplineValue;
  }

  lemma WebRefusesInside(points: seq<Point>, level: real, linear: bool, w: Outcome)
    requires WebGeometry.Answer(points, level, linear, w) && 2 <= |points| && !DistinctHeights(points)
    ensures w.Rejected? <==> !linear && Lowest(points) < level < Highest(points)
  {
    var pts := SortPoints(false, points);
    hide Heights, Volumes, DistinctHeights, SortPoints, Lowest, Highest, WebGeometry.AnswerOn, Table;
    EndsOfSorted(points);
    WebRefusesIff(Heights(pts), Volumes(pts), level, linear, w);
  }

  lemma WebRefusesIff(hs: seq<real>, vs: seq<real>, level: real, linear: bool, w: Outcome)
    requires |hs| == |vs| >= 2 && WebGeometry.AnswerOn(hs, vs, false, level, linear, w)
    ensures w.Rejected? <==> !linear && hs[0] < level < hs[|hs| - 1]
  {
  }

  function Lowest(points: seq<Point>): (h: real)
    requires points != []
    ensures exists p :: p in points && p.height == h
    ensures forall p :: p in points ==> h <= p.height
  {
    if |points| == 1 then points[0].height
    else
      assert points == [points[0]] + points[1..];
      var rest := Lowest(points[1..]);
      if points[0].height < rest then points[0].height else rest
  }

  function Highest(points: seq<Point>): (h: real)
    requires points != []
    ensures exists p :: p in points && p.height == h
    ensures forall p :: p in points ==> p.height <= h
  {
    if |points| == 1 then points[0].height
    else
      assert points == [points[0]] + points[1..];
      var rest := Highest(points[1..]);
      if points[0].height > rest then points[0].height else rest
  }

  lemma EndsOfSorted(points: seq<Point>)
    requires points != []
    ensures SortPoints(false, points)[0].height == Lowest(points)
    ensures SortPoints(false, points)[|points| - 1].height == Highest(points)
  {
    hide *;
    SortAscends(false, points);
    var p := LowestPoint(points);
    var q := HighestPoint(points);
    EndsOfAscending(SortPoints(false, points), p, q);
  }

  lemma LowestPoint(points: seq<Point>) returns (p: Point)
    requires points != []
    ensures p in points && p.height == Lowest(points) && forall x <- points :: p.height <= x.height
  {
    hide Lowest;
    var h := Lowest(points);
    p :| p in points && p.height == h;
  }

  lemma HighestPoint(points: seq<Point>) returns (p: Point)
    requires points != []
    ensures p in points && p.height == Highest(points) && forall x <- points :: x.height <= p.height
  {
    hide Highest;
    var h := Highest(points);
    p :| p in points && p.height == h;
  }

  lemma EndsOfAscending(pts: seq<Point>, p: Point, q: Point)
    requires Ascending(pts) && p in pts && q in pts && forall x <- pts :: p.height <= x.height <= q.height
    ensures pts[0].height == p.height && pts[|pts| - 1].height == q.height
  {
    hide Ascending;
    var i :| 0 <= i < |pts| && pts[i] == p;
    var j :| 0 <= j < |pts| && pts[j] == q;
    AscendingPairs(pts, 0, i);
    AscendingPairs(pts, j, |pts| - 1);
    assert pts[0] in pts && pts[|pts| - 1] in pts;
  }

  /** Two points at the same height: the backend refuses the table, the web client draws a volume. */
  lemma DuplicateHeightDisagrees(b: Outcome, w: Outcome)
    requires BackendGeometry.Answer([Point(1.0, 10.0), Point(1.0, 20.0)], 0.5, "linear", b)
    requires WebGeometry.Answer([Point(1.0, 10.0), Point(1.0, 20.0)], 0.5, true, w)
    ensures b == Rejected(HeightsNotIncreasing) && w == Volume(10.0)
  {
  }

  /** Runs both programs on one table; every accepted table gives one volume. */
  method BothVolumes(points: seq<Point>, level: real, linear: bool) returns (backend: Outcome, web: Outcome)
    requires 2 <= |points| && DistinctHeights(points)
    ensures backend.Volume? && web == backend
  {
    backend := BackendGeometry.InterpolateStrapping(points, level, MethodName(linear));
    web := WebGeometry.InterpolateStrapping(points, level, linear);
    AgreeOnDistinctHeights(points, level, linear, backend, web);
  }
}
