/** The web client's port of the strapping interpolation: elimination in place on a full matrix, linear
    search for the segment, and its own, laxer table checks.
 */
module WebGeometry {
  import opened SplineTheory
  import opened StrappingTable

  // ---------------------------------------------------------------- elimination on the full matrix

  /** What is left of a row: pivot, the entry right of it, and right-hand side. */
  datatype Reduced = Reduced(p: real, u: real, r: real)

  function MinusMultiple(x: real, factor: real, y: real): real {
    x - factor * y
  }

  function ReduceRow(sub: real, diag: real, sup: real, rhs: real, up: Reduced): Reduced
    requires up.p != 0.0
  {
    Reduced(MinusMultiple(diag, sub / up.p, up.u), sup, MinusMultiple(rhs, sub / up.p, up.r))
  }

  /** A pivot more than twice the entry right of it yields another such pivot. */
  lemma ReduceStable(a: real, diag: real, b: real, r: real, up: Reduced)
    requires 0.0 < a && 0.0 < b && diag == 2.0 * (a + b)
    requires 0.0 <= 2.0 * up.u < up.p
    ensures 2.0 * b < ReduceRow(a, diag, b, r, up).p
  {
  }

  /** Row `k` after elimination.  Row 0 is the boundary row of the first knot. */
  function Reduction(xs: seq<real>, ys: seq<real>, k: nat): (s: Reduced)
    requires Table(xs, ys) && k < |xs| - 1
    ensures 0.0 <= 2.0 * s.u < s.p
  {
    if k == 0 then Reduced(1.0, 0.0, 0.0)
    else
      var up := Reduction(xs, ys, k - 1);
      GapsPositive(xs, ys, k);
      ReduceStable(Gap(xs, k - 1), Diagonal(xs, k), Gap(xs, k), RightHandSide(xs, ys, k), up);
      ReduceRow(Gap(xs, k - 1), Diagonal(xs, k), Gap(xs, k), RightHandSide(xs, ys, k), up)
  }

  lemma ReductionUnfolds(xs: seq<real>, ys: seq<real>, k: int)
    requires Table(xs, ys) && 1 <= k < |xs| - 1
    ensures Reduction(xs, ys, 0) == Reduced(1.0, 0.0, 0.0)
    ensures Reduction(xs, ys, k)
         == ReduceRow(Gap(xs, k - 1), Diagonal(xs, k), Gap(xs, k), RightHandSide(xs, ys, k), Reduction(xs, ys, k - 1))
  {
  }

  /** Entry (`k`, `j`) of the matrix before elimination. */
  function MatrixEntry(xs: seq<real>, k: int, j: int): real
    requires 2 <= |xs| && 0 <= k < |xs| && 0 <= j < |xs|
  {
    if k == 0 || k == |xs| - 1 then if j == k then 1.0 else 0.0
    else if j == k - 1 then Gap(xs, k - 1)
    else if j == k then Diagonal(xs, k)
    else if j == k + 1 then Gap(xs, k)
    else 0.0
  }

  function MatrixRight(xs: seq<real>, ys: seq<real>, k: int): real
    requires Table(xs, ys) && 0 <= k < |xs|
  {
    if k == 0 || k == |xs| - 1 then 0.0 else RightHandSide(xs, ys, k)
  }

  /** Entry (`k`, `j`) of the matrix after elimination. */
  function ReducedEntry(xs: seq<real>, ys: seq<real>, k: int, j: int): real
    requires Table(xs, ys) && 0 <= k < |xs| && 0 <= j < |xs|
  {
    if k == |xs| - 1 then if j == k then 1.0 else 0.0
    else if j == k then Reduction(xs, ys, k).p
    else if j == k + 1 then Reduction(xs, ys, k).u
    else 0.0
  }

  function ReducedRight(xs: seq<real>, ys: seq<real>, k: int): real
    requires Table(xs, ys) && 0 <= k < |xs|
  {
    if k == |xs| - 1 then 0.0 else Reduction(xs, ys, k).r
  }

  /** One pass of the elimination loop turns row `k` of the matrix into its reduced form. */
  lemma RowReduced(xs: seq<real>, ys: seq<real>, k: int)
    requires Table(xs, ys) && 1 <= k < |xs|
    ensures ReducedEntry(xs, ys, k - 1, k - 1) > 0.0
    ensures ReducedEntry(xs, ys, k, k - 1) == 0.0
    ensures ReducedEntry(xs, ys, k, k)
         == MinusMultiple(MatrixEntry(xs, k, k), MatrixEntry(xs, k, k - 1) / ReducedEntry(xs, ys, k - 1, k - 1),
                          ReducedEntry(xs, ys, k - 1, k))
    ensures ReducedRight(xs, ys, k)
         == MinusMultiple(MatrixRight(xs, ys, k), MatrixEntry(xs, k, k - 1) / ReducedEntry(xs, ys, k - 1, k - 1),
                          ReducedRight(xs, ys, k - 1))
    ensures forall j :: 0 <= j < |xs| && j != k - 1 && j != k ==> ReducedEntry(xs, ys, k, j) == MatrixEntry(xs, k, j)
  {
  }

  // ---------------------------------------------------------------- back substitution

  function BackStep(s: Reduced, z: real): real
    requires s.p != 0.0
  {
    MinusMultiple(s.r, s.u, z) / s.p
  }

  lemma RowRestored(a: real, diag: real, b: real, r: real, up: Reduced, x: real, y: real, z: real)
    requires up.p != 0.0 && ReduceRow(a, diag, b, r, up).p != 0.0
    requires x == BackStep(up, y) && y == BackStep(ReduceRow(a, diag, b, r, up), z)
    ensures a * x + diag * y + b * z == r
  {
  }

  ghost predicate BackSubstituted(xs: seq<real>, ys: seq<real>, m: seq<real>, k: int)
    requires Table(xs, ys) && |m| == |xs| && 0 <= k < |xs| - 1
  {
    m[k] == BackStep(Reduction(xs, ys, k), m[k + 1])
  }

  /** Eliminating on the matrix and substituting back solves the natural-spline system. */
  lemma EliminationSolves(xs: seq<real>, ys: seq<real>, m: seq<real>)
    requires Table(xs, ys) && |m| == |xs| && m[|xs| - 1] == 0.0
    requires forall k :: 0 <= k < |xs| - 1 ==> BackSubstituted(xs, ys, m, k)
    ensures NaturalMoments(xs, ys, m)
  {
    assert BackSubstituted(xs, ys, m, 0);
    forall k | 1 <= k < |xs| - 1 ensures RowHolds(xs, ys, m, k) {
      assert BackSubstituted(xs, ys, m, k - 1) && BackSubstituted(xs, ys, m, k);
      EliminationRow(xs, ys, m, k);
    }
  }

  lemma EliminationRow(xs: seq<real>, ys: seq<real>, m: seq<real>, k: int)
    requires Table(xs, ys) && |m| == |xs| && 1 <= k < |xs| - 1
    requires BackSubstituted(xs, ys, m, k - 1) && BackSubstituted(xs, ys, m, k)
    ensures RowHolds(xs, ys, m, k)
  {
    hide StrictlyIncreasing, RightHandSide, Reduction, ReduceRow, BackStep, Gap, Diagonal;
    ReductionUnfolds(xs, ys, k);
    RowRestored(Gap(xs, k - 1), Diagonal(xs, k), Gap(xs, k), RightHandSide(xs, ys, k), Reduction(xs, ys, k - 1),
                m[k - 1], m[k], m[k + 1]);
  }

  lemma SkipZero(s: real, y: real)
    ensures MinusMultiple(s, 0.0, y) == s
  {
  }

  ghost predicate MatrixHolds(xs: seq<real>, ys: seq<real>, a: array2<real>, rhs: array<real>, lo: int)
    requires Table(xs, ys) && a.Length0 == a.Length1 == rhs.Length == |xs| && 0 <= lo
    reads a, rhs
  {
    && (forall k, j :: lo <= k < |xs| && 0 <= j < |xs| ==> a[k, j] == MatrixEntry(xs, k, j))
    && (forall k :: lo <= k < |xs| ==> rhs[k] == MatrixRight(xs, ys, k))
  }

  ghost predicate ReducedHolds(xs: seq<real>, ys: seq<real>, a: array2<real>, rhs: array<real>, hi: int)
    requires Table(xs, ys) && a.Length0 == a.Length1 == rhs.Length == |xs| && hi <= |xs|
    reads a, rhs
  {
    && (forall k, j :: 0 <= k < hi && 0 <= j < |xs| ==> a[k, j] == ReducedEntry(xs, ys, k, j))
    && (forall k :: 0 <= k < hi ==> rhs[k] == ReducedRight(xs, ys, k))
  }

  /** Fills the matrix and right-hand side of `naturalCubicSpline`. */
  method FillMatrix(xs: seq<real>, ys: seq<real>, a: array2<real>, rhs: array<real>)
    requires Table(xs, ys) && a.Length0 == a.Length1 == rhs.Length == |xs|
    requires forall k, j :: 0 <= k < |xs| && 0 <= j < |xs| ==> a[k, j] == 0.0
    requires forall k :: 0 <= k < |xs| ==> rhs[k] == 0.0
    modifies a, rhs
    ensures MatrixHolds(xs, ys, a, rhs, 0)
  {
    hide StrictlyIncreasing, Kink;
    var n := |xs| - 1;
    for i := 1 to n
      invariant forall k, j :: 1 <= k < i && 0 <= j <= n ==> a[k, j] == MatrixEntry(xs, k, j)
      invariant forall k :: 1 <= k < i ==> rhs[k] == MatrixRight(xs, ys, k)
      invariant forall k, j :: (k == 0 || i <= k <= n) && 0 <= j <= n ==> a[k, j] == 0.0
      invariant forall k :: k == 0 || i <= k <= n ==> rhs[k] == 0.0
    {
      GapsPositive(xs, ys, i);
      var h0, h1 := xs[i] - xs[i - 1], xs[i + 1] - xs[i];
      a[i, i - 1] := h0;
      a[i, i] := 2.0 * (h0 + h1);
      a[i, i + 1] := h1;
      rhs[i] := Kink(ys[i - 1], ys[i], ys[i + 1], h0, h1);
    }
    a[0, 0] := 1.0;
    a[n, n] := 1.0;
  }

  /** Elimination in place: `factor`, zero the subdiagonal, update pivot and right-hand side. */
  method EliminateInPlace(xs: seq<real>, ys: seq<real>, a: array2<real>, rhs: array<real>)
    requires Table(xs, ys) && a.Length0 == a.Length1 == rhs.Length == |xs|
    requires MatrixHolds(xs, ys, a, rhs, 0)
    modifies a, rhs
    ensures ReducedHolds(xs, ys, a, rhs, |xs|)
  {
    hide StrictlyIncreasing, MinusMultiple, MatrixEntry, ReducedEntry, MatrixRight, ReducedRight;
    var n := |xs| - 1;
    BoundaryRow(xs, ys);
    for i := 1 to n + 1
      invariant ReducedHolds(xs, ys, a, rhs, i)
      invariant MatrixHolds(xs, ys, a, rhs, i)
    {
      RowReduced(xs, ys, i);
      var factor := a[i, i - 1] / a[i - 1, i - 1];
      a[i, i - 1] := 0.0;
      a[i, i] := MinusMultiple(a[i, i], factor, a[i - 1, i]);
      rhs[i] := MinusMultiple(rhs[i], factor, rhs[i - 1]);
    }
  }

  lemma BoundaryRow(xs: seq<real>, ys: seq<real>)
    requires Table(xs, ys)
    ensures forall j :: 0 <= j < |xs| ==> ReducedEntry(xs, ys, 0, j) == MatrixEntry(xs, 0, j)
    ensures ReducedRight(xs, ys, 0) == MatrixRight(xs, ys, 0)
  {
  }

  /** Back substitution over the whole upper triangle of the reduced matrix. */
  method SubstituteBack(xs: seq<real>, ys: seq<real>, a: array2<real>, rhs: array<real>) returns (moments: seq<real>)
    requires Table(xs, ys) && a.Length0 == a.Length1 == rhs.Length == |xs|
    requires ReducedHolds(xs, ys, a, rhs, |xs|)
    ensures NaturalMoments(xs, ys, moments)
  {
    hide StrictlyIncreasing, MinusMultiple, BackStep, Reduction, NaturalMoments;
    var n := |xs| - 1;
    var m2 := new real[n + 1](_ => 0.0);
    assert rhs[n] == 0.0 && a[n, n] == 1.0;
    m2[n] := rhs[n] / a[n, n];
    for i := n downto 0
      modifies m2
      invariant m2[n] == 0.0
      invariant forall k :: i <= k < n ==> m2[k] == BackStep(Reduction(xs, ys, k), m2[k + 1])
    {
      var s := rhs[i];
      var row := Reduction(xs, ys, i);
      for j := i + 1 to n + 1
        modifies {}
        invariant s == if j == i + 1 then row.r else MinusMultiple(row.r, row.u, m2[i + 1])
      {
        assert a[i, j] == ReducedEntry(xs, ys, i, j);
        SkipZero(s, m2[j]);
        s := MinusMultiple(s, a[i, j], m2[j]);
      }
      assert a[i, i] == ReducedEntry(xs, ys, i, i);
      BackStepIs(row, m2[i + 1]);
      m2[i] := s / a[i, i];
    }
    moments := m2[..];
    EliminationSolves(xs, ys, moments);
  }

  lemma BackStepIs(s: Reduced, z: real)
    requires s.p != 0.0
    ensures BackStep(s, z) == MinusMultiple(s.r, s.u, z) / s.p
  {
  }

  /** The solver inside `naturalCubicSpline`. */
  method SplineMoments(xs: seq<real>, ys: seq<real>) returns (moments: seq<real>)
    requires Table(xs, ys)
    ensures NaturalMoments(xs, ys, moments)
  {
    var n := |xs| - 1;
    var a := new real[n + 1, n + 1]((_, _) => 0.0);
    var rhs := new real[n + 1](_ => 0.0);
    FillMatrix(xs, ys, a, rhs);
    EliminateInPlace(xs, ys, a, rhs);
    moments := SubstituteBack(xs, ys, a, rhs);
  }

  // ---------------------------------------------------------------- evaluation

  /** The function `naturalCubicSpline` returns: clamps outside, linear search for the segment inside. */
  method Evaluate(xs: seq<real>, ys: seq<real>, m2: seq<real>, x: real) returns (v: real)
    requires Table(xs, ys) && NaturalMoments(xs, ys, m2)
    ensures SplineValue(xs, ys, x, v)
  {
    assert |m2| == |xs|;
    hide NaturalMoments, Segment;
    var n := |xs| - 1;
    if x <= xs[0] {
      return ys[0];
    }
    if x >= xs[n] {
      return ys[n];
    }
    var i := 0;
    while i < n - 1 && xs[i + 1] < x
      invariant 0 <= i < n
      invariant xs[i] < x
    {
      i := i + 1;
    }
    var h := xs[i + 1] - xs[i];
    var av := (xs[i + 1] - x) / h;
    var bv := (x - xs[i]) / h;
    v := av * ys[i] + bv * ys[i + 1]
         + ((av * av * av - av) * m2[i] + (bv * bv * bv - bv) * m2[i + 1]) * (h * h) / 6.0;
    SegmentIs(xs, ys, m2, i, x, h, av, bv);
    assert OnSegment(xs, ys, m2, i, x, v);
  }

  // ---------------------------------------------------------------- interpolateStrapping

  /** What the web client answers.  Unlike the backend it looks at the level before it looks at the
      heights, and `linear` never looks at them at all. */
  ghost predicate Answer(points: seq<Point>, level: real, linear: bool, r: Outcome) {
    var pts := SortPoints(false, points);
    if |points| < 2 then r == Rejected(TooFewPoints)
    else AnswerOn(Heights(pts), Volumes(pts), DistinctHeights(points), level, linear, r)
  }

  /** The same on the columns of the sorted table. */
  ghost predicate AnswerOn(hs: seq<real>, vs: seq<real>, distinct: bool, level: real, linear: bool, r: Outcome)
    requires |hs| == |vs| >= 2
  {
    if level <= hs[0] then r == Volume(vs[0])
    else if level >= hs[|hs| - 1] then r == Volume(vs[|vs| - 1])
    else if linear then r.Volume? && exists i :: OnChord(hs, vs, i, level, r.liters)
    else if !distinct then r == Rejected(HeightsNotIncreasing)
    else r.Volume? && Table(hs, vs) && SplineValue(hs, vs, level, r.liters)
  }

  /** `interpolateStrapping`; in particular the linear branch never divides by zero, even when points
      share a height. */
  method InterpolateStrapping(points: seq<Point>, level: real, linear: bool) returns (r: Outcome)
    ensures Answer(points, level, linear, r)
  {
    var pts := SortPoints(false, points);
    if |pts| < 2 {
      return Rejected(TooFewPoints);
    }
    var hs, vs := Heights(pts), Volumes(pts);
    var n := |hs| - 1;
    if level <= hs[0] {
      return Volume(vs[0]);
    }
    if level >= hs[n] {
      return Volume(vs[n]);
    }
    if linear {
      for i := 0 to n
        invariant hs[i] < level
      {
        if hs[i] <= level <= hs[i + 1] {
          var t := (level - hs[i]) / (hs[i + 1] - hs[i]);
          var v := vs[i] + t * (vs[i + 1] - vs[i]);
          assert OnChord(hs, vs, i, level, v);
          return Volume(v);
        }
      }
      assert false;
    }
    SortedIncreasingIffDistinct(false, points);
    for i := 0 to n
      invariant forall k :: 0 <= k < i ==> hs[k] < hs[k + 1]
    {
      if hs[i + 1] - hs[i] <= 0.0 {
        assert !(hs[i] < hs[i + 1]);
        return Rejected(HeightsNotIncreasing);
      }
    }
    var m2 := SplineMoments(hs, vs);
    var v := Evaluate(hs, vs, m2, level);
    return Volume(v);
  }
}
