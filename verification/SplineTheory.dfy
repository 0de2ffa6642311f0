/** What a natural cubic spline through a strapping table is, without saying how to compute it.

    A spline over knots `fx` with ordinates `fy` is fixed by its second derivatives at the knots, its
    "moments".  `NaturalMoments` is the tridiagonal system they have to satisfy; this module proves
    that the system has at most one solution, that solving it is the same as having a curve with
    continuous slope, and that the value of the curve does not depend on which of two adjoining
    segments is asked at a knot.  The two implementations are proved against this module.
 */
module SplineTheory {

  ghost predicate StrictlyIncreasing(fx: seq<real>) {
    forall i :: 0 <= i < |fx| - 1 ==> fx[i] < fx[i + 1]
  }

  /** A table both solvers accept: as many ordinates as knots, at least two, knots ascending. */
  ghost predicate Table(fx: seq<real>, fy: seq<real>) {
    2 <= |fx| == |fy| && StrictlyIncreasing(fx)
  }

  lemma {:induction false} KnotsOrdered(fx: seq<real>, i: int, j: int)
    requires StrictlyIncreasing(fx) && 0 <= i < j < |fx|
    ensures fx[i] < fx[j]
    decreases j
  {
    if i < j - 1 {
      KnotsOrdered(fx, i, j - 1);
    }
    assert fx[j - 1] < fx[j - 1 + 1];
  }

  function Gap(fx: seq<real>, i: int): (h: real)
    requires 0 <= i < |fx| - 1
  {
    fx[i + 1] - fx[i]
  }

  lemma GapsPositive(fx: seq<real>, fy: seq<real>, k: int)
    requires Table(fx, fy) && 1 <= k < |fx| - 1
    ensures Gap(fx, k - 1) > 0.0 && Gap(fx, k) > 0.0
  {
  }

  function Diagonal(fx: seq<real>, i: int): real
    requires 1 <= i < |fx| - 1
  {
    2.0 * (Gap(fx, i - 1) + Gap(fx, i))
  }

  /** Six times the jump of the chord slope at a knot between gaps `a` and `b`. */
  function Kink(y0: real, y1: real, y2: real, a: real, b: real): real
    requires a != 0.0 && b != 0.0
  {
    6.0 * ((y2 - y1) / b - (y1 - y0) / a)
  }

  /** Right-hand side of the row of interior knot `i`. */
  function RightHandSide(fx: seq<real>, fy: seq<real>, i: int): real
    requires Table(fx, fy) && 1 <= i < |fx| - 1
  {
    GapsPositive(fx, fy, i);
    Kink(fy[i - 1], fy[i], fy[i + 1], Gap(fx, i - 1), Gap(fx, i))
  }

  ghost predicate RowHolds(fx: seq<real>, fy: seq<real>, m: seq<real>, i: int)
    requires Table(fx, fy) && |m| == |fx| && 1 <= i < |fx| - 1
  {
    Gap(fx, i - 1) * m[i - 1] + Diagonal(fx, i) * m[i] + Gap(fx, i) * m[i + 1] == RightHandSide(fx, fy, i)
  }

  /** `m` solves the natural-spline system: zero curvature at both ends, every interior row holds. */
  ghost predicate NaturalMoments(fx: seq<real>, fy: seq<real>, m: seq<real>)
    requires Table(fx, fy)
  {
    && |m| == |fx|
    && m[0] == 0.0
    && m[|fx| - 1] == 0.0
    && forall i :: 1 <= i < |fx| - 1 ==> RowHolds(fx, fy, m, i)
  }

  // ---------------------------------------------------------------- uniqueness

  function Abs(x: real): real { if x < 0.0 then -x else x }

  /** A homogeneous row at least doubles the unknown it introduces. */
  lemma GrowthStep(a: real, b: real, x: real, y: real, z: real)
    requires a > 0.0 && b > 0.0
    requires a * x + 2.0 * (a + b) * y + b * z == 0.0
    requires Abs(y) >= 2.0 * Abs(x)
    ensures Abs(z) >= 2.0 * Abs(y)
  {
  }

  lemma RowDifference(a: real, d: real, b: real, x: real, y: real, z: real, x': real, y': real, z': real)
    requires a * x + d * y + b * z == a * x' + d * y' + b * z'
    ensures a * (x - x') + d * (y - y') + b * (z - z') == 0.0
  {
  }

  lemma {:induction false} DifferenceGrows(fx: seq<real>, fy: seq<real>, m: seq<real>, w: seq<real>, i: int)
    requires Table(fx, fy) && NaturalMoments(fx, fy, m) && NaturalMoments(fx, fy, w)
    requires 0 <= i < |fx| - 1
    ensures Abs(m[i + 1] - w[i + 1]) >= 2.0 * Abs(m[i] - w[i])
    decreases i
  {
    if i > 0 {
      DifferenceGrows(fx, fy, m, w, i - 1);
      assert RowHolds(fx, fy, m, i) && RowHolds(fx, fy, w, i);
      RowDifference(Gap(fx, i - 1), Diagonal(fx, i), Gap(fx, i), m[i - 1], m[i], m[i + 1], w[i - 1], w[i], w[i + 1]);
      assert fx[i - 1] < fx[i - 1 + 1];
      GrowthStep(Gap(fx, i - 1), Gap(fx, i), m[i - 1] - w[i - 1], m[i] - w[i], m[i + 1] - w[i + 1]);
    }
  }

  lemma {:induction false} DifferenceVanishes(fx: seq<real>, fy: seq<real>, m: seq<real>, w: seq<real>, i: int)
    requires Table(fx, fy) && NaturalMoments(fx, fy, m) && NaturalMoments(fx, fy, w)
    requires 0 <= i < |fx|
    ensures m[i] == w[i]
    decreases |fx| - i
  {
    if i < |fx| - 1 {
      DifferenceVanishes(fx, fy, m, w, i + 1);
      DifferenceGrows(fx, fy, m, w, i);
    }
  }

  /** The system has at most one solution, so any two correct solvers return the same moments. */
  lemma MomentsUnique(fx: seq<real>, fy: seq<real>, m: seq<real>, w: seq<real>)
    requires Table(fx, fy) && NaturalMoments(fx, fy, m) && NaturalMoments(fx, fy, w)
    ensures m == w
  {
    forall i | 0 <= i < |fx| ensures m[i] == w[i] {
      DifferenceVanishes(fx, fy, m, w, i);
    }
  }

  // ---------------------------------------------------------------- the curve

  function Cube(x: real): real { x * x * x }

  /** The cubic on a segment of width `h`, ordinates `y0`, `y1`, moments `m0`, `m1`, at the point that
      lies `b * h` from its left end and `a * h` from its right end. */
  function Cubic(h: real, y0: real, y1: real, m0: real, m1: real, a: real, b: real): real {
    a * y0 + b * y1 + Bend(m0, m1, a, b) * (h * h) / 6.0
  }

  function Bend(m0: real, m1: real, a: real, b: real): real {
    Weight(a) * m0 + Weight(b) * m1
  }

  function Weight(a: real): real { Cube(a) - a }

  /** Derivative of `Weight`. */
  function WeightSlope(a: real): real { 3.0 * a * a - 1.0 }

  function Segment(fx: seq<real>, fy: seq<real>, m: seq<real>, i: int, x: real): (v: real)
    requires 2 <= |fx| == |fy| == |m| && 0 <= i < |fx| - 1 && Gap(fx, i) != 0.0
  {
    Cubic(Gap(fx, i), fy[i], fy[i + 1], m[i], m[i + 1], (fx[i + 1] - x) / Gap(fx, i), (x - fx[i]) / Gap(fx, i))
  }

  lemma SegmentIs(fx: seq<real>, fy: seq<real>, m: seq<real>, i: int, x: real, h: real, a: real, b: real)
    requires 2 <= |fx| == |fy| == |m| && 0 <= i < |fx| - 1 && h == fx[i + 1] - fx[i] != 0.0
    requires a == (fx[i + 1] - x) / h && b == (x - fx[i]) / h
    ensures Segment(fx, fy, m, i, x)
         == a * fy[i] + b * fy[i + 1] + ((a * a * a - a) * m[i] + (b * b * b - b) * m[i + 1]) * (h * h) / 6.0
  {
  }

  /** First derivative of the cubic of segment `i` at `x`. */
  function Slope(fx: seq<real>, fy: seq<real>, m: seq<real>, i: int, x: real): real
    requires 2 <= |fx| == |fy| == |m| && 0 <= i < |fx| - 1 && Gap(fx, i) != 0.0
  {
    var h := Gap(fx, i);
    var a, b := (fx[i + 1] - x) / h, (x - fx[i]) / h;
    (fy[i + 1] - fy[i]) / h + (WeightSlope(b) * m[i + 1] - WeightSlope(a) * m[i]) * h / 6.0
  }

  /** Second derivative of the cubic of segment `i` at `x`. */
  function Curvature(fx: seq<real>, m: seq<real>, i: int, x: real): real
    requires 2 <= |fx| == |m| && 0 <= i < |fx| - 1 && Gap(fx, i) != 0.0
  {
    (fx[i + 1] - x) / Gap(fx, i) * m[i] + (x - fx[i]) / Gap(fx, i) * m[i + 1]
  }

  lemma ShiftWeights(fx: seq<real>, i: int, x: real, t: real)
    requires 0 <= i < |fx| - 1 && Gap(fx, i) != 0.0
    ensures (fx[i + 1] - (x + t)) / Gap(fx, i) == (fx[i + 1] - x) / Gap(fx, i) - t / Gap(fx, i)
    ensures ((x + t) - fx[i]) / Gap(fx, i) == (x - fx[i]) / Gap(fx, i) + t / Gap(fx, i)
  {
  }

  /** One of the two bending terms, shifted by `s` widths. */
  lemma WeightShift(a: real, s: real, m: real)
    ensures Weight(a + s) * m
         == Weight(a) * m + s * (WeightSlope(a) * m) + 3.0 * (s * s * (a * m)) + Cube(s) * m
  {
  }

  lemma WeightShiftDown(a: real, s: real, m: real)
    ensures Weight(a - s) * m
         == Weight(a) * m - s * (WeightSlope(a) * m) + 3.0 * (s * s * (a * m)) - Cube(s) * m
  {
  }

  lemma BendShift(m0: real, m1: real, a: real, b: real, s: real) returns (x: real, y: real, z: real)
    ensures x == s * (WeightSlope(b) * m1) - s * (WeightSlope(a) * m0)
    ensures y == s * s * (a * m0) + s * s * (b * m1)
    ensures z == Cube(s) * m1 - Cube(s) * m0
    ensures Bend(m0, m1, a - s, b + s) == Bend(m0, m1, a, b) + x + 3.0 * y + z
  {
    hide Cube, Weight, WeightSlope;
    WeightShiftDown(a, s, m0);
    WeightShift(b, s, m1);
    x := s * (WeightSlope(b) * m1) - s * (WeightSlope(a) * m0);
    y := s * s * (a * m0) + s * s * (b * m1);
    z := Cube(s) * m1 - Cube(s) * m0;
  }

  lemma Pairs(s: real, e: real, q: real, c: real, k: real, d0: real, d1: real, c0: real, c1: real, m0: real, m1: real)
    requires q == d1 - d0 && c == c0 + c1 && k == m1 - m0
    ensures s * q == s * d1 - s * d0
    ensures s * s * c == s * s * c0 + s * s * c1
    ensures e * k == e * m1 - e * m0
  {
  }

  lemma Assemble(l0: real, l1: real, g: real, f: real, u: real, x: real, y: real, z: real, w: real)
    requires l1 == l0 + u && g == f + x + 3.0 * y + z
    ensures l1 + g * w / 6.0 == (l0 + f * w / 6.0) + (u + x * w / 6.0) + y * w / 2.0 + z * w / 6.0
  {
  }

  lemma BendExpands(m0: real, m1: real, a: real, b: real, s: real, q: real, c: real, k: real)
    requires k == m1 - m0 && c == a * m0 + b * m1 && q == WeightSlope(b) * m1 - WeightSlope(a) * m0
    ensures Bend(m0, m1, a - s, b + s) == Bend(m0, m1, a, b) + s * q + 3.0 * (s * s * c) + Cube(s) * k
  {
    hide Cube, Weight, WeightSlope, Bend;
    var x, y, z := BendShift(m0, m1, a, b, s);
    Pairs(s, Cube(s), q, c, k, WeightSlope(a) * m0, WeightSlope(b) * m1, a * m0, b * m1, m0, m1);
  }

  lemma LineShift(a: real, b: real, s: real, y0: real, y1: real)
    ensures (a - s) * y0 + (b + s) * y1 == a * y0 + b * y1 + s * (y1 - y0)
  {
  }

  /** The cubic of a segment expanded around the point with weights `a`, `b`, in steps of `s` widths. */
  lemma TaylorScalar(h: real, y0: real, y1: real, m0: real, m1: real, a: real, b: real, s: real,
                     p: real, q: real, c: real, k: real)
    requires p == y1 - y0 && k == m1 - m0 && c == a * m0 + b * m1
    requires q == WeightSlope(b) * m1 - WeightSlope(a) * m0
    ensures Cubic(h, y0, y1, m0, m1, a - s, b + s)
         == Cubic(h, y0, y1, m0, m1, a, b)
            + (s * p + s * q * (h * h) / 6.0) + s * s * c * (h * h) / 2.0 + Cube(s) * k * (h * h) / 6.0
  {
    hide Cube, Weight, WeightSlope, Bend, Cubic;
    BendExpands(m0, m1, a, b, s, q, c, k);
    LineShift(a, b, s, y0, y1);
    Assemble(a * y0 + b * y1, (a - s) * y0 + (b + s) * y1, Bend(m0, m1, a - s, b + s), Bend(m0, m1, a, b),
             s * p, s * q, s * s * c, Cube(s) * k, h * h);
    CubicIs(h, y0, y1, m0, m1, a, b);
    CubicIs(h, y0, y1, m0, m1, a - s, b + s);
  }

  lemma CubicIs(h: real, y0: real, y1: real, m0: real, m1: real, a: real, b: real)
    ensures Cubic(h, y0, y1, m0, m1, a, b) == a * y0 + b * y1 + Bend(m0, m1, a, b) * (h * h) / 6.0
  {
  }

  lemma CancelWidth(h: real, s: real, t: real, p: real, q: real, c: real, k: real)
    requires h != 0.0 && s * h == t
    ensures s * p + s * q * (h * h) / 6.0 == t * (p / h + q * h / 6.0)
    ensures s * s * c * (h * h) / 2.0 == t * t * c / 2.0
    ensures Cube(s) * k * (h * h) / 6.0 == Cube(t) * k / h / 6.0
  {
  }

  /** `Slope` and `Curvature` really are the derivatives of `Segment`: the exact expansion of the
      cubic around `x`, with no remainder. */
  lemma TaylorExpansion(fx: seq<real>, fy: seq<real>, m: seq<real>, i: int, x: real, t: real)
    requires 2 <= |fx| == |fy| == |m| && 0 <= i < |fx| - 1 && Gap(fx, i) != 0.0
    ensures Segment(fx, fy, m, i, x + t)
         == Segment(fx, fy, m, i, x)
            + t * Slope(fx, fy, m, i, x)
            + t * t * Curvature(fx, m, i, x) / 2.0
            + Cube(t) * (m[i + 1] - m[i]) / Gap(fx, i) / 6.0
  {
    hide Gap, Cubic, Bend, Cube, Weight, WeightSlope;
    var h := Gap(fx, i);
    var a, b, s := (fx[i + 1] - x) / h, (x - fx[i]) / h, t / h;
    var p, k := fy[i + 1] - fy[i], m[i + 1] - m[i];
    var q := WeightSlope(b) * m[i + 1] - WeightSlope(a) * m[i];
    var c := a * m[i] + b * m[i + 1];
    ShiftWeights(fx, i, x, t);
    TaylorScalar(h, fy[i], fy[i + 1], m[i], m[i + 1], a, b, s, p, q, c, k);
    assert Segment(fx, fy, m, i, x + t) == Cubic(h, fy[i], fy[i + 1], m[i], m[i + 1], a - s, b + s);
    assert s * h == t;
    CancelWidth(h, s, t, p, q, c, k);
    assert Slope(fx, fy, m, i, x) == p / h + q * h / 6.0;
    assert Curvature(fx, m, i, x) == c;
  }

  lemma SegmentAtEnds(fx: seq<real>, fy: seq<real>, m: seq<real>, i: int)
    requires 2 <= |fx| == |fy| == |m| && 0 <= i < |fx| - 1 && Gap(fx, i) != 0.0
    ensures Segment(fx, fy, m, i, fx[i]) == fy[i]
    ensures Segment(fx, fy, m, i, fx[i + 1]) == fy[i + 1]
    ensures Slope(fx, fy, m, i, fx[i]) == (fy[i + 1] - fy[i]) / Gap(fx, i) - (2.0 * m[i] + m[i + 1]) * Gap(fx, i) / 6.0
    ensures Slope(fx, fy, m, i, fx[i + 1])
         == (fy[i + 1] - fy[i]) / Gap(fx, i) + (m[i] + 2.0 * m[i + 1]) * Gap(fx, i) / 6.0
    ensures Curvature(fx, m, i, fx[i]) == m[i] && Curvature(fx, m, i, fx[i + 1]) == m[i + 1]
  {
    var h := Gap(fx, i);
    assert h / h == 1.0 && 0.0 / h == 0.0;
  }

  /** The two cubics that meet at interior knot `k` have the same slope there exactly when row `k` of
      the tridiagonal system holds. */
  lemma SlopesAgreeIffRowHolds(fx: seq<real>, fy: seq<real>, m: seq<real>, k: int)
    requires Table(fx, fy) && |m| == |fx| && 1 <= k < |fx| - 1
    ensures Gap(fx, k - 1) > 0.0 && Gap(fx, k) > 0.0
    ensures Slope(fx, fy, m, k - 1, fx[k]) == Slope(fx, fy, m, k, fx[k]) <==> RowHolds(fx, fy, m, k)
  {
  }

  /** Value, slope and curvature are continuous across interior knot `k`, and the value is the
      tabulated one. */
  ghost predicate SmoothAt(fx: seq<real>, fy: seq<real>, m: seq<real>, k: int)
    requires Table(fx, fy) && |m| == |fx| && 1 <= k < |fx| - 1
  {
    assert fx[k - 1] < fx[k - 1 + 1];
    && Segment(fx, fy, m, k - 1, fx[k]) == fy[k] == Segment(fx, fy, m, k, fx[k])
    && Slope(fx, fy, m, k - 1, fx[k]) == Slope(fx, fy, m, k, fx[k])
    && Curvature(fx, m, k - 1, fx[k]) == Curvature(fx, m, k, fx[k])
  }

  /** The system characterises the natural spline: its solutions are the moments that vanish at both
      ends and make the curve twice continuously differentiable at every interior knot. */
  lemma NaturalMomentsIffSmooth(fx: seq<real>, fy: seq<real>, m: seq<real>)
    requires Table(fx, fy) && |m| == |fx|
    ensures NaturalMoments(fx, fy, m)
       <==> m[0] == 0.0 && m[|fx| - 1] == 0.0 && forall k :: 1 <= k < |fx| - 1 ==> SmoothAt(fx, fy, m, k)
  {
    forall k | 1 <= k < |fx| - 1 ensures SmoothAt(fx, fy, m, k) <==> RowHolds(fx, fy, m, k) {
      SlopesAgreeIffRowHolds(fx, fy, m, k);
      SegmentAtEnds(fx, fy, m, k - 1);
      SegmentAtEnds(fx, fy, m, k);
    }
  }

  // ---------------------------------------------------------------- the value at a level

  /** `v` is the natural spline at `x`: below the first knot and above the last one the nearest end
      ordinate, in between the cubic of some segment that contains `x`. */
  ghost predicate SplineValue(fx: seq<real>, fy: seq<real>, x: real, v: real)
    requires Table(fx, fy)
  {
    if x <= fx[0] then v == fy[0]
    else if x >= fx[|fx| - 1] then v == fy[|fx| - 1]
    else exists m: seq<real>, i: int :: NaturalMoments(fx, fy, m) && OnSegment(fx, fy, m, i, x, v)
  }

  ghost predicate OnSegment(fx: seq<real>, fy: seq<real>, m: seq<real>, i: int, x: real, v: real)
    requires Table(fx, fy)
  {
    && |m| == |fx|
    && 0 <= i < |fx| - 1
    && fx[i] <= x <= fx[i + 1]
    && v == Segment(fx, fy, m, i, x)
  }

  /** Two segments that both contain `x` give it the same value: they are the same segment, or they
      meet at a knot and `x` is that knot. */
  lemma SegmentChoiceIrrelevant(fx: seq<real>, fy: seq<real>, m: seq<real>, i: int, j: int, x: real, v: real, w: real)
    requires Table(fx, fy) && OnSegment(fx, fy, m, i, x, v) && OnSegment(fx, fy, m, j, x, w) && i <= j
    ensures v == w
  {
    if i < j {
      if i + 1 < j {
        KnotsOrdered(fx, i + 1, j);
      }
      SegmentAtEnds(fx, fy, m, i);
      SegmentAtEnds(fx, fy, m, j);
    }
  }

  /** The spline has one value at every level, so programs that solve the system differently and pick
      different segments at a knot still compute the same volume. */
  lemma SplineValueUnique(fx: seq<real>, fy: seq<real>, x: real, v: real, w: real)
    requires Table(fx, fy) && SplineValue(fx, fy, x, v) && SplineValue(fx, fy, x, w)
    ensures v == w
  {
    if fx[0] < x < fx[|fx| - 1] {
      var m, i :| NaturalMoments(fx, fy, m) && OnSegment(fx, fy, m, i, x, v);
      var m', j :| NaturalMoments(fx, fy, m') && OnSegment(fx, fy, m', j, x, w);
      MomentsUnique(fx, fy, m, m');
      if i <= j {
        SegmentChoiceIrrelevant(fx, fy, m, i, j, x, v, w);
      } else {
        SegmentChoiceIrrelevant(fx, fy, m, j, i, x, w, v);
      }
    }
  }
}
