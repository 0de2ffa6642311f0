/** The backend's strapping interpolation: Thomas algorithm, binary search, table checks.
    Floating point is modelled by exact reals.
 */
module BackendGeometry {
  import opened SplineTheory
  import opened StrappingTable

  // ---------------------------------------------------------------- the Thomas algorithm

  /** A row after forward elimination: its scaled superdiagonal and scaled right-hand side. */
  datatype Swept = Swept(c: real, d: real)

  /** The pivot `denom` of a row below a row whose scaled superdiagonal is `c0`. */
  function Pivot(sub: real, diag: real, c0: real): real {
    diag - sub * c0
  }

  /** Body of the forward sweep: the row (`sub`, `diag`, `sup` | `rhs`) below the swept row `up`. */
  function SweepRow(sub: real, diag: real, sup: real, rhs: real, up: Swept): Swept
    requires Pivot(sub, diag, up.c) != 0.0
  {
    Swept(sup / Pivot(sub, diag, up.c), (rhs - sub * up.d) / Pivot(sub, diag, up.c))
  }

  /** Body of the back substitution: the unknown of row `s` when the unknown to its right is `z`. */
  function BackStep(s: Swept, z: real): real {
    s.d - s.c * z
  }

  /** A scaled superdiagonal below one half keeps the next pivot positive and the next scaled
      superdiagonal below one half. */
  lemma SweepStable(a: real, diag: real, b: real, r: real, up: Swept)
    requires 0.0 < a && 0.0 < b && diag == 2.0 * (a + b) && 0.0 <= up.c < 0.5
    ensures Pivot(a, diag, up.c) > 0.0
    ensures 0.0 < SweepRow(a, diag, b, r, up).c < 0.5
  {
    PivotLarge(a, diag, b, up.c);
    HalfQuotient(b, Pivot(a, diag, up.c));
  }

  lemma PivotLarge(a: real, diag: real, b: real, c: real)
    requires 0.0 < a && 0.0 < b && diag == 2.0 * (a + b) && 0.0 <= c < 0.5
    ensures Pivot(a, diag, c) > 2.0 * b
  {
  }

  lemma HalfQuotient(b: real, p: real)
    requires 0.0 < b && 2.0 * b < p
    ensures 0.0 < b / p < 0.5
  {
    var q := b / p;
    assert q * p == b;
    LessByProduct(q, 0.5, p);
  }

  lemma LessByProduct(x: real, y: real, p: real)
    requires 0.0 < p && x * p < y * p
    ensures x < y
  {
  }

  /** The first row is swept below nothing, as below an all-zero row. */
  lemma FirstSweep(sub: real, diag: real, sup: real, rhs: real)
    ensures Pivot(sub, diag, 0.0) == diag
    ensures diag != 0.0 ==> SweepRow(sub, diag, sup, rhs, Swept(0.0, 0.0)) == Swept(sup / diag, rhs / diag)
  {
  }

  /** Back substitution undoes the elimination: the original row holds. */
  lemma RowRestored(a: real, diag: real, b: real, r: real, up: Swept, x: real, y: real, z: real)
    requires Pivot(a, diag, up.c) != 0.0
    requires x == BackStep(up, y) && y == BackStep(SweepRow(a, diag, b, r, up), z)
    ensures a * x + diag * y + b * z == r
  {
  }

  /** Row `k` of the table after the forward sweep; row 0 is the unused zero the source leaves there. */
  function ForwardSweep(fx: seq<real>, fy: seq<real>, k: nat): (s: Swept)
    requires Table(fx, fy) && k < |fx| - 1
    ensures 0.0 <= s.c < 0.5
  {
    if k == 0 then Swept(0.0, 0.0)
    else
      var up := ForwardSweep(fx, fy, k - 1);
      GapsPositive(fx, fy, k);
      SweepStable(Gap(fx, k - 1), Diagonal(fx, k), Gap(fx, k), RightHandSide(fx, fy, k), up);
      SweepRow(Gap(fx, k - 1), Diagonal(fx, k), Gap(fx, k), RightHandSide(fx, fy, k), up)
  }

  lemma SweepUnfolds(fx: seq<real>, fy: seq<real>, k: int)
    requires Table(fx, fy) && 1 <= k < |fx| - 1
    ensures Gap(fx, k - 1) > 0.0 && Gap(fx, k) > 0.0
    ensures ForwardSweep(fx, fy, 0) == Swept(0.0, 0.0)
    ensures Pivot(Gap(fx, k - 1), Diagonal(fx, k), ForwardSweep(fx, fy, k - 1).c) > 0.0
    ensures ForwardSweep(fx, fy, k)
         == SweepRow(Gap(fx, k - 1), Diagonal(fx, k), Gap(fx, k), RightHandSide(fx, fy, k), ForwardSweep(fx, fy, k - 1))
  {
    GapsPositive(fx, fy, k);
    SweepStable(Gap(fx, k - 1), Diagonal(fx, k), Gap(fx, k), RightHandSide(fx, fy, k), ForwardSweep(fx, fy, k - 1));
  }

  /** The last interior unknown sees a zero to its right. */
  lemma LastUnknown(s: Swept)
    ensures BackStep(s, 0.0) == s.d
  {
  }

  /** Entry `k` comes from the entry to its right by one back-substitution step. */
  ghost predicate BackSubstituted(fx: seq<real>, fy: seq<real>, m: seq<real>, k: int)
    requires Table(fx, fy) && |m| == |fx| && 1 <= k < |fx| - 1
  {
    m[k] == BackStep(ForwardSweep(fx, fy, k), m[k + 1])
  }

  /** Sweeping and substituting back solves the natural-spline system. */
  lemma ThomasSolves(fx: seq<real>, fy: seq<real>, m: seq<real>)
    requires Table(fx, fy) && |m| == |fx| && m[0] == 0.0 && m[|fx| - 1] == 0.0
    requires forall k :: 1 <= k < |fx| - 1 ==> BackSubstituted(fx, fy, m, k)
    ensures NaturalMoments(fx, fy, m)
  {
    forall k | 1 <= k < |fx| - 1 ensures RowHolds(fx, fy, m, k) {
      ThomasRow(fx, fy, m, k);
    }
  }

  lemma ThomasRow(fx: seq<real>, fy: seq<real>, m: seq<real>, k: int)
    requires Table(fx, fy) && |m| == |fx| && m[0] == 0.0 && 1 <= k < |fx| - 1
    requires BackSubstituted(fx, fy, m, k)
    requires k > 1 ==> BackSubstituted(fx, fy, m, k - 1)
    ensures RowHolds(fx, fy, m, k)
  {
    assert |fx| == |fy|;
    hide Table, RightHandSide, ForwardSweep, SweepRow, Gap, Diagonal, Pivot;
    SweepUnfolds(fx, fy, k);
    RowRestored(Gap(fx, k - 1), Diagonal(fx, k), Gap(fx, k), RightHandSide(fx, fy, k), ForwardSweep(fx, fy, k - 1),
                m[k - 1], m[k], m[k + 1]);
  }

  /** Row `k` as `_natural_cubic_spline` writes it down. */
  ghost predicate RowIs(fx: seq<real>, fy: seq<real>, k: int, sub: real, diag: real, sup: real, rhs: real)
    requires Table(fx, fy) && 1 <= k < |fx| - 1
  {
    && sub == Gap(fx, k - 1) && diag == Diagonal(fx, k) && sup == Gap(fx, k)
    && rhs == RightHandSide(fx, fy, k)
  }

  /** All rows; entry 0 of each list stays the unused zero. */
  ghost predicate Rows(fx: seq<real>, fy: seq<real>, sub: seq<real>, diag: seq<real>, sup: seq<real>, rhs: seq<real>)
    requires Table(fx, fy)
  {
    && |sub| == |diag| == |sup| == |rhs| == |fx| - 1
    && forall k :: 1 <= k < |fx| - 1 ==> RowIs(fx, fy, k, sub[k], diag[k], sup[k], rhs[k])
  }

  lemma RowAssigned(fx: seq<real>, fy: seq<real>, k: int, a: real, b: real)
    requires Table(fx, fy) && 1 <= k < |fx| - 1 && a == fx[k] - fx[k - 1] && b == fx[k + 1] - fx[k]
    ensures 0.0 < a && 0.0 < b
    ensures RowIs(fx, fy, k, a, 2.0 * (a + b), b, Kink(fy[k - 1], fy[k], fy[k + 1], a, b))
  {
  }

  /** First loops of `_natural_cubic_spline`. */
  method AssembleRows(fx: seq<real>, fy: seq<real>)
    returns (subs: seq<real>, diags: seq<real>, sups: seq<real>, rights: seq<real>)
    requires Table(fx, fy)
    ensures Rows(fx, fy, subs, diags, sups, rights)
  {
    hide Kink, RowIs, StrictlyIncreasing;
    var n := |fx| - 1;
    var h := new real[n];
    for i := 0 to n
      modifies h
      invariant forall k :: 0 <= k < i ==> h[k] == fx[k + 1] - fx[k]
    {
      h[i] := fx[i + 1] - fx[i];
    }
    var m := n - 1;
    var sub := new real[m + 1](_ => 0.0);
    var diag := new real[m + 1](_ => 0.0);
    var sup := new real[m + 1](_ => 0.0);
    var rhs := new real[m + 1](_ => 0.0);
    for i := 1 to m + 1
      modifies sub, diag, sup, rhs
      invariant forall k :: 1 <= k < i ==> RowIs(fx, fy, k, sub[k], diag[k], sup[k], rhs[k])
    {
      RowAssigned(fx, fy, i, h[i - 1], h[i]);
      sub[i] := h[i - 1];
      diag[i] := 2.0 * (h[i - 1] + h[i]);
      sup[i] := h[i];
      rhs[i] := Kink(fy[i - 1], fy[i], fy[i + 1], h[i - 1], h[i]);
    }
    subs, diags, sups, rights := sub[..], diag[..], sup[..], rhs[..];
  }

  /** Second loop of `_natural_cubic_spline`: no pivot is ever zero. */
  method Eliminate(fx: seq<real>, fy: seq<real>, sub: seq<real>, diag: seq<real>, sup: seq<real>, rhs: seq<real>)
    returns (cps: seq<real>, dps: seq<real>)
    requires Table(fx, fy) && 3 <= |fx| && Rows(fx, fy, sub, diag, sup, rhs)
    ensures |cps| == |fx| && |dps| == |fx| - 1
    ensures forall k :: 1 <= k < |fx| - 1 ==> Swept(cps[k], dps[k]) == ForwardSweep(fx, fy, k)
  {
    hide Gap, Diagonal, RightHandSide, ForwardSweep, StrictlyIncreasing, SweepRow, Pivot;
    var m := |fx| - 2;
    var cp := new real[m + 2](_ => 0.0);
    var dp := new real[m + 1](_ => 0.0);
    SweepUnfolds(fx, fy, 1);
    FirstSweep(sub[1], diag[1], sup[1], rhs[1]);
    cp[1] := sup[1] / diag[1];
    dp[1] := rhs[1] / diag[1];
    for i := 2 to m + 1
      modifies cp, dp
      invariant cp[0] == 0.0 && dp[0] == 0.0
      invariant forall k :: 1 <= k < i ==> Swept(cp[k], dp[k]) == ForwardSweep(fx, fy, k)
    {
      SweepUnfolds(fx, fy, i);
      assert RowIs(fx, fy, i, sub[i], diag[i], sup[i], rhs[i]);
      assert Swept(cp[i - 1], dp[i - 1]) == ForwardSweep(fx, fy, i - 1);
      var row := SweepRow(sub[i], diag[i], sup[i], rhs[i], Swept(cp[i - 1], dp[i - 1]));
      cp[i], dp[i] := row.c, row.d;
    }
    cps, dps := cp[..], dp[..];
  }

  /** `_natural_cubic_spline`: solves the natural-spline system for every ascending table. */
  method NaturalCubicSpline(fx: seq<real>, fy: seq<real>) returns (moments: seq<real>)
    requires Table(fx, fy)
    ensures NaturalMoments(fx, fy, moments)
  {
    var n := |fx| - 1;
    var m := n - 1;
    var m2 := new real[n + 1](_ => 0.0);
    if m == 0 {
      return m2[..];
    }
    var sub, diag, sup, rhs := AssembleRows(fx, fy);
    var cp, dp := Eliminate(fx, fy, sub, diag, sup, rhs);
    hide ForwardSweep, NaturalMoments, StrictlyIncreasing, Rows, BackStep;
    LastUnknown(Swept(cp[m], dp[m]));
    m2[m] := dp[m];
    for i := m downto 1
      modifies m2
      invariant m2[0] == 0.0 && m2[n] == 0.0
      invariant forall k :: i <= k <= m ==> m2[k] == BackStep(ForwardSweep(fx, fy, k), m2[k + 1])
    {
      m2[i] := BackStep(Swept(cp[i], dp[i]), m2[i + 1]);
    }
    moments := m2[..];
    ThomasSolves(fx, fy, moments);
  }

  // ---------------------------------------------------------------- evaluation

  /** `_spline_eval`: clamps outside the knots, binary search inside. */
  method SplineEval(fx: seq<real>, fy: seq<real>, m2: seq<real>, x: real) returns (v: real)
    requires Table(fx, fy) && NaturalMoments(fx, fy, m2)
    ensures SplineValue(fx, fy, x, v)
  {
    assert |m2| == |fx|;
    hide NaturalMoments, Segment;
    var n := |fx| - 1;
    if x <= fx[0] {
      return fy[0];
    }
    if x >= fx[n] {
      return fy[n];
    }
    var lo, hi := 0, n;
    while hi - lo > 1
      invariant 0 <= lo < hi <= n
      invariant fx[lo] <= x < fx[hi]
    {
      var mid := (lo + hi) / 2;
      if fx[mid] <= x {
        lo := mid;
      } else {
        hi := mid;
      }
    }
    var i := lo;
    var h := fx[i + 1] - fx[i];
    var a := (fx[i + 1] - x) / h;
    var b := (x - fx[i]) / h;
    v := a * fy[i] + b * fy[i + 1]
         + ((a * a * a - a) * m2[i] + (b * b * b - b) * m2[i + 1]) * (h * h) / 6.0;
    SegmentIs(fx, fy, m2, i, x, h, a, b);
    assert OnSegment(fx, fy, m2, i, x, v);
  }

  // ---------------------------------------------------------------- interpolate_strapping

  /** What the backend answers for a list of points, including which tables it refuses. */
  ghost predicate Answer(points: seq<Point>, level: real, kind: string, r: Outcome) {
    var pts := SortPoints(true, points);
    var hs, vs := Heights(pts), Volumes(pts);
    if |points| < 2 then r == Rejected(TooFewPoints)
    else if !DistinctHeights(points) then r == Rejected(HeightsNotIncreasing)
    else if kind != "linear" && kind != "cubic_spline" then r == Rejected(UnknownMethod)
    else
      && r.Volume?
      && Table(hs, vs)
      && if kind == "linear" then LinearValue(hs, vs, level, r.liters) else SplineValue(hs, vs, level, r.liters)
  }

  /** `interpolate_strapping`. */
  method InterpolateStrapping(points: seq<Point>, level: real, kind: string) returns (r: Outcome)
    ensures Answer(points, level, kind, r)
  {
    var pts := SortPoints(true, points);
    SortedIncreasingIffDistinct(true, points);
    if |pts| < 2 {
      return Rejected(TooFewPoints);
    }
    for i := 0 to |pts| - 1
      invariant forall k :: 0 <= k < i ==> Heights(pts)[k] < Heights(pts)[k + 1]
    {
      if pts[i].height >= pts[i + 1].height {
        assert !(Heights(pts)[i] < Heights(pts)[i + 1]);
        return Rejected(HeightsNotIncreasing);
      }
    }
    if kind != "linear" && kind != "cubic_spline" {
      return Rejected(UnknownMethod);
    }
    var v := Interpolate(Heights(pts), Volumes(pts), level, kind == "linear");
    return Volume(v);
  }

  /** The part of `interpolate_strapping` that runs on a table it has accepted. */
  method Interpolate(hs: seq<real>, vs: seq<real>, level: real, linear: bool) returns (v: real)
    requires Table(hs, vs)
    ensures if linear then LinearValue(hs, vs, level, v) else SplineValue(hs, vs, level, v)
  {
    var n := |hs| - 1;
    if level <= hs[0] {
      return vs[0];
    }
    if level >= hs[n] {
      return vs[n];
    }
    if linear {
      for i := 0 to n
        invariant hs[i] <= level
      {
        if hs[i] <= level <= hs[i + 1] {
          var t := (level - hs[i]) / (hs[i + 1] - hs[i]);
          v := vs[i] + t * (vs[i + 1] - vs[i]);
          assert OnChord(hs, vs, i, level, v);
          return;
        }
      }
      assert false;
    }
    var m2 := NaturalCubicSpline(hs, vs);
    v := SplineEval(hs, vs, m2, level);
  }
}
