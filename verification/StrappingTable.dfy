/** Calibration points of a tank and the table both programs build from them by sorting.

    The backend sorts (height, volume) pairs, the web client sorts by height alone and keeps the given
    order among equal heights.  `SortPoints` models both; `volumeBreaksTies` is the difference.
 */
module StrappingTable {
  import opened SplineTheory

  datatype Point = Point(height: real, volume: real)

  datatype Rejection = TooFewPoints | HeightsNotIncreasing | UnknownMethod

  datatype Outcome = Volume(liters: real) | Rejected(reason: Rejection)

  predicate NotAfter(volumeBreaksTies: bool, p: Point, q: Point) {
    p.height < q.height || (p.height == q.height && (volumeBreaksTies ==> p.volume <= q.volume))
  }

  function Insert(volumeBreaksTies: bool, p: Point, s: seq<Point>): (r: seq<Point>)
    ensures |r| == |s| + 1
    ensures forall q :: q in r <==> q == p || q in s
  {
    if s == [] || NotAfter(volumeBreaksTies, p, s[0]) then [p] + s
    else
      assert s == [s[0]] + s[1..];
      [s[0]] + Insert(volumeBreaksTies, p, s[1..])
  }

  function SortPoints(volumeBreaksTies: bool, s: seq<Point>): (r: seq<Point>)
    ensures |r| == |s|
    ensures forall q :: q in r <==> q in s
  {
    if s == [] then []
    else
      assert s == [s[0]] + s[1..];
      Insert(volumeBreaksTies, s[0], SortPoints(volumeBreaksTies, s[1..]))
  }

  function Heights(s: seq<Point>): (hs: seq<real>)
    ensures |hs| == |s|
    ensures forall i :: 0 <= i < |s| ==> hs[i] == s[i].height
  {
    seq(|s|, i requires 0 <= i < |s| => s[i].height)
  }

  function Volumes(s: seq<Point>): (vs: seq<real>)
    ensures |vs| == |s|
    ensures forall i :: 0 <= i < |s| ==> vs[i] == s[i].volume
  {
    seq(|s|, i requires 0 <= i < |s| => s[i].volume)
  }

  /** No two points share a height. */
  predicate DistinctHeights(s: seq<Point>) {
    s == [] || ((forall q <- s[1..] :: q.height != s[0].height) && DistinctHeights(s[1..]))
  }

  ghost predicate Ascending(s: seq<Point>) {
    s == [] || ((forall q <- s[1..] :: s[0].height <= q.height) && Ascending(s[1..]))
  }

  lemma {:induction false} InsertKeepsAscending(t: bool, p: Point, s: seq<Point>)
    requires Ascending(s)
    ensures Ascending(Insert(t, p, s))
    ensures DistinctHeights(Insert(t, p, s)) <==> DistinctHeights(s) && forall q <- s :: q.height != p.height
  {
    var r := Insert(t, p, s);
    if s == [] {
      assert r[1..] == [];
    } else if NotAfter(t, p, s[0]) {
      assert r[1..] == s;
      assert s == [s[0]] + s[1..];
    } else {
      InsertKeepsAscending(t, p, s[1..]);
      assert r[1..] == Insert(t, p, s[1..]);
      assert s == [s[0]] + s[1..];
      assert r == [s[0]] + r[1..];
      assert p in r[1..];
    }
  }

  lemma {:induction false} SortAscends(t: bool, s: seq<Point>)
    ensures Ascending(SortPoints(t, s))
    ensures DistinctHeights(SortPoints(t, s)) <==> DistinctHeights(s)
  {
    if s != [] {
      SortAscends(t, s[1..]);
      InsertKeepsAscending(t, s[0], SortPoints(t, s[1..]));
    }
  }

  lemma {:induction false} AscendingPairs(s: seq<Point>, i: int, j: int)
    requires Ascending(s) && 0 <= i <= j < |s|
    ensures s[i].height <= s[j].height
  {
    if i > 0 {
      AscendingPairs(s[1..], i - 1, j - 1);
    } else if j > 0 {
      assert s[1..][j - 1] == s[j];
    }
  }

  lemma {:induction false} DistinctPairs(s: seq<Point>, i: int, j: int)
    requires DistinctHeights(s) && 0 <= i < j < |s|
    ensures s[i].height != s[j].height
  {
    if i > 0 {
      DistinctPairs(s[1..], i - 1, j - 1);
    } else {
      assert s[1..][j - 1] == s[j];
    }
  }

  lemma TailIncreasing(s: seq<Point>)
    requires s != [] && StrictlyIncreasing(Heights(s))
    ensures StrictlyIncreasing(Heights(s[1..]))
  {
  }

  lemma LowestIsAlone(s: seq<Point>)
    requires s != [] && StrictlyIncreasing(Heights(s))
    ensures forall q <- s[1..] :: q.height != s[0].height
  {
    hide StrictlyIncreasing;
    forall q | q in s[1..] ensures q.height != s[0].height {
      var j :| 0 <= j < |s[1..]| && s[1..][j] == q;
      KnotsOrdered(Heights(s), 0, j + 1);
    }
  }

  lemma {:induction false} IncreasingIsDistinct(s: seq<Point>)
    requires StrictlyIncreasing(Heights(s))
    ensures DistinctHeights(s)
  {
    hide Heights, StrictlyIncreasing;
    if s != [] {
      TailIncreasing(s);
      IncreasingIsDistinct(s[1..]);
      LowestIsAlone(s);
    }
  }

  /** Sorting gives strictly increasing heights exactly when no two points share a height, whichever
      way ties are broken. */
  lemma SortedIncreasingIffDistinct(t: bool, s: seq<Point>)
    ensures StrictlyIncreasing(Heights(SortPoints(t, s))) <==> DistinctHeights(s)
  {
    var r := SortPoints(t, s);
    SortAscends(t, s);
    hide Heights, SortPoints, Ascending, DistinctHeights;
    if DistinctHeights(s) {
      forall i | 0 <= i < |r| - 1 ensures Heights(r)[i] < Heights(r)[i + 1] {
        AscendingPairs(r, i, i + 1);
        DistinctPairs(r, i, i + 1);
      }
    }
    if StrictlyIncreasing(Heights(r)) {
      IncreasingIsDistinct(r);
    }
  }

  lemma {:induction false} InsertIgnoresTieRule(p: Point, s: seq<Point>)
    requires forall q <- s :: q.height != p.height
    ensures Insert(true, p, s) == Insert(false, p, s)
  {
    if s != [] && !NotAfter(true, p, s[0]) {
      InsertIgnoresTieRule(p, s[1..]);
    }
  }

  /** With distinct heights the two sort orders build the same table. */
  lemma {:induction false} SortsAgree(s: seq<Point>)
    requires DistinctHeights(s)
    ensures SortPoints(true, s) == SortPoints(false, s)
  {
    if s != [] {
      SortsAgree(s[1..]);
      InsertIgnoresTieRule(s[0], SortPoints(true, s[1..]));
    }
  }

  // ---------------------------------------------------------------- linear interpolation

  /** `v` is the straight-line interpolation of `vs` over `hs` at `x`, clamped at both ends. */
  ghost predicate LinearValue(hs: seq<real>, vs: seq<real>, x: real, v: real)
    requires Table(hs, vs)
  {
    if x <= hs[0] then v == vs[0]
    else if x >= hs[|hs| - 1] then v == vs[|hs| - 1]
    else exists i :: OnChord(hs, vs, i, x, v)
  }

  ghost predicate OnChord(hs: seq<real>, vs: seq<real>, i: int, x: real, v: real)
    requires |hs| == |vs|
  {
    && 0 <= i < |hs| - 1
    && hs[i] <= x <= hs[i + 1]
    && hs[i] < hs[i + 1]
    && v == vs[i] + (x - hs[i]) / (hs[i + 1] - hs[i]) * (vs[i + 1] - vs[i])
  }

  lemma ChordEnds(hs: seq<real>, vs: seq<real>, i: int, x: real, v: real)
    requires |hs| == |vs| && OnChord(hs, vs, i, x, v)
    ensures x == hs[i] ==> v == vs[i]
    ensures x == hs[i + 1] ==> v == vs[i + 1]
  {
  }

  lemma ChordBetween(x0: real, x1: real, v0: real, v1: real, x: real, y: real)
    requires x0 <= x <= y <= x1 && x0 < x1 && v0 <= v1
    ensures v0 <= v0 + (x - x0) / (x1 - x0) * (v1 - v0) <= v0 + (y - x0) / (x1 - x0) * (v1 - v0) <= v1
  {
  }

  ghost predicate NonDecreasing(vs: seq<real>) {
    forall i, j :: 0 <= i <= j < |vs| ==> vs[i] <= vs[j]
  }

  /** With non-decreasing volumes a linear table is non-decreasing in the level and stays between the
      empty and the full volume. */
  lemma LinearMonotone(hs: seq<real>, vs: seq<real>, x: real, v: real, y: real, w: real)
    requires Table(hs, vs) && NonDecreasing(vs)
    requires LinearValue(hs, vs, x, v) && LinearValue(hs, vs, y, w) && x <= y
    ensures vs[0] <= v <= w <= vs[|vs| - 1]
  {
    var n := |hs| - 1;
    KnotsOrdered(hs, 0, n);
    LinearBounded(hs, vs, x, v);
    LinearBounded(hs, vs, y, w);
    if hs[0] < x && y < hs[n] {
      var i :| OnChord(hs, vs, i, x, v);
      var j :| OnChord(hs, vs, j, y, w);
      ChordsOrdered(hs, vs, i, j, x, v, y, w);
    }
  }

  lemma ChordsOrdered(hs: seq<real>, vs: seq<real>, i: int, j: int, x: real, v: real, y: real, w: real)
    requires Table(hs, vs) && NonDecreasing(vs)
    requires OnChord(hs, vs, i, x, v) && OnChord(hs, vs, j, y, w) && x <= y
    ensures v <= w
  {
    if i == j {
      ChordBetween(hs[i], hs[i + 1], vs[i], vs[i + 1], x, y);
    } else {
      ChordBounds(hs, vs, i, x, v);
      ChordBounds(hs, vs, j, y, w);
      if j < i {
        ChordsMeet(hs, vs, j, i, y, w, x, v);
      }
    }
  }

  /** Of two chords the left one lies below the right one unless they meet at a common knot. */
  lemma ChordsMeet(hs: seq<real>, vs: seq<real>, i: int, j: int, x: real, v: real, y: real, w: real)
    requires Table(hs, vs) && i < j && OnChord(hs, vs, i, x, v) && OnChord(hs, vs, j, y, w) && y <= x
    ensures v == w
  {
    if i + 1 < j {
      KnotsOrdered(hs, i + 1, j);
    }
    hide StrictlyIncreasing;
    ChordEnds(hs, vs, i, x, v);
    ChordEnds(hs, vs, j, y, w);
  }

  lemma ChordBounds(hs: seq<real>, vs: seq<real>, i: int, x: real, v: real)
    requires |hs| == |vs| && NonDecreasing(vs) && OnChord(hs, vs, i, x, v)
    ensures vs[i] <= v <= vs[i + 1]
  {
    ChordBetween(hs[i], hs[i + 1], vs[i], vs[i + 1], x, x);
  }

  lemma LinearBounded(hs: seq<real>, vs: seq<real>, x: real, v: real)
    requires Table(hs, vs) && NonDecreasing(vs) && LinearValue(hs, vs, x, v)
    ensures vs[0] <= v <= vs[|vs| - 1]
  {
    if hs[0] < x < hs[|hs| - 1] {
      var i :| OnChord(hs, vs, i, x, v);
      ChordBounds(hs, vs, i, x, v);
    }
  }

  /** Every level has a linear value. */
  lemma LinearValueExists(hs: seq<real>, vs: seq<real>, x: real) returns (v: real)
    requires Table(hs, vs)
    ensures LinearValue(hs, vs, x, v)
  {
    var n := |hs| - 1;
    if x <= hs[0] {
      v := vs[0];
    } else if x >= hs[n] {
      v := vs[n];
    } else {
      var i := ChordAround(hs, x, n);
      v := vs[i] + (x - hs[i]) / (hs[i + 1] - hs[i]) * (vs[i + 1] - vs[i]);
      assert OnChord(hs, vs, i, x, v);
    }
  }

  lemma {:induction false} ChordAround(hs: seq<real>, x: real, n: int) returns (i: int)
    requires 0 < n < |hs| && StrictlyIncreasing(hs) && hs[0] <= x <= hs[n]
    ensures 0 <= i < n && hs[i] <= x <= hs[i + 1] && hs[i] < hs[i + 1]
    decreases n
  {
    if x >= hs[n - 1] {
      i := n - 1;
    } else {
      i := ChordAround(hs, x, n - 1);
    }
  }

  /** The chord through a level is unique in value even where two chords meet. */
  lemma LinearValueUnique(hs: seq<real>, vs: seq<real>, x: real, v: real, w: real)
    requires Table(hs, vs) && LinearValue(hs, vs, x, v) && LinearValue(hs, vs, x, w)
    ensures v == w
  {
    hide OnChord, StrictlyIncreasing;
    if hs[0] < x < hs[|hs| - 1] {
      var i :| OnChord(hs, vs, i, x, v);
      var j :| OnChord(hs, vs, j, x, w);
      ChordsAgree(hs, vs, i, j, x, v, w);
    }
  }

  lemma ChordsAgree(hs: seq<real>, vs: seq<real>, i: int, j: int, x: real, v: real, w: real)
    requires Table(hs, vs) && OnChord(hs, vs, i, x, v) && OnChord(hs, vs, j, x, w)
    ensures v == w
  {
    if i < j {
      ChordsMeet(hs, vs, i, j, x, v, x, w);
    } else if j < i {
      ChordsMeet(hs, vs, j, i, x, w, x, v);
    }
  }
}
