/** Volumes of the regular tank shapes, in the backend and in the web client's mirror of it.
 */
module TankShapes {
  import opened Common

  /** Pi and the two functions of the mathematics library, about which nothing is assumed unless stated. */
  datatype Trig = Trig(pi: real, acos: real -> real, sin: real -> real)

  datatype Shape = VerticalCylinder | HorizontalCylinder | Rectangular | Spherical

  datatype Dims = Dims(diameter: real, length: Option<real>, height: Option<real>, width: Option<real>)

  function Max(a: real, b: real): real {
    if b > a then b else a
  }

  function Min(a: real, b: real): real {
    if b < a then b else a
  }

  function Clamp(level: real, lo: real, hi: real): real {
    Max(lo, Min(level, hi))
  }

  // ---------------------------------------------------------------- backend

  function Square(x: real): real {
    x * x
  }

  /** The circular segment of a disc of the given radius up to `level`, which is at most the radius. */
  function Segment(trig: Trig, level: real, radius: real): real
    requires radius != 0.0
  {
    var theta := 2.0 * trig.acos((radius - level) / radius);
    Square(radius) * (theta - trig.sin(theta)) / 2.0
  }

  function FullCylinder(trig: Trig, diameter: real, length: real): real {
    trig.pi * Square(diameter / 2.0) * length * 1000.0
  }

  function HorizontalCylinderVolume(trig: Trig, rawLevel: real, diameter: real, length: real): real {
    var level := Clamp(rawLevel, 0.0, diameter);
    var radius := diameter / 2.0;
    if level <= 0.001 then 0.0
    else if level >= diameter - 0.001 then FullCylinder(trig, diameter, length)
    else
      var area := if level <= radius then Segment(trig, level, radius)
                  else trig.pi * Square(radius) - Segment(trig, diameter - level, radius);
      area * length * 1000.0
  }

  /** Python's `x or y` on an optional number: zero counts as absent. */
  function Or(x: Option<real>, otherwise: real): real {
    if x.Some? && x.value != 0.0 then x.value else otherwise
  }

  /** `calculate_volume_for_shape`. */
  function Volume(trig: Trig, shape: Shape, dims: Dims, level: real): real {
    match shape
    case VerticalCylinder =>
      trig.pi * Square(dims.diameter / 2.0) * Clamp(level, 0.0, Or(dims.height, dims.diameter)) * 1000.0
    case Rectangular =>
      Or(dims.length, 0.0) * Or(dims.width, 0.0) * Clamp(level, 0.0, Or(dims.height, 0.0)) * 1000.0
    case Spherical => Cap(trig, dims.diameter / 2.0, Clamp(level, 0.0, dims.diameter))
    case HorizontalCylinder => HorizontalCylinderVolume(trig, level, dims.diameter, Or(dims.length, 0.0))
  }

  /** The spherical cap of height `h`. */
  function Cap(trig: Trig, radius: real, h: real): real {
    (trig.pi * Square(h) / 3.0) * (3.0 * radius - h) * 1000.0
  }

  // ---------------------------------------------------------------- web client

  /** JavaScript's `x ?? y`: only an absent number is replaced. */
  function Coalesce(x: Option<real>, otherwise: real): real {
    if x.Some? then x.value else otherwise
  }

  /** `horizontalCylinderLiters`. */
  function HorizontalCylinderLiters(trig: Trig, rawLevel: real, diameter: real, length: real): real {
    var level := Clamp(rawLevel, 0.0, diameter);
    var r := diameter / 2.0;
    if level <= 0.001 then 0.0
    else if level >= diameter - 0.001 then trig.pi * r * r * length * 1000.0
    else
      var area :=
        if level <= r then
          var theta := 2.0 * trig.acos((r - level) / r);
          r * r * (theta - trig.sin(theta)) / 2.0
        else
          var empty := diameter - level;
          var theta := 2.0 * trig.acos((r - empty) / r);
          trig.pi * r * r - r * r * (theta - trig.sin(theta)) / 2.0;
      area * length * 1000.0
  }

  /** `volumeLitersForShape`. */
  function WebVolume(trig: Trig, shape: Shape, dims: Dims, level: real): real {
    match shape
    case VerticalCylinder =>
      trig.pi * Square(dims.diameter / 2.0) * Clamp(level, 0.0, Coalesce(dims.height, dims.diameter)) * 1000.0
    case Rectangular =>
      Coalesce(dims.length, 0.0) * Coalesce(dims.width, 0.0) * Clamp(level, 0.0, Coalesce(dims.height, 0.0)) * 1000.0
    case Spherical =>
      var r, h := dims.diameter / 2.0, Clamp(level, 0.0, dims.diameter);
      (trig.pi * h * h / 3.0) * (3.0 * r - h) * 1000.0
    case HorizontalCylinder => HorizontalCylinderLiters(trig, level, dims.diameter, Coalesce(dims.length, 0.0))
  }

  /** The two ways of computing the liquid in a horizontal cylinder agree, whatever the trigonometry. */
  lemma CylindersAgree(trig: Trig, level: real, diameter: real, length: real)
    ensures HorizontalCylinderVolume(trig, level, diameter, length)
         == HorizontalCylinderLiters(trig, level, diameter, length)
  {
    var r := diameter / 2.0;
    assert trig.pi * r * r == trig.pi * Square(r);
    hide Clamp;
  }

  /** The two agree on every shape and level, except that a vertical cylinder whose height is stored as zero holds
      nothing in the web client and takes its diameter for a height in the backend. */
  lemma ShapesAgreeIff(trig: Trig, shape: Shape, dims: Dims, level: real)
    requires trig.pi > 0.0 && dims.diameter > 0.0
    ensures Volume(trig, shape, dims, level) == WebVolume(trig, shape, dims, level)
       <==> !(shape == VerticalCylinder && dims.height == Some(0.0) && level > 0.0)
  {
    if shape == HorizontalCylinder {
      CylindersAgree(trig, level, dims.diameter, Or(dims.length, 0.0));
    } else if shape == VerticalCylinder {
      SquarePositive(dims.diameter / 2.0);
      hide Square;
      var base := trig.pi * Square(dims.diameter / 2.0);
      ProductPositive(trig.pi, Square(dims.diameter / 2.0));
      if dims.height == Some(0.0) && level > 0.0 {
        var inside := Clamp(level, 0.0, dims.diameter);
        assert inside > 0.0;
        ProductPositive(base, inside);
      }
    }
  }

  lemma SquarePositive(x: real)
    requires x > 0.0
    ensures Square(x) > 0.0
  {
    calc {
      Square(x);
    ==
      x * x;
    >  { ProductPositive(x, x); }
      0.0;
    }
  }

  lemma ProductPositive(a: real, b: real)
    requires a > 0.0 && b > 0.0
    ensures a * b > 0.0
  {
  }

  // ---------------------------------------------------------------- monotone and bounded

  lemma ProductNonNegative(a: real, b: real)
    requires a >= 0.0 && b >= 0.0
    ensures a * b >= 0.0
  {
  }

  lemma ProductMonotone(a: real, x: real, y: real)
    requires a >= 0.0 && x <= y
    ensures a * x <= a * y
  {
  }

  ghost predicate NonNegative(dims: Dims) {
    && dims.diameter >= 0.0 && Or(dims.length, 0.0) >= 0.0
    && Or(dims.height, 0.0) >= 0.0 && Or(dims.width, 0.0) >= 0.0
  }

  /** A cap grows with its height up to the whole sphere. */
  lemma CapMonotone(trig: Trig, radius: real, a: real, b: real)
    requires trig.pi >= 0.0 && 0.0 <= a <= b <= 2.0 * radius
    ensures Cap(trig, radius, a) <= Cap(trig, radius, b)
  {
    var fa, fb := Square(a) * (3.0 * radius - a), Square(b) * (3.0 * radius - b);
    CapPolynomial(radius, a, b);
    CapFactors(trig.pi, Square(a), 3.0 * radius - a);
    CapFactors(trig.pi, Square(b), 3.0 * radius - b);
    ProductMonotone(trig.pi, fa, fb);
  }

  lemma CapFactors(pi: real, square: real, rest: real)
    ensures (pi * square / 3.0) * rest * 1000.0 == pi * (square * rest) * 1000.0 / 3.0
  {
  }

  /** The difference of two caps factors into `b - a` and a sum of non-negative terms. */
  lemma CapPolynomial(radius: real, a: real, b: real)
    requires 0.0 <= a <= b <= 2.0 * radius
    ensures Square(a) * (3.0 * radius - a) <= Square(b) * (3.0 * radius - b)
  {
    var sum := a * (2.0 * radius - a) + b * (2.0 * radius - b)
               + (a * (2.0 * radius - b) + b * (2.0 * radius - a)) / 2.0;
    ProductNonNegative(a, 2.0 * radius - a);
    ProductNonNegative(b, 2.0 * radius - b);
    ProductNonNegative(a, 2.0 * radius - b);
    ProductNonNegative(b, 2.0 * radius - a);
    ProductNonNegative(b - a, sum);
    CapIdentity(radius, a, b, sum);
  }

  lemma CapIdentity(r: real, a: real, b: real, sum: real)
    requires sum == a * (2.0 * r - a) + b * (2.0 * r - b) + (a * (2.0 * r - b) + b * (2.0 * r - a)) / 2.0
    ensures Square(b) * (3.0 * r - b) - Square(a) * (3.0 * r - a) == (b - a) * sum
  {
  }

  /** A higher level never means less volume in a vertical cylinder, a box or a sphere. */
  lemma VolumeMonotone(trig: Trig, shape: Shape, dims: Dims, low: real, high: real)
    requires trig.pi >= 0.0 && NonNegative(dims) && shape != HorizontalCylinder && low <= high
    ensures Volume(trig, shape, dims, low) <= Volume(trig, shape, dims, high)
  {
    hide Clamp, Cap, Or;
    match shape
    case VerticalCylinder =>
      var height := Or(dims.height, dims.diameter);
      ClampMonotone(low, high, height);
      ProductNonNegative(dims.diameter / 2.0, dims.diameter / 2.0);
      ProductNonNegative(trig.pi, Square(dims.diameter / 2.0));
      ProductMonotone(trig.pi * Square(dims.diameter / 2.0), Clamp(low, 0.0, height), Clamp(high, 0.0, height));
    case Rectangular =>
      var height := Or(dims.height, 0.0);
      ClampMonotone(low, high, height);
      ProductNonNegative(Or(dims.length, 0.0), Or(dims.width, 0.0));
      ProductMonotone(Or(dims.length, 0.0) * Or(dims.width, 0.0), Clamp(low, 0.0, height), Clamp(high, 0.0, height));
    case Spherical =>
      ClampMonotone(low, high, dims.diameter);
      CapMonotone(trig, dims.diameter / 2.0, Clamp(low, 0.0, dims.diameter), Clamp(high, 0.0, dims.diameter));
  }

  lemma ClampMonotone(low: real, high: real, top: real)
    requires low <= high
    ensures 0.0 <= Clamp(low, 0.0, top) <= Clamp(high, 0.0, top)
    ensures top >= 0.0 ==> Clamp(high, 0.0, top) <= top
  {
  }

  /** The level at which the shape is full. */
  function Top(shape: Shape, dims: Dims): real {
    match shape
    case VerticalCylinder => Or(dims.height, dims.diameter)
    case Rectangular => Or(dims.height, 0.0)
    case _ => dims.diameter
  }

  /** Every volume lies between empty, which is zero, and full. */
  lemma VolumeBounded(trig: Trig, shape: Shape, dims: Dims, level: real)
    requires trig.pi >= 0.0 && NonNegative(dims) && shape != HorizontalCylinder
    ensures 0.0 == Volume(trig, shape, dims, 0.0) <= Volume(trig, shape, dims, level)
         <= Volume(trig, shape, dims, Top(shape, dims))
  {
    var clamped := Clamp(level, 0.0, Top(shape, dims));
    assert Volume(trig, shape, dims, level) == Volume(trig, shape, dims, clamped);
    VolumeMonotone(trig, shape, dims, 0.0, clamped);
    VolumeMonotone(trig, shape, dims, clamped, Top(shape, dims));
  }

  // ---------------------------------------------------------------- filled plus empty

  /** In a sphere the liquid up to a level and the liquid up to the empty height make a full tank. */
  lemma SphereSymmetric(trig: Trig, dims: Dims, level: real)
    requires 0.0 <= level <= dims.diameter
    ensures Volume(trig, Spherical, dims, level) + Volume(trig, Spherical, dims, dims.diameter - level)
         == Volume(trig, Spherical, dims, dims.diameter)
  {
  }

  /** In a horizontal cylinder, away from the half-full level and whatever the trigonometry, the same holds unless
      the tank is so narrow that filled and empty height both count as nothing while the full tank does not. */
  lemma CylinderSymmetricIff(trig: Trig, diameter: real, length: real, level: real)
    requires 0.0 <= level <= diameter && level != diameter / 2.0
    ensures HorizontalCylinderVolume(trig, level, diameter, length)
            + HorizontalCylinderVolume(trig, diameter - level, diameter, length)
            == HorizontalCylinderVolume(trig, diameter, diameter, length)
       <==> !(level <= 0.001 && diameter - level <= 0.001 && diameter > 0.001
              && FullCylinder(trig, diameter, length) != 0.0)
  {
    var radius := diameter / 2.0;
    if 0.001 < level < diameter - 0.001 {
      var less := Min(level, diameter - level);
      assert diameter - (diameter - less) == less;
      SplitArea(trig.pi * Square(radius), Segment(trig, less, radius), length);
    }
  }

  lemma SplitArea(full: real, part: real, length: real)
    ensures part * length * 1000.0 + (full - part) * length * 1000.0 == full * length * 1000.0
  {
  }

  /** At the half-full level both halves are computed alike, so it holds there exactly when the library's values at
      a quarter turn fit together. */
  lemma HalfFullIff(trig: Trig, diameter: real, length: real)
    requires diameter > 0.002 && length > 0.0
    ensures var theta := 2.0 * trig.acos(0.0);
            2.0 * HorizontalCylinderVolume(trig, diameter / 2.0, diameter, length)
            == HorizontalCylinderVolume(trig, diameter, diameter, length)
            <==> theta - trig.sin(theta) == trig.pi
  {
  }
}
