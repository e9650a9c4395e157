/** `CalqLuxUtils` (js/utils.js): unit conversions, geometry, number
    formatting, validation and array statistics. The colour helpers are in
    module `Colors` and the event emitter in module `Events`. */
module Utils {
  import opened RealMath

  // ---------------------------------------------------------------------
  // Unit conversions
  // ---------------------------------------------------------------------

  function MetersToFeet(meters: real): real { meters * 3.28084 }

  function FeetToMeters(feet: real): real { feet / 3.28084 }

  function LuxToFootCandles(lux: real): real { lux * 0.092903 }

  function FootCandlesToLux(footCandles: real): real { footCandles / 0.092903 }

  function DegreesToRadians(degrees: real): real { degrees * (PI / 180.0) }

  function RadiansToDegrees(radians: real): real { radians * (180.0 / PI) }

  /** Each conversion is undone by its partner, in both directions. */
  lemma LengthRoundTrip(meters: real, feet: real)
    ensures FeetToMeters(MetersToFeet(meters)) == meters
    ensures MetersToFeet(FeetToMeters(feet)) == feet
  {
  }

  lemma IlluminanceRoundTrip(lux: real, footCandles: real)
    ensures FootCandlesToLux(LuxToFootCandles(lux)) == lux
    ensures LuxToFootCandles(FootCandlesToLux(footCandles)) == footCandles
  {
  }

  lemma AngleRoundTrip(degrees: real, radians: real)
    ensures RadiansToDegrees(DegreesToRadians(degrees)) == degrees
    ensures DegreesToRadians(RadiansToDegrees(radians)) == radians
  {
  }

  // ---------------------------------------------------------------------
  // Geometry
  // ---------------------------------------------------------------------

  datatype Point2 = Point2(x: real, y: real)

  datatype Rect = Rect(x: real, y: real, width: real, height: real)

  /** Euclidean distance between (x1, y1) and (x2, y2). */
  function Distance(m: Math, x1: real, y1: real, x2: real, y2: real): (r: real)
    ensures r >= 0.0
    ensures x1 == x2 && y1 == y2 ==> r == 0.0
    ensures r > 0.0 ==> x1 != x2 || y1 != y2
  {
    var dx, dy := x2 - x1, y2 - y1;
    SquareNonNegative(dx);
    SquareNonNegative(dy);
    var s := dx * dx + dy * dy;
    m.sqrt(s)
  }

  lemma DistanceSymmetric(m: Math, x1: real, y1: real, x2: real, y2: real)
    ensures Distance(m, x1, y1, x2, y2) == Distance(m, x2, y2, x1, y1)
  {
    assert (x2 - x1) * (x2 - x1) == (x1 - x2) * (x1 - x2);
    assert (y2 - y1) * (y2 - y1) == (y1 - y2) * (y1 - y2);
  }

  /** Bearing from (x1, y1) to (x2, y2), in radians. */
  function Angle(m: Math, x1: real, y1: real, x2: real, y2: real): (r: real)
    ensures x1 == x2 && y2 > y1 ==> r == PI / 2.0
  {
    m.atan2(y2 - y1, x2 - x1)
  }

  /** Moving both points by the same offset changes neither their distance nor the bearing between them. */
  lemma TranslationInvariant(m: Math, x1: real, y1: real, x2: real, y2: real, dx: real, dy: real)
    ensures Distance(m, x1 + dx, y1 + dy, x2 + dx, y2 + dy) == Distance(m, x1, y1, x2, y2)
    ensures Angle(m, x1 + dx, y1 + dy, x2 + dx, y2 + dy) == Angle(m, x1, y1, x2, y2)
  {
    assert (x2 + dx) - (x1 + dx) == x2 - x1;
    assert (y2 + dy) - (y1 + dy) == y2 - y1;
  }

  /** Closed rectangle test. */
  predicate PointInRectangle(p: Point2, rect: Rect) {
    p.x >= rect.x && p.x <= rect.x + rect.width &&
    p.y >= rect.y && p.y <= rect.y + rect.height
  }

  /** The four corners of a rectangle with non-negative sides are inside it. */
  lemma RectangleCorners(rect: Rect)
    requires rect.width >= 0.0 && rect.height >= 0.0
    ensures PointInRectangle(Point2(rect.x, rect.y), rect)
    ensures PointInRectangle(Point2(rect.x + rect.width, rect.y), rect)
    ensures PointInRectangle(Point2(rect.x, rect.y + rect.height), rect)
    ensures PointInRectangle(Point2(rect.x + rect.width, rect.y + rect.height), rect)
  {
  }

  /**
   * The rectangle test is the range test on each coordinate, and, for a
   * rectangle with non-negative sides, holds exactly when clamping the point
   * into the rectangle leaves it where it is.
   */
  lemma RectangleIsClampFixpoint(p: Point2, rect: Rect)
    ensures PointInRectangle(p, rect) <==>
      IsValidRange(Num(Finite(p.x)), rect.x, rect.x + rect.width)
      && IsValidRange(Num(Finite(p.y)), rect.y, rect.y + rect.height)
    ensures rect.width >= 0.0 && rect.height >= 0.0 ==>
      (PointInRectangle(p, rect) <==>
        Clamp(p.x, rect.x, rect.x + rect.width) == p.x && Clamp(p.y, rect.y, rect.y + rect.height) == p.y)
  {
    if rect.width >= 0.0 && rect.height >= 0.0 {
      ValidRangeIsClampFixpoint(p.x, rect.x, rect.x + rect.width);
      ValidRangeIsClampFixpoint(p.y, rect.y, rect.y + rect.height);
    }
  }

  /** Closed disc test. */
  function PointInCircle(m: Math, p: Point2, center: Point2, radius: real): (r: bool)
    ensures p == center && radius >= 0.0 ==> r
    ensures radius < 0.0 ==> !r
  {
    Distance(m, p.x, p.y, center.x, center.y) <= radius
  }

  /**
   * The disc test does not care which of the two points is the centre, and a
   * point inside a circle is inside every larger circle about the same centre.
   */
  lemma CircleSymmetricMonotone(m: Math, p: Point2, center: Point2, radius: real, larger: real)
    requires radius <= larger
    ensures PointInCircle(m, p, center, radius) == PointInCircle(m, center, p, radius)
    ensures PointInCircle(m, p, center, radius) ==> PointInCircle(m, p, center, larger)
  {
    DistanceSymmetric(m, p.x, p.y, center.x, center.y);
  }

  /** The edge from `a` to `b` crosses the horizontal ray going right from `p`
      (the test inside the loop of `pointInPolygon`). The division is reached
      only when the edge spans the ray's height, so `a.y != b.y` there. */
  predicate EdgeCrosses(p: Point2, a: Point2, b: Point2) {
    ((a.y > p.y) != (b.y > p.y)) &&
    (p.x < (b.x - a.x) * (p.y - a.y) / (b.y - a.y) + a.x)
  }

  /** Number of the first `n` edges (vertex i joined to its predecessor, the
      first vertex to the last) that the ray from `p` crosses. */
  function Crossings(p: Point2, polygon: seq<Point2>, n: nat): nat
    requires n <= |polygon|
  {
    if n == 0 then 0
    else
      var j := if n - 1 == 0 then |polygon| - 1 else n - 2;
      Crossings(p, polygon, n - 1) + (if EdgeCrosses(p, polygon[n - 1], polygon[j]) then 1 else 0)
  }

  /** Ray casting: the point is inside when the ray crosses an odd number of edges. */
  method PointInPolygon(point: Point2, polygon: seq<Point2>) returns (inside: bool)
    ensures inside <==> Crossings(point, polygon, |polygon|) % 2 == 1
  {
    inside := false;
    if |polygon| == 0 {
      return;
    }
    var i, j := 0, |polygon| - 1;
    while i < |polygon|
      invariant 0 <= i <= |polygon|
      invariant j == if i == 0 then |polygon| - 1 else i - 1
      invariant inside <==> Crossings(point, polygon, i) % 2 == 1
    {
      if EdgeCrosses(point, polygon[i], polygon[j]) {
        inside := !inside;
      }
      j := i;
      i := i + 1;
    }
  }

  /** No edge crosses a ray that runs above every vertex or below every vertex. */
  lemma {:induction false} NoCrossingsOutsideVerticalExtent(p: Point2, polygon: seq<Point2>, n: nat)
    requires n <= |polygon|
    requires (forall v :: v in polygon ==> v.y <= p.y) || (forall v :: v in polygon ==> v.y > p.y)
    ensures Crossings(p, polygon, n) == 0
  {
    if n > 0 {
      NoCrossingsOutsideVerticalExtent(p, polygon, n - 1);
      var j := if n - 1 == 0 then |polygon| - 1 else n - 2;
      assert polygon[n - 1] in polygon && polygon[j] in polygon;
    }
  }

  /** A point above or below every vertex of a polygon is outside it. */
  lemma OutsideVerticalExtent(p: Point2, polygon: seq<Point2>)
    requires (forall v :: v in polygon ==> v.y <= p.y) || (forall v :: v in polygon ==> v.y > p.y)
    ensures Crossings(p, polygon, |polygon|) % 2 == 0
  {
    NoCrossingsOutsideVerticalExtent(p, polygon, |polygon|);
  }

  /** A polygon of fewer than three vertices encloses nothing: with two
      vertices both edges are the same segment, crossed twice or not at all. */
  lemma DegeneratePolygon(p: Point2, polygon: seq<Point2>)
    requires |polygon| < 3
    ensures Crossings(p, polygon, |polygon|) % 2 == 0
  {
    if |polygon| == 2 {
      var a, b := polygon[0], polygon[1];
      EdgeCrossesSymmetric(p, a, b);
      assert Crossings(p, polygon, 1) == if EdgeCrosses(p, a, b) then 1 else 0;
      assert Crossings(p, polygon, 2) == Crossings(p, polygon, 1) + if EdgeCrosses(p, b, a) then 1 else 0;
    }
  }

  /** The crossing test does not depend on the direction of the edge. */
  lemma EdgeCrossesSymmetric(p: Point2, a: Point2, b: Point2)
    ensures EdgeCrosses(p, a, b) == EdgeCrosses(p, b, a)
  {
    if (a.y > p.y) != (b.y > p.y) {
      var dx, dy, u := b.x - a.x, b.y - a.y, p.y - a.y;
      var t := u / dy;
      MulDivAssoc(dx, u, dy);
      MulDivAssoc(-dx, u - dy, -dy);
      assert (u - dy) / (-dy) == 1.0 - t by {
        DivNegateBoth(dy - u, dy);
        DivComplement(dy, u);
      }
      assert (-dx) * (1.0 - t) == dx * t - dx;
    }
  }

  // ---------------------------------------------------------------------
  // Grid snapping
  // ---------------------------------------------------------------------

  /** Nearest multiple of `gridSize`. */
  function SnapToGrid(value: real, gridSize: real): (r: real)
    requires gridSize != 0.0
    ensures gridSize > 0.0 ==> value - gridSize / 2.0 <= r <= value + gridSize / 2.0
  {
    if gridSize > 0.0 then
      SnapError(value, gridSize, Round(value / gridSize));
      Round(value / gridSize) as real * gridSize
    else
      Round(value / gridSize) as real * gridSize
  }

  /** The snapped value is an integer multiple of the grid size. */
  lemma SnapIsMultiple(value: real, gridSize: real)
    requires gridSize != 0.0
    ensures IsIntegral(SnapToGrid(value, gridSize) / gridSize)
  {
    var k := Round(value / gridSize);
    assert SnapToGrid(value, gridSize) == k as real * gridSize;
    MulDivCancel(k as real, gridSize);
    assert SnapToGrid(value, gridSize) / gridSize == k as real;
    IntIsIntegral(k);
  }

  lemma MultipleIsIntegral(k: int, gridSize: real)
    requires gridSize != 0.0
    ensures IsIntegral(k as real * gridSize / gridSize)
  {
    MulDivCancel(k as real, gridSize);
    assert k as real * gridSize / gridSize == k as real;
    assert (k as real).Floor == k;
  }

  lemma SnapError(value: real, gridSize: real, k: int)
    requires gridSize > 0.0 && k == Round(value / gridSize)
    ensures value - gridSize / 2.0 <= k as real * gridSize <= value + gridSize / 2.0
  {
    var q := value / gridSize;
    var kr := k as real;
    assert q - 0.5 < kr <= q + 0.5;
    MulDivCancel(value, gridSize);
    MulLeftMonotone(kr, q + 0.5, gridSize);
    MulLeftMonotone(q - 0.5, kr, gridSize);
    AddMul(q, 0.5, gridSize);
    AddMul(q, -0.5, gridSize);
  }

  /** Snapping is idempotent. */
  lemma SnapIdempotent(value: real, gridSize: real)
    requires gridSize != 0.0
    ensures SnapToGrid(SnapToGrid(value, gridSize), gridSize) == SnapToGrid(value, gridSize)
  {
    var k := Round(value / gridSize);
    assert SnapToGrid(value, gridSize) == k as real * gridSize;
    SnapMultiple(k, gridSize);
  }

  /** A multiple of the grid size snaps to itself. */
  lemma SnapMultiple(k: int, gridSize: real)
    requires gridSize != 0.0
    ensures SnapToGrid(k as real * gridSize, gridSize) == k as real * gridSize
  {
    MulDivCancel(k as real, gridSize);
    RoundIntegral(k);
  }

  function SnapPointToGrid(p: Point2, gridSize: real): (r: Point2)
    requires gridSize != 0.0
    ensures gridSize > 0.0 ==> Abs(r.x - p.x) <= gridSize / 2.0 && Abs(r.y - p.y) <= gridSize / 2.0
  {
    Point2(SnapToGrid(p.x, gridSize), SnapToGrid(p.y, gridSize))
  }

  lemma SnapPointIdempotent(p: Point2, gridSize: real)
    requires gridSize != 0.0
    ensures SnapPointToGrid(SnapPointToGrid(p, gridSize), gridSize) == SnapPointToGrid(p, gridSize)
  {
    SnapIdempotent(p.x, gridSize);
    SnapIdempotent(p.y, gridSize);
  }

  // ---------------------------------------------------------------------
  // Number formatting
  // ---------------------------------------------------------------------

  function Pow10(d: nat): (r: real)
    ensures r >= 1.0
  {
    if d == 0 then 1.0 else 10.0 * Pow10(d - 1)
  }

  /** `Number(x.toFixed(decimals))` on an exact real: the nearest multiple of
      10^-decimals, ties away from zero. */
  function FormatNumber(x: real, decimals: nat): real {
    var s := Pow10(decimals);
    if x >= 0.0 then ScaledRound(x, s) else -ScaledRound(-x, s)
  }

  /** `formatNumber` on a possibly non-finite number: NaN and the infinities
      print as themselves and read back unchanged. */
  function FormatNumberOf(n: Number, decimals: nat): Number {
    if n.Finite? then Finite(FormatNumber(n.value, decimals)) else n
  }

  /** `a` scaled by `s`, rounded half up, scaled back. */
  function ScaledRound(a: real, s: real): real
    requires s > 0.0
  {
    Floor(a * s + 0.5) as real / s
  }

  lemma ScaledRoundError(a: real, s: real)
    requires s > 0.0
    ensures Abs(ScaledRound(a, s) - a) <= 0.5 / s
  {
    var k := Floor(a * s + 0.5) as real;
    assert a * s - 0.5 < k <= a * s + 0.5;
    MulDivCancel(a, s);
    assert k / s - a == (k - a * s) / s;
    DivMonotone(k - a * s, 0.5, s);
    DivMonotone(-0.5, k - a * s, s);
  }

  lemma ScaledRoundMonotone(a: real, b: real, s: real)
    requires a <= b && s > 0.0
    ensures ScaledRound(a, s) <= ScaledRound(b, s)
  {
    MulLeftMonotone(a, b, s);
    FloorMonotone(a * s + 0.5, b * s + 0.5);
    DivMonotone(Floor(a * s + 0.5) as real, Floor(b * s + 0.5) as real, s);
  }

  lemma ScaledRoundNonNegative(a: real, s: real)
    requires a >= 0.0 && s > 0.0
    ensures ScaledRound(a, s) >= 0.0
  {
    assert a * s >= 0.0;
  }

  /** Rounding moves a value by at most half a unit of the last kept digit. */
  lemma FormatNumberNearest(x: real, decimals: nat)
    ensures Abs(FormatNumber(x, decimals) - x) <= 0.5 / Pow10(decimals)
  {
    var s := Pow10(decimals);
    if x >= 0.0 {
      assert FormatNumber(x, decimals) == ScaledRound(x, s);
      ScaledRoundError(x, s);
    } else {
      assert FormatNumber(x, decimals) == -ScaledRound(-x, s);
      ScaledRoundError(-x, s);
    }
  }

  /** Rounding is monotone, and keeps 0. */
  lemma FormatNumberMonotone(x: real, y: real, decimals: nat)
    requires x <= y
    ensures FormatNumber(x, decimals) <= FormatNumber(y, decimals)
    ensures FormatNumber(0.0, decimals) == 0.0
  {
    var s := Pow10(decimals);
    assert FormatNumber(0.0, decimals) == ScaledRound(0.0, s);
    assert Floor(0.0 * s + 0.5) == 0;
    if x >= 0.0 {
      assert FormatNumber(x, decimals) == ScaledRound(x, s);
      assert FormatNumber(y, decimals) == ScaledRound(y, s);
      ScaledRoundMonotone(x, y, s);
    } else if y >= 0.0 {
      assert FormatNumber(x, decimals) == -ScaledRound(-x, s);
      assert FormatNumber(y, decimals) == ScaledRound(y, s);
      ScaledRoundNonNegative(-x, s);
      ScaledRoundNonNegative(y, s);
    } else {
      assert FormatNumber(x, decimals) == -ScaledRound(-x, s);
      assert FormatNumber(y, decimals) == -ScaledRound(-y, s);
      ScaledRoundMonotone(-y, -x, s);
    }
  }

  /** Consequence of monotonicity: rounding keeps signs and ordered bounds. */
  lemma FormatNumberBetween(x: real, lo: real, hi: real, decimals: nat)
    requires lo <= x <= hi
    ensures FormatNumber(lo, decimals) <= FormatNumber(x, decimals) <= FormatNumber(hi, decimals)
    ensures x >= 0.0 ==> FormatNumber(x, decimals) >= 0.0
  {
    FormatNumberMonotone(lo, x, decimals);
    FormatNumberMonotone(x, hi, decimals);
    if x >= 0.0 {
      FormatNumberMonotone(0.0, x, decimals);
    }
  }

  /** Every power of ten used as a scale is a whole number. */
  lemma {:induction false} Pow10Integral(d: nat)
    ensures IsIntegral(Pow10(d))
  {
    if d > 0 {
      Pow10Integral(d - 1);
      var n := Pow10(d - 1).Floor;
      assert Pow10(d) == (10 * n) as real;
    }
  }

  lemma ScaledInteger(a: nat, s: real, n: int)
    requires s > 0.0 && s == n as real
    ensures ScaledRound(a as real, s) == a as real
  {
    var scaled := a * n;
    assert scaled as real == a as real * s;
    RoundsToItself(scaled);
    ScaledRoundBy(a as real, s, scaled);
    MulDivCancel(a as real, s);
  }

  /** An integer plus one half rounds down to itself. */
  lemma RoundsToItself(k: int)
    ensures Floor(k as real + 0.5) == k
  {
  }

  /** `ScaledRound` divides the rounded scaled value `k` back down. */
  lemma ScaledRoundBy(a: real, s: real, k: int)
    requires s > 0.0 && Floor(a * s + 0.5) == k
    ensures ScaledRound(a, s) == k as real / s
  {
  }

  /** Whole numbers are printed unchanged at any number of decimals. */
  lemma FormatInteger(k: int, decimals: nat)
    ensures FormatNumber(k as real, decimals) == k as real
  {
    var s := Pow10(decimals);
    Pow10Integral(decimals);
    var n := s.Floor;
    var a := if k >= 0 then k else -k;
    assert a as real * s == (a * n) as real;
    ScaledInteger(a, s, n);
  }

  // ---------------------------------------------------------------------
  // Validation
  // ---------------------------------------------------------------------

  /** A JavaScript value, as far as the number checks can tell. */
  datatype JsValue = Num(n: Number) | NotNumber

  /** `typeof value === 'number' && !isNaN(value) && isFinite(value)`. */
  predicate IsNumber(v: JsValue) {
    v.Num? && v.n.Finite?
  }

  function Clamp(value: real, min: real, max: real): (r: real)
    ensures min <= max ==> min <= r <= max
    ensures min <= value <= max ==> r == value
    ensures min > max ==> r == max
  {
    RealMath.Min(RealMath.Max(value, min), max)
  }

  function IsValidRange(v: JsValue, min: real, max: real): (r: bool)
    ensures r <==> v.Num? && v.n.Finite? && min <= v.n.value <= max
  {
    IsNumber(v) && v.n.value >= min && v.n.value <= max
  }

  /** For a well-formed range, a finite number is valid exactly when clamping leaves it alone. */
  lemma ValidRangeIsClampFixpoint(value: real, min: real, max: real)
    requires min <= max
    ensures IsValidRange(Num(Finite(value)), min, max) <==> Clamp(value, min, max) == value
  {
  }

  // ---------------------------------------------------------------------
  // Array statistics
  // ---------------------------------------------------------------------

  /** `array.reduce((sum, v) => sum + v, 0)`. */
  function Sum(s: seq<real>): real
    decreases |s|
  {
    if s == [] then 0.0 else Sum(s[..|s| - 1]) + s[|s| - 1]
  }

  /** `Math.min(...s)` for a non-empty `s`. */
  function MinOf(s: seq<real>): (r: real)
    requires s != []
    ensures r in s
    ensures forall x :: x in s ==> r <= x
    decreases |s|
  {
    if |s| == 1 then s[0]
    else
      var init := MinOf(s[..|s| - 1]);
      assert forall x :: x in s ==> x in s[..|s| - 1] || x == s[|s| - 1];
      RealMath.Min(init, s[|s| - 1])
  }

  /** `Math.max(...s)` for a non-empty `s`. */
  function MaxOf(s: seq<real>): (r: real)
    requires s != []
    ensures r in s
    ensures forall x :: x in s ==> x <= r
    decreases |s|
  {
    if |s| == 1 then s[0]
    else
      var init := MaxOf(s[..|s| - 1]);
      assert forall x :: x in s ==> x in s[..|s| - 1] || x == s[|s| - 1];
      RealMath.Max(init, s[|s| - 1])
  }

  datatype MinMax = MinMax(min: real, max: real)

  function FindMinMax(s: seq<real>): (r: MinMax)
    ensures s == [] ==> r == MinMax(0.0, 0.0)
    ensures s != [] ==> r.min in s && r.max in s
    ensures forall x :: x in s ==> r.min <= x <= r.max
    ensures r.min <= r.max
  {
    if s == [] then MinMax(0.0, 0.0) else MinMax(MinOf(s), MaxOf(s))
  }

  function Average(s: seq<real>): (r: real)
    ensures s == [] ==> r == 0.0
    ensures s != [] ==> r * |s| as real == Sum(s)
  {
    if s == [] then 0.0 else Sum(s) / |s| as real
  }

  /** The sum lies between |s| times the least and |s| times the greatest element. */
  lemma {:induction false} SumBounds(s: seq<real>, lo: real, hi: real)
    requires forall x :: x in s ==> lo <= x <= hi
    ensures |s| as real * lo <= Sum(s) <= |s| as real * hi
    decreases |s|
  {
    if s != [] {
      var init := s[..|s| - 1];
      forall x | x in init
        ensures lo <= x <= hi
      {
        assert x in s;
      }
      SumBounds(init, lo, hi);
      assert s[|s| - 1] in s;
      assert |s| as real * lo == |init| as real * lo + lo;
      assert |s| as real * hi == |init| as real * hi + hi;
    }
  }

  /** The average of a non-empty array lies between its minimum and its maximum. */
  lemma AverageBetween(s: seq<real>)
    requires s != []
    ensures MinOf(s) <= Average(s) <= MaxOf(s)
  {
    SumBounds(s, MinOf(s), MaxOf(s));
    QuotientBetween(Sum(s), |s| as real, MinOf(s), MaxOf(s));
  }

  lemma QuotientBetween(sum: real, n: real, lo: real, hi: real)
    requires n > 0.0 && n * lo <= sum <= n * hi
    ensures lo <= sum / n <= hi
  {
    MulDivCancel(lo, n);
    MulDivCancel(hi, n);
    assert n * lo == lo * n && n * hi == hi * n;
    DivMonotone(lo * n, sum, n);
    DivMonotone(sum, hi * n, n);
  }

  /** An array of non-negative values has a non-negative average. */
  lemma AverageNonNegative(s: seq<real>)
    requires forall x :: x in s ==> x >= 0.0
    ensures Average(s) >= 0.0
  {
    if s != [] {
      AverageBetween(s);
    }
  }

  /** `s.map(v => Math.pow(v - avg, 2))`. */
  function SquaredDiffs(s: seq<real>, avg: real): (r: seq<real>)
    ensures |r| == |s|
    ensures forall x :: x in r ==> x >= 0.0
  {
    var r := seq(|s|, i requires 0 <= i < |s| => Square(s[i] - avg));
    assert forall i :: 0 <= i < |r| ==> r[i] >= 0.0 by {
      forall i | 0 <= i < |r|
        ensures r[i] >= 0.0
      {
        SquareSign(s[i] - avg);
      }
    }
    r
  }

  /** Population standard deviation. */
  function StandardDeviation(m: Math, s: seq<real>): (r: real)
    ensures s == [] ==> r == 0.0
    ensures r >= 0.0
  {
    if s == [] then 0.0
    else
      var diffs := SquaredDiffs(s, Average(s));
      AverageNonNegative(diffs);
      SqrtNonNegative(m, Average(diffs));
      m.sqrt(Average(diffs))
  }

  /** Non-negative values with one positive value have a positive sum. */
  lemma {:induction false} SumPositive(s: seq<real>, k: nat)
    requires forall x :: x in s ==> x >= 0.0
    requires k < |s| && s[k] > 0.0
    ensures Sum(s) > 0.0
    decreases |s|
  {
    var init := s[..|s| - 1];
    forall x | x in init
      ensures x >= 0.0
    {
      assert x in s;
    }
    if k == |s| - 1 {
      if init != [] {
        SumBounds(init, 0.0, MaxOf(init));
      }
    } else {
      assert init[k] == s[k];
      SumPositive(init, k);
      assert s[|s| - 1] in s;
    }
  }

  /** The standard deviation of a non-empty array is 0 exactly when all its values are equal. */
  lemma DeviationZeroIffConstant(m: Math, s: seq<real>)
    requires s != []
    ensures StandardDeviation(m, s) == 0.0 <==> forall i :: 0 <= i < |s| ==> s[i] == s[0]
  {
    if forall i :: 0 <= i < |s| ==> s[i] == s[0] {
      ConstantDeviation(m, s);
    } else {
      var i :| 0 <= i < |s| && s[i] != s[0];
      VaryingDeviation(m, s, i);
    }
  }

  /** The average of equal values is that value. */
  lemma ConstantAverage(s: seq<real>, c: real)
    requires s != [] && forall i :: 0 <= i < |s| ==> s[i] == c
    ensures Average(s) == c
  {
    SumBounds(s, c, c);
    MulDivCancel(c, |s| as real);
  }

  lemma ConstantDeviation(m: Math, s: seq<real>)
    requires s != [] && forall i :: 0 <= i < |s| ==> s[i] == s[0]
    ensures StandardDeviation(m, s) == 0.0
  {
    ConstantAverage(s, s[0]);
    var diffs := SquaredDiffs(s, s[0]);
    forall i | 0 <= i < |diffs|
      ensures diffs[i] == 0.0
    {
      assert diffs[i] == Square(s[i] - s[0]);
    }
    ConstantAverage(diffs, 0.0);
  }

  lemma VaryingDeviation(m: Math, s: seq<real>, i: nat)
    requires i < |s| && s[i] != s[0]
    ensures StandardDeviation(m, s) > 0.0
  {
    var avg := Average(s);
    var diffs := SquaredDiffs(s, avg);
    var k := if s[i] != avg then i else 0;
    assert diffs[k] == Square(s[k] - avg);
    SquareSign(s[k] - avg);
    SumPositive(diffs, k);
    DivStrictMonotone(0.0, Sum(diffs), |s| as real);
    assert Average(diffs) > 0.0;
  }
}
