/**
 * Sampling an area: the calculation grid, the statistics of the sampled
 * illuminance field and the area calculation that ties them together.
 */
module Sampling {
  import opened RealMath
  import opened Wrappers
  import Utils
  import opened Lighting

  /**
   * A rectangular area in metres. `x`, `y` and `z` read as 0 when absent;
   * `mountingHeight` is 0 when absent (the fixture grid then uses 20).
   */
  datatype Area = Area(x: real, y: real, width: real, height: real, z: real, mountingHeight: real)

  // ---------------------------------------------------------------------
  // Calculation grid
  // ---------------------------------------------------------------------

  /** How many steps of `spacing` from 0 stay within `length`: `k * spacing <= length`. */
  function StepCount(length: real, spacing: real): (n: nat)
    requires spacing > 0.0
  {
    if length < 0.0 then 0
    else
      DivMonotone(0.0, length, spacing);
      Floor(length / spacing) + 1
  }

  /** `StepCount` counts exactly the steps that stay within the length. */
  lemma StepCountSpec(length: real, spacing: real, k: nat)
    requires spacing > 0.0
    ensures k as real * spacing <= length <==> k < StepCount(length, spacing)
  {
    var kr := k as real;
    assert kr * spacing >= 0.0;
    if length >= 0.0 {
      var q := length / spacing;
      MulDivCancel(length, spacing);
      MulDivCancel(kr, spacing);
      if kr * spacing <= length {
        DivMonotone(kr * spacing, length, spacing);
      } else {
        DivStrictMonotone(length, kr * spacing, spacing);
      }
    }
  }

  /** The grid point `i` steps along x and `j` steps along y. */
  function GridPoint(area: Area, spacing: real, i: nat, j: nat): Point3 {
    Point3(area.x + i as real * spacing, area.y + j as real * spacing, area.z)
  }

  /** The first `n` points of column `i`. */
  function Column(area: Area, spacing: real, i: nat, n: nat): (r: seq<Point3>)
    ensures |r| == n
    ensures forall j :: 0 <= j < n ==> r[j] == GridPoint(area, spacing, i, j)
  {
    seq(n, j requires 0 <= j < n => GridPoint(area, spacing, i, j))
  }

  /** The first `n` columns, each of `rows` points, x outer and y inner. */
  function GridUpTo(area: Area, spacing: real, n: nat, rows: nat): seq<Point3>
  {
    if n == 0 then [] else GridUpTo(area, spacing, n - 1, rows) + Column(area, spacing, n - 1, rows)
  }

  /** The whole calculation grid. */
  function CalculationGrid(area: Area, spacing: real): seq<Point3>
    requires spacing > 0.0
  {
    GridUpTo(area, spacing, StepCount(area.width, spacing), StepCount(area.height, spacing))
  }

  /** `generateCalculationGrid`: two nested loops stepping `x` and `y` by `spacing`. */
  method GenerateCalculationGrid(area: Area, spacing: real) returns (points: seq<Point3>)
    requires spacing > 0.0
    ensures points == CalculationGrid(area, spacing)
  {
    ghost var columns := StepCount(area.width, spacing);
    ghost var rows := StepCount(area.height, spacing);
    points := [];
    var x := area.x;
    ghost var i: nat := 0;
    while x <= area.x + area.width
      invariant i <= columns
      invariant x == area.x + i as real * spacing
      invariant points == GridUpTo(area, spacing, i, rows)
      decreases columns - i
    {
      StepCountSpec(area.width, spacing, i);
      var y := area.y;
      ghost var j: nat := 0;
      while y <= area.y + area.height
        invariant j <= rows
        invariant y == area.y + j as real * spacing
        invariant points == GridUpTo(area, spacing, i, rows) + Column(area, spacing, i, j)
        decreases rows - j
      {
        StepCountSpec(area.height, spacing, j);
        assert Column(area, spacing, i, j + 1) == Column(area, spacing, i, j) + [GridPoint(area, spacing, i, j)];
        points := points + [Point3(x, y, area.z)];
        y := y + spacing;
        j := j + 1;
        assert y == area.y + j as real * spacing;
      }
      StepCountSpec(area.height, spacing, j);
      x := x + spacing;
      i := i + 1;
      assert x == area.x + i as real * spacing;
    }
    StepCountSpec(area.width, spacing, i);
  }

  lemma {:induction false} GridUpToLength(area: Area, spacing: real, n: nat, rows: nat)
    ensures |GridUpTo(area, spacing, n, rows)| == n * rows
  {
    if n > 0 {
      GridUpToLength(area, spacing, n - 1, rows);
    }
  }

  /** Point `i * rows + j` of the grid is the lattice point `(i, j)`. */
  lemma {:induction false} GridUpToIndex(area: Area, spacing: real, n: nat, rows: nat, i: nat, j: nat)
    requires i < n && j < rows
    ensures i * rows + j < |GridUpTo(area, spacing, n, rows)|
    ensures GridUpTo(area, spacing, n, rows)[i * rows + j] == GridPoint(area, spacing, i, j)
  {
    GridUpToLength(area, spacing, n - 1, rows);
    GridUpToLength(area, spacing, n, rows);
    if i < n - 1 {
      GridUpToIndex(area, spacing, n - 1, rows, i, j);
    } else {
      assert i * rows + j == (n - 1) * rows + j;
    }
  }

  /**
   * The grid holds the `columns * rows` lattice points of the closed area,
   * x outer and y inner: point `i * rows + j` is `(x + i * spacing, y + j * spacing)`,
   * and a lattice point is in the grid exactly when it lies in the closed area.
   */
  lemma GridShape(area: Area, spacing: real, i: nat, j: nat)
    requires spacing > 0.0
    ensures var columns := StepCount(area.width, spacing);
            var rows := StepCount(area.height, spacing);
            |CalculationGrid(area, spacing)| == columns * rows
            && (i as real * spacing <= area.width && j as real * spacing <= area.height
                <==> i < columns && j < rows)
            && (i < columns && j < rows ==> CalculationGrid(area, spacing)[i * rows + j] == GridPoint(area, spacing, i, j))
  {
    var columns := StepCount(area.width, spacing);
    var rows := StepCount(area.height, spacing);
    GridUpToLength(area, spacing, columns, rows);
    StepCountSpec(area.width, spacing, i);
    StepCountSpec(area.height, spacing, j);
    if i < columns && j < rows {
      GridUpToIndex(area, spacing, columns, rows, i, j);
    }
  }

  /** The closed area, at the area's height. */
  predicate InClosedArea(area: Area, p: Point3) {
    area.x <= p.x <= area.x + area.width
    && area.y <= p.y <= area.y + area.height
    && p.z == area.z
  }

  lemma {:induction false} GridUpToInside(area: Area, spacing: real, n: nat)
    requires spacing > 0.0 && n <= StepCount(area.width, spacing)
    ensures forall p :: p in GridUpTo(area, spacing, n, StepCount(area.height, spacing)) ==> InClosedArea(area, p)
  {
    var rows := StepCount(area.height, spacing);
    if n > 0 {
      GridUpToInside(area, spacing, n - 1);
      StepCountSpec(area.width, spacing, n - 1);
      var column := Column(area, spacing, n - 1, rows);
      forall j | 0 <= j < rows
        ensures InClosedArea(area, column[j])
      {
        StepCountSpec(area.height, spacing, j);
      }
    }
  }

  /** Every grid point lies in the closed area. */
  lemma GridInside(area: Area, spacing: real)
    requires spacing > 0.0
    ensures forall p :: p in CalculationGrid(area, spacing) ==> InClosedArea(area, p)
  {
    GridUpToInside(area, spacing, StepCount(area.width, spacing));
  }

  /** A 10 m square sampled every 2 m has 6 x 6 points. */
  lemma TenMetreSquare()
    ensures |CalculationGrid(Area(0.0, 0.0, 10.0, 10.0, 0.0, 0.0), 2.0)| == 36
  {
    var area := Area(0.0, 0.0, 10.0, 10.0, 0.0, 0.0);
    assert StepCount(10.0, 2.0) == 6;
    GridUpToLength(area, 2.0, 6, 6);
  }

  // ---------------------------------------------------------------------
  // Statistics
  // ---------------------------------------------------------------------

  /**
   * The statistics of a sampled field. `uniformityRatio` may be NaN;
   * `count` is absent for an empty field.
   */
  datatype Statistics = Statistics(
    average: real,
    minimum: real,
    maximum: real,
    uniformityRatio: Number,
    standardDeviation: real,
    count: Option<nat>)

  /** The ratio `minimum / average` before rounding. */
  function Uniformity(values: seq<real>): Number
    requires values != []
  {
    Divide(Utils.MinOf(values), Utils.Average(values))
  }

  /**
   * `analyzeIlluminanceValues`: zeros for no values; otherwise the rounded
   * average, extremes and standard deviation (one decimal) and the rounded
   * uniformity (three decimals).
   */
  function AnalyzeIlluminanceValues(m: Math, values: seq<real>): (r: Statistics)
    ensures values == [] ==> r == Statistics(0.0, 0.0, 0.0, Finite(0.0), 0.0, None)
    ensures values != [] ==> r.count == Some(|values|)
    ensures values != [] ==> r.minimum <= r.average <= r.maximum && r.standardDeviation >= 0.0
    ensures values != [] ==>
              && Abs(r.average - Utils.Average(values)) <= 0.05
              && Abs(r.minimum - Utils.MinOf(values)) <= 0.05
              && Abs(r.maximum - Utils.MaxOf(values)) <= 0.05
              && Abs(r.standardDeviation - Utils.StandardDeviation(m, values)) <= 0.05
  {
    if values == [] then Statistics(0.0, 0.0, 0.0, Finite(0.0), 0.0, None)
    else
      var average := Utils.Average(values);
      var minimum := Utils.MinOf(values);
      var maximum := Utils.MaxOf(values);
      var deviation := Utils.StandardDeviation(m, values);
      Utils.AverageBetween(values);
      Utils.FormatNumberBetween(average, minimum, maximum, 1);
      Utils.FormatNumberBetween(deviation, 0.0, deviation, 1);
      OneDecimalNearest(average);
      OneDecimalNearest(minimum);
      OneDecimalNearest(maximum);
      OneDecimalNearest(deviation);
      Statistics(
        Utils.FormatNumber(average, 1),
        Utils.FormatNumber(minimum, 1),
        Utils.FormatNumber(maximum, 1),
        Utils.FormatNumberOf(Uniformity(values), 3),
        Utils.FormatNumber(deviation, 1),
        Some(|values|))
  }

  /** Rounding to one decimal moves a value by at most 0.05. */
  lemma OneDecimalNearest(x: real)
    ensures Abs(Utils.FormatNumber(x, 1) - x) <= 0.05
  {
    assert Utils.Pow10(1) == 10.0;
    Utils.FormatNumberNearest(x, 1);
  }

  /** `min / avg` lies in [0, 1] for `0 <= min <= avg`. */
  lemma RatioInUnit(minimum: real, average: real)
    requires 0.0 <= minimum <= average && average > 0.0
    ensures 0.0 <= minimum / average <= 1.0
  {
    DivMonotone(0.0, minimum, average);
    DivMonotone(minimum, average, average);
    MulDivCancel(1.0, average);
  }

  /** For a non-negative field with some light the uniformity is a ratio in [0, 1]. */
  lemma UniformityInUnit(m: Math, values: seq<real>)
    requires forall v :: v in values ==> v >= 0.0
    requires values != [] && Utils.Average(values) > 0.0
    ensures var u := AnalyzeIlluminanceValues(m, values).uniformityRatio;
            u.Finite? && 0.0 <= u.value <= 1.0
  {
    var average := Utils.Average(values);
    var minimum := Utils.MinOf(values);
    Utils.AverageBetween(values);
    RatioInUnit(minimum, average);
    Utils.FormatNumberBetween(minimum / average, 0.0, 1.0, 3);
    Utils.FormatInteger(1, 3);
  }

  /** A field that is dark everywhere has no defined uniformity: `0 / 0` is NaN. */
  lemma DarkFieldUniformity(m: Math, values: seq<real>)
    requires values != []
    requires forall i :: 0 <= i < |values| ==> values[i] == 0.0
    ensures AnalyzeIlluminanceValues(m, values).uniformityRatio == NaN
  {
    Utils.SumBounds(values, 0.0, 0.0);
    assert Utils.MinOf(values) in values;
  }

  // ---------------------------------------------------------------------
  // Area illuminance
  // ---------------------------------------------------------------------

  /** A grid point together with the illuminance computed for it. */
  datatype LitPoint = LitPoint(point: Point3, illuminance: real)

  datatype AreaResult = AreaResult(statistics: Statistics, points: seq<LitPoint>, area: Area)

  /** The illuminance of every point, with the default reflectance. */
  function Illuminate(m: Math, fixtures: seq<PlacedFixture>, points: seq<Point3>): (r: seq<LitPoint>)
    ensures |r| == |points|
    ensures forall k :: 0 <= k < |r| ==> r[k] == LitPoint(points[k], PointIlluminance(m, fixtures, points[k], DefaultReflectance))
  {
    seq(|points|, k requires 0 <= k < |points| => LitPoint(points[k], PointIlluminance(m, fixtures, points[k], DefaultReflectance)))
  }

  function Values(lit: seq<LitPoint>): (r: seq<real>)
    ensures |r| == |lit| && forall k :: 0 <= k < |r| ==> r[k] == lit[k].illuminance
  {
    seq(|lit|, k requires 0 <= k < |lit| => lit[k].illuminance)
  }

  /** The `gridSpacing` default, taken only when the argument is absent. */
  const DefaultGridSpacing: real := 1.0

  /** The grid spacing actually used. */
  function SpacingOf(gridSpacing: Option<real>): real {
    if gridSpacing.Some? then gridSpacing.value else DefaultGridSpacing
  }

  /** The result `calculateAreaIlluminance` returns. */
  function AreaIlluminance(m: Math, fixtures: seq<PlacedFixture>, area: Area, spacing: real): AreaResult
    requires spacing > 0.0
  {
    var lit := Illuminate(m, fixtures, CalculationGrid(area, spacing));
    AreaResult(AnalyzeIlluminanceValues(m, Values(lit)), lit, area)
  }

  /**
   * `calculateAreaIlluminance`: samples the grid, computes every point's
   * illuminance in grid order and summarises the values.
   */
  method CalculateAreaIlluminance(m: Math, fixtures: seq<PlacedFixture>, area: Area, gridSpacing: Option<real>)
    returns (r: AreaResult)
    requires gridSpacing.Some? ==> gridSpacing.value > 0.0
    ensures r == AreaIlluminance(m, fixtures, area, SpacingOf(gridSpacing))
  {
    var spacing := if gridSpacing.Some? then gridSpacing.value else DefaultGridSpacing;
    var points := GenerateCalculationGrid(area, spacing);
    var values: seq<real> := [];
    var lit: seq<LitPoint> := [];
    for k := 0 to |points|
      invariant |lit| == k && |values| == k
      invariant forall q :: 0 <= q < k ==> lit[q] == LitPoint(points[q], PointIlluminance(m, fixtures, points[q], DefaultReflectance))
      invariant forall q :: 0 <= q < k ==> values[q] == lit[q].illuminance
    {
      var illuminance := CalculatePointIlluminance(m, fixtures, points[k], None);
      values := values + [illuminance];
      lit := lit + [LitPoint(points[k], illuminance)];
    }
    assert lit == Illuminate(m, fixtures, points);
    assert values == Values(lit);
    r := AreaResult(AnalyzeIlluminanceValues(m, values), lit, area);
  }

  /** The summary counts every grid point, and a lit field has its uniformity in [0, 1]. */
  lemma AreaSummary(m: Math, fixtures: seq<PlacedFixture>, area: Area, spacing: real)
    requires spacing > 0.0
    ensures var r := AreaIlluminance(m, fixtures, area, spacing);
            var n := StepCount(area.width, spacing) * StepCount(area.height, spacing);
            |r.points| == n
            && (n > 0 ==> r.statistics.count == Some(n) && r.statistics.minimum >= 0.0)
            && (n > 0 && Utils.Average(Values(r.points)) > 0.0 ==>
                  r.statistics.uniformityRatio.Finite? && 0.0 <= r.statistics.uniformityRatio.value <= 1.0)
  {
    var r := AreaIlluminance(m, fixtures, area, spacing);
    GridShape(area, spacing, 0, 0);
    var values := Values(r.points);
    assert forall v :: v in values ==> v >= 0.0;
    if values != [] {
      Utils.FormatNumberBetween(Utils.MinOf(values), 0.0, Utils.MinOf(values), 1);
      if Utils.Average(values) > 0.0 {
        UniformityInUnit(m, values);
      }
    }
  }
}
