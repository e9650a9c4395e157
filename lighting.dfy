/**
 * The photometric kernel of the lighting calculator: the illuminance one
 * fixture puts on a point (inverse-square law with a hard beam cutoff and a
 * cosine-squared distribution) and the illuminance of all fixtures at a
 * point, plus a fixed share of reflected light.
 */
module Lighting {
  import opened RealMath
  import opened Wrappers
  import Utils
  import Fixtures

  /** A point in metres; a point given without `z` is at height 0. */
  datatype Point3 = Point3(x: real, y: real, z: real)

  /** Aiming angles in degrees. */
  datatype Orientation = Orientation(tilt: real, rotation: real)

  /** A fixture placed in the scene. */
  datatype PlacedFixture = PlacedFixture(
    position: Point3,
    orientation: Option<Orientation>,
    specifications: Fixtures.Specifications,
    photometry: Option<Fixtures.Photometry>)

  /** `fixture.orientation || { tilt: 0, rotation: 0 }`. */
  function OrientationOf(f: PlacedFixture): Orientation {
    if f.orientation.Some? then f.orientation.value else Orientation(0.0, 0.0)
  }

  /** Half of a full beam angle given in degrees, in radians. */
  function HalfAngle(beamDegrees: real): real {
    Utils.DegreesToRadians(beamDegrees / 2.0)
  }

  /** Horizontal distance from the fixture to the point. */
  function GroundDistance(m: Math, f: PlacedFixture, p: Point3): (r: real)
    ensures r >= 0.0
  {
    Utils.Distance(m, f.position.x, f.position.y, p.x, p.y)
  }

  /** Straight-line distance from the fixture to the point. */
  function SlantDistance(m: Math, f: PlacedFixture, p: Point3): (r: real)
    ensures r >= 0.0
    ensures f.position.z != p.z ==> r > 0.0
  {
    var d := GroundDistance(m, f, p);
    var h := f.position.z - p.z;
    SquareNonNegative(d);
    SquareNonNegative(h);
    SqrtNonNegative(m, d * d + h * h);
    m.sqrt(d * d + h * h)
  }

  /** Elevation of the fixture as seen from the point. */
  function VerticalAngle(m: Math, f: PlacedFixture, p: Point3): real {
    m.atan2(f.position.z - p.z, GroundDistance(m, f, p))
  }

  /** Bearing of the point from the fixture, relative to the fixture's rotation. */
  function RelativeHorizontal(m: Math, f: PlacedFixture, p: Point3): real {
    Utils.Angle(m, f.position.x, f.position.y, p.x, p.y)
      - Utils.DegreesToRadians(OrientationOf(f).rotation)
  }

  /** Elevation corrected by the fixture's tilt. */
  function RelativeVertical(m: Math, f: PlacedFixture, p: Point3): real {
    VerticalAngle(m, f, p) + Utils.DegreesToRadians(OrientationOf(f).tilt)
  }

  /** Neither relative angle exceeds its half beam angle (the edge is in the beam). */
  predicate InBeam(m: Math, f: PlacedFixture, p: Point3) {
    var beam := f.specifications.beamAngle;
    Abs(RelativeHorizontal(m, f, p)) <= HalfAngle(beam.horizontal)
    && Abs(RelativeVertical(m, f, p)) <= HalfAngle(beam.vertical)
  }

  lemma SquareAtMostOne(c: real)
    requires -1.0 <= c <= 1.0
    ensures 0.0 <= c * c <= 1.0
  {
    SquareNonNegative(c);
    if c >= 0.0 {
      MulLeftMonotone(c, 1.0, c);
    } else {
      var d := -c;
      MulLeftMonotone(d, 1.0, d);
      assert d * d <= d;
      assert c * c == d * d;
    }
  }

  /** How `a / h` compares with 1 for a positive `h`. */
  lemma RatioAgainstOne(a: real, h: real)
    ensures h > 0.0 && a > h ==> a / h > 1.0
    ensures h > 0.0 && a <= h ==> a / h <= 1.0
  {
    if h > 0.0 {
      MulDivCancel(1.0, h);
      if a > h {
        DivStrictMonotone(h, a, h);
      } else {
        DivMonotone(a, h, h);
      }
    }
  }

  /** Scaling a non-negative value by two fractions keeps it between 0 and itself. */
  lemma ScaledByFractions(peak: real, a: real, b: real)
    requires 0.0 <= a <= 1.0 && 0.0 <= b <= 1.0
    ensures peak >= 0.0 ==> 0.0 <= peak * a * b <= peak
  {
    MulLeftMonotone(0.0, a, b);
    MulLeftMonotone(a, 1.0, b);
    assert a * b <= 1.0;
    if peak >= 0.0 {
      MulLeftMonotone(0.0, peak, a * b);
      MulLeftMonotone(a * b, 1.0, peak);
      assert peak * a * b == peak * (a * b);
    }
  }

  /**
   * `getDistributionFactor`: `cos(angle)^2` inside the beam, 0 once
   * `|angle| / beamHalfAngle` exceeds 1 (a zero half angle gives NaN for a
   * zero angle, which is not above 1).
   */
  function DistributionFactor(m: Math, angle: real, beamHalfAngle: real): (r: real)
    ensures 0.0 <= r <= 1.0
    ensures beamHalfAngle > 0.0 && Abs(angle) > beamHalfAngle ==> r == 0.0
    ensures beamHalfAngle > 0.0 && Abs(angle) <= beamHalfAngle ==> r == m.cos(angle) * m.cos(angle)
  {
    SquareAtMostOne(m.cos(angle));
    RatioAgainstOne(Abs(angle), beamHalfAngle);
    if Above(Divide(Abs(angle), beamHalfAngle), 1.0) then 0.0
    else m.cos(angle) * m.cos(angle)
  }

  /** A zero beam width lets light through only along the axis. */
  lemma DistributionZeroBeam(m: Math, angle: real)
    ensures angle != 0.0 ==> DistributionFactor(m, angle, 0.0) == 0.0
    ensures DistributionFactor(m, 0.0, 0.0) == m.cos(0.0) * m.cos(0.0)
  {
  }

  /** `photometry.peakIntensity || specs.lumens / 3.14159`. */
  function PeakIntensity(f: PlacedFixture): (r: real)
    ensures f.photometry.Some? && f.photometry.value.peakIntensity != 0.0 ==> r == f.photometry.value.peakIntensity
    ensures (f.photometry.None? || f.photometry.value.peakIntensity == 0.0) ==> r * 3.14159 == f.specifications.lumens
    ensures f.specifications.lumens >= 0.0 && (f.photometry.None? || f.photometry.value.peakIntensity >= 0.0) ==> r >= 0.0
  {
    if f.photometry.Some? && f.photometry.value.peakIntensity != 0.0 then f.photometry.value.peakIntensity
    else f.specifications.lumens / 3.14159
  }

  /** `getLuminousIntensity`: the peak scaled by both distribution factors. */
  function LuminousIntensity(m: Math, f: PlacedFixture, horizontalAngle: real, verticalAngle: real): (r: real)
    ensures PeakIntensity(f) >= 0.0 ==> 0.0 <= r <= PeakIntensity(f)
  {
    var beam := f.specifications.beamAngle;
    var hf := DistributionFactor(m, horizontalAngle, HalfAngle(beam.horizontal));
    var vf := DistributionFactor(m, verticalAngle, HalfAngle(beam.vertical));
    var peak := PeakIntensity(f);
    ScaledByFractions(peak, hf, vf);
    peak * hf * vf
  }

  /** The in-beam value before the clamp: `I * cos(elevation) / d^2`. */
  function InverseSquare(m: Math, f: PlacedFixture, p: Point3): real
    requires SlantDistance(m, f, p) != 0.0
  {
    var d := SlantDistance(m, f, p);
    LuminousIntensity(m, f, RelativeHorizontal(m, f, p), RelativeVertical(m, f, p))
      * m.cos(VerticalAngle(m, f, p)) / (d * d)
  }

  /**
   * `calculateFixtureContribution`: 0 at zero distance and outside the beam,
   * else the inverse-square value clamped at 0.
   */
  function FixtureContribution(m: Math, f: PlacedFixture, p: Point3): (r: real)
    ensures r >= 0.0
  {
    var d := SlantDistance(m, f, p);
    if d == 0.0 then 0.0
    else
      var beam := f.specifications.beamAngle;
      if Abs(RelativeHorizontal(m, f, p)) > HalfAngle(beam.horizontal)
        || Abs(RelativeVertical(m, f, p)) > HalfAngle(beam.vertical) then 0.0
      else
        Max(0.0, InverseSquare(m, f, p))
  }

  /** The three outcomes of a contribution: no distance, outside the beam, lit. */
  lemma ContributionCases(m: Math, f: PlacedFixture, p: Point3)
    ensures SlantDistance(m, f, p) == 0.0 ==> FixtureContribution(m, f, p) == 0.0
    ensures SlantDistance(m, f, p) != 0.0 && !InBeam(m, f, p) ==> FixtureContribution(m, f, p) == 0.0
    ensures SlantDistance(m, f, p) != 0.0 && InBeam(m, f, p)
      ==> FixtureContribution(m, f, p) == Max(0.0, InverseSquare(m, f, p))
  {
  }

  /**
   * A fixture that is not tilted leaves the ground straight beneath it dark
   * unless its vertical beam is at least 180 degrees wide: the elevation
   * there is a right angle.
   */
  lemma DarkBeneathUntilted(m: Math, f: PlacedFixture, p: Point3)
    requires OrientationOf(f).tilt == 0.0
    requires p.x == f.position.x && p.y == f.position.y && p.z < f.position.z
    requires f.specifications.beamAngle.vertical < 180.0
    ensures FixtureContribution(m, f, p) == 0.0
  {
    var h := f.position.z - p.z;
    assert GroundDistance(m, f, p) == 0.0;
    assert VerticalAngle(m, f, p) == PI / 2.0;
    assert RelativeVertical(m, f, p) == PI / 2.0;
    assert HalfAngle(f.specifications.beamAngle.vertical) < PI / 2.0;
    assert SlantDistance(m, f, p) > 0.0;
  }

  /**
   * The inverse-square law: seen from the same fixture under the same
   * bearing and elevation, a point `k` times as far away receives `1 / k^2`
   * of the illuminance (twice as far, a quarter).
   */
  lemma InverseSquareLaw(m: Math, f: PlacedFixture, p: Point3, q: Point3, k: real)
    requires SlantDistance(m, f, p) > 0.0 && k > 0.0
    requires RelativeHorizontal(m, f, q) == RelativeHorizontal(m, f, p)
    requires VerticalAngle(m, f, q) == VerticalAngle(m, f, p)
    requires SlantDistance(m, f, q) == k * SlantDistance(m, f, p)
    ensures SlantDistance(m, f, q) > 0.0
    ensures InverseSquare(m, f, q) * (k * k) == InverseSquare(m, f, p)
  {
    MulStrictMonotone(0.0, SlantDistance(m, f, p), k);
    assert RelativeVertical(m, f, q) == RelativeVertical(m, f, p);
    ScaledSquare(
      LuminousIntensity(m, f, RelativeHorizontal(m, f, p), RelativeVertical(m, f, p))
        * m.cos(VerticalAngle(m, f, p)),
      SlantDistance(m, f, p), k, SlantDistance(m, f, q));
  }

  /** `a / (k d)^2 * k^2 == a / d^2`. */
  lemma ScaledSquare(a: real, d: real, k: real, e: real)
    requires d != 0.0 && k != 0.0 && e == k * d
    ensures a / (e * e) * (k * k) == a / (d * d)
  {
    SquareSign(d);
    SquareSign(k);
    assert e * e == Square(k) * Square(d);
  }

  /**
   * The law for the contribution itself: for two points on which the beam
   * falls at the same angles, the one `k` times as far away receives
   * `1 / k^2` of the light.
   */
  lemma ContributionInverseSquare(m: Math, f: PlacedFixture, p: Point3, q: Point3, k: real)
    requires SlantDistance(m, f, p) > 0.0 && k > 0.0 && InBeam(m, f, p)
    requires RelativeHorizontal(m, f, q) == RelativeHorizontal(m, f, p)
    requires VerticalAngle(m, f, q) == VerticalAngle(m, f, p)
    requires SlantDistance(m, f, q) == k * SlantDistance(m, f, p)
    ensures InBeam(m, f, q)
    ensures FixtureContribution(m, f, q) * (k * k) == FixtureContribution(m, f, p)
  {
    InverseSquareLaw(m, f, p, q, k);
    var x := InverseSquare(m, f, q);
    SquareNonNegative(k);
    if x < 0.0 {
      MulStrictMonotone(x, 0.0, k * k);
    } else {
      MulLeftMonotone(0.0, x, k * k);
    }
  }

  // ---------------------------------------------------------------------
  // Point illuminance
  // ---------------------------------------------------------------------

  /** Sum of the contributions of `fixtures`, added in list order. */
  function ContributionSum(m: Math, fixtures: seq<PlacedFixture>, p: Point3): (r: real)
    ensures r >= 0.0
    decreases |fixtures|
  {
    if fixtures == [] then 0.0
    else ContributionSum(m, fixtures[..|fixtures| - 1], p) + FixtureContribution(m, fixtures[|fixtures| - 1], p)
  }

  /** Direct light plus `reflectance * 0.1` of it, at least 0. */
  function WithReflection(direct: real, reflectance: real): (r: real)
    ensures r >= 0.0
  {
    Max(0.0, direct + direct * reflectance * 0.1)
  }

  /** The illuminance all `fixtures` put on `p`. */
  function PointIlluminance(m: Math, fixtures: seq<PlacedFixture>, p: Point3, reflectance: real): (r: real)
    ensures r >= 0.0
  {
    WithReflection(ContributionSum(m, fixtures, p), reflectance)
  }

  /** The `surfaceReflectance` default, taken only when the argument is absent. */
  const DefaultReflectance: real := 0.2

  /** `calculatePointIlluminance`: accumulates the contributions in a loop. */
  method CalculatePointIlluminance(m: Math, fixtures: seq<PlacedFixture>, p: Point3, surfaceReflectance: Option<real>)
    returns (r: real)
    ensures r == PointIlluminance(m, fixtures, p,
      if surfaceReflectance.Some? then surfaceReflectance.value else DefaultReflectance)
  {
    var reflectance := if surfaceReflectance.Some? then surfaceReflectance.value else DefaultReflectance;
    var total := 0.0;
    for i := 0 to |fixtures|
      invariant total == ContributionSum(m, fixtures[..i], p)
    {
      assert fixtures[..i + 1][..i] == fixtures[..i];
      total := total + FixtureContribution(m, fixtures[i], p);
    }
    assert fixtures[..|fixtures|] == fixtures;
    assert total == ContributionSum(m, fixtures, p);
    var reflectedLight := total * reflectance * 0.1;
    ReflectedLight(total, reflectance, reflectedLight);
    r := Max(0.0, total + reflectedLight);
  }

  /** `WithReflection` in terms of the reflected share, as the loop's caller computes it. */
  lemma ReflectedLight(direct: real, reflectance: real, reflected: real)
    requires reflected == direct * reflectance * 0.1
    ensures WithReflection(direct, reflectance) == Max(0.0, direct + reflected)
  {
  }

  /** No fixtures, no light. */
  lemma NoFixturesDark(m: Math, p: Point3, reflectance: real)
    ensures PointIlluminance(m, [], p, reflectance) == 0.0
  {
  }

  /**
   * For a physical reflectance (anything from -10 up; in practice [0, 1]) the
   * reflected share scales non-negative direct light by `1 + 0.1 * reflectance`
   * and the clamp never bites.
   */
  lemma ReflectionScales(direct: real, reflectance: real)
    requires direct >= 0.0 && reflectance >= -10.0
    ensures WithReflection(direct, reflectance) == direct * (1.0 + 0.1 * reflectance)
  {
    var k := 1.0 + 0.1 * reflectance;
    assert direct + direct * reflectance * 0.1 == direct * k;
    MulLeftMonotone(0.0, direct, k);
  }

  /** With the default reflectance the direct light is scaled by 1.02. */
  lemma DefaultReflectanceShare(m: Math, fixtures: seq<PlacedFixture>, p: Point3)
    ensures PointIlluminance(m, fixtures, p, DefaultReflectance) == ContributionSum(m, fixtures, p) * 1.02
  {
    ReflectionScales(ContributionSum(m, fixtures, p), DefaultReflectance);
  }

  /** Adding a fixture never darkens a point. */
  lemma AddingFixtureBrightens(m: Math, fixtures: seq<PlacedFixture>, f: PlacedFixture, p: Point3, reflectance: real)
    requires reflectance >= -10.0
    ensures PointIlluminance(m, fixtures + [f], p, reflectance) >= PointIlluminance(m, fixtures, p, reflectance)
  {
    var s := fixtures + [f];
    assert s[..|s| - 1] == fixtures;
    var before := ContributionSum(m, fixtures, p);
    var after := ContributionSum(m, s, p);
    assert after == before + FixtureContribution(m, f, p);
    ReflectionMonotone(before, after, reflectance);
  }

  /** More direct light never gives less light with its reflection. */
  lemma ReflectionMonotone(a: real, b: real, reflectance: real)
    requires 0.0 <= a <= b && reflectance >= -10.0
    ensures WithReflection(a, reflectance) <= WithReflection(b, reflectance)
  {
    UnclampedMonotone(a, b, reflectance);
  }

  /** The sum before the clamp grows with the direct light. */
  lemma UnclampedMonotone(a: real, b: real, reflectance: real)
    requires 0.0 <= a <= b && reflectance >= -10.0
    ensures a + a * reflectance * 0.1 <= b + b * reflectance * 0.1
  {
    var k := 1.0 + 0.1 * reflectance;
    MulLeftMonotone(a, b, k);
    assert a + a * reflectance * 0.1 == a * k;
    assert b * k == b + b * reflectance * 0.1;
  }
}
