/** Light spillage: boundary points that receive more than 1 lux. */
module Spillage {
  import opened RealMath
  import opened Seqs
  import Utils
  import opened Wrappers
  import opened Lighting
  import opened Sampling

  /** The kept boundary points, each with the illuminance it receives. */
  datatype SpillageResult = SpillageResult(spillagePoints: seq<LitPoint>, maxSpillage: real, averageSpillage: real)

  /** Illuminance above this many lux counts as spillage. */
  const SpillThreshold: real := 1.0

  function Significant(): LitPoint -> bool {
    (p: LitPoint) => p.illuminance > SpillThreshold
  }

  /** The result `calculateLightSpillage` returns. */
  function SpillageOf(m: Math, fixtures: seq<PlacedFixture>, boundary: seq<Point3>): SpillageResult {
    // Every boundary point with its full illuminance (reflected share included).
    var kept := Filter(Illuminate(m, fixtures, boundary), Significant());
    var values := Values(kept);
    SpillageResult(
      kept,
      if |kept| > 0 then Utils.MaxOf(values) else 0.0,
      if |kept| > 0 then Utils.Average(values) else 0.0)
  }

  lemma IlluminateAppend(m: Math, fixtures: seq<PlacedFixture>, boundary: seq<Point3>, k: nat)
    requires k < |boundary|
    ensures Illuminate(m, fixtures, boundary[..k + 1])
      == Illuminate(m, fixtures, boundary[..k]) + [LitPoint(boundary[k], PointIlluminance(m, fixtures, boundary[k], DefaultReflectance))]
  {
  }

  /**
   * `calculateLightSpillage`: computes each boundary point's illuminance in
   * order and keeps those above the threshold.
   */
  method CalculateLightSpillage(m: Math, fixtures: seq<PlacedFixture>, boundaryPoints: seq<Point3>)
    returns (r: SpillageResult)
    ensures r == SpillageOf(m, fixtures, boundaryPoints)
  {
    var spillagePoints: seq<LitPoint> := [];
    for k := 0 to |boundaryPoints|
      invariant spillagePoints == Filter(Illuminate(m, fixtures, boundaryPoints[..k]), Significant())
    {
      var illuminance := CalculatePointIlluminance(m, fixtures, boundaryPoints[k], None);
      IlluminateAppend(m, fixtures, boundaryPoints, k);
      var lit := Illuminate(m, fixtures, boundaryPoints[..k + 1]);
      assert lit[..k] == Illuminate(m, fixtures, boundaryPoints[..k]);
      if illuminance > SpillThreshold {
        spillagePoints := spillagePoints + [LitPoint(boundaryPoints[k], illuminance)];
      }
    }
    assert boundaryPoints[..|boundaryPoints|] == boundaryPoints;
    var values := Values(spillagePoints);
    r := SpillageResult(
      spillagePoints,
      if |spillagePoints| > 0 then Utils.MaxOf(values) else 0.0,
      if |spillagePoints| > 0 then Utils.Average(values) else 0.0);
  }

  /**
   * Spillage keeps exactly the boundary points lit above 1 lux, in boundary
   * order and each as often as it occurs there; the maximum is at least the average, which exceeds 1, and both
   * are 0 when nothing spills.
   */
  lemma SpillageSummary(m: Math, fixtures: seq<PlacedFixture>, boundary: seq<Point3>)
    ensures var r := SpillageOf(m, fixtures, boundary);
            && IsSubsequence(r.spillagePoints, Illuminate(m, fixtures, boundary))
            && (forall p :: p in r.spillagePoints <==> p in Illuminate(m, fixtures, boundary) && p.illuminance > SpillThreshold)
            && (forall p: LitPoint :: multiset(r.spillagePoints)[p]
                  == if p.illuminance > SpillThreshold then multiset(Illuminate(m, fixtures, boundary))[p] else 0)
            && (r.spillagePoints == [] ==> r.maxSpillage == 0.0 && r.averageSpillage == 0.0)
            && (r.spillagePoints != [] ==> r.maxSpillage >= r.averageSpillage > SpillThreshold)
  {
    var lit := Illuminate(m, fixtures, boundary);
    var kept := Filter(lit, Significant());
    FilterIsSubsequence(lit, Significant());
    forall p: LitPoint
      ensures multiset(kept)[p] == if p.illuminance > SpillThreshold then multiset(lit)[p] else 0
    {
      FilterCount(lit, Significant(), p);
    }
    if kept != [] {
      var values := Values(kept);
      forall v | v in values
        ensures v > SpillThreshold
      {
        var k :| 0 <= k < |values| && values[k] == v;
        assert kept[k] in kept;
      }
      Utils.AverageBetween(values);
      assert Utils.MinOf(values) in values;
    }
  }

  /** Nothing spills from an empty fixture list. */
  lemma NoFixturesNoSpill(m: Math, boundary: seq<Point3>)
    ensures SpillageOf(m, [], boundary) == SpillageResult([], 0.0, 0.0)
  {
    var lit := Illuminate(m, [], boundary);
    forall k | 0 <= k < |lit|
      ensures !Significant()(lit[k])
    {
      NoFixturesDark(m, boundary[k], DefaultReflectance);
    }
    FilterNone(lit, Significant());
  }
}
