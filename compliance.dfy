/**
 * The lighting standards table and the compliance check of a calculated
 * field against one standard.
 */
module Compliance {
  import opened RealMath
  import opened Wrappers
  import Sampling
  import Utils

  /** A threshold with its recommended value. */
  datatype Target = Target(min: real, recommended: real)

  /** A closed range, as the colour-temperature requirement gives it. */
  datatype Span = Span(min: real, max: real)

  datatype Size = Size(width: real, height: real)

  /** Reference dimensions of a pitch, in metres. */
  datatype Areas = Areas(playingField: Size, totalArea: Size)

  /** The requirements of a standard (units: lux, kelvin, CRI, GR). */
  datatype Requirements = Requirements(
    averageIlluminance: Target,
    uniformityRatio: Target,
    verticalIlluminance: Target,
    colorTemperature: Span,
    cri: Target,
    glareRatingMax: real)

  datatype Standard = Standard(name: string, requirements: Requirements, areas: Option<Areas>)

  const Pitch: Areas := Areas(Size(105.0, 68.0), Size(125.0, 88.0))

  /** `getLightingStandards`. */
  const Standards: map<string, Standard> := map[
    "fifa" := Standard("FIFA Football Standards",
      Requirements(Target(200.0, 500.0), Target(0.5, 0.7), Target(150.0, 200.0),
        Span(5000.0, 6500.0), Target(65.0, 80.0), 50.0),
      Some(Pitch)),
    "uefa" := Standard("UEFA Standards",
      Requirements(Target(500.0, 800.0), Target(0.7, 0.8), Target(400.0, 600.0),
        Span(5000.0, 6500.0), Target(80.0, 90.0), 50.0),
      Some(Pitch)),
    "ies" := Standard("IES Industrial Standards",
      Requirements(Target(50.0, 200.0), Target(0.25, 0.4), Target(25.0, 100.0),
        Span(3000.0, 6500.0), Target(65.0, 80.0), 55.0),
      None),
    "custom" := Standard("Custom Requirements",
      Requirements(Target(100.0, 300.0), Target(0.4, 0.6), Target(50.0, 150.0),
        Span(3000.0, 6500.0), Target(70.0, 80.0), 50.0),
      None)
  ]

  /** Every standard is internally consistent: each minimum is at most its recommendation. */
  lemma StandardsConsistent()
    ensures Standards.Keys == {"fifa", "uefa", "ies", "custom"}
    ensures forall id :: id in Standards ==>
      var r := Standards[id].requirements;
      && r.averageIlluminance.min <= r.averageIlluminance.recommended
      && r.uniformityRatio.min <= r.uniformityRatio.recommended <= 1.0
      && r.verticalIlluminance.min <= r.verticalIlluminance.recommended
      && r.colorTemperature.min <= r.colorTemperature.max
      && r.cri.min <= r.cri.recommended
  {
  }

  /** An issue found by the check; the message text interpolates these values. */
  datatype Issue =
    | AverageBelow(average: real, minimum: real)
    | UniformityBelow(ratio: Number, minimum: real)
    | UnknownStandard

  /** `standard` is absent when the id is unknown. */
  datatype ComplianceResult = ComplianceResult(compliant: bool, issues: seq<Issue>, standard: Option<string>)

  /**
   * `checkCompliance`: an unknown id fails with one issue; otherwise the
   * average is checked before the uniformity, each with a strict `<`, and the
   * field complies exactly when neither check fails.
   */
  function CheckCompliance(results: Sampling.Statistics, standardId: string): (r: ComplianceResult)
    ensures standardId !in Standards ==> r == ComplianceResult(false, [UnknownStandard], None)
    ensures standardId in Standards ==> r.standard == Some(Standards[standardId].name)
    ensures r.compliant <==> r.issues == []
  {
    if standardId !in Standards then ComplianceResult(false, [UnknownStandard], None)
    else
      var standard := Standards[standardId];
      var requirements := standard.requirements;
      var minAverage := requirements.averageIlluminance.min;
      var minUniformity := requirements.uniformityRatio.min;
      var averageIssues :=
        if results.average < minAverage then [AverageBelow(results.average, minAverage)] else [];
      var uniformityIssues :=
        if Below(results.uniformityRatio, minUniformity)
        then [UniformityBelow(results.uniformityRatio, minUniformity)] else [];
      ComplianceResult(
        !(results.average < minAverage) && !Below(results.uniformityRatio, minUniformity),
        averageIssues + uniformityIssues,
        Some(standard.name))
  }

  /**
   * For a known standard the issues are exactly the failed checks, average
   * first: a field complies iff its average and its uniformity both reach
   * the minimums (a NaN uniformity is never below a minimum).
   */
  lemma ComplianceIssues(results: Sampling.Statistics, standardId: string)
    requires standardId in Standards
    ensures var req := Standards[standardId].requirements;
            var averageFails := results.average < req.averageIlluminance.min;
            var uniformityFails := Below(results.uniformityRatio, req.uniformityRatio.min);
            var r := CheckCompliance(results, standardId);
            && |r.issues| == (if averageFails then 1 else 0) + (if uniformityFails then 1 else 0)
            && (averageFails ==> r.issues[0] == AverageBelow(results.average, req.averageIlluminance.min))
            && (uniformityFails ==>
                  r.issues[|r.issues| - 1] == UniformityBelow(results.uniformityRatio, req.uniformityRatio.min))
            && (r.compliant <==> !averageFails && !uniformityFails)
  {
  }

  /** The field of 150 lux at uniformity 0.3 fails FIFA on both counts. */
  lemma FifaExample(results: Sampling.Statistics)
    requires results.average == 150.0 && results.uniformityRatio == Finite(0.3)
    ensures CheckCompliance(results, "fifa")
      == ComplianceResult(false, [AverageBelow(150.0, 200.0), UniformityBelow(Finite(0.3), 0.5)],
                          Some("FIFA Football Standards"))
  {
  }

  /** The standards are ordered by strictness: UEFA, then FIFA, then custom, then IES. */
  lemma StricterStandards(results: Sampling.Statistics)
    ensures CheckCompliance(results, "uefa").compliant ==> CheckCompliance(results, "fifa").compliant
    ensures CheckCompliance(results, "fifa").compliant ==> CheckCompliance(results, "custom").compliant
    ensures CheckCompliance(results, "custom").compliant ==> CheckCompliance(results, "ies").compliant
  {
  }

  /** A dark field's NaN uniformity raises no uniformity issue: only the average fails. */
  lemma DarkFieldCompliance(m: Math, values: seq<real>, standardId: string)
    requires values != [] && standardId in Standards
    requires forall i :: 0 <= i < |values| ==> values[i] == 0.0
    ensures CheckCompliance(Sampling.AnalyzeIlluminanceValues(m, values), standardId).issues
      == [AverageBelow(0.0, Standards[standardId].requirements.averageIlluminance.min)]
  {
    Sampling.DarkFieldUniformity(m, values);
    var stats := Sampling.AnalyzeIlluminanceValues(m, values);
    Utils.SumBounds(values, 0.0, 0.0);
    Utils.FormatInteger(0, 1);
    assert stats.average == 0.0;
  }
}
