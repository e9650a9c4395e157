/** Power, energy, cost and emissions of a set of placed fixtures. */
module Energy {
  import opened RealMath
  import Utils
  import opened Lighting

  /** Daily hours of operation. */
  const OperatingHours: real := 8.0

  /** Price of a kilowatt-hour. */
  const ElectricityRate: real := 0.15

  /** Kilograms of CO2 per kilowatt-hour. */
  const EmissionFactor: real := 0.5

  datatype PowerReport = PowerReport(
    totalPower: real,
    energyPerDay: real,
    energyPerYear: real,
    operatingCostPerYear: real,
    co2EmissionsPerYear: real)

  /** The `reduce` summing the fixtures' power, from the first fixture on. */
  function TotalPower(fixtures: seq<PlacedFixture>): real
    decreases |fixtures|
  {
    if fixtures == [] then 0.0
    else TotalPower(fixtures[..|fixtures| - 1]) + fixtures[|fixtures| - 1].specifications.power
  }

  /** `calculatePowerConsumption`: each figure rounded as the report shows it. */
  function CalculatePowerConsumption(fixtures: seq<PlacedFixture>): PowerReport {
    var totalPower := TotalPower(fixtures);
    var energyPerDay := totalPower * OperatingHours / 1000.0;
    var energyPerYear := energyPerDay * 365.0;
    var operatingCostPerYear := energyPerYear * ElectricityRate;
    PowerReport(
      Utils.FormatNumber(totalPower, 0),
      Utils.FormatNumber(energyPerDay, 1),
      Utils.FormatNumber(energyPerYear, 0),
      Utils.FormatNumber(operatingCostPerYear, 0),
      Utils.FormatNumber(energyPerYear * EmissionFactor, 0))
  }

  /**
   * Every figure is its linear function of the total power up to the
   * rounding of its last digit: 8 h a day, 365 days, 0.15 per kWh, 0.5 kg per kWh.
   */
  lemma ReportIsLinear(fixtures: seq<PlacedFixture>)
    ensures var r := CalculatePowerConsumption(fixtures);
            var p := TotalPower(fixtures);
            && Abs(r.totalPower - p) <= 0.5
            && Abs(r.energyPerDay - p * 0.008) <= 0.05
            && Abs(r.energyPerYear - p * 2.92) <= 0.5
            && Abs(r.operatingCostPerYear - p * 0.438) <= 0.5
            && Abs(r.co2EmissionsPerYear - p * 1.46) <= 0.5
  {
    var p := TotalPower(fixtures);
    assert Utils.Pow10(0) == 1.0 && Utils.Pow10(1) == 10.0;
    Utils.FormatNumberNearest(p, 0);
    Utils.FormatNumberNearest(p * OperatingHours / 1000.0, 1);
    Utils.FormatNumberNearest(p * OperatingHours / 1000.0 * 365.0, 0);
    Utils.FormatNumberNearest(p * OperatingHours / 1000.0 * 365.0 * ElectricityRate, 0);
    Utils.FormatNumberNearest(p * OperatingHours / 1000.0 * 365.0 * EmissionFactor, 0);
  }

  lemma {:induction false} TotalPowerNonNegative(fixtures: seq<PlacedFixture>)
    requires forall f :: f in fixtures ==> f.specifications.power >= 0.0
    ensures TotalPower(fixtures) >= 0.0
    decreases |fixtures|
  {
    if fixtures != [] {
      TotalPowerNonNegative(fixtures[..|fixtures| - 1]);
    }
  }

  /** Fixtures drawing power never give a negative figure. */
  lemma ReportNonNegative(fixtures: seq<PlacedFixture>)
    requires forall f :: f in fixtures ==> f.specifications.power >= 0.0
    ensures var r := CalculatePowerConsumption(fixtures);
            r.totalPower >= 0.0 && r.energyPerDay >= 0.0 && r.energyPerYear >= 0.0
            && r.operatingCostPerYear >= 0.0 && r.co2EmissionsPerYear >= 0.0
  {
    var p := TotalPower(fixtures);
    TotalPowerNonNegative(fixtures);
    Utils.FormatNumberBetween(p, 0.0, p, 0);
    Utils.FormatNumberBetween(p * OperatingHours / 1000.0, 0.0, p, 1);
    Utils.FormatNumberBetween(p * OperatingHours / 1000.0 * 365.0, 0.0, p * 3.0, 0);
    Utils.FormatNumberBetween(p * OperatingHours / 1000.0 * 365.0 * ElectricityRate, 0.0, p, 0);
    Utils.FormatNumberBetween(p * OperatingHours / 1000.0 * 365.0 * EmissionFactor, 0.0, p * 2.0, 0);
  }

  /** Adding a fixture that draws power never lowers a figure. */
  lemma ReportMonotone(fixtures: seq<PlacedFixture>, f: PlacedFixture)
    requires f.specifications.power >= 0.0
    ensures var before := CalculatePowerConsumption(fixtures);
            var after := CalculatePowerConsumption(fixtures + [f]);
            before.totalPower <= after.totalPower && before.energyPerDay <= after.energyPerDay
            && before.energyPerYear <= after.energyPerYear
            && before.operatingCostPerYear <= after.operatingCostPerYear
            && before.co2EmissionsPerYear <= after.co2EmissionsPerYear
  {
    var s := fixtures + [f];
    assert s[..|s| - 1] == fixtures;
    var p := TotalPower(fixtures);
    var q := TotalPower(s);
    assert p <= q;
    Utils.FormatNumberMonotone(p, q, 0);
    Utils.FormatNumberMonotone(p * OperatingHours / 1000.0, q * OperatingHours / 1000.0, 1);
    Utils.FormatNumberMonotone(p * OperatingHours / 1000.0 * 365.0, q * OperatingHours / 1000.0 * 365.0, 0);
    Utils.FormatNumberMonotone(p * OperatingHours / 1000.0 * 365.0 * ElectricityRate,
                               q * OperatingHours / 1000.0 * 365.0 * ElectricityRate, 0);
    Utils.FormatNumberMonotone(p * OperatingHours / 1000.0 * 365.0 * EmissionFactor,
                               q * OperatingHours / 1000.0 * 365.0 * EmissionFactor, 0);
  }

  /** One 2 kW floodlight: 16 kWh a day, 5840 kWh and 876 in cost a year, 2920 kg of CO2. */
  lemma TwoKilowattExample(f: PlacedFixture)
    requires f.specifications.power == 2000.0
    ensures CalculatePowerConsumption([f]) == PowerReport(2000.0, 16.0, 5840.0, 876.0, 2920.0)
  {
    assert [f][..0] == [];
    assert TotalPower([f]) == 2000.0;
    Utils.FormatInteger(2000, 0);
    Utils.FormatInteger(16, 1);
    Utils.FormatInteger(5840, 0);
    Utils.FormatInteger(876, 0);
    Utils.FormatInteger(2920, 0);
  }
}
