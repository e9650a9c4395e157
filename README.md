# CalqLux Outdoor — verified model of the calculation core

CalqLux Outdoor is a browser tool for designing outdoor lighting for sports
fields and industrial yards. This project models its calculation core in
Dafny:

- the photometric kernel of the lighting calculator. It gives the
  illuminance one fixture puts on a point: inverse-square law, hard beam
  cutoff, cosine-squared distribution. It also gives the illuminance of all
  fixtures at a point, with a fixed share of reflected light;
- the area workflow: the calculation grid, the statistics of an illuminance
  field, compliance with the built-in standards (FIFA, UEFA, IES, custom),
  isolux contours, light spillage and power consumption;
- the layout optimiser: choose the most efficient fixture that fits the
  mounting height, count how many are needed, and lay them out on an even
  grid;
- the fixture library: the built-in sports and industrial catalog, custom
  fixtures (validate, add, remove), lookup, search, recommendations and
  spacing;
- the utility layer:
  - unit conversions and planar geometry;
  - grid snapping and number formatting;
  - colour conversion and the contour colour ramp;
  - array statistics;
  - the event emitter.

JavaScript numbers are modelled as reals. Where the code observably
produces NaN or an infinity, the value is a `RealMath.Number`:
- a `minimum / average` with a zero average;
- a `lumens / target` with a zero target.

`Math.sqrt`, `Math.atan2`, `Math.cos` and `Math.tan` are not computed. They
are fields of a `RealMath.Ops` value that is passed in. The subset type
`RealMath.Math` records the few laws the proofs use, for example that
`sqrt` is non-negative and that `atan2(y, 0)` is π/2 for `y > 0`.

`Number.prototype.toFixed` is modelled as exact rounding, half away from
zero, at the given number of decimals.

Modules:

| module | file | models |
|---|---|---|
| `RealMath` | real_math.dfy | the `Math` object, JS `Number` outcomes, floor/ceil/round |
| `Wrappers` | wrappers.dfy | `Option` and `Result` |
| `Seqs` | seqs.dfy | `Array.prototype.filter` and subsequences |
| `Strings` | strings.dfy | ASCII `toLowerCase` and `includes` |
| `Hex` | hex.dfy | `toString(16)`, `parseInt(s, 16)`, 32-bit `<<` |
| `Utils` | utils.dfy | `CalqLuxUtils` conversions, geometry, snapping, formatting, statistics |
| `Colors` | colors.dfy | `interpolateColor`, `rgbToHex`, `hexToRgb`, `getContourColor` |
| `Events` | events.dfy | `createEventEmitter` |
| `Fixtures` | fixtures.dfy | `FixtureLibrary` |
| `Lighting` | lighting.dfy | point illuminance in `LightingCalculator` |
| `Sampling` | sampling.dfy | calculation grid, area illuminance, statistics |
| `Compliance` | compliance.dfy | lighting standards and `checkCompliance` |
| `Isolux` | isolux.dfy | `generateIsoluxContours` |
| `Spillage` | spillage.dfy | `calculateLightSpillage` |
| `Energy` | energy.dfy | `calculatePowerConsumption` |
| `Layout` | layout.dfy | `optimizeFixtureLayout` and `generateFixtureGrid` |

Behaviour of the code worth knowing:

- The uniformity ratio is `minimum / average` with no guard. A field that
  is dark everywhere gives NaN (`Sampling.DarkFieldUniformity`). NaN then
  fails no compliance check (`Compliance.DarkFieldCompliance`).
- Light spillage measures the full point illuminance, with the reflected
  share included.
- The statistics of an empty list carry no `count` field.

## Model

| member | source | states |
|---|---|---|
| Utils.LengthRoundTrip | js/utils.js:9-15 | metres→feet→metres and feet→metres→feet are the identity |
| Utils.IlluminanceRoundTrip | js/utils.js:17-23 | lux→foot-candles→lux and back are the identity |
| Utils.AngleRoundTrip | js/utils.js:25-31 | degrees→radians→degrees and back are the identity |
| Utils.Distance | js/utils.js:34-36 | the distance is non-negative, and zero for equal points |
| Utils.DistanceSymmetric | js/utils.js:34-36 | the distance from a to b equals the distance from b to a |
| Utils.Angle | js/utils.js:38-40 | a point straight "north" of another lies at angle π/2 |
| Utils.TranslationInvariant | js/utils.js:34-40 | moving both points by the same offset changes neither their distance nor the bearing between them |
| Utils.PointInCircle | js/utils.js:56-58 | the centre is inside any circle of non-negative radius; a negative radius contains nothing |
| Utils.CircleSymmetricMonotone | js/utils.js:56-58 | swapping point and centre gives the same answer; a point inside a circle is inside every larger one about the same centre |
| Utils.RectangleCorners | js/utils.js:60-64 | all four corners of a rectangle of non-negative size are inside it (closed bounds) |
| Utils.RectangleIsClampFixpoint | js/utils.js:60-64 | a point is in the rectangle iff each coordinate passes the range test; for non-negative sides, iff clamping into the rectangle leaves the point unchanged |
| Utils.PointInPolygon | js/utils.js:42-54 | the loop's `inside` flag is true iff the number of edges crossed by the ray from the point is odd |
| Utils.OutsideVerticalExtent | js/utils.js:42-54 | a point above or below every vertex is outside |
| Utils.DegeneratePolygon | js/utils.js:42-54 | fewer than three vertices never enclose a point |
| Utils.EdgeCrossesSymmetric | js/utils.js:47-48 | the crossing test does not depend on the direction of the edge |
| Utils.SnapToGrid | js/utils.js:66-68 | with a positive grid, the snapped value lies within half a cell of the value |
| Utils.SnapIsMultiple | js/utils.js:66-68 | the snapped value is an integral multiple of the grid size |
| Utils.SnapIdempotent | js/utils.js:66-68 | snapping twice is the same as snapping once |
| Utils.SnapMultiple | js/utils.js:66-68 | a multiple of the grid size is a fixpoint of snapping |
| Utils.SnapPointToGrid | js/utils.js:70-75 | each coordinate moves by at most half a cell |
| Utils.SnapPointIdempotent | js/utils.js:70-75 | snapping a point twice is the same as snapping it once |
| Utils.FormatNumber | js/utils.js:78-80 | `Number(x.toFixed(d))`; its properties are the four lemmas below |
| Utils.FormatNumberNearest | js/utils.js:78-80 | formatting to d decimals moves a value by at most half a unit in the last place |
| Utils.FormatNumberMonotone | js/utils.js:78-80 | formatting preserves order, and formats 0 as 0 |
| Utils.FormatNumberBetween | js/utils.js:78-80 | a value between two bounds formats between their formatted values; non-negative stays non-negative |
| Utils.FormatInteger | js/utils.js:78-80 | an integer is a fixpoint of formatting at any number of decimals |
| Utils.Clamp | js/utils.js:223-225 | the result lies in [min, max] when min <= max, is the value when it already does, and is max when min > max |
| Utils.IsValidRange | js/utils.js:219-229 | a value is in range iff it is a finite number between min and max |
| Utils.ValidRangeIsClampFixpoint | js/utils.js:223-229 | a finite number is in range iff clamping leaves it unchanged |
| Utils.MinOf | js/utils.js:232-238 | `Math.min(...array)`: an element of the array and at most every element |
| Utils.MaxOf | js/utils.js:232-238 | `Math.max(...array)`: an element of the array and at least every element |
| Utils.FindMinMax | js/utils.js:232-238 | `{0, 0}` for an empty array; otherwise both bounds are elements and bracket every element |
| Utils.Average | js/utils.js:240-243 | 0 for an empty array; otherwise the average times the length is the sum |
| Utils.AverageBetween | js/utils.js:240-243 | the average of a non-empty array lies between its minimum and maximum |
| Utils.AverageNonNegative | js/utils.js:240-243 | the average of non-negative values is non-negative |
| Utils.SumBounds | js/utils.js:240-243 | n values in [lo, hi] sum to between n·lo and n·hi |
| Utils.StandardDeviation | js/utils.js:245-251 | 0 for an empty array, otherwise non-negative |
| Utils.DeviationZeroIffConstant | js/utils.js:245-251 | the deviation of a non-empty array is 0 exactly when all its values are equal |
| Utils.SumPositive | js/utils.js:240-243 | a sum of non-negative values with one positive value is positive |
| Colors.Lerp | js/utils.js:94 | one interpolated component, rounded, lies between the two endpoints for a factor in [0, 1] |
| Colors.InterpolateColor | js/utils.js:91-97 | a fresh copy of color1 whose first three components are interpolated towards color2 |
| Colors.InterpolateEndpoints | js/utils.js:91-97 | factor 0 gives color1; factor 1 gives color2's first three components followed by color1's extra ones |
| Colors.InterpolateBetween | js/utils.js:91-97 | interpolating two colours whose components lie in [lo, hi] stays in [lo, hi] |
| Colors.RgbToHex | js/utils.js:99-101 | the result starts with `#`; its digits are stated by the two lemmas below |
| Colors.RgbToHexShape | js/utils.js:99-101 | for bytes, the result is `#` and six lower-case hex digits |
| Colors.RgbToHexDigits | js/utils.js:99-101 | for bytes, the result is `#` followed by each component as two hex digits |
| Colors.HexToRgb | js/utils.js:103-110 | a match iff the input is six hex digits with an optional `#`, and then three bytes |
| Colors.RgbRoundTrip | js/utils.js:99-110 | parsing the hex string of three bytes gives them back |
| Colors.HexRoundTrip | js/utils.js:99-110 | re-encoding a parsed colour gives `#` and the input's digits in lower case |
| Colors.GetContourColor | js/utils.js:113-135 | every colour the ramp yields is an RGB triple of bytes |
| Colors.ContourAtStop | js/utils.js:113-135 | an integral ramp position returns that stop |
| Colors.ContourEnds | js/utils.js:113-135 | the minimum maps to dark blue and the maximum to red |
| Colors.ContourInRange | js/utils.js:113-135 | a value inside a non-empty range always yields a colour |
| Colors.ContourAboveRange | js/utils.js:113-135 | a value above the range yields no colour (`undefined` or a throw) |
| Colors.ContourFlatRange | js/utils.js:113-135 | a range of zero width yields no colour |
| Hex.ParseFixed | js/utils.js:99-110 | parsing v written as `width` hex digits gives v back |
| Hex.FixedParse | js/utils.js:99-110 | writing a parsed hex string at its own width gives the string in lower case |
| Hex.HexStringSplit | js/utils.js:100 | `toString(16)` of a·16^w + m is `toString(16)` of a followed by m as w digits |
| Hex.FixedSplit | js/utils.js:100 | the fixed-width hex form of a·16^w + m is that of a followed by that of m |
| Hex.ToInt32 | js/utils.js:100 | the 32-bit wrap of `<<` lands in the signed 32-bit range and keeps values already there |
| Strings.Lower | js/fixture-library.js:432-437 | `toLowerCase` keeps the length and lower-cases each ASCII letter |
| Events.EventEmitter.constructor | js/utils.js:304-305 | a new emitter has no listeners |
| Events.EventEmitter.On | js/utils.js:308-311 | the callback is appended to the event's list, created if absent; other events are unchanged |
| Events.EventEmitter.Off | js/utils.js:313-316 | an unknown event changes nothing; otherwise every occurrence of the callback leaves that event's list |
| Events.EventEmitter.Emit | js/utils.js:318-321 | the listeners are invoked in registration order; an unknown event invokes nothing |
| Events.Without | js/utils.js:315 | the filtered list lacks the callback and keeps every other one |
| Events.OffKeepsOthers | js/utils.js:315 | removal keeps the order and the multiplicity of every other callback |
| Events.OffAbsent | js/utils.js:315 | removing a callback that is not registered changes nothing |
| Events.OnThenOff | js/utils.js:308-316 | registering then removing a callback is the same as only removing it |
| Events.OffIdempotent | js/utils.js:313-316 | removing twice is the same as removing once |
| Events.Scenario | js/utils.js:304-323 | after on(a), on(b), on(a) again and off(a), which removes both registrations of a, emit calls only b |
| Fixtures.CatalogInvariants | js/fixture-library.js:18-340 | every built-in entry has efficacy × power = lumens, a recommended height inside its range, beam angles in (0, 360] and photometry; it lists under its own category; no two ids repeat |
| Fixtures.FixtureLibrary.constructor | js/fixture-library.js:7-16 | the library starts with the built-in sports and industrial lists, no custom entries and category "sports" |
| Fixtures.FixtureLibrary.GetFixturesByCategory | js/fixture-library.js:342-344 | the list stored under the key, `[]` for any other key; stated by the lemma below |
| Fixtures.CategoriesConsistent | js/fixture-library.js:342-344 | each category lists only entries of that category; any other key lists nothing |
| Fixtures.FixtureLibrary.GetAllFixtures | js/fixture-library.js:346-352 | the pushing loop returns sports, then industrial, then custom entries, so every category's entries are present |
| Fixtures.FixtureLibrary.GetFixtureById | js/fixture-library.js:354-357 | a found entry is in the catalog with that id; nothing is found iff no entry has it |
| Fixtures.GetFixtureByIdFirst | js/fixture-library.js:354-357 | the found entry is the first with that id in catalog order |
| Fixtures.BuiltinLookup | js/fixture-library.js:354-357 | every built-in entry is found by its id, whatever custom entries exist |
| Fixtures.FindById | js/fixture-library.js:383 | `findIndex`: the first index with that id, or none iff no entry has it |
| Fixtures.ValidateFixture | js/fixture-library.js:393-425 | the checks in order accept iff name and specifications are present, power and lumens are finite positive numbers, and beam angle and mounting height are present |
| Fixtures.StringPowerRejected | js/fixture-library.js:414-417 | a power given as a string is rejected, however truthy |
| Fixtures.AssignedId | js/fixture-library.js:365-368 | a given id is kept; a missing one becomes `custom_` followed by a fresh suffix |
| Fixtures.Stored | js/fixture-library.js:365-371 | the stored entry has the assigned id, category "custom", the draft's name and positive power and lumens |
| Fixtures.FixtureLibrary.AddCustomFixture | js/fixture-library.js:359-380 | an invalid draft throws "Invalid fixture data" and changes nothing; a valid one is appended to the custom list and its id returned; the built-in lists are unchanged |
| Fixtures.FixtureLibrary.RemoveCustomFixture | js/fixture-library.js:382-391 | returns true iff some custom entry has the id, and splices out the first such entry only |
| Fixtures.Removed | js/fixture-library.js:383-385 | the custom list loses one entry iff the id was present |
| Fixtures.RemovedKeepsOthers | js/fixture-library.js:382-391 | removal keeps the order of the rest, keeps every entry with another id, and takes away exactly one occurrence |
| Fixtures.RemoveAfterAdd | js/fixture-library.js:359-391 | removing a just-added entry with an unused id restores the custom list |
| Fixtures.FindAfter | js/fixture-library.js:383 | an appended entry with an unused id is found at the end |
| Fixtures.FixtureLibrary.SearchFixtures | js/fixture-library.js:427-439 | the search over the category's list, or the whole catalog; stated by the two lemmas below |
| Fixtures.SearchSpec | js/fixture-library.js:427-439 | an empty query returns the list searched; otherwise the result is an order-preserving selection of exactly the entries whose name, model, manufacturer or an application contains the lower-cased query, each as often as in the list searched |
| Fixtures.SearchIgnoresQueryCase | js/fixture-library.js:432 | the search does not depend on the case of the query |
| Fixtures.FixtureLibrary.GetFixtureRecommendations | js/fixture-library.js:441-463 | the suited entries, sorted by efficacy; stated by the lemma below |
| Fixtures.RecommendationsSpec | js/fixture-library.js:441-463 | exactly the entries suited to the application, height and power density, most efficient first, as a permutation of the filtered catalog |
| Fixtures.NoRecommendationsForZeroArea | js/fixture-library.js:455-456 | a zero area recommends nothing |
| Fixtures.SortByEfficacy | js/fixture-library.js:459-462 | the sort returns a permutation of its input ordered by non-increasing efficacy |
| Fixtures.InsertKeepsTies | js/fixture-library.js:459-462 | inserting an entry into a sorted list puts it after every entry of the same efficacy |
| Fixtures.SortKeepsTies | js/fixture-library.js:459-462 | the sort is stable: entries of equal efficacy keep their input order |
| Fixtures.InsertPermutes | js/fixture-library.js:459-462 | one insertion step adds exactly one occurrence of the fixture |
| Fixtures.InsertSorted | js/fixture-library.js:459-462 | inserting into a sorted list keeps it sorted |
| Fixtures.CalculateFixtureSpacing | js/fixture-library.js:465-488 | the lit area times the target equals 70% of the lumens; a zero target gives a non-finite area |
| Fixtures.SpacingProportional | js/fixture-library.js:476-481 | the spacing scales linearly with the mounting height and ignores the target |
| Lighting.SlantDistance | js/lighting-calculator.js:95-102 | the distance to the point is non-negative, and positive when the heights differ |
| Lighting.DistributionFactor | js/lighting-calculator.js:156-164 | the factor is in [0, 1]; 0 beyond the half angle, cos² inside it |
| Lighting.DistributionZeroBeam | js/lighting-calculator.js:156-164 | a zero beam passes light only on the axis |
| Lighting.PeakIntensity | js/lighting-calculator.js:140 | a non-zero photometric peak is used as it is; without photometry, or with a zero peak, the peak times 3.14159 is the lumens; non-negative inputs give a non-negative peak |
| Lighting.LuminousIntensity | js/lighting-calculator.js:134-154 | the intensity lies between 0 and the peak intensity |
| Lighting.FixtureContribution | js/lighting-calculator.js:88-132 | a fixture never contributes negative illuminance |
| Lighting.ContributionCases | js/lighting-calculator.js:88-132 | zero distance gives 0, a point outside the beam gives 0, otherwise the inverse-square value clamped at 0 |
| Lighting.InverseSquareLaw | js/lighting-calculator.js:123-129 | under the same angles, a point k times as far away gets 1/k² of the inverse-square value (a quarter at twice the distance) |
| Lighting.ContributionInverseSquare | js/lighting-calculator.js:88-132 | for a point in the beam, a point under the same angles k times as far away is in the beam too and receives 1/k² of the contribution |
| Lighting.DarkBeneathUntilted | js/lighting-calculator.js:106-121 | an untilted fixture whose vertical beam is under 180° leaves the point straight beneath it dark |
| Lighting.CalculatePointIlluminance | js/lighting-calculator.js:73-86 | the loop's total is the sum of the contributions, plus the reflected share, clamped at 0, with reflectance 0.2 when absent |
| Lighting.PointIlluminance | js/lighting-calculator.js:73-86 | the illuminance at a point is non-negative |
| Lighting.NoFixturesDark | js/lighting-calculator.js:73-86 | no fixtures give 0 lux |
| Lighting.ReflectionScales | js/lighting-calculator.js:81-85 | the reflected share scales direct light by 1 + 0.1·reflectance |
| Lighting.DefaultReflectanceShare | js/lighting-calculator.js:73-86 | at the default reflectance the illuminance is 1.02 × the direct light |
| Lighting.AddingFixtureBrightens | js/lighting-calculator.js:73-86 | adding a fixture never darkens a point |
| Lighting.ReflectionMonotone | js/lighting-calculator.js:81-85 | more direct light gives more total light |
| Sampling.StepCountSpec | js/lighting-calculator.js:190-191 | the k-th step lies within the length iff k is below the step count |
| Sampling.CalculationGrid | js/lighting-calculator.js:183-201 | the grid of steps inside the area; its shape is stated by `Sampling.GridShape` |
| Sampling.GenerateCalculationGrid | js/lighting-calculator.js:183-201 | the nested loops produce the column-major grid |
| Sampling.GridShape | js/lighting-calculator.js:183-201 | the grid has columns × rows points; point i·rows + j is at step (i, j); these are exactly the steps inside the area |
| Sampling.GridInside | js/lighting-calculator.js:183-201 | every grid point lies in the closed area |
| Sampling.TenMetreSquare | js/lighting-calculator.js:183-201 | a 10 m square at 2 m spacing has 36 points |
| Sampling.AnalyzeIlluminanceValues | js/lighting-calculator.js:203-228 | zeros for no values; otherwise count = number of values, min <= average <= max, non-negative deviation; minimum, maximum, average and standard deviation each within 0.05 of the exact value |
| Sampling.Uniformity | js/lighting-calculator.js:217 | `minimum / average` as a JS number; stated by the two lemmas below |
| Sampling.UniformityInUnit | js/lighting-calculator.js:214-224 | for non-negative values with a positive average, the uniformity is finite and in [0, 1] |
| Sampling.DarkFieldUniformity | js/lighting-calculator.js:214-224 | values that are all zero give a NaN uniformity |
| Sampling.Illuminate | js/lighting-calculator.js:170-174 | each grid point is paired with its illuminance at the default reflectance |
| Sampling.CalculateAreaIlluminance | js/lighting-calculator.js:166-181 | the loop's result is the statistics of the grid's illuminances, with a spacing of 1 when absent |
| Sampling.AreaSummary | js/lighting-calculator.js:166-181 | one result point per grid point; count and a non-negative minimum when non-empty; uniformity in [0, 1] when lit |
| Compliance.StandardsConsistent | js/lighting-calculator.js:16-71 | the four standards, each minimum at most its recommendation |
| Compliance.CheckCompliance | js/lighting-calculator.js:291-316 | an unknown standard fails with one issue; otherwise the standard's name is reported, and compliant iff there are no issues |
| Compliance.ComplianceIssues | js/lighting-calculator.js:299-309 | one issue per failed check, the average first and then the uniformity |
| Compliance.FifaExample | js/lighting-calculator.js:291-316 | 150 lux at uniformity 0.3 fails FIFA on both counts |
| Compliance.StricterStandards | js/lighting-calculator.js:16-71 | passing UEFA implies FIFA, FIFA implies custom, and custom implies IES |
| Compliance.DarkFieldCompliance | js/lighting-calculator.js:291-316 | a dark field fails only on the average: its NaN uniformity passes |
| Isolux.GenerateIsoluxContours | js/lighting-calculator.js:318-347 | the loop's result is the level-by-level contour list, with the default levels when none are given |
| Isolux.ContoursFollowLevels | js/lighting-calculator.js:323-344 | the contour levels are exactly the reached levels, in the given order |
| Isolux.ContoursHoldLevelPoints | js/lighting-calculator.js:326-340 | each contour holds exactly the points at or above its level, in order, and at least one |
| Isolux.ContoursNest | js/lighting-calculator.js:326-335 | the points of a higher level are a subsequence of those of a lower level |
| Isolux.ErrorStops | js/lighting-calculator.js:341 | once a colour lookup throws, no later level changes the outcome |
| Isolux.EveryLevelReached | js/lighting-calculator.js:318-347 | with ascending levels and every point at the top level, each level yields a coloured contour holding all points |
| Isolux.BrightField | js/lighting-calculator.js:318-347 | a 500 lux field yields all eight default contours |
| Isolux.SingleLevelThrows | js/lighting-calculator.js:341 | a single reached level throws: its colour range has zero width |
| Spillage.CalculateLightSpillage | js/lighting-calculator.js:270-289 | the loop's result is the spillage summary of the boundary points |
| Spillage.SpillageOf | js/lighting-calculator.js:270-289 | the spillage result of a boundary; stated by the lemma below |
| Spillage.SpillageSummary | js/lighting-calculator.js:270-289 | exactly the boundary points above 1 lux, in order and with their multiplicity; zeros when none; otherwise max >= average > 1 |
| Spillage.NoFixturesNoSpill | js/lighting-calculator.js:270-289 | without fixtures there is no spillage |
| Energy.CalculatePowerConsumption | js/lighting-calculator.js:349-369 | the rounded power report; stated by the four lemmas below |
| Energy.ReportIsLinear | js/lighting-calculator.js:349-369 | each figure is within rounding of total power × its rate |
| Energy.ReportNonNegative | js/lighting-calculator.js:349-369 | non-negative powers give a non-negative report |
| Energy.ReportMonotone | js/lighting-calculator.js:349-369 | adding a fixture never lowers a figure |
| Energy.TwoKilowattExample | js/lighting-calculator.js:349-369 | 2 kW gives 16 kWh/day, 5840 kWh/year, 876 per year and 2920 kg CO₂ |
| Layout.Rows | js/lighting-calculator.js:421-422 | at least one row, and enough cells for every fixture |
| Layout.GenerateFixtureGrid | js/lighting-calculator.js:419-440 | the nested loops place the first `count` cells of the grid, row by row |
| Layout.GridShape | js/lighting-calculator.js:419-440 | exactly `count` positions, strictly inside the area at the mounting height, ordered by row and then column |
| Layout.EmptyGrid | js/lighting-calculator.js:419-440 | a non-positive count or a zero height places nothing; so does a zero width, where the source would not terminate for a positive count and a positive height |
| Layout.SortByEfficacyInPlace | js/lighting-calculator.js:395 | the in-place sort leaves exactly the stable sort by efficacy of the old contents |
| Layout.InsertInPlace | js/lighting-calculator.js:395 | one in-place insertion step equals the functional insertion; the rest of the array is unchanged |
| Layout.ShiftLessEfficient | js/lighting-calculator.js:395 | shifts the less efficient tail of the sorted prefix one slot right and returns the insertion point |
| Layout.InsertAt | js/lighting-calculator.js:395 | the insertion puts the fixture after every entry at least as efficient |
| Layout.SortedHead | js/lighting-calculator.js:395-396 | the head of the sorted list is the first most efficient fixture |
| Layout.FixtureCountCovers | js/lighting-calculator.js:378-399 | the fixture count supplies at least the required lumens, with less than one fixture to spare |
| Layout.OptimizeLayout | js/lighting-calculator.js:371-417 | the error or the plan for the chosen fixture; stated by the lemmas below |
| Layout.OptimizeFixtureLayout | js/lighting-calculator.js:371-417 | the method's result is the plan for the most efficient fitting fixture, or the error |
| Layout.FailsWithoutSuitableFixture | js/lighting-calculator.js:384-392 | throws "No suitable fixtures found for the requirements" iff no fixture fits the mounting height |
| Layout.SelectsMostEfficient | js/lighting-calculator.js:384-396 | the chosen fixture fits the height, is at least as efficient as every fitting fixture, and comes first among ties |
| Layout.CountCoversRequirement | js/lighting-calculator.js:378-399 | the planned count covers the required lumens with less than one fixture to spare |
| Layout.PlanFillsArea | js/lighting-calculator.js:371-417 | on a real area with a positive target, the plan places `count` >= 1 fixtures inside the area |
| Layout.NegativeLumensPlacesNothing | js/lighting-calculator.js:378-417 | a chosen fixture with negative lumens gives a non-positive count and an empty layout |
| Layout.NothingRequired | js/lighting-calculator.js:379-399 | a zero-width area needs no fixtures |

## Left out

- Storage, download, import and export (`saveToLocalStorage`, `loadJSONFile`, `saveCustomFixtures`, `importFixtures` and others) are browser I/O.
- The canvas helpers, debounce and throttle are browser I/O and timers.
- `deepClone` is outside the calculation core.
- `generateUUID` uses randomness. Its suffix is a parameter of `Fixtures.FixtureLibrary.AddCustomFixture`.
- `calculateGlareRating` is outside the core.
- The `fixtureAdded` and `fixtureRemoved` events that the library emits are not modelled. The listeners are external code. The emitter itself is modelled in `Events`.
- The `on` and `off` wrappers of the calculator and the library only forward to the emitter and are not modelled separately.
- The `calculationGrid` field of the calculator is never read.
- `optimizeFixtureLayout`'s `maxUniformityRatio` is computed and never used.
- The `spacing` argument of `generateFixtureGrid` is unused. It is kept as a parameter.
- Layout.GenerateFixtureGrid requires that a positive count on an area of positive height also has a non-zero width. Otherwise the column count is 0, the row count is infinite and the source loops forever. With a negative height and zero width the row count is minus infinity, the source returns `[]`, and so does the model.
- Layout.OptimizeFixtureLayout requires every available fixture that fits the mounting height to have non-zero lumens. Zero lumens give an infinite or NaN count, which the model does not represent. Negative lumens are modelled: the count is non-positive and no fixture is placed (`Layout.NegativeLumensPlacesNothing`).
- Areas whose width and height are not both non-zero with the same sign lay out no fixtures in the model. Apart from the excluded case above, the source computes a NaN, zero or infinite column or row count there, and its loops then add nothing.
- Floating-point rounding is not modelled; numbers are exact reals. `toFixed` is exact decimal rounding, half away from zero, so binary representation effects are absent.
- Strings.Lower lower-cases ASCII letters only. Other characters are kept, so Unicode case mapping is not modelled.
- Fixtures are values. The source mutates the draft object it is given (its `id` and `category`) and stores the caller's object by reference; that aliasing is not modelled.
- Property lookups on a key that names an `Object.prototype` member, such as `"toString"` or `"constructor"`, are not modelled. The source finds an inherited function there instead of nothing:
  - for a category name, any key other than the three categories gives `[]` in the model;
  - Compliance.CheckCompliance reports `UnknownStandard` for such a standard id, where the source finds a truthy standard without `requirements` and throws a TypeError (js/lighting-calculator.js:292-300);
  - Events.EventEmitter.On, Off and Emit treat such an event name as having no listeners, where the source calls `push`, `filter` or `forEach` on the inherited function and throws a TypeError (js/utils.js:309-320).
- Fixtures.Stored takes `efficacy` as a number every draft has, and `beamAngle` and `mountingHeight` as well-formed records. The source never checks efficacy and accepts any truthy `beamAngle` or `mountingHeight`. For a custom fixture without efficacy, the efficacy comparators (js/fixture-library.js:459-462, js/lighting-calculator.js:395) return NaN, which leaves the sort order to the engine, and `optimizeFixtureLayout` reports `efficiency: undefined`. The model does not capture such drafts.
- Events.EventEmitter.Emit returns the listeners it invokes, in order. The callbacks' own effects, their arguments, and listeners added or removed while an event is emitted are not modelled.
- Colors.InterpolateColor interpolates the first three components, as the source does. Only the three-component colours of the ramp are used by the core.
- Utils.SnapToGrid requires a non-zero grid size. A zero grid size gives NaN in the source.
- The `console.error` diagnostics that `validateFixture` writes before rejecting a draft (js/fixture-library.js:400, 408, 415, 420) are console output and are not modelled. The verdict itself is.
- Compliance.CheckCompliance reports issues as data (`AverageBelow`, `UniformityBelow`, `UnknownStandard`) rather than as formatted message strings.
- Array.prototype.sort is modelled as a stable insertion sort. Engines use other stable algorithms, but any stable sort with the same comparator returns the same list.
