/**
 * Colour helpers used to paint isolux contours: linear interpolation of RGB
 * triples, the `#rrggbb` encoding and its parser, and the seven-stop ramp.
 */
module Colors {
  import opened RealMath
  import opened Wrappers
  import opened Strings
  import opened Hex

  // ---------------------------------------------------------------------
  // Interpolation
  // ---------------------------------------------------------------------

  /** One interpolated component: `Math.round(a + factor * (b - a))`. */
  function Lerp(a: int, b: int, factor: real): (r: int)
    ensures 0.0 <= factor <= 1.0 && a <= b ==> a <= r <= b
    ensures 0.0 <= factor <= 1.0 && b <= a ==> b <= r <= a
  {
    var x := a as real + factor * (b - a) as real;
    if 0.0 <= factor <= 1.0 then
      LerpBetween(a, b, factor);
      Round(x)
    else
      Round(x)
  }

  lemma LerpBetween(a: int, b: int, factor: real)
    requires 0.0 <= factor <= 1.0
    ensures a <= b ==> a as real <= a as real + factor * (b - a) as real <= b as real
    ensures b <= a ==> b as real <= a as real + factor * (b - a) as real <= a as real
  {
    var d := (b - a) as real;
    if a <= b {
      MulLeftMonotone(0.0, factor, d);
      MulLeftMonotone(factor, 1.0, d);
    } else {
      MulLeftMonotone(0.0, factor, -d);
      MulLeftMonotone(factor, 1.0, -d);
    }
  }

  /**
   * The colour `interpolateColor` returns: a copy of `color1` whose first
   * three components are moved towards `color2` by `factor`.
   */
  function Interpolated(color1: seq<int>, color2: seq<int>, factor: real): (r: seq<int>)
    requires |color1| >= 3 && |color2| >= 3
    ensures |r| == |color1|
  {
    seq(|color1|, i requires 0 <= i < |color1| =>
      if i < 3 then Lerp(color1[i], color2[i], factor) else color1[i])
  }

  /**
   * `interpolateColor`: copies `color1` and overwrites its first three
   * entries; neither argument is changed.
   */
  method InterpolateColor(color1: array<int>, color2: array<int>, factor: real) returns (result: array<int>)
    requires color1.Length >= 3 && color2.Length >= 3
    ensures fresh(result)
    ensures result[..] == Interpolated(color1[..], color2[..], factor)
  {
    result := new int[color1.Length](i requires 0 <= i < color1.Length reads color1 => color1[i]);
    for i := 0 to 3
      invariant result.Length == color1.Length
      invariant forall k :: 0 <= k < i ==> result[k] == Lerp(color1[k], color2[k], factor)
      invariant forall k :: i <= k < result.Length ==> result[k] == color1[k]
    {
      result[i] := Round(result[i] as real + factor * (color2[i] - result[i]) as real);
    }
  }

  /** Factor 0 gives back the first colour, factor 1 the second one's RGB part. */
  lemma InterpolateEndpoints(color1: seq<int>, color2: seq<int>)
    requires |color1| >= 3 && |color2| >= 3
    ensures Interpolated(color1, color2, 0.0) == color1
    ensures Interpolated(color1, color2, 1.0) == color2[..3] + color1[3..]
  {
    forall i | 0 <= i < 3
      ensures Lerp(color1[i], color2[i], 0.0) == color1[i]
      ensures Lerp(color1[i], color2[i], 1.0) == color2[i]
    {
      RoundIntegral(color1[i]);
      RoundIntegral(color2[i]);
    }
  }

  /** For a factor in [0, 1] every RGB component lies between the two inputs. */
  lemma InterpolateBetween(color1: seq<int>, color2: seq<int>, factor: real, lo: int, hi: int)
    requires |color1| >= 3 && |color2| >= 3 && 0.0 <= factor <= 1.0
    requires forall i :: 0 <= i < 3 ==> lo <= color1[i] <= hi && lo <= color2[i] <= hi
    ensures forall i :: 0 <= i < 3 ==> lo <= Interpolated(color1, color2, factor)[i] <= hi
  {
  }

  /** `rgbToHex`: `"#" + ((1 << 24) + (r << 16) + (g << 8) + b).toString(16).slice(1)`. */
  function RgbToHex(r: int, g: int, b: int): (s: string)
    ensures |s| >= 1 && s[0] == '#'
  {
    "#" + JsHex(0x100_0000 + ShiftLeft(r, 16) + ShiftLeft(g, 8) + b)[1..]
  }

  /**
   * `hexToRgb`: an optional `#` followed by exactly six hex digits of either
   * case, read as three two-digit components; anything else gives `null`.
   */
  function HexToRgb(s: string): (r: Option<seq<int>>)
    ensures r.Some? <==> (|s| == 6 && AllHex(s)) || (|s| == 7 && s[0] == '#' && AllHex(s[1..]))
    ensures r.Some? ==> |r.value| == 3 && forall i :: 0 <= i < 3 ==> 0 <= r.value[i] <= 255
  {
    var digits := HexDigits(s);
    if |digits| == 6 && AllHex(digits) then
      Some([ParseHex(digits[0..2]), ParseHex(digits[2..4]), ParseHex(digits[4..6])])
    else
      None
  }

  /** The six characters the pattern's digit groups range over. */
  function HexDigits(s: string): string {
    if |s| == 7 && s[0] == '#' then s[1..] else s
  }

  // ---------------------------------------------------------------------
  // Round trips
  // ---------------------------------------------------------------------

  /** For bytes the shifts do not wrap: `<<` is a plain multiplication. */
  lemma ShiftBytes(r: int, g: int)
    requires 0 <= r <= 255 && 0 <= g <= 255
    ensures ShiftLeft(r, 16) == r * 0x1_0000
    ensures ShiftLeft(g, 8) == g * 0x100
  {
    PowValues();
  }

  /** The packed value `(1 << 24) + m` prints as `1` followed by six digits of `m`. */
  lemma PackedHex(m: nat)
    requires m < 0x100_0000
    ensures JsHex(0x100_0000 + m)[1..] == FixedHex(m, 6)
  {
    PowValues();
    HexStringSplit(1, m, 6);
    assert HexString(1) == "1";
  }

  /** Two bytes packed as `g * 256 + b` print as two digits each. */
  lemma TwoBytes(g: nat, b: nat)
    requires b < 0x100
    ensures FixedHex(g * 0x100 + b, 4) == FixedHex(g, 2) + FixedHex(b, 2)
  {
    PowValues();
    FixedSplit(g, b, 2, 2, g * 0x100 + b, 4);
  }

  /** A byte above a 16-bit value prints as two digits followed by four. */
  lemma ByteAbove(r: nat, low: nat)
    requires low < 0x1_0000
    ensures FixedHex(r * 0x1_0000 + low, 6) == FixedHex(r, 2) + FixedHex(low, 4)
  {
    PowValues();
    FixedSplit(r, low, 2, 4, r * 0x1_0000 + low, 6);
  }

  /** For bytes, `rgbToHex` writes two lower-case digits per component. */
  lemma RgbToHexDigits(r: int, g: int, b: int)
    requires 0 <= r <= 255 && 0 <= g <= 255 && 0 <= b <= 255
    ensures RgbToHex(r, g, b) == "#" + FixedHex(r, 2) + FixedHex(g, 2) + FixedHex(b, 2)
  {
    var low := g * 0x100 + b;
    var m := r * 0x1_0000 + low;
    ShiftBytes(r, g);
    PackedHex(m);
    ByteAbove(r, low);
    TwoBytes(g, b);
  }

  /** `#` and three two-digit groups parse group by group. */
  lemma ParseGroups(x: string, y: string, z: string)
    requires |x| == 2 && |y| == 2 && |z| == 2
    requires AllLowerHex(x) && AllLowerHex(y) && AllLowerHex(z)
    ensures AllHex(x) && AllHex(y) && AllHex(z)
    ensures HexToRgb("#" + x + y + z) == Some([ParseHex(x), ParseHex(y), ParseHex(z)])
  {
    var d := x + y + z;
    assert HexDigits("#" + x + y + z) == d;
    assert d[0..2] == x && d[2..4] == y && d[4..6] == z;
    LowerHexGroups(x, y, z);
  }

  /** Three groups of lower-case digits form a string of hex digits. */
  lemma LowerHexGroups(x: string, y: string, z: string)
    requires AllLowerHex(x) && AllLowerHex(y) && AllLowerHex(z)
    ensures AllHex(x + y + z)
  {
    var d := x + y + z;
    forall i | 0 <= i < |d|
      ensures IsHexChar(d[i])
    {
      if i < |x| {
        assert d[i] == x[i];
      } else if i < |x| + |y| {
        assert d[i] == y[i - |x|];
      } else {
        assert d[i] == z[i - |x| - |y|];
      }
    }
  }

  /** For bytes, `hexToRgb(rgbToHex(r, g, b))` gives `[r, g, b]` back. */
  lemma RgbRoundTrip(r: int, g: int, b: int)
    requires 0 <= r <= 255 && 0 <= g <= 255 && 0 <= b <= 255
    ensures HexToRgb(RgbToHex(r, g, b)) == Some([r, g, b])
  {
    RgbToHexDigits(r, g, b);
    ParseGroups(FixedHex(r, 2), FixedHex(g, 2), FixedHex(b, 2));
    PowValues();
    ParseFixed(r, 2);
    ParseFixed(g, 2);
    ParseFixed(b, 2);
  }

  /** For bytes, `rgbToHex` gives `#` and six lower-case hex digits. */
  lemma RgbToHexShape(r: int, g: int, b: int)
    requires 0 <= r <= 255 && 0 <= g <= 255 && 0 <= b <= 255
    ensures var s := RgbToHex(r, g, b);
      |s| == 7 && s[0] == '#' && AllLowerHex(s[1..])
  {
    RgbToHexDigits(r, g, b);
  }

  /** Lower-casing six characters, two at a time. */
  lemma LowerGroups(d: string)
    requires |d| == 6
    ensures Lower(d) == Lower(d[0..2]) + Lower(d[2..4]) + Lower(d[4..6])
  {
  }

  /** Re-encoding a parsed colour gives its digits in lower case after a `#`. */
  lemma HexRoundTrip(s: string)
    requires HexToRgb(s).Some?
    ensures var c := HexToRgb(s).value;
      RgbToHex(c[0], c[1], c[2]) == "#" + Lower(HexDigits(s))
  {
    var d := HexDigits(s);
    assert |d| == 6 && AllHex(d);
    assert HexToRgb(s).value == [ParseHex(d[0..2]), ParseHex(d[2..4]), ParseHex(d[4..6])];
    DigitsRoundTrip(d);
  }

  /** Six hex digits, parsed in pairs and re-encoded, come back in lower case. */
  lemma DigitsRoundTrip(d: string)
    requires |d| == 6 && AllHex(d)
    ensures AllHex(d[0..2]) && AllHex(d[2..4]) && AllHex(d[4..6])
    ensures RgbToHex(ParseHex(d[0..2]), ParseHex(d[2..4]), ParseHex(d[4..6])) == "#" + Lower(d)
  {
    assert forall i :: 0 <= i < 2 ==> d[0..2][i] == d[i] && d[2..4][i] == d[i + 2] && d[4..6][i] == d[i + 4];
    PowValues();
    RgbToHexDigits(ParseHex(d[0..2]), ParseHex(d[2..4]), ParseHex(d[4..6]));
    FixedParse(d[0..2]);
    FixedParse(d[2..4]);
    FixedParse(d[4..6]);
    LowerGroups(d);
  }

  // ---------------------------------------------------------------------
  // Contour colour ramp
  // ---------------------------------------------------------------------

  /** The seven stops of the ramp, from dark blue to red. */
  const Stops: seq<seq<int>> := [
    [0, 0, 128], [0, 100, 255], [0, 255, 255], [0, 255, 0],
    [255, 255, 0], [255, 100, 0], [255, 0, 0]
  ]

  /** RGB triple with every component a byte. */
  predicate IsRgb(c: seq<int>) {
    |c| == 3 && forall i :: 0 <= i < 3 ==> 0 <= c[i] <= 255
  }

  lemma StopsAreRgb()
    ensures |Stops| == 7
    ensures forall k :: 0 <= k < 7 ==> IsRgb(Stops[k])
  {
  }

  /**
   * What `getContourColor` produces: a colour, `undefined` (a stop index off
   * the ramp), or a thrown `TypeError` (an interpolation endpoint off the
   * ramp, or the NaN index of a zero-width range).
   */
  datatype ContourColor = Rgb(components: seq<int>) | Missing | TypeError

  /** Position of `value` on the ramp, from 0 at `minValue` to 6 at `maxValue`. */
  function RampIndex(value: real, minValue: real, maxValue: real): real
    requires maxValue != minValue
  {
    (value - minValue) / (maxValue - minValue) * 6.0
  }

  /**
   * `getContourColor`. When `maxValue == minValue` the index is NaN (value at
   * the minimum: the interpolation reads a stop of `undefined` and throws) or
   * infinite (floor equals ceil and the stop lookup gives `undefined`).
   */
  function GetContourColor(value: real, minValue: real, maxValue: real): (c: ContourColor)
    ensures c.Rgb? ==> IsRgb(c.components)
  {
    StopsAreRgb();
    if maxValue == minValue then
      if value == minValue then TypeError else Missing
    else
      var index := RampIndex(value, minValue, maxValue);
      var lower := Floor(index);
      var upper := Ceil(index);
      if lower == upper then
        if 0 <= lower < 7 then Rgb(Stops[lower]) else Missing
      else if 0 <= lower < 7 && 0 <= upper < 7 then
        InterpolateBetween(Stops[lower], Stops[upper], index - lower as real, 0, 255);
        Rgb(Interpolated(Stops[lower], Stops[upper], index - lower as real))
      else
        TypeError
  }

  /** An integral ramp index on the ramp returns that stop unchanged. */
  lemma ContourAtStop(value: real, minValue: real, maxValue: real, k: int)
    requires maxValue != minValue && 0 <= k < 7
    requires RampIndex(value, minValue, maxValue) == k as real
    ensures GetContourColor(value, minValue, maxValue) == Rgb(Stops[k])
  {
  }

  /** The minimum maps to dark blue and the maximum to red. */
  lemma ContourEnds(minValue: real, maxValue: real)
    requires maxValue != minValue
    ensures GetContourColor(minValue, minValue, maxValue) == Rgb([0, 0, 128])
    ensures GetContourColor(maxValue, minValue, maxValue) == Rgb([255, 0, 0])
  {
    MulDivCancel(1.0, maxValue - minValue);
    ContourAtStop(minValue, minValue, maxValue, 0);
    ContourAtStop(maxValue, minValue, maxValue, 6);
  }

  /** Every value of a non-empty range gets a colour. */
  lemma ContourInRange(value: real, minValue: real, maxValue: real)
    requires minValue < maxValue && minValue <= value <= maxValue
    ensures GetContourColor(value, minValue, maxValue).Rgb?
  {
    var d := maxValue - minValue;
    DivMonotone(0.0, value - minValue, d);
    DivMonotone(value - minValue, d, d);
    MulDivCancel(1.0, d);
    var index := RampIndex(value, minValue, maxValue);
    assert 0.0 <= index <= 6.0;
  }

  /** A value past the maximum of a non-empty range gets no colour. */
  lemma ContourAboveRange(value: real, minValue: real, maxValue: real)
    requires minValue < maxValue < value
    ensures !GetContourColor(value, minValue, maxValue).Rgb?
  {
    var d := maxValue - minValue;
    DivStrictMonotone(d, value - minValue, d);
    MulDivCancel(1.0, d);
  }

  /** A zero-width range never gives a colour. */
  lemma ContourFlatRange(value: real, bound: real)
    ensures !GetContourColor(value, bound, bound).Rgb?
  {
  }
}
