/**
 * Isolux contours: for each level, the sampled points at or above it,
 * coloured by the level's place between the first and the last level.
 */
module Isolux {
  import opened Wrappers
  import opened Seqs
  import Colors
  import Sampling

  /** A contour point: position and illuminance. */
  datatype ContourPoint = ContourPoint(x: real, y: real, value: real)

  datatype Contour = Contour(level: real, points: seq<ContourPoint>, color: Colors.ContourColor)

  /** The `contourLevels` default, taken only when the argument is absent. */
  const DefaultLevels: seq<real> := [1.0, 5.0, 10.0, 20.0, 50.0, 100.0, 200.0, 500.0]

  /** The message of the `TypeError` thrown when a colour stop is read from `undefined`. */
  const ColourStopError: string := "TypeError: colour stop is undefined"

  function AtLeast(level: real): Sampling.LitPoint -> bool {
    (p: Sampling.LitPoint) => p.illuminance >= level
  }

  /** The contour points of lit points, in their order. */
  function Project(points: seq<Sampling.LitPoint>): (r: seq<ContourPoint>)
    ensures |r| == |points|
    ensures forall k :: 0 <= k < |r| ==>
      r[k] == ContourPoint(points[k].point.x, points[k].point.y, points[k].illuminance)
  {
    seq(|points|, k requires 0 <= k < |points| =>
      ContourPoint(points[k].point.x, points[k].point.y, points[k].illuminance))
  }

  /** The points a contour at `level` holds: those at or above it, in field order. */
  function LevelPoints(points: seq<Sampling.LitPoint>, level: real): seq<ContourPoint> {
    Project(Filter(points, AtLeast(level)))
  }

  /** Some point reaches `level`. */
  function Reached(points: seq<Sampling.LitPoint>): real -> bool {
    (level: real) => LevelPoints(points, level) != []
  }

  /**
   * The contours of the first `n` levels, or the error the colour lookup
   * throws; colours are taken between the first and the last level.
   */
  function ContoursUpTo(points: seq<Sampling.LitPoint>, levels: seq<real>, n: nat): Result<seq<Contour>>
    requires n <= |levels|
  {
    if n == 0 then Ok([])
    else
      match ContoursUpTo(points, levels, n - 1)
      case Err(e) => Err(e)
      case Ok(previous) =>
        var level := levels[n - 1];
        var contourPoints := LevelPoints(points, level);
        if contourPoints == [] then Ok(previous)
        else
          var color := Colors.GetContourColor(level, levels[0], levels[|levels| - 1]);
          if color.TypeError? then Err(ColourStopError)
          else Ok(previous + [Contour(level, contourPoints, color)])
  }

  function LevelsOf(contourLevels: Option<seq<real>>): seq<real> {
    if contourLevels.Some? then contourLevels.value else DefaultLevels
  }

  lemma ProjectAppend(points: seq<Sampling.LitPoint>, p: Sampling.LitPoint)
    ensures Project(points + [p]) == Project(points) + [ContourPoint(p.point.x, p.point.y, p.illuminance)]
  {
  }

  /** Once the colour lookup has thrown, later levels are never reached. */
  lemma {:induction false} ErrorStops(points: seq<Sampling.LitPoint>, levels: seq<real>, n: nat, n': nat)
    requires n <= n' <= |levels|
    requires ContoursUpTo(points, levels, n).Err?
    ensures ContoursUpTo(points, levels, n') == ContoursUpTo(points, levels, n)
    decreases n' - n
  {
    if n < n' {
      ErrorStops(points, levels, n, n' - 1);
    }
  }

  /**
   * `generateIsoluxContours`: for each level in order, collects the points
   * at or above it and emits a contour when there are any.
   */
  method GenerateIsoluxContours(points: seq<Sampling.LitPoint>, contourLevels: Option<seq<real>>)
    returns (r: Result<seq<Contour>>)
    ensures r == ContoursUpTo(points, LevelsOf(contourLevels), |LevelsOf(contourLevels)|)
  {
    var levels := if contourLevels.Some? then contourLevels.value else DefaultLevels;
    var contours: seq<Contour> := [];
    for n := 0 to |levels|
      invariant ContoursUpTo(points, levels, n) == Ok(contours)
    {
      var level := levels[n];
      var contourPoints: seq<ContourPoint> := [];
      for k := 0 to |points|
        invariant contourPoints == Project(Filter(points[..k], AtLeast(level)))
      {
        assert points[..k + 1][..k] == points[..k];
        if points[k].illuminance >= level {
          ProjectAppend(Filter(points[..k], AtLeast(level)), points[k]);
          contourPoints := contourPoints + [ContourPoint(points[k].point.x, points[k].point.y, points[k].illuminance)];
        }
      }
      assert points[..|points|] == points;
      if |contourPoints| > 0 {
        var color := Colors.GetContourColor(level, levels[0], levels[|levels| - 1]);
        if color.TypeError? {
          ErrorStops(points, levels, n + 1, |levels|);
          return Err(ColourStopError);
        }
        contours := contours + [Contour(level, contourPoints, color)];
      }
    }
    r := Ok(contours);
  }

  function ContourLevels(contours: seq<Contour>): (r: seq<real>)
    ensures |r| == |contours| && forall k :: 0 <= k < |r| ==> r[k] == contours[k].level
  {
    seq(|contours|, k requires 0 <= k < |contours| => contours[k].level)
  }

  /**
   * A successful run emits, in the order of the levels, one contour per level
   * some point reaches.
   */
  lemma {:induction false} ContoursFollowLevels(points: seq<Sampling.LitPoint>, levels: seq<real>, n: nat)
    requires n <= |levels|
    requires ContoursUpTo(points, levels, n).Ok?
    ensures ContourLevels(ContoursUpTo(points, levels, n).value) == Filter(levels[..n], Reached(points))
  {
    if n > 0 {
      ContoursFollowLevels(points, levels, n - 1);
      var level := levels[n - 1];
      var previous := ContoursUpTo(points, levels, n - 1).value;
      assert levels[..n][..n - 1] == levels[..n - 1];
      assert levels[..n][n - 1] == level;
      if LevelPoints(points, level) != [] {
        var color := Colors.GetContourColor(level, levels[0], levels[|levels| - 1]);
        var c := Contour(level, LevelPoints(points, level), color);
        assert ContoursUpTo(points, levels, n).value == previous + [c];
        assert ContourLevels(previous + [c]) == ContourLevels(previous) + [level];
      } else {
        assert ContoursUpTo(points, levels, n).value == previous;
      }
    }
  }

  /** Each emitted contour holds exactly the points at or above its level, and some. */
  lemma {:induction false} ContoursHoldLevelPoints(points: seq<Sampling.LitPoint>, levels: seq<real>, n: nat)
    requires n <= |levels|
    requires ContoursUpTo(points, levels, n).Ok?
    ensures forall c :: c in ContoursUpTo(points, levels, n).value ==>
      c.points == LevelPoints(points, c.level) && c.points != []
  {
    if n > 0 {
      ContoursHoldLevelPoints(points, levels, n - 1);
    }
  }

  /** Projection keeps subsequences. */
  lemma {:induction false} ProjectSubsequence(sub: seq<Sampling.LitPoint>, s: seq<Sampling.LitPoint>)
    requires IsSubsequence(sub, s)
    ensures IsSubsequence(Project(sub), Project(s))
    decreases |s|
  {
    if sub != [] && s != [] {
      var init := s[..|s| - 1];
      assert Project(s)[..|s| - 1] == Project(init);
      assert Project(sub)[..|sub| - 1] == Project(sub[..|sub| - 1]);
      if sub[|sub| - 1] == s[|s| - 1] {
        ProjectSubsequence(sub[..|sub| - 1], init);
      } else {
        ProjectSubsequence(sub, init);
        if Project(sub)[|sub| - 1] == Project(s)[|s| - 1] {
          SubsequenceShorter(sub, init);
          ProjectSubsequence(sub[..|sub| - 1], init);
        }
      }
    }
  }

  /** Contours nest: the points of a higher level are a subsequence of a lower level's. */
  lemma ContoursNest(points: seq<Sampling.LitPoint>, lower: real, higher: real)
    requires lower <= higher
    ensures IsSubsequence(LevelPoints(points, higher), LevelPoints(points, lower))
  {
    FilterMonotone(points, AtLeast(lower), AtLeast(higher));
    ProjectSubsequence(Filter(points, AtLeast(higher)), Filter(points, AtLeast(lower)));
  }

  /** Ascending levels, the first below the last. */
  predicate Ascending(levels: seq<real>) {
    |levels| >= 2 && levels[0] < levels[|levels| - 1]
    && forall i, j :: 0 <= i < j < |levels| ==> levels[i] <= levels[j]
  }

  /** A reached level whose colour lookup succeeds adds its contour. */
  lemma ContourStep(points: seq<Sampling.LitPoint>, levels: seq<real>, n: nat)
    requires 0 < n <= |levels|
    requires ContoursUpTo(points, levels, n - 1).Ok?
    requires LevelPoints(points, levels[n - 1]) != []
    requires Colors.GetContourColor(levels[n - 1], levels[0], levels[|levels| - 1]).Rgb?
    ensures ContoursUpTo(points, levels, n) == Ok(ContoursUpTo(points, levels, n - 1).value
      + [Contour(levels[n - 1], LevelPoints(points, levels[n - 1]),
                 Colors.GetContourColor(levels[n - 1], levels[0], levels[|levels| - 1]))])
  {
  }

  /** When every point reaches every level, each level gets a contour of every point. */
  lemma {:induction false} EveryLevelReached(points: seq<Sampling.LitPoint>, levels: seq<real>, n: nat)
    requires n <= |levels| && Ascending(levels) && points != []
    requires forall k :: 0 <= k < |points| ==> points[k].illuminance >= levels[|levels| - 1]
    ensures ContoursUpTo(points, levels, n).Ok?
    ensures UniformContours(ContoursUpTo(points, levels, n).value, levels, Project(points), n)
  {
    if n > 0 {
      EveryLevelReached(points, levels, n - 1);
      var previous := ContoursUpTo(points, levels, n - 1).value;
      var c := ReachedLevelStep(points, levels, n);
      UniformAppend(previous, c, levels, Project(points), n);
    }
  }

  /** All of the first `n` contours are of the levels in order, hold `contourPoints` and have a colour. */
  predicate UniformContours(contours: seq<Contour>, levels: seq<real>, contourPoints: seq<ContourPoint>, n: nat)
    requires n <= |levels|
  {
    |contours| == n
    && forall i :: 0 <= i < n ==>
         contours[i].level == levels[i] && contours[i].points == contourPoints && contours[i].color.Rgb?
  }

  lemma UniformAppend(previous: seq<Contour>, c: Contour, levels: seq<real>, contourPoints: seq<ContourPoint>, n: nat)
    requires 0 < n <= |levels| && UniformContours(previous, levels, contourPoints, n - 1)
    requires c.level == levels[n - 1] && c.points == contourPoints && c.color.Rgb?
    ensures UniformContours(previous + [c], levels, contourPoints, n)
  {
    var contours := previous + [c];
    forall i | 0 <= i < n
      ensures contours[i].level == levels[i] && contours[i].points == contourPoints && contours[i].color.Rgb?
    {
      if i < n - 1 {
        assert contours[i] == previous[i];
      }
    }
  }

  /** The step of `EveryLevelReached`: a level every point reaches adds a contour of every point. */
  lemma ReachedLevelStep(points: seq<Sampling.LitPoint>, levels: seq<real>, n: nat) returns (c: Contour)
    requires 0 < n <= |levels| && Ascending(levels) && points != []
    requires forall k :: 0 <= k < |points| ==> points[k].illuminance >= levels[|levels| - 1]
    requires ContoursUpTo(points, levels, n - 1).Ok?
    ensures c.level == levels[n - 1] && c.points == Project(points) && c.color.Rgb?
    ensures ContoursUpTo(points, levels, n) == Ok(ContoursUpTo(points, levels, n - 1).value + [c])
  {
    var level := levels[n - 1];
    AscendingBounds(levels, n - 1);
    forall k | 0 <= k < |points|
      ensures AtLeast(level)(points[k])
    {
    }
    FilterAll(points, AtLeast(level));
    assert LevelPoints(points, level) == Project(points) != [];
    Colors.ContourInRange(level, levels[0], levels[|levels| - 1]);
    ContourStep(points, levels, n);
    c := Contour(level, Project(points), Colors.GetContourColor(level, levels[0], levels[|levels| - 1]));
  }

  /** Every level of an ascending list lies between the first and the last. */
  lemma AscendingBounds(levels: seq<real>, k: nat)
    requires Ascending(levels) && k < |levels|
    ensures levels[0] <= levels[k] <= levels[|levels| - 1]
  {
    if 0 < k {
      assert levels[0] <= levels[k];
    }
    if k < |levels| - 1 {
      assert levels[k] <= levels[|levels| - 1];
    }
  }

  /** A field lit to 500 lux everywhere gets all eight default contours, each of every point. */
  lemma BrightField(points: seq<Sampling.LitPoint>)
    requires points != []
    requires forall k :: 0 <= k < |points| ==> points[k].illuminance == 500.0
    ensures var r := ContoursUpTo(points, DefaultLevels, 8);
            r.Ok? && |r.value| == 8
            && forall i :: 0 <= i < 8 ==> r.value[i].level == DefaultLevels[i] && r.value[i].points == Project(points)
  {
    EveryLevelReached(points, DefaultLevels, 8);
  }

  /**
   * With a single level the colour range is empty: a level some point
   * reaches reads a colour stop of `undefined` and the call throws.
   */
  lemma SingleLevelThrows(points: seq<Sampling.LitPoint>, level: real)
    requires exists k :: 0 <= k < |points| && points[k].illuminance >= level
    ensures ContoursUpTo(points, [level], 1) == Err(ColourStopError)
  {
    var k :| 0 <= k < |points| && points[k].illuminance >= level;
    FilterCount(points, AtLeast(level), points[k]);
    assert points[k] in multiset(points);
  }
}
