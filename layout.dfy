/**
 * Layout optimisation: choose the most efficient fixture that can be
 * mounted at the required height, estimate how many are needed, and place
 * them on an even grid over the area.
 */
module Layout {
  import opened RealMath
  import opened Wrappers
  import opened Seqs
  import Fixtures
  import opened Lighting

  /** The area to light; `mountingHeight` is absent when not given. */
  datatype LayoutArea = LayoutArea(x: real, y: real, width: real, height: real, mountingHeight: Option<real>)

  /** The design requirements; each one is absent when not given. */
  datatype LayoutRequirements = LayoutRequirements(
    averageIlluminance: Option<real>,
    uniformityRatio: Option<real>,
    mountingHeight: Option<real>)

  /** `value || fallback` on a number: an absent or zero value gives the fallback. */
  function OrElse(value: Option<real>, fallback: real): real {
    if value.Some? && value.value != 0.0 then value.value else fallback
  }

  /** Target average illuminance (lux) when none is required. */
  const DefaultTarget: real := 200.0

  /** Mounting height (m) when none is given. */
  const DefaultHeight: real := 20.0

  const NoSuitableFixture: string := "No suitable fixtures found for the requirements"

  // ---------------------------------------------------------------------
  // Fixture grid
  // ---------------------------------------------------------------------

  /**
   * Width and height are non-zero with the same sign, so `count * width /
   * height` is positive. Otherwise the column or row count is NaN, zero or
   * infinite and no fixture is placed.
   */
  predicate Spread(area: LayoutArea) {
    area.height != 0.0 && area.width / area.height > 0.0
  }

  /** `Math.ceil(Math.sqrt(count * width / height))`. */
  function Columns(m: Math, area: LayoutArea, count: int): (cols: int)
    requires count > 0 && Spread(area)
    ensures cols >= 1
  {
    PositiveRatio(count, area);
    Ceil(m.sqrt(count as real * area.width / area.height))
  }

  lemma PositiveRatio(count: int, area: LayoutArea)
    requires count > 0 && Spread(area)
    ensures count as real * area.width / area.height > 0.0
  {
    MulDivAssoc(count as real, area.width, area.height);
    MulStrictMonotone(0.0, area.width / area.height, count as real);
  }

  /** `Math.ceil(count / cols)`: enough rows to hold `count` cells. */
  function Rows(m: Math, area: LayoutArea, count: int): (rows: int)
    requires count > 0 && Spread(area)
    ensures rows >= 1 && rows * Columns(m, area, count) >= count
  {
    var cols := Columns(m, area, count);
    var rows := Ceil(count as real / cols as real);
    MulLeftMonotone(count as real / cols as real, rows as real, cols as real);
    MulDivCancel(count as real, cols as real);
    rows
  }

  /** Cell `k` of a grid of `cols` columns and `rows` rows, filled row by row: row `k / cols`, column `k % cols`. */
  function Cell(area: LayoutArea, cols: int, rows: int, k: nat): Point3
    requires cols >= 1 && rows >= 0
  {
    var spacingX := area.width / (cols + 1) as real;
    var spacingY := area.height / (rows + 1) as real;
    Point3(area.x + spacingX * (k % cols + 1) as real,
           area.y + spacingY * (k / cols + 1) as real,
           OrElse(area.mountingHeight, DefaultHeight))
  }

  /** The first `n` cells, in order. */
  function Cells(area: LayoutArea, cols: int, rows: int, n: nat): (r: seq<Point3>)
    requires cols >= 1 && rows >= 0
    ensures |r| == n
  {
    seq(n, k requires 0 <= k < n => Cell(area, cols, rows, k))
  }

  lemma CellsAppend(area: LayoutArea, cols: int, rows: int, n: nat)
    requires cols >= 1 && rows >= 0
    ensures Cells(area, cols, rows, n + 1) == Cells(area, cols, rows, n) + [Cell(area, cols, rows, n)]
  {
  }

  /** The positions `generateFixtureGrid` lays out: the first `count` cells of the grid. */
  function FixtureGrid(m: Math, area: LayoutArea, count: int): seq<Point3> {
    if count > 0 && Spread(area) then Cells(area, Columns(m, area, count), Rows(m, area, count), count)
    else []
  }

  /** Cell `col` of row `row` is the cell numbered `row * cols + col`. */
  lemma CellNumber(row: nat, col: nat, cols: nat)
    requires col < cols
    ensures (row * cols + col) / cols == row && (row * cols + col) % cols == col
  {
    var n := row * cols + col;
    var q := n / cols;
    if q > row {
      MulNatMonotone(row + 1, q, cols);
      DistributeRow(row, cols);
      assert false;
    } else if q < row {
      MulNatMonotone(q + 1, row, cols);
      DistributeRow(q, cols);
      assert false;
    }
  }

  /** The cell in row `row` and column `col`, given the column and row spacings. */
  lemma CellAt(area: LayoutArea, cols: int, rows: int, row: nat, col: nat, k: nat, spacingX: real, spacingY: real)
    requires 0 <= col < cols && rows >= 0 && k == row * cols + col
    requires spacingX == area.width / (cols + 1) as real && spacingY == area.height / (rows + 1) as real
    ensures Cell(area, cols, rows, k)
         == Point3(area.x + spacingX * (col + 1) as real, area.y + spacingY * (row + 1) as real,
                   OrElse(area.mountingHeight, DefaultHeight))
  {
    CellNumber(row, col, cols);
  }

  lemma DistributeRow(row: int, cols: int)
    ensures (row + 1) * cols == row * cols + cols
  {
  }

  /**
   * `generateFixtureGrid`: `cols` columns and `rows` rows evenly spaced
   * inside the area, filled row by row until `count` fixtures are placed.
   * A zero width with a positive height and a positive count gives no
   * columns and infinitely many rows, so the source loops forever; that
   * case is excluded. With a negative height the row count is minus
   * infinity instead, and nothing is placed.
   */
  method GenerateFixtureGrid(m: Math, area: LayoutArea, count: int, spacing: real)
    returns (positions: seq<Point3>)
    requires count > 0 && area.height > 0.0 ==> area.width != 0.0
    ensures positions == FixtureGrid(m, area, count)
  {
    positions := [];
    if !(count > 0 && Spread(area)) {
      // The column or row count is NaN, zero, negative or infinite: no row is laid out.
      return;
    }
    var cols := Columns(m, area, count);
    var rows := Rows(m, area, count);
    var spacingX := area.width / (cols + 1) as real;
    var spacingY := area.height / (rows + 1) as real;
    var z := OrElse(area.mountingHeight, DefaultHeight);
    var row := 0;
    ghost var first := 0;  // the number of the row's first cell
    while row < rows
      invariant 0 <= row <= rows && first == row * cols
      invariant |positions| == if first <= count then first else count
      invariant positions == Cells(area, cols, rows, |positions|)
    {
      var col := 0;
      while col < cols
        invariant 0 <= col <= cols
        invariant |positions| == if first + col <= count then first + col else count
        invariant positions == Cells(area, cols, rows, |positions|)
      {
        if |positions| >= count {
          break;
        }
        var position := Point3(area.x + spacingX * (col + 1) as real, area.y + spacingY * (row + 1) as real, z);
        CellAt(area, cols, rows, row, col, |positions|, spacingX, spacingY);
        CellsAppend(area, cols, rows, |positions|);
        positions := positions + [position];
        col := col + 1;
      }
      DistributeRow(row, cols);
      row := row + 1;
      first := first + cols;
    }
    assert |positions| == count;
  }

  /** `k` below `rows * cols` lies in one of the `rows` rows. */
  lemma RowOfCell(k: nat, cols: int, rows: int)
    requires cols >= 1 && k < rows * cols
    ensures k / cols < rows
  {
    if k / cols >= rows {
      MulNatMonotone(rows, k / cols, cols);
    }
  }

  lemma MulNatMonotone(a: int, b: int, c: int)
    requires a <= b && c >= 0
    ensures a * c <= b * c
  {
  }

  /** Cell numbers in order: rows first, then columns. */
  lemma CellOrder(i: nat, j: nat, cols: int)
    requires cols >= 1 && i < j
    ensures i / cols <= j / cols
    ensures i / cols == j / cols ==> i % cols < j % cols
  {
    if i / cols > j / cols {
      MulNatMonotone(j / cols + 1, i / cols, cols);
    }
  }

  /** The `i`-th of `n` evenly spaced interior points lies strictly inside `(0, w)`. */
  lemma Interior(w: real, n: int, i: int)
    requires w > 0.0 && 1 <= i <= n
    ensures 0.0 < w / (n + 1) as real * i as real < w
  {
    var s := w / (n + 1) as real;
    MulLeftMonotone(i as real, n as real, s);
    MulStrictMonotone(n as real, (n + 1) as real, s);
    MulDivCancel(w, (n + 1) as real);
  }

  /** Later cells are lower in the grid, or further along the same row. */
  lemma Steps(w: real, n: int, a: int, b: int)
    requires w > 0.0 && n >= 0 && a < b
    ensures w / (n + 1) as real * a as real < w / (n + 1) as real * b as real
  {
    MulStrictMonotone(a as real, b as real, w / (n + 1) as real);
  }

  /** Each position lies strictly inside an area of positive width and height. */
  lemma PositionInside(area: LayoutArea, cols: int, rows: int, k: nat)
    requires area.width > 0.0 && area.height > 0.0 && cols >= 1 && rows >= 1 && k < rows * cols
    ensures var p := Cell(area, cols, rows, k);
            area.x < p.x < area.x + area.width && area.y < p.y < area.y + area.height
  {
    RowOfCell(k, cols, rows);
    Interior(area.width, cols, k % cols + 1);
    Interior(area.height, rows, k / cols + 1);
  }

  /** A later position is on a later row, or further right on the same row. */
  lemma PositionOrder(area: LayoutArea, cols: int, rows: int, i: nat, j: nat)
    requires area.width > 0.0 && area.height > 0.0 && cols >= 1 && rows >= 0 && i < j
    ensures var p := Cell(area, cols, rows, i);
            var q := Cell(area, cols, rows, j);
            p.y < q.y || (p.y == q.y && p.x < q.x)
  {
    CellOrder(i, j, cols);
    if i / cols < j / cols {
      Steps(area.height, rows, i / cols + 1, j / cols + 1);
    } else {
      Steps(area.width, cols, i % cols + 1, j % cols + 1);
    }
  }

  /**
   * Over an area of positive width and height, the grid holds exactly
   * `count` fixtures (none for a non-positive count), all at the area's
   * mounting height or 20 m, each strictly inside the area, in row-major
   * order: each position is on a later row than the previous one, or
   * further right on the same row. So no two fixtures share a position.
   */
  lemma GridShape(m: Math, area: LayoutArea, count: int)
    requires area.width > 0.0 && area.height > 0.0
    ensures var grid := FixtureGrid(m, area, count);
            && |grid| == (if count > 0 then count else 0)
            && (forall k :: 0 <= k < |grid| ==>
                  && grid[k].z == OrElse(area.mountingHeight, DefaultHeight)
                  && area.x < grid[k].x < area.x + area.width
                  && area.y < grid[k].y < area.y + area.height)
            && (forall i, j :: 0 <= i < j < |grid| ==>
                  grid[i].y < grid[j].y || (grid[i].y == grid[j].y && grid[i].x < grid[j].x))
  {
    var grid := FixtureGrid(m, area, count);
    if count > 0 {
      assert Spread(area);
      var cols := Columns(m, area, count);
      var rows := Rows(m, area, count);
      forall k | 0 <= k < |grid|
        ensures area.x < grid[k].x < area.x + area.width
        ensures area.y < grid[k].y < area.y + area.height
      {
        PositionInside(area, cols, rows, k);
      }
      forall i, j | 0 <= i < j < |grid|
        ensures grid[i].y < grid[j].y || (grid[i].y == grid[j].y && grid[i].x < grid[j].x)
      {
        PositionOrder(area, cols, rows, i, j);
      }
    }
  }

  /**
   * No fixture is placed for a non-positive count or an area of zero height.
   * For a zero width `FixtureGrid` is empty too. The source agrees unless
   * the count and the height are both positive: then it has no columns,
   * infinitely many rows, and never returns (`GenerateFixtureGrid`
   * excludes that case).
   */
  lemma EmptyGrid(m: Math, area: LayoutArea, count: int)
    requires count <= 0 || area.width == 0.0 || area.height == 0.0
    ensures FixtureGrid(m, area, count) == []
  {
  }

  // ---------------------------------------------------------------------
  // Choosing the fixture
  // ---------------------------------------------------------------------

  /** The fixture supports mounting at `height`. */
  predicate FitsHeight(f: Fixtures.Fixture, height: real) {
    f.specifications.mountingHeight.min <= height <= f.specifications.mountingHeight.max
  }

  function Fits(height: real): Fixtures.Fixture -> bool {
    (f: Fixtures.Fixture) => FitsHeight(f, height)
  }

  /** Where `Insert` puts `f`: after the entries at least as efficient, before the less efficient rest. */
  lemma {:induction false} InsertAt(sorted: seq<Fixtures.Fixture>, f: Fixtures.Fixture, j: nat)
    requires j <= |sorted|
    requires forall k :: 0 <= k < j ==> sorted[k].specifications.efficacy >= f.specifications.efficacy
    requires forall k :: j <= k < |sorted| ==> sorted[k].specifications.efficacy < f.specifications.efficacy
    ensures Fixtures.Insert(sorted, f) == sorted[..j] + [f] + sorted[j..]
    decreases j
  {
    if j > 0 {
      var rest := sorted[1..];
      InsertAt(rest, f, j - 1);
      assert sorted[..j] == [sorted[0]] + rest[..j - 1];
      assert sorted[j..] == rest[j - 1..];
    }
  }

  /**
   * `Array.prototype.sort` with the comparator `b.efficacy - a.efficacy`,
   * in place: a stable insertion sort that moves each entry left past the
   * less efficient ones.
   */
  method SortByEfficacyInPlace(a: array<Fixtures.Fixture>)
    modifies a
    ensures a[..] == Fixtures.SortByEfficacy(old(a[..]))
  {
    ghost var input := a[..];
    var i := 0;
    while i < a.Length
      invariant 0 <= i <= a.Length
      invariant a[..i] == Fixtures.SortByEfficacy(input[..i])
      invariant forall k :: i <= k < a.Length ==> a[k] == input[k]
    {
      InsertInPlace(a, i);
      assert input[..i + 1][..i] == input[..i];
      i := i + 1;
    }
    assert input[..a.Length] == input;
  }

  /** Moves `a[i]` left into the sorted prefix `a[..i]`, past the entries less efficient than it. */
  method InsertInPlace(a: array<Fixtures.Fixture>, i: nat)
    requires i < a.Length && Fixtures.SortedByEfficacy(a[..i])
    modifies a
    ensures a[..i + 1] == Fixtures.Insert(old(a[..i]), old(a[i]))
    ensures forall k :: i < k < a.Length ==> a[k] == old(a[k])
  {
    ghost var before := a[..];
    var x := a[i];
    var j := ShiftLessEfficient(a, i, x);
    a[j] := x;
    SortedPrefixAtLeast(before, i, j, x);
    InsertIntoPrefix(before, i, j, x);
    ShiftedElements(before, a[..], i, j, x);
  }

  /** `Insert` into the prefix `before[..i]` puts `x` at `j`, between the entries at least as efficient and the rest. */
  lemma InsertIntoPrefix(before: seq<Fixtures.Fixture>, i: nat, j: nat, x: Fixtures.Fixture)
    requires j <= i <= |before|
    requires forall k :: 0 <= k < j ==> before[k].specifications.efficacy >= x.specifications.efficacy
    requires forall k :: j <= k < i ==> before[k].specifications.efficacy < x.specifications.efficacy
    ensures Fixtures.Insert(before[..i], x) == before[..j] + [x] + before[j..i]
  {
    var sorted := before[..i];
    InsertAt(sorted, x, j);
    assert sorted[..j] == before[..j] && sorted[j..] == before[j..i];
  }

  /** In a sorted prefix, everything before an entry at least as efficient as `x` is too. */
  lemma SortedPrefixAtLeast(before: seq<Fixtures.Fixture>, i: nat, j: nat, x: Fixtures.Fixture)
    requires j <= i <= |before| && Fixtures.SortedByEfficacy(before[..i])
    requires 0 < j ==> before[j - 1].specifications.efficacy >= x.specifications.efficacy
    ensures forall k :: 0 <= k < j ==> before[k].specifications.efficacy >= x.specifications.efficacy
  {
    forall k | 0 <= k < j
      ensures before[k].specifications.efficacy >= x.specifications.efficacy
    {
      assert before[..i][k] == before[k] && before[..i][j - 1] == before[j - 1];
      if k < j - 1 {
        assert before[..i][k].specifications.efficacy >= before[..i][j - 1].specifications.efficacy;
      }
    }
  }

  /** Element by element: the shifted array is the prefix, `x`, then the moved entries. */
  lemma ShiftedElements(before: seq<Fixtures.Fixture>, after: seq<Fixtures.Fixture>, i: nat, j: nat, x: Fixtures.Fixture)
    requires j <= i < |before| == |after|
    requires forall k :: 0 <= k < j ==> after[k] == before[k]
    requires after[j] == x
    requires forall k :: j < k <= i ==> after[k] == before[k - 1]
    ensures after[..i + 1] == before[..j] + [x] + before[j..i]
  {
    var expected := before[..j] + [x] + before[j..i];
    forall k | 0 <= k <= i
      ensures after[k] == expected[k]
    {
      if k < j {
        assert expected[k] == before[k];
      } else if k > j {
        assert expected[k] == before[k - 1];
      }
    }
  }

  /**
   * The shifting loop of the insertion: moves right by one every entry of
   * `a[..i]`, from the end, that is less efficient than `x`, and returns
   * the gap `j` it leaves.
   */
  method ShiftLessEfficient(a: array<Fixtures.Fixture>, i: nat, x: Fixtures.Fixture) returns (j: nat)
    requires i < a.Length
    modifies a
    ensures j <= i
    ensures forall k :: 0 <= k < j ==> a[k] == old(a[k])
    ensures forall k :: j < k <= i ==> a[k] == old(a[k - 1])
    ensures forall k :: i < k < a.Length ==> a[k] == old(a[k])
    ensures forall k :: j <= k < i ==> old(a[k]).specifications.efficacy < x.specifications.efficacy
    ensures 0 < j ==> old(a[j - 1]).specifications.efficacy >= x.specifications.efficacy
  {
    ghost var original := a[..];
    var e := x.specifications.efficacy;
    j := i;
    while j > 0 && a[j - 1].specifications.efficacy < e
      invariant j <= i && a.Length == |original|
      invariant forall k :: 0 <= k < a.Length && (k < j || i < k) ==> a[k] == original[k]
      invariant forall k :: j < k <= i ==> a[k] == original[k - 1]
      invariant forall k :: j <= k < i ==> original[k].specifications.efficacy < e
    {
      a[j] := a[j - 1];
      j := j - 1;
    }
  }

  /** The index of the first entry of the highest efficacy. */
  function FirstBest(s: seq<Fixtures.Fixture>): (i: nat)
    requires s != []
    ensures i < |s|
    ensures forall j :: 0 <= j < |s| ==> s[j].specifications.efficacy <= s[i].specifications.efficacy
    ensures forall j :: 0 <= j < i ==> s[j].specifications.efficacy < s[i].specifications.efficacy
    decreases |s|
  {
    if |s| == 1 then 0
    else
      var best := FirstBest(s[..|s| - 1]);
      if s[|s| - 1].specifications.efficacy > s[best].specifications.efficacy then |s| - 1 else best
  }

  /** The stable sort puts first the earliest of the most efficient entries. */
  lemma {:induction false} SortedHead(s: seq<Fixtures.Fixture>)
    requires s != []
    ensures |Fixtures.SortByEfficacy(s)| == |s|
    ensures Fixtures.SortByEfficacy(s)[0] == s[FirstBest(s)]
    decreases |s|
  {
    assert |multiset(Fixtures.SortByEfficacy(s))| == |multiset(s)|;
    if |s| > 1 {
      var init := s[..|s| - 1];
      SortedHead(init);
      var sortedInit := Fixtures.SortByEfficacy(init);
      assert Fixtures.SortByEfficacy(s) == Fixtures.Insert(sortedInit, s[|s| - 1]);
    }
  }

  // ---------------------------------------------------------------------
  // Layout optimisation
  // ---------------------------------------------------------------------

  /** What `optimizeFixtureLayout` returns. */
  datatype LayoutPlan = LayoutPlan(
    fixture: Fixtures.Fixture,
    count: int,
    layout: seq<Point3>,
    spacing: real,
    estimatedIlluminance: real,
    efficiency: real)

  /** Lumens the fixtures must emit for `target` lux over the area after light loss. */
  function RequiredLumens(area: LayoutArea, target: real): real {
    target * (area.width * area.height) / Fixtures.LightLossFactor
  }

  /** `Math.ceil(requiredLumens / lumens)`: enough fixtures of `f` for the target. */
  function FixtureCount(area: LayoutArea, target: real, f: Fixtures.Fixture): int
    requires f.specifications.lumens != 0.0
  {
    Ceil(RequiredLumens(area, target) / f.specifications.lumens)
  }

  /** The lumens `count` fixtures of `f` emit. */
  function TotalLumens(count: int, f: Fixtures.Fixture): real {
    count as real * f.specifications.lumens
  }

  /**
   * The count is the fewest fixtures whose lumens cover the requirement:
   * they leave less than one fixture's lumens to spare.
   */
  lemma FixtureCountCovers(area: LayoutArea, target: real, f: Fixtures.Fixture)
    requires f.specifications.lumens > 0.0
    ensures var count := FixtureCount(area, target, f);
            RequiredLumens(area, target) <= TotalLumens(count, f)
                                         < RequiredLumens(area, target) + f.specifications.lumens
  {
    var lumens := f.specifications.lumens;
    var required := RequiredLumens(area, target);
    var count := FixtureCount(area, target, f);
    var q := required / lumens;
    assert q <= count as real < q + 1.0;
    MulLeftMonotone(q, count as real, lumens);
    assert TotalLumens(count, f) == count as real * lumens;
    MulStrictMonotone((count - 1) as real, q, lumens);
    MulDivCancel(required, lumens);
    assert q * lumens == required;
    assert (count - 1) as real * lumens < q * lumens;
    assert (count - 1) as real * lumens == count as real * lumens - lumens;
    assert TotalLumens(count, f) < required + lumens;
  }

  /** The candidate `optimizeFixtureLayout` picks: the head of the sorted list. */
  function Chosen(suitable: seq<Fixtures.Fixture>): (f: Fixtures.Fixture)
    requires suitable != []
    ensures f == suitable[FirstBest(suitable)]
  {
    SortedHead(suitable);
    Fixtures.SortByEfficacy(suitable)[0]
  }

  /** The plan for fixture `f`. */
  function PlanFor(m: Math, area: LayoutArea, target: real, height: real, f: Fixtures.Fixture): LayoutPlan
    requires f.specifications.lumens != 0.0
  {
    var count := FixtureCount(area, target, f);
    var spacing := Fixtures.CalculateFixtureSpacing(m, f, target, height).spacing;
    LayoutPlan(f, count, FixtureGrid(m, area, count), spacing, target, f.specifications.efficacy)
  }

  /**
   * Every candidate that fits `height` has non-zero lumens, so the division
   * by the selected fixture's lumens gives a finite count.
   */
  predicate FittingLumensNonZero(available: seq<Fixtures.Fixture>, height: real) {
    forall f :: f in available && FitsHeight(f, height) ==> f.specifications.lumens != 0.0
  }

  /** Every candidate that fits `height` has positive lumens. */
  predicate FittingLumensPositive(available: seq<Fixtures.Fixture>, height: real) {
    forall f :: f in available && FitsHeight(f, height) ==> f.specifications.lumens > 0.0
  }

  /**
   * The result of `optimizeFixtureLayout`: the first of the most efficient
   * fixtures that can be mounted at the required height, enough of them for
   * the required lumens, laid out on the grid.
   */
  function OptimizeLayout(m: Math, area: LayoutArea, requirements: LayoutRequirements,
                          available: seq<Fixtures.Fixture>): Result<LayoutPlan>
    requires FittingLumensNonZero(available, OrElse(requirements.mountingHeight, DefaultHeight))
  {
    var target := OrElse(requirements.averageIlluminance, DefaultTarget);
    var height := OrElse(requirements.mountingHeight, DefaultHeight);
    var suitable := Filter(available, Fits(height));
    if suitable == [] then Err(NoSuitableFixture)
    else
      assert Chosen(suitable) in suitable;
      Ok(PlanFor(m, area, target, height, Chosen(suitable)))
  }

  /** An area without extent needs no fixture. */
  lemma NothingRequired(area: LayoutArea, target: real, lumens: real)
    requires lumens != 0.0 && area.width == 0.0
    ensures Ceil(RequiredLumens(area, target) / lumens) == 0
  {
  }

  /**
   * `optimizeFixtureLayout`: filters the candidates by mounting height,
   * throws when none is left, sorts a copy of them by efficacy in place and
   * takes the first.
   */
  method OptimizeFixtureLayout(m: Math, area: LayoutArea, requirements: LayoutRequirements,
                               availableFixtures: seq<Fixtures.Fixture>)
    returns (r: Result<LayoutPlan>)
    requires FittingLumensNonZero(availableFixtures, OrElse(requirements.mountingHeight, DefaultHeight))
    ensures r == OptimizeLayout(m, area, requirements, availableFixtures)
  {
    var targetIlluminance := OrElse(requirements.averageIlluminance, DefaultTarget);
    var areaSize := area.width * area.height;
    var requiredLumens := targetIlluminance * areaSize / Fixtures.LightLossFactor;
    assert requiredLumens == RequiredLumens(area, targetIlluminance);
    var height := OrElse(requirements.mountingHeight, DefaultHeight);
    var suitable := Filter(availableFixtures, Fits(height));
    if |suitable| == 0 {
      return Err(NoSuitableFixture);
    }
    var candidates := new Fixtures.Fixture[|suitable|](k requires 0 <= k < |suitable| => suitable[k]);
    assert candidates[..] == suitable;
    SortByEfficacyInPlace(candidates);
    var selected := candidates[0];
    assert selected == Chosen(suitable);
    assert selected in suitable;
    var fixtureCount := Ceil(requiredLumens / selected.specifications.lumens);
    assert fixtureCount == FixtureCount(area, targetIlluminance, selected);
    if area.width == 0.0 {
      NothingRequired(area, targetIlluminance, selected.specifications.lumens);
    }
    var spacingInfo := Fixtures.CalculateFixtureSpacing(m, selected, targetIlluminance, height);
    var layout := GenerateFixtureGrid(m, area, fixtureCount, spacingInfo.spacing);
    r := Ok(LayoutPlan(selected, fixtureCount, layout, spacingInfo.spacing, targetIlluminance,
                       selected.specifications.efficacy));
    assert r == Ok(PlanFor(m, area, targetIlluminance, height, selected));
  }

  /** The optimisation fails, with its message, exactly when no candidate fits the mounting height. */
  lemma FailsWithoutSuitableFixture(m: Math, area: LayoutArea, requirements: LayoutRequirements,
                                    available: seq<Fixtures.Fixture>)
    requires FittingLumensNonZero(available, OrElse(requirements.mountingHeight, DefaultHeight))
    ensures var height := OrElse(requirements.mountingHeight, DefaultHeight);
            var r := OptimizeLayout(m, area, requirements, available);
            && (r.Err? <==> forall f :: f in available ==> !FitsHeight(f, height))
            && (r.Err? ==> r.message == NoSuitableFixture)
  {
    var height := OrElse(requirements.mountingHeight, DefaultHeight);
    var suitable := Filter(available, Fits(height));
    if suitable != [] {
      assert suitable[0] in suitable;
    }
  }

  /**
   * The chosen fixture is a candidate that fits the mounting height (the
   * given one, or 20 m), no fitting candidate is more efficient, and it is
   * the earliest of the most efficient fitting candidates; the plan reports
   * its efficacy and the target (the given one, or 200 lux).
   */
  lemma SelectsMostEfficient(m: Math, area: LayoutArea, requirements: LayoutRequirements,
                             available: seq<Fixtures.Fixture>)
    requires FittingLumensNonZero(available, OrElse(requirements.mountingHeight, DefaultHeight))
    ensures var height := OrElse(requirements.mountingHeight, DefaultHeight);
            var suitable := Filter(available, Fits(height));
            var r := OptimizeLayout(m, area, requirements, available);
            r.Ok? ==>
              && r.value.fixture in available && FitsHeight(r.value.fixture, height)
              && (forall f :: f in available && FitsHeight(f, height) ==>
                    f.specifications.efficacy <= r.value.fixture.specifications.efficacy)
              && r.value.fixture == suitable[FirstBest(suitable)]
              && r.value.efficiency == r.value.fixture.specifications.efficacy
              && r.value.estimatedIlluminance == OrElse(requirements.averageIlluminance, DefaultTarget)
  {
    var height := OrElse(requirements.mountingHeight, DefaultHeight);
    var suitable := Filter(available, Fits(height));
    if suitable != [] {
      SortedHead(suitable);
      var best := suitable[FirstBest(suitable)];
      forall f | f in available && FitsHeight(f, height)
        ensures f.specifications.efficacy <= best.specifications.efficacy
      {
        assert f in suitable;
      }
    }
  }

  /**
   * The count is the fewest fixtures whose lumens cover the requirement:
   * `count` of them suffice, with less than one fixture's lumens to spare.
   */
  lemma CountCoversRequirement(m: Math, area: LayoutArea, requirements: LayoutRequirements,
                               available: seq<Fixtures.Fixture>, plan: LayoutPlan)
    requires FittingLumensPositive(available, OrElse(requirements.mountingHeight, DefaultHeight))
    requires OptimizeLayout(m, area, requirements, available) == Ok(plan)
    ensures var required := RequiredLumens(area, OrElse(requirements.averageIlluminance, DefaultTarget));
            required <= TotalLumens(plan.count, plan.fixture) < required + plan.fixture.specifications.lumens
  {
    var target := OrElse(requirements.averageIlluminance, DefaultTarget);
    var suitable := Filter(available, Fits(OrElse(requirements.mountingHeight, DefaultHeight)));
    assert plan.fixture == Chosen(suitable) && Chosen(suitable) in suitable;
    assert plan.count == FixtureCount(area, target, plan.fixture);
    FixtureCountCovers(area, target, plan.fixture);
  }

  /**
   * Over an area of positive width and height with a positive target, the
   * plan places at least one fixture, and exactly `count`, each strictly
   * inside the area at the area's mounting height (or 20 m).
   */
  lemma PlanFillsArea(m: Math, area: LayoutArea, requirements: LayoutRequirements,
                      available: seq<Fixtures.Fixture>)
    requires FittingLumensPositive(available, OrElse(requirements.mountingHeight, DefaultHeight))
    requires area.width > 0.0 && area.height > 0.0
    requires OrElse(requirements.averageIlluminance, DefaultTarget) > 0.0
    ensures var r := OptimizeLayout(m, area, requirements, available);
            r.Ok? ==>
              && r.value.count >= 1 && |r.value.layout| == r.value.count
              && forall k :: 0 <= k < |r.value.layout| ==>
                   && area.x < r.value.layout[k].x < area.x + area.width
                   && area.y < r.value.layout[k].y < area.y + area.height
                   && r.value.layout[k].z == OrElse(area.mountingHeight, DefaultHeight)
  {
    var height := OrElse(requirements.mountingHeight, DefaultHeight);
    var suitable := Filter(available, Fits(height));
    if suitable != [] {
      var target := OrElse(requirements.averageIlluminance, DefaultTarget);
      var f := Chosen(suitable);
      assert f in suitable;
      var count := FixtureCount(area, target, f);
      FixtureCountCovers(area, target, f);
      MulStrictMonotone(0.0, area.width, area.height);
      MulStrictMonotone(0.0, area.width * area.height, target);
      assert RequiredLumens(area, target) > 0.0;
      if count <= 0 {
        MulLeftMonotone(count as real, 0.0, f.specifications.lumens);
        assert false;
      }
      GridShape(m, area, count);
    }
  }

  /**
   * A selected fixture with negative lumens gives a count of at most 0 over
   * an area with a positive requirement, and then no fixture is placed.
   */
  lemma NegativeLumensPlacesNothing(m: Math, area: LayoutArea, requirements: LayoutRequirements,
                                    available: seq<Fixtures.Fixture>)
    requires FittingLumensNonZero(available, OrElse(requirements.mountingHeight, DefaultHeight))
    requires area.width > 0.0 && area.height > 0.0
    requires OrElse(requirements.averageIlluminance, DefaultTarget) > 0.0
    ensures var r := OptimizeLayout(m, area, requirements, available);
            r.Ok? && r.value.fixture.specifications.lumens < 0.0 ==>
              r.value.count <= 0 && r.value.layout == []
  {
    var height := OrElse(requirements.mountingHeight, DefaultHeight);
    var suitable := Filter(available, Fits(height));
    if suitable != [] {
      var target := OrElse(requirements.averageIlluminance, DefaultTarget);
      var f := Chosen(suitable);
      assert f in suitable;
      var lumens := f.specifications.lumens;
      if lumens < 0.0 {
        var required := RequiredLumens(area, target);
        MulStrictMonotone(0.0, area.width, area.height);
        MulStrictMonotone(0.0, area.width * area.height, target);
        assert required > 0.0;
        NegativeQuotient(required, lumens);
        assert FixtureCount(area, target, f) <= 0;
      }
    }
  }

  /** A positive amount over a negative one is negative. */
  lemma NegativeQuotient(a: real, b: real)
    requires a > 0.0 && b < 0.0
    ensures a / b < 0.0
  {
    DivNegateBoth(a, b);
    assert a / b == (-a) / (-b);
    DivStrictMonotone(-a, 0.0, -b);
  }
}
