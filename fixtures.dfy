/**
 * The fixture catalog: built-in sports and industrial luminaires, a list of
 * user-defined ("custom") fixtures that can grow and shrink, and the queries
 * over the whole catalog (by category, by id, text search, recommendations).
 */
module Fixtures {
  import opened RealMath
  import opened Wrappers
  import opened Strings
  import opened Seqs
  import Utils

  // ---------------------------------------------------------------------
  // Data model
  // ---------------------------------------------------------------------

  /** Full beam widths in degrees. */
  datatype BeamAngle = BeamAngle(horizontal: real, vertical: real)

  /** Supported mounting heights in metres. */
  datatype HeightRange = HeightRange(min: real, max: real, recommended: real)

  datatype Specifications = Specifications(
    power: real,        // W
    lumens: real,       // lm
    efficacy: real,     // lm/W
    beamAngle: BeamAngle,
    mountingHeight: HeightRange)

  datatype Photometry = Photometry(peakIntensity: real, cutoffAngle: real, fieldAngle: real)

  /** A catalog entry. An absent model or manufacturer is the empty string. */
  datatype Fixture = Fixture(
    id: string,
    name: string,
    category: string,
    specifications: Specifications,
    photometry: Option<Photometry>,
    applications: seq<string>,
    manufacturer: string,
    model: string)

  // ---------------------------------------------------------------------
  // Built-in catalog
  // ---------------------------------------------------------------------

  function Entry(id: string, name: string, category: string,
                 power: real, lumens: real, efficacy: real,
                 horizontal: real, vertical: real,
                 minHeight: real, maxHeight: real, recommended: real,
                 peakIntensity: real, cutoffAngle: real, fieldAngle: real,
                 applications: seq<string>, manufacturer: string, model: string): Fixture
  {
    Fixture(id, name, category,
      Specifications(power, lumens, efficacy, BeamAngle(horizontal, vertical),
        HeightRange(minHeight, maxHeight, recommended)),
      Some(Photometry(peakIntensity, cutoffAngle, fieldAngle)),
      applications, manufacturer, model)
  }

  /** `getSportsFixtures`. */
  function SportsFixtures(): seq<Fixture> {
    [ Entry("sp_flood_2000w", "Sports Floodlight 2000W", "sports",
        2000.0, 280000.0, 140.0, 60.0, 40.0, 15.0, 50.0, 25.0, 185000.0, 80.0, 60.0,
        ["football", "soccer", "athletics", "general sports"], "CalqLux Sports", "CSF-2000-LED"),
      Entry("sp_flood_1000w", "Sports Floodlight 1000W", "sports",
        1000.0, 140000.0, 140.0, 50.0, 35.0, 12.0, 35.0, 20.0, 92500.0, 75.0, 50.0,
        ["tennis", "basketball", "volleyball", "small fields"], "CalqLux Sports", "CSF-1000-LED"),
      Entry("sp_stadium_4000w", "Stadium Light 4000W", "sports",
        4000.0, 600000.0, 150.0, 80.0, 50.0, 25.0, 80.0, 45.0, 400000.0, 85.0, 80.0,
        ["football stadium", "large athletics", "cricket", "baseball"], "CalqLux Stadium", "CSL-4000-PRO"),
      Entry("sp_area_500w", "Area Light 500W", "sports",
        500.0, 70000.0, 140.0, 120.0, 90.0, 8.0, 20.0, 12.0, 25000.0, 90.0, 120.0,
        ["training areas", "walkways", "parking", "general illumination"], "CalqLux General", "CGL-500-LED") ]
  }

  /** `getIndustrialFixtures`. */
  function IndustrialFixtures(): seq<Fixture> {
    [ Entry("in_flood_3000w", "Industrial Floodlight 3000W", "industrial",
        3000.0, 420000.0, 140.0, 70.0, 45.0, 20.0, 60.0, 35.0, 280000.0, 80.0, 70.0,
        ["construction sites", "industrial yards", "cargo areas", "mining"], "CalqLux Industrial", "CIF-3000-HD"),
      Entry("in_security_200w", "Security Light 200W", "industrial",
        200.0, 28000.0, 140.0, 110.0, 80.0, 5.0, 15.0, 8.0, 12000.0, 85.0, 110.0,
        ["perimeter security", "entrance lighting", "surveillance areas"], "CalqLux Security", "CSL-200-SEC"),
      Entry("in_highbay_400w", "High Bay 400W", "industrial",
        400.0, 56000.0, 140.0, 90.0, 90.0, 10.0, 25.0, 15.0, 28000.0, 90.0, 90.0,
        ["warehouses", "industrial halls", "manufacturing"], "CalqLux Industrial", "CIH-400-LED"),
      Entry("in_tower_1500w", "Tower Light 1500W", "industrial",
        1500.0, 210000.0, 140.0, 360.0, 60.0, 15.0, 50.0, 30.0, 140000.0, 80.0, 360.0,
        ["construction towers", "emergency lighting", "temporary installations"], "CalqLux Tower", "CTL-1500-360") ]
  }

  /** The data invariants every built-in entry satisfies. */
  predicate WellFormedBuiltin(f: Fixture) {
    var s := f.specifications;
    s.efficacy * s.power == s.lumens
    && 0.0 < s.power && 0.0 < s.lumens
    && s.mountingHeight.min <= s.mountingHeight.recommended <= s.mountingHeight.max
    && 0.0 < s.beamAngle.horizontal <= 360.0
    && 0.0 < s.beamAngle.vertical <= 360.0
    && f.photometry.Some?
  }

  /** Ids are pairwise distinct. */
  predicate DistinctIds(fixtures: seq<Fixture>) {
    forall i, j :: 0 <= i < j < |fixtures| ==> fixtures[i].id != fixtures[j].id
  }

  /**
   * Every built-in entry has efficacy x power = lumens, a recommended height
   * inside its range and beam angles in (0, 360], lists under its own
   * category, and no two entries share an id.
   */
  lemma CatalogInvariants()
    ensures forall f :: f in SportsFixtures() ==> WellFormedBuiltin(f) && f.category == "sports"
    ensures forall f :: f in IndustrialFixtures() ==> WellFormedBuiltin(f) && f.category == "industrial"
    ensures DistinctIds(SportsFixtures() + IndustrialFixtures())
  {
    SportsWellFormed();
    IndustrialWellFormed();
    CatalogIdsDistinct();
  }

  lemma SportsWellFormed()
    ensures forall f :: f in SportsFixtures() ==> WellFormedBuiltin(f) && f.category == "sports"
  {
    var s := SportsFixtures();
    assert WellFormedBuiltin(s[0]) && WellFormedBuiltin(s[1]);
    assert WellFormedBuiltin(s[2]) && WellFormedBuiltin(s[3]);
  }

  lemma IndustrialWellFormed()
    ensures forall f :: f in IndustrialFixtures() ==> WellFormedBuiltin(f) && f.category == "industrial"
  {
    var s := IndustrialFixtures();
    assert WellFormedBuiltin(s[0]) && WellFormedBuiltin(s[1]);
    assert WellFormedBuiltin(s[2]) && WellFormedBuiltin(s[3]);
  }

  lemma CatalogIdsDistinct()
    ensures DistinctIds(SportsFixtures() + IndustrialFixtures())
  {
    var all := SportsFixtures() + IndustrialFixtures();
    var ids := seq(|all|, i requires 0 <= i < |all| => all[i].id);
    assert ids == ["sp_flood_2000w", "sp_flood_1000w", "sp_stadium_4000w", "sp_area_500w",
      "in_flood_3000w", "in_security_200w", "in_highbay_400w", "in_tower_1500w"];
    assert forall i, j :: 0 <= i < j < |ids| ==> ids[i] != ids[j];
  }

  // ---------------------------------------------------------------------
  // Validation of user input
  // ---------------------------------------------------------------------

  /**
   * A specification property as read from user input: `None` is a missing,
   * `null`, `false` or empty-string value; anything else is a `JsValue`.
   */
  type Property = Option<Utils.JsValue>

  /** JavaScript truthiness of a property (0 and NaN are falsy). */
  predicate Truthy(p: Property) {
    match p
    case None => false
    case Some(Num(n)) => !(n.NaN? || (n.Finite? && n.value == 0.0))
    case Some(NotNumber) => true
  }

  datatype SpecificationsDraft = SpecificationsDraft(
    power: Property,
    lumens: Property,
    efficacy: real,
    beamAngle: Option<BeamAngle>,
    mountingHeight: Option<HeightRange>)

  /**
   * A fixture object as handed to `addCustomFixture`; an empty `id` or `name`
   * is a missing one.
   */
  datatype FixtureDraft = FixtureDraft(
    id: string,
    name: string,
    specifications: Option<SpecificationsDraft>,
    photometry: Option<Photometry>,
    applications: seq<string>,
    manufacturer: string,
    model: string)

  /** A finite number above zero. */
  predicate PositiveNumber(p: Property) {
    p.Some? && Utils.IsNumber(p.value) && p.value.n.value > 0.0
  }

  /** The conditions `validateFixture` accepts, stated all at once. */
  predicate IsValid(d: FixtureDraft) {
    d.name != "" && d.specifications.Some?
    && var s := d.specifications.value;
    PositiveNumber(s.power) && PositiveNumber(s.lumens)
    && s.beamAngle.Some? && s.mountingHeight.Some?
  }

  const Required: seq<string> := ["name", "specifications"]
  const SpecRequired: seq<string> := ["power", "lumens", "beamAngle", "mountingHeight"]

  /** `!!fixture[prop]` for the top-level keys `validateFixture` checks. */
  predicate HasProperty(d: FixtureDraft, prop: string) {
    if prop == "name" then d.name != ""
    else if prop == "specifications" then d.specifications.Some?
    else false
  }

  /** `!!fixture.specifications[prop]` for the specification keys it checks. */
  predicate HasSpecification(s: SpecificationsDraft, prop: string) {
    if prop == "power" then Truthy(s.power)
    else if prop == "lumens" then Truthy(s.lumens)
    else if prop == "beamAngle" then s.beamAngle.Some?
    else if prop == "mountingHeight" then s.mountingHeight.Some?
    else false
  }

  /**
   * `validateFixture`: the required keys in order, then the two numeric
   * checks; the first failing check rejects.
   */
  method ValidateFixture(d: FixtureDraft) returns (ok: bool)
    ensures ok <==> IsValid(d)
  {
    for i := 0 to |Required|
      invariant forall k :: 0 <= k < i ==> HasProperty(d, Required[k])
    {
      if !HasProperty(d, Required[i]) {
        return false;
      }
    }
    assert HasProperty(d, Required[0]) && HasProperty(d, Required[1]);
    var s := d.specifications.value;
    for i := 0 to |SpecRequired|
      invariant forall k :: 0 <= k < i ==> HasSpecification(s, SpecRequired[k])
    {
      if !HasSpecification(s, SpecRequired[i]) {
        return false;
      }
    }
    assert HasSpecification(s, SpecRequired[2]) && HasSpecification(s, SpecRequired[3]);
    if !(s.power.Some? && Utils.IsNumber(s.power.value)) || s.power.value.n.value <= 0.0 {
      return false;
    }
    if !(s.lumens.Some? && Utils.IsNumber(s.lumens.value)) || s.lumens.value.n.value <= 0.0 {
      return false;
    }
    return true;
  }

  /** A string, however truthy, is never a valid power: it is not a number. */
  lemma StringPowerRejected(d: FixtureDraft)
    requires d.specifications.Some? && d.specifications.value.power == Some(Utils.NotNumber)
    ensures !IsValid(d)
  {
  }

  /** The custom entry `addCustomFixture` stores for a valid draft. */
  function Stored(d: FixtureDraft, id: string): (f: Fixture)
    requires IsValid(d)
    ensures f.id == id && f.category == "custom" && f.name == d.name
    ensures f.specifications.power > 0.0 && f.specifications.lumens > 0.0
  {
    var s := d.specifications.value;
    Fixture(id, d.name, "custom",
      Specifications(s.power.value.n.value, s.lumens.value.n.value, s.efficacy,
        s.beamAngle.value, s.mountingHeight.value),
      d.photometry, d.applications, d.manufacturer, d.model)
  }

  /** The id a custom fixture is stored under: its own, or a fresh one. */
  function AssignedId(d: FixtureDraft, freshId: string): (id: string)
    ensures d.id != "" ==> id == d.id
    ensures d.id == "" ==> |id| >= 7 && id[..7] == "custom_"
  {
    if d.id != "" then d.id else "custom_" + freshId
  }

  // ---------------------------------------------------------------------
  // Lookups
  // ---------------------------------------------------------------------

  /** `findIndex(f => f.id === id)`. */
  function FindById(fixtures: seq<Fixture>, id: string): (r: Option<nat>)
    ensures r.Some? ==> (r.value < |fixtures| && fixtures[r.value].id == id
      && forall j :: 0 <= j < r.value ==> fixtures[j].id != id)
    ensures r.None? ==> forall j :: 0 <= j < |fixtures| ==> fixtures[j].id != id
  {
    if |fixtures| == 0 then None
    else if fixtures[0].id == id then Some(0)
    else match FindById(fixtures[1..], id)
      case None => None
      case Some(k) => Some(k + 1)
  }

  /** A well-formed custom entry. */
  predicate IsCustom(f: Fixture) {
    f.category == "custom" && f.specifications.power > 0.0 && f.specifications.lumens > 0.0
  }

  /** The catalog object: three lists keyed by category. */
  class FixtureLibrary {
    var sports: seq<Fixture>
    var industrial: seq<Fixture>
    var custom: seq<Fixture>
    var currentCategory: string

    /** The built-in lists are the constant catalog; every custom entry was validated. */
    ghost predicate Valid()
      reads this
    {
      sports == SportsFixtures() && industrial == IndustrialFixtures()
      && forall f :: f in custom ==> IsCustom(f)
    }

    constructor()
      ensures Valid()
      ensures custom == [] && currentCategory == "sports"
    {
      sports := SportsFixtures();
      industrial := IndustrialFixtures();
      custom := [];
      currentCategory := "sports";
    }

    /** `getFixturesByCategory`: the list under that key, or `[]`. */
    function GetFixturesByCategory(category: string): (r: seq<Fixture>)
      reads this
    {
      if category == "sports" then sports
      else if category == "industrial" then industrial
      else if category == "custom" then custom
      else []
    }

    /** The whole catalog in key order: sports, industrial, custom. */
    function AllFixtures(): (r: seq<Fixture>)
      reads this
      ensures |r| == |sports| + |industrial| + |custom|
    {
      sports + industrial + custom
    }

    /** `getAllFixtures`: pushes each category's entries in turn. */
    method GetAllFixtures() returns (all: seq<Fixture>)
      ensures all == AllFixtures()
      ensures forall c :: c in ["sports", "industrial", "custom"] ==>
        forall f :: f in GetFixturesByCategory(c) ==> f in all
    {
      var lists := [sports, industrial, custom];
      all := [];
      for i := 0 to |lists|
        invariant i == 0 ==> all == []
        invariant i == 1 ==> all == sports
        invariant i == 2 ==> all == sports + industrial
        invariant i == 3 ==> all == sports + industrial + custom
      {
        all := all + lists[i];
      }
    }

    /** `getFixtureById`: the first entry of the whole catalog with that id. */
    function GetFixtureById(id: string): (r: Option<Fixture>)
      reads this
      ensures r.Some? ==> r.value in AllFixtures() && r.value.id == id
      ensures r.None? <==> forall f :: f in AllFixtures() ==> f.id != id
    {
      match FindById(AllFixtures(), id)
      case None => None
      case Some(i) => Some(AllFixtures()[i])
    }

    /**
     * `addCustomFixture`: an invalid draft throws and changes nothing; a
     * valid one is appended as a custom entry and its id returned.
     */
    method AddCustomFixture(d: FixtureDraft, freshId: string) returns (r: Result<string>)
      requires Valid()
      modifies this
      ensures Valid()
      ensures sports == old(sports) && industrial == old(industrial)
      ensures currentCategory == old(currentCategory)
      ensures !IsValid(d) ==> r == Err("Invalid fixture data") && custom == old(custom)
      ensures IsValid(d) ==> (r == Ok(AssignedId(d, freshId))
        && custom == old(custom) + [Stored(d, AssignedId(d, freshId))])
    {
      var ok := ValidateFixture(d);
      if !ok {
        return Err("Invalid fixture data");
      }
      var id := if d.id == "" then "custom_" + freshId else d.id;
      custom := custom + [Stored(d, id)];
      return Ok(id);
    }

    /**
     * `removeCustomFixture`: splices out the first custom entry with that id
     * and reports whether there was one.
     */
    method RemoveCustomFixture(id: string) returns (removed: bool)
      requires Valid()
      modifies this
      ensures Valid()
      ensures sports == old(sports) && industrial == old(industrial)
      ensures currentCategory == old(currentCategory)
      ensures removed <==> FindById(old(custom), id).Some?
      ensures custom == Removed(old(custom), id)
    {
      var index := FindById(custom, id);
      if index.None? {
        return false;
      }
      var i := index.value;
      custom := custom[..i] + custom[i + 1..];
      return true;
    }

    /** `searchFixtures(query, category)`; an empty category means all. */
    function SearchFixtures(query: string, category: string): (r: seq<Fixture>)
      reads this
    {
      var fixtures := if category != "" then GetFixturesByCategory(category) else AllFixtures();
      if query == "" then fixtures else Filter(fixtures, Matcher(Lower(query)))
    }

    /** `getFixtureRecommendations`: suitable entries, most efficient first. */
    function GetFixtureRecommendations(application: string, area: real, mountingHeight: real): (r: seq<Fixture>)
      reads this
    {
      SortByEfficacy(Filter(AllFixtures(), Suits(application, area, mountingHeight)))
    }
  }

  /** The custom list after removing the first entry with `id`, if any. */
  function Removed(custom: seq<Fixture>, id: string): (r: seq<Fixture>)
    ensures |r| == if FindById(custom, id).Some? then |custom| - 1 else |custom|
  {
    match FindById(custom, id)
    case None => custom
    case Some(i) => custom[..i] + custom[i + 1..]
  }

  /** Removal keeps every other entry in order and deletes no other entry. */
  lemma RemovedKeepsOthers(custom: seq<Fixture>, id: string)
    ensures IsSubsequence(Removed(custom, id), custom)
    ensures forall f :: f in custom && f.id != id ==> f in Removed(custom, id)
    ensures FindById(custom, id).Some? ==>
      multiset(Removed(custom, id)) + multiset{custom[FindById(custom, id).value]} == multiset(custom)
  {
    match FindById(custom, id)
    case None =>
      SubsequenceRefl(custom);
    case Some(i) =>
      SpliceIsSubsequence(custom, i);
      assert custom == custom[..i] + [custom[i]] + custom[i + 1..];
  }

  /** Deleting one element leaves a subsequence. */
  lemma {:induction false} SpliceIsSubsequence<T>(s: seq<T>, i: nat)
    requires i < |s|
    ensures IsSubsequence(s[..i] + s[i + 1..], s)
    decreases |s|
  {
    var r := s[..i] + s[i + 1..];
    if i == |s| - 1 {
      assert r == s[..|s| - 1];
      if r != [] {
        SubsequenceRefl(r);
        SubsequenceDropLast(r, s[..|s| - 1], s);
      }
    } else {
      var init := s[..|s| - 1];
      SpliceIsSubsequence(init, i);
      assert init[..i] + init[i + 1..] == r[..|r| - 1];
      assert r[|r| - 1] == s[|s| - 1];
    }
  }

  /** Removing a just-added fixture whose id was not in use restores the list. */
  lemma RemoveAfterAdd(custom: seq<Fixture>, f: Fixture)
    requires forall g :: g in custom ==> g.id != f.id
    ensures Removed(custom + [f], f.id) == custom
  {
    var s := custom + [f];
    FindAfter(custom, f);
    assert s[..|custom|] == custom;
  }

  /** The id of an appended entry not used before is found at the end. */
  lemma {:induction false} FindAfter(custom: seq<Fixture>, f: Fixture)
    requires forall g :: g in custom ==> g.id != f.id
    ensures FindById(custom + [f], f.id) == Some(|custom|)
  {
    if custom != [] {
      assert (custom + [f])[1..] == custom[1..] + [f];
      FindAfter(custom[1..], f);
    }
  }

  // ---------------------------------------------------------------------
  // Search and recommendations
  // ---------------------------------------------------------------------

  /** Some application of `f` contains `query` once lower-cased. */
  predicate ApplicationMatches(f: Fixture, query: string) {
    exists i :: 0 <= i < |f.applications| && Contains(Lower(f.applications[i]), query)
  }

  /** The search test for an already lower-cased query. */
  predicate Matches(f: Fixture, query: string) {
    Contains(Lower(f.name), query) || Contains(Lower(f.model), query)
    || Contains(Lower(f.manufacturer), query) || ApplicationMatches(f, query)
  }

  function Matcher(query: string): Fixture -> bool {
    f => Matches(f, query)
  }

  /** The three tests of `getFixtureRecommendations`. */
  predicate Suitable(f: Fixture, application: string, area: real, mountingHeight: real) {
    var s := f.specifications;
    ApplicationMatches(f, Lower(application))
    && s.mountingHeight.min <= mountingHeight <= s.mountingHeight.max
    // `power / area` in [0.5, 50]; a zero area gives an infinite or NaN density.
    && area != 0.0 && 0.5 <= s.power / area <= 50.0
  }

  function Suits(application: string, area: real, mountingHeight: real): Fixture -> bool {
    f => Suitable(f, application, area, mountingHeight)
  }

  /** Non-increasing efficacy. */
  predicate SortedByEfficacy(s: seq<Fixture>) {
    forall i, j :: 0 <= i < j < |s| ==> s[i].specifications.efficacy >= s[j].specifications.efficacy
  }

  /**
   * Inserts `f` into a list sorted by non-increasing efficacy, after every
   * entry at least as efficient (so ties keep their arrival order).
   */
  function Insert(sorted: seq<Fixture>, f: Fixture): (r: seq<Fixture>)
    ensures |r| == |sorted| + 1
  {
    if sorted == [] then [f]
    else if sorted[0].specifications.efficacy >= f.specifications.efficacy then
      [sorted[0]] + Insert(sorted[1..], f)
    else
      [f] + sorted
  }

  /** Insertion adds exactly one occurrence of `f`. */
  lemma {:induction false} InsertPermutes(sorted: seq<Fixture>, f: Fixture)
    ensures multiset(Insert(sorted, f)) == multiset(sorted) + multiset{f}
  {
    if sorted != [] && sorted[0].specifications.efficacy >= f.specifications.efficacy {
      InsertPermutes(sorted[1..], f);
      assert sorted == [sorted[0]] + sorted[1..];
    }
  }

  /** Insertion into a sorted list keeps it sorted. */
  lemma {:induction false} InsertSorted(sorted: seq<Fixture>, f: Fixture)
    requires SortedByEfficacy(sorted)
    ensures SortedByEfficacy(Insert(sorted, f))
  {
    if sorted != [] && sorted[0].specifications.efficacy >= f.specifications.efficacy {
      var rest := Insert(sorted[1..], f);
      InsertSorted(sorted[1..], f);
      InsertPermutes(sorted[1..], f);
      HeadBound(sorted, f, rest);
      var r := [sorted[0]] + rest;
      assert forall i, j :: 0 < i < j < |r| ==> r[i] == rest[i - 1] && r[j] == rest[j - 1];
    }
  }

  /** Everything inserted behind the head is no more efficient than the head. */
  lemma HeadBound(sorted: seq<Fixture>, f: Fixture, rest: seq<Fixture>)
    requires sorted != [] && SortedByEfficacy(sorted)
    requires sorted[0].specifications.efficacy >= f.specifications.efficacy
    requires multiset(rest) == multiset(sorted[1..]) + multiset{f}
    ensures forall k :: 0 <= k < |rest| ==>
      rest[k].specifications.efficacy <= sorted[0].specifications.efficacy
  {
    forall k | 0 <= k < |rest|
      ensures rest[k].specifications.efficacy <= sorted[0].specifications.efficacy
    {
      assert rest[k] in multiset(rest);
      if rest[k] != f {
        assert rest[k] in multiset(sorted[1..]);
        assert rest[k] in sorted[1..];
      }
    }
  }

  /** Has efficacy `e`. */
  function EfficacyIs(e: real): Fixture -> bool {
    (f: Fixture) => f.specifications.efficacy == e
  }

  /**
   * Inserting into a sorted list keeps the entries of each efficacy in
   * their order, and puts `f` behind the entries as efficient as it.
   */
  lemma {:induction false} InsertKeepsTies(sorted: seq<Fixture>, f: Fixture, e: real)
    requires SortedByEfficacy(sorted)
    ensures Filter(Insert(sorted, f), EfficacyIs(e))
         == Filter(sorted, EfficacyIs(e)) + Filter([f], EfficacyIs(e))
    decreases |sorted|
  {
    if sorted == [] {
      assert Insert(sorted, f) == [] + [f];
    } else if sorted[0].specifications.efficacy >= f.specifications.efficacy {
      SortedTail(sorted);
      InsertKeepsTies(sorted[1..], f, e);
      InsertBehind(sorted, f, e);
    } else {
      InsertAhead(sorted, f, e);
    }
  }

  lemma SortedTail(sorted: seq<Fixture>)
    requires SortedByEfficacy(sorted) && sorted != []
    ensures SortedByEfficacy(sorted[1..])
  {
    var t := sorted[1..];
    forall i, j | 0 <= i < j < |t|
      ensures t[i].specifications.efficacy >= t[j].specifications.efficacy
    {
      assert t[i] == sorted[i + 1] && t[j] == sorted[j + 1];
    }
  }

  /** `f` inserted behind the head: the head's filter is kept in front of the rest. */
  lemma InsertBehind(sorted: seq<Fixture>, f: Fixture, e: real)
    requires sorted != [] && sorted[0].specifications.efficacy >= f.specifications.efficacy
    requires Filter(Insert(sorted[1..], f), EfficacyIs(e))
          == Filter(sorted[1..], EfficacyIs(e)) + Filter([f], EfficacyIs(e))
    ensures Filter(Insert(sorted, f), EfficacyIs(e))
         == Filter(sorted, EfficacyIs(e)) + Filter([f], EfficacyIs(e))
  {
    var t := sorted[1..];
    InsertBehindHead(sorted, f);
    FilterConsSuffix(sorted[0], t, Insert(t, f), Filter([f], EfficacyIs(e)), EfficacyIs(e));
  }

  lemma InsertBehindHead(sorted: seq<Fixture>, f: Fixture)
    requires sorted != [] && sorted[0].specifications.efficacy >= f.specifications.efficacy
    ensures Insert(sorted, f) == [sorted[0]] + Insert(sorted[1..], f)
    ensures [sorted[0]] + sorted[1..] == sorted
  {
  }

  /** `f` inserted ahead of a sorted list more efficient than all of it. */
  lemma InsertAhead(sorted: seq<Fixture>, f: Fixture, e: real)
    requires SortedByEfficacy(sorted) && sorted != []
    requires sorted[0].specifications.efficacy < f.specifications.efficacy
    ensures Filter(Insert(sorted, f), EfficacyIs(e))
         == Filter(sorted, EfficacyIs(e)) + Filter([f], EfficacyIs(e))
  {
    var p := EfficacyIs(e);
    assert Insert(sorted, f) == [f] + sorted;
    FilterConcat([f], sorted, p);
    if f.specifications.efficacy == e {
      forall i | 0 <= i < |sorted|
        ensures !p(sorted[i])
      {
        assert sorted[i].specifications.efficacy <= sorted[0].specifications.efficacy;
      }
      FilterNone(sorted, p);
    } else {
      assert Filter([f], p) == Filter([], p);
    }
  }

  /**
   * The sort is stable: the entries of any one efficacy come out in the
   * order they went in.
   */
  lemma {:induction false} SortKeepsTies(s: seq<Fixture>, e: real)
    ensures Filter(SortByEfficacy(s), EfficacyIs(e)) == Filter(s, EfficacyIs(e))
    decreases |s|
  {
    if s != [] {
      var init := s[..|s| - 1];
      SortKeepsTies(init, e);
      InsertKeepsTies(SortByEfficacy(init), s[|s| - 1], e);
      assert Filter([s[|s| - 1]], EfficacyIs(e)) == Filter([] + [s[|s| - 1]], EfficacyIs(e));
    }
  }

  /**
   * The stable sort by `b.efficacy - a.efficacy`: sorted by non-increasing
   * efficacy and a permutation of its input.
   */
  function SortByEfficacy(s: seq<Fixture>): (r: seq<Fixture>)
    ensures SortedByEfficacy(r)
    ensures multiset(r) == multiset(s)
    decreases |s|
  {
    if s == [] then []
    else
      var sortedInit := SortByEfficacy(s[..|s| - 1]);
      assert s == s[..|s| - 1] + [s[|s| - 1]];
      InsertSorted(sortedInit, s[|s| - 1]);
      InsertPermutes(sortedInit, s[|s| - 1]);
      Insert(sortedInit, s[|s| - 1])
  }

  // ---------------------------------------------------------------------
  // Spacing estimate
  // ---------------------------------------------------------------------

  /** What `calculateFixtureSpacing` returns; `area` is a quotient that may not be finite. */
  datatype SpacingInfo = SpacingInfo(spacing: real, area: Number, lightCircleDiameter: real)

  /** Share of the rated lumens left after light loss. */
  const LightLossFactor: real := 0.7

  /** Share of the light circle's diameter taken as the spacing. */
  const SpacingShare: real := 0.7

  /**
   * `calculateFixtureSpacing` (it reads no state of the library): the area
   * the usable lumens light at the target, and a spacing of 70% of the
   * diameter the horizontal beam covers at the mounting height.
   */
  function CalculateFixtureSpacing(m: Math, f: Fixture, targetIlluminance: real, mountingHeight: real): (r: SpacingInfo)
    ensures targetIlluminance != 0.0 ==>
      r.area.Finite? && r.area.value * targetIlluminance == f.specifications.lumens * LightLossFactor
    ensures targetIlluminance == 0.0 ==> !r.area.Finite?
  {
    var usableLumens := f.specifications.lumens * LightLossFactor;
    var illuminatedArea := Divide(usableLumens, targetIlluminance);
    var beamAngle := Utils.DegreesToRadians(f.specifications.beamAngle.horizontal);
    var lightCircleDiameter := 2.0 * mountingHeight * m.tan(beamAngle / 2.0);
    SpacingInfo(lightCircleDiameter * SpacingShare, illuminatedArea, lightCircleDiameter)
  }

  /** The spacing grows in proportion to the mounting height and ignores the target. */
  lemma SpacingProportional(m: Math, f: Fixture, target: real, target': real, height: real, k: real)
    ensures CalculateFixtureSpacing(m, f, target', k * height).spacing
         == k * CalculateFixtureSpacing(m, f, target, height).spacing
  {
    var t := m.tan(Utils.DegreesToRadians(f.specifications.beamAngle.horizontal) / 2.0);
    assert 2.0 * (k * height) * t * SpacingShare == k * (2.0 * height * t * SpacingShare);
  }

  // ---------------------------------------------------------------------
  // Properties of the queries
  // ---------------------------------------------------------------------

  /** Each category lists only entries of that category; other keys list nothing. */
  lemma CategoriesConsistent(lib: FixtureLibrary)
    requires lib.Valid()
    ensures forall c :: c in ["sports", "industrial", "custom"] ==>
      forall f :: f in lib.GetFixturesByCategory(c) ==> f.category == c
    ensures forall c :: c !in ["sports", "industrial", "custom"] ==> lib.GetFixturesByCategory(c) == []
  {
    SportsWellFormed();
    IndustrialWellFormed();
  }

  /** `getFixtureById` returns the first entry with the id, in catalog order. */
  lemma GetFixtureByIdFirst(lib: FixtureLibrary, id: string)
    requires lib.GetFixtureById(id).Some?
    ensures exists i :: 0 <= i < |lib.AllFixtures()| && lib.AllFixtures()[i] == lib.GetFixtureById(id).value
                && forall j :: 0 <= j < i ==> lib.AllFixtures()[j].id != id
  {
    var i := FindById(lib.AllFixtures(), id).value;
    assert lib.AllFixtures()[i] == lib.GetFixtureById(id).value;
  }

  /** Every built-in entry is found by its id, whatever custom entries were added. */
  lemma BuiltinLookup(lib: FixtureLibrary, i: nat)
    requires lib.Valid() && i < |SportsFixtures() + IndustrialFixtures()|
    ensures var f := (SportsFixtures() + IndustrialFixtures())[i];
      lib.GetFixtureById(f.id) == Some(f)
  {
    var builtins := SportsFixtures() + IndustrialFixtures();
    var all := lib.AllFixtures();
    CatalogIdsDistinct();
    assert all == builtins + lib.custom;
    assert all[i] == builtins[i];
    assert FindById(all, builtins[i].id).Some?;
  }

  /**
   * `searchFixtures`: an empty query returns the list searched; otherwise the
   * order-preserving selection of the entries matching the lower-cased query,
   * each kept as often as it occurs.
   */
  lemma SearchSpec(lib: FixtureLibrary, query: string, category: string)
    ensures var base := if category != "" then lib.GetFixturesByCategory(category) else lib.AllFixtures();
      var r := lib.SearchFixtures(query, category);
      (query == "" ==> r == base)
      && IsSubsequence(r, base)
      && (query != "" ==> forall f :: f in r <==> f in base && Matches(f, Lower(query)))
      && (query != "" ==> forall f :: multiset(r)[f] == if Matches(f, Lower(query)) then multiset(base)[f] else 0)
  {
    var base := if category != "" then lib.GetFixturesByCategory(category) else lib.AllFixtures();
    if query == "" {
      SubsequenceRefl(base);
    } else {
      FilterIsSubsequence(base, Matcher(Lower(query)));
      forall f
        ensures multiset(Filter(base, Matcher(Lower(query))))[f] == if Matches(f, Lower(query)) then multiset(base)[f] else 0
      {
        FilterCount(base, Matcher(Lower(query)), f);
      }
    }
  }

  /** The search is case-insensitive in the query. */
  lemma SearchIgnoresQueryCase(lib: FixtureLibrary, query: string, category: string)
    ensures lib.SearchFixtures(Lower(query), category) == lib.SearchFixtures(query, category)
  {
    assert Lower(Lower(query)) == Lower(query);
  }

  /**
   * `getFixtureRecommendations`: every result suits the application, the
   * mounting height and the power density; the results come most efficient
   * first and are exactly the suitable entries.
   */
  lemma RecommendationsSpec(lib: FixtureLibrary, application: string, area: real, mountingHeight: real)
    ensures var r := lib.GetFixtureRecommendations(application, area, mountingHeight);
      (forall f :: f in r ==> f in lib.AllFixtures() && Suitable(f, application, area, mountingHeight))
      && SortedByEfficacy(r)
      && (forall f :: f in lib.AllFixtures() && Suitable(f, application, area, mountingHeight) ==> f in r)
      && multiset(r) == multiset(Filter(lib.AllFixtures(), Suits(application, area, mountingHeight)))
  {
    var r := lib.GetFixtureRecommendations(application, area, mountingHeight);
    var kept := Filter(lib.AllFixtures(), Suits(application, area, mountingHeight));
    forall f | f in r
      ensures f in kept
    {
      assert f in multiset(r);
    }
    forall f | f in kept
      ensures f in r
    {
      assert f in multiset(kept);
    }
  }

  /** A zero area recommends nothing: the density is never finite. */
  lemma NoRecommendationsForZeroArea(lib: FixtureLibrary, application: string, mountingHeight: real)
    ensures lib.GetFixtureRecommendations(application, 0.0, mountingHeight) == []
  {
    FilterNone(lib.AllFixtures(), Suits(application, 0.0, mountingHeight));
  }
}
