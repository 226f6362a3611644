/**
 * Level resolution for an element (the private `GetLevel` of the element
 * utilities). The host document, the element's parameters and its bounding
 * box are given as plain data instead of being queried from the host.
 */
module ElementLevel {
  import opened Wrappers
  import opened LevelSort

  /** The host's invalid element id, which names no element. */
  const InvalidElementId: int := -1

  /**
   * What the resolution reads from the document: every level it holds, and
   * the ids of every other element (the ones that are not levels).
   */
  datatype Document = Document(levels: seq<Level>, otherElementIds: set<int>)

  /**
   * The host's document invariant: element ids are unique, and the invalid
   * id names no element.
   */
  predicate ValidDocument(doc: Document)
  {
    && InvalidElementId !in doc.otherElementIds
    && (forall i :: 0 <= i < |doc.levels| ==>
          doc.levels[i].id != InvalidElementId && doc.levels[i].id !in doc.otherElementIds)
    && (forall i, j :: 0 <= i < j < |doc.levels| ==> doc.levels[i].id != doc.levels[j].id)
  }

  /** The z extent of an element's bounding box. */
  datatype BoundingBox = BoundingBox(minZ: real, maxZ: real)

  /** Why level resolution fails: the element has no bounding box to read a height from. */
  datatype Error = MissingBoundingBox

  /**
   * What the resolution reads from the element: its own level id, the
   * start-level and schedule-level parameters (`None` when the element has
   * no such parameter, `Some(id)` with the id it stores otherwise) and its
   * bounding box (`None` for an element without geometry).
   */
  datatype Element = Element(
    levelId: int,
    startLevel: Option<int>,
    scheduleLevel: Option<int>,
    box: Option<BoundingBox>)

  /** The first level of `levels` whose id is `id`, if any. */
  function FindLevel(levels: seq<Level>, id: int): (r: Option<Level>)
    ensures r.Some? ==> r.value in levels && r.value.id == id
    ensures r.None? <==> forall l :: l in levels ==> l.id != id
  {
    if |levels| == 0 then None
    else if levels[0].id == id then Some(levels[0])
    else FindLevel(levels[1..], id)
  }

  /** The document lookup of an id yields an element (a level or another one). */
  predicate Resolves(doc: Document, id: int)
  {
    id in doc.otherElementIds || FindLevel(doc.levels, id).Some?
  }

  /** The document lookup of an id, cast to a level: no level unless `id` names one. */
  function LookupLevel(doc: Document, id: int): Option<Level>
  {
    FindLevel(doc.levels, id)
  }

  /**
   * The level id used once the element's own one does not resolve: the
   * start-level parameter if the element has it, else the schedule-level
   * parameter if it has that, else its own level id unchanged.
   */
  function HintedLevelId(e: Element): (id: int)
    ensures e.startLevel.Some? ==> id == e.startLevel.value
    ensures e.startLevel.None? && e.scheduleLevel.Some? ==> id == e.scheduleLevel.value
    ensures e.startLevel.None? && e.scheduleLevel.None? ==> id == e.levelId
  {
    var parameter := if e.startLevel.Some? then e.startLevel else e.scheduleLevel;
    if parameter.Some? then parameter.value else e.levelId
  }

  /** The representative height of a bounding box: the mid-point of its z extent. */
  function MidHeight(minZ: real, maxZ: real): (z: real)
    ensures z - minZ == maxZ - z
    ensures minZ <= maxZ ==> minZ <= z <= maxZ
  {
    (minZ + maxZ) / 2.0
  }

  /** `z` is at or below every level of `levels`. */
  predicate AtOrBelowAll(levels: seq<Level>, z: real)
  {
    forall m :: m in levels ==> z <= m.elevation
  }

  /** `z` is at or above every level of `levels`. */
  predicate AtOrAboveAll(levels: seq<Level>, z: real)
  {
    forall m :: m in levels ==> m.elevation <= z
  }

  /** `l` is a level of `levels` with the least elevation. */
  predicate IsLowest(levels: seq<Level>, l: Level)
  {
    l in levels && forall m :: m in levels ==> l.elevation <= m.elevation
  }

  /** `l` is a level of `levels` with the greatest elevation. */
  predicate IsHighest(levels: seq<Level>, l: Level)
  {
    l in levels && forall m :: m in levels ==> m.elevation <= l.elevation
  }

  /** `l` is a level strictly below `z` with no level strictly between it and `z`. */
  predicate IsFloorBelow(levels: seq<Level>, z: real, l: Level)
  {
    && l in levels
    && l.elevation < z
    && forall m :: m in levels && m.elevation < z ==> m.elevation <= l.elevation
  }

  /**
   * What the geometric fallback promises, independent of the order of the
   * levels: the lowest level when `z` is at or below all of them, else the
   * highest when `z` is at or above all of them, else the highest level
   * strictly below `z`.
   */
  predicate FallbackSpec(levels: seq<Level>, z: real, l: Level)
  {
    if AtOrBelowAll(levels, z) then IsLowest(levels, l)
    else if AtOrAboveAll(levels, z) then IsHighest(levels, l)
    else IsFloorBelow(levels, z, l)
  }

  /** `i` is the first index whose level is at or above `z`. */
  predicate FirstAtOrAbove(levels: seq<Level>, z: real, i: int)
    requires 0 <= i < |levels|
  {
    levels[i].elevation >= z && forall j :: 0 <= j < i ==> levels[j].elevation < z
  }

  /** Only one index is the first at or above `z`, so the bracket the scan returns is determined. */
  lemma FirstAtOrAboveUnique(levels: seq<Level>, z: real, i: int, k: int)
    requires 0 <= i < |levels| && 0 <= k < |levels|
    requires FirstAtOrAbove(levels, z, i) && FirstAtOrAbove(levels, z, k)
    ensures i == k
  {
  }

  /**
   * The bracketing scan: once both clamps have failed, the first level at
   * or above `z` is never the first one, so the level before it exists and
   * the loop always returns.
   */
  method BracketBelow(levels: seq<Level>, z: real) returns (r: Level)
    requires |levels| > 0
    requires levels[0].elevation < z < levels[|levels| - 1].elevation
    ensures exists i :: 1 <= i < |levels| && FirstAtOrAbove(levels, z, i) && r == levels[i - 1]
    ensures r in levels && r.elevation < z
  {
    var i := 0;
    while i < |levels|
      invariant 0 <= i <= |levels|
      invariant forall j :: 0 <= j < i ==> levels[j].elevation < z
    {
      if levels[i].elevation >= z {
        assert FirstAtOrAbove(levels, z, i);
        return levels[i - 1];
      }
      i := i + 1;
    }
    assert false;
  }

  /**
   * The geometric fallback over the levels in the order the sort left
   * them: clamp below to the first level, clamp above to the last, else
   * bracket. `None` only when there are no levels (both clamp tests compare
   * against a missing elevation and fail, and the scan does not run).
   */
  method Fallback(levels: seq<Level>, z: real) returns (r: Option<Level>)
    ensures r.None? <==> |levels| == 0
    ensures |levels| > 0 && z <= levels[0].elevation ==> r == Some(levels[0])
    ensures |levels| > 0 && levels[0].elevation < z && levels[|levels| - 1].elevation <= z
      ==> r == Some(levels[|levels| - 1])
    ensures |levels| > 0 && levels[0].elevation < z < levels[|levels| - 1].elevation
      ==> exists i :: 1 <= i < |levels| && FirstAtOrAbove(levels, z, i) && r == Some(levels[i - 1])
    ensures SortedByElevation(levels) && r.Some? ==> FallbackSpec(levels, z, r.value)
  {
    if |levels| == 0 {
      return None;
    }
    if z <= levels[0].elevation {
      return Some(levels[0]);
    }
    if z >= levels[|levels| - 1].elevation {
      return Some(levels[|levels| - 1]);
    }
    var below := BracketBelow(levels, z);
    r := Some(below);
  }

  /**
   * Level resolution. The level the element's own level id names when that
   * id resolves; otherwise the level named by the start-level parameter, or,
   * only when that parameter is missing, by the schedule-level parameter;
   * and only when the chosen id is the invalid id, the geometric fallback at
   * the mid-height of the bounding box over the levels sorted by elevation.
   * Reading the height of an element without a bounding box fails.
   */
  method GetLevel(doc: Document, e: Element) returns (r: Result<Option<Level>, Error>)
    requires ValidDocument(doc)
    ensures Resolves(doc, e.levelId) ==> r == Success(LookupLevel(doc, e.levelId))
    ensures !Resolves(doc, e.levelId) && HintedLevelId(e) != InvalidElementId
      ==> r == Success(LookupLevel(doc, HintedLevelId(e)))
    ensures !Resolves(doc, e.levelId) && HintedLevelId(e) == InvalidElementId && e.box.None?
      ==> r == Failure(MissingBoundingBox)
    ensures !Resolves(doc, e.levelId) && HintedLevelId(e) == InvalidElementId && e.box.Some?
      && |doc.levels| == 0
      ==> r == Success(None)
    ensures !Resolves(doc, e.levelId) && HintedLevelId(e) == InvalidElementId && e.box.Some?
      && |doc.levels| > 0
      ==> && r.Success? && r.value.Some?
          && FallbackSpec(doc.levels, MidHeight(e.box.value.minZ, e.box.value.maxZ), r.value.value)
  {
    var levelId := e.levelId;
    if !Resolves(doc, levelId) {
      levelId := HintedLevelId(e);
      if levelId == InvalidElementId {
        if e.box.None? {
          return Failure(MissingBoundingBox);
        }
        var z := MidHeight(e.box.value.minZ, e.box.value.maxZ);
        var sorted := SortByElevation(doc.levels);
        var found := Fallback(sorted, z);
        if found.Some? {
          FallbackSpecPermutationInvariant(sorted, doc.levels, z, found.value);
          return Success(found);
        }
      }
    }
    r := Success(LookupLevel(doc, levelId));
  }

  /** In a valid document the invalid id resolves to nothing, so the empty fallback yields no level. */
  lemma InvalidIdNamesNothing(doc: Document)
    requires ValidDocument(doc)
    ensures !Resolves(doc, InvalidElementId)
    ensures LookupLevel(doc, InvalidElementId) == None
  {
  }

  /**
   * The fallback's promise only depends on which levels there are, not on
   * their order, so the order an unstable sort leaves equal elevations in
   * does not matter.
   */
  lemma FallbackSpecPermutationInvariant(a: seq<Level>, b: seq<Level>, z: real, l: Level)
    requires multiset(a) == multiset(b)
    ensures FallbackSpec(a, z, l) <==> FallbackSpec(b, z, l)
  {
    assert forall m :: m in a <==> m in b by {
      forall m
        ensures m in a <==> m in b
      {
        assert m in a <==> m in multiset(a);
        assert m in b <==> m in multiset(b);
      }
    }
  }

  /** Any two levels the fallback may return have the same elevation. */
  lemma FallbackElevationDetermined(levels: seq<Level>, z: real, a: Level, b: Level)
    requires FallbackSpec(levels, z, a) && FallbackSpec(levels, z, b)
    ensures a.elevation == b.elevation
  {
  }

  /** The schedule-level parameter is not read when the start-level parameter exists. */
  lemma StartLevelHasPriority(e: Element, schedule: Option<int>)
    requires e.startLevel.Some?
    ensures HintedLevelId(e) == e.startLevel.value
    ensures HintedLevelId(e.(scheduleLevel := schedule)) == HintedLevelId(e)
  {
  }

  /**
   * A start-level parameter that exists but holds the invalid id selects the
   * geometric fallback even when a valid schedule level is present.
   */
  lemma InvalidStartLevelSelectsFallback(e: Element)
    requires e.startLevel == Some(InvalidElementId)
    ensures HintedLevelId(e) == InvalidElementId
  {
  }

  /** A height equal to an interior level's elevation resolves to a level strictly below it. */
  lemma InteriorTieResolvesBelow(levels: seq<Level>, z: real, m: Level, r: Level)
    requires m in levels && m.elevation == z
    requires !AtOrBelowAll(levels, z) && !AtOrAboveAll(levels, z)
    requires FallbackSpec(levels, z, r)
    ensures r.elevation < m.elevation
  {
  }

  /** Levels at elevations 0, 10 and 20, a height of -5 or 25: the lowest or the highest. */
  lemma ClampScenarios(l0: Level, l1: Level, l2: Level, below: Level, above: Level)
    requires l0.elevation == 0.0 && l1.elevation == 10.0 && l2.elevation == 20.0
    requires FallbackSpec([l0, l1, l2], -5.0, below)
    requires FallbackSpec([l0, l1, l2], 25.0, above)
    ensures below == l0 && above == l2
  {
  }

  /** Levels at elevations 0, 10 and 20 and a box from 12 to 14: the middle level. */
  lemma BracketingScenario(l0: Level, l1: Level, l2: Level, r: Level)
    requires l0.elevation == 0.0 && l1.elevation == 10.0 && l2.elevation == 20.0
    requires FallbackSpec([l0, l1, l2], MidHeight(12.0, 14.0), r)
    ensures r == l1
  {
  }
}
