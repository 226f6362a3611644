# OpenMEP level resolution and vector comparison, in Dafny

This project models two self-contained pieces of the OpenMEP plugin for the
Revit/Dynamo host and proves properties of them:

- **Element level resolution** (`ElementLevel`, `LevelSort`): the private
  `Element.GetLevel` that finds the building level of an element. It tries
  the element's own level id first. Next it tries the start-level parameter,
  and the schedule-level parameter only when the element has no start-level
  parameter. When the chosen id is the invalid id (-1), it falls back to
  geometry: it takes the mid-height of the bounding box and sorts the
  document's levels by elevation. It clamps to the lowest or the highest
  level, and otherwise returns the level just below the first level at or
  above that height.
- **Vector comparison** (`Geometry`): `Vector.CompareTo(v1, v2, tolerance)`.
  This is a lexicographic three-way comparison on (X, Y, Z). Components
  within the tolerance count as equal.

The host lookups become plain data:
- `Document` holds the document's levels and the ids of its other elements.
  `doc.GetElement(id) != null` is `Resolves`, and `doc.GetElement(id) as Level`
  is `LookupLevel`.
- `Element` holds the element's own level id and its two level parameters.
  Each parameter is an `Option<int>`: `None` means the element lacks the
  parameter, and `Some(-1)` means it has the parameter but it holds the
  invalid id. `Element` also holds the z extent of its bounding box, or
  `None` when the host gives no bounding box for it.
- `GetLevel` returns a `Result`. `Failure(MissingBoundingBox)` stands for the
  null dereference of `bbox.Min` when the fallback runs on an element
  without a bounding box.
- `ValidDocument` states the host's document invariant: ids are unique, and
  the invalid id -1 names no element.

Doubles are modelled as exact `real` numbers. This is an idealisation:
these operations only compare, subtract, add, take absolute values and halve,
but IEEE subtraction and addition round. So a difference that lies just
beyond the tolerance, or a mid-height that lies next to an elevation, can
compare differently in the source. NaN is not modelled. `CompareTo` returns a `double` in the source; the model returns
an `int`, which is always -1, 0 or 1.

The source uses `List.Sort`, which is unstable. The model sorts with its own
insertion sort, `SortByElevation`. Every contract on the fallback's result
is stated through `FallbackSpec`, which speaks only of which levels exist,
not of their order. So the tie order a different sort would pick changes the
identity of the result at most, never its elevation.

## Model

| member | source | states |
|---|---|---|
| ElementLevel.GetLevel | OpenMEP/Element/Element.cs:161-208 | When the own level id resolves, the result is the level that id names, or no level if it names an element that is not a level; no parameter or geometry is consulted. Otherwise the hinted id is looked up the same way unless it is -1. With -1 and no bounding box, the resolution fails. With -1 and no levels, the result is no level. With -1 and some levels, the result is a level satisfying the order-free fallback promise at the box mid-height. |
| ElementLevel.HintedLevelId | OpenMEP/Element/Element.cs:167-176 | The start-level parameter's id when the element has that parameter. Otherwise the schedule-level parameter's id when it has that one. Otherwise its own level id, unchanged. |
| ElementLevel.InvalidIdNamesNothing | OpenMEP/Element/Element.cs:178-207 | In a valid document the invalid id resolves to no element and looks up no level, so an unreturned fallback yields no level. |
| ElementLevel.FindLevel | OpenMEP/Element/Element.cs:207 | The lookup yields a level of the document carrying the requested id, and yields nothing exactly when no level carries it. |
| ElementLevel.StartLevelHasPriority | OpenMEP/Element/Element.cs:167-176 | When the start-level parameter exists, its id is used, and the schedule-level parameter has no influence. |
| ElementLevel.InvalidStartLevelSelectsFallback | OpenMEP/Element/Element.cs:167-178 | A start-level parameter that exists but holds -1 selects the fallback, even if a schedule level is present. |
| ElementLevel.MidHeight | OpenMEP/Element/Element.cs:181-182 | The representative height is equidistant from the box's lower and upper z, and lies between them. |
| LevelSort.InsertByElevation | OpenMEP/Element/Element.cs:186 | Inserting into an ascending list keeps it ascending and adds exactly the one level. |
| LevelSort.SortByElevation | OpenMEP/Element/Element.cs:185-186 | The sorted levels are ascending by elevation and are a permutation of the document's levels. |
| ElementLevel.BracketBelow | OpenMEP/Element/Element.cs:197-203 | If the first level is below z and the last is above it, the scan stops at the first index i whose level is at or above z. That index has 1 <= i < count, so `levels[i-1]` is in bounds and the loop never falls through. The result is `levels[i-1]`, which lies below z. This holds whether or not the levels are sorted. |
| ElementLevel.FirstAtOrAboveUnique | OpenMEP/Element/Element.cs:197-201 | At most one index is the first whose level is at or above z, so the bracket is determined even for unsorted levels. |
| ElementLevel.Fallback | OpenMEP/Element/Element.cs:186-203 | No levels gives no result. z at or below the first level gives the first level; this test comes before the upper clamp. Otherwise z at or above the last level gives the last level. Otherwise the result is the level just before the first index at or above z. On sorted input, every result meets the order-free fallback promise. |
| ElementLevel.FallbackSpecPermutationInvariant | OpenMEP/Element/Element.cs:185-186 | The fallback promise is the same for any permutation of the levels, so the tie order of the sort does not matter to it. |
| ElementLevel.FallbackElevationDetermined | OpenMEP/Element/Element.cs:185-201 | Two levels that both meet the fallback promise have the same elevation. Among equal elevations only the elevation of the result is determined. |
| ElementLevel.InteriorTieResolvesBelow | OpenMEP/Element/Element.cs:199-201 | A height exactly equal to an interior level's elevation resolves to a level strictly below it. |
| ElementLevel.ClampScenarios | OpenMEP/Element/Element.cs:187-195 | For levels at 0, 10 and 20, a height of -5 gives the lowest level and 25 the highest. |
| ElementLevel.BracketingScenario | OpenMEP/Element/Element.cs:182-203 | For levels at 0, 10 and 20 and a box from 12 to 14, the result is the level at 10. |
| Geometry.CompareTo | OpenMEPSandbox/Geometry/Vector.cs:100-109 | The result is -1, 0 or 1. It is 0 exactly when every component pair differs by at most the tolerance. |
| Geometry.LexCompare | OpenMEPSandbox/Geometry/Vector.cs:100-109 | Reference lexicographic comparison with tolerance over component lists. The result is -1, 0 or 1, and it is 0 exactly when all pairs are within tolerance. |
| Geometry.LexCompareFirstDeciding | OpenMEPSandbox/Geometry/Vector.cs:102-107 | The first component pair beyond tolerance decides the sign: -1 when the first argument's component is smaller, 1 otherwise. Later components are ignored. |
| Geometry.CompareToIsLexCompare | OpenMEPSandbox/Geometry/Vector.cs:100-109 | `CompareTo` equals the reference comparison on the components in the order X, Y, Z. |
| Geometry.LexCompareAntisymmetric | OpenMEPSandbox/Geometry/Vector.cs:102-108 | With a non-negative tolerance, swapping the arguments negates the reference comparison. |
| Geometry.CompareToAntisymmetric | OpenMEPSandbox/Geometry/Vector.cs:102-108 | With a non-negative tolerance, `CompareTo(v1, v2) == -CompareTo(v2, v1)`. |
| Geometry.CompareToReflexive | OpenMEPSandbox/Geometry/Vector.cs:102-108 | With a non-negative tolerance, a vector compares equal to itself. |
| Geometry.CompareToNegativeTolerance | OpenMEPSandbox/Geometry/Vector.cs:102-103 | With a negative tolerance, a vector compares greater than itself, so a non-negative tolerance is needed. |
| Geometry.CompareToZeroToleranceIsExact | OpenMEPSandbox/Geometry/Vector.cs:100-109 | With zero tolerance, the result is -1, 0 or 1 exactly when the first vector is lexicographically less than, equal to or greater than the second. |
| Geometry.CompareToExamples | OpenMEPSandbox/Geometry/Vector.cs:91-109 | (1,0,0) against (0,0,0) at tolerance 0.001 gives 1. The reverse gives -1. |

## Left out

- `OpenMEP/Application/Revit.cs` (`Revit.Version`): a single read of a host property, with no logic.
- `Element.GetLocation`, `GetDocument`, `MoveElement`, both `Rotate` overloads, `System`, `SystemType` and `ConnectorSystemType` (OpenMEP/Element/Element.cs:36-146, 218-261): these are transactions and geometry calls into the host's document model and connector API, which is not part of this model. The bounding-box branch of `GetLocation` (OpenMEP/Element/Element.cs:53) divides `Max + Min` by 0.5, which doubles the sum rather than halving it to the box centre. It is noted here but not modelled.
- `IsSameDirection`, `IsOppositeDirection` and `IsPerpendicular` (OpenMEPSandbox/Geometry/Vector.cs:23-54): each tests a normalised dot product for exact floating-point equality with 1, -1 or 0. The outcome depends on IEEE rounding and on the host's `Normalized()`, whose zero-vector behaviour is not visible, so a real-number model would claim what the code does not guarantee.
- `Vector.Display` (OpenMEPSandbox/Geometry/Vector.cs:71-88): it builds host geometry and colour objects. Its only logic is replacing a scale of 0 or less by 1.
- The host lookups themselves (`doc.GetElement`, `get_Parameter`, `get_BoundingBox`, `FilteredElementCollector`): they are inputs (`Document`, `Element`) rather than modelled operations.
- `List.Sort`'s unstable tie order: the model uses a stable insertion sort. The promises about the result hold for every sorted permutation (`FallbackSpecPermutationInvariant`).
- Transitivity of `CompareTo` is not claimed: equality within a tolerance is not transitive.
- Floating-point rounding is not modelled: results for a component difference exactly at the tolerance, or a mid-height exactly at an elevation, may differ from the source's double arithmetic. NaN and the other IEEE special values are not modelled either.
- `CompareTo`'s default argument `tolerance = 0.001` (OpenMEPSandbox/Geometry/Vector.cs:100) is the constant `DefaultTolerance`; Dafny has no default arguments, so callers pass it explicitly. The `double` result is an `int` in the model.
- `GetLevel` requires `ValidDocument`: documents with duplicate ids, or with an element whose id is -1, cannot arise in the host and are not modelled.
