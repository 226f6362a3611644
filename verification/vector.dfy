/** The tolerance-based three-way comparison of vectors. */
module Geometry {

  /** The tolerance `CompareTo` uses when the caller gives none. */
  const DefaultTolerance: real := 0.001

  /** A vector by its three components. */
  datatype Vector = Vector(x: real, y: real, z: real)

  function Abs(a: real): (r: real)
    ensures r >= 0.0 && (r == a || r == -a)
  {
    if a < 0.0 then -a else a
  }

  /** The components in comparison order: x, then y, then z. */
  function Components(v: Vector): (c: seq<real>)
    ensures |c| == 3 && c[0] == v.x && c[1] == v.y && c[2] == v.z
  {
    [v.x, v.y, v.z]
  }

  /**
   * Reference definition: lexicographic three-way comparison of two
   * equally long component lists, where two components within `tol` of
   * each other count as equal.
   */
  function LexCompare(a: seq<real>, b: seq<real>, tol: real): (r: int)
    requires |a| == |b|
    ensures r == -1 || r == 0 || r == 1
    ensures r == 0 <==> forall k :: 0 <= k < |a| ==> Abs(a[k] - b[k]) <= tol
  {
    if |a| == 0 then 0
    else if Abs(a[0] - b[0]) > tol then (if a[0] < b[0] then -1 else 1)
    else
      var r := LexCompare(a[1..], b[1..], tol);
      assert forall k :: 1 <= k < |a| ==> a[k] == a[1..][k - 1] && b[k] == b[1..][k - 1];
      r
  }

  /**
   * Compare two vectors with a tolerance: 0 when every component pair is
   * within `tol`, otherwise -1 or 1 as the first pair beyond it decides.
   */
  function CompareTo(v1: Vector, v2: Vector, tol: real): (r: int)
    ensures r == -1 || r == 0 || r == 1
    ensures r == 0 <==> Abs(v1.x - v2.x) <= tol && Abs(v1.y - v2.y) <= tol && Abs(v1.z - v2.z) <= tol
  {
    if Abs(v1.x - v2.x) > tol then (if v1.x < v2.x then -1 else 1)
    else if Abs(v1.y - v2.y) > tol then (if v1.y < v2.y then -1 else 1)
    else if Abs(v1.z - v2.z) > tol then (if v1.z < v2.z then -1 else 1)
    else 0
  }

  /** The first component beyond tolerance decides; everything after it is ignored. */
  lemma {:induction false} LexCompareFirstDeciding(a: seq<real>, b: seq<real>, tol: real, k: nat)
    requires |a| == |b| && k < |a|
    requires forall j :: 0 <= j < k ==> Abs(a[j] - b[j]) <= tol
    requires Abs(a[k] - b[k]) > tol
    ensures LexCompare(a, b, tol) == (if a[k] < b[k] then -1 else 1)
  {
    if k > 0 {
      assert Abs(a[0] - b[0]) <= tol;
      assert forall j :: 0 <= j < k - 1 ==> a[1..][j] == a[j + 1] && b[1..][j] == b[j + 1];
      LexCompareFirstDeciding(a[1..], b[1..], tol, k - 1);
    }
  }

  /** With a non-negative tolerance, swapping the arguments negates the result. */
  lemma {:induction false} LexCompareAntisymmetric(a: seq<real>, b: seq<real>, tol: real)
    requires |a| == |b| && tol >= 0.0
    ensures LexCompare(a, b, tol) == -LexCompare(b, a, tol)
  {
    if |a| > 0 {
      assert Abs(a[0] - b[0]) == Abs(b[0] - a[0]);
      if Abs(a[0] - b[0]) <= tol {
        LexCompareAntisymmetric(a[1..], b[1..], tol);
      }
    }
  }

  /** `CompareTo` is the reference comparison on the components x, y, z. */
  lemma CompareToIsLexCompare(v1: Vector, v2: Vector, tol: real)
    ensures CompareTo(v1, v2, tol) == LexCompare(Components(v1), Components(v2), tol)
  {
    var a, b := Components(v1), Components(v2);
    if Abs(v1.x - v2.x) > tol {
      LexCompareFirstDeciding(a, b, tol, 0);
    } else if Abs(v1.y - v2.y) > tol {
      LexCompareFirstDeciding(a, b, tol, 1);
    } else if Abs(v1.z - v2.z) > tol {
      LexCompareFirstDeciding(a, b, tol, 2);
    }
  }

  /** Antisymmetry of `CompareTo` for a non-negative tolerance. */
  lemma CompareToAntisymmetric(v1: Vector, v2: Vector, tol: real)
    requires tol >= 0.0
    ensures CompareTo(v1, v2, tol) == -CompareTo(v2, v1, tol)
  {
    CompareToIsLexCompare(v1, v2, tol);
    CompareToIsLexCompare(v2, v1, tol);
    LexCompareAntisymmetric(Components(v1), Components(v2), tol);
  }

  /** Every vector compares equal to itself under a non-negative tolerance. */
  lemma CompareToReflexive(v: Vector, tol: real)
    requires tol >= 0.0
    ensures CompareTo(v, v, tol) == 0
  {
  }

  /** Under a negative tolerance every difference is "beyond" it: a vector is greater than itself. */
  lemma CompareToNegativeTolerance(v: Vector, tol: real)
    requires tol < 0.0
    ensures CompareTo(v, v, tol) == 1
  {
  }

  /** Exact lexicographic order on (x, y, z). */
  predicate LexLess(v1: Vector, v2: Vector)
  {
    || v1.x < v2.x
    || (v1.x == v2.x && v1.y < v2.y)
    || (v1.x == v2.x && v1.y == v2.y && v1.z < v2.z)
  }

  /** With zero tolerance, `CompareTo` is exact lexicographic comparison. */
  lemma CompareToZeroToleranceIsExact(v1: Vector, v2: Vector)
    ensures CompareTo(v1, v2, 0.0) == -1 <==> LexLess(v1, v2)
    ensures CompareTo(v1, v2, 0.0) == 0 <==> v1 == v2
    ensures CompareTo(v1, v2, 0.0) == 1 <==> LexLess(v2, v1)
  {
  }

  /** The documented examples: (1,0,0) against (0,0,0) with the default tolerance. */
  lemma CompareToExamples()
    ensures CompareTo(Vector(1.0, 0.0, 0.0), Vector(0.0, 0.0, 0.0), DefaultTolerance) == 1
    ensures CompareTo(Vector(0.0, 0.0, 0.0), Vector(1.0, 0.0, 0.0), DefaultTolerance) == -1
  {
  }
}
