/** Building levels and their ordering by elevation. */
module LevelSort {

  /** A level of the document: its element id and its elevation in project units. */
  datatype Level = Level(id: int, elevation: real)

  /** Ascending by elevation; equal elevations may appear in any order. */
  predicate SortedByElevation(s: seq<Level>)
  {
    forall i, j :: 0 <= i < j < |s| ==> s[i].elevation <= s[j].elevation
  }

  /** Inserts `l` into an ascending list, keeping it ascending and losing nothing. */
  function InsertByElevation(l: Level, s: seq<Level>): (r: seq<Level>)
    requires SortedByElevation(s)
    ensures SortedByElevation(r)
    ensures multiset(r) == multiset(s) + multiset{l}
    ensures |r| == |s| + 1
    decreases |s|
  {
    if |s| == 0 then [l]
    else if l.elevation <= s[0].elevation then [l] + s
    else
      var rest := InsertByElevation(l, s[1..]);
      assert forall m :: m in rest ==> s[0].elevation <= m.elevation by {
        forall m | m in rest
          ensures s[0].elevation <= m.elevation
        {
          assert m in multiset(rest);
          assert m == l || m in multiset(s[1..]);
        }
      }
      assert s == [s[0]] + s[1..];
      [s[0]] + rest
  }

  /**
   * The ordering step of the level fallback (the levels sorted by
   * elevation): the result is ascending and a permutation of the input.
   */
  function SortByElevation(s: seq<Level>): (r: seq<Level>)
    ensures SortedByElevation(r)
    ensures multiset(r) == multiset(s)
    decreases |s|
  {
    if |s| == 0 then []
    else
      assert s == [s[0]] + s[1..];
      InsertByElevation(s[0], SortByElevation(s[1..]))
  }
}
