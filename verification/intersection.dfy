/** The number of points of b that also occur in a, for arrays of integer
    coordinate pairs. The program puts a into a hash set and counts the
    elements of b found there; the hash set is a Dafny set here, so only
    equality of pairs matters and the hasher plays no part. */
module Intersection {

  type Coordinates = (int, int)

  /** The positions of b whose point occurs in a. */
  function Hits(a: seq<Coordinates>, b: seq<Coordinates>): set<int> {
    set k | 0 <= k < |b| && b[k] in a
  }

  /** IntersectionTwoDimensional(a, b): the number of positions of b whose
      point occurs somewhere in a. */
  method IntersectionTwoDimensional(a: seq<Coordinates>, b: seq<Coordinates>) returns (count: int)
    ensures count == |Hits(a, b)|
    ensures 0 <= count <= |b|
    ensures |a| == 0 || |b| == 0 ==> count == 0
  {
    if |a| == 0 || |b| == 0 {
      assert Hits(a, b) == {};
      return 0;
    }
    var points: set<Coordinates> := {};
    var i := 0;
    while i < |a|
      invariant 0 <= i <= |a|
      invariant points == set k | 0 <= k < i :: a[k]
    {
      points := points + {a[i]};
      i := i + 1;
    }
    assert forall p :: p in points <==> p in a;
    count := 0;
    var j := 0;
    while j < |b|
      invariant 0 <= j <= |b|
      invariant count == |set k | 0 <= k < j && b[k] in a| && count <= j
    {
      HitsStep(a, b, j);
      if b[j] in points {
        count := count + 1;
      }
      j := j + 1;
    }
  }

  /** Counting one more position of b adds one hit exactly when its point
      occurs in a. */
  lemma HitsStep(a: seq<Coordinates>, b: seq<Coordinates>, j: int)
    requires 0 <= j < |b|
    ensures |set k | 0 <= k < j + 1 && b[k] in a| ==
            |set k | 0 <= k < j && b[k] in a| + (if b[j] in a then 1 else 0)
  {
    var before := set k | 0 <= k < j && b[k] in a;
    var after := set k | 0 <= k < j + 1 && b[k] in a;
    if b[j] in a {
      assert after == before + {j};
    } else {
      assert after == before;
    }
  }

  /** Duplicates in a do not change the count: only the set of a's points
      matters. */
  lemma OnlyPointsOfAMatter(a: seq<Coordinates>, a': seq<Coordinates>, b: seq<Coordinates>)
    requires forall p :: p in a <==> p in a'
    ensures |Hits(a, b)| == |Hits(a', b)|
  {
    assert Hits(a, b) == Hits(a', b);
  }

  /** The program's first test: of (3,4), (7,8), (5,6) two points occur in
      (1,2), (3,4), (5,6). */
  lemma NormalScenario()
    ensures |Hits([(1, 2), (3, 4), (5, 6)], [(3, 4), (7, 8), (5, 6)])| == 2
  {
    var a, b := [(1, 2), (3, 4), (5, 6)], [(3, 4), (7, 8), (5, 6)];
    assert b[0] == a[1] && b[2] == a[2] && b[1] !in a;
    assert Hits(a, b) == {0, 2};
  }

  /** The program's last test: only (2,2) is shared. */
  lemma SingleCommonScenario()
    ensures |Hits([(1, 1), (2, 2)], [(2, 2), (3, 3)])| == 1
  {
    var a, b := [(1, 1), (2, 2)], [(2, 2), (3, 3)];
    assert b[0] == a[1] && b[1] !in a;
    assert Hits(a, b) == {0};
  }
}
