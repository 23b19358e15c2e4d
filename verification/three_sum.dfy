/** Two Sum and Three Sum over integer arrays. The Java and C++ programs run
    the same algorithms: twoSum scans once with a hash map from value to the
    latest index holding it; threeSum sorts, then runs two pointers inward
    for every first element. Integers are unbounded here (the programs'
    int/int32_t sums are assumed not to overflow). */
module ThreeSum {
  import opened Wrappers

  /* ---------------------------------------------------------------- */
  /* twoSum                                                            */
  /* ---------------------------------------------------------------- */

  /** Indices i < j whose elements add up to target. */
  predicate IsPair(arr: seq<int>, target: int, i: int, j: int) {
    0 <= i < j < |arr| && arr[i] + arr[j] == target
  }

  /** twoSum: Some((i, j)) for the first j that completes a pair, with i the
      latest earlier index holding the complement (the map keeps the last
      index put for each value); None when no pair adds up to target. The
      Java method returns [i, j] or an empty list, the C++ one {i, j} or {}. */
  method TwoSum(arr: seq<int>, target: int) returns (r: Option<(int, int)>)
    ensures r.Some? ==> IsPair(arr, target, r.value.0, r.value.1)
    ensures r.None? <==> forall i, j :: 0 <= i < j < |arr| ==> arr[i] + arr[j] != target
    ensures r.Some? ==> forall i, j :: 0 <= i < j < r.value.1 ==> arr[i] + arr[j] != target
    ensures r.Some? ==> forall k :: r.value.0 < k < r.value.1 ==> arr[k] != arr[r.value.0]
  {
    var seen: map<int, int> := map[];
    var i := 0;
    while i < |arr|
      invariant 0 <= i <= |arr|
      invariant forall k :: 0 <= k < i ==> arr[k] in seen
      invariant forall v :: v in seen ==> 0 <= seen[v] < i && arr[seen[v]] == v
      invariant forall v, k :: v in seen && seen[v] < k < i ==> arr[k] != v
      invariant forall p, q :: 0 <= p < q < i ==> arr[p] + arr[q] != target
    {
      var complement := target - arr[i];
      if complement in seen {
        return Some((seen[complement], i));
      }
      seen := seen[arr[i] := i];
      i := i + 1;
    }
    return None;
  }

  /* ---------------------------------------------------------------- */
  /* Sorting (Arrays.sort / std::sort)                                 */
  /* ---------------------------------------------------------------- */

  predicate Sorted(s: seq<int>) {
    forall i, j :: 0 <= i < j < |s| ==> s[i] <= s[j]
  }

  /** x inserted into a sorted sequence. */
  function Insert(x: int, s: seq<int>): (r: seq<int>)
    requires Sorted(s)
    ensures Sorted(r) && multiset(r) == multiset(s) + multiset{x}
  {
    if |s| == 0 || x <= s[0] then
      HeadBelowAll(x, s, multiset(s));
      [x] + s
    else
      var rest := Insert(x, s[1..]);
      TailMultiset(s);
      HeadIsMin(s);
      HeadBelowAll(s[0], rest, multiset(s[1..]) + multiset{x});
      [s[0]] + rest
  }

  /** The multiset of a non-empty sequence's tail. */
  lemma TailMultiset(s: seq<int>)
    requires |s| > 0
    ensures multiset(s[1..]) == multiset(s) - multiset{s[0]}
    ensures multiset(s) == multiset(s[1..]) + multiset{s[0]}
  {
    assert s == [s[0]] + s[1..];
  }

  /** The head of a sorted sequence is its least element. */
  lemma HeadIsMin(s: seq<int>)
    requires Sorted(s) && |s| > 0
    ensures forall v :: v in multiset(s) ==> s[0] <= v
  {
    forall v | v in multiset(s) ensures s[0] <= v {
      var j :| 0 <= j < |s| && s[j] == v;
    }
  }

  /** A value no larger than every element put in front of a sorted
      sequence keeps it sorted. */
  lemma HeadBelowAll(h: int, rest: seq<int>, pool: multiset<int>)
    requires Sorted(rest) && multiset(rest) == pool
    requires forall v :: v in pool ==> h <= v
    ensures Sorted([h] + rest)
  {
    var r := [h] + rest;
    forall i, j | 0 <= i < j < |r| ensures r[i] <= r[j] {
      if i == 0 {
        assert r[j] == rest[j - 1] && rest[j - 1] in multiset(rest);
      } else {
        assert r[i] == rest[i - 1] && r[j] == rest[j - 1];
      }
    }
  }

  /** The library sort: the sorted permutation of s. The libraries' sort
      algorithms are not modelled; for integers their result is this one. */
  function Sort(s: seq<int>): (r: seq<int>)
    ensures Sorted(r) && multiset(r) == multiset(s)
  {
    if |s| == 0 then []
    else
      assert s == [s[0]] + s[1..];
      Insert(s[0], Sort(s[1..]))
  }

  /** Two sorted sequences with the same elements are equal, so the sort's
      result does not depend on the algorithm. */
  lemma {:induction false} SortedPermutationUnique(a: seq<int>, b: seq<int>)
    requires Sorted(a) && Sorted(b) && multiset(a) == multiset(b)
    ensures a == b
    decreases |a|
  {
    assert |a| == |multiset(a)| == |b|;
    if |a| > 0 {
      HeadIsMin(a);
      HeadIsMin(b);
      assert a[0] in multiset(b) && b[0] in multiset(a) by {
        assert a[0] in multiset(a) && b[0] in multiset(b);
      }
      assert b[0] <= a[0] && a[0] <= b[0];
      TailMultiset(a);
      TailMultiset(b);
      assert multiset(a[1..]) == multiset(b[1..]) by {
        assert a[0] == b[0];
      }
      TailSorted(a);
      TailSorted(b);
      SortedPermutationUnique(a[1..], b[1..]);
      SameHeadTail(a, b);
    }
  }

  lemma TailSorted(s: seq<int>)
    requires Sorted(s) && |s| > 0
    ensures Sorted(s[1..])
  {
    forall i, j | 0 <= i < j < |s| - 1 ensures s[1..][i] <= s[1..][j] {
      assert s[1..][i] == s[i + 1] && s[1..][j] == s[j + 1];
    }
  }

  /** Sequences with equal heads and equal tails are equal. */
  lemma SameHeadTail<T>(a: seq<T>, b: seq<T>)
    requires |a| > 0 && |b| > 0 && a[0] == b[0] && a[1..] == b[1..]
    ensures a == b
  {
    assert a == [a[0]] + a[1..] && b == [b[0]] + b[1..];
  }

  /* ---------------------------------------------------------------- */
  /* threeSum                                                          */
  /* ---------------------------------------------------------------- */

  datatype Triplet = Triplet(first: int, second: int, third: int)

  /** The value triplets of s at three increasing positions that add up to
      target: what threeSum is meant to return once s is sorted. */
  function Solutions(s: seq<int>, target: int): set<Triplet> {
    set a, b, c | 0 <= a < b < c < |s| && s[a] + s[b] + s[c] == target :: Triplet(s[a], s[b], s[c])
  }

  predicate NoDuplicates(ts: seq<Triplet>) {
    forall x, y :: 0 <= x < y < |ts| ==> ts[x] != ts[y]
  }

  /** One pass of the two pointers for first element s[i]: every new triplet
      sum is appended unless already present. Afterwards every solution
      with first position i is in the result. */
  method PairsFor(s: seq<int>, i: int, target: int, found: seq<Triplet>) returns (r: seq<Triplet>)
    requires Sorted(s) && 0 <= i < |s| && NoDuplicates(found)
    ensures |found| <= |r| && NoDuplicates(r)
    ensures forall k :: 0 <= k < |found| ==> r[k] == found[k]
    ensures forall k :: |found| <= k < |r| ==> r[k].first == s[i] && r[k] in Solutions(s, target)
    ensures forall p, q :: i < p < q < |s| && s[i] + s[p] + s[q] == target ==> Triplet(s[i], s[p], s[q]) in r
  {
    r := found;
    var left, right := i + 1, |s| - 1;
    while left < right
      invariant i + 1 <= left && right <= |s| - 1 && left <= right + 1
      invariant |found| <= |r| && NoDuplicates(r)
      invariant forall k :: 0 <= k < |found| ==> r[k] == found[k]
      invariant forall k :: |found| <= k < |r| ==> r[k].first == s[i] && r[k] in Solutions(s, target)
      invariant forall p, q :: i < p < q < |s| && s[i] + s[p] + s[q] == target ==>
                  (left <= p && q <= right) || Triplet(s[i], s[p], s[q]) in r
      decreases right - left
    {
      var sum := s[i] + s[left] + s[right];
      if sum == target {
        var t := Triplet(s[i], s[left], s[right]);
        assert t in Solutions(s, target);
        if t !in r {
          r := r + [t];
        }
        left, right := left + 1, right - 1;
      } else if sum < target {
        left := left + 1;
      } else {
        right := right - 1;
      }
    }
  }

  /** The set of a sequence of triplets. */
  function Elements(ts: seq<Triplet>): set<Triplet> {
    set k | 0 <= k < |ts| :: ts[k]
  }

  /** A result that holds only solutions and every solution whose first
      position is below bound, with bound at least |s| - 2, holds exactly
      the solutions. */
  lemma AllSolutions(s: seq<int>, target: int, bound: int, r: seq<Triplet>)
    requires |s| <= bound + 2
    requires forall k :: 0 <= k < |r| ==> r[k] in Solutions(s, target)
    requires forall a, p, q :: 0 <= a < bound && a < p < q < |s| && s[a] + s[p] + s[q] == target ==>
               Triplet(s[a], s[p], s[q]) in r
    ensures Elements(r) == Solutions(s, target)
  {
    forall t | t in Solutions(s, target) ensures t in Elements(r) {
      var a, p, q :| 0 <= a < p < q < |s| && s[a] + s[p] + s[q] == target && t == Triplet(s[a], s[p], s[q]);
      var k :| 0 <= k < |r| && r[k] == t;
    }
  }

  /** A result extending before keeps every triplet of before. */
  lemma KeptFound(before: seq<Triplet>, r: seq<Triplet>)
    requires |before| <= |r| && forall k :: 0 <= k < |before| ==> r[k] == before[k]
    ensures forall t :: t in before ==> t in r
  {
    forall t | t in before ensures t in r {
      var k :| 0 <= k < |before| && before[k] == t;
      assert r[k] == t;
    }
  }

  /** Appending solutions keeps a result made of solutions. */
  lemma KeptSolutions(s: seq<int>, target: int, before: seq<Triplet>, r: seq<Triplet>)
    requires |before| <= |r| && forall k :: 0 <= k < |before| ==> r[k] == before[k]
    requires forall k :: 0 <= k < |before| ==> before[k] in Solutions(s, target)
    requires forall k :: |before| <= k < |r| ==> r[k] in Solutions(s, target)
    ensures forall k :: 0 <= k < |r| ==> r[k] in Solutions(s, target)
  {
    forall k | 0 <= k < |before| ensures r[k] in Solutions(s, target) {
      assert r[k] == before[k];
    }
  }

  /** The solutions with first position below i stay in the result, and
      the pass for i adds those with first position i. */
  lemma KeptComplete(s: seq<int>, target: int, i: int, before: seq<Triplet>, r: seq<Triplet>)
    requires 0 <= i
    requires |before| <= |r| && forall k :: 0 <= k < |before| ==> r[k] == before[k]
    requires forall a, p, q :: 0 <= a < i && a < p < q < |s| && s[a] + s[p] + s[q] == target ==>
               Triplet(s[a], s[p], s[q]) in before
    requires forall p, q :: i < p < q < |s| && s[i] + s[p] + s[q] == target ==> Triplet(s[i], s[p], s[q]) in r
    ensures forall a, p, q :: 0 <= a < i + 1 && a < p < q < |s| && s[a] + s[p] + s[q] == target ==>
              Triplet(s[a], s[p], s[q]) in r
  {
    KeptFound(before, r);
  }

  /** Appending triplets whose first element is s[i] keeps the first
      elements in non-decreasing order, and below the next first element. */
  lemma KeptOrdered(s: seq<int>, i: int, before: seq<Triplet>, r: seq<Triplet>)
    requires Sorted(s) && 0 <= i < |s|
    requires |before| <= |r| && forall k :: 0 <= k < |before| ==> r[k] == before[k]
    requires forall k :: |before| <= k < |r| ==> r[k].first == s[i]
    requires forall x, y :: 0 <= x < y < |before| ==> before[x].first <= before[y].first
    requires forall x :: 0 <= x < |before| ==> before[x].first <= s[i]
    ensures forall x, y :: 0 <= x < y < |r| ==> r[x].first <= r[y].first
    ensures i + 1 < |s| ==> forall x :: 0 <= x < |r| ==> r[x].first <= s[i + 1]
  {
  }

  /** What the scan keeps after the passes for first positions below i:
      distinct solutions, all of those with first position below i, first
      elements in non-decreasing order and none above s[i]. */
  predicate ScanInv(s: seq<int>, target: int, i: int, r: seq<Triplet>) {
    && NoDuplicates(r)
    && (forall k :: 0 <= k < |r| ==> r[k] in Solutions(s, target))
    && (forall a, p, q :: 0 <= a < i && a < p < q < |s| && s[a] + s[p] + s[q] == target ==>
          Triplet(s[a], s[p], s[q]) in r)
    && (forall x, y :: 0 <= x < y < |r| ==> r[x].first <= r[y].first)
    && (0 <= i < |s| ==> forall x :: 0 <= x < |r| ==> r[x].first <= s[i])
  }

  /** The pass for i keeps ScanInv. */
  lemma ScanStep(s: seq<int>, target: int, i: int, before: seq<Triplet>, r: seq<Triplet>)
    requires Sorted(s) && 0 <= i < |s| && ScanInv(s, target, i, before)
    requires |before| <= |r| && NoDuplicates(r)
    requires forall k :: 0 <= k < |before| ==> r[k] == before[k]
    requires forall k :: |before| <= k < |r| ==> r[k].first == s[i] && r[k] in Solutions(s, target)
    requires forall p, q :: i < p < q < |s| && s[i] + s[p] + s[q] == target ==> Triplet(s[i], s[p], s[q]) in r
    ensures ScanInv(s, target, i + 1, r)
  {
    KeptSolutions(s, target, before, r);
    KeptComplete(s, target, i, before, r);
    KeptOrdered(s, i, before, r);
  }

  /** The shared body of both threeSum versions: the pointer passes for the
      first elements 0 .. bound - 1 of the sorted array. */
  method Scan(s: seq<int>, target: int, bound: int) returns (r: seq<Triplet>)
    requires Sorted(s) && 0 <= bound <= |s| && |s| <= bound + 2
    ensures NoDuplicates(r)
    ensures Elements(r) == Solutions(s, target)
    ensures forall x, y :: 0 <= x < y < |r| ==> r[x].first <= r[y].first
  {
    r := [];
    var i := 0;
    while i < bound
      invariant 0 <= i <= bound && ScanInv(s, target, i, r)
    {
      var before := r;
      r := PairsFor(s, i, target, r);
      ScanStep(s, target, i, before, r);
      i := i + 1;
    }
    AllSolutions(s, target, bound, r);
  }

  /** Sum.threeSum: fewer than three elements give the empty list and leave
      the array alone; otherwise the array is sorted in place and the result
      holds each value triplet of the sorted array that adds up to target
      exactly once. The Java result is a HashSet copied into a list in
      unspecified order, so it is returned as a set. */
  method ThreeSumJava(arr: seq<int>, target: int) returns (sorted: seq<int>, r: set<Triplet>)
    ensures |arr| < 3 ==> sorted == arr && r == {}
    ensures |arr| >= 3 ==> Sorted(sorted) && multiset(sorted) == multiset(arr)
    ensures r == Solutions(sorted, target)
  {
    if |arr| < 3 {
      return arr, {};
    }
    sorted := Sort(arr);
    var found := Scan(sorted, target, |sorted| - 2);
    r := Elements(found);
  }

  /** threeSum in TwoSum.cpp: as the Java version, but the triplets come in a
      vector in the order they are first discovered, a seen-set dropping the
      repeats; first elements therefore never decrease along the result. */
  method ThreeSumCpp(nums: seq<int>, target: int) returns (sorted: seq<int>, r: seq<Triplet>)
    ensures |nums| < 3 ==> sorted == nums && r == []
    ensures |nums| >= 3 ==> Sorted(sorted) && multiset(sorted) == multiset(nums)
    ensures NoDuplicates(r)
    ensures Elements(r) == Solutions(sorted, target)
    ensures forall x, y :: 0 <= x < y < |r| ==> r[x].first <= r[y].first
  {
    if |nums| < 3 {
      return nums, [];
    }
    sorted := Sort(nums);
    r := Scan(sorted, target, |sorted|);
  }

  /** Every triplet threeSum can return adds up to target and is
      non-decreasing. */
  lemma SolutionsOrdered(s: seq<int>, target: int, t: Triplet)
    requires Sorted(s) && t in Solutions(s, target)
    ensures t.first + t.second + t.third == target
    ensures t.first <= t.second <= t.third
  {
  }

  /* Completeness in terms of the caller's array. */

  /** The three values in non-decreasing order. */
  function Ordered(x: int, y: int, z: int): (t: Triplet)
    ensures t.first <= t.second <= t.third
    ensures multiset{t.first, t.second, t.third} == multiset{x, y, z}
    ensures t.first + t.second + t.third == x + y + z
  {
    if x <= y then
      if y <= z then Triplet(x, y, z)
      else if x <= z then Triplet(x, z, y)
      else Triplet(z, x, y)
    else
      if x <= z then Triplet(y, x, z)
      else if y <= z then Triplet(y, z, x)
      else Triplet(z, y, x)
  }

  /** The values at three increasing positions are a sub-multiset. */
  lemma IncreasingValues(s: seq<int>, i: int, j: int, k: int)
    requires 0 <= i < j < k < |s|
    ensures multiset{s[i], s[j], s[k]} <= multiset(s)
  {
    assert s == s[..i] + [s[i]] + s[i + 1..j] + [s[j]] + s[j + 1..k] + [s[k]] + s[k + 1..];
  }

  /** The values at three distinct positions are a sub-multiset. */
  lemma ThreeValues(s: seq<int>, a: int, b: int, c: int)
    requires 0 <= a < |s| && 0 <= b < |s| && 0 <= c < |s|
    requires a != b && b != c && a != c
    ensures multiset{s[a], s[b], s[c]} <= multiset(s)
  {
    if a < b < c { IncreasingValues(s, a, b, c); }
    else if a < c < b { IncreasingValues(s, a, c, b); }
    else if b < a < c { IncreasingValues(s, b, a, c); }
    else if b < c < a { IncreasingValues(s, b, c, a); }
    else if c < a < b { IncreasingValues(s, c, a, b); }
    else { IncreasingValues(s, c, b, a); }
  }

  /** Positions shifted one to the right. */
  function Shift(idx: seq<int>): (r: seq<int>)
    ensures |r| == |idx| && forall k :: 0 <= k < |idx| ==> r[k] == idx[k] + 1
  {
    seq(|idx|, k requires 0 <= k < |idx| => idx[k] + 1)
  }

  /** When the smallest element of t is not s's first element, s's first
      element is not needed to cover t. */
  lemma DropHead(t: seq<int>, s: seq<int>)
    requires Sorted(t) && Sorted(s) && |t| > 0 && |s| > 0 && t[0] != s[0]
    requires multiset(t) <= multiset(s)
    ensures multiset(t) <= multiset(s[1..])
  {
    assert t[0] in multiset(s) by {
      assert t[0] in multiset(t);
    }
    var j :| 0 <= j < |s| && s[j] == t[0];
    assert s[0] !in multiset(t) by {
      forall k | 0 <= k < |t| ensures t[k] != s[0] {
        assert t[0] <= t[k];
      }
    }
    assert s == [s[0]] + s[1..];
    assert multiset(s) == multiset{s[0]} + multiset(s[1..]);
  }

  /** Matching first elements are removed from both sides together. */
  lemma DropBoth(t: seq<int>, s: seq<int>)
    requires |t| > 0 && |s| > 0 && t[0] == s[0] && multiset(t) <= multiset(s)
    ensures multiset(t[1..]) <= multiset(s[1..])
  {
    assert t == [t[0]] + t[1..] && s == [s[0]] + s[1..];
    assert multiset(t) == multiset{t[0]} + multiset(t[1..]);
    assert multiset(s) == multiset{s[0]} + multiset(s[1..]);
    forall o ensures multiset(t[1..])[o] <= multiset(s[1..])[o] {
      assert multiset(t)[o] <= multiset(s)[o];
    }
  }

  /** A sorted sequence whose elements are among those of a sorted s occurs
      in s at increasing positions. */
  lemma {:induction false} SortedSubMultiset(t: seq<int>, s: seq<int>) returns (idx: seq<int>)
    requires Sorted(t) && Sorted(s) && multiset(t) <= multiset(s)
    ensures |idx| == |t|
    ensures forall k :: 0 <= k < |t| ==> 0 <= idx[k] < |s| && s[idx[k]] == t[k]
    ensures forall k, m :: 0 <= k < m < |t| ==> idx[k] < idx[m]
    decreases |s|
  {
    if |t| == 0 {
      return [];
    }
    assert |s| > 0 by {
      assert t[0] in multiset(t);
      assert t[0] in multiset(s);
    }
    if t[0] == s[0] {
      DropBoth(t, s);
      var rest := SortedSubMultiset(t[1..], s[1..]);
      idx := [0] + Shift(rest);
    } else {
      DropHead(t, s);
      var rest := SortedSubMultiset(t, s[1..]);
      idx := Shift(rest);
    }
  }

  /** The three values, ordered, form a sorted sequence covered by sorted. */
  lemma OrderedCovered(arr: seq<int>, sorted: seq<int>, a: int, b: int, c: int)
    requires multiset(sorted) == multiset(arr)
    requires 0 <= a < |arr| && 0 <= b < |arr| && 0 <= c < |arr|
    requires a != b && b != c && a != c
    ensures var t := Ordered(arr[a], arr[b], arr[c]);
      Sorted([t.first, t.second, t.third]) && multiset([t.first, t.second, t.third]) <= multiset(sorted)
  {
    var t := Ordered(arr[a], arr[b], arr[c]);
    ThreeValues(arr, a, b, c);
    assert multiset([t.first, t.second, t.third]) == multiset{t.first, t.second, t.third};
  }

  lemma InSolutions(s: seq<int>, target: int, x: int, y: int, z: int)
    requires 0 <= x < y < z < |s| && s[x] + s[y] + s[z] == target
    ensures Triplet(s[x], s[y], s[z]) in Solutions(s, target)
  {
  }

  /** The promise of threeSum's doc comment: every triplet of values at
      three distinct positions of the caller's array that adds up to target
      is among the solutions of the sorted array. */
  lemma EveryTripletFound(arr: seq<int>, sorted: seq<int>, target: int, a: int, b: int, c: int)
    requires Sorted(sorted) && multiset(sorted) == multiset(arr)
    requires 0 <= a < |arr| && 0 <= b < |arr| && 0 <= c < |arr|
    requires a != b && b != c && a != c
    requires arr[a] + arr[b] + arr[c] == target
    ensures Ordered(arr[a], arr[b], arr[c]) in Solutions(sorted, target)
  {
    var t := Ordered(arr[a], arr[b], arr[c]);
    var ts := [t.first, t.second, t.third];
    OrderedCovered(arr, sorted, a, b, c);
    var idx := SortedSubMultiset(ts, sorted);
    var x, y, z := idx[0], idx[1], idx[2];
    assert 0 <= x < y < z < |sorted|;
    assert t == Triplet(sorted[x], sorted[y], sorted[z]);
    InSolutions(sorted, target, x, y, z);
  }
}
