/** Search in a bitonic array: find the peak by a binary search on the
    slope, then binary-search the ascending part up to the peak and the
    descending part after it. The Java and C++ programs run the same
    algorithm step for step, so one model serves both. */
module BitonicSearch {
  import opened Wrappers

  /** Strictly increasing up to position p and strictly decreasing from p:
      a bitonic array of distinct values with its peak at p. */
  ghost predicate Bitonic(a: seq<int>, p: int) {
    && 0 <= p < |a|
    && (forall i, j :: 0 <= i < j <= p ==> a[i] < a[j])
    && (forall i, j :: p <= i < j < |a| ==> a[i] > a[j])
  }

  ghost predicate Ascending(a: seq<int>, low: int, high: int)
    requires 0 <= low && high < |a|
  {
    forall i, j :: low <= i < j <= high ==> a[i] < a[j]
  }

  ghost predicate Descending(a: seq<int>, low: int, high: int)
    requires 0 <= low && high < |a|
  {
    forall i, j :: low <= i < j <= high ==> a[i] > a[j]
  }

  /** The peak of a bitonic array is its maximum. */
  lemma PeakIsMaximum(a: seq<int>, p: int)
    requires Bitonic(a, p)
    ensures forall i :: 0 <= i < |a| ==> a[i] <= a[p]
  {
  }

  /** findPeak: empty for an empty array, 0 for one element, the larger of
      two; otherwise a bisection that stops early at a local maximum,
      moves right while the slope rises, and moves left otherwise. */
  method FindPeak(a: seq<int>) returns (r: Option<int>)
    ensures r.None? <==> |a| == 0
    ensures r.Some? ==> 0 <= r.value < |a|
    ensures |a| == 2 ==> r.Some? && (a[0] > a[1] <==> r.value == 0)
    ensures forall p :: Bitonic(a, p) ==> r == Some(p)
  {
    if |a| == 0 {
      return None;
    }
    if |a| == 1 {
      return Some(0);
    }
    if |a| == 2 {
      return if a[0] > a[1] then Some(0) else Some(1);
    }
    var low, high := 0, |a| - 1;
    while low < high
      invariant 0 <= low <= high < |a|
      invariant forall p :: Bitonic(a, p) ==> low <= p <= high && (high < |a| - 1 && low < high ==> p < high)
      decreases high - low
    {
      var mid := low + (high - low) / 2;
      var inBounds := 0 < mid < |a| - 1;
      if inBounds && a[mid] > a[mid + 1] && a[mid] > a[mid - 1] {
        PeakAtLocalMaximum(a, mid);
        return Some(mid);
      }
      if inBounds && a[mid] < a[mid + 1] {
        low := mid + 1;
      } else {
        high := mid;
      }
    }
    return Some(low);
  }

  /** In a bitonic array a strict local maximum is the peak. */
  lemma PeakAtLocalMaximum(a: seq<int>, m: int)
    requires 0 < m < |a| - 1 && a[m] > a[m + 1] && a[m] > a[m - 1]
    ensures forall p :: Bitonic(a, p) ==> p == m
  {
  }

  /** searchBinary(low, high): a binary search of a[low..high] in the given
      direction. A hit is always genuine; on a range sorted in that
      direction a miss is too. */
  method SearchBinary(a: seq<int>, low: int, high: int, target: int, ascending: bool) returns (found: bool)
    requires low <= high ==> 0 <= low && high < |a|
    ensures found ==> exists i :: low <= i <= high && a[i] == target
    ensures low <= high && ascending && Ascending(a, low, high) ==>
      (found <==> exists i :: low <= i <= high && a[i] == target)
    ensures low <= high && !ascending && Descending(a, low, high) ==>
      (found <==> exists i :: low <= i <= high && a[i] == target)
  {
    var lo, hi := low, high;
    while lo <= hi
      invariant low <= lo && hi <= high
      invariant (ascending && low <= high && Ascending(a, low, high)) || (!ascending && low <= high && Descending(a, low, high)) ==>
        forall i :: low <= i <= high && a[i] == target ==> lo <= i <= hi
      decreases hi - lo
    {
      var mid := lo + (hi - lo) / 2;
      if a[mid] == target {
        return true;
      }
      if ascending {
        if a[mid] < target {
          lo := mid + 1;
        } else {
          hi := mid - 1;
        }
      } else {
        if a[mid] > target {
          lo := mid + 1;
        } else {
          hi := mid - 1;
        }
      }
    }
    return false;
  }

  /** search: false for an empty array; otherwise the ascending search up to
      the peak or the descending search after it. A hit is always genuine,
      and on a bitonic array the answer is exactly membership. */
  method Search(a: seq<int>, target: int) returns (found: bool)
    ensures found ==> target in a
    ensures forall p :: Bitonic(a, p) ==> (found <==> target in a)
  {
    var peak := FindPeak(a);
    if peak.None? {
      return false;
    }
    var p := peak.value;
    found := SearchBinary(a, 0, p, target, true);
    if !found {
      found := SearchBinary(a, p + 1, |a| - 1, target, false);
    }
    forall q | Bitonic(a, q) ensures found <==> target in a {
      assert q == p;
      assert Ascending(a, 0, p);
      if p + 1 <= |a| - 1 {
        assert Descending(a, p + 1, |a| - 1);
      }
      if target in a {
        var i :| 0 <= i < |a| && a[i] == target;
      }
    }
  }
}
