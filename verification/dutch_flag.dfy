/** The Dutch national flag problem: sort a vector of RED, WHITE and BLUE
    in place with one three-way partitioning pass (low / mid / high
    pointers). The vector is a sequence here; the method returns the
    vector after the in-place mutation next to the optional copy the
    program returns. */
module DutchFlag {
  import opened Wrappers
  import opened Sequences

  datatype Color = Red | White | Blue

  /** The flag's order: RED before WHITE before BLUE. */
  function Rank(c: Color): int {
    match c
    case Red => 0
    case White => 1
    case Blue => 2
  }

  predicate Sorted(s: seq<Color>) {
    forall i, j :: 0 <= i < j < |s| ==> Rank(s[i]) <= Rank(s[j])
  }

  /** The regions of the partitioning pass: [0, low) is RED, [low, mid) is
      WHITE and (high, |s|) is BLUE. */
  predicate Partitioned(s: seq<Color>, low: int, mid: int, high: int)
    requires 0 <= low <= mid <= |s| && -1 <= high < |s|
  {
    && (forall k :: 0 <= k < low ==> s[k] == Red)
    && (forall k :: low <= k < mid ==> s[k] == White)
    && (forall k :: high < k < |s| ==> s[k] == Blue)
  }

  /** SortDutchFlag(colors): the colors after the pass, and the returned
      copy of them. An empty vector comes back unchanged; otherwise the
      result is the sorted permutation of the input. The nullopt branch of
      the program serves enumerator values outside the three colours, which
      a Color cannot hold, so the result is always present. */
  method SortDutchFlag(colors: seq<Color>) returns (after: seq<Color>, r: Option<seq<Color>>)
    ensures r == Some(after)
    ensures |colors| == 0 ==> after == colors
    ensures Sorted(after) && multiset(after) == multiset(colors)
  {
    after := colors;
    if |colors| == 0 {
      return after, Some(after);
    }
    var low, mid, high := 0, 0, |colors| - 1;
    // high is a size_t: the guard high != 0 keeps --high from wrapping
    while mid <= high && high != 0
      invariant 0 <= low <= mid <= high + 1 <= |after| == |colors| && 0 <= high
      invariant Partitioned(after, low, mid, high)
      invariant multiset(after) == multiset(colors)
      decreases high + 1 - mid
    {
      match after[mid]
      case Red =>
        after := Swap(after, mid, low);
        low, mid := low + 1, mid + 1;
      case White =>
        mid := mid + 1;
      case Blue =>
        after := Swap(after, mid, high);
        high := high - 1;
    }
    PartitionSorted(after, low, mid, high);
    return after, Some(after);
  }

  /** The pass stops with the regions covering everything but at most the
      first element, and that leaves the colors sorted. */
  lemma PartitionSorted(s: seq<Color>, low: int, mid: int, high: int)
    requires 0 <= low <= mid <= high + 1 <= |s|
    requires Partitioned(s, low, mid, high)
    requires mid > high || high == 0
    ensures Sorted(s)
  {
    forall i, j | 0 <= i < j < |s| ensures Rank(s[i]) <= Rank(s[j]) {
      if j > high {
        assert s[j] == Blue;
      } else if i < low {
        assert s[i] == Red;
      } else {
        assert s[i] == White && s[j] == White;
      }
    }
  }

  /** The sorted arrangement of a multiset of colors is unique, so any
      correct sort of the same input gives the same vector. */
  lemma {:induction false} SortedPermutationUnique(a: seq<Color>, b: seq<Color>)
    requires Sorted(a) && Sorted(b) && multiset(a) == multiset(b)
    ensures a == b
    decreases |a|
  {
    assert |a| == |multiset(a)| == |b|;
    if |a| > 0 {
      assert a[0] == b[0] by {
        HeadIsLeast(a);
        HeadIsLeast(b);
        assert a[0] in multiset(a) && b[0] in multiset(b);
      }
      assert multiset(a[1..]) == multiset(b[1..]) by {
        TailMultiset(a);
        TailMultiset(b);
      }
      TailSorted(a);
      TailSorted(b);
      SortedPermutationUnique(a[1..], b[1..]);
      SameHeadTail(a, b);
    }
  }

  /** Sequences with equal heads and equal tails are equal. */
  lemma SameHeadTail(a: seq<Color>, b: seq<Color>)
    requires |a| > 0 && |b| > 0 && a[0] == b[0] && a[1..] == b[1..]
    ensures a == b
  {
    assert a == [a[0]] + a[1..] && b == [b[0]] + b[1..];
  }

  lemma TailMultiset(s: seq<Color>)
    requires |s| > 0
    ensures multiset(s[1..]) == multiset(s) - multiset{s[0]}
  {
    assert s == [s[0]] + s[1..];
  }

  /** The head of a sorted vector has the least rank. */
  lemma HeadIsLeast(s: seq<Color>)
    requires Sorted(s) && |s| > 0
    ensures forall c :: c in multiset(s) ==> Rank(s[0]) <= Rank(c)
  {
    forall c | c in multiset(s) ensures Rank(s[0]) <= Rank(c) {
      var j :| 0 <= j < |s| && s[j] == c;
    }
  }

  lemma TailSorted(s: seq<Color>)
    requires Sorted(s) && |s| > 0
    ensures Sorted(s[1..])
  {
    forall i, j | 0 <= i < j < |s| - 1 ensures Rank(s[1..][i]) <= Rank(s[1..][j]) {
      assert s[1..][i] == s[i + 1] && s[1..][j] == s[j + 1];
    }
  }

  /** The program's first test: whatever sorts WHITE RED BLUE RED WHITE BLUE
      correctly yields RED RED WHITE WHITE BLUE BLUE. */
  lemma MixedScenario(after: seq<Color>)
    requires Sorted(after) && multiset(after) == multiset([White, Red, Blue, Red, White, Blue])
    ensures after == [Red, Red, White, White, Blue, Blue]
  {
    SameColors();
    ExpectedSorted();
    SortedPermutationUnique(after, [Red, Red, White, White, Blue, Blue]);
  }

  /** The test's input and expected output hold the same colors. */
  lemma SameColors()
    ensures multiset([White, Red, Blue, Red, White, Blue]) == multiset([Red, Red, White, White, Blue, Blue])
  {
    assert multiset([Red, Red, White, White, Blue, Blue]) == multiset{Red, Red, White, White, Blue, Blue};
    assert multiset([White, Red, Blue, Red, White, Blue]) == multiset{Red, Red, White, White, Blue, Blue};
  }

  lemma ExpectedSorted()
    ensures Sorted([Red, Red, White, White, Blue, Blue])
  {
    var e := [Red, Red, White, White, Blue, Blue];
    forall i, j | 0 <= i < j < 6 ensures Rank(e[i]) <= Rank(e[j]) {
      assert Rank(e[i]) == i / 2 && Rank(e[j]) == j / 2;
    }
  }
}
