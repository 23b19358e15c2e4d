/** The library shuffles the randomized queues rely on (algs4's
    StdRandom.shuffle and std::shuffle) are not part of this model. Their
    random draws become a parameter: `offsets[i]` says that step i swaps
    position i with position i + offsets[i], as in the Fisher-Yates shuffle
    that draws uniformly from [i, n). */
module Shuffle {
  import opened Sequences

  /** Offsets fit for a sequence of length n: step i stays inside [i, n). */
  predicate ValidOffsets(offsets: seq<int>, n: int) {
    |offsets| == n && forall i :: 0 <= i < n ==> 0 <= offsets[i] < n - i
  }

  /** Fisher-Yates: fix position 0 by a swap, then shuffle the rest. */
  function Shuffle<T>(s: seq<T>, offsets: seq<int>): (r: seq<T>)
    requires ValidOffsets(offsets, |s|)
    ensures |r| == |s| && multiset(r) == multiset(s)
    decreases |s|
  {
    if |s| == 0 then []
    else
      var t := Swap(s, 0, offsets[0]);
      var rest := Shuffle(t[1..], offsets[1..]);
      assert t == [t[0]] + t[1..];
      [t[0]] + rest
  }

  /** Removing equal heads from two rearrangements of each other leaves
      rearrangements of each other. */
  lemma TailsPermuted<T>(u: seq<T>, t: seq<T>)
    requires |u| > 0 && |t| > 0 && u[0] == t[0] && multiset(u) == multiset(t)
    ensures multiset(u[1..]) == multiset(t[1..])
  {
    assert u == [u[0]] + u[1..];
    assert t == [t[0]] + t[1..];
    assert multiset(u) == multiset{u[0]} + multiset(u[1..]);
    assert multiset(t) == multiset{t[0]} + multiset(t[1..]);
    assert multiset(u[1..]) == multiset(u) - multiset{u[0]};
    assert multiset(t[1..]) == multiset(t) - multiset{t[0]};
  }

  /** One step of the shuffle, unfolded. */
  lemma ShuffleHead<T>(s: seq<T>, offsets: seq<int>)
    requires |s| > 0 && ValidOffsets(offsets, |s|)
    ensures Shuffle(s, offsets) == [Swap(s, 0, offsets[0])[0]] + Shuffle(Swap(s, 0, offsets[0])[1..], offsets[1..])
  {
  }

  /** Prepending the first swap to offsets that shuffle the rest. */
  lemma PrependStep<T>(s: seq<T>, t: seq<T>, r: int, rest: seq<int>)
    requires 0 <= r < |s| == |t| && s[r] == t[0]
    requires ValidOffsets(rest, |s| - 1) && Shuffle(Swap(s, 0, r)[1..], rest) == t[1..]
    ensures ValidOffsets([r] + rest, |s|) && Shuffle(s, [r] + rest) == t
  {
    var offsets := [r] + rest;
    assert offsets[0] == r && offsets[1..] == rest;
    assert ValidOffsets(offsets, |s|) by {
      forall i | 0 < i < |s| ensures 0 <= offsets[i] < |s| - i {
        assert offsets[i] == rest[i - 1];
      }
    }
    var u := Swap(s, 0, r);
    assert Shuffle(s, offsets) == [u[0]] + t[1..] by {
      ShuffleHead(s, offsets);
    }
    assert u[0] == t[0];
    assert t == [t[0]] + t[1..];
  }

  /** Every rearrangement of s is the outcome of some offsets, so taking the
      offsets as a parameter leaves no order of the items unmodelled. */
  lemma {:induction false} EveryPermutationReachable<T>(s: seq<T>, t: seq<T>) returns (offsets: seq<int>)
    requires multiset(t) == multiset(s)
    ensures ValidOffsets(offsets, |s|) && Shuffle(s, offsets) == t
    decreases |s|
  {
    assert |t| == |s| by {
      assert |t| == |multiset(t)|;
    }
    if |s| == 0 {
      offsets := [];
    } else {
      assert t[0] in multiset(s) by {
        assert t[0] in multiset(t);
      }
      var r :| 0 <= r < |s| && s[r] == t[0];
      TailsPermuted(Swap(s, 0, r), t);
      var rest := EveryPermutationReachable(Swap(s, 0, r)[1..], t[1..]);
      PrependStep(s, t, r, rest);
      offsets := [r] + rest;
    }
  }
}
