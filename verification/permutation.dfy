/** Whether one integer array is a permutation of another, decided with a
    hash map of occurrence counts: count up over a, count down over b, then
    check that every count is back to zero. The map is a Dafny map from value
    to count; the int32_t counters cannot overflow, since no count exceeds the
    array length. */
module Permutation {

  /** IsPermutation(a, b): true exactly when a and b hold the same values
      the same number of times. */
  method IsPermutation(a: seq<int>, b: seq<int>) returns (r: bool)
    ensures r <==> multiset(a) == multiset(b)
    ensures |a| == 0 && |b| == 0 ==> r
    ensures |a| != |b| ==> !r
  {
    if |a| == 0 && |b| == 0 {
      return true;
    }
    if |a| == 0 || |b| == 0 || |a| != |b| {
      SizesDiffer(a, b);
      return false;
    }
    var counts := CountUp(a);
    var ok, rest := CountDown(a, b, counts);
    if !ok {
      return false;
    }
    // once b has been counted down without failure, the final check that
    // every count is zero always succeeds
    EqualSizes(a, b);
    r := forall v :: v in rest ==> rest[v] == 0;
  }

  /** The first loop: the number of occurrences of every value of a. */
  method CountUp(a: seq<int>) returns (counts: map<int, int>)
    ensures forall v :: v in counts <==> v in multiset(a)
    ensures forall v :: v in counts ==> counts[v] == multiset(a)[v]
  {
    counts := map[];
    var i := 0;
    while i < |a|
      invariant 0 <= i <= |a|
      invariant forall v :: v in counts <==> v in multiset(a[..i])
      invariant forall v :: v in counts ==> counts[v] == multiset(a[..i])[v]
    {
      assert a[..i + 1] == a[..i] + [a[i]];
      counts := counts[a[i] := if a[i] in counts then counts[a[i]] + 1 else 1];
      i := i + 1;
    }
    assert a[..|a|] == a;
  }

  /** The second loop: decrement the count of every element of b, failing
      on a value a lacks or on a count that drops below zero. */
  method CountDown(a: seq<int>, b: seq<int>, counts: map<int, int>) returns (ok: bool, rest: map<int, int>)
    requires forall v :: v in counts <==> v in multiset(a)
    requires forall v :: v in counts ==> counts[v] == multiset(a)[v]
    ensures !ok ==> multiset(a) != multiset(b)
    ensures ok ==> multiset(b) <= multiset(a)
    ensures ok ==> forall v :: v in rest <==> v in multiset(a)
    ensures ok ==> forall v :: v in rest ==> rest[v] + multiset(b)[v] == multiset(a)[v]
  {
    rest := counts;
    var j := 0;
    assert b[..0] == [];
    while j < |b|
      invariant 0 <= j <= |b|
      invariant Remaining(a, b[..j], rest)
    {
      var entry := b[j];
      if entry !in rest {
        assert entry in multiset(b) by {
          assert b == b[..j] + [entry] + b[j + 1..];
        }
        return false, rest;
      }
      if rest[entry] - 1 < 0 {
        Overdrawn(a, b, j, rest);
        return false, rest;
      }
      CountDownStep(a, b, j, rest);
      rest := rest[entry := rest[entry] - 1];
      j := j + 1;
    }
    assert b[..|b|] == b;
    return true, rest;
  }

  /** rest holds, for every value of a, its count in a less its count in
      the part `done` of b counted down so far. */
  ghost predicate Remaining(a: seq<int>, done: seq<int>, rest: map<int, int>) {
    && (forall v :: v in rest <==> v in multiset(a))
    && (forall v :: v in rest ==> rest[v] + multiset(done)[v] == multiset(a)[v])
    && multiset(done) <= multiset(a)
  }

  /** Counting down one more element of b that a still has keeps the
      invariant. */
  lemma CountDownStep(a: seq<int>, b: seq<int>, j: int, rest: map<int, int>)
    requires 0 <= j < |b| && Remaining(a, b[..j], rest)
    requires b[j] in rest && rest[b[j]] >= 1
    ensures Remaining(a, b[..j + 1], rest[b[j] := rest[b[j]] - 1])
  {
    var x, done := b[j], b[..j];
    assert b[..j + 1] == done + [x];
    assert multiset(done + [x]) == multiset(done) + multiset{x};
    forall v ensures multiset(done + [x])[v] <= multiset(a)[v] {
      if v == x {
        assert multiset(done + [x])[v] == multiset(done)[v] + 1;
      } else {
        assert multiset(done + [x])[v] == multiset(done)[v];
      }
    }
  }

  /** A count that would drop below zero shows that b has more copies of a
      value than a. */
  lemma Overdrawn(a: seq<int>, b: seq<int>, j: int, rest: map<int, int>)
    requires 0 <= j < |b| && Remaining(a, b[..j], rest)
    requires b[j] in rest && rest[b[j]] < 1
    ensures multiset(a) != multiset(b)
  {
    var x, done := b[j], b[..j];
    assert rest[x] + multiset(done)[x] == multiset(a)[x];
    assert b[..j + 1] == done + [x];
    assert multiset(done + [x])[x] == multiset(done)[x] + 1;
    SubMultisetOfPrefix(b, j + 1, a);
  }

  /** Sequences of different lengths are not permutations of each other. */
  lemma SizesDiffer(a: seq<int>, b: seq<int>)
    requires |a| != |b|
    ensures multiset(a) != multiset(b)
  {
    assert |multiset(a)| == |a| && |multiset(b)| == |b|;
  }

  /** An element counted more often in a prefix of b than in a is counted
      more often in b too. */
  lemma SubMultisetOfPrefix(b: seq<int>, j: int, a: seq<int>)
    requires 0 <= j <= |b| && !(multiset(b[..j]) <= multiset(a))
    ensures multiset(b) != multiset(a)
  {
    assert b == b[..j] + b[j..];
    assert multiset(b) == multiset(b[..j]) + multiset(b[j..]);
  }

  /** A sub-multiset of the same size is the whole multiset. */
  lemma EqualSizes(a: seq<int>, b: seq<int>)
    requires |a| == |b| && multiset(b) <= multiset(a)
    ensures multiset(a) == multiset(b)
  {
    var d := multiset(a) - multiset(b);
    assert multiset(a) == multiset(b) + d;
    assert |d| == 0;
    assert d == multiset{};
    forall v ensures multiset(a)[v] == multiset(b)[v] {
      assert d[v] == 0;
    }
  }

  /** The program's test with duplicates: {1, 1, 2, 2} and {2, 2, 1, 1}
      hold the same values; {1, 2, 3} and {1, 2, 2} do not. */
  lemma DuplicateScenarios()
    ensures multiset([1, 1, 2, 2]) == multiset([2, 2, 1, 1])
    ensures multiset([1, 2, 3]) != multiset([1, 2, 2])
  {
    assert 3 in multiset([1, 2, 3]);
  }
}
