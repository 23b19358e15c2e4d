/** Egg drop: find the lowest floor of an n-floor building from which an
    egg breaks. The program's eggBrakesAt fixes the breaking point at floor
    10 "only for testing"; here the breaking point t is a parameter (at
    least the ground floor 1), so every search is proved for every
    building and every breaking point. The floor counts are int32_t in the
    program; the segment size of version 1 and the step of version 3 come
    from floating-point log2/sqrt and are parameters too. */
module EggDrop {
  import opened Wrappers

  const GroundLevel := 1
  /** The breaking point the program uses. */
  const BreakingPoint := 10
  const Int32Max := 0x7fff_ffff
  const Int32Min := -0x8000_0000

  /** eggBrakesAt(floor) for breaking point t. */
  predicate Breaks(t: int, floor: int) {
    floor >= t
  }

  function Min(a: int, b: int): int {
    if a <= b then a else b
  }

  function Pow2(e: nat): (p: nat)
    ensures p >= 1
  {
    if e == 0 then 1 else 2 * Pow2(e - 1)
  }

  /** A double converted to int32_t. Out of range the conversion is
      undefined behaviour; x86's cvttsd2si, which compilers emit for it,
      yields INT32_MIN. */
  function CastToInt32(x: int): int {
    if Int32Min <= x <= Int32Max then x else Int32Min
  }

  /** version0: drop from floors 1, 2, ... n in turn; the first floor that
      breaks, or nothing. */
  method Version0(t: int, n: int) returns (r: Option<int>)
    requires GroundLevel <= t
    ensures r == if t <= n then Some(t) else None
  {
    var i := GroundLevel;
    while i <= n
      invariant GroundLevel <= i <= t
    {
      if Breaks(t, i) {
        return Some(i);
      }
      i := i + 1;
    }
    return None;
  }

  /** binarySearch(low, high): the lowest breaking floor in [low, high], or
      high + 1 when none breaks; low itself when the range is inverted. */
  method BinarySearch(t: int, low: int, high: int) returns (r: int)
    ensures low > high + 1 ==> r == low
    ensures low <= high + 1 ==> low <= r <= high + 1
    ensures low <= high + 1 ==> (r <= high ==> Breaks(t, r)) && forall f :: low <= f < r ==> !Breaks(t, f)
  {
    var lo, hi := low, high;
    while lo <= hi
      invariant low <= lo && hi <= high && (low <= high + 1 ==> lo <= hi + 1)
      invariant forall f :: low <= f < lo ==> !Breaks(t, f)
      invariant hi < high ==> Breaks(t, hi + 1)
      invariant low > high + 1 ==> lo == low
      decreases hi - lo
    {
      var mid := lo + (hi - lo) / 2;
      if Breaks(t, mid) {
        hi := mid - 1;
      } else {
        lo := mid + 1;
      }
    }
    return lo;
  }

  /** With a threshold predicate the binary search lands on the breaking
      point clamped into [low, high + 1]. */
  lemma BinarySearchClamps(t: int, low: int, high: int, r: int)
    requires low <= high + 1 && low <= r <= high + 1
    requires (r <= high ==> Breaks(t, r)) && forall f :: low <= f < r ==> !Breaks(t, f)
    ensures r == if t <= low then low else Min(t, high + 1)
  {
    if low < r {
      assert !Breaks(t, r - 1);
    }
  }

  /** linearSearch(low, high): the first breaking floor in [low, high], or
      -1. */
  method LinearSearch(t: int, low: int, high: int) returns (r: int)
    ensures r == -1 || (low <= r <= high && Breaks(t, r) && forall f :: low <= f < r ==> !Breaks(t, f))
    ensures 0 <= low ==> (r == -1 <==> forall f :: low <= f <= high ==> !Breaks(t, f))
  {
    var i := low;
    while i <= high
      invariant low <= i && (i <= high + 1 || high < low)
      invariant forall f :: low <= f < i ==> !Breaks(t, f)
      decreases high - i
    {
      if Breaks(t, i) {
        return i;
      }
      i := i + 1;
    }
    return -1;
  }

  /** version1 as written, stopped after at most `rounds` probes. For an
      empty building the segment size ceil(0 / log2 0) is 0 (log2 0 is
      minus infinity), so the probe stays at floor 0, which never breaks:
      however many rounds run, the loop condition still holds. */
  method Version1AsWritten(t: int, n: int, seg: int, rounds: nat) returns (current: int)
    requires GroundLevel <= t
    ensures seg == 0 && 0 <= n ==> current == 0 && current <= n && !Breaks(t, current)
    ensures 1 <= seg ==> seg <= current
  {
    current := seg;
    var i := 0;
    while i < rounds && current <= n && !Breaks(t, current)
      invariant 0 <= i <= rounds
      invariant seg == 0 ==> current == 0
      invariant 1 <= seg ==> seg <= current
    {
      current := current + seg;
      i := i + 1;
    }
  }

  /** version1 with the segment size raised to at least 1: probe every
      seg-th floor until one breaks or the building ends, then
      binary-search the last segment. It always returns a value: when no
      floor breaks it is n + 1. For seg >= 1 this is the program's code. */
  method Version1(t: int, n: int, seg: int) returns (r: Option<int>)
    requires GroundLevel <= t
    ensures 0 <= n ==> r == Some(if t <= n then t else n + 1)
  {
    var step := if seg < 1 then 1 else seg;
    var current := step;
    ghost var k := 1;
    while current <= n && !Breaks(t, current)
      invariant current == k * step && 1 <= k
      invariant current - step <= n || n < 0
      invariant current - step < t
      decreases n - current
    {
      current := current + step;
      k := k + 1;
    }
    var low := current - step;
    var high := Min(current, n);
    var b := BinarySearch(t, low, high);
    if 0 <= n {
      BinarySearchClamps(t, low, high, b);
    }
    return Some(b);
  }

  /** The exponential probe of version2: floors 1, 2, 4, ... while the
      power is at most n, the egg survives, and the exponent is below 31. */
  method ProbePowers(t: int, n: int) returns (exp: nat)
    requires GroundLevel <= t
    ensures exp <= 31
    ensures forall j :: 0 <= j < exp ==> Pow2(j) <= n && !Breaks(t, Pow2(j))
    ensures exp < 31 ==> n < Pow2(exp) || Breaks(t, Pow2(exp))
  {
    exp := 0;
    while exp < 31 && Pow2(exp) <= n && !Breaks(t, Pow2(exp))
      invariant exp <= 31
      invariant forall j :: 0 <= j < exp ==> Pow2(j) <= n && !Breaks(t, Pow2(j))
    {
      exp := exp + 1;
    }
  }

  /** version2 as written: the upper border is min(n, int32_t(2^exp)). When
      the probe runs to exp == 31, 2^31 does not fit in int32_t and the
      border becomes INT32_MIN, so the binary search returns its lower
      border 2^30 -- a floor that does not break. A building without floors
      stops the probe at once and searches the empty range [1, n], which
      answers 1. */
  method Version2AsWritten(t: int, n: int) returns (r: int)
    requires GroundLevel <= t && n <= Int32Max
    ensures Pow2(30) <= n && Pow2(30) < t ==> r == Pow2(30) && !Breaks(t, r)
    ensures n < GroundLevel ==> r == 1
    ensures GroundLevel <= n && !(Pow2(30) <= n && Pow2(30) < t) ==> r == Min(t, n + 1)
  {
    var exp := ProbePowers(t, n);
    var low := if exp == 0 then 1 else Pow2(exp - 1);
    var high := Min(n, CastToInt32(Pow2(exp)));
    r := BinarySearch(t, low, high);
    if exp == 31 {
      Pow2Int32();
      assert Pow2(30) <= n && !Breaks(t, Pow2(30));
    } else {
      Pow2Int32();
      if exp > 0 {
        assert Pow2(exp - 1) <= n && !Breaks(t, Pow2(exp - 1));
      }
      assert Pow2(exp) <= Pow2(30) by { PowMonotone(exp, 30); }
      assert CastToInt32(Pow2(exp)) == Pow2(exp);
      assert !(Pow2(30) <= n && Pow2(30) < t);
      if GroundLevel <= n {
        BinarySearchClamps(t, low, high, r);
      }
    }
  }

  lemma {:induction false} Pow2Add(a: nat, b: nat)
    ensures Pow2(a + b) == Pow2(a) * Pow2(b)
    decreases a
  {
    if a > 0 {
      Pow2Add(a - 1, b);
    }
  }

  /** 2^30 is the largest power of two that fits in int32_t. */
  lemma Pow2Int32()
    ensures Pow2(30) == 0x4000_0000 && Pow2(31) == Int32Max + 1
  {
    assert Pow2(4) == 16 && Pow2(2) == 4;
    Pow2Add(4, 4);
    Pow2Add(8, 8);
    Pow2Add(16, 8);
    Pow2Add(24, 4);
    Pow2Add(28, 2);
  }

  lemma {:induction false} PowMonotone(i: nat, j: nat)
    requires i <= j
    ensures Pow2(i) <= Pow2(j)
    decreases j - i
  {
    if i < j {
      PowMonotone(i, j - 1);
    }
  }

  /** version2 with the upper border computed without the narrowing cast:
      the exponential probe followed by the binary search finds the
      breaking point, or n + 1 when no floor of the building breaks; a
      building without floors answers 1, the lower border. */
  method Version2(t: int, n: int) returns (r: int)
    requires GroundLevel <= t && n <= Int32Max
    ensures r == if n < GroundLevel then 1 else Min(t, n + 1)
  {
    var exp := ProbePowers(t, n);
    var low := if exp == 0 then 1 else Pow2(exp - 1);
    var high := Min(n, Pow2(exp));
    r := BinarySearch(t, low, high);
    if exp == 31 {
      Pow2Int32();
    }
    if exp > 0 {
      assert Pow2(exp - 1) <= n && !Breaks(t, Pow2(exp - 1));
    }
    if GroundLevel <= n {
      BinarySearchClamps(t, low, high, r);
    }
  }

  /** version3: probe floors 0, step, 2 step, ... below n until one breaks,
      then search the last stretch floor by floor. */
  method Version3(t: int, n: int, step: int) returns (r: int)
    requires GroundLevel <= t && 1 <= step
    ensures r == if t <= n then t else -1
  {
    var level := 0;
    while level < n
      invariant level == 0 || (step <= level && level - step < n)
      invariant level > 0 ==> !Breaks(t, level - step)
      decreases n - level
    {
      if Breaks(t, level) {
        break;
      }
      level := level + step;
    }
    var low := if level == 0 then 1 else level - step;
    var high := Min(n, level);
    r := LinearSearch(t, low, high);
    assert low <= t && 0 <= low && Breaks(t, t);
    if t <= n {
      assert low <= t <= high;
    }
    assert r != -1 ==> !(low <= t < r);
  }

  /** The program's test: with the egg breaking from floor 10 of 100, every
      version finds floor 10. The segment size 16 is ceil(100 / log2(100))
      and the step 10 is ceil(sqrt(100)). */
  method HundredFloors() returns (r0: Option<int>, r1: Option<int>, r2: int, r3: int)
    ensures r0 == Some(10) && r1 == Some(10) && r2 == 10 && r3 == 10
  {
    r0 := Version0(BreakingPoint, 100);
    r1 := Version1(BreakingPoint, 100, 16);
    r2 := Version2(BreakingPoint, 100);
    r3 := Version3(BreakingPoint, 100, 10);
  }
}
