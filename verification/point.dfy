/** A point in the plane with integer coordinates, ordered by y and then x,
    and the slope between two points. The program returns slopes as
    doubles; here a finite slope is the exact fraction dy / dx, and the two
    infinities are their own values. No IEEE rounding is modelled, so two
    different fractions never compare equal here. */
module Points {

  datatype Point = Point(x: int, y: int)

  /** Integer.compare: -1, 0 or 1. */
  function Compare(a: int, b: int): (r: int)
    ensures r == -1 || r == 0 || r == 1
    ensures r < 0 <==> a < b
    ensures r == 0 <==> a == b
  {
    if a < b then -1 else if a == b then 0 else 1
  }

  /** this.compareTo(that): y decides, x breaks ties. */
  function CompareTo(p: Point, q: Point): (r: int)
    ensures r < 0 <==> p.y < q.y || (p.y == q.y && p.x < q.x)
    ensures r > 0 <==> p.y > q.y || (p.y == q.y && p.x > q.x)
    ensures r == 0 <==> p == q
  {
    if p.y == q.y then Compare(p.x, q.x) else Compare(p.y, q.y)
  }

  /** compareTo is antisymmetric ... */
  lemma CompareToAntisymmetric(p: Point, q: Point)
    ensures CompareTo(p, q) < 0 <==> CompareTo(q, p) > 0
    ensures CompareTo(p, q) == 0 <==> CompareTo(q, p) == 0
  {
  }

  /** ... and transitive, so it is a total order. */
  lemma CompareToTransitive(p: Point, q: Point, s: Point)
    requires CompareTo(p, q) <= 0 && CompareTo(q, s) <= 0
    ensures CompareTo(p, s) <= 0
    ensures CompareTo(p, q) < 0 || CompareTo(q, s) < 0 ==> CompareTo(p, s) < 0
  {
  }

  /** A slope as slopeTo returns it: NEGATIVE_INFINITY for the same point,
      POSITIVE_INFINITY for a vertical segment, and otherwise the finite
      value num / den with den > 0 (+0.0 for a horizontal segment). */
  datatype Slope = NegativeInfinity | PositiveInfinity | Finite(num: int, den: int)

  /** this.slopeTo(that). */
  function SlopeTo(p: Point, q: Point): (s: Slope)
    ensures p == q <==> s == NegativeInfinity
    ensures p.x == q.x && p.y != q.y <==> s == PositiveInfinity
    ensures s.Finite? ==> s.den > 0 && s.num * (q.x - p.x) == (q.y - p.y) * s.den
    ensures s.Finite? ==> (s.num == 0 <==> p.y == q.y)
  {
    if p.x == q.x && p.y == q.y then NegativeInfinity
    else if p.x == q.x then PositiveInfinity
    else if p.y == q.y then Finite(0, 1)
    else if q.x > p.x then Finite(q.y - p.y, q.x - p.x)
    else Finite(p.y - q.y, p.x - q.x)
  }

  /** The value of a finite slope as a real number. */
  function Value(s: Slope): real
    requires s.Finite? && s.den > 0
  {
    s.num as real / s.den as real
  }

  /** The order of the extended reals on slopes: negative infinity below
      every finite value, positive infinity above, finite slopes by value. */
  predicate Below(a: Slope, b: Slope)
    requires a.Finite? ==> a.den > 0
    requires b.Finite? ==> b.den > 0
  {
    match (a, b)
    case (NegativeInfinity, _) => !b.NegativeInfinity?
    case (_, PositiveInfinity) => !a.PositiveInfinity?
    case (Finite(_, _), Finite(_, _)) => Value(a) < Value(b)
    case _ => false
  }

  /** Double.compare on the slopes that slopeTo produces: the infinities at
      the ends, finite values by size (cross-multiplied, denominators being
      positive). Negative exactly when a lies below b, positive exactly when
      b lies below a. */
  function CompareSlopes(a: Slope, b: Slope): (r: int)
    requires a.Finite? ==> a.den > 0
    requires b.Finite? ==> b.den > 0
    ensures r == -1 || r == 0 || r == 1
    ensures r < 0 <==> Below(a, b)
    ensures r > 0 <==> Below(b, a)
  {
    if a.Finite? && b.Finite? then
      FractionOrder(a.num, a.den, b.num, b.den);
      FractionOrder(b.num, b.den, a.num, a.den);
      Compare(a.num * b.den, b.num * a.den)
    else
      match (a, b)
      case (NegativeInfinity, NegativeInfinity) => 0
      case (NegativeInfinity, _) => -1
      case (_, NegativeInfinity) => 1
      case (PositiveInfinity, PositiveInfinity) => 0
      case (PositiveInfinity, _) => 1
      case (_, PositiveInfinity) => -1
  }

  /** For positive denominators, n1/d1 < n2/d2 exactly when
      n1 * d2 < n2 * d1. */
  lemma FractionOrder(n1: int, d1: int, n2: int, d2: int)
    requires d1 > 0 && d2 > 0
    ensures (n1 as real / d1 as real < n2 as real / d2 as real) <==> n1 * d2 < n2 * d1
  {
    var x, y := n1 as real / d1 as real, n2 as real / d2 as real;
    assert x * d1 as real == n1 as real;
    assert y * d2 as real == n2 as real;
    var k := d1 as real * d2 as real;
    assert k > 0.0;
    assert (n1 * d2) as real == x * k;
    assert (n2 * d1) as real == y * k;
  }

  /** slopeOrder().compare(q1, q2), the comparator of the invoking point p:
      negative exactly when q1's slope from p lies below q2's, positive
      exactly when it lies above. */
  function SlopeOrder(p: Point, q1: Point, q2: Point): (r: int)
    ensures r < 0 <==> Below(SlopeTo(p, q1), SlopeTo(p, q2))
    ensures r > 0 <==> Below(SlopeTo(p, q2), SlopeTo(p, q1))
  {
    CompareSlopes(SlopeTo(p, q1), SlopeTo(p, q2))
  }

  const Int32Min := -0x8000_0000
  const Int32Max := 0x7fff_ffff

  predicate InInt32(v: int) {
    Int32Min <= v <= Int32Max
  }

  /** Java's int subtraction: the exact difference reduced modulo 2^32
      into the int range. */
  function Wrap32(v: int): (r: int)
    ensures InInt32(r)
    ensures (v - r) % 0x1_0000_0000 == 0
    ensures InInt32(v) ==> r == v
  {
    (v - Int32Min) % 0x1_0000_0000 + Int32Min
  }

  /** slopeTo as Java evaluates it on int coordinates: the differences
      that.y - this.y and that.x - this.x are int expressions, so they wrap
      before the conversion to double and the division. */
  function SlopeToInt32(p: Point, q: Point): (s: Slope)
    requires InInt32(p.x) && InInt32(p.y) && InInt32(q.x) && InInt32(q.y)
    ensures p == q <==> s == NegativeInfinity
    ensures p.x == q.x && p.y != q.y <==> s == PositiveInfinity
    ensures s.Finite? ==> s.den > 0 && s.num * Wrap32(q.x - p.x) == Wrap32(q.y - p.y) * s.den
    ensures s.Finite? ==> (s.num == 0 <==> p.y == q.y)
  {
    if p.x == q.x && p.y == q.y then NegativeInfinity
    else if p.x == q.x then PositiveInfinity
    else if p.y == q.y then Finite(0, 1)
    else
      var dy, dx := Wrap32(q.y - p.y), Wrap32(q.x - p.x);
      if dx > 0 then Finite(dy, dx) else Finite(-dy, -dx)
  }

  /** Whenever both coordinate differences fit in an int, Java's slope is
      the exact one the rest of this module uses. */
  lemma SlopeToInt32Agrees(p: Point, q: Point)
    requires InInt32(p.x) && InInt32(p.y) && InInt32(q.x) && InInt32(q.y)
    requires InInt32(q.x - p.x) && InInt32(q.y - p.y)
    ensures SlopeToInt32(p, q) == SlopeTo(p, q)
  {
  }

  /** A difference that leaves the int range flips the slope's sign, and
      with it the slope order: from (0, -1), the exact slope to
      (1, INT32_MAX) is 2^31, above the slope 1 to (1, 0), but Java's
      wrapped difference makes it -2^31, below it. */
  lemma SlopeOverflowFlipsOrder()
    ensures SlopeToInt32(Point(0, -1), Point(1, Int32Max)) == Finite(Int32Min, 1)
    ensures Below(SlopeTo(Point(0, -1), Point(1, 0)), SlopeTo(Point(0, -1), Point(1, Int32Max)))
    ensures Below(SlopeToInt32(Point(0, -1), Point(1, Int32Max)), SlopeToInt32(Point(0, -1), Point(1, 0)))
  {
  }

  /** The cross product of q1 - p and q2 - p: zero exactly when the three
      points are collinear. */
  function Cross(p: Point, q1: Point, q2: Point): int {
    (q1.x - p.x) * (q2.y - p.y) - (q1.y - p.y) * (q2.x - p.x)
  }

  /** Two points other than p compare equal in p's slope order exactly when
      they lie on one line through p: the property the collinear-points
      searches rely on. */
  lemma SlopeOrderEqualIffCollinear(p: Point, q1: Point, q2: Point)
    requires q1 != p && q2 != p
    ensures SlopeOrder(p, q1, q2) == 0 <==> Cross(p, q1, q2) == 0
  {
    var s1, s2 := SlopeTo(p, q1), SlopeTo(p, q2);
    var dx1, dy1, dx2, dy2 := q1.x - p.x, q1.y - p.y, q2.x - p.x, q2.y - p.y;
    if s1.Finite? && s2.Finite? {
      FiniteEqualIffCross(s1.num, s1.den, s2.num, s2.den, dx1, dy1, dx2, dy2);
    } else if s1.PositiveInfinity? && s2.Finite? {
      assert dx1 == 0 && dy1 != 0 && dx2 != 0;
      assert Cross(p, q1, q2) == -dy1 * dx2;
      NonZeroProduct(dy1, dx2);
    } else if s1.Finite? && s2.PositiveInfinity? {
      assert dx2 == 0 && dy2 != 0 && dx1 != 0;
      assert Cross(p, q1, q2) == dx1 * dy2;
      NonZeroProduct(dx1, dy2);
    }
  }

  lemma NonZeroProduct(a: int, b: int)
    requires a != 0 && b != 0
    ensures a * b != 0 && -a * b != 0
  {
  }

  /** For finite slopes n1/d1 = dy1/dx1 and n2/d2 = dy2/dx2 (dx's nonzero),
      n1 * d2 == n2 * d1 exactly when dx1 * dy2 == dy1 * dx2. */
  lemma FiniteEqualIffCross(n1: int, d1: int, n2: int, d2: int, dx1: int, dy1: int, dx2: int, dy2: int)
    requires d1 > 0 && d2 > 0 && dx1 != 0 && dx2 != 0
    requires n1 * dx1 == dy1 * d1 && n2 * dx2 == dy2 * d2
    ensures n1 * d2 == n2 * d1 <==> dx1 * dy2 - dy1 * dx2 == 0
  {
    // multiply both sides by dx1 * dx2 (nonzero) and by d1 * d2 (positive)
    assert (n1 * d2) * (dx1 * dx2) == (dy1 * d1) * (d2 * dx2) by {
      assert (n1 * d2) * (dx1 * dx2) == (n1 * dx1) * (d2 * dx2);
    }
    assert (n2 * d1) * (dx1 * dx2) == (dy2 * d2) * (d1 * dx1) by {
      assert (n2 * d1) * (dx1 * dx2) == (n2 * dx2) * (d1 * dx1);
    }
    assert (dy1 * d1) * (d2 * dx2) == (d1 * d2) * (dy1 * dx2);
    assert (dy2 * d2) * (d1 * dx1) == (d1 * d2) * (dx1 * dy2);
    NonZeroProduct(dx1, dx2);
    CancelFactor(n1 * d2, n2 * d1, dx1 * dx2);
    assert d1 * d2 > 0;
    CancelFactor(dy1 * dx2, dx1 * dy2, d1 * d2);
  }

  lemma CancelFactor(a: int, b: int, c: int)
    requires c != 0
    ensures a * c == b * c <==> a == b
  {
    if a * c == b * c {
      assert (a - b) * c == 0;
      if a != b {
        NonZeroProduct(a - b, c);
      }
    }
  }

  /** The comparator orders every point's slopes consistently: it is
      antisymmetric ... */
  lemma SlopeOrderAntisymmetric(p: Point, q1: Point, q2: Point)
    ensures SlopeOrder(p, q1, q2) == -SlopeOrder(p, q2, q1)
  {
  }

  /** ... and transitive. */
  lemma SlopeOrderTransitive(p: Point, q1: Point, q2: Point, q3: Point)
    requires SlopeOrder(p, q1, q2) <= 0 && SlopeOrder(p, q2, q3) <= 0
    ensures SlopeOrder(p, q1, q3) <= 0
  {
    var s1, s2, s3 := SlopeTo(p, q1), SlopeTo(p, q2), SlopeTo(p, q3);
    if s1.Finite? && s2.Finite? && s3.Finite? {
      FiniteTransitive(s1.num, s1.den, s2.num, s2.den, s3.num, s3.den);
    }
  }

  /** n1/d1 <= n2/d2 <= n3/d3 gives n1/d1 <= n3/d3 for positive
      denominators. */
  lemma FiniteTransitive(n1: int, d1: int, n2: int, d2: int, n3: int, d3: int)
    requires d1 > 0 && d2 > 0 && d3 > 0
    requires n1 * d2 <= n2 * d1 && n2 * d3 <= n3 * d2
    ensures n1 * d3 <= n3 * d1
  {
    MultiplyPositive(n1 * d2, n2 * d1, d3);
    MultiplyPositive(n2 * d3, n3 * d2, d1);
    assert (n1 * d3) * d2 <= (n3 * d1) * d2 by {
      assert (n1 * d2) * d3 == (n1 * d3) * d2;
      assert (n2 * d1) * d3 == (n2 * d3) * d1;
      assert (n3 * d2) * d1 == (n3 * d1) * d2;
    }
    if n1 * d3 > n3 * d1 {
      MultiplyPositive(n3 * d1 + 1, n1 * d3, d2);
    }
  }

  lemma MultiplyPositive(a: int, b: int, c: int)
    requires a <= b && c > 0
    ensures a * c <= b * c
  {
    assert b * c - a * c == (b - a) * c;
  }

  /** The program's unit tests: from (0,0) the slope to (1,1) is 1, to
      (2,0) is +0.0, to (0,2) is +infinity, to (0,0) is -infinity;
      (0,0) < (1,1) > (2,0) and (0,0) equals (0,0); and (0,0)'s comparator
      puts (1,1) after (2,0) and (2,0) before (0,2). */
  lemma UnitTests()
    ensures SlopeTo(Point(0, 0), Point(1, 1)) == Finite(1, 1)
    ensures SlopeTo(Point(0, 0), Point(2, 0)) == Finite(0, 1)
    ensures SlopeTo(Point(0, 0), Point(0, 2)) == PositiveInfinity
    ensures SlopeTo(Point(0, 0), Point(0, 0)) == NegativeInfinity
    ensures CompareTo(Point(0, 0), Point(1, 1)) < 0
    ensures CompareTo(Point(1, 1), Point(2, 0)) > 0
    ensures CompareTo(Point(0, 0), Point(0, 0)) == 0
    ensures SlopeOrder(Point(0, 0), Point(1, 1), Point(2, 0)) > 0
    ensures SlopeOrder(Point(0, 0), Point(2, 0), Point(0, 2)) < 0
  {
  }
}
