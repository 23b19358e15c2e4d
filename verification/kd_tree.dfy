/** A 2d-tree: a binary search tree of points whose levels split the unit
    square alternately by x (VERTICAL) and by y (HORIZONTAL). Every node
    keeps its point, the axis-aligned rectangle of the region it splits,
    its subtree's size and its orientation. The program's Point2D and
    RectHV hold doubles; only comparisons are applied to them, so they are
    exact reals here. Nodes are immutable values: an insertion returns the
    rebuilt path. */
module KdTree {
  import opened Wrappers

  datatype Point2D = Point2D(x: real, y: real)

  /** A closed axis-aligned rectangle. */
  datatype RectHV = RectHV(xmin: real, ymin: real, xmax: real, ymax: real)

  /** RectHV.contains: the point lies inside or on the boundary. */
  predicate RectContains(r: RectHV, q: Point2D) {
    r.xmin <= q.x <= r.xmax && r.ymin <= q.y <= r.ymax
  }

  /** RectHV.intersects: the closed rectangles share a point. */
  predicate Intersects(a: RectHV, b: RectHV) {
    a.xmax >= b.xmin && a.ymax >= b.ymin && b.xmax >= a.xmin && b.ymax >= a.ymin
  }

  /** Two rectangles holding a common point intersect. */
  lemma CommonPointIntersects(a: RectHV, b: RectHV, q: Point2D)
    requires RectContains(a, q) && RectContains(b, q)
    ensures Intersects(a, b)
  {
  }

  const UnitSquare := RectHV(0.0, 0.0, 1.0, 1.0)

  datatype Orientation = Vertical | Horizontal

  function Flip(o: Orientation): Orientation {
    if o == Vertical then Horizontal else Vertical
  }

  datatype Node =
    | Nil
    | Node(p: Point2D, rect: RectHV, left: Node, right: Node, numOfNodes: int, orientation: Orientation)

  /** The points stored in a subtree. */
  function Points(n: Node): set<Point2D> {
    match n
    case Nil => {}
    case Node(p, _, left, right, _, _) => {p} + Points(left) + Points(right)
  }

  /** size(node): 0 for null, the stored count otherwise. */
  function Size(n: Node): int {
    if n.Nil? then 0 else n.numOfNodes
  }

  /** Whether q goes to the left/bottom subtree of a node holding p: a
      vertical node compares x, a horizontal node compares y. */
  predicate GoesLeft(q: Point2D, p: Point2D, o: Orientation) {
    if o == Vertical then q.x < p.x else q.y < p.y
  }

  /** The rectangles of the left/bottom and right/top children. */
  function LeftRect(r: RectHV, p: Point2D, o: Orientation): RectHV {
    if o == Vertical then RectHV(r.xmin, r.ymin, p.x, r.ymax) else RectHV(r.xmin, r.ymin, r.xmax, p.y)
  }

  function RightRect(r: RectHV, p: Point2D, o: Orientation): RectHV {
    if o == Vertical then RectHV(p.x, r.ymin, r.xmax, r.ymax) else RectHV(r.xmin, p.y, r.xmax, r.ymax)
  }

  /** An empty child, or one with the given orientation and rectangle. */
  predicate Fits(n: Node, o: Orientation, r: RectHV) {
    n.Nil? || (n.orientation == o && n.rect == r)
  }

  /** The tree invariant: sizes add up, orientations alternate with the
      children's rectangles cut at the node's point, the left/bottom subtree
      holds only points that go left and the right/top one only points that
      do not, and the node's own point is not repeated below it. */
  predicate Valid(n: Node) {
    match n
    case Nil => true
    case Node(p, rect, left, right, num, o) =>
      && num == Size(left) + Size(right) + 1
      && Valid(left) && Valid(right)
      && Fits(left, Flip(o), LeftRect(rect, p, o))
      && Fits(right, Flip(o), RightRect(rect, p, o))
      && (forall q :: q in Points(left) ==> GoesLeft(q, p, o))
      && (forall q :: q in Points(right) ==> !GoesLeft(q, p, o))
      && p !in Points(right)
  }

  /** Every stored point is stored once, so the size is the number of
      points. */
  lemma {:induction false} SizeIsPointCount(n: Node)
    requires Valid(n)
    ensures Size(n) == |Points(n)|
  {
    if n.Node? {
      SizeIsPointCount(n.left);
      SizeIsPointCount(n.right);
      assert n.p !in Points(n.left);
      assert Points(n.left) !! Points(n.right) by {
        forall q | q in Points(n.left) ensures q !in Points(n.right) {
          assert GoesLeft(q, n.p, n.orientation);
        }
      }
    }
  }

  /** insert(node, rect, point, orientation): a new leaf where the search
      ends at null; the node itself when it holds the point already;
      otherwise the point goes down the side GoesLeft picks and the size is
      recomputed. */
  function InsertNode(n: Node, rect: RectHV, point: Point2D, o: Orientation): (r: Node)
    requires Valid(n) && Fits(n, o, rect)
    ensures Valid(r) && Fits(r, o, rect) && r.Node?
    ensures Points(r) == Points(n) + {point}
    ensures point in Points(n) ==> r == n
  {
    match n
    case Nil => Node(point, rect, Nil, Nil, 1, o)
    case Node(p, nodeRect, left, right, _, ori) =>
      if p == point then n
      else if GoesLeft(point, p, ori) then
        var l := InsertNode(left, LeftRect(nodeRect, p, ori), point, Flip(ori));
        Node(p, nodeRect, l, right, Size(l) + Size(right) + 1, ori)
      else
        var rt := InsertNode(right, RightRect(nodeRect, p, ori), point, Flip(ori));
        Node(p, nodeRect, left, rt, Size(left) + Size(rt) + 1, ori)
  }

  /** contains(node, point): follow the side GoesLeft picks until the point
      or null is reached. */
  function ContainsNode(n: Node, point: Point2D): (b: bool)
    requires Valid(n)
    ensures b <==> point in Points(n)
  {
    match n
    case Nil => false
    case Node(p, _, left, right, _, o) =>
      if p == point then true
      else if GoesLeft(point, p, o) then ContainsNode(left, point)
      else ContainsNode(right, point)
  }

  /** range(node, rect, result): the points of the subtree inside rect,
      skipping subtrees whose rectangle misses rect; the node's point comes
      first, then the left and the right subtree. */
  function RangeNode(n: Node, rect: RectHV): (r: seq<Point2D>)
    ensures forall q :: q in r ==> q in Points(n) && RectContains(rect, q)
  {
    match n
    case Nil => []
    case Node(p, nodeRect, left, right, _, _) =>
      if !Intersects(nodeRect, rect) then []
      else (if RectContains(rect, p) then [p] else []) + RangeNode(left, rect) + RangeNode(right, rect)
  }

  /** Pruning loses nothing as long as every point of a subtree lies in the
      subtree's rectangle: then range reports every point inside rect. */
  lemma {:induction false} RangeComplete(n: Node, rect: RectHV)
    requires Valid(n)
    requires n.Node? ==> forall q :: q in Points(n) ==> RectContains(n.rect, q)
    ensures forall q :: q in Points(n) && RectContains(rect, q) ==> q in RangeNode(n, rect)
  {
    if n.Node? {
      var p, o := n.p, n.orientation;
      forall q | q in Points(n.left) ensures RectContains(LeftRect(n.rect, p, o), q) {
        assert q in Points(n) && GoesLeft(q, p, o);
      }
      forall q | q in Points(n.right) ensures RectContains(RightRect(n.rect, p, o), q) {
        assert q in Points(n) && !GoesLeft(q, p, o);
      }
      RangeComplete(n.left, rect);
      RangeComplete(n.right, rect);
      forall q | q in Points(n) && RectContains(rect, q) ensures q in RangeNode(n, rect) {
        CommonPointIntersects(n.rect, rect, q);
      }
    }
  }

  /* The public operations. */

  datatype KdTree = KdTree(root: Node)

  /** A tree's root is VERTICAL and splits the unit square. */
  predicate TreeValid(t: KdTree) {
    Valid(t.root) && Fits(t.root, Vertical, UnitSquare)
  }

  /** KdTree(): the empty set of points. */
  function New(): (t: KdTree)
    ensures TreeValid(t) && Points(t.root) == {}
  {
    KdTree(Nil)
  }

  /** size(): the number of distinct points. */
  function TreeSize(t: KdTree): (n: int)
    requires TreeValid(t)
    ensures n == |Points(t.root)|
  {
    SizeIsPointCount(t.root);
    Size(t.root)
  }

  /** isEmpty(): size() == 0. */
  function IsEmpty(t: KdTree): (b: bool)
    requires TreeValid(t)
    ensures b <==> Points(t.root) == {}
  {
    TreeSize(t) == 0
  }

  /** insert(p): a null point throws IllegalArgumentException; otherwise p
      is added to the set, and a point already present changes nothing. */
  function Insert(t: KdTree, p: Option<Point2D>): (r: Result<KdTree>)
    requires TreeValid(t)
    ensures p.None? <==> r.Err?
    ensures r.Err? ==> r.error == IllegalArgument
    ensures r.Ok? ==> TreeValid(r.value) && Points(r.value.root) == Points(t.root) + {p.value}
    ensures r.Ok? && p.value in Points(t.root) ==> r.value == t
  {
    if p.None? then Err(IllegalArgument)
    else Ok(KdTree(InsertNode(t.root, UnitSquare, p.value, Vertical)))
  }

  /** contains(p): a null point throws; otherwise whether p is in the set. */
  function Contains(t: KdTree, p: Option<Point2D>): (r: Result<bool>)
    requires TreeValid(t)
    ensures p.None? <==> r.Err?
    ensures r.Err? ==> r.error == IllegalArgument
    ensures r.Ok? ==> (r.value <==> p.value in Points(t.root))
  {
    if p.None? then Err(IllegalArgument) else Ok(ContainsNode(t.root, p.value))
  }

  /** range(rect): a null rectangle throws; otherwise the points of the set
      inside rect, all of them when the set lies in the unit square. */
  function Range(t: KdTree, rect: Option<RectHV>): (r: Result<seq<Point2D>>)
    requires TreeValid(t)
    ensures rect.None? <==> r.Err?
    ensures r.Err? ==> r.error == IllegalArgument
    ensures r.Ok? ==> forall q :: q in r.value ==> q in Points(t.root) && RectContains(rect.value, q)
    ensures r.Ok? && (forall q :: q in Points(t.root) ==> RectContains(UnitSquare, q)) ==>
              forall q :: q in Points(t.root) && RectContains(rect.value, q) ==> q in r.value
  {
    if rect.None? then Err(IllegalArgument)
    else if forall q :: q in Points(t.root) ==> RectContains(UnitSquare, q) then
      RangeComplete(t.root, rect.value);
      Ok(RangeNode(t.root, rect.value))
    else Ok(RangeNode(t.root, rect.value))
  }

  /** The tree built by inserting the points of ps in order. */
  function InsertAll(t: KdTree, ps: seq<Point2D>): (r: KdTree)
    requires TreeValid(t)
    ensures TreeValid(r)
    decreases |ps|
  {
    if |ps| == 0 then t
    else InsertAll(Insert(t, Some(ps[0])).value, ps[1..])
  }

  /** contains(p) after a series of inserts into an empty tree holds
      exactly when p was one of the inserted points, and size() counts the
      distinct inserted points. */
  lemma {:induction false} InsertAllPoints(t: KdTree, ps: seq<Point2D>)
    requires TreeValid(t)
    ensures Points(InsertAll(t, ps).root) == Points(t.root) + set q | q in ps
    decreases |ps|
  {
    if |ps| > 0 {
      InsertAllPoints(Insert(t, Some(ps[0])).value, ps[1..]);
      assert (set q | q in ps) == {ps[0]} + set q | q in ps[1..];
    }
  }

  lemma ContainsIffInserted(ps: seq<Point2D>, p: Point2D)
    ensures Contains(InsertAll(New(), ps), Some(p)) == Ok(p in ps)
    ensures TreeSize(InsertAll(New(), ps)) == |set q | q in ps|
  {
    InsertAllPoints(New(), ps);
  }

  /** The program's driver inserts five distinct points, so size() is 5. */
  lemma MainScenario(ps: seq<Point2D>)
    requires ps == [Point2D(0.7, 0.2), Point2D(0.5, 0.4), Point2D(0.2, 0.3), Point2D(0.4, 0.7), Point2D(0.9, 0.6)]
    ensures TreeSize(InsertAll(New(), ps)) == 5
  {
    ContainsIffInserted(ps, ps[0]);
    FiveDistinct(ps);
  }

  lemma FiveDistinct(ps: seq<Point2D>)
    requires ps == [Point2D(0.7, 0.2), Point2D(0.5, 0.4), Point2D(0.2, 0.3), Point2D(0.4, 0.7), Point2D(0.9, 0.6)]
    ensures |set q | q in ps| == 5
  {
    assert (set q | q in ps) == {ps[0], ps[1], ps[2], ps[3], ps[4]};
  }
}
