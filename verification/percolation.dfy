/** The percolation system: an n-by-n grid of sites, each blocked or open,
    whose connectivity is kept in a union-find structure over the n*n sites
    plus a virtual top node (joined to every site of row 1) and a virtual
    bottom node (joined to every site of row n). Rows and columns are
    numbered from 1. */
module Percolation {
  import opened Wrappers
  import F = UnionFindForest
  import W = WeightedQuickUnionPathCompression

  datatype Percolation = Percolation(
    gridSize: int,
    siteState: seq<seq<bool>>,   // siteState[row - 1][col - 1] is true when the site is open
    openSitesCount: int,
    unionFind: W.UF)

  function VirtualTop(n: int): int { n * n }

  function VirtualBottom(n: int): int { n * n + 1 }

  /** (row, col) names a site of the n-by-n grid. */
  predicate IsValidNeighbor(n: int, row: int, col: int) {
    row >= 1 && col >= 1 && row <= n && col <= n
  }

  // ---------------------------------------------------------------------
  // Index arithmetic

  lemma MulLe(n: int, a: int, b: int)
    requires n >= 0 && a <= b
    ensures n * a <= n * b
  {
    assert n * b - n * a == n * (b - a);
  }

  lemma DivUnique(n: int, q: int, m: int)
    requires n >= 1 && 0 <= m < n
    ensures (n * q + m) / n == q && (n * q + m) % n == m
  {
    var i := n * q + m;
    var q', m' := i / n, i % n;
    assert n * (q' - q) == m - m';
    if q' > q {
      MulLe(n, 1, q' - q);
    } else if q' < q {
      MulLe(n, 1, q - q');
    }
  }

  /** The union-find element of a site, numbering the grid row by row. It lies
      below both virtual nodes, and division and remainder by n decode it back
      to (row, col), so distinct sites have distinct elements. */
  function To1DIndex(n: int, row: int, col: int): (i: int)
    requires IsValidNeighbor(n, row, col)
    ensures 0 <= i < VirtualTop(n)
    ensures i / n == row - 1 && i % n == col - 1
  {
    MulLe(n, 0, row - 1);
    MulLe(n, row - 1, n - 1);
    assert n * (n - 1) + n == n * n;
    DivUnique(n, row - 1, col - 1);
    n * (row - 1) + (col - 1)
  }

  /** Every grid element is the index of the site its quotient and remainder name. */
  lemma IndexOfElement(n: int, x: int)
    requires n >= 1 && 0 <= x < n * n
    ensures IsValidNeighbor(n, x / n + 1, x % n + 1)
    ensures To1DIndex(n, x / n + 1, x % n + 1) == x
  {
    var q, m := x / n, x % n;
    assert x == n * q + m;
    if q < 0 {
      MulLe(n, q, -1);
    } else if q > n - 1 {
      MulLe(n, n, q);
    }
  }

  // ---------------------------------------------------------------------
  // The grid

  predicate Shaped(p: Percolation) {
    && p.gridSize >= 1
    && |p.siteState| == p.gridSize
    && forall i :: 0 <= i < p.gridSize ==> |p.siteState[i]| == p.gridSize
  }

  predicate OpenAt(p: Percolation, row: int, col: int)
    requires Shaped(p) && IsValidNeighbor(p.gridSize, row, col)
  {
    p.siteState[row - 1][col - 1]
  }

  /** The open sites, as zero-based (row, column) pairs. */
  ghost function OpenSites(grid: seq<seq<bool>>): set<(int, int)> {
    set r, c | 0 <= r < |grid| && 0 <= c < |grid[r]| && grid[r][c] :: (r, c)
  }

  /** Row k holds no open site. */
  predicate RowClosed(p: Percolation, k: int)
    requires Shaped(p) && 1 <= k <= p.gridSize
  {
    forall c :: 1 <= c <= p.gridSize ==> !OpenAt(p, k, c)
  }

  // ---------------------------------------------------------------------
  // The invariant

  /** The union-find structure covers the sites and the two virtual nodes. */
  ghost predicate Structured(p: Percolation) {
    && Shaped(p)
    && W.Valid(p.unionFind)
    && |p.unionFind.parent| == p.gridSize * p.gridSize + 2
  }

  /** Every site of the first row is joined to the virtual top and every site
      of the last row to the virtual bottom. */
  ghost predicate VirtualLinks(p: Percolation)
    requires Structured(p)
  {
    var n := p.gridSize;
    forall c :: 1 <= c <= n ==>
      && W.Same(p.unionFind, To1DIndex(n, 1, c), VirtualTop(n))
      && W.Same(p.unionFind, To1DIndex(n, n, c), VirtualBottom(n))
  }

  /** Two open sites side by side or one above the other are joined. */
  ghost predicate NeighboursJoined(p: Percolation)
    requires Structured(p)
  {
    var n := p.gridSize;
    && (forall r, c :: 1 <= r < n && 1 <= c <= n && OpenAt(p, r, c) && OpenAt(p, r + 1, c) ==>
          W.Same(p.unionFind, To1DIndex(n, r, c), To1DIndex(n, r + 1, c)))
    && (forall r, c :: 1 <= r <= n && 1 <= c < n && OpenAt(p, r, c) && OpenAt(p, r, c + 1) ==>
          W.Same(p.unionFind, To1DIndex(n, r, c), To1DIndex(n, r, c + 1)))
  }

  /** The side of the closed row k an element lies on: 0 for the virtual top
      and the rows above k, 1 for the virtual bottom and the rows below k.
      The sites of row k itself go with the top when k is the first row and
      with the bottom otherwise, as the virtual links require. */
  function Side(n: int, k: int, x: int): int
    requires n >= 1
  {
    if x == VirtualTop(n) then 0
    else if x == VirtualBottom(n) then 1
    else
      var row := x / n + 1;
      if row < k || (row == k && k == 1) then 0 else 1
  }

  /** No component of uf reaches across row k. */
  ghost predicate Respected(uf: W.UF, n: int, k: int)
    requires n >= 1 && W.Valid(uf)
  {
    forall x, y :: W.InRange(uf, x) && W.InRange(uf, y) && W.Same(uf, x, y) ==> Side(n, k, x) == Side(n, k, y)
  }

  /** On a grid of at least two rows, no component reaches across a closed row. */
  ghost predicate Separated(p: Percolation)
    requires Structured(p)
  {
    p.gridSize >= 2 ==>
      forall k :: 1 <= k <= p.gridSize && RowClosed(p, k) ==> Respected(p.unionFind, p.gridSize, k)
  }

  ghost predicate Valid(p: Percolation) {
    && Structured(p)
    && p.openSitesCount == |OpenSites(p.siteState)|
    && VirtualLinks(p)
    && NeighboursJoined(p)
    && Separated(p)
  }

  // ---------------------------------------------------------------------
  // Sides

  /** The side of a site is decided by its row alone. */
  lemma SiteSide(n: int, k: int, row: int, col: int)
    requires IsValidNeighbor(n, row, col)
    ensures Side(n, k, To1DIndex(n, row, col)) == if row < k || (row == k && k == 1) then 0 else 1
  {
    var i := To1DIndex(n, row, col);
    assert i != VirtualTop(n) && i != VirtualBottom(n);
  }

  /** Joining two elements on the same side of row k keeps row k uncrossed. */
  lemma MergedRespected(uf: W.UF, u: W.UF, n: int, k: int, a: int, b: int)
    requires n >= 1 && W.Valid(uf) && W.Valid(u) && |u.parent| == |uf.parent|
    requires W.InRange(uf, a) && W.InRange(uf, b) && W.Merged(uf, u, a, b)
    requires Respected(uf, n, k) && Side(n, k, a) == Side(n, k, b)
    ensures Respected(u, n, k)
  {
  }

  /** In the initial grid every element is alone, so no row is crossed. */
  lemma SingletonsRespected(uf: W.UF, n: int, k: int)
    requires n >= 1 && W.Valid(uf)
    requires forall i, j :: W.InRange(uf, i) && W.InRange(uf, j) ==> (W.Same(uf, i, j) <==> i == j)
    ensures Respected(uf, n, k)
  {
  }

  // ---------------------------------------------------------------------
  // Joining

  /** unionFind.union(a, b) on elements known to be valid. */
  method Join(uf: W.UF, a: int, b: int) returns (u: W.UF)
    requires W.Valid(uf) && W.InRange(uf, a) && W.InRange(uf, b)
    ensures W.Valid(u) && |u.parent| == |uf.parent|
    ensures W.Merged(uf, u, a, b)
    ensures W.Same(u, a, b) && W.Coarser(uf, u)
  {
    u := W.Union(uf, a, b).value;
    W.MergedKeepsJoined(uf, u, a, b);
  }

  // ---------------------------------------------------------------------
  // Construction

  /** The sites of the first col - 1 columns of the first and last rows are
      joined to the virtual top and bottom. */
  ghost predicate LinkedBefore(uf: W.UF, n: int, col: int)
    requires n >= 1 && W.Valid(uf) && |uf.parent| == n * n + 2
  {
    forall c :: 1 <= c < col && c <= n ==>
      W.Same(uf, To1DIndex(n, 1, c), VirtualTop(n)) && W.Same(uf, To1DIndex(n, n, c), VirtualBottom(n))
  }

  /** On a grid of at least two rows, no component of uf crosses any row. */
  ghost predicate NoRowCrossed(uf: W.UF, n: int)
    requires n >= 1 && W.Valid(uf)
  {
    n >= 2 ==> forall k :: 1 <= k <= n ==> Respected(uf, n, k)
  }

  /** One iteration of the constructor's loop: join column col of the first
      row to the virtual top and of the last row to the virtual bottom. */
  method LinkColumn(uf: W.UF, n: int, col: int) returns (u: W.UF)
    requires 1 <= col <= n && W.Valid(uf) && |uf.parent| == n * n + 2
    requires LinkedBefore(uf, n, col) && NoRowCrossed(uf, n)
    ensures W.Valid(u) && |u.parent| == n * n + 2
    ensures LinkedBefore(u, n, col + 1) && NoRowCrossed(u, n)
  {
    var top, bottom := VirtualTop(n), VirtualBottom(n);
    var first, last := To1DIndex(n, 1, col), To1DIndex(n, n, col);
    var u1 := Join(uf, first, top);
    u := Join(u1, last, bottom);
    ColumnRowsRespected(uf, u1, u, n, col);
    ColumnLinked(uf, u1, u, n, col);
  }

  /** Joining the column's end sites to the virtual nodes crosses no row. */
  lemma ColumnRowsRespected(uf: W.UF, u1: W.UF, u: W.UF, n: int, col: int)
    requires 1 <= col <= n && W.Valid(uf) && |uf.parent| == n * n + 2 && NoRowCrossed(uf, n)
    requires W.Valid(u1) && |u1.parent| == |uf.parent| && W.Merged(uf, u1, To1DIndex(n, 1, col), VirtualTop(n))
    requires W.Valid(u) && |u.parent| == |uf.parent| && W.Merged(u1, u, To1DIndex(n, n, col), VirtualBottom(n))
    ensures NoRowCrossed(u, n)
  {
    if n >= 2 {
      forall k | 1 <= k <= n
        ensures Respected(u, n, k)
      {
        SiteSide(n, k, 1, col);
        MergedRespected(uf, u1, n, k, To1DIndex(n, 1, col), VirtualTop(n));
        SiteSide(n, k, n, col);
        MergedRespected(u1, u, n, k, To1DIndex(n, n, col), VirtualBottom(n));
      }
    }
  }

  /** After the column's joins the columns up to col are linked. */
  lemma ColumnLinked(uf: W.UF, u1: W.UF, u: W.UF, n: int, col: int)
    requires 1 <= col <= n && W.Valid(uf) && |uf.parent| == n * n + 2 && LinkedBefore(uf, n, col)
    requires W.Valid(u1) && |u1.parent| == |uf.parent| && W.Coarser(uf, u1)
    requires W.Same(u1, To1DIndex(n, 1, col), VirtualTop(n))
    requires W.Valid(u) && |u.parent| == |uf.parent| && W.Coarser(u1, u)
    requires W.Same(u, To1DIndex(n, n, col), VirtualBottom(n))
    ensures LinkedBefore(u, n, col + 1)
  {
    var top, bottom := VirtualTop(n), VirtualBottom(n);
    forall c | 1 <= c <= col
      ensures W.Same(u, To1DIndex(n, 1, c), top) && W.Same(u, To1DIndex(n, n, c), bottom)
    {
      var a, b := To1DIndex(n, 1, c), To1DIndex(n, n, c);
      if c < col {
        assert W.Same(uf, a, top) && W.Same(uf, b, bottom);
        assert W.Same(u1, a, top) && W.Same(u1, b, bottom);
      } else {
        assert W.Same(u1, a, top);
      }
    }
  }

  /** new Percolation(n): an n-by-n grid with every site blocked; the sites of
      the first and the last row are joined to the virtual top and bottom. */
  method New(n: int) returns (r: Result<Percolation>)
    ensures r.Err? <==> n <= 0
    ensures r.Err? ==> r.error == IllegalArgument
    ensures r.Ok? ==> Valid(r.value) && r.value.gridSize == n
    ensures r.Ok? ==> OpenSites(r.value.siteState) == {} && r.value.openSitesCount == 0
  {
    if n <= 0 {
      return Err(IllegalArgument);
    }
    var uf := W.New(n * n + 2).value;
    forall k | 1 <= k <= n
      ensures Respected(uf, n, k)
    {
      SingletonsRespected(uf, n, k);
    }
    var col := 1;
    while col <= n
      invariant 1 <= col <= n + 1
      invariant W.Valid(uf) && |uf.parent| == n * n + 2
      invariant LinkedBefore(uf, n, col) && NoRowCrossed(uf, n)
    {
      uf := LinkColumn(uf, n, col);
      col := col + 1;
    }
    var grid := seq(n, _ => seq(n, _ => false));
    var p := Percolation(n, grid, 0, uf);
    assert OpenSites(grid) == {};
    assert Separated(p) by {
      assert NoRowCrossed(uf, n);
    }
    return Ok(p);
  }

  // ---------------------------------------------------------------------
  // Queries

  /** isOpen(row, col). */
  function IsOpen(p: Percolation, row: int, col: int): (r: Result<bool>)
    requires Valid(p)
    ensures r.Err? <==> !IsValidNeighbor(p.gridSize, row, col)
    ensures r.Err? ==> r.error == IllegalArgument
    ensures r.Ok? ==> (r.value <==> (row - 1, col - 1) in OpenSites(p.siteState))
  {
    if !IsValidNeighbor(p.gridSize, row, col) then Err(IllegalArgument)
    else Ok(OpenAt(p, row, col))
  }

  /** numberOfOpenSites(): the number of distinct open sites. */
  function NumberOfOpenSites(p: Percolation): (c: int)
    requires Valid(p)
    ensures c == |OpenSites(p.siteState)|
  {
    p.openSitesCount
  }

  /** isFull(row, col): the site is open and joined to the virtual top. */
  function IsFull(p: Percolation, row: int, col: int): (r: Result<bool>)
    requires Valid(p)
    ensures r.Err? <==> !IsValidNeighbor(p.gridSize, row, col)
    ensures r.Err? ==> r.error == IllegalArgument
    ensures r.Ok? && r.value ==> IsOpen(p, row, col) == Ok(true)
    ensures r.Ok? ==>
      (r.value <==> OpenAt(p, row, col) &&
                    W.Same(p.unionFind, VirtualTop(p.gridSize), To1DIndex(p.gridSize, row, col)))
  {
    var n, uf := p.gridSize, p.unionFind;
    if !IsValidNeighbor(n, row, col) then Err(IllegalArgument)
    else
      Ok(OpenAt(p, row, col) &&
         F.Root(uf.parent, uf.size, VirtualTop(n)) == F.Root(uf.parent, uf.size, To1DIndex(n, row, col)))
  }

  /** percolates(): the virtual top and the virtual bottom are joined. */
  function Percolates(p: Percolation): (b: bool)
    requires Valid(p)
    ensures b <==> W.Same(p.unionFind, VirtualTop(p.gridSize), VirtualBottom(p.gridSize))
  {
    var n, uf := p.gridSize, p.unionFind;
    F.Root(uf.parent, uf.size, VirtualTop(n)) == F.Root(uf.parent, uf.size, VirtualBottom(n))
  }

  // ---------------------------------------------------------------------
  // Opening a site

  /** The number of single row or column steps from (r, c) to (row, col). */
  function Distance(row: int, col: int, r: int, c: int): nat {
    (if r < row then row - r else r - row) + (if c < col then col - c else c - col)
  }

  /** The elements of the valid, open sites orthogonally next to (row, col),
      in the order top, bottom, left, right. */
  function OpenNeighbours(p: Percolation, row: int, col: int): (s: seq<int>)
    requires Shaped(p) && IsValidNeighbor(p.gridSize, row, col)
    ensures forall x :: x in s ==> 0 <= x < VirtualTop(p.gridSize)
    ensures forall r, c :: IsValidNeighbor(p.gridSize, r, c) ==>
      (To1DIndex(p.gridSize, r, c) in s <==> Distance(row, col, r, c) == 1 && OpenAt(p, r, c))
  {
    var n := p.gridSize;
    CandidateExact(p, row - 1, col);
    CandidateExact(p, row + 1, col);
    CandidateExact(p, row, col - 1);
    CandidateExact(p, row, col + 1);
    Candidate(p, row - 1, col) + Candidate(p, row + 1, col) + Candidate(p, row, col - 1) + Candidate(p, row, col + 1)
  }

  /** The element of (r, c) when it is a valid, open site; nothing otherwise. */
  function Candidate(p: Percolation, r: int, c: int): seq<int>
    requires Shaped(p)
  {
    if IsValidNeighbor(p.gridSize, r, c) && OpenAt(p, r, c) then [To1DIndex(p.gridSize, r, c)] else []
  }

  lemma CandidateExact(p: Percolation, r0: int, c0: int)
    requires Shaped(p)
    ensures forall x :: x in Candidate(p, r0, c0) ==> 0 <= x < VirtualTop(p.gridSize)
    ensures forall r, c :: IsValidNeighbor(p.gridSize, r, c) ==>
      (To1DIndex(p.gridSize, r, c) in Candidate(p, r0, c0) <==> r == r0 && c == c0 && OpenAt(p, r, c))
  {
  }

  /** The open neighbours depend on the grid alone. */
  lemma SameGridSameNeighbours(p: Percolation, q: Percolation, row: int, col: int)
    requires Shaped(p) && IsValidNeighbor(p.gridSize, row, col)
    requires q.gridSize == p.gridSize && q.siteState == p.siteState
    ensures OpenNeighbours(q, row, col) == OpenNeighbours(p, row, col)
  {
  }

  /** x is joined in uf to cur or to one of the elements of s. */
  ghost predicate Near(uf: W.UF, x: int, cur: int, s: seq<int>)
    requires W.Valid(uf) && W.InRange(uf, x) && W.InRange(uf, cur)
    requires forall j :: 0 <= j < |s| ==> W.InRange(uf, s[j])
  {
    W.Same(uf, x, cur) || exists j :: 0 <= j < |s| && W.Same(uf, x, s[j])
  }

  /** uf' is uf with the components of cur and of every element of s merged into one. */
  ghost predicate MergedAll(uf: W.UF, uf': W.UF, cur: int, s: seq<int>)
    requires W.Valid(uf) && W.Valid(uf') && |uf'.parent| == |uf.parent| && W.InRange(uf, cur)
    requires forall j :: 0 <= j < |s| ==> W.InRange(uf, s[j])
  {
    forall x, y :: W.InRange(uf, x) && W.InRange(uf, y) ==>
      (W.Same(uf', x, y) <==> W.Same(uf, x, y) || (Near(uf, x, cur, s) && Near(uf, y, cur, s)))
  }

  lemma NearExtend(uf: W.UF, x: int, cur: int, s: seq<int>, b: int)
    requires W.Valid(uf) && W.InRange(uf, x) && W.InRange(uf, cur) && W.InRange(uf, b)
    requires forall j :: 0 <= j < |s| ==> W.InRange(uf, s[j])
    ensures Near(uf, x, cur, s + [b]) <==> Near(uf, x, cur, s) || W.Same(uf, x, b)
  {
    var t := s + [b];
    if W.Same(uf, x, b) {
      assert t[|s|] == b;
    }
    if Near(uf, x, cur, t) && !W.Same(uf, x, cur) {
      var j :| 0 <= j < |t| && W.Same(uf, x, t[j]);
      if j < |s| {
        assert t[j] == s[j];
      }
    }
    if Near(uf, x, cur, s) && !W.Same(uf, x, cur) {
      var j :| 0 <= j < |s| && W.Same(uf, x, s[j]);
      assert t[j] == s[j];
    }
  }

  /** Merging one more element into the merged group extends MergedAll. */
  lemma MergedAllStep(uf: W.UF, v: W.UF, u: W.UF, cur: int, s: seq<int>, b: int)
    requires W.Valid(uf) && W.Valid(v) && W.Valid(u)
    requires |v.parent| == |uf.parent| && |u.parent| == |uf.parent|
    requires W.InRange(uf, cur) && W.InRange(uf, b)
    requires forall j :: 0 <= j < |s| ==> W.InRange(uf, s[j])
    requires MergedAll(uf, v, cur, s) && W.Merged(v, u, cur, b)
    ensures forall j :: 0 <= j < |s + [b]| ==> W.InRange(uf, (s + [b])[j])
    ensures MergedAll(uf, u, cur, s + [b])
  {
    forall x, y | W.InRange(uf, x) && W.InRange(uf, y)
      ensures W.Same(u, x, y) <==> W.Same(uf, x, y) || (Near(uf, x, cur, s + [b]) && Near(uf, y, cur, s + [b]))
    {
      NearExtend(uf, x, cur, s, b);
      NearExtend(uf, y, cur, s, b);
      NearExtend(uf, b, cur, s, b);
      assert W.Same(v, x, cur) <==> Near(uf, x, cur, s);
      assert W.Same(v, y, cur) <==> Near(uf, y, cur, s);
    }
  }

  /** A union of cur with each element of s in turn. */
  method JoinAll(uf: W.UF, cur: int, s: seq<int>) returns (u: W.UF)
    requires W.Valid(uf) && W.InRange(uf, cur)
    requires forall j :: 0 <= j < |s| ==> W.InRange(uf, s[j])
    ensures W.Valid(u) && |u.parent| == |uf.parent|
    ensures MergedAll(uf, u, cur, s)
  {
    u := uf;
    var i := 0;
    while i < |s|
      invariant 0 <= i <= |s|
      invariant W.Valid(u) && |u.parent| == |uf.parent|
      invariant MergedAll(uf, u, cur, s[..i])
    {
      var u' := Join(u, cur, s[i]);
      MergedAllStep(uf, u, u', cur, s[..i], s[i]);
      assert s[..i] + [s[i]] == s[..i + 1];
      u, i := u', i + 1;
    }
    assert s[..i] == s;
  }

  /** Merging never separates joined elements. */
  lemma MergedAllCoarser(uf: W.UF, u: W.UF, cur: int, s: seq<int>)
    requires W.Valid(uf) && W.Valid(u) && |u.parent| == |uf.parent| && W.InRange(uf, cur)
    requires forall j :: 0 <= j < |s| ==> W.InRange(uf, s[j])
    requires MergedAll(uf, u, cur, s)
    ensures W.Coarser(uf, u)
    ensures forall x :: x in s ==> W.Same(u, cur, x)
  {
    forall x | x in s
      ensures W.Same(u, cur, x)
    {
      var j :| 0 <= j < |s| && s[j] == x;
      assert Near(uf, s[j], cur, s);
      assert Near(uf, cur, cur, s);
    }
  }

  /** The components after merging that do not contain cur are the old ones:
      row k stays uncrossed when cur and everything merged with it lie on one side. */
  lemma MergedAllRespected(uf: W.UF, u: W.UF, n: int, k: int, cur: int, s: seq<int>)
    requires n >= 1 && W.Valid(uf) && W.Valid(u) && |u.parent| == |uf.parent| && W.InRange(uf, cur)
    requires forall j :: 0 <= j < |s| ==> W.InRange(uf, s[j])
    requires MergedAll(uf, u, cur, s) && Respected(uf, n, k)
    requires forall j :: 0 <= j < |s| ==> Side(n, k, s[j]) == Side(n, k, cur)
    ensures Respected(u, n, k)
  {
    forall x, y | W.InRange(u, x) && W.InRange(u, y) && W.Same(u, x, y)
      ensures Side(n, k, x) == Side(n, k, y)
    {
      if !W.Same(uf, x, y) {
        assert Side(n, k, x) == Side(n, k, cur) by {
          if !W.Same(uf, x, cur) {
            var j :| 0 <= j < |s| && W.Same(uf, x, s[j]);
          }
        }
        assert Side(n, k, y) == Side(n, k, cur) by {
          if !W.Same(uf, y, cur) {
            var j :| 0 <= j < |s| && W.Same(uf, y, s[j]);
          }
        }
      }
    }
  }

  /** The grid with site (row, col) open. */
  function OpenSite(grid: seq<seq<bool>>, row: int, col: int): (g: seq<seq<bool>>)
    requires 1 <= row <= |grid| && 1 <= col <= |grid[row - 1]|
    ensures |g| == |grid| && forall i :: 0 <= i < |grid| ==> |g[i]| == |grid[i]|
    ensures forall i, j :: 0 <= i < |grid| && 0 <= j < |grid[i]| ==>
      g[i][j] == (grid[i][j] || (i == row - 1 && j == col - 1))
    ensures OpenSites(g) == OpenSites(grid) + {(row - 1, col - 1)}
  {
    var g := grid[row - 1 := grid[row - 1][col - 1 := true]];
    assert OpenSites(g) == OpenSites(grid) + {(row - 1, col - 1)} by {
      forall rc | rc in OpenSites(grid) + {(row - 1, col - 1)}
        ensures rc in OpenSites(g)
      {
        assert g[rc.0][rc.1];
      }
    }
    g
  }

  /** connectNeighbors(row, col) on a grid where the site has just been opened. */
  method ConnectNeighbors(p: Percolation, row: int, col: int) returns (u: W.UF)
    requires Structured(p) && IsValidNeighbor(p.gridSize, row, col)
    ensures W.Valid(u) && |u.parent| == |p.unionFind.parent|
    ensures var s := OpenNeighbours(p, row, col);
      && (forall j :: 0 <= j < |s| ==> W.InRange(p.unionFind, s[j]))
      && MergedAll(p.unionFind, u, To1DIndex(p.gridSize, row, col), s)
  {
    var s := OpenNeighbours(p, row, col);
    NeighboursInRange(p, row, col);
    u := JoinAll(p.unionFind, To1DIndex(p.gridSize, row, col), s);
  }

  /** The open neighbours are elements of the union-find structure. */
  lemma NeighboursInRange(p: Percolation, row: int, col: int)
    requires Structured(p) && IsValidNeighbor(p.gridSize, row, col)
    ensures var s := OpenNeighbours(p, row, col);
      forall j :: 0 <= j < |s| ==> W.InRange(p.unionFind, s[j])
  {
    var s := OpenNeighbours(p, row, col);
    forall j | 0 <= j < |s| ensures W.InRange(p.unionFind, s[j]) {
      assert s[j] in s;
    }
  }

  /** The requirements shared by the lemmas about one call of open on a
      blocked site: q is p with (row, col) opened and its neighbours merged. */
  ghost predicate OpenedFrom(p: Percolation, q: Percolation, row: int, col: int) {
    && Valid(p) && IsValidNeighbor(p.gridSize, row, col) && !OpenAt(p, row, col)
    && Structured(q) && q.gridSize == p.gridSize
    && q.siteState == OpenSite(p.siteState, row, col)
    && |q.unionFind.parent| == |p.unionFind.parent|
    && var s := OpenNeighbours(q, row, col);
       && (forall j :: 0 <= j < |s| ==> W.InRange(p.unionFind, s[j]))
       && MergedAll(p.unionFind, q.unionFind, To1DIndex(p.gridSize, row, col), s)
  }

  /** What the proofs of the links and the adjacent pairs need of an opening:
      nothing joined comes apart, and the opened site is joined to each of
      the open neighbours. */
  ghost predicate Widened(p: Percolation, q: Percolation, row: int, col: int) {
    && Structured(p) && Structured(q) && q.gridSize == p.gridSize
    && IsValidNeighbor(p.gridSize, row, col)
    && q.siteState == OpenSite(p.siteState, row, col)
    && |q.unionFind.parent| == |p.unionFind.parent|
    && W.Coarser(p.unionFind, q.unionFind)
    && forall x :: x in OpenNeighbours(q, row, col) ==>
         W.Same(q.unionFind, To1DIndex(p.gridSize, row, col), x)
  }

  lemma OpenedWidened(p: Percolation, q: Percolation, row: int, col: int)
    requires OpenedFrom(p, q, row, col)
    ensures Widened(p, q, row, col)
  {
    MergedAllCoarser(p.unionFind, q.unionFind, To1DIndex(p.gridSize, row, col), OpenNeighbours(q, row, col));
  }

  /** After opening, two open sites one below or right of the other are joined. */
  lemma OpenedPairJoined(p: Percolation, q: Percolation, row: int, col: int, r: int, c: int, r': int, c': int)
    requires Widened(p, q, row, col) && NeighboursJoined(p)
    requires IsValidNeighbor(p.gridSize, r, c) && IsValidNeighbor(p.gridSize, r', c')
    requires (r' == r + 1 && c' == c) || (r' == r && c' == c + 1)
    requires OpenAt(q, r, c) && OpenAt(q, r', c')
    ensures W.Same(q.unionFind, To1DIndex(p.gridSize, r, c), To1DIndex(p.gridSize, r', c'))
  {
    var n, s := p.gridSize, OpenNeighbours(q, row, col);
    var a, b := To1DIndex(n, r, c), To1DIndex(n, r', c');
    if r == row && c == col {
      assert b in s;
    } else if r' == row && c' == col {
      assert a in s;
    } else {
      assert OpenAt(p, r, c) && OpenAt(p, r', c');
      assert W.Same(p.unionFind, a, b);
    }
  }

  /** Opening keeps the first and last rows joined to the virtual nodes. */
  lemma OpenedLinks(p: Percolation, q: Percolation, row: int, col: int)
    requires Widened(p, q, row, col) && VirtualLinks(p)
    ensures VirtualLinks(q)
  {
    var n := p.gridSize;
    forall c | 1 <= c <= n
      ensures W.Same(q.unionFind, To1DIndex(n, 1, c), VirtualTop(n))
      ensures W.Same(q.unionFind, To1DIndex(n, n, c), VirtualBottom(n))
    {
      assert W.Same(p.unionFind, To1DIndex(n, 1, c), VirtualTop(n));
      assert W.Same(p.unionFind, To1DIndex(n, n, c), VirtualBottom(n));
    }
  }

  /** Opening joins every pair of adjacent open sites. */
  lemma OpenedJoined(p: Percolation, q: Percolation, row: int, col: int)
    requires Widened(p, q, row, col) && NeighboursJoined(p)
    ensures NeighboursJoined(q)
  {
    OpenedJoinedVertical(p, q, row, col);
    OpenedJoinedHorizontal(p, q, row, col);
  }

  lemma OpenedJoinedVertical(p: Percolation, q: Percolation, row: int, col: int)
    requires Widened(p, q, row, col) && NeighboursJoined(p)
    ensures forall r, c :: 1 <= r < q.gridSize && 1 <= c <= q.gridSize && OpenAt(q, r, c) && OpenAt(q, r + 1, c) ==>
              W.Same(q.unionFind, To1DIndex(q.gridSize, r, c), To1DIndex(q.gridSize, r + 1, c))
  {
    var n := p.gridSize;
    forall r, c | 1 <= r < n && 1 <= c <= n && OpenAt(q, r, c) && OpenAt(q, r + 1, c)
      ensures W.Same(q.unionFind, To1DIndex(n, r, c), To1DIndex(n, r + 1, c))
    {
      OpenedPairJoined(p, q, row, col, r, c, r + 1, c);
    }
  }

  lemma OpenedJoinedHorizontal(p: Percolation, q: Percolation, row: int, col: int)
    requires Widened(p, q, row, col) && NeighboursJoined(p)
    ensures forall r, c :: 1 <= r <= q.gridSize && 1 <= c < q.gridSize && OpenAt(q, r, c) && OpenAt(q, r, c + 1) ==>
              W.Same(q.unionFind, To1DIndex(q.gridSize, r, c), To1DIndex(q.gridSize, r, c + 1))
  {
    var n := p.gridSize;
    forall r, c | 1 <= r <= n && 1 <= c < n && OpenAt(q, r, c) && OpenAt(q, r, c + 1)
      ensures W.Same(q.unionFind, To1DIndex(n, r, c), To1DIndex(n, r, c + 1))
    {
      OpenedPairJoined(p, q, row, col, r, c, r, c + 1);
    }
  }

  /** Opening (row, col) keeps every closed row uncrossed. */
  lemma OpenedSeparated(p: Percolation, q: Percolation, row: int, col: int)
    requires OpenedFrom(p, q, row, col)
    ensures Separated(q)
  {
    var n := p.gridSize;
    if n >= 2 {
      forall k | 1 <= k <= n && RowClosed(q, k)
        ensures Respected(q.unionFind, n, k)
      {
        ClosedRowRespected(p, q, row, col, k);
      }
    }
  }

  /** A row still closed after the opening was closed before, and the
      opened site and its open neighbours lie on one side of it. */
  lemma ClosedRowRespected(p: Percolation, q: Percolation, row: int, col: int, k: int)
    requires OpenedFrom(p, q, row, col) && p.gridSize >= 2
    requires 1 <= k <= p.gridSize && RowClosed(q, k)
    ensures Respected(q.unionFind, p.gridSize, k)
  {
    var n, cur, s := p.gridSize, To1DIndex(p.gridSize, row, col), OpenNeighbours(q, row, col);
    assert k != row by {
      assert OpenAt(q, row, col);
    }
    assert RowClosed(p, k) by {
      forall c | 1 <= c <= n
        ensures !OpenAt(p, k, c)
      {
        assert !OpenAt(q, k, c);
      }
    }
    SiteSide(n, k, row, col);
    NeighboursOnSide(q, row, col, k);
    MergedAllRespected(p.unionFind, q.unionFind, n, k, cur, s);
  }

  /** The open neighbours of a site lie on its side of a closed row. */
  lemma NeighboursOnSide(q: Percolation, row: int, col: int, k: int)
    requires Shaped(q) && IsValidNeighbor(q.gridSize, row, col) && 1 <= k <= q.gridSize
    requires RowClosed(q, k) && k != row
    ensures var s := OpenNeighbours(q, row, col);
      forall j :: 0 <= j < |s| ==> Side(q.gridSize, k, s[j]) == Side(q.gridSize, k, To1DIndex(q.gridSize, row, col))
  {
    var n, s := q.gridSize, OpenNeighbours(q, row, col);
    forall j | 0 <= j < |s|
      ensures Side(n, k, s[j]) == Side(n, k, To1DIndex(n, row, col))
    {
      NeighbourOnSide(q, row, col, k, s[j]);
    }
  }

  lemma NeighbourOnSide(q: Percolation, row: int, col: int, k: int, x: int)
    requires Shaped(q) && IsValidNeighbor(q.gridSize, row, col) && 1 <= k <= q.gridSize
    requires RowClosed(q, k) && k != row && x in OpenNeighbours(q, row, col)
    ensures Side(q.gridSize, k, x) == Side(q.gridSize, k, To1DIndex(q.gridSize, row, col))
  {
    var n := q.gridSize;
    SiteSide(n, k, row, col);
    var r, c := x / n + 1, x % n + 1;
    IndexOfElement(n, x);
    assert To1DIndex(n, r, c) in OpenNeighbours(q, row, col);
    assert OpenAt(q, r, c) && !OpenAt(q, k, c);
    SiteSide(n, k, r, c);
  }

  /** The opened grid is valid again. */
  lemma OpenedValid(p: Percolation, q: Percolation, row: int, col: int)
    requires Valid(p) && Widened(p, q, row, col) && Separated(q) && !OpenAt(p, row, col)
    requires q.openSitesCount == p.openSitesCount + 1
    ensures Valid(q)
  {
    OpenedCount(p.siteState, q.siteState, row, col);
    OpenedLinks(p, q, row, col);
    OpenedJoined(p, q, row, col);
  }

  /** Opening a blocked site adds one open site. */
  lemma OpenedCount(grid: seq<seq<bool>>, g: seq<seq<bool>>, row: int, col: int)
    requires 1 <= row <= |grid| && 1 <= col <= |grid[row - 1]| && !grid[row - 1][col - 1]
    requires g == OpenSite(grid, row, col)
    ensures |OpenSites(g)| == |OpenSites(grid)| + 1
  {
    assert (row - 1, col - 1) !in OpenSites(grid);
  }

  /** The branch of open for a blocked site: mark it open, connect it to its
      neighbours and count it. */
  method OpenBlocked(p: Percolation, row: int, col: int) returns (q: Percolation)
    requires Valid(p) && IsValidNeighbor(p.gridSize, row, col) && !OpenAt(p, row, col)
    ensures OpenedFrom(p, q, row, col) && q.openSitesCount == p.openSitesCount + 1
    ensures Widened(p, q, row, col) && Separated(q)
  {
    var grid := OpenSite(p.siteState, row, col);
    var pending := p.(siteState := grid);
    var u := ConnectNeighbors(pending, row, col);
    q := pending.(unionFind := u, openSitesCount := p.openSitesCount + 1);
    SameGridSameNeighbours(pending, q, row, col);
    assert OpenedFrom(p, q, row, col);
    OpenedWidened(p, q, row, col);
    OpenedSeparated(p, q, row, col);
  }

  /** open(row, col): an invalid site raises IllegalArgument; an open site is
      left as it is; a blocked site is opened, counted, and merged with exactly
      its valid open orthogonal neighbours. */
  method Open(p: Percolation, row: int, col: int) returns (r: Result<Percolation>)
    requires Valid(p)
    ensures r.Err? <==> !IsValidNeighbor(p.gridSize, row, col)
    ensures r.Err? ==> r.error == IllegalArgument
    ensures r.Ok? ==> Valid(r.value) && r.value.gridSize == p.gridSize
    ensures r.Ok? ==> OpenSites(r.value.siteState) == OpenSites(p.siteState) + {(row - 1, col - 1)}
    ensures r.Ok? && OpenAt(p, row, col) ==> r.value == p
    ensures r.Ok? && !OpenAt(p, row, col) ==>
      && r.value.openSitesCount == p.openSitesCount + 1
      && var s := OpenNeighbours(r.value, row, col);
         && (forall j :: 0 <= j < |s| ==> W.InRange(p.unionFind, s[j]))
         && |r.value.unionFind.parent| == |p.unionFind.parent|
         && MergedAll(p.unionFind, r.value.unionFind, To1DIndex(p.gridSize, row, col), s)
  {
    var n := p.gridSize;
    if !IsValidNeighbor(n, row, col) {
      return Err(IllegalArgument);
    }
    if OpenAt(p, row, col) {
      assert (row - 1, col - 1) in OpenSites(p.siteState);
      return Ok(p);
    }
    var q := OpenBlocked(p, row, col);
    OpenedValid(p, q, row, col);
    return Ok(q);
  }

  // ---------------------------------------------------------------------
  // What the invariant gives

  /** Two adjacent open sites are joined. */
  lemma AdjacentOpenJoined(p: Percolation, r: int, c: int, r': int, c': int)
    requires Valid(p) && IsValidNeighbor(p.gridSize, r, c) && IsValidNeighbor(p.gridSize, r', c')
    requires Distance(r, c, r', c') == 1 && OpenAt(p, r, c) && OpenAt(p, r', c')
    ensures W.Same(p.unionFind, To1DIndex(p.gridSize, r, c), To1DIndex(p.gridSize, r', c'))
  {
    var n := p.gridSize;
    if r' == r + 1 {
      assert W.Same(p.unionFind, To1DIndex(n, r, c), To1DIndex(n, r + 1, c));
    } else if r == r' + 1 {
      assert W.Same(p.unionFind, To1DIndex(n, r', c'), To1DIndex(n, r' + 1, c'));
    } else if c' == c + 1 {
      assert W.Same(p.unionFind, To1DIndex(n, r, c), To1DIndex(n, r, c + 1));
    } else {
      assert W.Same(p.unionFind, To1DIndex(n, r', c'), To1DIndex(n, r', c' + 1));
    }
  }

  /** A walk through open sites, each step one row or one column. */
  ghost predicate OpenPath(p: Percolation, path: seq<(int, int)>)
    requires Shaped(p)
  {
    && |path| >= 1
    && (forall i :: 0 <= i < |path| ==>
          IsValidNeighbor(p.gridSize, path[i].0, path[i].1) && OpenAt(p, path[i].0, path[i].1))
    && (forall i :: 0 < i < |path| ==> Distance(path[i - 1].0, path[i - 1].1, path[i].0, path[i].1) == 1)
  }

  /** The end of an open walk that starts in the first row is joined to the virtual top. */
  lemma {:induction false} OpenPathJoinedToTop(p: Percolation, path: seq<(int, int)>)
    requires Valid(p) && OpenPath(p, path) && path[0].0 == 1
    ensures W.Same(p.unionFind, VirtualTop(p.gridSize), To1DIndex(p.gridSize, path[|path| - 1].0, path[|path| - 1].1))
  {
    var n, last := p.gridSize, |path| - 1;
    if last == 0 {
      assert W.Same(p.unionFind, To1DIndex(n, 1, path[0].1), VirtualTop(n));
    } else {
      var prefix := path[..last];
      assert OpenPath(p, prefix) by {
        forall i | 0 < i < |prefix|
          ensures Distance(prefix[i - 1].0, prefix[i - 1].1, prefix[i].0, prefix[i].1) == 1
        {
          assert prefix[i - 1] == path[i - 1] && prefix[i] == path[i];
        }
      }
      OpenPathJoinedToTop(p, prefix);
      assert prefix[last - 1] == path[last - 1];
      AdjacentOpenJoined(p, path[last - 1].0, path[last - 1].1, path[last].0, path[last].1);
    }
  }

  /** A site reached by an open walk from the first row is full. */
  lemma OpenPathFull(p: Percolation, path: seq<(int, int)>)
    requires Valid(p) && OpenPath(p, path) && path[0].0 == 1
    ensures IsFull(p, path[|path| - 1].0, path[|path| - 1].1) == Ok(true)
  {
    OpenPathJoinedToTop(p, path);
  }

  /** An open walk from the first row to the last makes the system percolate. */
  lemma OpenPathPercolates(p: Percolation, path: seq<(int, int)>)
    requires Valid(p) && OpenPath(p, path) && path[0].0 == 1 && path[|path| - 1].0 == p.gridSize
    ensures Percolates(p)
  {
    var n, end := p.gridSize, path[|path| - 1];
    OpenPathJoinedToTop(p, path);
    assert W.Same(p.unionFind, To1DIndex(n, n, end.1), VirtualBottom(n));
  }

  /** Backwash: the last row is joined to the virtual bottom, so once the
      system percolates every open site of the last row is full, whether
      or not an open walk from the first row reaches it. */
  lemma Backwash(p: Percolation, c: int)
    requires Valid(p) && 1 <= c <= p.gridSize && Percolates(p) && OpenAt(p, p.gridSize, c)
    ensures IsFull(p, p.gridSize, c) == Ok(true)
  {
    assert W.Same(p.unionFind, To1DIndex(p.gridSize, p.gridSize, c), VirtualBottom(p.gridSize));
  }

  /** On a grid of at least two rows, a percolating system has an open site in every row. */
  lemma PercolationCrossesEveryRow(p: Percolation)
    requires Valid(p) && p.gridSize >= 2
    ensures Percolates(p) ==> forall k :: 1 <= k <= p.gridSize ==> !RowClosed(p, k)
  {
    var n := p.gridSize;
    forall k | 1 <= k <= n && RowClosed(p, k)
      ensures !Percolates(p)
    {
      assert Respected(p.unionFind, n, k);
    }
  }

  /** As written, a 1-by-1 grid percolates while its only site is blocked:
      the constructor joins that site to both virtual nodes. */
  lemma SingleSitePercolatesBlocked(p: Percolation)
    requires Valid(p) && p.gridSize == 1 && OpenSites(p.siteState) == {}
    ensures Percolates(p) && RowClosed(p, 1)
  {
    assert W.Same(p.unionFind, To1DIndex(1, 1, 1), VirtualTop(1));
    assert W.Same(p.unionFind, To1DIndex(1, 1, 1), VirtualBottom(1));
    assert !OpenAt(p, 1, 1) by {
      assert p.siteState[0][0] ==> (0, 0) in OpenSites(p.siteState);
    }
  }

  /** percolates() as evidently intended: on a 1-by-1 grid the single site
      must also be open. A percolating system then has an open site in every
      row, and every open walk from the first row to the last percolates. */
  function PercolatesCorrected(p: Percolation): (b: bool)
    requires Valid(p)
    ensures b ==> forall k :: 1 <= k <= p.gridSize ==> !RowClosed(p, k)
    ensures p.gridSize >= 2 ==> (b <==> Percolates(p))
  {
    if p.gridSize >= 2 then
      if Percolates(p) then PercolationCrossesEveryRow(p); true else false
    else
      Percolates(p) && OpenAt(p, 1, 1)
  }

  /** The corrected predicate holds whenever an open walk joins the first and last rows. */
  lemma OpenPathPercolatesCorrected(p: Percolation, path: seq<(int, int)>)
    requires Valid(p) && OpenPath(p, path) && path[0].0 == 1 && path[|path| - 1].0 == p.gridSize
    ensures PercolatesCorrected(p)
  {
    OpenPathPercolates(p, path);
    if p.gridSize == 1 {
      assert OpenAt(p, path[0].0, path[0].1);
    }
  }
}
