/** Weighted quick-union with full path compression: the union-find structure
    over the elements 0..n-1 that keeps, for every root, the size of its tree,
    hangs the smaller tree under the larger on union, and points every node
    it walks past during find directly at the root. */
module WeightedQuickUnionPathCompression {
  import opened Wrappers
  import F = UnionFindForest

  datatype UF = UF(parent: seq<int>, size: seq<int>, count: int)

  /** The class invariant: a weighted forest whose count is the number of
      components. */
  ghost predicate Valid(uf: UF) {
    && F.Valid(uf.parent, uf.size)
    && uf.count == |F.Roots(uf.parent)|
  }

  /** Every root's size is the number of elements in its tree (kept apart
      from Valid so that the proofs that do not need it stay small). */
  ghost predicate SizesExact(uf: UF) {
    F.SizesExact(uf.parent, uf.size)
  }

  predicate InRange(uf: UF, p: int) {
    0 <= p < |uf.parent|
  }

  /** The canonical element of p's component. */
  ghost function RootOf(uf: UF, p: int): int
    requires Valid(uf) && InRange(uf, p)
  {
    F.Root(uf.parent, uf.size, p)
  }

  /** p and q are in the same component. */
  ghost predicate Same(uf: UF, p: int, q: int)
    requires Valid(uf) && InRange(uf, p) && InRange(uf, q)
  {
    RootOf(uf, p) == RootOf(uf, q)
  }

  /** uf' describes the same components as uf, with the same canonical elements. */
  ghost predicate SameComponents(uf: UF, uf': UF)
    requires Valid(uf) && Valid(uf')
  {
    && |uf'.parent| == |uf.parent|
    && uf'.count == uf.count
    && forall i :: 0 <= i < |uf.parent| ==> RootOf(uf', i) == RootOf(uf, i)
  }

  /** The constructor: n singleton components, or IllegalArgument for n < 0. */
  function New(n: int): (r: Result<UF>)
    ensures n < 0 <==> r.Err?
    ensures r.Err? ==> r.error == IllegalArgument
    ensures r.Ok? ==> Valid(r.value) && SizesExact(r.value) && |r.value.parent| == n && r.value.count == n
    ensures r.Ok? ==> forall i, j :: 0 <= i < n && 0 <= j < n ==> (Same(r.value, i, j) <==> i == j)
  {
    if n < 0 then Err(IllegalArgument)
    else
      var uf := UF(seq(n, i => i), seq(n, i => 1), n);
      assert F.Valid(uf.parent, uf.size);
      assert forall i :: 0 <= i < n ==> F.Root(uf.parent, uf.size, i) == i;
      assert F.Roots(uf.parent) == F.Range(n);
      forall r | 0 <= r < n
        ensures F.Component(uf.parent, uf.size, r) == {r}
      {
      }
      Ok(uf)
  }

  /** A valid structure over at least one element has between 1 and n components. */
  lemma CountBounds(uf: UF)
    requires Valid(uf) && |uf.parent| >= 1
    ensures 1 <= uf.count <= |uf.parent|
    ensures uf.count == 1 <==> forall i, j :: InRange(uf, i) && InRange(uf, j) ==> Same(uf, i, j)
  {
    F.OneRootIffAllJoined(uf.parent, uf.size);
    if forall i, j :: InRange(uf, i) && InRange(uf, j) ==> Same(uf, i, j) {
      forall i, j | 0 <= i < |uf.parent| && 0 <= j < |uf.parent|
        ensures F.Root(uf.parent, uf.size, i) == F.Root(uf.parent, uf.size, j)
      {
        assert Same(uf, i, j);
      }
    }
  }

  /** The second loop of find: re-point every node from q up to the root at the root. */
  function Compress(parent: seq<int>, size: seq<int>, q: int, root: int): (r: seq<int>)
    requires F.Valid(parent, size) && 0 <= q < |parent| && root == F.Root(parent, size, q)
    ensures |r| == |parent| && F.Valid(r, size)
    ensures forall i :: 0 <= i < |parent| ==> F.Root(r, size, i) == F.Root(parent, size, i)
    ensures forall x :: 0 <= x < |parent| ==> r[x] == if F.OnPath(parent, size, x, q) then root else parent[x]
    decreases |F.Above(size, q)|
  {
    if q == root then parent
    else
      var next := parent[q];
      F.RootOfSelf(parent, size, q);
      F.RelinkPreservesRoots(parent, size, q, root);
      F.AboveShrinks(size, q, next);
      var r := Compress(parent[q := root], size, next, root);
      forall x | 0 <= x < |parent|
        ensures r[x] == if F.OnPath(parent, size, x, q) then root else parent[x]
      {
        if F.OnPath(parent, size, q, next) {
          F.OnPathFacts(parent, size, q, next);
        }
        F.PathAvoiding(parent, size, q, root, next, x);
      }
      r
  }

  /** What find returns: the structure after compression and p's root. */
  datatype Found = Found(uf: UF, root: int)

  /** find(p): p's root, compressing the path from p; IllegalArgument when p
      is not an element. */
  function Find(uf: UF, p: int): (r: Result<Found>)
    requires Valid(uf)
    ensures r.Err? <==> !InRange(uf, p)
    ensures r.Err? ==> r.error == IllegalArgument
    ensures r.Ok? ==> Valid(r.value.uf) && SameComponents(uf, r.value.uf)
    ensures r.Ok? ==> r.value.root == RootOf(uf, p) && r.value.uf.size == uf.size
    ensures r.Ok? && SizesExact(uf) ==> SizesExact(r.value.uf)
    ensures r.Ok? ==> forall x :: InRange(uf, x) ==>
      r.value.uf.parent[x] == if F.OnPath(uf.parent, uf.size, x, p) then r.value.root else uf.parent[x]
  {
    if !InRange(uf, p) then Err(IllegalArgument)
    else
      var root := F.Root(uf.parent, uf.size, p);
      var parent' := Compress(uf.parent, uf.size, p, root);
      F.SameRootsSameBookkeeping(uf.parent, parent', uf.size);
      Ok(Found(UF(parent', uf.size, uf.count), root))
  }

  /** Compression of a path that is already flat changes nothing. */
  lemma CompressFlat(parent: seq<int>, size: seq<int>, q: int, root: int)
    requires F.Valid(parent, size) && 0 <= q < |parent| && root == F.Root(parent, size, q)
    requires parent[q] == root
    ensures Compress(parent, size, q, root) == parent
  {
    if q != root {
      assert parent[q := root] == parent;
    }
  }

  /** After a find, p's node points straight at its root, and finding p again
      returns the same root and changes nothing more. */
  lemma FindFlattens(uf: UF, p: int)
    requires Valid(uf) && InRange(uf, p)
    ensures Find(uf, p).Ok?
    ensures var f := Find(uf, p).value;
      f.uf.parent[p] == f.root && Find(f.uf, p) == Ok(f)
  {
    var f := Find(uf, p).value;
    CompressFlat(f.uf.parent, f.uf.size, p, f.root);
  }

  /** What connected returns: the compressed structure and the answer. */
  datatype Answer = Answer(uf: UF, connected: bool)

  /** connected(p, q): whether p and q share a root. */
  function Connected(uf: UF, p: int, q: int): (r: Result<Answer>)
    requires Valid(uf)
    ensures r.Err? <==> !(InRange(uf, p) && InRange(uf, q))
    ensures r.Err? ==> r.error == IllegalArgument
    ensures r.Ok? ==> Valid(r.value.uf) && SameComponents(uf, r.value.uf)
    ensures r.Ok? ==> (r.value.connected <==> Same(uf, p, q))
  {
    match Find(uf, p)
    case Err(e) => Err(e)
    case Ok(fp) =>
      match Find(fp.uf, q)
      case Err(e) => Err(e)
      case Ok(fq) => Ok(Answer(fq.uf, fp.root == fq.root))
  }

  /** Hang root c under root r and merge the sizes. */
  function Link(uf: UF, c: int, r: int): (u: UF)
    requires Valid(uf) && InRange(uf, c) && InRange(uf, r) && c != r
    requires uf.parent[c] == c && uf.parent[r] == r
    ensures |u.parent| == |uf.parent| && Valid(u) && u.count == uf.count - 1
    ensures SizesExact(uf) ==> SizesExact(u)
    ensures u.parent[c] == r && u.size[r] == uf.size[c] + uf.size[r]
    ensures forall i :: InRange(uf, i) ==>
      RootOf(u, i) == (if RootOf(uf, i) == c then r else RootOf(uf, i))
  {
    F.LinkRoots(uf.parent, uf.size, c, r);
    F.LinkRootSet(uf.parent, uf.size, c, r);
    var u := UF(uf.parent[c := r], uf.size[r := uf.size[c] + uf.size[r]], uf.count - 1);
    assert SizesExact(uf) ==> SizesExact(u) by {
      if SizesExact(uf) {
        F.LinkSizesExact(uf.parent, uf.size, c, r);
      }
    }
    u
  }

  /** uf' joins exactly the components of p and q of uf. */
  ghost predicate Merged(uf: UF, uf': UF, p: int, q: int)
    requires Valid(uf) && Valid(uf') && |uf'.parent| == |uf.parent|
    requires InRange(uf, p) && InRange(uf, q)
  {
    forall i, j :: InRange(uf, i) && InRange(uf, j) ==>
      (Same(uf', i, j) <==>
        Same(uf, i, j) || (Same(uf, i, p) && Same(uf, j, q)) || (Same(uf, i, q) && Same(uf, j, p)))
  }

  /** Linking the roots of p and q merges exactly their two components. */
  lemma LinkMerges(uf: UF, u: UF, p: int, q: int, c: int, r: int)
    requires Valid(uf) && Valid(u) && SameComponents(uf, u)
    requires InRange(uf, p) && InRange(uf, q)
    requires (c, r) == (RootOf(uf, p), RootOf(uf, q)) || (c, r) == (RootOf(uf, q), RootOf(uf, p))
    requires c != r && u.parent[c] == c && u.parent[r] == r
    ensures Merged(uf, Link(u, c, r), p, q)
  {
    var l := Link(u, c, r);
    forall i, j | InRange(uf, i) && InRange(uf, j)
      ensures Same(l, i, j) <==>
        Same(uf, i, j) || (Same(uf, i, p) && Same(uf, j, q)) || (Same(uf, i, q) && Same(uf, j, p))
    {
      assert RootOf(l, i) == (if RootOf(uf, i) == c then r else RootOf(uf, i));
      assert RootOf(l, j) == (if RootOf(uf, j) == c then r else RootOf(uf, j));
    }
  }

  /** A structure with the same components merges nothing when p and q are joined. */
  lemma SameComponentsMerged(uf: UF, u: UF, p: int, q: int)
    requires Valid(uf) && Valid(u) && SameComponents(uf, u)
    requires InRange(uf, p) && InRange(uf, q) && Same(uf, p, q)
    ensures Merged(uf, u, p, q)
  {
  }

  /** union(p, q): merge the components of p and q, the smaller tree going
      under the larger; nothing changes when they are already joined. */
  function Union(uf: UF, p: int, q: int): (r: Result<UF>)
    requires Valid(uf)
    ensures r.Err? <==> !(InRange(uf, p) && InRange(uf, q))
    ensures r.Err? ==> r.error == IllegalArgument
    ensures r.Ok? ==> Valid(r.value) && |r.value.parent| == |uf.parent|
    ensures r.Ok? ==> r.value.count == if Same(uf, p, q) then uf.count else uf.count - 1
    ensures r.Ok? ==> Merged(uf, r.value, p, q)
    ensures r.Ok? && SizesExact(uf) ==> SizesExact(r.value)
    ensures r.Ok? && !Same(uf, p, q) ==>
      var rp, rq := RootOf(uf, p), RootOf(uf, q);
      if uf.size[rp] < uf.size[rq]
      then r.value.parent[rp] == rq && r.value.size[rq] == uf.size[rp] + uf.size[rq]
      else r.value.parent[rq] == rp && r.value.size[rp] == uf.size[rp] + uf.size[rq]
  {
    match Find(uf, p)
    case Err(e) => Err(e)
    case Ok(fp) =>
      match Find(fp.uf, q)
      case Err(e) => Err(e)
      case Ok(fq) =>
        var u := fq.uf;
        var rootP, rootQ := fp.root, fq.root;
        assert rootQ == RootOf(uf, q);
        if rootP == rootQ then
          SameComponentsMerged(uf, u, p, q);
          Ok(u)
        else
          F.RootOfSelf(u.parent, u.size, rootP);
          F.RootOfSelf(u.parent, u.size, rootQ);
          if u.size[rootP] < u.size[rootQ] then
            LinkMerges(uf, u, p, q, rootP, rootQ);
            Ok(Link(u, rootP, rootQ))
          else
            LinkMerges(uf, u, p, q, rootQ, rootP);
            Ok(Link(u, rootQ, rootP))
  }

  /** Union never separates elements that were joined. */
  lemma MergedKeepsJoined(uf: UF, uf': UF, p: int, q: int)
    requires Valid(uf) && Valid(uf') && |uf'.parent| == |uf.parent|
    requires InRange(uf, p) && InRange(uf, q) && Merged(uf, uf', p, q)
    ensures Same(uf', p, q)
    ensures forall i, j :: InRange(uf, i) && InRange(uf, j) && Same(uf, i, j) ==> Same(uf', i, j)
  {
  }

  /** One line of the client: a pair of elements to join. */
  datatype Pair = Pair(p: int, q: int)

  /** Every element of uf joined in uf is joined in uf'. */
  ghost predicate Coarser(uf: UF, uf': UF)
    requires Valid(uf) && Valid(uf') && |uf'.parent| == |uf.parent|
  {
    forall i, j :: InRange(uf, i) && InRange(uf, j) && Same(uf, i, j) ==> Same(uf', i, j)
  }

  /** One iteration of the client loop: a pair already connected is skipped,
      otherwise it is united and echoed (the flag says which). */
  method Step(uf: UF, pair: Pair) returns (r: Result<(UF, bool)>)
    requires Valid(uf)
    ensures r.Err? <==> !(InRange(uf, pair.p) && InRange(uf, pair.q))
    ensures r.Err? ==> r.error == IllegalArgument
    ensures r.Ok? ==> Valid(r.value.0) && |r.value.0.parent| == |uf.parent|
    ensures r.Ok? ==> (r.value.1 <==> !Same(uf, pair.p, pair.q))
    ensures r.Ok? ==> r.value.0.count == if r.value.1 then uf.count - 1 else uf.count
    ensures r.Ok? ==> Coarser(uf, r.value.0) && Same(r.value.0, pair.p, pair.q)
  {
    match Connected(uf, pair.p, pair.q)
    case Err(e) =>
      r := Err(e);
    case Ok(a) =>
      if a.connected {
        r := Ok((a.uf, false));
      } else {
        var u := Union(a.uf, pair.p, pair.q).value;
        MergedKeepsJoined(a.uf, u, pair.p, pair.q);
        r := Ok((u, true));
      }
  }

  /** Coarser is transitive. */
  lemma CoarserTrans(a: UF, b: UF, c: UF)
    requires Valid(a) && Valid(b) && Valid(c) && |b.parent| == |a.parent| && |c.parent| == |b.parent|
    requires Coarser(a, b) && Coarser(b, c)
    ensures Coarser(a, c)
  {
  }

  /** The client loop of main: skip pairs already connected, union the
      others and echo them; the result is the structure and the echoed pairs.
      It stops with IllegalArgument at the first pair naming a non-element. */
  method Client(uf: UF, pairs: seq<Pair>) returns (r: Result<(UF, seq<Pair>)>)
    requires Valid(uf)
    ensures r.Err? <==> exists k :: 0 <= k < |pairs| && !(InRange(uf, pairs[k].p) && InRange(uf, pairs[k].q))
    ensures r.Err? ==> r.error == IllegalArgument
    ensures r.Ok? ==> Valid(r.value.0) && |r.value.0.parent| == |uf.parent|
    ensures r.Ok? ==> r.value.0.count == uf.count - |r.value.1|
    ensures r.Ok? ==> Coarser(uf, r.value.0)
    ensures r.Ok? ==> forall k :: 0 <= k < |pairs| ==> Same(r.value.0, pairs[k].p, pairs[k].q)
  {
    var cur := uf;
    var echoed: seq<Pair> := [];
    var i := 0;
    while i < |pairs|
      invariant 0 <= i <= |pairs|
      invariant Valid(cur) && |cur.parent| == |uf.parent|
      invariant cur.count == uf.count - |echoed|
      invariant Coarser(uf, cur)
      invariant forall k :: 0 <= k < i ==> InRange(uf, pairs[k].p) && InRange(uf, pairs[k].q)
      invariant forall k :: 0 <= k < i ==> Same(cur, pairs[k].p, pairs[k].q)
    {
      var result := Step(cur, pairs[i]);
      match result
      case Err(e) =>
        assert !(InRange(uf, pairs[i].p) && InRange(uf, pairs[i].q));
        return Err(e);
      case Ok(step) =>
        CoarserTrans(uf, cur, step.0);
        cur := step.0;
        if step.1 {
          echoed := echoed + [pairs[i]];
        }
      i := i + 1;
    }
    r := Ok((cur, echoed));
  }
}
