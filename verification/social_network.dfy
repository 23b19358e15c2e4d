/** The social-network connectivity solution: a weighted union-find that
    shortens paths by halving and also records, for every root, the largest
    element of its component; and the scan of a time-ordered friendship log
    for the first moment at which all members are connected. */
module SocialNetworkConnection {
  import opened Wrappers
  import F = UnionFindForest
  import W = WeightedQuickUnionPathCompression

  /** The parent/size/count forest of the weighted union-find plus the
      per-root largest element. */
  datatype UnionFind = UnionFind(forest: W.UF, largest: seq<int>)

  ghost predicate Valid(uf: UnionFind) {
    W.Valid(uf.forest) && |uf.largest| == |uf.forest.parent|
  }

  predicate InRange(uf: UnionFind, p: int) {
    W.InRange(uf.forest, p)
  }

  ghost predicate Same(uf: UnionFind, p: int, q: int)
    requires Valid(uf) && InRange(uf, p) && InRange(uf, q)
  {
    W.Same(uf.forest, p, q)
  }

  /** Every root records the largest element of its component: an element
      of the component that no element of the component exceeds. */
  ghost predicate LargestExact(uf: UnionFind)
    requires Valid(uf)
  {
    && (forall r :: InRange(uf, r) && uf.forest.parent[r] == r ==>
          InRange(uf, uf.largest[r]) && W.RootOf(uf.forest, uf.largest[r]) == r)
    && (forall i :: InRange(uf, i) ==> i <= uf.largest[W.RootOf(uf.forest, i)])
  }

  /** The constructor: n singletons, each its own largest element.  A
      negative n fails allocating the arrays. */
  function New(n: int): (r: Result<UnionFind>)
    ensures n < 0 <==> r.Err?
    ensures r.Err? ==> r.error == NegativeArraySize
    ensures r.Ok? ==> Valid(r.value) && LargestExact(r.value) && W.SizesExact(r.value.forest)
    ensures r.Ok? ==> |r.value.forest.parent| == n && r.value.forest.count == n
    ensures r.Ok? ==> forall i, j :: 0 <= i < n && 0 <= j < n ==> (Same(r.value, i, j) <==> i == j)
  {
    if n < 0 then Err(NegativeArraySize)
    else
      var forest := W.New(n).value;
      Ok(UnionFind(forest, seq(n, i => i)))
  }

  /** The find loop: every visited node is pointed at its grandparent and the
      walk continues from there. */
  function Halve(parent: seq<int>, size: seq<int>, p: int): (r: seq<int>)
    requires F.Valid(parent, size) && 0 <= p < |parent|
    ensures |r| == |parent| && F.Valid(r, size)
    ensures forall i :: 0 <= i < |parent| ==> F.Root(r, size, i) == F.Root(parent, size, i)
    ensures forall x :: 0 <= x < |parent| && !F.OnPath(parent, size, x, p) ==> r[x] == parent[x]
    decreases |F.Above(size, p)|
  {
    if parent[p] == p then parent
    else
      var grand := parent[parent[p]];
      F.AboveShrinks(size, p, parent[p]);
      assert size[p] < size[grand] by {
        if parent[parent[p]] != parent[p] {
          F.AboveShrinks(size, parent[p], grand);
        }
      }
      F.RelinkPreservesRoots(parent, size, p, grand);
      F.AboveShrinks(size, p, grand);
      var parent' := parent[p := grand];
      var r := Halve(parent', size, grand);
      forall x | 0 <= x < |parent| && !F.OnPath(parent, size, x, p)
        ensures r[x] == parent[x]
      {
        if F.OnPath(parent, size, p, grand) {
          F.OnPathFacts(parent, size, p, grand);
        }
        F.PathAvoiding(parent, size, p, grand, grand, x);
        if F.OnPath(parent, size, x, grand) {
          assert F.OnPath(parent, size, x, parent[p]);
        }
      }
      r
  }

  /** What find returns: the structure after halving and p's root. */
  datatype Found = Found(uf: UnionFind, root: int)

  /** find(p): p's root, halving the path from p; IllegalArgument when p is
      not an element. */
  function Find(uf: UnionFind, p: int): (r: Result<Found>)
    requires Valid(uf)
    ensures r.Err? <==> !InRange(uf, p)
    ensures r.Err? ==> r.error == IllegalArgument
    ensures r.Ok? ==> Valid(r.value.uf) && W.SameComponents(uf.forest, r.value.uf.forest)
    ensures r.Ok? ==> r.value.root == W.RootOf(uf.forest, p)
    ensures r.Ok? ==> r.value.uf.largest == uf.largest && r.value.uf.forest.size == uf.forest.size
    ensures r.Ok? && LargestExact(uf) ==> LargestExact(r.value.uf)
    ensures r.Ok? && W.SizesExact(uf.forest) ==> W.SizesExact(r.value.uf.forest)
  {
    if !InRange(uf, p) then Err(IllegalArgument)
    else
      var f := uf.forest;
      var parent' := Halve(f.parent, f.size, p);
      F.SameRootsSameBookkeeping(f.parent, parent', f.size);
      var uf' := UnionFind(W.UF(parent', f.size, f.count), uf.largest);
      Ok(Found(uf', F.Root(f.parent, f.size, p)))
  }

  /** What findLargest returns: the structure after halving and the answer. */
  datatype Largest = Largest(uf: UnionFind, largest: int)

  /** findLargest(p): the largest element of p's component. */
  function FindLargest(uf: UnionFind, p: int): (r: Result<Largest>)
    requires Valid(uf) && LargestExact(uf)
    ensures r.Err? <==> !InRange(uf, p)
    ensures r.Err? ==> r.error == IllegalArgument
    ensures r.Ok? ==> Valid(r.value.uf) && LargestExact(r.value.uf) && W.SameComponents(uf.forest, r.value.uf.forest)
    ensures r.Ok? ==> InRange(uf, r.value.largest) && Same(uf, r.value.largest, p)
    ensures r.Ok? ==> forall i :: InRange(uf, i) && Same(uf, i, p) ==> i <= r.value.largest
  {
    match Find(uf, p)
    case Err(e) => Err(e)
    case Ok(f) => Ok(Largest(f.uf, f.uf.largest[f.root]))
  }

  /** What connected returns: the structure after halving and the answer. */
  datatype Answer = Answer(uf: UnionFind, connected: bool)

  /** connected(p, q): whether p and q share a root. */
  function Connected(uf: UnionFind, p: int, q: int): (r: Result<Answer>)
    requires Valid(uf)
    ensures r.Err? <==> !(InRange(uf, p) && InRange(uf, q))
    ensures r.Err? ==> r.error == IllegalArgument
    ensures r.Ok? ==> Valid(r.value.uf) && W.SameComponents(uf.forest, r.value.uf.forest)
    ensures r.Ok? ==> (r.value.connected <==> Same(uf, p, q))
  {
    match Find(uf, p)
    case Err(e) => Err(e)
    case Ok(fp) =>
      match Find(fp.uf, q)
      case Err(e) => Err(e)
      case Ok(fq) => Ok(Answer(fq.uf, fp.root == fq.root))
  }

  /** count(): the number of components. */
  function Count(uf: UnionFind): (c: int)
    requires Valid(uf)
    ensures c == |F.Roots(uf.forest.parent)|
  {
    uf.forest.count
  }

  /** Hang root c under root r, merging sizes and largest elements. */
  function Link(uf: UnionFind, c: int, r: int): (u: UnionFind)
    requires Valid(uf) && InRange(uf, c) && InRange(uf, r) && c != r
    requires uf.forest.parent[c] == c && uf.forest.parent[r] == r
    ensures Valid(u) && |u.forest.parent| == |uf.forest.parent| && u.forest.count == uf.forest.count - 1
    ensures u.forest == W.Link(uf.forest, c, r)
    ensures LargestExact(uf) ==> LargestExact(u)
  {
    var forest := W.Link(uf.forest, c, r);
    var largest := uf.largest[r := if uf.largest[c] < uf.largest[r] then uf.largest[r] else uf.largest[c]];
    var u := UnionFind(forest, largest);
    assert LargestExact(uf) ==> LargestExact(u) by {
      if LargestExact(uf) {
        LinkKeepsLargest(uf, c, r);
      }
    }
    u
  }

  lemma LinkKeepsLargest(uf: UnionFind, c: int, r: int)
    requires Valid(uf) && InRange(uf, c) && InRange(uf, r) && c != r
    requires uf.forest.parent[c] == c && uf.forest.parent[r] == r
    requires LargestExact(uf)
    ensures var u := UnionFind(W.Link(uf.forest, c, r),
                      uf.largest[r := if uf.largest[c] < uf.largest[r] then uf.largest[r] else uf.largest[c]]);
      Valid(u) && LargestExact(u)
  {
    var forest := W.Link(uf.forest, c, r);
    var largest := uf.largest[r := if uf.largest[c] < uf.largest[r] then uf.largest[r] else uf.largest[c]];
    var u := UnionFind(forest, largest);
    forall q | InRange(u, q) && forest.parent[q] == q
      ensures InRange(u, largest[q]) && W.RootOf(forest, largest[q]) == q
    {
      assert q != c;
      F.RootOfSelf(uf.forest.parent, uf.forest.size, q);
    }
    forall i | InRange(u, i)
      ensures i <= largest[W.RootOf(forest, i)]
    {
      assert i <= uf.largest[W.RootOf(uf.forest, i)];
    }
  }

  /** union(p, q): merge the components of p and q, smaller tree under
      larger, the surviving root taking the larger of the two largest
      elements; nothing changes when they are already joined. */
  function Union(uf: UnionFind, p: int, q: int): (r: Result<UnionFind>)
    requires Valid(uf)
    ensures r.Err? <==> !(InRange(uf, p) && InRange(uf, q))
    ensures r.Err? ==> r.error == IllegalArgument
    ensures r.Ok? ==> Valid(r.value) && |r.value.forest.parent| == |uf.forest.parent|
    ensures r.Ok? ==> r.value.forest.count == if Same(uf, p, q) then uf.forest.count else uf.forest.count - 1
    ensures r.Ok? ==> W.Merged(uf.forest, r.value.forest, p, q)
    ensures r.Ok? && LargestExact(uf) ==> LargestExact(r.value)
    ensures r.Ok? && W.SizesExact(uf.forest) ==> W.SizesExact(r.value.forest)
  {
    match Find(uf, p)
    case Err(e) => Err(e)
    case Ok(fp) =>
      match Find(fp.uf, q)
      case Err(e) => Err(e)
      case Ok(fq) =>
        var u := fq.uf;
        var rootP, rootQ := fp.root, fq.root;
        assert rootQ == W.RootOf(uf.forest, q);
        if rootP == rootQ then
          W.SameComponentsMerged(uf.forest, u.forest, p, q);
          Ok(u)
        else
          F.RootOfSelf(u.forest.parent, u.forest.size, rootP);
          F.RootOfSelf(u.forest.parent, u.forest.size, rootQ);
          if u.forest.size[rootP] < u.forest.size[rootQ] then
            W.LinkMerges(uf.forest, u.forest, p, q, rootP, rootQ);
            Ok(Link(u, rootP, rootQ))
          else
            W.LinkMerges(uf.forest, u.forest, p, q, rootQ, rootP);
            Ok(Link(u, rootQ, rootP))
  }

  /** One friendship log entry: at time timestamp, member1 and member2
      became friends. */
  datatype Log = Log(timestamp: int, member1: int, member2: int)

  /** i and j are connected by the friendships of logs: the equivalence
      relation generated by the entries, built up one entry at a time (an
      entry joins everything connected to one member with everything
      connected to the other). */
  ghost predicate Reach(logs: seq<Log>, i: int, j: int)
    decreases |logs|
  {
    if |logs| == 0 then i == j
    else
      var e, prev := logs[|logs| - 1], logs[..|logs| - 1];
      || Reach(prev, i, j)
      || (Reach(prev, i, e.member1) && Reach(prev, j, e.member2))
      || (Reach(prev, i, e.member2) && Reach(prev, j, e.member1))
  }

  /** All n members are connected by the friendships of logs. */
  ghost predicate AllReach(n: int, logs: seq<Log>) {
    forall i, j :: 0 <= i < n && 0 <= j < n ==> Reach(logs, i, j)
  }

  /** Everyone is connected once the first m entries have been processed. */
  ghost predicate FullAfter(n: int, logs: seq<Log>, m: int)
    requires 0 <= m <= |logs|
  {
    AllReach(n, logs[..m])
  }

  predicate LogInRange(n: int, e: Log) {
    0 <= e.member1 < n && 0 <= e.member2 < n
  }

  predicate LogsInRange(n: int, logs: seq<Log>) {
    forall k :: 0 <= k < |logs| ==> LogInRange(n, logs[k])
  }

  /** Entry k is the first whose friendship connects everyone, and every
      entry up to it names two members. */
  ghost predicate FirstFull(n: int, logs: seq<Log>, k: int) {
    && 0 <= k < |logs|
    && LogsInRange(n, logs[..k + 1])
    && FullAfter(n, logs, k + 1)
    && forall m :: 1 <= m <= k ==> !FullAfter(n, logs, m)
  }

  /** Processing one more entry keeps the structure's components equal to
      the friendship components. */
  lemma ReachStep(cur: UnionFind, next: UnionFind, logs: seq<Log>, k: int)
    requires Valid(cur) && Valid(next) && |next.forest.parent| == |cur.forest.parent|
    requires 0 <= k < |logs| && InRange(cur, logs[k].member1) && InRange(cur, logs[k].member2)
    requires forall i, j :: InRange(cur, i) && InRange(cur, j) ==> (Same(cur, i, j) <==> Reach(logs[..k], i, j))
    requires W.Merged(cur.forest, next.forest, logs[k].member1, logs[k].member2)
    ensures forall i, j :: InRange(cur, i) && InRange(cur, j) ==> (Same(next, i, j) <==> Reach(logs[..k + 1], i, j))
  {
    assert logs[..k + 1][..k] == logs[..k];
    assert logs[..k + 1][k] == logs[k];
  }

  /** With the structure's components equal to the friendship components
      of the first m entries, one component remains iff those entries
      connect everyone. */
  lemma CountOneIffFull(uf: UnionFind, logs: seq<Log>, m: int)
    requires Valid(uf) && |uf.forest.parent| >= 1 && 0 <= m <= |logs|
    requires forall i, j :: InRange(uf, i) && InRange(uf, j) ==> (Same(uf, i, j) <==> Reach(logs[..m], i, j))
    ensures Count(uf) == 1 <==> FullAfter(|uf.forest.parent|, logs, m)
  {
    W.CountBounds(uf.forest);
    var n := |uf.forest.parent|;
    if FullAfter(n, logs, m) {
      forall i, j | W.InRange(uf.forest, i) && W.InRange(uf.forest, j)
        ensures W.Same(uf.forest, i, j)
      {
        assert Reach(logs[..m], i, j);
        assert Same(uf, i, j);
      }
    }
    if Count(uf) == 1 {
      forall i, j | 0 <= i < n && 0 <= j < n
        ensures Reach(logs[..m], i, j)
      {
        assert W.Same(uf.forest, i, j);
        assert Same(uf, i, j);
      }
    }
  }

  /** The body of the scan: union the members of entry k. */
  method ProcessEntry(cur: UnionFind, logs: seq<Log>, k: int) returns (r: Result<UnionFind>)
    requires Valid(cur) && 0 <= k < |logs|
    requires forall i, j :: InRange(cur, i) && InRange(cur, j) ==> (Same(cur, i, j) <==> Reach(logs[..k], i, j))
    ensures r.Err? <==> !LogInRange(|cur.forest.parent|, logs[k])
    ensures r.Err? ==> r.error == IllegalArgument
    ensures r.Ok? ==> Valid(r.value) && |r.value.forest.parent| == |cur.forest.parent|
    ensures r.Ok? ==> forall i, j :: InRange(cur, i) && InRange(cur, j) ==>
                        (Same(r.value, i, j) <==> Reach(logs[..k + 1], i, j))
    ensures r.Ok? ==> (Count(r.value) == 1 <==> FullAfter(|cur.forest.parent|, logs, k + 1))
  {
    var e := logs[k];
    r := Union(cur, e.member1, e.member2);
    if r.Ok? {
      ReachStep(cur, r.value, logs, k);
      CountOneIffFull(r.value, logs, k + 1);
    }
  }

  /** findEarliestConnection(n, logs): union the members of each entry in
      order and report the timestamp of the first entry after which one
      component remains, or -1 when that never happens. */
  method FindEarliestConnection(n: int, logs: seq<Log>) returns (r: Result<int>)
    ensures n < 0 <==> r == Err(NegativeArraySize)
    ensures r == Err(IllegalArgument) <==>
      && n >= 0
      && exists k :: && 0 <= k < |logs| && !LogInRange(n, logs[k]) && LogsInRange(n, logs[..k])
                     && forall m :: 1 <= m <= k ==> !FullAfter(n, logs, m)
    ensures r.Ok? ==>
      || (exists k :: FirstFull(n, logs, k) && r.value == logs[k].timestamp)
      || (r.value == -1 && LogsInRange(n, logs) && forall m :: 1 <= m <= |logs| ==> !FullAfter(n, logs, m))
  {
    var init := New(n);
    if init.Err? {
      return Err(init.error);
    }
    var cur := init.value;
    var k := 0;
    while k < |logs|
      invariant 0 <= k <= |logs|
      invariant Valid(cur) && |cur.forest.parent| == n
      invariant LogsInRange(n, logs[..k])
      invariant forall m :: 1 <= m <= k ==> !FullAfter(n, logs, m)
      invariant forall i, j :: InRange(cur, i) && InRange(cur, j) ==> (Same(cur, i, j) <==> Reach(logs[..k], i, j))
    {
      var step := ProcessEntry(cur, logs, k);
      if step.Err? {
        return Err(IllegalArgument);
      }
      assert LogsInRange(n, logs[..k + 1]) by {
        assert forall j :: 0 <= j < k ==> logs[..k + 1][j] == logs[..k][j];
      }
      if Count(step.value) == 1 {
        assert FirstFull(n, logs, k);
        return Ok(logs[k].timestamp);
      }
      cur := step.value;
      k := k + 1;
    }
    assert logs[..k] == logs;
    r := Ok(-1);
  }
}
