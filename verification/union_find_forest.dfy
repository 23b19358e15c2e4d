/** The parent-link forest shared by the weighted union-find structures:
    `parent[i]` is the parent of element i and `size[i]` is the number of
    elements that were in i's tree when i was last a root.

    Weighted union only ever hangs a root under a root of a larger tree, and
    path compression and path halving only ever point a node at one of its own
    ancestors, so sizes strictly increase along every parent link.  That fact
    is the invariant `Valid`, and the set of elements whose size is larger
    than i's is the measure that makes every walk to the root terminate. */
module UnionFindForest {

  /** Well-formed forest over the elements 0..|parent|-1. */
  predicate Valid(parent: seq<int>, size: seq<int>) {
    && |parent| == |size|
    && (forall i :: 0 <= i < |parent| ==> 0 <= parent[i] < |parent|)
    && (forall i :: 0 <= i < |size| ==> size[i] >= 1)
    && (forall i :: 0 <= i < |parent| && parent[i] != i ==> size[i] < size[parent[i]])
  }

  /** The elements whose recorded size exceeds i's: it shrinks along parent links. */
  ghost function Above(size: seq<int>, i: int): set<int>
    requires 0 <= i < |size|
  {
    set j | 0 <= j < |size| && size[j] > size[i]
  }

  lemma AboveShrinks(size: seq<int>, i: int, j: int)
    requires 0 <= i < |size| && 0 <= j < |size| && size[i] < size[j]
    ensures |Above(size, j)| < |Above(size, i)|
  {
    var gap := Above(size, i) - Above(size, j);
    assert j in gap;
    assert Above(size, i) == Above(size, j) + gap;
  }

  /** The root of i's tree, found by following parent links. */
  function Root(parent: seq<int>, size: seq<int>, i: int): (r: int)
    requires Valid(parent, size) && 0 <= i < |parent|
    ensures 0 <= r < |parent| && parent[r] == r
    decreases |Above(size, i)|
  {
    if parent[i] == i then i
    else
      AboveShrinks(size, i, parent[i]);
      Root(parent, size, parent[i])
  }

  /** x lies on the chain of parent links from i up to i's root. */
  ghost predicate OnPath(parent: seq<int>, size: seq<int>, x: int, i: int)
    requires Valid(parent, size) && 0 <= i < |parent|
    decreases |Above(size, i)|
  {
    x == i || (parent[i] != i && (AboveShrinks(size, i, parent[i]); OnPath(parent, size, x, parent[i])))
  }

  /** Everything on i's chain is an element with i's root and at least i's
      size; only the root itself can be a root. */
  lemma {:induction false} OnPathFacts(parent: seq<int>, size: seq<int>, x: int, i: int)
    requires Valid(parent, size) && 0 <= i < |parent| && OnPath(parent, size, x, i)
    ensures 0 <= x < |parent| && Root(parent, size, x) == Root(parent, size, i)
    ensures size[x] >= size[i]
    ensures x != i ==> size[x] > size[i]
    ensures parent[x] == x ==> x == Root(parent, size, i)
    decreases |Above(size, i)|
  {
    if x != i {
      AboveShrinks(size, i, parent[i]);
      OnPathFacts(parent, size, x, parent[i]);
    }
  }

  /** i's root lies on i's chain. */
  lemma {:induction false} RootOnPath(parent: seq<int>, size: seq<int>, i: int)
    requires Valid(parent, size) && 0 <= i < |parent|
    ensures OnPath(parent, size, Root(parent, size, i), i)
    decreases |Above(size, i)|
  {
    if parent[i] != i {
      AboveShrinks(size, i, parent[i]);
      RootOnPath(parent, size, parent[i]);
    }
  }

  /** An element is its own root exactly when it is its own parent, and a
      non-root is smaller than its root. */
  lemma RootOfSelf(parent: seq<int>, size: seq<int>, i: int)
    requires Valid(parent, size) && 0 <= i < |parent|
    ensures Root(parent, size, i) == i <==> parent[i] == i
    ensures parent[i] != i ==> size[i] < size[Root(parent, size, i)]
  {
    RootOnPath(parent, size, i);
    OnPathFacts(parent, size, Root(parent, size, i), i);
  }

  /** Pointing a non-root x at an ancestor-equivalent node a of larger size
      (what path compression and path halving do) keeps the forest valid and
      changes no element's root. */
  lemma RelinkPreservesRoots(parent: seq<int>, size: seq<int>, x: int, a: int)
    requires Valid(parent, size)
    requires 0 <= x < |parent| && 0 <= a < |parent|
    requires parent[x] != x && size[x] < size[a]
    requires Root(parent, size, a) == Root(parent, size, x)
    ensures Valid(parent[x := a], size)
    ensures forall i :: 0 <= i < |parent| ==> Root(parent[x := a], size, i) == Root(parent, size, i)
  {
    forall i | 0 <= i < |parent|
      ensures Root(parent[x := a], size, i) == Root(parent, size, i)
    {
      RelinkRoot(parent, size, x, a, i);
    }
  }

  lemma {:induction false} RelinkRoot(parent: seq<int>, size: seq<int>, x: int, a: int, i: int)
    requires Valid(parent, size)
    requires 0 <= x < |parent| && 0 <= a < |parent| && 0 <= i < |parent|
    requires parent[x] != x && size[x] < size[a]
    requires Root(parent, size, a) == Root(parent, size, x)
    ensures Valid(parent[x := a], size)
    ensures Root(parent[x := a], size, i) == Root(parent, size, i)
    decreases |Above(size, i)|
  {
    if i == x {
      AboveShrinks(size, x, a);
      RelinkRoot(parent, size, x, a, a);
    } else if parent[i] != i {
      AboveShrinks(size, i, parent[i]);
      RelinkRoot(parent, size, x, a, parent[i]);
    }
  }

  /** Relinking a node that is not on i's chain leaves i's chain as it was. */
  lemma {:induction false} PathAvoiding(parent: seq<int>, size: seq<int>, x: int, a: int, i: int, y: int)
    requires 0 <= x < |parent| && 0 <= a < |parent| && 0 <= i < |parent|
    requires Valid(parent, size) && Valid(parent[x := a], size)
    requires !OnPath(parent, size, x, i)
    ensures OnPath(parent[x := a], size, y, i) <==> OnPath(parent, size, y, i)
    decreases |Above(size, i)|
  {
    if parent[i] != i {
      AboveShrinks(size, i, parent[i]);
      PathAvoiding(parent, size, x, a, parent[i], y);
    }
  }

  /** Hanging root c under root r (weighted union) keeps the forest valid and
      moves exactly the elements of c's tree into r's tree. */
  lemma LinkRoots(parent: seq<int>, size: seq<int>, c: int, r: int)
    requires Valid(parent, size)
    requires 0 <= c < |parent| && 0 <= r < |parent| && c != r
    requires parent[c] == c && parent[r] == r
    ensures Valid(parent[c := r], size[r := size[c] + size[r]])
    ensures forall i :: 0 <= i < |parent| ==>
      Root(parent[c := r], size[r := size[c] + size[r]], i)
        == (if Root(parent, size, i) == c then r else Root(parent, size, i))
  {
    forall i | 0 <= i < |parent|
      ensures Root(parent[c := r], size[r := size[c] + size[r]], i)
                == (if Root(parent, size, i) == c then r else Root(parent, size, i))
    {
      LinkRoot(parent, size, c, r, i);
    }
  }

  lemma {:induction false} LinkRoot(parent: seq<int>, size: seq<int>, c: int, r: int, i: int)
    requires Valid(parent, size)
    requires 0 <= c < |parent| && 0 <= r < |parent| && c != r && 0 <= i < |parent|
    requires parent[c] == c && parent[r] == r
    ensures Valid(parent[c := r], size[r := size[c] + size[r]])
    ensures Root(parent[c := r], size[r := size[c] + size[r]], i)
              == (if Root(parent, size, i) == c then r else Root(parent, size, i))
    decreases |Above(size, i)|
  {
    var parent', size' := parent[c := r], size[r := size[c] + size[r]];
    assert Valid(parent', size') by {
      forall j | 0 <= j < |parent'| && parent'[j] != j
        ensures size'[j] < size'[parent'[j]]
      {
        if j != c {
          assert parent[j] != j;
        }
      }
    }
    if i == c {
      assert Root(parent', size', r) == r;
    } else if parent[i] != i {
      AboveShrinks(size, i, parent[i]);
      LinkRoot(parent, size, c, r, parent[i]);
    }
  }

  /** The roots of a forest. */
  ghost function Roots(parent: seq<int>): set<int> {
    set r | 0 <= r < |parent| && parent[r] == r
  }

  /** The elements whose root is r. */
  ghost function Component(parent: seq<int>, size: seq<int>, r: int): set<int>
    requires Valid(parent, size)
  {
    set i | 0 <= i < |parent| && Root(parent, size, i) == r
  }

  /** Every root records the exact number of elements in its tree. */
  ghost predicate SizesExact(parent: seq<int>, size: seq<int>) {
    && Valid(parent, size)
    && forall r {:trigger Component(parent, size, r)} ::
         0 <= r < |parent| && parent[r] == r ==> size[r] == |Component(parent, size, r)|
  }

  /** Two forests that give every element the same root have the same roots
      and the same components, so the size bookkeeping carries over. */
  lemma SameRootsSameBookkeeping(parent: seq<int>, parent': seq<int>, size: seq<int>)
    requires Valid(parent, size) && Valid(parent', size) && |parent'| == |parent|
    requires forall i :: 0 <= i < |parent| ==> Root(parent', size, i) == Root(parent, size, i)
    ensures Roots(parent') == Roots(parent)
    ensures forall r :: 0 <= r < |parent| ==> (parent'[r] == r <==> parent[r] == r)
    ensures SizesExact(parent, size) ==> SizesExact(parent', size)
  {
    assert forall r :: Component(parent', size, r) == Component(parent, size, r);
    forall r | 0 <= r < |parent|
      ensures parent'[r] == r <==> parent[r] == r
    {
      RootOfSelf(parent, size, r);
      RootOfSelf(parent', size, r);
    }
  }

  /** After hanging root c under root r, c is no longer a root and the
      other roots stay roots. */
  lemma LinkRootSet(parent: seq<int>, size: seq<int>, c: int, r: int)
    requires Valid(parent, size)
    requires 0 <= c < |parent| && 0 <= r < |parent| && c != r
    requires parent[c] == c && parent[r] == r
    ensures Roots(parent[c := r]) == Roots(parent) - {c}
    ensures |Roots(parent[c := r])| == |Roots(parent)| - 1
  {
    assert Roots(parent[c := r]) == Roots(parent) - {c};
  }

  /** After hanging root c under root r, r's tree holds both trees, every
      other tree is unchanged, and so the recorded sizes stay exact. */
  lemma LinkSizesExact(parent: seq<int>, size: seq<int>, c: int, r: int)
    requires SizesExact(parent, size)
    requires 0 <= c < |parent| && 0 <= r < |parent| && c != r
    requires parent[c] == c && parent[r] == r
    ensures Valid(parent[c := r], size[r := size[c] + size[r]])
    ensures SizesExact(parent[c := r], size[r := size[c] + size[r]])
  {
    var parent', size' := parent[c := r], size[r := size[c] + size[r]];
    LinkRoots(parent, size, c, r);
    assert Component(parent', size', r) == Component(parent, size, c) + Component(parent, size, r);
    assert Component(parent, size, c) !! Component(parent, size, r);
    forall q | 0 <= q < |parent'| && parent'[q] == q
      ensures size'[q] == |Component(parent', size', q)|
    {
      if q != r {
        assert Component(parent', size', q) == Component(parent, size, q);
      }
    }
  }

  /** The elements 0..n-1, as a set. */
  function Range(n: nat): (r: set<int>)
    ensures forall i :: i in r <==> 0 <= i < n
    ensures |r| == n
  {
    if n == 0 then {} else Range(n - 1) + {n - 1}
  }

  /** With at least one element there is at least one root, and never more
      roots than elements. */
  lemma RootsBounds(parent: seq<int>, size: seq<int>)
    requires Valid(parent, size) && |parent| >= 1
    ensures Root(parent, size, 0) in Roots(parent)
    ensures 1 <= |Roots(parent)| <= |parent|
  {
    var all := Range(|parent|);
    assert Roots(parent) <= all;
    assert all == Roots(parent) + (all - Roots(parent));
  }

  /** A set with one element that contains x is {x}. */
  lemma SingletonMember(s: set<int>, x: int)
    requires |s| == 1 && x in s
    ensures s == {x}
  {
    var rest := s - {x};
    assert s == rest + {x};
  }

  /** All elements joined: the predicate the connectivity questions ask. */
  ghost predicate AllJoined(parent: seq<int>, size: seq<int>)
    requires Valid(parent, size)
  {
    forall i, j :: 0 <= i < |parent| && 0 <= j < |parent| ==> Root(parent, size, i) == Root(parent, size, j)
  }

  /** With at least one element, there is exactly one root iff every pair
      of elements shares its root. */
  lemma OneRootIffAllJoined(parent: seq<int>, size: seq<int>)
    requires Valid(parent, size) && |parent| >= 1
    ensures 1 <= |Roots(parent)| <= |parent|
    ensures |Roots(parent)| == 1 <==> AllJoined(parent, size)
  {
    RootsBounds(parent, size);
    var r0 := Root(parent, size, 0);
    if |Roots(parent)| == 1 {
      SingletonMember(Roots(parent), r0);
      forall i, j | 0 <= i < |parent| && 0 <= j < |parent|
        ensures Root(parent, size, i) == Root(parent, size, j)
      {
        assert Root(parent, size, i) in Roots(parent);
        assert Root(parent, size, j) in Roots(parent);
      }
    } else {
      assert Roots(parent) != {r0};
      var x :| x in Roots(parent) && x != r0;
      RootOfSelf(parent, size, x);
      assert Root(parent, size, x) != Root(parent, size, 0);
    }
  }
}
