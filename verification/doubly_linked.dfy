/** The doubly linked list that both deques are built on. Nodes live in an
    arena (a sequence indexed by node id, standing in for the heap); a link
    to no node is Null. Besides the head, tail and size fields of the
    programs, the model keeps `chain`, the ids of the live nodes from head to
    tail: Valid ties it to the links, so it is determined by them and serves
    as the abstraction of the list. */
module DoublyLinked {

  const Null: int := -1

  datatype Node<T> = Node(data: T, prev: int, next: int)

  datatype List<T> = List(nodes: seq<Node<T>>, head: int, tail: int, size: int, chain: seq<int>)

  /** The links of the arena describe exactly the chain of live nodes. */
  ghost predicate Valid<T>(l: List<T>) {
    && |l.chain| == l.size
    && (forall i :: 0 <= i < |l.chain| ==> 0 <= l.chain[i] < |l.nodes|)
    && (forall i, j :: 0 <= i < j < |l.chain| ==> l.chain[i] != l.chain[j])
    && l.head == (if |l.chain| == 0 then Null else l.chain[0])
    && l.tail == (if |l.chain| == 0 then Null else l.chain[|l.chain| - 1])
    && (forall i :: 0 <= i < |l.chain| ==> NextOf(l, i) == if i + 1 < |l.chain| then l.chain[i + 1] else Null)
    && (forall i :: 0 <= i < |l.chain| ==> PrevOf(l, i) == if i > 0 then l.chain[i - 1] else Null)
  }

  /** The `next` link of the node at position i of the chain. */
  function NextOf<T>(l: List<T>, i: int): int
    requires 0 <= i < |l.chain| && 0 <= l.chain[i] < |l.nodes|
  {
    l.nodes[l.chain[i]].next
  }

  /** The `prev` link of the node at position i of the chain. */
  function PrevOf<T>(l: List<T>, i: int): int
    requires 0 <= i < |l.chain| && 0 <= l.chain[i] < |l.nodes|
  {
    l.nodes[l.chain[i]].prev
  }

  /** The elements from head to tail. */
  function Items<T>(l: List<T>): (s: seq<T>)
    requires forall i :: 0 <= i < |l.chain| ==> 0 <= l.chain[i] < |l.nodes|
    ensures |s| == |l.chain|
  {
    seq(|l.chain|, i requires 0 <= i < |l.chain| => l.nodes[l.chain[i]].data)
  }

  function Empty<T>(): (l: List<T>)
    ensures Valid(l) && Items(l) == []
  {
    List([], Null, Null, 0, [])
  }

  /** A valid list's head is null exactly when its tail is, exactly when it is
      empty: the emptiness tests of the programs agree with the size. */
  lemma NullEnds<T>(l: List<T>)
    requires Valid(l)
    ensures (l.head == Null <==> l.tail == Null) && (l.head == Null <==> l.size == 0)
  {
    if |l.chain| > 0 {
      assert 0 <= l.chain[0] && 0 <= l.chain[|l.chain| - 1];
    }
  }

  /** Link a new node holding x in front of the head. `wasEmpty` is the
      emptiness test of the calling program. */
  function LinkFirst<T>(l: List<T>, x: T, wasEmpty: bool): (r: List<T>)
    requires Valid(l) && (wasEmpty <==> l.size == 0)
    ensures Valid(r) && r.size == l.size + 1
    ensures Items(r) == [x] + Items(l)
  {
    var id := |l.nodes|;
    if wasEmpty then
      List(l.nodes + [Node(x, Null, Null)], id, id, l.size + 1, [id])
    else
      var nodes := l.nodes[l.head := l.nodes[l.head].(prev := id)] + [Node(x, Null, l.head)];
      var r := List(nodes, id, l.tail, l.size + 1, [id] + l.chain);
      LinkFirstValid(l, r);
      r
  }

  /** r is l with a new node, at the end of the arena, linked in front of
      the head. */
  ghost predicate Prepended<T>(l: List<T>, r: List<T>) {
    && Valid(l) && l.size > 0
    && r.chain == [|l.nodes|] + l.chain && r.size == l.size + 1
    && r.head == |l.nodes| && r.tail == l.tail
    && |r.nodes| == |l.nodes| + 1 && r.nodes[|l.nodes|].next == l.head && r.nodes[|l.nodes|].prev == Null
    && (forall k :: 0 <= k < |l.nodes| && k != l.head ==> r.nodes[k] == l.nodes[k])
    && r.nodes[l.head] == l.nodes[l.head].(prev := |l.nodes|)
  }

  lemma LinkFirstValid<T>(l: List<T>, r: List<T>)
    requires Prepended(l, r)
    ensures Valid(r)
    ensures Items(r) == [r.nodes[|l.nodes|].data] + Items(l)
  {
    LinkFirstChain(l, r);
    LinkFirstLinks(l, r);
    assert Items(r) == [r.nodes[|l.nodes|].data] + Items(l);
  }

  /** The new chain stays inside the arena and has no repeated node. */
  lemma LinkFirstChain<T>(l: List<T>, r: List<T>)
    requires Prepended(l, r)
    ensures forall i :: 0 <= i < |r.chain| ==> 0 <= r.chain[i] < |r.nodes|
    ensures forall i, j :: 0 <= i < j < |r.chain| ==> r.chain[i] != r.chain[j]
  {
    var id, n := |l.nodes|, |l.chain|;
    forall i | 0 <= i < n ensures l.chain[i] != id && r.chain[i + 1] == l.chain[i] {
      assert 0 <= l.chain[i] < id;
    }
    forall i, j | 0 <= i < j < |r.chain| ensures r.chain[i] != r.chain[j] {
      if i > 0 {
        assert r.chain[i] == l.chain[i - 1];
      }
    }
  }

  /** Every node of the new chain links to its neighbours in the chain. */
  lemma LinkFirstLinks<T>(l: List<T>, r: List<T>)
    requires Prepended(l, r)
    requires forall i :: 0 <= i < |r.chain| ==> 0 <= r.chain[i] < |r.nodes|
    ensures forall i :: 0 <= i < |r.chain| ==> NextOf(r, i) == if i + 1 < |r.chain| then r.chain[i + 1] else Null
    ensures forall i :: 0 <= i < |r.chain| ==> PrevOf(r, i) == if i > 0 then r.chain[i - 1] else Null
  {
    var n := |l.chain|;
    forall i | 0 <= i < |r.chain|
      ensures NextOf(r, i) == if i + 1 < |r.chain| then r.chain[i + 1] else Null
      ensures PrevOf(r, i) == if i > 0 then r.chain[i - 1] else Null
    {
      if i > 0 {
        assert r.chain[i] == l.chain[i - 1] != |l.nodes|;
        assert NextOf(l, i - 1) == if i < n then l.chain[i] else Null;
        assert PrevOf(l, i - 1) == if i > 1 then l.chain[i - 2] else Null;
      }
    }
  }

  /** Link a new node holding x after the tail. */
  function LinkLast<T>(l: List<T>, x: T, wasEmpty: bool): (r: List<T>)
    requires Valid(l) && (wasEmpty <==> l.size == 0)
    ensures Valid(r) && r.size == l.size + 1
    ensures Items(r) == Items(l) + [x]
  {
    var id := |l.nodes|;
    if wasEmpty then
      List(l.nodes + [Node(x, Null, Null)], id, id, l.size + 1, [id])
    else
      var nodes := l.nodes[l.tail := l.nodes[l.tail].(next := id)] + [Node(x, l.tail, Null)];
      var r := List(nodes, l.head, id, l.size + 1, l.chain + [id]);
      LinkLastValid(l, r);
      r
  }

  lemma LinkLastValid<T>(l: List<T>, r: List<T>)
    requires Valid(l) && l.size > 0
    requires r.chain == l.chain + [|l.nodes|] && r.size == l.size + 1
    requires r.head == l.head && r.tail == |l.nodes|
    requires |r.nodes| == |l.nodes| + 1 && r.nodes[|l.nodes|].prev == l.tail && r.nodes[|l.nodes|].next == Null
    requires forall k :: 0 <= k < |l.nodes| && k != l.tail ==> r.nodes[k] == l.nodes[k]
    requires r.nodes[l.tail] == l.nodes[l.tail].(next := |l.nodes|)
    ensures Valid(r)
    ensures Items(r) == Items(l) + [r.nodes[|l.nodes|].data]
  {
    var id, n := |l.nodes|, |l.chain|;
    forall i | 0 <= i < n ensures l.chain[i] != id && r.chain[i] == l.chain[i] {
      assert 0 <= l.chain[i] < id;
    }
    forall i, j | 0 <= i < j < |r.chain| ensures r.chain[i] != r.chain[j] {
      if j < n {
        assert r.chain[j] == l.chain[j];
      }
    }
    forall i | 0 <= i < |r.chain|
      ensures NextOf(r, i) == if i + 1 < |r.chain| then r.chain[i + 1] else Null
      ensures PrevOf(r, i) == if i > 0 then r.chain[i - 1] else Null
    {
      if i < n {
        assert NextOf(l, i) == if i + 1 < n then l.chain[i + 1] else Null;
        assert PrevOf(l, i) == if i > 0 then l.chain[i - 1] else Null;
      }
    }
    assert Items(r) == Items(l) + [r.nodes[id].data];
  }

  /** Unlink the head node: the head moves to its successor, and either the
      tail becomes null or the new head loses its predecessor. */
  function UnlinkFirst<T>(l: List<T>): (r: (T, List<T>))
    requires Valid(l) && l.size > 0
    ensures Valid(r.1) && r.1.size == l.size - 1
    ensures r.0 == Items(l)[0] && Items(r.1) == Items(l)[1..]
  {
    var result := l.nodes[l.head].data;
    var head := l.nodes[l.head].next;
    assert NextOf(l, 0) == head;
    if head == Null then
      var r := List(l.nodes, head, Null, l.size - 1, l.chain[1..]);
      assert |l.chain| == 1 by { assert 0 <= l.chain[0]; }
      (result, r)
    else
      var r := List(l.nodes[head := l.nodes[head].(prev := Null)], head, l.tail, l.size - 1, l.chain[1..]);
      UnlinkFirstValid(l, r);
      (result, r)
  }

  lemma UnlinkFirstValid<T>(l: List<T>, r: List<T>)
    requires Valid(l) && l.size > 1
    requires r.chain == l.chain[1..] && r.size == l.size - 1
    requires r.head == l.chain[1] && r.tail == l.tail
    requires r.nodes == l.nodes[l.chain[1] := l.nodes[l.chain[1]].(prev := Null)]
    ensures Valid(r)
    ensures Items(r) == Items(l)[1..]
  {
    var n := |l.chain|;
    forall i | 0 <= i < |r.chain|
      ensures NextOf(r, i) == if i + 1 < |r.chain| then r.chain[i + 1] else Null
      ensures PrevOf(r, i) == if i > 0 then r.chain[i - 1] else Null
    {
      assert r.chain[i] == l.chain[i + 1];
      assert NextOf(l, i + 1) == if i + 2 < n then l.chain[i + 2] else Null;
      assert PrevOf(l, i + 1) == l.chain[i];
      if i > 0 {
        assert l.chain[i + 1] != l.chain[1];
      }
    }
    assert Items(r) == Items(l)[1..];
  }

  /** Unlink the tail node: the mirror image of UnlinkFirst. */
  function UnlinkLast<T>(l: List<T>): (r: (T, List<T>))
    requires Valid(l) && l.size > 0
    ensures Valid(r.1) && r.1.size == l.size - 1
    ensures r.0 == Items(l)[|Items(l)| - 1] && Items(r.1) == Items(l)[..|Items(l)| - 1]
  {
    var n := |l.chain|;
    var result := l.nodes[l.tail].data;
    var tail := l.nodes[l.tail].prev;
    assert PrevOf(l, n - 1) == tail;
    if tail == Null then
      var r := List(l.nodes, Null, tail, l.size - 1, l.chain[..n - 1]);
      assert n == 1 by { assert 0 <= l.chain[n - 1]; }
      (result, r)
    else
      var r := List(l.nodes[tail := l.nodes[tail].(next := Null)], l.head, tail, l.size - 1, l.chain[..n - 1]);
      UnlinkLastValid(l, r);
      (result, r)
  }

  lemma UnlinkLastValid<T>(l: List<T>, r: List<T>)
    requires Valid(l) && l.size > 1
    requires r.chain == l.chain[..|l.chain| - 1] && r.size == l.size - 1
    requires r.head == l.head && r.tail == l.chain[|l.chain| - 2]
    requires r.nodes == l.nodes[r.tail := l.nodes[r.tail].(next := Null)]
    ensures Valid(r)
    ensures Items(r) == Items(l)[..|l.chain| - 1]
  {
    var n := |l.chain|;
    forall i | 0 <= i < |r.chain|
      ensures NextOf(r, i) == if i + 1 < |r.chain| then r.chain[i + 1] else Null
      ensures PrevOf(r, i) == if i > 0 then r.chain[i - 1] else Null
    {
      assert r.chain[i] == l.chain[i];
      assert NextOf(l, i) == l.chain[i + 1];
      assert PrevOf(l, i) == if i > 0 then l.chain[i - 1] else Null;
      if i < n - 2 {
        assert l.chain[i] != l.chain[n - 2];
      }
    }
    assert Items(r) == Items(l)[..n - 1];
  }

  /** Following `next` from position i of the chain reaches position i + 1, or
      null after the tail; the node there holds the i-th item. */
  lemma NextOfChain<T>(l: List<T>, i: int)
    requires Valid(l) && 0 <= i < |l.chain|
    ensures l.nodes[l.chain[i]].next == if i + 1 < |l.chain| then l.chain[i + 1] else Null
    ensures l.nodes[l.chain[i]].data == Items(l)[i]
  {
    assert NextOf(l, i) == l.nodes[l.chain[i]].next;
  }

  /** Following `prev` from position i of the chain reaches position i - 1, or
      null before the head. */
  lemma PrevOfChain<T>(l: List<T>, i: int)
    requires Valid(l) && 0 <= i < |l.chain|
    ensures l.nodes[l.chain[i]].prev == if i > 0 then l.chain[i - 1] else Null
  {
    assert PrevOf(l, i) == l.nodes[l.chain[i]].prev;
  }
}
