/** The C++ randomized queue: a singly linked list with head, tail and size.
    Nodes live in an arena indexed by node id, a link to no node is Null,
    and `chain` lists the ids of the live nodes from head to tail. The
    random index of dequeue() and sample() and the shuffle of the iterator
    are parameters. */
module RandomizedQueueCpp {
  import opened Wrappers
  import Shuffle

  const Null: int := -1

  datatype Node<T> = Node(data: T, next: int)

  datatype RandomizedQueue<T> = RandomizedQueue(nodes: seq<Node<T>>, head: int, tail: int, size: int, chain: seq<int>)

  /** The `next` link of the node at position i of the chain. */
  function NextOf<T>(q: RandomizedQueue<T>, i: int): int
    requires 0 <= i < |q.chain| && 0 <= q.chain[i] < |q.nodes|
  {
    q.nodes[q.chain[i]].next
  }

  /** The links describe exactly the chain of live nodes. */
  ghost predicate Valid<T>(q: RandomizedQueue<T>) {
    && |q.chain| == q.size
    && (forall i :: 0 <= i < |q.chain| ==> 0 <= q.chain[i] < |q.nodes|)
    && (forall i, j :: 0 <= i < j < |q.chain| ==> q.chain[i] != q.chain[j])
    && q.head == (if |q.chain| == 0 then Null else q.chain[0])
    && q.tail == (if |q.chain| == 0 then Null else q.chain[|q.chain| - 1])
    && (forall i :: 0 <= i < |q.chain| ==> NextOf(q, i) == if i + 1 < |q.chain| then q.chain[i + 1] else Null)
  }

  /** The items from head to tail. */
  function Items<T>(q: RandomizedQueue<T>): (s: seq<T>)
    requires forall i :: 0 <= i < |q.chain| ==> 0 <= q.chain[i] < |q.nodes|
    ensures |s| == |q.chain|
  {
    seq(|q.chain|, i requires 0 <= i < |q.chain| => q.nodes[q.chain[i]].data)
  }

  function New<T>(): (q: RandomizedQueue<T>)
    ensures Valid(q) && Items(q) == []
  {
    RandomizedQueue([], Null, Null, 0, [])
  }

  function IsEmpty<T>(q: RandomizedQueue<T>): (b: bool)
    requires Valid(q)
    ensures b <==> Items(q) == []
  {
    q.size == 0
  }

  function Size<T>(q: RandomizedQueue<T>): (n: int)
    requires Valid(q)
    ensures n == |Items(q)|
  {
    q.size
  }

  /** enqueue(item): the new node becomes the tail; in an empty queue it is
      the head as well. */
  function Enqueue<T>(q: RandomizedQueue<T>, item: T): (r: RandomizedQueue<T>)
    requires Valid(q)
    ensures Valid(r) && Items(r) == Items(q) + [item]
    ensures r.tail == |q.nodes| && (q.size == 0 ==> r.head == r.tail)
  {
    var id := |q.nodes|;
    if IsEmpty(q) then
      RandomizedQueue(q.nodes + [Node(item, Null)], id, id, 1, [id])
    else
      var r := RandomizedQueue(q.nodes[q.tail := q.nodes[q.tail].(next := id)] + [Node(item, Null)],
                               q.head, id, q.size + 1, q.chain + [id]);
      EnqueueValid(q, r);
      r
  }

  lemma EnqueueValid<T>(q: RandomizedQueue<T>, r: RandomizedQueue<T>)
    requires Valid(q) && q.size > 0
    requires r.chain == q.chain + [|q.nodes|] && r.size == q.size + 1
    requires r.head == q.head && r.tail == |q.nodes|
    requires |r.nodes| == |q.nodes| + 1 && r.nodes[|q.nodes|].next == Null
    requires forall k :: 0 <= k < |q.nodes| && k != q.tail ==> r.nodes[k] == q.nodes[k]
    requires r.nodes[q.tail] == q.nodes[q.tail].(next := |q.nodes|)
    ensures Valid(r)
    ensures Items(r) == Items(q) + [r.nodes[|q.nodes|].data]
  {
    var id, n := |q.nodes|, |q.chain|;
    forall i | 0 <= i < n ensures q.chain[i] != id && r.chain[i] == q.chain[i] {
      assert 0 <= q.chain[i] < id;
    }
    forall i, j | 0 <= i < j < |r.chain| ensures r.chain[i] != r.chain[j] {
      if j < n {
        assert r.chain[j] == q.chain[j];
      }
    }
    forall i | 0 <= i < |r.chain|
      ensures NextOf(r, i) == if i + 1 < |r.chain| then r.chain[i + 1] else Null
    {
      if i < n {
        assert NextOf(q, i) == if i + 1 < n then q.chain[i + 1] else Null;
      }
    }
    assert Items(r) == Items(q) + [r.nodes[id].data];
  }

  /** A random index is one of the current positions. */
  predicate IndexFits<T>(q: RandomizedQueue<T>, k: int) {
    q.size == 0 || 0 <= k < q.size
  }

  /** Walk `steps` links from the head. */
  method Walk<T>(q: RandomizedQueue<T>, steps: int) returns (node: int)
    requires Valid(q) && 0 <= steps < q.size
    ensures node == q.chain[steps]
  {
    node := q.head;
    var i := 0;
    while i < steps
      invariant 0 <= i <= steps && node == q.chain[i]
    {
      assert NextOf(q, i) == q.chain[i + 1];
      node := q.nodes[node].next;
      i := i + 1;
    }
  }

  /** dequeue() with random index k: std::out_of_range when empty; index 0
      moves the head on (and nulls the tail when the queue empties);
      otherwise the walk stops at the predecessor, which skips the removed
      node and becomes the tail if the removed node was the tail. */
  method Dequeue<T>(q: RandomizedQueue<T>, k: int) returns (r: Result<(T, RandomizedQueue<T>)>)
    requires Valid(q) && IndexFits(q, k)
    ensures r.Err? <==> Items(q) == []
    ensures r.Err? ==> r.error == OutOfRange
    ensures r.Ok? ==> var (x, q') := r.value;
      && Valid(q') && x == Items(q)[k]
      && Items(q') == Items(q)[..k] + Items(q)[k + 1..]
    ensures r.Ok? && q.size == 1 ==> r.value.1.head == Null && r.value.1.tail == Null
    ensures r.Ok? && 0 < k == q.size - 1 ==> r.value.1.tail == q.chain[k - 1]
  {
    if IsEmpty(q) {
      return Err(OutOfRange);
    }
    var current := q.head;
    var q': RandomizedQueue<T>;
    if k == 0 {
      var head := q.nodes[q.head].next;
      assert NextOf(q, 0) == head;
      var tail := if head == Null then Null else q.tail;
      q' := RandomizedQueue(q.nodes, head, tail, q.size - 1, q.chain[1..]);
      assert head == Null ==> q.size == 1 by {
        assert q.size > 1 ==> 0 <= q.chain[1];
      }
      RemoveHeadValid(q, q');
    } else {
      var prev := Walk(q, k - 1);
      assert NextOf(q, k - 1) == q.chain[k];
      current := q.nodes[prev].next;
      assert NextOf(q, k) == q.nodes[current].next;
      var tail := if current == q.tail then prev else q.tail;
      assert current == q.tail <==> k == q.size - 1 by {
        assert q.chain[k] == q.chain[q.size - 1] ==> k == q.size - 1;
      }
      q' := RandomizedQueue(q.nodes[prev := q.nodes[prev].(next := q.nodes[current].next)], q.head, tail, q.size - 1,
                            q.chain[..k] + q.chain[k + 1..]);
      RemoveAfterValid(q, k, q');
    }
    assert q.nodes[current].data == Items(q)[k];
    r := Ok((q.nodes[current].data, q'));
  }

  lemma RemoveHeadValid<T>(q: RandomizedQueue<T>, r: RandomizedQueue<T>)
    requires Valid(q) && q.size > 0
    requires r.nodes == q.nodes && r.chain == q.chain[1..] && r.size == q.size - 1
    requires r.head == (if q.size == 1 then Null else q.chain[1])
    requires r.tail == (if q.size == 1 then Null else q.tail)
    ensures Valid(r) && Items(r) == Items(q)[1..]
  {
    forall i | 0 <= i < |r.chain|
      ensures NextOf(r, i) == if i + 1 < |r.chain| then r.chain[i + 1] else Null
    {
      assert NextOf(q, i + 1) == NextOf(r, i);
    }
    assert Items(r) == Items(q)[1..];
  }

  lemma RemoveAfterValid<T>(q: RandomizedQueue<T>, k: int, r: RandomizedQueue<T>)
    requires Valid(q) && 0 < k < q.size
    requires r.chain == q.chain[..k] + q.chain[k + 1..] && r.size == q.size - 1
    requires r.head == q.head && r.tail == (if k == q.size - 1 then q.chain[k - 1] else q.tail)
    requires r.nodes == q.nodes[q.chain[k - 1] := q.nodes[q.chain[k - 1]].(next := q.nodes[q.chain[k]].next)]
    ensures Valid(r) && Items(r) == Items(q)[..k] + Items(q)[k + 1..]
  {
    RemoveDistinct(q.chain, k, r.chain);
    RemoveAfterLinks(q, k, r);
    assert Items(r) == Items(q)[..k] + Items(q)[k + 1..];
  }

  /** Dropping position k from a sequence of distinct ids shifts the later
      ids down by one and keeps them distinct. */
  lemma RemoveDistinct(c: seq<int>, k: int, d: seq<int>)
    requires 0 <= k < |c| && forall i, j :: 0 <= i < j < |c| ==> c[i] != c[j]
    requires d == c[..k] + c[k + 1..]
    ensures forall i :: 0 <= i < k ==> d[i] == c[i]
    ensures forall i :: k <= i < |d| ==> d[i] == c[i + 1]
    ensures forall i, j :: 0 <= i < j < |d| ==> d[i] != d[j]
  {
    forall i, j | 0 <= i < j < |d| ensures d[i] != d[j] {
      var i', j' := if i < k then i else i + 1, if j < k then j else j + 1;
      assert d[i] == c[i'] && d[j] == c[j'];
    }
  }

  lemma RemoveAfterLinks<T>(q: RandomizedQueue<T>, k: int, r: RandomizedQueue<T>)
    requires Valid(q) && 0 < k < q.size
    requires |r.chain| == q.size - 1
    requires forall i :: 0 <= i < k ==> r.chain[i] == q.chain[i]
    requires forall i :: k <= i < |r.chain| ==> r.chain[i] == q.chain[i + 1]
    requires r.nodes == q.nodes[q.chain[k - 1] := q.nodes[q.chain[k - 1]].(next := q.nodes[q.chain[k]].next)]
    ensures forall i :: 0 <= i < |r.chain| ==> 0 <= r.chain[i] < |r.nodes|
    ensures forall i :: 0 <= i < |r.chain| ==> NextOf(r, i) == if i + 1 < |r.chain| then r.chain[i + 1] else Null
  {
    var n := |q.chain|;
    forall i | 0 <= i < |r.chain|
      ensures 0 <= r.chain[i] < |r.nodes|
      ensures NextOf(r, i) == if i + 1 < |r.chain| then r.chain[i + 1] else Null
    {
      var i' := if i < k then i else i + 1;
      assert r.chain[i] == q.chain[i'] by {
        assert r.chain[i] == if i < k then q.chain[i] else q.chain[i + 1];
      }
      if i + 1 < |r.chain| {
        assert r.chain[i + 1] == if i + 1 < k then q.chain[i + 1] else q.chain[i + 2];
      }
      if i == k - 1 {
        assert NextOf(q, k) == if k + 1 < n then q.chain[k + 1] else Null;
      } else {
        assert q.chain[i'] != q.chain[k - 1];
        assert NextOf(q, i') == if i' + 1 < n then q.chain[i' + 1] else Null;
      }
    }
  }

  /** sample() with random index k: the k-th item, found by walking from the
      head; std::out_of_range when empty. */
  method Sample<T>(q: RandomizedQueue<T>, k: int) returns (r: Result<T>)
    requires Valid(q) && IndexFits(q, k)
    ensures r.Err? <==> Items(q) == []
    ensures r.Err? ==> r.error == OutOfRange
    ensures r.Ok? ==> r.value == Items(q)[k]
  {
    if IsEmpty(q) {
      return Err(OutOfRange);
    }
    var node := Walk(q, k);
    r := Ok(q.nodes[node].data);
  }

  /** The iterator owns a shuffled copy of the items and a cursor into it. */
  datatype Iterator<T> = Iterator(container: seq<T>, position: int)

  /** iterator(): copy the items by walking the list from the head, then
      shuffle the copy with the given draws. */
  method MakeIterator<T>(q: RandomizedQueue<T>, offsets: seq<int>) returns (it: Iterator<T>)
    requires Valid(q) && Shuffle.ValidOffsets(offsets, q.size)
    ensures it.container == Shuffle.Shuffle(Items(q), offsets) && it.position == 0
    ensures multiset(it.container) == multiset(Items(q))
  {
    var container := [];
    var node := q.head;
    ghost var i := 0;
    assert q.size > 0 ==> 0 <= q.chain[0];
    while node != Null
      invariant 0 <= i <= q.size && node == (if i < q.size then q.chain[i] else Null)
      invariant node == Null <==> i == q.size
      invariant container == Items(q)[..i]
      decreases q.size - i
    {
      assert i + 1 < q.size ==> 0 <= q.chain[i + 1];
      assert NextOf(q, i) == if i + 1 < q.size then q.chain[i + 1] else Null;
      container := container + [q.nodes[node].data];
      node := q.nodes[node].next;
      i := i + 1;
    }
    assert container == Items(q);
    it := Iterator(Shuffle.Shuffle(container, offsets), 0);
  }

  function HasNext<T>(it: Iterator<T>): (b: bool)
    requires 0 <= it.position <= |it.container|
    ensures b <==> it.position < |it.container|
  {
    it.position != |it.container|
  }

  /** next(): std::runtime_error once the copy is exhausted. */
  function Next<T>(it: Iterator<T>): (r: Result<(T, Iterator<T>)>)
    requires 0 <= it.position <= |it.container|
    ensures r.Err? <==> it.position == |it.container|
    ensures r.Err? ==> r.error == RuntimeError
    ensures r.Ok? ==> r.value.0 == it.container[it.position]
    ensures r.Ok? ==> r.value.1 == Iterator(it.container, it.position + 1)
  {
    if !HasNext(it) then Err(RuntimeError)
    else Ok((it.container[it.position], it.(position := it.position + 1)))
  }

  /** Draining the iterator yields the queue's items, each as often as it is
      queued, in the shuffled order. */
  method Drain<T>(q: RandomizedQueue<T>, offsets: seq<int>) returns (out: seq<T>)
    requires Valid(q) && Shuffle.ValidOffsets(offsets, q.size)
    ensures multiset(out) == multiset(Items(q))
  {
    var it := MakeIterator(q, offsets);
    out := [];
    while HasNext(it)
      invariant 0 <= it.position <= |it.container| && multiset(it.container) == multiset(Items(q))
      invariant out == it.container[..it.position]
      decreases |it.container| - it.position
    {
      var r := Next(it);
      PrefixStep(it.container, it.position);
      out := out + [r.value.0];
      it := r.value.1;
    }
    assert out == it.container;
  }

  /** Extending a prefix by one element. */
  lemma PrefixStep<T>(s: seq<T>, k: int)
    requires 0 <= k < |s|
    ensures s[..k + 1] == s[..k] + [s[k]]
  {
  }

  /** Dequeuing removes exactly one occurrence of the returned item. */
  lemma DequeueMultiset<T>(s: seq<T>, k: int)
    requires 0 <= k < |s|
    ensures multiset(s[..k] + s[k + 1..]) == multiset(s) - multiset{s[k]}
  {
    assert s == s[..k] + [s[k]] + s[k + 1..];
  }
}
