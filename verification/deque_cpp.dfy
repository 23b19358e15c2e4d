/** The C++ deque: the same doubly linked list, but addFirst tests the head
    pointer and addLast the tail pointer for emptiness, removals raise
    std::out_of_range, and a bidirectional iterator walks the nodes. */
module DequeCpp {
  import opened Wrappers
  import DL = DoublyLinked

  datatype Deque<T> = Deque(list: DL.List<T>)

  ghost predicate Valid<T>(d: Deque<T>) {
    DL.Valid(d.list)
  }

  /** The items from head to tail. */
  function Items<T>(d: Deque<T>): seq<T>
    requires Valid(d)
  {
    DL.Items(d.list)
  }

  function New<T>(): (d: Deque<T>)
    ensures Valid(d) && Items(d) == []
  {
    Deque(DL.Empty())
  }

  function IsEmpty<T>(d: Deque<T>): (b: bool)
    requires Valid(d)
    ensures b <==> Items(d) == []
  {
    d.list.size == 0
  }

  function Size<T>(d: Deque<T>): (n: int)
    requires Valid(d)
    ensures n == |Items(d)|
  {
    d.list.size
  }

  /** The head pointer is null exactly when the tail pointer is, exactly
      when the deque is empty, in every valid state. */
  lemma EndsNullTogether<T>(d: Deque<T>)
    requires Valid(d)
    ensures d.list.head == DL.Null <==> d.list.tail == DL.Null
    ensures d.list.head == DL.Null <==> Items(d) == []
  {
    DL.NullEnds(d.list);
  }

  /** addFirst(item): an empty deque is recognised by a null head. */
  function AddFirst<T>(d: Deque<T>, item: T): (r: Deque<T>)
    requires Valid(d)
    ensures Valid(r) && Items(r) == [item] + Items(d)
  {
    DL.NullEnds(d.list);
    Deque(DL.LinkFirst(d.list, item, d.list.head == DL.Null))
  }

  /** addLast(item): an empty deque is recognised by a null tail. */
  function AddLast<T>(d: Deque<T>, item: T): (r: Deque<T>)
    requires Valid(d)
    ensures Valid(r) && Items(r) == Items(d) + [item]
  {
    DL.NullEnds(d.list);
    Deque(DL.LinkLast(d.list, item, d.list.tail == DL.Null))
  }

  /** removeFirst(): the front item and the rest; std::out_of_range when
      the deque is empty. */
  function RemoveFirst<T>(d: Deque<T>): (r: Result<(T, Deque<T>)>)
    requires Valid(d)
    ensures r.Err? <==> Items(d) == []
    ensures r.Err? ==> r.error == OutOfRange
    ensures r.Ok? ==> Valid(r.value.1) && Items(d) == [r.value.0] + Items(r.value.1)
  {
    if IsEmpty(d) then Err(OutOfRange)
    else
      var (x, l) := DL.UnlinkFirst(d.list);
      assert Items(d) == [x] + DL.Items(l);
      Ok((x, Deque(l)))
  }

  /** removeLast(): the back item and the rest. */
  function RemoveLast<T>(d: Deque<T>): (r: Result<(T, Deque<T>)>)
    requires Valid(d)
    ensures r.Err? <==> Items(d) == []
    ensures r.Err? ==> r.error == OutOfRange
    ensures r.Ok? ==> Valid(r.value.1) && Items(d) == Items(r.value.1) + [r.value.0]
  {
    if IsEmpty(d) then Err(OutOfRange)
    else
      var (x, l) := DL.UnlinkLast(d.list);
      assert Items(d) == DL.Items(l) + [x];
      Ok((x, Deque(l)))
  }

  /** The test program: addFirst 10, addLast 20, then removeFirst gives 10,
      removeLast gives 20 and the deque is empty again. */
  lemma Scenario()
    ensures var d := AddLast(AddFirst(New<int>(), 10), 20);
      Size(AddFirst(New<int>(), 10)) == 1 && Size(d) == 2
      && RemoveFirst(d).Ok? && RemoveFirst(d).value.0 == 10
      && Size(RemoveFirst(d).value.1) == 1
      && RemoveLast(RemoveFirst(d).value.1).Ok?
      && RemoveLast(RemoveFirst(d).value.1).value.0 == 20
      && IsEmpty(RemoveLast(RemoveFirst(d).value.1).value.1)
  {
    var d := AddLast(AddFirst(New<int>(), 10), 20);
    assert Items(d) == [10, 20];
    var (x, e) := RemoveFirst(d).value;
    assert [10, 20] == [x] + Items(e);
    assert Items(e) == [20];
    var (y, f) := RemoveLast(e).value;
    assert [20] == Items(f) + [y];
  }

  /** An iterator holds a node pointer; end() holds null. */
  datatype Iterator = Iterator(current: int)

  /** The iterator points at position k of the chain (k == size: end()). */
  ghost predicate At<T>(d: Deque<T>, it: Iterator, k: int)
    requires Valid(d)
  {
    0 <= k <= |d.list.chain| && it.current == if k < |d.list.chain| then d.list.chain[k] else DL.Null
  }

  function Begin<T>(d: Deque<T>): (it: Iterator)
    requires Valid(d)
    ensures At(d, it, 0)
  {
    Iterator(d.list.head)
  }

  function End<T>(d: Deque<T>): (it: Iterator)
    requires Valid(d)
    ensures At(d, it, |Items(d)|)
  {
    Iterator(DL.Null)
  }

  /** operator==: the iterators point at the same node. It always answers
      the opposite of operator!=, and two iterators over the same deque are
      equal exactly when they are at the same position
      (EqualIffSamePosition). */
  function Equal(a: Iterator, b: Iterator): (r: bool)
    ensures r == !NotEqual(a, b)
  {
    a.current == b.current
  }

  /** operator!=: the iterators point at different nodes. */
  function NotEqual(a: Iterator, b: Iterator): bool {
    a.current != b.current
  }

  lemma EqualIffSamePosition<T>(d: Deque<T>, a: Iterator, j: int, b: Iterator, k: int)
    requires Valid(d) && At(d, a, j) && At(d, b, k)
    ensures Equal(a, b) <==> j == k
  {
    var c := d.list.chain;
    if j < k {
      assert k < |c| ==> c[j] != c[k];
      assert 0 <= c[j];
    } else if k < j {
      assert j < |c| ==> c[k] != c[j];
      assert 0 <= c[k];
    }
  }

  /** operator*: the item at the iterator; dereferencing end() is undefined
      behaviour in the program, so it is excluded. */
  function Deref<T>(d: Deque<T>, it: Iterator, ghost k: int): (x: T)
    requires Valid(d) && At(d, it, k) && k < |Items(d)|
    ensures x == Items(d)[k]
  {
    DL.NextOfChain(d.list, k);
    d.list.nodes[it.current].data
  }

  /** operator++: one node on; end() stays at end(). */
  function Increment<T>(d: Deque<T>, it: Iterator, ghost k: int): (r: Iterator)
    requires Valid(d) && At(d, it, k)
    ensures k < |Items(d)| ==> At(d, r, k + 1)
    ensures k == |Items(d)| ==> r == it
  {
    if it.current != DL.Null then
      DL.NextOfChain(d.list, k);
      Iterator(d.list.nodes[it.current].next)
    else it
  }

  /** operator--: one node back; from the head it falls off to null, which
      is end(), and end() itself stays at end(). */
  function Decrement<T>(d: Deque<T>, it: Iterator, ghost k: int): (r: Iterator)
    requires Valid(d) && At(d, it, k)
    ensures 0 < k < |Items(d)| ==> At(d, r, k - 1)
    ensures k == 0 || k == |Items(d)| ==> At(d, r, |Items(d)|)
  {
    if it.current != DL.Null then
      DL.PrevOfChain(d.list, k);
      Iterator(d.list.nodes[it.current].prev)
    else it
  }

  /** A range-for over the deque, from begin() while != end(), visits the
      items head to tail. */
  method ForEach<T>(d: Deque<T>) returns (out: seq<T>)
    requires Valid(d)
    ensures out == Items(d)
  {
    var it := Begin(d);
    ghost var k := 0;
    out := [];
    EqualIffSamePosition(d, it, k, End(d), |Items(d)|);
    while NotEqual(it, End(d))
      invariant At(d, it, k) && out == Items(d)[..k]
      invariant NotEqual(it, End(d)) <==> k < |Items(d)|
      decreases |Items(d)| - k
    {
      out := out + [Deref(d, it, k)];
      it := Increment(d, it, k);
      k := k + 1;
      EqualIffSamePosition(d, it, k, End(d), |Items(d)|);
    }
  }
}
