/** The Java deque: a doubly linked list with head, tail and size, whose
    emptiness test is `size == 0`. Java references may be null, so items
    arrive as Option values; a deque never stores a null item. */
module DequeJava {
  import opened Wrappers
  import DL = DoublyLinked

  datatype Deque<T> = Deque(list: DL.List<T>)

  ghost predicate Valid<T>(d: Deque<T>) {
    DL.Valid(d.list)
  }

  /** The items from front to back. */
  function Items<T>(d: Deque<T>): seq<T>
    requires Valid(d)
  {
    DL.Items(d.list)
  }

  /** The constructor: no head, no tail, size 0. */
  function New<T>(): (d: Deque<T>)
    ensures Valid(d) && Items(d) == []
  {
    Deque(DL.Empty())
  }

  function IsEmpty<T>(d: Deque<T>): (b: bool)
    requires Valid(d)
    ensures b <==> Items(d) == []
  {
    d.list.size == 0
  }

  function Size<T>(d: Deque<T>): (n: int)
    requires Valid(d)
    ensures n == |Items(d)|
  {
    d.list.size
  }

  /** addFirst(item): a null item is rejected with IllegalArgumentException
      and the deque is left as it was; otherwise the item is prepended. */
  function AddFirst<T>(d: Deque<T>, item: Option<T>): (r: Result<Deque<T>>)
    requires Valid(d)
    ensures r.Err? <==> item.None?
    ensures r.Err? ==> r.error == IllegalArgument
    ensures r.Ok? ==> Valid(r.value) && Items(r.value) == [item.value] + Items(d)
  {
    if item.None? then Err(IllegalArgument)
    else Ok(Deque(DL.LinkFirst(d.list, item.value, IsEmpty(d))))
  }

  /** addLast(item): as addFirst, but the item is appended. */
  function AddLast<T>(d: Deque<T>, item: Option<T>): (r: Result<Deque<T>>)
    requires Valid(d)
    ensures r.Err? <==> item.None?
    ensures r.Err? ==> r.error == IllegalArgument
    ensures r.Ok? ==> Valid(r.value) && Items(r.value) == Items(d) + [item.value]
  {
    if item.None? then Err(IllegalArgument)
    else Ok(Deque(DL.LinkLast(d.list, item.value, IsEmpty(d))))
  }

  /** removeFirst(): the front item and the deque without it; an empty deque
      raises NoSuchElementException. */
  function RemoveFirst<T>(d: Deque<T>): (r: Result<(T, Deque<T>)>)
    requires Valid(d)
    ensures r.Err? <==> Items(d) == []
    ensures r.Err? ==> r.error == NoSuchElement
    ensures r.Ok? ==> Valid(r.value.1) && Items(d) == [r.value.0] + Items(r.value.1)
  {
    if IsEmpty(d) then Err(NoSuchElement)
    else
      var (x, l) := DL.UnlinkFirst(d.list);
      assert Items(d) == [x] + DL.Items(l);
      Ok((x, Deque(l)))
  }

  /** removeLast(): the back item and the deque without it. */
  function RemoveLast<T>(d: Deque<T>): (r: Result<(T, Deque<T>)>)
    requires Valid(d)
    ensures r.Err? <==> Items(d) == []
    ensures r.Err? ==> r.error == NoSuchElement
    ensures r.Ok? ==> Valid(r.value.1) && Items(d) == Items(r.value.1) + [r.value.0]
  {
    if IsEmpty(d) then Err(NoSuchElement)
    else
      var (x, l) := DL.UnlinkLast(d.list);
      assert Items(d) == DL.Items(l) + [x];
      Ok((x, Deque(l)))
  }

  /** Adding at one end and removing at the same end gives back the item and
      a deque with the same items: each end behaves as a stack. */
  lemma AddRemoveSameEnd<T>(d: Deque<T>, x: T)
    requires Valid(d)
    ensures RemoveFirst(AddFirst(d, Some(x)).value).Ok?
    ensures RemoveFirst(AddFirst(d, Some(x)).value).value.0 == x
    ensures Items(RemoveFirst(AddFirst(d, Some(x)).value).value.1) == Items(d)
    ensures RemoveLast(AddLast(d, Some(x)).value).Ok?
    ensures RemoveLast(AddLast(d, Some(x)).value).value.0 == x
    ensures Items(RemoveLast(AddLast(d, Some(x)).value).value.1) == Items(d)
  {
    var a := AddFirst(d, Some(x)).value;
    var (y, e) := RemoveFirst(a).value;
    assert [x] + Items(d) == [y] + Items(e);
    assert Items(d) == ([x] + Items(d))[1..];
    var b := AddLast(d, Some(x)).value;
    var (z, f) := RemoveLast(b).value;
    assert Items(d) + [x] == Items(f) + [z];
    assert Items(d) == (Items(d) + [x])[..|Items(d)|];
  }

  /** Adding at one end and removing at the other on a non-empty deque gives
      the item that was already at that other end: the deque is FIFO across
      its ends. */
  lemma AddFirstRemoveLast<T>(d: Deque<T>, x: T)
    requires Valid(d) && Items(d) != []
    ensures RemoveLast(AddFirst(d, Some(x)).value).Ok?
    ensures RemoveLast(AddFirst(d, Some(x)).value).value.0 == Items(d)[|Items(d)| - 1]
  {
    var a := AddFirst(d, Some(x)).value;
    var (y, e) := RemoveLast(a).value;
    assert [x] + Items(d) == Items(e) + [y];
    assert y == ([x] + Items(d))[|Items(d)|];
  }

  /** The DequeIterator: `current` is the node whose item next() returns,
      starting at the head. */
  datatype Iterator = Iterator(current: int)

  /** The iterator is at position k of the chain (k == size: exhausted). */
  ghost predicate At<T>(d: Deque<T>, it: Iterator, k: int)
    requires Valid(d)
  {
    0 <= k <= |d.list.chain| && it.current == if k < |d.list.chain| then d.list.chain[k] else DL.Null
  }

  function MakeIterator<T>(d: Deque<T>): (it: Iterator)
    requires Valid(d)
    ensures At(d, it, 0)
  {
    Iterator(d.list.head)
  }

  function HasNext<T>(d: Deque<T>, it: Iterator, ghost k: int): (b: bool)
    requires Valid(d) && At(d, it, k)
    ensures b <==> k < |Items(d)|
  {
    assert k < |d.list.chain| ==> 0 <= d.list.chain[k];
    it.current != DL.Null
  }

  /** next(): the item at the iterator's position, moving it one node on;
      past the end it raises NoSuchElementException. */
  function Next<T>(d: Deque<T>, it: Iterator, ghost k: int): (r: Result<(T, Iterator)>)
    requires Valid(d) && At(d, it, k)
    ensures r.Err? <==> k == |Items(d)|
    ensures r.Err? ==> r.error == NoSuchElement
    ensures r.Ok? ==> r.value.0 == Items(d)[k] && At(d, r.value.1, k + 1)
  {
    if !HasNext(d, it, k) then Err(NoSuchElement)
    else
      DL.NextOfChain(d.list, k);
      Ok((d.list.nodes[it.current].data, Iterator(d.list.nodes[it.current].next)))
  }

  /** remove(): not supported. */
  function Remove(it: Iterator): Result<Iterator> {
    Err(UnsupportedOperation)
  }

  /** A for-each loop over the deque: hasNext()/next() until exhausted
      yields the items front to back. */
  method ForEach<T>(d: Deque<T>) returns (out: seq<T>)
    requires Valid(d)
    ensures out == Items(d)
  {
    var it := MakeIterator(d);
    ghost var k := 0;
    out := [];
    while HasNext(d, it, k)
      invariant At(d, it, k) && out == Items(d)[..k]
      decreases |Items(d)| - k
    {
      var r := Next(d, it, k);
      out := out + [r.value.0];
      it := r.value.1;
      k := k + 1;
    }
  }

  /** The program's own scenario: addFirst 1, addLast 2, addFirst 0; then
      removeFirst gives 0, removeLast gives 2 and one item is left; after
      addLast 3 and addFirst -1 the iterator starts at -1. */
  lemma Scenario()
    ensures var d0 := New<int>();
      var d1 := AddFirst(d0, Some(1)).value;
      var d2 := AddLast(d1, Some(2)).value;
      var d3 := AddFirst(d2, Some(0)).value;
      Size(d3) == 3
      && RemoveFirst(d3).Ok? && RemoveFirst(d3).value.0 == 0
      && RemoveLast(RemoveFirst(d3).value.1).Ok?
      && RemoveLast(RemoveFirst(d3).value.1).value.0 == 2
      && Size(RemoveLast(RemoveFirst(d3).value.1).value.1) == 1
    ensures var d5 := RemoveLast(RemoveFirst(AddFirst(AddLast(AddFirst(New<int>(), Some(1)).value, Some(2)).value, Some(0)).value).value.1).value.1;
      var d7 := AddFirst(AddLast(d5, Some(3)).value, Some(-1)).value;
      Next(d7, MakeIterator(d7), 0).Ok? && Next(d7, MakeIterator(d7), 0).value.0 == -1
  {
    var d0 := New<int>();
    var d1 := AddFirst(d0, Some(1)).value;
    var d2 := AddLast(d1, Some(2)).value;
    var d3 := AddFirst(d2, Some(0)).value;
    assert Items(d3) == [0, 1, 2];
    var (x, d4) := RemoveFirst(d3).value;
    assert [0, 1, 2] == [x] + Items(d4);
    assert Items(d4) == [1, 2];
    var (y, d5) := RemoveLast(d4).value;
    assert [1, 2] == Items(d5) + [y];
    assert Items(d5) == [1];
    var d7 := AddFirst(AddLast(d5, Some(3)).value, Some(-1)).value;
    assert Items(d7) == [-1, 1, 3];
  }
}
