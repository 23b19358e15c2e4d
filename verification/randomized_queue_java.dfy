/** The Java randomized queue: a resizing array whose first `size` slots
    hold the items. Java references may be null, so slots are Option values
    and enqueue's argument is one too. The random index of dequeue() and
    sample() and the shuffle of the iterator are parameters. */
module RandomizedQueueJava {
  import opened Wrappers
  import Shuffle

  /** The initial capacity, and the growth factor of the array. */
  const Resize := 2

  datatype RandomizedQueue<T> = RandomizedQueue(queue: seq<Option<T>>, size: int)

  /** The first `size` slots are filled and the rest are null; the array
      never shrinks below its initial capacity. */
  ghost predicate Valid<T>(q: RandomizedQueue<T>) {
    && Resize <= |q.queue|
    && 0 <= q.size <= |q.queue|
    && (forall i :: 0 <= i < |q.queue| ==> (q.queue[i].Some? <==> i < q.size))
  }

  /** The items in slot order; the queue's contents are their multiset. */
  function Items<T>(q: RandomizedQueue<T>): (s: seq<T>)
    requires Valid(q)
    ensures |s| == q.size
    ensures forall i :: 0 <= i < q.size ==> q.queue[i] == Some(s[i])
  {
    seq(q.size, i requires 0 <= i < q.size => q.queue[i].value)
  }

  function Capacity<T>(q: RandomizedQueue<T>): int {
    |q.queue|
  }

  function New<T>(): (q: RandomizedQueue<T>)
    ensures Valid(q) && Items(q) == [] && Capacity(q) == Resize
  {
    RandomizedQueue(seq(Resize, _ => None), 0)
  }

  function IsEmpty<T>(q: RandomizedQueue<T>): (b: bool)
    requires Valid(q)
    ensures b <==> Items(q) == []
  {
    q.size == 0
  }

  function Size<T>(q: RandomizedQueue<T>): (n: int)
    requires Valid(q)
    ensures n == |Items(q)|
  {
    q.size
  }

  /** resize(newSize): a fresh array of the new length holding the first
      `size` items. */
  function ResizeTo<T>(q: RandomizedQueue<T>, newSize: int): (r: RandomizedQueue<T>)
    requires Valid(q) && Resize <= newSize && q.size <= newSize
    ensures Valid(r) && Capacity(r) == newSize && Items(r) == Items(q)
  {
    RandomizedQueue(seq(newSize, i requires 0 <= i < newSize => if i < q.size then q.queue[i] else None), q.size)
  }

  /** enqueue(item): null is rejected with IllegalArgumentException; a full
      array doubles first; the item goes into the first free slot. */
  function Enqueue<T>(q: RandomizedQueue<T>, item: Option<T>): (r: Result<RandomizedQueue<T>>)
    requires Valid(q)
    ensures r.Err? <==> item.None?
    ensures r.Err? ==> r.error == IllegalArgument
    ensures r.Ok? ==> Valid(r.value) && Items(r.value) == Items(q) + [item.value]
    ensures r.Ok? ==> Capacity(r.value) == if q.size == Capacity(q) then Resize * Capacity(q) else Capacity(q)
  {
    if item.None? then Err(IllegalArgument)
    else
      var grown := if q.size == |q.queue| then ResizeTo(q, Resize * |q.queue|) else q;
      var r := RandomizedQueue(grown.queue[grown.size := item], grown.size + 1);
      assert Items(r) == Items(grown) + [item.value];
      Ok(r)
  }

  /** A random index is one of the current slots. */
  predicate IndexFits<T>(q: RandomizedQueue<T>, k: int)
    requires Valid(q)
  {
    q.size == 0 || 0 <= k < q.size
  }

  /** dequeue() with random index k: an empty queue raises
      NoSuchElementException; otherwise the item in slot k is returned, the
      last item moves into slot k, and the array halves when it falls to a
      quarter full. */
  function Dequeue<T>(q: RandomizedQueue<T>, k: int): (r: Result<(T, RandomizedQueue<T>)>)
    requires Valid(q) && IndexFits(q, k)
    ensures r.Err? <==> Items(q) == []
    ensures r.Err? ==> r.error == NoSuchElement
    ensures r.Ok? ==> var (x, q') := r.value;
      && Valid(q') && x == Items(q)[k]
      && Items(q') == Items(q)[k := Items(q)[q.size - 1]][..q.size - 1]
      && multiset(Items(q')) == multiset(Items(q)) - multiset{x}
    ensures r.Ok? ==> var q' := r.value.1;
      Capacity(q') == if 0 < q'.size == Capacity(q) / (Resize * Resize) then Capacity(q) / Resize else Capacity(q)
  {
    if IsEmpty(q) then Err(NoSuchElement)
    else
      var item := q.queue[k].value;
      var moved := q.queue[k := q.queue[q.size - 1]][q.size - 1 := None];
      var shrunk := RandomizedQueue(moved, q.size - 1);
      MoveLastInto(q, k, shrunk);
      var r := if shrunk.size > 0 && shrunk.size == |moved| / (Resize * Resize) then ResizeTo(shrunk, |moved| / Resize) else shrunk;
      Ok((item, r))
  }

  /** The slots after moving the last item into slot k and nulling the last
      slot. */
  lemma MoveLastInto<T>(q: RandomizedQueue<T>, k: int, r: RandomizedQueue<T>)
    requires Valid(q) && 0 <= k < q.size
    requires r == RandomizedQueue(q.queue[k := q.queue[q.size - 1]][q.size - 1 := None], q.size - 1)
    ensures Valid(r)
    ensures Items(r) == Items(q)[k := Items(q)[q.size - 1]][..q.size - 1]
    ensures multiset(Items(r)) == multiset(Items(q)) - multiset{Items(q)[k]}
  {
    var s := Items(q);
    assert Items(r) == s[k := s[q.size - 1]][..q.size - 1];
    RemovalMultiset(s, k);
  }

  /** Overwriting slot k with the last item and dropping the last slot
      removes exactly the item at k. */
  lemma RemovalMultiset<T>(s: seq<T>, k: int)
    requires 0 <= k < |s|
    ensures multiset(s[k := s[|s| - 1]][..|s| - 1]) == multiset(s) - multiset{s[k]}
  {
    var n := |s|;
    var t := s[k := s[n - 1]];
    assert s == s[..n - 1] + [s[n - 1]];
    assert t == t[..n - 1] + [s[n - 1]];
    if k < n - 1 {
      assert s[..n - 1] == s[..k] + [s[k]] + s[k + 1..n - 1];
      assert t[..n - 1] == s[..k] + [s[n - 1]] + s[k + 1..n - 1];
    } else {
      assert t[..n - 1] == s[..n - 1];
    }
  }

  /** sample() with random index k: the item in slot k, the queue untouched. */
  function Sample<T>(q: RandomizedQueue<T>, k: int): (r: Result<T>)
    requires Valid(q) && IndexFits(q, k)
    ensures r.Err? <==> Items(q) == []
    ensures r.Err? ==> r.error == NoSuchElement
    ensures r.Ok? ==> r.value == Items(q)[k] && r.value in multiset(Items(q))
  {
    if IsEmpty(q) then Err(NoSuchElement) else Ok(q.queue[k].value)
  }

  /** The iterator owns a shuffled copy of the items and a cursor. */
  datatype Iterator<T> = Iterator(shuffled: seq<T>, current: int)

  /** iterator(): copy the first `size` slots and shuffle the copy with the
      given draws. */
  function MakeIterator<T>(q: RandomizedQueue<T>, offsets: seq<int>): (it: Iterator<T>)
    requires Valid(q) && Shuffle.ValidOffsets(offsets, q.size)
    ensures multiset(it.shuffled) == multiset(Items(q)) && it.current == 0
  {
    Iterator(Shuffle.Shuffle(Items(q), offsets), 0)
  }

  function HasNext<T>(it: Iterator<T>): (b: bool)
    requires 0 <= it.current <= |it.shuffled|
    ensures b <==> it.current < |it.shuffled|
  {
    it.current < |it.shuffled|
  }

  /** next(): NoSuchElementException once every item has been returned. */
  function Next<T>(it: Iterator<T>): (r: Result<(T, Iterator<T>)>)
    requires 0 <= it.current <= |it.shuffled|
    ensures r.Err? <==> it.current == |it.shuffled|
    ensures r.Err? ==> r.error == NoSuchElement
    ensures r.Ok? ==> r.value.0 == it.shuffled[it.current]
    ensures r.Ok? ==> r.value.1 == Iterator(it.shuffled, it.current + 1)
  {
    if !HasNext(it) then Err(NoSuchElement)
    else Ok((it.shuffled[it.current], it.(current := it.current + 1)))
  }

  /** remove(): not supported. */
  function Remove<T>(it: Iterator<T>): Result<Iterator<T>> {
    Err(UnsupportedOperation)
  }

  /** A for-each loop yields every item exactly as often as it is queued. */
  method ForEach<T>(q: RandomizedQueue<T>, offsets: seq<int>) returns (out: seq<T>)
    requires Valid(q) && Shuffle.ValidOffsets(offsets, q.size)
    ensures multiset(out) == multiset(Items(q))
  {
    var it := MakeIterator(q, offsets);
    out := [];
    while HasNext(it)
      invariant 0 <= it.current <= |it.shuffled| && multiset(it.shuffled) == multiset(Items(q))
      invariant out == it.shuffled[..it.current]
      decreases |it.shuffled| - it.current
    {
      var r := Next(it);
      out := out + [r.value.0];
      it := r.value.1;
    }
    assert out == it.shuffled;
  }

  predicate PowerOfTwo(n: int)
    decreases n
  {
    n == 1 || (n > 1 && n % 2 == 0 && PowerOfTwo(n / 2))
  }

  /** Space stays linear in the number of items: the capacity is the
      initial capacity times a power of two, and beyond the initial capacity
      the array is more than a quarter full. */
  ghost predicate LoadBounded<T>(q: RandomizedQueue<T>) {
    && PowerOfTwo(Capacity(q))
    && (Capacity(q) == Resize || Capacity(q) < Resize * Resize * q.size)
  }

  lemma NewLoadBounded<T>()
    ensures LoadBounded(New<T>())
  {
    assert PowerOfTwo(1);
  }

  lemma EnqueueKeepsLoadBounded<T>(q: RandomizedQueue<T>, x: T)
    requires Valid(q) && LoadBounded(q)
    ensures LoadBounded(Enqueue(q, Some(x)).value)
  {
    var c := Capacity(q);
    if q.size == c {
      assert (Resize * c) / 2 == c;
    }
  }

  lemma {:induction false} PowerOfTwoQuarters(n: int)
    requires PowerOfTwo(n) && n >= 4
    ensures n % 4 == 0 && PowerOfTwo(n / 2)
  {
    assert n / 2 > 1;
  }

  lemma DequeueKeepsLoadBounded<T>(q: RandomizedQueue<T>, k: int)
    requires Valid(q) && IndexFits(q, k) && q.size > 0 && LoadBounded(q)
    ensures LoadBounded(Dequeue(q, k).value.1)
  {
    var c := Capacity(q);
    if c != Resize {
      PowerOfTwoQuarters(c);
    }
  }
}
