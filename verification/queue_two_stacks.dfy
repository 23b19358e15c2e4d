/** A FIFO queue built from two stacks: enqueue pushes on the in-stack;
    dequeue pops the out-stack, first moving the whole in-stack over when the
    out-stack is empty. A stack is a sequence whose last element is its top. */
module QueueTwoStacks {
  import opened Wrappers

  datatype Queue<T> = Queue(inStack: seq<T>, outStack: seq<T>)

  function Reverse<T>(s: seq<T>): (r: seq<T>)
    ensures |r| == |s|
    ensures forall i :: 0 <= i < |s| ==> r[i] == s[|s| - 1 - i]
  {
    if |s| == 0 then [] else [s[|s| - 1]] + Reverse(s[..|s| - 1])
  }

  /** The queue from front to back: the out-stack read from its top, then the
      in-stack read from its bottom. */
  function Contents<T>(q: Queue<T>): seq<T> {
    Reverse(q.outStack) + q.inStack
  }

  /** A new queue: both stacks empty. */
  function New<T>(): (q: Queue<T>)
    ensures Contents(q) == []
  {
    Queue([], [])
  }

  /** isEmpty(): both stacks are empty. */
  function IsEmpty<T>(q: Queue<T>): (b: bool)
    ensures b <==> Contents(q) == []
  {
    |q.inStack| == 0 && |q.outStack| == 0
  }

  /** enqueue(v): push on the in-stack, which appends v at the back. */
  function Enqueue<T>(q: Queue<T>, v: T): (r: Queue<T>)
    ensures Contents(r) == Contents(q) + [v]
    ensures r.outStack == q.outStack
  {
    Queue(q.inStack + [v], q.outStack)
  }

  /** The transfer loop: pop the in-stack and push each element on the
      out-stack until the in-stack is empty. */
  function Transfer<T>(inStack: seq<T>, outStack: seq<T>): (r: (seq<T>, seq<T>))
    ensures r.0 == []
    ensures Reverse(r.1) == inStack + Reverse(outStack)
    decreases |inStack|
  {
    if |inStack| == 0 then ([], outStack)
    else
      var top := inStack[|inStack| - 1];
      var r := Transfer(inStack[..|inStack| - 1], outStack + [top]);
      assert Reverse(outStack + [top]) == [top] + Reverse(outStack);
      assert inStack[..|inStack| - 1] + [top] == inStack;
      r
  }

  /** dequeue(): the front element and the queue without it; an empty queue
      raises runtime_error. Elements move over only when the out-stack is
      empty. */
  function Dequeue<T>(q: Queue<T>): (r: Result<(T, Queue<T>)>)
    ensures r.Err? <==> Contents(q) == []
    ensures r.Err? ==> r.error == RuntimeError
    ensures r.Ok? ==> r.value.0 == Contents(q)[0] && Contents(r.value.1) == Contents(q)[1..]
    ensures r.Ok? && |q.outStack| > 0 ==> r.value.1.inStack == q.inStack
  {
    if IsEmpty(q) then Err(RuntimeError)
    else
      var moved := if |q.outStack| == 0 then Transfer(q.inStack, q.outStack) else (q.inStack, q.outStack);
      var out := moved.1;
      assert Reverse(out) + moved.0 == Contents(q);
      var front := out[|out| - 1];
      var rest := Queue(moved.0, out[..|out| - 1]);
      assert Reverse(out) == [front] + Reverse(out[..|out| - 1]);
      Ok((front, rest))
  }

  /** The queue's contents depend only on the order of enqueues and
      dequeues: dequeuing after an enqueue on a non-empty queue gives the same
      element as dequeuing first. */
  lemma DequeueAfterEnqueue<T>(q: Queue<T>, v: T)
    requires Contents(q) != []
    ensures Dequeue(Enqueue(q, v)).Ok? && Dequeue(q).Ok?
    ensures Dequeue(Enqueue(q, v)).value.0 == Dequeue(q).value.0
    ensures Contents(Dequeue(Enqueue(q, v)).value.1) == Contents(Enqueue(Dequeue(q).value.1, v))
  {
    var c := Contents(q);
    assert (c + [v])[0] == c[0];
    assert (c + [v])[1..] == c[1..] + [v];
  }
}
