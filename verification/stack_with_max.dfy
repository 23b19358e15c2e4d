/** A stack that answers "what is the maximum?" in constant time: every entry
    stores, next to its element, the index of a maximum of the entries from
    the bottom up to itself. Elements are integers (the template only needs
    operator<, and the program instantiates it with int). */
module StackWithMax {

  datatype Entry = Entry(element: int, maxIndex: int)

  /** The entries from bottom (index 0) to top. */
  datatype StackWithMax = StackWithMax(stack: seq<Entry>)

  /** The elements from bottom to top. */
  function Elements(s: StackWithMax): (e: seq<int>)
    ensures |e| == |s.stack|
  {
    seq(|s.stack|, i requires 0 <= i < |s.stack| => s.stack[i].element)
  }

  /** Position m holds the earliest maximum of the elements at positions 0..i. */
  predicate EarliestMax(stack: seq<Entry>, i: int, m: int) {
    && 0 <= m <= i < |stack|
    && (forall k :: 0 <= k <= i ==> stack[k].element <= stack[m].element)
    && (forall k :: 0 <= k < m ==> stack[k].element < stack[m].element)
  }

  /** Entry i stores the earliest position of the maximum up to itself. */
  predicate EntryValid(stack: seq<Entry>, i: int)
    requires 0 <= i < |stack|
  {
    EarliestMax(stack, i, stack[i].maxIndex)
  }

  predicate Valid(s: StackWithMax) {
    forall i :: 0 <= i < |s.stack| ==> EntryValid(s.stack, i)
  }

  /** A new stack holds no entries. */
  function New(): (s: StackWithMax)
    ensures Valid(s) && Elements(s) == []
  {
    StackWithMax([])
  }

  function Size(s: StackWithMax): (n: int)
    ensures n == |Elements(s)|
  {
    |s.stack|
  }

  function Empty(s: StackWithMax): (b: bool)
    ensures b <==> Elements(s) == []
  {
    |s.stack| == 0
  }

  /** top(): the element pushed last. */
  function Top(s: StackWithMax): (x: int)
    requires |s.stack| > 0
    ensures x == Elements(s)[|Elements(s)| - 1]
  {
    s.stack[|s.stack| - 1].element
  }

  /** max(): the largest element on the stack. */
  function Max(s: StackWithMax): (x: int)
    requires Valid(s) && |s.stack| > 0
    ensures x in Elements(s)
    ensures forall e :: e in Elements(s) ==> e <= x
  {
    var m := s.stack[|s.stack| - 1].maxIndex;
    assert EntryValid(s.stack, |s.stack| - 1);
    assert Elements(s)[m] == s.stack[m].element;
    s.stack[m].element
  }

  /** The position max() reads: the earliest position of the maximum. */
  function MaxPosition(s: StackWithMax): (m: int)
    requires Valid(s) && |s.stack| > 0
    ensures 0 <= m < |s.stack| && Elements(s)[m] == Max(s)
    ensures forall k :: 0 <= k < m ==> Elements(s)[k] < Max(s)
  {
    assert EntryValid(s.stack, |s.stack| - 1);
    s.stack[|s.stack| - 1].maxIndex
  }

  /** pop(): removes the top entry and nothing else. */
  function Pop(s: StackWithMax): (r: StackWithMax)
    requires Valid(s) && |s.stack| > 0
    ensures Valid(r)
    ensures Elements(r) == Elements(s)[..|Elements(s)| - 1]
  {
    var r := StackWithMax(s.stack[..|s.stack| - 1]);
    assert Valid(r) by {
      forall i | 0 <= i < |r.stack|
        ensures EntryValid(r.stack, i)
      {
        assert EntryValid(s.stack, i);
        assert forall k :: 0 <= k <= i ==> r.stack[k] == s.stack[k];
      }
    }
    r
  }

  /** The entry for e on top of s is valid when it names e's own index after a
      smaller maximum, and the maximum's index otherwise. */
  lemma PushValid(s: StackWithMax, e: int, index: int)
    requires Valid(s) && |s.stack| > 0
    requires index == if Max(s) < e then |s.stack| else s.stack[|s.stack| - 1].maxIndex
    ensures Valid(StackWithMax(s.stack + [Entry(e, index)]))
  {
    var n, t := |s.stack|, s.stack + [Entry(e, index)];
    var top := s.stack[n - 1].maxIndex;
    assert EntryValid(s.stack, n - 1);
    assert Max(s) == s.stack[top].element;
    forall i | 0 <= i < |t|
      ensures EntryValid(t, i)
    {
      if i < n {
        assert EntryValid(s.stack, i);
        assert forall k :: 0 <= k <= i ==> t[k] == s.stack[k];
      } else {
        assert forall k :: 0 <= k < n ==> t[k] == s.stack[k];
      }
    }
  }

  /** push(e): the new entry records its own index when e exceeds the current
      maximum, and the current maximum's index otherwise (so ties keep the
      earlier index). */
  function Push(s: StackWithMax, e: int): (r: StackWithMax)
    requires Valid(s)
    ensures Valid(r)
    ensures Elements(r) == Elements(s) + [e]
    ensures |s.stack| > 0 && e == Max(s) ==> MaxPosition(r) == MaxPosition(s)
  {
    if |s.stack| == 0 then
      StackWithMax([Entry(e, 0)])
    else
      var biggest := s.stack[|s.stack| - 1].maxIndex;
      var index := if Max(s) < e then |s.stack| else biggest;
      var r := StackWithMax(s.stack + [Entry(e, index)]);
      PushValid(s, e, index);
      assert Elements(r) == Elements(s) + [e];
      r
  }

  /** Pushing and then popping gives back the same stack. */
  lemma PushPop(s: StackWithMax, e: int)
    requires Valid(s)
    ensures Pop(Push(s, e)) == s
  {
    assert Push(s, e).stack[..|s.stack|] == s.stack;
  }

  /** After push(e), max() is the larger of e and the previous maximum. */
  lemma MaxAfterPush(s: StackWithMax, e: int)
    requires Valid(s)
    ensures Max(Push(s, e)) == if |s.stack| == 0 || Max(s) < e then e else Max(s)
  {
    var r := Push(s, e);
    assert e in Elements(r) by {
      assert Elements(r)[|s.stack|] == e;
    }
    if |s.stack| > 0 {
      assert Max(s) in Elements(r) by {
        var j :| 0 <= j < |s.stack| && Elements(s)[j] == Max(s);
        assert Elements(r)[j] == Max(s);
      }
      forall x | x in Elements(r)
        ensures x == e || x in Elements(s)
      {
        var j :| 0 <= j < |Elements(r)| && Elements(r)[j] == x;
        if j < |s.stack| {
          assert Elements(s)[j] == x;
        }
      }
    }
  }
}
