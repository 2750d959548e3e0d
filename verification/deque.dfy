/** The double-ended queue: a growable circular buffer whose live elements,
    read from the front slot onwards and wrapping round the end of the array,
    are the deque from front to back. */
module DequeModel {
  import opened Wrappers

  /** The capacity of a new deque's buffer. */
  const InitialCapacity: nat := 4

  /** Slot `k` of a circular buffer of `n` slots, for `k` less than two laps. */
  function Wrap(k: nat, n: nat): (r: nat)
    requires k < 2 * n
    ensures r < n && (r == k || r == k - n)
  {
    if k < n then k else k - n
  }

  class Deque<T(0)> {
    /** The elements from front to back. */
    ghost var Contents: seq<T>
    ghost var Repr: set<object>

    var data: array<T>
    /** The slot holding the front element. */
    var head: nat
    var count: nat

    ghost predicate Valid()
      reads this, Repr
      ensures Valid() ==> this in Repr
    {
      && Repr == {this, data}
      && data.Length > 0 && head < data.Length && count <= data.Length
      && |Contents| == count
      && forall i | 0 <= i < count :: Contents[i] == data[Wrap(head + i, data.Length)]
    }

    constructor ()
      ensures Valid() && fresh(Repr)
      ensures Contents == []
    {
      data := new T[InitialCapacity];
      head, count := 0, 0;
      Contents := [];
      Repr := {this, data};
    }

    method Size() returns (n: nat)
      requires Valid()
      ensures n == |Contents|
    {
      n := count;
    }

    method IsEmpty() returns (b: bool)
      requires Valid()
      ensures b <==> |Contents| == 0
    {
      b := count == 0;
    }

    /** Copy the elements, front first, to the start of a buffer twice as
        large; the contents stay as they were. */
    method Grow()
      requires Valid()
      modifies Repr
      ensures Valid() && fresh(Repr - old(Repr))
      ensures Contents == old(Contents)
      ensures count < data.Length
    {
      var bigger := new T[2 * data.Length];
      var i := 0;
      while i < count
        modifies bigger
        invariant 0 <= i <= count
        invariant forall j | 0 <= j < i :: bigger[j] == Contents[j]
      {
        bigger[i] := data[Wrap(head + i, data.Length)];
        i := i + 1;
      }
      data, head := bigger, 0;
      Repr := {this, data};
    }

    /** `addFirst(elem)`: `null` is refused with an invalid-argument error and
        changes nothing; otherwise the element becomes the new front. */
    method AddFirst(v: Option<T>) returns (r: Result<()>)
      requires Valid()
      modifies Repr
      ensures Valid() && fresh(Repr - old(Repr))
      ensures v.None? ==> r == Failure(IllegalArgumentException) && Contents == old(Contents)
      ensures v.Some? ==> r == Success(()) && Contents == [v.value] + old(Contents)
    {
      if v.None? {
        return Failure(IllegalArgumentException);
      }
      if count == data.Length {
        Grow();
      }
      head := if head == 0 then data.Length - 1 else head - 1;
      data[head] := v.value;
      count := count + 1;
      Contents := [v.value] + Contents;
      r := Success(());
    }

    /** `addLast(elem)`: `null` is refused with an invalid-argument error and
        changes nothing; otherwise the element becomes the new back. */
    method AddLast(v: Option<T>) returns (r: Result<()>)
      requires Valid()
      modifies Repr
      ensures Valid() && fresh(Repr - old(Repr))
      ensures v.None? ==> r == Failure(IllegalArgumentException) && Contents == old(Contents)
      ensures v.Some? ==> r == Success(()) && Contents == old(Contents) + [v.value]
    {
      if v.None? {
        return Failure(IllegalArgumentException);
      }
      if count == data.Length {
        Grow();
      }
      data[Wrap(head + count, data.Length)] := v.value;
      count := count + 1;
      Contents := Contents + [v.value];
      r := Success(());
    }

    /** `removeFirst()`: on an empty deque a no-such-element error and no
        change; otherwise the front element, which leaves the deque. */
    method RemoveFirst() returns (r: Result<T>)
      requires Valid()
      modifies Repr
      ensures Valid() && fresh(Repr - old(Repr))
      ensures old(Contents) == [] ==> r == Failure(NoSuchElementException) && Contents == []
      ensures old(Contents) != [] ==> r == Success(old(Contents)[0]) && Contents == old(Contents)[1..]
    {
      if count == 0 {
        return Failure(NoSuchElementException);
      }
      r := Success(data[head]);
      head := if head + 1 == data.Length then 0 else head + 1;
      count := count - 1;
      Contents := Contents[1..];
    }

    /** `removeLast()`: on an empty deque a no-such-element error and no
        change; otherwise the back element, which leaves the deque. */
    method RemoveLast() returns (r: Result<T>)
      requires Valid()
      modifies Repr
      ensures Valid() && fresh(Repr - old(Repr))
      ensures old(Contents) == [] ==> r == Failure(NoSuchElementException) && Contents == []
      ensures old(Contents) != [] ==> r == Success(old(Contents)[|old(Contents)| - 1]) && Contents == old(Contents)[..|old(Contents)| - 1]
    {
      if count == 0 {
        return Failure(NoSuchElementException);
      }
      r := Success(data[Wrap(head + count - 1, data.Length)]);
      count := count - 1;
      Contents := Contents[..count];
    }

    /** `iterator()`: the elements visited front to back. */
    method Elements() returns (s: seq<T>)
      requires Valid()
      ensures s == Contents
    {
      s := [];
      var i := 0;
      while i < count
        invariant 0 <= i <= count
        invariant s == Contents[..i]
      {
        s := s + [data[Wrap(head + i, data.Length)]];
        i := i + 1;
      }
    }
  }

  // ---------------------------------------------------------------------------
  // The test suite's scenarios, for a deque of integers

  /** n - 1, n - 2, ..., 0 */
  function Descending(n: nat): seq<int> {
    seq(n, k requires 0 <= k < n => n - 1 - k)
  }

  /** 0, 1, ..., n - 1 */
  function Ascending(n: nat): seq<int> {
    seq(n, k requires 0 <= k < n => k)
  }

  /** Emptiness along addFirst(1), removeLast(). */
  method IsEmptyScenario() returns (empties: seq<bool>)
    ensures empties == [true, false, true]
  {
    var q := new Deque<int>();
    var e0 := q.IsEmpty();
    var _ := q.AddFirst(Some(1));
    var e1 := q.IsEmpty();
    var _ := q.RemoveLast();
    var e2 := q.IsEmpty();
    empties := [e0, e1, e2];
  }

  /** Sizes and emptiness along addFirst(1), addLast(2), removeFirst(),
      removeLast(). */
  method SizeScenario() returns (sizes: seq<nat>, empties: seq<bool>)
    ensures sizes == [0, 1, 2, 1, 0]
    ensures empties == [true, false, false, false, true]
  {
    var q := new Deque<int>();
    var n0 := q.Size();
    var e0 := q.IsEmpty();
    var _ := q.AddFirst(Some(1));
    var n1 := q.Size();
    var e1 := q.IsEmpty();
    var _ := q.AddLast(Some(2));
    var n2 := q.Size();
    var e2 := q.IsEmpty();
    var _ := q.RemoveFirst();
    var n3 := q.Size();
    var e3 := q.IsEmpty();
    var _ := q.RemoveLast();
    var n4 := q.Size();
    var e4 := q.IsEmpty();
    sizes, empties := [n0, n1, n2, n3, n4], [e0, e1, e2, e3, e4];
  }

  /** addFirst(1), addLast(2), then two removeFirst() give 1 and 2;
      addFirst(10), addFirst(20), then two removeLast() give 10 and 20. */
  method AddRemoveScenario() returns (removed: seq<Result<int>>)
    ensures removed == [Success(1), Success(2), Success(10), Success(20)]
  {
    var q := new Deque<int>();
    var _ := q.AddFirst(Some(1));
    var _ := q.AddLast(Some(2));
    var a := q.RemoveFirst();
    var b := q.RemoveFirst();
    var _ := q.AddFirst(Some(10));
    var _ := q.AddFirst(Some(20));
    var c := q.RemoveLast();
    var d := q.RemoveLast();
    removed := [a, b, c, d];
  }

  /** Removing from an empty deque, and adding `null`, are errors. */
  method ErrorScenario() returns (errors: seq<Result<int>>, added: seq<Result<()>>, size: nat)
    ensures errors == [Failure(NoSuchElementException), Failure(NoSuchElementException)]
    ensures added == [Failure(IllegalArgumentException), Failure(IllegalArgumentException)]
    ensures size == 0
  {
    var q := new Deque<int>();
    var a := q.RemoveFirst();
    var b := q.RemoveLast();
    errors := [a, b];
    var c := q.AddFirst(None);
    var d := q.AddLast(None);
    added := [c, d];
    size := q.Size();
  }

  /** addFirst(0), ..., addFirst(n - 1) in turn. */
  method AddFirstUpTo(q: Deque<int>, n: nat)
    requires q.Valid()
    modifies q.Repr
    ensures q.Valid() && fresh(q.Repr - old(q.Repr))
    ensures q.Contents == Descending(n) + old(q.Contents)
  {
    var i := 0;
    while i < n
      invariant 0 <= i <= n
      invariant q.Valid() && fresh(q.Repr - old(q.Repr))
      invariant q.Contents == Descending(i) + old(q.Contents)
    {
      var _ := q.AddFirst(Some(i));
      assert [i] + Descending(i) == Descending(i + 1);
      i := i + 1;
    }
  }

  /** addLast(0), ..., addLast(n - 1) in turn. */
  method AddLastUpTo(q: Deque<int>, n: nat)
    requires q.Valid()
    modifies q.Repr
    ensures q.Valid() && fresh(q.Repr - old(q.Repr))
    ensures q.Contents == old(q.Contents) + Ascending(n)
  {
    var i := 0;
    while i < n
      invariant 0 <= i <= n
      invariant q.Valid() && fresh(q.Repr - old(q.Repr))
      invariant q.Contents == old(q.Contents) + Ascending(i)
    {
      var _ := q.AddLast(Some(i));
      assert Ascending(i) + [i] == Ascending(i + 1);
      i := i + 1;
    }
  }

  /** removeFirst() and removeLast() in turn until the deque is empty, on a
      deque of even size. */
  method RemoveInPairs(q: Deque<int>)
    requires q.Valid() && |q.Contents| % 2 == 0
    modifies q.Repr
    ensures q.Valid() && fresh(q.Repr - old(q.Repr))
    ensures q.Contents == []
  {
    var k := q.Size();
    while k > 0
      invariant k % 2 == 0
      invariant q.Valid() && fresh(q.Repr - old(q.Repr))
      invariant |q.Contents| == k
    {
      var _ := q.RemoveFirst();
      var _ := q.RemoveLast();
      k := k - 2;
    }
  }

  /** addFirst(0), ..., addFirst(n - 1) iterates as n - 1, ..., 0; then
      addLast(0), ..., addLast(n - 1) iterates as n - 1, ..., 0, 0, ..., n - 1;
      then n rounds of removeFirst() and removeLast() empty the deque. */
  method IteratorScenario(n: nat) returns (front: seq<int>, both: seq<int>, rest: seq<int>)
    ensures front == Descending(n)
    ensures both == Descending(n) + Ascending(n) && |both| == 2 * n
    ensures rest == []
  {
    var q := new Deque<int>();
    AddFirstUpTo(q, n);
    assert q.Contents == Descending(n);
    front := q.Elements();
    AddLastUpTo(q, n);
    both := q.Elements();
    RemoveInPairs(q);
    rest := q.Elements();
  }
}
