/** The linear queue of `src/queue.rs`: a `Vec` backend with `head` and `tail`
    cursors. `insert` calls `Vec::insert(tail, _)` and `remove` calls
    `Vec::remove(head)` and then advances `head`; because `Vec::remove` already
    shifts the later elements left, `head` runs ahead of the data. The index
    bounds of the two `Vec` calls are preconditions here, so the verifier
    shows exactly when the queue can be used without a panic. */
module LinearQueue {
  import opened RustStd

  /** `QueueError`: declared by the source and used by none of its operations. */
  datatype QueueError = Overflow | Underflow

  class Queue<T> {
    var backend: seq<T>
    var head: nat
    var tail: nat

    /** The object invariant: the cursors are ordered and the vector holds
        exactly `tail - head` elements. */
    ghost predicate Valid()
      reads this
    {
      head <= tail && |backend| == tail - head
    }

    /** `Vec::insert(tail, _)` is in bounds; on a valid queue that is the case
        exactly while nothing has been removed yet. */
    predicate InsertInBounds()
      reads this
      ensures Valid() ==> (InsertInBounds() <==> head == 0)
    {
      tail <= |backend|
    }

    /** `Vec::remove(head)` and `backend[head]` are in bounds; on a valid queue
        that is the case exactly while fewer than half of the inserted
        elements have been removed. */
    predicate HeadInBounds()
      reads this
      ensures Valid() ==> (HeadInBounds() <==> 2 * head < tail)
    {
      head < |backend|
    }

    /** `Queue::new`. */
    constructor ()
      ensures Valid() && InsertInBounds()
      ensures backend == [] && head == 0 && tail == 0
    {
      backend := [];
      head := 0;
      tail := 0;
    }

    /** `insert`: in bounds only while `head == 0`, and then it appends the
        element at the end of the vector. */
    method Insert(element: T)
      requires Valid() && InsertInBounds()
      modifies this
      ensures Valid() && InsertInBounds()
      ensures backend == old(backend) + [element]
      ensures head == old(head) == 0 && tail == old(tail) + 1
    {
      InsertAtEndIsPush(backend, element);
      backend := VecInsert(backend, tail, element);
      tail := tail + 1;
    }

    /** `remove`: `None` with nothing changed on an empty queue; otherwise the
        element at index `head`, removed from the vector, and `head` advanced.
        After it has removed an element no `insert` is in bounds any more. */
    method Remove() returns (r: Option<T>)
      requires Valid()
      requires head == tail || HeadInBounds()
      modifies this
      ensures Valid()
      ensures old(head) == old(tail) ==>
        r == None && backend == old(backend) && head == old(head) && tail == old(tail)
      ensures old(head) != old(tail) ==>
        r == Some(old(backend)[old(head)]) &&
        backend == old(backend)[..old(head)] + old(backend)[old(head) + 1..] &&
        head == old(head) + 1 && tail == old(tail) &&
        !InsertInBounds()
    {
      if head == tail {
        return None;
      }
      var removed := VecRemove(backend, head);
      backend := removed.1;
      head := head + 1;
      return Some(removed.0);
    }

    /** `peek`: `None` exactly on an empty queue, otherwise the element at
        index `head`; it changes nothing. */
    method Peek() returns (r: Option<T>)
      requires Valid()
      requires head == tail || HeadInBounds()
      ensures r.None? <==> head == tail
      ensures r.Some? ==> head < |backend| && r.value == backend[head]
    {
      if head == tail {
        return None;
      }
      return Some(backend[head]);
    }
  }

  /** Successive inserts into a queue from which nothing has been removed
      leave the inserted elements at the end of the vector, in order. */
  method InsertAll<T>(q: Queue<T>, xs: seq<T>)
    requires q.Valid() && q.InsertInBounds()
    modifies q
    ensures q.Valid() && q.InsertInBounds()
    ensures q.backend == old(q.backend) + xs
    ensures q.head == 0 && q.tail == old(q.tail) + |xs|
  {
    for i := 0 to |xs|
      invariant q.Valid() && q.InsertInBounds()
      invariant q.backend == old(q.backend) + xs[..i] && q.tail == old(q.tail) + i
    {
      q.Insert(xs[i]);
      assert xs[..i + 1] == xs[..i] + [xs[i]];
    }
    assert xs[..|xs|] == xs;
  }

  /** What removals really return: after inserting `xs` into a new queue,
      the `j`-th removal is in bounds exactly while `2 * j < |xs|`, and it
      returns `xs[2 * j]`, not `xs[j]`. Only the first removal follows
      insertion order. After `k` removals, `nextInBounds` says whether one
      more would be in bounds. */
  method RemovalsAfterInserts<T>(xs: seq<T>, k: nat) returns (removed: seq<Option<T>>, nextInBounds: bool)
    requires 2 * k <= |xs| + 1
    ensures |removed| == k
    ensures forall j :: 0 <= j < k ==> removed[j] == Some(xs[2 * j])
    ensures nextInBounds <==> 2 * k < |xs|
  {
    var q := new Queue<T>();
    InsertAll(q, xs);
    removed := [];
    for j := 0 to k
      invariant q.Valid() && q.head == j && q.tail == |xs|
      invariant forall m :: 0 <= m < j && 2 * m + 1 < |xs| ==> q.backend[m] == xs[2 * m + 1]
      invariant forall m :: j <= m < |q.backend| ==> q.backend[m] == xs[m + j]
      invariant |removed| == j
      invariant forall m :: 0 <= m < j ==> removed[m] == Some(xs[2 * m])
    {
      var r := q.Remove();
      removed := removed + [r];
    }
    nextInBounds := q.HeadInBounds();
  }

  /** After inserting 1, 2 and 3 and removing once, the next removal returns
      3: the element 2 is skipped. */
  method SecondRemovalSkips() returns (first: Option<int>, second: Option<int>)
    ensures first == Some(1) && second == Some(3)
  {
    var q := new Queue<int>();
    q.Insert(1);
    q.Insert(2);
    q.Insert(3);
    first := q.Remove();
    second := q.Remove();
  }

  /** After inserting 1 and 2 and removing once, the queue is not empty but
      `Vec::remove(head)` would index 1 in a vector of length 1: a second
      removal (or a peek) panics. */
  method SecondRemovalOutOfBounds() returns (first: Option<int>, empty: bool, inBounds: bool)
    ensures first == Some(1) && !empty && !inBounds
  {
    var q := new Queue<int>();
    q.Insert(1);
    q.Insert(2);
    first := q.Remove();
    empty := q.head == q.tail;
    inBounds := q.HeadInBounds();
  }

  /** After one insert and one removal, `Vec::insert(tail, _)` would index 1
      in an empty vector: any further insert panics. */
  method InsertAfterRemovalOutOfBounds() returns (first: Option<int>, inBounds: bool)
    ensures first == Some(1) && !inBounds
  {
    var q := new Queue<int>();
    q.Insert(1);
    first := q.Remove();
    inBounds := q.InsertInBounds();
  }

  /** The tests on a new queue: after inserting 1 the element at `head` is 1;
      after inserting 1 and 2, peek and remove both give 1; on an empty queue
      remove and peek give `None`. */
  method FreshQueueScenarios() returns (atHead: int, peeked: Option<int>, removed: Option<int>,
                                        emptyRemove: Option<int>, emptyPeek: Option<int>)
    ensures atHead == 1 && peeked == Some(1) && removed == Some(1)
    ensures emptyRemove == None && emptyPeek == None
  {
    var q := new Queue<int>();
    q.Insert(1);
    atHead := q.backend[q.head];
    var p := new Queue<int>();
    p.Insert(1);
    p.Insert(2);
    peeked := p.Peek();
    var r := new Queue<int>();
    r.Insert(1);
    r.Insert(2);
    removed := r.Remove();
    var e := new Queue<int>();
    emptyRemove := e.Remove();
    emptyPeek := e.Peek();
  }

  /** The queue as evidently intended: the same fields and the same calls,
      but `insert` places the element at `tail - head` (the end of the data)
      and `remove` takes index 0 (the oldest element), since `Vec::remove`
      already shifts the rest. Neither can go out of bounds. */
  class FixedQueue<T> {
    var backend: seq<T>
    var head: nat
    var tail: nat

    ghost predicate Valid()
      reads this
    {
      head <= tail && |backend| == tail - head
    }

    constructor ()
      ensures Valid() && backend == [] && head == 0 && tail == 0
    {
      backend := [];
      head := 0;
      tail := 0;
    }

    method Insert(element: T)
      requires Valid()
      modifies this
      ensures Valid()
      ensures backend == old(backend) + [element]
      ensures head == old(head) && tail == old(tail) + 1
    {
      InsertAtEndIsPush(backend, element);
      backend := VecInsert(backend, tail - head, element);
      tail := tail + 1;
    }

    method Remove() returns (r: Option<T>)
      requires Valid()
      modifies this
      ensures Valid()
      ensures old(head) == old(tail) ==>
        r == None && backend == old(backend) && head == old(head) && tail == old(tail)
      ensures old(head) != old(tail) ==>
        r == Some(old(backend)[0]) && backend == old(backend)[1..] &&
        head == old(head) + 1 && tail == old(tail)
    {
      if head == tail {
        return None;
      }
      var removed := VecRemove(backend, 0);
      backend := removed.1;
      head := head + 1;
      return Some(removed.0);
    }

    method Peek() returns (r: Option<T>)
      requires Valid()
      ensures r.None? <==> head == tail
      ensures r.Some? ==> r.value == backend[0]
    {
      if head == tail {
        return None;
      }
      return Some(backend[0]);
    }
  }

  /** FIFO for the corrected queue: inserting `xs` into a new queue and then
      removing `|xs|` times returns `xs` in insertion order, and one more
      removal returns `None`. */
  method FixedQueueIsFifo<T>(xs: seq<T>) returns (removed: seq<Option<T>>, extra: Option<T>)
    ensures |removed| == |xs|
    ensures forall j :: 0 <= j < |xs| ==> removed[j] == Some(xs[j])
    ensures extra == None
  {
    var q := new FixedQueue<T>();
    for i := 0 to |xs|
      invariant q.Valid() && q.backend == xs[..i]
    {
      q.Insert(xs[i]);
      assert xs[..i + 1] == xs[..i] + [xs[i]];
    }
    removed := [];
    for j := 0 to |xs|
      invariant q.Valid() && q.backend == xs[j..]
      invariant |removed| == j
      invariant forall m :: 0 <= m < j ==> removed[m] == Some(xs[m])
    {
      var r := q.Remove();
      removed := removed + [r];
    }
    extra := q.Remove();
  }
}
