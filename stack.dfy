/** The bounded stack of `src/stack.rs`: a `Vec` backend, a `top` counter and
    a fixed `size`. Overflow is detected at `top == size - 1`, so at most
    `size - 1` (2047) elements are ever held. */
module BoundedStack {
  import opened RustStd

  /** `StackError`. */
  datatype StackError = Overflow | Underflow

  /** The `size` every stack is created with. */
  const DEFAULT_SIZE: nat := 2048

  /** What `push` returns: `Ok(())`, or the rejected element handed back with
      `Overflow`. */
  type PushResult<T> = Result<(), (Option<T>, StackError)>

  class Stack<T> {
    var backend: seq<T>
    var top: nat
    var size: nat

    /** The object invariant: `top` counts the elements of `backend`, the
        capacity never changes from its default, and the stack never holds
        more than `size - 1` elements. */
    ghost predicate Valid()
      reads this
    {
      size == DEFAULT_SIZE && |backend| == top && top <= size - 1
    }

    /** `Stack::new`. */
    constructor ()
      ensures Valid()
      ensures backend == [] && top == 0 && size == DEFAULT_SIZE
    {
      backend := [];
      top := 0;
      size := DEFAULT_SIZE;
    }

    /** `push`: rejected, with the element handed back and nothing changed,
        once `top == size - 1`; otherwise the element becomes the new top. */
    method Push(element: T) returns (r: PushResult<T>)
      requires Valid()
      modifies this
      ensures Valid() && size == old(size)
      ensures old(top) == size - 1 ==>
        r == Err((Some(element), Overflow)) && backend == old(backend) && top == old(top)
      ensures old(top) < size - 1 ==>
        r == Ok(()) && backend == old(backend) + [element] && top == old(top) + 1
    {
      if top == size - 1 {
        return Err((Some(element), Overflow));
      }
      backend := VecPush(backend, element);
      top := top + 1;
      return Ok(());
    }

    /** `pop`: `Underflow` with nothing changed on an empty stack; otherwise the
        most recently pushed element, removed. The `unwrap` of the `Vec::pop`
        result is proved never to fail. */
    method Pop() returns (r: Result<T, StackError>)
      requires Valid()
      modifies this
      ensures Valid() && size == old(size)
      ensures old(top) == 0 ==>
        r == Err(Underflow) && backend == old(backend) && top == old(top)
      ensures old(top) > 0 ==>
        r == Ok(old(backend)[old(top) - 1]) && backend == old(backend)[..old(top) - 1] && top == old(top) - 1
    {
      if top == 0 {
        return Err(Underflow);
      }
      var popped := VecPop(backend);
      backend := popped.1;
      top := top - 1;
      return Ok(popped.0.value);
    }

    /** `peek`: `None` exactly on an empty stack, otherwise the last pushed
        element; it changes nothing. */
    method Peek() returns (r: Option<T>)
      requires Valid()
      ensures r.None? <==> top == 0
      ensures r.Some? ==> |backend| > 0 && r.value == backend[|backend| - 1]
    {
      if top == 0 {
        return None;
      }
      return Some(backend[top - 1]);
    }
  }

  /** LIFO for one element: a push that is accepted followed by a pop gives the
      element back and restores the stack exactly. */
  method PushThenPop<T>(s: Stack<T>, x: T) returns (popped: Result<T, StackError>)
    requires s.Valid() && s.top < s.size - 1
    modifies s
    ensures s.Valid()
    ensures popped == Ok(x)
    ensures s.backend == old(s.backend) && s.top == old(s.top) && s.size == old(s.size)
  {
    var pushed := s.Push(x);
    ghost var afterPush := s.backend;
    popped := s.Pop();
    assert afterPush[..|afterPush| - 1] == old(s.backend);
  }

  /** LIFO for a run of operations: pushing `xs` and then popping `|xs|` times
      yields `xs` in reverse order and leaves the stack as it was. */
  method PushAllThenPopAll<T>(s: Stack<T>, xs: seq<T>) returns (out: seq<T>)
    requires s.Valid() && s.top + |xs| <= s.size - 1
    modifies s
    ensures s.Valid() && s.backend == old(s.backend) && s.top == old(s.top)
    ensures |out| == |xs|
    ensures forall k :: 0 <= k < |xs| ==> out[k] == xs[|xs| - 1 - k]
  {
    for i := 0 to |xs|
      invariant s.Valid() && s.backend == old(s.backend) + xs[..i]
    {
      var r := s.Push(xs[i]);
      assert xs[..i + 1] == xs[..i] + [xs[i]];
    }
    out := [];
    for i := 0 to |xs|
      invariant s.Valid() && s.backend == old(s.backend) + xs[..|xs| - i]
      invariant |out| == i
      invariant forall k :: 0 <= k < i ==> out[k] == xs[|xs| - 1 - k]
    {
      ghost var before := s.backend;
      var r := s.Pop();
      assert xs[..|xs| - i] == xs[..|xs| - i - 1] + [xs[|xs| - i - 1]];
      assert before[..|before| - 1] == old(s.backend) + xs[..|xs| - i - 1];
      out := out + [r.value];
    }
    assert xs[..0] == [] && old(s.backend) + [] == old(s.backend);
  }

  /** The overflow test: on a new stack, pushing 0, 1, ..., 2048 in turn
      succeeds for the first 2047 values, and the pushes of 2047 and 2048
      both fail with `Overflow` and hand back their own value. */
  method PushOverSize() returns (results: seq<PushResult<int>>)
    ensures |results| == 2049
    ensures forall i :: 0 <= i < 2047 ==> results[i] == Ok(())
    ensures forall i :: 2047 <= i < 2049 ==> results[i] == Err((Some(i), Overflow))
  {
    var s := new Stack<int>();
    results := [];
    for i := 0 to 2049
      invariant s.Valid() && s.top == if i < 2047 then i else 2047
      invariant |results| == i
      invariant forall k :: 0 <= k < i && k < 2047 ==> results[k] == Ok(())
      invariant forall k :: 2047 <= k < i ==> results[k] == Err((Some(k), Overflow))
    {
      var r := s.Push(i);
      results := results + [r];
    }
  }

  /** The push, pop and peek tests on a new stack: popping what was pushed
      gives it back, peek shows the last of two pushes, peek on a new stack is
      `None`, and pop on a new stack is `Underflow`. */
  method FreshStackScenarios() returns (popped: Result<int, StackError>, peeked: Option<int>,
                                        emptyPeek: Option<int>, emptyPop: Result<int, StackError>)
    ensures popped == Ok(1)
    ensures peeked == Some(2)
    ensures emptyPeek == None && emptyPop == Err(Underflow)
  {
    var s := new Stack<int>();
    var r := s.Push(1);
    popped := s.Pop();
    var p := new Stack<int>();
    r := p.Push(1);
    r := p.Push(2);
    peeked := p.Peek();
    var e := new Stack<int>();
    emptyPeek := e.Peek();
    emptyPop := e.Pop();
  }
}
