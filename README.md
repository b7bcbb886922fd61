# dsa-rust containers and sorts, modelled in Dafny

This project models three small sequential components of the `dsa-rust`
library and proves properties of them:

- **`Stack<T>`** (`src/stack.rs`): a bounded stack with a `Vec` backend, a `top`
  counter and a fixed `size` of 2048. `push` rejects an element once
  `top == size - 1` and hands it back with `Overflow`. So the stack never holds
  more than 2047 elements. `pop` on an empty stack reports `Underflow`.
- **`Queue<T>`** (`src/queue.rs`): a linear queue with a `Vec` backend and `head`
  and `tail` cursors. `insert` calls `Vec::insert(tail, x)`. `remove` calls
  `Vec::remove(head)` and then advances `head`. The `Vec` index bounds are
  preconditions, which shows exactly when the queue can be used without a
  panic.
- **`bubble` and `selection`** (`src/sort.rs`): in-place sorts of a vector.

Each component is modelled in the form of its code:

- `Stack` and `Queue` are classes whose fields match the Rust struct. Their
  methods update the fields in place and state the whole new state.
- Each sort is a method over an `array<int>` with the source's loops. It is
  proved equal to a recursive function whose recursion follows those loops
  one iteration at a time.
- The sorting properties (permutation, sortedness, the examples from the
  tests, counterexamples) are lemmas about those functions.
- The Rust library calls the code makes (`Vec::push`, `pop`, `insert`,
  `remove`) are functions in `RustStd`, with the bounds at which Rust panics.

The code differs from what the library is evidently meant to do in three places:

1. The queue is not FIFO after its first removal. It panics soon after that.
2. `selection` does not sort in general.
3. Both sorts underflow an unsigned index on some inputs.

The model follows the code as written; "## Findings" lists each difference, with
a corrected definition and the intended property proved about it. The
stack's capacity of 2047 rather than 2048 is what its own test expects
(`src/stack.rs:92-112`), so it is modelled, not reported.

A debug build panics on unsigned underflow. The sorts model such a panic as a
returned `Outcome` (`LenUnderflow` for `vec.len() - 1` on an empty vector,
`BoundUnderflow` for `unsorted_until -= 1` at 0). The array then holds
whatever it held at the moment of the panic.

Files: `rust_std.dfy` (module `RustStd`), `stack.dfy` (`BoundedStack`),
`queue.dfy` (`LinearQueue`), `sort.dfy` (`Sort`).

## Model

| member | source | states |
|---|---|---|
| `RustStd.VecPush` | src/stack.rs:26 | the pushed element is last and every earlier element is kept in place |
| `RustStd.VecPop` | src/stack.rs:35 | `None` exactly on an empty vector, which is left unchanged; otherwise pushing the returned element back onto the rest gives the original vector |
| `RustStd.VecInsert` | src/queue.rs:23 | needs `index <= len`; the new element is at `index`, earlier elements stay and later ones move one place right |
| `RustStd.VecRemove` | src/queue.rs:31 | needs `index < len`; returns the element at `index`, earlier elements stay and later ones move one place left |
| `RustStd.PopAfterPush` | src/stack.rs:26-37 | popping right after a push returns the pushed element and the vector as before |
| `RustStd.RemoveAfterInsert` | src/queue.rs:23-31 | removing at the index just inserted at returns the element and the vector as before |
| `RustStd.InsertAtEndIsPush` | src/queue.rs:23 | inserting at index `len` is a push |
| `BoundedStack.Stack.constructor` | src/stack.rs:14-20 | a new stack is empty, `top == 0`, `size == 2048`, and satisfies the invariant `\|backend\| == top <= size - 1` |
| `BoundedStack.Stack.Push` | src/stack.rs:22-29 | keeps the invariant and `size`; at `top == size - 1` returns `Err((Some(element), Overflow))` with the state unchanged, otherwise returns `Ok(())`, appends the element and increments `top` |
| `BoundedStack.Stack.Pop` | src/stack.rs:31-38 | keeps the invariant and `size`; on an empty stack returns `Err(Underflow)` with the state unchanged, otherwise returns the last element, drops it and decrements `top`; the `unwrap` never fails |
| `BoundedStack.Stack.Peek` | src/stack.rs:40-46 | changes nothing; `None` exactly when `top == 0`, otherwise the last pushed element |
| `BoundedStack.PushThenPop` | src/stack.rs:22-38 | LIFO for one element: an accepted push followed by a pop returns `Ok(x)` and restores `backend`, `top` and `size` |
| `BoundedStack.PushAllThenPopAll` | src/stack.rs:22-38 | LIFO for a run: pushing `xs` then popping `\|xs\|` times returns `xs` reversed and restores the stack |
| `BoundedStack.PushOverSize` | src/stack.rs:92-112 | on a new stack, pushing 0..2048 in turn succeeds for 0..2046; the pushes of 2047 and 2048 return `Err((Some(i), Overflow))` with their own value |
| `BoundedStack.FreshStackScenarios` | src/stack.rs:53-90 | the recorded tests: push 1 then pop gives `Ok(1)`; peek after pushing 1 and 2 gives 2; peek on a new stack is `None` and pop is `Err(Underflow)` |
| `LinearQueue.Queue.InsertInBounds` | src/queue.rs:23 | the bound of `Vec::insert(tail, _)`; on a valid queue it holds exactly when `head == 0` |
| `LinearQueue.Queue.HeadInBounds` | src/queue.rs:31 | the bound of `Vec::remove(head)` and `backend[head]`; on a valid queue it holds exactly when `2 * head < tail` |
| `LinearQueue.Queue.constructor` | src/queue.rs:14-20 | a new queue is empty with `head == tail == 0`, valid, and an insert is in bounds |
| `LinearQueue.Queue.Insert` | src/queue.rs:22-25 | requires the `Vec::insert` bound, which holds only while `head == 0`; appends the element and increments `tail`, keeping `head <= tail` and `\|backend\| == tail - head` |
| `LinearQueue.Queue.Remove` | src/queue.rs:27-34 | on an empty queue returns `None` with the state unchanged; otherwise requires the `Vec::remove` bound, returns `backend[head]`, removes it, increments `head`, keeps the invariant, and leaves every later insert out of bounds |
| `LinearQueue.Queue.Peek` | src/queue.rs:36-42 | changes nothing; `None` exactly when `head == tail`, otherwise `backend[head]`, under the same bound as `remove` |
| `LinearQueue.InsertAll` | src/queue.rs:22-25 | while nothing has been removed, successive inserts append the elements in order and keep `head == 0` |
| `LinearQueue.RemovalsAfterInserts` | src/queue.rs:22-34 | after inserting `xs` into a new queue, the `j`-th removal is in bounds exactly when `2 * j < \|xs\|` and then returns `xs[2 * j]`; after `k` removals one more is in bounds if and only if `2 * k < \|xs\|` |
| `LinearQueue.SecondRemovalSkips` | src/queue.rs:27-34 | after inserting 1, 2, 3, the first removal returns 1 and the second returns 3 |
| `LinearQueue.SecondRemovalOutOfBounds` | src/queue.rs:31-33 | after inserting 1, 2 and removing 1, the queue is non-empty but `Vec::remove(head)` is out of bounds |
| `LinearQueue.InsertAfterRemovalOutOfBounds` | src/queue.rs:23-32 | after inserting 1 and removing it, `Vec::insert(tail, _)` is out of bounds |
| `LinearQueue.FreshQueueScenarios` | src/queue.rs:49-85 | the recorded tests: after inserting 1 the element at `head` is 1; after inserting 1 and 2 peek and remove give 1; remove and peek on a new queue give `None` |
| `LinearQueue.FixedQueue.constructor` | src/queue.rs:14-20 | corrected queue: a new one is empty and valid |
| `LinearQueue.FixedQueue.Insert` | src/queue.rs:22-25 | corrected queue: inserting at `tail - head` always appends, with no bound to meet |
| `LinearQueue.FixedQueue.Remove` | src/queue.rs:27-34 | corrected queue: `None` when empty, otherwise the oldest element, removed from the front, with no bound to meet |
| `LinearQueue.FixedQueue.Peek` | src/queue.rs:36-42 | corrected queue: `None` exactly when empty, otherwise the oldest element |
| `LinearQueue.FixedQueueIsFifo` | src/queue.rs:22-34 | corrected queue: removing after inserting `xs` returns `xs` in insertion order, then `None` |
| `Sort.Swap` | src/sort.rs:8 | exchanges the two positions and keeps every other element |
| `Sort.SwapPermutes` | src/sort.rs:8 | a swap keeps the multiset of elements |
| `Sort.BubblePass` | src/sort.rs:6-11 | a pass keeps the length and the elements after `unsorted_until`; it leaves `sorted` true only if it was true before, and then the pass swapped nothing and the vector is unchanged |
| `Sort.BubblePassPermutes` | src/sort.rs:6-11 | a pass keeps the multiset of elements |
| `Sort.BubbleLoop` | src/sort.rs:4-13 | the loop keeps the length and never ends with the empty-vector underflow |
| `Sort.BubbleLoopPermutes` | src/sort.rs:4-13 | the loop keeps the multiset of elements, however it ends |
| `Sort.BubbleOf` | src/sort.rs:1-14 | `bubble` keeps the length, and fails at `vec.len() - 1` exactly on the empty vector |
| `Sort.BubblePassStep` | src/sort.rs:6-11 | inductive step of a pass: the current element is the largest so far, and while nothing is swapped the prefix is sorted |
| `Sort.BubblePassSettles` | src/sort.rs:6-12 | after a pass, the vector from `unsorted_until` on is sorted and no smaller than anything before it; a pass without a swap leaves the vector sorted |
| `Sort.BubbleLoopSorts` | src/sort.rs:4-13 | whenever the loop stops, normally or at the underflowing decrement, the vector is sorted |
| `Sort.BubbleSorts` | src/sort.rs:1-14 | `bubble` returns a permutation of its input, sorted whenever the input is non-empty |
| `Sort.BubblePassKeepsSorted` | src/sort.rs:6-11 | a pass over a sorted vector swaps nothing and keeps the flag |
| `Sort.BubbleIdempotent` | src/sort.rs:1-14 | a sorted input of length at least 2 is returned unchanged with `Finished`; running `bubble` on its own finished result gives the same result |
| `Sort.BubbleExample` | src/sort.rs:36-41 | `[5, 3, 4, 1, 2]` becomes `[1, 2, 3, 4, 5]` and the run finishes |
| `Sort.BubbleUnderflows` | src/sort.rs:3-12 | `[]` fails at `vec.len() - 1`; `[x]` and `[2, 1]` fail at `unsorted_until -= 1` |
| `Sort.Bubble` | src/sort.rs:1-14 | the array method leaves exactly what `BubbleOf` computes; the result is a permutation of the input, sorted unless the input was empty |
| `Sort.ScanSmallest` | src/sort.rs:20-24 | the scan leaves `smallest` where it was or moves it to a scanned index |
| `Sort.ScanSmallestIsMinimal` | src/sort.rs:20-24 | the scan ends at an element no larger than the starting `smallest` element or any scanned element |
| `Sort.SelectionPass` | src/sort.rs:20-27 | one pass keeps the length and puts at `start` the element the new `smallest` pointed at |
| `Sort.SelectionPassPermutes` | src/sort.rs:25-27 | a pass keeps the multiset of elements |
| `Sort.SelectionLoop` | src/sort.rs:19-29 | the loop keeps the length |
| `Sort.SelectionLoopPermutes` | src/sort.rs:19-29 | the loop keeps the multiset of elements |
| `Sort.SelectionOf` | src/sort.rs:16-30 | `selection` keeps the length, and fails at `vec.len() - 1` exactly on the empty vector |
| `Sort.SelectionPermutes` | src/sort.rs:16-30 | `selection` returns a permutation of its input |
| `Sort.SelectionSingleton` | src/sort.rs:19 | on one element, no pass runs and the vector is unchanged |
| `Sort.SelectionExampleFirstPasses` | src/sort.rs:43-48 | the first two passes on `[5, 3, 4, 1, 2]` |
| `Sort.SelectionExampleLastPasses` | src/sort.rs:43-48 | the last two passes on `[5, 3, 4, 1, 2]` |
| `Sort.SelectionExample` | src/sort.rs:43-48 | `[5, 3, 4, 1, 2]` becomes `[1, 2, 3, 4, 5]` |
| `Sort.SelectionMissorts` | src/sort.rs:17-27 | because `smallest` is not reset per pass, `[1, 2, 3]` becomes `[2, 1, 3]`, which is not sorted |
| `Sort.SelectionPassInPlace` | src/sort.rs:20-27 | one pass of the outer loop on the array (the scan, then the swap) leaves exactly what `SelectionPass` computes |
| `Sort.Selection` | src/sort.rs:16-30 | the array method leaves exactly what `SelectionOf` computes, a permutation of the input; on a non-empty vector the outer loop runs `len - 1` passes |
| `Sort.BubbleFixedLoop` | src/sort.rs:4-13 | corrected loop (stops at bound 0): keeps the length |
| `Sort.BubbleFixed` | src/sort.rs:1-14 | corrected `bubble` (empty vector left alone): keeps the length |
| `Sort.BubbleFixedLoopPermutes` | src/sort.rs:4-13 | the corrected loop keeps the multiset of elements |
| `Sort.BubbleFixedLoopSorts` | src/sort.rs:4-13 | the corrected loop sorts |
| `Sort.BubbleLoopAgrees` | src/sort.rs:4-13 | where the original loop finishes, the corrected loop gives the same vector |
| `Sort.BubbleFixedSorts` | src/sort.rs:1-14 | the corrected `bubble` returns a sorted permutation of every input, the empty one included, and agrees with the original wherever that finishes |
| `Sort.SelectionFixedLoop` | src/sort.rs:19-29 | corrected loop (`smallest` reset to `start` each pass): keeps the length |
| `Sort.SelectionFixed` | src/sort.rs:16-30 | corrected `selection` (empty vector left alone): keeps the length |
| `Sort.SelectionFixedLoopPermutes` | src/sort.rs:19-29 | the corrected loop keeps the multiset of elements |
| `Sort.SelectionFixedPassSettles` | src/sort.rs:20-27 | a corrected pass extends the sorted prefix, none of which exceeds any later element, by one |
| `Sort.SelectionFixedLoopSorts` | src/sort.rs:19-29 | the corrected loop sorts |
| `Sort.SelectionFixedSorts` | src/sort.rs:16-30 | the corrected `selection` returns a sorted permutation of every input |
| `Sort.SelectionFixedExample` | src/sort.rs:17-27 | the corrected `selection` leaves `[1, 2, 3]` unchanged |

## Left out

- The circular queue, insertion sort and any shared error type are not in `src/stack.rs`, `src/queue.rs` or `src/sort.rs`, so they are not part of this model.
- Ownership, borrowing and lifetimes: `peek` returns the element as a value rather than a `&T`. The `Option<T>` handed back on overflow is a plain value.
- The sorts are over `int`; the generic `T: Copy + Ord` and its trait machinery are not modelled. The containers keep a type parameter `T`.
- Integers are unbounded. In the stack, `top` never exceeds 2047 and `size` is always 2048, so a `usize` cannot wrap there. The queue's `head` and `tail` could in principle overflow `usize` after 2^64 inserts; that is not modelled.
- In release builds an unsigned subtraction wraps instead of panicking. Only the debug behaviour, under which the tests run, is modelled.
- A panic is modelled as a precondition (the queue's `Vec` bounds) or as a returned `Outcome` (the sorts). Unwinding is not modelled.
- The O(n) shifting cost of `Vec::insert` and `Vec::remove`, and `Vec` capacity and reallocation, are not modelled. A `Vec` is its sequence of elements.
- `QueueError` is declared but never used by the source; it is declared in the model and used nowhere.
- `Sort.Selection`: it is not proved to sort in general, because it does not (see `Sort.SelectionMissorts`); only the recorded example is proved sorted.
- The test-harness mechanics (`assert!`, `expect`, `#[cfg(test)]`) are not modelled. The tests appear as example methods and lemmas.

## Findings

| source | as written | input that shows it | evidently intended | confidence | as-written member | corrected member |
|---|---|---|---|---|---|---|
| src/queue.rs:31-32 | `remove` takes `Vec::remove(head)` and then advances `head`, though `Vec::remove` has already shifted the rest left | insert 1, 2, 3; remove; remove | the second removal returns 2 (FIFO) | not executed | `LinearQueue.SecondRemovalSkips` | `LinearQueue.FixedQueueIsFifo` |
| src/queue.rs:31 | the second `remove` indexes past the end of the shrunken vector | insert 1, 2; remove; remove | the second removal returns 2 | not executed | `LinearQueue.SecondRemovalOutOfBounds` | `LinearQueue.FixedQueue.Remove` |
| src/queue.rs:23 | `insert` uses `Vec::insert(tail, _)`, which is out of bounds once anything has been removed | insert 1; remove; insert 2 | the insert succeeds | not executed | `LinearQueue.InsertAfterRemovalOutOfBounds` | `LinearQueue.FixedQueue.Insert` |
| src/sort.rs:17 | `smallest` is set once before the outer loop and never reset to `start` | `[1, 2, 3]` becomes `[2, 1, 3]` | `[1, 2, 3]` | not executed | `Sort.SelectionMissorts` | `Sort.SelectionFixedSorts` |
| src/sort.rs:3 | `vec.len() - 1` underflows on an empty vector | `[]` | the empty vector is left alone | not executed | `Sort.BubbleUnderflows` | `Sort.BubbleFixedSorts` |
| src/sort.rs:19 | `vec.len() - 1` underflows on an empty vector | `[]` | the empty vector is left alone | not executed | `Sort.SelectionOf` | `Sort.SelectionFixedSorts` |
| src/sort.rs:12 | `unsorted_until -= 1` underflows after a pass with `unsorted_until == 0` | `[7]`, `[2, 1]` | the sort stops, leaving `[7]` and `[1, 2]` | not executed | `Sort.BubbleUnderflows` | `Sort.BubbleFixedSorts` |
