/** The in-place sorts of `src/sort.rs`, over `int` elements. Each routine is
    a method on an array that is proved to compute a recursive function whose
    recursion follows the routine's loops step by step; the properties are
    lemmas about those functions. An unsigned subtraction that would go below
    zero panics in a debug build; here the method stops and reports it in its
    `Outcome`, with the array as it was at that moment. */
module Sort {

  /** How a run ended: normally, at the unsigned `vec.len() - 1` on an empty
      vector, or at the unsigned `unsorted_until -= 1` with `unsorted_until`
      already 0. */
  datatype Outcome = Finished | LenUnderflow | BoundUnderflow

  ghost predicate Sorted(s: seq<int>)
  {
    forall i, j :: 0 <= i < j < |s| ==> s[i] <= s[j]
  }

  /** From index `k` on, `s` is sorted and no element before `k` exceeds an
      element from `k` on. */
  ghost predicate SettledFrom(s: seq<int>, k: nat)
  {
    (forall i, j :: k <= i < j < |s| ==> s[i] <= s[j]) &&
    (forall i, j :: 0 <= i < k <= j < |s| ==> s[i] <= s[j])
  }

  /** The tuple assignment `(vec[i], vec[j]) = (vec[j], vec[i])`. */
  function Swap(s: seq<int>, i: nat, j: nat): (r: seq<int>)
    requires i < |s| && j < |s|
    ensures |r| == |s| && r[i] == s[j] && r[j] == s[i]
    ensures forall k :: 0 <= k < |s| && k != i && k != j ==> r[k] == s[k]
  {
    s[i := s[j]][j := s[i]]
  }

  /** A swap keeps the multiset of elements. */
  lemma SwapPermutes(s: seq<int>, i: nat, j: nat)
    requires i < |s| && j < |s|
    ensures multiset(Swap(s, i, j)) == multiset(s)
  {
  }

  // ---------------------------------------------------------------- bubble

  /** The `for i in 0..unsorted_until` loop of `bubble`, from index `i` on,
      with the `sorted` flag as it stands: the vector and the flag at the end
      of the pass. Only indices up to `until` are touched. */
  function BubblePass(s: seq<int>, i: nat, until: nat, sorted: bool): (r: (seq<int>, bool))
    requires i <= until < |s|
    ensures |r.0| == |s|
    ensures forall k :: until < k < |s| ==> r.0[k] == s[k]
    ensures r.1 ==> sorted && r.0 == s
    decreases until - i
  {
    if i == until then (s, sorted)
    else if s[i] > s[i + 1] then BubblePass(Swap(s, i, i + 1), i + 1, until, false)
    else BubblePass(s, i + 1, until, sorted)
  }

  /** The `while !sorted` loop of `bubble`, entered with `unsorted_until ==
      until`: one pass, then the decrement (which panics at 0), then the
      loop test. */
  function BubbleLoop(s: seq<int>, until: nat): (r: (seq<int>, Outcome))
    requires until < |s|
    ensures |r.0| == |s|
    ensures r.1 != LenUnderflow
    decreases until
  {
    var pass := BubblePass(s, 0, until, true);
    if until == 0 then (pass.0, BoundUnderflow)
    else if pass.1 then (pass.0, Finished)
    else BubbleLoop(pass.0, until - 1)
  }

  /** `bubble` as written: `vec.len() - 1` panics on an empty vector. */
  function BubbleOf(s: seq<int>): (r: (seq<int>, Outcome))
    ensures |r.0| == |s|
    ensures r.1 == LenUnderflow <==> |s| == 0
  {
    if |s| == 0 then (s, LenUnderflow) else BubbleLoop(s, |s| - 1)
  }

  /** A pass only swaps, so it keeps the multiset of elements. */
  lemma {:induction false} BubblePassPermutes(s: seq<int>, i: nat, until: nat, sorted: bool)
    requires i <= until < |s|
    ensures multiset(BubblePass(s, i, until, sorted).0) == multiset(s)
    decreases until - i
  {
    if i < until {
      if s[i] > s[i + 1] {
        SwapPermutes(s, i, i + 1);
        BubblePassPermutes(Swap(s, i, i + 1), i + 1, until, false);
      } else {
        BubblePassPermutes(s, i + 1, until, sorted);
      }
    }
  }

  /** The whole loop keeps the multiset of elements, however it ends. */
  lemma {:induction false} BubbleLoopPermutes(s: seq<int>, until: nat)
    requires until < |s|
    ensures multiset(BubbleLoop(s, until).0) == multiset(s)
    decreases until
  {
    var pass := BubblePass(s, 0, until, true);
    BubblePassPermutes(s, 0, until, true);
    if until > 0 && !pass.1 {
      BubbleLoopPermutes(pass.0, until - 1);
    }
  }

  /** The inductive step of a pass: `s[i]` is the largest of `s[..i + 1]`,
      the part after `until` is settled, and while no swap has happened the
      prefix up to `i` is sorted. */
  lemma {:induction false} BubblePassStep(s: seq<int>, i: nat, until: nat, sorted: bool)
    requires i <= until < |s|
    requires forall k :: 0 <= k < i ==> s[k] <= s[i]
    requires SettledFrom(s, until + 1)
    requires sorted ==> forall a, b :: 0 <= a < b <= i ==> s[a] <= s[b]
    ensures SettledFrom(BubblePass(s, i, until, sorted).0, until)
    ensures BubblePass(s, i, until, sorted).1 ==> Sorted(BubblePass(s, i, until, sorted).0)
    decreases until - i
  {
    if i == until {
    } else if s[i] > s[i + 1] {
      var t := Swap(s, i, i + 1);
      forall k | 0 <= k < i + 1 ensures t[k] <= t[i + 1] {
        if k < i { assert t[k] == s[k]; }
      }
      assert SettledFrom(t, until + 1) by {
        forall a, b | 0 <= a < until + 1 <= b < |t| ensures t[a] <= t[b] {
          assert t[b] == s[b];
          if a == i { assert t[a] == s[i + 1]; }
          else if a == i + 1 { assert t[a] == s[i]; }
          else { assert t[a] == s[a]; }
        }
      }
      BubblePassStep(t, i + 1, until, false);
    } else {
      BubblePassStep(s, i + 1, until, sorted);
    }
  }

  /** After a pass with bound `until`, the vector is settled from `until`
      on: the largest element of `s[..until + 1]` has moved to index
      `until`. If the pass made no swap, the whole vector is sorted. */
  lemma BubblePassSettles(s: seq<int>, until: nat)
    requires until < |s| && SettledFrom(s, until + 1)
    ensures SettledFrom(BubblePass(s, 0, until, true).0, until)
    ensures BubblePass(s, 0, until, true).1 ==> Sorted(BubblePass(s, 0, until, true).0)
  {
    BubblePassStep(s, 0, until, true);
  }

  /** Whenever the `while` loop stops, normally or at the underflowing
      decrement, the vector is sorted. */
  lemma {:induction false} BubbleLoopSorts(s: seq<int>, until: nat)
    requires until < |s| && SettledFrom(s, until + 1)
    ensures Sorted(BubbleLoop(s, until).0)
    decreases until
  {
    var pass := BubblePass(s, 0, until, true);
    BubblePassSettles(s, until);
    if until > 0 && !pass.1 {
      BubbleLoopSorts(pass.0, until - 1);
    }
  }

  /** `bubble` sorts every non-empty vector; the result is a permutation of
      the input whichever way the run ends. */
  lemma BubbleSorts(s: seq<int>)
    ensures multiset(BubbleOf(s).0) == multiset(s)
    ensures |s| > 0 ==> Sorted(BubbleOf(s).0)
  {
    if |s| > 0 {
      BubbleLoopSorts(s, |s| - 1);
      BubbleLoopPermutes(s, |s| - 1);
    }
  }

  /** A pass over a sorted vector swaps nothing and keeps the flag. */
  lemma {:induction false} BubblePassKeepsSorted(s: seq<int>, i: nat, until: nat, sorted: bool)
    requires i <= until < |s| && Sorted(s)
    ensures BubblePass(s, i, until, sorted) == (s, sorted)
    decreases until - i
  {
    if i < until {
      BubblePassKeepsSorted(s, i + 1, until, sorted);
    }
  }

  /** On a sorted vector of at least two elements `bubble` stops after one
      pass without changing anything; so sorting twice gives what sorting
      once gave, whenever the first run finished. */
  lemma BubbleIdempotent(s: seq<int>)
    ensures Sorted(s) && |s| >= 2 ==> BubbleOf(s) == (s, Finished)
    ensures BubbleOf(s).1 == Finished ==> BubbleOf(BubbleOf(s).0) == BubbleOf(s)
  {
    if Sorted(s) && |s| >= 2 {
      BubblePassKeepsSorted(s, 0, |s| - 1, true);
    }
    var r := BubbleOf(s).0;
    if BubbleOf(s).1 == Finished && |s| >= 2 {
      BubbleSorts(s);
      BubblePassKeepsSorted(r, 0, |r| - 1, true);
    }
  }

  /** The recorded test: `[5, 3, 4, 1, 2]` becomes `[1, 2, 3, 4, 5]`. */
  lemma BubbleExample()
    ensures BubbleOf([5, 3, 4, 1, 2]) == ([1, 2, 3, 4, 5], Finished)
  {
    // the passes with `unsorted_until` 4, 3, 2 and 1; the last one swaps nothing
    assert Swap([5, 3, 4, 1, 2], 0, 1) == [3, 5, 4, 1, 2];
    assert Swap([3, 5, 4, 1, 2], 1, 2) == [3, 4, 5, 1, 2];
    assert Swap([3, 4, 5, 1, 2], 2, 3) == [3, 4, 1, 5, 2];
    assert Swap([3, 4, 1, 5, 2], 3, 4) == [3, 4, 1, 2, 5];
    assert BubblePass([5, 3, 4, 1, 2], 0, 4, true) == ([3, 4, 1, 2, 5], false);
    assert Swap([3, 4, 1, 2, 5], 1, 2) == [3, 1, 4, 2, 5];
    assert Swap([3, 1, 4, 2, 5], 2, 3) == [3, 1, 2, 4, 5];
    assert BubblePass([3, 4, 1, 2, 5], 0, 3, true) == ([3, 1, 2, 4, 5], false);
    assert Swap([3, 1, 2, 4, 5], 0, 1) == [1, 3, 2, 4, 5];
    assert Swap([1, 3, 2, 4, 5], 1, 2) == [1, 2, 3, 4, 5];
    assert BubblePass([3, 1, 2, 4, 5], 0, 2, true) == ([1, 2, 3, 4, 5], false);
    assert BubblePass([1, 2, 3, 4, 5], 0, 1, true) == ([1, 2, 3, 4, 5], true);
  }

  /** The unsigned underflows: an empty vector fails at `vec.len() - 1`; a
      vector of one element, and `[2, 1]` (whose only pass swaps), fail at
      `unsorted_until -= 1` after a pass with `unsorted_until == 0`. */
  lemma BubbleUnderflows(x: int)
    ensures BubbleOf([]) == ([], LenUnderflow)
    ensures BubbleOf([x]) == ([x], BoundUnderflow)
    ensures BubbleOf([2, 1]) == ([1, 2], BoundUnderflow)
  {
    assert Swap([2, 1], 0, 1) == [1, 2];
    assert BubblePass([2, 1], 0, 1, true) == ([1, 2], false);
  }

  /** `bubble` on `vec`: it leaves in `vec` what `BubbleOf` computes, a
      sorted permutation of the input unless the input was empty. */
  method Bubble(vec: array<int>) returns (outcome: Outcome)
    modifies vec
    ensures (vec[..], outcome) == BubbleOf(old(vec[..]))
    ensures multiset(vec[..]) == multiset(old(vec[..]))
    ensures outcome != LenUnderflow ==> Sorted(vec[..])
  {
    ghost var input := vec[..];
    BubbleSorts(input);
    if vec.Length == 0 {
      return LenUnderflow;
    }
    var sorted := false;
    var unsortedUntil: nat := vec.Length - 1;
    while !sorted
      invariant unsortedUntil < vec.Length
      invariant !sorted ==> BubbleLoop(vec[..], unsortedUntil) == BubbleOf(input)
      invariant sorted ==> (vec[..], Finished) == BubbleOf(input)
      decreases if sorted then 0 else unsortedUntil + 1
    {
      ghost var passStart := vec[..];
      sorted := true;
      for i := 0 to unsortedUntil
        invariant BubblePass(vec[..], i, unsortedUntil, sorted) == BubblePass(passStart, 0, unsortedUntil, true)
      {
        if vec[i] > vec[i + 1] {
          vec[i], vec[i + 1] := vec[i + 1], vec[i];
          sorted := false;
        }
      }
      if unsortedUntil == 0 {
        return BoundUnderflow;
      }
      unsortedUntil := unsortedUntil - 1;
    }
    return Finished;
  }

  // ------------------------------------------------------------- selection

  /** The `for i in start..vec.len()` loop of `selection`, from index `i` on:
      where `smallest` ends up. It stays where it was or moves to a scanned
      index. */
  function ScanSmallest(s: seq<int>, i: nat, smallest: nat): (r: nat)
    requires i <= |s| && smallest < |s|
    ensures r < |s| && (r == smallest || i <= r)
    decreases |s| - i
  {
    if i == |s| then smallest
    else ScanSmallest(s, i + 1, if s[i] < s[smallest] then i else smallest)
  }

  /** The scan ends at an element no larger than the one `smallest` started
      at, nor than any element it scanned. */
  lemma {:induction false} ScanSmallestIsMinimal(s: seq<int>, i: nat, smallest: nat)
    requires i <= |s| && smallest < |s|
    ensures s[ScanSmallest(s, i, smallest)] <= s[smallest]
    ensures forall k :: i <= k < |s| ==> s[ScanSmallest(s, i, smallest)] <= s[k]
    decreases |s| - i
  {
    if i < |s| {
      ScanSmallestIsMinimal(s, i + 1, if s[i] < s[smallest] then i else smallest);
    }
  }

  /** The body of the `while` loop of `selection` at `start`, before
      `start += 1`: the scan, then the swap of `vec[start]` with
      `vec[smallest]` when the two indices differ. Gives the vector and the
      new `smallest`, whose old element now sits at `start`. */
  function SelectionPass(s: seq<int>, start: nat, smallest: nat): (r: (seq<int>, nat))
    requires start < |s| && smallest < |s|
    ensures |r.0| == |s| && r.1 < |s| && (r.1 == smallest || start <= r.1)
    ensures r.0[start] == s[r.1]
  {
    var m := ScanSmallest(s, start, smallest);
    (if start != m then Swap(s, start, m) else s, m)
  }

  /** The `while start != vec.len() - 1` loop of `selection`, entered with
      the given `start` and `smallest`; `smallest` carries over from one pass
      to the next. */
  function SelectionLoop(s: seq<int>, start: nat, smallest: nat): (r: seq<int>)
    requires start < |s| && smallest < |s|
    ensures |r| == |s|
    decreases |s| - start
  {
    if start == |s| - 1 then s
    else
      var pass := SelectionPass(s, start, smallest);
      SelectionLoop(pass.0, start + 1, pass.1)
  }

  /** `selection` as written: `vec.len() - 1` panics on an empty vector. */
  function SelectionOf(s: seq<int>): (r: (seq<int>, Outcome))
    ensures |r.0| == |s|
    ensures r.1 == LenUnderflow <==> |s| == 0
    ensures r.1 != BoundUnderflow
  {
    if |s| == 0 then (s, LenUnderflow) else (SelectionLoop(s, 0, 0), Finished)
  }

  /** `selection` only swaps, so it keeps the multiset of elements. */
  lemma SelectionPassPermutes(s: seq<int>, start: nat, smallest: nat)
    requires start < |s| && smallest < |s|
    ensures multiset(SelectionPass(s, start, smallest).0) == multiset(s)
  {
    SwapPermutes(s, start, ScanSmallest(s, start, smallest));
  }

  lemma {:induction false} SelectionLoopPermutes(s: seq<int>, start: nat, smallest: nat)
    requires start < |s| && smallest < |s|
    ensures multiset(SelectionLoop(s, start, smallest)) == multiset(s)
    decreases |s| - start
  {
    if start < |s| - 1 {
      var pass := SelectionPass(s, start, smallest);
      SelectionPassPermutes(s, start, smallest);
      SelectionLoopPermutes(pass.0, start + 1, pass.1);
    }
  }

  lemma SelectionPermutes(s: seq<int>)
    ensures multiset(SelectionOf(s).0) == multiset(s)
  {
    if |s| > 0 {
      SelectionLoopPermutes(s, 0, 0);
    }
  }

  /** On a single element `selection` runs no pass and changes nothing. */
  lemma SelectionSingleton(x: int)
    ensures SelectionOf([x]) == ([x], Finished)
  {
  }

  /** The first two passes of `selection` on `[5, 3, 4, 1, 2]`. */
  lemma SelectionExampleFirstPasses()
    ensures SelectionPass([5, 3, 4, 1, 2], 0, 0) == ([1, 3, 4, 5, 2], 3)
    ensures SelectionPass([1, 3, 4, 5, 2], 1, 3) == ([1, 2, 4, 5, 3], 4)
  {
    assert ScanSmallest([5, 3, 4, 1, 2], 0, 0) == 3;
    assert Swap([5, 3, 4, 1, 2], 0, 3) == [1, 3, 4, 5, 2];
    assert ScanSmallest([1, 3, 4, 5, 2], 1, 3) == 4;
    assert Swap([1, 3, 4, 5, 2], 1, 4) == [1, 2, 4, 5, 3];
  }

  /** The last two passes of `selection` on `[5, 3, 4, 1, 2]`. */
  lemma SelectionExampleLastPasses()
    ensures SelectionPass([1, 2, 4, 5, 3], 2, 4) == ([1, 2, 3, 5, 4], 4)
    ensures SelectionPass([1, 2, 3, 5, 4], 3, 4) == ([1, 2, 3, 4, 5], 4)
  {
    assert ScanSmallest([1, 2, 4, 5, 3], 2, 4) == 4;
    assert Swap([1, 2, 4, 5, 3], 2, 4) == [1, 2, 3, 5, 4];
    assert ScanSmallest([1, 2, 3, 5, 4], 3, 4) == 4;
    assert Swap([1, 2, 3, 5, 4], 3, 4) == [1, 2, 3, 4, 5];
  }

  /** The recorded test: `[5, 3, 4, 1, 2]` becomes `[1, 2, 3, 4, 5]`. */
  lemma SelectionExample()
    ensures SelectionOf([5, 3, 4, 1, 2]) == ([1, 2, 3, 4, 5], Finished)
  {
    SelectionExampleFirstPasses();
    SelectionExampleLastPasses();
    assert SelectionLoop([1, 2, 3, 5, 4], 3, 4) == [1, 2, 3, 4, 5];
    assert SelectionLoop([1, 2, 4, 5, 3], 2, 4) == [1, 2, 3, 4, 5];
    assert SelectionLoop([1, 3, 4, 5, 2], 1, 3) == [1, 2, 3, 4, 5];
  }

  /** Because `smallest` is not reset at the start of a pass, it can still
      point into the sorted prefix: on `[1, 2, 3]` the second pass swaps
      `vec[1]` with `vec[0]`, leaving `[2, 1, 3]`, which is not sorted. */
  lemma SelectionMissorts()
    ensures SelectionOf([1, 2, 3]) == ([2, 1, 3], Finished)
    ensures !Sorted(SelectionOf([1, 2, 3]).0)
  {
    assert ScanSmallest([1, 2, 3], 0, 0) == 0;
    assert SelectionPass([1, 2, 3], 0, 0) == ([1, 2, 3], 0);
    assert ScanSmallest([1, 2, 3], 1, 0) == 0;
    assert Swap([1, 2, 3], 1, 0) == [2, 1, 3];
    assert SelectionPass([1, 2, 3], 1, 0) == ([2, 1, 3], 0);
    assert SelectionLoop([2, 1, 3], 2, 0) == [2, 1, 3];
    assert SelectionLoop([1, 2, 3], 1, 0) == [2, 1, 3];
    assert SelectionLoop([1, 2, 3], 0, 0) == [2, 1, 3];
    var r := SelectionOf([1, 2, 3]).0;
    assert r[0] > r[1];
  }

  /** One pass of the outer loop of `selection`, in place: the scan for the
      smallest element from `start` on, then the swap into `start`. It leaves
      in `vec` and returns what `SelectionPass` computes. */
  method SelectionPassInPlace(vec: array<int>, start: nat, smallest: nat) returns (newSmallest: nat)
    requires start < vec.Length && smallest < vec.Length
    modifies vec
    ensures (vec[..], newSmallest) == SelectionPass(old(vec[..]), start, smallest)
  {
    ghost var pass := vec[..];
    newSmallest := smallest;
    for i := start to vec.Length
      invariant newSmallest < vec.Length && vec[..] == pass
      invariant ScanSmallest(pass, i, newSmallest) == ScanSmallest(pass, start, smallest)
    {
      if vec[i] < vec[newSmallest] {
        newSmallest := i;
      }
    }
    if start != newSmallest {
      vec[start], vec[newSmallest] := vec[newSmallest], vec[start];
      assert vec[..] == Swap(pass, start, newSmallest);
    }
  }

  /** `selection` on `vec`: it leaves in `vec` what `SelectionOf` computes, a
      permutation of the input, after `vec.len() - 1` passes of the outer loop
      (counted in `passes`). */
  method Selection(vec: array<int>) returns (outcome: Outcome, ghost passes: nat)
    modifies vec
    ensures (vec[..], outcome) == SelectionOf(old(vec[..]))
    ensures multiset(vec[..]) == multiset(old(vec[..]))
    ensures vec.Length > 0 ==> passes == vec.Length - 1
  {
    ghost var input := vec[..];
    SelectionPermutes(input);
    passes := 0;
    if vec.Length == 0 {
      return LenUnderflow, passes;
    }
    var smallest: nat := 0;
    var start: nat := 0;
    while start != vec.Length - 1
      invariant start < vec.Length && smallest < vec.Length
      invariant passes == start
      invariant SelectionLoop(vec[..], start, smallest) == SelectionLoop(input, 0, 0)
      decreases vec.Length - start
    {
      smallest := SelectionPassInPlace(vec, start, smallest);
      start := start + 1;
      passes := passes + 1;
    }
    return Finished, passes;
  }

  // ----------------------------------------------------- corrected versions

  /** `bubble` with the evident fixes: an empty vector is left alone, and the
      loop stops once the bound reaches 0 instead of decrementing past it. */
  function BubbleFixedLoop(s: seq<int>, until: nat): (r: seq<int>)
    requires until < |s|
    ensures |r| == |s|
    decreases until
  {
    var pass := BubblePass(s, 0, until, true);
    if until == 0 || pass.1 then pass.0 else BubbleFixedLoop(pass.0, until - 1)
  }

  function BubbleFixed(s: seq<int>): (r: seq<int>)
    ensures |r| == |s|
  {
    if |s| == 0 then s else BubbleFixedLoop(s, |s| - 1)
  }

  lemma {:induction false} BubbleFixedLoopPermutes(s: seq<int>, until: nat)
    requires until < |s|
    ensures multiset(BubbleFixedLoop(s, until)) == multiset(s)
    decreases until
  {
    var pass := BubblePass(s, 0, until, true);
    BubblePassPermutes(s, 0, until, true);
    if until > 0 && !pass.1 {
      BubbleFixedLoopPermutes(pass.0, until - 1);
    }
  }

  lemma {:induction false} BubbleFixedLoopSorts(s: seq<int>, until: nat)
    requires until < |s| && SettledFrom(s, until + 1)
    ensures Sorted(BubbleFixedLoop(s, until))
    decreases until
  {
    var pass := BubblePass(s, 0, until, true);
    BubblePassSettles(s, until);
    if until > 0 && !pass.1 {
      BubbleFixedLoopSorts(pass.0, until - 1);
    }
  }

  /** The corrected `bubble` sorts every vector, the empty one included, and
      agrees with the original wherever the original finishes. */
  lemma BubbleFixedSorts(s: seq<int>)
    ensures Sorted(BubbleFixed(s)) && multiset(BubbleFixed(s)) == multiset(s)
    ensures BubbleOf(s).1 == Finished ==> BubbleFixed(s) == BubbleOf(s).0
  {
    if |s| > 0 {
      BubbleFixedLoopSorts(s, |s| - 1);
      BubbleFixedLoopPermutes(s, |s| - 1);
      BubbleLoopAgrees(s, |s| - 1);
    }
  }

  lemma {:induction false} BubbleLoopAgrees(s: seq<int>, until: nat)
    requires until < |s|
    ensures BubbleLoop(s, until).1 == Finished ==> BubbleFixedLoop(s, until) == BubbleLoop(s, until).0
    decreases until
  {
    var pass := BubblePass(s, 0, until, true);
    if until > 0 && !pass.1 {
      BubbleLoopAgrees(pass.0, until - 1);
    }
  }

  /** `selection` with the evident fixes: an empty vector is left alone, and
      `smallest` is reset to `start` at the beginning of every pass. */
  function SelectionFixedLoop(s: seq<int>, start: nat): (r: seq<int>)
    requires start < |s|
    ensures |r| == |s|
    decreases |s| - start
  {
    if start == |s| - 1 then s
    else SelectionFixedLoop(SelectionPass(s, start, start).0, start + 1)
  }

  function SelectionFixed(s: seq<int>): (r: seq<int>)
    ensures |r| == |s|
  {
    if |s| == 0 then s else SelectionFixedLoop(s, 0)
  }

  lemma {:induction false} SelectionFixedLoopPermutes(s: seq<int>, start: nat)
    requires start < |s|
    ensures multiset(SelectionFixedLoop(s, start)) == multiset(s)
    decreases |s| - start
  {
    if start < |s| - 1 {
      SelectionPassPermutes(s, start, start);
      SelectionFixedLoopPermutes(SelectionPass(s, start, start).0, start + 1);
    }
  }

  /** A pass that starts with `smallest == start` extends the settled
      prefix by one: if `s[..start]` is sorted and no larger than anything
      after it, the same holds of the result up to `start + 1`. */
  lemma SelectionFixedPassSettles(s: seq<int>, start: nat)
    requires start < |s|
    requires forall i, j :: 0 <= i < j < start ==> s[i] <= s[j]
    requires forall i, j :: 0 <= i < start <= j < |s| ==> s[i] <= s[j]
    ensures forall i, j :: 0 <= i < j < start + 1 ==> SelectionPass(s, start, start).0[i] <= SelectionPass(s, start, start).0[j]
    ensures forall i, j :: 0 <= i < start + 1 <= j < |s| ==> SelectionPass(s, start, start).0[i] <= SelectionPass(s, start, start).0[j]
  {
    var t := SelectionPass(s, start, start).0;
    var m := SelectionPass(s, start, start).1;
    ScanSmallestIsMinimal(s, start, start);
    assert start <= m;
    forall i, j | 0 <= i < j < start + 1 ensures t[i] <= t[j] {
      assert t[i] == s[i];
      if j < start { assert t[j] == s[j]; }
    }
    forall i, j | 0 <= i < start + 1 <= j < |t| ensures t[i] <= t[j] {
      if j == m { assert t[j] == s[start]; } else { assert t[j] == s[j]; }
      if i < start { assert t[i] == s[i]; }
    }
  }

  /** By induction on the passes, the corrected loop sorts. */
  lemma {:induction false} SelectionFixedLoopSorts(s: seq<int>, start: nat)
    requires start < |s|
    requires forall i, j :: 0 <= i < j < start ==> s[i] <= s[j]
    requires forall i, j :: 0 <= i < start <= j < |s| ==> s[i] <= s[j]
    ensures Sorted(SelectionFixedLoop(s, start))
    decreases |s| - start
  {
    if start < |s| - 1 {
      SelectionFixedPassSettles(s, start);
      SelectionFixedLoopSorts(SelectionPass(s, start, start).0, start + 1);
    }
  }

  /** The corrected `selection` sorts every vector. */
  lemma SelectionFixedSorts(s: seq<int>)
    ensures Sorted(SelectionFixed(s)) && multiset(SelectionFixed(s)) == multiset(s)
  {
    if |s| > 0 {
      SelectionFixedLoopSorts(s, 0);
      SelectionFixedLoopPermutes(s, 0);
    }
  }

  /** On `[1, 2, 3]` the corrected `selection` gives `[1, 2, 3]`, where the
      original gives `[2, 1, 3]`. */
  lemma SelectionFixedExample()
    ensures SelectionFixed([1, 2, 3]) == [1, 2, 3]
  {
    assert ScanSmallest([1, 2, 3], 0, 0) == 0;
    assert ScanSmallest([1, 2, 3], 1, 1) == 1;
  }
}
