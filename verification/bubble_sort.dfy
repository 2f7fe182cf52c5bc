/** Bubble sort (algorithms/bubble-sort.js): the direct `algorithm`, its
    imperative form, and the `(i, j)` stepper that drives the animation. */
module BubbleSort {
  import opened Wrappers
  import opened Sorting

  /** One comparison of the inner loop: the two neighbours are exchanged only
      when the left one is strictly greater. */
  function CompareSwap<T>(s: seq<T>, key: T -> int, j: nat): (r: seq<T>)
    requires j + 1 < |s|
    ensures |r| == |s|
    ensures key(s[j]) <= key(s[j + 1]) ==> r == s
  {
    if key(s[j]) > key(s[j + 1]) then Swap(s, j, j + 1) else s
  }

  /** The inner loop `for (j ...; j < e; j++)`, with `e = n - i - 1`. */
  function InnerPass<T>(s: seq<T>, key: T -> int, j: nat, e: nat): (r: seq<T>)
    requires j <= e < |s|
    ensures |r| == |s|
    decreases e - j
  {
    if j >= e then s else InnerPass(CompareSwap(s, key, j), key, j + 1, e)
  }

  /** The outer loop from pass `i` onwards: `for (i ...; i < n - 1; i++)`. */
  function Passes<T>(s: seq<T>, key: T -> int, i: nat): (r: seq<T>)
    ensures |r| == |s|
    decreases |s| - i
  {
    if i + 1 >= |s| then s else Passes(InnerPass(s, key, 0, |s| - i - 1), key, i + 1)
  }

  /** `bubbleSort(arr)`: every pass, from the first. */
  function Sort<T>(s: seq<T>, key: T -> int): seq<T> {
    Passes(s, key, 0)
  }

  /** Every element at or after `b` is in its final place: no earlier element
      has a larger key than it. */
  ghost predicate Settled<T>(s: seq<T>, key: T -> int, b: int) {
    forall p, q :: 0 <= p < q < |s| && b <= q ==> key(s[p]) <= key(s[q])
  }

  /** `s[j]` has the largest key among `s[0..j]`. */
  ghost predicate MaxAt<T>(s: seq<T>, key: T -> int, j: nat) {
    j < |s| && forall p :: 0 <= p <= j ==> key(s[p]) <= key(s[j])
  }

  /** One comparison carries the running maximum one place to the right and
      disturbs nothing in the settled suffix. */
  lemma CompareSwapStep<T>(s: seq<T>, key: T -> int, j: nat, e: nat)
    requires j < e < |s|
    requires MaxAt(s, key, j) && Settled(s, key, e + 1)
    ensures MaxAt(CompareSwap(s, key, j), key, j + 1)
    ensures Settled(CompareSwap(s, key, j), key, e + 1)
  {
    var r := CompareSwap(s, key, j);
    forall p, q | 0 <= p < q < |r| && e + 1 <= q
      ensures key(r[p]) <= key(r[q])
    {
      assert r[q] == s[q];
      if p == j {
        assert r[p] == s[j] || r[p] == s[j + 1];
      } else if p == j + 1 {
        assert r[p] == s[j] || r[p] == s[j + 1];
      } else {
        assert r[p] == s[p];
      }
    }
  }

  /** Pass `i` (inner loop up to `e = n - i - 1`) moves the largest unsettled
      element to position `e`: after it, the last `i + 1` positions hold the
      largest elements in their final order. */
  lemma {:induction false} InnerPassSettles<T>(s: seq<T>, key: T -> int, j: nat, e: nat)
    requires j <= e < |s|
    requires MaxAt(s, key, j) && Settled(s, key, e + 1)
    ensures Settled(InnerPass(s, key, j, e), key, e)
    decreases e - j
  {
    if j < e {
      CompareSwapStep(s, key, j, e);
      InnerPassSettles(CompareSwap(s, key, j), key, j + 1, e);
    }
  }

  lemma {:induction false} PassesSort<T>(s: seq<T>, key: T -> int, i: nat)
    requires i <= |s| && Settled(s, key, |s| - i)
    ensures SortedBy(Passes(s, key, i), key)
    decreases |s| - i
  {
    if i + 1 < |s| {
      InnerPassSettles(s, key, 0, |s| - i - 1);
      PassesSort(InnerPass(s, key, 0, |s| - i - 1), key, i + 1);
    }
  }

  /** Every pass only exchanges elements: the result is a permutation. */
  lemma {:induction false} InnerPassPermutes<T>(s: seq<T>, key: T -> int, j: nat, e: nat)
    requires j <= e < |s|
    ensures multiset(InnerPass(s, key, j, e)) == multiset(s)
    decreases e - j
  {
    if j < e {
      SwapPermutes(s, j, j + 1);
      InnerPassPermutes(CompareSwap(s, key, j), key, j + 1, e);
    }
  }

  lemma {:induction false} PassesPermutes<T>(s: seq<T>, key: T -> int, i: nat)
    ensures multiset(Passes(s, key, i)) == multiset(s)
    decreases |s| - i
  {
    if i + 1 < |s| {
      InnerPassPermutes(s, key, 0, |s| - i - 1);
      PassesPermutes(InnerPass(s, key, 0, |s| - i - 1), key, i + 1);
    }
  }

  /** Stability: a comparison swaps only on a strict `>`, so elements with
      equal keys never change their relative order. */
  lemma {:induction false} InnerPassStable<T>(s: seq<T>, key: T -> int, j: nat, e: nat)
    requires j <= e < |s|
    ensures StableFor(InnerPass(s, key, j, e), s, key)
    decreases e - j
  {
    if j < e {
      var t := CompareSwap(s, key, j);
      if key(s[j]) > key(s[j + 1]) {
        FilterSwapAdjacent(s, key, j);
      }
      InnerPassStable(t, key, j + 1, e);
    }
  }

  lemma {:induction false} PassesStable<T>(s: seq<T>, key: T -> int, i: nat)
    ensures StableFor(Passes(s, key, i), s, key)
    decreases |s| - i
  {
    if i + 1 < |s| {
      InnerPassStable(s, key, 0, |s| - i - 1);
      PassesStable(InnerPass(s, key, 0, |s| - i - 1), key, i + 1);
    }
  }

  /** The result is sorted, a permutation of the input, and stable. */
  lemma SortCorrect<T>(s: seq<T>, key: T -> int)
    ensures SortedBy(Sort(s, key), key)
    ensures multiset(Sort(s, key)) == multiset(s) && |Sort(s, key)| == |s|
    ensures StableFor(Sort(s, key), s, key)
  {
    PassesSort(s, key, 0);
    PassesPermutes(s, key, 0);
    PassesStable(s, key, 0);
  }

  /** `bubbleSort` as the source writes it: two nested loops over the
      array, swapping neighbours in place when the first key is strictly
      greater. */
  method SortInPlace<T>(a: seq<T>, key: T -> int) returns (r: seq<T>)
    ensures r == Sort(a, key)
    ensures SortedBy(r, key) && multiset(r) == multiset(a)
    ensures |a| <= 1 ==> r == a
  {
    var arr := a;
    var n := |arr|;
    var i := 0;
    while i < n - 1
      invariant 0 <= i && |arr| == n
      invariant Passes(arr, key, i) == Sort(a, key)
    {
      var j := 0;
      while j < n - i - 1
        invariant 0 <= j <= n - i - 1 && |arr| == n
        invariant Passes(InnerPass(arr, key, j, n - i - 1), key, i + 1) == Sort(a, key)
      {
        arr := CompareSwap(arr, key, j);
        j := j + 1;
      }
      i := i + 1;
    }
    r := arr;
    SortCorrect(a, key);
  }

  // ---------------------------------------------------------------------
  // The animation stepper of `startVisualization`.

  /** The closure state of `bubbleStep`: the array copy, the two loop
      indices, the shared comparison and operation counters and the
      `isAnimating` flag. */
  datatype Stepper<T> = Stepper(arr: seq<T>, i: nat, j: nat, comparisons: nat,
                                operations: nat, animating: bool)

  /** The indices are those of a loop in progress. */
  predicate InLoop<T>(st: Stepper<T>) {
    st.i + 1 >= |st.arr| || st.i + st.j + 1 <= |st.arr|
  }

  /** `startVisualization`: a no-op while another run is animating, otherwise
      a fresh stepper at `(0, 0)` with zeroed counters. */
  function Start<T>(animating: bool, a: seq<T>): (r: Option<Stepper<T>>)
    ensures r.None? <==> animating
    ensures r.Some? ==> r.value.arr == a && r.value.animating && InLoop(r.value)
    ensures r.Some? ==> r.value.comparisons == 0 && r.value.operations == 0
  {
    if animating then None else Some(Stepper(a, 0, 0, 0, 0, true))
  }

  /** One call of `bubbleStep` together with the timeout it schedules: a
      comparison (and possible swap) of `arr[j]`, `arr[j + 1]`; the move to
      the next pass; or the final step that clears `isAnimating`. */
  function Step<T>(st: Stepper<T>, key: T -> int): (r: Stepper<T>)
    requires InLoop(st)
    ensures InLoop(r) && |r.arr| == |st.arr|
  {
    var n := |st.arr|;
    if st.i + 1 < n then
      if st.i + st.j + 1 < n then
        var swapped := key(st.arr[st.j]) > key(st.arr[st.j + 1]);
        st.(arr := CompareSwap(st.arr, key, st.j), j := st.j + 1,
            comparisons := st.comparisons + 1,
            operations := if swapped then st.operations + 1 else st.operations)
      else st.(i := st.i + 1, j := 0)
    else st.(animating := false)
  }

  /** Whether the stepper has reached its final branch. */
  predicate Done<T>(st: Stepper<T>) {
    st.i + 1 >= |st.arr|
  }

  /** The whole chain of timeouts, run to the end without interruption. */
  function Animate<T>(st: Stepper<T>, key: T -> int): (r: Stepper<T>)
    requires InLoop(st)
    decreases |st.arr| - st.i, |st.arr| - st.j
  {
    if Done(st) then Step(st, key) else Animate(Step(st, key), key)
  }

  /** `k (k - 1) / 2`, the number of comparisons of `k` elements. */
  function Tri(k: nat): nat {
    if k == 0 then 0 else Tri(k - 1) + (k - 1)
  }

  lemma {:induction false} TriClosedForm(k: nat)
    ensures 2 * Tri(k) == k * (k - 1)
  {
    if k > 0 {
      TriClosedForm(k - 1);
    }
  }

  /** What the direct algorithm still computes from the loop point
      `(i, j)`: the rest of pass `i`, then every later pass. */
  function Remaining<T>(st: Stepper<T>, key: T -> int): seq<T>
    requires InLoop(st)
  {
    if Done(st) then st.arr
    else Passes(InnerPass(st.arr, key, st.j, |st.arr| - st.i - 1), key, st.i + 1)
  }

  /** One step of the stepper does not change what remains to be computed:
      it performs exactly the next comparison of the nested loops. */
  lemma StepKeepsRemaining<T>(st: Stepper<T>, key: T -> int)
    requires InLoop(st) && !Done(st)
    ensures Remaining(Step(st, key), key) == Remaining(st, key)
  {
    var n, e := |st.arr|, |st.arr| - st.i - 1;
    var nx := Step(st, key);
    if st.j < e {
      assert nx.arr == CompareSwap(st.arr, key, st.j) && nx.i == st.i && nx.j == st.j + 1;
      assert InnerPass(st.arr, key, st.j, e) == InnerPass(nx.arr, key, nx.j, e);
    } else {
      assert nx.arr == st.arr && nx.i == st.i + 1 && nx.j == 0;
      assert InnerPass(st.arr, key, st.j, e) == st.arr;
    }
  }

  /** From any point of the loop, the stepper finishes with exactly the array
      the direct algorithm produces from that point, and clears
      `isAnimating`. */
  lemma {:induction false} AnimateFrom<T>(st: Stepper<T>, key: T -> int)
    requires InLoop(st)
    ensures Animate(st, key).arr == Remaining(st, key)
    ensures !Animate(st, key).animating
    decreases |st.arr| - st.i, |st.arr| - st.j
  {
    if !Done(st) {
      StepKeepsRemaining(st, key);
      AnimateFrom(Step(st, key), key);
    }
  }

  /** The comparisons still ahead at loop point `(i, j)`: the rest of pass
      `i`, then one per adjacent pair of every later pass. */
  function ComparisonsLeft<T>(st: Stepper<T>): nat
    requires InLoop(st)
  {
    if Done(st) then 0 else (|st.arr| - st.i - 1 - st.j) + Tri(|st.arr| - st.i - 1)
  }

  lemma StepCountsComparison<T>(st: Stepper<T>, key: T -> int)
    requires InLoop(st) && !Done(st)
    ensures Step(st, key).comparisons + ComparisonsLeft(Step(st, key))
         == st.comparisons + ComparisonsLeft(st)
  {
    var nx := Step(st, key);
    if st.i + st.j + 1 == |st.arr| {
      assert Tri(|st.arr| - st.i - 1) == Tri(|st.arr| - nx.i - 1) + (|st.arr| - nx.i - 1);
    }
  }

  /** From any point of the loop, the stepper performs exactly the
      comparisons still ahead. */
  lemma {:induction false} AnimateComparisons<T>(st: Stepper<T>, key: T -> int)
    requires InLoop(st)
    ensures Animate(st, key).comparisons == st.comparisons + ComparisonsLeft(st)
    decreases |st.arr| - st.i, |st.arr| - st.j
  {
    if !Done(st) {
      StepCountsComparison(st, key);
      AnimateComparisons(Step(st, key), key);
    }
  }

  /** The stepper ends with the same array as `bubbleSort`, performs exactly
      `n (n - 1) / 2` comparisons, and clears `isAnimating`. */
  lemma AnimateMatchesSort<T>(a: seq<T>, key: T -> int)
    ensures Start(false, a).Some?
    ensures Animate(Start(false, a).value, key).arr == Sort(a, key)
    ensures 2 * Animate(Start(false, a).value, key).comparisons == |a| * (|a| - 1)
    ensures !Animate(Start(false, a).value, key).animating
  {
    var st := Start(false, a).value;
    AnimateFrom(st, key);
    AnimateComparisons(st, key);
    TriClosedForm(|a|);
    if |a| >= 2 {
      assert Tri(|a|) == Tri(|a| - 1) + (|a| - 1);
    } else {
      assert Tri(|a|) == 0;
    }
  }

  /** Without a swap nothing changes: if the operation counter did not move,
      the array is the one the stepper started from. */
  lemma {:induction false} NoSwapNoChange<T>(st: Stepper<T>, key: T -> int)
    requires InLoop(st)
    ensures Animate(st, key).operations >= st.operations
    ensures Animate(st, key).operations == st.operations ==> Animate(st, key).arr == st.arr
    decreases |st.arr| - st.i, |st.arr| - st.j
  {
    if !Done(st) {
      NoSwapNoChange(Step(st, key), key);
    }
  }

  /** On a sorted array no comparison ever swaps. */
  lemma {:induction false} SortedNoSwap<T>(st: Stepper<T>, key: T -> int)
    requires InLoop(st) && SortedBy(st.arr, key)
    ensures Animate(st, key).operations == st.operations
    decreases |st.arr| - st.i, |st.arr| - st.j
  {
    if !Done(st) {
      var nx := Step(st, key);
      if st.i + st.j + 1 < |st.arr| {
        assert key(st.arr[st.j]) <= key(st.arr[st.j + 1]);
        assert nx.arr == st.arr;
      }
      SortedNoSwap(nx, key);
    }
  }

  /** The operation counter of a full run is zero exactly when the input was
      already sorted (the O(n) best case shows no swap at all). */
  lemma NoOperationsIffSorted<T>(a: seq<T>, key: T -> int)
    ensures Start(false, a).Some?
    ensures Animate(Start(false, a).value, key).operations == 0 <==> SortedBy(a, key)
  {
    var st := Start(false, a).value;
    NoSwapNoChange(st, key);
    AnimateMatchesSort(a, key);
    SortCorrect(a, key);
    if SortedBy(a, key) {
      SortedNoSwap(st, key);
    }
  }
}
