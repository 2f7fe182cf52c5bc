/** Binary search (algorithms/binary-search.js): the direct `algorithm`, its
    imperative loop, and the `searchStep` chain that drives the animation. */
module BinarySearch {
  import opened Wrappers
  import opened Sorting

  /** The search window `[left, right]` of a loop in progress: possibly
      empty (`left == right + 1`), never outside the array. */
  predicate Window(a: seq<int>, left: int, right: int) {
    0 <= left <= right + 1 <= |a|
  }

  /** `Math.floor((left + right) / 2)`. Both bounds are non-negative in the
      loop, so the floor is Dafny's division; the middle splits a non-empty
      window into halves that differ by at most one. */
  function Mid(left: int, right: int): (m: int)
    requires 0 <= left <= right
    ensures left <= m <= right && m - left <= right - m <= m - left + 1
  {
    (left + right) / 2
  }

  /** The window after a miss: `left = mid + 1` when the middle value is
      below the target, `right = mid - 1` otherwise. It is strictly
      narrower and inside the old one. */
  function Narrow(left: int, right: int, below: bool): (w: (int, int))
    requires 0 <= left <= right
    ensures left <= w.0 <= w.1 + 1 <= right + 1 && w.1 - w.0 < right - left
  {
    var mid := Mid(left, right);
    if below then (mid + 1, right) else (left, mid - 1)
  }

  /** The `while (left <= right)` loop of `binarySearch` from the window
      `[left, right]`. */
  function SearchFrom(a: seq<int>, target: int, left: int, right: int): (r: int)
    requires Window(a, left, right)
    ensures r == -1 || (left <= r <= right && a[r] == target)
    decreases right - left
  {
    if left > right then -1
    else
      var mid := Mid(left, right);
      if a[mid] == target then mid
      else
        var w := Narrow(left, right, a[mid] < target);
        SearchFrom(a, target, w.0, w.1)
  }

  /** `binarySearch(arr, target)`: an index holding `target`, or -1. */
  function Search(a: seq<int>, target: int): (r: int)
    ensures r == -1 || (0 <= r < |a| && a[r] == target)
    ensures |a| == 0 ==> r == -1
  {
    SearchFrom(a, target, 0, |a| - 1)
  }

  /** On an ascending array the loop finds any `target` that occurs in the
      window: the half it discards holds only smaller (or only larger)
      values. */
  lemma {:induction false} SearchFromFinds(a: seq<int>, target: int, left: int, right: int, k: int)
    requires Window(a, left, right) && Ascending(a)
    requires left <= k <= right && a[k] == target
    ensures SearchFrom(a, target, left, right) != -1
    decreases right - left
  {
    var mid := Mid(left, right);
    if a[mid] != target {
      var w := Narrow(left, right, a[mid] < target);
      assert w.0 <= k <= w.1;
      SearchFromFinds(a, target, w.0, w.1, k);
    }
  }

  /** On an ascending array, -1 is returned exactly when `target` does not
      occur; any other result is an index holding `target`. */
  lemma SearchCorrect(a: seq<int>, target: int)
    requires Ascending(a)
    ensures Search(a, target) == -1 <==> target !in a
    ensures Search(a, target) != -1 ==> a[Search(a, target)] == target
  {
    if target in a {
      var k :| 0 <= k < |a| && a[k] == target;
      SearchFromFinds(a, target, 0, |a| - 1, k);
    }
  }

  /** The loop of `binarySearch` as written, with early `return mid`. */
  method SearchLoop(a: seq<int>, target: int) returns (r: int)
    ensures r == Search(a, target)
    ensures r != -1 ==> 0 <= r < |a| && a[r] == target
  {
    var left, right := 0, |a| - 1;
    while left <= right
      invariant Window(a, left, right)
      invariant SearchFrom(a, target, left, right) == Search(a, target)
      decreases right - left
    {
      var mid := (left + right) / 2;
      assert mid == Mid(left, right);
      if a[mid] == target {
        return mid;
      } else if a[mid] < target {
        left := mid + 1;
      } else {
        right := mid - 1;
      }
    }
    return -1;
  }

  // ---------------------------------------------------------------------
  // Probes

  /** One iteration of the loop: the window and the index it compares. */
  datatype Probe = Probe(left: int, mid: int, right: int)

  /** The probes the loop makes from `[left, right]`, in order; there is
      one as soon as the window is non-empty, and it compares its middle. */
  function ProbesFrom(a: seq<int>, target: int, left: int, right: int): (p: seq<Probe>)
    requires Window(a, left, right)
    ensures |p| == 0 <==> left > right
    ensures |p| > 0 ==> p[0] == Probe(left, Mid(left, right), right)
    decreases right - left
  {
    if left > right then []
    else
      var mid := Mid(left, right);
      if a[mid] == target then [Probe(left, mid, right)]
      else
        var w := Narrow(left, right, a[mid] < target);
        [Probe(left, mid, right)] + ProbesFrom(a, target, w.0, w.1)
  }

  function Probes(a: seq<int>, target: int): seq<Probe> {
    ProbesFrom(a, target, 0, |a| - 1)
  }

  /** The width of a probe's window, less one. */
  function Width(p: Probe): int {
    p.right - p.left
  }

  /** Every probe lies inside `[left, right]` with its middle between its
      bounds. */
  ghost predicate InWindow(p: seq<Probe>, left: int, right: int) {
    forall k :: 0 <= k < |p| ==> left <= p[k].left <= p[k].mid <= p[k].right <= right
  }

  /** Every probe's window is strictly narrower than any earlier one. */
  ghost predicate Narrowing(p: seq<Probe>) {
    forall i, j :: 0 <= i < j < |p| ==> Width(p[j]) < Width(p[i])
  }

  /** The probes after a miss are those of the narrowed window. */
  lemma ProbesTail(a: seq<int>, target: int, left: int, right: int)
    requires Window(a, left, right) && left <= right && a[Mid(left, right)] != target
    ensures var w := Narrow(left, right, a[Mid(left, right)] < target);
      ProbesFrom(a, target, left, right) == [Probe(left, Mid(left, right), right)] + ProbesFrom(a, target, w.0, w.1)
  {
  }

  /** The probes stay inside the window they start from. */
  lemma {:induction false} ProbesInWindow(a: seq<int>, target: int, left: int, right: int)
    requires Window(a, left, right)
    ensures InWindow(ProbesFrom(a, target, left, right), left, right)
    decreases right - left
  {
    if left <= right && a[Mid(left, right)] != target {
      var w := Narrow(left, right, a[Mid(left, right)] < target);
      ProbesTail(a, target, left, right);
      ProbesInWindow(a, target, w.0, w.1);
      var p, q := ProbesFrom(a, target, left, right), ProbesFrom(a, target, w.0, w.1);
      forall k | 0 < k < |p|
        ensures left <= p[k].left <= p[k].mid <= p[k].right <= right
      {
        assert p[k] == q[k - 1];
      }
    }
  }

  /** Each probe's window is strictly narrower than any earlier one, so the
      loop terminates. */
  lemma {:induction false} ProbesNarrow(a: seq<int>, target: int, left: int, right: int)
    requires Window(a, left, right)
    ensures Narrowing(ProbesFrom(a, target, left, right))
    decreases right - left
  {
    if left <= right && a[Mid(left, right)] != target {
      var w := Narrow(left, right, a[Mid(left, right)] < target);
      ProbesTail(a, target, left, right);
      ProbesNarrow(a, target, w.0, w.1);
      ProbesInWindow(a, target, w.0, w.1);
      var p, q := ProbesFrom(a, target, left, right), ProbesFrom(a, target, w.0, w.1);
      forall i, j | 0 <= i < j < |p|
        ensures Width(p[j]) < Width(p[i])
      {
        assert p[j] == q[j - 1];
        if i > 0 {
          assert p[i] == q[i - 1];
        }
      }
    }
  }

  /** Every probe of a search lies inside the array. */
  lemma ProbesInArray(a: seq<int>, target: int)
    ensures forall k :: 0 <= k < |Probes(a, target)| ==>
      0 <= Probes(a, target)[k].left <= Probes(a, target)[k].mid <= Probes(a, target)[k].right < |a|
  {
    ProbesInWindow(a, target, 0, |a| - 1);
  }

  /** The indices compared, in order. */
  function Mids(p: seq<Probe>): (m: seq<int>)
    ensures |m| == |p| && forall k :: 0 <= k < |p| ==> m[k] == p[k].mid
  {
    seq(|p|, k requires 0 <= k < |p| => p[k].mid)
  }

  /** The result is the last index compared when the search succeeds, and
      no index was compared when the array is empty. */
  lemma {:induction false} ResultIsLastProbe(a: seq<int>, target: int, left: int, right: int)
    requires Window(a, left, right)
    ensures SearchFrom(a, target, left, right) != -1 ==>
      |ProbesFrom(a, target, left, right)| > 0
      && ProbesFrom(a, target, left, right)[|ProbesFrom(a, target, left, right)| - 1].mid
         == SearchFrom(a, target, left, right)
    decreases right - left
  {
    if left <= right && a[Mid(left, right)] != target {
      var w := Narrow(left, right, a[Mid(left, right)] < target);
      ProbesTail(a, target, left, right);
      ResultIsLastProbe(a, target, w.0, w.1);
    }
  }

  /** On `[1, 3, 5, 7, 9]` with target 7 the loop compares index 2, then
      index 3, and returns 3. */
  lemma SevenInOddNumbers()
    ensures Mids(Probes([1, 3, 5, 7, 9], 7)) == [2, 3]
    ensures Search([1, 3, 5, 7, 9], 7) == 3
  {
    var a := [1, 3, 5, 7, 9];
    assert ProbesFrom(a, 7, 4, 4) == [Probe(4, 4, 4)] + ProbesFrom(a, 7, 4, 3);
    assert ProbesFrom(a, 7, 3, 4) == [Probe(3, 3, 4)];
    assert ProbesFrom(a, 7, 0, 4) == [Probe(0, 2, 4)] + ProbesFrom(a, 7, 3, 4);
  }

  // ---------------------------------------------------------------------
  // The animation chain of `startVisualization`.

  /** The message the chain ends with: found at `index` after `steps`
      probes, or not found after `steps` probes. */
  datatype Outcome = Found(index: int, steps: nat) | NotFound(steps: nat)

  /** The closure state of `searchStep`: the window, the `step` counter,
      the shared metrics, `isAnimating` and the final message once shown. */
  datatype Searcher = Searcher(left: int, right: int, step: nat, comparisons: nat,
                               operations: nat, animating: bool, outcome: Option<Outcome>)

  /** `startVisualization(array)`: a no-op while another run is animating,
      otherwise a fresh searcher over the whole array with zeroed metrics. */
  function Start(animating: bool, a: seq<int>): (r: Option<Searcher>)
    ensures r.None? <==> animating
    ensures r.Some? ==> (Window(a, r.value.left, r.value.right) && r.value.outcome.None?
      && r.value.animating && r.value.comparisons == 0 && r.value.operations == 0)
  {
    if animating then None else Some(Searcher(0, |a| - 1, 0, 0, 0, true, None))
  }

  /** One call of `searchStep` with the timeout it schedules. The target
      comes from `parseInt` and may be NaN (`None`): then `===` and `<`
      are both false, and the window always moves left. */
  function SearchStep(a: seq<int>, target: Option<int>, st: Searcher): (r: Searcher)
    requires Window(a, st.left, st.right) && st.outcome.None?
    ensures Window(a, r.left, r.right)
    ensures r.outcome.None? ==> r.right - r.left < st.right - st.left && r.animating == st.animating
    ensures r.outcome.Some? ==> !r.animating
  {
    if st.left <= st.right then
      var mid := Mid(st.left, st.right);
      var counted := st.(comparisons := st.comparisons + 1, operations := st.operations + 1);
      if target == Some(a[mid]) then
        counted.(outcome := Some(Found(mid, st.step + 1)), animating := false)
      else
        var w := Narrow(st.left, st.right, target.Some? && a[mid] < target.value);
        counted.(left := w.0, right := w.1, step := st.step + 1)
    else
      st.(outcome := Some(NotFound(st.step)), animating := false)
  }

  /** The whole chain of timeouts, run until it shows its message. */
  function Run(a: seq<int>, target: Option<int>, st: Searcher): (r: Searcher)
    requires Window(a, st.left, st.right) && st.outcome.None?
    ensures r.outcome.Some? && !r.animating
    decreases st.right - st.left + 1
  {
    var next := SearchStep(a, target, st);
    if next.outcome.Some? then next else Run(a, target, next)
  }

  /** The message for a result of the direct loop after `steps` probes. */
  function Report(i: int, steps: nat): Outcome {
    if i == -1 then NotFound(steps) else Found(i, steps)
  }

  /** A probe that misses moves the chain's window exactly as the direct
      loop moves its own, and counts one step. */
  lemma StepMisses(a: seq<int>, target: int, st: Searcher)
    requires Window(a, st.left, st.right) && st.outcome.None?
    requires st.left <= st.right && a[Mid(st.left, st.right)] != target
    ensures var next := SearchStep(a, Some(target), st);
      && next.outcome.None?
      && (next.left, next.right) == Narrow(st.left, st.right, a[Mid(st.left, st.right)] < target)
      && next.step == st.step + 1
      && next.comparisons == st.comparisons + 1 && next.operations == st.operations + 1
  {
  }

  /** From any window, the chain reports what the direct loop returns from
      that window, after exactly as many probes, each counted once as a
      comparison and once as an operation. */
  lemma {:induction false} RunFromMatches(a: seq<int>, target: int, st: Searcher)
    requires Window(a, st.left, st.right) && st.outcome.None?
    ensures Run(a, Some(target), st).outcome
      == Some(Report(SearchFrom(a, target, st.left, st.right), st.step + |ProbesFrom(a, target, st.left, st.right)|))
    ensures Run(a, Some(target), st).comparisons == st.comparisons + |ProbesFrom(a, target, st.left, st.right)|
    ensures Run(a, Some(target), st).operations == st.operations + |ProbesFrom(a, target, st.left, st.right)|
    decreases st.right - st.left + 1
  {
    if st.left <= st.right && a[Mid(st.left, st.right)] != target {
      var next := SearchStep(a, Some(target), st);
      StepMisses(a, target, st);
      ProbesTail(a, target, st.left, st.right);
      RunFromMatches(a, target, next);
      assert Run(a, Some(target), st) == Run(a, Some(target), next);
    } else {
      assert Run(a, Some(target), st) == SearchStep(a, Some(target), st);
    }
  }

  /** The stepwise search reports the same index as `binarySearch`, after
      the same number of probes, and clears `isAnimating`. */
  lemma RunMatchesSearch(a: seq<int>, target: int)
    ensures Start(false, a).Some?
    ensures Run(a, Some(target), Start(false, a).value).outcome
      == Some(Report(Search(a, target), |Probes(a, target)|))
    ensures Run(a, Some(target), Start(false, a).value).comparisons == |Probes(a, target)|
    ensures Run(a, Some(target), Start(false, a).value).operations == |Probes(a, target)|
    ensures !Run(a, Some(target), Start(false, a).value).animating
  {
    RunFromMatches(a, target, Start(false, a).value);
  }

  /** A target that `parseInt` could not read (NaN) is never found. */
  lemma {:induction false} NaNNeverFound(a: seq<int>, st: Searcher)
    requires Window(a, st.left, st.right) && st.outcome.None?
    ensures Run(a, None, st).outcome.value.NotFound?
    ensures Run(a, None, st).left == st.left
    decreases st.right - st.left + 1
  {
    var next := SearchStep(a, None, st);
    if next.outcome.None? {
      NaNNeverFound(a, next);
    }
  }
}
