/** Quick sort (algorithms/quick-sort.js): Lomuto `partition` with the last
    element as pivot, the recursive `algorithm`, the counting
    `visualizePartition`, and the completion test of `visualizeQuickSort`. */
module QuickSort {
  import opened Sorting

  // ---------------------------------------------------------------------
  // Partition

  /** The scan of `partition` from position `j` on: `i` is the last index of
      the block of elements below the pivot `a[high]` (`low - 1` while that
      block is empty). Returns the array after the loop and the final `i`. */
  function Scan(a: seq<int>, low: nat, high: nat, i: int, j: nat): (r: (seq<int>, int))
    requires low <= high < |a| && low - 1 <= i < j <= high
    ensures |r.0| == |a| && low - 1 <= r.1 < high
    decreases high - j
  {
    if j == high then (a, i)
    else if a[j] < a[high] then Scan(Swap(a, i + 1, j), low, high, i + 1, j + 1)
    else Scan(a, low, high, i, j + 1)
  }

  /** `partition(arr, low, high)`: scan, then swap the pivot into `i + 1`
      and return that index. */
  function Partition(a: seq<int>, low: nat, high: nat): (r: (seq<int>, nat))
    requires low <= high < |a|
    ensures |r.0| == |a| && low <= r.1 <= high
  {
    var (b, i) := Scan(a, low, high, low - 1, low);
    (Swap(b, i + 1, high), i + 1)
  }

  /** Every element of `s[lo..hi)` is below `x`. */
  ghost predicate AllBelow(s: seq<int>, lo: int, hi: int, x: int)
    requires 0 <= lo && hi <= |s|
  {
    forall k :: lo <= k < hi ==> s[k] < x
  }

  /** Every element of `s[lo..hi)` is at least `x`. */
  ghost predicate AllAtLeast(s: seq<int>, lo: int, hi: int, x: int)
    requires 0 <= lo && hi <= |s|
  {
    forall k :: lo <= k < hi ==> x <= s[k]
  }

  /** `s` and `t` agree outside `[lo, hi]`. */
  ghost predicate SameOutside(s: seq<int>, t: seq<int>, lo: int, hi: int)
    requires |s| == |t|
  {
    forall k :: 0 <= k < |s| && (k < lo || hi < k) ==> s[k] == t[k]
  }

  /** The scan invariant at `(i, j)`: `[low, i]` below the pivot,
      `(i, j)` at or above it. */
  ghost predicate ScanInv(a: seq<int>, low: nat, high: nat, i: int, j: nat, pivot: int)
    requires low <= high < |a| && low - 1 <= i < j <= high
  {
    AllBelow(a, low, i + 1, pivot) && AllAtLeast(a, i + 1, j, pivot)
  }

  /** One iteration of the scan keeps the invariant, the pivot, the
      elements outside `[low, high)` and the multiset. */
  lemma ScanStep(a: seq<int>, low: nat, high: nat, i: int, j: nat)
    requires low <= high < |a| && low - 1 <= i < j < high
    requires ScanInv(a, low, high, i, j, a[high])
    ensures a[j] < a[high] ==>
      var s := Swap(a, i + 1, j);
      ScanInv(s, low, high, i + 1, j + 1, a[high]) && s[high] == a[high]
    ensures a[j] >= a[high] ==> ScanInv(a, low, high, i, j + 1, a[high])
  {
  }

  /** The scan keeps the pivot, permutes the array and moves nothing
      outside `[low, high)`. */
  lemma {:induction false} ScanFrame(a: seq<int>, low: nat, high: nat, i: int, j: nat)
    requires low <= high < |a| && low - 1 <= i < j <= high
    ensures Scan(a, low, high, i, j).0[high] == a[high]
    ensures SameOutside(a, Scan(a, low, high, i, j).0, low, high - 1)
    decreases high - j
  {
    if j < high && a[j] < a[high] {
      var s := Swap(a, i + 1, j);
      ScanFrame(s, low, high, i + 1, j + 1);
      SameOutsideTrans(a, s, Scan(s, low, high, i + 1, j + 1).0, low, high - 1);
    } else if j < high {
      ScanFrame(a, low, high, i, j + 1);
    }
  }

  /** The scan only swaps, so it permutes the array. */
  lemma {:induction false} ScanPermutes(a: seq<int>, low: nat, high: nat, i: int, j: nat)
    requires low <= high < |a| && low - 1 <= i < j <= high
    ensures multiset(Scan(a, low, high, i, j).0) == multiset(a)
    decreases high - j
  {
    if j < high {
      if a[j] < a[high] {
        var s := Swap(a, i + 1, j);
        assert Scan(a, low, high, i, j) == Scan(s, low, high, i + 1, j + 1);
        ScanPermutes(s, low, high, i + 1, j + 1);
        SwapPermutes(a, i + 1, j);
      } else {
        ScanPermutes(a, low, high, i, j + 1);
      }
    }
  }

  lemma SameOutsideTrans(a: seq<int>, b: seq<int>, c: seq<int>, lo: int, hi: int)
    requires |a| == |b| == |c| && SameOutside(a, b, lo, hi) && SameOutside(b, c, lo, hi)
    ensures SameOutside(a, c, lo, hi)
  {
  }

  /** The loop invariant of the scan is carried to its end: the block below
      the pivot, then the block at or above it. */
  lemma {:induction false} ScanInvariant(a: seq<int>, low: nat, high: nat, i: int, j: nat)
    requires low <= high < |a| && low - 1 <= i < j <= high
    requires ScanInv(a, low, high, i, j, a[high])
    ensures ScanInv(Scan(a, low, high, i, j).0, low, high, Scan(a, low, high, i, j).1, high, a[high])
    decreases high - j
  {
    if j < high {
      ScanStep(a, low, high, i, j);
      if a[j] < a[high] {
        ScanInvariant(Swap(a, i + 1, j), low, high, i + 1, j + 1);
      } else {
        ScanInvariant(a, low, high, i, j + 1);
      }
    }
  }

  /** What `partition` promises: the returned index lies in the range and
      holds the old `arr[high]`; everything before it in the range is
      smaller, everything after it is at least as large; the range is only
      permuted and nothing outside it moves. */
  lemma PartitionCorrect(a: seq<int>, low: nat, high: nat)
    requires low <= high < |a|
    ensures var (b, p) := Partition(a, low, high);
      low <= p <= high && b[p] == a[high]
      && AllBelow(b, low, p, a[high]) && AllAtLeast(b, p + 1, high + 1, a[high])
      && SameOutside(a, b, low, high) && multiset(b) == multiset(a)
  {
    ScanInvariant(a, low, high, low - 1, low);
    ScanFrame(a, low, high, low - 1, low);
    ScanPermutes(a, low, high, low - 1, low);
    SwapPermutes(Scan(a, low, high, low - 1, low).0, Scan(a, low, high, low - 1, low).1 + 1, high);
  }

  /** The loop of `partition`, with its in-place swaps. */
  method PartitionLoop(a: seq<int>, low: nat, high: nat) returns (arr: seq<int>, p: nat)
    requires low <= high < |a|
    ensures (arr, p) == Partition(a, low, high)
  {
    arr := a;
    var pivot := a[high];
    var i: int := low - 1;
    var j: nat := low;
    while j < high
      invariant low <= j <= high && low - 1 <= i < j && |arr| == |a| && arr[high] == pivot
      invariant Scan(arr, low, high, i, j) == Scan(a, low, high, low - 1, low)
    {
      if arr[j] < pivot {
        i := i + 1;
        arr := Swap(arr, i, j);
      }
      j := j + 1;
    }
    arr := Swap(arr, i + 1, high);
    p := i + 1;
  }

  /** Swapping a position with itself changes nothing, so skipping it is
      harmless. */
  lemma SwapSelf(s: seq<int>, i: nat)
    requires i < |s|
    ensures Swap(s, i, i) == s
  {
  }

  /** `visualizePartition`: the same scan, counting one comparison per
      position and one operation per swap that moves something plus the
      final pivot swap; the swap is skipped when `i == j`. */
  method VisualizePartition(a: seq<int>, low: nat, high: nat)
    returns (arr: seq<int>, p: nat, comparisons: nat, operations: nat)
    requires low <= high < |a|
    ensures (arr, p) == Partition(a, low, high)
    ensures comparisons == high - low
    ensures 1 <= operations <= high - low + 1
  {
    arr := a;
    comparisons, operations := 0, 0;
    var pivot := a[high];
    var i: int := low - 1;
    var j: nat := low;
    while j < high
      invariant low <= j <= high && low - 1 <= i < j && |arr| == |a| && arr[high] == pivot
      invariant Scan(arr, low, high, i, j) == Scan(a, low, high, low - 1, low)
      invariant comparisons == j - low && operations <= j - low
    {
      comparisons := comparisons + 1;
      if arr[j] < pivot {
        i := i + 1;
        if i != j {
          arr := Swap(arr, i, j);
          operations := operations + 1;
        } else {
          SwapSelf(arr, i);
        }
      }
      j := j + 1;
    }
    arr := Swap(arr, i + 1, high);
    operations := operations + 1;
    p := i + 1;
  }

  // ---------------------------------------------------------------------
  // Sorting

  /** `quickSort(arr, low, high)`: partition, then sort `[low, p - 1]` and
      `[p + 1, high]`. Ranges with `low >= high` are left alone; a child
      range may be empty (`high = low - 1`). */
  function SortRange(a: seq<int>, low: nat, high: int): (r: seq<int>)
    requires low <= high + 1 && high < |a|
    ensures |r| == |a|
    decreases high - low
  {
    if low >= high then a
    else
      var (b, p) := Partition(a, low, high);
      var c := SortRange(b, low, p as int - 1);
      SortRange(c, p + 1, high)
  }

  /** `s[lo..hi]` (inclusive) is in ascending order. */
  ghost predicate AscendingOn(s: seq<int>, lo: int, hi: int)
    requires 0 <= lo && hi < |s|
  {
    forall k1, k2 :: lo <= k1 < k2 <= hi ==> s[k1] <= s[k2]
  }

  /** The multiset of a sequence is that of its three pieces around
      `[lo, hi]`. */
  lemma ThreePieces(s: seq<int>, lo: nat, hi: int)
    requires lo <= hi + 1 && hi < |s|
    ensures multiset(s) == multiset(s[..lo]) + multiset(s[lo..hi + 1]) + multiset(s[hi + 1..])
  {
    assert s == s[..lo] + s[lo..hi + 1] + s[hi + 1..];
  }

  /** Two sequences that agree outside `[lo, hi]` agree on the pieces
      before and after it. */
  lemma SameOutsidePieces(s: seq<int>, t: seq<int>, lo: nat, hi: int)
    requires |s| == |t| && lo <= hi + 1 && hi < |s| && SameOutside(s, t, lo, hi)
    ensures s[..lo] == t[..lo] && s[hi + 1..] == t[hi + 1..]
  {
    var s3, t3 := s[hi + 1..], t[hi + 1..];
    forall k | 0 <= k < |s3|
      ensures s3[k] == t3[k]
    {
      assert s3[k] == s[hi + 1 + k] && t3[k] == t[hi + 1 + k];
    }
    assert s[..lo] == t[..lo];
  }

  /** Two sequences that agree outside `[lo, hi]` and are permutations of
      each other are permutations of each other inside `[lo, hi]`. */
  lemma RangePermutes(s: seq<int>, t: seq<int>, lo: nat, hi: int)
    requires |s| == |t| && lo <= hi + 1 && hi < |s|
    requires SameOutside(s, t, lo, hi) && multiset(s) == multiset(t)
    ensures multiset(s[lo..hi + 1]) == multiset(t[lo..hi + 1])
  {
    ThreePieces(s, lo, hi);
    ThreePieces(t, lo, hi);
    SameOutsidePieces(s, t, lo, hi);
    assert multiset(s[lo..hi + 1]) == multiset(s) - multiset(s[..lo]) - multiset(s[hi + 1..]);
  }

  /** Bounds on the elements of a range survive permuting the range. */
  lemma BoundsPermuted(s: seq<int>, t: seq<int>, lo: nat, hi: int, x: int)
    requires |s| == |t| && lo <= hi + 1 && hi < |s|
    requires multiset(s[lo..hi + 1]) == multiset(t[lo..hi + 1])
    ensures AllBelow(s, lo, hi + 1, x) ==> AllBelow(t, lo, hi + 1, x)
    ensures AllAtLeast(s, lo, hi + 1, x) ==> AllAtLeast(t, lo, hi + 1, x)
  {
    forall k | lo <= k <= hi
      ensures exists k' :: lo <= k' <= hi && s[k'] == t[k]
    {
      assert t[k] == t[lo..hi + 1][k - lo];
      assert t[k] in multiset(s[lo..hi + 1]);
      var k'' :| 0 <= k'' < hi + 1 - lo && s[lo..hi + 1][k''] == t[k];
      assert s[lo + k''] == t[k];
    }
  }

  /** The recursion moves nothing outside its range. */
  lemma {:induction false} SortRangeOutside(a: seq<int>, low: nat, high: int)
    requires low <= high + 1 && high < |a|
    ensures SameOutside(a, SortRange(a, low, high), low, high)
    decreases high - low
  {
    if low < high {
      var (b, p) := Partition(a, low, high);
      var c := SortRange(b, low, p - 1);
      var d := SortRange(c, p + 1, high);
      assert SortRange(a, low, high) == d;
      PartitionCorrect(a, low, high);
      SortRangeOutside(b, low, p - 1);
      SortRangeOutside(c, p + 1, high);
      SameOutsideWiden(b, c, low, p - 1, low, high);
      SameOutsideWiden(c, d, p + 1, high, low, high);
      SameOutsideTrans(a, b, c, low, high);
      SameOutsideTrans(a, c, d, low, high);
    }
  }

  /** The recursion only permutes the array. */
  lemma {:induction false} SortRangePermutes(a: seq<int>, low: nat, high: int)
    requires low <= high + 1 && high < |a|
    ensures multiset(SortRange(a, low, high)) == multiset(a)
    decreases high - low
  {
    if low < high {
      var (b, p) := Partition(a, low, high);
      var c := SortRange(b, low, p - 1);
      assert SortRange(a, low, high) == SortRange(c, p + 1, high);
      PartitionCorrect(a, low, high);
      SortRangePermutes(b, low, p - 1);
      SortRangePermutes(c, p + 1, high);
    }
  }

  /** The recursion permutes the array and moves nothing outside its
      range. */
  lemma SortRangeFrame(a: seq<int>, low: nat, high: int)
    requires low <= high + 1 && high < |a|
    ensures SameOutside(a, SortRange(a, low, high), low, high)
    ensures multiset(SortRange(a, low, high)) == multiset(a)
  {
    SortRangeOutside(a, low, high);
    SortRangePermutes(a, low, high);
  }

  /** Agreeing outside a range means agreeing outside any range around
      it. */
  lemma SameOutsideWiden(s: seq<int>, t: seq<int>, lo: int, hi: int, lo': int, hi': int)
    requires |s| == |t| && lo' <= lo && hi <= hi' && SameOutside(s, t, lo, hi)
    ensures SameOutside(s, t, lo', hi')
  {
  }

  /** The recursion sorts its range. */
  lemma {:induction false} SortRangeSorts(a: seq<int>, low: nat, high: int)
    requires low <= high + 1 && high < |a|
    ensures AscendingOn(SortRange(a, low, high), low, high)
    decreases high - low
  {
    if low < high {
      var (b, p) := Partition(a, low, high);
      PartitionCorrect(a, low, high);
      var c := SortRange(b, low, p as int - 1);
      SortRangeSorts(b, low, p as int - 1);
      SortRangeFrame(b, low, p as int - 1);
      SortRangeSorts(c, p + 1, high);
      SortRangeFrame(c, p + 1, high);
      SortRangeStep(a, low, high, b, p, c, SortRange(c, p + 1, high));
    }
  }

  /** The inductive step of `SortRangeSorts`: the two sorted sides and the
      pivot between them make a sorted range. */
  lemma SortRangeStep(a: seq<int>, low: nat, high: nat, b: seq<int>, p: nat, c: seq<int>, d: seq<int>)
    requires low <= p <= high < |a| && |b| == |a| == |c| == |d|
    requires b[p] == a[high] && AllBelow(b, low, p, a[high]) && AllAtLeast(b, p + 1, high + 1, a[high])
    requires SameOutside(a, b, low, high) && multiset(b) == multiset(a)
    requires AscendingOn(c, low, p as int - 1) && SameOutside(b, c, low, p as int - 1) && multiset(c) == multiset(b)
    requires AscendingOn(d, p + 1, high) && SameOutside(c, d, p + 1, high) && multiset(d) == multiset(c)
    ensures AscendingOn(d, low, high)
  {
    LeftSide(b, c, d, low, p, high, a[high]);
    RightSide(b, c, d, low, p, high, a[high]);
    JoinAscending(d, low, p, high, a[high]);
  }

  /** The left side ends up sorted and below the pivot in `d`. */
  lemma LeftSide(b: seq<int>, c: seq<int>, d: seq<int>, low: nat, p: nat, high: nat, x: int)
    requires low <= p <= high < |b| && |b| == |c| == |d|
    requires AllBelow(b, low, p, x)
    requires AscendingOn(c, low, p as int - 1) && SameOutside(b, c, low, p as int - 1) && multiset(c) == multiset(b)
    requires SameOutside(c, d, p + 1, high)
    ensures AscendingOn(d, low, p as int - 1) && AllBelow(d, low, p, x)
  {
    RangePermutes(b, c, low, p as int - 1);
    BoundsPermuted(b, c, low, p as int - 1, x);
  }

  /** The right side ends up sorted and at or above the pivot in `d`. */
  lemma RightSide(b: seq<int>, c: seq<int>, d: seq<int>, low: nat, p: nat, high: nat, x: int)
    requires low <= p <= high < |b| && |b| == |c| == |d|
    requires AllAtLeast(b, p + 1, high + 1, x)
    requires SameOutside(b, c, low, p as int - 1)
    requires AscendingOn(d, p + 1, high) && SameOutside(c, d, p + 1, high) && multiset(d) == multiset(c)
    ensures AllAtLeast(d, p + 1, high + 1, x)
  {
    assert AllAtLeast(c, p + 1, high + 1, x);
    RangePermutes(c, d, p + 1, high);
    BoundsPermuted(c, d, p + 1, high, x);
  }

  lemma JoinAscending(d: seq<int>, low: nat, p: nat, high: nat, x: int)
    requires low <= p <= high < |d| && d[p] == x
    requires AscendingOn(d, low, p as int - 1) && AllBelow(d, low, p, x)
    requires AscendingOn(d, p + 1, high) && AllAtLeast(d, p + 1, high + 1, x)
    ensures AscendingOn(d, low, high)
  {
  }

  /** `algorithm(arr)` with the default range `[0, arr.length - 1]`. */
  function Sort(a: seq<int>): (r: seq<int>)
    ensures |r| == |a|
  {
    SortRange(a, 0, |a| - 1)
  }

  /** The result is in ascending order and a permutation of the input. */
  lemma SortCorrect(a: seq<int>)
    ensures Ascending(Sort(a)) && multiset(Sort(a)) == multiset(a)
  {
    SortRangeSorts(a, 0, |a| - 1);
    SortRangeFrame(a, 0, |a| - 1);
  }

  /** The recursive `algorithm` as a method over the array contents. */
  method SortInPlace(a: seq<int>, low: nat, high: int) returns (arr: seq<int>)
    requires low <= high + 1 && high < |a|
    ensures arr == SortRange(a, low, high)
    decreases high - low
  {
    arr := a;
    if low < high {
      var p;
      arr, p := PartitionLoop(arr, low, high);
      arr := SortInPlace(arr, low, p as int - 1);
      arr := SortInPlace(arr, p + 1, high);
    }
  }

  // ---------------------------------------------------------------------
  // The visualizer's calls and its completion test

  /** The ranges `visualizeQuickSort` is called on from `(low, high)`:
      the range itself, then, when it has two or more elements, the calls
      on `[low, p - 1]` and `[p + 1, high]` after `visualizePartition`. The
      timers interleave the two sub-trees, but their ranges are disjoint, so
      each sub-range is partitioned as it was left by this partition. */
  function Calls(a: seq<int>, low: nat, high: int): (r: seq<(int, int)>)
    requires low <= high + 1 && high < |a|
    ensures |r| > 0 && r[0] == (low as int, high)
    decreases high - low
  {
    if low >= high then [(low as int, high)]
    else
      var (b, p) := Partition(a, low, high);
      [(low as int, high)] + Calls(b, low, p as int - 1) + Calls(b, p + 1, high)
  }

  /** Every call below `(low, high)` is on a strictly smaller range nested
      inside it. */
  lemma {:induction false} CallsNested(a: seq<int>, low: nat, high: int)
    requires low <= high + 1 && high < |a|
    ensures forall k :: 0 <= k < |Calls(a, low, high)| ==>
      low <= Calls(a, low, high)[k].0 && Calls(a, low, high)[k].1 <= high
    ensures forall k :: 0 < k < |Calls(a, low, high)| ==>
      low < Calls(a, low, high)[k].0 || Calls(a, low, high)[k].1 < high
    decreases high - low
  {
    if low < high {
      var (b, p) := Partition(a, low, high);
      CallsNested(b, low, p as int - 1);
      CallsNested(b, p + 1, high);
      var l, r := Calls(b, low, p as int - 1), Calls(b, p + 1, high);
      assert Calls(a, low, high) == [(low as int, high)] + l + r;
      forall k | 0 < k < |Calls(a, low, high)|
        ensures low <= Calls(a, low, high)[k].0 && Calls(a, low, high)[k].1 <= high
        ensures low < Calls(a, low, high)[k].0 || Calls(a, low, high)[k].1 < high
      {
        if k <= |l| {
          assert Calls(a, low, high)[k] == l[k - 1];
        } else {
          assert Calls(a, low, high)[k] == r[k - 1 - |l|];
        }
      }
    }
  }

  /** The completion test of `visualizeQuickSort`: some call is a leaf
      (`low >= high`) whose range is the whole array. */
  predicate CompletionFires(a: seq<int>) {
    var c := Calls(a, 0, |a| - 1);
    exists k :: 0 <= k < |c| && c[k].0 >= c[k].1 && c[k] == (0, |a| - 1)
  }

  /** As written, the completion branch fires only for arrays of at most one
      element: for longer arrays the only call on the whole range is the
      first one, which partitions instead, so `isAnimating` is never
      cleared. */
  lemma CompletionOnlyForShort(a: seq<int>)
    ensures CompletionFires(a) <==> |a| <= 1
  {
    var c := Calls(a, 0, |a| - 1);
    CallsNested(a, 0, |a| - 1);
    if |a| <= 1 {
      assert c[0].0 >= c[0].1 && c[0] == (0, |a| - 1);
    } else {
      forall k | 0 <= k < |c|
        ensures !(c[k].0 >= c[k].1 && c[k] == (0, |a| - 1))
      {
        if k == 0 {
          assert c[0].0 < c[0].1;
        }
      }
    }
  }

  /** The positions `low, low + 1, ..., high`. */
  function Span(low: int, high: int): (r: seq<int>)
    requires low <= high + 1
    ensures |r| == high - low + 1
    ensures forall k :: 0 <= k < |r| ==> r[k] == low + k
    decreases high - low
  {
    if low > high then [] else [low] + Span(low + 1, high)
  }

  /** The span around `p` is the span before it, `p`, and the span after
      it. */
  lemma SpanSplit(low: int, p: int, high: int)
    requires low <= p <= high
    ensures Span(low, high) == Span(low, p - 1) + [p] + Span(p + 1, high)
  {
    var s, t := Span(low, high), Span(low, p - 1) + [p] + Span(p + 1, high);
    assert |s| == |t|;
    forall k | 0 <= k < |s|
      ensures s[k] == t[k]
    {
      if k < p - low {
        assert t[k] == Span(low, p - 1)[k];
      } else if k > p - low {
        assert t[k] == Span(p + 1, high)[k - (p - low) - 1];
      }
    }
  }

  /** The span holds exactly the positions from `low` to `high`. */
  lemma SpanMembers(low: int, high: int, x: int)
    requires low <= high + 1
    ensures x in Span(low, high) <==> low <= x <= high
  {
    if low <= x <= high {
      assert Span(low, high)[x - low] == x;
    }
    if x in Span(low, high) {
      var k :| 0 <= k < |Span(low, high)| && Span(low, high)[k] == x;
    }
  }

  /** Marks that are permutations of the spans on either side of `p`,
      joined around `p`, are a permutation of the whole span. */
  lemma JoinSpans(l: seq<int>, p: int, r: seq<int>, low: int, high: int)
    requires low <= p <= high
    requires multiset(l) == multiset(Span(low, p - 1)) && multiset(r) == multiset(Span(p + 1, high))
    ensures multiset([p] + l + r) == multiset(Span(low, high))
  {
    SpanSplit(low, p, high);
    assert multiset(Span(low, high))
      == multiset(Span(low, p - 1)) + multiset{p} + multiset(Span(p + 1, high));
  }

  /** The positions marked sorted from `(low, high)`: each pivot as it is
      placed and each one-element range. They are the positions of the
      range, each marked exactly once, in some order. */
  function Marks(a: seq<int>, low: nat, high: int): (m: seq<int>)
    requires low <= high + 1 && high < |a|
    ensures multiset(m) == multiset(Span(low, high))
    decreases high - low
  {
    if low > high then []
    else if low == high then
      assert Span(low, high) == [low as int];
      [low as int]
    else
      var (b, p) := Partition(a, low, high);
      var l, r := Marks(b, low, p - 1), Marks(b, p + 1, high);
      assert multiset(l) == multiset(Span(low, p - 1));
      assert multiset(r) == multiset(Span(p + 1, high));
      JoinSpans(l, p, r, low, high);
      [p as int] + l + r
  }

  /** Every position of the range is marked, each exactly once: the marks
      are as many as the positions, lie in the range and cover all of it. */
  lemma MarksExact(a: seq<int>, low: nat, high: int)
    requires low <= high + 1 && high < |a|
    ensures |Marks(a, low, high)| == high - low + 1
    ensures forall x :: x in Marks(a, low, high) <==> low <= x <= high
  {
    var m := Marks(a, low, high);
    assert |m| == |multiset(m)| == |multiset(Span(low, high))|;
    forall x
      ensures x in m <==> low <= x <= high
    {
      SpanMembers(low, high, x);
      assert x in m <==> x in multiset(m);
      assert x in Span(low, high) <==> x in multiset(Span(low, high));
    }
  }

  /** The evidently intended completion test: count the positions marked
      sorted and finish when the count reaches the array length. */
  predicate CountingCompletes(a: seq<int>) {
    |Marks(a, 0, |a| - 1)| == |a|
  }

  /** With the counting test every run completes, whatever its length, and
      the positions counted are exactly the positions of the array. */
  lemma CountingAlwaysCompletes(a: seq<int>)
    ensures CountingCompletes(a)
    ensures var m := Marks(a, 0, |a| - 1); forall x :: x in m <==> 0 <= x < |a|
  {
    MarksExact(a, 0, |a| - 1);
  }
}
