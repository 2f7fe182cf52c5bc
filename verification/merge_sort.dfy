/** Merge sort (algorithms/merge-sort.js): the left-biased `merge`, the direct
    top-down `algorithm`, the counting `mergeWithSteps`, and the step list
    built by `mergeSortWithSteps` for the animation. */
module MergeSort {
  import opened Sorting

  /** `merge(left, right)`: repeatedly take the smaller head, preferring
      `left` on ties (`left[i] <= right[j]`), then append what is left over. */
  function Merge<T>(l: seq<T>, r: seq<T>, key: T -> int): (m: seq<T>)
    ensures |m| == |l| + |r|
    decreases |l| + |r|
  {
    if |l| == 0 then r
    else if |r| == 0 then l
    else if key(l[0]) <= key(r[0]) then [l[0]] + Merge(l[1..], r, key)
    else [r[0]] + Merge(l, r[1..], key)
  }

  /** Every element of `s` has a key of at least `b`. */
  ghost predicate KeysAtLeast<T>(s: seq<T>, key: T -> int, b: int) {
    forall i :: 0 <= i < |s| ==> b <= key(s[i])
  }

  lemma {:induction false} MergeKeysAtLeast<T>(l: seq<T>, r: seq<T>, key: T -> int, b: int)
    requires KeysAtLeast(l, key, b) && KeysAtLeast(r, key, b)
    ensures KeysAtLeast(Merge(l, r, key), key, b)
    decreases |l| + |r|
  {
    if |l| > 0 && |r| > 0 {
      if key(l[0]) <= key(r[0]) {
        MergeKeysAtLeast(l[1..], r, key, b);
      } else {
        MergeKeysAtLeast(l, r[1..], key, b);
      }
    }
  }

  /** Merging two sorted sequences gives a sorted sequence. */
  lemma {:induction false} MergeSorted<T>(l: seq<T>, r: seq<T>, key: T -> int)
    requires SortedBy(l, key) && SortedBy(r, key)
    ensures SortedBy(Merge(l, r, key), key)
    decreases |l| + |r|
  {
    if |l| > 0 && |r| > 0 {
      if key(l[0]) <= key(r[0]) {
        MergeSorted(l[1..], r, key);
        MergeKeysAtLeast(l[1..], r, key, key(l[0]));
      } else {
        MergeSorted(l, r[1..], key);
        MergeKeysAtLeast(l, r[1..], key, key(r[0]));
      }
    }
  }

  /** Merging only interleaves: the result is a permutation of `l + r`. */
  lemma {:induction false} MergePermutes<T>(l: seq<T>, r: seq<T>, key: T -> int)
    ensures multiset(Merge(l, r, key)) == multiset(l) + multiset(r)
    decreases |l| + |r|
  {
    if |l| > 0 && |r| > 0 {
      if key(l[0]) <= key(r[0]) {
        MergePermutes(l[1..], r, key);
        MultisetHead(l, Merge(l[1..], r, key));
      } else {
        MergePermutes(l, r[1..], key);
        MultisetHead(r, Merge(l, r[1..], key));
      }
    }
  }

  lemma MultisetHead<T>(s: seq<T>, m: seq<T>)
    requires |s| > 0
    ensures multiset([s[0]] + m) == multiset{s[0]} + multiset(m)
    ensures multiset(s) == multiset{s[0]} + multiset(s[1..])
  {
    assert s == [s[0]] + s[1..];
  }

  /** The tie rule: among elements with equal keys, all of `left` come
      before all of `right`, each side in its own order. */
  lemma {:induction false} MergeStable<T>(l: seq<T>, r: seq<T>, key: T -> int, k: int)
    requires SortedBy(l, key)
    ensures Filter(Merge(l, r, key), key, k) == Filter(l, key, k) + Filter(r, key, k)
    decreases |l| + |r|
  {
    if |l| > 0 && |r| > 0 {
      if key(l[0]) <= key(r[0]) {
        MergeStable(l[1..], r, key, k);
        MergeStableHead(l, Merge(l[1..], r, key), key, k);
      } else {
        MergeStable(l, r[1..], key, k);
        MergeStableHead(r, Merge(l, r[1..], key), key, k);
        if key(r[0]) == k {
          FilterNone(l, key, k);
        }
      }
    }
  }

  /** Filtering `[s[0]] + m` filters the head of `s` and then `m`. */
  lemma MergeStableHead<T>(s: seq<T>, m: seq<T>, key: T -> int, k: int)
    requires |s| > 0
    ensures Filter([s[0]] + m, key, k) == Filter([s[0]], key, k) + Filter(m, key, k)
    ensures Filter(s, key, k) == Filter([s[0]], key, k) + Filter(s[1..], key, k)
  {
    FilterConcat([s[0]], m, key, k);
    FilterConcat([s[0]], s[1..], key, k);
    assert [s[0]] + s[1..] == s;
  }

  /** Merging stable sorts of two halves is a stable sort of the whole. */
  lemma MergeHalves<T>(x: seq<T>, y: seq<T>, l: seq<T>, r: seq<T>, key: T -> int)
    requires SortedBy(l, key) && StableFor(l, x, key)
    requires SortedBy(r, key) && StableFor(r, y, key)
    ensures SortedBy(Merge(l, r, key), key)
    ensures StableFor(Merge(l, r, key), x + y, key)
  {
    MergeSorted(l, r, key);
    forall k
      ensures Filter(Merge(l, r, key), key, k) == Filter(x + y, key, k)
    {
      MergeStable(l, r, key, k);
      FilterConcat(x, y, key, k);
    }
  }

  /** `mergeSort(arr)`: split at `floor(length / 2)`, sort both halves,
      merge. */
  function Sort<T>(s: seq<T>, key: T -> int): (r: seq<T>)
    ensures |r| == |s|
    ensures |s| <= 1 ==> r == s
    decreases |s|
  {
    if |s| <= 1 then s
    else
      var mid := |s| / 2;
      Merge(Sort(s[..mid], key), Sort(s[mid..], key), key)
  }

  lemma {:induction false} SortSortedStable<T>(s: seq<T>, key: T -> int)
    ensures SortedBy(Sort(s, key), key)
    ensures StableFor(Sort(s, key), s, key)
    decreases |s|
  {
    if |s| > 1 {
      var mid := |s| / 2;
      SortSortedStable(s[..mid], key);
      SortSortedStable(s[mid..], key);
      assert s == s[..mid] + s[mid..];
      MergeHalves(s[..mid], s[mid..], Sort(s[..mid], key), Sort(s[mid..], key), key);
    }
  }

  lemma {:induction false} SortPermutes<T>(s: seq<T>, key: T -> int)
    ensures multiset(Sort(s, key)) == multiset(s)
    decreases |s|
  {
    if |s| > 1 {
      var mid := |s| / 2;
      SortPermutes(s[..mid], key);
      SortPermutes(s[mid..], key);
      MergePermutes(Sort(s[..mid], key), Sort(s[mid..], key), key);
      assert s == s[..mid] + s[mid..];
    }
  }

  /** The result is sorted, a permutation of the input, and stable. */
  lemma SortCorrect<T>(s: seq<T>, key: T -> int)
    ensures SortedBy(Sort(s, key), key)
    ensures multiset(Sort(s, key)) == multiset(s)
    ensures StableFor(Sort(s, key), s, key)
  {
    SortSortedStable(s, key);
    SortPermutes(s, key);
  }

  /** Two stable sorts of one input agree: any sequence that is sorted and
      stable with respect to `s` is `Sort(s)`. */
  lemma SortIsTheStableSort<T>(s: seq<T>, t: seq<T>, key: T -> int)
    requires SortedBy(t, key) && StableFor(t, s, key)
    ensures t == Sort(s, key)
  {
    SortCorrect(s, key);
    StableSortUnique(t, Sort(s, key), key);
  }

  /** The number of iterations of the merge loop: one per element taken
      while both sides still have elements. */
  function MergeComparisons<T>(l: seq<T>, r: seq<T>, key: T -> int): nat
    decreases |l| + |r|
  {
    if |l| == 0 || |r| == 0 then 0
    else if key(l[0]) <= key(r[0]) then 1 + MergeComparisons(l[1..], r, key)
    else 1 + MergeComparisons(l, r[1..], key)
  }

  /** The loop compares at least as often as the shorter side is long and
      less often than there are elements, and not at all if a side is
      empty. */
  lemma {:induction false} MergeComparisonsBounds<T>(l: seq<T>, r: seq<T>, key: T -> int)
    ensures |l| == 0 || |r| == 0 ==> MergeComparisons(l, r, key) == 0
    ensures |l| > 0 && |r| > 0 ==>
      MergeComparisons(l, r, key) < |l| + |r| &&
      (MergeComparisons(l, r, key) >= |l| || MergeComparisons(l, r, key) >= |r|)
    decreases |l| + |r|
  {
    if |l| > 0 && |r| > 0 {
      if key(l[0]) <= key(r[0]) {
        MergeComparisonsBounds(l[1..], r, key);
      } else {
        MergeComparisonsBounds(l, r[1..], key);
      }
    }
  }

  /** One iteration of the merge loop on the unconsumed suffixes. */
  lemma MergeTakeHead<T>(l: seq<T>, r: seq<T>, key: T -> int, i: nat, j: nat)
    requires i < |l| && j < |r|
    ensures key(l[i]) <= key(r[j]) ==>
      Merge(l[i..], r[j..], key) == [l[i]] + Merge(l[i + 1..], r[j..], key) &&
      MergeComparisons(l[i..], r[j..], key) == 1 + MergeComparisons(l[i + 1..], r[j..], key)
    ensures key(l[i]) > key(r[j]) ==>
      Merge(l[i..], r[j..], key) == [r[j]] + Merge(l[i..], r[j + 1..], key) &&
      MergeComparisons(l[i..], r[j..], key) == 1 + MergeComparisons(l[i..], r[j + 1..], key)
  {
    assert l[i..][1..] == l[i + 1..];
    assert r[j..][1..] == r[j + 1..];
  }

  /** Once one side is used up, merging appends the other side. */
  lemma MergeLeftover<T>(l: seq<T>, r: seq<T>, key: T -> int, i: nat, j: nat)
    requires i <= |l| && j <= |r| && (i == |l| || j == |r|)
    ensures Merge(l[i..], r[j..], key) == l[i..] + r[j..]
    ensures MergeComparisons(l[i..], r[j..], key) == 0
  {
    if i == |l| {
      assert l[i..] + r[j..] == r[j..];
    } else {
      assert l[i..] + r[j..] == l[i..];
    }
  }

  /** `mergeWithSteps`: the same loop as `merge`, counting one comparison and
      one operation per iteration. */
  method MergeWithSteps<T>(left: seq<T>, right: seq<T>, key: T -> int)
    returns (result: seq<T>, comparisons: nat, operations: nat)
    ensures result == Merge(left, right, key)
    ensures comparisons == operations == MergeComparisons(left, right, key)
  {
    result := [];
    comparisons, operations := 0, 0;
    var i, j := 0, 0;
    assert left[i..] == left && right[j..] == right;
    ghost var rest := Merge(left, right, key);
    while i < |left| && j < |right|
      invariant 0 <= i <= |left| && 0 <= j <= |right|
      invariant rest == Merge(left[i..], right[j..], key)
      invariant result + rest == Merge(left, right, key)
      invariant comparisons == operations
      invariant comparisons + MergeComparisons(left[i..], right[j..], key) == MergeComparisons(left, right, key)
    {
      MergeTakeHead(left, right, key, i, j);
      comparisons := comparisons + 1;
      if key(left[i]) <= key(right[j]) {
        assert result + rest == (result + [left[i]]) + rest[1..];
        result := result + [left[i]];
        i := i + 1;
      } else {
        assert result + rest == (result + [right[j]]) + rest[1..];
        result := result + [right[j]];
        j := j + 1;
      }
      rest := rest[1..];
      operations := operations + 1;
    }
    MergeLeftover(left, right, key, i, j);
    result := result + (left[i..] + right[j..]);
  }

  // ---------------------------------------------------------------------
  // The step list of `visualizeMergeSort`.

  /** The records pushed onto `steps`. */
  datatype Step<T> =
    | Divide(slice: seq<T>, start: int, end: int, mid: int, level: nat)
    | MergeStep(left: seq<T>, right: seq<T>, result: seq<T>, start: int, level: nat)

  /** The call tree of `mergeSortWithSteps`: a one-element range, or a
      range split into two sub-calls. */
  datatype Trace<T> =
    | Single(value: T)
    | Split(start: nat, end: nat, mid: nat, level: nat, left: Trace<T>, right: Trace<T>)

  /** `mergeSortWithSteps(array, start, end, level)`: split the inclusive
      range at `floor((start + end) / 2)`, so the left part has `ceil(L / 2)`
      elements, and recurse on both halves; a one-element range is a leaf.
      The range is cut into exactly one leaf per element. */
  function CallTree<T>(a: seq<T>, start: nat, end: nat, level: nat): (t: Trace<T>)
    requires start <= end < |a|
    ensures Leaves(t) == end - start + 1
    decreases end - start
  {
    if start >= end then Single(a[start])
    else
      var mid := (start + end) / 2;
      Split(start, end, mid, level, CallTree(a, start, mid, level + 1),
            CallTree(a, mid + 1, end, level + 1))
  }

  /** Number of one-element calls. */
  function Leaves<T>(t: Trace<T>): nat {
    match t
    case Single(_) => 1
    case Split(_, _, _, _, l, r) => Leaves(l) + Leaves(r)
  }

  /** The elements a call was given, left to right. */
  function Input<T>(t: Trace<T>): seq<T> {
    match t
    case Single(x) => [x]
    case Split(_, _, _, _, l, r) => Input(l) + Input(r)
  }

  /** What the call returns: `[array[start]]` for one element, otherwise
      `mergeWithSteps` of the two sub-calls' results. */
  function Result<T>(t: Trace<T>, key: T -> int): seq<T> {
    match t
    case Single(x) => [x]
    case Split(_, _, _, _, l, r) => Merge(Result(l, key), Result(r, key), key)
  }

  /** The records the call pushes onto `steps`, in push order: its divide
      record before recursing, then the left and right sub-calls' records,
      then its merge record. A one-element call pushes nothing. */
  function Steps<T>(t: Trace<T>, key: T -> int): seq<Step<T>> {
    match t
    case Single(_) => []
    case Split(start, end, mid, level, l, r) =>
      [Divide(Input(t), start, end, mid, level)] + Steps(l, key) + Steps(r, key)
      + [MergeStep(Result(l, key), Result(r, key), Result(t, key), start, level)]
  }

  /** Each call is given exactly its range of the array. */
  lemma {:induction false} CallTreeInput<T>(a: seq<T>, start: nat, end: nat, level: nat)
    requires start <= end < |a|
    ensures Input(CallTree(a, start, end, level)) == a[start..end + 1]
    decreases end - start
  {
    if start < end {
      var mid := (start + end) / 2;
      CallTreeInput(a, start, mid, level + 1);
      CallTreeInput(a, mid + 1, end, level + 1);
      assert a[start..end + 1] == a[start..mid + 1] + a[mid + 1..end + 1];
    } else {
      assert a[start..end + 1] == [a[start]];
    }
  }

  /** Every call sorts what it was given, stably. */
  lemma {:induction false} ResultSorts<T>(t: Trace<T>, key: T -> int)
    ensures SortedBy(Result(t, key), key) && StableFor(Result(t, key), Input(t), key)
  {
    match t
    case Single(_) =>
    case Split(_, _, _, _, l, r) =>
      ResultSorts(l, key);
      ResultSorts(r, key);
      MergeHalves(Input(l), Input(r), Result(l, key), Result(r, key), key);
  }

  /** Although it splits at a different point, the step version returns the
      same sequence as `mergeSort` for every non-empty array. */
  lemma StepsMatchSort<T>(a: seq<T>, key: T -> int)
    requires |a| > 0
    ensures Result(CallTree(a, 0, |a| - 1, 0), key) == Sort(a, key)
  {
    var t := CallTree(a, 0, |a| - 1, 0);
    CallTreeInput(a, 0, |a| - 1, 0);
    assert a[0..|a|] == a;
    ResultSorts(t, key);
    SortIsTheStableSort(a, Result(t, key), key);
  }

  /** Number of divide records. */
  function Divides<T>(steps: seq<Step<T>>): nat {
    if |steps| == 0 then 0 else (if steps[0].Divide? then 1 else 0) + Divides(steps[1..])
  }

  /** Number of merge records. */
  function Merges<T>(steps: seq<Step<T>>): nat {
    if |steps| == 0 then 0 else (if steps[0].MergeStep? then 1 else 0) + Merges(steps[1..])
  }

  lemma {:induction false} CountsConcat<T>(s: seq<Step<T>>, t: seq<Step<T>>)
    ensures Divides(s + t) == Divides(s) + Divides(t)
    ensures Merges(s + t) == Merges(s) + Merges(t)
    decreases |s|
  {
    if |s| == 0 {
      assert s + t == t;
    } else {
      assert (s + t)[1..] == s[1..] + t;
      CountsConcat(s[1..], t);
    }
  }

  lemma FrameCounts<T>(d: Step<T>, s: seq<Step<T>>, t: seq<Step<T>>, m: Step<T>)
    requires d.Divide? && m.MergeStep?
    ensures Divides([d] + s + t + [m]) == 1 + Divides(s) + Divides(t)
    ensures Merges([d] + s + t + [m]) == 1 + Merges(s) + Merges(t)
  {
    CountsConcat([d] + s + t, [m]);
    CountsConcat([d] + s, t);
    CountsConcat([d], s);
  }

  /** A call tree with `L` leaves pushes `L - 1` divide and `L - 1` merge
      records. */
  lemma {:induction false} TraceCounts<T>(t: Trace<T>, key: T -> int)
    ensures Divides(Steps(t, key)) == Leaves(t) - 1
    ensures Merges(Steps(t, key)) == Leaves(t) - 1
  {
    match t
    case Single(_) =>
    case Split(start, end, mid, level, l, r) =>
      TraceCounts(l, key);
      TraceCounts(r, key);
      FrameCounts(Divide(Input(t), start, end, mid, level), Steps(l, key), Steps(r, key),
        MergeStep(Result(l, key), Result(r, key), Result(t, key), start, level));
  }

  /** Sorting `L` elements pushes `L - 1` divide and `L - 1` merge records. */
  lemma StepCounts<T>(a: seq<T>, key: T -> int)
    requires |a| > 0
    ensures Divides(Steps(CallTree(a, 0, |a| - 1, 0), key)) == |a| - 1
    ensures Merges(Steps(CallTree(a, 0, |a| - 1, 0), key)) == |a| - 1
  {
    TraceCounts(CallTree(a, 0, |a| - 1, 0), key);
  }

  /** Every divide record is followed, later in the list, by the merge record
      of the same range (same start, same level). */
  ghost predicate DividesClosed<T>(steps: seq<Step<T>>) {
    forall p :: 0 <= p < |steps| && steps[p].Divide? ==>
      exists q :: (p < q < |steps| && steps[q].MergeStep?
        && steps[q].start == steps[p].start && steps[q].level == steps[p].level)
  }

  lemma DividesClosedConcat<T>(s: seq<Step<T>>, t: seq<Step<T>>)
    requires DividesClosed(s) && DividesClosed(t)
    ensures DividesClosed(s + t)
  {
    var u := s + t;
    forall p | 0 <= p < |u| && u[p].Divide?
      ensures exists q :: (p < q < |u| && u[q].MergeStep?
        && u[q].start == u[p].start && u[q].level == u[p].level)
    {
      if p < |s| {
        var q :| p < q < |s| && s[q].MergeStep? && s[q].start == s[p].start && s[q].level == s[p].level;
        assert u[q] == s[q];
      } else {
        assert u[p] == t[p - |s|];
        var q :| p - |s| < q < |t| && t[q].MergeStep? && t[q].start == t[p - |s|].start
          && t[q].level == t[p - |s|].level;
        assert u[q + |s|] == t[q];
      }
    }
  }

  /** Putting a divide record in front of a closed list that ends with the
      merge record of the same range keeps it closed. */
  lemma DividesClosedPrepend<T>(d: Step<T>, u: seq<Step<T>>)
    requires DividesClosed(u) && |u| > 0
    requires u[|u| - 1].MergeStep? && u[|u| - 1].start == d.start && u[|u| - 1].level == d.level
    ensures DividesClosed([d] + u)
  {
    var v := [d] + u;
    forall p | 0 <= p < |v| && v[p].Divide?
      ensures exists q :: (p < q < |v| && v[q].MergeStep?
        && v[q].start == v[p].start && v[q].level == v[p].level)
    {
      if p == 0 {
        assert v[|v| - 1] == u[|u| - 1];
      } else {
        assert v[p] == u[p - 1];
        var q :| p - 1 < q < |u| && u[q].MergeStep? && u[q].start == u[p - 1].start
          && u[q].level == u[p - 1].level;
        assert v[q + 1] == u[q];
      }
    }
  }

  /** In the pushed list, every divide record is eventually matched by the
      merge record of its range. */
  lemma {:induction false} StepsBracketed<T>(t: Trace<T>, key: T -> int)
    ensures DividesClosed(Steps(t, key))
  {
    match t
    case Single(_) =>
    case Split(start, end, mid, level, l, r) =>
      StepsBracketed(l, key);
      StepsBracketed(r, key);
      var d := Divide(Input(t), start, end, mid, level);
      var m := MergeStep(Result(l, key), Result(r, key), Result(t, key), start, level);
      var inner := Steps(l, key) + Steps(r, key);
      DividesClosedConcat(Steps(l, key), Steps(r, key));
      assert DividesClosed([m]);
      DividesClosedConcat(inner, [m]);
      assert Steps(t, key) == [d] + (inner + [m]);
      DividesClosedPrepend(d, inner + [m]);
  }
}
