/** Shared vocabulary of the sorting kernels: sortedness under an integer key,
    adjacent swaps, and the per-key subsequence used to state stability. */
module Sorting {

  /** `s` is nondecreasing when compared through `key`. */
  predicate SortedBy<T>(s: seq<T>, key: T -> int) {
    forall i, j :: 0 <= i < j < |s| ==> key(s[i]) <= key(s[j])
  }

  /** The JavaScript arrays of numbers compare their elements directly. */
  function Id(x: int): int { x }

  /** Ascending order of a sequence of numbers. */
  predicate Ascending(s: seq<int>) {
    forall i, j :: 0 <= i < j < |s| ==> s[i] <= s[j]
  }

  lemma AscendingIsSortedById(s: seq<int>)
    ensures Ascending(s) <==> SortedBy(s, Id)
  {
  }

  /** Destructuring swap `[a[i], a[j]] = [a[j], a[i]]`. */
  function Swap<T>(s: seq<T>, i: nat, j: nat): (r: seq<T>)
    requires i < |s| && j < |s|
    ensures |r| == |s| && r[i] == s[j] && r[j] == s[i]
    ensures forall k :: 0 <= k < |s| && k != i && k != j ==> r[k] == s[k]
  {
    seq(|s|, k requires 0 <= k < |s| => if k == i then s[j] else if k == j then s[i] else s[k])
  }

  lemma SwapPermutes<T>(s: seq<T>, i: nat, j: nat)
    requires i < |s| && j < |s|
    ensures multiset(Swap(s, i, j)) == multiset(s)
  {
    assert Swap(s, i, j) == s[i := s[j]][j := s[i]];
  }

  /** The elements of `s` whose key is `k`, in their order in `s`. */
  function Filter<T>(s: seq<T>, key: T -> int, k: int): (r: seq<T>)
    ensures |r| <= |s|
    ensures forall i :: 0 <= i < |r| ==> key(r[i]) == k
  {
    if |s| == 0 then []
    else (if key(s[0]) == k then [s[0]] else []) + Filter(s[1..], key, k)
  }

  /** `r` keeps, for every key, the relative order that `s` had: the
      defining property of a stable rearrangement. */
  ghost predicate StableFor<T>(r: seq<T>, s: seq<T>, key: T -> int) {
    forall k :: Filter(r, key, k) == Filter(s, key, k)
  }

  lemma {:induction false} FilterConcat<T>(a: seq<T>, b: seq<T>, key: T -> int, k: int)
    ensures Filter(a + b, key, k) == Filter(a, key, k) + Filter(b, key, k)
    decreases |a|
  {
    if |a| == 0 {
      assert a + b == b;
    } else {
      assert (a + b)[1..] == a[1..] + b;
      FilterConcat(a[1..], b, key, k);
    }
  }

  /** No element with key `k` means an empty filter. */
  lemma {:induction false} FilterNone<T>(s: seq<T>, key: T -> int, k: int)
    requires forall i :: 0 <= i < |s| ==> key(s[i]) != k
    ensures Filter(s, key, k) == []
    decreases |s|
  {
    if |s| > 0 {
      FilterNone(s[1..], key, k);
    }
  }

  /** Swapping two adjacent elements with different keys changes no filter:
      this is why a swap guarded by a strict comparison keeps a sort stable. */
  lemma FilterSwapAdjacent<T>(s: seq<T>, key: T -> int, j: nat)
    requires j + 1 < |s| && key(s[j]) != key(s[j + 1])
    ensures StableFor(Swap(s, j, j + 1), s, key)
  {
    var a, x, y, b := s[..j], s[j], s[j + 1], s[j + 2..];
    SwapAdjacentShape(s, j);
    forall k
      ensures Filter(a + [y] + [x] + b, key, k) == Filter(a + [x] + [y] + b, key, k)
    {
      FilterSwapPair(a, x, y, b, key, k);
    }
  }

  /** Swapping neighbours `j` and `j + 1` exchanges two one-element pieces. */
  lemma SwapAdjacentShape<T>(s: seq<T>, j: nat)
    requires j + 1 < |s|
    ensures s == s[..j] + [s[j]] + [s[j + 1]] + s[j + 2..]
    ensures Swap(s, j, j + 1) == s[..j] + [s[j + 1]] + [s[j]] + s[j + 2..]
  {
  }

  /** Filters cannot tell `x, y` from `y, x` when their keys differ. */
  lemma FilterSwapPair<T>(a: seq<T>, x: T, y: T, b: seq<T>, key: T -> int, k: int)
    requires key(x) != key(y)
    ensures Filter(a + [y] + [x] + b, key, k) == Filter(a + [x] + [y] + b, key, k)
  {
    assert a + [y] + [x] + b == a + ([y] + ([x] + b));
    assert a + [x] + [y] + b == a + ([x] + ([y] + b));
    FilterConcat(a, [x] + ([y] + b), key, k);
    FilterConcat([x], [y] + b, key, k);
    FilterConcat([y], b, key, k);
    FilterConcat(a, [y] + ([x] + b), key, k);
    FilterConcat([y], [x] + b, key, k);
    FilterConcat([x], b, key, k);
  }

  /** The first element of a non-empty sequence appears in its own filter. */
  lemma HeadKeyFilter<T>(s: seq<T>, key: T -> int)
    requires |s| > 0
    ensures Filter(s, key, key(s[0])) != []
  {
  }

  /** A sorted sequence's filters determine it: two sequences that are both
      sorted by `key` and agree on every filter are equal. So every stable
      sort of the same input yields the same output. */
  lemma {:induction false} StableSortUnique<T>(a: seq<T>, b: seq<T>, key: T -> int)
    requires SortedBy(a, key) && SortedBy(b, key)
    requires StableFor(a, b, key)
    ensures a == b
    decreases |a| + |b|
  {
    if |a| == 0 || |b| == 0 {
      if |a| > 0 {
        HeadKeyFilter(a, key);
        assert false;
      } else if |b| > 0 {
        HeadKeyFilter(b, key);
        assert false;
      }
    } else {
      var ka, kb := key(a[0]), key(b[0]);
      if ka < kb {
        FilterNone(b, key, ka);
        HeadKeyFilter(a, key);
        assert false;
      } else if kb < ka {
        FilterNone(a, key, kb);
        HeadKeyFilter(b, key);
        assert false;
      } else {
        assert Filter(a, key, ka)[0] == a[0];
        assert Filter(b, key, ka)[0] == b[0];
        assert a[0] == b[0];
        forall k
          ensures Filter(a[1..], key, k) == Filter(b[1..], key, k)
        {
          var head := if ka == k then [a[0]] else [];
          assert Filter(a, key, k) == head + Filter(a[1..], key, k);
          assert Filter(b, key, k) == head + Filter(b[1..], key, k);
          assert Filter(a, key, k) == Filter(b, key, k);
          assert Filter(a[1..], key, k) == Filter(a, key, k)[|head|..];
        }
        StableSortUnique(a[1..], b[1..], key);
        assert a == [a[0]] + a[1..];
        assert b == [b[0]] + b[1..];
      }
    }
  }

  /** `n` copies of `x`. */
  function Repeat(x: int, n: nat): (r: seq<int>)
    ensures |r| == n
    ensures forall i :: 0 <= i < n ==> r[i] == x
  {
    if n == 0 then [] else [x] + Repeat(x, n - 1)
  }

  /** For numbers compared directly, a filter is determined by a count. */
  lemma {:induction false} FilterIdIsRepeat(s: seq<int>, k: int)
    ensures Filter(s, Id, k) == Repeat(k, multiset(s)[k])
    decreases |s|
  {
    if |s| > 0 {
      FilterIdIsRepeat(s[1..], k);
      assert s == [s[0]] + s[1..];
      assert multiset(s) == multiset{s[0]} + multiset(s[1..]);
      if s[0] == k {
        assert multiset(s)[k] == multiset(s[1..])[k] + 1;
      } else {
        assert multiset(s)[k] == multiset(s[1..])[k];
      }
    }
  }

  /** Any two ascending permutations of one sequence of numbers are equal. */
  lemma AscendingPermutationUnique(a: seq<int>, b: seq<int>)
    requires Ascending(a) && Ascending(b)
    requires multiset(a) == multiset(b)
    ensures a == b
  {
    forall k
      ensures Filter(a, Id, k) == Filter(b, Id, k)
    {
      FilterIdIsRepeat(a, k);
      FilterIdIsRepeat(b, k);
    }
    StableSortUnique(a, b, Id);
  }
}
