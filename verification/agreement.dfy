/** The three sorting modules side by side: on every input they return
    the same array. */
module Agreement {
  import opened Sorting
  import BubbleSort
  import MergeSort
  import QuickSort

  /** Bubble sort and merge sort are both stable sorts, and a list has
      only one stable sort by a key, so they agree on every input. */
  lemma BubbleAgreesWithMerge<T>(s: seq<T>, key: T -> int)
    ensures BubbleSort.Sort(s, key) == MergeSort.Sort(s, key)
  {
    BubbleSort.SortCorrect(s, key);
    MergeSort.SortIsTheStableSort(s, BubbleSort.Sort(s, key), key);
  }

  /** On numbers, quick sort returns what merge sort returns: both give
      the ascending permutation of the input, and there is only one. */
  lemma QuickAgreesWithMerge(a: seq<int>)
    ensures QuickSort.Sort(a) == MergeSort.Sort(a, Id)
  {
    QuickSort.SortCorrect(a);
    MergeSort.SortCorrect(a, Id);
    AscendingIsSortedById(MergeSort.Sort(a, Id));
    AscendingPermutationUnique(QuickSort.Sort(a), MergeSort.Sort(a, Id));
  }
}
