/** The circular linked list of algorithms/circular-linked-list.js: an
    array `circularList` whose last element is shown pointing back to the
    first, its insert, delete-last and search buttons, the traversal that
    goes round it twice, and the demo. */
module CircularList {
  import opened Wrappers
  import opened UiInput
  import opened Seqs

  /** The panel: `circularList` and the shared `isAnimating` flag. */
  datatype Panel = Panel(list: seq<int>, animating: bool)

  /** The list holds fewer than this many values before an insert. */
  const Capacity := 6

  /** `insertToCircularList()` with the parsed input: a value in `1..999`
      joins the end (the node that points back to the head) while fewer
      than six are present; otherwise nothing changes. */
  function Insert(p: Panel, input: Parsed): (r: Panel)
    ensures Accepts(input, |p.list|, Capacity) ==> r.list == p.list + [input.value]
    ensures !Accepts(input, |p.list|, Capacity) ==> r == p
    ensures r.animating == p.animating
  {
    if Accepts(input, |p.list|, Capacity) then p.(list := p.list + [input.value]) else p
  }

  /** `deleteFromCircularList()`: the last value comes off and is
      reported; on an empty list "Cannot delete from empty circular list!"
      and no change. */
  function DeleteLast(p: Panel): (r: (Panel, Option<int>))
    ensures |p.list| == 0 ==> r == (p, None)
    ensures |p.list| > 0 ==>
      r.1 == Some(p.list[|p.list| - 1]) && r.0.list + [r.1.value] == p.list
    ensures r.0.animating == p.animating
  {
    if |p.list| > 0 then (p.(list := p.list[..|p.list| - 1]), Some(p.list[|p.list| - 1]))
    else (p, None)
  }

  /** What the search button reports: nothing for a falsy input, the
      value with the position it was found at, or that it is absent. */
  datatype Status = Ignored | Found(value: int, position: nat) | NotFound(value: int)

  /** `searchInCircularList()`: any truthy input is looked up with
      `indexOf` (there is no range check here); the list is not changed,
      so the function returns only the report. */
  function Search(p: Panel, input: Parsed): (r: Status)
    ensures !Truthy(input) <==> r.Ignored?
    ensures r.Found? <==> Truthy(input) && input.value in p.list
    ensures r.Found? ==>
      r.value == input.value && r.position < |p.list| && p.list[r.position] == r.value
      && r.value !in p.list[..r.position]
    ensures r.NotFound? ==> r.value == input.value
  {
    if !Truthy(input) then Ignored
    else
      var i := IndexOf(p.list, input.value);
      if i == -1 then NotFound(input.value) else Found(input.value, i)
  }

  /** The head shown above the list: `list[0]`, or `None` for "NULL". */
  function Head(p: Panel): (r: Option<int>)
    ensures r.None? <==> |p.list| == 0
    ensures r.Some? ==> r.value == p.list[0]
  {
    if |p.list| > 0 then Some(p.list[0]) else None
  }

  /** The Clear button (`reset-btn`): the list is emptied and `isAnimating`
      cleared. */
  function Reset(p: Panel): (r: Panel)
    ensures r.list == [] && !r.animating
  {
    Panel([], false)
  }

  /** Insert and delete keep the list within six values in `1..999`. */
  lemma ButtonsStayWithinCap(p: Panel, input: Parsed)
    requires WithinCap(p.list, Capacity)
    ensures WithinCap(Insert(p, input).list, Capacity)
    ensures WithinCap(DeleteLast(p).0.list, Capacity)
  {
    if Accepts(input, |p.list|, Capacity) {
      AppendAccepted(p.list, input, Capacity);
    }
  }

  // ---------------------------------------------------------------------
  // Traversal.

  /** One highlighted step of the traversal: the position, the value
      shown there and the reported round. */
  datatype Visit = Visit(position: nat, value: int, round: int)

  /** The `traverseStep` ticks from `currentIndex == current` and
      `traverseCount == count` until `count` reaches twice the length. */
  function Tour(list: seq<int>, current: nat, count: nat): (r: seq<Visit>)
    requires current < |list|
    ensures |r| == if count >= 2 * |list| then 0 else 2 * |list| - count
    decreases 2 * |list| - count
  {
    if count >= 2 * |list| then []
    else
      [Visit(current, list[current], count / |list| + 1)]
        + Tour(list, (current + 1) % |list|, count + 1)
  }

  /** `traverseCircularList()` run to the end: nothing on an empty list or
      while another run is animating; otherwise the visits, with
      `isAnimating` set for the run and cleared when it completes. */
  function Traverse(p: Panel): (r: (Panel, seq<Visit>))
    ensures |p.list| == 0 || p.animating ==> r == (p, [])
    ensures r.0.list == p.list
  {
    if |p.list| == 0 || p.animating then (p, [])
    else (p.(animating := false), Tour(p.list, 0, 0))
  }

  /** From a tick whose index is its count modulo the length, the `k`-th
      later visit is at position `(count + k) mod n`, in round
      `(count + k) / n + 1`, and shows the value there. */
  lemma {:induction false} TourVisits(list: seq<int>, current: nat, count: nat, k: nat)
    requires current < |list| && current == count % |list|
    requires count + k < 2 * |list|
    ensures |Tour(list, current, count)| == 2 * |list| - count
    ensures Tour(list, current, count)[k] ==
      Visit((count + k) % |list|, list[(count + k) % |list|], (count + k) / |list| + 1)
    decreases k
  {
    var n := |list|;
    if k > 0 {
      var next := (current + 1) % n;
      SmallDivMod(count, n);
      SmallDivMod(count + 1, n);
      SmallDivMod(current + 1, n);
      TourVisits(list, next, count + 1, k - 1);
    } else {
      SmallDivMod(count, n);
    }
  }

  /** Below `2n`, division by `n` gives 0 or 1 and the remainder drops
      `n` at most once. */
  lemma SmallDivMod(x: nat, n: nat)
    requires 0 < n && x < 2 * n
    ensures x < n ==> x % n == x && x / n == 0
    ensures n <= x ==> x % n == x - n && x / n == 1
  {
    if n <= x {
      assert x == 1 * n + (x - n);
    }
  }

  /** The traversal of a list of length `n` makes `2n` visits; the `k`-th
      is at position `k mod n`, shows the value there, and reports round
      1 for the first `n` visits and round 2 for the rest. */
  lemma TraversalGoesRoundTwice(p: Panel, k: nat)
    requires |p.list| > 0 && !p.animating && k < 2 * |p.list|
    ensures |Traverse(p).1| == 2 * |p.list|
    ensures Traverse(p).1[k].position == k % |p.list|
    ensures Traverse(p).1[k].value == p.list[k % |p.list|]
    ensures Traverse(p).1[k].round == (if k < |p.list| then 1 else 2)
    ensures !Traverse(p).0.animating
  {
    TourVisits(p.list, 0, 0, k);
    SmallDivMod(k, |p.list|);
  }

  /** Every node is visited exactly twice: position `i` is visited at
      steps `i` and `i + n` and at no others. */
  lemma EachNodeTwice(p: Panel, i: nat, k: nat)
    requires |p.list| > 0 && !p.animating && i < |p.list| && k < 2 * |p.list|
    ensures Traverse(p).1[k].position == i <==> k == i || k == i + |p.list|
  {
    TraversalGoesRoundTwice(p, k);
    SmallDivMod(k, |p.list|);
  }

  // ---------------------------------------------------------------------
  // The demo.

  /** The values the demo inserts. */
  const DemoValues: seq<int> := [10, 20, 30, 40]

  /** The demo button as written: nothing while another run is animating;
      otherwise `isAnimating` is set, the list is rebuilt from the demo
      values and `traverseCircularList()` is called, which returns at
      once because `isAnimating` is still set. */
  function DemoAsWritten(p: Panel): (r: (Panel, seq<Visit>))
    ensures p.animating ==> r == (p, [])
    ensures !p.animating ==> r.0 == Panel(DemoValues, true)
    ensures r.1 == []
  {
    if p.animating then (p, [])
    else Traverse(Panel(DemoValues, true))
  }

  /** The demo as written shows no traversal and leaves `isAnimating` set,
      so the Traverse and Demo buttons stay inert until Clear, Random or
      closing the modal clears it. */
  lemma DemoNeverTraverses(p: Panel)
    ensures !p.animating ==> DemoAsWritten(p) == (Panel([10, 20, 30, 40], true), [])
    ensures DemoAsWritten(p).0.animating
    ensures Traverse(DemoAsWritten(p).0) == (DemoAsWritten(p).0, [])
    ensures DemoAsWritten(DemoAsWritten(p).0) == (DemoAsWritten(p).0, [])
  {
  }

  /** The demo with the traversal started as its last step: the flag the
      demo holds is handed over to the traversal instead of blocking it. */
  function Demo(p: Panel): (r: (Panel, seq<Visit>))
    ensures p.animating ==> r == (p, [])
    ensures !p.animating ==> r.0 == Panel(DemoValues, false) && |r.1| == 2 * |DemoValues|
  {
    if p.animating then (p, [])
    else Traverse(Panel(DemoValues, false))
  }

  /** The demo goes round its four values twice, shows 10, 20, 30, 40, 10,
      20, 30, 40, and clears `isAnimating` at the end. */
  lemma DemoTraversesTwice(p: Panel)
    requires !p.animating
    ensures Demo(p).0 == Panel([10, 20, 30, 40], false)
    ensures |Demo(p).1| == 8
    ensures forall k :: 0 <= k < 8 ==> Demo(p).1[k].value == DemoValues[k % 4]
  {
    forall k | 0 <= k < 8
      ensures Demo(p).1[k].value == DemoValues[k % 4]
    {
      TraversalGoesRoundTwice(Panel(DemoValues, false), k);
    }
  }
}
