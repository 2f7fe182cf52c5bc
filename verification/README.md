# visualizeAlgo core, modelled in Dafny

This project models the logic behind the algorithm visualizer's panels and proves properties of it. It leaves out the page rendering. Modules:

- **The three sorting kernels** (`BubbleSort`, `MergeSort`, `QuickSort`):
  - the plain `algorithm` functions;
  - the step-by-step animations that the visualizations replay with timers: `bubbleStep`, the `mergeSortWithSteps` trace, and `visualizeQuickSort` / `visualizePartition`.

  The sorts are generic over a key function so that stability can be stated. `Sorting` holds the shared definitions: sortedness, the per-key `Filter`, stability, and the fact that a stable sort is unique. `Agreement` uses that fact to show the three sorts compute the same result.
- **Binary search** (`BinarySearch`):
  - the plain search and its probe sequence;
  - the animated `searchStep` run, whose target comes from `parseInt` and may be NaN.
- **The stack, queue and linked-list panels** (`Stack`, `Queue`, `LinkedList`):
  - the data structures defined inside each `algorithm` function;
  - the buttons that act on the panel's array, with the input guard `value && 1 <= value <= 999 && length < cap` shared in `UiInput`;
  - the demos.
- **The circular queue** (`CircularQueue`):
  - six slots with `front`/`rear` indices;
  - a refinement proof against the plain FIFO queue;
  - the demo.
- **The circular linked list** (`CircularList`): its buttons, the two-round traversal and the demo.
- **The algorithm registry** (`Registry`):
  - registration, lookup, categories;
  - the card order and the card lookup tables;
  - `initializeAlgorithm`.

  JavaScript `Map`s are association lists (`Table`), which keep insertion order the way `Map` iteration does.
- **The page-level state of `script.js`** (`Session`):
  - the speed slider and the timer list;
  - opening and closing the modal;
  - the comparison panel and its tables.

Modelling choices:
- Timers are modelled as step functions run to completion: each `setTimeout` callback becomes one step.
- `parseInt` results are `Option<int>`, with `None` standing for NaN. JavaScript truthiness (`value && ...`) rejects both `None` and `0`.

## Model

| member | source | states |
|---|---|---|
| BubbleSort.CompareSwapStep | algorithms/bubble-sort.js:33-37 | one compare-and-swap carries the largest key seen so far one place to the right and keeps the settled suffix settled |
| BubbleSort.InnerPassSettles | algorithms/bubble-sort.js:33-38 | after the inner pass over `0..e` the largest key sits at `e`, so the suffix from `e` is settled |
| BubbleSort.PassesStable | algorithms/bubble-sort.js:34-37 | the passes only swap strictly out-of-order neighbours, so equal keys keep their relative order |
| BubbleSort.SortCorrect | algorithms/bubble-sort.js:29-42 | the result is sorted, is a permutation of the input, and is stable |
| BubbleSort.SortInPlace | algorithms/bubble-sort.js:29-42 | the nested `for` loops over the array compute the same result, and that result is sorted and a permutation of the input |
| BubbleSort.Start | algorithms/bubble-sort.js:76-85 | the animation refuses to start while another is running; otherwise it starts on a copy of the array with zeroed counters |
| BubbleSort.StepCountsComparison | algorithms/bubble-sort.js:88-130 | every tick either makes one comparison or closes a pass; the comparisons made plus those left stay constant |
| BubbleSort.AnimateMatchesSort | algorithms/bubble-sort.js:87-162 | the animation run to the end leaves the bubble-sorted array, makes n(n-1)/2 comparisons and clears `isAnimating` |
| BubbleSort.NoOperationsIffSorted | algorithms/bubble-sort.js:105-110 | the animation swaps nothing exactly when the input is already sorted |
| MergeSort.MergeSorted | algorithms/merge-sort.js:40-53 | merging two sorted lists yields a sorted list |
| MergeSort.MergePermutes | algorithms/merge-sort.js:40-53 | the merge holds exactly the elements of both lists |
| MergeSort.MergeStable | algorithms/merge-sort.js:40-53 | taking from the left on ties keeps, for every key, the left list's elements before the right's |
| MergeSort.SortCorrect | algorithms/merge-sort.js:29-37 | the result is sorted, is a permutation of the input, and is stable |
| MergeSort.SortIsTheStableSort | algorithms/merge-sort.js:29-53 | any sorted, stable rearrangement of the input equals the merge sort result |
| MergeSort.MergeWithSteps | algorithms/merge-sort.js:148-163 | the visualizer's merge loop builds the same list as `merge`, counting one comparison and one operation per loop turn |
| MergeSort.CallTreeInput | algorithms/merge-sort.js:109-140 | the leaves of the `mergeSortWithSteps` call tree, read left to right, are the input range |
| MergeSort.StepsMatchSort | algorithms/merge-sort.js:105-145 | the value the traced recursion returns for the whole array is the merge sort result |
| MergeSort.StepCounts | algorithms/merge-sort.js:115-137 | the trace records n-1 divide steps and n-1 merge steps |
| MergeSort.StepsBracketed | algorithms/merge-sort.js:109-140 | every divide step is followed later by the merge step of the same range and level |
| QuickSort.PartitionCorrect | algorithms/quick-sort.js:41-54 | Lomuto partition puts the pivot at the returned index, smaller values left of it and the rest right of it, permutes only the range, and leaves the rest of the array alone |
| QuickSort.PartitionLoop | algorithms/quick-sort.js:41-54 | the `for` loop with swaps computes that partition |
| QuickSort.VisualizePartition | algorithms/quick-sort.js:160-220 | the visual partition leaves the same array and pivot index, makes high-low comparisons and between 1 and high-low+1 swaps |
| QuickSort.SortRangeFrame | algorithms/quick-sort.js:29-38 | sorting `[low, high]` changes nothing outside that range and only permutes the elements |
| QuickSort.SortRangeSorts | algorithms/quick-sort.js:29-38 | after sorting, `[low, high]` is ascending |
| QuickSort.SortCorrect | algorithms/quick-sort.js:29-38 | the whole-array sort is ascending and a permutation of the input |
| QuickSort.SortInPlace | algorithms/quick-sort.js:29-38 | the recursive in-place method computes the same array as the functional model |
| QuickSort.CallsNested | algorithms/quick-sort.js:112-157 | every call `visualizeQuickSort` makes below `(low, high)` is on a strictly smaller range inside it |
| QuickSort.CompletionOnlyForShort | algorithms/quick-sort.js:113-133 | the completion branch (a leaf call on the whole array) runs exactly when the array has at most one element |
| QuickSort.Marks | algorithms/quick-sort.js:113-157 | the positions the visualization marks sorted, one per leaf or pivot, are a permutation of `low..high` |
| QuickSort.MarksExact | algorithms/quick-sort.js:113-157 | exactly high-low+1 marks are made, and a position is marked iff it lies in `[low, high]` |
| QuickSort.CountingAlwaysCompletes | algorithms/quick-sort.js:122-127 | a completion test that counts the positions marked sorted fires for every array, and every index is marked |
| BinarySearch.Mid | algorithms/binary-search.js:34 | the midpoint lies in the window, and its two sides differ in size by at most one |
| BinarySearch.SearchCorrect | algorithms/binary-search.js:29-46 | on an ascending array the search returns -1 exactly when the target is absent, and otherwise an index holding it |
| BinarySearch.SearchLoop | algorithms/binary-search.js:29-46 | the `while` loop computes that result |
| BinarySearch.ProbesInArray | algorithms/binary-search.js:33-43 | every probe lies inside the array and its current window |
| BinarySearch.ProbesNarrow | algorithms/binary-search.js:33-43 | every probe's window is strictly narrower than the one before |
| BinarySearch.ResultIsLastProbe | algorithms/binary-search.js:33-43 | a found index is the midpoint of the last probe |
| BinarySearch.SevenInOddNumbers | algorithms/binary-search.js:29-46 | searching 7 in [1, 3, 5, 7, 9] probes indices 2 then 3 and returns 3 |
| BinarySearch.Start | algorithms/binary-search.js:105-116 | the animated search refuses to start while another runs; otherwise it starts on the whole array with no outcome |
| BinarySearch.SearchStep | algorithms/binary-search.js:118-221 | a tick either settles the outcome and clears `isAnimating`, or strictly narrows the window |
| BinarySearch.RunMatchesSearch | algorithms/binary-search.js:118-224 | the animated run reports what the plain search returns, counts one comparison and one operation per probe, and ends not animating |
| BinarySearch.NaNNeverFound | algorithms/binary-search.js:155-220 | with a NaN target every comparison fails, so the run always reports not found |
| Stack.Push | algorithms/stack.js:35-38 | push adds the element on top and grows the stack by one |
| Stack.Pop | algorithms/stack.js:39-42 | pop on an empty stack gives null and changes nothing; otherwise it returns the top, and the rest is the stack below it |
| Stack.PushThenPop | algorithms/stack.js:35-42 | popping after a push gives back the pushed element and the old stack |
| Stack.PopThenPush | algorithms/stack.js:35-42 | pushing the popped element back restores the stack |
| Stack.PopsReverse | algorithms/stack.js:35-47 | pushing a sequence and popping as many gives it back reversed |
| Stack.PopAll | algorithms/stack.js:35-47 | popping a whole stack yields its items from the top down |
| Stack.UiPush | algorithms/stack.js:99-118 | a truthy value in 1..999 is pushed while fewer than 10 are present; otherwise nothing changes |
| Stack.UiPop | algorithms/stack.js:121-141 | the pop button acts as `pop` on the panel and counts one operation when something was popped |
| Stack.UiPeek | algorithms/stack.js:144-167 | the peek button reports the top, or nothing on an empty stack |
| Stack.UiClear | algorithms/stack.js:170-179 | clearing empties the stack and keeps the counters and the animation flag |
| Stack.PanelStaysWithinCap | algorithms/stack.js:103 | the buttons keep the panel at no more than 10 values, each in 1..999 |
| Stack.DemoEmptiesPanel | algorithms/stack.js:217-264 | the demo pushes 10..50 and then pops until empty, so the pops come out 50, 40, 30, 20, 10 followed by the old contents from the top |
| Queue.Enqueue | algorithms/queue.js:35-38 | enqueue adds at the back and leaves the front unchanged |
| Queue.Dequeue | algorithms/queue.js:39-42 | dequeue on an empty queue gives null and changes nothing; otherwise it returns the oldest item, and the rest are the items behind it |
| Queue.EnqueueBehind | algorithms/queue.js:35-42 | on a non-empty queue, enqueueing then dequeueing equals dequeueing then enqueueing |
| Queue.FifoOrder | algorithms/queue.js:35-47 | values enqueued into an empty queue come out in the same order |
| Queue.DequeueAll | algorithms/queue.js:35-47 | dequeueing a whole queue yields its items from the front |
| Queue.UiEnqueue | algorithms/queue.js:105-124 | a truthy value in 1..999 joins the back while fewer than 10 are present; otherwise nothing changes |
| Queue.UiDequeue | algorithms/queue.js:127-147 | the dequeue button acts as `dequeue` on the panel and counts one operation when something was removed |
| Queue.UiFront | algorithms/queue.js:150-173 | the front button reports the oldest value, or nothing on an empty queue |
| Queue.UiClear | algorithms/queue.js:176-185 | clearing empties the queue and keeps the counters and the animation flag |
| Queue.PanelStaysWithinCap | algorithms/queue.js:109 | the buttons keep the panel at no more than 10 values, each in 1..999 |
| Queue.DemoEmptiesPanel | algorithms/queue.js:233-280 | the demo enqueues 10..50 and then dequeues until empty, so the old contents come out first, then 10..50 |
| LinkedList.FromElements | algorithms/linked-list.js:30-35 | a node chain is rebuilt exactly from its list of elements |
| LinkedList.Insert | algorithms/linked-list.js:43-48 | insert puts a new head node in front of the old chain and adds one to `size` |
| LinkedList.DeleteRemovesFirst | algorithms/linked-list.js:50-71 | delete removes the first node holding the value and reports it; without such a node nothing changes and it reports false |
| LinkedList.OperationsKeepValid | algorithms/linked-list.js:43-71 | insert and delete keep `size` equal to the chain's length |
| LinkedList.Search | algorithms/linked-list.js:73-86 | the walk returns the first index holding the value, or -1 exactly when the value is absent |
| LinkedList.UiInsert | algorithms/linked-list.js:134-154 | a truthy value in 1..999 goes to the front while fewer than 8 nodes are present and is counted as one operation; otherwise nothing changes; comparisons and the animation flag are never touched |
| LinkedList.UiDelete | algorithms/linked-list.js:157-184 | a falsy input is ignored; otherwise the first occurrence is removed and counted, or the panel is unchanged when the value is missing |
| LinkedList.UiSearch | algorithms/linked-list.js:187-210 | a falsy input is ignored; a truthy value is found exactly when it is present, reported with the first position holding it and counted as one comparison; a missing value is reported as not found; the nodes never change |
| LinkedList.UiClear | algorithms/linked-list.js:213-222 | clearing empties the panel and keeps the counters and the animation flag |
| LinkedList.HeadShown | algorithms/linked-list.js:253 | the head shown is NULL exactly when the list is empty, and otherwise the head node's data |
| LinkedList.PanelMatchesList | algorithms/linked-list.js:157-210 | the panel's delete leaves the chain `delete` leaves and succeeds exactly when `delete` does; its search finds exactly when `search` does, at the position `search` returns |
| LinkedList.PanelStaysWithinCap | algorithms/linked-list.js:138 | the buttons keep the panel at no more than 8 values, each in 1..999 |
| LinkedList.UnshiftAllReverses | algorithms/linked-list.js:140 | inserting a sequence one by one at the front leaves it reversed ahead of the old contents |
| LinkedList.DemoHighlightsThirty | algorithms/linked-list.js:281-326 | the demo leaves 40, 30, 20, 10 in front of the old nodes, finds 30 at position 1 and counts four operations |
| UiInput.PrependAccepted | algorithms/linked-list.js:138-140 | a value the guard accepts, added at the front, keeps the list within the cap and range |
| CircularQueue.Size | algorithms/circular-queue.js:167-179 | `getCircularQueueSize` is 0 exactly when empty, 6 exactly when full, and otherwise the distance from front to rear plus one |
| CircularQueue.Empty | algorithms/circular-queue.js:371-379 | the reset ring is well formed and holds nothing |
| CircularQueue.PlaceAppends | algorithms/circular-queue.js:97-103 | placing a value into a ring that is not full appends it to the queue the ring represents |
| CircularQueue.Enqueue | algorithms/circular-queue.js:86-115 | an invalid input is ignored, a full ring reports full and is unchanged, and the ring stays well formed |
| CircularQueue.EnqueueRefines | algorithms/circular-queue.js:86-115 | enqueue succeeds exactly for a valid value with room left, and then acts as the FIFO `enqueue` on the represented queue |
| CircularQueue.Dequeue | algorithms/circular-queue.js:117-141 | dequeue on an empty ring reports empty and changes nothing, and the ring stays well formed |
| CircularQueue.DequeueRefines | algorithms/circular-queue.js:117-141 | dequeue returns and removes what the FIFO `dequeue` would on the represented queue |
| CircularQueue.FrontIsOldest | algorithms/circular-queue.js:143-165 | the front button reports the oldest value of the represented queue |
| CircularQueue.ReplayRefines | algorithms/circular-queue.js:86-141 | any sequence of button presses on the ring matches the same presses on the FIFO queue |
| CircularQueue.OfferIsEnqueue | algorithms/circular-queue.js:86-115 | the demo's guarded enqueue is the button's enqueue for values in 1..999 |
| CircularQueue.OfferKeepsQueue | algorithms/circular-queue.js:299-306 | the guarded enqueue appends when there is room and otherwise leaves the queue alone |
| CircularQueue.PlaceOnFullCollapses | algorithms/circular-queue.js:299-306 | the demo's unguarded enqueue on a full ring leaves a ring of size 1 holding only the new value, which is no longer a valid queue |
| CircularQueue.DemoOverwritesUserValue | algorithms/circular-queue.js:282-369 | one enqueue press during the demo fills the ring, and the demo's next tick then collapses it to its own value |
| CircularQueue.DemoWrapsAround | algorithms/circular-queue.js:282-369 | the demo dequeues 10, 20, 30 and ends on the wrapped-around ring |
| CircularQueue.DemoFinalHolds | algorithms/circular-queue.js:340-347 | that ring is valid, full and holds 40, 50, 60, 70, 80, 90 |
| CircularList.Insert | algorithms/circular-linked-list.js:83-99 | a truthy value in 1..999 joins the end while fewer than 6 are present; otherwise nothing changes |
| CircularList.DeleteLast | algorithms/circular-linked-list.js:101-114 | delete removes and reports the last value; on an empty list it reports nothing and changes nothing |
| CircularList.Search | algorithms/circular-linked-list.js:116-132 | a falsy input is ignored; otherwise the first position holding the value is reported, or the value is not found |
| CircularList.Head | algorithms/circular-linked-list.js:284 | the head shown is NULL exactly when the list is empty, and otherwise the first value |
| CircularList.Reset | algorithms/circular-linked-list.js:410-416 | reset empties the list and clears `isAnimating` |
| CircularList.ButtonsStayWithinCap | algorithms/circular-linked-list.js:83-114 | insert and delete keep the list at no more than 6 values, each in 1..999 |
| CircularList.Tour | algorithms/circular-linked-list.js:146-168 | the ticks from count `c` make `2n - c` visits |
| CircularList.Traverse | algorithms/circular-linked-list.js:134-188 | the traversal does nothing on an empty list or while animating, and never changes the list |
| CircularList.TraversalGoesRoundTwice | algorithms/circular-linked-list.js:146-181 | the traversal makes 2n visits; the k-th is at position k mod n, shows the value there, is in round 1 or 2, and the run ends not animating |
| CircularList.EachNodeTwice | algorithms/circular-linked-list.js:146-168 | position i is visited at steps i and i+n and at no others |
| CircularList.DemoAsWritten | algorithms/circular-linked-list.js:373-408 | while animating the demo does nothing; otherwise it leaves the list 10, 20, 30, 40 with `isAnimating` still set and shows no traversal |
| CircularList.DemoNeverTraverses | algorithms/circular-linked-list.js:141 | because the demo's flag is still set when it calls the traversal, the traversal returns at once; afterwards Traverse and Demo both do nothing |
| CircularList.Demo | algorithms/circular-linked-list.js:373-408 | the demo with the traversal handed the flag does nothing while animating; otherwise it ends on the list 10, 20, 30, 40, not animating, after 8 visits |
| CircularList.DemoTraversesTwice | algorithms/circular-linked-list.js:373-408 | with the traversal started as the demo's last step, it shows 10, 20, 30, 40 twice and clears `isAnimating` |
| Registry.PutLookup | core/algorithm-registry.js:27 | after `set(k, v)`, looking up `k` gives `v` and every other key is unaffected |
| Registry.PutKeys | core/algorithm-registry.js:27 | `set` keeps the key order and appends a new key at the end |
| Registry.Register | core/algorithm-registry.js:19-38 | a module missing `meta` or `init` is refused and the registry is unchanged; any other is accepted |
| Registry.RegisterGet | core/algorithm-registry.js:19-47 | after registering, `get(id)` returns the module and other ids are unaffected |
| Registry.RegisterBucket | core/algorithm-registry.js:19-38 | registering appends the id to its category's list (category `other` when none is given) and leaves other categories alone |
| Registry.RegisterCategories | core/algorithm-registry.js:19-38 | a new category is appended to the category list; a known one keeps its place |
| Registry.ReRegisterDuplicates | core/algorithm-registry.js:19-38 | registering an id twice keeps the last module but lists the id twice in its category |
| Registry.Get | core/algorithm-registry.js:45-47 | `get` returns null exactly for an id that was never stored |
| Registry.GetByCategory | core/algorithm-registry.js:54-60 | the category's ids in registration order, each paired with its module; empty for an unknown category |
| Registry.GetAll | core/algorithm-registry.js:66-72 | one entry per stored id, in first-insertion order |
| Registry.GetCategories | core/algorithm-registry.js:78-80 | the categories in the order they first appeared |
| Registry.RunGet | core/algorithm-registry.js:19-47 | after a run of registrations, `get(id)` is the last accepted module for the id |
| Registry.RunBucket | core/algorithm-registry.js:19-60 | after a run, a category lists every accepted registration into it, duplicates included |
| Registry.RunCategories | core/algorithm-registry.js:78-80 | after a run, the categories are those of the accepted modules, without duplicates, in first-seen order |
| Registry.RunAll | core/algorithm-registry.js:66-72 | after a run, `getAll` lists the accepted ids without duplicates, in first-seen order |
| Registry.RunByCategoryFound | core/algorithm-registry.js:54-60 | every entry `getByCategory` returns after a run has a module |
| Registry.Priority | core/algorithm-registry.js:196-199 | a known card class ranks at its first position in the priority list; any other ranks 999 |
| Registry.CardOrder | core/algorithm-registry.js:196-201 | the cards are a permutation, in non-decreasing rank, with equal ranks in their original order, and this is the only such order |
| Registry.CardTablesKeys | core/algorithm-registry.js:266-320 | the badge, metric-icon and effect tables know exactly the six card classes of the priority list |
| Registry.CardLookupDefaults | core/algorithm-registry.js:266-320 | an unknown card class gets `badge`, `clock` and no effect; a known one gets its own entries |
| Registry.IconDefault | core/algorithm-registry.js:281-290 | an unknown category gets the `cog` icon |
| Registry.InitializeAlgorithm | core/algorithm-registry.js:326-340 | initialization succeeds exactly when the module exists, has `init`, and `init` does not throw |
| Registry.RunInitialize | core/algorithm-registry.js:326-340 | after a run, initialization succeeds exactly when the last accepted module for the id has an `init` that does not throw |
| Session.SpeedFromSlider | script.js:225-236 | the delay and the slider value always sum to 1100; nothing else changes |
| Session.ClearAllTimeouts | script.js:220-223 | every pending timer is cancelled, in order, and the list is left empty |
| Session.CloseModal | script.js:318-331 | with the modal present, timers are cancelled, the animation flag and current visualization are cleared, and speed and counters are kept; without it nothing happens |
| Session.OpenVisualization | script.js:253-316 | without the modal's elements nothing happens; otherwise the counters are reset |
| Session.OpenAgreesWithRegistry | script.js:275-311 | the visualization is shown exactly when the registry's `initializeAlgorithm` would succeed, and the not-found page appears exactly when no module with `init` exists |
| Session.OpenAfterRegistrations | script.js:275-311 | after a run of registrations, the not-found page appears exactly for ids nothing was accepted for |
| Session.TablesKeys | script.js:169-207 | the name and the three complexity tables know the same four ids |
| Session.UnknownIdDefaults | script.js:169-207 | an unknown id is shown under its own name with N/A everywhere; a known id has a name of its own |
| Session.StartComparison | script.js:116-124 | comparing an algorithm with itself is refused; otherwise both full columns (name, time, space, stability) are shown, the first selection on the left |
| Session.ComparisonSymmetric | script.js:116-124 | swapping the two selections swaps the columns |
| Agreement.BubbleAgreesWithMerge | algorithms/bubble-sort.js:29-42 | bubble sort and merge sort compute the same list for every input and key |
| Agreement.QuickAgreesWithMerge | algorithms/quick-sort.js:29-54 | quick sort computes the same array as merge sort on numbers |

## Left out

- DOM rendering is not modelled: element creation, geometry, colours, CSS classes, notifications and the `info` text. `getCardEffects` markup is reduced to the class name it carries.
- The audio system and the theme system are not modelled. They only play sounds and switch styles.
- The interleaving of `setTimeout` callbacks is not modelled. Each animation is a step function run to the end, and pending timers are only a list of handles. A run cut short by Reset or closing the modal is the list that `ClearAllTimeouts` returns.
- Merge sort's `animateSteps` replay (algorithms/merge-sort.js:166-222) is not modelled: it only recolours bars. The model stops at the list of steps it replays.
- `Math.random` is not modelled: the `randomize`, `randomDemo` and random-button handlers, and binary search's random target in `init`, depend on it.
- `performance.now` start and end times are not modelled. The counters that sit beside them are.
- Script loading, `DOMContentLoaded` wiring, keyboard shortcuts and scrolling are not modelled.
- The sorting and search `reset` buttons are not modelled beyond `Session.ClearAllTimeouts`. They clear the timers, reset the flag and re-render the default array.
- The sorting `algorithm` functions are not modelled as sorting the caller's array in place and returning that same object. The model works on values, so this aliasing is not represented. Nothing in the repository calls these functions from outside, so nothing observes it.
- `parseInt` itself is not modelled: its result is an input of type `Option<int>`.
- In the lookup tables, keys inherited from `Object.prototype` (such as `toString`) are not modelled. Such an id would find an inherited value instead of the default.
- The circular queue's use of `isAnimating` is not modelled. Only the demo reads or sets it (lines 283-284 and 358), and the buttons ignore it. The demo is modelled from a fresh ring.
- The circular queue's sparse JS array is not modelled as an array: the model uses six optional slots, which are the only indices the handlers write.
- `highlightNode` and `highlightCircularListNode` timeouts are not modelled: they only restyle nodes.
- Registry.Register: the `console.log` of the module's `meta.name` is left out. The model needs `meta` and `init` only to be present, not to have any particular shape.
- QuickSort.Calls: the timers run the left and right sub-calls interleaved. The model lists the calls in recursion order, which visits the same ranges on the same arrays because the ranges are disjoint.

## Findings

| source | as written | input that shows it | evidently intended | confidence | as-written member | corrected member |
|---|---|---|---|---|---|---|
| algorithms/quick-sort.js:123 | completion (end time, `isAnimating = false`, success sound) is checked only in a leaf call whose range is the whole array | any array of two or more elements, e.g. the default `[64, 34, 25, 12, 22, 11, 90]`: the whole-range call partitions instead, so `isAnimating` stays set and the panel's Start button stays inert until Reset, Random or closing the modal clears it | the run completes once every position has been marked sorted | not executed | QuickSort.CompletionOnlyForShort | QuickSort.CountingAlwaysCompletes |
| algorithms/circular-linked-list.js:373-408 | the demo sets `isAnimating` and then calls `traverseCircularList`, which returns at once because `isAnimating` is set (line 141) | pressing Demo on any panel that is not animating: the list becomes 10, 20, 30, 40, no traversal appears, and Traverse and Demo stay inert until Clear (the reset button), Random or closing the modal clears the flag | the demo hands over to the traversal, which goes round the four values twice | not executed | CircularList.DemoNeverTraverses | CircularList.DemoTraversesTwice |
| algorithms/circular-queue.js:299-306 | the demo's enqueue has no full check, and the enqueue button is not blocked while the demo runs | after five demo ticks (10..50), pressing Enqueue with 5 fills the ring; the sixth tick sets `rear` onto `front`, so the ring reports size 1 holding only 60 | the demo enqueues only when there is room, as the button does | not executed | CircularQueue.DemoOverwritesUserValue | CircularQueue.OfferKeepsQueue |
