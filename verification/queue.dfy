/** The queue of algorithms/queue.js: the `QueueDS` class returned by
    `algorithm`, and the array-backed panel of the visualizer. */
module Queue {
  import opened Wrappers
  import opened UiInput

  /** `QueueDS`: its `items`, oldest first. */
  datatype QueueDS<T> = QueueDS(items: seq<T>)

  function Size<T>(q: QueueDS<T>): nat {
    |q.items|
  }

  predicate IsEmpty<T>(q: QueueDS<T>) {
    |q.items| == 0
  }

  /** `front()`: the oldest item, or null on an empty queue. */
  function Front<T>(q: QueueDS<T>): (r: Option<T>)
    ensures r.None? <==> IsEmpty(q)
  {
    if IsEmpty(q) then None else Some(q.items[0])
  }

  /** `enqueue(x)`: `x` joins at the rear, one item more. */
  function Enqueue<T>(q: QueueDS<T>, x: T): (r: QueueDS<T>)
    ensures Size(r) == Size(q) + 1 && r.items[Size(q)] == x
    ensures !IsEmpty(q) ==> Front(r) == Front(q)
  {
    QueueDS(q.items + [x])
  }

  /** `dequeue()`: the queue without its oldest item, and that item; on an
      empty queue null and no change. */
  function Dequeue<T>(q: QueueDS<T>): (r: (QueueDS<T>, Option<T>))
    ensures IsEmpty(q) ==> r == (q, None)
    ensures !IsEmpty(q) ==> r.1 == Front(q) && Size(r.0) == Size(q) - 1
    ensures !IsEmpty(q) ==> [r.1.value] + r.0.items == q.items
  {
    if IsEmpty(q) then (q, None) else (QueueDS(q.items[1..]), Some(q.items[0]))
  }

  /** Enqueueing commutes with dequeueing from a non-empty queue: the new
      item waits behind the others. */
  lemma EnqueueBehind<T>(q: QueueDS<T>, x: T)
    requires !IsEmpty(q)
    ensures Dequeue(Enqueue(q, x)) == (Enqueue(Dequeue(q).0, x), Dequeue(q).1)
  {
    assert (q.items + [x])[1..] == q.items[1..] + [x];
  }

  /** Into an empty queue, `enqueue(x)` then `dequeue()` returns `x` and
      empties it again. */
  lemma EnqueueThenDequeueEmpty<T>(q: QueueDS<T>, x: T)
    requires IsEmpty(q)
    ensures Dequeue(Enqueue(q, x)) == (q, Some(x))
  {
    assert q.items == [];
  }

  /** `xs` enqueued in order. */
  function EnqueueAll<T>(q: QueueDS<T>, xs: seq<T>): (r: QueueDS<T>)
    ensures Size(r) == Size(q) + |xs|
  {
    if xs == [] then q else Enqueue(EnqueueAll(q, xs[..|xs| - 1]), xs[|xs| - 1])
  }

  /** `n` successive `dequeue()` calls that found an item, and the values
      they returned, in order. */
  function DequeueN<T>(q: QueueDS<T>, n: nat): (r: (QueueDS<T>, seq<T>))
    requires n <= Size(q)
    ensures Size(r.0) == Size(q) - n && |r.1| == n
    decreases n
  {
    if n == 0 then (q, [])
    else
      var (t, v) := Dequeue(q);
      var (u, rest) := DequeueN(t, n - 1);
      (u, [v.value] + rest)
  }

  /** Enqueueing `xs` puts them behind the items already there. */
  lemma {:induction false} EnqueueAllItems<T>(q: QueueDS<T>, xs: seq<T>)
    ensures EnqueueAll(q, xs).items == q.items + xs
  {
    if xs != [] {
      EnqueueAllItems(q, xs[..|xs| - 1]);
      assert q.items + xs[..|xs| - 1] + [xs[|xs| - 1]] == q.items + xs;
    }
  }

  /** `n` dequeues return the `n` oldest items, oldest first, and leave the
      rest in order. */
  lemma {:induction false} DequeueNOldest<T>(q: QueueDS<T>, n: nat)
    requires n <= Size(q)
    ensures DequeueN(q, n) == (QueueDS(q.items[n..]), q.items[..n])
    decreases n
  {
    if n > 0 {
      var t := Dequeue(q).0;
      DequeueNOldest(t, n - 1);
      assert t.items[n - 1..] == q.items[n..];
      assert [q.items[0]] + t.items[..n - 1] == q.items[..n];
    }
  }

  /** Dequeueing every item returns all of them, oldest first, and
      empties the queue. */
  lemma DequeueAll<T>(q: QueueDS<T>)
    ensures DequeueN(q, Size(q)) == (QueueDS([]), q.items)
  {
    DequeueNOldest(q, Size(q));
    assert q.items[..Size(q)] == q.items;
  }

  /** Successive dequeues yield the elements in enqueue order. */
  lemma FifoOrder<T>(xs: seq<T>)
    ensures DequeueN(EnqueueAll(QueueDS([]), xs), |xs|) == (QueueDS([]), xs)
  {
    EnqueueAllItems(QueueDS([]), xs);
    assert [] + xs == xs;
    DequeueAll(EnqueueAll(QueueDS([]), xs));
  }

  // ---------------------------------------------------------------------
  // The panel of the visualizer.

  /** The panel: `this.queue` (oldest first), the shared operation counter
      and `isAnimating`. */
  datatype Panel = Panel(queue: seq<int>, operations: nat, animating: bool)

  /** The panel holds fewer than this many items before an enqueue. */
  const Capacity := 10

  /** The panel's `enqueue()` with the parsed input: a valid value on a
      panel with room joins the rear and is counted; anything else changes
      nothing. */
  function UiEnqueue(p: Panel, input: Parsed): (r: Panel)
    ensures Accepts(input, |p.queue|, Capacity) ==>
      QueueDS(r.queue) == Enqueue(QueueDS(p.queue), input.value) && r.operations == p.operations + 1
    ensures !Accepts(input, |p.queue|, Capacity) ==> r == p
    ensures r.animating == p.animating
  {
    if Accepts(input, |p.queue|, Capacity) then
      p.(queue := p.queue + [input.value], operations := p.operations + 1)
    else p
  }

  /** The panel's `dequeue()`: the dequeued value for the status line, or
      `None` ("Queue is empty!") with no change. */
  function UiDequeue(p: Panel): (r: (Panel, Option<int>))
    ensures r.1 == Dequeue(QueueDS(p.queue)).1
    ensures QueueDS(r.0.queue) == Dequeue(QueueDS(p.queue)).0
    ensures r.1.None? ==> r.0 == p
    ensures r.1.Some? ==> r.0.operations == p.operations + 1
  {
    if |p.queue| > 0 then
      (p.(queue := p.queue[1..], operations := p.operations + 1), Some(p.queue[0]))
    else (p, None)
  }

  /** The panel's `front()`: the oldest value for the status line, no
      change. */
  function UiFront(p: Panel): (r: Option<int>)
    ensures r == Front(QueueDS(p.queue))
  {
    if |p.queue| > 0 then Some(p.queue[0]) else None
  }

  /** The panel's `clear()`. */
  function UiClear(p: Panel): (r: Panel)
    ensures IsEmpty(QueueDS(r.queue)) && r.operations == p.operations && r.animating == p.animating
  {
    p.(queue := [])
  }

  /** Every panel operation keeps the list within the cap with values in
      `1..999`. */
  lemma PanelStaysWithinCap(p: Panel, input: Parsed)
    requires WithinCap(p.queue, Capacity)
    ensures WithinCap(UiEnqueue(p, input).queue, Capacity)
    ensures WithinCap(UiDequeue(p).0.queue, Capacity)
    ensures WithinCap(UiClear(p).queue, Capacity)
  {
    if Accepts(input, |p.queue|, Capacity) {
      AppendAccepted(p.queue, input, Capacity);
    }
    if |p.queue| > 0 {
      assert forall k :: 0 <= k < |p.queue| - 1 ==> p.queue[1..][k] == p.queue[k + 1];
    }
  }

  /** The values `demo()` enqueues. */
  const DemoValues: seq<int> := [10, 20, 30, 40, 50]

  /** `demo()` run to the end: nothing while another run is animating;
      otherwise the counter restarts, the demo values are enqueued (with no
      cap check) and the panel is dequeued until empty, each step counted.
      Returns the panel and the values dequeued, in order. */
  function Demo(p: Panel): (r: (Panel, seq<int>))
  {
    if p.animating then (p, [])
    else
      var full := EnqueueAll(QueueDS(p.queue), DemoValues);
      var (emptied, taken) := DequeueN(full, Size(full));
      (Panel(emptied.items, |DemoValues| + Size(full), false), taken)
  }

  /** The demo dequeues whatever the panel held first, then its own values
      in order, and ends empty with `isAnimating` cleared, having counted
      every step. */
  lemma DemoEmptiesPanel(p: Panel)
    requires !p.animating
    ensures Demo(p).1 == p.queue + [10, 20, 30, 40, 50]
    ensures Demo(p).0 == Panel([], |p.queue| + 10, false)
  {
    var full := EnqueueAll(QueueDS(p.queue), DemoValues);
    EnqueueAllItems(QueueDS(p.queue), DemoValues);
    DequeueAll(full);
  }

  /** A demo started while another run is animating does nothing. */
  lemma DemoWhileAnimating(p: Panel)
    requires p.animating
    ensures Demo(p) == (p, [])
  {
  }
}
