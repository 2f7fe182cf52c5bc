/** The stack of algorithms/stack.js: the `StackDS` class returned by
    `algorithm`, and the array-backed panel of the visualizer. */
module Stack {
  import opened Wrappers
  import opened UiInput
  import opened Seqs

  /** `StackDS`: its `items`, bottom first, top last. */
  datatype StackDS<T> = StackDS(items: seq<T>)

  function Size<T>(s: StackDS<T>): nat {
    |s.items|
  }

  predicate IsEmpty<T>(s: StackDS<T>) {
    |s.items| == 0
  }

  /** `peek()`: the top item, or null on an empty stack. */
  function Peek<T>(s: StackDS<T>): (r: Option<T>)
    ensures r.None? <==> IsEmpty(s)
  {
    if IsEmpty(s) then None else Some(s.items[|s.items| - 1])
  }

  /** `push(x)`: `x` becomes the top, one item more. */
  function Push<T>(s: StackDS<T>, x: T): (r: StackDS<T>)
    ensures Size(r) == Size(s) + 1 && Peek(r) == Some(x)
    ensures r.items[..Size(s)] == s.items
  {
    StackDS(s.items + [x])
  }

  /** `pop()`: the stack without its top, and the top; on an empty stack
      null and no change. */
  function Pop<T>(s: StackDS<T>): (r: (StackDS<T>, Option<T>))
    ensures IsEmpty(s) ==> r == (s, None)
    ensures !IsEmpty(s) ==> r.1 == Peek(s) && Size(r.0) == Size(s) - 1
    ensures !IsEmpty(s) ==> r.0.items + [r.1.value] == s.items
  {
    if IsEmpty(s) then (s, None)
    else (StackDS(s.items[..|s.items| - 1]), Some(s.items[|s.items| - 1]))
  }

  /** `push(x)` then `pop()` returns `x` and restores the stack. */
  lemma PushThenPop<T>(s: StackDS<T>, x: T)
    ensures Pop(Push(s, x)) == (s, Some(x))
  {
    assert (s.items + [x])[..|s.items|] == s.items;
  }

  /** `pop()` then pushing the popped value back restores the stack. */
  lemma PopThenPush<T>(s: StackDS<T>)
    requires !IsEmpty(s)
    ensures Push(Pop(s).0, Pop(s).1.value) == s
  {
    assert s.items[..|s.items| - 1] + [s.items[|s.items| - 1]] == s.items;
  }

  /** `xs` pushed in order. */
  function PushAll<T>(s: StackDS<T>, xs: seq<T>): (r: StackDS<T>)
    ensures Size(r) == Size(s) + |xs|
  {
    if xs == [] then s else Push(PushAll(s, xs[..|xs| - 1]), xs[|xs| - 1])
  }

  /** `n` successive `pop()` calls that found an item, and the values
      they returned, in order. */
  function PopN<T>(s: StackDS<T>, n: nat): (r: (StackDS<T>, seq<T>))
    requires n <= Size(s)
    ensures Size(r.0) == Size(s) - n && |r.1| == n
    decreases n
  {
    if n == 0 then (s, [])
    else
      var (t, v) := Pop(s);
      var (u, rest) := PopN(t, n - 1);
      (u, [v.value] + rest)
  }

  /** Popping after a series of pushes yields the pushed values in reverse
      order and leaves the stack as it was before the pushes. */
  lemma {:induction false} PopsReverse<T>(s: StackDS<T>, xs: seq<T>)
    ensures PopN(PushAll(s, xs), |xs|) == (s, Reverse(xs))
  {
    if xs != [] {
      var init, last := xs[..|xs| - 1], xs[|xs| - 1];
      PopsReverse(s, init);
      PushThenPop(PushAll(s, init), last);
    }
  }

  /** Pushing `xs` appends them above the items already there. */
  lemma {:induction false} PushAllItems<T>(s: StackDS<T>, xs: seq<T>)
    ensures PushAll(s, xs).items == s.items + xs
  {
    if xs != [] {
      PushAllItems(s, xs[..|xs| - 1]);
      assert s.items + xs[..|xs| - 1] + [xs[|xs| - 1]] == s.items + xs;
    }
  }

  /** Popping every item yields the items top first and empties the
      stack. */
  lemma PopAll<T>(s: StackDS<T>)
    ensures PopN(s, Size(s)) == (StackDS([]), Reverse(s.items))
  {
    PushAllItems(StackDS([]), s.items);
    assert [] + s.items == s.items;
    PopsReverse(StackDS([]), s.items);
  }

  // ---------------------------------------------------------------------
  // The panel of the visualizer.

  /** The panel: `this.stack` (bottom first), the shared operation counter
      and `isAnimating`. */
  datatype Panel = Panel(stack: seq<int>, operations: nat, animating: bool)

  /** The panel holds fewer than this many items before a push. */
  const Capacity := 10

  /** The panel's `push()` with the parsed input: a valid value on a panel
      with room is pushed and counted; anything else changes nothing. */
  function UiPush(p: Panel, input: Parsed): (r: Panel)
    ensures Accepts(input, |p.stack|, Capacity) ==>
      StackDS(r.stack) == Push(StackDS(p.stack), input.value) && r.operations == p.operations + 1
    ensures !Accepts(input, |p.stack|, Capacity) ==> r == p
    ensures r.animating == p.animating
  {
    if Accepts(input, |p.stack|, Capacity) then
      p.(stack := p.stack + [input.value], operations := p.operations + 1)
    else p
  }

  /** The panel's `pop()`: the popped value for the status line, or `None`
      ("Stack is empty!") with no change. */
  function UiPop(p: Panel): (r: (Panel, Option<int>))
    ensures r.1 == Pop(StackDS(p.stack)).1
    ensures StackDS(r.0.stack) == Pop(StackDS(p.stack)).0
    ensures r.1.None? ==> r.0 == p
    ensures r.1.Some? ==> r.0.operations == p.operations + 1
  {
    if |p.stack| > 0 then
      (p.(stack := p.stack[..|p.stack| - 1], operations := p.operations + 1), Some(p.stack[|p.stack| - 1]))
    else (p, None)
  }

  /** The panel's `peek()`: the top value for the status line, no change. */
  function UiPeek(p: Panel): (r: Option<int>)
    ensures r == Peek(StackDS(p.stack))
  {
    if |p.stack| > 0 then Some(p.stack[|p.stack| - 1]) else None
  }

  /** The panel's `clear()`. */
  function UiClear(p: Panel): (r: Panel)
    ensures IsEmpty(StackDS(r.stack)) && r.operations == p.operations && r.animating == p.animating
  {
    p.(stack := [])
  }

  /** Every panel operation keeps the list within the cap with values in
      `1..999`. */
  lemma PanelStaysWithinCap(p: Panel, input: Parsed)
    requires WithinCap(p.stack, Capacity)
    ensures WithinCap(UiPush(p, input).stack, Capacity)
    ensures WithinCap(UiPop(p).0.stack, Capacity)
    ensures WithinCap(UiClear(p).stack, Capacity)
  {
    if Accepts(input, |p.stack|, Capacity) {
      AppendAccepted(p.stack, input, Capacity);
    }
  }

  /** The values `demo()` pushes. */
  const DemoValues: seq<int> := [10, 20, 30, 40, 50]

  /** `demo()` run to the end: nothing while another run is animating;
      otherwise the counter restarts, the demo values are pushed (with no
      cap check) and the panel is popped until empty, each push and pop
      counted. Returns the panel and the values popped, in order. */
  function Demo(p: Panel): (r: (Panel, seq<int>))
  {
    if p.animating then (p, [])
    else
      var full := PushAll(StackDS(p.stack), DemoValues);
      var (emptied, popped) := PopN(full, Size(full));
      (Panel(emptied.items, |DemoValues| + Size(full), false), popped)
  }

  /** The demo pops its own values top first, then whatever the panel held
      before, and ends empty with `isAnimating` cleared, having counted
      every push and pop. */
  lemma DemoEmptiesPanel(p: Panel)
    requires !p.animating
    ensures Demo(p).1 == [50, 40, 30, 20, 10] + Reverse(p.stack)
    ensures Demo(p).0 == Panel([], |p.stack| + 10, false)
  {
    var full := PushAll(StackDS(p.stack), DemoValues);
    PushAllItems(StackDS(p.stack), DemoValues);
    PopAll(full);
    ReverseConcat(p.stack, DemoValues);
    assert Reverse(DemoValues) == [50, 40, 30, 20, 10];
  }

  /** A demo started while another run is animating does nothing. */
  lemma DemoWhileAnimating(p: Panel)
    requires p.animating
    ensures Demo(p) == (p, [])
  {
  }
}
