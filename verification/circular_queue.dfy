/** The ring-buffer queue of algorithms/circular-queue.js: six slots, a
    `front` and a `rear` index with -1 meaning empty, and the panel's
    enqueue, dequeue and front buttons. */
module CircularQueue {
  import opened Wrappers
  import opened UiInput
  import Queue

  /** `maxSize`. */
  const MaxSize := 6

  /** The panel's state: `circularQueue` (an unset slot is `None`), `front`
      and `rear`. */
  datatype Ring = Ring(slots: seq<Option<int>>, front: int, rear: int)

  /** The slot `k` places after slot `f`, going round. */
  function Pos(f: int, k: int): (i: int)
    ensures 0 <= i < MaxSize
  {
    (f + k) % MaxSize
  }

  /** How many places after slot `f` slot `i` lies, going round. */
  function Dist(f: int, i: int): (d: int)
    ensures 0 <= d < MaxSize
  {
    (i - f) % MaxSize
  }

  /** Going `k` places round and measuring the distance back agree. */
  lemma PosDist(f: int, k: int)
    requires 0 <= f < MaxSize && 0 <= k < MaxSize
    ensures Dist(f, Pos(f, k)) == k
  {
  }

  /** Measured from the next slot round, every other slot is one place
      nearer, and the slot left behind is the farthest. */
  lemma DistStep(f: int, i: int)
    requires 0 <= f < MaxSize && 0 <= i < MaxSize
    ensures i != f ==> Dist(f, i) == Dist(Pos(f, 1), i) + 1
    ensures Dist(Pos(f, 1), f) == MaxSize - 1
  {
  }

  /** Going `k + 1` places round is going one place, then `k`. */
  lemma PosStep(f: int, k: int)
    requires 0 <= f < MaxSize && 0 <= k
    ensures Pos(Pos(f, 1), k) == Pos(f, k + 1)
  {
  }

  /** `isCircularQueueEmpty()`. */
  predicate IsEmpty(q: Ring) {
    q.front == -1
  }

  /** `isCircularQueueFull()`. */
  predicate IsFull(q: Ring) {
    !IsEmpty(q) && (q.rear + 1) % MaxSize == q.front
  }

  /** The indices as every operation leaves them: six slots, `front` and
      `rear` both -1 or both slot numbers. */
  predicate WellFormed(q: Ring) {
    |q.slots| == MaxSize
    && (q.front == -1 <==> q.rear == -1)
    && (q.front != -1 ==> 0 <= q.front < MaxSize && 0 <= q.rear < MaxSize)
  }

  /** `getCircularQueueSize()`: the number of slots from `front` round to
      `rear`, between 0 and `maxSize`, and `maxSize` exactly when full. */
  function Size(q: Ring): (n: int)
    ensures WellFormed(q) ==> 0 <= n <= MaxSize
    ensures WellFormed(q) ==> (n == 0 <==> IsEmpty(q))
    ensures WellFormed(q) ==> (n == MaxSize <==> IsFull(q))
    ensures WellFormed(q) && !IsEmpty(q) ==> n == Dist(q.front, q.rear) + 1
  {
    if IsEmpty(q) then 0
    else if q.rear >= q.front then q.rear - q.front + 1
    else MaxSize - q.front + q.rear + 1
  }

  /** Slot `i` lies between `front` and `rear`, going round. */
  predicate Holds(q: Ring, i: int) {
    !IsEmpty(q) && Dist(q.front, i) < Size(q)
  }

  /** A well-formed ring whose occupied slots are exactly those between
      `front` and `rear`. */
  ghost predicate Valid(q: Ring) {
    WellFormed(q)
    && forall i :: 0 <= i < MaxSize ==> (q.slots[i].Some? <==> Holds(q, i))
  }

  /** The queue a valid ring holds, oldest first. */
  function Contents(q: Ring): (s: seq<int>)
    requires Valid(q)
    ensures |s| == Size(q)
  {
    seq(Size(q), k requires 0 <= k < Size(q) =>
      PosDist(q.front, k);
      q.slots[Pos(q.front, k)].value)
  }

  /** The ring the panel starts with, and the one Clear leaves. */
  function Empty(): (q: Ring)
    ensures Valid(q) && Contents(q) == []
  {
    Ring(seq(MaxSize, _ => None), -1, -1)
  }

  /** The placement both enqueue paths share: into an empty ring at slot
      0, otherwise one slot past `rear`, going round. It does not look at
      whether the ring is full. */
  function Place(q: Ring, v: int): (r: Ring)
    requires WellFormed(q)
    ensures WellFormed(r) && !IsEmpty(r)
  {
    if IsEmpty(q) then Ring(q.slots[0 := Some(v)], 0, 0)
    else
      var rear := (q.rear + 1) % MaxSize;
      Ring(q.slots[rear := Some(v)], q.front, rear)
  }

  /** Placing into an empty ring gives the ring holding `v` alone. */
  lemma PlaceFirst(q: Ring, v: int)
    requires Valid(q) && IsEmpty(q)
    ensures Valid(Place(q, v)) && Contents(Place(q, v)) == [v]
  {
    var r := Place(q, v);
    assert Size(r) == 1;
    forall i | 0 <= i < MaxSize
      ensures r.slots[i].Some? <==> Holds(r, i)
    {
    }
  }

  /** Placing into a non-empty ring with room occupies the slot one past
      its last one, so the ring stays valid. */
  lemma PlaceBehindValid(q: Ring, v: int)
    requires Valid(q) && !IsEmpty(q) && !IsFull(q)
    ensures Valid(Place(q, v)) && Size(Place(q, v)) == Size(q) + 1
    ensures Place(q, v).rear == Pos(q.front, Size(q))
  {
    var r := Place(q, v);
    assert Size(r) == Size(q) + 1;
    assert Dist(q.front, r.rear) == Size(q);
    forall i | 0 <= i < MaxSize
      ensures r.slots[i].Some? <==> Holds(r, i)
    {
    }
  }

  /** On a ring with room, placing `v` keeps the ring valid and puts `v`
      behind everything it held. */
  lemma PlaceAppends(q: Ring, v: int)
    requires Valid(q) && !IsFull(q)
    ensures Valid(Place(q, v)) && Contents(Place(q, v)) == Contents(q) + [v]
  {
    if IsEmpty(q) {
      PlaceFirst(q, v);
    } else {
      var r := Place(q, v);
      PlaceBehindValid(q, v);
      forall k | 0 <= k < Size(q)
        ensures Contents(r)[k] == Contents(q)[k]
      {
        PosDist(q.front, k);
        PosDist(q.front, Size(q));
      }
    }
  }

  /** What the enqueue button reports: nothing for an input outside
      `1..999`, "Queue is full!", or the slot the value went to. */
  datatype EnqueueStatus = Ignored | Full | Enqueued(position: int)

  /** `enqueueToCircularQueue()` with the parsed input: a value in
      `1..999` is placed unless the ring is full; a full ring or an
      invalid input changes nothing. */
  function Enqueue(q: Ring, input: Parsed): (r: (Ring, EnqueueStatus))
    requires WellFormed(q)
    ensures !ValidValue(input) ==> r == (q, Ignored)
    ensures ValidValue(input) && IsFull(q) ==> r == (q, Full)
    ensures WellFormed(r.0)
    ensures r.1.Enqueued? ==>
      !IsEmpty(r.0) && r.1.position == r.0.rear && r.0.slots[r.0.rear] == Some(input.value)
  {
    if !ValidValue(input) then (q, Ignored)
    else if IsFull(q) then (q, Full)
    else
      var n := Place(q, input.value);
      (n, Enqueued(n.rear))
  }

  /** `dequeueFromCircularQueue()`: `None` ("Cannot dequeue from empty
      circular queue!") with no change, or the value at `front`, whose
      slot is cleared; the last value empties the ring, otherwise `front`
      moves one slot round. */
  function Dequeue(q: Ring): (r: (Ring, Option<int>))
    requires WellFormed(q)
    ensures WellFormed(r.0)
    ensures IsEmpty(q) ==> r == (q, None)
  {
    if IsEmpty(q) then (q, None)
    else
      var slots := q.slots[q.front := None];
      if q.front == q.rear then (Ring(slots, -1, -1), q.slots[q.front])
      else (Ring(slots, (q.front + 1) % MaxSize, q.rear), q.slots[q.front])
  }

  /** `frontCircularQueue()`: `None` ("Cannot peek empty circular queue!")
      or the value at `front`; the ring is not changed. */
  function Front(q: Ring): (r: Option<int>)
    requires WellFormed(q)
    ensures IsEmpty(q) ==> r.None?
  {
    if IsEmpty(q) then None else q.slots[q.front]
  }

  /** A valid ring behaves as the list queue it holds on enqueue: an
      accepted value joins the rear; nothing else changes anything. */
  lemma EnqueueRefines(q: Ring, input: Parsed)
    requires Valid(q)
    ensures Valid(Enqueue(q, input).0)
    ensures Enqueue(q, input).1.Enqueued? <==> ValidValue(input) && Size(q) < MaxSize
    ensures Enqueue(q, input).1.Enqueued? ==>
      Queue.QueueDS(Contents(Enqueue(q, input).0)) == Queue.Enqueue(Queue.QueueDS(Contents(q)), input.value)
  {
    if ValidValue(input) && !IsFull(q) {
      PlaceAppends(q, input.value);
    }
  }

  /** Dequeueing the only value of a valid ring leaves the empty ring. */
  lemma DequeueLast(q: Ring)
    requires Valid(q) && !IsEmpty(q) && q.front == q.rear
    ensures Valid(Dequeue(q).0) && Contents(Dequeue(q).0) == []
    ensures Dequeue(q).1 == Some(Contents(q)[0])
  {
    var r := Dequeue(q).0;
    PosDist(q.front, 0);
    assert Size(q) == 1;
    forall i | 0 <= i < MaxSize
      ensures r.slots[i].Some? <==> Holds(r, i)
    {
    }
  }

  /** Dequeueing from a valid ring holding two or more values keeps it
      valid, moves `front` one slot round and shifts the queue by one. */
  lemma DequeueAdvance(q: Ring)
    requires Valid(q) && !IsEmpty(q) && q.front != q.rear
    ensures Valid(Dequeue(q).0) && Contents(Dequeue(q).0) == Contents(q)[1..]
    ensures Dequeue(q).1 == Some(Contents(q)[0])
  {
    var r := Dequeue(q).0;
    PosDist(q.front, 0);
    assert r.front == Pos(q.front, 1);
    assert Size(r) == Size(q) - 1;
    forall i | 0 <= i < MaxSize
      ensures r.slots[i].Some? <==> Holds(r, i)
    {
      DistStep(q.front, i);
    }
    forall k | 0 <= k < Size(r)
      ensures Contents(r)[k] == Contents(q)[k + 1]
    {
      PosStep(q.front, k);
    }
  }

  /** A valid ring behaves as the list queue it holds on dequeue: the
      oldest value comes out and the rest keep their order; an empty ring
      reports nothing. */
  lemma DequeueRefines(q: Ring)
    requires Valid(q)
    ensures Valid(Dequeue(q).0)
    ensures Dequeue(q).1 == Queue.Dequeue(Queue.QueueDS(Contents(q))).1
    ensures Queue.QueueDS(Contents(Dequeue(q).0)) == Queue.Dequeue(Queue.QueueDS(Contents(q))).0
  {
    if !IsEmpty(q) {
      if q.front == q.rear {
        DequeueLast(q);
      } else {
        DequeueAdvance(q);
      }
    }
  }

  /** The front button shows the oldest value of the queue a valid ring
      holds, or nothing when it is empty. */
  lemma FrontIsOldest(q: Ring)
    requires Valid(q)
    ensures Front(q) == Queue.Front(Queue.QueueDS(Contents(q)))
  {
    if !IsEmpty(q) {
      PosDist(q.front, 0);
    }
  }

  // ---------------------------------------------------------------------
  // Scripts of button presses.

  /** A press of the enqueue button with its parsed input, or of the
      dequeue button. */
  datatype Op = EnqueueOp(input: Parsed) | DequeueOp

  /** The ring after `ops`, and the values the dequeues returned. */
  function Replay(q: Ring, ops: seq<Op>): (r: (Ring, seq<int>))
    requires WellFormed(q)
    ensures WellFormed(r.0)
    decreases |ops|
  {
    if ops == [] then (q, [])
    else
      match ops[0]
      case EnqueueOp(input) => Replay(Enqueue(q, input).0, ops[1..])
      case DequeueOp =>
        var step := Dequeue(q);
        var rest := Replay(step.0, ops[1..]);
        (rest.0, (if step.1.Some? then [step.1.value] else []) + rest.1)
  }

  /** The same presses on a plain list queue of at most `maxSize` values:
      the reference the ring is measured against. */
  function ListReplay(items: seq<int>, ops: seq<Op>): (r: (seq<int>, seq<int>))
    decreases |ops|
  {
    if ops == [] then (items, [])
    else
      match ops[0]
      case EnqueueOp(input) =>
        if Accepts(input, |items|, MaxSize) then ListReplay(items + [input.value], ops[1..])
        else ListReplay(items, ops[1..])
      case DequeueOp =>
        if items == [] then ListReplay(items, ops[1..])
        else
          var rest := ListReplay(items[1..], ops[1..]);
          (rest.0, [items[0]] + rest.1)
  }

  /** Whatever the presses, including those that take `rear` or `front`
      past the last slot and back to 0, a valid ring stays valid, holds
      what the list queue holds and returns the same values in the same
      order: first in, first out. */
  lemma {:induction false} ReplayRefines(q: Ring, ops: seq<Op>)
    requires Valid(q)
    ensures Valid(Replay(q, ops).0)
    ensures Contents(Replay(q, ops).0) == ListReplay(Contents(q), ops).0
    ensures Replay(q, ops).1 == ListReplay(Contents(q), ops).1
    decreases |ops|
  {
    if ops != [] {
      match ops[0]
      case EnqueueOp(input) =>
        EnqueueRefines(q, input);
        ReplayRefines(Enqueue(q, input).0, ops[1..]);
      case DequeueOp =>
        DequeueRefines(q);
        ReplayRefines(Dequeue(q).0, ops[1..]);
    }
  }

  // ---------------------------------------------------------------------
  // The demo.

  /** The demo's placement with the full check `enqueueToCircularQueue`
      makes: on a full ring nothing changes. */
  function Offer(q: Ring, v: int): (r: Ring)
    requires WellFormed(q)
    ensures WellFormed(r)
  {
    if IsFull(q) then q else Place(q, v)
  }

  /** A checked placement of a value in `1..999` is what the enqueue
      button does with it. */
  lemma OfferIsEnqueue(q: Ring, v: int)
    requires WellFormed(q) && 1 <= v <= MaxValue
    ensures Offer(q, v) == Enqueue(q, Some(v)).0
  {
  }

  /** With the check, a demo placement keeps a valid ring valid: `v`
      joins the rear when there is room, and a full ring keeps every
      value. */
  lemma OfferKeepsQueue(q: Ring, v: int)
    requires Valid(q)
    ensures Valid(Offer(q, v))
    ensures Size(q) < MaxSize ==> Contents(Offer(q, v)) == Contents(q) + [v]
    ensures Size(q) == MaxSize ==> Contents(Offer(q, v)) == Contents(q)
  {
    if !IsFull(q) {
      PlaceAppends(q, v);
    }
  }

  /** Without the check, as the demo's ticks place values, a placement
      into a full ring lands on `front`: the ring then reports one value,
      the new one, and the other five slots still hold values outside the
      ring. */
  lemma PlaceOnFullCollapses(q: Ring, v: int)
    requires Valid(q) && IsFull(q)
    ensures Size(Place(q, v)) == 1 && Front(Place(q, v)) == Some(v)
    ensures !Valid(Place(q, v))
  {
    var r := Place(q, v);
    assert r.front == r.rear == q.front;
    var other := Pos(q.front, 1);
    PosDist(q.front, 1);
    assert q.slots[other].Some?;
    assert r.slots[other] == q.slots[other];
    DistStep(q.front, other);
  }

  /** The values placed in order, each with `place` semantics of the demo
      as written. */
  function PlaceAll(q: Ring, vs: seq<int>): (r: Ring)
    requires WellFormed(q)
    ensures WellFormed(r)
  {
    if vs == [] then q else Place(PlaceAll(q, vs[..|vs| - 1]), vs[|vs| - 1])
  }

  /** The demo's first five ticks, a press of the enqueue button with 5 in
      between (the button does not wait for the demo), then the demo's
      sixth tick: the five values the ring held are lost and it reports
      60 alone. */
  lemma DemoOverwritesUserValue()
    ensures var q := PlaceAll(Empty(), [10, 20, 30, 40, 50]);
            var u := Enqueue(q, Some(5));
            u.1 == Enqueued(5) && IsFull(u.0)
            && Size(Place(u.0, 60)) == 1 && Front(Place(u.0, 60)) == Some(60)
  {
    var q1 := PlaceAll(Empty(), [10]);
    assert [10][..0] == [];
    assert q1.front == 0 && q1.rear == 0;
    var q2 := PlaceAll(Empty(), [10, 20]);
    assert [10, 20][..1] == [10];
    assert q2.front == 0 && q2.rear == 1;
    var q3 := PlaceAll(Empty(), [10, 20, 30]);
    assert [10, 20, 30][..2] == [10, 20];
    assert q3.front == 0 && q3.rear == 2;
    var q4 := PlaceAll(Empty(), [10, 20, 30, 40]);
    assert [10, 20, 30, 40][..3] == [10, 20, 30];
    assert q4.front == 0 && q4.rear == 3;
    var q5 := PlaceAll(Empty(), [10, 20, 30, 40, 50]);
    assert [10, 20, 30, 40, 50][..4] == [10, 20, 30, 40];
    assert q5.front == 0 && q5.rear == 4;
  }

  /** The values the demo enqueues first, then the three it enqueues after
      each dequeue. */
  const DemoValues: seq<int> := [10, 20, 30, 40, 50, 60]
  const RefillValues: seq<int> := [70, 80, 90]

  /** The values placed in order, each with the full check. */
  function OfferAll(q: Ring, vs: seq<int>): (r: Ring)
    requires WellFormed(q)
    ensures WellFormed(r)
  {
    if vs == [] then q else Offer(OfferAll(q, vs[..|vs| - 1]), vs[|vs| - 1])
  }

  /** The demo with checked placements, run to the end without other
      presses: the ring is cleared, filled, and then three times a value
      is dequeued and a new one enqueued. Returns the final ring and what
      the three dequeues read at `front`. */
  function Demo(): (r: (Ring, seq<Option<int>>))
    ensures WellFormed(r.0) && |r.1| == 3
  {
    var full := OfferAll(Empty(), DemoValues);
    var a := Dequeue(full);
    var b := Dequeue(Offer(a.0, RefillValues[0]));
    var c := Dequeue(Offer(b.0, RefillValues[1]));
    (Offer(c.0, RefillValues[2]), [a.1, b.1, c.1])
  }

  /** The demo takes out 10, 20 and 30 and ends with `rear` wrapped round
      to slot 2 behind `front` at slot 3; by `DemoFinalHolds` the ring is
      then full again and holds 40 to 90 oldest first. */
  lemma DemoWrapsAround()
    ensures Demo().1 == [Some(10), Some(20), Some(30)]
    ensures Demo().0 == DemoFinal
  {
    DemoFills();
  }

  /** The demo's six checked placements fill slots 0 to 5 in order. */
  lemma DemoFills()
    ensures OfferAll(Empty(), DemoValues) == Ring([Some(10), Some(20), Some(30), Some(40), Some(50), Some(60)], 0, 5)
  {
    var q1 := OfferAll(Empty(), [10]);
    assert [10][..0] == [];
    assert q1.front == 0 && q1.rear == 0;
    var q2 := OfferAll(Empty(), [10, 20]);
    assert [10, 20][..1] == [10];
    assert q2.front == 0 && q2.rear == 1;
    var q3 := OfferAll(Empty(), [10, 20, 30]);
    assert [10, 20, 30][..2] == [10, 20];
    assert q3.front == 0 && q3.rear == 2;
    var q4 := OfferAll(Empty(), [10, 20, 30, 40]);
    assert [10, 20, 30, 40][..3] == [10, 20, 30];
    assert q4.front == 0 && q4.rear == 3;
    var q5 := OfferAll(Empty(), [10, 20, 30, 40, 50]);
    assert [10, 20, 30, 40, 50][..4] == [10, 20, 30, 40];
    assert q5.front == 0 && q5.rear == 4;
    assert DemoValues[..5] == [10, 20, 30, 40, 50];
  }

  /** The ring the demo ends with. */
  const DemoFinal := Ring([Some(70), Some(80), Some(90), Some(40), Some(50), Some(60)], 3, 2)

  /** That ring is valid and full, and holds 40 to 90 oldest first. */
  lemma DemoFinalHolds()
    ensures Valid(DemoFinal) && IsFull(DemoFinal)
    ensures Contents(DemoFinal) == [40, 50, 60, 70, 80, 90]
  {
    var r := DemoFinal;
    assert Size(r) == MaxSize;
    forall i | 0 <= i < MaxSize
      ensures r.slots[i].Some? && Holds(r, i)
    {
    }
    var c := Contents(r);
    assert c[0] == 40 && c[1] == 50 && c[2] == 60;
    assert c[3] == 70 && c[4] == 80 && c[5] == 90;
  }
}
