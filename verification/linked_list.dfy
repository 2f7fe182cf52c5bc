/** The singly linked list of algorithms/linked-list.js: the `ListNode` /
    `LinkedListDS` classes returned by `algorithm`, and the array-backed
    panel of the visualizer. */
module LinkedList {
  import opened Wrappers
  import opened UiInput
  import opened Seqs

  /** The nodes reachable from a `head`: `null`, or a `ListNode` with its
      `data` and `next`. */
  datatype Chain<T> = Null | Node(data: T, next: Chain<T>)

  /** `LinkedListDS`: `head` and the separately kept `size` counter. */
  datatype LinkedListDS<T> = LinkedListDS(head: Chain<T>, size: int)

  /** The data of the nodes from `c` to the end, in list order. */
  function Elements<T>(c: Chain<T>): seq<T> {
    match c
    case Null => []
    case Node(d, next) => [d] + Elements(next)
  }

  /** The chain holding `s`, head first; `Elements` reads it back. */
  function FromSeq<T>(s: seq<T>): (c: Chain<T>)
    ensures Elements(c) == s
  {
    if s == [] then Null else Node(s[0], FromSeq(s[1..]))
  }

  /** Every chain is the one built from its own elements. */
  lemma {:induction false} FromElements<T>(c: Chain<T>)
    ensures FromSeq(Elements(c)) == c
  {
    if c.Node? {
      FromElements(c.next);
      assert Elements(c)[1..] == Elements(c.next);
    }
  }

  /** `size` equals the number of nodes reachable from `head`. */
  ghost predicate Valid<T>(l: LinkedListDS<T>) {
    l.size == |Elements(l.head)|
  }

  /** `new LinkedListDS()`. */
  function Empty<T>(): (l: LinkedListDS<T>)
    ensures Valid(l) && Elements(l.head) == []
  {
    LinkedListDS(Null, 0)
  }

  /** `insert(x)`: a new head node whose `next` is the old head. */
  function Insert<T>(l: LinkedListDS<T>, x: T): (r: LinkedListDS<T>)
    ensures r.head.Node? && r.head.data == x && r.head.next == l.head
    ensures r.size == l.size + 1
  {
    LinkedListDS(Node(x, l.head), l.size + 1)
  }

  /** The walk `while (current.next && current.next.data !== x)` from
      `current`, then the unlink `current.next = current.next.next` when
      it stopped at a match. Returns the rebuilt chain from `current` and
      whether a node was unlinked. */
  function Unlink<T(==)>(current: Chain<T>, x: T): (r: (Chain<T>, bool))
    requires current.Node?
    decreases current
  {
    match current.next
    case Null => (current, false)
    case Node(d, rest) =>
      if d == x then (Node(current.data, rest), true)
      else
        var (tail, found) := Unlink(current.next, x);
        (Node(current.data, tail), found)
  }

  /** `delete(x)`: false on an empty list; the head itself when it holds
      `x`; otherwise the first later node holding `x`, if any. */
  function Delete<T(==)>(l: LinkedListDS<T>, x: T): (r: (LinkedListDS<T>, bool))
    ensures !r.1 ==> r.0 == l
    ensures r.1 ==> r.0.size == l.size - 1
  {
    if l.head.Null? then (l, false)
    else if l.head.data == x then (LinkedListDS(l.head.next, l.size - 1), true)
    else
      var (h, found) := Unlink(l.head, x);
      if found then (LinkedListDS(h, l.size - 1), true) else (l, false)
  }

  /** The walk from `current` unlinks exactly the first later node holding
      `x`, keeping every other node in order. */
  lemma {:induction false} UnlinkRemovesFirst<T>(current: Chain<T>, x: T)
    requires current.Node?
    ensures var s := Elements(current.next);
      && (Unlink(current, x).1 <==> x in s)
      && (x in s ==> Elements(Unlink(current, x).0) == [current.data] + RemoveAt(s, IndexOf(s, x)))
    decreases current
  {
    var s := Elements(current.next);
    if current.next.Node? && current.next.data != x {
      UnlinkRemovesFirst(current.next, x);
      var t := Elements(current.next.next);
      assert s == [current.next.data] + t;
      if x in s {
        var i := IndexOf(t, x);
        assert IndexOf(s, x) == i + 1;
        assert RemoveAt(s, i + 1) == [current.next.data] + RemoveAt(t, i);
      }
    } else if current.next.Node? {
      assert IndexOf(s, x) == 0;
      assert RemoveAt(s, 0) == Elements(current.next.next);
    }
  }

  /** `delete(x)` removes only the first occurrence of `x` and keeps the
      order of the other nodes; for an absent `x` (or an empty list) it
      returns false and changes nothing. */
  lemma DeleteRemovesFirst<T>(l: LinkedListDS<T>, x: T)
    ensures var s := Elements(l.head);
      && (Delete(l, x).1 <==> x in s)
      && (x in s ==> Elements(Delete(l, x).0.head) == RemoveAt(s, IndexOf(s, x)))
  {
    var s := Elements(l.head);
    if l.head.Node? {
      if l.head.data == x {
        assert IndexOf(s, x) == 0;
        assert RemoveAt(s, 0) == Elements(l.head.next);
      } else {
        UnlinkRemovesFirst(l.head, x);
        var t := Elements(l.head.next);
        if x in s {
          assert x in t;
          assert IndexOf(s, x) == IndexOf(t, x) + 1;
          assert RemoveAt(s, IndexOf(s, x)) == [l.head.data] + RemoveAt(t, IndexOf(t, x));
        }
      }
    }
  }

  /** `size` keeps counting the reachable nodes through inserts and
      deletes. */
  lemma OperationsKeepValid<T>(l: LinkedListDS<T>, x: T)
    requires Valid(l)
    ensures Valid(Insert(l, x))
    ensures Valid(Delete(l, x).0)
  {
    DeleteRemovesFirst(l, x);
  }

  /** `search(x)`: walks the nodes from `head`, counting positions. */
  method Search<T(==)>(l: LinkedListDS<T>, x: T) returns (position: int)
    ensures position == IndexOf(Elements(l.head), x)
    ensures position == -1 <==> x !in Elements(l.head)
  {
    ghost var s := Elements(l.head);
    var current := l.head;
    position := 0;
    while current.Node?
      invariant 0 <= position <= |s|
      invariant Elements(current) == s[position..]
      invariant x !in s[..position]
      decreases current
    {
      if current.data == x {
        IndexOfIsFirst(s, x, position);
        return;
      }
      assert s[..position + 1] == s[..position] + [current.data];
      current := current.next;
      position := position + 1;
    }
    assert s[..position] == s;
    position := -1;
  }

  // ---------------------------------------------------------------------
  // The panel of the visualizer.

  /** The panel: `this.nodes` (head first), the shared counters and
      `isAnimating`. */
  datatype Panel = Panel(nodes: seq<int>, operations: nat, comparisons: nat, animating: bool)

  /** The panel holds fewer than this many nodes before an insert. */
  const Capacity := 8

  /** The status line after a delete or a search. */
  datatype Status = Ignored | Deleted(value: int) | Found(value: int, position: nat) | NotFound(value: int)

  /** The linked list the panel's array stands for. */
  function ListOf(nodes: seq<int>): (l: LinkedListDS<int>)
    ensures Valid(l) && Elements(l.head) == nodes
  {
    LinkedListDS(FromSeq(nodes), |nodes|)
  }

  /** The panel's `insert()`: a valid value on a panel with room becomes
      the head (`unshift`) and is counted; anything else changes nothing. */
  function UiInsert(p: Panel, input: Parsed): (r: Panel)
    ensures Accepts(input, |p.nodes|, Capacity) ==>
      ListOf(r.nodes) == Insert(ListOf(p.nodes), input.value) && r.operations == p.operations + 1
    ensures !Accepts(input, |p.nodes|, Capacity) ==> r == p
    ensures r.comparisons == p.comparisons && r.animating == p.animating
  {
    if Accepts(input, |p.nodes|, Capacity) then
      p.(nodes := [input.value] + p.nodes, operations := p.operations + 1)
    else p
  }

  /** The panel's `deleteValue()`: for a truthy value, removes the first
      index holding it (`indexOf` then `splice`) and counts it, or reports
      it missing. Unlike insert, there is no range test. */
  function UiDelete(p: Panel, input: Parsed): (r: (Panel, Status))
    ensures !Truthy(input) ==> r == (p, Ignored)
    ensures Truthy(input) ==>
      (r.1.Deleted? <==> input.value in p.nodes) && (r.1.NotFound? <==> input.value !in p.nodes)
    ensures r.1.Deleted? ==> r.0.operations == p.operations + 1
    ensures !r.1.Deleted? ==> r.0 == p
  {
    if !Truthy(input) then (p, Ignored)
    else
      var i := IndexOf(p.nodes, input.value);
      if i != -1 then
        (p.(nodes := RemoveAt(p.nodes, i), operations := p.operations + 1), Deleted(input.value))
      else (p, NotFound(input.value))
  }

  /** The panel's `search()`: for a truthy value, the first position
      holding it (counted as one comparison), or not found. */
  function UiSearch(p: Panel, input: Parsed): (r: (Panel, Status))
    ensures !Truthy(input) ==> r == (p, Ignored)
    ensures r.1.Found? <==> Truthy(input) && input.value in p.nodes
    ensures r.1.Found? ==> r.1.value == input.value && r.0 == p.(comparisons := p.comparisons + 1)
    ensures r.1.Found? ==> (r.1.position < |p.nodes| && p.nodes[r.1.position] == r.1.value
      && r.1.value !in p.nodes[..r.1.position] && r.0.comparisons == p.comparisons + 1)
    ensures Truthy(input) && input.value !in p.nodes ==> r == (p, NotFound(input.value))
    ensures r.0.nodes == p.nodes
  {
    if !Truthy(input) then (p, Ignored)
    else
      var i := IndexOf(p.nodes, input.value);
      if i != -1 then (p.(comparisons := p.comparisons + 1), Found(input.value, i))
      else (p, NotFound(input.value))
  }

  /** The panel's `clear()`. */
  function UiClear(p: Panel): (r: Panel)
    ensures r.nodes == [] && r.operations == p.operations && r.animating == p.animating
  {
    p.(nodes := [])
  }

  /** The "Head" field: `nodes[0]`, or `NULL` (`None`) on an empty panel. */
  function HeadShown(p: Panel): (r: Option<int>)
    ensures r.None? <==> ListOf(p.nodes).head.Null?
    ensures r.Some? ==> r.value == ListOf(p.nodes).head.data
  {
    if |p.nodes| > 0 then Some(p.nodes[0]) else None
  }

  /** The panel's delete and search agree with `LinkedListDS`: deleting a
      truthy value leaves exactly the nodes `delete` leaves, and a search
      finds the value exactly when `search` does, at the position `search`
      returns. */
  lemma PanelMatchesList(p: Panel, x: int)
    requires x != 0
    ensures ListOf(UiDelete(p, Some(x)).0.nodes).head == Delete(ListOf(p.nodes), x).0.head
    ensures UiDelete(p, Some(x)).1.Deleted? <==> Delete(ListOf(p.nodes), x).1
    ensures UiSearch(p, Some(x)).1.Found? <==> IndexOf(Elements(ListOf(p.nodes).head), x) != -1
    ensures UiSearch(p, Some(x)).1.Found? ==>
      UiSearch(p, Some(x)).1.position == IndexOf(Elements(ListOf(p.nodes).head), x)
  {
    var l := ListOf(p.nodes);
    DeleteRemovesFirst(l, x);
    FromElements(Delete(l, x).0.head);
  }

  /** Every panel operation keeps the nodes within the cap with values in
      `1..999`. */
  lemma PanelStaysWithinCap(p: Panel, input: Parsed)
    requires WithinCap(p.nodes, Capacity)
    ensures WithinCap(UiInsert(p, input).nodes, Capacity)
    ensures WithinCap(UiDelete(p, input).0.nodes, Capacity)
    ensures WithinCap(UiClear(p).nodes, Capacity)
  {
    if Accepts(input, |p.nodes|, Capacity) {
      PrependAccepted(p.nodes, input, Capacity);
    }
  }

  /** The values `demo()` inserts, in order. */
  const DemoValues: seq<int> := [10, 20, 30, 40]

  /** `xs` inserted one after another at the head (`unshift`). */
  function UnshiftAll(s: seq<int>, xs: seq<int>): (r: seq<int>)
    ensures |r| == |s| + |xs|
    decreases |xs|
  {
    if xs == [] then s else UnshiftAll([xs[0]] + s, xs[1..])
  }

  /** Inserting at the head one by one leaves the values in reverse order in
      front of the old nodes. */
  lemma {:induction false} UnshiftAllReverses(s: seq<int>, xs: seq<int>)
    ensures UnshiftAll(s, xs) == Reverse(xs) + s
    decreases |xs|
  {
    if xs != [] {
      UnshiftAllReverses([xs[0]] + s, xs[1..]);
      ReverseConcat([xs[0]], xs[1..]);
      assert [xs[0]] + xs[1..] == xs;
      assert Reverse([xs[0]]) == [xs[0]];
      assert Reverse(xs[1..]) + ([xs[0]] + s) == Reverse(xs[1..]) + [xs[0]] + s;
    }
  }

  /** `demo()` run to the end: nothing while another run is animating;
      otherwise the counter restarts, the demo values are inserted at the
      head (with no cap check), node 1 is highlighted as "Searching for value
      30", and `isAnimating` is cleared. Returns the highlighted position. */
  function Demo(p: Panel): (r: (Panel, Option<nat>))
    ensures p.animating ==> r == (p, None)
  {
    if p.animating then (p, None)
    else (p.(nodes := UnshiftAll(p.nodes, DemoValues), operations := |DemoValues|, animating := false), Some(1))
  }

  /** The demo leaves `[40, 30, 20, 10]` in front of the old nodes, and the
      node it highlights is exactly where a search for 30 stops. */
  lemma DemoHighlightsThirty(p: Panel)
    requires !p.animating
    ensures Demo(p).0.nodes == [40, 30, 20, 10] + p.nodes
    ensures Demo(p).1 == Some(1) && IndexOf(Demo(p).0.nodes, 30) == 1
    ensures Demo(p).0.operations == 4 && !Demo(p).0.animating
  {
    UnshiftAllReverses(p.nodes, DemoValues);
    assert Reverse(DemoValues) == [40, 30, 20, 10];
    IndexOfIsFirst(Demo(p).0.nodes, 30, 1);
  }
}
