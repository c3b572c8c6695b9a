/** The Michael-Scott queue `Queue<T>` run sequentially: every
    compare-and-swap succeeds on its first attempt, so each operation is one
    state transition of a singly linked list whose first cell is a sentinel. */
module Queues {
  import opened Common
  import opened Options
  import opened Results

  /** A list cell. The sentinel's `data` is never read as an element. */
  class Node<T> {
    const data: Option<T>
    var next: Node?<T>

    constructor (data: Option<T>)
      ensures this.data == data && next == null
    {
      this.data := data;
      next := null;
    }
  }

  class Queue<T> {
    var head: Node<T>
    var tail: Node<T>
    var count: int
    var version: nat

    /** The cells from the sentinel `head` on, and the values after it. */
    ghost var nodes: seq<Node<T>>
    ghost var Contents: seq<T>
    /** `history[v]` is the chain of cells the queue had at version `v`. */
    ghost var history: seq<seq<Node<T>>>

    ghost predicate Valid()
      reads this, nodes
    {
      |nodes| == |Contents| + 1 &&
      head == nodes[0] && tail == nodes[|nodes| - 1] &&
      (forall i :: 0 <= i < |nodes| - 1 ==> nodes[i].next == nodes[i + 1]) &&
      tail.next == null &&
      (forall i, j :: 0 <= i < j < |nodes| ==> nodes[i] != nodes[j]) &&
      (forall i :: 1 <= i < |nodes| ==> nodes[i].data == Present(Contents[i - 1])) &&
      count == |Contents| &&
      |history| == version + 1 && history[version] == nodes
    }

    /** `new Queue<T>()`: head and tail are one sentinel holding `None`. */
    constructor ()
      ensures Valid() && Contents == [] && count == 0 && version == 0
      ensures head == tail && head.data == Option.None() && head.next == null && fresh(head)
    {
      var sentinel := new Node(Option.None());
      head, tail := sentinel, sentinel;
      count, version := 0, 0;
      nodes, Contents, history := [sentinel], [], [[sentinel]];
    }

    /** The `Count` property. */
    function Count(): (n: int)
      requires Valid()
      reads this, nodes
      ensures n == |Contents|
    {
      count
    }

    /** `Enqueue(value)`: a fresh `Some(value)` cell is linked after the last
        cell and becomes the tail. */
    method Enqueue(value: T)
      requires Valid()
      modifies this, tail
      ensures Valid()
      ensures Contents == old(Contents) + [value]
      ensures |nodes| == |old(nodes)| + 1 && nodes[..|old(nodes)|] == old(nodes)
      ensures fresh(tail) && tail == nodes[|nodes| - 1] && tail.data == Option.Some(value)
      ensures old(tail).next == tail && head == old(head)
      ensures count == old(count) + 1 && version == old(version) + 1
      ensures history == old(history) + [nodes]
    {
      var n := new Node(Option.Some(value));
      var last := tail;
      var next := last.next;
      // the tail is never lagging here, so there is no other thread to help
      assert next == null;
      // the compare-and-swap of `last.next` from null to `n` succeeds,
      // and so does the one that swings `tail` from `last` to `n`
      last.next := n;
      tail := n;
      count := count + 1;
      version := version + 1;
      nodes, Contents := nodes + [n], Contents + [value];
      history := history + [nodes];
    }

    /** `Dequeue()`: the cell after the sentinel becomes the new sentinel and
        its value is returned; the `None` failure on an empty queue, which
        changes nothing. */
    method Dequeue() returns (r: Result<T, None>)
      requires Valid()
      modifies this
      ensures Valid()
      ensures old(Contents) == [] ==> r == Result.Failed(None.Value) && unchanged(this)
      ensures old(Contents) != [] ==>
        r == Result.Suceeded(old(Contents)[0]) &&
        Contents == old(Contents)[1..] && nodes == old(nodes)[1..] &&
        head == old(head.next) && tail == old(tail) &&
        count == old(count) - 1 && version == old(version) + 1 &&
        history == old(history) + [nodes]
    {
      var first := head;
      var next := first.next;
      assert Contents != [] ==> next == nodes[1] && nodes[1].data == Present(Contents[0]);
      if next == null {
        return Result.FromFailure(None.Value);
      }
      var last := tail;
      // the source advances a tail that lags on the sentinel before moving
      // `head`; with a successor present the tail is never the sentinel
      assert last != first;
      // the compare-and-swap of `head` from `first` to `next` succeeds
      head := next;
      count := count - 1;
      version := version + 1;
      nodes, Contents := nodes[1..], Contents[1..];
      history := history + [nodes];
      var v := next.data.Value();
      r := Result.FromSuccess(v.value);
    }

    /** `Clear()` (documented as not thread-safe): the sentinel alone
        remains. */
    method Clear()
      requires Valid()
      modifies this, head
      ensures Valid()
      ensures Contents == [] && count == 0 && version == old(version) + 1
      ensures head == old(head) && tail == head && head.next == null
      ensures history == old(history) + [nodes]
    {
      head.next := null;
      tail := head;
      count := 0;
      version := version + 1;
      nodes, Contents := [head], [];
      history := history + [nodes];
    }
  }

  /** The queue's enumerator: a cursor that starts on the sentinel and walks
      the cells the queue had when the enumerator was made, failing fast once
      the queue's version moves. */
  class Enumerator<T> {
    const queue: Queue<T>
    var version: nat
    var current: Node?<T>

    /** The cells and values of the queue when the enumerator was made, and
        the index of `current` among the cells (`|spine|` once it is null). */
    ghost var spine: seq<Node<T>>
    ghost var Elements: seq<T>
    ghost var position: nat

    ghost predicate Valid()
      reads this, queue
    {
      version < |queue.history| && queue.history[version] == spine &&
      |spine| == |Elements| + 1 &&
      (forall i :: 1 <= i < |spine| ==> spine[i].data == Present(Elements[i - 1])) &&
      position <= |spine| &&
      current == if position < |spine| then spine[position] else null
    }

    /** `new Enumerator(queue)`, as `GetEnumerator()` builds it. */
    constructor (queue: Queue<T>)
      requires queue.Valid()
      ensures Valid() && this.queue == queue && position == 0 && current == queue.head
      ensures Elements == queue.Contents && spine == queue.nodes && version == queue.version
    {
      this.queue := queue;
      version := queue.version;
      current := queue.head;
      spine, Elements, position := queue.nodes, queue.Contents, 0;
    }

    /** The `Current` property as the source writes it: "not started" is
        detected by the sentinel holding `None`. */
    function CurrentAsWritten(): (r: Outcome<T>)
      requires Valid()
      reads this, queue
      ensures position == |spine| ==> r == Threw(InvalidOperation)
      ensures position == 0 ==> (r.Threw? <==> spine[0].data == Absent)
      ensures 0 < position < |spine| ==> r == Returned(Elements[position - 1])
    {
      if current == null then Threw(InvalidOperation)
      else if current.data.OptionStatus() == Status.None then Threw(InvalidOperation)
      else current.data.Value()
    }

    /** The `Current` property with "not started" detected by the cursor
        still standing on the queue's sentinel. */
    function Current(): (r: Outcome<T>)
      requires Valid() && queue.Valid() && version == queue.version
      reads this, queue, queue.nodes
      ensures position == 0 ==> r == Threw(InvalidOperation)
      ensures position == |spine| ==> r == Threw(InvalidOperation)
      ensures 0 < position < |spine| ==> r == Returned(Elements[position - 1])
    {
      if current == null then Threw(InvalidOperation)
      else if current == queue.head then Threw(InvalidOperation)
      else current.data.Value()
    }

    /** `MoveNext()`: throws once the queue has been revised; otherwise moves
        one cell on, and reports whether it stands on a cell. */
    method MoveNext() returns (r: Outcome<bool>)
      requires Valid() && queue.Valid()
      modifies this
      ensures Valid()
      ensures spine == old(spine) && Elements == old(Elements) && version == old(version)
      ensures old(version) != queue.version ==> r == Threw(InvalidOperation) && unchanged(this)
      ensures old(version) == queue.version ==>
        position == (if old(position) < |spine| then old(position) + 1 else |spine|) &&
        r == Returned(position < |spine|)
    {
      if version != queue.version {
        return Threw(InvalidOperation);
      }
      if current == null {
        return Returned(false);
      }
      current := current.next;
      position := position + 1;
      r := Returned(current != null);
    }

    /** `Reset()`: throws once the queue has been revised; otherwise moves
        back to the sentinel. */
    method Reset() returns (r: Outcome<()>)
      requires Valid() && queue.Valid()
      modifies this
      ensures Valid()
      ensures spine == old(spine) && Elements == old(Elements) && version == old(version)
      ensures old(version) != queue.version ==> r == Threw(InvalidOperation) && unchanged(this)
      ensures old(version) == queue.version ==> r == Returned(()) && position == 0
    {
      if version != queue.version {
        return Threw(InvalidOperation);
      }
      current := queue.head;
      position := 0;
      r := Returned(());
    }

    /** `Dispose()`: back to the queue's current sentinel without checking
        the version; on an unrevised queue that is the start again. */
    method Dispose()
      requires Valid() && queue.Valid()
      modifies this`current, this`position
      ensures current == queue.head && position == 0
      ensures version == queue.version ==> Valid()
    {
      current := queue.head;
      position := 0;
    }
  }

  /** A `foreach` over an unchanged queue: the values front to back. */
  method Enumerate<T>(q: Queue<T>) returns (xs: seq<T>)
    requires q.Valid()
    ensures xs == q.Contents
  {
    ghost var elements := q.Contents;
    var e := new Enumerator(q);
    xs := [];
    var more := e.MoveNext();
    while more == Returned(true)
      invariant e.Valid() && e.queue == q && e.version == q.version
      invariant e.Elements == elements && e.spine == q.nodes
      invariant more.Returned? && more.value == (e.position < |e.spine|)
      invariant 1 <= e.position && xs == elements[..e.position - 1]
      decreases |elements| + 1 - e.position
    {
      xs, more := Visit(e, elements, xs);
    }
  }

  /** One turn of the `foreach`: read `Current`, then `MoveNext()`. */
  method Visit<T>(e: Enumerator<T>, ghost elements: seq<T>, xs: seq<T>) returns (xs': seq<T>, more: Outcome<bool>)
    requires e.Valid() && e.queue.Valid() && e.version == e.queue.version
    requires e.Elements == elements && 1 <= e.position < |e.spine|
    requires xs == elements[..e.position - 1]
    modifies e
    ensures e.Valid() && e.version == e.queue.version && e.spine == old(e.spine)
    ensures e.Elements == elements && e.position == old(e.position) + 1
    ensures more == Returned(e.position < |e.spine|)
    ensures xs' == elements[..e.position - 1]
  {
    var c := e.Current();
    PrefixGrows(elements, e.position - 1);
    xs' := xs + [c.value];
    more := e.MoveNext();
  }

  /** Enqueue 1, 2, 3, 4 on an empty queue, then dequeue five times. */
  method EnqueueDequeueScenario() returns (dequeued: seq<Result<int, None>>)
    ensures dequeued == [Result.Suceeded(1), Result.Suceeded(2), Result.Suceeded(3),
                         Result.Suceeded(4), Result.Failed(None.Value)]
  {
    var q := new Queue<int>();
    q.Enqueue(1); q.Enqueue(2); q.Enqueue(3); q.Enqueue(4);
    var a := q.Dequeue();
    var b := q.Dequeue();
    var c := q.Dequeue();
    var d := q.Dequeue();
    var e := q.Dequeue();
    dequeued := [a, b, c, d, e];
  }

  /** After one dequeue the sentinel keeps the dequeued value, so `Current`
      as written returns that value before the first `MoveNext`, where the
      corrected `Current` throws. */
  method StaleSentinelScenario() returns (asWritten: Outcome<int>, corrected: Outcome<int>)
    ensures asWritten == Returned(1)
    ensures corrected == Threw(InvalidOperation)
  {
    var q := new Queue<int>();
    q.Enqueue(1);
    var _ := q.Dequeue();
    var e := new Enumerator(q);
    asWritten := e.CurrentAsWritten();
    corrected := e.Current();
  }
}
