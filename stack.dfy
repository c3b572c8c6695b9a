/** The Treiber stack `Stack<T>` run sequentially: every compare-and-swap
    on `head` succeeds on its first attempt, so each operation is one state
    transition of a singly linked list with a count and a version counter. */
module Stacks {
  import opened Common
  import opened Results

  /** A list cell: the pushed value and the cell below it. */
  class Node<T> {
    var data: T
    var next: Node?<T>

    constructor (data: T, next: Node?<T>)
      ensures this.data == data && this.next == next
    {
      this.data := data;
      this.next := next;
    }
  }

  /** `nodes` is a null-terminated chain of cells holding `contents`,
      first cell first. */
  ghost predicate Chain<T>(nodes: seq<Node<T>>, contents: seq<T>)
    reads nodes
  {
    |nodes| == |contents| &&
    (forall i :: 0 <= i < |nodes| ==> nodes[i].data == contents[i]) &&
    (forall i :: 0 <= i < |nodes| - 1 ==> nodes[i].next == nodes[i + 1]) &&
    (nodes != [] ==> nodes[|nodes| - 1].next == null)
  }

  class Stack<T> {
    var head: Node?<T>
    var count: int
    var version: nat

    /** The cells from `head` down and their values, top first. */
    ghost var nodes: seq<Node<T>>
    ghost var Contents: seq<T>
    /** `history[v]` is the chain of cells the stack had at version `v`. */
    ghost var history: seq<seq<Node<T>>>

    ghost predicate Valid()
      reads this, nodes
    {
      Chain(nodes, Contents) &&
      head == (if nodes == [] then null else nodes[0]) &&
      count == |nodes| &&
      |history| == version + 1 && history[version] == nodes
    }

    /** `new Stack<T>()`. */
    constructor ()
      ensures Valid() && Contents == [] && count == 0 && version == 0
    {
      head, count, version := null, 0, 0;
      nodes, Contents, history := [], [], [[]];
    }

    /** `Push(value)`: a fresh cell above the old top becomes the head. */
    method Push(value: T)
      requires Valid()
      modifies this
      ensures Valid()
      ensures Contents == [value] + old(Contents)
      ensures |nodes| == |old(nodes)| + 1 && fresh(nodes[0]) && nodes[1..] == old(nodes)
      ensures count == old(count) + 1 && version == old(version) + 1
      ensures history == old(history) + [nodes]
    {
      var n := new Node(value, null);
      var top := head;
      n.next := top;
      // the compare-and-swap of `head` from `top` to `n` succeeds
      head := n;
      count := count + 1;
      version := version + 1;
      nodes, Contents := [n] + nodes, [value] + Contents;
      history := history + [nodes];
    }

    /** `Pop()`: the top value and its removal, or the `None` failure on an
        empty stack, which changes nothing. */
    method Pop() returns (r: Result<T, None>)
      requires Valid()
      modifies this
      ensures Valid()
      ensures old(Contents) == [] ==> r == Result.Failed(None.Value) && unchanged(this)
      ensures old(Contents) != [] ==>
        r == Result.Suceeded(old(Contents)[0]) &&
        Contents == old(Contents)[1..] && nodes == old(nodes)[1..] &&
        count == old(count) - 1 && version == old(version) + 1 &&
        history == old(history) + [nodes]
    {
      var top := head;
      if top == null {
        return Result.FromFailure(None.Value);
      }
      var below := top.next;
      // the compare-and-swap of `head` from `top` to `below` succeeds
      head := below;
      count := count - 1;
      version := version + 1;
      nodes, Contents := nodes[1..], Contents[1..];
      history := history + [nodes];
      r := Result.FromSuccess(top.data);
    }

    /** `Peek()`: the top value without removing it, or the `None` failure. */
    function Peek(): (r: Result<T, None>)
      requires Valid()
      reads this, nodes
      ensures Contents == [] ==> r == Result.Failed(None.Value)
      ensures Contents != [] ==> r == Result.Suceeded(Contents[0])
    {
      if head == null then Result.FromFailure(None.Value) else Result.FromSuccess(head.data)
    }

    /** The `Empty` property. */
    function Empty(): (b: bool)
      requires Valid()
      reads this, nodes
      ensures b <==> Count() == 0
      ensures b <==> Contents == []
    {
      head == null
    }

    /** The `Count` property. */
    function Count(): (n: int)
      requires Valid()
      reads this, nodes
      ensures n == |Contents|
    {
      count
    }

    /** `Clear()`: pop until a pop fails. */
    method Clear()
      requires Valid()
      modifies this
      ensures Valid()
      ensures Contents == [] && count == 0 && Empty()
      ensures version == old(version) + |old(Contents)|
      ensures old(history) <= history
    {
      while true
        invariant Valid()
        invariant version + |Contents| == old(version) + |old(Contents)|
        invariant old(history) <= history
        decreases |Contents|
      {
        var r := Pop();
        if r.ResultType() != Type.Success {
          break;
        }
      }
    }
  }

  /** The stack's enumerator: a cursor over the cells the stack had when the
      enumerator was made, that fails fast once the stack's version moves. */
  class Enumerator<T> {
    const stack: Stack<T>
    var initialized: bool
    var version: nat
    var current: Node?<T>

    /** The cells and values of the stack when the enumerator was made, and
        the index of `current` among them. */
    ghost var spine: seq<Node<T>>
    ghost var Elements: seq<T>
    ghost var position: nat

    ghost predicate Valid()
      reads this, stack, spine
    {
      Chain(spine, Elements) &&
      version < |stack.history| && stack.history[version] == spine &&
      position <= |spine| &&
      (!initialized ==> position == 0) &&
      (initialized ==> current == if position < |spine| then spine[position] else null)
    }

    /** `new Enumerator(stack)`, as `GetEnumerator()` builds it. */
    constructor (stack: Stack<T>)
      requires stack.Valid()
      ensures Valid() && this.stack == stack && !initialized
      ensures Elements == stack.Contents && spine == stack.nodes && version == stack.version
    {
      this.stack := stack;
      initialized := false;
      version := stack.version;
      current := null;
      spine, Elements, position := stack.nodes, stack.Contents, 0;
    }

    /** The `Current` property: throws before the first `MoveNext` and once
        the cursor has passed the last cell. */
    function Current(): (r: Outcome<T>)
      requires Valid()
      reads this, stack, spine
      ensures !initialized ==> r == Threw(InvalidOperation)
      ensures initialized && position == |Elements| ==> r == Threw(InvalidOperation)
      ensures initialized && position < |Elements| ==> r == Returned(Elements[position])
    {
      if !initialized then Threw(InvalidOperation)
      else if current == null then Threw(InvalidOperation)
      else Returned(current.data)
    }

    /** `Dispose()`: back to "not started", whatever the stack's version;
        `current` is left where it was. */
    method Dispose()
      requires Valid()
      modifies this`initialized, this`position
      ensures Valid() && !initialized && position == 0
    {
      initialized := false;
      position := 0;
    }

    /** `MoveNext()`: throws once the stack has been revised; otherwise moves
        to the top cell on the first call and one cell down afterwards. */
    method MoveNext() returns (r: Outcome<bool>)
      requires Valid() && stack.Valid()
      modifies this
      ensures Valid()
      ensures spine == old(spine) && Elements == old(Elements) && version == old(version)
      ensures old(version) != stack.version ==> r == Threw(InvalidOperation) && unchanged(this)
      ensures old(version) == stack.version ==>
        initialized &&
        position == (if !old(initialized) then 0
                     else if old(position) < |spine| then old(position) + 1
                     else |spine|) &&
        r == Returned(position < |spine|)
    {
      if version != stack.version {
        return Threw(InvalidOperation);
      }
      if !initialized {
        current := stack.head;
        initialized := true;
        position := 0;
        return Returned(current != null);
      }
      if current == null {
        return Returned(false);
      }
      current := current.next;
      position := position + 1;
      r := Returned(current != null);
    }

    /** `Reset()`: throws once the stack has been revised; otherwise rewinds
        to before the top cell. */
    method Reset() returns (r: Outcome<()>)
      requires Valid()
      modifies this
      ensures Valid()
      ensures spine == old(spine) && Elements == old(Elements) && version == old(version)
      ensures old(version) != stack.version ==> r == Threw(InvalidOperation) && unchanged(this)
      ensures old(version) == stack.version ==> r == Returned(()) && !initialized
    {
      if version != stack.version {
        return Threw(InvalidOperation);
      }
      initialized := false;
      current := null;
      position := 0;
      r := Returned(());
    }
  }

  /** A `foreach` over an unchanged stack: the values top to bottom. */
  method Enumerate<T>(s: Stack<T>) returns (xs: seq<T>)
    requires s.Valid()
    ensures xs == s.Contents
  {
    var e := new Enumerator(s);
    xs := [];
    var more := e.MoveNext();
    while more == Returned(true)
      invariant e.Valid() && e.stack == s && e.initialized && e.version == s.version
      invariant e.Elements == s.Contents
      invariant more.Returned? && more.value == (e.position < |e.Elements|)
      invariant xs == s.Contents[..e.position]
      decreases |s.Contents| - e.position
    {
      var c := e.Current();
      PrefixGrows(s.Contents, e.position);
      xs := xs + [c.value];
      more := e.MoveNext();
    }
  }

  /** Push 1, 2, 3, 4 on an empty stack, then pop five times. */
  method PushPopScenario() returns (popped: seq<Result<int, None>>)
    ensures popped == [Result.Suceeded(4), Result.Suceeded(3), Result.Suceeded(2),
                       Result.Suceeded(1), Result.Failed(None.Value)]
  {
    var s := new Stack<int>();
    s.Push(1); s.Push(2); s.Push(3); s.Push(4);
    var a := s.Pop();
    var b := s.Pop();
    var c := s.Pop();
    var d := s.Pop();
    var e := s.Pop();
    popped := [a, b, c, d, e];
  }
}
