/** The descriptor-based vector `ArrayList<T>` run sequentially: every
    compare-and-swap succeeds on its first attempt, so a pending write is
    always completed by the operation that installed it, and between
    operations no write is pending. */
module ArrayLists {
  import opened Common
  import opened Results
  import opened ArrayListIndexing
  import opened ArrayListMemory

  /** `Descriptor.WriteOperation`: a write of `newValue` over `oldValue` at
      index `location`, pending until `CompleteWrite` runs. */
  datatype WriteOperation<T> =
    WriteOperation(oldValue: Nullable<T>, newValue: Nullable<T>, location: int, pending: bool)

  /** The parameterless `WriteOperation()`: no write. */
  function NoWrite<T>(): WriteOperation<T>
  {
    WriteOperation(Null, Null, -1, false)
  }

  /** `Descriptor`: the element count and the last write. */
  datatype Descriptor<T> = Descriptor(count: int, writeOp: WriteOperation<T>)

  /** The least index whose element `eq` matches `item`, or -1. */
  function FirstMatch<T>(eq: (T, T) -> bool, s: seq<T>, item: T): (r: int)
    ensures -1 <= r < |s|
    ensures r == -1 <==> forall k :: 0 <= k < |s| ==> !eq(item, s[k])
    ensures r >= 0 ==> eq(item, s[r]) && forall k :: 0 <= k < r ==> !eq(item, s[k])
  {
    if s == [] then -1
    else if eq(item, s[0]) then 0
    else
      var r := FirstMatch(eq, s[1..], item);
      if r == -1 then -1 else r + 1
  }

  /** One step of `Insert`'s loop: the element before the gap is copied
      into it, and the gap moves one place down. */
  lemma ShiftUpStep<T>(o: seq<T>, c: T, i: int)
    requires 0 < i <= |o|
    ensures (o[..i] + [c] + o[i..])[i - 1] == o[i - 1]
    ensures (o[..i] + [c] + o[i..])[i := o[i - 1]] == o[..i - 1] + [o[i - 1]] + o[i - 1..]
  {
    assert o[..i] == o[..i - 1] + [o[i - 1]];
    assert o[i - 1..] == [o[i - 1]] + o[i..];
  }

  /** One step of `RemoveAt`'s loop: the element after position `i` moves
      back to it. */
  lemma ShiftDownStep<T>(o: seq<T>, index: int, i: int)
    requires 0 <= index <= i < |o| - 1
    ensures (o[..index] + o[index + 1..i + 1] + o[i..])[i + 1] == o[i + 1]
    ensures (o[..index] + o[index + 1..i + 1] + o[i..])[i := o[i + 1]] ==
            o[..index] + o[index + 1..i + 2] + o[i + 1..]
  {
    assert o[index + 1..i + 2] == o[index + 1..i + 1] + [o[i + 1]];
    assert o[i..] == [o[i]] + o[i + 1..];
  }

  /** The final store of `RemoveAt`: `last` replaces the duplicated last
      element. */
  lemma ShiftDownLast<T>(o: seq<T>, index: int, last: T)
    requires 0 <= index < |o|
    ensures |o[..index] + o[index + 1..] + o[|o| - 1..]| == |o|
    ensures (o[..index] + o[index + 1..] + o[|o| - 1..])[|o| - 1 := last] ==
            o[..index] + o[index + 1..] + [last]
  {
    assert o[|o| - 1..] == [o[|o| - 1]];
  }

  /** The invariant of a list between operations: exactly the buckets
      `0 .. buckets-1` are present, each of its size, element `i` of
      `contents` sits in the slot `At(i)`, the descriptor counts the
      elements and no write is pending. */
  ghost predicate Consistent<T>(memory: Memory<T>, buckets: nat, contents: seq<T>, d: Descriptor<T>)
  {
    WellShaped(memory) && 1 <= buckets < BucketCount && AllocatedBelow(memory, buckets) &&
    |contents| <= Capacity(buckets) && Holds(memory, contents) &&
    d.count == |contents| && !d.writeOp.pending
  }

  /** `PopBack` on a consistent list: the last element is in the slot of
      the last index, and the list without it, counted one less, is
      consistent with the same memory. */
  lemma PopConsistent<T>(m: Memory<T>, n: nat, c: seq<T>, d: Descriptor<T>)
    requires Consistent(m, n, c, d) && c != []
    ensures At(m, |c| - 1) == Returned(Ref(c[|c| - 1]))
    ensures Consistent(m, n, c[..|c| - 1], Descriptor(|c| - 1, NoWrite()))
  {
    HoldsPrefix(m, c, |c| - 1);
  }

  class ArrayList<T(==)> {
    /** `memory`, the 29 places for buckets. */
    var memory: Memory<T>
    var descriptor: Descriptor<T>
    var version: nat
    /** The equality comparer `comparer.Equals(item, element)`. */
    const comparer: (T, T) -> bool

    /** The elements, index 0 first. */
    ghost var Contents: seq<T>
    /** The number of present buckets: buckets are allocated in order and
        returned from the top, so they are always `0 .. buckets-1`. */
    ghost var buckets: nat

    /** The buckets `0 .. buckets-1` are present, each of its size. */
    ghost predicate Stored()
      reads this
    {
      WellShaped(memory) && 1 <= buckets < BucketCount && AllocatedBelow(memory, buckets)
    }

    /** Element `i` sits in the slot `At(i)`, and no write is pending. */
    ghost predicate Valid()
      reads this
    {
      Consistent(memory, buckets, Contents, descriptor)
    }

    /** `new ArrayList<T>(comparer)`: no element, bucket 0 present and
        cleared, no other bucket. */
    constructor (comparer: (T, T) -> bool)
      ensures Valid() && Contents == [] && version == 0 && this.comparer == comparer
      ensures buckets == 1 && memory[0] == Ref(seq(FirstBucketSize, _ => Null))
    {
      var mem: Memory<T> := seq(BucketCount, _ => Null);
      descriptor := Descriptor(0, NoWrite());
      version := 0;
      memory := mem[0 := Ref(seq(FirstBucketSize, _ => Null))];
      this.comparer := comparer;
      Contents := [];
      buckets := 1;
    }

    /** `AllocateBucket(bucket)`: installs a cleared bucket of size
        `8 * 2^bucket` where none is, and leaves a present bucket alone. */
    method AllocateBucket(bucket: int)
      requires Valid() && 0 <= bucket < BucketCount - 1 && bucket <= buckets
      modifies this`memory, this`buckets
      ensures Valid() && bucket < buckets
      ensures buckets == if bucket == old(buckets) then old(buckets) + 1 else old(buckets)
      ensures old(memory[bucket]).Ref? ==> memory == old(memory)
      ensures old(memory[bucket]).Null? ==>
        memory == old(memory)[bucket := Ref(seq(BucketSize(bucket), _ => Null))]
    {
      var bucketSize := FirstBucketSize * Pow2(bucket);
      var mem := seq(bucketSize, _ => Null);
      // the compare-and-swap of `memory[bucket]` from null to `mem`
      if memory[bucket].Null? {
        ghost var before := memory;
        memory := memory[bucket := Ref(mem)];
        AgreeBelow(before, memory, buckets, Contents);
        CapacityMonotone(buckets, buckets + 1);
        buckets := buckets + 1;
      }
      // otherwise `mem` goes back to the pool
    }

    /** `Reserve(size)`: allocates the buckets after the one holding the last
        element up to the one holding index `size - 1`. A size whose
        position `size + 7` is negative as a C# int drives the loop to the
        last bucket, whose allocation throws. */
    method Reserve(size: int) returns (r: Outcome<()>)
      requires Valid() && IntMin <= size <= IntMax
      modifies this`memory, this`buckets
      ensures Valid() && old(buckets) <= buckets
      ensures 1 - FirstBucketSize <= size <= MaxIndex + 1 ==>
        r == Returned(()) && size <= Capacity(buckets)
      ensures !(1 - FirstBucketSize <= size <= MaxIndex + 1) ==>
        r == Threw(ArgumentOutOfRange) && buckets == BucketCount - 1
    {
      var inRange := 1 - FirstBucketSize <= size <= MaxIndex + 1;
      if inRange {
        ReserveBounds(descriptor.count, size, buckets);
      } else {
        ReserveOverflows(size);
        ReserveBounds(descriptor.count, 0, buckets);
      }
      var i := HighestBit(descriptor.count + FirstBucketSize - 1);
      i := i - HighestBit(FirstBucketSize);
      if i < 0 {
        i := 0;
      }
      var target := HighestBit(Wrap(size + FirstBucketSize - 1)) - HighestBit(FirstBucketSize);
      while i < target
        invariant Valid() && old(buckets) <= buckets
        invariant 0 <= i < buckets
      {
        i := i + 1;
        if i == BucketCount - 1 {
          // `AllocateBucket(28)`: `8 * (1 << 28)` is a negative int, which
          // `ArrayPool.Rent` refuses with an ArgumentOutOfRangeException
          return Threw(ArgumentOutOfRange);
        }
        AllocateBucket(i);
      }
      ReserveCovers(size, buckets);
      r := Returned(());
    }

    /** `CompleteWrite(writeOp)` on the descriptor's write: a pending write
        replaces its slot if that still holds the old value, is marked done,
        and moves the version. */
    method CompleteWrite()
      requires Stored()
      requires descriptor.writeOp.pending ==>
        0 <= descriptor.writeOp.location <= MaxIndex &&
        descriptor.writeOp.location < Capacity(buckets)
      modifies this`memory, this`descriptor, this`version
      ensures Stored() && !descriptor.writeOp.pending
      ensures descriptor == old(descriptor).(writeOp := old(descriptor).writeOp.(pending := false))
      ensures !old(descriptor).writeOp.pending ==>
        descriptor == old(descriptor) && memory == old(memory) && version == old(version)
      ensures old(descriptor).writeOp.pending ==>
        var op := old(descriptor).writeOp;
        version == old(version) + 1 &&
        memory == if At(old(memory), op.location) == Returned(op.oldValue)
                  then Write(old(memory), op.location, op.newValue) else old(memory)
    {
      var op := descriptor.writeOp;
      if op.pending {
        AtInRange(memory, buckets, op.location);
        // the compare-and-swap of the slot from the old to the new value
        var current := At(memory, op.location);
        if current.value == op.oldValue {
          memory := Write(memory, op.location, op.newValue);
        }
        version := version + 1;
        descriptor := descriptor.(writeOp := op.(pending := false));
      }
    }

    /** The `Count` property: the descriptor's count, less one while a write
        is pending. */
    function Count(): (n: int)
      reads this
      ensures Valid() ==> n == |Contents|
    {
      var d := descriptor;
      if d.writeOp.pending then d.count - 1 else d.count
    }

    /** The indexer's getter. */
    function Get(index: int): (r: Outcome<T>)
      requires Valid()
      reads this
      ensures r.Threw? <==> index < 0 || index >= |Contents|
      ensures r.Threw? ==> r.exception == ArgumentOutOfRange
      ensures r.Returned? ==> r.value == Contents[index]
    {
      if index < 0 || index >= Count() then Threw(ArgumentOutOfRange)
      else Returned(At(memory, index).value.target)
    }

    /** The indexer's setter: one element changes and the version moves. */
    method Set(index: int, value: T) returns (r: Outcome<()>)
      requires Valid()
      modifies this`memory, this`version, this`Contents
      ensures Valid()
      ensures index < 0 || index >= |old(Contents)| ==>
        r == Threw(ArgumentOutOfRange) && Contents == old(Contents) && version == old(version)
      ensures 0 <= index < |old(Contents)| ==>
        r == Returned(()) && Contents == old(Contents)[index := value] &&
        version == old(version) + 1
    {
      if index < 0 || index >= Count() {
        return Threw(ArgumentOutOfRange);
      }
      AtInRange(memory, buckets, index);
      HoldsUpdate(memory, Contents, index, value);
      memory := Write(memory, index, Ref(value));
      version := version + 1;
      Contents := Contents[index := value];
      r := Returned(());
    }

    /** A loop step of `Insert` and `RemoveAt`: the indexer's getter at
        `from`, then its setter at `to`. */
    method Move(from: int, to: int)
      requires Valid() && 0 <= from < |Contents| && 0 <= to < |Contents|
      modifies this`memory, this`version, this`Contents
      ensures Valid() && Contents == old(Contents)[to := old(Contents)[from]]
      ensures version == old(version) + 1
    {
      var element := Get(from);
      var _ := Set(to, element.value);
    }

    /** The bucket check of `Add`: the bucket of index `count` is allocated
        if it is missing. */
    method EnsureBucket(count: int)
      requires Valid() && count == |Contents| <= MaxIndex
      modifies this`memory, this`buckets
      ensures Valid() && old(buckets) <= buckets && count < Capacity(buckets)
    {
      HighestBitLocates(count);
      var bucket := HighestBit(count + FirstBucketSize) - HighestBit(FirstBucketSize);
      if memory[bucket].Null? {
        MissingIsNext(memory, buckets, count);
        AllocateBucket(bucket);
      }
      SlotOf(count, buckets);
    }

    /** `Add(item)`: allocates the bucket of index `count` if it is missing,
        installs `{count + 1, pending write of item}` and completes it. */
    method Add(item: T)
      requires Valid() && |Contents| <= MaxIndex
      modifies this
      ensures Valid() && old(buckets) <= buckets
      ensures Contents == old(Contents) + [item] && version == old(version) + 1
    {
      var current := descriptor;
      CompleteWrite();
      EnsureBucket(current.count);
      AtInRange(memory, buckets, current.count);
      var slot := At(memory, current.count);
      var op := WriteOperation(slot.value, Ref(item), current.count, true);
      var next := Descriptor(current.count + 1, op);
      // the compare-and-swap of `descriptor` from `current` to `next` succeeds
      descriptor := next;
      HoldsAppend(memory, Contents, item);
      CompleteWrite();
      Contents := Contents + [item];
    }

    /** `PopBack()`: the last element and its removal, or the `None` failure
        on an empty list, which changes nothing. The slot keeps the value. */
    method PopBack() returns (r: Result<T, None>)
      requires Valid()
      modifies this`memory, this`descriptor, this`version, this`Contents
      ensures Valid() && memory == old(memory)
      ensures old(Contents) == [] ==>
        r == Result.Failed(None.Value) && Contents == [] && version == old(version)
      ensures old(Contents) != [] ==>
        r == Result.Suceeded(old(Contents)[|old(Contents)| - 1]) &&
        Contents == old(Contents)[..|old(Contents)| - 1] &&
        version == old(version) + 1
    {
      var current := descriptor;
      CompleteWrite();
      if current.count <= 0 {
        return Result.FromFailure(None.Value);
      }
      var elem := InstallPop();
      version := version + 1;
      r := Result.FromSuccess(elem);
    }

    /** The body of `PopBack`'s retry loop on a non-empty list, with the
        compare-and-swap succeeding: the last element is read and the
        descriptor `{count - 1, no write}` installed. */
    method InstallPop() returns (elem: T)
      requires Valid() && Contents != []
      modifies this`descriptor, this`Contents
      ensures Valid() && elem == old(Contents)[|old(Contents)| - 1]
      ensures Contents == old(Contents)[..|old(Contents)| - 1]
    {
      var current := descriptor;
      PopConsistent(memory, buckets, Contents, current);
      elem := At(memory, current.count - 1).value.target;
      var next := Descriptor(current.count - 1, NoWrite());
      // the compare-and-swap of `descriptor` from `current` to `next` succeeds
      descriptor := next;
      Contents := Contents[..|Contents| - 1];
    }

    /** The loop of `Clear` and `Reduce`: the buckets from `from` up to the
        first missing one go back to the pool. */
    method ReturnFrom(from: int)
      requires Valid() && 1 <= from && |Contents| <= Capacity(from)
      modifies this`memory, this`buckets
      ensures Valid()
      ensures buckets == if from < old(buckets) then from else old(buckets)
    {
      ghost var before := memory;
      var i := from;
      while i < |memory|
        invariant WellShaped(memory) && buckets == old(buckets) && from <= i
        invariant from < buckets ==> i <= buckets
        invariant from >= buckets ==> i == from
        invariant forall b :: 0 <= b < BucketCount ==>
          memory[b] == if from <= b < i then Null else before[b]
      {
        var mem := memory[i];
        if mem.Null? {
          break;
        }
        // the bucket goes back to the pool, cleared
        memory := memory[i := Null];
        i := i + 1;
      }
      if from < buckets {
        CapacityMonotone(from, buckets);
        buckets := from;
      }
      AgreeBelow(before, memory, buckets, Contents);
    }

    /** `Clear()` (documented as not thread-safe): no element, bucket 0
        cleared and the buckets after it returned. */
    method Clear()
      requires Valid()
      modifies this
      ensures Valid() && Contents == [] && version == old(version) + 1
      ensures buckets == 1 && memory[0] == Ref(seq(FirstBucketSize, _ => Null))
    {
      descriptor := Descriptor(0, NoWrite());
      Contents := [];
      ReturnFrom(1);
      // bucket 0 is always present, so the `Unexpected error` guard does
      // not fire
      memory := memory[0 := Ref(seq(FirstBucketSize, _ => Null))];
      version := version + 1;
    }

    /** `Reduce()` (documented as not thread-safe): returns the buckets from
        two above the one holding the last element, which leaves a capacity
        of at most four times the count plus seven. */
    method Reduce()
      requires Valid()
      modifies this`memory, this`buckets
      ensures Valid() && buckets <= old(buckets)
      ensures Capacity(buckets) <= 4 * (|Contents| + FirstBucketSize - 1)
    {
      var count := Count();
      CapacityFits(buckets);
      var hibit := HighestBit(count + FirstBucketSize - 1);
      var bucket := hibit - HighestBit(FirstBucketSize) + 2;
      ReduceKeeps(count, bucket);
      ReturnFrom(bucket);
      ReduceBound(count, bucket, buckets);
    }

    /** `Contains(item)`: some element matches `item`. */
    method Contains(item: T) returns (r: bool)
      requires Valid()
      ensures r <==> exists k :: 0 <= k < |Contents| && comparer(item, Contents[k])
    {
      var i := 0;
      while i < Count()
        invariant 0 <= i <= |Contents|
        invariant forall k :: 0 <= k < i ==> !comparer(item, Contents[k])
      {
        var elem := At(memory, i).value.target;
        if comparer(item, elem) {
          return true;
        }
        i := i + 1;
      }
      return false;
    }

    /** `IndexOf(item)`: the least matching index, or -1. */
    method IndexOf(item: T) returns (r: int)
      requires Valid()
      ensures r == FirstMatch(comparer, Contents, item)
    {
      var i := 0;
      while i < Count()
        invariant 0 <= i <= |Contents|
        invariant forall k :: 0 <= k < i ==> !comparer(item, Contents[k])
      {
        var elem := At(memory, i).value.target;
        if comparer(item, elem) {
          return i;
        }
        i := i + 1;
      }
      return -1;
    }

    /** `Insert(index, item)` (documented as not thread-safe): `item` at
        `index`, the later elements one place on. */
    method Insert(index: int, item: T) returns (r: Outcome<()>)
      requires Valid() && |Contents| <= MaxIndex
      modifies this
      ensures Valid()
      ensures !(0 <= index <= |old(Contents)|) ==>
        r == Threw(ArgumentOutOfRange) && Contents == old(Contents) && version == old(version)
      ensures 0 <= index <= |old(Contents)| ==>
        r == Returned(()) &&
        Contents == old(Contents)[..index] + [item] + old(Contents)[index..] &&
        version == old(version) + |old(Contents)| - index + 2
    {
      if index < 0 || index > Count() {
        return Threw(ArgumentOutOfRange);
      }
      Add(item);
      ShiftUpTo(index, item);
      r := Returned(());
    }

    /** The loop and final store of `Insert` after the `Add`: the elements
        from `index` on move one place up and `item` goes to `index`. */
    method ShiftUpTo(index: int, item: T)
      requires Valid() && 0 <= index < |Contents|
      modifies this`memory, this`version, this`Contents
      ensures Valid() && version == old(version) + |old(Contents)| - index
      ensures Contents == old(Contents)[..index] + [item] + old(Contents)[index..|old(Contents)| - 1]
    {
      ghost var o := Contents[..|Contents| - 1];
      var i := Count() - 1;
      assert Contents == o[..i] + [Contents[i]] + o[i..];
      while i > index
        invariant Valid()
        invariant index <= i < |Contents| == |o| + 1
        invariant Contents == o[..i] + [Contents[i]] + o[i..]
        invariant version == old(version) + |o| - i
      {
        ShiftUpStep(o, Contents[i], i);
        Move(i - 1, i);
        i := i - 1;
      }
      var _ := Set(index, item);
    }

    /** `RemoveAt(index)` as the source writes it: pop the last element, move
        the elements after `index` one place back, and store the popped
        element at the new last index. When `index` is the last index this
        overwrites the element before it, and on a one-element list the final
        store is out of range. */
    method RemoveAtAsWritten(index: int) returns (r: Outcome<()>)
      requires Valid()
      modifies this
      ensures Valid()
      ensures !(0 <= index < |old(Contents)|) ==>
        r == Threw(ArgumentOutOfRange) && Contents == old(Contents) && version == old(version)
      ensures 0 <= index < |old(Contents)| - 1 ==>
        r == Returned(()) && Contents == old(Contents)[..index] + old(Contents)[index + 1..] &&
        version == old(version) + |old(Contents)| - index
      ensures 2 <= |old(Contents)| && index == |old(Contents)| - 1 ==>
        r == Returned(()) &&
        Contents == old(Contents)[..index - 1] + [old(Contents)[index]] &&
        version == old(version) + 2
      ensures |old(Contents)| == 1 && index == 0 ==>
        r == Threw(ArgumentOutOfRange) && Contents == [] && version == old(version) + 1
    {
      if index < 0 || index >= Count() {
        return Threw(ArgumentOutOfRange);
      }
      var popped := PopBack();
      var last := popped.ResultValue().value;
      r := ShiftDownFrom(index, last);
    }

    /** `RemoveAt(index)` with the last index handled by the pop alone: the
        list without element `index`. */
    method RemoveAt(index: int) returns (r: Outcome<()>)
      requires Valid()
      modifies this
      ensures Valid()
      ensures !(0 <= index < |old(Contents)|) ==>
        r == Threw(ArgumentOutOfRange) && Contents == old(Contents) && version == old(version)
      ensures 0 <= index < |old(Contents)| ==>
        r == Returned(()) && Contents == old(Contents)[..index] + old(Contents)[index + 1..] &&
        version == old(version) + |old(Contents)| - index
    {
      if index < 0 || index >= Count() {
        return Threw(ArgumentOutOfRange);
      }
      var popped := PopBack();
      var last := popped.ResultValue().value;
      if index == Count() {
        assert old(Contents)[index + 1..] == [];
        return Returned(());
      }
      r := ShiftDownFrom(index, last);
    }

    /** The loop and final store of `RemoveAt` after the pop: the elements
        after `index` move one place back and `last` goes to the last
        index. */
    method ShiftDownFrom(index: int, last: T) returns (r: Outcome<()>)
      requires Valid() && 0 <= index <= |Contents|
      modifies this`memory, this`version, this`Contents
      ensures Valid()
      ensures index < |old(Contents)| ==>
        r == Returned(()) &&
        Contents == old(Contents)[..index] + old(Contents)[index + 1..] + [last] &&
        version == old(version) + |old(Contents)| - index
      ensures 0 < index == |old(Contents)| ==>
        r == Returned(()) && Contents == old(Contents)[..index - 1] + [last] &&
        version == old(version) + 1
      ensures index == |old(Contents)| == 0 ==>
        r == Threw(ArgumentOutOfRange) && Contents == [] && version == old(version)
    {
      if index < Count() {
        ghost var o := Contents;
        ShiftBack(index);
        ShiftDownLast(o, index, last);
      }
      r := Set(Count() - 1, last);
    }

    /** The loop of `RemoveAt`: the elements after `index` move one place
        back, which leaves the last element twice. */
    method ShiftBack(index: int)
      requires Valid() && 0 <= index < |Contents|
      modifies this`memory, this`version, this`Contents
      ensures Valid() && version == old(version) + |old(Contents)| - 1 - index
      ensures Contents ==
        old(Contents)[..index] + old(Contents)[index + 1..] + old(Contents)[|old(Contents)| - 1..]
    {
      ghost var o := Contents;
      var i := index;
      assert Contents == o[..index] + o[index + 1..i + 1] + o[i..];
      while i < Count() - 1
        invariant Valid() && version == old(version) + i - index
        invariant |Contents| == |o| && index <= i <= |o| - 1
        invariant Contents == o[..index] + o[index + 1..i + 1] + o[i..]
      {
        ShiftDownStep(o, index, i);
        Move(i + 1, i);
        i := i + 1;
      }
    }

    /** `Remove(item)` (documented as not thread-safe) as the source writes
        it: the first matching element goes through `RemoveAt` as written,
        so a match at the last index overwrites the element before it, and
        the only element of a one-element list is removed with a throw. */
    method RemoveAsWritten(item: T) returns (r: Outcome<bool>)
      requires Valid()
      modifies this
      ensures Valid()
      ensures var k := FirstMatch(comparer, old(Contents), item);
        (k == -1 ==>
          r == Returned(false) && Contents == old(Contents) && version == old(version)) &&
        (0 <= k < |old(Contents)| - 1 ==>
          r == Returned(true) && Contents == old(Contents)[..k] + old(Contents)[k + 1..]) &&
        (2 <= |old(Contents)| && k == |old(Contents)| - 1 ==>
          r == Returned(true) && Contents == old(Contents)[..k - 1] + [old(Contents)[k]]) &&
        (|old(Contents)| == 1 && k == 0 ==>
          r == Threw(ArgumentOutOfRange) && Contents == [])
    {
      var index := IndexOf(item);
      if index == -1 {
        return Returned(false);
      }
      var removed := RemoveAtAsWritten(index);
      if removed.Threw? {
        return Threw(removed.exception);
      }
      return Returned(true);
    }

    /** `Remove(item)` over the corrected `RemoveAt`: the list without its
        first matching element, if any. */
    method Remove(item: T) returns (r: bool)
      requires Valid()
      modifies this
      ensures Valid()
      ensures var k := FirstMatch(comparer, old(Contents), item);
        (k == -1 ==> !r && Contents == old(Contents) && version == old(version)) &&
        (k >= 0 ==>
          r && Contents == old(Contents)[..k] + old(Contents)[k + 1..] &&
          version == old(version) + |old(Contents)| - k)
    {
      var index := IndexOf(item);
      if index == -1 {
        return false;
      }
      var _ := RemoveAt(index);
      return true;
    }
  }

  /** The list's enumerator: an index into the live list, `-2` before the
      first `MoveNext` and `-1` after the last element, that refuses to move
      once the list's version differs from the one it was made with. */
  class Enumerator<T(==)> {
    const list: ArrayList<T>
    var index: int
    const version: nat

    ghost predicate Valid()
      reads this
    {
      -2 <= index
    }

    /** `new Enumerator(list)`, as `GetEnumerator()` builds it. */
    constructor (list: ArrayList<T>)
      ensures Valid() && this.list == list && index == -2 && version == list.version
    {
      this.list := list;
      index := -2;
      version := list.version;
    }

    /** The `Current` property: throws before the start and after the end,
        and otherwise is the indexer at `index`. */
    function Current(): (r: Outcome<T>)
      requires list.Valid()
      reads this, list
      ensures index == -2 || index == -1 ==> r == Threw(InvalidOperation)
      ensures 0 <= index < |list.Contents| ==> r == Returned(list.Contents[index])
      ensures index < -2 || |list.Contents| <= index ==> r == Threw(ArgumentOutOfRange)
    {
      if index == -2 then Threw(InvalidOperation)
      else if index == -1 then Threw(InvalidOperation)
      else list.Get(index)
    }

    /** `Dispose()`: back to before the start. */
    method Dispose()
      modifies this`index
      ensures Valid() && index == -2
    {
      index := -2;
    }

    /** `MoveNext()`: throws once the list has been revised; otherwise moves
        to index 0 on the first call and one index on afterwards, and to
        `-1`, returning false, past the last element. */
    method MoveNext() returns (r: Outcome<bool>)
      requires Valid() && list.Valid()
      modifies this`index
      ensures Valid()
      ensures version != list.version ==> r == Threw(InvalidOperation) && index == old(index)
      ensures version == list.version ==>
        r.Returned? && (r.value <==> index >= 0) && (!r.value ==> index == -1) &&
        (index >= 0 ==> index < |list.Contents| &&
                        index == if old(index) == -2 then 0 else old(index) + 1) &&
        (index == -1 ==> if old(index) == -2 then list.Contents == []
                         else old(index) == -1 || old(index) + 1 >= |list.Contents|)
    {
      if version != list.version {
        return Threw(InvalidOperation);
      }
      if index == -2 {
        if list.Count() == 0 {
          index := -1;
        } else {
          index := 0;
          return Returned(true);
        }
      }
      if index == -1 {
        return Returned(false);
      }
      index := index + 1;
      if index >= list.Count() {
        index := -1;
        return Returned(false);
      }
      r := Returned(true);
    }

    /** `Reset()`: throws once the list has been revised; otherwise back to
        before the start. */
    method Reset() returns (r: Outcome<()>)
      requires Valid()
      modifies this`index
      ensures Valid()
      ensures version != list.version ==> r == Threw(InvalidOperation) && index == old(index)
      ensures version == list.version ==> r == Returned(()) && index == -2
    {
      if version != list.version {
        return Threw(InvalidOperation);
      }
      index := -2;
      r := Returned(());
    }
  }

  /** A `foreach` over an unchanged list: its elements in index order. */
  method Enumerate<T(==)>(list: ArrayList<T>) returns (xs: seq<T>)
    requires list.Valid()
    ensures xs == list.Contents
  {
    ghost var elements := list.Contents;
    var e := new Enumerator(list);
    xs := [];
    var more := e.MoveNext();
    while more == Returned(true)
      invariant list.Valid() && list.Contents == elements
      invariant e.Valid() && e.list == list && e.version == list.version
      invariant more.Returned? && (more.value <==> e.index >= 0) && e.index != -2
      invariant e.index >= 0 ==> e.index < |elements| && xs == elements[..e.index]
      invariant e.index == -1 ==> xs == elements
      decreases if e.index >= 0 then |elements| - e.index else 0
    {
      xs, more := Visit(e, elements, xs);
    }
  }

  /** One turn of the `foreach`: read `Current`, then `MoveNext()`. */
  method Visit<T(==)>(e: Enumerator<T>, ghost elements: seq<T>, xs: seq<T>) returns (xs': seq<T>, more: Outcome<bool>)
    requires e.Valid() && e.list.Valid() && e.list.Contents == elements && e.version == e.list.version
    requires 0 <= e.index < |elements| && xs == elements[..e.index]
    modifies e`index
    ensures e.Valid() && more.Returned? && (more.value <==> e.index >= 0) && e.index != -2
    ensures e.index >= 0 ==> e.index == old(e.index) + 1 && e.index < |elements| && xs' == elements[..e.index]
    ensures e.index == -1 ==> xs' == elements
  {
    var c := e.Current();
    PrefixGrows(elements, e.index);
    xs' := xs + [c.value];
    more := e.MoveNext();
  }

  /** Adds "H", "B", "O" and "T" to an empty list. */
  method AddFour(list: ArrayList<string>)
    requires list.Valid() && list.Contents == []
    modifies list
    ensures list.Valid() && list.Contents == ["H", "B", "O", "T"]
  {
    list.Add("H"); list.Add("B"); list.Add("O"); list.Add("T");
  }

  /** The last part of the test program: set index 0 to "A" and index 2
      to "D", then pop four times. */
  method SetAndPop(list: ArrayList<string>) returns (popped: seq<Result<string, None>>)
    requires list.Valid() && list.Contents == ["H", "B", "O", "T"]
    modifies list
    ensures list.Valid() && list.Contents == []
    ensures popped == [Result.Suceeded("T"), Result.Suceeded("D"), Result.Suceeded("B"),
                       Result.Suceeded("A")]
  {
    var _ := list.Set(0, "A");
    var _ := list.Set(2, "D");
    var a := list.PopBack();
    var b := list.PopBack();
    var c := list.PopBack();
    var d := list.PopBack();
    popped := [a, b, c, d];
  }

  /** The sequential part of the test program: add "H", "B", "O", "T",
      clear, add them again, enumerate, read every index, set index 0 to
      "A" and index 2 to "D", and pop four times. */
  method ProgramScenario() returns (visited: seq<string>, read: seq<Outcome<string>>,
                                    popped: seq<Result<string, None>>)
    ensures visited == ["H", "B", "O", "T"]
    ensures read == [Returned("H"), Returned("B"), Returned("O"), Returned("T")]
    ensures popped == [Result.Suceeded("T"), Result.Suceeded("D"), Result.Suceeded("B"),
                       Result.Suceeded("A")]
  {
    var list := new ArrayList<string>((a: string, b: string) => a == b);
    AddFour(list);
    list.Clear();
    AddFour(list);
    visited := Enumerate(list);
    read := [list.Get(0), list.Get(1), list.Get(2), list.Get(3)];
    popped := SetAndPop(list);
  }

  /** In ["H", "B", "O"], the first element equal to "O" is the last. */
  lemma LastMatches(eq: (string, string) -> bool, s: seq<string>, item: string)
    requires s == ["H", "B", "O"] && item == "O"
    requires forall a: string, b: string :: eq(a, b) == (a == b)
    ensures FirstMatch(eq, s, item) == 2
  {
    assert "O"[0] != "H"[0] && "O"[0] != "B"[0];
    assert !eq(item, s[0]) && !eq(item, s[1]) && eq(item, s[2]);
  }

  /** A new list with ordinal string equality holding "H", "B" and "O". */
  method NewList() returns (list: ArrayList<string>)
    ensures fresh(list) && list.Valid() && list.Contents == ["H", "B", "O"]
    ensures forall a: string, b: string :: list.comparer(a, b) == (a == b)
  {
    list := new ArrayList<string>((a: string, b: string) => a == b);
    list.Add("H"); list.Add("B"); list.Add("O");
  }

  /** `Remove` of the last element of ["H", "B", "O"], as written and
      corrected, and `Remove` of the only element of ["H"] as written. */
  method RemoveLastScenario() returns (asWritten: seq<string>, corrected: seq<string>,
                                       single: Outcome<bool>)
    ensures asWritten == ["H", "O"] && corrected == ["H", "B"]
    ensures single == Threw(ArgumentOutOfRange)
  {
    var list := NewList();
    LastMatches(list.comparer, list.Contents, "O");
    var _ := list.RemoveAsWritten("O");
    asWritten := Enumerate(list);
    list := NewList();
    LastMatches(list.comparer, list.Contents, "O");
    var _ := list.Remove("O");
    corrected := Enumerate(list);
    list := new ArrayList<string>((a: string, b: string) => a == b);
    list.Add("H");
    single := list.RemoveAsWritten("H");
  }
}
