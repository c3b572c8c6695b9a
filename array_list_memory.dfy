/** The bucket table `memory` of an `ArrayList<T>`, as a value: 29 places,
    place `b` empty or holding a bucket of `8 * 2^b` slots, and `At`, the
    place where element `index` lives. */
module ArrayListMemory {
  import opened Common
  import opened ArrayListIndexing

  type Memory<T> = seq<Nullable<seq<Nullable<T>>>>

  /** 29 places, every bucket present of its size. */
  predicate WellShaped<T>(m: Memory<T>)
  {
    |m| == BucketCount &&
    forall b :: 0 <= b < BucketCount && m[b].Ref? ==> |m[b].target| == BucketSize(b)
  }

  /** Exactly the buckets `0 .. n-1` are present. */
  predicate AllocatedBelow<T>(m: Memory<T>, n: int)
  {
    |m| == BucketCount && forall b :: 0 <= b < BucketCount ==> (m[b].Ref? <==> b < n)
  }

  /** `At(index)`: in bucket `HighestBit(index + 8) - HighestBit(8)`, the
      slot `index + 8` with its highest bit cleared (the XOR with
      `1 << hibit`, which is subtraction since that bit is set), or
      `ArgumentOutOfRangeException` when the bucket is missing. The result
      is the slot at offset `OffsetOf(index)` of bucket `BucketOf(index)`. */
  function At<T>(m: Memory<T>, index: int): (r: Outcome<Nullable<T>>)
    requires WellShaped(m) && 0 <= index <= MaxIndex
    ensures r == if m[BucketOf(index)].Null? then Threw(ArgumentOutOfRange)
                 else Returned(m[BucketOf(index)].target[OffsetOf(index)])
  {
    var pos := index + FirstBucketSize;
    var hibit := HighestBit(pos);
    HighestBitLocates(index);
    var idx := pos - Pow2(hibit);
    var bucket := m[hibit - HighestBit(FirstBucketSize)];
    if bucket.Null? then Threw(ArgumentOutOfRange) else Returned(bucket.target[idx])
  }

  /** With the buckets `0 .. n-1` present, `At` finds a slot exactly for
      the indices below the capacity of those buckets. */
  lemma AtInRange<T>(m: Memory<T>, n: nat, index: int)
    requires WellShaped(m) && AllocatedBelow(m, n) && 0 <= index <= MaxIndex
    ensures At(m, index).Returned? <==> index < Capacity(n)
    ensures m[BucketOf(index)].Ref? <==> index < Capacity(n)
  {
    SlotOf(index, n);
  }

  /** With the buckets `0 .. n-1` present and `index` at most their
      capacity, a missing bucket for `index` is bucket `n`, the next one. */
  lemma MissingIsNext<T>(m: Memory<T>, n: nat, index: int)
    requires WellShaped(m) && AllocatedBelow(m, n) && 0 <= index <= MaxIndex
    requires index <= Capacity(n) && m[BucketOf(index)].Null?
    ensures BucketOf(index) == n < BucketCount - 1
  {
    SlotOf(index, n);
    NextBucket(n);
  }

  /** The store `At(index) = x` through the reference `At` returns: slot
      `index` becomes `x` and every other index keeps its slot. */
  function Write<T>(m: Memory<T>, index: int, x: Nullable<T>): (r: Memory<T>)
    requires WellShaped(m) && 0 <= index <= MaxIndex && m[BucketOf(index)].Ref?
    ensures WellShaped(r)
    ensures forall b :: 0 <= b < BucketCount ==> (r[b].Ref? <==> m[b].Ref?)
    ensures At(r, index) == Returned(x)
    ensures forall j :: 0 <= j <= MaxIndex && j != index ==> At(r, j) == At(m, j)
  {
    var b := BucketOf(index);
    m[b := Ref(m[b].target[OffsetOf(index) := x])]
  }

  /** Element `i` of `c` sits in the slot `At(i)` of `m`, for every `i`. */
  ghost predicate Holds<T>(m: Memory<T>, c: seq<T>)
  {
    WellShaped(m) && |c| <= MaxIndex + 1 &&
    forall i {:trigger At(m, i)} :: 0 <= i < |c| ==> At(m, i) == Returned(Ref(c[i]))
  }

  /** Writing `x` at the slot after the last element holds one more
      element. */
  lemma HoldsAppend<T>(m: Memory<T>, c: seq<T>, x: T)
    requires Holds(m, c) && |c| <= MaxIndex && m[BucketOf(|c|)].Ref?
    ensures Holds(Write(m, |c|, Ref(x)), c + [x])
  {
    var m' := Write(m, |c|, Ref(x));
    forall i | 0 <= i < |c| + 1
      ensures At(m', i) == Returned(Ref((c + [x])[i]))
    {
      if i < |c| {
        assert At(m', i) == At(m, i);
      }
    }
  }

  /** Writing `x` at the slot of element `index` replaces that element. */
  lemma HoldsUpdate<T>(m: Memory<T>, c: seq<T>, index: int, x: T)
    requires Holds(m, c) && 0 <= index < |c| && m[BucketOf(index)].Ref?
    ensures Holds(Write(m, index, Ref(x)), c[index := x])
  {
    var m' := Write(m, index, Ref(x));
    forall i | 0 <= i < |c|
      ensures At(m', i) == Returned(Ref(c[index := x][i]))
    {
      if i != index {
        assert At(m', i) == At(m, i);
      }
    }
  }

  /** A memory that holds `c` holds every prefix of it. */
  lemma HoldsPrefix<T>(m: Memory<T>, c: seq<T>, n: nat)
    requires Holds(m, c) && n <= |c|
    ensures Holds(m, c[..n])
  {
    forall i | 0 <= i < n
      ensures At(m, i) == Returned(Ref(c[..n][i]))
    {
      assert At(m, i) == Returned(Ref(c[i]));
    }
  }

  /** Memories that agree on the buckets below `n` agree on every index
      below `Capacity(n)`, and so hold the same elements there. */
  lemma AgreeBelow<T>(m: Memory<T>, m': Memory<T>, n: nat, c: seq<T>)
    requires Holds(m, c) && WellShaped(m') && |c| <= Capacity(n)
    requires forall b :: 0 <= b < n && b < BucketCount ==> m'[b] == m[b]
    ensures forall j :: 0 <= j <= MaxIndex && j < Capacity(n) ==> At(m', j) == At(m, j)
    ensures Holds(m', c)
  {
    forall j | 0 <= j <= MaxIndex && j < Capacity(n)
      ensures At(m', j) == At(m, j)
    {
      SlotOf(j, n);
    }
  }

  /** The capacity of the buckets that fit in the table is within the index
      range. */
  lemma CapacityFits(n: nat)
    requires n < BucketCount
    ensures Capacity(n) <= MaxIndex + 1
  {
    CapacityClosedForm(n);
    Pow2Monotone(n, BucketCount - 1);
    Pow2Of28();
  }
}
