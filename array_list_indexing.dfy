/** The index arithmetic of `ArrayList<T>`: bucket `b` has `8 * 2^b` slots,
    and element `k` lives in bucket `HighestBit(k + 8) - 3` at the offset left
    after clearing the highest set bit of `k + 8`. */
module ArrayListIndexing {

  const FirstBucketSize: int := 8
  const BucketCount: int := 29
  const IntMin: int := -0x8000_0000
  const IntMax: int := 0x7fff_ffff
  /** The largest index whose position `index + FirstBucketSize` fits an int. */
  const MaxIndex: int := IntMax - FirstBucketSize

  /** The value a C# `int` expression yields for the mathematical value `x`:
      `x` itself when it fits, else `x` shifted by a multiple of 2^32 into
      the int range. */
  function Wrap(x: int): (r: int)
    ensures IntMin <= r <= IntMax && (x - r) % 0x1_0000_0000 == 0
    ensures IntMin <= x <= IntMax ==> r == x
  {
    (x - IntMin) % 0x1_0000_0000 + IntMin
  }

  function Pow2(n: nat): (r: nat)
    ensures r >= 1
  {
    if n == 0 then 1 else 2 * Pow2(n - 1)
  }

  lemma {:induction false} Pow2Monotone(m: nat, n: nat)
    requires m <= n
    ensures Pow2(m) <= Pow2(n)
  {
    if m < n {
      Pow2Monotone(m, n - 1);
    }
  }

  lemma {:induction false} Pow2Add(a: nat, b: nat)
    ensures Pow2(a + b) == Pow2(a) * Pow2(b)
  {
    if b > 0 {
      Pow2Add(a, b - 1);
    }
  }

  lemma Pow2Of28()
    ensures Pow2(28) == 0x1000_0000
  {
    assert Pow2(4) == 16;
    Pow2Add(4, 4);
    Pow2Add(8, 8);
    Pow2Add(16, 8);
    Pow2Add(24, 4);
  }

  lemma Pow2Of31()
    ensures Pow2(31) == 0x8000_0000
  {
    Pow2Of28();
    Pow2Add(28, 3);
  }

  lemma Pow2Plus3(n: nat)
    ensures Pow2(n + 3) == 8 * Pow2(n)
  {
    calc {
      Pow2(n + 3);
      2 * Pow2(n + 2);
      2 * (2 * Pow2(n + 1));
      2 * (2 * (2 * Pow2(n)));
    }
  }

  /** The exponent of the highest power of two not above `n`, searched
      upwards from `r`. */
  function Log2From(n: nat, r: nat): (e: nat)
    requires Pow2(r) <= n
    ensures r <= e && Pow2(e) <= n < Pow2(e + 1)
    decreases n - Pow2(r)
  {
    if n < Pow2(r + 1) then r else Log2From(n, r + 1)
  }

  /** The exponent of the highest power of two not above `n`. */
  function Log2(n: nat): (r: nat)
    requires n >= 1
    ensures Pow2(r) <= n < Pow2(r + 1)
  {
    Log2From(n, 0)
  }

  lemma {:induction false} Log2FromUnique(n: nat, s: nat, r: nat)
    requires s <= r && Pow2(s) <= Pow2(r) <= n < Pow2(r + 1)
    ensures Log2From(n, s) == r
    decreases r - s
  {
    if s < r {
      Pow2Monotone(s + 1, r);
      Log2FromUnique(n, s + 1, r);
    }
  }

  /** The exponent is the only one that brackets `n`. */
  lemma Log2Unique(n: nat, r: nat)
    requires 1 <= n && Pow2(r) <= n < Pow2(r + 1)
    ensures Log2(n) == r
  {
    Pow2Monotone(0, r);
    Log2FromUnique(n, 0, r);
  }

  /** `HighestBit(num)`, that is `31 - LeadingZeroCount((uint)num)` on a
      32-bit int: -1 for zero, 31 for a negative number, else the index of
      the highest set bit. */
  function HighestBit(num: int): (r: int)
    requires IntMin <= num <= IntMax
    ensures num == 0 ==> r == -1
    ensures num < 0 ==> r == 31
    ensures num > 0 ==> 0 <= r <= 30 && Pow2(r) <= num < Pow2(r + 1)
  {
    if num < 0 then 31
    else if num == 0 then -1
    else
      var r := Log2(num);
      Pow2Of31();
      assert r <= 30 by {
        if r > 30 { Pow2Monotone(31, r); }
      }
      r
  }

  /** The slot count of bucket `b`, `FIRST_BUCKET_SIZE * (1 << b)`. */
  function BucketSize(b: nat): (n: nat)
    ensures n == FirstBucketSize * Pow2(b)
  {
    FirstBucketSize * Pow2(b)
  }

  /** No bucket at or above the last one starts at or below `index + 8`. */
  lemma BelowLastBucket(index: int, b: nat)
    requires 0 <= index <= MaxIndex && BucketSize(b) <= index + FirstBucketSize
    ensures b < BucketCount - 1
  {
    if b >= BucketCount - 1 {
      Pow2Monotone(BucketCount - 1, b);
      Pow2Of28();
    }
  }

  /** The bucket that holds index `index`, searched upwards from bucket `b`:
      the one whose size `s` satisfies `s <= index + 8 < 2 * s`. */
  function BucketFrom(index: int, b: nat): (r: int)
    requires 0 <= index <= MaxIndex && BucketSize(b) <= index + FirstBucketSize
    ensures b <= r < BucketCount - 1
    ensures BucketSize(r) <= index + FirstBucketSize < BucketSize(r + 1)
    decreases BucketCount - b
  {
    BelowLastBucket(index, b);
    if index + FirstBucketSize < BucketSize(b + 1) then b
    else BucketFrom(index, b + 1)
  }

  /** The bucket that holds index `index`. */
  function BucketOf(index: int): (b: int)
    requires 0 <= index <= MaxIndex
    ensures 0 <= b < BucketCount - 1
    ensures BucketSize(b) <= index + FirstBucketSize < BucketSize(b + 1)
  {
    BucketFrom(index, 0)
  }

  /** The offset of index `index` inside its bucket. */
  function OffsetOf(index: int): (off: int)
    requires 0 <= index <= MaxIndex
    ensures 0 <= off < BucketSize(BucketOf(index))
    ensures index == BucketSize(BucketOf(index)) - FirstBucketSize + off
  {
    index + FirstBucketSize - BucketSize(BucketOf(index))
  }

  /** A bucket whose size brackets `index + 8` is the bucket of `index`. */
  lemma BucketUnique(index: int, b: nat)
    requires 0 <= index <= MaxIndex
    requires BucketSize(b) <= index + FirstBucketSize < BucketSize(b + 1)
    ensures BucketOf(index) == b
  {
    var c := BucketOf(index);
    if c < b {
      Pow2Monotone(c + 1, b);
    } else if b < c {
      Pow2Monotone(b + 1, c);
    }
  }

  /** `At(index)` in the source's terms: the bucket is
      `HighestBit(index + 8) - HighestBit(8)` and the offset is `index + 8`
      with its highest set bit cleared. */
  lemma HighestBitLocates(index: int)
    requires 0 <= index <= MaxIndex
    ensures HighestBit(FirstBucketSize) == 3
    ensures HighestBit(index + FirstBucketSize) - HighestBit(FirstBucketSize) == BucketOf(index)
    ensures index + FirstBucketSize - Pow2(HighestBit(index + FirstBucketSize)) == OffsetOf(index)
  {
    var b := BucketOf(index);
    Pow2Plus3(b);
    Pow2Plus3(b + 1);
    Log2Unique(index + FirstBucketSize, b + 3);
    Log2Unique(8, 3);
  }

  /** The bucket that holds the element before index `count`, as `Reserve`
      and `Reduce` compute it from `count + 7`: below bucket 0 when there is
      none. */
  lemma LastBucket(count: int)
    requires 1 - FirstBucketSize <= count <= MaxIndex + 1
    ensures HighestBit(FirstBucketSize) == 3
    ensures count <= 0 ==> HighestBit(count + FirstBucketSize - 1) - HighestBit(FirstBucketSize) < 0
    ensures count == 0 ==> HighestBit(count + FirstBucketSize - 1) == 2
    ensures count > 0 ==>
      HighestBit(count + FirstBucketSize - 1) - HighestBit(FirstBucketSize) == BucketOf(count - 1)
  {
    Log2Unique(8, 3);
    Log2Unique(7, 2);
    if count > 0 {
      HighestBitLocates(count - 1);
    } else if count + FirstBucketSize - 1 > 0 {
      var h := HighestBit(count + FirstBucketSize - 1);
      if h >= 3 {
        Pow2Monotone(3, h);
      }
    }
  }

  /** The loop bounds of `Reserve`: it starts from the bucket of the last
      element (or 0), which is present, and stops at the bucket of index
      `size - 1`, which is below the last bucket. */
  lemma ReserveBounds(count: int, size: int, n: nat)
    requires 0 <= count <= MaxIndex + 1 && count <= Capacity(n) && 1 <= n
    requires 1 - FirstBucketSize <= size <= MaxIndex + 1
    ensures HighestBit(count + FirstBucketSize - 1) - HighestBit(FirstBucketSize) < n
    ensures HighestBit(size + FirstBucketSize - 1) - HighestBit(FirstBucketSize) < BucketCount - 1
  {
    LastBucket(count);
    if count > 0 {
      SlotOf(count - 1, n);
    }
    LastBucket(size);
  }

  /** `Reserve` with a size below `1 - FirstBucketSize` or one whose
      `size + FirstBucketSize - 1` overflows: the position is negative, so
      the loop runs to bucket `BucketCount - 1`, whose slot count
      `8 * (1 << 28)` overflows to a negative int. */
  lemma ReserveOverflows(size: int)
    requires IntMin <= size <= IntMax
    requires !(1 - FirstBucketSize <= size <= MaxIndex + 1)
    ensures Wrap(size + FirstBucketSize - 1) < 0
    ensures HighestBit(Wrap(size + FirstBucketSize - 1)) - HighestBit(FirstBucketSize) == BucketCount - 1
    ensures Wrap(BucketSize(BucketCount - 1)) == IntMin
  {
    Pow2Of28();
    HighestBitLocates(0);
    var x := size + FirstBucketSize - 1;
    if x > IntMax {
      assert Wrap(x) == x - 0x1_0000_0000 by {
        assert 0 <= x - 0x1_0000_0000 - IntMin < 0x1_0000_0000;
      }
    }
    assert Wrap(0x8000_0000) == IntMin by {
      assert (0x8000_0000 - IntMin) % 0x1_0000_0000 == 0;
    }
  }

  /** Once the buckets up to the one `Reserve` stops at are present, index
      `size - 1` has a slot. */
  lemma ReserveCovers(size: int, n: nat)
    requires 1 - FirstBucketSize <= size <= MaxIndex + 1
    requires HighestBit(size + FirstBucketSize - 1) - HighestBit(FirstBucketSize) < n
    ensures size <= Capacity(n)
  {
    LastBucket(size);
    if size > 0 {
      SlotOf(size - 1, n);
    }
  }

  /** `Reduce` keeps the buckets below two past the bucket of the last
      element's position: at least one, and enough for every element. */
  lemma ReduceKeeps(count: int, keep: int)
    requires 0 <= count <= MaxIndex + 1
    requires keep == HighestBit(count + FirstBucketSize - 1) - HighestBit(FirstBucketSize) + 2
    ensures 1 <= keep && count <= Capacity(keep)
  {
    LastBucket(count);
    if count > 0 {
      SlotOf(count - 1, keep);
    }
  }

  /** No more buckets than `Reduce` keeps hold at most four times the
      elements' positions. */
  lemma ReduceBound(count: int, keep: int, n: nat)
    requires 0 <= count <= MaxIndex + 1
    requires keep == HighestBit(count + FirstBucketSize - 1) - HighestBit(FirstBucketSize) + 2
    requires n <= keep
    ensures Capacity(n) <= 4 * (count + FirstBucketSize - 1)
  {
    LastBucket(count);
    CapacityBound(n, HighestBit(count + FirstBucketSize - 1));
  }

  /** The next index lies in the same bucket or the one after it. */
  lemma BucketStep(i: int)
    requires 0 <= i < MaxIndex
    ensures BucketOf(i) <= BucketOf(i + 1) <= BucketOf(i) + 1
  {
    BucketMonotone(i, i + 1);
    var b, c := BucketOf(i), BucketOf(i + 1);
    if c > b + 1 {
      Pow2Monotone(b + 2, c);
    }
  }

  /** Every slot of every bucket below the last is the home of exactly the
      index `BucketSize(b) - 8 + off`. */
  lemma {:induction false} LocationRoundTrip(b: nat, off: nat)
    requires b < BucketCount - 1 && off < BucketSize(b)
    ensures 0 <= BucketSize(b) - FirstBucketSize + off <= MaxIndex
    ensures BucketOf(BucketSize(b) - FirstBucketSize + off) == b
    ensures OffsetOf(BucketSize(b) - FirstBucketSize + off) == off
  {
    var index := BucketSize(b) - FirstBucketSize + off;
    Pow2Monotone(b + 1, BucketCount - 1);
    Pow2Of28();
    BucketUnique(index, b);
  }

  /** Later indices never live in earlier buckets. */
  lemma BucketMonotone(i: int, j: int)
    requires 0 <= i <= j <= MaxIndex
    ensures BucketOf(i) <= BucketOf(j)
  {
    if BucketOf(i) > BucketOf(j) {
      Pow2Monotone(BucketOf(j) + 1, BucketOf(i));
    }
  }

  /** The slots of buckets `0 .. n-1` together. */
  function Capacity(n: nat): (c: nat)
  {
    if n == 0 then 0 else Capacity(n - 1) + BucketSize(n - 1)
  }

  /** The buckets below `n` hold `8 * (2^n - 1)` slots: exactly the indices
      below `BucketSize(n) - 8`. */
  lemma {:induction false} CapacityClosedForm(n: nat)
    ensures Capacity(n) == BucketSize(n) - FirstBucketSize
  {
    if n > 0 {
      CapacityClosedForm(n - 1);
    }
  }

  /** Capacity grows with the number of buckets. */
  lemma CapacityMonotone(m: nat, n: nat)
    requires m <= n
    ensures Capacity(m) <= Capacity(n)
  {
    CapacityClosedForm(m);
    CapacityClosedForm(n);
    Pow2Monotone(m, n);
  }

  /** Each bucket below `n` ends within the first `n` buckets. */
  lemma CapacityPrefix(n: nat)
    ensures forall b :: 0 <= b < n ==> Capacity(b) + BucketSize(b) <= Capacity(n)
  {
    forall b | 0 <= b < n
      ensures Capacity(b) + BucketSize(b) <= Capacity(n)
    {
      CapacityMonotone(b + 1, n);
    }
  }

  /** Index `index` is slot `OffsetOf(index)` after the `Capacity(BucketOf(index))`
      slots of the buckets below its own, so it lies in the first `n` buckets
      exactly when its bucket is one of them. */
  lemma SlotOf(index: int, n: nat)
    requires 0 <= index <= MaxIndex
    ensures Capacity(BucketOf(index)) + OffsetOf(index) == index
    ensures BucketOf(index) < n <==> index < Capacity(n)
  {
    var b := BucketOf(index);
    CapacityClosedForm(b);
    CapacityClosedForm(b + 1);
    if b < n {
      CapacityMonotone(b + 1, n);
    } else {
      CapacityMonotone(n, b);
    }
  }

  /** The first index past `n` buckets lives in bucket `n`. */
  lemma NextBucket(n: nat)
    requires n < BucketCount - 1
    ensures 0 <= Capacity(n) <= MaxIndex && BucketOf(Capacity(n)) == n
  {
    CapacityClosedForm(n);
    Pow2Monotone(n + 1, BucketCount - 1);
    Pow2Of28();
    BucketUnique(Capacity(n), n);
  }

  /** The bound `Reduce` leaves: buckets below `hibit - 1` hold at most four
      times `2^hibit` slots. */
  lemma CapacityBound(n: nat, hibit: int)
    requires 1 <= hibit && n <= hibit - 1
    ensures Capacity(n) <= 4 * Pow2(hibit)
  {
    CapacityMonotone(n, hibit - 1);
    CapacityClosedForm(hibit - 1);
  }
}
