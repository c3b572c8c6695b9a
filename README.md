# ParallelNet collections, sequential model

This project models the sequential behaviour of the collections in the C#
library ParallelNet, and the two result carriers they return:

- `SortedDictionary<K, V>`, a red-black tree with null leaves;
- `ArrayList<T>`, a vector kept in 29 buckets of doubling size;
- `Stack<T>`, a Treiber stack;
- `Queue<T>`, a Michael–Scott queue with a sentinel head;
- `Result<Success, Failure>` and `Option<T>`.

Run on one thread, every compare-and-swap loop of the library succeeds on its
first pass. Each operation is then a plain state transition, and that is what
the model describes.

Modules and files:

- `common.dfy`:
  - the exceptions the library throws;
  - `Outcome<T>`, a call that returns a value or throws;
  - `Nullable<T>`, a reference slot that may be null;
  - the unit value `None`.
- `results.dfy`, `options.dfy`: the `Result` and `Option` structs as datatypes. Their accessors return an `Outcome`.
- `stack.dfy`, `queue.dfy`:
  - The collections are classes over linked `Node` objects.
  - A ghost `nodes` sequence holds the chain from `head`, and `Contents` holds the values on it.
  - Each enumerator is a class that keeps the spine it started from.
  - `history` records the spine at every version. With it, `MoveNext` and `Reset` can tell whether the collection has been revised, and fail fast when it has.
- `array_list_indexing.dfy`: the index arithmetic.
  - `HighestBit`, the bucket sizes `8 * 2^b`, and the map from an index to a (bucket, offset) pair.
  - That map inverts cleanly: each index has exactly one (bucket, offset) pair, and the pair gives back the index.
- `array_list_memory.dfy`:
  - the 29-place bucket table as a value;
  - `At`, the slot of an index;
  - `Write`, a store into that slot;
  - `Holds`, which says that a table stores a sequence of elements.
- `array_list.dfy`:
  - `ArrayList` is a class holding the bucket table, the descriptor `{count, writeOp}` and `version`.
  - Its methods have the loops of the source.
  - Its enumerator is a class with an index cursor.
- `red_black_tree.dfy`: the tree as a datatype, its in-order `Pairs`, the comparer as a total order, and the rotations.
- `tree_zipper.dfy`: a node of the tree together with the path from the root down to it. This zipper stands in for a `Node` reference with its `parent` link.
- `red_black_fixup.dfy`: the rotations as the source performs them, including their "Unexpected error" throw. Also the single steps of `InsertFixup` and `DeleteFixup`.
- `sorted_dictionary.dfy`:
  - The `SortedDictionary` class holds `root`, `count` and `version`.
  - Its methods are the source's loops: the descent of `Add` and `Remove`, `InsertFixup`, `Delete`, `DeleteFixup`, `Successor`, `MinValue`, and the explicit-stack `Inorder`.

## Model

| member | source | states |
|---|---|---|
| Results.Result.Suceeded | ParallelNet/Common/Result.cs:48-51 | The result has type `Success`; `ResultValue` returns the value and `ErrorValue` throws `InvalidOperationException`. |
| Results.Result.Failed | ParallelNet/Common/Result.cs:58-61 | The result has type `Failure`; `ErrorValue` returns the error and `ResultValue` throws `InvalidOperationException`. |
| Results.Result.ResultType | ParallelNet/Common/Result.cs:66 | The type is `Success` exactly for a success. |
| Results.Result.ResultValue | ParallelNet/Common/Result.cs:72-81 | It throws exactly when the type is `Failure`, and the exception is `InvalidOperationException`. |
| Results.Result.ErrorValue | ParallelNet/Common/Result.cs:87-96 | It throws exactly when the type is `Success`, and the exception is `InvalidOperationException`. |
| Results.Result.FromSuccess | ParallelNet/Common/Result.cs:98 | The implicit conversion from a success value equals `Suceeded` of it. |
| Results.Result.FromFailure | ParallelNet/Common/Result.cs:99 | The explicit conversion from an error equals `Failed` of it. |
| Results.AccessorsRebuild | ParallelNet/Common/Result.cs:72-96 | Exactly one of the two accessors returns. The result is `Suceeded` or `Failed` of the value that accessor returns. |
| Options.Option.Some | ParallelNet/Common/Option.cs:45-48 | Status is `Some` and `Value` returns the value. |
| Options.Option.None | ParallelNet/Common/Option.cs:54-57 | Status is `None` and `Value` throws `InvalidOperationException`. |
| Options.Option.OptionStatus | ParallelNet/Common/Option.cs:62 | Status is `Some` exactly for a present value. |
| Options.Option.Value | ParallelNet/Common/Option.cs:68-75 | It throws exactly when the status is `None`, and the exception is `InvalidOperationException`. |
| Options.Option.FromValue | ParallelNet/Common/Option.cs:79 | The implicit conversion from `T` equals `Some`. |
| Options.StatusAndValueDetermine | ParallelNet/Common/Option.cs:62-75 | Two options with the same status and the same `Value` outcome are equal. |
| Stacks.Node.constructor | ParallelNet/Collection/Stack.cs:23-27 | The node holds the given data and next link. |
| Stacks.Stack.constructor | ParallelNet/Collection/Stack.cs:37-42 | Empty stack, count 0, version 0. |
| Stacks.Stack.Push | ParallelNet/Collection/Stack.cs:48-65 | A fresh node holding `v` becomes the top, linked to the old chain, which is unchanged. Count and version each rise by one. |
| Stacks.Stack.Pop | ParallelNet/Collection/Stack.cs:71-92 | Empty stack: the `None` failure, with nothing changed. Otherwise: the top value is returned, its successor becomes the head, count falls by one and version rises by one. |
| Stacks.Stack.Peek | ParallelNet/Collection/Stack.cs:98-106 | The top value, or the `None` failure when the stack is empty. Nothing is changed. |
| Stacks.Stack.Empty | ParallelNet/Collection/Stack.cs:111-120 | True exactly when `Count` is 0, that is, when no element is stored. |
| Stacks.Stack.Count | ParallelNet/Collection/Stack.cs:130 | `count` equals the length of the chain from `head`. |
| Stacks.Stack.Clear | ParallelNet/Collection/Stack.cs:125-128 | Pops until failure: the stack ends empty with count 0, and version rises once per popped element. |
| Stacks.Enumerator.constructor | ParallelNet/Collection/Stack.cs:149-155 | Not started; it keeps the stack's elements and version. |
| Stacks.Enumerator.Current | ParallelNet/Collection/Stack.cs:157-168 | It throws `InvalidOperationException` before the first `MoveNext` and after the end; otherwise it returns the element at the cursor. |
| Stacks.Enumerator.Dispose | ParallelNet/Collection/Stack.cs:172-175 | The enumerator is back to not started. |
| Stacks.Enumerator.MoveNext | ParallelNet/Collection/Stack.cs:177-198 | It throws if the stack was revised, leaving the enumerator unchanged. Otherwise the first call moves to the top; later calls move one node down and stop at the end. It returns whether the cursor is on an element. |
| Stacks.Enumerator.Reset | ParallelNet/Collection/Stack.cs:200-207 | It throws if the stack was revised; otherwise the enumerator is back to not started. |
| Stacks.Enumerate | ParallelNet/Collection/Stack.cs:149-198 | A full enumeration yields the elements top to bottom, exactly the stack's contents. |
| Stacks.PushPopScenario | ParallelNet/Collection/Stack.cs:48-92 | Pushing 1, 2, 3, 4 and popping five times gives 4, 3, 2, 1 and then the `None` failure. |
| Queues.Node.constructor | ParallelNet/Collection/Queue.cs:18-22 | The node holds the given data and a null next link. |
| Queues.Queue.constructor | ParallelNet/Collection/Queue.cs:34-44 | `head == tail` is a single fresh sentinel with `None` data and null `next`. Count 0, version 0. |
| Queues.Queue.Count | ParallelNet/Collection/Queue.cs:29 | `count` equals the number of nodes after the sentinel. |
| Queues.Queue.Enqueue | ParallelNet/Collection/Queue.cs:50-84 | A fresh `Some(v)` node is linked after the old tail, and `tail` advances to it. The value is appended to the contents. `head` is unchanged; count and version each rise by one. |
| Queues.Queue.Dequeue | ParallelNet/Collection/Queue.cs:90-117 | `head.next` null: the `None` failure, with nothing changed. Otherwise: `head.next` becomes the sentinel and its payload, the front element, is returned. Count falls by one and version rises by one. |
| Queues.Queue.Clear | ParallelNet/Collection/Queue.cs:122-128 | `head.next` is null, `tail == head`, count is 0 and version rises by one. |
| Queues.Enumerator.constructor | ParallelNet/Collection/Queue.cs:146-151 | The cursor is at `head`; it keeps the queue's elements and version. |
| Queues.Enumerator.CurrentAsWritten | ParallelNet/Collection/Queue.cs:153-164 | The source's test. At the end it throws. At the sentinel it throws only when the sentinel's data is `None`. On a later node it returns that node's element. |
| Queues.Enumerator.Current | ParallelNet/Collection/Queue.cs:153-164 | Corrected: it throws at the sentinel and past the end. On the k-th node after the sentinel it returns the k-th element. |
| Queues.Enumerator.MoveNext | ParallelNet/Collection/Queue.cs:168-180 | It throws if the queue was revised, leaving the enumerator unchanged. Otherwise the cursor moves one node on and stops at the end; it returns whether the cursor is on an element. |
| Queues.Enumerator.Reset | ParallelNet/Collection/Queue.cs:182-188 | It throws if the queue was revised; otherwise the cursor returns to `head`. |
| Queues.Enumerator.Dispose | ParallelNet/Collection/Queue.cs:190-193 | The cursor returns to `head`. |
| Queues.Enumerate | ParallelNet/Collection/Queue.cs:146-180 | A full enumeration yields the elements front to back, exactly the queue's contents. |
| Queues.EnqueueDequeueScenario | ParallelNet/Collection/Queue.cs:50-117 | Enqueueing 1, 2, 3, 4 and dequeueing five times gives 1, 2, 3, 4 and then the `None` failure. |
| Queues.StaleSentinelScenario | ParallelNet/Collection/Queue.cs:110-115 | Enqueue 1, then dequeue it. On a new enumerator of the now empty queue, the as-written `Current` returns 1, where the corrected one throws. |
| ArrayListIndexing.HighestBit | ParallelNet/Collection/ArrayList.cs:107-110 | `31 - LeadingZeroCount((uint)num)`: -1 for 0, 31 for a negative number. Otherwise the exponent of the highest power of two not above `num`. |
| ArrayListIndexing.BucketSize | ParallelNet/Collection/ArrayList.cs:94 | Bucket `b` has `8 * 2^b` slots. |
| ArrayListIndexing.BucketOf | ParallelNet/Collection/ArrayList.cs:130-136 | The bucket of index `k` is below 28, and `k + 8` lies in `[size(b), size(b+1))`. |
| ArrayListIndexing.OffsetOf | ParallelNet/Collection/ArrayList.cs:130-136 | The offset is below that bucket's size. The index is recovered from (bucket, offset), so distinct indices have distinct places. |
| ArrayListIndexing.HighestBitLocates | ParallelNet/Collection/ArrayList.cs:130-136 | For every index, `HighestBit(k+8) - HighestBit(8)` is its bucket, and `(k+8)` with its top bit cleared is its offset. |
| ArrayListIndexing.LocationRoundTrip | ParallelNet/Collection/ArrayList.cs:130-136 | Every (bucket, offset) inside a bucket is the place of exactly one index, so the map from indices to places is a bijection. |
| ArrayListIndexing.SlotOf | ParallelNet/Collection/ArrayList.cs:130-136 | An index is the capacity of the buckets below its own plus its offset. Its bucket is among the first `n` exactly when it is below their capacity. |
| ArrayListIndexing.LastBucket | ParallelNet/Collection/ArrayList.cs:118-119 | `HighestBit(count + 7) - 3` is the bucket of the last element, and negative for an empty list. |
| ArrayListIndexing.Wrap | ParallelNet/Collection/ArrayList.cs:123 | The value of a C# `int` expression: the exact value when it fits, and otherwise that value shifted by a multiple of `2^32` into the `int` range. |
| ArrayListIndexing.ReserveOverflows | ParallelNet/Collection/ArrayList.cs:123-127 | For a size outside -7 to `2^31 - 8`, `size + 7` is a negative `int`, so `Reserve`'s loop bound is bucket 28. That bucket's size `8 * (1 << 28)`, computed on line 94, is `int.MinValue`. |
| ArrayListIndexing.ReserveCovers | ParallelNet/Collection/ArrayList.cs:123-127 | Once buckets through `HighestBit(size + 7) - 3` exist, the capacity covers `size` elements. |
| ArrayListIndexing.ReduceKeeps | ParallelNet/Collection/ArrayList.cs:274-276 | The buckets below `HighestBit(Count + 7) - 3 + 2` hold all of the elements. |
| ArrayListIndexing.ReduceBound | ParallelNet/Collection/ArrayList.cs:274-276 | Those buckets hold at most `4 * (Count + 7)` slots. |
| ArrayListMemory.At | ParallelNet/Collection/ArrayList.cs:130-136 | The slot of `index` in its bucket, or `ArgumentOutOfRangeException` when that bucket is missing. |
| ArrayListMemory.AtInRange | ParallelNet/Collection/ArrayList.cs:130-136 | With buckets `0..n-1` present, `At` returns exactly for the indices below their capacity. |
| ArrayListMemory.Write | ParallelNet/Collection/ArrayList.cs:143 | Storing into the slot of `index` changes that slot and no other, and allocates or frees no bucket. |
| ArrayListMemory.HoldsAppend | ParallelNet/Collection/ArrayList.cs:198-212 | Writing `x` at index `Count` stores the sequence extended by `x`. |
| ArrayListMemory.HoldsUpdate | ParallelNet/Collection/ArrayList.cs:158-165 | Writing `x` at an index below `Count` stores the sequence with that element replaced. |
| ArrayLists.ArrayList.constructor | ParallelNet/Collection/ArrayList.cs:74-90 | No element, version 0, no pending write. Bucket 0 is present and cleared; no other bucket is. |
| ArrayLists.ArrayList.AllocateBucket | ParallelNet/Collection/ArrayList.cs:92-105 | A cleared bucket is installed only where the place was empty. A present bucket is left as it was, and the contents are unchanged. |
| ArrayLists.ArrayList.Reserve | ParallelNet/Collection/ArrayList.cs:116-128 | For a size from -7 to `2^31 - 8`, afterwards there is room for `size` elements. Any other `int` size makes `size + 7` negative: buckets up to 27 are allocated, and then it throws `ArgumentOutOfRangeException`. No bucket is lost, and the contents and count are unchanged. |
| ArrayLists.ArrayList.CompleteWrite | ParallelNet/Collection/ArrayList.cs:138-147 | No write pending: nothing changes. Pending: the slot is set to the new value only if it still holds the old one; version rises by one and the write is no longer pending. |
| ArrayLists.ArrayList.Count | ParallelNet/Collection/ArrayList.cs:168-181 | The count of the descriptor, less one while a write is pending: the number of elements. |
| ArrayLists.ArrayList.Get | ParallelNet/Collection/ArrayList.cs:151-157 | It throws `ArgumentOutOfRangeException` exactly when `index < 0 \|\| index >= Count`; otherwise it returns element `index`. |
| ArrayLists.ArrayList.Set | ParallelNet/Collection/ArrayList.cs:158-165 | It throws exactly out of range, changing nothing. Otherwise it changes element `index` only, and version rises by one. |
| ArrayLists.ArrayList.EnsureBucket | ParallelNet/Collection/ArrayList.cs:194-196 | The bucket for index `Count` exists afterwards; the contents are unchanged. |
| ArrayLists.ArrayList.Add | ParallelNet/Collection/ArrayList.cs:185-213 | The item is appended, earlier elements are unchanged, no write is left pending, and version rises by one. |
| ArrayLists.ArrayList.PopBack | ParallelNet/Collection/ArrayList.cs:219-244 | Empty: the `None` failure, with nothing changed. Otherwise: the last element is returned and removed, and version rises by one. |
| ArrayLists.ArrayList.Clear | ParallelNet/Collection/ArrayList.cs:248-266 | No element, and bucket 0 is present and cleared. The loop returns buckets from bucket 1 up to the first missing one. Buckets are only ever allocated in order, so that is all the buckets after bucket 0. Version rises by one. |
| ArrayLists.ArrayList.Reduce | ParallelNet/Collection/ArrayList.cs:272-286 | The contents are unchanged, and no bucket is allocated. The buckets left hold at most `4 * (Count + 7)` slots. |
| ArrayLists.ArrayList.Contains | ParallelNet/Collection/ArrayList.cs:288-300 | True exactly when some element is comparer-equal to the item. |
| ArrayLists.FirstMatch | ParallelNet/Collection/ArrayList.cs:321-333 | The least index of a comparer-equal element, or -1 exactly when there is none. |
| ArrayLists.ArrayList.IndexOf | ParallelNet/Collection/ArrayList.cs:321-333 | The least index whose element is comparer-equal to the item, or -1. |
| ArrayLists.ArrayList.Insert | ParallelNet/Collection/ArrayList.cs:337-348 | Out of `0..Count` it throws `ArgumentOutOfRangeException`, changing nothing. Otherwise the item is at `index`, and the later elements shift right by one. Version rises by `Count - index + 2`: one for the `Add`, and one for each store. |
| ArrayLists.ArrayList.ShiftUpTo | ParallelNet/Collection/ArrayList.cs:343-347 | The copy loop and the final store put the item at `index` over the shifted elements. Each of these stores moves the version by one. |
| ArrayLists.ArrayList.RemoveAtAsWritten | ParallelNet/Collection/ArrayList.cs:364-375 | The source's code. Out of range it throws. Below the last index it removes that element. At the last index of a list of two or more it drops the element before it instead. A single element is removed and then it throws. The version rises once for the pop and once for each store that succeeds. |
| ArrayLists.ArrayList.RemoveAt | ParallelNet/Collection/ArrayList.cs:364-375 | Corrected: out of range it throws, changing nothing. Otherwise the result is the old sequence without element `index`, and version rises by `Count - index`. |
| ArrayLists.ArrayList.RemoveAsWritten | ParallelNet/Collection/ArrayList.cs:352-360 | The source's code over the as-written `RemoveAt`. No comparer-equal element: it returns false, changing nothing. A first match below the last index is removed, and it returns true. A match at the last index of a list of two or more drops the element before it instead, and it returns true. The only element of a one-element list is removed, and then it throws `ArgumentOutOfRangeException`. |
| ArrayLists.ArrayList.Remove | ParallelNet/Collection/ArrayList.cs:352-360 | Corrected, over the corrected `RemoveAt`. No comparer-equal element: it returns false, changing nothing. Otherwise it returns true, and the first such element is removed. |
| ArrayLists.Enumerator.constructor | ParallelNet/Collection/ArrayList.cs:388-393 | Cursor -2 (not started), with the list's version kept. |
| ArrayLists.Enumerator.Current | ParallelNet/Collection/ArrayList.cs:395-406 | It throws `InvalidOperationException` before the start and after the end. On a cursor inside the list it returns that element; any other cursor throws `ArgumentOutOfRangeException`. |
| ArrayLists.Enumerator.Dispose | ParallelNet/Collection/ArrayList.cs:410-413 | The cursor returns to -2. |
| ArrayLists.Enumerator.MoveNext | ParallelNet/Collection/ArrayList.cs:415-441 | It throws if the list was revised. Otherwise the cursor goes to 0 from not started, or one on, or to -1 at the end, and it returns true exactly on an element. |
| ArrayLists.Enumerator.Reset | ParallelNet/Collection/ArrayList.cs:443-449 | It throws if the list was revised; otherwise the cursor returns to -2. |
| ArrayLists.Enumerate | ParallelNet/Collection/ArrayList.cs:382-441 | A full enumeration yields indices `0..Count-1` in order, exactly the contents. |
| ArrayLists.AddFour | Test/Program.cs:15-18 | Adding H, B, O, T to an empty list gives exactly that sequence. |
| ArrayLists.SetAndPop | Test/Program.cs:32-38 | After `[0] = "A"` and `[2] = "D"`, four `PopBack`s give T, D, B, A and leave the list empty. |
| ArrayLists.RemoveLastScenario | ParallelNet/Collection/ArrayList.cs:352-375 | Removing "O" from [H, B, O] leaves [H, O] as written and [H, B] corrected. As written, removing "H" from [H] throws `ArgumentOutOfRangeException`. |
| ArrayLists.ProgramScenario | Test/Program.cs:6-38 | The sequential prefix of the demo. Add four and clear, then add four again. The enumeration and the indexed reads give H, B, O, T; the pops give T, D, B, A. |
| RedBlackTrees.KeyIndex | ParallelNet/Collection/SortedDictionary.cs:138-152 | The index of the pair whose key compares equal, or -1 exactly when no key does. |
| RedBlackTrees.InsertionPoint | ParallelNet/Collection/SortedDictionary.cs:154-163 | The number of keys below the new key: every pair before it is smaller, and the pair at it is not. |
| RedBlackTrees.InsertBetween | ParallelNet/Collection/SortedDictionary.cs:154-163 | A key between its neighbours, put between them, keeps the keys strictly ascending. |
| RedBlackTrees.RemovedKeyAbsent | ParallelNet/Collection/SortedDictionary.cs:250-267 | Once the pair holding a key is removed from ascending keys, no remaining key compares equal to it. |
| RedBlackTrees.RotateLeft | ParallelNet/Collection/SortedDictionary.cs:66-87 | The right child takes the place of `x`, and the in-order pairs are unchanged. |
| RedBlackTrees.RotateRight | ParallelNet/Collection/SortedDictionary.cs:89-110 | The left child takes the place of `x`, and the in-order pairs are unchanged. |
| RedBlackTrees.RotationsInverse | ParallelNet/Collection/SortedDictionary.cs:66-110 | Each rotation undoes the other. |
| TreeZippers.Up | ParallelNet/Collection/SortedDictionary.cs:22 | `x.parent`: one level up, in the same tree. |
| TreeZippers.DownLeft | ParallelNet/Collection/SortedDictionary.cs:23 | `x.left`, whose parent is `x` again: links are mutually consistent. |
| TreeZippers.DownRight | ParallelNet/Collection/SortedDictionary.cs:24 | `x.right`, whose parent is `x` again: links are mutually consistent. |
| TreeZippers.Sibling | ParallelNet/Collection/SortedDictionary.cs:313 | `w = x.parent.right` (or `left`): the parent's other child, at the same depth, on the other side, in the same tree. |
| TreeZippers.SiblingInvolution | ParallelNet/Collection/SortedDictionary.cs:313 | The sibling of the sibling is the node itself. |
| RedBlackFixups.LeftRotate | ParallelNet/Collection/SortedDictionary.cs:66-87 | It throws "Unexpected error" exactly when `x.right` is null. Otherwise it rotates at `x` in place (the root changes when `x` was the root), keeping the in-order pairs. |
| RedBlackFixups.RightRotate | ParallelNet/Collection/SortedDictionary.cs:89-110 | It throws exactly when `x.left` is null. Otherwise it rotates at `x` in place, keeping the in-order pairs. |
| RedBlackFixups.RecolorKeeps | ParallelNet/Collection/SortedDictionary.cs:179-185 | With a red uncle, recolouring and moving to the grandparent keeps the fixup invariant and the pairs, two levels up. |
| RedBlackFixups.InnerLeftKeeps | ParallelNet/Collection/SortedDictionary.cs:188-192 | Rotating a right child into the outer position keeps the invariant and the pairs, never throws, and leaves a red parent on the left. |
| RedBlackFixups.OuterLeftKeeps | ParallelNet/Collection/SortedDictionary.cs:193-195 | The recolouring and right rotation at the grandparent keep the invariant and the pairs, leave a black parent and never throw. |
| RedBlackFixups.InnerRightKeeps | ParallelNet/Collection/SortedDictionary.cs:210-214 | The mirror image of `InnerLeftKeeps`. |
| RedBlackFixups.OuterRightKeeps | ParallelNet/Collection/SortedDictionary.cs:215-217 | The mirror image of `OuterLeftKeeps`. |
| RedBlackFixups.RedSiblingLeft | ParallelNet/Collection/SortedDictionary.cs:314-320 | Delete case 1: a red sibling is recoloured and rotated up, keeping the pairs and a black root. `x` gains a red parent, and its new sibling is the old sibling's inner child. |
| RedBlackFixups.RedSiblingRight | ParallelNet/Collection/SortedDictionary.cs:356-362 | The mirror image of delete case 1. |
| RedBlackFixups.RecolorSibling | ParallelNet/Collection/SortedDictionary.cs:322-330 | Delete case 2: the sibling becomes red and `x` moves to its parent, keeping the pairs and the root colour. |
| RedBlackFixups.FarNephewBlackLeft | ParallelNet/Collection/SortedDictionary.cs:333-342 | Delete case 3: it rotates at the sibling. It throws exactly when the sibling's left child is null. Otherwise it keeps the pairs and a black root, and `x` again has a sibling. |
| RedBlackFixups.FarNephewBlackRight | ParallelNet/Collection/SortedDictionary.cs:375-384 | The mirror image of delete case 3. |
| RedBlackFixups.RotateParentLeft | ParallelNet/Collection/SortedDictionary.cs:344-350 | Delete case 4: recolouring and a left rotation at the parent. It throws exactly when the sibling is null, keeps the pairs, and ends with `x` at the root. |
| RedBlackFixups.RotateParentRight | ParallelNet/Collection/SortedDictionary.cs:386-392 | The mirror image of delete case 4. |
| RedBlackFixups.FixupLeft | ParallelNet/Collection/SortedDictionary.cs:311-352 | One pass of the delete fixup with `x` a left child. It keeps the pairs. Either it throws with a black root, or `x` ends closer to the root, or at the same depth and no longer black, which ends the loop. |
| RedBlackFixups.FixupRight | ParallelNet/Collection/SortedDictionary.cs:353-394 | The mirror image of `FixupLeft`. |
| RedBlackFixups.DoubleBlackLeftGoes | ParallelNet/Collection/SortedDictionary.cs:311-352 | Suppose a black, non-null `x` is a left child, its sibling is black-balanced, and the sibling's side has exactly one more black node than `x`'s. Case 2 (lines 328-329) leads to this state when it moves a one-black-short `x` up to a black parent. From it, a pass of the fixup does not throw. A null `x`, which is what removing a black leaf leaves, is not covered. |
| RedBlackFixups.DoubleBlackRightGoes | ParallelNet/Collection/SortedDictionary.cs:353-394 | The mirror image of `DoubleBlackLeftGoes`. |
| SortedDictionaries.SortedDictionary.constructor | ParallelNet/Collection/SortedDictionary.cs:57-64 | An empty tree, with count 0 and version 0. |
| SortedDictionaries.DescendKeeps | ParallelNet/Collection/SortedDictionary.cs:138-152 | Each step of the descent keeps every pair in order before the subtree reached below the key, and every pair after it above the key. |
| SortedDictionaries.SortedDictionary.Locate | ParallelNet/Collection/SortedDictionary.cs:138-152 | The descent stops at the node whose key compares equal, or at the null leaf where the key belongs. |
| SortedDictionaries.OverwriteFacts | ParallelNet/Collection/SortedDictionary.cs:145-149 | Overwriting the found node's pair replaces that pair in the in-order sequence and keeps the tree's shape and key order. |
| SortedDictionaries.AttachFacts | ParallelNet/Collection/SortedDictionary.cs:154-165 | A red node linked at the leaf reached inserts the pair at its insertion point, keeps the keys ascending, and meets the precondition of `InsertFixup`. |
| SortedDictionaries.SortedDictionary.Add | ParallelNet/Collection/SortedDictionary.cs:128-170 | A key that compares equal has its pair overwritten; count, version and shape are unchanged. A new key is inserted at its place: count and version rise by one, and the root is black. If no red node had a red child before, none has after. |
| SortedDictionaries.SortedDictionary.InsertFixup | ParallelNet/Collection/SortedDictionary.cs:172-223 | The pairs are kept and the root ends black. If red-freedom held before the insertion, it holds again. |
| SortedDictionaries.SortedDictionary.Remove | ParallelNet/Collection/SortedDictionary.cs:250-267 | No key compares equal: it returns false with the tree unchanged. Otherwise that pair is removed, the keys stay ascending, the key is absent, and it returns true with count down and version up. If a rotation throws, the throw propagates with count and version untouched. |
| SortedDictionaries.FoundCut | ParallelNet/Collection/SortedDictionary.cs:256-259 | The node found by the descent holds the one pair with that key, and removing it leaves no key that compares equal. |
| SortedDictionaries.SortedDictionary.RemoveFound | ParallelNet/Collection/SortedDictionary.cs:256-259 | Once the descent has found a node whose key compares equal, that node is deleted. The pair with the key leaves the in-order sequence, the keys stay ascending, and no key compares equal afterwards. It returns true with count down and version up, or throws "Unexpected error" with both unchanged. |
| SortedDictionaries.SortedDictionary.Delete | ParallelNet/Collection/SortedDictionary.cs:269-305 | The pair of `z` is removed from the in-order sequence and the keys stay ascending. On return, count falls by one and version rises by one. On a throw from the fixup, both are unchanged. |
| SortedDictionaries.SortedDictionary.Unlink | ParallelNet/Collection/SortedDictionary.cs:271-299 | It chooses `y` (the node itself, or its successor) and splices it out, promoting its child. With two children the successor's pair is copied into `z`, so exactly the pair of `z` is removed. |
| SortedDictionaries.SplicePairs | ParallelNet/Collection/SortedDictionary.cs:285-299 | The spliced tree's in-order pairs are the old ones without the pair at `z`'s index. |
| SortedDictionaries.SuccessorAround | ParallelNet/Collection/SortedDictionary.cs:298-299 | Copying the successor's pair into `z` and splicing the successor out removes exactly `z`'s pair. |
| SortedDictionaries.SpliceColor | ParallelNet/Collection/SortedDictionary.cs:300-301 | When the fixup is skipped, the root is not red; when it runs, its precondition holds. |
| SortedDictionaries.SortedDictionary.DeleteFixup | ParallelNet/Collection/SortedDictionary.cs:307-399 | The pairs are kept and the root ends black. The only throw is "Unexpected error". |
| SortedDictionaries.SkippedFixupScenario | ParallelNet/Collection/SortedDictionary.cs:300-301 | From the black-balanced tree 2B(1B, 3B), taking out the black leaf 1 leaves a null `x`, so the fixup is skipped. The tree left, 2B(·, 3B), is not black-balanced. |
| SortedDictionaries.StrandedFixupScenario | ParallelNet/Collection/SortedDictionary.cs:353-394 | In the tree 3B(·, 4B(·, 5B(·, 9R))), node 4 is black with no left child, so its right child 5 takes its place and the fixup runs from 5. That state is not the double-black one: 3 has no left child. The first pass throws, leaving the pairs 3, 5, 9. |
| SortedDictionaries.SortedDictionary.Successor | ParallelNet/Collection/SortedDictionary.cs:401-414 | The next node in order, or `rootParent` exactly when `n` holds the last pair. With a right subtree, it is that subtree's minimum. |
| SortedDictionaries.SortedDictionary.MinValue | ParallelNet/Collection/SortedDictionary.cs:416-423 | The leftmost node of the subtree, which has no left child and holds the subtree's first pair. |
| SortedDictionaries.InorderWalk | ParallelNet/Collection/SortedDictionary.cs:440-462 | The explicit-stack walk visits exactly the in-order pairs, each once. |
| SortedDictionaries.PushLeft | ParallelNet/Collection/SortedDictionary.cs:447-451 | Pushing the left spine puts exactly the subtree's pairs in front of what the stack still holds. |
| SortedDictionaries.SortedDictionary.Inorder | ParallelNet/Collection/SortedDictionary.cs:440-462 | The visitor sees every stored pair exactly once, in strictly ascending key order under the comparer. |

## Left out

- Concurrency. `Interlocked` compare-and-swap, `MemoryBarrier`, retry under contention, helping between threads and linearizability are not modelled. Every compare-and-swap succeeds on its first pass, and every method runs alone.
- `ParallelNet/Lock/*`: its purpose is cross-thread mutual exclusion through spinning and unmanaged memory, and nothing sequential is left to state.
- The threaded part of `Test/Program.cs` (lines 40-79).
- Console output, which is a side effect.
- `ParallelNet/Common/None.cs` is a lazily built singleton. It is the unit value `None.Value` here.
- `ArrayPool` rent and return are a foreign allocator. A rented bucket is a fresh cleared sequence of exactly `8 * 2^b` slots, and a returned bucket is dropped.
- Fixed-width integers. `version` (a `ulong`) and `count` (an `int`) are unbounded naturals, so the model has no wrap-around.
- Null elements. `T` in the model has no null value, so no stored element is null. The source's `?? throw new Exception("Unexpected error")` guards on an element (ParallelNet/Collection/Queue.cs:114, ParallelNet/Collection/Queue.cs:162, ParallelNet/Collection/ArrayList.cs:369) fire only on a null element, so they are not modelled.
- Queues.Queue.Dequeue: with a null front element, the source moves the sentinel, decrements the count, increments the version and then throws "Unexpected error". This path is not modelled (see Null elements).
- Queues.Enumerator.CurrentAsWritten: with a null element under the cursor, the source throws "Unexpected error". This path is not modelled (see Null elements).
- Queues.Enumerator.Current: with a null element under the cursor, the source throws "Unexpected error". This path is not modelled (see Null elements).
- ArrayLists.ArrayList.RemoveAtAsWritten: with a null last element, the source pops it and then throws "Unexpected error" before any shift. This path is not modelled (see Null elements).
- ArrayLists.ArrayList.RemoveAt: with a null last element, the source pops it and then throws "Unexpected error". This path is not modelled (see Null elements).
- ArrayLists.ArrayList.RemoveAsWritten: it inherits the null-last-element throw of `RemoveAt`, which is not modelled (see Null elements).
- ArrayLists.ArrayList.Reserve: before an out-of-range size reaches bucket 28, the source rents buckets of up to `2^30` slots. An allocation failure there (`OutOfMemoryException`) is not modelled, since the pool is a foreign allocator.
- ArrayLists.ArrayList.Add: it requires fewer than `2^31 - 8` elements, where `Count + 8` would overflow an `int`. The same bound applies to Insert.
- `SortedDictionary` is modelled as a value. A node reference is a subtree together with the path to it from the root. This covers every `parent`, `left` and `right` link. It does not cover:
  - object identity;
  - aliasing of nodes by outside references;
  - the field `rootParent.left`, which the source keeps equal to `root` and never reads.
- Null pairs in `SortedDictionary`. A real node always carries its pair, so the `kv ?? throw` guards in `Add`, `Remove` and `Inorder` cannot fire and are not modelled.
- The comparers:
  - `IComparer<K>` is a function `(K, K) -> int` that must be a total order in which 0 means equal keys.
  - Comparers that return 0 for two distinct keys are excluded; a case-insensitive string comparer is one. For such a comparer, `Add`'s overwrite (ParallelNet/Collection/SortedDictionary.cs:145-147) replaces the stored key with the new one. This behaviour is not modelled.
  - `IEqualityComparer<T>` is a function `(T, T) -> bool`.
- The default-comparer constructors (`SortedDictionary()`, `ArrayList()`) are not part of this model: the comparer is always a parameter.
- SortedDictionaries.SortedDictionary.Remove: red-black balance and black height after a removal are not claimed, and the source does not keep them (see Findings). The source skips `DeleteFixup` when the removed node had no child, and it treats null nephews as not black. Order, contents, count and version are claimed.
- RedBlackFixups.FixupLeft: the guarantee that a pass which does not throw leaves `x` closer to the root, or at the same depth and no longer black, is stated as the `Progress` measure. The fixup loop ends because of that measure. The model does not claim that the rotations never throw.
- The members of `SortedDictionary` that throw `NotImplementedException` are stubs: the indexers, `Count`, `Keys`, `Values`, `Clear`, `Contains`, `ContainsKey`, `CopyTo`, `TryGetValue`, `Remove(KeyValuePair)` and the enumerators.
- `ArrayList.CopyTo` copies into a caller's array and is not part of this model.
- `GetEnumerator` only wraps an enumerator's constructor. The non-generic `IEnumerator.Current` boxes `Current`. Both are left out as plumbing.
- Finalisers and `GC.SuppressFinalize`, which are .NET runtime machinery.
- Queues.Enumerator.Dispose: it promises the enumerator's invariant again only when the queue has not been revised. After a revision the source's own cursor may sit on a node that is no longer part of the queue.
- ArrayLists.ArrayList.RemoveAt and ArrayLists.ArrayList.Insert: they work on one thread only, as the source documents.

## Findings

| source | as written | input that shows it | evidently intended | confidence | as-written member | corrected member |
|---|---|---|---|---|---|---|
| ParallelNet/Collection/ArrayList.cs:369-374 | `RemoveAt` pops the last element, shifts `index+1 .. Count-1` down, then stores the popped element at the new `Count - 1`. | Remove at `index == Count - 1`: [a, b, c] with index 2 becomes [a, c], though `c` was the element to remove. [a] with index 0 is emptied, then the store at index -1 throws `ArgumentOutOfRangeException`. | The last element is removed: [a, b], and [] without an exception. | not executed | ArrayLists.ArrayList.RemoveAtAsWritten | ArrayLists.ArrayList.RemoveAt |
| ParallelNet/Collection/ArrayList.cs:358 | `Remove` hands the first match's index to the `RemoveAt` above. | [H, B, O] with item "O" becomes [H, O]. [H] with item "H" is emptied, and then `Remove` throws `ArgumentOutOfRangeException` instead of returning true. | The first match is removed: [H, B], and [] with the result true. | not executed | ArrayLists.ArrayList.RemoveAsWritten | ArrayLists.ArrayList.Remove |
| ParallelNet/Collection/Queue.cs:159-160 | `Current` throws "Enumerator not started" when the data of the node under the cursor is `None`. The node dequeued at lines 110-114 becomes the sentinel and keeps its `Some` data. | Enqueue 1, dequeue it, then read `Current` on a new enumerator before `MoveNext`: it returns 1, though the queue is empty. | Before the first `MoveNext`, `Current` throws "Enumerator not started". | not executed | Queues.Enumerator.CurrentAsWritten | Queues.Enumerator.Current |
| ParallelNet/Collection/SortedDictionary.cs:300-301 | `Delete` runs `DeleteFixup` only when `x`, the child that takes the removed node's place, is not null. Taking out a black leaf therefore leaves one side of its parent a black node short. A later `DeleteFixup` can then find a null sibling, and `RightRotate` (line 91) or `LeftRotate` (line 68) throws "Unexpected error". The pair is already cut at that point, and `count` is not decremented. | Add 2, 1, 3, 4, then Remove 4 and 1: the tree 2B(·, 3B) is no longer black-balanced. Add 1, 11, 4, 5; Remove 1; Add 3, 1, 10, 9; Remove 11, 1, 10: the tree is 3B(·, 4B(·, 5B(·, 9R))). `Remove(4)` then throws "Unexpected error", leaving three pairs and a count of 4 (traced against the source text). | The fixup also runs for a null `x`, so the tree stays black-balanced, the fixup always finds the sibling and the children it rotates, and `Remove` never throws. For the passes after case 2 has moved a black `x` up, this is proved (`DoubleBlackLeftGoes`, `DoubleBlackRightGoes`). The first pass, from a null `x`, is not covered. | not executed | SortedDictionaries.StrandedFixupScenario | none claimed: a deletion that keeps the black balance is not part of this model |
