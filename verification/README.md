# BoundedBuffer in Dafny

This project models `org.gatein.common.concurrent.BoundedBuffer<T>`. The class is a linked
list with a fixed capacity (`maxSize`) that keeps only the most recently added elements.
The project also models the snapshot iterator built on that list.

- **Links.** Links run from older to younger nodes. `last` is the elder retained node and
  `first` the younger one.
- **`add`.** `add` links the previous youngest node to a new node. When the buffer is full,
  it also drops the oldest node by moving `last` one link forward.
- **`iterator()`.** `iterator()` copies the pair `(last, size)`. A `BoundedIterator` then
  walks `size` links forward from that `last`, so it returns elements oldest first.

The model has three modules:

- `Failures` (`failures.dfy`) holds the thrown exceptions as an `Error` datatype. It also
  holds the `Result`/`Outcome` datatypes that return them in place of `throw`.
- `BufferArena` (`buffer_arena.dfy`) is the buffer as a value:
  - The heap holding the nodes is an arena. It is a sequence of `ObjectRef` cells in
    allocation order.
  - A reference is `Null` or a cell address.
  - `add`, `iterator()`, `hasNext()`, `next()` and `remove()` are pure functions over it.
  - The lemmas about contents, sizes and snapshots over any run of adds are stated here.
- `BufferHeap` (`buffer_heap.dfy`) follows the Java class field by field:
  - The nodes are objects with a mutable `next`.
  - A ghost `history` sequence records every node the buffer allocated.
  - `Valid()` is the class invariant.
  - `Abstract()` maps the objects to the arena model. `BoundedBuffer.Add` is proved to do
    exactly what `BufferArena.Add` does.
  - Snapshot stability is proved again on the heap: an iterator stays valid, and yields the
    same elements, across later `add` calls.

Each operation is one atomic step. The `synchronized` blocks are not modelled.

Two facts from the source that shape the model:

- **Iteration order.** Iteration yields elements oldest first. Each new node is linked after
  the previous youngest one (BoundedBuffer.java:99-101), and iteration walks forward from
  `last` (BoundedBuffer.java:126, 166-167).
- **The empty buffer's iterator.** For an empty buffer, `iterator()` returns
  `Collections.emptyList().iterator()` (BoundedBuffer.java:131). That JDK iterator's
  `remove()` throws `IllegalStateException`, so the model returns `IllegalState` there.

## Model

| member | source | states |
|---|---|---|
| BufferArena.New | common/src/main/java/org/gatein/common/concurrent/BoundedBuffer.java:65-75 | fails with `IllegalArgument` exactly when `maxSize < 1`; otherwise gives a valid buffer with that max size, size 0 and the empty iterator |
| BufferArena.Add | common/src/main/java/org/gatein/common/concurrent/BoundedBuffer.java:87-112 | keeps the class invariant and the max size; size grows by one until it reaches `maxSize`, then stays; exactly one new node holding `t` is allocated; every old node keeps its element and every non-null link |
| BufferArena.AddWritesOnlyYoungest | common/src/main/java/org/gatein/common/concurrent/BoundedBuffer.java:99-101 | the only old node `add` writes is the previous `first`; its `next` was null and now points at the new node |
| BufferArena.AddContents | common/src/main/java/org/gatein/common/concurrent/BoundedBuffer.java:92-109 | after `add(t)` the buffer holds its old elements followed by `t`; when it was full, exactly the oldest element is gone and the others keep their places |
| BufferArena.AddToEmpty | common/src/main/java/org/gatein/common/concurrent/BoundedBuffer.java:92-96 | on an empty buffer, `first` and `last` become the same new node, size is 1 and the buffer holds `[t]` |
| BufferArena.AddToFull | common/src/main/java/org/gatein/common/concurrent/BoundedBuffer.java:102-109 | on a full buffer, size is unchanged and `last` becomes the link of the old `last`, read after the write at line 101 |
| BufferArena.SingleSlot | common/src/main/java/org/gatein/common/concurrent/BoundedBuffer.java:99-108 | with `maxSize == 1`, a second `add` makes the new node both `first` and `last` and leaves only the newest element |
| BufferArena.AddAll | common/src/main/java/org/gatein/common/concurrent/BoundedBuffer.java:87-112 | any run of `add` calls keeps the invariant and the max size; it allocates nodes holding the added elements in order and never rewrites a non-null link |
| BufferArena.SizeAfterAdds | common/src/main/java/org/gatein/common/concurrent/BoundedBuffer.java:92-109 | after `n` adds to a new buffer, `size == min(n, maxSize)` |
| BufferArena.MaxSizeAfterAdds | common/src/main/java/org/gatein/common/concurrent/BoundedBuffer.java:73-80 | `getMaxSize()` returns the constructor argument after any number of adds |
| BufferArena.WalkReachesFirst | common/src/main/java/org/gatein/common/concurrent/BoundedBuffer.java:92-109 | on a non-empty buffer, following `size - 1` links from `last` reaches `first`, and no reference on the way is null |
| BufferArena.NewIterator | common/src/main/java/org/gatein/common/concurrent/BoundedBuffer.java:120-137 | gives the empty-list iterator exactly when size is 0; otherwise the snapshot copies `(last, size)`: it has exactly `size` elements left, and its cursor does not dangle |
| BufferArena.Next | common/src/main/java/org/gatein/common/concurrent/BoundedBuffer.java:160-170 | throws `NoSuchElement` exactly when `hasNext()` is false; otherwise returns the cursor's element, moves the cursor one link forward and has one element fewer left |
| BufferArena.Remove | common/src/main/java/org/gatein/common/concurrent/BoundedBuffer.java:172-175 | always fails: `UnsupportedOperation` on a bounded iterator, `IllegalState` on the empty-list iterator |
| BufferArena.Drain | common/src/main/java/org/gatein/common/concurrent/BoundedBuffer.java:155-169 | an iterator returns at most as many elements as it has left |
| BufferArena.EmptyIteration | common/src/main/java/org/gatein/common/concurrent/BoundedBuffer.java:129-131 | the empty-list iterator yields nothing and its `next()` throws `NoSuchElement` |
| BufferArena.ExhaustedAfterSize | common/src/main/java/org/gatein/common/concurrent/BoundedBuffer.java:155-165 | on a valid list, `hasNext()` holds exactly while fewer than `size` elements were returned, so the `current != null` guard never decides; once `size` were returned, `next()` throws |
| BufferArena.ContentsIsYoungestSuffix | common/src/main/java/org/gatein/common/concurrent/BoundedBuffer.java:155-169 | iterating a fresh snapshot yields exactly `size` elements: the `size` youngest ones, oldest first |
| BufferArena.IterateAfterAdds | common/src/main/java/org/gatein/common/concurrent/BoundedBuffer.java:29-35 | after adding `xs` to a new buffer, a snapshot yields the last `min(n, maxSize)` elements of `xs`, where `n` is its length, oldest first |
| BufferArena.CapacityThreeScenario | common/src/main/java/org/gatein/common/concurrent/BoundedBuffer.java:29-35 | with capacity 3, after adding A, B, C, D the size is 3 and a snapshot yields B, C, D |
| BufferArena.DrainStable | common/src/main/java/org/gatein/common/concurrent/BoundedBuffer.java:155-169 | an iterator whose walk hits no null yields the same elements over any heap that only allocates and fills null links |
| BufferArena.SnapshotStable | common/src/main/java/org/gatein/common/concurrent/BoundedBuffer.java:37-38 | a snapshot taken before any number of further adds still yields what the buffer held when it was taken |
| BufferArena.SnapshotStableMidway | common/src/main/java/org/gatein/common/concurrent/BoundedBuffer.java:160-169 | a snapshot that has already returned any `j <= size` of its elements yields the rest unchanged after further adds |
| BufferArena.GetMaxSize | common/src/main/java/org/gatein/common/concurrent/BoundedBuffer.java:77-80 | the max size a valid buffer reports is at least one |
| BufferArena.HasNext | common/src/main/java/org/gatein/common/concurrent/BoundedBuffer.java:155-158 | `hasNext()` holds only for a bounded iterator that still has elements left |
| BufferArena.Step | common/src/main/java/org/gatein/common/concurrent/BoundedBuffer.java:160-168 | the iterator after `j` calls of `next()` keeps a cursor that does not dangle |
| BufferArena.DrainAfterSteps | common/src/main/java/org/gatein/common/concurrent/BoundedBuffer.java:160-168 | after `j` calls of `next()`, the iterator yields the rest of its elements and has `j` fewer left |
| BufferHeap.BoundedBuffer.Create | common/src/main/java/org/gatein/common/concurrent/BoundedBuffer.java:65-75 | throws `IllegalArgument` exactly when `maxSize < 1`; otherwise gives a fresh valid buffer whose abstraction is the arena model's new buffer |
| BufferHeap.BoundedBuffer.AbstractValid | common/src/main/java/org/gatein/common/concurrent/BoundedBuffer.java:53-63 | the heap invariant on the four fields and the node links maps to the arena model's invariant |
| BufferHeap.BoundedBuffer.Add | common/src/main/java/org/gatein/common/concurrent/BoundedBuffer.java:87-112 | writes only the buffer and the previous youngest node; keeps the invariant; extends the history by one fresh node holding `t`; refines the arena model's `Add` |
| BufferHeap.BoundedBuffer.Iterator | common/src/main/java/org/gatein/common/concurrent/BoundedBuffer.java:120-137 | gives the empty-list iterator exactly when size is 0; otherwise gives a fresh, valid bounded iterator over the retained elements, oldest first |
| BufferHeap.BoundedIterator.Next | common/src/main/java/org/gatein/common/concurrent/BoundedBuffer.java:160-170 | returns the snapshot's next element and counts it while fewer than `size` were returned; throws `NoSuchElement` afterwards |
| BufferHeap.BoundedIterator.Remove | common/src/main/java/org/gatein/common/concurrent/BoundedBuffer.java:172-175 | always fails with `UnsupportedOperation` |
| BufferHeap.BoundedBuffer.GetMaxSize | common/src/main/java/org/gatein/common/concurrent/BoundedBuffer.java:77-80 | on a valid buffer the reported max size is at least one; it is the `maxSize` constant, which `Create` sets to the constructor argument |
| BufferHeap.BoundedIterator.HasNext | common/src/main/java/org/gatein/common/concurrent/BoundedBuffer.java:155-158 | on a valid snapshot, `hasNext()` holds exactly while fewer than `size` elements were returned, so the `current != null` test never decides |
| BufferHeap.BoundedIterator.constructor | common/src/main/java/org/gatein/common/concurrent/BoundedBuffer.java:148-153 | a new iterator is valid, starts at the snapshot's first node with `count == 0`, and walks the given chain |
| BufferHeap.AddKeepsSnapshot | common/src/main/java/org/gatein/common/concurrent/BoundedBuffer.java:99-101 | an `add` leaves every valid iterator valid, with the same elements and position |
| BufferHeap.IterateWhileAdding | common/src/main/java/org/gatein/common/concurrent/BoundedBuffer.java:37-41 | a traversal that alternates `next()` with `add` yields exactly what the buffer held when the snapshot was taken |

## Left out

- The `synchronized` blocks and all thread-safety claims. Each operation is one atomic
  step, and interleavings are not modelled.
- Garbage collection and the memory-leak warning about keeping iterators alive. These
  concern resources, not values. The arena is never shrunk, and the heap model's ghost
  `history` keeps every node.
- `ObjectRef` is modelled from its uses at BoundedBuffer.java:89, 101, 108 and 166-167: an
  element field (named `value`, since `object` is a Dafny keyword) and a nullable `next`.
- `Collections.emptyList().iterator()` is not modelled as a library call:
  - `BufferArena` models it as the `EmptyIterator` case.
  - `BufferHeap.BoundedBuffer.Iterator` returns `None` for it. Its `hasNext`, `next` and
    `remove` are modelled only in `BufferArena`.
- The comment on `size` calls it volatile and refers to a `getSize()` method. The field is
  not volatile, and no such method exists.
- Java `int` width. Dafny integers are unbounded, but no overflow is reachable here:
  - `size` is incremented only while `size < maxSize`, and `maxSize` is an `int`.
  - `count` is incremented only while `count < size`.
