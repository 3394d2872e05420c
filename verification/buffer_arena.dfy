/**
 The bounded buffer as a value.

 The Java heap that the buffer's nodes live in is an arena: a sequence of
 `ObjectRef` cells indexed in allocation order, so that a reference is either
 `Null` or the address of a cell. `add` allocates one cell at the end of the
 arena and overwrites one `next` field; `iterator()` copies the pair
 `(last, size)`; a `BoundedIterator` walks `size` links forward from `last`.
 Each operation is one atomic step; the locking around them is not modelled.
 */
module BufferArena {
  import opened Failures

  /** A Java reference to an `ObjectRef`: `null` or the address of an arena cell. */
  datatype Ref = Null | Addr(index: nat)

  /** One node of the linked list: the stored element and the link to the next YOUNGER node. */
  datatype ObjectRef<T> = ObjectRef(value: T, next: Ref)

  type Heap<T> = seq<ObjectRef<T>>

  /**
   The fields of a `BoundedBuffer`, together with the arena its nodes live in.
   `last` is the elder retained node, `first` the younger one.
   */
  datatype Buffer<T> = Buffer(maxSize: int, heap: Heap<T>, last: Ref, first: Ref, size: int)

  /**
   A snapshot iterator: the empty-list iterator returned for an empty buffer,
   or a `BoundedIterator` holding its cursor, the captured size and the number
   of elements already returned.
   */
  datatype Iterator = EmptyIterator | BoundedIterator(current: Ref, size: int, count: int)

  function Min(a: int, b: int): int
  {
    if a <= b then a else b
  }

  /** The last `min(|xs|, maxSize)` elements of `xs`, oldest first: what the buffer promises to retain. */
  function Retained<T>(xs: seq<T>, maxSize: nat): seq<T>
  {
    xs[|xs| - Min(|xs|, maxSize)..]
  }

  /** The reference to cell `k`, or `Null` when the arena has no such cell. */
  function At<T>(heap: Heap<T>, k: nat): Ref
  {
    if k < |heap| then Addr(k) else Null
  }

  /** The elements stored in the arena, in allocation order. */
  function Objects<T>(heap: Heap<T>): seq<T>
  {
    seq(|heap|, i requires 0 <= i < |heap| => heap[i].value)
  }

  /** `r` does not dangle: Java references always denote an allocated object or null. */
  ghost predicate Points<T>(heap: Heap<T>, r: Ref)
  {
    r.Addr? ==> r.index < |heap|
  }

  ghost predicate Closed<T>(heap: Heap<T>)
  {
    forall i :: 0 <= i < |heap| ==> Points(heap, heap[i].next)
  }

  ghost predicate InRange<T>(heap: Heap<T>, it: Iterator)
  {
    it.BoundedIterator? ==> Points(heap, it.current)
  }

  /**
   Every node links to the node allocated right after it, and the youngest
   node's link is null. `add` allocates nodes in the order they are linked,
   so this is the shape of the arena a buffer owns.
   */
  ghost predicate Linked<T>(heap: Heap<T>)
  {
    forall i :: 0 <= i < |heap| ==> heap[i].next == At(heap, i + 1)
  }

  /**
   The class invariant: the max size is positive, `size` stays in
   `[0, maxSize]`, the list is empty exactly when `first` and `last` are null,
   and otherwise `first` is the youngest node and `last` lies `size - 1` links
   before it.
   */
  ghost predicate Valid<T>(b: Buffer<T>)
  {
    && 1 <= b.maxSize
    && 0 <= b.size <= b.maxSize
    && b.size <= |b.heap|
    && Linked(b.heap)
    && (b.size == 0 <==> b.first == Null)
    && (b.size == 0 <==> b.last == Null)
    && (b.size == 0 ==> |b.heap| == 0)
    && (b.size > 0 ==> b.first == Addr(|b.heap| - 1) && b.last == Addr(|b.heap| - b.size))
  }

  /**
   `heap'` is `heap` after allocations and writes of `next` fields that were
   null: every old cell keeps its element and every non-null link.
   */
  ghost predicate Extends<T>(heap: Heap<T>, heap': Heap<T>)
  {
    && |heap| <= |heap'|
    && forall i :: 0 <= i < |heap| ==>
         heap'[i].value == heap[i].value && (heap[i].next != Null ==> heap'[i].next == heap[i].next)
  }

  /** Constructor `BoundedBuffer(int maxSize)`. */
  function New<T>(maxSize: int): (r: Result<Buffer<T>>)
    ensures r.Err? <==> maxSize < 1
    ensures r.Err? ==> r.error == IllegalArgument
    ensures r.Ok? ==> Valid(r.value) && r.value.maxSize == maxSize && r.value.size == 0
    ensures r.Ok? ==> NewIterator(r.value) == EmptyIterator
  {
    if maxSize < 1 then Err(IllegalArgument)
    else Ok(Buffer(maxSize, [], Null, Null, 0))
  }

  /** `getMaxSize()`. */
  function GetMaxSize<T>(b: Buffer<T>): (r: int)
    ensures Valid(b) ==> r >= 1
  {
    b.maxSize
  }

  /**
   `add(t)`. The new node becomes `first`; the previous youngest node's null
   `next` is set to it; if the buffer was full, `last` moves one link forward,
   reading that link after it was written (so with `maxSize == 1` the new node
   becomes `last` too).
   */
  function Add<T>(b: Buffer<T>, t: T): (r: Buffer<T>)
    requires Valid(b)
    ensures Valid(r)
    ensures r.maxSize == b.maxSize
    ensures r.size == if b.size < b.maxSize then b.size + 1 else b.size
    ensures Objects(r.heap) == Objects(b.heap) + [t]
    ensures Extends(b.heap, r.heap)
  {
    var added := Addr(|b.heap|);
    var heap := b.heap + [ObjectRef(t, Null)];
    if b.first == Null then
      b.(heap := heap, last := added, first := added, size := 1)
    else
      var tmp := b.first.index;
      var heap := heap[tmp := heap[tmp].(next := added)];
      if b.size < b.maxSize then
        b.(heap := heap, first := added, size := b.size + 1)
      else
        b.(heap := heap, first := added, last := heap[b.last.index].next)
  }

  /** `xs` added one after the other, `xs[0]` first. */
  function AddAll<T>(b: Buffer<T>, xs: seq<T>): (r: Buffer<T>)
    requires Valid(b)
    ensures Valid(r)
    ensures r.maxSize == b.maxSize
    ensures Objects(r.heap) == Objects(b.heap) + xs
    ensures Extends(b.heap, r.heap)
    decreases |xs|
  {
    if |xs| == 0 then b
    else
      var mid := AddAll(b, xs[..|xs| - 1]);
      var r := Add(mid, xs[|xs| - 1]);
      calc {
        Objects(r.heap);
        Objects(mid.heap) + [xs[|xs| - 1]];
        (Objects(b.heap) + xs[..|xs| - 1]) + [xs[|xs| - 1]];
        Objects(b.heap) + (xs[..|xs| - 1] + [xs[|xs| - 1]]);
        { assert xs[..|xs| - 1] + [xs[|xs| - 1]] == xs; }
        Objects(b.heap) + xs;
      }
      ExtendsTransitive(b.heap, mid.heap, r.heap);
      r
  }

  /** `iterator()`: an atomic copy of `(last, size)`. */
  function NewIterator<T>(b: Buffer<T>): (it: Iterator)
    requires Valid(b)
    ensures it.EmptyIterator? <==> b.size == 0
    ensures InRange(b.heap, it)
    ensures Remaining(it) == b.size
  {
    if b.size == 0 then EmptyIterator
    else BoundedIterator(b.last, b.size, 0)
  }

  /** How many more elements the iterator may return before `count` reaches `size`. */
  function Remaining(it: Iterator): nat
  {
    match it
    case EmptyIterator => 0
    case BoundedIterator(_, size, count) => if count < size then size - count else 0
  }

  /** `hasNext()`: the captured size is not yet reached and the cursor is not null. */
  predicate HasNext(it: Iterator)
    ensures HasNext(it) ==> Remaining(it) > 0
  {
    match it
    case EmptyIterator => false
    case BoundedIterator(current, size, count) => count < size && current != Null
  }

  /** `next()`: the element under the cursor and the iterator moved one link forward. */
  function Next<T>(heap: Heap<T>, it: Iterator): (r: Result<(T, Iterator)>)
    requires Closed(heap) && InRange(heap, it)
    ensures r.Err? <==> !HasNext(it)
    ensures r.Err? ==> r.error == NoSuchElement
    ensures r.Ok? ==> it.BoundedIterator? && r.value.0 == heap[it.current.index].value
    ensures r.Ok? ==> var rest := r.value.1;
                      && InRange(heap, rest)
                      && rest.BoundedIterator? && rest.size == it.size
                      && rest.current == heap[it.current.index].next
                      && Remaining(rest) == Remaining(it) - 1
  {
    if !HasNext(it) then Err(NoSuchElement)
    else
      var node := heap[it.current.index];
      Ok((node.value, it.(current := node.next, count := it.count + 1)))
  }

  /** `remove()`: never supported by either iterator. */
  function Remove(it: Iterator): (r: Outcome)
    ensures r.Fail?
    ensures it.BoundedIterator? ==> r.error == UnsupportedOperation
    ensures it.EmptyIterator? ==> r.error == IllegalState
  {
    match it
    case EmptyIterator => Fail(IllegalState)
    case BoundedIterator(_, _, _) => Fail(UnsupportedOperation)
  }

  /** The elements `next()` returns while `hasNext()` holds. */
  function Drain<T>(heap: Heap<T>, it: Iterator): (vs: seq<T>)
    requires Closed(heap) && InRange(heap, it)
    ensures |vs| <= Remaining(it)
    decreases Remaining(it)
  {
    match Next(heap, it)
    case Err(_) => []
    case Ok((v, rest)) => [v] + Drain(heap, rest)
  }

  /** What iterating a fresh snapshot of `b` yields. */
  function Contents<T>(b: Buffer<T>): seq<T>
    requires Valid(b)
  {
    Drain(b.heap, NewIterator(b))
  }

  /** The reference reached from `r` by following `n` links (stopping at null). */
  function Follow<T>(heap: Heap<T>, r: Ref, n: nat): (r': Ref)
    requires Closed(heap) && Points(heap, r)
    ensures Points(heap, r')
    decreases n
  {
    if n == 0 || r == Null then r
    else Follow(heap, heap[r.index].next, n - 1)
  }

  // ---------------------------------------------------------------------------
  // The shape of the list

  lemma {:induction false} FollowLinked<T>(heap: Heap<T>, k: nat, n: nat)
    requires Linked(heap) && k + n <= |heap|
    ensures Follow(heap, At(heap, k), n) == At(heap, k + n)
    decreases n
  {
    if n > 0 {
      FollowLinked(heap, k + 1, n - 1);
    }
  }

  /**
   Walking `size - 1` links from `last` ends at `first`, and no link on the
   way, nor `last` itself, is null.
   */
  lemma WalkReachesFirst<T>(b: Buffer<T>)
    requires Valid(b) && b.size > 0
    ensures Follow(b.heap, b.last, b.size - 1) == b.first
    ensures forall j :: 0 <= j < b.size ==> Follow(b.heap, b.last, j) != Null
  {
    var k := |b.heap| - b.size;
    FollowLinked(b.heap, k, b.size - 1);
    forall j | 0 <= j < b.size
      ensures Follow(b.heap, b.last, j) != Null
    {
      FollowLinked(b.heap, k, j);
    }
  }

  /**
   On a linked arena, a bounded iterator at cell `k` with `size - count` steps
   left that do not run off the arena returns exactly the cells `k` onwards.
   */
  lemma {:induction false} DrainLinked<T>(heap: Heap<T>, k: nat, size: int, count: int)
    requires Linked(heap) && 0 <= count <= size && k + (size - count) <= |heap|
    ensures Drain(heap, BoundedIterator(At(heap, k), size, count)) == Objects(heap)[k..k + (size - count)]
    decreases size - count
  {
    var it := BoundedIterator(At(heap, k), size, count);
    var n := size - count;
    if count < size {
      var rest := BoundedIterator(At(heap, k + 1), size, count + 1);
      assert heap[k].next == At(heap, k + 1);
      assert Next(heap, it) == Ok((heap[k].value, rest));
      assert Drain(heap, it) == [heap[k].value] + Drain(heap, rest);
      DrainLinked(heap, k + 1, size, count + 1);
      assert Objects(heap)[k..k + n] == [heap[k].value] + Objects(heap)[k + 1..k + n];
    } else {
      assert Next(heap, it).Err?;
    }
  }

  /**
   Iterating a fresh snapshot yields the `size` youngest elements, oldest
   first: the `current != null` guard never cuts the walk short.
   */
  lemma ContentsIsYoungestSuffix<T>(b: Buffer<T>)
    requires Valid(b)
    ensures |Contents(b)| == b.size
    ensures Contents(b) == Objects(b.heap)[|b.heap| - b.size..]
  {
    if b.size > 0 {
      DrainLinked(b.heap, |b.heap| - b.size, b.size, 0);
    }
  }

  // ---------------------------------------------------------------------------
  // Adding

  /**
   `add` appends the new element at the young end; on a full buffer it also
   drops exactly the oldest element and keeps the others in place.
   */
  lemma AddContents<T>(b: Buffer<T>, t: T)
    requires Valid(b)
    ensures Contents(Add(b, t)) ==
              if b.size < b.maxSize then Contents(b) + [t] else Contents(b)[1..] + [t]
  {
    var r := Add(b, t);
    ContentsIsYoungestSuffix(b);
    ContentsIsYoungestSuffix(r);
    var n := |b.heap|;
    assert Objects(r.heap) == Objects(b.heap) + [t];
    if b.size < b.maxSize {
      assert Objects(r.heap)[n + 1 - (b.size + 1)..] == Objects(b.heap)[n - b.size..] + [t];
    } else {
      assert Objects(r.heap)[n + 1 - b.size..] == Objects(b.heap)[n - b.size..][1..] + [t];
    }
  }

  /**
   The only node `add` writes is the previous youngest one, whose link was
   null and now points at the new node; every other old node is untouched.
   */
  lemma AddWritesOnlyYoungest<T>(b: Buffer<T>, t: T, i: nat)
    requires Valid(b) && i < |b.heap|
    ensures var r := Add(b, t);
            if Addr(i) == b.first then
              b.heap[i].next == Null && r.heap[i] == b.heap[i].(next := Addr(|b.heap|))
            else
              r.heap[i] == b.heap[i]
  {
  }

  /** `add` on an empty buffer makes `first` and `last` the same new node, with size one. */
  lemma AddToEmpty<T>(b: Buffer<T>, t: T)
    requires Valid(b) && b.size == 0
    ensures var r := Add(b, t);
            r.first == r.last == Addr(|b.heap|) && r.size == 1 && Contents(r) == [t]
  {
    AddContents(b, t);
  }

  /**
   `add` on a full buffer keeps the size and advances `last` by one link: the
   new `last` is the node the old `last` links to afterwards.
   */
  lemma AddToFull<T>(b: Buffer<T>, t: T)
    requires Valid(b) && b.size == b.maxSize
    ensures var r := Add(b, t);
            && r.size == b.size
            && r.last == r.heap[b.last.index].next
            && Contents(r) == Contents(b)[1..] + [t]
  {
    AddContents(b, t);
  }

  /** After `n` adds to a new buffer, `size == min(n, maxSize)`. */
  lemma {:induction false} SizeAfterAdds<T>(maxSize: int, xs: seq<T>)
    requires maxSize >= 1
    ensures AddAll(New<T>(maxSize).value, xs).size == Min(|xs|, maxSize)
    decreases |xs|
  {
    if |xs| > 0 {
      SizeAfterAdds(maxSize, xs[..|xs| - 1]);
    }
  }

  /** `add` never changes the max size. */
  lemma MaxSizeAfterAdds<T>(maxSize: int, xs: seq<T>)
    requires maxSize >= 1
    ensures GetMaxSize(AddAll(New<T>(maxSize).value, xs)) == maxSize
  {
  }

  lemma SuffixIsRetained<T>(c: seq<T>, objects: seq<T>, xs: seq<T>, n: nat, maxSize: nat)
    requires objects == xs && n == Min(|xs|, maxSize) && c == objects[|objects| - n..]
    ensures c == Retained(xs, maxSize)
  {
  }

  /**
   Iterating a fresh snapshot after adding `xs` to a new buffer yields the last
   `min(|xs|, maxSize)` elements of `xs`, oldest first.
   */
  lemma IterateAfterAdds<T>(maxSize: int, xs: seq<T>)
    requires maxSize >= 1
    ensures Contents(AddAll(New<T>(maxSize).value, xs)) == Retained(xs, maxSize)
  {
    var b0 := New<T>(maxSize).value;
    var b := AddAll(b0, xs);
    assert Objects(b.heap) == xs by {
      assert Objects(b0.heap) == [];
    }
    SizeAfterAdds(maxSize, xs);
    ContentsIsYoungestSuffix(b);
    assert |b.heap| == |xs|;
    SuffixIsRetained(Contents(b), Objects(b.heap), xs, b.size, maxSize);
  }

  // ---------------------------------------------------------------------------
  // Snapshot stability

  lemma ExtendsTransitive<T>(h0: Heap<T>, h1: Heap<T>, h2: Heap<T>)
    requires Extends(h0, h1) && Extends(h1, h2)
    ensures Extends(h0, h2)
  {
  }

  /**
   An iterator whose walk was not cut short by a null link keeps yielding the
   same elements in any extension of the arena: the links it follows were not
   null, so they were never rewritten, and it stops after its captured number
   of steps before reading the one link that may have been.
   */
  lemma {:induction false} DrainStable<T>(heap: Heap<T>, heap': Heap<T>, it: Iterator)
    requires Closed(heap) && Closed(heap') && InRange(heap, it) && Extends(heap, heap')
    requires |Drain(heap, it)| == Remaining(it)
    ensures Drain(heap', it) == Drain(heap, it)
    decreases Remaining(it)
  {
    if Remaining(it) > 0 {
      var c := it.current.index;
      var rest := Next(heap, it).value.1;
      var rest' := Next(heap', it).value.1;
      if heap[c].next == Null {
        assert Remaining(rest) == 0 && Remaining(rest') == 0;
      } else {
        assert rest' == rest;
        DrainStable(heap, heap', rest);
      }
    }
  }

  /**
   A snapshot taken before further adds yields, after them, exactly what the
   buffer held when it was taken.
   */
  lemma SnapshotStable<T>(b: Buffer<T>, xs: seq<T>)
    requires Valid(b)
    ensures Drain(AddAll(b, xs).heap, NewIterator(b)) == Contents(b)
  {
    ContentsIsYoungestSuffix(b);
    DrainStable(b.heap, AddAll(b, xs).heap, NewIterator(b));
  }

  /** The iterator after `j` calls of `next()`, each made only while `hasNext()` holds. */
  function Step<T>(heap: Heap<T>, it: Iterator, j: nat): (r: Iterator)
    requires Closed(heap) && InRange(heap, it)
    ensures InRange(heap, r)
    decreases j
  {
    if j == 0 then it
    else
      match Next(heap, it)
      case Err(_) => it
      case Ok((_, rest)) => Step(heap, rest, j - 1)
  }

  /**
   After `j` calls of `next()` an iterator yields the rest of what it would
   have yielded, and has `j` elements fewer left.
   */
  lemma {:induction false} DrainAfterSteps<T>(heap: Heap<T>, it: Iterator, j: nat)
    requires Closed(heap) && InRange(heap, it) && j <= |Drain(heap, it)|
    ensures Drain(heap, Step(heap, it, j)) == Drain(heap, it)[j..]
    ensures Remaining(Step(heap, it, j)) == Remaining(it) - j
    decreases j
  {
    if j > 0 {
      var r := Next(heap, it);
      assert r.Ok?;
      var rest := r.value.1;
      assert Drain(heap, it) == [r.value.0] + Drain(heap, rest);
      assert Step(heap, it, j) == Step(heap, rest, j - 1);
      DrainAfterSteps(heap, rest, j - 1);
      assert Drain(heap, it)[j..] == Drain(heap, rest)[j - 1..];
    }
  }

  /**
   Snapshot stability part-way through a traversal: an iterator that has
   already returned `j` elements of its snapshot returns the rest unchanged
   after further adds.
   */
  lemma SnapshotStableMidway<T>(b: Buffer<T>, xs: seq<T>, j: nat)
    requires Valid(b) && j <= b.size
    ensures |Contents(b)| == b.size
    ensures Drain(AddAll(b, xs).heap, Step(b.heap, NewIterator(b), j)) == Contents(b)[j..]
  {
    var it := NewIterator(b);
    ContentsIsYoungestSuffix(b);
    DrainAfterSteps(b.heap, it, j);
    DrainStable(b.heap, AddAll(b, xs).heap, Step(b.heap, it, j));
  }

  // ---------------------------------------------------------------------------
  // The iterator protocol

  /** The empty-list iterator yields nothing, refuses `next()` and fails `remove()`. */
  lemma EmptyIteration<T>(heap: Heap<T>)
    requires Closed(heap)
    ensures Drain(heap, EmptyIterator) == []
    ensures Next(heap, EmptyIterator) == Err(NoSuchElement)
  {
  }

  /**
   A bounded iterator on a valid buffer answers `hasNext()` exactly while
   fewer than `size` elements were returned, then `next()` throws.
   */
  lemma ExhaustedAfterSize<T>(heap: Heap<T>, k: nat, size: int, count: int)
    requires Linked(heap) && 0 <= count <= size && k + (size - count) <= |heap|
    ensures HasNext(BoundedIterator(At(heap, k), size, count)) <==> count < size
    ensures count == size ==> Next(heap, BoundedIterator(At(heap, k), size, count)) == Err(NoSuchElement)
  {
  }

  /** A buffer of capacity one keeps only the latest element. */
  lemma SingleSlot<T>(x: T, y: T)
    ensures var b := Add(Add(New<T>(1).value, x), y);
            b.size == 1 && b.first == b.last && Contents(b) == [y]
  {
    var b0 := New<T>(1).value;
    AddToEmpty(b0, x);
    AddToFull(Add(b0, x), y);
  }

  /** Capacity three after adding A, B, C, D: the snapshot holds B, C, D, oldest first. */
  lemma CapacityThreeScenario()
    ensures var b := AddAll(New<char>(3).value, ['A', 'B', 'C', 'D']);
            b.size == 3 && GetMaxSize(b) == 3 && Contents(b) == ['B', 'C', 'D']
  {
    var xs := ['A', 'B', 'C', 'D'];
    SizeAfterAdds(3, xs);
    IterateAfterAdds(3, xs);
    assert Retained(xs, 3) == ['B', 'C', 'D'];
  }
}
