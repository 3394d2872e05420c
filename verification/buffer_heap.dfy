/**
 The bounded buffer on the heap, following the Java class field by field.

 Nodes are objects whose `next` field is written at most once, from null to
 the node added after them. A ghost `history` records every node the buffer
 ever allocated, oldest first; the retained list is its last `size` entries.
 `Abstract()` maps the objects to the value model in `BufferArena`, and `Add`
 is proved to perform exactly the arena model's `Add`.
 */
module BufferHeap {
  import opened Failures
  import A = BufferArena

  /** A list node: the stored element and the link to the node added right after it. */
  class ObjectRef<T> {
    const value: T
    var next: ObjectRef?<T>

    constructor (t: T)
      ensures value == t && next == null
    {
      value := t;
      next := null;
    }
  }

  /** The cells of the arena model for a chain of nodes linked in order. */
  ghost function Cells<T>(nodes: seq<ObjectRef<T>>): A.Heap<T>
  {
    seq(|nodes|, i requires 0 <= i < |nodes| =>
      A.ObjectRef(nodes[i].value, if i + 1 < |nodes| then A.Addr(i + 1) else A.Null))
  }

  /** Appending a node to a chain links the previous youngest cell to it. */
  lemma CellsAppend<T>(nodes: seq<ObjectRef<T>>, added: ObjectRef<T>)
    ensures var n := |nodes|;
            var cell := A.ObjectRef(added.value, A.Null);
            Cells(nodes + [added]) ==
              if n == 0 then [cell]
              else (Cells(nodes) + [cell])[n - 1 := Cells(nodes)[n - 1].(next := A.Addr(n))]
  {
  }

  class BoundedBuffer<T> {
    const maxSize: int
    /** The elder retained node. */
    var last: ObjectRef?<T>
    /** The younger retained node. */
    var first: ObjectRef?<T>
    var size: int
    /** Every node this buffer allocated, oldest first; the retained ones are the last `size`. */
    ghost var history: seq<ObjectRef<T>>

    /**
     The class invariant: the nodes are linked in the order they were added,
     the youngest link is null, `size` is within `[1, maxSize]` once anything
     was added, and `first`/`last` are the youngest and the `size`-th youngest
     node.
     */
    ghost predicate Valid()
      reads this, history
    {
      && 1 <= maxSize
      && 0 <= size <= maxSize
      && size <= |history|
      && (forall i :: 0 <= i < |history| - 1 ==> history[i].next == history[i + 1])
      && (|history| > 0 ==> history[|history| - 1].next == null)
      && (size == 0 <==> first == null)
      && (size == 0 <==> last == null)
      && (size == 0 ==> |history| == 0)
      && (size > 0 ==> first == history[|history| - 1] && last == history[|history| - size])
    }

    /** The retained nodes, oldest first. */
    ghost function Nodes(): seq<ObjectRef<T>>
      reads this
      requires 0 <= size <= |history|
    {
      history[|history| - size..]
    }

    /** This buffer as a value of the arena model: node `i` of `history` is cell `i`. */
    ghost function Abstract(): A.Buffer<T>
      reads this, history
      requires Valid()
    {
      var n := |history|;
      A.Buffer(maxSize, Cells(history),
               if size == 0 then A.Null else A.Addr(n - size),
               if size == 0 then A.Null else A.Addr(n - 1),
               size)
    }

    constructor Init(maxSize: int)
      requires 1 <= maxSize
      ensures Valid() && this.maxSize == maxSize && size == 0 && history == []
    {
      this.maxSize := maxSize;
      size := 0;
      last := null;
      first := null;
      history := [];
    }

    /** `new BoundedBuffer(maxSize)`, which throws for a max size below one. */
    static method Create(maxSize: int) returns (r: Result<BoundedBuffer<T>>)
      ensures r.Err? <==> maxSize < 1
      ensures r.Err? ==> r.error == IllegalArgument
      ensures r.Ok? ==> fresh(r.value) && r.value.Valid() && r.value.maxSize == maxSize
      ensures r.Ok? ==> r.value.size == 0 && r.value.Abstract() == A.New<T>(maxSize).value
    {
      if maxSize < 1 {
        return Err(IllegalArgument);
      }
      var b := new BoundedBuffer.Init(maxSize);
      return Ok(b);
    }

    /** `getMaxSize()`: the constant set by the constructor. */
    function GetMaxSize(): (r: int)
      reads this, history
      ensures r == maxSize
      ensures Valid() ==> 1 <= r
    {
      maxSize
    }

    /** The abstraction keeps the invariant of the arena model. */
    lemma AbstractValid()
      requires Valid()
      ensures A.Valid(Abstract())
    {
    }

    /** `add(t)`: only this buffer and the previous youngest node are written. */
    method Add(t: T)
      requires Valid()
      modifies this, first
      ensures Valid()
      ensures |history| == |old(history)| + 1 && history[..|old(history)|] == old(history)
      ensures fresh(first) && first.value == t
      ensures Abstract() == A.Add(old(Abstract()), t)
    {
      ghost var before := Abstract();
      ghost var h0 := history;
      var added := new ObjectRef(t);
      if first == null {
        last, first := added, added;
        size := 1;
      } else {
        var tmp := first;
        first := added;
        tmp.next := first;
        if size < maxSize {
          size := size + 1;
        } else {
          assert last == history[|history| - size];
          assert last.next == (if size == 1 then added else history[|history| - size + 1]);
          last := last.next;
        }
      }
      history := history + [added];
      assert history[..|h0|] == h0;
      CellsAppend(h0, added);
    }

    /** `iterator()`: the pair `(last, size)` copied at once; `None` is the empty-list iterator. */
    method Iterator() returns (it: Option<BoundedIterator<T>>)
      requires Valid()
      ensures it.None? <==> size == 0
      ensures it.Some? ==> fresh(it.value) && it.value.Valid() && it.value.count == 0
      ensures it.Some? ==> it.value.Values() == A.Contents(Abstract())
    {
      var last := this.last;
      var size := this.size;
      if size == 0 {
        return None;
      }
      A.ContentsIsYoungestSuffix(Abstract());
      var bounded := new BoundedIterator(last, size, Nodes());
      return Some(bounded);
    }
  }

  /** The iterator over a snapshot: walks `size` links forward from the captured `last`. */
  class BoundedIterator<T> {
    const size: int
    var current: ObjectRef?<T>
    var count: int
    /** The nodes of the snapshot, oldest first. */
    ghost const chain: seq<ObjectRef<T>>

    ghost predicate Valid()
      reads this, chain
    {
      && 0 <= count <= size
      && |chain| == size
      && (forall i :: 0 <= i < |chain| - 1 ==> chain[i].next == chain[i + 1])
      && (count < size ==> current == chain[count])
    }

    /** The elements of the snapshot, oldest first. */
    ghost function Values(): seq<T>
      reads this
    {
      seq(|chain|, i requires 0 <= i < |chain| => chain[i].value)
    }

    constructor (current: ObjectRef<T>, size: int, ghost chain: seq<ObjectRef<T>>)
      requires 0 < size == |chain| && current == chain[0]
      requires forall i :: 0 <= i < |chain| - 1 ==> chain[i].next == chain[i + 1]
      ensures Valid() && count == 0 && this.chain == chain
    {
      this.current := current;
      this.size := size;
      this.chain := chain;
      this.count := 0;
    }

    /**
     `hasNext()`. On a valid snapshot the cursor is null only once `size`
     elements were returned, so the null test never decides.
     */
    predicate HasNext()
      reads this, chain
      ensures Valid() ==> (HasNext() <==> count < size)
    {
      count < size && current != null
    }

    /** `next()`: the next element of the snapshot, or `NoSuchElement` once `size` were returned. */
    method Next() returns (r: Result<T>)
      requires Valid()
      modifies this
      ensures Valid()
      ensures old(count) < size ==> r == Ok(Values()[old(count)]) && count == old(count) + 1
      ensures old(count) == size ==> r == Err(NoSuchElement) && count == old(count)
    {
      if !HasNext() {
        return Err(NoSuchElement);
      }
      var next := current.value;
      current := current.next;
      count := count + 1;
      return Ok(next);
    }

    /** `remove()`: always unsupported. */
    method Remove() returns (r: Outcome)
      ensures r == Fail(UnsupportedOperation)
    {
      return Fail(UnsupportedOperation);
    }
  }

  /**
   `add` keeps every snapshot iterator valid and its remaining elements
   unchanged: the only link it writes is the youngest node's, which was null,
   and every link an iterator still follows is not.
   */
  method AddKeepsSnapshot<T>(b: BoundedBuffer<T>, it: BoundedIterator<T>, t: T)
    requires b.Valid() && it.Valid()
    modifies b, b.first
    ensures b.Valid() && it.Valid()
    ensures it.Values() == old(it.Values()) && it.count == old(it.count)
    ensures fresh(b.first)
    ensures b.Abstract() == A.Add(old(b.Abstract()), t)
  {
    b.Add(t);
  }

  /**
   Take a snapshot, then alternate `next()` with `add` of the elements of
   `xs`: the traversal returns exactly what the buffer held when the snapshot
   was taken.
   */
  method IterateWhileAdding<T>(b: BoundedBuffer<T>, xs: seq<T>) returns (vs: seq<T>)
    requires b.Valid()
    modifies b, b.first
    ensures b.Valid()
    ensures vs == old(A.Contents(b.Abstract()))
  {
    ghost var expected := A.Contents(b.Abstract());
    ghost var first0 := b.first;
    var snapshot := b.Iterator();
    vs := [];
    if snapshot.None? {
      A.ContentsIsYoungestSuffix(b.Abstract());
      return;
    }
    var it := snapshot.value;
    var i := 0;
    while it.HasNext()
      invariant b.Valid() && it.Valid()
      invariant b.first == null || b.first == first0 || fresh(b.first)
      invariant it.Values() == expected
      invariant vs == expected[..it.count]
      invariant i <= |xs|
      decreases it.size - it.count
    {
      var r := it.Next();
      vs := vs + [r.value];
      if i < |xs| {
        AddKeepsSnapshot(b, it, xs[i]);
        i := i + 1;
      }
    }
  }
}
