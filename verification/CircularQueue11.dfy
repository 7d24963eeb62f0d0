/** What `circular_queue` of `circular_queue_cpp11` adds: writing over the oldest items, catching
    up, and a `begin()` that compares raw offsets. */
module CircularQueue11 {
  import opened Common
  import opened Modular

  /** `begin()` of cpp11 is null. */
  predicate BeginNull(head: nat, tail: nat) {
    tail <= head
  }

  /** The raw comparison tells an empty queue from any other exactly when no offset wraps between
      the head and the tail. (cpp98 compares for equality, which wrapping does not disturb.) */
  lemma BeginWrapIff(heads: nat, tails: nat, values: nat)
    requires heads <= tails < heads + values
    ensures (BeginNull(Rem(heads, values), Rem(tails, values)) <==> heads == tails)
            <==> heads == tails || heads / values == tails / values
    ensures Rem(heads, values) == Rem(tails, values) <==> heads == tails
  {
    RemEqual(tails, heads, values);
    StraightOrder(heads, tails, values);
  }

  /** The newest of `count` offsets that shares the cell of `offset`. */
  function Newest(offset: nat, count: nat, size: nat): (newest: nat)
    requires size > 0 && offset < count
    ensures newest < count <= newest + size
    decreases count - offset
  {
    if offset + size < count then Newest(offset + size, count, size) else offset
  }

  lemma {:induction false} NewestSharesCell(offset: nat, count: nat, size: nat)
    requires size > 0 && offset < count
    ensures Rem(Newest(offset, count, size), size) == Rem(offset, size)
    decreases count - offset
  {
    if offset + size < count {
      NewestSharesCell(offset + size, count, size);
    }
  }

  /** The item pushed at `offset` is still in its cell. */
  ghost predicate Kept<T>(cells: seq<T>, pushed: seq<T>, offset: nat) {
    0 < |cells| && offset < |pushed| && cells[Rem(offset, |cells|)] == pushed[offset]
  }

  /** The cell of `offset` has been written again: for one of the `pushes` items pushed, or, once
      the cell after the last of them is `dirty`, for the next. */
  predicate WrittenOver(offset: nat, pushes: nat, dirty: bool, size: nat) {
    offset + size < pushes + if dirty then 1 else 0
  }

  /** Each cell holds the newest item that maps to it. */
  ghost predicate NewestKept<T>(cells: seq<T>, pushed: seq<T>, dirty: bool) {
    forall o: nat :: o < |pushed| && !WrittenOver(o, |pushed|, dirty, |cells|) ==> Kept(cells, pushed, o)
  }

  /** What the comment on `begin()` says of it: null exactly when the queue is empty or its front
      has been written over. */
  predicate CommentHolds(heads: nat, pushes: nat, dirty: bool, size: nat, values: nat)
    requires values > 0
  {
    BeginNull(Rem(heads, values), Rem(pushes, values)) <==>
    heads == pushes || WrittenOver(heads, pushes, dirty, size)
  }

  /** The code meets the comment exactly when of two things both have happened or neither: the
      front has been written over; an offset has wrapped between head and tail. So, before any
      wrap, exactly while the queue is not over-full. */
  lemma BeginCommentIff(heads: nat, pushes: nat, dirty: bool, size: nat, values: nat)
    requires size > 0 && heads <= pushes < heads + values
    ensures CommentHolds(heads, pushes, dirty, size, values)
            <==> (heads / values == pushes / values <==> !WrittenOver(heads, pushes, dirty, size))
    ensures heads / values == pushes / values && !dirty ==>
      (CommentHolds(heads, pushes, dirty, size, values) <==> pushes - heads <= size)
  {
    StraightOrder(heads, pushes, values);
  }

  /** Writing the cell after the last item loses at most the item a whole round before. */
  lemma FillKeeps<T>(cells: seq<T>, pushed: seq<T>, dirty: bool, item: T)
    requires 0 < |cells| && NewestKept(cells, pushed, dirty)
    ensures NewestKept(cells[Rem(|pushed|, |cells|) := item], pushed, true)
  {
    var filled := cells[Rem(|pushed|, |cells|) := item];
    forall o: nat | o < |pushed| && !WrittenOver(o, |pushed|, true, |cells|)
      ensures Kept(filled, pushed, o)
    {
      RemEqual(|pushed|, o, |cells|);
      assert Kept(cells, pushed, o);
    }
  }

  /** The item in that cell may then join: again the last `|cells|` are in their cells. */
  lemma PushKeeps<T>(cells: seq<T>, pushed: seq<T>, dirty: bool)
    requires 0 < |cells| && NewestKept(cells, pushed, dirty)
    ensures NewestKept(cells, pushed + [cells[Rem(|pushed|, |cells|)]], false)
  {
    var more := pushed + [cells[Rem(|pushed|, |cells|)]];
    forall o: nat | o < |more| && !WrittenOver(o, |more|, false, |cells|)
      ensures Kept(cells, more, o)
    {
      assert o < |pushed| ==> Kept(cells, pushed, o);
    }
  }

  class CircularQueue<T(0)> {
    const size: nat
    const values: nat
    var head: nat
    var tail: nat
    const data: array<T>

    ghost var heads: nat       // how far the head has moved, without wrapping
    ghost var pushed: seq<T>   // every item pushed
    ghost var dirty: bool      // the cell after the last item has been written since the last push

    ghost predicate Intact(offset: nat)
      reads this, data
    {
      Kept(data[..], pushed, offset)
    }

    /** The writer may be any number of rounds ahead of the reader, short of a whole round of the
        offsets. */
    ghost predicate Valid()
      reads this, data
    {
      && 0 < size < values && data.Length == size
      && head == Rem(heads, values) && tail == Rem(|pushed|, values)
      && heads <= |pushed| < heads + values
      && Countable(size, values, |pushed|)
      && NewestKept(data[..], pushed, dirty)
    }

    /** No offset has wrapped between the head and the tail. */
    ghost predicate Straight()
      reads this
    {
      values > 0 && heads / values == |pushed| / values
    }

    constructor (size: nat, values: nat, initial: T)
      requires 0 < size < values
      ensures Valid() && fresh(data) && pushed == [] && heads == 0 && !dirty
      ensures this.size == size && this.values == values
    {
      this.size, this.values := size, values;
      head, tail, heads := 0, 0, 0;
      data := new T[size](_ => initial);
      pushed, dirty := [], false;
    }

    method Size() returns (n: nat)
      requires Valid()
      ensures n == |pushed| - heads
    {
      SubRem(|pushed|, heads, values);
      n := Sub(tail, head, values);
    }

    /** The cell the next item goes to, whether or not it is in use. */
    method EndClobber() returns (cell: nat)
      requires Valid()
      ensures cell == Rem(|pushed|, size) && cell < data.Length
    {
      CellOfCount(size, values, |pushed|);
      cell := Rem(tail, size);
    }

    /** The caller's store through that pointer: at most one item is lost, the one pushed `_size`
        pushes ago. */
    method Fill(cell: nat, item: T)
      requires Valid() && cell == Rem(|pushed|, size)
      modifies data, `dirty
      ensures Valid() && dirty && data[cell] == item
      ensures data[..] == old(data[..])[cell := item]
    {
      FillKeeps(data[..], pushed, dirty, item);
      data[cell] := item;
      dirty := true;
      assert data[..] == old(data[..])[cell := item];
    }

    /** There is room in the offsets, if not in the ring, for `n` items more. */
    ghost predicate CanPush(n: nat)
      reads this
    {
      |pushed| + n < heads + values && Countable(size, values, |pushed| + n)
    }

    /** The item in the cell after the last joins, whatever was there before. */
    method PushBack()
      requires Valid() && CanPush(1)
      modifies `tail, `pushed, `dirty
      ensures Valid() && !dirty
      ensures pushed == old(pushed) + [data[Rem(old(|pushed|), size)]]
      ensures forall o: nat :: o < |pushed| && |pushed| <= o + size ==> Intact(o)
    {
      PushKeeps(data[..], pushed, dirty);
      IncRem(|pushed|, values);
      pushed := pushed + [data[Rem(|pushed|, size)]];
      tail := Inc(tail, values);
      dirty := false;
    }

    /** The usual way to write, over old items if need be. */
    method Clobber(item: T)
      requires Valid() && CanPush(1)
      modifies data, `tail, `pushed, `dirty
      ensures Valid() && !dirty && pushed == old(pushed) + [item]
    {
      var cell := EndClobber();
      Fill(cell, item);
      PushBack();
    }

    /** Any number of items written over the ring, full or not: the last `min(pushed, _size)` of
        all that were ever pushed are intact. */
    method ClobberAll(items: seq<T>)
      requires Valid() && CanPush(|items|)
      modifies data, `tail, `pushed, `dirty
      ensures Valid() && pushed == old(pushed) + items && dirty == (old(dirty) && items == [])
      ensures !dirty ==> forall o: nat :: o < |pushed| && |pushed| <= o + size ==> Intact(o)
    {
      for i := 0 to |items|
        invariant Valid() && pushed == old(pushed) + items[..i] && dirty == (old(dirty) && i == 0)
      {
        Clobber(items[i]);
      }
      assert items[..|items|] == items;
    }

    /** The head moves forward by `n`; the queue stays in order if that is not past its tail. */
    method PopNFront(n: nat)
      requires Valid()
      modifies `head, `heads
      ensures heads == old(heads) + n && head == Rem(heads, values)
      ensures heads <= |pushed| ==> Valid()
    {
      RemIsMod(heads, values);
      RemIsMod(heads + n, values);
      AddWrapped(heads, n, values);
      head := (head + n) % values;
      heads := heads + n;
    }

    /** What `at` returns for a live offset is the newest item in its cell: the item pushed there,
        while that is intact. Once an offset has wrapped between head and tail it returns nothing. */
    method At(offset: nat) returns (item: Result<T>)
      requires Valid() && offset < values
      ensures Straight() ==> (item.Ok? <==> head <= offset < head + (|pushed| - heads))
      ensures Straight() && item.Ok? ==> var count := heads + (offset - head);
        && (Intact(count) ==> item == Ok(pushed[count]))
        && (!dirty ==> item == Ok(pushed[Newest(count, |pushed|, size)]))
      ensures !Straight() ==> item == Err(OutOfRange)
    {
      StraightOrder(heads, |pushed|, values);
      if offset < head || offset >= tail {
        return Err(OutOfRange);
      }
      ghost var count := heads + (offset - head);
      RemOfBetween(heads, count, values);
      CellOfCount(size, values, count);
      NewestSharesCell(count, |pushed|, size);
      assert !dirty ==> Kept(data[..], pushed, Newest(count, |pushed|, size));
      return Ok(data[Rem(offset, size)]);
    }

    /** While no offset wraps between head and tail, null exactly when the queue is empty; once one
        does, always null. A front that has been written over is not noticed: its cell then shows
        the newest item that maps to it. */
    method Begin() returns (cell: Option<nat>)
      requires Valid()
      ensures cell == None <==> heads == |pushed| || !Straight()
      ensures cell.Some? ==> cell.value == Rem(heads, size) && cell.value < data.Length
      ensures cell.Some? && Intact(heads) ==> data[cell.value] == pushed[heads]
      ensures cell.Some? && !dirty ==> data[cell.value] == pushed[Newest(heads, |pushed|, size)]
    {
      StraightOrder(heads, |pushed|, values);
      if tail <= head {
        return None;
      }
      CellOfCount(size, values, heads);
      NewestSharesCell(heads, |pushed|, size);
      assert !dirty ==> Kept(data[..], pushed, Newest(heads, |pushed|, size));
      return Some(Rem(head, size));
    }

    /** The reader's way to catch up, `pop_n_front(size() - _size)` when the writer has lapped it:
        afterwards the queue holds at most `_size` items, its front is the oldest that survives,
        and all are intact, but for that front where its cell has been written for the next. */
    method CatchUp()
      requires Valid()
      modifies `head, `heads
      ensures Valid() && |pushed| - heads <= size
      ensures heads == if |pushed| - old(heads) > size then |pushed| - size else old(heads)
      ensures forall o: nat :: heads <= o < |pushed| && !(dirty && |pushed| == o + size) ==> Intact(o)
    {
      var n := Size();
      if n > size {
        PopNFront(n - size);
      }
    }
  }

  // ----- Queues on which begin() is not what its comment says -----

  /** A queue over which more than `_size` items have been written: `begin()` is not null, and what
      it points to is not the oldest item but a later one. */
  method LappedFront<T(0)>(size: nat, values: nat, items: seq<T>) returns (cell: Option<nat>, shown: T)
    requires 0 < size < |items| < values
    ensures WrittenOver(0, |items|, false, size) && cell == Some(0)
    ensures 0 < Newest(0, |items|, size) && shown == items[Newest(0, |items|, size)]
  {
    var queue := new CircularQueue(size, values, items[0]);
    queue.ClobberAll(items);
    assert queue.pushed == items;
    Unique(0, 0, values, 0);
    Unique(|items|, 0, values, |items|);
    cell := queue.Begin();
    shown := queue.data[cell.value];
  }

  /** With room for two, after 1, 2 and 3 the front shows 3. */
  method LappedFrontExample() returns (shown: int)
    ensures shown == 3
  {
    var cell;
    cell, shown := LappedFront(2, UINT32_VALUES, [1, 2, 3]);
  }

  /** A queue whose one item follows the wrap: `begin()` is null. */
  method WrappedFront<T(0)>(size: nat, values: nat, item: T) returns (n: nat, cell: Option<nat>)
    requires 0 < size < values && values % size == 0
    ensures n == 1 && cell == None
  {
    var queue := new CircularQueue(size, values, item);
    for i := 0 to values - 1
      invariant queue.Valid() && queue.size == size && queue.values == values && fresh(queue) && fresh(queue.data)
      invariant queue.heads == |queue.pushed| == i
    {
      queue.Clobber(item);
      queue.PopNFront(1);
    }
    queue.Clobber(item);
    n := queue.Size();
    Unique(values - 1, 0, values, values - 1);
    Unique(values, 1, values, 0);
    cell := queue.Begin();
  }
}
