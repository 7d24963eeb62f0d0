/** `circular_queue` of `circular_queue_cpp98`: free-running wrapped offsets into an array, used by
    one thread. A pointer into `_data` is the index of its cell. `%` on offsets is `Modular.Rem`. */
module CircularQueue98 {
  import opened Common
  import opened Modular

  /** What a producer and a consumer ask of the queue, in the manner of its tests: a full queue
      is not written, an empty one is not read. */
  datatype Op<T> = Produce(item: T) | Consume | Undo

  /** The unbounded queue behind it: the answer to one operation, and the new contents. */
  function Answer<T>(size: nat, items: seq<T>, op: Op<T>): (Option<T>, seq<T>) {
    match op
    case Produce(item) => (None, if |items| < size then items + [item] else items)
    case Consume => if items == [] then (None, items) else (Some(items[0]), items[1..])
    case Undo => if items == [] then (None, items) else (Some(items[|items| - 1]), items[..|items| - 1])
  }

  function Answers<T>(size: nat, items: seq<T>, ops: seq<Op<T>>): (seq<Option<T>>, seq<T>)
    decreases |ops|
  {
    if ops == [] then ([], items)
    else
      var (first, after) := Answer(size, items, ops[0]);
      var (rest, last) := Answers(size, after, ops[1..]);
      ([first] + rest, last)
  }

  /** How many items one operation pushes: one, if it is a `Produce` that finds room. */
  function Joins<T>(size: nat, items: seq<T>, op: Op<T>): nat {
    if op.Produce? && |items| < size then 1 else 0
  }

  /** How many items a run pushes. */
  function Pushes<T>(size: nat, items: seq<T>, ops: seq<Op<T>>): nat
    decreases |ops|
  {
    if ops == [] then 0
    else Joins(size, items, ops[0]) + Pushes(size, Answer(size, items, ops[0]).1, ops[1..])
  }

  // ----- What that unbounded queue is -----

  /** The items that find room, by counting: `n` items are in the queue before. */
  function Accepted<T>(size: nat, n: nat, ops: seq<Op<T>>): seq<T>
    decreases |ops|
  {
    if ops == [] then []
    else if ops[0].Produce? then
      if n < size then [ops[0].item] + Accepted(size, n + 1, ops[1..]) else Accepted(size, n, ops[1..])
    else Accepted(size, if n > 0 then n - 1 else 0, ops[1..])
  }

  /** How many items are in the queue afterwards, by counting. */
  function CountAfter<T>(size: nat, n: nat, ops: seq<Op<T>>): nat
    decreases |ops|
  {
    if ops == [] then n
    else if ops[0].Produce? then CountAfter(size, if n < size then n + 1 else n, ops[1..])
    else CountAfter(size, if n > 0 then n - 1 else 0, ops[1..])
  }

  /** The items that `Consume` is answered with. */
  function Delivered<T>(ops: seq<Op<T>>, answers: seq<Option<T>>): seq<T>
    requires |ops| == |answers|
  {
    if ops == [] then []
    else (if ops[0].Consume? && answers[0].Some? then [answers[0].value] else []) + Delivered(ops[1..], answers[1..])
  }

  /** First in, first out: without `Undo` the items that were there and the items that found room
      are, in order, the items delivered and the items left; and as many are left as counting
      gives, so that a `Consume` goes unanswered only for want of an item. */
  lemma {:induction false} FirstInFirstOut<T>(size: nat, items: seq<T>, ops: seq<Op<T>>)
    requires forall k :: 0 <= k < |ops| ==> !ops[k].Undo?
    ensures var (answers, last) := Answers(size, items, ops);
      && |answers| == |ops|
      && items + Accepted(size, |items|, ops) == Delivered(ops, answers) + last
      && |last| == CountAfter(size, |items|, ops)
    decreases |ops|
  {
    if ops != [] {
      var (first, after) := Answer(size, items, ops[0]);
      FirstInFirstOut(size, after, ops[1..]);
      var (rest, last) := Answers(size, after, ops[1..]);
      assert ([first] + rest)[1..] == rest;
      var more := Accepted(size, |after|, ops[1..]);
      if ops[0].Produce? && |items| < size {
        assert items + ([ops[0].item] + more) == after + more;
      } else if ops[0].Consume? && items != [] {
        assert items + more == [items[0]] + (after + more);
        assert [items[0]] + (Delivered(ops[1..], rest) + last) == [items[0]] + Delivered(ops[1..], rest) + last;
      }
    }
  }

  /** The items a run pushes are those that find room. */
  lemma {:induction false} PushesAccepted<T>(size: nat, items: seq<T>, ops: seq<Op<T>>)
    ensures Pushes(size, items, ops) == |Accepted(size, |items|, ops)|
    decreases |ops|
  {
    if ops != [] {
      PushesAccepted(size, Answer(size, items, ops[0]).1, ops[1..]);
    }
  }

  /** `Undo` takes back what has just been pushed: it answers with that item and leaves the queue as
      it was. On an empty queue there is nothing to take back. */
  lemma UndoTakesBack<T>(size: nat, items: seq<T>, item: T)
    requires |items| < size
    ensures Answer(size, Answer(size, items, Produce(item)).1, Undo) == (Some(item), items)
    ensures Answer<T>(size, [], Undo) == (None, [])
  {
    assert (items + [item])[..|items|] == items;
  }

  /** Which cell an offset that never wrapped would pick, and which the wrapped one picks. */
  function WrappedCell(size: nat, values: nat, count: nat): nat
    requires 0 < size && 0 < values
  {
    Rem(Rem(count, values), size)
  }

  lemma AnswersFrom<T>(size: nat, items: seq<T>, ops: seq<Op<T>>, i: nat, answers: seq<Option<T>>)
    requires i < |ops|
    ensures var (first, after) := Answer(size, items, ops[i]);
      var (rest, last) := Answers(size, after, ops[i + 1..]);
      var (all, final) := Answers(size, items, ops[i..]);
      answers + all == answers + [first] + rest && final == last
    ensures Pushes(size, items, ops[i..])
            == Joins(size, items, ops[i]) + Pushes(size, Answer(size, items, ops[i]).1, ops[i + 1..])
  {
  }

  class CircularQueue<T(0)> {
    const size: nat      // _size
    const values: nat    // the number of values of Int, 2^32 for uint32_t
    var head: nat
    var tail: nat
    const data: array<T>

    // How many items have been popped, and pushed less those taken back, without wrapping.
    ghost var heads: nat
    ghost var tails: nat

    ghost predicate Valid()
      reads this, data
    {
      && 0 < size < values && data.Length == size
      && head == Rem(heads, values) && tail == Rem(tails, values)
      && heads <= tails <= heads + size
      && Countable(size, values, tails)
    }

    ghost function Contents(): (items: seq<T>)
      reads this, data
      requires Valid()
      ensures |items| == tails - heads
    {
      seq(tails - heads, k requires 0 <= k < tails - heads reads this, data => data[Rem(heads + k, size)])
    }

    /** The cell after the last item. */
    ghost function SlotCell(): nat
      reads this, data
      requires Valid()
    {
      Rem(tails, size)
    }

    /** The slot is none of the cells in use while the queue is not full. */
    lemma SlotIsFree()
      requires Valid() && tails - heads < size
      ensures forall o: nat :: heads <= o < tails ==> Rem(o, size) != SlotCell()
    {
      forall o: nat | heads <= o < tails
        ensures Rem(o, size) != SlotCell()
      {
        RemEqual(tails, o, size);
      }
    }

    constructor (size: nat, values: nat, initial: T)
      requires 0 < size < values
      ensures Valid() && fresh(data) && Contents() == []
      ensures this.size == size && this.values == values && heads == tails == 0
    {
      this.size, this.values := size, values;
      head, tail := 0, 0;
      data := new T[size](_ => initial);
      heads, tails := 0, 0;
    }

    method Size() returns (n: nat)
      requires Valid()
      ensures n == |Contents()|
    {
      SubRem(tails, heads, values);
      n := Sub(tail, head, values);
    }

    method Empty() returns (empty: bool)
      requires Valid()
      ensures empty <==> Contents() == []
    {
      RemEqual(tails, heads, values);
      empty := tail == head;
    }

    /** A free cell, or none exactly when the queue is full. */
    method End() returns (cell: Option<nat>)
      requires Valid()
      ensures cell == None <==> |Contents()| == size
      ensures cell.Some? ==> cell.value == SlotCell()
      ensures cell.Some? ==> forall o: nat :: heads <= o < tails ==> Rem(o, size) != cell.value
    {
      var n := Size();
      if n >= size {
        return None;
      }
      CellOfCount(size, values, tails);
      SlotIsFree();
      return Some(Rem(tail, size));
    }

    /** The cell of the oldest item, or none exactly when the queue is empty. */
    method Begin() returns (cell: Option<nat>)
      requires Valid()
      ensures cell == None <==> Contents() == []
      ensures cell.Some? ==> cell.value == Rem(heads, size) && data[cell.value] == Contents()[0]
    {
      RemEqual(tails, heads, values);
      if tail == head {
        return None;
      }
      CellOfCount(size, values, heads);
      return Some(Rem(head, size));
    }

    method Front() returns (item: Result<T>)
      requires Valid()
      ensures item == if Contents() == [] then Err(RangeError) else Ok(Contents()[0])
    {
      RemEqual(tails, heads, values);
      if tail == head {
        return Err(RangeError);
      }
      CellOfCount(size, values, heads);
      return Ok(data[Rem(head, size)]);
    }

    method Back() returns (item: Result<T>)
      requires Valid()
      ensures item == if Contents() == [] then Err(RangeError) else Ok(Contents()[|Contents()| - 1])
    {
      RemEqual(tails, heads, values);
      if tail == head {
        return Err(RangeError);
      }
      IncRem(tails - 1, values);
      CellOfCount(size, values, tails - 1);
      return Ok(data[Rem(if tail == 0 then values - 1 else tail - 1, size)]);
    }

    /** The caller's store through the pointer that `end()` returned. */
    method Fill(cell: nat, item: T)
      requires Valid() && |Contents()| < size && cell == SlotCell()
      modifies data
      ensures Valid() && Contents() == old(Contents()) && data[SlotCell()] == item
    {
      SlotIsFree();
      data[cell] := item;
      assert Contents() == old(Contents());
    }

    /** The item in the slot joins the queue. As documented the queue must not be full; where
        offsets do not wrap harmlessly, fewer than `values` items may be pushed. */
    method PushBack()
      requires Valid() && |Contents()| < size && Countable(size, values, tails + 1)
      modifies `tail, `tails
      ensures Valid() && Contents() == old(Contents() + [data[SlotCell()]])
      ensures tails == old(tails) + 1
    {
      IncRem(tails, values);
      tail := Inc(tail, values);
      tails := tails + 1;
    }

    /** A place in the queue is taken first and filled afterwards. On a full queue, which the
        documentation rules out, the place is the oldest item's and the count is one too many. */
    method AtomicPushBackGetEnd() returns (cell: nat)
      requires Valid() && Countable(size, values, tails + 1)
      modifies `tail, `tails
      ensures tails == old(tails) + 1 && tail == Rem(tails, values) && cell == Rem(tails - 1, size)
      ensures old(|Contents()|) < size ==>
        && Valid() && Contents() == old(Contents()) + [data[cell]]
      ensures old(|Contents()|) == size ==> tails == heads + size + 1 && data[cell] == old(Contents()[0])
    {
      CellOfCount(size, values, tails);
      IncRem(tails, values);
      cell := Rem(tail, size);
      tail := Inc(tail, values);
      tails := tails + 1;
    }

    /** The newest item leaves, its push undone; its cell becomes the slot again. */
    method PopBack()
      requires Valid() && Contents() != []
      modifies `tail, `tails
      ensures Valid() && Contents() == old(Contents())[..|old(Contents())| - 1]
      ensures data[SlotCell()] == old(Contents())[|old(Contents())| - 1] && tails == old(tails) - 1
    {
      IncRem(tails - 1, values);
      tail := if tail == 0 then values - 1 else tail - 1;
      tails := tails - 1;
    }

    /** The oldest item leaves. As documented the queue must not be empty. */
    method PopFront()
      requires Valid() && Contents() != []
      modifies `head, `heads
      ensures Valid() && Contents() == old(Contents())[1..]
    {
      IncRem(heads, values);
      head := Inc(head, values);
      heads := heads + 1;
    }

    /** No offset has wrapped between the head and the tail. */
    ghost predicate Straight()
      reads this
    {
      values > 0 && heads / values == tails / values
    }

    /** `at` compares raw offsets. While none has wrapped between head and tail it finds exactly the
        live items, under their wrapped offsets; otherwise it finds nothing at all. */
    method At(offset: nat) returns (item: Result<T>)
      requires Valid() && offset < values
      ensures Straight() ==> (item.Ok? <==> head <= offset < head + |Contents()|)
      ensures Straight() && item.Ok? ==> item == Ok(Contents()[offset - head])
      ensures !Straight() ==> item == Err(OutOfRange)
    {
      StraightOrder(heads, tails, values);
      if offset < head || offset >= tail {
        return Err(OutOfRange);
      }
      ghost var count := heads + (offset - head);
      RemOfBetween(heads, count, values);
      CellOfCount(size, values, count);
      return Ok(data[Rem(offset, size)]);
    }

    /** One operation of `ops`, against the unbounded queue. */
    method Perform(op: Op<T>) returns (answer: Option<T>)
      requires Valid() && Countable(size, values, tails + Joins(size, Contents(), op))
      modifies this, data
      ensures Valid() && (answer, Contents()) == old(Answer(size, Contents(), op))
      ensures tails <= old(tails + Joins(size, Contents(), op))
    {
      answer := None;
      match op {
        case Produce(item) =>
          var cell := End();
          if cell.Some? {
            Fill(cell.value, item);
            PushBack();
          }
        case Consume =>
          var cell := Begin();
          if cell.Some? {
            answer := Some(data[cell.value]);
            PopFront();
          }
        case Undo =>
          var item := Back();
          if item.Ok? {
            answer := Some(item.value);
            PopBack();
          }
      }
    }

    /** Whole runs, of any length when `_size` divides the number of offset values, and otherwise
        while fewer than that number of items are pushed: the ring answers every operation as the
        unbounded queue bounded by `_size` does. Runs may follow one another. */
    method Run(ops: seq<Op<T>>) returns (answers: seq<Option<T>>)
      requires Valid() && Countable(size, values, tails + Pushes(size, Contents(), ops))
      modifies this, data
      ensures Valid() && (answers, Contents()) == old(Answers(size, Contents(), ops))
      ensures tails <= old(tails + Pushes(size, Contents(), ops))
    {
      answers := [];
      assert ops[0..] == ops;
      assert answers + Answers(size, Contents(), ops).0 == Answers(size, Contents(), ops).0;
      for i := 0 to |ops|
        invariant Valid() && |answers| == i
        invariant tails + Pushes(size, Contents(), ops[i..]) <= old(tails + Pushes(size, Contents(), ops))
        invariant var (rest, last) := Answers(size, Contents(), ops[i..]);
          old(Answers(size, Contents(), ops)) == (answers + rest, last)
      {
        AnswersFrom(size, Contents(), ops, i, answers);
        var answer := Perform(ops[i]);
        answers := answers + [answer];
      }
      assert ops[|ops|..] == [] && answers + [] == answers;
    }
  }

  /** A queue whose one item follows the wrap: `front()` returns it, but `at()` does not know the
      offset it has. */
  method WrappedFront<T(0)>(size: nat, values: nat, item: T) returns (front: Result<T>, at: Result<T>)
    requires 0 < size < values && values % size == 0
    ensures front == Ok(item) && at == Err(OutOfRange)
  {
    var queue := new CircularQueue(size, values, item);
    for i := 0 to values - 1
      invariant queue.Valid() && queue.size == size && queue.values == values && fresh(queue) && fresh(queue.data)
      invariant queue.heads == queue.tails == i
    {
      queue.PushBack();
      queue.PopFront();
    }
    var cell := queue.End();
    queue.Fill(cell.value, item);
    queue.PushBack();
    front := queue.Front();
    Unique(values - 1, 0, values, values - 1);
    Unique(values, 1, values, 0);
    at := queue.At(queue.head);
  }

  /** Two live offsets of a window share a cell. */
  ghost predicate Collides(size: nat, values: nat, h: nat, o: nat, p: nat)
    requires 0 < size && 0 < values
  {
    h <= o < p < h + size && WrappedCell(size, values, o) == WrappedCell(size, values, p)
  }

  /** When the wrap is harmless, exactly: the `_size` offsets from `h` on have different cells if
      and only if `_size` divides the number of offset values or none of them wraps. */
  lemma CellsDistinctIff(size: nat, values: nat, h: nat)
    requires 0 < size < values
    ensures (forall o: nat, p: nat :: !Collides(size, values, h, o, p))
            <==> values % size == 0 || Rem(h, values) + size <= values
  {
    if values % size == 0 || Rem(h, values) + size <= values {
      forall o: nat, p: nat
        ensures !Collides(size, values, h, o, p)
      {
        if h <= o < p < h + size {
          NoCollision(size, values, h, o, p);
        }
      }
    } else {
      var o, p := Collision(size, values, h);
    }
  }

  lemma NoCollision(size: nat, values: nat, h: nat, o: nat, p: nat)
    requires 0 < size < values && h <= o < p < h + size
    requires values % size == 0 || Rem(h, values) + size <= values
    ensures WrappedCell(size, values, o) != WrappedCell(size, values, p)
  {
    if values % size == 0 {
      RemOfRem(o, size, values);
      RemOfRem(p, size, values);
      RemEqual(p, o, size);
    } else {
      RemOfBetween(h, o, values);
      RemOfBetween(h, p, values);
      RemEqual(Rem(p, values), Rem(o, values), size);
    }
  }

  /** Where the wrap falls inside the window, an offset before it and one after it collide. */
  lemma Collision(size: nat, values: nat, h: nat) returns (o: nat, p: nat)
    requires 0 < size < values && values % size != 0 && Rem(h, values) + size > values
    ensures Collides(size, values, h, o, p)
  {
    var first := Rem(h, values);
    var before, after := values - first, size - (values - first);
    var r := values % size;
    var back := if r <= after then 1 else r - after + 1;
    o := h + before - back;
    p := h + before + (r - back);
    RemOfBetween(h, o, values);
    AfterWrap(h, p, values);
    SameCell(size, values, back);
  }

  /** Offset values `values - back` and `values % size - back` pick the same cell. */
  lemma SameCell(size: nat, values: nat, back: nat)
    requires 0 < size && back <= values % size && values >= size
    ensures Rem(values - back, size) == Rem(values % size - back, size)
  {
    var r := values % size;
    RemIsMod(values - back, size);
    Unique(values - back, values / size, size, r - back);
    RemIsMod(r - back, size);
    Unique(r - back, 0, size, r - back);
  }
}
