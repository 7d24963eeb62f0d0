/** One producer and one consumer of a `circular_queue`, interleaved arbitrarily.

    Items are several words long and are written and read one word at a time, in any order. The
    producer's stores pass through a store buffer: `push_back` has a fence before its store of
    the tail, but nothing separates that store from the words of the next item. The consumer has
    no fence at all: its stores of the head become visible any time later, in order.
 */
module Spsc {
  import opened Common
  import opened StoreBuffer
  import opened Modular

  type Item = Words

  /** `_size`, the words in a `T`, and the number of values of `Int`. */
  datatype Config = Config(size: nat, words: nat, values: nat) {
    predicate Valid() {
      0 < size < values
    }
  }

  datatype Store =
    | Tail(offset: nat, count: nat)
    | WordAt(cell: nat, i: nat, w: Word)

  datatype ProducerAt = Asking | Writing(item: Item, written: set<nat>)

  datatype ConsumerAt = Polling | Reading(got: map<nat, Word>)

  /** Shared memory. `tails` and `heads` count the offset stores that have become visible; the
      code never reads them. */
  datatype Memory = Memory(tail: nat, tails: nat, head: nat, heads: nat, cells: seq<Item>)

  datatype System = System(
    mem: Memory,
    buffer: Buffer<Store>,
    producer: ProducerAt,
    ownTail: nat,            // the producer's view of _tail_offset
    pushed: seq<Item>,       // every item pushed
    consumer: ConsumerAt,
    ownHead: nat,            // the consumer's view of _head_offset
    popped: seq<Item>)       // every item read and popped

  datatype Action =
    | End(item: Item)        // end() returns a cell, for this item
    | WriteWord(i: nat)
    | PushBack
    | DrainStore(store: Store)
    | RetireEpoch
    | Begin                  // begin() returns a cell
    | ReadWord(i: nat)
    | PopFront
    | DrainHead

  function Start(c: Config, cells: seq<Item>): System {
    System(Memory(0, 0, 0, 0, cells), Buffer(0, [{}]), Asking, 0, [], Polling, 0, [])
  }

  /** `end()` is not null. */
  predicate EndGiven(c: Config, s: System)
    requires c.Valid()
  {
    s.ownTail < c.values && s.mem.head < c.values && Sub(s.ownTail, s.mem.head, c.values) < c.size
  }

  /** `begin()` is not null. */
  predicate BeginGiven(s: System) {
    s.mem.tail != s.ownHead
  }

  /** The cell `end()` points to. */
  function EndCell(c: Config, s: System): nat
    requires c.Valid()
  {
    Rem(s.ownTail, c.size)
  }

  /** The cell `begin()` points to. */
  function BeginCell(c: Config, s: System): nat
    requires c.Valid()
  {
    Rem(s.ownHead, c.size)
  }

  predicate Enabled(c: Config, s: System, a: Action)
    requires c.Valid()
  {
    && s.buffer.Valid()
    && match a
       case End(item) =>
         && s.producer.Asking? && EndGiven(c, s) && |item| == c.words
         && Countable(c.size, c.values, |s.pushed| + 1)
       case WriteWord(i) => s.producer.Writing? && i < |s.producer.item| && i !in s.producer.written
       case PushBack => s.producer.Writing? && forall i: nat :: i < c.words ==> i in s.producer.written
       case DrainStore(store) => s.buffer.CanDrain(store)
       case RetireEpoch => s.buffer.CanRetire()
       case Begin => s.consumer.Polling? && BeginGiven(s)
       case ReadWord(i) =>
         && s.consumer.Reading? && i < c.words
         && BeginCell(c, s) < |s.mem.cells| && i < |s.mem.cells[BeginCell(c, s)]|
       case PopFront => s.consumer.Reading? && forall i: nat :: i < c.words ==> i in s.consumer.got
       case DrainHead => s.mem.heads < |s.popped|
  }

  function Write(mem: Memory, store: Store): Memory {
    match store
    case Tail(offset, count) => mem.(tail := offset, tails := count)
    case WordAt(cell, i, w) =>
      if cell < |mem.cells| && i < |mem.cells[cell]| then
        mem.(cells := mem.cells[cell := mem.cells[cell][i := w]])
      else mem
  }

  function Apply(c: Config, s: System, a: Action): System
    requires c.Valid() && Enabled(c, s, a)
  {
    match a
    case End(item) => s.(producer := Writing(item, {}))
    case WriteWord(i) =>
      s.(buffer := s.buffer.Issue(WordAt(EndCell(c, s), i, s.producer.item[i])),
         producer := s.producer.(written := s.producer.written + {i}))
    case PushBack =>
      var next := Inc(s.ownTail, c.values);
      s.(buffer := s.buffer.Fence().Issue(Tail(next, |s.pushed| + 1)),
         producer := Asking, ownTail := next, pushed := s.pushed + [s.producer.item])
    case DrainStore(store) => s.(buffer := s.buffer.Drain(store), mem := Write(s.mem, store))
    case RetireEpoch => s.(buffer := s.buffer.Retire())
    case Begin => s.(consumer := Reading(map[]))
    case ReadWord(i) =>
      s.(consumer := Reading(s.consumer.got[i := s.mem.cells[BeginCell(c, s)][i]]))
    case PopFront =>
      s.(consumer := Polling, ownHead := Inc(s.ownHead, c.values),
         popped := s.popped + [seq(c.words, i requires 0 <= i < c.words => s.consumer.got[i])])
    case DrainHead =>
      s.(mem := s.mem.(head := Inc(s.mem.head, c.values), heads := s.mem.heads + 1))
  }

  /** `run` leads from `s` to `t`, every action being enabled when it is taken. */
  ghost predicate Leads(c: Config, s: System, run: seq<Action>, t: System)
    requires c.Valid()
    decreases |run|
  {
    if run == [] then s == t
    else Enabled(c, s, run[0]) && Leads(c, Apply(c, s, run[0]), run[1..], t)
  }

  // ----- What a run has done, told by its actions -----

  /** The items pushed: those of the `end()`s that are followed by their `push_back`. `pending` is
      the item for which `end()` has been called before the run. */
  function Pushed(pending: Option<Item>, run: seq<Action>): seq<Item>
    decreases |run|
  {
    if run == [] then []
    else match run[0]
      case End(item) => Pushed(Some(item), run[1..])
      case PushBack => (if pending.Some? then [pending.value] else []) + Pushed(None, run[1..])
      case _ => Pushed(pending, run[1..])
  }

  function Pending(producer: ProducerAt): Option<Item> {
    if producer.Writing? then Some(producer.item) else None
  }

  /** How often an action occurs. */
  function Times(a: Action, run: seq<Action>): nat {
    if run == [] then 0 else (if run[0] == a then 1 else 0) + Times(a, run[1..])
  }

  lemma {:induction false} ItemsHistory(c: Config, s: System, run: seq<Action>, t: System)
    requires c.Valid() && Leads(c, s, run, t)
    ensures t.pushed == s.pushed + Pushed(Pending(s.producer), run)
    ensures |t.popped| == |s.popped| + Times(PopFront, run)
    decreases |run|
  {
    if run != [] {
      ItemsStep(c, s, run[0]);
      ItemsHistory(c, Apply(c, s, run[0]), run[1..], t);
    }
  }

  /** Only `push_back` pushes, the item of its `end()`; only `pop_front` pops, one item. */
  lemma ItemsStep(c: Config, s: System, a: Action)
    requires c.Valid() && Enabled(c, s, a)
    ensures Apply(c, s, a).pushed == s.pushed + if a == PushBack then [s.producer.item] else []
    ensures |Apply(c, s, a).popped| == |s.popped| + if a == PopFront then 1 else 0
    ensures Pending(Apply(c, s, a).producer) ==
      match a { case End(item) => Some(item) case PushBack => None case _ => Pending(s.producer) }
  {
  }

  // ----- The invariant -----
  //
  // Group k of the producer's stores holds the tail store that publishes item k - 1 and the
  // words of item k.

  ghost predicate Issued(c: Config, pushed: seq<Item>, producer: ProducerAt, store: Store, group: nat)
    requires c.Valid()
  {
    match store
    case Tail(offset, count) => count == group && 1 <= group <= |pushed| && offset == Rem(count, c.values)
    case WordAt(cell, i, w) =>
      && cell == Rem(group, c.size) && i < c.words
      && if group < |pushed| then i < |pushed[group]| && w == pushed[group][i]
         else group == |pushed| && producer.Writing? && i in producer.written
              && i < |producer.item| && w == producer.item[i]
  }

  ghost function Program(c: Config, pushed: seq<Item>, producer: ProducerAt): (Store, nat) -> bool
    requires c.Valid()
  {
    (store: Store, group: nat) => Issued(c, pushed, producer, store, group)
  }

  ghost predicate InMemory(c: Config, s: System, store: Store)
    requires c.Valid() && s.buffer.Valid()
  {
    Drained(s.buffer, Program(c, s.pushed, s.producer), store)
  }

  /** The offsets count pushes and pops, and the queue never holds more than `_size`. */
  ghost predicate CountsOk(c: Config, s: System)
    requires c.Valid()
  {
    var T, H := |s.pushed|, |s.popped|;
    && s.buffer.Valid() && s.buffer.Filling() == T
    && s.ownTail == Rem(T, c.values) && s.ownHead == Rem(H, c.values)
    && s.mem.tail == Rem(s.mem.tails, c.values) && s.mem.head == Rem(s.mem.heads, c.values)
    && s.mem.heads <= H <= s.mem.tails <= T <= s.mem.heads + c.size
    && s.buffer.retired <= s.mem.tails + 1 && s.mem.tails <= s.buffer.retired
    && Countable(c.size, c.values, T)
    && (s.producer.Writing? ==>
          T < s.mem.heads + c.size && |s.producer.item| == c.words && Countable(c.size, c.values, T + 1))
    && (s.consumer.Reading? ==> H < s.mem.tails)
    && (forall k :: 0 <= k < T ==> |s.pushed[k]| == c.words)
    && |s.mem.cells| == c.size
    && (forall k :: 0 <= k < c.size ==> |s.mem.cells[k]| == c.words)
  }

  ghost predicate BufferOk(c: Config, s: System)
    requires c.Valid()
  {
    Tracks(s.buffer, Program(c, s.pushed, s.producer))
  }

  ghost predicate Holds(cells: seq<Item>, store: Store) {
    store.WordAt? ==>
      store.cell < |cells| && store.i < |cells[store.cell]| && cells[store.cell][store.i] == store.w
  }

  /** The retired groups are in memory, the drained part of the current one too, and no item that
      may still be read has been touched since. */
  ghost predicate MemoryOk(c: Config, s: System)
    requires c.Valid() && CountsOk(c, s)
  {
    var b := s.buffer.retired;
    && s.mem.tails == (if b == 0 || InMemory(c, s, Tail(Rem(b, c.values), b)) then b else b - 1)
    && (forall o :: s.mem.heads <= o < b ==> s.mem.cells[Rem(o, c.size)] == s.pushed[o])
    && (forall store :: InMemory(c, s, store) ==> Holds(s.mem.cells, store))
  }

  /** What has been read is what was pushed. */
  ghost predicate ReadOk(c: Config, s: System)
    requires c.Valid() && CountsOk(c, s)
  {
    var H := |s.popped|;
    && s.popped == s.pushed[..H]
    && (s.consumer.Reading? ==>
          forall i: nat :: i in s.consumer.got && i < c.words ==> s.consumer.got[i] == s.pushed[H][i])
  }

  ghost predicate Inv(c: Config, s: System)
    requires c.Valid()
  {
    CountsOk(c, s) && BufferOk(c, s) && MemoryOk(c, s) && ReadOk(c, s)
  }

  /** Offsets less than `_size` apart have different cells. */
  lemma CellsApart(c: Config, o: nat, p: nat)
    requires c.Valid() && o < p < o + c.size
    ensures Rem(o, c.size) != Rem(p, c.size)
  {
  }

  lemma StartInv(c: Config, cells: seq<Item>)
    requires c.Valid() && |cells| == c.size && forall k :: 0 <= k < c.size ==> |cells[k]| == c.words
    ensures Inv(c, Start(c, cells))
  {
  }

  /** The producer's test is exact on what it can see of the head. */
  lemma EndGivenIff(c: Config, s: System)
    requires c.Valid() && CountsOk(c, s)
    ensures EndGiven(c, s) <==> |s.pushed| < s.mem.heads + c.size
  {
    SubRem(|s.pushed|, s.mem.heads, c.values);
  }

  /** The consumer's test is exact on what it can see of the tail. */
  lemma BeginGivenIff(c: Config, s: System)
    requires c.Valid() && CountsOk(c, s)
    ensures BeginGiven(s) <==> |s.popped| < s.mem.tails
  {
    RemEqual(s.mem.tails, |s.popped|, c.values);
  }

  /** Memory depends on the producer only through what has drained. */
  lemma MemoryKeeps(c: Config, s: System, t: System)
    requires c.Valid() && CountsOk(c, s) && MemoryOk(c, s) && CountsOk(c, t)
    requires t.mem == s.mem && t.buffer.retired == s.buffer.retired && s.pushed <= t.pushed
    requires forall store :: InMemory(c, t, store) <==> InMemory(c, s, store)
    ensures MemoryOk(c, t)
  {
  }

  lemma EndInv(c: Config, s: System, a: Action)
    requires c.Valid() && Inv(c, s) && Enabled(c, s, a) && a.End?
    ensures Inv(c, Apply(c, s, a))
  {
    EndGivenIff(c, s);
    var t := Apply(c, s, a);
    forall store, group: nat
      ensures Issued(c, t.pushed, t.producer, store, group) <==> Issued(c, s.pushed, s.producer, store, group)
    {
    }
    MemoryKeeps(c, s, t);
  }

  lemma WriteWordInv(c: Config, s: System, a: Action)
    requires c.Valid() && Inv(c, s) && Enabled(c, s, a) && a.WriteWord?
    ensures Inv(c, Apply(c, s, a))
  {
    var t := Apply(c, s, a);
    var stored := WordAt(EndCell(c, s), a.i, s.producer.item[a.i]);
    CellOfCount(c.size, c.values, |s.pushed|);
    forall store, group: nat
      ensures Issued(c, t.pushed, t.producer, store, group) <==>
              Issued(c, s.pushed, s.producer, store, group) || (store == stored && group == s.buffer.Filling())
    {
    }
    IssueTracks(s.buffer, Program(c, s.pushed, s.producer), Program(c, t.pushed, t.producer), stored);
    MemoryKeeps(c, s, t);
  }

  /** The fence of `push_back` and its store of the tail, in the buffer. */
  lemma PushBackBuffer(c: Config, s: System, a: Action)
    requires c.Valid() && Inv(c, s) && Enabled(c, s, a) && a.PushBack?
    ensures BufferOk(c, Apply(c, s, a))
    ensures forall x :: InMemory(c, Apply(c, s, a), x) <==> InMemory(c, s, x)
  {
    var t := Apply(c, s, a);
    var T := |s.pushed|;
    IncRem(T, c.values);
    var stored := Tail(Rem(T + 1, c.values), T + 1);
    var fenced := s.buffer.Fence();
    var before := Program(c, s.pushed, s.producer);
    forall store, group: nat
      ensures Issued(c, t.pushed, t.producer, store, group) <==>
              Issued(c, s.pushed, s.producer, store, group) || (store == stored && group == fenced.Filling())
    {
      PushBackIssues(c, s, a, store, group);
    }
    FenceTracks(s.buffer, before, before);
    IssueTracks(fenced, before, Program(c, t.pushed, t.producer), stored);
  }

  lemma PushBackInv(c: Config, s: System, a: Action)
    requires c.Valid() && Inv(c, s) && Enabled(c, s, a) && a.PushBack?
    ensures Inv(c, Apply(c, s, a))
  {
    IncRem(|s.pushed|, c.values);
    PushBackBuffer(c, s, a);
    MemoryKeeps(c, s, Apply(c, s, a));
  }

  lemma PushBackIssues(c: Config, s: System, a: Action, store: Store, group: nat)
    requires c.Valid() && CountsOk(c, s) && Enabled(c, s, a) && a.PushBack?
    ensures var t := Apply(c, s, a); var T := |s.pushed|;
      Issued(c, t.pushed, t.producer, store, group) <==>
      Issued(c, s.pushed, s.producer, store, group)
      || (store == Tail(Rem(T + 1, c.values), T + 1) && group == s.buffer.Filling() + 1)
  {
  }

  /** A store drains into the cell of item `b`, which no readable item shares. */
  lemma DrainCounts(c: Config, s: System, store: Store)
    requires c.Valid() && Inv(c, s) && s.buffer.CanDrain(store)
    ensures Issued(c, s.pushed, s.producer, store, s.buffer.retired) && !InMemory(c, s, store)
    ensures store.Tail? ==> store.offset == Rem(store.count, c.values) && store.count == s.buffer.retired
    ensures store.WordAt? ==>
      store.cell == Rem(s.buffer.retired, c.size) && s.buffer.retired < s.mem.heads + c.size
  {
  }

  lemma DrainWordInv(c: Config, s: System, a: Action)
    requires c.Valid() && Inv(c, s) && Enabled(c, s, a) && a.DrainStore? && a.store.WordAt?
    ensures Inv(c, Apply(c, s, a))
  {
    var t, b := Apply(c, s, a), s.buffer.retired;
    DrainTracks(s.buffer, Program(c, s.pushed, s.producer), a.store);
    DrainCounts(c, s, a.store);
    forall store
      ensures InMemory(c, t, store) <==> InMemory(c, s, store) || store == a.store
    {
    }
    forall o | s.mem.heads <= o < b
      ensures t.mem.cells[Rem(o, c.size)] == s.mem.cells[Rem(o, c.size)]
    {
      CellsApart(c, o, b);
    }
  }

  lemma DrainTailInv(c: Config, s: System, a: Action)
    requires c.Valid() && Inv(c, s) && Enabled(c, s, a) && a.DrainStore? && a.store.Tail?
    ensures Inv(c, Apply(c, s, a))
  {
  }

  lemma RetireInv(c: Config, s: System, a: Action)
    requires c.Valid() && Inv(c, s) && Enabled(c, s, a) && a.RetireEpoch?
    ensures Inv(c, Apply(c, s, a))
  {
    var t, b := Apply(c, s, a), s.buffer.retired;
    var program := Program(c, s.pushed, s.producer);
    RetireTracks(s.buffer, program);
    forall i | 0 <= i < c.words
      ensures s.mem.cells[Rem(b, c.size)][i] == s.pushed[b][i]
    {
      var store := WordAt(Rem(b, c.size), i, s.pushed[b][i]);
      assert program(store, b);
      assert InMemory(c, s, store);
    }
    assert s.mem.cells[Rem(b, c.size)] == s.pushed[b];
    assert b > 0 ==> program(Tail(Rem(b, c.values), b), b);
    assert forall store :: !InMemory(c, t, store);
  }

  lemma BeginInv(c: Config, s: System, a: Action)
    requires c.Valid() && Inv(c, s) && Enabled(c, s, a) && a.Begin?
    ensures Inv(c, Apply(c, s, a))
  {
  }

  lemma ReadWordInv(c: Config, s: System, a: Action)
    requires c.Valid() && Inv(c, s) && Enabled(c, s, a) && a.ReadWord?
    ensures Inv(c, Apply(c, s, a))
  {
    CellOfCount(c.size, c.values, |s.popped|);
    var t := Apply(c, s, a);
    assert forall store :: InMemory(c, t, store) <==> InMemory(c, s, store);
    MemoryKeeps(c, s, t);
  }

  lemma PopFrontInv(c: Config, s: System, a: Action)
    requires c.Valid() && Inv(c, s) && Enabled(c, s, a) && a.PopFront?
    ensures Inv(c, Apply(c, s, a))
  {
    var t, H := Apply(c, s, a), |s.popped|;
    IncRem(H, c.values);
    assert t.popped[H] == s.pushed[H];
    assert forall store :: InMemory(c, t, store) <==> InMemory(c, s, store);
    MemoryKeeps(c, s, t);
  }

  lemma DrainHeadInv(c: Config, s: System, a: Action)
    requires c.Valid() && Inv(c, s) && Enabled(c, s, a) && a.DrainHead?
    ensures Inv(c, Apply(c, s, a))
  {
    IncRem(s.mem.heads, c.values);
    var t := Apply(c, s, a);
    assert CountsOk(c, t) && BufferOk(c, t);
    assert forall store :: InMemory(c, t, store) <==> InMemory(c, s, store);
  }

  lemma StepInv(c: Config, s: System, a: Action)
    requires c.Valid() && Inv(c, s) && Enabled(c, s, a)
    ensures Inv(c, Apply(c, s, a))
    ensures Apply(c, s, a).pushed == s.pushed + if a == PushBack then [s.producer.item] else []
    ensures |Apply(c, s, a).popped| == |s.popped| + if a == PopFront then 1 else 0
  {
    ItemsStep(c, s, a);
    match a
    case End(_) => EndInv(c, s, a);
    case WriteWord(_) => WriteWordInv(c, s, a);
    case PushBack => PushBackInv(c, s, a);
    case DrainStore(store) => if store.Tail? { DrainTailInv(c, s, a); } else { DrainWordInv(c, s, a); }
    case RetireEpoch => RetireInv(c, s, a);
    case Begin => BeginInv(c, s, a);
    case ReadWord(_) => ReadWordInv(c, s, a);
    case PopFront => PopFrontInv(c, s, a);
    case DrainHead => DrainHeadInv(c, s, a);
  }

  lemma {:induction false} RunInv(c: Config, s: System, run: seq<Action>, t: System)
    requires c.Valid() && Inv(c, s) && Leads(c, s, run, t)
    ensures Inv(c, t)
    decreases |run|
  {
    if run != [] {
      StepInv(c, s, run[0]);
      RunInv(c, Apply(c, s, run[0]), run[1..], t);
    }
  }

  // ----- What every run keeps -----

  /** The cells of a queue before it is used: `_size` of them, of any contents. */
  predicate Cells(c: Config, cells: seq<Item>) {
    |cells| == c.size && forall k :: 0 <= k < c.size ==> |cells[k]| == c.words
  }

  /** First in, first out. In every interleaving the items popped are, whole and in order, the first
      of the items whose `push_back` is in the run, one for every `pop_front`; at most `_size` items
      are between; and both offsets are the wrapped numbers of these actions. */
  lemma FifoOverRuns(c: Config, cells: seq<Item>, run: seq<Action>, t: System)
    requires c.Valid() && Cells(c, cells) && Leads(c, Start(c, cells), run, t)
    ensures t.popped <= t.pushed && |t.pushed| <= |t.popped| + c.size
    ensures t.pushed == Pushed(None, run) && |t.popped| == Times(PopFront, run)
    ensures t.ownTail == Rem(|t.pushed|, c.values) && t.ownHead == Rem(|t.popped|, c.values)
  {
    ItemsHistory(c, Start(c, cells), run, t);
    StartInv(c, cells);
    RunInv(c, Start(c, cells), run, t);
  }

  /** The cell being written is never the cell being read; nor is that of any word still waiting
      in the store buffer. */
  lemma NeverSameCell(c: Config, cells: seq<Item>, run: seq<Action>, t: System)
    requires c.Valid() && Cells(c, cells) && Leads(c, Start(c, cells), run, t)
    requires t.consumer.Reading?
    ensures t.producer.Writing? ==> EndCell(c, t) != BeginCell(c, t)
    ensures forall j, store :: 0 <= j < |t.buffer.epochs| && store in t.buffer.epochs[j] && store.WordAt? ==>
      store.cell != BeginCell(c, t)
  {
    StartInv(c, cells);
    RunInv(c, Start(c, cells), run, t);
    var T, H := |t.pushed|, |t.popped|;
    CellOfCount(c.size, c.values, T);
    CellOfCount(c.size, c.values, H);
    if t.producer.Writing? {
      CellsApart(c, H, T);
    }
    forall j, store | 0 <= j < |t.buffer.epochs| && store in t.buffer.epochs[j] && store.WordAt?
      ensures store.cell != BeginCell(c, t)
    {
      var group := t.buffer.retired + j;
      assert Program(c, t.pushed, t.producer)(store, group);
      assert H < group;
      CellsApart(c, H, group);
    }
  }

  /** Once nothing is waiting to become visible both tests are exact: what has been pushed can be
      popped, and what has been popped makes room. */
  lemma SettledTestsExact(c: Config, s: System)
    requires c.Valid() && Inv(c, s) && s.buffer.Empty() && s.mem.heads == |s.popped|
    ensures BeginGiven(s) <==> |s.popped| < |s.pushed|
    ensures EndGiven(c, s) <==> |s.pushed| - |s.popped| < c.size
  {
    var T := |s.pushed|;
    assert T > 0 ==> Program(c, s.pushed, s.producer)(Tail(Rem(T, c.values), T), T);
    assert T > 0 ==> InMemory(c, s, Tail(Rem(T, c.values), T));
    BeginGivenIff(c, s);
    EndGivenIff(c, s);
  }

  /** A cell handed out by `end()` stays the producer's until its own `push_back`. */
  lemma {:induction false} EndStays(c: Config, s: System, run: seq<Action>, t: System)
    requires c.Valid() && Inv(c, s) && Leads(c, s, run, t) && PushBack !in run && EndGiven(c, s)
    ensures EndGiven(c, t) && EndCell(c, t) == EndCell(c, s)
    decreases |run|
  {
    if run != [] {
      var u := Apply(c, s, run[0]);
      StepInv(c, s, run[0]);
      EndGivenIff(c, s);
      EndGivenIff(c, u);
      EndStays(c, u, run[1..], t);
    }
  }

  /** A cell handed out by `begin()` stays the consumer's until its own `pop_front`. */
  lemma {:induction false} BeginStays(c: Config, s: System, run: seq<Action>, t: System)
    requires c.Valid() && Inv(c, s) && Leads(c, s, run, t) && PopFront !in run && BeginGiven(s)
    ensures BeginGiven(t) && BeginCell(c, t) == BeginCell(c, s)
    decreases |run|
  {
    if run != [] {
      var u := Apply(c, s, run[0]);
      StepInv(c, s, run[0]);
      TailGrows(c, s, run[0]);
      BeginGivenIff(c, s);
      BeginGivenIff(c, u);
      BeginStays(c, u, run[1..], t);
    }
  }

  lemma TailGrows(c: Config, s: System, a: Action)
    requires c.Valid() && Inv(c, s) && Enabled(c, s, a)
    ensures s.mem.tails <= Apply(c, s, a).mem.tails
  {
  }
}
