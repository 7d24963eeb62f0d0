/** What a run of the queue has done, told by its actions alone; and runs that every queue allows. */
module SpscRuns {
  import opened Common
  import opened Modular
  import opened Spsc

  // ----- A run, by its actions -----

  /** Where the producer's own actions take it. */
  function ProducerAfter(at: ProducerAt, run: seq<Action>): ProducerAt
    decreases |run|
  {
    if run == [] then at
    else match run[0]
      case End(item) => ProducerAfter(Writing(item, {}), run[1..])
      case WriteWord(i) => ProducerAfter(if at.Writing? then Writing(at.item, at.written + {i}) else at, run[1..])
      case PushBack => ProducerAfter(Asking, run[1..])
      case _ => ProducerAfter(at, run[1..])
  }

  /** The words read since `begin()`; none while the consumer polls. */
  function ReadAfter(read: Option<set<nat>>, run: seq<Action>): Option<set<nat>>
    decreases |run|
  {
    if run == [] then read
    else match run[0]
      case Begin => ReadAfter(Some({}), run[1..])
      case ReadWord(i) => ReadAfter(if read.Some? then Some(read.value + {i}) else None, run[1..])
      case PopFront => ReadAfter(None, run[1..])
      case _ => ReadAfter(read, run[1..])
  }

  function ReadBy(consumer: ConsumerAt): Option<set<nat>> {
    if consumer.Reading? then Some(consumer.got.Keys) else None
  }

  /** The memory after the stores of the producer that drain in the run, and the consumer's. */
  function MemoryAfter(c: Config, mem: Memory, run: seq<Action>): Memory
    decreases |run|
  {
    if run == [] then mem
    else
      var next := match run[0]
        case DrainStore(store) => Write(mem, store)
        case DrainHead => mem.(head := Inc(mem.head, c.values), heads := mem.heads + 1)
        case _ => mem;
      MemoryAfter(c, next, run[1..])
  }

  /** The producer and the consumer are where their own actions have taken them, nothing else
      having kept them back; memory is what the drained stores have made of it. */
  lemma {:induction false} RunHistory(c: Config, s: System, run: seq<Action>, t: System)
    requires c.Valid() && Leads(c, s, run, t)
    ensures t.mem == MemoryAfter(c, s.mem, run)
    ensures t.buffer.retired == s.buffer.retired + Times(RetireEpoch, run)
    ensures t.producer == ProducerAfter(s.producer, run) && ReadBy(t.consumer) == ReadAfter(ReadBy(s.consumer), run)
    decreases |run|
  {
    if run != [] {
      var u := Apply(c, s, run[0]);
      assert run[0].Begin? ==> u.consumer.got.Keys == {};
      assert run[0].ReadWord? ==> u.consumer.got.Keys == s.consumer.got.Keys + {run[0].i};
      RunHistory(c, u, run[1..], t);
    }
  }

  // ----- Building runs -----

  lemma {:induction false} LeadsOn(c: Config, s: System, run: seq<Action>, t: System, more: seq<Action>, u: System)
    requires c.Valid() && Leads(c, s, run, t) && Leads(c, t, more, u)
    ensures Leads(c, s, run + more, u)
    decreases |run|
  {
    if run == [] {
      assert run + more == more;
    } else {
      LeadsOn(c, Apply(c, s, run[0]), run[1..], t, more, u);
      assert (run + more)[1..] == run[1..] + more;
    }
  }

  /** One step more. */
  lemma One(c: Config, s: System, run: seq<Action>, t: System, a: Action) returns (run': seq<Action>, t': System)
    requires c.Valid() && Leads(c, s, run, t) && Inv(c, t) && Enabled(c, t, a)
    ensures run' == run + [a] && t' == Apply(c, t, a) && Leads(c, s, run', t') && Inv(c, t')
  {
    run', t' := run + [a], Apply(c, t, a);
    StepInv(c, t, a);
    assert [a][1..] == [];
    assert Leads(c, t', [], t');
    LeadsOn(c, s, run, t, [a], t');
  }

  /** The stores of words `order[i..]`, none of which reaches memory yet. */
  lemma {:induction false} WriteWaiting(c: Config, s: System, order: seq<nat>, i: nat)
    returns (run: seq<Action>, t: System)
    requires c.Valid() && Inv(c, s) && s.producer.Writing? && IsOrder(order, c.words)
    requires i <= c.words && forall k: nat :: k in s.producer.written <==> k in order[..i]
    ensures Leads(c, s, run, t) && Inv(c, t)
    ensures t == s.(buffer := t.buffer, producer := t.producer) && t.producer.Writing?
    ensures t.producer.item == s.producer.item && forall k: nat :: k in t.producer.written <==> k < c.words
    decreases c.words - i
  {
    if i == c.words {
      OrderDone(order, c.words);
      run, t := [], s;
    } else {
      OrderOn(order, c.words, i);
      assert Leads(c, s, [], s);
      var run1, t1 := One(c, s, [], s, WriteWord(order[i]));
      var run2, t2 := WriteWaiting(c, t1, order, i + 1);
      LeadsOn(c, s, run1, t1, run2, t2);
      run, t := run1 + run2, t2;
    }
  }

  /** A producer to which `end()` gives a cell can push whatever item it likes, word by word in any
      order, all its stores still waiting and whatever the consumer is at. */
  lemma PushWaiting(c: Config, s: System, item: Item, order: seq<nat>) returns (run: seq<Action>, t: System)
    requires c.Valid() && Inv(c, s) && s.producer.Asking? && EndGiven(c, s) && IsOrder(order, c.words)
    requires |item| == c.words && Countable(c.size, c.values, |s.pushed| + 1)
    ensures Leads(c, s, run, t) && Inv(c, t)
    ensures t == s.(buffer := t.buffer, ownTail := t.ownTail, pushed := s.pushed + [item])
  {
    assert Leads(c, s, [], s);
    var run1, t1 := One(c, s, [], s, End(item));
    var run2, t2 := WriteWaiting(c, t1, order, 0);
    LeadsOn(c, s, run1, t1, run2, t2);
    run, t := One(c, s, run1 + run2, t2, PushBack);
  }

  predicate Items(c: Config, items: seq<Item>) {
    forall k :: 0 <= k < |items| ==> |items[k]| == c.words
  }

  lemma OneFirst(before: seq<Item>, items: seq<Item>)
    requires items != []
    ensures before + [items[0]] + items[1..] == before + items
  {
  }

  /** As many items as there is room for may be pushed while all their stores wait. */
  lemma {:induction false} PushAllWaiting(c: Config, s: System, items: seq<Item>, order: seq<nat>)
    returns (run: seq<Action>, t: System)
    requires c.Valid() && Inv(c, s) && s.producer.Asking? && IsOrder(order, c.words)
    requires |s.pushed| + |items| <= s.mem.heads + c.size
    requires Countable(c.size, c.values, |s.pushed| + |items|) && Items(c, items)
    ensures Leads(c, s, run, t) && Inv(c, t)
    ensures t == s.(buffer := t.buffer, ownTail := t.ownTail, pushed := s.pushed + items)
    decreases |items|
  {
    if items == [] {
      run, t := [], s;
    } else {
      OneFirst(s.pushed, items);
      EndGivenIff(c, s);
      var run1, t1 := PushWaiting(c, s, items[0], order);
      var run2, t2 := PushAllWaiting(c, t1, items[1..], order);
      LeadsOn(c, s, run1, t1, run2, t2);
      run, t := run1 + run2, t2;
    }
  }

  /** From every state all the stores that wait can reach memory, the consumer's too. */
  lemma {:induction false} Settle(c: Config, s: System) returns (run: seq<Action>, t: System)
    requires c.Valid() && Inv(c, s)
    ensures Leads(c, s, run, t) && Inv(c, t) && t.buffer.Empty() && t.mem.heads == |t.popped|
    ensures t == s.(buffer := t.buffer, mem := t.mem)
    decreases |s.buffer.epochs|, |s.buffer.epochs[0]|, |s.popped| - s.mem.heads
  {
    if s.buffer.epochs[0] == {} && |s.buffer.epochs| == 1 && s.mem.heads == |s.popped| {
      run, t := [], s;
    } else {
      var a := if s.mem.heads < |s.popped| then DrainHead else RetireEpoch;
      if s.mem.heads == |s.popped| && s.buffer.epochs[0] != {} {
        var store :| store in s.buffer.epochs[0];
        a := DrainStore(store);
      }
      assert Leads(c, s, [], s);
      var run1, t1 := One(c, s, [], s, a);
      var run2, t2 := Settle(c, t1);
      LeadsOn(c, s, run1, t1, run2, t2);
      run, t := run1 + run2, t2;
    }
  }

  /** The loads of words `order[i..]`. */
  lemma {:induction false} ReadOn(c: Config, s: System, order: seq<nat>, i: nat) returns (run: seq<Action>, t: System)
    requires c.Valid() && Inv(c, s) && s.consumer.Reading? && IsOrder(order, c.words)
    requires i <= c.words && forall k: nat :: k in s.consumer.got <==> k in order[..i]
    ensures Leads(c, s, run, t) && Inv(c, t)
    ensures t == s.(consumer := t.consumer) && t.consumer.Reading?
    ensures forall k: nat :: k in t.consumer.got <==> k < c.words
    decreases c.words - i
  {
    if i == c.words {
      OrderDone(order, c.words);
      run, t := [], s;
    } else {
      OrderOn(order, c.words, i);
      assert Leads(c, s, [], s);
      var run1, t1 := One(c, s, [], s, ReadWord(order[i]));
      var run2, t2 := ReadOn(c, t1, order, i + 1);
      LeadsOn(c, s, run1, t1, run2, t2);
      run, t := run1 + run2, t2;
    }
  }

  /** A consumer to which `begin()` gives a cell can pop the oldest item, word by word in any order
      and whatever the producer is at. */
  lemma PopNow(c: Config, s: System, order: seq<nat>) returns (run: seq<Action>, t: System)
    requires c.Valid() && Inv(c, s) && s.consumer.Polling? && BeginGiven(s) && IsOrder(order, c.words)
    ensures Leads(c, s, run, t) && Inv(c, t) && |s.popped| < |s.pushed|
    ensures t == s.(ownHead := t.ownHead, popped := s.popped + [s.pushed[|s.popped|]])
  {
    BeginGivenIff(c, s);
    assert Leads(c, s, [], s);
    var run1, t1 := One(c, s, [], s, Begin);
    var run2, t2 := ReadOn(c, t1, order, 0);
    LeadsOn(c, s, run1, t1, run2, t2);
    run, t := One(c, s, run1 + run2, t2, PopFront);
    PoppedNext(c, s, t);
  }

  lemma PoppedNext(c: Config, s: System, t: System)
    requires c.Valid() && Inv(c, s) && Inv(c, t) && t.pushed == s.pushed && |t.popped| == |s.popped| + 1
    ensures |s.popped| < |s.pushed| && t.popped == s.popped + [s.pushed[|s.popped|]]
  {
  }

  /** Nothing is under way and nothing waits. */
  ghost predicate Quiet(c: Config, s: System)
    requires c.Valid()
  {
    && Inv(c, s) && s.producer.Asking? && s.consumer.Polling?
    && s.buffer.Empty() && s.mem.heads == |s.popped|
  }

  /** An item through an empty queue. */
  lemma PassOne(c: Config, s: System, item: Item, order: seq<nat>) returns (run: seq<Action>, t: System)
    requires c.Valid() && Quiet(c, s) && s.popped == s.pushed && IsOrder(order, c.words)
    requires |item| == c.words && Countable(c.size, c.values, |s.pushed| + 1)
    ensures Leads(c, s, run, t) && Quiet(c, t) && t.popped == t.pushed == s.pushed + [item]
  {
    SettledTestsExact(c, s);
    var run1, t1 := PushWaiting(c, s, item, order);
    var run2, t2 := Settle(c, t1);
    LeadsOn(c, s, run1, t1, run2, t2);
    SettledTestsExact(c, t2);
    var run3, t3 := PopNow(c, t2, order);
    LeadsOn(c, s, run1 + run2, t2, run3, t3);
    var run4, t4 := Settle(c, t3);
    LeadsOn(c, s, run1 + run2 + run3, t3, run4, t4);
    run, t := run1 + run2 + run3 + run4, t4;
  }

  lemma {:induction false} PassAll(c: Config, s: System, items: seq<Item>, order: seq<nat>)
    returns (run: seq<Action>, t: System)
    requires c.Valid() && Quiet(c, s) && s.popped == s.pushed && IsOrder(order, c.words)
    requires Countable(c.size, c.values, |s.pushed| + |items|) && Items(c, items)
    ensures Leads(c, s, run, t) && Quiet(c, t) && t.popped == t.pushed == s.pushed + items
    decreases |items|
  {
    if items == [] {
      run, t := [], s;
    } else {
      OneFirst(s.pushed, items);
      var run1, t1 := PassOne(c, s, items[0], order);
      var run2, t2 := PassAll(c, t1, items[1..], order);
      LeadsOn(c, s, run1, t1, run2, t2);
      run, t := run1 + run2, t2;
    }
  }

  /** The queue does pass items on: for any items, as far as the offsets bear, there is a run of
      a new queue in which exactly these are pushed and popped. */
  lemma QueueDelivers(c: Config, cells: seq<Item>, items: seq<Item>, order: seq<nat>)
    returns (run: seq<Action>, t: System)
    requires c.Valid() && Cells(c, cells) && IsOrder(order, c.words)
    requires Items(c, items) && Countable(c.size, c.values, |items|)
    ensures Leads(c, Start(c, cells), run, t) && Quiet(c, t) && t.popped == t.pushed == items
    ensures Pushed(None, run) == items && Times(PopFront, run) == |items|
  {
    StartInv(c, cells);
    run, t := PassAll(c, Start(c, cells), items, order);
    ItemsHistory(c, Start(c, cells), run, t);
  }
}
