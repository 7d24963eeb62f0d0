/** What a run of the protocol has done, told by its actions alone; and runs in which stores wait. */
module SeqlockRuns {
  import opened Common
  import opened Seqlock
  import opened SeqlockQuiet

  // ----- A run, by its actions -----

  /** What one action makes of memory. */
  function After(mem: Memory, a: Action): Memory {
    if a.DrainStore? then Write(mem, a.store) else mem
  }

  /** The memory after the stores that drain in the run. */
  function MemoryAfter(mem: Memory, run: seq<Action>): Memory
    decreases |run|
  {
    if run == [] then mem else MemoryAfter(After(mem, run[0]), run[1..])
  }

  /** What a reader meets: at each of its loads, the memory of that moment. */
  function Loaded(mem: Memory, run: seq<Action>, reader: nat): seq<Memory>
    decreases |run|
  {
    if run == [] then []
    else (if run[0] == Load(reader) then [mem] else []) + Loaded(After(mem, run[0]), run[1..], reader)
  }

  function Memories(feed: seq<Seen>): seq<Memory> {
    seq(|feed|, n requires 0 <= n < |feed| => feed[n].mem)
  }

  /** Where the writer's own actions take it in its program. */
  function WriterAfter(at: WriterAt, run: seq<Action>): WriterAt
    decreases |run|
  {
    if run == [] then at
    else
      var next := match run[0]
        case Raise(_) => Raised
        case FenceRaised => Copying({})
        case CopyWord(i) => Copying((if at.Copying? then at.copied else {}) + {i})
        case FenceCopied => Publishing
        case Publish => Idle
        case DrainStore(_) => at
        case RetireEpoch => at
        case Load(_) => at;
      WriterAfter(next, run[1..])
  }

  function Retires(run: seq<Action>): nat {
    if run == [] then 0 else (if run[0].RetireEpoch? then 1 else 0) + Retires(run[1..])
  }

  lemma MemoryStep(c: Config, s: System, a: Action)
    requires c.Valid() && Enabled(c, s, a)
    ensures Apply(c, s, a).mem == After(s.mem, a)
  {
  }

  /** Memory is what the drained stores make of it, one after the other. */
  lemma {:induction false} MemoryHistory(c: Config, s: System, run: seq<Action>, t: System)
    requires c.Valid() && Leads(c, s, run, t)
    ensures t.mem == MemoryAfter(s.mem, run)
    decreases |run|
  {
    if run != [] {
      MemoryStep(c, s, run[0]);
      MemoryHistory(c, Apply(c, s, run[0]), run[1..], t);
    }
  }

  /** The writer, which never waits for a store to drain, is where its own actions have taken it;
      and epochs retire when they are told to. */
  lemma {:induction false} WriterHistory(c: Config, s: System, run: seq<Action>, t: System)
    requires c.Valid() && Leads(c, s, run, t)
    ensures t.at == WriterAfter(s.at, run) && t.buffer.retired == s.buffer.retired + Retires(run)
    decreases |run|
  {
    if run != [] {
      WriterHistory(c, Apply(c, s, run[0]), run[1..], t);
    }
  }

  lemma FeedStep(c: Config, s: System, a: Action, reader: nat)
    requires c.Valid() && Enabled(c, s, a)
    ensures Apply(c, s, a).Feed(reader)
            == s.Feed(reader) + if a == Load(reader) then [Seen(s.mem, s.buffer.retired)] else []
  {
  }

  /** Every load of a reader meets the memory of its moment, and the reader's loads are these. */
  lemma {:induction false} FeedHistory(c: Config, s: System, run: seq<Action>, t: System, reader: nat)
    requires c.Valid() && Leads(c, s, run, t)
    ensures Memories(t.Feed(reader)) == Memories(s.Feed(reader)) + Loaded(s.mem, run, reader)
    decreases |run|
  {
    if run != [] {
      var u := Apply(c, s, run[0]);
      FeedStep(c, s, run[0], reader);
      MemoryStep(c, s, run[0]);
      FeedHistory(c, u, run[1..], t, reader);
      var first := if run[0] == Load(reader) then [s.mem] else [];
      assert Memories(u.Feed(reader)) == Memories(s.Feed(reader)) + first;
      Regroup(Memories(s.Feed(reader)), first, Loaded(u.mem, run[1..], reader));
    }
  }

  // ----- Stores that wait -----

  /** The stores of words `order[i..]`, none of which reaches memory yet. */
  lemma {:induction false} CopyWaiting(c: Config, s: System, order: seq<nat>, i: nat)
    returns (run: seq<Action>, t: System)
    requires c.Valid() && Inv(c, s) && s.at.Copying? && IsOrder(order, c.words)
    requires i <= c.words && forall k: nat :: k in s.at.copied <==> k in order[..i]
    ensures Leads(c, s, run, t) && Inv(c, t) && t.at.Copying? && forall k: nat :: k in t.at.copied <==> k < c.words
    ensures t.versions == s.versions && t.feeds == s.feeds && t.mem == s.mem
    decreases c.words - i
  {
    if i == c.words {
      OrderDone(order, c.words);
      run, t := [], s;
    } else {
      OrderOn(order, c.words, i);
      assert Leads(c, s, [], s);
      var run1, t1 := One(c, s, [], s, CopyWord(order[i]));
      var run2, t2 := CopyWaiting(c, t1, order, i + 1);
      LeadsOn(c, s, run1, t1, run2, t2);
      run, t := run1 + run2, t2;
    }
  }

  /** One whole write, its words in any order, of which nothing reaches memory yet, whatever waits
      there already. */
  lemma WriteWaiting(c: Config, s: System, record: Record, order: seq<nat>) returns (run: seq<Action>, t: System)
    requires c.Valid() && Inv(c, s) && s.at.Idle? && |record| == c.words && IsOrder(order, c.words)
    ensures Leads(c, s, run, t) && Inv(c, t) && t.at.Idle?
    ensures t.versions == s.versions + [record] && t.feeds == s.feeds && t.mem == s.mem
  {
    assert Leads(c, s, [], s);
    var run1, t1 := One(c, s, [], s, Raise(record));
    run1, t1 := One(c, s, run1, t1, FenceRaised);
    var run2, t2 := CopyWaiting(c, t1, order, 0);
    LeadsOn(c, s, run1, t1, run2, t2);
    run, t := One(c, s, run1 + run2, t2, FenceCopied);
    run, t := One(c, s, run, t, Publish);
  }

  /** The writer never has to wait: any number of writes may be finished while memory still shows
      what it showed before the first. */
  lemma {:induction false} WriteAllWaiting(c: Config, s: System, records: seq<Record>, order: seq<nat>)
    returns (run: seq<Action>, t: System)
    requires c.Valid() && Inv(c, s) && s.at.Idle? && IsOrder(order, c.words)
    requires forall k :: 0 <= k < |records| ==> |records[k]| == c.words
    ensures Leads(c, s, run, t) && Inv(c, t) && t.at.Idle?
    ensures t.versions == s.versions + records && t.feeds == s.feeds && t.mem == s.mem
    decreases |records|
  {
    if records == [] {
      run, t := [], s;
    } else {
      assert [records[0]] + records[1..] == records;
      Regroup(s.versions, [records[0]], records[1..]);
      var run1, t1 := WriteWaiting(c, s, records[0], order);
      var run2, t2 := WriteAllWaiting(c, t1, records[1..], order);
      LeadsOn(c, s, run1, t1, run2, t2);
      run, t := run1 + run2, t2;
    }
  }

  /** From every state all the stores that wait can reach memory. */
  lemma {:induction false} Settle(c: Config, s: System) returns (run: seq<Action>, t: System)
    requires c.Valid() && Inv(c, s)
    ensures Leads(c, s, run, t) && Inv(c, t) && t.buffer.Empty()
    ensures t.at == s.at && t.versions == s.versions && t.feeds == s.feeds
    decreases |s.buffer.epochs|, |s.buffer.epochs[0]|
  {
    if s.buffer.epochs[0] == {} && |s.buffer.epochs| == 1 {
      run, t := [], s;
    } else {
      var a := RetireEpoch;
      if s.buffer.epochs[0] != {} {
        var store :| store in s.buffer.epochs[0];
        a := DrainStore(store);
      }
      assert Leads(c, s, [], s);
      var run1, t1 := One(c, s, [], s, a);
      var run2, t2 := Settle(c, t1);
      LeadsOn(c, s, run1, t1, run2, t2);
      run, t := run1 + run2, t2;
    }
  }

  /** However many writes wait, memory can come to show the last of them. */
  lemma LastRecordShown(c: Config, s: System, records: seq<Record>, order: seq<nat>)
    returns (run: seq<Action>, t: System)
    requires c.Valid() && Inv(c, s) && s.at.Idle? && records != [] && IsOrder(order, c.words)
    requires forall k :: 0 <= k < |records| ==> |records[k]| == c.words
    ensures Leads(c, s, run, t) && Quiet(c, t) && t.versions == s.versions + records
    ensures t.mem.words == records[|records| - 1] && t.mem.fronts == t.mem.backs == |t.versions| - 1
  {
    var run1, t1 := WriteAllWaiting(c, s, records, order);
    var run2, t2 := Settle(c, t1);
    LeadsOn(c, s, run1, t1, run2, t2);
    run, t := run1 + run2, t2;
    QuietMemory(c, t);
  }

  /** `before` with the words from `i` on that are in `shown` taken from `record`. */
  function Mixed(before: Record, record: Record, shown: set<nat>, i: nat): (words: Record)
    requires i <= |record| == |before|
    ensures |words| == |before|
    ensures forall k :: 0 <= k < |words| ==> words[k] == if i <= k && k in shown then record[k] else before[k]
    decreases |record| - i
  {
    if i == |record| then before
    else Mixed(if i in shown then before[i := record[i]] else before, record, shown, i + 1)
  }

  /** The words of one write reach memory in any order: whatever set of them, with the others
      already stored but waiting. */
  lemma AnyWordsShown(c: Config, s: System, record: Record, shown: set<nat>) returns (run: seq<Action>, t: System)
    requires c.Valid() && Quiet(c, s) && |record| == c.words
    ensures Leads(c, s, run, t) && Inv(c, t) && t.at.Copying? && forall k: nat :: k < c.words ==> k in t.at.copied
    ensures |s.mem.words| == c.words && t.mem.words == Mixed(s.mem.words, record, shown, 0)
  {
    QuietMemory(c, s);
    var run1, t1 := RaiseNow(c, s, record);
    var run2, t2 := CopySome(c, t1, 0, record, shown);
    LeadsOn(c, s, run1, t1, run2, t2);
    run, t := run1 + run2, t2;
    RunInv(c, s, run, t);
  }

  /** The stores of words `i..`, of which those in `shown` drain at once. */
  lemma {:induction false} CopySome(c: Config, s: System, i: nat, record: Record, shown: set<nat>)
    returns (run: seq<Action>, t: System)
    requires c.Valid() && s.at.Copying? && |s.buffer.epochs| == 1 && |record| == |s.mem.words| == c.words
    requires s.versions != [] && s.versions[|s.versions| - 1] == record
    requires i <= c.words && forall k: nat :: k in s.at.copied <==> k < i
    ensures Leads(c, s, run, t) && t.at.Copying? && forall k: nat :: k in t.at.copied <==> k < c.words
    ensures t.mem.words == Mixed(s.mem.words, record, shown, i)
    decreases c.words - i
  {
    if i == c.words {
      run, t := [], s;
    } else {
      assert Leads(c, s, [], s);
      var run1, t1 := Then(c, s, [], s, CopyWord(i));
      if i in shown {
        run1, t1 := Then(c, s, run1, t1, DrainStore(WordAt(i, record[i])));
      }
      var run2, t2 := CopySome(c, t1, i + 1, record, shown);
      LeadsOn(c, s, run1, t1, run2, t2);
      run, t := run1 + run2, t2;
    }
  }

  /** The end of a write whose back guard waits, and the beginning of the next. */
  lemma BackWaits(c: Config, s: System, next: Record) returns (run: seq<Action>, t: System)
    requires c.Valid() && s.at.Copying? && s.buffer.Empty() && s.versions != [] && |next| == c.words
    requires forall i: nat :: i < c.words ==> i in s.at.copied
    ensures Leads(c, s, run, t)
    ensures t.mem == s.mem.(front := (s.ownFront + 1) % c.modulus, fronts := |s.versions|)
  {
    assert Leads(c, s, [], s);
    run, t := Then(c, s, [], s, FenceCopied);
    run, t := Then(c, s, run, t, RetireEpoch);
    run, t := Then(c, s, run, t, Publish);
    run, t := Then(c, s, run, t, Raise(next));
    run, t := Then(c, s, run, t, DrainStore(Front((s.ownFront + 1) % c.modulus, |s.versions|)));
  }

  /** Nothing keeps the back guard of one write in front of the front guard of the next: memory can
      show a second write begun while the first has not ended. */
  lemma WritesOverlap(c: Config, s: System, record: Record, next: Record) returns (run: seq<Action>, t: System)
    requires c.Valid() && Quiet(c, s) && |record| == |next| == c.words
    ensures Leads(c, s, run, t) && Inv(c, t)
    ensures t.mem.fronts == s.mem.fronts + 2 && t.mem.backs == s.mem.backs && t.mem.words == record
  {
    QuietMemory(c, s);
    var run1, t1 := RaiseNow(c, s, record);
    var run2, t2 := CopyNow(c, t1, 0, c.words);
    LeadsOn(c, s, run1, t1, run2, t2);
    var run3, t3 := BackWaits(c, t2, next);
    LeadsOn(c, s, run1 + run2, t2, run3, t3);
    run, t := run1 + run2 + run3, t3;
    RunInv(c, s, run, t);
  }
}
