/** Runs in which every store of the writer reaches memory at once: what the protocol amounts to
    when the writer is alone; and, built from them, the run that shows the wrap bound is sharp. */
module SeqlockQuiet {
  import opened Seqlock
  import Modular

  /** No write is under way and every store is in memory. */
  ghost predicate Quiet(c: Config, s: System)
    requires c.Valid()
  {
    Inv(c, s) && s.at.Idle? && s.buffer.Empty()
  }

  lemma QuietMemory(c: Config, s: System)
    requires c.Valid() && Quiet(c, s)
    ensures s.mem.words == s.versions[|s.versions| - 1]
    ensures s.mem.fronts == s.mem.backs == |s.versions| - 1
    ensures s.mem.front == s.mem.back == s.ownFront
  {
  }

  /** One step more. */
  lemma Then(c: Config, s: System, run: seq<Action>, t: System, a: Action) returns (run': seq<Action>, t': System)
    requires c.Valid() && Leads(c, s, run, t) && Enabled(c, t, a)
    ensures run' == run + [a] && t' == Apply(c, t, a) && Leads(c, s, run', t')
  {
    Extend(c, s, run, t, a);
    run', t' := run + [a], Apply(c, t, a);
  }

  lemma One(c: Config, s: System, run: seq<Action>, t: System, a: Action) returns (run': seq<Action>, t': System)
    requires c.Valid() && Leads(c, s, run, t) && Inv(c, t) && Enabled(c, t, a)
    ensures run' == run + [a] && t' == Apply(c, t, a) && Leads(c, s, run', t') && Inv(c, t')
  {
    Extend(c, s, run, t, a);
    StepInv(c, t, a);
    run', t' := run + [a], Apply(c, t, a);
  }

  /** `++front_guard` and the fence after it. */
  lemma RaiseNow(c: Config, s: System, record: Record) returns (run: seq<Action>, t: System)
    requires c.Valid() && Quiet(c, s) && |record| == c.words
    ensures Leads(c, s, run, t) && Inv(c, t) && t.at == Copying({}) && t.buffer.Empty()
    ensures t.versions == s.versions + [record] && t.feeds == s.feeds
    ensures t.mem == s.mem.(front := (s.mem.front + 1) % c.modulus, fronts := |s.versions|)
  {
    QuietMemory(c, s);
    assert Leads(c, s, [], s);
    run, t := One(c, s, [], s, Raise(record));
    run, t := One(c, s, run, t, DrainStore(Front((s.ownFront + 1) % c.modulus, |s.versions|)));
    run, t := One(c, s, run, t, FenceRaised);
    run, t := One(c, s, run, t, RetireEpoch);
  }

  /** The store of word `i`. */
  lemma WordNow(c: Config, s: System, i: nat) returns (run: seq<Action>, t: System)
    requires c.Valid() && Inv(c, s) && s.at.Copying? && s.buffer.Empty()
    requires i < c.words && i !in s.at.copied
    ensures Leads(c, s, run, t) && Inv(c, t) && t.buffer.Empty()
    ensures t.at == Copying(s.at.copied + {i}) && t.versions == s.versions && t.feeds == s.feeds
    ensures t.mem == s.mem.(words := s.mem.words[i := s.versions[|s.versions| - 1][i]])
  {
    assert Leads(c, s, [], s);
    run, t := One(c, s, [], s, CopyWord(i));
    run, t := One(c, s, run, t, DrainStore(WordAt(i, s.versions[|s.versions| - 1][i])));
  }

  /** The fence after the copy, and the store to `back_guard`. */
  lemma PublishNow(c: Config, s: System) returns (run: seq<Action>, t: System)
    requires c.Valid() && Inv(c, s) && s.at.Copying? && s.buffer.Empty()
    requires forall i: nat :: i < c.words ==> i in s.at.copied
    ensures Leads(c, s, run, t) && Quiet(c, t) && t.versions == s.versions && t.feeds == s.feeds
    ensures t.mem == s.mem.(back := s.mem.front, backs := |s.versions| - 1)
  {
    assert Leads(c, s, [], s);
    run, t := Then(c, s, [], s, FenceCopied);
    run, t := Then(c, s, run, t, RetireEpoch);
    run, t := Then(c, s, run, t, Publish);
    run, t := Then(c, s, run, t, DrainStore(Back(s.ownFront, |s.versions| - 1)));
    RunInv(c, s, run, t);
  }

  /** The stores of words `i..upTo`. */
  lemma {:induction false} CopyNow(c: Config, s: System, i: nat, upTo: nat) returns (run: seq<Action>, t: System)
    requires c.Valid() && Inv(c, s) && s.at.Copying? && s.buffer.Empty()
    requires i <= upTo <= c.words && forall k: nat :: k in s.at.copied <==> k < i
    ensures Leads(c, s, run, t) && Inv(c, t) && t.at.Copying? && t.buffer.Empty()
    ensures forall k: nat :: k in t.at.copied <==> k < upTo
    ensures t.versions == s.versions && t.feeds == s.feeds
    ensures t.mem == s.mem.(words := t.mem.words)
    ensures var record := s.versions[|s.versions| - 1];
      |t.mem.words| == c.words && forall k :: 0 <= k < c.words ==>
        t.mem.words[k] == if i <= k < upTo then record[k] else s.mem.words[k]
    decreases upTo - i
  {
    if i == upTo {
      run, t := [], s;
    } else {
      var run1, t1 := WordNow(c, s, i);
      var run2, t2 := CopyNow(c, t1, i + 1, upTo);
      LeadsOn(c, s, run1, t1, run2, t2);
      run, t := run1 + run2, t2;
    }
  }

  /** One whole write, undisturbed. */
  lemma WriteNow(c: Config, s: System, record: Record) returns (run: seq<Action>, t: System)
    requires c.Valid() && Quiet(c, s) && |record| == c.words
    ensures Leads(c, s, run, t) && Quiet(c, t)
    ensures t.versions == s.versions + [record] && t.feeds == s.feeds
    ensures t.mem.words == record && t.mem.front == t.mem.back == (s.mem.front + 1) % c.modulus
  {
    var run1, t1 := RaiseNow(c, s, record);
    var run2, t2 := CopyNow(c, t1, 0, c.words);
    LeadsOn(c, s, run1, t1, run2, t2);
    var run3, t3 := PublishNow(c, t2);
    LeadsOn(c, s, run1 + run2, t2, run3, t3);
    run, t := run1 + run2 + run3, t3;
    QuietMemory(c, t);
  }

  // ----- A write, store by store -----

  /** What the record shows to a load: its guards and its words. */
  datatype Shown = Shown(front: nat, back: nat, words: Record)

  function Shows(mem: Memory): Shown {
    Shown(mem.front, mem.back, mem.words)
  }

  /** The first `k` words of one record in front of the rest of another. */
  function Partly(record: Record, before: Record, k: nat): (words: Record)
    requires k <= |record| == |before|
    ensures k == 0 ==> words == before
    ensures k == |record| ==> words == record
  {
    record[..k] + before[k..]
  }

  lemma PartlyStep(record: Record, before: Record, k: nat)
    requires k < |record| == |before|
    ensures Partly(record, before, k)[k := record[k]] == Partly(record, before, k + 1)
  {
  }

  /** What a record shows after each store of one write, from the raised front guard to the back
      guard: in between, `k` words of the new record in front of the rest of the old one. */
  ghost predicate ShownByWrite(before: Shown, guard: nat, record: Record, shown: seq<Shown>) {
    && |before.words| == |record| && |shown| == |record| + 2
    && (forall k :: 0 <= k <= |record| ==>
          shown[k] == Shown(guard, before.back, Partly(record, before.words, k)))
    && shown[|record| + 1] == Shown(guard, guard, record)
  }

  /** Everything a write shows on its way is shown by a run of the protocol. */
  lemma ShownIsReached(c: Config, s: System, record: Record, shown: seq<Shown>, k: nat)
    returns (run: seq<Action>, t: System)
    requires c.Valid() && Quiet(c, s) && |record| == c.words && k < |shown|
    requires ShownByWrite(Shows(s.mem), (s.mem.front + 1) % c.modulus, record, shown)
    ensures Leads(c, s, run, t) && Inv(c, t) && Shows(t.mem) == shown[k]
  {
    QuietMemory(c, s);
    if k == |record| + 1 {
      run, t := WriteNow(c, s, record);
    } else {
      var run1, t1 := RaiseNow(c, s, record);
      var run2, t2 := CopyNow(c, t1, 0, k);
      LeadsOn(c, s, run1, t1, run2, t2);
      run, t := run1 + run2, t2;
      assert t.mem.words == Partly(record, s.mem.words, k);
    }
  }

  lemma {:induction false} WriteMany(c: Config, s: System, record: Record, count: nat)
    returns (run: seq<Action>, t: System)
    requires c.Valid() && Quiet(c, s) && |record| == c.words
    ensures Leads(c, s, run, t) && Quiet(c, t)
    ensures |t.versions| == |s.versions| + count && t.feeds == s.feeds
    ensures forall v :: |s.versions| <= v < |t.versions| ==> t.versions[v] == record
    ensures s.versions <= t.versions
    decreases count
  {
    if count == 0 {
      run, t := [], s;
    } else {
      var run1, t1 := WriteNow(c, s, record);
      var run2, t2 := WriteMany(c, t1, record, count - 1);
      LeadsOn(c, s, run1, t1, run2, t2);
      run, t := run1 + run2, t2;
    }
  }

  // ----- Loads while the writer takes no step -----

  /** From load `from` on a reader finds both guards at `guard`. */
  predicate Settled(feed: seq<Seen>, from: nat, guard: nat) {
    forall n :: from <= n < |feed| ==> feed[n].mem.front == guard == feed[n].mem.back
  }

  /** What a reader has loaded since its first `from` loads is all of one moment. */
  predicate AllSeen(feed: seq<Seen>, from: nat, seen: Seen) {
    forall n :: from <= n < |feed| ==> feed[n] == seen
  }

  /** Loads of any readers in any order change nothing but what those readers have loaded. */
  lemma {:induction false} OnlyLoads(c: Config, s: System, run: seq<Action>, t: System, reader: nat)
    requires c.Valid() && Leads(c, s, run, t) && forall a :: a in run ==> a.Load?
    ensures t == s.(feeds := t.feeds)
    ensures s.Feed(reader) <= t.Feed(reader)
    ensures AllSeen(t.Feed(reader), |s.Feed(reader)|, Seen(s.mem, s.buffer.retired))
    decreases |run|
  {
    if run != [] {
      var u := Apply(c, s, run[0]);
      assert run[0] in run;
      OnlyLoads(c, u, run[1..], t, reader);
    }
  }

  /** While no write is under way every attempt succeeds, and sees the latest record: `s` is a
      state with the writer idle and all its stores in memory, and from there to `t` there are
      only loads. Wrapped guards or not. */
  lemma IdleSucceeds(c: Config, s: System, run: seq<Action>, t: System, reader: nat, first: nat, last: nat)
    requires c.Valid() && Quiet(c, s) && Leads(c, s, run, t) && forall a :: a in run ==> a.Load?
    requires |s.Feed(reader)| <= first <= last < |t.Feed(reader)|
    ensures var feed := t.Feed(reader);
      && Attempt(feed, first, last)
      && forall n :: first <= n <= last ==> feed[n].mem.words == s.versions[|s.versions| - 1]
  {
    QuietMemory(c, s);
    OnlyLoads(c, s, run, t, reader);
  }

  lemma IdleSettled(c: Config, s: System, run: seq<Action>, t: System, reader: nat)
    requires c.Valid() && Quiet(c, s) && Leads(c, s, run, t) && forall a :: a in run ==> a.Load?
    ensures Settled(t.Feed(reader), |s.Feed(reader)|, s.mem.back)
  {
    QuietMemory(c, s);
    OnlyLoads(c, s, run, t, reader);
  }

  /** `count` loads of one reader. */
  lemma {:induction false} LoadMany(c: Config, s: System, reader: nat, count: nat) returns (run: seq<Action>, t: System)
    requires c.Valid() && Inv(c, s)
    ensures Leads(c, s, run, t) && Inv(c, t) && t == s.(feeds := t.feeds)
    ensures s.Feed(reader) <= t.Feed(reader) && |t.Feed(reader)| == |s.Feed(reader)| + count
    ensures AllSeen(t.Feed(reader), |s.Feed(reader)|, Seen(s.mem, s.buffer.retired))
    decreases count
  {
    if count == 0 {
      run, t := [], s;
    } else {
      assert Leads(c, s, [], s);
      var run1, t1 := One(c, s, [], s, Load(reader));
      var run2, t2 := LoadMany(c, t1, reader, count - 1);
      LeadsOn(c, s, run1, t1, run2, t2);
      run, t := run1 + run2, t2;
    }
  }

  // ----- The wrap bound is sharp -----

  /** Two loads, `modulus` whole writes of one record, and as many loads again as it has words. */
  lemma RunAtWrap(c: Config, initial: Record, record: Record) returns (run: seq<Action>, t: System)
    requires c.Valid() && |initial| == |record| == c.words
    ensures Leads(c, Start(c, initial), run, t)
    ensures |t.versions| == c.modulus + 1 && t.versions[0] == initial
    ensures forall v :: 1 <= v < |t.versions| ==> t.versions[v] == record
    ensures var feed := t.Feed(0);
      && |feed| == c.words + 2
      && (forall n :: 0 <= n < 2 ==> feed[n].mem == Memory(0, 0, initial, 0, 0))
      && (forall n :: 2 <= n < |feed| ==> feed[n].mem == Memory(0, 0, record, c.modulus, c.modulus))
  {
    var s := Start(c, initial);
    StartInv(c, initial);
    var run1, t1 := LoadMany(c, s, 0, 2);
    var run2, t2 := WriteMany(c, t1, record, c.modulus);
    QuietMemory(c, t2);
    LeadsOn(c, s, run1, t1, run2, t2);
    var run3, t3 := LoadMany(c, t2, 0, c.words);
    LeadsOn(c, s, run1 + run2, t2, run3, t3);
    run, t := run1 + run2 + run3, t3;
    Modular.Unique(c.modulus, 1, c.modulus, 0);
  }

  /** The bound on guard wrap is sharp. For every guard width and every record of two words or
      more there is a run in which exactly `modulus` writes fall between the sample and the check:
      the check passes, and the words loaded, one by one in between, belong to no single version. */
  lemma TornAtWrap(c: Config) returns (initial: Record, run: seq<Action>, t: System, torn: Record)
    requires c.Valid() && c.words >= 2
    ensures |initial| == c.words && Leads(c, Start(c, initial), run, t)
    ensures var feed := t.Feed(0); var last := c.words + 1;
      && Attempt(feed, 0, last)
      && feed[last].mem.fronts == feed[0].mem.backs + c.modulus
      && |torn| == c.words
      && (forall n :: 1 <= n < last ==> |feed[n].mem.words| == c.words && torn[n - 1] == feed[n].mem.words[n - 1])
    ensures torn !in t.versions
  {
    initial := seq(c.words, _ => 0);
    var record: Record := seq(c.words, _ => 1);
    run, t := RunAtWrap(c, initial, record);
    torn := record[0 := 0];
    assert torn[1] != initial[1] && torn[0] != record[0];
    forall v | 0 <= v < |t.versions|
      ensures t.versions[v] != torn
    {
    }
  }
}
