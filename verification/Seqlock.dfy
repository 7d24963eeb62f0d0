/** The guarded record of `ioguard/basic_ioguard.h` as a transition system.

    One writer publishes records; any number of readers load locations of the shared record, one
    location per step, interleaved arbitrarily with the writer. The writer's stores go through a
    store buffer and reach memory in any order that no fence forbids. In particular nothing
    separates the back-guard store of one write from the front-guard store of the next.
 */
module Seqlock {
  import opened Common
  import opened StoreBuffer
  import Modular

  type Record = Words

  /** `words` is the length of a record, `modulus` the number of values of `guard_type`. */
  datatype Config = Config(words: nat, modulus: nat) {
    predicate Valid() {
      modulus > 0
    }
  }

  /** The shared record. `fronts` and `backs` count the guard stores that have reached memory
      without ever wrapping; the code never reads them. */
  datatype Memory = Memory(front: nat, back: nat, words: Record, fronts: nat, backs: nat)

  datatype Store =
    | Front(guard: nat, count: nat)
    | Back(guard: nat, count: nat)
    | WordAt(i: nat, w: Word)

  /** Where the writer is in `copy_to_rhs`. `Copying` holds the words already stored. */
  datatype WriterAt = Idle | Raised | Copying(copied: set<nat>) | Publishing

  /** What a reader meets when it performs one load: the memory at that moment, and the number of
      the epoch that was draining (bookkeeping only). */
  datatype Seen = Seen(mem: Memory, epoch: nat)

  datatype System = System(
    mem: Memory,
    buffer: Buffer<Store>,
    at: WriterAt,
    ownFront: nat,                   // the writer's own view of front_guard
    versions: seq<Record>,           // every record handed to the writer, version 0 the initial one
    feeds: map<nat, seq<Seen>>)      // per reader, one entry for each load it has performed
  {
    function Feed(reader: nat): seq<Seen> {
      if reader in feeds then feeds[reader] else []
    }
  }

  datatype Action =
    | Raise(record: Record)
    | FenceRaised
    | CopyWord(i: nat)
    | FenceCopied
    | Publish
    | DrainStore(store: Store)
    | RetireEpoch
    | Load(reader: nat)

  function Start(c: Config, initial: Record): System {
    System(Memory(0, 0, initial, 0, 0), Buffer(0, [{}]), Idle, 0, [initial], map[])
  }

  predicate Enabled(c: Config, s: System, a: Action) {
    && s.buffer.Valid()
    && |s.versions| > 0
    && match a
       case Raise(record) => s.at.Idle? && |record| == c.words
       case FenceRaised => s.at.Raised?
       case CopyWord(i) => s.at.Copying? && i < c.words && i !in s.at.copied && i < |s.versions[|s.versions| - 1]|
       case FenceCopied => s.at.Copying? && forall i: nat :: i < c.words ==> i in s.at.copied
       case Publish => s.at.Publishing?
       case DrainStore(store) => s.buffer.CanDrain(store)
       case RetireEpoch => s.buffer.CanRetire()
       case Load(_) => true
  }

  function Write(mem: Memory, store: Store): Memory {
    match store
    case Front(guard, count) => mem.(front := guard, fronts := count)
    case Back(guard, count) => mem.(back := guard, backs := count)
    case WordAt(i, w) => if i < |mem.words| then mem.(words := mem.words[i := w]) else mem
  }

  function Apply(c: Config, s: System, a: Action): System
    requires c.Valid() && Enabled(c, s, a)
  {
    var latest := |s.versions| - 1;
    match a
    case Raise(record) =>
      var guard := (s.ownFront + 1) % c.modulus;
      s.(buffer := s.buffer.Issue(Front(guard, latest + 1)), at := Raised, ownFront := guard,
         versions := s.versions + [record])
    case FenceRaised =>
      s.(buffer := s.buffer.Fence(), at := Copying({}))
    case CopyWord(i) =>
      s.(buffer := s.buffer.Issue(WordAt(i, s.versions[latest][i])), at := Copying(s.at.copied + {i}))
    case FenceCopied =>
      s.(buffer := s.buffer.Fence(), at := Publishing)
    case Publish =>
      s.(buffer := s.buffer.Issue(Back(s.ownFront, latest)), at := Idle)
    case DrainStore(store) =>
      s.(buffer := s.buffer.Drain(store), mem := Write(s.mem, store))
    case RetireEpoch =>
      s.(buffer := s.buffer.Retire())
    case Load(reader) =>
      s.(feeds := s.feeds[reader := s.Feed(reader) + [Seen(s.mem, s.buffer.retired)]])
  }

  /** `run` leads from `s` to `t`, every action being enabled when it is taken. */
  ghost predicate Leads(c: Config, s: System, run: seq<Action>, t: System)
    requires c.Valid()
    decreases |run|
  {
    if run == [] then s == t
    else Enabled(c, s, run[0]) && Leads(c, Apply(c, s, run[0]), run[1..], t)
  }

  function RecordOf(a: Action): seq<Record> {
    if a.Raise? then [a.record] else []
  }

  /** The records handed to the writer, in order. */
  function Records(run: seq<Action>): seq<Record> {
    if run == [] then [] else RecordOf(run[0]) + Records(run[1..])
  }

  lemma VersionsStep(c: Config, s: System, a: Action)
    requires c.Valid() && Enabled(c, s, a)
    ensures Apply(c, s, a).versions == s.versions + RecordOf(a)
  {
  }

  /** Nothing is lost and nothing is made up: the versions are the records handed over, in order. */
  lemma {:induction false} VersionsHistory(c: Config, s: System, run: seq<Action>, t: System)
    requires c.Valid() && Leads(c, s, run, t)
    ensures t.versions == s.versions + Records(run)
    decreases |run|
  {
    if run != [] {
      VersionsStep(c, s, run[0]);
      VersionsHistory(c, Apply(c, s, run[0]), run[1..], t);
      Regroup(s.versions, RecordOf(run[0]), Records(run[1..]));
    }
  }

  lemma Regroup<T>(x: seq<T>, y: seq<T>, z: seq<T>)
    ensures x + y + z == x + (y + z)
  {
  }

  // ----- The invariant -----
  //
  // The writer's stores fall into numbered groups, one group an epoch: group 2k holds the back
  // guard of version k and the front guard of version k + 1, group 2k + 1 the words of
  // version k + 1.

  /** `store` belongs to group `group` and the writer has already issued it. */
  ghost predicate Issued(c: Config, versions: seq<Record>, at: WriterAt, store: Store, group: nat)
    requires c.Valid()
  {
    var latest := |versions| - 1;
    match store
    case Front(guard, count) =>
      group % 2 == 0 && count == group / 2 + 1 && count <= latest && guard == count % c.modulus
    case Back(guard, count) =>
      && group % 2 == 0 && count == group / 2 && count >= 1 && guard == count % c.modulus
      && (count < latest || (count == latest && at.Idle?))
    case WordAt(i, w) =>
      var version := (group + 1) / 2;
      && group % 2 == 1 && version <= latest && i < c.words
      && i < |versions[version]| && w == versions[version][i]
      && (version == latest ==> !at.Raised? && (at.Copying? ==> i in at.copied))
  }

  ghost predicate WriterOk(c: Config, s: System)
    requires c.Valid()
  {
    && s.buffer.Valid() && |s.versions| > 0
    && (forall v :: 0 <= v < |s.versions| ==> |s.versions[v]| == c.words)
    && var latest := |s.versions| - 1;
    && s.ownFront == latest % c.modulus
    && (s.at.Idle? || latest > 0)
    && s.buffer.Filling() ==
       (match s.at
        case Idle => 2 * latest
        case Raised => 2 * latest - 2
        case Copying(_) => 2 * latest - 1
        case Publishing => 2 * latest)
  }

  ghost function Program(c: Config, versions: seq<Record>, at: WriterAt): (Store, nat) -> bool
    requires c.Valid()
  {
    (store: Store, group: nat) => Issued(c, versions, at, store, group)
  }

  ghost predicate BufferOk(c: Config, s: System)
    requires c.Valid()
  {
    Tracks(s.buffer, Program(c, s.versions, s.at))
  }

  ghost predicate InMemory(c: Config, s: System, store: Store)
    requires c.Valid() && s.buffer.Valid()
  {
    Drained(s.buffer, Program(c, s.versions, s.at), store)
  }

  /** Memory is the effect of all retired groups and of the drained part of the current one. */
  ghost predicate MemoryOk(c: Config, s: System)
    requires c.Valid() && WriterOk(c, s)
  {
    var mem, k := s.mem, s.buffer.retired / 2;
    && mem.front == mem.fronts % c.modulus
    && mem.back == mem.backs % c.modulus
    && |mem.words| == c.words
    && if s.buffer.retired % 2 == 0 then
         && k < |s.versions|
         && mem.words == s.versions[k]
         && mem.fronts == (if InMemory(c, s, Front((k + 1) % c.modulus, k + 1)) then k + 1 else k)
         && mem.backs == (if k == 0 || InMemory(c, s, Back(k % c.modulus, k)) then k else k - 1)
       else
         && k + 1 < |s.versions|
         && mem.fronts == k + 1
         && mem.backs == k
         && forall i :: 0 <= i < c.words ==>
              mem.words[i] == (if InMemory(c, s, WordAt(i, s.versions[k + 1][i]))
                               then s.versions[k + 1][i] else s.versions[k][i])
  }

  /** What every load meets: the guards and words allowed while epoch `seen.epoch` drains. */
  ghost predicate SeenOk(c: Config, versions: seq<Record>, seen: Seen)
    requires c.Valid()
  {
    var mem, k := seen.mem, seen.epoch / 2;
    && mem.front == mem.fronts % c.modulus
    && mem.back == mem.backs % c.modulus
    && |mem.words| == c.words
    && if seen.epoch % 2 == 0 then
         && k < |versions|
         && mem.words == versions[k]
         && k <= mem.fronts <= k + 1
         && mem.backs <= k <= mem.backs + 1
       else
         && k + 1 < |versions|
         && mem.fronts == k + 1
         && mem.backs == k
  }

  /** Time order: the epoch and the guard counts never go down. */
  predicate Before(x: Seen, y: Seen) {
    x.epoch <= y.epoch && x.mem.fronts <= y.mem.fronts && x.mem.backs <= y.mem.backs
  }

  /** A reader's loads, in its program order, against one history of the writer. */
  ghost predicate FeedOk(c: Config, versions: seq<Record>, feed: seq<Seen>)
    requires c.Valid()
  {
    && (forall n :: 0 <= n < |feed| ==> SeenOk(c, versions, feed[n]))
    && (forall m, n :: 0 <= m <= n < |feed| ==> Before(feed[m], feed[n]))
  }

  ghost predicate FeedsOk(c: Config, versions: seq<Record>, feeds: map<nat, seq<Seen>>, now: Seen)
    requires c.Valid()
  {
    forall r :: r in feeds ==>
      FeedOk(c, versions, feeds[r]) && forall n :: 0 <= n < |feeds[r]| ==> Before(feeds[r][n], now)
  }

  ghost predicate Inv(c: Config, s: System)
    requires c.Valid()
  {
    && WriterOk(c, s)
    && BufferOk(c, s)
    && MemoryOk(c, s)
    && FeedsOk(c, s.versions, s.feeds, Seen(s.mem, s.buffer.retired))
  }

  lemma StartInv(c: Config, initial: Record)
    requires c.Valid() && |initial| == c.words
    ensures Inv(c, Start(c, initial))
  {
  }

  ghost predicate WordsIssued(c: Config, s: System, version: nat, group: nat)
    requires c.Valid()
  {
    && version < |s.versions|
    && forall i :: 0 <= i < c.words && i < |s.versions[version]| ==>
         Issued(c, s.versions, s.at, WordAt(i, s.versions[version][i]), group)
  }

  /** An epoch that is no longer being filled has its whole group issued. */
  lemma ClosedGroupIssued(c: Config, s: System)
    requires c.Valid() && WriterOk(c, s) && s.buffer.retired < s.buffer.Filling()
    ensures var k := s.buffer.retired / 2;
      if s.buffer.retired % 2 == 0 then
        && Issued(c, s.versions, s.at, Front((k + 1) % c.modulus, k + 1), s.buffer.retired)
        && (k > 0 ==> Issued(c, s.versions, s.at, Back(k % c.modulus, k), s.buffer.retired))
      else
        WordsIssued(c, s, k + 1, s.buffer.retired)
  {
  }

  lemma MemorySeenOk(c: Config, s: System)
    requires c.Valid() && WriterOk(c, s) && MemoryOk(c, s)
    ensures SeenOk(c, s.versions, Seen(s.mem, s.buffer.retired))
  {
  }

  lemma FeedKeepsOk(c: Config, versions: seq<Record>, record: Record, feed: seq<Seen>)
    requires c.Valid() && FeedOk(c, versions, feed)
    ensures FeedOk(c, versions + [record], feed)
  {
  }

  lemma LoadFeeds(c: Config, s: System, reader: nat)
    requires c.Valid() && FeedsOk(c, s.versions, s.feeds, Seen(s.mem, s.buffer.retired))
    requires SeenOk(c, s.versions, Seen(s.mem, s.buffer.retired))
    requires Enabled(c, s, Load(reader))
    ensures FeedsOk(c, s.versions, Apply(c, s, Load(reader)).feeds, Seen(s.mem, s.buffer.retired))
  {
  }

  lemma LaterFeeds(c: Config, versions: seq<Record>, feeds: map<nat, seq<Seen>>, now: Seen, later: Seen)
    requires c.Valid() && FeedsOk(c, versions, feeds, now) && Before(now, later)
    ensures FeedsOk(c, versions, feeds, later)
  {
  }

  /** Memory depends on the writer only through what has drained. */
  lemma MemoryKeeps(c: Config, s: System, t: System)
    requires c.Valid() && WriterOk(c, s) && MemoryOk(c, s)
    requires WriterOk(c, t) && s.versions <= t.versions
    requires t.mem == s.mem && t.buffer.retired == s.buffer.retired
    requires forall x :: InMemory(c, t, x) <==> InMemory(c, s, x)
    ensures MemoryOk(c, t)
  {
  }

  /** Issuing a store keeps the buffer and the memory in step with the program. */
  lemma IssueKeeps(c: Config, s: System, t: System, store: Store)
    requires c.Valid() && Inv(c, s) && WriterOk(c, t)
    requires t.buffer == s.buffer.Issue(store) && t.mem == s.mem && s.versions <= t.versions
    requires !Issued(c, s.versions, s.at, store, s.buffer.Filling())
    requires forall x, group: nat ::
      Issued(c, t.versions, t.at, x, group) <==>
      Issued(c, s.versions, s.at, x, group) || (x == store && group == s.buffer.Filling())
    ensures BufferOk(c, t) && MemoryOk(c, t)
  {
    IssueTracks(s.buffer, Program(c, s.versions, s.at), Program(c, t.versions, t.at), store);
    MemoryKeeps(c, s, t);
  }

  /** So does a fence that opens an epoch in which nothing is issued yet. */
  lemma FenceKeeps(c: Config, s: System, t: System)
    requires c.Valid() && Inv(c, s) && WriterOk(c, t)
    requires t.buffer == s.buffer.Fence() && t.mem == s.mem && s.versions == t.versions
    requires forall x, group: nat ::
      Issued(c, t.versions, t.at, x, group) <==> Issued(c, s.versions, s.at, x, group)
    requires forall x :: !Issued(c, t.versions, t.at, x, t.buffer.Filling())
    ensures BufferOk(c, t) && MemoryOk(c, t)
  {
    FenceTracks(s.buffer, Program(c, s.versions, s.at), Program(c, t.versions, t.at));
    MemoryKeeps(c, s, t);
  }

  lemma RaiseIssues(c: Config, s: System, a: Action, store: Store, group: nat)
    requires c.Valid() && WriterOk(c, s) && Enabled(c, s, a) && a.Raise?
    ensures var t := Apply(c, s, a);
      Issued(c, t.versions, t.at, store, group) <==>
      Issued(c, s.versions, s.at, store, group)
      || (store == Front(t.ownFront, |s.versions|) && group == s.buffer.Filling())
  {
    Modular.AddWrapped(|s.versions| - 1, 1, c.modulus);
  }

  lemma RaiseInv(c: Config, s: System, a: Action)
    requires c.Valid() && Inv(c, s) && Enabled(c, s, a) && a.Raise?
    ensures Inv(c, Apply(c, s, a))
  {
    var t := Apply(c, s, a);
    Modular.AddWrapped(|s.versions| - 1, 1, c.modulus);
    forall store, group: nat
      ensures Issued(c, t.versions, t.at, store, group) <==>
              Issued(c, s.versions, s.at, store, group)
              || (store == Front(t.ownFront, |s.versions|) && group == s.buffer.Filling())
    {
      RaiseIssues(c, s, a, store, group);
    }
    IssueKeeps(c, s, t, Front(t.ownFront, |s.versions|));
    forall r | r in s.feeds
      ensures FeedOk(c, s.versions + [a.record], s.feeds[r])
    {
      FeedKeepsOk(c, s.versions, a.record, s.feeds[r]);
    }
  }

  lemma FenceRaisedInv(c: Config, s: System, a: Action)
    requires c.Valid() && Inv(c, s) && Enabled(c, s, a) && a.FenceRaised?
    ensures Inv(c, Apply(c, s, a))
  {
    FenceKeeps(c, s, Apply(c, s, a));
  }

  lemma FenceCopiedInv(c: Config, s: System, a: Action)
    requires c.Valid() && Inv(c, s) && Enabled(c, s, a) && a.FenceCopied?
    ensures Inv(c, Apply(c, s, a))
  {
    FenceKeeps(c, s, Apply(c, s, a));
  }

  /** Storing a word issues exactly one store, into the epoch being filled. */
  lemma CopyIssues(c: Config, s: System, a: Action, store: Store, group: nat)
    requires c.Valid() && WriterOk(c, s) && Enabled(c, s, a) && a.CopyWord?
    ensures var t := Apply(c, s, a);
      Issued(c, t.versions, t.at, store, group) <==>
      Issued(c, s.versions, s.at, store, group)
      || (store == WordAt(a.i, s.versions[|s.versions| - 1][a.i]) && group == s.buffer.Filling())
  {
  }

  lemma CopyInv(c: Config, s: System, a: Action)
    requires c.Valid() && Inv(c, s) && Enabled(c, s, a) && a.CopyWord?
    ensures Inv(c, Apply(c, s, a))
  {
    var t := Apply(c, s, a);
    var stored := WordAt(a.i, s.versions[|s.versions| - 1][a.i]);
    forall store, group: nat
      ensures Issued(c, t.versions, t.at, store, group) <==>
              Issued(c, s.versions, s.at, store, group) || (store == stored && group == s.buffer.Filling())
    {
      CopyIssues(c, s, a, store, group);
    }
    IssueKeeps(c, s, t, stored);
  }

  lemma PublishIssues(c: Config, s: System, a: Action, store: Store, group: nat)
    requires c.Valid() && WriterOk(c, s) && Enabled(c, s, a) && a.Publish?
    ensures var t := Apply(c, s, a);
      Issued(c, t.versions, t.at, store, group) <==>
      Issued(c, s.versions, s.at, store, group)
      || (store == Back(s.ownFront, |s.versions| - 1) && group == s.buffer.Filling())
  {
  }

  lemma PublishInv(c: Config, s: System, a: Action)
    requires c.Valid() && Inv(c, s) && Enabled(c, s, a) && a.Publish?
    ensures Inv(c, Apply(c, s, a))
  {
    var t := Apply(c, s, a);
    var stored := Back(s.ownFront, |s.versions| - 1);
    forall store, group: nat
      ensures Issued(c, t.versions, t.at, store, group) <==>
              Issued(c, s.versions, s.at, store, group) || (store == stored && group == s.buffer.Filling())
    {
      PublishIssues(c, s, a, store, group);
    }
    IssueKeeps(c, s, t, stored);
  }

  lemma DrainMemory(c: Config, s: System, a: Action)
    requires c.Valid() && Inv(c, s) && Enabled(c, s, a) && a.DrainStore?
    ensures var t := Apply(c, s, a);
      && WriterOk(c, t) && BufferOk(c, t) && MemoryOk(c, t)
      && Before(Seen(s.mem, s.buffer.retired), Seen(t.mem, t.buffer.retired))
  {
    DrainTracks(s.buffer, Program(c, s.versions, s.at), a.store);
    assert Issued(c, s.versions, s.at, a.store, s.buffer.retired);
    assert !InMemory(c, s, a.store);
  }

  lemma DrainInv(c: Config, s: System, a: Action)
    requires c.Valid() && Inv(c, s) && Enabled(c, s, a) && a.DrainStore?
    ensures Inv(c, Apply(c, s, a))
  {
    var t := Apply(c, s, a);
    DrainMemory(c, s, a);
    LaterFeeds(c, s.versions, s.feeds, Seen(s.mem, s.buffer.retired), Seen(t.mem, t.buffer.retired));
  }

  lemma RetireMemory(c: Config, s: System, a: Action)
    requires c.Valid() && Inv(c, s) && Enabled(c, s, a) && a.RetireEpoch?
    ensures var t := Apply(c, s, a); WriterOk(c, t) && BufferOk(c, t) && MemoryOk(c, t)
  {
    ClosedGroupIssued(c, s);
    RetireTracks(s.buffer, Program(c, s.versions, s.at));
    var t := Apply(c, s, a);
    assert forall x :: Issued(c, s.versions, s.at, x, s.buffer.retired) ==> InMemory(c, s, x);
    assert forall x :: !InMemory(c, t, x);
  }

  lemma RetireInv(c: Config, s: System, a: Action)
    requires c.Valid() && Inv(c, s) && Enabled(c, s, a) && a.RetireEpoch?
    ensures Inv(c, Apply(c, s, a))
  {
    var t := Apply(c, s, a);
    RetireMemory(c, s, a);
    LaterFeeds(c, s.versions, s.feeds, Seen(s.mem, s.buffer.retired), Seen(t.mem, t.buffer.retired));
  }

  lemma LoadInv(c: Config, s: System, a: Action)
    requires c.Valid() && Inv(c, s) && Enabled(c, s, a) && a.Load?
    ensures Inv(c, Apply(c, s, a))
  {
    MemorySeenOk(c, s);
    LoadFeeds(c, s, a.reader);
  }

  lemma StepInv(c: Config, s: System, a: Action)
    requires c.Valid() && Inv(c, s) && Enabled(c, s, a)
    ensures Inv(c, Apply(c, s, a)) && Apply(c, s, a).versions == s.versions + RecordOf(a)
  {
    VersionsStep(c, s, a);
    match a
    case Raise(_) => RaiseInv(c, s, a);
    case FenceRaised => FenceRaisedInv(c, s, a);
    case CopyWord(_) => CopyInv(c, s, a);
    case FenceCopied => FenceCopiedInv(c, s, a);
    case Publish => PublishInv(c, s, a);
    case DrainStore(_) => DrainInv(c, s, a);
    case RetireEpoch => RetireInv(c, s, a);
    case Load(_) => LoadInv(c, s, a);
  }

  lemma {:induction false} RunInv(c: Config, s: System, run: seq<Action>, t: System)
    requires c.Valid() && Inv(c, s) && Leads(c, s, run, t)
    ensures Inv(c, t)
    decreases |run|
  {
    if run != [] {
      StepInv(c, s, run[0]);
      RunInv(c, Apply(c, s, run[0]), run[1..], t);
    }
  }

  // ----- What a reader may conclude -----

  /** Loads `first..last` are one attempt: a guard is sampled from `back_guard` at `first`, the
      words are loaded in between, and at `last` the front guard still equals the sample. */
  predicate Attempt(feed: seq<Seen>, first: nat, last: nat) {
    first <= last < |feed| && feed[first].mem.back == feed[last].mem.front
  }

  /** Fewer than `modulus` writes were started since the version sampled. */
  predicate NoGuardWrap(c: Config, feed: seq<Seen>, first: nat, last: nat)
    requires first <= last < |feed|
  {
    feed[last].mem.fronts < feed[first].mem.backs + c.modulus
  }

  /** A write is under way at some moment between the two loads: it has begun, its front guard
      visible, by the last one, and had not ended, its back guard visible, by the first. */
  predicate OverlapsWrite(feed: seq<Seen>, first: nat, last: nat)
    requires first <= last < |feed|
  {
    feed[first].mem.backs < feed[last].mem.fronts
  }

  /** While the wrapped guards cannot alias, the check fails exactly when a write overlaps. */
  lemma AttemptSucceedsIffUndisturbed(c: Config, versions: seq<Record>, feed: seq<Seen>, first: nat, last: nat)
    requires c.Valid() && FeedOk(c, versions, feed) && first <= last < |feed|
    requires NoGuardWrap(c, feed, first, last)
    ensures Attempt(feed, first, last) <==> !OverlapsWrite(feed, first, last)
  {
    var sampled, checked := feed[first].mem, feed[last].mem;
    BacksBelowFronts(c, versions, feed, first);
    assert sampled.fronts <= checked.fronts;
    Modular.EqualWhenClose(checked.fronts, sampled.backs, c.modulus);
  }

  /** An attempt that overlaps no write succeeds, wrapped guards or not. (`SeqlockQuiet.IdleSucceeds`
      says it of runs in which the writer is idle.) */
  lemma UndisturbedSucceeds(c: Config, versions: seq<Record>, feed: seq<Seen>, first: nat, last: nat)
    requires c.Valid() && FeedOk(c, versions, feed) && first <= last < |feed|
    requires !OverlapsWrite(feed, first, last)
    ensures Attempt(feed, first, last)
  {
  }

  lemma BacksBelowFronts(c: Config, versions: seq<Record>, feed: seq<Seen>, n: nat)
    requires c.Valid() && FeedOk(c, versions, feed) && n < |feed|
    ensures feed[n].mem.backs <= feed[n].mem.fronts
  {
  }

  /** The heart of the protocol. Whatever order the words are loaded in, a passed check means
      that every word loaded since the sample belongs to the version sampled. */
  lemma Untorn(c: Config, versions: seq<Record>, feed: seq<Seen>, first: nat, last: nat)
    requires c.Valid() && FeedOk(c, versions, feed)
    requires Attempt(feed, first, last) && NoGuardWrap(c, feed, first, last)
    ensures feed[first].mem.backs < |versions|
    ensures forall n :: first <= n <= last ==>
      && feed[n].mem.words == versions[feed[first].mem.backs]
      && feed[n].mem.fronts == feed[first].mem.backs
  {
    var version := feed[first].mem.backs;
    AttemptSucceedsIffUndisturbed(c, versions, feed, first, last);
    BacksBelowFronts(c, versions, feed, first);
    assert feed[last].mem.fronts == version;
    EpochAtSample(c, versions, feed[first]);
    EpochAtCheck(c, versions, feed[last]);
    forall n | first <= n <= last
      ensures feed[n].mem.words == versions[version] && feed[n].mem.fronts == version
    {
      assert SeenOk(c, versions, feed[n]);
      assert feed[first].epoch <= feed[n].epoch <= feed[last].epoch;
    }
  }

  lemma EpochAtSample(c: Config, versions: seq<Record>, seen: Seen)
    requires c.Valid() && SeenOk(c, versions, seen)
    ensures 2 * seen.mem.backs <= seen.epoch
  {
  }

  lemma EpochAtCheck(c: Config, versions: seq<Record>, seen: Seen)
    requires c.Valid() && SeenOk(c, versions, seen)
    ensures seen.epoch <= 2 * seen.mem.fronts
  {
  }

  /** No torn reads, over every run: in every interleaving of one writer and any number of
      readers, an attempt that passes its final check saw exactly the version it sampled, the
      versions being the initial record and those handed to the writer, in order. */
  lemma NoTornReads(c: Config, initial: Record, run: seq<Action>, t: System, reader: nat, first: nat, last: nat)
    requires c.Valid() && |initial| == c.words && Leads(c, Start(c, initial), run, t)
    requires Attempt(t.Feed(reader), first, last) && NoGuardWrap(c, t.Feed(reader), first, last)
    ensures t.versions == [initial] + Records(run)
    ensures var feed := t.Feed(reader);
      && feed[first].mem.backs < |t.versions|
      && forall n :: first <= n <= last ==> feed[n].mem.words == t.versions[feed[first].mem.backs]
  {
    VersionsHistory(c, Start(c, initial), run, t);
    StartInv(c, initial);
    RunInv(c, Start(c, initial), run, t);
    Untorn(c, t.versions, t.Feed(reader), first, last);
  }

  /** Whatever the interleaving, the loads of each reader form a feed of the kind the reader
      code of module `IoGuard` runs on. */
  lemma FeedOfRun(c: Config, initial: Record, run: seq<Action>, t: System, reader: nat)
    requires c.Valid() && |initial| == c.words && Leads(c, Start(c, initial), run, t)
    ensures FeedOk(c, t.versions, t.Feed(reader))
  {
    StartInv(c, initial);
    RunInv(c, Start(c, initial), run, t);
  }

  /** Successive successful attempts of one reader never go back: the number of the version that
      the later one sampled, and saw, is no less than that of the earlier one. */
  lemma SnapshotsMonotone(c: Config, initial: Record, run: seq<Action>, t: System, reader: nat,
                          first1: nat, last1: nat, first2: nat, last2: nat)
    requires c.Valid() && |initial| == c.words && Leads(c, Start(c, initial), run, t)
    requires Attempt(t.Feed(reader), first1, last1) && NoGuardWrap(c, t.Feed(reader), first1, last1)
    requires Attempt(t.Feed(reader), first2, last2) && NoGuardWrap(c, t.Feed(reader), first2, last2)
    requires last1 < first2
    ensures var feed := t.Feed(reader);
      && feed[first1].mem.backs <= feed[first2].mem.backs < |t.versions|
      && (forall n :: first1 <= n <= last1 ==> feed[n].mem.words == t.versions[feed[first1].mem.backs])
      && (forall n :: first2 <= n <= last2 ==> feed[n].mem.words == t.versions[feed[first2].mem.backs])
  {
    StartInv(c, initial);
    RunInv(c, Start(c, initial), run, t);
    var feed := t.Feed(reader);
    Untorn(c, t.versions, feed, first1, last1);
    Untorn(c, t.versions, feed, first2, last2);
    assert Before(feed[first1], feed[first2]);
  }

  /** The 32-bit guards of `IOGuard`: while no attempt spans 2^32 writes, nothing is torn. */
  lemma NoTornReads32(words: nat, initial: Record, run: seq<Action>, t: System, reader: nat, first: nat, last: nat)
    requires |initial| == words
    requires Leads(Config(words, UINT32_VALUES), Start(Config(words, UINT32_VALUES), initial), run, t)
    requires Attempt(t.Feed(reader), first, last)
    requires t.Feed(reader)[last].mem.fronts - t.Feed(reader)[first].mem.backs < UINT32_VALUES
    ensures var feed := t.Feed(reader);
      && feed[first].mem.backs < |t.versions|
      && forall n :: first <= n <= last ==> feed[n].mem.words == t.versions[feed[first].mem.backs]
  {
    NoTornReads(Config(words, UINT32_VALUES), initial, run, t, reader, first, last);
  }

  // ----- Building runs -----

  lemma {:induction false} LeadsOn(c: Config, s: System, run: seq<Action>, t: System, more: seq<Action>, u: System)
    requires c.Valid() && Leads(c, s, run, t) && Leads(c, t, more, u)
    ensures Leads(c, s, run + more, u)
    decreases |run|
  {
    if run == [] {
      assert run + more == more;
    } else {
      LeadsOn(c, Apply(c, s, run[0]), run[1..], t, more, u);
      assert (run + more)[1..] == run[1..] + more;
    }
  }

  lemma Extend(c: Config, s: System, run: seq<Action>, t: System, a: Action)
    requires c.Valid() && Leads(c, s, run, t) && Enabled(c, t, a)
    ensures Leads(c, s, run + [a], Apply(c, t, a))
  {
    assert [a][1..] == [];
    assert Leads(c, Apply(c, t, a), [], Apply(c, t, a));
    LeadsOn(c, s, run, t, [a], Apply(c, t, a));
  }
}
