/** `basic_ioguard<U, guard_type>`: the code of the writers and of the three readers.

    A writer runs alone on its record, so its methods change the fields directly; alongside they
    carry the run of the protocol that their stores amount to. A reader runs beside the writer:
    its n-th load meets `feed[n]`, the shared record at that moment, and the feed is one of those
    the protocol allows. A finite feed may end while a reader still spins.
 */
module IoGuard {
  import opened Common
  import opened Seqlock
  import opened SeqlockQuiet

  /** How a call stands when the reader's loads run out: back with a result, or still inside. */
  datatype Outcome = Returned(ok: bool) | Waiting

  /** The loads a reader makes are those of some run of the protocol over records of this size. */
  ghost predicate Sound(c: Config, versions: seq<Record>, feed: seq<Seen>, order: seq<nat>) {
    c.Valid() && FeedOk(c, versions, feed) && IsOrder(order, c.words)
  }

  /** The result of an attempt: all the words of the version it sampled. */
  ghost predicate Snapshot(versions: seq<Record>, feed: seq<Seen>, first: nat, words: Record)
    requires first < |feed|
  {
    feed[first].mem.backs < |versions| && words == versions[feed[first].mem.backs]
  }

  /** One copy of the data words out of the shared record, starting with load `start`. */
  method LoadWords(c: Config, ghost versions: seq<Record>, feed: seq<Seen>, order: seq<nat>, start: nat,
                   rhs: array<Word>)
    requires Sound(c, versions, feed, order)
    requires start + c.words <= |feed| && rhs.Length == c.words
    modifies rhs
    ensures forall k :: 0 <= k < c.words ==> rhs[order[k]] == feed[start + k].mem.words[order[k]]
  {
    for n := 0 to c.words
      invariant forall k :: 0 <= k < n ==> rhs[order[k]] == feed[start + k].mem.words[order[k]]
    {
      rhs[order[n]] := feed[start + n].mem.words[order[n]];
    }
  }

  /** One attempt of `try_copy_to_rhs_reverse_order`, from load `first` on. */
  method TryOnce(c: Config, ghost versions: seq<Record>, feed: seq<Seen>, order: seq<nat>, first: nat, rhs: array<Word>)
    returns (ok: bool)
    requires Sound(c, versions, feed, order) && rhs.Length == c.words
    requires first + c.words + 2 <= |feed|
    modifies rhs
    ensures ok == Attempt(feed, first, first + c.words + 1)
    ensures ok && NoGuardWrap(c, feed, first, first + c.words + 1) ==> Snapshot(versions, feed, first, rhs[..])
  {
    var sampled := feed[first].mem.back;
    LoadWords(c, versions, feed, order, first + 1, rhs);
    ok := feed[first + c.words + 1].mem.front == sampled;
    if ok && NoGuardWrap(c, feed, first, first + c.words + 1) {
      LoadedSnapshot(c, versions, feed, order, first, first + 1, first + c.words + 1, rhs[..]);
    }
  }

  /** Words loaded inside an attempt that passed its check make up the version sampled. */
  lemma LoadedSnapshot(c: Config, versions: seq<Record>, feed: seq<Seen>, order: seq<nat>,
                       first: nat, start: nat, last: nat, words: Record)
    requires Sound(c, versions, feed, order) && |words| == c.words
    requires first <= start && start + c.words <= last
    requires Attempt(feed, first, last) && NoGuardWrap(c, feed, first, last)
    requires forall k :: 0 <= k < c.words ==> words[order[k]] == feed[start + k].mem.words[order[k]]
    ensures Snapshot(versions, feed, first, words)
  {
    Untorn(c, versions, feed, first, last);
    var version := versions[feed[first].mem.backs];
    assert SeenOk(c, versions, feed[first]);
    forall i | 0 <= i < c.words
      ensures words[i] == version[i]
    {
      assert i in order;
      var k :| 0 <= k < |order| && order[k] == i;
      assert feed[start + k].mem.words == version;
    }
  }

  /** What `init_reverse_order` has copied when its check passes: the words, and for its own guards
      those of the version sampled. */
  lemma InitSnapshot(c: Config, versions: seq<Record>, feed: seq<Seen>, order: seq<nat>, first: nat, words: Record)
    requires Sound(c, versions, feed, order) && |words| == c.words
    requires Attempt(feed, first, first + c.words + 3)
    requires forall k :: 0 <= k < c.words ==> words[order[k]] == feed[first + 2 + k].mem.words[order[k]]
    ensures NoGuardWrap(c, feed, first, first + c.words + 3) ==>
      && Snapshot(versions, feed, first, words)
      && feed[first + c.words + 2].mem.front == feed[first].mem.back == feed[first].mem.backs % c.modulus
  {
    var last := first + c.words + 3;
    if NoGuardWrap(c, feed, first, last) {
      LoadedSnapshot(c, versions, feed, order, first, first + 2, last, words);
      Untorn(c, versions, feed, first, last);
      assert SeenOk(c, versions, feed[first + c.words + 2]) && SeenOk(c, versions, feed[first]);
    }
  }

  /** The two loops that retry without bound. A round of `init_reverse_order` loads the back guard,
      its sample, and the front guard; one of `copy_to_rhs_reverse_order` compares the two guards,
      in the order the compiler chose for the operands. When they agree the latter samples the back
      guard anew, the former loads the front guard once more after the words, for its own record. */
  datatype Loop = Init | CopyToRhs(frontFirst: bool) {

    predicate Agree(feed: seq<Seen>, pos: nat)
      requires pos + 1 < |feed|
    {
      if CopyToRhs? && frontFirst then feed[pos].mem.front == feed[pos + 1].mem.back
      else feed[pos].mem.back == feed[pos + 1].mem.front
    }

    /** The load that gives the sample. */
    function Sample(pos: nat): nat {
      if Init? then pos else pos + 2
    }

    /** The round from load `pos` on is complete, its guards agree and its check passes. */
    predicate Passes(feed: seq<Seen>, words: nat, pos: nat) {
      pos + words + 3 < |feed| && Agree(feed, pos) && Attempt(feed, Sample(pos), pos + words + 3)
    }

    /** Where the round after a failed one starts. */
    function NextRound(feed: seq<Seen>, words: nat, pos: nat): nat
      requires pos + 1 < |feed|
    {
      if Agree(feed, pos) then pos + words + 4 else pos + 2
    }

    /** Where the first round to pass starts, from `pos` on. */
    function Spin(feed: seq<Seen>, words: nat, pos: nat): Option<nat>
      decreases |feed| - pos
    {
      if |feed| < pos + words + 4 then None
      else if Passes(feed, words, pos) then Some(pos)
      else Spin(feed, words, NextRound(feed, words, pos))
    }
  }

  /** What bounded retrying from load `pos` on amounts to: the first attempt to succeed among at
      most `limit`, each attempt taking `words + 2` loads; with the number of attempts made,
      `made` of them before `pos`, and where the last one, or the next, begins. */
  function Tries(feed: seq<Seen>, words: nat, pos: nat, limit: nat, made: nat): (Outcome, nat, nat)
    decreases limit
  {
    if limit == 0 then (Returned(false), made, pos)
    else if |feed| < pos + words + 2 then (Waiting, made, pos)
    else if Attempt(feed, pos, pos + words + 1) then (Returned(true), made + 1, pos)
    else Tries(feed, words, pos + words + 2, limit - 1, made + 1)
  }

  /** `size_t` arithmetic. */
  const SIZE_T_VALUES: nat := 0x1_0000_0000_0000_0000

  /** How often the loop of `try_copy_to_rhs_reverse_order` can go round. It advances `num_try`
      instead of `try_iter`, so it ends only when `num_try` wraps to zero. */
  function LimitAsWritten(numTry: nat): nat
    requires numTry < SIZE_T_VALUES
  {
    if numTry == 0 then 0 else SIZE_T_VALUES - numTry
  }

  /** What a record showed at one moment. Only its constructor sets a moment, and that can only take
      the fields as they are; the moment before it was there first. So a chain of moments is made of
      states the record has been in, in that order. */
  class Moment {
    ghost const shown: Shown
    ghost const previous: Moment?

    ghost constructor (record: BasicIoguard, previous: Moment?)
      ensures shown == record.Showing() && this.previous == previous
    {
      shown, this.previous := record.Showing(), previous;
    }
  }

  ghost predicate Chained(moments: seq<Moment>) {
    forall k, l :: 0 <= k < l < |moments| && l == k + 1 ==> moments[l].previous == moments[k]
  }

  ghost function ShownIn(moments: seq<Moment>): seq<Shown> {
    seq(|moments|, k requires 0 <= k < |moments| => moments[k].shown)
  }

  /** The moments of a write from its front guard to its `i`-th word. */
  ghost predicate ShowWords(moments: seq<Moment>, front: nat, back: nat, record: Record, before: Record, i: nat)
    requires i <= |record| == |before|
  {
    && |moments| == i + 1 && Chained(moments)
    && forall k :: 0 <= k <= i ==> moments[k].shown == Shown(front, back, Partly(record, before, k))
  }

  lemma ShowOneMore(moments: seq<Moment>, front: nat, back: nat, record: Record, before: Record, i: nat, now: Moment)
    requires i < |record| == |before| && ShowWords(moments, front, back, record, before, i)
    requires now.previous == moments[i] && now.shown == Shown(front, back, Partly(record, before, i + 1))
    ensures ShowWords(moments + [now], front, back, record, before, i + 1)
  {
  }

  lemma ShowAll(moments: seq<Moment>, before: Shown, guard: nat, record: Record, now: Moment)
    requires |record| == |before.words| && ShowWords(moments, guard, before.back, record, before.words, |record|)
    requires now.previous == moments[|record|] && now.shown == Shown(guard, guard, record)
    ensures Chained(moments + [now]) && ShownByWrite(before, guard, record, ShownIn(moments + [now]))
  {
  }

  class BasicIoguard {
    const c: Config
    var frontGuard: nat
    var backGuard: nat
    const data: array<Word>

    // The run of the protocol that the writer's stores to this record amount to.
    ghost const initial: Record
    ghost var run: seq<Action>
    ghost var system: System

    ghost function Showing(): Shown
      reads this, data
    {
      Shown(frontGuard, backGuard, data[..])
    }

    /** The fields are the memory of the protocol: every store of `run` has reached it. */
    ghost predicate InStep()
      reads this, data
    {
      OnRun() && data.Length == c.words && system.buffer.Empty() && Shows(system.mem) == Showing()
    }

    /** The record is at rest: no write is under way. */
    ghost predicate Valid()
      reads this, data
    {
      InStep() && system.at.Idle?
    }

    /** A write of `record` is under way, its front guard raised and its first `k` words stored. */
    ghost predicate Writing(record: Record, k: nat)
      reads this, data
    {
      && InStep() && |record| == c.words && system.versions != []
      && system.versions[|system.versions| - 1] == record
      && system.at.Copying? && forall i: nat :: i in system.at.copied <==> i < k
    }

    constructor (c: Config, initial: seq<Word>)
      requires c.Valid() && |initial| == c.words
      ensures Valid() && fresh(data) && this.c == c
      ensures frontGuard == backGuard == 0 && data[..] == initial
      ensures system.versions == [initial]
    {
      this.c := c;
      frontGuard, backGuard := 0, 0;
      data := new Word[c.words](i requires 0 <= i < |initial| => initial[i]);
      this.initial := initial;
      run := [];
      system := Start(c, initial);
      new;
      assert data[..] == initial;
    }

    /** `run` is a run of the protocol that has brought it to `system`. */
    ghost predicate OnRun()
      reads this`run, this`system
    {
      && c.Valid() && |initial| == c.words
      && Leads(c, Start(c, initial), run, system)
    }

    lemma Reached()
      requires OnRun()
      ensures Inv(c, system)
    {
      StartInv(c, initial);
      RunInv(c, Start(c, initial), run, system);
    }

    /** The protocol takes the steps `more`, to `next`. */
    ghost method Advance(more: seq<Action>, next: System)
      requires OnRun() && Leads(c, system, more, next)
      modifies this`run, this`system
      ensures OnRun() && system == next && run == old(run) + more
    {
      LeadsOn(c, Start(c, initial), run, system, more, next);
      run, system := run + more, next;
    }

    // Each of the stores of `init` and `copy_to_rhs` changes one location and no other. On a record
    // at rest it is also a step of the protocol: the fields are the memory of the protocol before
    // and after. A word may be stored only once the front guard has been.

    /** `++front_guard`, and the fence after it. */
    method StoreFront(ghost record: Record, ghost previous: Moment?) returns (ghost now: Moment)
      requires c.modulus > 0
      modifies `frontGuard, `run, `system
      ensures frontGuard == (old(frontGuard) + 1) % c.modulus
      ensures fresh(now) && now.previous == previous && now.shown == Showing()
      ensures old(Valid()) && |record| == c.words ==>
        Writing(record, 0) && system.versions == old(system.versions) + [record]
    {
      if Valid() && |record| == c.words {
        Reached();
        ghost var more, next := RaiseNow(c, system, record);
        Advance(more, next);
      }
      frontGuard := (frontGuard + 1) % c.modulus;
      now := new Moment(this, previous);
    }

    /** One 64-bit word of the copy. */
    method StoreWord(i: nat, w: Word, ghost record: Record, ghost previous: Moment?) returns (ghost now: Moment)
      requires i < data.Length
      modifies data, `run, `system
      ensures data[..] == old(data[..])[i := w]
      ensures fresh(now) && now.previous == previous && now.shown == Showing()
      ensures old(Writing(record, i)) && w == record[i] ==> Writing(record, i + 1)
      ensures system.versions == old(system.versions)
    {
      if Writing(record, i) && w == record[i] {
        Reached();
        ghost var more, next := WordNow(c, system, i);
        Advance(more, next);
      }
      data[i] := w;
      now := new Moment(this, previous);
    }

    /** The fence after the copy, and `back_guard = front_guard`. */
    method StoreBack(ghost record: Record, ghost previous: Moment?) returns (ghost now: Moment)
      modifies `backGuard, `run, `system
      ensures backGuard == frontGuard
      ensures fresh(now) && now.previous == previous && now.shown == Showing()
      ensures old(Writing(record, c.words)) ==> Valid()
      ensures system.versions == old(system.versions)
    {
      if Writing(record, c.words) {
        Reached();
        ghost var more, next := PublishNow(c, system);
        Advance(more, next);
      }
      backGuard := frontGuard;
      now := new Moment(this, previous);
    }

    /** The stores of `init` and `copy_to_rhs`, in order. `moments` is what the record showed after
        each of them. */
    method Store(rhs: seq<Word>) returns (ghost moments: seq<Moment>)
      requires c.modulus > 0 && data.Length == |rhs|
      modifies `frontGuard, `backGuard, data, `run, `system
      ensures data[..] == rhs && backGuard == frontGuard == (old(frontGuard) + 1) % c.modulus
      ensures Chained(moments) && forall k :: 0 <= k < |moments| ==> fresh(moments[k])
      ensures ShownByWrite(old(Showing()), frontGuard, rhs, ShownIn(moments))
      ensures old(Valid()) ==> Valid() && system.versions == old(system.versions) + [rhs]
    {
      ghost var before, atRest := Showing(), Valid();
      ghost var now := StoreFront(rhs, null);
      moments := [now];
      for i := 0 to data.Length
        modifies data, `run, `system
        invariant data[..] == Partly(rhs, before.words, i)
        invariant ShowWords(moments, frontGuard, backGuard, rhs, before.words, i) && now == moments[i]
        invariant forall k :: 0 <= k <= i ==> fresh(moments[k])
        invariant atRest ==> Writing(rhs, i) && system.versions == old(system.versions) + [rhs]
      {
        PartlyStep(rhs, before.words, i);
        now := StoreWord(i, rhs[i], rhs, now);
        ShowOneMore(moments, frontGuard, backGuard, rhs, before.words, i, now);
        moments := moments + [now];
      }
      now := StoreBack(rhs, now);
      ShowAll(moments, before, frontGuard, rhs, now);
      moments := moments + [now];
    }

    /** The writers `init` and `copy_to_rhs`: this record becomes a copy of `rhs`, one version
        further. All that it shows on the way the protocol reaches too, see `ShownIsReached`. */
    method CopyFrom(rhs: seq<Word>) returns (ghost moments: seq<Moment>)
      requires Valid() && |rhs| == c.words
      modifies this, data
      ensures Valid()
      ensures data[..] == rhs && backGuard == frontGuard == (old(frontGuard) + 1) % c.modulus
      ensures Chained(moments) && forall k :: 0 <= k < |moments| ==> fresh(moments[k])
      ensures ShownByWrite(old(Showing()), frontGuard, rhs, ShownIn(moments))
      ensures system.versions == old(system.versions) + [rhs]
    {
      moments := Store(rhs);
    }

    /** One round of `init_reverse_order`, from load `pos` on; if it fails, where the next one
        starts. */
    method InitOnce(ghost versions: seq<Record>, feed: seq<Seen>, order: seq<nat>, pos: nat)
      returns (ok: bool, next: nat)
      requires Sound(c, versions, feed, order) && data.Length == c.words
      requires pos + c.words + 4 <= |feed|
      modifies this`frontGuard, this`backGuard, data
      ensures ok == Init.Passes(feed, c.words, pos)
      ensures !ok ==> next == Init.NextRound(feed, c.words, pos)
      ensures ok && NoGuardWrap(c, feed, pos, pos + c.words + 3) ==>
        && Snapshot(versions, feed, pos, data[..])
        && frontGuard == backGuard == feed[pos].mem.backs % c.modulus
    {
      backGuard := feed[pos].mem.back;
      if feed[pos + 1].mem.front != backGuard {
        return false, pos + 2;
      }
      LoadWords(c, versions, feed, order, pos + 2, data);
      frontGuard := feed[pos + c.words + 2].mem.front;
      ok, next := feed[pos + c.words + 3].mem.front == backGuard, pos + c.words + 4;
      if ok {
        InitSnapshot(c, versions, feed, order, pos, data[..]);
      }
    }

    /** `init_reverse_order`: this record becomes a copy of the shared one, guards and all. */
    method InitReverseOrder(ghost versions: seq<Record>, feed: seq<Seen>, order: seq<nat>)
      returns (outcome: Outcome, pos: nat)
      requires Sound(c, versions, feed, order) && data.Length == c.words
      modifies this`frontGuard, this`backGuard, data
      ensures outcome == if Init.Spin(feed, c.words, 0).Some? then Returned(true) else Waiting
      ensures outcome == Returned(true) ==>
        && Init.Spin(feed, c.words, 0) == Some(pos) && pos + c.words + 3 < |feed|
        && feed[pos].mem.back == feed[pos + 1].mem.front == feed[pos + c.words + 3].mem.front
      ensures outcome == Returned(true) && NoGuardWrap(c, feed, pos, pos + c.words + 3) ==>
        && Snapshot(versions, feed, pos, data[..])
        && frontGuard == backGuard == feed[pos].mem.backs % c.modulus
    {
      pos := 0;
      while pos + c.words + 4 <= |feed|
        invariant Init.Spin(feed, c.words, 0) == Init.Spin(feed, c.words, pos)
        decreases |feed| - pos
      {
        var ok, next := InitOnce(versions, feed, order, pos);
        if ok {
          return Returned(true), pos;
        }
        pos := next;
      }
      return Waiting, pos;
    }
  }

  /** One round of `copy_to_rhs_reverse_order`, from load `pos` on; if it fails, where the next
      one starts. */
  method RoundOnce(c: Config, ghost versions: seq<Record>, feed: seq<Seen>, order: seq<nat>, pos: nat,
                   rhs: array<Word>, frontFirst: bool)
    returns (ok: bool, next: nat)
    requires Sound(c, versions, feed, order) && rhs.Length == c.words
    requires pos + c.words + 4 <= |feed|
    modifies rhs
    ensures ok == CopyToRhs(frontFirst).Passes(feed, c.words, pos)
    ensures !ok ==> next == CopyToRhs(frontFirst).NextRound(feed, c.words, pos)
    ensures ok && NoGuardWrap(c, feed, pos + 2, pos + c.words + 3) ==> Snapshot(versions, feed, pos + 2, rhs[..])
  {
    var agree := if frontFirst then feed[pos].mem.front == feed[pos + 1].mem.back
                 else feed[pos].mem.back == feed[pos + 1].mem.front;
    if !agree {
      return false, pos + 2;
    }
    next := pos + c.words + 4;
    ok := TryOnce(c, versions, feed, order, pos + 2, rhs);
  }

  /** `copy_to_rhs_reverse_order`. */
  method CopyToRhsReverseOrder(c: Config, ghost versions: seq<Record>, feed: seq<Seen>, order: seq<nat>,
                               rhs: array<Word>, frontFirst: bool)
    returns (outcome: Outcome, pos: nat)
    requires Sound(c, versions, feed, order) && rhs.Length == c.words
    modifies rhs
    ensures outcome == if CopyToRhs(frontFirst).Spin(feed, c.words, 0).Some? then Returned(true) else Waiting
    ensures outcome == Returned(true) ==>
      && CopyToRhs(frontFirst).Spin(feed, c.words, 0) == Some(pos) && pos + c.words + 3 < |feed|
      && (if frontFirst then feed[pos].mem.front == feed[pos + 1].mem.back
          else feed[pos].mem.back == feed[pos + 1].mem.front)
      && feed[pos + 2].mem.back == feed[pos + c.words + 3].mem.front
    ensures outcome == Returned(true) && NoGuardWrap(c, feed, pos + 2, pos + c.words + 3) ==>
      Snapshot(versions, feed, pos + 2, rhs[..])
  {
    pos := 0;
    while pos + c.words + 4 <= |feed|
      invariant CopyToRhs(frontFirst).Spin(feed, c.words, 0) == CopyToRhs(frontFirst).Spin(feed, c.words, pos)
      decreases |feed| - pos
    {
      var ok, next := RoundOnce(c, versions, feed, order, pos, rhs, frontFirst);
      if ok {
        return Returned(true), pos;
      }
      pos := next;
    }
    return Waiting, pos;
  }

  /** `try_copy_to_rhs_reverse_order` with `try_iter` advanced, as the bound intends. */
  method TryCopyIntended(c: Config, ghost versions: seq<Record>, feed: seq<Seen>, order: seq<nat>,
                         rhs: array<Word>, numTry: nat)
    returns (outcome: Outcome, attempts: nat, first: nat)
    requires Sound(c, versions, feed, order) && rhs.Length == c.words
    modifies rhs
    ensures (outcome, attempts, first) == Tries(feed, c.words, 0, numTry, 0)
    ensures outcome == Returned(true) ==> Attempt(feed, first, first + c.words + 1)
    ensures outcome == Returned(true) && NoGuardWrap(c, feed, first, first + c.words + 1) ==>
      Snapshot(versions, feed, first, rhs[..])
  {
    var tryIter := 0;
    first, attempts := 0, 0;
    while tryIter < numTry
      invariant tryIter <= numTry
      invariant Tries(feed, c.words, 0, numTry, 0) == Tries(feed, c.words, first, numTry - tryIter, attempts)
    {
      if |feed| < first + c.words + 2 {
        return Waiting, attempts, first;
      }
      var ok := TryOnce(c, versions, feed, order, first, rhs);
      if ok {
        return Returned(true), attempts + 1, first;
      }
      tryIter, attempts, first := tryIter + 1, attempts + 1, first + c.words + 2;
    }
    return Returned(false), attempts, first;
  }

  /** `try_copy_to_rhs_reverse_order` as its text reads: the loop advances `num_try`. */
  method TryCopyAsWritten(c: Config, ghost versions: seq<Record>, feed: seq<Seen>, order: seq<nat>,
                          rhs: array<Word>, numTry: nat)
    returns (outcome: Outcome, attempts: nat, first: nat)
    requires Sound(c, versions, feed, order) && rhs.Length == c.words && numTry < SIZE_T_VALUES
    modifies rhs
    ensures (outcome, attempts, first) == Tries(feed, c.words, 0, LimitAsWritten(numTry), 0)
    ensures outcome == Returned(true) ==> Attempt(feed, first, first + c.words + 1)
    ensures outcome == Returned(true) && NoGuardWrap(c, feed, first, first + c.words + 1) ==>
      Snapshot(versions, feed, first, rhs[..])
  {
    var tryIter, limit: nat := 0, numTry;
    ghost var left := LimitAsWritten(numTry);
    first, attempts := 0, 0;
    while tryIter < limit
      invariant limit < SIZE_T_VALUES && left == LimitAsWritten(limit)
      invariant Tries(feed, c.words, 0, LimitAsWritten(numTry), 0) == Tries(feed, c.words, first, left, attempts)
      decreases left
    {
      if |feed| < first + c.words + 2 {
        return Waiting, attempts, first;
      }
      var ok := TryOnce(c, versions, feed, order, first, rhs);
      if ok {
        return Returned(true), attempts + 1, first;
      }
      limit, left := NextLimit(limit), left - 1;
      attempts, first := attempts + 1, first + c.words + 2;
    }
    return Returned(false), attempts, first;
  }

  /** `++num_try`. */
  function NextLimit(numTry: nat): (next: nat)
    requires 0 < numTry < SIZE_T_VALUES
    ensures next < SIZE_T_VALUES && LimitAsWritten(next) == LimitAsWritten(numTry) - 1
  {
    (numTry + 1) % SIZE_T_VALUES
  }

  // ----- What bounded retrying promises -----

  /** The number of loads in `count` attempts. */
  function Loads(words: nat, count: nat): nat {
    if count == 0 then 0 else Loads(words, count - 1) + words + 2
  }

  /** Attempt number `k` took place and its check failed. */
  predicate Failed(feed: seq<Seen>, words: nat, k: nat) {
    Loads(words, k) + words + 1 < |feed| && !Attempt(feed, Loads(words, k), Loads(words, k) + words + 1)
  }

  /** The attempts made all fail, but for the last one when the call returns true; a call that
      returns false has made all the attempts it may. */
  ghost predicate TriesMean(feed: seq<Seen>, words: nat, limit: nat, outcome: Outcome, attempts: nat, first: nat) {
    && attempts <= limit
    && (forall k: nat :: k < attempts && !(outcome == Returned(true) && k == attempts - 1) ==>
          Failed(feed, words, k))
    && (outcome == Returned(true) ==>
          attempts > 0 && first == Loads(words, attempts - 1) && Attempt(feed, first, first + words + 1))
    && (outcome == Returned(false) ==> attempts == limit)
    && (outcome == Waiting ==> attempts < limit && |feed| < Loads(words, attempts) + words + 2)
  }

  lemma {:induction false} TriesFrom(feed: seq<Seen>, words: nat, limit: nat, left: nat, made: nat)
    requires left + made == limit
    requires forall k: nat :: k < made ==> Failed(feed, words, k)
    ensures var (outcome, attempts, first) := Tries(feed, words, Loads(words, made), left, made);
      TriesMean(feed, words, limit, outcome, attempts, first)
    decreases left
  {
    var pos := Loads(words, made);
    if left > 0 && |feed| >= pos + words + 2 && !Attempt(feed, pos, pos + words + 1) {
      TriesFrom(feed, words, limit, left - 1, made + 1);
    }
  }

  /** Intended: at most `num_try` attempts; true means an attempt succeeded; false means that
      all `num_try` failed, and every failed attempt overlapped a write. */
  lemma BoundedTry(c: Config, versions: seq<Record>, feed: seq<Seen>, numTry: nat)
    requires c.Valid() && FeedOk(c, versions, feed)
    ensures var (outcome, attempts, first) := Tries(feed, c.words, 0, numTry, 0);
      && TriesMean(feed, c.words, numTry, outcome, attempts, first)
      && (outcome == Returned(false) ==> forall k: nat :: k < numTry ==> FailsByOverlap(feed, c.words, k))
  {
    TriesFrom(feed, c.words, numTry, numTry, 0);
    var (outcome, attempts, first) := Tries(feed, c.words, 0, numTry, 0);
    if outcome == Returned(false) {
      forall k: nat | k < numTry
        ensures FailsByOverlap(feed, c.words, k)
      {
        FailureOverlaps(c, versions, feed, k);
      }
    }
  }

  /** Attempt number `k` took place and a write was under way during it. */
  ghost predicate FailsByOverlap(feed: seq<Seen>, words: nat, k: nat) {
    && Loads(words, k) + words + 1 < |feed|
    && OverlapsWrite(feed, Loads(words, k), Loads(words, k) + words + 1)
  }

  lemma FailureOverlaps(c: Config, versions: seq<Record>, feed: seq<Seen>, k: nat)
    requires c.Valid() && FeedOk(c, versions, feed) && Failed(feed, c.words, k)
    ensures FailsByOverlap(feed, c.words, k)
  {
  }

  lemma {:induction false} LoadsMonotone(words: nat, k: nat, l: nat)
    requires k <= l
    ensures Loads(words, k) <= Loads(words, l)
    decreases l
  {
    if k < l {
      LoadsMonotone(words, k, l - 1);
    }
  }

  lemma {:induction false} AtLeastMade(feed: seq<Seen>, words: nat, pos: nat, limit: nat, made: nat)
    ensures made <= Tries(feed, words, pos, limit, made).1
    decreases limit
  {
    if limit > 0 && |feed| >= pos + words + 2 && !Attempt(feed, pos, pos + words + 1) {
      AtLeastMade(feed, words, pos + words + 2, limit - 1, made + 1);
    }
  }

  /** What a reader meets while the writer is held up in the middle of its first write. */
  ghost predicate AllStalled(feed: seq<Seen>) {
    forall n :: 0 <= n < |feed| ==> feed[n].mem.front != 0 && feed[n].mem.back == 0
  }

  /** The writer raises the front guard and takes no further step, while reader 0 makes `count`
      attempts. */
  lemma StalledRun(c: Config, initial: Record, count: nat) returns (run: seq<Action>, t: System)
    requires c.Valid() && c.modulus >= 2 && |initial| == c.words
    ensures Leads(c, Start(c, initial), run, t)
    ensures |t.Feed(0)| == Loads(c.words, count) && AllStalled(t.Feed(0))
  {
    var s := Start(c, initial);
    StartInv(c, initial);
    var run1, t1 := RaiseNow(c, s, initial);
    var run2, t2 := LoadMany(c, t1, 0, Loads(c.words, count));
    LeadsOn(c, s, run1, t1, run2, t2);
    run, t := run1 + run2, t2;
  }

  lemma {:induction false} StalledTries(feed: seq<Seen>, words: nat, limit: nat, made: nat, count: nat)
    requires made <= count && count - made <= limit
    requires |feed| == Loads(words, count) && AllStalled(feed)
    ensures Tries(feed, words, Loads(words, made), limit, made).1 >= count
    decreases count - made
  {
    if made < count {
      LoadsMonotone(words, made + 1, count);
      StalledTries(feed, words, limit - 1, made + 1, count);
    } else {
      AtLeastMade(feed, words, Loads(words, made), limit, made);
    }
  }

  /** However the writer and the other readers take their steps, the call as written makes no more
      than `num_try` attempts. */
  ghost predicate BoundHolds(c: Config, initial: Record, numTry: nat)
    requires c.Valid() && numTry < SIZE_T_VALUES
  {
    forall run, t, reader: nat | Leads(c, Start(c, initial), run, t) ::
      Tries(t.Feed(reader), c.words, 0, LimitAsWritten(numTry), 0).1 <= numTry
  }

  /** As written the bound on the number of attempts holds for no useful argument: it holds over
      all runs exactly when `num_try` is 0 or at least half the range of `size_t`. */
  lemma BoundAsWrittenIff(c: Config, initial: Record, numTry: nat)
    requires c.Valid() && c.modulus >= 2 && |initial| == c.words && numTry < SIZE_T_VALUES
    ensures BoundHolds(c, initial, numTry) <==> numTry == 0 || 2 * numTry >= SIZE_T_VALUES
  {
    if numTry == 0 || 2 * numTry >= SIZE_T_VALUES {
      forall run, t, reader: nat | Leads(c, Start(c, initial), run, t)
        ensures Tries(t.Feed(reader), c.words, 0, LimitAsWritten(numTry), 0).1 <= numTry
      {
        TriesFrom(t.Feed(reader), c.words, LimitAsWritten(numTry), LimitAsWritten(numTry), 0);
      }
    } else {
      var run, t := StalledRun(c, initial, numTry + 1);
      StalledTries(t.Feed(0), c.words, LimitAsWritten(numTry), 0, numTry + 1);
    }
  }

  // ----- What retrying without bound promises -----

  /** A round in terms of the loads it makes: which of them must agree for it to pass, and how many
      it takes when it does not. */
  lemma RoundMeans(loop: Loop, feed: seq<Seen>, words: nat, pos: nat)
    requires pos + words + 3 < |feed|
    ensures var last := pos + words + 3;
      match loop
      case Init =>
        && (loop.Passes(feed, words, pos)
            <==> feed[pos].mem.back == feed[pos + 1].mem.front && feed[pos].mem.back == feed[last].mem.front)
        && loop.NextRound(feed, words, pos) ==
           (if feed[pos].mem.back == feed[pos + 1].mem.front then last + 1 else pos + 2)
      case CopyToRhs(frontFirst) =>
        var agree := if frontFirst then feed[pos].mem.front == feed[pos + 1].mem.back
                     else feed[pos].mem.back == feed[pos + 1].mem.front;
        && (loop.Passes(feed, words, pos) <==> agree && feed[pos + 2].mem.back == feed[last].mem.front)
        && loop.NextRound(feed, words, pos) == (if agree then last + 1 else pos + 2)
  {
  }

  /** The rounds of a loop over the loads of a feed: each but the last is complete and fails, and
      the next starts where it ends. */
  ghost predicate Rounds(loop: Loop, feed: seq<Seen>, words: nat, starts: seq<nat>) {
    && starts != [] && starts[0] == 0
    && forall k, l :: 0 <= k < l < |starts| && l == k + 1 ==> FailedRound(loop, feed, words, starts[k], starts[l])
  }

  predicate FailedRound(loop: Loop, feed: seq<Seen>, words: nat, pos: nat, next: nat) {
    && pos + words + 4 <= |feed| && !loop.Passes(feed, words, pos)
    && next == loop.NextRound(feed, words, pos)
  }

  /** A loop returns from the first round that passes, and is still spinning only when every
      complete round has failed and the loads left do not make up another. */
  lemma SpinMeans(loop: Loop, feed: seq<Seen>, words: nat) returns (starts: seq<nat>)
    ensures Rounds(loop, feed, words, starts)
    ensures var last := starts[|starts| - 1];
      match loop.Spin(feed, words, 0)
      case Some(pos) => pos == last && loop.Passes(feed, words, last)
      case None => |feed| < last + words + 4
  {
    starts := [0];
    var pos := 0;
    while |feed| >= pos + words + 4 && !loop.Passes(feed, words, pos)
      invariant Rounds(loop, feed, words, starts) && pos == starts[|starts| - 1]
      invariant loop.Spin(feed, words, 0) == loop.Spin(feed, words, pos)
      decreases |feed| - pos
    {
      var next := loop.NextRound(feed, words, pos);
      assert FailedRound(loop, feed, words, pos, next);
      pos, starts := next, starts + [next];
    }
  }

  /** The loops do return: once a reader finds the guards settled, it passes within two rounds. */
  lemma {:induction false} SpinEnds(loop: Loop, feed: seq<Seen>, words: nat, settled: nat, guard: nat, pos: nat)
    requires Settled(feed, settled, guard) && settled + 2 * words + 7 <= |feed|
    requires pos <= settled + words + 3
    ensures loop.Spin(feed, words, pos).Some? && loop.Spin(feed, words, pos).value <= settled + words + 3
    decreases settled + words + 4 - pos
  {
    if !loop.Passes(feed, words, pos) {
      SpinEnds(loop, feed, words, settled, guard, loop.NextRound(feed, words, pos));
    }
  }

  /** Once the writer has come to rest, whatever went before, a loop needs at most `2 * words + 7`
      loads more. */
  lemma SpinEndsWhenIdle(loop: Loop, c: Config, s: System, run: seq<Action>, t: System, reader: nat)
    requires c.Valid() && Quiet(c, s) && Leads(c, s, run, t) && forall a :: a in run ==> a.Load?
    requires |t.Feed(reader)| >= |s.Feed(reader)| + 2 * c.words + 7
    ensures loop.Spin(t.Feed(reader), c.words, 0).Some?
  {
    IdleSettled(c, s, run, t, reader);
    SpinEnds(loop, t.Feed(reader), c.words, |s.Feed(reader)|, s.mem.back, 0);
  }
}
