/** A writer's store buffer with store fences.

    Stores wait in epochs. `epochs[0]` is the epoch that is draining to shared memory; the last
    epoch is the one the writer is filling. A fence opens a new epoch without waiting. Stores of
    one epoch may drain in any order, and an epoch starts to drain only when every older one is
    empty, so no store ever crosses a fence. `retired` counts the epochs that have fully drained,
    which gives every epoch an absolute number: `epochs[j]` is epoch `retired + j`.
 */
module StoreBuffer {
  datatype Buffer<S(==)> = Buffer(retired: nat, epochs: seq<set<S>>) {

    predicate Valid() {
      |epochs| > 0
    }

    /** The absolute number of the epoch being filled. */
    function Filling(): nat
      requires Valid()
    {
      retired + |epochs| - 1
    }

    function Issue(store: S): Buffer<S>
      requires Valid()
    {
      var last := |epochs| - 1;
      this.(epochs := epochs[last := epochs[last] + {store}])
    }

    function Fence(): Buffer<S> {
      this.(epochs := epochs + [{}])
    }

    predicate CanDrain(store: S) {
      Valid() && store in epochs[0]
    }

    function Drain(store: S): Buffer<S>
      requires CanDrain(store)
    {
      this.(epochs := epochs[0 := epochs[0] - {store}])
    }

    predicate CanRetire() {
      |epochs| > 1 && epochs[0] == {}
    }

    function Retire(): Buffer<S>
      requires CanRetire()
    {
      Buffer(retired + 1, epochs[1..])
    }

    /** Nothing is waiting: everything issued has reached shared memory. */
    predicate Empty() {
      epochs == [{}]
    }
  }

  // ----- A buffer in step with the program that fills it -----
  //
  // `issued(store, epoch)` says that the program has issued `store` in that epoch.

  /** Every epoch behind the draining one holds exactly what was issued in it; the draining one
      holds a part of it. */
  ghost predicate Tracks<S(!new)>(b: Buffer<S>, issued: (S, nat) -> bool) {
    && b.Valid()
    && (forall x :: x in b.epochs[0] ==> issued(x, b.retired))
    && (forall j, x :: 1 <= j < |b.epochs| ==> (x in b.epochs[j] <==> issued(x, b.retired + j)))
  }

  /** Issued in the epoch that is draining, and already in memory. */
  ghost predicate Drained<S(!new)>(b: Buffer<S>, issued: (S, nat) -> bool, store: S)
    requires b.Valid()
  {
    issued(store, b.retired) && store !in b.epochs[0]
  }

  /** Issuing a new store into the epoch being filled. */
  lemma IssueTracks<S(!new)>(b: Buffer<S>, before: (S, nat) -> bool, after: (S, nat) -> bool, store: S)
    requires Tracks(b, before) && !before(store, b.Filling())
    requires forall x, epoch: nat ::
      after(x, epoch) <==> before(x, epoch) || (x == store && epoch == b.Filling())
    ensures Tracks(b.Issue(store), after)
    ensures forall x :: Drained(b.Issue(store), after, x) <==> Drained(b, before, x)
  {
  }

  /** A fence opens an epoch in which nothing has been issued. */
  lemma FenceTracks<S(!new)>(b: Buffer<S>, before: (S, nat) -> bool, after: (S, nat) -> bool)
    requires Tracks(b, before)
    requires forall x, epoch: nat :: after(x, epoch) <==> before(x, epoch)
    requires forall x :: !after(x, b.Fence().Filling())
    ensures Tracks(b.Fence(), after)
    ensures forall x :: Drained(b.Fence(), after, x) <==> Drained(b, before, x)
  {
    assert b.Fence().Filling() == b.retired + |b.epochs|;
  }

  lemma DrainTracks<S(!new)>(b: Buffer<S>, issued: (S, nat) -> bool, store: S)
    requires Tracks(b, issued) && b.CanDrain(store)
    ensures Tracks(b.Drain(store), issued)
    ensures forall x :: Drained(b.Drain(store), issued, x) <==> Drained(b, issued, x) || x == store
  {
  }

  /** When an epoch retires all that was issued in it is in memory, and nothing of the next. */
  lemma RetireTracks<S(!new)>(b: Buffer<S>, issued: (S, nat) -> bool)
    requires Tracks(b, issued) && b.CanRetire()
    ensures Tracks(b.Retire(), issued)
    ensures forall x :: issued(x, b.retired) ==> Drained(b, issued, x)
    ensures forall x :: !Drained(b.Retire(), issued, x)
  {
  }
}
