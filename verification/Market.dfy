/** The price server of `smps`: one update of a stock's venues, its best bid and offer, and the
    drift of the midpoint over any number of updates. Prices are `uint32_t`. */
module Market {
  import opened Common
  import opened Modular

  datatype PriceDatum = PriceDatum(time: nat, bid: nat, bidSize: nat, ask: nat, askSize: nat)

  /** What `rand()` gives for one venue. */
  datatype Draw = Draw(bid: nat, ask: nat, bidSize: nat, askSize: nat)

  /** A result stored in a `uint32_t`. */
  function Wrap(x: int): nat {
    if 0 <= x < UINT32_VALUES then x else x % UINT32_VALUES
  }

  /** `midpoint += rand() % 11 - 5`. */
  function Moved(midpoint: nat, draw: nat): nat {
    Wrap(midpoint + (draw % 11 - 5))
  }

  /** The quote of one venue around the moved midpoint. */
  function Quote(time: nat, mid: nat, draw: Draw): PriceDatum {
    PriceDatum(time, Wrap(mid - draw.bid % 10), draw.bidSize % 10 + 1, Wrap(mid + draw.ask % 10), draw.askSize % 10 + 1)
  }

  // ----- What a quote is, in terms of the draws -----

  /** `x` is what `rand() % n` makes of `draw`. */
  predicate Picks(x: int, draw: nat, n: nat)
    requires n > 0
  {
    0 <= x < n && (draw - x) % n == 0
  }

  /** `mid` is the midpoint moved by one of -5 .. 5, modulo 2^32. */
  predicate MovedTo(mid: nat, midpoint: nat, draw: nat) {
    && mid < UINT32_VALUES && midpoint < UINT32_VALUES
    && Picks(Sub(mid, Sub(midpoint, 5, UINT32_VALUES), UINT32_VALUES), draw, 11)
  }

  /** The bid is at most 9 below the midpoint, the ask at most 9 above it, modulo 2^32, and the sizes
      are from 1 to 10, each of the four by its own draw. */
  predicate Quoted(pd: PriceDatum, time: nat, mid: nat, draw: Draw) {
    && pd.time == time && mid < UINT32_VALUES && pd.bid < UINT32_VALUES && pd.ask < UINT32_VALUES
    && Picks(Sub(mid, pd.bid, UINT32_VALUES), draw.bid, 10) && Picks(pd.bidSize - 1, draw.bidSize, 10)
    && Picks(Sub(pd.ask, mid, UINT32_VALUES), draw.ask, 10) && Picks(pd.askSize - 1, draw.askSize, 10)
  }

  lemma RemainderPicks(draw: nat, n: nat)
    requires n > 0
    ensures Picks(draw % n, draw, n)
  {
    Unique(draw - draw % n, draw / n, n, 0);
  }

  /** What wraps, wraps once. */
  lemma WrapOnce(x: int)
    requires -0x1_0000_0000 <= x < 2 * UINT32_VALUES
    ensures Wrap(x) == if x < 0 then x + UINT32_VALUES else if x < UINT32_VALUES then x else x - UINT32_VALUES
  {
    if x < 0 {
      Unique(x, -1, UINT32_VALUES, x + UINT32_VALUES);
    } else if x >= UINT32_VALUES {
      Unique(x, 1, UINT32_VALUES, x - UINT32_VALUES);
    }
  }

  lemma QuoteMeans(time: nat, mid: nat, draw: Draw)
    requires mid < UINT32_VALUES
    ensures Quoted(Quote(time, mid, draw), time, mid, draw)
  {
    RemainderPicks(draw.bid, 10);
    RemainderPicks(draw.ask, 10);
    RemainderPicks(draw.bidSize, 10);
    RemainderPicks(draw.askSize, 10);
    WrapOnce(mid - draw.bid % 10);
    WrapOnce(mid + draw.ask % 10);
  }

  lemma MovedMeans(midpoint: nat, draw: nat)
    requires midpoint < UINT32_VALUES
    ensures MovedTo(Moved(midpoint, draw), midpoint, draw)
  {
    RemainderPicks(draw, 11);
    WrapOnce(midpoint + (draw % 11 - 5));
  }

  /** From a safe midpoint the same without wrapping. */
  lemma QuotedSafe(pd: PriceDatum, time: nat, mid: nat, midpoint: nat, draw: nat, venue: Draw)
    requires Safe(midpoint) && MovedTo(mid, midpoint, draw) && Quoted(pd, time, mid, venue)
    ensures Picks(mid - midpoint + 5, draw, 11)
    ensures Picks(mid - pd.bid, venue.bid, 10) && Picks(pd.ask - mid, venue.ask, 10)
  {
  }

  /** `best` has the greatest bid and the least ask of the venues, each with the size of the first
      venue that offers it. */
  ghost predicate BestOf(book: seq<PriceDatum>, best: PriceDatum) {
    && (exists i :: FirstBid(book, best, i))
    && (exists i :: FirstAsk(book, best, i))
  }

  ghost predicate FirstBid(book: seq<PriceDatum>, best: PriceDatum, i: int) {
    && 1 <= i < |book| && book[i].bid == best.bid && book[i].bidSize == best.bidSize
    && (forall k :: 1 <= k < i ==> book[k].bid < best.bid)
    && (forall k :: 1 <= k < |book| ==> book[k].bid <= best.bid)
  }

  ghost predicate FirstAsk(book: seq<PriceDatum>, best: PriceDatum, i: int) {
    && 1 <= i < |book| && book[i].ask == best.ask && book[i].askSize == best.askSize
    && (forall k :: 1 <= k < i ==> book[k].ask > best.ask)
    && (forall k :: 1 <= k < |book| ==> book[k].ask >= best.ask)
  }

  ghost predicate IsBest(book: seq<PriceDatum>) {
    |book| > 0 && BestOf(book, book[0])
  }

  /** The midpoint the server derives from the best bid and offer. */
  function MidpointOf(best: PriceDatum): nat {
    Wrap(best.bid + best.ask + 1) / 2
  }

  /** Twice the midpoint is the sum of bid, ask and 1, or one less, modulo 2^32. */
  lemma MidpointMeans(best: PriceDatum)
    ensures var m := MidpointOf(best); 2 * m <= (best.bid + best.ask + 1) % UINT32_VALUES <= 2 * m + 1
  {
    var x := best.bid + best.ask + 1;
    if x < UINT32_VALUES {
      Unique(x, 0, UINT32_VALUES, x);
    }
  }

  /** A midpoint from which an update cannot wrap. */
  predicate Safe(midpoint: int) {
    14 <= midpoint && 2 * midpoint + 20 < UINT32_VALUES
  }

  /** One update from `midpoint`: some book that `CalcNewMarket` may leave, and the midpoint the
      server derives from it next time. */
  ghost predicate Update(midpoint: nat, draw: nat, draws: seq<Draw>, book: seq<PriceDatum>, next: nat) {
    && |book| == |draws| >= 2 && IsBest(book)
    && (forall i :: 1 <= i < |book| ==> book[i] == Quote(book[0].time, Moved(midpoint, draw), draws[i]))
    && next == MidpointOf(book[0])
  }

  /** The best bid and offer once one more venue has quoted: an equal quote does not replace it. */
  function Better(best: PriceDatum, pd: PriceDatum): PriceDatum {
    var bid := if pd.bid > best.bid then best.(bid := pd.bid, bidSize := pd.bidSize) else best;
    if pd.ask < bid.ask then bid.(ask := pd.ask, askSize := pd.askSize) else bid
  }

  lemma BestWith(book: seq<PriceDatum>, best: PriceDatum, pd: PriceDatum)
    requires BestOf(book, best)
    ensures BestOf(book + [pd], Better(best, pd))
  {
    var i :| FirstBid(book, best, i);
    var j :| FirstAsk(book, best, j);
    assert FirstBid(book + [pd], Better(best, pd), if pd.bid > best.bid then |book| else i);
    assert FirstAsk(book + [pd], Better(best, pd), if pd.ask < best.ask then |book| else j);
  }

  /** The loop over the venues: each gets its quote; the best of them is returned. */
  method QuoteVenues(book: array<PriceDatum>, time: nat, mid: nat, draws: seq<Draw>) returns (nbbo: PriceDatum)
    requires book.Length >= 2 && |draws| == book.Length
    modifies book
    ensures forall i :: 1 <= i < book.Length ==> book[i] == Quote(time, mid, draws[i])
    ensures mid < UINT32_VALUES ==> forall i :: 1 <= i < book.Length ==> Quoted(book[i], time, mid, draws[i])
    ensures BestOf(book[..], nbbo) && nbbo.time == time
  {
    nbbo := book[0];
    for i := 1 to book.Length
      invariant forall k :: 1 <= k < i ==> book[k] == Quote(time, mid, draws[k])
      invariant i > 1 ==> BestOf(book[..i], nbbo) && nbbo.time == time
    {
      var pd := Quote(time, mid, draws[i]);
      ghost var before, best := book[..i], nbbo;
      book[i] := pd;
      if i == 1 {
        nbbo := pd;
      } else {
        if pd.bid > nbbo.bid {
          nbbo := nbbo.(bid := pd.bid, bidSize := pd.bidSize);
        }
        if pd.ask < nbbo.ask {
          nbbo := nbbo.(ask := pd.ask, askSize := pd.askSize);
        }
        BestWith(before, best, pd);
      }
      assert book[..i + 1] == before + [pd];
      assert i == 1 ==> FirstBid(book[..i + 1], nbbo, 1) && FirstAsk(book[..i + 1], nbbo, 1);
    }
    assert book[..book.Length] == book[..];
    forall i | 1 <= i < book.Length && mid < UINT32_VALUES
      ensures Quoted(book[i], time, mid, draws[i])
    {
      QuoteMeans(time, mid, draws[i]);
    }
  }

  lemma BestAside(book: seq<PriceDatum>, best: PriceDatum)
    requires BestOf(book, best)
    ensures IsBest(book[0 := best])
  {
    var i :| FirstBid(book, best, i);
    var j :| FirstAsk(book, best, j);
    assert FirstBid(book[0 := best], best, i) && FirstAsk(book[0 := best], best, j);
  }

  /** The update of a stock whose venues are `book[1..]` and whose best bid and offer is `book[0]`:
      all quotes lie around one moved midpoint, by their own draws. */
  method CalcNewMarket(book: array<PriceDatum>, time: nat, midpoint: nat, draw: nat, draws: seq<Draw>)
    returns (ghost mid: nat)
    requires book.Length >= 2 && |draws| == book.Length && midpoint < UINT32_VALUES
    modifies book
    ensures Update(midpoint, draw, draws, book[..], MidpointOf(book[0])) && book[0].time == time
    ensures MovedTo(mid, midpoint, draw)
    ensures forall i :: 1 <= i < book.Length ==> Quoted(book[i], time, mid, draws[i])
  {
    mid := Moved(midpoint, draw);
    MovedMeans(midpoint, draw);
    var nbbo := QuoteVenues(book, time, Moved(midpoint, draw), draws);
    BestAside(book[..], nbbo);
    ghost var venues := book[..];
    book[0] := nbbo;
    assert book[..] == venues[0 := nbbo];
  }

  /** Some update takes one midpoint to the other. */
  ghost predicate MayBecome(midpoint: nat, next: nat) {
    exists draw, draws, book :: Update(midpoint, draw, draws, book, next)
  }

  /** From a safe midpoint nothing wraps, the market is not crossed, and the midpoint moves by
      between -9 and 10. */
  lemma UpdateMoves(midpoint: nat, draw: nat, draws: seq<Draw>, book: seq<PriceDatum>, next: nat)
    requires Safe(midpoint) && Update(midpoint, draw, draws, book, next)
    ensures book[0].bid <= Moved(midpoint, draw) <= book[0].ask
    ensures Moved(midpoint, draw) == midpoint + draw % 11 - 5
    ensures midpoint - 9 <= next <= midpoint + 10
    ensures next == (book[0].bid + book[0].ask + 1) / 2
  {
  }

  /** The bounds are reached: from any safe midpoint one update may lower it by 9 or raise it by 10. */
  lemma UpdateMovesSharp(midpoint: nat)
    requires Safe(midpoint)
    ensures MayBecome(midpoint, midpoint - 9) && MayBecome(midpoint, midpoint + 10)
  {
    SameQuotes(midpoint, 0, 9, 0);
    SameQuotes(midpoint, 10, 0, 9);
  }

  /** The update in which all venues draw alike. */
  lemma SameQuotes(midpoint: nat, draw: nat, bid: nat, ask: nat)
    requires Safe(midpoint) && draw < 11 && bid < 10 && ask < 10
    ensures MayBecome(midpoint, (2 * (midpoint + draw - 5) - bid + ask + 1) / 2)
  {
    var mid := midpoint + draw - 5;
    PlainQuote(midpoint, draw, bid, ask);
    var venue, quote := Draw(bid, ask, 0, 0), PriceDatum(0, mid - bid, 1, mid + ask, 1);
    SameQuotesUpdate(midpoint, draw, venue, quote);
  }

  lemma PlainQuote(midpoint: nat, draw: nat, bid: nat, ask: nat)
    requires Safe(midpoint) && draw < 11 && bid < 10 && ask < 10
    ensures var mid := midpoint + draw - 5;
      && Moved(midpoint, draw) == mid
      && Quote(0, mid, Draw(bid, ask, 0, 0)) == PriceDatum(0, mid - bid, 1, mid + ask, 1)
      && MidpointOf(PriceDatum(0, mid - bid, 1, mid + ask, 1)) == (2 * mid - bid + ask + 1) / 2
  {
    assert draw % 11 == draw && bid % 10 == bid && ask % 10 == ask;
  }

  lemma SameQuotesUpdate(midpoint: nat, draw: nat, venue: Draw, quote: PriceDatum)
    requires quote == Quote(quote.time, Moved(midpoint, draw), venue)
    ensures MayBecome(midpoint, MidpointOf(quote))
  {
    var book := [quote, quote];
    assert FirstBid(book, quote, 1) && FirstAsk(book, quote, 1);
    assert Update(midpoint, draw, [venue, venue], book, MidpointOf(quote));
  }

  /** One pass of the server over a stock: the time, and what `rand()` gives. */
  datatype Pass = Pass(time: nat, draw: nat, draws: seq<Draw>)

  /** The book that a pass makes around a midpoint, each venue by its own draws. */
  ghost predicate MadeBy(book: seq<PriceDatum>, midpoint: nat, pass: Pass) {
    exists mid :: MovedTo(mid, midpoint, pass.draw) && QuotedAll(book, mid, pass)
  }

  ghost predicate QuotedAll(book: seq<PriceDatum>, mid: nat, pass: Pass) {
    |book| == |pass.draws| && forall i :: 1 <= i < |book| ==> Quoted(book[i], pass.time, mid, pass.draws[i])
  }

  /** A pass may take one midpoint to the next, by way of some book. */
  ghost predicate PassMakes(midpoint: nat, pass: Pass, next: nat) {
    exists book :: IsBest(book) && MadeBy(book, midpoint, pass) && next == MidpointOf(book[0])
  }

  /** The midpoints of one stock, from one update to the next, for some draws each time. */
  ghost predicate Midpoints(mids: seq<nat>) {
    forall k, l :: 0 <= k < |mids| && l == k + 1 && l < |mids| ==> MayBecome(mids[k], mids[l])
  }

  /** The midpoint from which every stock starts. */
  const START: nat := 1000000

  /** However `k` updates have moved the midpoint, another cannot wrap. */
  predicate RoomAfter(k: nat) {
    START - 9 * k >= 14 && 2 * (START + 10 * k) + 20 < UINT32_VALUES
  }

  /** Over any run of updates of one stock, for every choice of draws, update `k + 1` involves no
      32-bit wrap while the bound of the k updates before it leaves room, and the midpoint stays
      within that bound. */
  lemma {:induction false} MidpointBound(mids: seq<nat>, k: nat)
    requires |mids| > 0 && mids[0] == START && Midpoints(mids) && k < |mids|
    requires k > 0 ==> RoomAfter(k - 1)
    ensures START - 9 * k <= mids[k] <= START + 10 * k
    ensures RoomAfter(k) ==> Safe(mids[k])
    decreases k
  {
    if k > 0 {
      MidpointBound(mids, k - 1);
      assert Safe(mids[k - 1]);
      var draw, draws, book :| Update(mids[k - 1], draw, draws, book, mids[k]);
      UpdateMoves(mids[k - 1], draw, draws, book, mids[k]);
    }
  }

  /** The midpoints after the first `n` passes. */
  ghost predicate Served(mids: seq<nat>, passes: seq<Pass>, n: nat)
    requires n <= |passes|
  {
    && |mids| == n + 1 && mids[0] == START && Midpoints(mids)
    && forall k :: 0 <= k < n ==> PassMakes(mids[k], passes[k], mids[k + 1])
  }

  lemma ServedOn(mids: seq<nat>, passes: seq<Pass>, n: nat, next: nat)
    requires n < |passes| && Served(mids, passes, n)
    requires MayBecome(mids[n], next) && PassMakes(mids[n], passes[n], next)
    ensures Served(mids + [next], passes, n + 1)
  {
    var more := mids + [next];
    MidpointsOn(mids, next);
    forall k | 0 <= k < n + 1
      ensures PassMakes(more[k], passes[k], more[k + 1])
    {
      assert more[k] == mids[k] && more[k + 1] == if k < n then mids[k + 1] else next;
    }
  }

  lemma MidpointsOn(mids: seq<nat>, next: nat)
    requires mids != [] && Midpoints(mids) && MayBecome(mids[|mids| - 1], next)
    ensures Midpoints(mids + [next])
  {
  }

  /** The book that `pass` leaves behind. */
  ghost predicate Left(book: seq<PriceDatum>, midpoint: nat, pass: Pass) {
    IsBest(book) && MadeBy(book, midpoint, pass) && book[0].time == pass.time
  }

  /** One pass: the book is made around the midpoint. */
  method ServeOnce(book: array<PriceDatum>, midpoint: nat, pass: Pass)
    requires book.Length == |pass.draws| >= 2 && midpoint < UINT32_VALUES
    modifies book
    ensures Left(book[..], midpoint, pass) && MidpointOf(book[0]) < UINT32_VALUES
    ensures MayBecome(midpoint, MidpointOf(book[0])) && PassMakes(midpoint, pass, MidpointOf(book[0]))
    ensures Safe(midpoint) ==> book[0].bid <= book[0].ask
  {
    ghost var mid := CalcNewMarket(book, pass.time, midpoint, pass.draw, pass.draws);
    assert QuotedAll(book[..], mid, pass);
    if Safe(midpoint) {
      UpdateMoves(midpoint, pass.draw, pass.draws, book[..], MidpointOf(book[0]));
    }
  }

  /** Everything the server does to one stock: the first snapshot is made around `START`, every
      later pass reads the best bid and offer back, takes their midpoint and makes a new market
      around it. As long as the bound leaves room the midpoint keeps within it and the market is
      not crossed. */
  method ServeStock(book: array<PriceDatum>, passes: seq<Pass>) returns (ghost mids: seq<nat>)
    requires book.Length >= 2 && forall k :: 0 <= k < |passes| ==> |passes[k].draws| == book.Length
    modifies book
    ensures Served(mids, passes, |passes|) && mids[0] == 1000000
    ensures forall k :: 0 < k < |mids| && RoomAfter(k - 1) ==> START - 9 * k <= mids[k] <= START + 10 * k
    ensures passes != [] ==> mids[|passes|] == MidpointOf(book[0])
    ensures passes != [] && RoomAfter(|passes| - 1) ==> book[0].bid <= book[0].ask
    ensures passes != [] ==> Left(book[..], mids[|passes| - 1], passes[|passes| - 1])
  {
    mids := [START];
    for n := 0 to |passes|
      invariant Served(mids, passes, n)
      invariant n > 0 ==> mids[n] == MidpointOf(book[0]) < UINT32_VALUES
      invariant n > 0 && RoomAfter(n - 1) ==> book[0].bid <= book[0].ask
      invariant n > 0 ==> Left(book[..], mids[n - 1], passes[n - 1])
    {
      var midpoint := if n == 0 then START else MidpointOf(book[0]);
      if RoomAfter(n) {
        MidpointBound(mids, n);
      }
      ServeOnce(book, midpoint, passes[n]);
      ServedOn(mids, passes, n, MidpointOf(book[0]));
      mids := mids + [MidpointOf(book[0])];
    }
    forall k | 0 < k < |mids| && RoomAfter(k - 1)
      ensures START - 9 * k <= mids[k] <= START + 10 * k
    {
      MidpointBound(mids, k);
    }
  }
}
