/** Any number of producers that take their places with `atomic_push_back_get_end` and fill them
    afterwards, a word at a time and in any order. */
module Tickets {
  import opened Common
  import opened Modular

  type Item = Words

  datatype Config = Config(size: nat, words: nat, values: nat) {
    predicate Valid() {
      0 < size < values
    }
  }

  /** A place taken: whose it is, the offset it was given, what is to go there, which words have
      been stored. */
  datatype Ticket = Ticket(caller: nat, offset: nat, item: Item, written: set<nat>)

  datatype System = System(tail: nat, cells: seq<Item>, tickets: seq<Ticket>)

  datatype Action =
    | Take(caller: nat, item: Item)
    | WriteWord(n: nat, i: nat)     // the holder of ticket number n stores word i

  /** The cell `atomic_push_back_get_end` returned with the ticket. */
  function CellOf(c: Config, ticket: Ticket): nat
    requires c.Valid()
  {
    Rem(ticket.offset, c.size)
  }

  /** Places are taken within what the offsets bear. A place may be written while it is less than
      `_size` places behind the newest: the callers are never a whole round apart. */
  predicate Enabled(c: Config, s: System, a: Action)
    requires c.Valid()
  {
    match a
    case Take(_, item) => Countable(c.size, c.values, |s.tickets| + 1) && |item| == c.words
    case WriteWord(n, i) =>
      && n < |s.tickets| && i < c.words && i < |s.tickets[n].item| && i !in s.tickets[n].written
      && |s.tickets| <= n + c.size
      && CellOf(c, s.tickets[n]) < |s.cells| && i < |s.cells[CellOf(c, s.tickets[n])]|
  }

  function Apply(c: Config, s: System, a: Action): System
    requires c.Valid() && Enabled(c, s, a)
  {
    match a
    case Take(caller, item) =>
      s.(tail := Inc(s.tail, c.values), tickets := s.tickets + [Ticket(caller, s.tail, item, {})])
    case WriteWord(n, i) =>
      var ticket := s.tickets[n];
      var cell := CellOf(c, ticket);
      s.(cells := s.cells[cell := s.cells[cell][i := ticket.item[i]]],
         tickets := s.tickets[n := ticket.(written := ticket.written + {i})])
  }

  ghost predicate Leads(c: Config, s: System, run: seq<Action>, t: System)
    requires c.Valid()
    decreases |run|
  {
    if run == [] then s == t
    else Enabled(c, s, run[0]) && Leads(c, Apply(c, s, run[0]), run[1..], t)
  }

  /** The word is in the ticket's cell. */
  ghost predicate Stored(c: Config, s: System, n: nat, i: nat)
    requires c.Valid() && n < |s.tickets|
  {
    && CellOf(c, s.tickets[n]) < |s.cells|
    && i < |s.cells[CellOf(c, s.tickets[n])]| && i < |s.tickets[n].item|
    && s.cells[CellOf(c, s.tickets[n])][i] == s.tickets[n].item[i]
  }

  /** Tickets are numbered without gap or repetition, the offsets being the wrapped numbers; what
      has been written in the last `_size` places is still there. */
  ghost predicate Inv(c: Config, s: System)
    requires c.Valid()
  {
    && s.tail == Rem(|s.tickets|, c.values) && Countable(c.size, c.values, |s.tickets|)
    && |s.cells| == c.size && (forall k :: 0 <= k < c.size ==> |s.cells[k]| == c.words)
    && (forall n :: 0 <= n < |s.tickets| ==> s.tickets[n].offset == Rem(n, c.values) && |s.tickets[n].item| == c.words)
    && (forall n: nat, i: nat :: n < |s.tickets| && |s.tickets| <= n + c.size && i < c.words ==>
          (i in s.tickets[n].written ==> Stored(c, s, n, i)))
  }

  lemma CellOfTicket(c: Config, s: System, n: nat)
    requires c.Valid() && Inv(c, s) && n < |s.tickets|
    ensures CellOf(c, s.tickets[n]) == Rem(n, c.size)
  {
    CellOfCount(c.size, c.values, n);
  }

  /** Places less than a round apart never share a cell. */
  lemma NoSharedCell(c: Config, s: System, m: nat, n: nat)
    requires c.Valid() && Inv(c, s) && m < n < |s.tickets| && n < m + c.size
    ensures CellOf(c, s.tickets[m]) != CellOf(c, s.tickets[n])
  {
    CellOfTicket(c, s, m);
    CellOfTicket(c, s, n);
    RemEqual(n, m, c.size);
  }

  lemma WriteInv(c: Config, s: System, a: Action)
    requires c.Valid() && Inv(c, s) && Enabled(c, s, a) && a.WriteWord?
    ensures Inv(c, Apply(c, s, a))
  {
    var t := Apply(c, s, a);
    forall n: nat, i: nat | n < |t.tickets| && |t.tickets| <= n + c.size && i < c.words && i in t.tickets[n].written
      ensures Stored(c, t, n, i)
    {
      if n < a.n {
        NoSharedCell(c, s, n, a.n);
        assert Stored(c, s, n, i);
      } else if n > a.n {
        NoSharedCell(c, s, a.n, n);
        assert Stored(c, s, n, i);
      } else if i != a.i {
        assert Stored(c, s, n, i);
      }
    }
  }

  lemma TakeInv(c: Config, s: System, a: Action)
    requires c.Valid() && Inv(c, s) && Enabled(c, s, a) && a.Take?
    ensures Inv(c, Apply(c, s, a))
  {
    IncRem(|s.tickets|, c.values);
    CellOfCount(c.size, c.values, |s.tickets|);
  }

  lemma {:induction false} RunInv(c: Config, s: System, run: seq<Action>, t: System)
    requires c.Valid() && Inv(c, s) && Leads(c, s, run, t)
    ensures Inv(c, t)
    decreases |run|
  {
    if run != [] {
      if run[0].Take? {
        TakeInv(c, s, run[0]);
      } else {
        WriteInv(c, s, run[0]);
      }
      RunInv(c, Apply(c, s, run[0]), run[1..], t);
    }
  }

  // ----- A run, by its actions -----

  /** Who took a place in the run, and for what item, in order. */
  function Taken(run: seq<Action>): seq<(nat, Item)> {
    if run == [] then []
    else (if run[0].Take? then [(run[0].caller, run[0].item)] else []) + Taken(run[1..])
  }

  /** What the tickets say of that. */
  function Held(tickets: seq<Ticket>): seq<(nat, Item)> {
    seq(|tickets|, n requires 0 <= n < |tickets| => (tickets[n].caller, tickets[n].item))
  }

  /** The words that the holder of ticket number `n` has stored in the run. */
  function WordsOf(run: seq<Action>, n: nat): set<nat> {
    if run == [] then {}
    else (if run[0].WriteWord? && run[0].n == n then {run[0].i} else {}) + WordsOf(run[1..], n)
  }

  function WrittenIn(tickets: seq<Ticket>, n: nat): set<nat> {
    if n < |tickets| then tickets[n].written else {}
  }

  /** Each ticket is its caller's, for the item that the caller brought, and says which words that
      caller has stored: nothing else makes or changes a ticket. */
  lemma {:induction false} TicketHistory(c: Config, s: System, run: seq<Action>, t: System)
    requires c.Valid() && Leads(c, s, run, t)
    ensures Held(t.tickets) == Held(s.tickets) + Taken(run)
    ensures forall n: nat :: WrittenIn(t.tickets, n) == WrittenIn(s.tickets, n) + WordsOf(run, n)
    decreases |run|
  {
    if run != [] {
      var u := Apply(c, s, run[0]);
      HeldStep(c, s, run[0]);
      TicketHistory(c, u, run[1..], t);
    }
  }

  lemma HeldStep(c: Config, s: System, a: Action)
    requires c.Valid() && Enabled(c, s, a)
    ensures Held(Apply(c, s, a).tickets) == Held(s.tickets) + if a.Take? then [(a.caller, a.item)] else []
    ensures forall n: nat ::
      WrittenIn(Apply(c, s, a).tickets, n)
      == WrittenIn(s.tickets, n) + (if a.WriteWord? && a.n == n then {a.i} else {})
  {
  }

  /** Every word of the item has been stored. */
  predicate Complete(c: Config, ticket: Ticket) {
    forall i: nat :: i < c.words ==> i in ticket.written
  }

  /** The cell of the ticket's offset holds its item. */
  ghost predicate Shows(c: Config, s: System, ticket: Ticket)
    requires c.Valid()
  {
    CellOf(c, ticket) < |s.cells| && s.cells[CellOf(c, ticket)] == ticket.item
  }

  lemma CompleteShown(c: Config, s: System, n: nat)
    requires c.Valid() && Inv(c, s) && n < |s.tickets| <= n + c.size && Complete(c, s.tickets[n])
    ensures Shows(c, s, s.tickets[n])
  {
    CellOfTicket(c, s, n);
    forall i: nat | i < c.words
      ensures s.cells[CellOf(c, s.tickets[n])][i] == s.tickets[n].item[i]
    {
      assert i in s.tickets[n].written;
      assert Stored(c, s, n, i);
    }
  }

  /** In every interleaving, of any length when `_size` divides the number of offset values, the
      tickets are 0, 1, 2, ... without gap or repetition, each with the wrapped offset of its
      number, for the callers and items of the run's actions; and once the holder of one of the
      last `_size` has stored its item the cell of that offset shows exactly that item, whoever
      wrote what in between. */
  lemma TicketsOverRuns(c: Config, cells: seq<Item>, run: seq<Action>, t: System)
    requires c.Valid() && |cells| == c.size && forall k :: 0 <= k < c.size ==> |cells[k]| == c.words
    requires Leads(c, System(0, cells, []), run, t)
    ensures t.tail == Rem(|t.tickets|, c.values) && Held(t.tickets) == Taken(run)
    ensures forall n :: 0 <= n < |t.tickets| ==> t.tickets[n].offset == Rem(n, c.values)
    ensures forall n: nat :: n < |t.tickets| && |t.tickets| <= n + c.size && Complete(c, t.tickets[n]) ==>
      Shows(c, t, t.tickets[n])
  {
    TicketHistory(c, System(0, cells, []), run, t);
    RunInv(c, System(0, cells, []), run, t);
    forall n: nat | n < |t.tickets| && |t.tickets| <= n + c.size && Complete(c, t.tickets[n])
      ensures Shows(c, t, t.tickets[n])
    {
      CompleteShown(c, t, n);
    }
  }

  /** The same, ticket by ticket. */
  lemma TicketOfRun(c: Config, cells: seq<Item>, run: seq<Action>, t: System, n: nat)
    requires c.Valid() && Leads(c, System(0, cells, []), run, t) && n < |Taken(run)|
    ensures |t.tickets| == |Taken(run)|
    ensures (t.tickets[n].caller, t.tickets[n].item) == Taken(run)[n] && t.tickets[n].written == WordsOf(run, n)
  {
    TicketHistory(c, System(0, cells, []), run, t);
    assert Held(t.tickets) == Taken(run) && |Held(t.tickets)| == |t.tickets|;
    assert t.tickets[n].written == WrittenIn(t.tickets, n);
  }

  /** In terms of what the callers did: the cell of a place among the last `_size`, once its taker
      has stored all the words, holds the item for which that place was taken. */
  lemma CellsByActions(c: Config, cells: seq<Item>, run: seq<Action>, t: System, n: nat)
    requires c.Valid() && |cells| == c.size && forall k :: 0 <= k < c.size ==> |cells[k]| == c.words
    requires Leads(c, System(0, cells, []), run, t)
    requires n < |Taken(run)| <= n + c.size && forall i: nat :: i < c.words ==> i in WordsOf(run, n)
    ensures |t.cells| == c.size && t.cells[Rem(Rem(n, c.values), c.size)] == Taken(run)[n].1
  {
    TicketOfRun(c, cells, run, t, n);
    TicketsOverRuns(c, cells, run, t);
    RunInv(c, System(0, cells, []), run, t);
  }

  // ----- Runs that the queue allows -----

  /** Any callers may take places one after the other before anything is stored. */
  lemma {:induction false} TakeAll(c: Config, s: System, taken: seq<(nat, Item)>) returns (run: seq<Action>, t: System)
    requires c.Valid() && Inv(c, s) && Countable(c.size, c.values, |s.tickets| + |taken|)
    requires forall k :: 0 <= k < |taken| ==> |taken[k].1| == c.words
    ensures Leads(c, s, run, t) && Inv(c, t) && Taken(run) == taken && |t.tickets| == |s.tickets| + |taken|
    decreases |taken|
  {
    if taken == [] {
      run, t := [], s;
    } else {
      var a := Take(taken[0].0, taken[0].1);
      TakeInv(c, s, a);
      var rest;
      rest, t := TakeAll(c, Apply(c, s, a), taken[1..]);
      run := [a] + rest;
      assert run[1..] == rest && taken == [taken[0]] + taken[1..];
    }
  }

  /** The holder of any of the last `_size` tickets can store whichever words are missing, in any
      order and whatever the others do in between. */
  lemma {:induction false} StoreSome(c: Config, s: System, n: nat, order: seq<nat>)
    returns (run: seq<Action>, t: System)
    requires c.Valid() && Inv(c, s) && n < |s.tickets| <= n + c.size
    requires forall k :: 0 <= k < |order| ==> order[k] < c.words && order[k] !in s.tickets[n].written
    requires forall k, l :: 0 <= k < l < |order| ==> order[k] != order[l]
    ensures Leads(c, s, run, t) && Inv(c, t) && |t.tickets| == |s.tickets|
    ensures forall i: nat :: i in WordsOf(run, n) <==> i in order
    decreases |order|
  {
    if order == [] {
      run, t := [], s;
    } else {
      var a := WriteWord(n, order[0]);
      CellOfTicket(c, s, n);
      WriteInv(c, s, a);
      var rest;
      rest, t := StoreSome(c, Apply(c, s, a), n, order[1..]);
      run := [a] + rest;
      assert run[1..] == rest;
    }
  }
}
