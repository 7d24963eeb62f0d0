/** Arithmetic of counters that wrap: facts about `%` that the solver needs one at a time. */
module Modular {

  /** Quotient and remainder are unique. */
  lemma Unique(x: int, q: int, m: int, r: int)
    requires 0 <= r < m && x == q * m + r
    ensures x / m == q && x % m == r
  {
    var p := x / m;
    assert x == p * m + x % m;
    assert (p - q) * m == r - x % m;
    SmallMultiple(p - q, m);
  }

  lemma SmallMultiple(k: int, m: int)
    requires -m < k * m < m
    ensures k == 0
  {
  }

  /** Adding to a wrapped counter and wrapping again is the same as wrapping the sum. */
  lemma AddWrapped(x: int, d: int, m: int)
    requires m > 0
    ensures (x % m + d) % m == (x + d) % m
  {
    var y := x % m + d;
    Unique(x + d, x / m + y / m, m, y % m);
  }

  /** The wrapped difference of two wrapped counters is their true difference when that is small. */
  lemma Difference(x: int, y: int, m: int)
    requires 0 <= x - y < m
    ensures (x % m - y % m) % m == x - y
  {
    Unique(x % m - y % m, y / m - x / m, m, x - y);
  }

  /** Two counters less than `m` apart are equal exactly when their wrapped values are. */
  lemma EqualWhenClose(x: int, y: int, m: int)
    requires 0 <= x - y < m
    ensures x % m == y % m <==> x == y
  {
    Difference(x, y, m);
  }

  /** Wrapping at a multiple of `d` does not disturb the remainder by `d`. */
  lemma ModOfMod(x: int, d: int, m: int)
    requires d > 0 && m > 0 && m % d == 0
    ensures (x % m) % d == x % d
  {
    var r := x % m;
    var k := m / d;
    assert m == k * d;
    assert x == (x / m) * m + r;
    assert (x / m) * m == ((x / m) * k) * d;
    Unique(x, (x / m) * k + r / d, d, r % d);
  }

  // ----- Wrapping counters as terms of their own -----

  /** `x % m`, by repeated subtraction: proofs about many wrapped counters go through faster when
      `%` is kept out of them. */
  function Rem(x: nat, m: nat): (r: nat)
    requires m > 0
    ensures r < m
  {
    if x < m then x else Rem(x - m, m)
  }

  lemma {:induction false} RemIsMod(x: nat, m: nat)
    requires m > 0
    ensures Rem(x, m) == x % m
    decreases x
  {
    if x >= m {
      RemIsMod(x - m, m);
      Unique(x, (x - m) / m + 1, m, (x - m) % m);
    } else {
      Unique(x, 0, m, x);
    }
  }

  /** `++x` on a counter with `m` values. */
  function Inc(x: nat, m: nat): nat {
    if x + 1 == m then 0 else x + 1
  }

  /** `x - y` on counters with `m` values. */
  function Sub(x: nat, y: nat, m: nat): nat
    requires x < m && y < m
  {
    if x >= y then x - y else x + m - y
  }

  lemma IncRem(x: nat, m: nat)
    requires m > 0
    ensures Inc(Rem(x, m), m) == Rem(x + 1, m)
  {
    RemIsMod(x, m);
    RemIsMod(x + 1, m);
    AddWrapped(x, 1, m);
    var r := x % m;
    if r + 1 == m {
      Unique(r + 1, 1, m, 0);
    } else {
      Unique(r + 1, 0, m, r + 1);
    }
  }

  lemma SubRem(x: nat, y: nat, m: nat)
    requires 0 <= x - y < m
    ensures Sub(Rem(x, m), Rem(y, m), m) == x - y
  {
  }

  lemma RemEqual(x: nat, y: nat, m: nat)
    requires 0 <= x - y < m
    ensures Rem(x, m) == Rem(y, m) <==> x == y
  {
  }

  lemma RemOfRem(x: nat, d: nat, m: nat)
    requires d > 0 && m > 0 && m % d == 0
    ensures Rem(Rem(x, m), d) == Rem(x, d)
  {
    RemIsMod(x, m);
    RemIsMod(Rem(x, m), d);
    RemIsMod(x, d);
    ModOfMod(x, d, m);
  }

  /** Wrapped counters keep their order and distance exactly when nothing wraps in between. */
  lemma StraightOrder(h: nat, t: nat, values: nat)
    requires values > 0 && h <= t < h + values
    ensures h / values == t / values <==> Rem(t, values) == Rem(h, values) + (t - h)
    ensures h / values != t / values <==> Rem(t, values) < Rem(h, values)
  {
    RemIsMod(h, values);
    RemIsMod(t, values);
    var q, r := h / values, h % values;
    if r + (t - h) < values {
      Unique(t, q, values, r + (t - h));
    } else {
      Unique(t, q + 1, values, r + (t - h) - values);
    }
  }

  /** Between a count and the next wrap the wrapped offsets follow the counts. */
  lemma RemOfBetween(h: nat, c: nat, values: nat)
    requires values > 0 && h <= c < h + values && Rem(h, values) + (c - h) < values
    ensures Rem(c, values) == Rem(h, values) + (c - h)
  {
  }

  lemma AfterWrap(h: nat, c: nat, values: nat)
    requires values > 0 && h <= c < h + values && Rem(h, values) + (c - h) >= values
    ensures Rem(c, values) == Rem(h, values) + (c - h) - values
  {
  }

  // ----- Free-running offsets into a ring of `size` cells -----

  /** `count` pushes are within what the offsets bear: they wrap harmlessly, because `size` divides
      their number of values, or they have not wrapped. */
  predicate Countable(size: nat, values: nat, count: nat) {
    size > 0 && (values % size == 0 || count < values)
  }

  /** A wrapped offset then picks the cell that the true count picks. */
  lemma CellOfCount(size: nat, values: nat, count: nat)
    requires 0 < size < values && Countable(size, values, count)
    ensures Rem(Rem(count, values), size) == Rem(count, size)
  {
    if values % size == 0 {
      RemOfRem(count, size, values);
    }
  }
}
