/** Exclusive or of two's complement integers, and the exchange by three of them. */
module XorSwap {

  function Abs(a: int): nat {
    if a < 0 then -a else a
  }

  /** Bitwise exclusive or, sign bits repeating for ever to the left. */
  function Xor(a: int, b: int): int
    decreases Abs(a) + Abs(b)
  {
    if -1 <= a <= 0 && -1 <= b <= 0 then
      if a == b then 0 else -1
    else
      2 * Xor(a / 2, b / 2) + if a % 2 == b % 2 then 0 else 1
  }

  /** The low bit and the rest, whatever the operands. */
  lemma XorHalves(a: int, b: int)
    ensures Xor(a, b) == 2 * Xor(a / 2, b / 2) + if a % 2 == b % 2 then 0 else 1
  {
  }

  lemma {:induction false} XorCommutes(a: int, b: int)
    ensures Xor(a, b) == Xor(b, a)
    decreases Abs(a) + Abs(b)
  {
    if !(-1 <= a <= 0 && -1 <= b <= 0) {
      XorCommutes(a / 2, b / 2);
    }
  }

  lemma {:induction false} XorCancels(a: int, b: int)
    ensures Xor(Xor(a, b), b) == a
    decreases Abs(a) + Abs(b)
  {
    if !(-1 <= a <= 0 && -1 <= b <= 0) {
      XorCancels(a / 2, b / 2);
      var c := Xor(a, b);
      XorHalves(c, b);
      assert c / 2 == Xor(a / 2, b / 2);
    }
  }

  function Pow2(n: nat): nat {
    if n == 0 then 1 else 2 * Pow2(n - 1)
  }

  /** A value that fits in `bits` bits and a sign. */
  predicate Fits(a: int, bits: nat) {
    -(Pow2(bits) as int) <= a < Pow2(bits)
  }

  /** The exclusive or of two `int`s is an `int`: no width is lost by leaving it out. */
  lemma {:induction false} XorFits(a: int, b: int, bits: nat)
    requires Fits(a, bits) && Fits(b, bits)
    ensures Fits(Xor(a, b), bits)
    decreases bits
  {
    if bits > 0 {
      XorFits(a / 2, b / 2, bits - 1);
      XorHalves(a, b);
    }
  }

  /** The three assignments exchange two cells, and clear a cell exchanged with itself. */
  method XorExchange(a: array<int>, p: nat, q: nat)
    requires p < a.Length && q < a.Length
    modifies a
    ensures p != q ==> a[..] == old(a[..])[p := old(a[q])][q := old(a[p])]
    ensures p == q ==> a[..] == old(a[..])[p := 0]
  {
    var x, y := a[p], a[q];
    XorCancels(x, y);
    XorCommutes(Xor(x, y), y);
    XorCommutes(x, y);
    XorCancels(y, x);
    a[p] := Xor(a[p], a[q]);
    a[q] := Xor(a[q], a[p]);
    a[p] := Xor(a[p], a[q]);
    XorSelf(x);
    XorSelf(0);
  }

  lemma {:induction false} XorSelf(a: int)
    ensures Xor(a, a) == 0
    decreases Abs(a)
  {
    if !(-1 <= a <= 0) {
      XorSelf(a / 2);
    }
  }
}
