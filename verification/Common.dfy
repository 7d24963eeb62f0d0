/** Types shared by the models: optional pointers, the queue's exceptions, machine words. */
module Common {

  /** A pointer that may be null. */
  datatype Option<+T> = None | Some(value: T)

  /** `std::range_error` and `std::out_of_range`. */
  datatype Error = RangeError | OutOfRange

  datatype Result<+T> = Ok(value: T) | Err(error: Error)

  newtype Word = w: int | 0 <= w < 0x1_0000_0000_0000_0000

  /** A trivially copyable value, copied one 64-bit word at a time. */
  type Words = seq<Word>

  /** How many values `unsigned` and `uint32_t` have. */
  const UINT32_VALUES: nat := 0x1_0000_0000

  /** Some order in which the words of one copy are loaded or stored. */
  ghost predicate IsOrder(order: seq<nat>, words: nat) {
    && |order| == words
    && (forall k :: 0 <= k < words ==> order[k] < words)
    && (forall k, l :: 0 <= k < l < words ==> order[k] != order[l])
    && (forall i: nat :: i < words ==> i in order)
  }

  lemma OrderOn(order: seq<nat>, words: nat, i: nat)
    requires IsOrder(order, words) && i < words
    ensures order[i] < words && order[i] !in order[..i]
    ensures forall k: nat :: k in order[..i + 1] <==> k in order[..i] || k == order[i]
  {
    assert order[..i + 1] == order[..i] + [order[i]];
  }

  lemma OrderDone(order: seq<nat>, words: nat)
    requires IsOrder(order, words)
    ensures forall k: nat :: k in order[..words] <==> k < words
  {
    assert order[..words] == order;
  }
}
