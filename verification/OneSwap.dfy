/** What can be reached by one swap, in lexicographic order. */
module OneSwap {

  function Swap(s: seq<int>, i: nat, j: nat): seq<int>
    requires i < |s| && j < |s|
  {
    s[i := s[j]][j := s[i]]
  }

  ghost predicate LessAt(s: seq<int>, t: seq<int>, k: int) {
    0 <= k < |s| == |t| && (forall m :: 0 <= m < k ==> s[m] == t[m]) && s[k] < t[k]
  }

  ghost predicate LexLess(s: seq<int>, t: seq<int>) {
    exists k :: LessAt(s, t, k)
  }

  ghost predicate NonDecreasing(s: seq<int>, from: int) {
    forall i, j :: 0 <= i && from <= i <= j < |s| ==> s[i] <= s[j]
  }

  /** `t` is smaller than `s` and one swap away. */
  ghost predicate SwappedDown(s: seq<int>, t: seq<int>) {
    LexLess(t, s) && exists i: nat, j: nat :: i < j < |s| && t == Swap(s, i, j)
  }

  /** `r` is the greatest of all that are smaller than `s` and one swap away. */
  ghost predicate LargestSwappedDown(s: seq<int>, r: seq<int>) {
    SwappedDown(s, r) && forall t :: SwappedDown(s, t) ==> t == r || LexLess(t, r)
  }

  /** `i` starts the last descent: what follows it is sorted. */
  ghost predicate LastDescent(s: seq<int>, i: nat) {
    i + 1 < |s| && s[i] > s[i + 1] && NonDecreasing(s, i + 1)
  }

  /** `j` is the leftmost place after `i` of the greatest value there that is below `s[i]`. */
  ghost predicate BestPartner(s: seq<int>, i: nat, j: nat) {
    && i < j < |s| && s[j] < s[i]
    && forall k :: i < k < |s| && s[k] < s[i] ==> s[k] < s[j] || (s[k] == s[j] && j <= k)
  }

  /** Lexicographic order is strict: nothing is below itself, nor above what is above it. */
  lemma LexLessStrict(s: seq<int>, t: seq<int>)
    ensures !(LexLess(s, t) && LexLess(t, s)) && !LexLess(s, s)
  {
  }

  lemma SwapKeepsMultiset(s: seq<int>, i: nat, j: nat)
    requires i < |s| && j < |s|
    ensures multiset(Swap(s, i, j)) == multiset(s)
  {
  }

  /** A swap goes down exactly when it moves a smaller value to the left. */
  lemma SwapDownIff(s: seq<int>, i: nat, j: nat)
    requires i < j < |s|
    ensures LexLess(Swap(s, i, j), s) <==> s[j] < s[i]
  {
    var t := Swap(s, i, j);
    if s[j] < s[i] {
      assert LessAt(t, s, i);
    } else if s[i] < s[j] {
      assert LessAt(s, t, i);
      LexLessStrict(s, t);
    } else {
      assert t == s;
      LexLessStrict(s, s);
    }
  }

  /** A sorted sequence cannot be swapped down. */
  lemma SortedHasNone(s: seq<int>, t: seq<int>)
    requires NonDecreasing(s, 0)
    ensures !SwappedDown(s, t)
  {
  }

  /** Swapping the start of the last descent with its best partner is optimal. */
  lemma BestIsLargest(s: seq<int>, i: nat, j: nat)
    requires LastDescent(s, i) && BestPartner(s, i, j)
    ensures LargestSwappedDown(s, Swap(s, i, j))
  {
    var r := Swap(s, i, j);
    SwapDownIff(s, i, j);
    forall t | SwappedDown(s, t)
      ensures t == r || LexLess(t, r)
    {
      var k: nat, l: nat :| k < l < |s| && t == Swap(s, k, l);
      SwapDownIff(s, k, l);
      OtherSwapBelow(s, i, j, k, l);
    }
  }

  lemma OtherSwapBelow(s: seq<int>, i: nat, j: nat, k: nat, l: nat)
    requires LastDescent(s, i) && BestPartner(s, i, j)
    requires k < l < |s| && s[l] < s[k]
    ensures Swap(s, k, l) == Swap(s, i, j) || LexLess(Swap(s, k, l), Swap(s, i, j))
  {
    var r, t := Swap(s, i, j), Swap(s, k, l);
    assert k <= i;
    if k < i {
      assert LessAt(t, r, k);
    } else if s[l] < s[j] {
      assert LessAt(t, r, i);
    } else if l != j {
      assert LessAt(t, r, j);
    }
  }

  /** Swapping with a smaller value than the best partner's is not optimal. */
  lemma WorseIsNotLargest(s: seq<int>, i: nat, j: nat, q: nat)
    requires LastDescent(s, i) && BestPartner(s, i, j) && i < q < |s| && s[q] < s[j]
    ensures !LargestSwappedDown(s, Swap(s, i, q))
  {
    var r, t := Swap(s, i, j), Swap(s, i, q);
    SwapDownIff(s, i, j);
    assert SwappedDown(s, r);
    assert LessAt(t, r, i);
    LexLessStrict(r, t);
    assert t != r;
  }

  lemma LastDescentUnique(s: seq<int>, i: nat, j: nat)
    requires LastDescent(s, i) && LastDescent(s, j)
    ensures i == j
  {
  }
}
