/** `Solution::prevPermOpt1` and its three pointer searches. A pointer into the vector is an
    index; a probe may point before the range. */
module PrevPermutation {
  import opened OneSwap
  import XorSwap

  /** `a[from..=to]` is non-decreasing. */
  ghost predicate Sorted(s: seq<int>, from: int, to: int) {
    forall i, j :: 0 <= i && from <= i <= j <= to && j < |s| ==> s[i] <= s[j]
  }

  /** The last entry below `crit`, or `pbegin` when there is none. */
  method BisectMaxCrit(crit: int, a: array<int>, pbegin: nat, pback: nat) returns (p: nat)
    requires pbegin <= pback < a.Length && Sorted(a[..], pbegin, pback)
    ensures pbegin <= p <= pback
    ensures a[pbegin] < crit ==> a[p] < crit && forall k :: p < k <= pback ==> a[k] >= crit
    ensures a[pbegin] >= crit ==> p == pbegin
  {
    if a[pback] < crit {
      return pback;
    }
    var lo, hi := pbegin, pback;
    p := (hi - lo + 1) / 2 + lo;
    while lo < hi
      invariant pbegin <= lo <= hi <= pback && p == (hi - lo + 1) / 2 + lo
      invariant a[pbegin] < crit ==> a[lo] < crit
      invariant a[pbegin] >= crit ==> lo == pbegin
      invariant forall k :: hi < k <= pback ==> a[k] >= crit
    {
      assert forall k :: pbegin <= k <= pback ==> a[k] == a[..][k];
      if a[p] < crit {
        lo := p;
      } else {
        hi := p - 1;
      }
      p := (hi - lo + 1) / 2 + lo;
    }
  }

  /** The basic `bisect_left`: everything before `p` is below `val`, nothing from `p` on is. */
  method BisectLeft(val: int, a: array<int>, beg: nat, back: nat) returns (p: nat)
    requires beg <= back <= a.Length && Sorted(a[..], beg, back - 1)
    ensures beg <= p <= back
    ensures forall k :: beg <= k < p ==> a[k] < val
    ensures forall k :: p <= k < back ==> a[k] >= val
  {
    p := beg;
    var hi := back;
    while p < hi
      invariant beg <= p <= hi <= back
      invariant forall k :: beg <= k < p ==> a[k] < val
      invariant forall k :: hi <= k < back ==> a[k] >= val
    {
      var mid := (hi - p) / 2 + p;
      assert forall k :: beg <= k < back ==> a[k] == a[..][k];
      if a[mid] >= val {
        hi := mid;
      } else {
        p := mid + 1;
      }
    }
  }

  predicate IsPow2(n: nat) {
    n == 1 || (n > 0 && n % 2 == 0 && IsPow2(n / 2))
  }

  /** The distances at which the galloping search probes: 1, 4, 8, 16, ... */
  predicate IsProbe(d: nat) {
    d == 1 || (d >= 4 && IsPow2(d))
  }

  function NextProbe(d: nat): nat {
    if d == 1 then 4 else 2 * d
  }

  /** `left` is the leftmost occurrence of `val` in the sorted range, `pval` one of them. */
  ghost predicate Leftmost(s: seq<int>, val: int, beg: int, left: int, pval: int) {
    && 0 <= beg <= left <= pval < |s|
    && (forall k :: beg <= k < left ==> s[k] < val)
    && (forall k :: left <= k <= pval ==> s[k] == val)
  }

  /** How a galloping search leaves its two reference parameters. */
  datatype Bracket = Bracket(beg: int, pval: int) | Thrown

  /** Where the search stops, by the distance `d` of the last probe that met `val`. */
  ghost predicate StopsAt(beg: int, left: int, pval: int, bracket: Bracket) {
    bracket.Bracket? &&
    if left == beg then bracket == Bracket(beg, beg)
    else if left == pval then bracket == Bracket(pval, pval)
    else exists d: nat :: StopsAtProbe(beg, left, pval, bracket, d)
  }

  ghost predicate StopsAtProbe(beg: int, left: int, pval: int, bracket: Bracket, d: nat)
    requires bracket.Bracket?
  {
    && IsProbe(d) && d <= pval - left < NextProbe(d)
    && bracket.pval == pval - d
    && bracket.beg == if beg > pval - NextProbe(d) then beg else pval - NextProbe(d)
  }

  /** `walk_left_find_val_lt`. The step never overflows an `int` in a vector of at most 2^30. */
  method WalkLeft(val: int, a: array<int>, beg: nat, pval: nat, ghost left: int) returns (bracket: Bracket)
    requires beg <= pval < a.Length
    requires a[pval] == val ==> Leftmost(a[..], val, beg, left, pval)
    ensures bracket == Thrown <==> a[pval] != val
    ensures a[pval] == val ==> StopsAt(beg, left, pval, bracket)
  {
    if a[pval] != val {
      return Thrown;
    }
    assert forall k :: beg <= k < left ==> a[k] == a[..][k] < val;
    assert forall k :: left <= k <= pval ==> a[k] == a[..][k] == val;
    if val == a[beg] {
      return Bracket(beg, beg);
    }
    var step: nat, b: int, p: int, probe: int := 2, beg, pval, pval - 1;
    if a[probe] != a[pval] {
      return Bracket(pval, pval);
    }
    ghost var d: nat := 0;
    while probe > b
      invariant b == beg < left && (step == 2 || (step >= 4 && IsPow2(step)))
      invariant step == 2 ==> p == pval && probe == pval - 1 && left <= probe
      invariant step > 2 ==> IsProbe(d) && step == NextProbe(d) && probe == pval - step && p == pval - d >= left
      invariant a.Length <= 0x4000_0000 ==> step < 0x8000_0000
      decreases probe
    {
      if a[probe] < val {
        b := probe;
        break;
      } else {
        p := probe;
        d := if step == 2 then 1 else step;
      }
      assert IsPow2(4) && IsPow2(2 * step) == IsPow2(step);
      step := 2 * step;
      probe := pval - step;
    }
    bracket := Bracket(b, p);
    assert StopsAtProbe(beg, left, pval, bracket, d);
  }

  /** What the bracket is good for: it holds the leftmost occurrence, ends on one, starts below
      them or on the leftmost itself, and is at most `max(3, r - 1)` wide where `r` is the number
      of entries equal to `val`. */
  lemma BracketPins(s: seq<int>, val: int, beg: int, left: int, pval: int, bracket: Bracket)
    requires Leftmost(s, val, beg, left, pval) && StopsAt(beg, left, pval, bracket)
    ensures beg <= bracket.beg <= left <= bracket.pval <= pval && s[bracket.pval] == val
    ensures bracket.beg == left ==> bracket.pval == left
    ensures var r := pval - left + 1;
      bracket.pval - bracket.beg <= if r - 1 > 3 then r - 1 else 3
  {
  }

  lemma ProbeNotTwo(d: nat)
    requires IsProbe(d)
    ensures d == 1 || d >= 4
  {
  }

  /** The whole search: on a sorted range it finds exactly the leftmost occurrence. */
  method FindLeftmost(val: int, a: array<int>, beg: nat, pval: nat) returns (p: nat)
    requires beg <= pval < a.Length && Sorted(a[..], beg, pval) && a[pval] == val
    ensures Leftmost(a[..], val, beg, p, pval)
  {
    ghost var left := TheLeftmost(a[..], val, beg, pval);
    var bracket := WalkLeft(val, a, beg, pval, left);
    BracketPins(a[..], val, beg, left, pval, bracket);
    p := bracket.pval;
    if bracket.beg < p - 1 {
      p := BisectLeft(val, a, bracket.beg, p);
    }
    assert forall k :: beg <= k <= pval ==> a[k] == a[..][k];
  }

  lemma {:induction false} TheLeftmost(s: seq<int>, val: int, beg: int, pval: int) returns (left: int)
    requires 0 <= beg <= pval < |s| && Sorted(s, beg, pval) && s[pval] == val
    ensures Leftmost(s, val, beg, left, pval)
    decreases pval - beg
  {
    if s[beg] == val {
      left := beg;
    } else {
      left := TheLeftmost(s, val, beg + 1, pval);
    }
  }

  /** The scan from the right for the last descent; -1 when there is none. */
  method FindDescent(a: array<int>) returns (px: int)
    requires a.Length >= 2
    ensures px == -1 ==> NonDecreasing(a[..], 0)
    ensures px != -1 ==> px >= 0 && LastDescent(a[..], px)
  {
    var lag := a.Length - 1;
    px := lag - 1;
    while true
      invariant px == lag - 1 && 0 <= px < a.Length - 1
      invariant NonDecreasing(a[..], lag)
      decreases px
    {
      if a[px] > a[lag] {
        return px;
      }
      lag := px;
      px := px - 1;
      if lag == 0 {
        return -1;
      }
    }
  }

  /** The last entry after `px` below `s[px]`. */
  ghost predicate LastBelow(s: seq<int>, px: nat, p: nat) {
    px < p < |s| && s[p] < s[px] && forall k :: p < k < |s| ==> s[k] >= s[px]
  }

  lemma LeftmostIsBest(s: seq<int>, px: nat, p: nat, left: nat)
    requires LastDescent(s, px) && LastBelow(s, px, p) && Leftmost(s, s[p], px + 1, left, p)
    ensures BestPartner(s, px, left)
  {
  }

  /** A galloping search for the leftmost equal of `s[p]` ends on it, so that the bisection that
      follows has nothing left to do. */
  predicate SearchEndsOnLeftmost(px: nat, left: nat, p: nat)
    requires left <= p
  {
    left == p || left == px + 1 || (left == px + 2 && IsProbe(p - left))
  }

  /** Where the text of the source leaves `p_max`: it drops the result of `bisect_left` and goes
      on with the left end of the bracket. */
  lemma DroppedResult(px: nat, left: nat, p: nat, bracket: Bracket)
    requires px < left <= p && p != px + 1 && StopsAt(px + 1, left, p, bracket)
    ensures bracket.beg < bracket.pval - 1 <==> !SearchEndsOnLeftmost(px, left, p)
    ensures !(bracket.beg < bracket.pval - 1) ==> bracket.pval == left
    ensures bracket.beg < bracket.pval - 1 ==> px < bracket.beg < left
  {
    if left != px + 1 && left != p {
      var d: nat :| StopsAtProbe(px + 1, left, p, bracket, d);
      ProbeNotTwo(d);
      if left == px + 2 && IsProbe(p - left) {
        ProbesApart(d, p - left);
      }
    }
  }

  /** No probe distance lies strictly between another and its successor. */
  lemma {:induction false} ProbesApart(d: nat, e: nat)
    requires IsProbe(d) && IsProbe(e) && d <= e < NextProbe(d)
    ensures d == e
  {
    if d > 1 {
      Pow2Apart(d, e);
    } else {
      ProbeNotTwo(e);
    }
  }

  lemma {:induction false} Pow2Apart(d: nat, e: nat)
    requires IsPow2(d) && IsPow2(e) && d <= e < 2 * d
    ensures d == e
    decreases d
  {
    if d > 1 {
      Pow2Apart(d / 2, e / 2);
    }
  }

  /** `px` starts the last descent, `p` is the last entry below `s[px]` and `left` the leftmost
      entry equal to it. */
  ghost predicate Candidates(s: seq<int>, px: nat, p: nat, left: nat) {
    LastDescent(s, px) && LastBelow(s, px, p) && Leftmost(s, s[p], px + 1, left, p)
  }

  /** The inputs on which the text as it stands misses the best swap. */
  ghost predicate SearchMisses(s: seq<int>) {
    exists px: nat, p: nat, left: nat :: Candidates(s, px, p, left) && !SearchEndsOnLeftmost(px, left, p)
  }

  lemma CandidatesUnique(s: seq<int>, px: nat, p: nat, left: nat, px': nat, p': nat, left': nat)
    requires Candidates(s, px, p, left) && Candidates(s, px', p', left')
    ensures px == px' && p == p' && left == left'
  {
    LastDescentUnique(s, px, px');
    assert s[left] == s[p] && s[left'] == s[p'];
  }

  lemma MissesUnique(s: seq<int>, px: nat, p: nat, left: nat)
    requires Candidates(s, px, p, left)
    ensures SearchMisses(s) <==> !SearchEndsOnLeftmost(px, left, p)
  {
    if SearchMisses(s) {
      var px': nat, p': nat, left': nat :|
        Candidates(s, px', p', left') && !SearchEndsOnLeftmost(px', left', p');
      CandidatesUnique(s, px, p, left, px', p', left');
    }
  }

  /** Where the text goes on instead: at the left end of the bracket, which is the first probe to
      miss, the one after distance `d`, or the start of the range if that comes later. */
  ghost predicate MissedPartner(s: seq<int>, px: nat, m: nat) {
    exists p: nat, left: nat, d: nat :: MissedAt(s, px, m, p, left, d)
  }

  ghost predicate MissedAt(s: seq<int>, px: nat, m: nat, p: nat, left: nat, d: nat) {
    && Candidates(s, px, p, left) && !SearchEndsOnLeftmost(px, left, p)
    && IsProbe(d) && d <= p - left < NextProbe(d)
    && m == if px + 1 > p - NextProbe(d) then px + 1 else p - NextProbe(d)
  }

  /** `r` is `s` with that swap made. */
  ghost predicate MissedSwap(s: seq<int>, r: seq<int>) {
    exists px: nat, m: nat :: MissedPartner(s, px, m) && px < |s| && m < |s| && r == Swap(s, px, m)
  }

  /** That is one place only, and so one result. */
  lemma MissedPartnerUnique(s: seq<int>, px: nat, m: nat, px': nat, m': nat)
    requires MissedPartner(s, px, m) && MissedPartner(s, px', m')
    ensures px == px' && m == m'
  {
    var p: nat, left: nat, d: nat :| MissedAt(s, px, m, p, left, d);
    var p': nat, left': nat, d': nat :| MissedAt(s, px', m', p', left', d');
    CandidatesUnique(s, px, p, left, px', p', left');
    ProbesApart(if d < d' then d else d', if d < d' then d' else d);
  }

  /** `p_max` when the result of `bisect_left` is used. */
  method ChooseIntended(a: array<int>, px: nat) returns (pMax: nat)
    requires LastDescent(a[..], px)
    ensures BestPartner(a[..], px, pMax)
  {
    var lag := px + 1;
    pMax := BisectMaxCrit(a[px], a, lag, a.Length - 1);
    assert LastBelow(a[..], px, pMax);
    ghost var p := pMax;
    ghost var left := TheLeftmost(a[..], a[pMax], lag, pMax);
    LeftmostIsBest(a[..], px, pMax, left);
    if lag != pMax {
      pMax := FindLeftmost(a[pMax], a, lag, pMax);
      LeftmostIsBest(a[..], px, p, pMax);
    }
  }

  /** `p_max` as the text of the source has it: the result of `bisect_left` is dropped. */
  method ChooseAsWritten(a: array<int>, px: nat) returns (pMax: nat, ghost best: nat)
    requires LastDescent(a[..], px)
    ensures px < pMax < a.Length && BestPartner(a[..], px, best)
    ensures if SearchMisses(a[..]) then a[pMax] < a[best] && MissedPartner(a[..], px, pMax) else pMax == best
  {
    var lag := px + 1;
    pMax := BisectMaxCrit(a[px], a, lag, a.Length - 1);
    best := TheLeftmost(a[..], a[pMax], lag, pMax);
    LeftmostIsBest(a[..], px, pMax, best);
    assert Candidates(a[..], px, pMax, best);
    MissesUnique(a[..], px, pMax, best);
    if lag != pMax {
      ghost var p := pMax;
      var bracket := WalkLeft(a[pMax], a, lag, pMax, best);
      BracketPins(a[..], a[pMax], lag, best, pMax, bracket);
      DroppedResult(px, best, pMax, bracket);
      pMax := bracket.pval;
      if bracket.beg < pMax - 1 {
        var dropped := BisectLeft(a[pMax], a, bracket.beg, pMax);
        pMax := bracket.beg;
        assert a[..][pMax] < a[..][p];
        ghost var d: nat :| StopsAtProbe(lag, best, p, bracket, d);
        assert MissedAt(a[..], px, pMax, p, best, d);
      }
    }
  }

  /** `prevPermOpt1` with the result of `bisect_left` used: for every array the largest
      permutation below it that one swap can reach, and the array itself when there is none. */
  method PrevPermOpt1Intended(a: array<int>)
    requires a.Length >= 2
    modifies a
    ensures if NonDecreasing(old(a[..]), 0) then a[..] == old(a[..]) else LargestSwappedDown(old(a[..]), a[..])
    ensures multiset(a[..]) == multiset(old(a[..]))
  {
    ghost var s := a[..];
    var px := FindDescent(a);
    if px == -1 {
      return;
    }
    var pMax := ChooseIntended(a, px);
    BestIsLargest(s, px, pMax);
    SwapKeepsMultiset(s, px, pMax);
    XorSwap.XorExchange(a, pMax, px);
    assert a[..] == Swap(s, px, pMax);
  }

  /** What the swap of the text amounts to, whichever partner it has found. */
  lemma SwapAsWritten(s: seq<int>, px: nat, pMax: nat, best: nat)
    requires LastDescent(s, px) && px < pMax < |s| && BestPartner(s, px, best)
    requires if SearchMisses(s) then s[pMax] < s[best] && MissedPartner(s, px, pMax) else pMax == best
    ensures !NonDecreasing(s, 0)
    ensures var r := Swap(s, px, pMax);
      && r != s && SwappedDown(s, r) && multiset(r) == multiset(s)
      && (LargestSwappedDown(s, r) <==> !SearchMisses(s))
      && (SearchMisses(s) ==> MissedSwap(s, r))
  {
    if SearchMisses(s) {
      WorseIsNotLargest(s, px, best, pMax);
    } else {
      BestIsLargest(s, px, pMax);
    }
    SwapDownIff(s, px, pMax);
    SwapKeepsMultiset(s, px, pMax);
  }

  /** `prevPermOpt1` as its text reads. The result is always one swap down, or the array itself
      exactly when it is sorted; it is the largest such exactly when the search does not have to
      bisect, and otherwise the swap with the left end of the bracket. */
  method PrevPermOpt1AsWritten(a: array<int>)
    requires a.Length >= 2
    modifies a
    ensures a[..] == old(a[..]) <==> NonDecreasing(old(a[..]), 0)
    ensures a[..] != old(a[..]) ==> SwappedDown(old(a[..]), a[..])
    ensures multiset(a[..]) == multiset(old(a[..]))
    ensures !NonDecreasing(old(a[..]), 0) ==>
      (LargestSwappedDown(old(a[..]), a[..]) <==> !SearchMisses(old(a[..])))
    ensures SearchMisses(old(a[..])) ==> MissedSwap(old(a[..]), a[..])
  {
    ghost var s := a[..];
    var px := FindDescent(a);
    if px == -1 {
      return;
    }
    var pMax, best := ChooseAsWritten(a, px);
    XorSwap.XorExchange(a, pMax, px);
    assert a[..] == Swap(s, px, pMax);
    SwapAsWritten(s, px, pMax, best);
  }

  /** The dropped result matters: from `[3, 1, 2, 2, 2]` one swap reaches `[2, 1, 3, 2, 2]`, but
      the search gives up on a bracket that starts at the 1. */
  lemma MissingExample()
    ensures SearchMisses([3, 1, 2, 2, 2])
    ensures LargestSwappedDown([3, 1, 2, 2, 2], [2, 1, 3, 2, 2])
    ensures !LargestSwappedDown([3, 1, 2, 2, 2], [1, 3, 2, 2, 2])
  {
    var s := [3, 1, 2, 2, 2];
    assert Candidates(s, 0, 4, 2) && !SearchEndsOnLeftmost(0, 2, 4);
    BestIsLargest(s, 0, 2);
    assert Swap(s, 0, 2) == [2, 1, 3, 2, 2];
    WorseIsNotLargest(s, 0, 2, 1);
    assert Swap(s, 0, 1) == [1, 3, 2, 2, 2];
  }
}
