/** `my_regex_match`: the memoised matcher, its tables and its star-free shortcut. */
module RegexMatcher {
  import opened Common
  import opened RegexSpec
  import Modular

  /** An `unsigned` value stored in an `int`. */
  function ToInt(u: nat): int
    requires u < UINT32_VALUES
  {
    if u < 0x8000_0000 then u else u - UINT32_VALUES
  }

  /** An `int` value compared with an `unsigned`. */
  function ToUnsigned(n: int): int {
    if n < 0 then n + UINT32_VALUES else n
  }

  /** `num_memos`, in unsigned arithmetic. */
  function NumMemos(textLen: nat, patLen: nat): nat {
    ((textLen + 1) * (patLen + 1)) % UINT32_VALUES
  }

  /** The flat index of a cell, in unsigned arithmetic. */
  function Offset(i: nat, j: nat, textLen: nat): nat {
    (i + j * (textLen + 1)) % UINT32_VALUES
  }

  /** The tables have fewer than 2^32 cells. */
  predicate Fits(textLen: nat, patLen: nat) {
    (textLen + 1) * (patLen + 1) < UINT32_VALUES
  }

  /** A cell's flat index is inside the table and determines the cell. */
  lemma OffsetUnique(i: nat, j: nat, textLen: nat, patLen: nat)
    requires Fits(textLen, patLen) && i <= textLen && j <= patLen
    ensures Offset(i, j, textLen) == i + j * (textLen + 1) < NumMemos(textLen, patLen)
    ensures Offset(i, j, textLen) % (textLen + 1) == i && Offset(i, j, textLen) / (textLen + 1) == j
  {
    var w := textLen + 1;
    assert j * w + w == (j + 1) * w;
    assert (j + 1) * w <= (patLen + 1) * w;
    Modular.Unique(i + j * w, j, w, i);
  }

  lemma FittingSizes(textLen: nat, patLen: nat)
    requires Fits(textLen, patLen)
    ensures patLen < UINT32_VALUES && NumMemos(textLen, patLen) == (textLen + 1) * (patLen + 1)
  {
    assert (textLen + 1) * (patLen + 1) >= patLen + 1;
  }

  /** Every cell is inside the table exactly when the table has fewer than 2^32 cells. */
  lemma TableFitsIff(textLen: nat, patLen: nat)
    requires textLen < UINT32_VALUES && patLen < UINT32_VALUES
    ensures (forall i: nat, j: nat :: i <= textLen && j <= patLen ==>
               Offset(i, j, textLen) < NumMemos(textLen, patLen))
            <==> Fits(textLen, patLen)
  {
    if Fits(textLen, patLen) {
      forall i: nat, j: nat | i <= textLen && j <= patLen
        ensures Offset(i, j, textLen) < NumMemos(textLen, patLen)
      {
        OffsetUnique(i, j, textLen, patLen);
      }
    } else {
      var i, j := LastUnsigned(textLen, patLen);
    }
  }

  /** A table that does not fit has a cell whose index is the greatest `unsigned`. */
  lemma LastUnsigned(textLen: nat, patLen: nat) returns (i: nat, j: nat)
    requires !Fits(textLen, patLen)
    ensures i <= textLen && j <= patLen && Offset(i, j, textLen) == UINT32_VALUES - 1
  {
    var w, last := textLen + 1, UINT32_VALUES - 1;
    i, j := last % w, last / w;
    assert last == j * w + i;
    assert j > patLen ==> j * w >= (patLen + 1) * w;
  }

  function Count(s: seq<bool>): (n: nat)
    ensures n <= |s|
  {
    if s == [] then 0 else Count(s[..|s| - 1]) + if s[|s| - 1] then 1 else 0
  }

  lemma {:induction false} CountNone(s: seq<bool>)
    requires forall k :: 0 <= k < |s| ==> !s[k]
    ensures Count(s) == 0
    decreases |s|
  {
    if s != [] {
      CountNone(s[..|s| - 1]);
    }
  }

  lemma {:induction false} CountMark(s: seq<bool>, k: nat)
    requires k < |s| && !s[k]
    ensures Count(s[k := true]) == Count(s) + 1
    decreases |s|
  {
    var t := s[k := true];
    if k == |s| - 1 {
      assert t[..|s| - 1] == s[..|s| - 1];
    } else {
      CountMark(s[..|s| - 1], k);
      assert t[..|s| - 1] == s[..|s| - 1][k := true];
    }
  }

  /** No `ch` stands in the pattern after position `last`, as `j > last` reads in C: a negative
      `last` becomes a huge unsigned value, after which there is nothing. */
  ghost predicate NoneAfter(pat: string, ch: char, last: int) {
    forall k :: 0 <= k < |pat| && k > ToUnsigned(last) ==> pat[k] != ch
  }

  /** `last` is where `ch` stands last in the pattern, -1 when it does not; but a pattern of more than
      2^31 characters starts the search at a negative position, where it ends at once. */
  ghost predicate LastOf(pat: string, ch: char, last: int) {
    if |pat| > 0x8000_0000 then last == |pat| - 1 - UINT32_VALUES
    else
      && -1 <= last < |pat| && (last >= 0 ==> pat[last] == ch)
      && forall k :: last < k < |pat| ==> pat[k] != ch
  }

  /** From `before` to `after` cells have only been marked, and none before flat index `from`. */
  ghost predicate Marked(before: seq<bool>, after: seq<bool>, from: nat) {
    && |after| == |before|
    && (forall k :: 0 <= k < |before| && before[k] ==> after[k])
    && (forall k :: 0 <= k < |before| && after[k] && !before[k] ==> k >= from)
  }

  lemma MarkedOn(a: seq<bool>, b: seq<bool>, c: seq<bool>, from: nat, later: nat)
    requires Marked(a, b, from) && Marked(b, c, later) && from <= later
    ensures Marked(a, c, from)
  {
  }

  class MyRegexMatch {
    var text: CString
    var pat: CString
    var textLen: nat
    var patLen: nat
    var numMemos: nat
    var lastDot: int
    var lastStar: int
    var memo: seq<bool>
    var memoDone: seq<bool>

    // How much work has been done since `init`.
    ghost var calls: nat     // invocations of dp
    ghost var entries: nat   // those that went through the general branch

    /** Every cell marked done holds the answer of the plain recursion. Cells that are not marked
        may hold anything. */
    ghost predicate Valid()
      reads this
    {
      && textLen == |text| && patLen == |pat| && Fits(textLen, patLen)
      && numMemos == (textLen + 1) * (patLen + 1)
      && |memo| == |memoDone| == numMemos
      && NoneAfter(pat, '.', lastDot) && NoneAfter(pat, '*', lastStar)
      && forall k :: 0 <= k < numMemos && memoDone[k] ==>
           memo[k] == Plain(text, pat, k % (textLen + 1), k / (textLen + 1))
    }

    /** `init`, also the work of the constructor. The pattern and the text are C strings whose
        tables fit; see `TableFitsIff`. */
    method Init(textIn: CString, patIn: CString)
      requires Fits(|textIn|, |patIn|)
      modifies this
      ensures Valid() && text == textIn && pat == patIn
      ensures forall k :: 0 <= k < |memoDone| ==> !memoDone[k]
      ensures LastOf(pat, '.', lastDot) && LastOf(pat, '*', lastStar)
      ensures calls == 0 && entries == 0
    {
      text, pat := textIn, patIn;
      textLen, patLen := |text|, |pat|;
      FittingSizes(textLen, patLen);
      numMemos := NumMemos(textLen, patLen);
      if numMemos != |memo| {
        var was := memo;
        memo := seq(numMemos, k => 0 <= k < |was| && was[k]);
      }
      memoDone := seq(numMemos, _ => false);
      lastDot := FindLast('.');
      lastStar := FindLast('*');
      calls, entries := 0, 0;
    }

    /** The loops of `init` that look for the last `ch` in the pattern. */
    method FindLast(ch: char) returns (last: int)
      requires patLen == |pat| < UINT32_VALUES
      ensures NoneAfter(pat, ch, last) && LastOf(pat, ch, last)
      ensures 0 <= last ==> last < |pat| && pat[last] == ch
    {
      last := ToInt((patLen + UINT32_VALUES - 1) % UINT32_VALUES);
      while last >= 0 && pat[last] != ch
        invariant last < |pat|
        invariant last >= 0 || patLen > 0x8000_0000 || last == -1
        invariant patLen > 0x8000_0000 ==> last == patLen - 1 - UINT32_VALUES
        invariant last < 0 && patLen > 0x8000_0000 ==> last == -1 || ToUnsigned(last) == patLen - 1
        invariant forall k :: 0 <= k < |pat| && last < k && last >= -1 ==> pat[k] != ch
      {
        last := last - 1;
      }
    }

    method MatchDot(i0: nat, j0: nat) returns (ans: bool)
      requires textLen == |text| && patLen == |pat| && i0 <= textLen && textLen - i0 == patLen - j0
      ensures ans <==> SameShape(text, pat, i0, j0)
    {
      var i, j := i0, j0;
      while i < textLen
        invariant i0 <= i <= textLen && j == i - i0 + j0
        invariant forall k :: i0 <= k < i ==> Agree(text, pat, k, i0, j0)
      {
        if text[i] != pat[j] && pat[j] != '.' {
          assert !Agree(text, pat, i, i0, j0);
          return false;
        }
        i, j := i + 1, j + 1;
      }
      return true;
    }

    /** `memo_done[offset] = true; memo[offset] = ans`. */
    method Mark(i: nat, j: nat, ans: bool)
      requires Valid() && i <= textLen && j <= patLen && ans == Plain(text, pat, i, j)
      requires Offset(i, j, textLen) < |memoDone| && !memoDone[Offset(i, j, textLen)]
      modifies `memo, `memoDone
      ensures Valid()
      ensures memoDone == old(memoDone)[Offset(i, j, textLen) := true]
      ensures Count(memoDone) == Count(old(memoDone)) + 1
    {
      var offset := Offset(i, j, textLen);
      OffsetUnique(i, j, textLen, patLen);
      CountMark(memoDone, offset);
      memoDone := memoDone[offset := true];
      memo := memo[offset := ans];
    }

    /** The star-free shortcut: it stores its answer but does not mark the cell. */
    method Shortcut(i: nat, j: nat) returns (ans: bool)
      requires Valid() && i <= textLen && j <= patLen && j > ToUnsigned(lastStar)
      requires Offset(i, j, textLen) < |memoDone| && !memoDone[Offset(i, j, textLen)]
      modifies `memo
      ensures Valid() && ans == Plain(text, pat, i, j)
    {
      NoStarLeft(text, pat, i, j);
      var offset := Offset(i, j, textLen);
      OffsetUnique(i, j, textLen, patLen);
      if patLen - j != textLen - i {
        memo := memo[offset := false];
        return false;
      }
      if j > ToUnsigned(lastDot) {
        ans := text[i..] == pat[j..];
        SameShapeIsEqual(text, pat, i, j);
      } else {
        ans := MatchDot(i, j);
      }
      memo := memo[offset := ans];
    }

    /** `dp`. The answer is that of the plain recursion whatever is already in the tables, the
        tables stay right, and the work done is paid for by newly marked cells. */
    method Dp(i: nat, j: nat) returns (ans: bool)
      requires Valid() && i < UINT32_VALUES && j < UINT32_VALUES
      modifies `memo, `memoDone, `calls, `entries
      ensures Valid() && ans == Plain(text, pat, i, j)
      ensures Marked(old(memoDone), memoDone, Cell(i, j))
      ensures entries - old(entries) == Count(memoDone) - Count(old(memoDone))
      ensures calls - old(calls) <= 1 + 2 * (Count(memoDone) - Count(old(memoDone)))
      decreases Remaining(i, j), 3
    {
      calls := calls + 1;
      if i > textLen || j > patLen {
        return false;
      }
      var offset := Offset(i, j, textLen);
      OffsetUnique(i, j, textLen, patLen);
      if memoDone[offset] {
        return memo[offset];
      }
      if j > ToUnsigned(lastStar) {
        ans := Shortcut(i, j);
      } else {
        ans := General(i, j);
      }
    }

    /** The flat index of a cell, before wrapping. */
    ghost function Cell(i: nat, j: nat): nat
      reads this
    {
      i + j * (textLen + 1)
    }

    lemma CellFurther(i: nat, j: nat)
      ensures Cell(i, j) < Cell(i, j + 2) && Cell(i, j) < Cell(i + 1, j + 1)
    {
    }

    ghost function Remaining(i: nat, j: nat): nat
      reads this
    {
      if i > textLen || j > patLen then 0 else textLen + patLen + 1 - i - j
    }

    /** The part of `dp` after the shortcut. */
    method General(i: nat, j: nat) returns (ans: bool)
      requires Valid() && i <= textLen && j <= patLen
      requires Offset(i, j, textLen) < |memoDone| && !memoDone[Offset(i, j, textLen)]
      modifies `memo, `memoDone, `calls, `entries
      ensures Valid() && ans == Plain(text, pat, i, j)
      ensures Marked(old(memoDone), memoDone, Cell(i, j))
      ensures entries - old(entries) == Count(memoDone) - Count(old(memoDone))
      ensures calls - old(calls) <= 2 * (Count(memoDone) - Count(old(memoDone)))
      decreases Remaining(i, j), 2
    {
      entries := entries + 1;
      if j == patLen {
        ans := i == textLen;
      } else {
        ans := Descend(i, j);
      }
      OffsetUnique(i, j, textLen, patLen);
      Mark(i, j, ans);
    }

    /** The recursive calls of `dp`: they mark only cells further on in the table. */
    method Descend(i: nat, j: nat) returns (ans: bool)
      requires Valid() && i <= textLen && j < patLen
      modifies `memo, `memoDone, `calls, `entries
      ensures Valid() && ans == Plain(text, pat, i, j)
      ensures Marked(old(memoDone), memoDone, Cell(i, j) + 1)
      ensures entries - old(entries) == Count(memoDone) - Count(old(memoDone))
      ensures calls - old(calls) <= 2 + 2 * (Count(memoDone) - Count(old(memoDone)))
      decreases Remaining(i, j), 1
    {
      var firstMatch := At(text, i) == At(pat, j) || At(pat, j) == '.';
      if j + 1 < patLen && At(pat, j + 1) == '*' {
        ans := DescendStar(i, j, firstMatch);
      } else {
        ans := DescendOne(i, j, firstMatch);
      }
    }

    /** The call for an atom that takes exactly one character. */
    method DescendOne(i: nat, j: nat, firstMatch: bool) returns (ans: bool)
      requires Valid() && i <= textLen && j < patLen
      modifies `memo, `memoDone, `calls, `entries
      ensures Valid() && ans == (firstMatch && Plain(text, pat, i + 1, j + 1))
      ensures Marked(old(memoDone), memoDone, Cell(i, j) + 1)
      ensures entries - old(entries) == Count(memoDone) - Count(old(memoDone))
      ensures calls - old(calls) <= 2 + 2 * (Count(memoDone) - Count(old(memoDone)))
      decreases Remaining(i, j), 0
    {
      CellFurther(i, j);
      ans := firstMatch;
      if firstMatch {
        ans := Dp(i + 1, j + 1);
      }
    }

    /** The two calls for a starred atom: take a character and stay, or leave the atom. */
    method DescendStar(i: nat, j: nat, firstMatch: bool) returns (ans: bool)
      requires Valid() && i <= textLen && j + 1 < patLen
      modifies `memo, `memoDone, `calls, `entries
      ensures Valid()
      ensures ans == ((firstMatch && Plain(text, pat, i + 1, j)) || Plain(text, pat, i, j + 2))
      ensures Marked(old(memoDone), memoDone, Cell(i, j) + 1)
      ensures entries - old(entries) == Count(memoDone) - Count(old(memoDone))
      ensures calls - old(calls) <= 2 + 2 * (Count(memoDone) - Count(old(memoDone)))
      decreases Remaining(i, j), 0
    {
      ans := false;
      if firstMatch {
        ans := Dp(i + 1, j);
      }
      if !ans {
        CellFurther(i, j);
        ghost var between := memoDone;
        ans := Dp(i, j + 2);
        MarkedOn(old(memoDone), between, memoDone, Cell(i, j) + 1, Cell(i, j + 2));
      }
    }

    /** A matcher built for a text and a pattern, asked once. */
    method Match(textIn: CString, patIn: CString) returns (ans: bool)
      requires Fits(|textIn|, |patIn|)
      modifies this
      ensures ans <==> Matches(textIn, patIn)
      ensures entries <= (|textIn| + 1) * (|patIn| + 1)
      ensures calls <= 1 + 2 * ((|textIn| + 1) * (|patIn| + 1))
    {
      Init(textIn, patIn);
      CountNone(memoDone);
      ans := Dp(0, 0);
      PlainIsMatching(text, pat, 0, 0);
      assert text[0..] == text && pat[0..] == pat;
    }
  }

  /** Without dots, agreeing is being equal. */
  lemma SameShapeIsEqual(text: string, pat: string, i: nat, j: nat)
    requires i <= |text| && j <= |pat| && |text| - i == |pat| - j
    requires forall k :: j <= k < |pat| ==> pat[k] != '.'
    ensures SameShape(text, pat, i, j) <==> text[i..] == pat[j..]
  {
    if SameShape(text, pat, i, j) {
      forall k | 0 <= k < |text| - i
        ensures text[i..][k] == pat[j..][k]
      {
        assert Agree(text, pat, i + k, i, j);
      }
    }
    if text[i..] == pat[j..] {
      forall k | i <= k < |text|
        ensures Agree(text, pat, k, i, j)
      {
        assert text[i..][k - i] == pat[j..][k - i];
      }
    }
  }
}
