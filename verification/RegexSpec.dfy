/** What a pattern of literals, `.` and `x*` means, and the plain recursion that decides it. */
module RegexSpec {

  /** A C string without its terminator. */
  type CString = s: string | '\0' !in s

  /** One unit of a pattern. A `*` that follows no atom is a literal. */
  datatype Atom = Atom(c: char, star: bool) {
    predicate Accepts(x: char) {
      c == '.' || c == x
    }

    /** A starred atom takes any number of characters it accepts, another exactly one. */
    predicate Takes(segment: string) {
      (forall k :: 0 <= k < |segment| ==> Accepts(segment[k])) && (!star ==> |segment| == 1)
    }
  }

  function Parse(pat: string): seq<Atom> {
    if pat == [] then []
    else if |pat| > 1 && pat[1] == '*' then [Atom(pat[0], true)] + Parse(pat[2..])
    else [Atom(pat[0], false)] + Parse(pat[1..])
  }

  function Flatten(segments: seq<string>): string {
    if segments == [] then [] else segments[0] + Flatten(segments[1..])
  }

  ghost predicate Splits(text: string, atoms: seq<Atom>, segments: seq<string>) {
    && |segments| == |atoms|
    && Flatten(segments) == text
    && forall k :: 0 <= k < |atoms| ==> atoms[k].Takes(segments[k])
  }

  /** The text splits into segments that the atoms of the pattern take one for one. */
  ghost predicate Matches(text: string, pat: string) {
    exists segments :: Splits(text, Parse(pat), segments)
  }

  /** `s[i]` as C reads it: the terminator follows the last character. */
  function At(s: string, i: nat): char {
    if i < |s| then s[i] else '\0'
  }

  /** The recursion of `dp` without its tables and without its shortcut. */
  predicate Plain(text: CString, pat: CString, i: nat, j: nat)
    decreases if i > |text| || j > |pat| then 0 else |text| + |pat| + 1 - i - j
  {
    if i > |text| || j > |pat| then false
    else if j == |pat| then i == |text|
    else
      var firstMatch := At(text, i) == At(pat, j) || At(pat, j) == '.';
      if j + 1 < |pat| && At(pat, j + 1) == '*' then
        (firstMatch && Plain(text, pat, i + 1, j)) || Plain(text, pat, i, j + 2)
      else
        firstMatch && Plain(text, pat, i + 1, j + 1)
  }

  lemma {:induction false} PlainSound(text: CString, pat: CString, i: nat, j: nat) returns (segments: seq<string>)
    requires Plain(text, pat, i, j)
    ensures i <= |text| && j <= |pat| && Splits(text[i..], Parse(pat[j..]), segments)
    decreases |text| + |pat| + 1 - i - j
  {
    var rest := pat[j..];
    if j == |pat| {
      segments := [];
    } else if j + 1 < |pat| && pat[j + 1] == '*' {
      assert rest[2..] == pat[j + 2..];
      if (At(text, i) == pat[j] || pat[j] == '.') && Plain(text, pat, i + 1, j) {
        var more := PlainSound(text, pat, i + 1, j);
        segments := [[text[i]] + more[0]] + more[1..];
        assert text[i..] == [text[i]] + text[i + 1..];
        assert Flatten(segments) == [text[i]] + Flatten(more);
      } else {
        var more := PlainSound(text, pat, i, j + 2);
        segments := [[]] + more;
        assert segments[1..] == more;
      }
    } else {
      assert rest[1..] == pat[j + 1..];
      var more := PlainSound(text, pat, i + 1, j + 1);
      segments := [[text[i]]] + more;
      assert segments[1..] == more;
      assert text[i..] == [text[i]] + text[i + 1..];
    }
  }

  lemma {:induction false} PlainComplete(text: CString, pat: CString, i: nat, j: nat, segments: seq<string>)
    requires i <= |text| && j <= |pat| && Splits(text[i..], Parse(pat[j..]), segments)
    ensures Plain(text, pat, i, j)
    decreases |text| + |pat| + 1 - i - j
  {
    var rest := pat[j..];
    if j < |pat| {
      var atoms := Parse(rest);
      assert atoms[0].Takes(segments[0]);
      var head, tail := segments[0], segments[1..];
      assert text[i..] == head + Flatten(tail);
      forall k | 0 <= k < |tail|
        ensures atoms[1..][k].Takes(tail[k])
      {
        assert atoms[k + 1].Takes(segments[k + 1]);
      }
      if j + 1 < |pat| && pat[j + 1] == '*' {
        assert rest[2..] == pat[j + 2..] && atoms[1..] == Parse(pat[j + 2..]);
        if head == [] {
          PlainComplete(text, pat, i, j + 2, tail);
        } else {
          assert text[i] == head[0] && atoms[0].Accepts(head[0]);
          var less := [head[1..]] + tail;
          assert less[1..] == tail;
          assert text[i + 1..] == text[i..][1..] == head[1..] + Flatten(tail);
          PlainComplete(text, pat, i + 1, j, less);
        }
      } else {
        assert rest[1..] == pat[j + 1..] && atoms[1..] == Parse(pat[j + 1..]);
        assert text[i] == head[0] && atoms[0].Accepts(head[0]);
        assert text[i + 1..] == text[i..][1..] == Flatten(tail);
        PlainComplete(text, pat, i + 1, j + 1, tail);
      }
    }
  }

  /** The plain recursion decides matching, for every pair of suffixes. */
  lemma PlainIsMatching(text: CString, pat: CString, i: nat, j: nat)
    requires i <= |text| && j <= |pat|
    ensures Plain(text, pat, i, j) <==> Matches(text[i..], pat[j..])
  {
    if Plain(text, pat, i, j) {
      var segments := PlainSound(text, pat, i, j);
    }
    if Matches(text[i..], pat[j..]) {
      var segments :| Splits(text[i..], Parse(pat[j..]), segments);
      PlainComplete(text, pat, i, j, segments);
    }
  }

  /** Character `k` of the text agrees with the character that faces it in the pattern when `i`
      faces `j`. */
  predicate Agree(text: string, pat: string, k: int, i: int, j: int)
    requires 0 <= k < |text|
  {
    0 <= k - i + j < |pat| && (text[k] == pat[k - i + j] || pat[k - i + j] == '.')
  }

  /** Suffixes of one length that agree character by character. */
  predicate SameShape(text: string, pat: string, i: nat, j: nat) {
    |text| - i == |pat| - j && forall k :: i <= k < |text| ==> Agree(text, pat, k, i, j)
  }

  /** Where no star is left, matching compares character by character. */
  lemma {:induction false} NoStarLeft(text: CString, pat: CString, i: nat, j: nat)
    requires i <= |text| && j <= |pat|
    requires forall k :: j <= k < |pat| ==> pat[k] != '*'
    ensures Plain(text, pat, i, j) <==> SameShape(text, pat, i, j)
    decreases |pat| - j
  {
    if j < |pat| {
      if i < |text| {
        NoStarLeft(text, pat, i + 1, j + 1);
        SameShapeStep(text, pat, i, j);
      } else {
        assert !Plain(text, pat, i + 1, j + 1);
      }
    }
  }

  lemma SameShapeStep(text: string, pat: string, i: nat, j: nat)
    requires i < |text| && j < |pat|
    ensures SameShape(text, pat, i, j) <==> Agree(text, pat, i, i, j) && SameShape(text, pat, i + 1, j + 1)
  {
    forall k {:trigger Agree(text, pat, k, i, j)} {:trigger Agree(text, pat, k, i + 1, j + 1)} | 0 <= k < |text|
      ensures Agree(text, pat, k, i, j) == Agree(text, pat, k, i + 1, j + 1)
    {
    }
  }

  // ----- Concatenation -----

  lemma {:induction false} ParseConcat(p1: string, p2: string)
    requires p2 != [] ==> p2[0] != '*'
    ensures Parse(p1 + p2) == Parse(p1) + Parse(p2)
    decreases |p1|
  {
    if p1 == [] {
      assert p1 + p2 == p2;
    } else if |p1| > 1 && p1[1] == '*' {
      assert (p1 + p2)[2..] == p1[2..] + p2;
      ParseConcat(p1[2..], p2);
    } else {
      assert (p1 + p2)[1..] == p1[1..] + p2;
      ParseConcat(p1[1..], p2);
    }
  }

  lemma {:induction false} FlattenConcat(s1: seq<string>, s2: seq<string>)
    ensures Flatten(s1 + s2) == Flatten(s1) + Flatten(s2)
    decreases |s1|
  {
    if s1 == [] {
      assert s1 + s2 == s2;
    } else {
      assert (s1 + s2)[1..] == s1[1..] + s2;
      FlattenConcat(s1[1..], s2);
    }
  }

  /** Matching pairs may be put end to end, unless the second pattern begins with `*`. */
  lemma MatchesConcat(t1: string, p1: string, t2: string, p2: string)
    requires Matches(t1, p1) && Matches(t2, p2)
    requires p2 != [] ==> p2[0] != '*'
    ensures Matches(t1 + t2, p1 + p2)
  {
    var s1 :| Splits(t1, Parse(p1), s1);
    var s2 :| Splits(t2, Parse(p2), s2);
    ParseConcat(p1, p2);
    FlattenConcat(s1, s2);
    assert Splits(t1 + t2, Parse(p1 + p2), s1 + s2);
  }

  /** The same for what `dp` accepts. */
  lemma AcceptsConcat(t1: CString, p1: CString, t2: CString, p2: CString)
    requires Plain(t1, p1, 0, 0) && Plain(t2, p2, 0, 0)
    requires p2 != [] ==> p2[0] != '*'
    ensures Plain(t1 + t2, p1 + p2, 0, 0)
  {
    PlainIsMatching(t1, p1, 0, 0);
    PlainIsMatching(t2, p2, 0, 0);
    assert t1[0..] == t1 && p1[0..] == p1 && t2[0..] == t2 && p2[0..] == p2;
    MatchesConcat(t1, p1, t2, p2);
    PlainIsMatching(t1 + t2, p1 + p2, 0, 0);
    assert (t1 + t2)[0..] == t1 + t2 && (p1 + p2)[0..] == p1 + p2;
  }

  /** The restriction is needed: a leading `*` is a literal that concatenation turns into a star. */
  lemma StarDoesNotConcat()
    ensures Matches("a", "a") && Matches("*", "*") && !Matches("a" + "*", "a" + "*")
  {
    assert Splits("a", Parse("a"), ["a"]) by {
      assert Flatten(["a"]) == "a" + Flatten([]);
    }
    assert Splits("*", Parse("*"), ["*"]) by {
      assert Flatten(["*"]) == "*" + Flatten([]);
    }
    var both := "a*";
    assert "a" + "*" == both;
    assert !Plain(both, both, 1, 0);
    assert !Plain(both, both, 0, 0);
    PlainIsMatching(both, both, 0, 0);
    assert both[0..] == both;
  }

  /** The pieces from which `make_random_match` builds a text and a pattern. */
  datatype Piece = Literal(c: char) | Dot(c: char) | Repeated(c: char, times: nat) {
    predicate Valid() {
      'a' <= c <= 'z' || 'A' <= c <= 'Z' || '0' <= c <= '9'
    }

    function Text(): string {
      if Repeated? then seq(times, _ => c) else [c]
    }

    function Pattern(): string {
      match this
      case Literal(c) => [c]
      case Dot(_) => "."
      case Repeated(c, _) => [c, '*']
    }
  }

  function TextOf(pieces: seq<Piece>): string {
    if pieces == [] then [] else TextOf(pieces[..|pieces| - 1]) + pieces[|pieces| - 1].Text()
  }

  function PatternOf(pieces: seq<Piece>): string {
    if pieces == [] then [] else PatternOf(pieces[..|pieces| - 1]) + pieces[|pieces| - 1].Pattern()
  }

  lemma PieceMatches(piece: Piece)
    requires piece.Valid()
    ensures Matches(piece.Text(), piece.Pattern())
  {
    assert piece.Pattern()[|piece.Pattern()|..] == [];
    assert Parse(piece.Pattern()) == [Atom(piece.Pattern()[0], piece.Repeated?)];
    var segments := [piece.Text()];
    assert Flatten(segments) == piece.Text() + Flatten([]);
    assert Splits(piece.Text(), Parse(piece.Pattern()), segments);
  }

  /** Every pair that the generator can build matches. */
  lemma {:induction false} GeneratedMatches(pieces: seq<Piece>)
    requires forall k :: 0 <= k < |pieces| ==> pieces[k].Valid()
    ensures Matches(TextOf(pieces), PatternOf(pieces))
    decreases |pieces|
  {
    if pieces == [] {
      assert Splits([], Parse([]), []);
    } else {
      var last := pieces[|pieces| - 1];
      GeneratedMatches(pieces[..|pieces| - 1]);
      PieceMatches(last);
      MatchesConcat(TextOf(pieces[..|pieces| - 1]), PatternOf(pieces[..|pieces| - 1]), last.Text(), last.Pattern());
    }
  }
}
