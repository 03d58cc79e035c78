/** `buildDuplicateDiffMarkup` of PortableOutput.tsx. */
module DuplicateDiff {
  import opened Text
  import opened HtmlEscape
  import opened Subsequence
  import opened Numbers
  import Marks

  const MARK_OPEN := "<mark class=\"rounded bg-amber-200 px-0.5 text-amber-950\">"
  const MARK_CLOSE := "</mark>"
  const MARK := Marks.Tags(MARK_OPEN, MARK_CLOSE)

  // ----- Tokens -----

  /** The length of the run of spaces, or of other characters, that `s` starts with. */
  function RunLength(s: string): (n: nat)
    requires s != ""
    ensures 1 <= n <= |s|
  {
    if |s| == 1 || IsSpace(s[1]) != IsSpace(s[0]) then 1 else 1 + RunLength(s[1..])
  }

  function Runs(s: string): seq<string>
    decreases |s|
  {
    if s == "" then [] else [s[..RunLength(s)]] + Runs(s[RunLength(s)..])
  }

  /** Alternating runs; a text without a match is its own only token. */
  function Tokens(s: string): seq<string> {
    if s == "" then [""] else Runs(s)
  }

  predicate IsBlank(token: string) {
    token != "" && AllSpace(token)
  }

  const PUNCTUATION := ".,;:()[]{}\"'"

  function StripPunctuation(s: string): string {
    if s == "" then ""
    else (if s[0] in PUNCTUATION then "" else [s[0]]) + StripPunctuation(s[1..])
  }

  function Normalized(token: string): string {
    Lower(StripPunctuation(token))
  }

  predicate IsWord(token: string) {
    Normalized(token) != "" && !IsBlank(token)
  }

  /** The token indices of the words from index `i` on. */
  function WordIndices(tokens: seq<string>, i: nat): (p: seq<nat>)
    requires i <= |tokens|
    ensures forall k :: 0 <= k < |p| ==> i <= p[k] < |tokens| && IsWord(tokens[p[k]])
    decreases |tokens| - i
  {
    if i == |tokens| then []
    else (if IsWord(tokens[i]) then [i] else []) + WordIndices(tokens, i + 1)
  }

  function TextWords(text: string): (x: seq<string>)
    ensures |x| == |WordIndices(Tokens(text), 0)|
  {
    var tokens := Tokens(text);
    var p := WordIndices(tokens, 0);
    seq(|p|, k requires 0 <= k < |p| => Normalized(tokens[p[k]]))
  }

  /** Unlike the text side, the comparison side keeps its blank tokens. */
  function NonEmptyNormalized(tokens: seq<string>): seq<string> {
    if tokens == [] then []
    else (if Normalized(tokens[0]) != "" then [Normalized(tokens[0])] else []) + NonEmptyNormalized(tokens[1..])
  }

  function CompareWords(text: string): seq<string> {
    NonEmptyNormalized(Tokens(text))
  }

  /** The words of the comparison side, blanks left out. */
  ghost function CompareTrueWords(text: string): seq<string> {
    Only(CompareWords(text), NoSpace)
  }

  // ----- Rendering -----

  predicate IsDifference(tokens: seq<string>, matched: set<nat>, i: nat)
    requires i < |tokens|
  {
    IsWord(tokens[i]) && i !in matched
  }

  function Piece(tokens: seq<string>, matched: set<nat>, i: nat): string
    requires i < |tokens|
  {
    if IsBlank(tokens[i]) then tokens[i]
    else if IsDifference(tokens, matched, i) then MARK_OPEN + EscapeHtml(tokens[i]) + MARK_CLOSE
    else EscapeHtml(tokens[i])
  }

  function Html(tokens: seq<string>, matched: set<nat>, i: nat): string
    requires i <= |tokens|
    decreases |tokens| - i
  {
    if i == |tokens| then "" else Piece(tokens, matched, i) + Html(tokens, matched, i + 1)
  }

  function Differences(tokens: seq<string>, matched: set<nat>, i: nat): nat
    requires i <= |tokens|
    decreases |tokens| - i
  {
    if i == |tokens| then 0
    else (if IsDifference(tokens, matched, i) then 1 else 0) + Differences(tokens, matched, i + 1)
  }

  /** The indices of the tokens that the walk through the table for these words matches. */
  ghost function MatchedWith(text: string, words: seq<string>): set<nat> {
    var p := WordIndices(Tokens(text), 0);
    set k | k in Traceback(TextWords(text), words, 0, 0) && k.0 < |p| :: p[k.0]
  }

  ghost function MatchedIndices(text: string, compare: string): set<nat> {
    MatchedWith(text, CompareWords(compare))
  }

  ghost function DiffHtml(text: string, compare: string): string {
    Html(Tokens(text), MatchedIndices(text, compare), 0)
  }

  ghost function DiffCount(text: string, compare: string): nat {
    Differences(Tokens(text), MatchedIndices(text, compare), 0)
  }

  // ----- Tokens are the text, cut between spaces and other characters -----

  lemma {:induction false} RunIsUniform(s: string)
    requires s != ""
    ensures AllSpace(s[..RunLength(s)]) || NoSpace(s[..RunLength(s)])
    ensures forall k :: 0 <= k < RunLength(s) ==> IsSpace(s[k]) == IsSpace(s[0])
    decreases |s|
  {
    if RunLength(s) > 1 {
      RunIsUniform(s[1..]);
      forall k | 0 <= k < RunLength(s)
        ensures IsSpace(s[k]) == IsSpace(s[0])
      {
        if k > 0 {
          assert s[k] == s[1..][k - 1];
        }
      }
    }
  }

  predicate Uniform(token: string) {
    token != "" && (AllSpace(token) || NoSpace(token))
  }

  ghost predicate AllUniform(tokens: seq<string>) {
    forall i :: 0 <= i < |tokens| ==> Uniform(tokens[i])
  }

  lemma {:induction false} UniformFirst(token: string, rest: seq<string>)
    requires Uniform(token) && AllUniform(rest)
    ensures AllUniform([token] + rest) && Concat([token] + rest) == token + Concat(rest)
  {
    hide Uniform;
    assert ([token] + rest)[1..] == rest;
  }

  lemma {:induction false} NothingToCut()
    ensures Concat([]) == "" && AllUniform([])
  {
  }

  lemma {:induction false} FirstRun(s: string)
    requires s != ""
    ensures Uniform(s[..RunLength(s)])
  {
    RunIsUniform(s);
    hide AllSpace, NoSpace, RunLength;
  }

  lemma {:induction false} RunsCutTheText(s: string)
    ensures Concat(Runs(s)) == s && AllUniform(Runs(s))
    decreases |s|
  {
    hide Uniform, RunLength, Concat;
    if s == "" {
      NothingToCut();
    } else {
      hide AllUniform;
      var n := RunLength(s);
      FirstRun(s);
      RunsCutTheText(s[n..]);
      UniformFirst(s[..n], Runs(s[n..]));
      assert s == s[..n] + s[n..];
    }
  }

  lemma {:induction false} TokensCutTheText(s: string)
    ensures Concat(Tokens(s)) == s
    ensures forall i :: 0 <= i < |Tokens(s)| ==> IsBlank(Tokens(s)[i]) || NoSpace(Tokens(s)[i])
  {
    RunsCutTheText(s);
    if s == "" {
      assert [""][1..] == [];
      assert Concat([]) == "";
    }
  }

  // ----- Words and blanks never match -----

  lemma {:induction false} StripPunctuationKeeps(s: string)
    ensures forall c :: c in StripPunctuation(s) ==> c in s
  {
    if s != "" {
      StripPunctuationKeeps(s[1..]);
    }
  }

  lemma {:induction false} NormalizedCons(c: char, s: string)
    ensures Normalized([c] + s) == (if c in PUNCTUATION then "" else [LowerChar(c)]) + Normalized(s)
  {
    assert ([c] + s)[1..] == s;
    assert StripPunctuation([c] + s) == (if c in PUNCTUATION then "" else [c]) + StripPunctuation(s);
    assert Lower([c] + StripPunctuation(s)) == [LowerChar(c)] + Lower(StripPunctuation(s));
    hide StripPunctuation, LowerChar;
    assert "" + StripPunctuation(s) == StripPunctuation(s) && "" + Normalized(s) == Normalized(s);
  }

  lemma {:induction false} SpaceStays(c: char)
    requires IsSpace(c)
    ensures c !in PUNCTUATION && LowerChar(c) == c
  {
  }

  lemma {:induction false} SpacesAreNotPunctuation(s: string)
    requires AllSpace(s)
    ensures Normalized(s) == s
    decreases |s|
  {
    if s != "" {
      assert s[0] in s && s == [s[0]] + s[1..];
      SpaceStays(s[0]);
      SpacesAreNotPunctuation(s[1..]);
      hide Normalized, IsSpace, LowerChar;
      NormalizedCons(s[0], s[1..]);
    }
  }

  lemma {:induction false} NormalizedHasNoSpace(token: string)
    requires NoSpace(token)
    ensures NoSpace(Normalized(token))
  {
    StripPunctuationKeeps(token);
    var s := StripPunctuation(token);
    forall c | c in Lower(s)
      ensures !IsSpace(c)
    {
      var k :| 0 <= k < |Lower(s)| && Lower(s)[k] == c;
      assert s[k] in s;
    }
  }

  lemma {:induction false} TextWordsHaveNoSpace(text: string)
    ensures forall w :: w in TextWords(text) ==> NoSpace(w)
  {
    var tokens := Tokens(text);
    var p := WordIndices(tokens, 0);
    TokensCutTheText(text);
    forall k | 0 <= k < |p|
      ensures NoSpace(Normalized(tokens[p[k]]))
    {
      NormalizedHasNoSpace(tokens[p[k]]);
    }
  }

  /** The blank tokens left on the comparison side never change how many words match. */
  lemma {:induction false} BlanksAreNeutral(text: string, compare: string)
    ensures Lcs(TextWords(text), CompareWords(compare)) == Lcs(TextWords(text), CompareTrueWords(compare))
  {
    TextWordsHaveNoSpace(text);
    LcsOnly(TextWords(text), CompareWords(compare), NoSpace);
  }

  lemma {:induction false} ExampleTokens()
    ensures Tokens("a a") == ["a", " ", "a"] && Tokens(" a") == [" ", "a"]
  {
    assert Runs(['a'] + "") == [['a']] + Runs("");
    assert Runs([' '] + "a") == [[' ']] + Runs("a");
    assert Runs(['a'] + " a") == [['a']] + Runs(" a");
    hide Runs;
    assert "a" + "" == "a" && " " + "a" == " a" && "a" + " a" == "a a";
  }

  lemma {:induction false} ExampleWords()
    ensures Normalized("a") == "a" && Normalized(" ") == " " && IsWord("a") && !IsWord(" ")
  {
    assert StripPunctuation("a") == "a" && Lower("a") == "a";
    SpacesAreNotPunctuation(" ");
    assert "a"[0] == 'a' && 'a' in "a" && !IsSpace('a');
  }

  lemma {:induction false} ExampleSides()
    ensures WordIndices(["a", " ", "a"], 0) == [0, 2] && TextWords("a a") == ["a", "a"]
    ensures CompareWords(" a") == [" ", "a"] && CompareTrueWords(" a") == ["a"]
  {
    ExampleTokens();
    ExampleWords();
    hide Tokens, Normalized;
    var t := ["a", " ", "a"];
    assert WordIndices(t, 3) == [] && WordIndices(t, 2) == [2] && WordIndices(t, 1) == [2];
    assert [" ", "a"][1..] == ["a"] && ["a"][1..] == [];
    assert NonEmptyNormalized(["a"]) == ["a"];
    assert " "[0] in " " && !NoSpace(" ");
    assert Only(["a"], NoSpace) == ["a"];
  }

  lemma {:induction false} LettersDiffer()
    ensures "a" != " "
  {
    assert "a"[0] != " "[0];
  }

  /** A walk that matches one position, against words of which one is equal to it, matches that word. */
  lemma {:induction false} OnlyMatch(x: seq<string>, y: seq<string>, i: nat, j: nat)
    requires Walk(x, y, 0) == [i] && i < |x| && forall l :: 0 <= l < |y| && y[l] == x[i] ==> l == j
    ensures Traceback(x, y, 0, 0) == [(i, j)]
  {
    var m := Traceback(x, y, 0, 0);
    hide Traceback, Walk, Lcs;
    WalkIsTraceback(x, y, 0, 0);
    TracebackIsLongest(x, y, 0, 0);
    assert x[0..] == x && y[0..] == y;
    assert |m| == 1 && m[0].0 == Firsts(m)[0];
  }

  /** They do change which of two equal words is left unmarked: the second here, the first without the blank. */
  lemma {:induction false} BlanksMoveTheMark()
    ensures Traceback(TextWords("a a"), CompareWords(" a"), 0, 0) == [(1, 1)]
    ensures Traceback(TextWords("a a"), CompareTrueWords(" a"), 0, 0) == [(0, 0)]
  {
    ExampleSides();
    hide TextWords, CompareWords, CompareTrueWords, Walk;
    var x := ["a", "a"];
    LettersDiffer();
    var f := WalkFirst(x, "a", 0);
    var l := WalkLast(x, " ", "a", 0);
    OnlyMatch(x, ["a"], f, 0);
    OnlyMatch(x, [" ", "a"], l, 1);
  }

  // ----- When the blanks do not matter -----

  lemma {:induction false} LoweredIsNoPunctuation(s: string)
    requires forall c :: c in s ==> c !in PUNCTUATION
    ensures Normalized(Lower(s)) == Lower(s)
    decreases |s|
  {
    if s != "" {
      assert s[0] in s;
      LoweredIsNoPunctuation(s[1..]);
      LoweredStays(s[0]);
      hide Normalized, LowerChar;
      assert Lower(s) == [LowerChar(s[0])] + Lower(s[1..]);
      NormalizedCons(LowerChar(s[0]), Lower(s[1..]));
    }
  }

  lemma {:induction false} LoweredStays(c: char)
    requires c !in PUNCTUATION
    ensures LowerChar(LowerChar(c)) == LowerChar(c) && LowerChar(c) !in PUNCTUATION
  {
  }

  lemma {:induction false} StripLeavesNone(s: string)
    ensures forall c :: c in StripPunctuation(s) ==> c !in PUNCTUATION
  {
    if s != "" {
      StripLeavesNone(s[1..]);
    }
  }

  /** A normalised word is its own normal form. */
  lemma {:induction false} NormalizedTwice(token: string)
    ensures Normalized(Normalized(token)) == Normalized(token)
  {
    StripLeavesNone(token);
    LoweredIsNoPunctuation(StripPunctuation(token));
  }

  lemma {:induction false} OneRun(s: string)
    requires s != "" && NoSpace(s)
    ensures RunLength(s) == |s|
    decreases |s|
  {
    assert s[0] in s;
    if |s| > 1 {
      assert s[1] in s;
      OneRun(s[1..]);
    }
  }

  lemma {:induction false} BlankThenWord(w: string)
    requires w != "" && NoSpace(w) && Normalized(w) == w
    ensures CompareWords(" " + w) == [" ", w] && CompareTrueWords(" " + w) == [w]
  {
    var s := " " + w;
    OneRun(w);
    assert w[0] in w && s[1] == w[0] && s[..1] == " " && s[1..] == w && w[..|w|] == w && w[|w|..] == "";
    assert Runs(w) == [w] + Runs("");
    assert Runs(s) == [" "] + Runs(w);
    SpacesAreNotPunctuation(" ");
    hide Runs, Normalized;
    assert Tokens(s) == [" ", w] && [" ", w][1..] == [w] && [w][1..] == [];
    assert NonEmptyNormalized([w]) == [w];
    assert " "[0] in " " && !NoSpace(" ");
    assert Only([w], NoSpace) == [w];
  }

  lemma {:induction false} SameWalkSameMarks(text: string, y: seq<string>, z: seq<string>)
    requires Walk(TextWords(text), y, 0) == Walk(TextWords(text), z, 0)
    ensures MatchedWith(text, y) == MatchedWith(text, z)
  {
    MatchedByWalk(text, y);
    MatchedByWalk(text, z);
    hide *;
  }

  ghost function WalkedIndices(p: seq<nat>, walk: seq<nat>): set<nat> {
    set n | n in walk && n < |p| :: p[n]
  }

  lemma {:induction false} MatchedByWalk(text: string, y: seq<string>)
    ensures MatchedWith(text, y) == WalkedIndices(WordIndices(Tokens(text), 0), Walk(TextWords(text), y, 0))
  {
    var x, p := TextWords(text), WordIndices(Tokens(text), 0);
    var m := Traceback(x, y, 0, 0);
    WalkIsTraceback(x, y, 0, 0);
    assert x[0..] == x && y[0..] == y;
    hide Tokens, TextWords, WordIndices, Traceback, Walk;
    assert forall n :: n in Firsts(m) <==> exists k :: k in m && k.0 == n by {
      forall k | k in m
        ensures k.0 in Firsts(m)
      {
        var i :| 0 <= i < |m| && m[i] == k;
        assert Firsts(m)[i] == k.0;
      }
    }
  }

  /** A word that repeats is matched at another place when a blank comes before it. */
  lemma {:induction false} RepeatedWordMoves(text: string, k: nat, l: nat)
    requires k < l < |TextWords(text)| && TextWords(text)[k] == TextWords(text)[l]
    ensures var compare := " " + TextWords(text)[k];
            MatchedIndices(text, compare) != MatchedWith(text, CompareTrueWords(compare))
  {
    var x, p := TextWords(text), WordIndices(Tokens(text), 0);
    var w := x[k];
    TextWordsHaveNoSpace(text);
    assert w in x && NoSpace(w);
    assert w == Normalized(Tokens(text)[p[k]]);
    NormalizedTwice(Tokens(text)[p[k]]);
    BlankThenWord(w);
    assert " "[0] in " " && !NoSpace(" ");
    WalksDiffer(x, " ", k, l);
    var a: nat, b: nat :| a != b && a < |x| && b < |x| && Walk(x, [w], 0) == [a] && Walk(x, [" ", w], 0) == [b];
    MatchedByWalk(text, [w]);
    MatchedByWalk(text, [" ", w]);
    WordIndicesIncrease(Tokens(text), 0);
    hide *;
    OtherPlace(p, a, b);
  }

  lemma {:induction false} OtherPlace(p: seq<nat>, a: nat, b: nat)
    requires Increasing(p) && a < |p| && b < |p| && a != b
    ensures WalkedIndices(p, [a]) != WalkedIndices(p, [b])
  {
    assert a in [a] && b in [b];
    assert p[a] in WalkedIndices(p, [a]) && p[a] !in WalkedIndices(p, [b]);
  }

  /** Blank comparison tokens never change which words are matched if and only if no word of the text repeats. */
  lemma {:induction false} BlanksKeepTheMarks(text: string)
    ensures (forall compare :: MatchedIndices(text, compare) == MatchedWith(text, CompareTrueWords(compare)))
            <==> NoneRepeated(TextWords(text))
  {
    var x := TextWords(text);
    TextWordsHaveNoSpace(text);
    hide *;
    hide TextWords;
    if NoneRepeated(x) {
      forall compare
        ensures MatchedIndices(text, compare) == MatchedWith(text, CompareTrueWords(compare))
      {
        MarksStay(text, compare);
      }
    } else {
      SomeRepeated(x);
      var k, l :| 0 <= k < l < |x| && x[k] == x[l];
      RepeatedWordMoves(text, k, l);
    }
  }

  lemma {:induction false} SomeRepeated(x: seq<string>)
    requires !NoneRepeated(x)
    ensures exists k, l :: 0 <= k < l < |x| && x[k] == x[l]
  {
  }

  lemma {:induction false} MarksStay(text: string, compare: string)
    requires NoneRepeated(TextWords(text))
    ensures MatchedIndices(text, compare) == MatchedWith(text, CompareTrueWords(compare))
  {
    TextWordsHaveNoSpace(text);
    WalkOnly(TextWords(text), CompareWords(compare), NoSpace, 0);
    SameWalkSameMarks(text, CompareWords(compare), CompareTrueWords(compare));
  }

  // ----- What the markup shows -----

  lemma {:induction false} CountWords(tokens: seq<string>, matched: set<nat>, i: nat)
    requires i <= |tokens|
    requires forall k :: k in matched ==> k < |tokens| && IsWord(tokens[k])
    ensures Differences(tokens, matched, i) + |From(matched, i)| == |WordIndices(tokens, i)|
    decreases |tokens| - i
  {
    hide IsWord;
    if i == |tokens| {
      assert From(matched, i) == {};
    } else {
      CountWords(tokens, matched, i + 1);
      assert From(matched, i) == From(matched, i + 1) + if i in matched then {i} else {};
    }
  }

  ghost function From(matched: set<nat>, i: nat): set<nat> {
    set k | k in matched && i <= k
  }

  predicate Increasing(p: seq<nat>) {
    forall k, l :: 0 <= k < l < |p| ==> p[k] < p[l]
  }

  lemma {:induction false} ConsIncreases(i: nat, q: seq<nat>)
    requires Increasing(q) && forall k :: 0 <= k < |q| ==> i < q[k]
    ensures Increasing([i] + q)
  {
  }

  lemma {:induction false} WordIndicesIncrease(tokens: seq<string>, i: nat)
    requires i <= |tokens|
    ensures Increasing(WordIndices(tokens, i))
    decreases |tokens| - i
  {
    hide IsWord;
    if i < |tokens| {
      WordIndicesIncrease(tokens, i + 1);
      if IsWord(tokens[i]) {
        ConsIncreases(i, WordIndices(tokens, i + 1));
      } else {
        assert [] + WordIndices(tokens, i + 1) == WordIndices(tokens, i + 1);
      }
      hide Increasing;
    }
  }

  /** Distinct matched words are distinct tokens. */
  lemma {:induction false} ImageSize(p: seq<nat>, walk: seq<nat>)
    requires Increasing(p) && Increasing(walk) && forall k :: 0 <= k < |walk| ==> walk[k] < |p|
    ensures |WalkedIndices(p, walk)| == |walk|
    decreases |walk|
  {
    if walk == [] {
      assert WalkedIndices(p, walk) == {};
    } else {
      var n := |walk| - 1;
      assert walk == walk[..n] + [walk[n]];
      ImageSize(p, walk[..n]);
      assert WalkedIndices(p, walk) == WalkedIndices(p, walk[..n]) + {p[walk[n]]};
    }
  }

  /** The walk goes upwards, and is as long as the table says. */
  lemma {:induction false} WalkIncreases(text: string, compare: string)
    ensures var x, y := TextWords(text), CompareWords(compare);
            && Increasing(Walk(x, y, 0)) && |Walk(x, y, 0)| == Lcs(x, y)
            && forall k :: 0 <= k < |Walk(x, y, 0)| ==> Walk(x, y, 0)[k] < |x|
  {
    var x, y := TextWords(text), CompareWords(compare);
    hide TextWords, CompareWords, Traceback, Walk, Lcs;
    WalkIsTraceback(x, y, 0, 0);
    TracebackIsLongest(x, y, 0, 0);
    assert x[0..] == x && y[0..] == y;
  }

  lemma {:induction false} WalkedAreWords(tokens: seq<string>, walk: seq<nat>)
    ensures var matched := WalkedIndices(WordIndices(tokens, 0), walk);
            && (forall k :: k in matched ==> k < |tokens| && IsWord(tokens[k]))
            && From(matched, 0) == matched
  {
    hide IsWord;
  }

  /** So many words are marked as the longest common subsequence leaves over: no common subsequence leaves fewer. */
  lemma {:induction false} MarksAreMinimal(text: string, compare: string)
    ensures DiffCount(text, compare) == |TextWords(text)| - Lcs(TextWords(text), CompareWords(compare))
  {
    var tokens := Tokens(text);
    var p, walk := WordIndices(tokens, 0), Walk(TextWords(text), CompareWords(compare), 0);
    hide Tokens, TextWords, CompareWords, Lcs, Walk, WordIndices, Differences, MatchedWith, Increasing, WalkedIndices;
    MatchedByWalk(text, CompareWords(compare));
    WalkIncreases(text, compare);
    WordIndicesIncrease(tokens, 0);
    ImageSize(p, walk);
    WalkedAreWords(tokens, walk);
    CountWords(tokens, WalkedIndices(p, walk), 0);
  }

  lemma {:induction false} MarkTags()
    ensures MARK.Valid() && '<' !in MARK_CLOSE[1..]
  {
    var third, most := "<mark class=\"rounded", "<mark class=\"rounded bg-amber-200 px-0.";
    assert third[0] == '<' && third[1] == 'm';
    assert most[0] == '<' && most[1] == 'm';
    assert MARK_OPEN[0] == '<' && MARK_OPEN[1] == 'm';
    assert MARK_CLOSE[1..] == "/mark>";
  }

  lemma {:induction false} ReadPiece(tokens: seq<string>, matched: set<nat>, i: nat, rest: string)
    requires i < |tokens| && (IsBlank(tokens[i]) || NoSpace(tokens[i]))
    ensures Marks.Strip(Piece(tokens, matched, i) + rest, MARK) == EscapeHtml(tokens[i]) + Marks.Strip(rest, MARK)
    ensures Marks.Count(Piece(tokens, matched, i) + rest, MARK)
         == (if IsDifference(tokens, matched, i) then 1 else 0) + Marks.Count(rest, MARK)
  {
    hide EscapeHtml, Marks.Strip, Marks.Count, Normalized;
    MarkTags();
    EscapeIsInert(tokens[i]);
    if IsBlank(tokens[i]) {
      EscapeOrdinary(tokens[i]);
    }
    if IsDifference(tokens, matched, i) {
      Marks.ReadMarked(EscapeHtml(tokens[i]), rest, MARK);
    } else {
      Marks.ReadPlain(EscapeHtml(tokens[i]), rest, MARK);
    }
  }

  /** Whatever is matched, taking the marks out leaves the escaped text, and there is one mark a difference. */
  lemma {:induction false} ReadBack(tokens: seq<string>, matched: set<nat>, i: nat)
    requires i <= |tokens|
    requires forall k :: 0 <= k < |tokens| ==> IsBlank(tokens[k]) || NoSpace(tokens[k])
    ensures Marks.Strip(Html(tokens, matched, i), MARK) == EscapeHtml(Concat(tokens[i..]))
    ensures Marks.Count(Html(tokens, matched, i), MARK) == Differences(tokens, matched, i)
    decreases |tokens| - i
  {
    if i < |tokens| {
      hide EscapeHtml, Marks.Strip, Marks.Count, Concat, IsDifference, Piece;
      ReadBack(tokens, matched, i + 1);
      assert Concat(tokens[i..]) == tokens[i] + Concat(tokens[i + 1..]);
      EscapeConcat(tokens[i], Concat(tokens[i + 1..]));
      ReadPiece(tokens, matched, i, Html(tokens, matched, i + 1));
    }
  }

  /** The markup can be read back: without the marks it is the escaped text, and the count is the number of marks. */
  lemma {:induction false} MarkupReadsBack(text: string, compare: string)
    ensures Unescape(Marks.Strip(DiffHtml(text, compare), MARK)) == text
    ensures Marks.Count(DiffHtml(text, compare), MARK) == DiffCount(text, compare)
  {
    var tokens := Tokens(text);
    TokensCutTheText(text);
    hide Tokens, Concat, EscapeHtml, Unescape, Marks.Strip, Marks.Count, Html, Differences, MatchedIndices;
    ReadBack(tokens, MatchedIndices(text, compare), 0);
    assert tokens[0..] == tokens;
    UnescapeEscape(text);
  }

  lemma {:induction false} PlainPiece(tokens: seq<string>, matched: set<nat>, i: nat)
    requires i < |tokens| && !IsDifference(tokens, matched, i)
    ensures Piece(tokens, matched, i) == EscapeHtml(tokens[i])
  {
    hide EscapeHtml, Normalized;
    if IsBlank(tokens[i]) {
      EscapeOrdinary(tokens[i]);
    }
  }

  lemma {:induction false} AllMatchedIsPlain(tokens: seq<string>, matched: set<nat>, i: nat)
    requires i <= |tokens| && Differences(tokens, matched, i) == 0
    ensures Html(tokens, matched, i) == EscapeHtml(Concat(tokens[i..]))
    decreases |tokens| - i
  {
    assert EscapeHtml("") == "" && Concat([]) == "";
    hide EscapeHtml, Concat, Piece, IsDifference;
    if i < |tokens| {
      AllMatchedIsPlain(tokens, matched, i + 1);
      ConcatFrom(tokens, i);
      EscapeConcat(tokens[i], Concat(tokens[i + 1..]));
      PlainPiece(tokens, matched, i);
    } else {
      assert tokens[i..] == [];
    }
  }

  lemma {:induction false} ConcatFrom(tokens: seq<string>, i: nat)
    requires i < |tokens|
    ensures Concat(tokens[i..]) == tokens[i] + Concat(tokens[i + 1..])
  {
    assert tokens[i..][1..] == tokens[i + 1..];
  }

  lemma {:induction false} WordsAmongNormalized(tokens: seq<string>, i: nat)
    requires i <= |tokens|
    ensures Lcs(WordsFrom(tokens, i), NonEmptyNormalized(tokens[i..])) == |WordIndices(tokens, i)|
    decreases |tokens| - i
  {
    if i < |tokens| {
      WordsAmongNormalized(tokens, i + 1);
      WordsStep(tokens, i);
      hide Normalized, IsBlank;
      var w := Normalized(tokens[i]);
      var x, y := WordsFrom(tokens, i + 1), NonEmptyNormalized(tokens[i + 1..]);
      if IsWord(tokens[i]) {
        assert ([w] + x)[1..] == x && ([w] + y)[1..] == y;
      } else if w != "" {
        assert ([w] + y)[1..] == y;
        assert WordsFrom(tokens, i) == x;
        LcsDrop(x, [w] + y);
        LcsNoLonger(x, [w] + y);
      } else {
        assert WordsFrom(tokens, i) == x && NonEmptyNormalized(tokens[i..]) == y;
      }
    }
  }

  lemma {:induction false} LcsNoLonger(x: seq<string>, y: seq<string>)
    ensures Lcs(x, y) <= |x|
    decreases |x|
  {
    if x != [] {
      LcsNoLonger(x[1..], y);
      LcsDrop(x, y);
    }
  }

  ghost function WordsFrom(tokens: seq<string>, i: nat): (x: seq<string>)
    requires i <= |tokens|
    ensures |x| == |WordIndices(tokens, i)|
  {
    var p := WordIndices(tokens, i);
    seq(|p|, k requires 0 <= k < |p| => Normalized(tokens[p[k]]))
  }

  lemma {:induction false} WordsStep(tokens: seq<string>, i: nat)
    requires i < |tokens|
    ensures WordsFrom(tokens, i)
            == (if IsWord(tokens[i]) then [Normalized(tokens[i])] else []) + WordsFrom(tokens, i + 1)
    ensures NonEmptyNormalized(tokens[i..]) ==
            (if Normalized(tokens[i]) != "" then [Normalized(tokens[i])] else []) + NonEmptyNormalized(tokens[i + 1..])
  {
    hide Normalized, IsBlank;
    assert tokens[i..][0] == tokens[i] && tokens[i..][1..] == tokens[i + 1..];
    var p, q := WordIndices(tokens, i), WordIndices(tokens, i + 1);
    if IsWord(tokens[i]) {
      assert p == [i] + q;
    } else {
      assert p == q;
    }
  }

  /** The shortcut for equal texts gives what the table would give. */
  lemma {:induction false} ShortcutAgrees(text: string)
    ensures DiffCount(text, text) == 0
    ensures DiffHtml(text, text) == EscapeHtml(text)
  {
    var tokens := Tokens(text);
    TokensCutTheText(text);
    assert tokens[0..] == tokens;
    MarksAreMinimal(text, text);
    WordsAmongNormalized(tokens, 0);
    assert WordsFrom(tokens, 0) == TextWords(text);
    hide Tokens, Lcs, EscapeHtml, Concat, Html, Differences, MatchedIndices;
    AllMatchedIsPlain(tokens, MatchedIndices(text, text), 0);
  }

  // ----- The source's procedure -----

  /** The table of the source: entry (i, j) is for the suffixes from `i` and `j`. */
  ghost predicate IsTable(dp: array2<nat>, x: seq<string>, y: seq<string>, i: nat, j: nat)
    reads dp
    requires dp.Length0 == |x| + 1 && dp.Length1 == |y| + 1
  {
    forall k: nat, l: nat :: k <= |x| && l <= |y| && (i <= k || l == |y|) && (i < k || j <= l || l == |y|)
      ==> dp[k, l] == Lcs(x[k..], y[l..])
  }

  method FillTable(x: seq<string>, y: seq<string>) returns (dp: array2<nat>)
    ensures fresh(dp) && dp.Length0 == |x| + 1 && dp.Length1 == |y| + 1
    ensures forall k: nat, l: nat :: k <= |x| && l <= |y| ==> dp[k, l] == Lcs(x[k..], y[l..])
  {
    dp := new nat[|x| + 1, |y| + 1]((i, j) => 0);
    forall k: nat, l: nat | k <= |x| && l <= |y| && (k == |x| || l == |y|)
      ensures Lcs(x[k..], y[l..]) == 0
    {
      assert Lcs(x[k..], y[l..]) == 0;
    }
    hide Lcs;
    var i := |x|;
    while i > 0
      invariant 0 <= i <= |x|
      invariant IsTable(dp, x, y, i, 0)
    {
      i := i - 1;
      var j := |y|;
      while j > 0
        invariant 0 <= j <= |y|
        invariant IsTable(dp, x, y, i, j)
      {
        j := j - 1;
        LcsAt(x, y, i, j);
        dp[i, j] := if x[i] == y[j] then dp[i + 1, j + 1] + 1 else Max(dp[i + 1, j], dp[i, j + 1]);
      }
    }
  }

  method WalkTable(dp: array2<nat>, x: seq<string>, y: seq<string>, indices: seq<nat>) returns (matched: set<nat>)
    requires dp.Length0 == |x| + 1 && dp.Length1 == |y| + 1 && |indices| == |x|
    requires forall k: nat, l: nat :: k <= |x| && l <= |y| ==> dp[k, l] == Lcs(x[k..], y[l..])
    ensures matched == set k | k in Traceback(x, y, 0, 0) && k.0 < |indices| :: indices[k.0]
  {
    hide Lcs;
    matched := {};
    var i, j := 0, 0;
    while i < |x| && j < |y|
      invariant 0 <= i <= |x| && 0 <= j <= |y|
      invariant (set k | k in Traceback(x, y, 0, 0) && k.0 < |indices| :: indices[k.0])
             == matched + set k | k in Traceback(x, y, i, j) && k.0 < |indices| :: indices[k.0]
      decreases |x| - i + |y| - j
    {
      if x[i] == y[j] {
        assert Traceback(x, y, i, j) == [(i, j)] + Traceback(x, y, i + 1, j + 1);
        matched := matched + {indices[i]};
        i := i + 1;
        j := j + 1;
      } else if dp[i + 1, j] >= dp[i, j + 1] {
        i := i + 1;
      } else {
        j := j + 1;
      }
    }
  }

  /** The callback of the rendering loop. */
  method RenderToken(tokens: seq<string>, matched: set<nat>, index: nat) returns (piece: string, differs: bool)
    requires index < |tokens|
    ensures piece == Piece(tokens, matched, index) && differs == IsDifference(tokens, matched, index)
  {
    hide Normalized, EscapeHtml, IsBlank;
    var token := tokens[index];
    if IsBlank(token) {
      return token, false;
    }
    var normalized := Normalized(token);
    var safe := EscapeHtml(token);
    if normalized == "" || index in matched {
      return safe, false;
    }
    return MARK_OPEN + safe + MARK_CLOSE, true;
  }

  method RenderTokens(tokens: seq<string>, matched: set<nat>) returns (html: string, differenceCount: nat)
    ensures html == Html(tokens, matched, 0) && differenceCount == Differences(tokens, matched, 0)
  {
    hide Piece, IsDifference;
    html, differenceCount := "", 0;
    for index := 0 to |tokens|
      invariant html + Html(tokens, matched, index) == Html(tokens, matched, 0)
      invariant differenceCount + Differences(tokens, matched, index) == Differences(tokens, matched, 0)
    {
      Assoc(html, Piece(tokens, matched, index), Html(tokens, matched, index + 1));
      var piece, differs := RenderToken(tokens, matched, index);
      if differs {
        differenceCount := differenceCount + 1;
      }
      html := html + piece;
    }
  }

  /** `compareText` is "" when the source's argument is missing. */
  method BuildDuplicateDiffMarkup(text: string, compareText: string) returns (html: string, differenceCount: nat)
    ensures compareText == "" ==> html == EscapeHtml(text) && differenceCount == 0
    ensures compareText != "" ==> html == DiffHtml(text, compareText) && differenceCount == DiffCount(text, compareText)
    ensures compareText != "" ==>
              differenceCount == |TextWords(text)| - Lcs(TextWords(text), CompareTrueWords(compareText))
    ensures Unescape(Marks.Strip(html, MARK)) == text && Marks.Count(html, MARK) == differenceCount
  {
    hide *;
    if compareText == "" || compareText == text {
      PlainReadsBack(text);
      ShortcutAgrees(text);
      MarksAreMinimal(text, compareText);
      BlanksAreNeutral(text, compareText);
      return EscapeHtml(text), 0;
    }
    var textTokens := Tokens(text);
    var indices := WordIndices(textTokens, 0);
    var x, y := TextWords(text), CompareWords(compareText);
    SidesOf(text, compareText);
    var dp := FillTable(x, y);
    var matched := WalkTable(dp, x, y, indices);
    html, differenceCount := RenderTokens(textTokens, matched);
    MarksAreMinimal(text, compareText);
    BlanksAreNeutral(text, compareText);
    MarkupReadsBack(text, compareText);
  }

  lemma {:induction false} SidesOf(text: string, compare: string)
    ensures |TextWords(text)| == |WordIndices(Tokens(text), 0)|
    ensures var p := WordIndices(Tokens(text), 0);
            MatchedIndices(text, compare)
            == set k | k in Traceback(TextWords(text), CompareWords(compare), 0, 0) && k.0 < |p| :: p[k.0]
    ensures DiffHtml(text, compare) == Html(Tokens(text), MatchedIndices(text, compare), 0)
    ensures DiffCount(text, compare) == Differences(Tokens(text), MatchedIndices(text, compare), 0)
  {
  }

  lemma {:induction false} PlainReadsBack(text: string)
    ensures Unescape(Marks.Strip(EscapeHtml(text), MARK)) == text && Marks.Count(EscapeHtml(text), MARK) == 0
  {
    MarkTags();
    EscapeIsInert(text);
    UnescapeEscape(text);
    Marks.ReadPlain(EscapeHtml(text), "", MARK);
    hide EscapeHtml, Unescape;
    assert EscapeHtml(text) + "" == EscapeHtml(text);
  }
}
