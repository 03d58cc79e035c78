/** What `buildDuplicateDiffMarkup` of PortableOutput.tsx cuts, compares and marks, in the characters of the texts. */
module DuplicateLaws {
  import opened Text
  import opened HtmlEscape
  import opened Subsequence
  import opened DuplicateDiff

  // ----- Tokens -----

  /** Blank tokens and others in turn, which together are the text. */
  ghost predicate IsTokenization(tokens: seq<string>, s: string) {
    && Concat(tokens) == s && AllUniform(tokens)
    && forall i :: 0 <= i && i + 1 < |tokens| ==> IsBlank(tokens[i]) != IsBlank(tokens[i + 1])
  }

  lemma {:induction false} RunEnds(s: string)
    requires s != "" && RunLength(s) < |s|
    ensures IsSpace(s[RunLength(s)]) != IsSpace(s[0])
    decreases |s|
  {
    hide IsSpace;
    if RunLength(s) > 1 {
      RunEnds(s[1..]);
      assert s[RunLength(s)] == s[1..][RunLength(s) - 1];
    }
  }

  lemma {:induction false} BlankByFirst(t: string)
    requires Uniform(t)
    ensures IsBlank(t) <==> IsSpace(t[0])
  {
    assert t[0] in t;
    hide IsSpace;
  }

  lemma {:induction false} RunsAlternate(s: string)
    ensures forall i :: 0 <= i && i + 1 < |Runs(s)| ==> IsBlank(Runs(s)[i]) != IsBlank(Runs(s)[i + 1])
    decreases |s|
  {
    if s != "" {
      var n := RunLength(s);
      var rest := s[n..];
      RunsAlternate(rest);
      FirstRun(s);
      BlankByFirst(s[..n]);
      if rest != "" {
        RunEnds(s);
        FirstRun(rest);
        BlankByFirst(rest[..RunLength(rest)]);
        assert rest[0] == s[n] && rest[..RunLength(rest)][0] == rest[0] && s[..n][0] == s[0];
      }
      hide IsBlank, IsSpace, Uniform, RunLength;
    }
  }

  lemma {:induction false} RunOfToken(t: string, rest: string)
    requires t != "" && (forall k :: 0 <= k < |t| ==> IsSpace(t[k]) == IsSpace(t[0]))
    requires rest == "" || IsSpace(rest[0]) != IsSpace(t[0])
    ensures RunLength(t + rest) == |t|
    decreases |t|
  {
    hide IsSpace;
    var s := t + rest;
    if |t| > 1 {
      assert s[1..] == t[1..] + rest;
      RunOfToken(t[1..], rest);
    }
  }

  lemma {:induction false} UniformChars(t: string)
    requires Uniform(t)
    ensures forall k :: 0 <= k < |t| ==> IsSpace(t[k]) == IsSpace(t[0])
  {
    hide IsSpace;
    assert forall k :: 0 <= k < |t| ==> t[k] in t;
  }

  /** There is only one such cutting, and it is the program's. */
  lemma {:induction false} TokenizationIsOne(tokens: seq<string>, s: string)
    requires IsTokenization(tokens, s)
    ensures Runs(s) == tokens
    decreases |tokens|
  {
    if tokens != [] {
      var t, rest := tokens[0], tokens[1..];
      var after := Concat(rest);
      assert s == t + after;
      assert Uniform(t);
      UniformChars(t);
      BlankByFirst(t);
      if rest != [] {
        assert Uniform(rest[0]) && IsBlank(tokens[0]) != IsBlank(tokens[1]);
        BlankByFirst(rest[0]);
        assert after == rest[0] + Concat(rest[1..]) && after[0] == rest[0][0];
      }
      RestTokens(tokens, s);
      hide IsBlank, IsSpace, Uniform, Concat, RunLength, IsTokenization;
      RunOfToken(t, after);
      TokenizationIsOne(rest, after);
      assert s[..|t|] == t && s[|t|..] == after && [t] + rest == tokens;
    }
  }

  lemma {:induction false} RestTokens(tokens: seq<string>, s: string)
    requires tokens != [] && IsTokenization(tokens, s)
    ensures IsTokenization(tokens[1..], Concat(tokens[1..])) && tokens[0] != ""
    ensures tokens[1..] == [] ==> Concat(tokens[1..]) == ""
  {
    var rest := tokens[1..];
    assert Uniform(tokens[0]);
    forall i | 0 <= i < |rest|
      ensures Uniform(rest[i])
    {
      assert rest[i] == tokens[i + 1];
    }
    hide IsBlank, Uniform;
  }

  lemma {:induction false} TokensAlternate(s: string)
    requires s != ""
    ensures IsTokenization(Tokens(s), s)
    ensures forall tokens :: IsTokenization(tokens, s) ==> tokens == Tokens(s)
  {
    RunsCutTheText(s);
    RunsAlternate(s);
    forall tokens | IsTokenization(tokens, s)
      ensures tokens == Tokens(s)
    {
      TokenizationIsOne(tokens, s);
    }
    hide IsBlank, Uniform, Concat, Runs;
  }

  // ----- Words -----

  const UPPER := "ABCDEFGHIJKLMNOPQRSTUVWXYZ"
  const LOWER := "abcdefghijklmnopqrstuvwxyz"

  lemma {:induction false} NormalizedConcat(s: string, t: string)
    ensures Normalized(s + t) == Normalized(s) + Normalized(t)
    decreases |s|
  {
    hide Normalized;
    if s == "" {
      NormalizedNothing();
      assert s + t == t && "" + Normalized(t) == Normalized(t);
    } else {
      assert s + t == [s[0]] + (s[1..] + t) && s == [s[0]] + s[1..];
      NormalizedConcat(s[1..], t);
      NormalizedCons(s[0], s[1..]);
      NormalizedCons(s[0], s[1..] + t);
      Assoc(if s[0] in PUNCTUATION then "" else [LowerChar(s[0])], Normalized(s[1..]), Normalized(t));
    }
  }

  lemma {:induction false} NormalizedNothing()
    ensures Normalized("") == ""
  {
  }

  /** The twelve punctuation marks are dropped. */
  lemma {:induction false} PunctuationIsDropped(c: char)
    ensures Normalized([c]) == ""
            <==> c == '.' || c == ',' || c == ';' || c == ':' || c == '(' || c == ')' || c == '[' || c == ']'
                 || c == '{' || c == '}' || c == '\"' || c == '\''
  {
    NormalizedCons(c, "");
    NormalizedNothing();
    assert [c] + "" == [c];
    hide Normalized, LowerChar;
  }

  /** Capital letters become small ones, and every other character stays. */
  lemma {:induction false} LettersAreLowered(c: char)
    requires Normalized([c]) != ""
    ensures forall k :: 0 <= k < 26 && c == UPPER[k] ==> Normalized([c]) == [LOWER[k]]
    ensures c !in UPPER ==> Normalized([c]) == [c]
  {
    NormalizedCons(c, "");
    NormalizedNothing();
    assert [c] + "" == [c];
    forall k | 0 <= k < 26
      ensures LowerChar(UPPER[k]) == LOWER[k]
    {
      LowerLetter(k);
    }
    if c !in UPPER {
      CapitalLetter(c);
    }
    hide Normalized, LowerChar;
  }

  lemma {:induction false} LowerLetter(k: nat)
    requires k < 26
    ensures UPPER[k] as int == 65 + k && LOWER[k] as int == 97 + k && LowerChar(UPPER[k]) == LOWER[k]
  {
  }

  lemma {:induction false} CapitalLetter(c: char)
    ensures 'A' <= c <= 'Z' ==> c in UPPER
    ensures c !in UPPER ==> LowerChar(c) == c
  {
    if 'A' <= c <= 'Z' {
      LowerLetter(c as int - 65);
      assert UPPER[c as int - 65] == c;
    }
  }

  lemma {:induction false} NormalizedIsEmpty(t: string)
    ensures Normalized(t) == "" <==> forall k :: 0 <= k < |t| ==> t[k] in PUNCTUATION
    decreases |t|
  {
    if t == "" {
      NormalizedNothing();
    } else {
      assert t == [t[0]] + t[1..];
      NormalizedCons(t[0], t[1..]);
      NormalizedIsEmpty(t[1..]);
      hide Normalized;
      assert forall k :: 0 < k < |t| ==> t[k] == t[1..][k - 1];
    }
  }

  /** A word is a token without spaces in which some character is no punctuation mark. */
  lemma {:induction false} WhatAWordIs(t: string)
    requires t != "" && (IsBlank(t) || NoSpace(t))
    ensures IsWord(t) <==> NoSpace(t) && exists k :: 0 <= k < |t| && t[k] !in ".,;:()[]{}\"'"
  {
    NormalizedIsEmpty(t);
    assert t[0] in t;
    hide Normalized, IsSpace;
  }

  lemma {:induction false} WordsAreAll(tokens: seq<string>, i: nat)
    requires i <= |tokens|
    ensures forall k :: k in WordIndices(tokens, i) <==> i <= k < |tokens| && IsWord(tokens[k])
    decreases |tokens| - i
  {
    hide IsWord;
    if i < |tokens| {
      WordsAreAll(tokens, i + 1);
    }
  }

  /** The indices of the word tokens, all of them and in order. */
  ghost predicate ListsWords(p: seq<nat>, tokens: seq<string>) {
    Increasing(p) && forall k: nat :: k in p <==> k < |tokens| && IsWord(tokens[k])
  }

  lemma {:induction false} IndicesListWords(tokens: seq<string>)
    ensures ListsWords(WordIndices(tokens, 0), tokens)
  {
    WordsAreAll(tokens, 0);
    WordIndicesIncrease(tokens, 0);
    hide IsWord, Increasing, WordIndices;
  }

  /** The words of a text are its word tokens, each of them and in order, as they are normalised. */
  lemma {:induction false} WordsInOrder(text: string)
    ensures ListsWords(WordIndices(Tokens(text), 0), Tokens(text))
    ensures TextWords(text) == WordsFrom(Tokens(text), 0)
  {
    IndicesListWords(Tokens(text));
    hide Normalized, ListsWords, Tokens, IsWord;
  }

  lemma {:induction false} SameWordsFrom(tokens: seq<string>, i: nat)
    requires i <= |tokens|
    requires forall k :: 0 <= k < |tokens| ==> tokens[k] == "" || IsBlank(tokens[k]) || NoSpace(tokens[k])
    ensures Only(NonEmptyNormalized(tokens[i..]), NoSpace) == WordsFrom(tokens, i)
    decreases |tokens| - i
  {
    if i < |tokens| {
      SameWordsFrom(tokens, i + 1);
      WordsStep(tokens, i);
      WordHasNoSpace(tokens[i]);
      hide IsSpace, Normalized, IsWord, NoSpace, WordIndices, IsBlank;
      var w, rest := Normalized(tokens[i]), NonEmptyNormalized(tokens[i + 1..]);
      assert ([w] + rest)[1..] == rest && [] + rest == rest;
    }
  }

  lemma {:induction false} WordHasNoSpace(t: string)
    requires t == "" || IsBlank(t) || NoSpace(t)
    ensures Normalized(t) != "" && NoSpace(Normalized(t)) <==> IsWord(t)
  {
    if t == "" {
      NormalizedNothing();
    } else if IsBlank(t) {
      SpacesAreNotPunctuation(t);
      assert t[0] in t;
    } else {
      NormalizedHasNoSpace(t);
      assert t[0] in t;
    }
    hide Normalized, IsSpace;
  }

  /** Both sides are cut into words alike: the comparison side only has its blank tokens besides. */
  lemma {:induction false} SidesAreCutAlike(text: string)
    ensures CompareTrueWords(text) == TextWords(text)
  {
    var tokens := Tokens(text);
    TokensCutTheText(text);
    assert tokens[0..] == tokens;
    SameWordsFrom(tokens, 0);
    hide IsBlank, NoSpace, Normalized, Tokens, NonEmptyNormalized, WordIndices, Only;
  }

  // ----- Which words are matched -----

  ghost predicate IsLongest(m: seq<(nat, nat)>, x: seq<string>, y: seq<string>, i: nat, j: nat) {
    IsMatching(m, x, y, i, j) && forall other :: IsMatching(other, x, y, i, j) ==> |other| <= |m|
  }

  /** Some longest common subsequence does not need the word at `i`. */
  ghost predicate CanSkip(x: seq<string>, y: seq<string>, i: nat, j: nat) {
    exists m :: IsMatching(m, x, y, i + 1, j) && IsLongest(m, x, y, i, j)
  }

  lemma {:induction false} WalkIsLongest(x: seq<string>, y: seq<string>, i: nat, j: nat)
    requires i <= |x| && j <= |y|
    ensures IsLongest(Traceback(x, y, i, j), x, y, i, j)
    ensures |Traceback(x, y, i, j)| == Lcs(x[i..], y[j..])
  {
    TracebackIsLongest(x, y, i, j);
    hide IsMatching, Lcs, Traceback;
    forall m | IsMatching(m, x, y, i, j)
      ensures |m| <= |Traceback(x, y, i, j)|
    {
      MatchingIsNoLonger(m, x, y, i, j);
    }
  }

  lemma {:induction false} SkipByLength(x: seq<string>, y: seq<string>, i: nat, j: nat)
    requires i < |x| && j < |y|
    ensures CanSkip(x, y, i, j) <==> Lcs(x[i + 1..], y[j..]) == Lcs(x[i..], y[j..])
  {
    LcsDropAt(x, y, i, j);
    WalkIsLongest(x, y, i, j);
    WalkIsLongest(x, y, i + 1, j);
    var m := Traceback(x, y, i + 1, j);
    hide IsMatching, Lcs, Traceback;
    MatchingEarlier(m, x, y, i + 1, j, i, j);
    if |m| == |Traceback(x, y, i, j)| {
      assert IsLongest(m, x, y, i, j);
    }
    if CanSkip(x, y, i, j) {
      var other :| IsMatching(other, x, y, i + 1, j) && IsLongest(other, x, y, i, j);
      assert |Traceback(x, y, i, j)| <= |other| <= |m|;
    }
  }

  /**
   Which of the longest common subsequences the walk takes: equal words are matched on the spot, and of two different
   words the one of the text is passed over whenever some longest common subsequence of what is left does without it.
   */
  lemma {:induction false} WalkRule(x: seq<string>, y: seq<string>, i: nat, j: nat)
    requires i < |x| && j < |y|
    ensures IsLongest(Traceback(x, y, i, j), x, y, i, j)
    ensures x[i] == y[j] ==> Traceback(x, y, i, j) == [(i, j)] + Traceback(x, y, i + 1, j + 1)
    ensures x[i] != y[j] && CanSkip(x, y, i, j) ==> Traceback(x, y, i, j) == Traceback(x, y, i + 1, j)
    ensures x[i] != y[j] && !CanSkip(x, y, i, j) ==> Traceback(x, y, i, j) == Traceback(x, y, i, j + 1)
  {
    SkipByLength(x, y, i, j);
    LcsAt(x, y, i, j);
    LcsDropAt(x, y, i, j);
    WalkIsLongest(x, y, i, j);
    hide IsLongest, Lcs, CanSkip;
  }

  // ----- What is marked -----

  /** The tokens, escaped, with the marked ones in a mark element. */
  function Marked(tokens: seq<string>, marked: set<nat>, i: nat): string
    requires i <= |tokens|
    decreases |tokens| - i
  {
    if i == |tokens| then ""
    else
      (if i in marked then
         "<mark class=\"rounded bg-amber-200 px-0.5 text-amber-950\">" + EscapeHtml(tokens[i]) + "</mark>"
       else EscapeHtml(tokens[i])) + Marked(tokens, marked, i + 1)
  }

  lemma {:induction false} BlankIsEscaped(t: string)
    requires IsBlank(t)
    ensures EscapeHtml(t) == t
  {
    assert forall c :: c in "&<>\"'" ==> !IsSpace(c);
    assert '&' in "&<>\"'" && '<' in "&<>\"'" && '>' in "&<>\"'" && '\"' in "&<>\"'" && '\'' in "&<>\"'";
    hide IsSpace, Replace;
    ReplaceAbsent(t, '&', "&amp;");
    ReplaceAbsent(t, '<', "&lt;");
    ReplaceAbsent(t, '>', "&gt;");
    ReplaceAbsent(t, '\"', "&quot;");
    ReplaceAbsent(t, '\'', "&#39;");
  }

  lemma {:induction false} PieceIsMarked(tokens: seq<string>, matched: set<nat>, i: nat)
    requires i < |tokens|
    ensures Piece(tokens, matched, i) ==
            if IsWord(tokens[i]) && i !in matched then
              "<mark class=\"rounded bg-amber-200 px-0.5 text-amber-950\">" + EscapeHtml(tokens[i]) + "</mark>"
            else EscapeHtml(tokens[i])
  {
    hide EscapeHtml, Normalized;
    if IsBlank(tokens[i]) {
      BlankIsEscaped(tokens[i]);
    }
  }

  lemma {:induction false} HtmlIsMarked(tokens: seq<string>, matched: set<nat>, marked: set<nat>, i: nat)
    requires i <= |tokens|
    requires forall k :: 0 <= k < |tokens| ==> (k in marked <==> IsWord(tokens[k]) && k !in matched)
    ensures Html(tokens, matched, i) == Marked(tokens, marked, i)
    decreases |tokens| - i
  {
    hide Piece, IsWord, EscapeHtml;
    if i < |tokens| {
      PieceIsMarked(tokens, matched, i);
      HtmlIsMarked(tokens, matched, marked, i + 1);
    }
  }

  /** The token of a word that the matching `m` leaves out. */
  ghost predicate IsLeftOver(tokens: seq<string>, p: seq<nat>, m: seq<(nat, nat)>, k: nat) {
    k < |tokens| && IsWord(tokens[k]) && forall n :: 0 <= n < |m| && m[n].0 < |p| ==> p[m[n].0] != k
  }

  lemma {:induction false} LeftOverIsUnmatched(
      tokens: seq<string>, p: seq<nat>, m: seq<(nat, nat)>, matched: set<nat>, k: nat)
    requires matched == set pair | pair in m && pair.0 < |p| :: p[pair.0]
    ensures IsLeftOver(tokens, p, m, k) <==> k < |tokens| && IsWord(tokens[k]) && k !in matched
  {
    hide IsWord;
    if k in matched {
      var pair :| pair in m && pair.0 < |p| && p[pair.0] == k;
      var n :| 0 <= n < |m| && m[n] == pair;
    } else {
      forall n | 0 <= n < |m| && m[n].0 < |p|
        ensures p[m[n].0] != k
      {
        assert m[n] in m;
      }
    }
  }

  /** Exactly the words that the walk leaves unmatched are marked, and everything is escaped. */
  lemma {:induction false} MarkupShows(text: string, compare: string) returns (marked: set<nat>)
    ensures forall k :: k in marked <==>
              IsLeftOver(Tokens(text), WordIndices(Tokens(text), 0),
                         Traceback(TextWords(text), CompareWords(compare), 0, 0), k)
    ensures DiffHtml(text, compare) == Marked(Tokens(text), marked, 0)
  {
    var tokens := Tokens(text);
    var p := WordIndices(tokens, 0);
    var m := Traceback(TextWords(text), CompareWords(compare), 0, 0);
    var matched := MatchedIndices(text, compare);
    marked := set k: nat | k < |tokens| && IsWord(tokens[k]) && k !in matched;
    hide *;
    SidesOf(text, compare);
    forall k
      ensures k in marked <==> IsLeftOver(tokens, p, m, k)
    {
      LeftOverIsUnmatched(tokens, p, m, matched, k);
    }
    HtmlIsMarked(tokens, matched, marked, 0);
  }
}
