/** ml-service/app/main.py, `_normalize_lookup`: what is left of a text when case and punctuation do not matter. */
module LookupWords {

  /** What Python's `\s` matches and `strip` removes. */
  predicate IsBlank(c: char) {
    || '\t' <= c <= '\r'
    || '\U{001C}' <= c <= ' '
    || c == '\U{0085}' || c == '\U{00A0}' || c == '\U{1680}'
    || '\U{2000}' <= c <= '\U{200A}'
    || c == '\U{2028}' || c == '\U{2029}' || c == '\U{202F}' || c == '\U{205F}'
    || c == '\U{3000}'
  }

  /** `[0-9a-z]`. */
  predicate IsAlnum(c: char) {
    '0' <= c <= '9' || 'a' <= c <= 'z'
  }

  /**
   * How characters change case: `lower` gives the lower-case form of one character, which may be several,
   * and `same` tells whether a case-insensitive pattern lets one character stand for another.
   */
  datatype Casing = Casing(lower: char -> string, same: (char, char) -> bool)
  {
    /** Blanks have no case. */
    ghost predicate Lawful() {
      && (forall c :: IsBlank(c) ==> lower(c) == [c])
      && (forall c, d :: same(c, d) ==> IsBlank(c) == IsBlank(d))
    }
  }

  function Lowered(casing: Casing, s: string): string {
    if s == "" then "" else casing.lower(s[0]) + Lowered(casing, s[1..])
  }

  // ----- The normaliser, pass by pass -----

  function OtherRun(s: string): (n: nat)
    ensures n <= |s| && (n < |s| ==> IsAlnum(s[n]))
  {
    if s != "" && !IsAlnum(s[0]) then 1 + OtherRun(s[1..]) else 0
  }

  function BlankRun(s: string): (n: nat)
    ensures n <= |s|
  {
    if s != "" && IsBlank(s[0]) then 1 + BlankRun(s[1..]) else 0
  }

  /** `re.sub(r"[^0-9a-z]+", " ", s)`. */
  function ReplaceOthers(s: string): string
    decreases |s|
  {
    if s == "" then ""
    else if IsAlnum(s[0]) then [s[0]] + ReplaceOthers(s[1..])
    else " " + ReplaceOthers(s[OtherRun(s)..])
  }

  /** `re.sub(r"\s+", " ", s)`. */
  function CollapseBlanks(s: string): string
    decreases |s|
  {
    if s == "" then ""
    else if !IsBlank(s[0]) then [s[0]] + CollapseBlanks(s[1..])
    else " " + CollapseBlanks(s[BlankRun(s)..])
  }

  function StripLeft(s: string): string {
    if s != "" && IsBlank(s[0]) then StripLeft(s[1..]) else s
  }

  function StripRight(s: string): string {
    if s != "" && IsBlank(s[|s| - 1]) then StripRight(s[..|s| - 1]) else s
  }

  /** `strip()`. */
  function Strip(s: string): string {
    StripRight(StripLeft(s))
  }

  function NormalizeLookup(casing: Casing, value: string): string {
    Strip(CollapseBlanks(ReplaceOthers(Lowered(casing, value))))
  }

  // ----- What it computes: the words -----

  function AlnumRun(s: string): (n: nat)
    ensures n <= |s| && (n < |s| ==> !IsAlnum(s[n]))
  {
    if s != "" && IsAlnum(s[0]) then 1 + AlnumRun(s[1..]) else 0
  }

  /** The maximal runs of digits and lower-case letters. */
  function Words(s: string): seq<string>
    decreases |s|
  {
    if s == "" then []
    else if IsAlnum(s[0]) then [s[..AlnumRun(s)]] + Words(s[AlnumRun(s)..])
    else Words(s[1..])
  }

  /** `" ".join(parts)`. */
  function Spaced(parts: seq<string>): string {
    if parts == [] then ""
    else if |parts| == 1 then parts[0]
    else parts[0] + (" " + Spaced(parts[1..]))
  }

  /** The words of a text whatever its case. */
  function WordsOf(casing: Casing, s: string): seq<string> {
    Words(Lowered(casing, s))
  }

  predicate IsWord(w: string) {
    w != "" && AlnumRun(w) == |w|
  }

  predicate AllWords(words: seq<string>) {
    forall i :: 0 <= i < |words| ==> IsWord(words[i])
  }

  lemma {:induction false} RunIsWord(s: string)
    ensures AlnumRun(s[..AlnumRun(s)]) == AlnumRun(s)
  {
    if s != "" && IsAlnum(s[0]) {
      RunIsWord(s[1..]);
      assert s[..AlnumRun(s)][1..] == s[1..][..AlnumRun(s[1..])];
    }
  }

  lemma {:induction false} WordsAreWords(s: string)
    ensures AllWords(Words(s))
    decreases |s|
  {
    if s != "" {
      if IsAlnum(s[0]) {
        RunIsWord(s);
        WordsAreWords(s[AlnumRun(s)..]);
      } else {
        WordsAreWords(s[1..]);
      }
    }
  }

  lemma {:induction false} SkipOthers(s: string)
    ensures Words(s) == Words(s[OtherRun(s)..])
    decreases |s|
  {
    if s != "" && !IsAlnum(s[0]) {
      SkipOthers(s[1..]);
      assert s[OtherRun(s)..] == s[1..][OtherRun(s[1..])..];
    } else {
      assert s[0..] == s;
    }
  }

  lemma {:induction false} RunStep(s: string)
    requires s != "" && IsAlnum(s[0])
    ensures s[AlnumRun(s)..] == s[1..][AlnumRun(s[1..])..]
    ensures s[..AlnumRun(s)] == [s[0]] + s[1..][..AlnumRun(s[1..])]
    ensures ReplaceOthers(s) == [s[0]] + ReplaceOthers(s[1..])
  {
  }

  lemma {:induction false} NoRun(s: string)
    requires s == "" || !IsAlnum(s[0])
    ensures s[..AlnumRun(s)] == "" && s[AlnumRun(s)..] == s
  {
  }

  lemma {:induction false} ReplaceKeepsWord(s: string)
    ensures ReplaceOthers(s) == s[..AlnumRun(s)] + ReplaceOthers(s[AlnumRun(s)..])
    decreases |s|
  {
    hide AlnumRun, ReplaceOthers, IsAlnum;
    if s != "" && IsAlnum(s[0]) {
      RunStep(s);
      ReplaceKeepsWord(s[1..]);
    } else {
      NoRun(s);
    }
  }

  predicate Pad(s: string) {
    s == "" || s == " "
  }

  lemma {:induction false} ReplaceStep(s: string, word: string, next: string)
    requires s != "" && IsAlnum(s[0]) && word == s[..AlnumRun(s)] && s[AlnumRun(s)..] != ""
    requires next == s[AlnumRun(s)..][OtherRun(s[AlnumRun(s)..])..]
    ensures ReplaceOthers(s) == word + (" " + ReplaceOthers(next))
    ensures Words(s) == [word] + Words(next)
    ensures |next| < |s| && (next == "" || IsAlnum(next[0]))
  {
    ReplaceKeepsWord(s);
    SkipOthers(s[AlnumRun(s)..]);
  }

  lemma {:induction false} SpacedStep(word: string, words: seq<string>)
    ensures Spaced([word] + words) == if words == [] then word else word + (" " + Spaced(words))
  {
    assert ([word] + words)[1..] == words;
  }

  /** Replacing leaves the words with single spaces between them, and perhaps one at each end. */
  lemma {:induction false} ReplacedFromWord(s: string) returns (tail: string)
    requires s == "" || IsAlnum(s[0])
    ensures ReplaceOthers(s) == Spaced(Words(s)) + tail && Pad(tail)
    ensures s == "" || Words(s) != []
    decreases |s|
  {
    hide ReplaceOthers, Words, Spaced, OtherRun, AlnumRun;
    if s == "" || s[AlnumRun(s)..] == "" {
      LastWord(s);
      tail := "";
      assert s + "" == s;
    } else {
      var word, rest := s[..AlnumRun(s)], s[AlnumRun(s)..];
      var next := rest[OtherRun(rest)..];
      ReplaceStep(s, word, next);
      SpacedStep(word, Words(next));
      if next == "" {
        LastWord(next);
        assert ReplaceOthers(s) == word + " ";
        tail := " ";
      } else {
        tail := ReplacedFromWord(next);
        assert word + (" " + (Spaced(Words(next)) + tail)) == word + (" " + Spaced(Words(next))) + tail;
      }
    }
  }

  lemma {:induction false} LastWord(s: string)
    requires s == "" || s[AlnumRun(s)..] == ""
    ensures ReplaceOthers(s) == s && Spaced(Words(s)) == s
    ensures (s == "") == (Words(s) == [])
  {
    ReplaceKeepsWord(s);
    if s != "" {
      assert s[..AlnumRun(s)] == s;
      assert IsAlnum(s[0]);
      assert Words(s) == [s];
    }
  }

  lemma {:induction false} Replaced(s: string) returns (lead: string, tail: string)
    ensures ReplaceOthers(s) == lead + Spaced(Words(s)) + tail && Pad(lead) && Pad(tail)
  {
    if s == "" || IsAlnum(s[0]) {
      tail := ReplacedFromWord(s);
      lead := "";
    } else {
      SkipOthers(s);
      tail := ReplacedFromWord(s[OtherRun(s)..]);
      lead := " ";
    }
  }

  lemma {:induction false} CollapseReplaced(s: string)
    ensures CollapseBlanks(ReplaceOthers(s)) == ReplaceOthers(s)
    decreases |s|
  {
    if s != "" {
      if IsAlnum(s[0]) {
        CollapseReplaced(s[1..]);
        assert ReplaceOthers(s)[1..] == ReplaceOthers(s[1..]);
      } else {
        var rest := s[OtherRun(s)..];
        CollapseReplaced(rest);
        assert ReplaceOthers(s)[1..] == ReplaceOthers(rest);
        assert rest != "" ==> ReplaceOthers(rest)[0] == rest[0];
        assert BlankRun(ReplaceOthers(rest)) == 0;
        assert BlankRun(ReplaceOthers(s)) == 1;
      }
    }
  }

  lemma {:induction false} WordEnds(w: string)
    requires IsWord(w)
    ensures !IsBlank(w[0]) && !IsBlank(w[|w| - 1])
  {
    if |w| > 1 {
      WordEnds(w[1..]);
    }
  }

  lemma {:induction false} SpacedEnds(words: seq<string>)
    requires AllWords(words) && words != []
    ensures var s := Spaced(words); s != "" && !IsBlank(s[0]) && !IsBlank(s[|s| - 1])
  {
    WordEnds(words[0]);
    hide IsWord, IsBlank;
    if |words| > 1 {
      SpacedEnds(words[1..]);
    }
  }

  lemma {:induction false} StripPads(lead: string, s: string, tail: string)
    requires Pad(lead) && Pad(tail) && (s == "" || (!IsBlank(s[0]) && !IsBlank(s[|s| - 1])))
    ensures Strip(lead + s + tail) == s
  {
    StripLeftPad(lead, s, tail);
    if s == "" {
      assert s + tail == tail;
      assert Strip(lead + s + tail) == StripRight(StripLeft(tail));
      if tail == " " {
        assert StripLeft(tail[1..]) == "";
      }
    } else {
      assert StripLeft(s + tail) == s + tail;
      if tail == " " {
        assert (s + tail)[..|s + tail| - 1] == s;
        assert StripRight(s + tail) == StripRight(s) == s;
      } else {
        assert s + tail == s;
      }
    }
  }

  lemma {:induction false} StripLeftPad(lead: string, s: string, tail: string)
    requires Pad(lead)
    ensures StripLeft(lead + s + tail) == StripLeft(s + tail)
  {
    if lead == " " {
      assert (lead + s + tail)[1..] == s + tail;
    } else {
      assert lead + s + tail == s + tail;
    }
  }

  /** The three passes and the strip leave the words, one space apart. */
  lemma {:induction false} NormalizeIsWords(casing: Casing, value: string)
    ensures NormalizeLookup(casing, value) == Spaced(WordsOf(casing, value))
  {
    var s := Lowered(casing, value);
    var lead, tail := Replaced(s);
    CollapseReplaced(s);
    WordsAreWords(s);
    assert Spaced([]) == "";
    hide ReplaceOthers, CollapseBlanks, Strip, Words, Lowered, Spaced;
    if Words(s) != [] {
      SpacedEnds(Words(s));
    } else {
    }
    StripPads(lead, Spaced(Words(s)), tail);
  }

  // ----- Joining and splitting -----

  lemma {:induction false} RunStops(a: string, c: char, b: string)
    requires !IsAlnum(c)
    ensures AlnumRun(a + [c] + b) == AlnumRun(a)
  {
    if a != "" {
      assert (a + [c] + b)[1..] == a[1..] + [c] + b;
      RunStops(a[1..], c, b);
    }
  }

  /** A character that belongs to no word separates the words. */
  lemma {:induction false} WordsSplit(a: string, c: char, b: string)
    requires !IsAlnum(c)
    ensures Words(a + [c] + b) == Words(a) + Words(b)
    decreases |a|
  {
    var all := a + [c] + b;
    if a == "" {
      assert all[1..] == b;
    } else if IsAlnum(a[0]) {
      RunStops(a, c, b);
      var n := AlnumRun(a);
      assert all[..n] == a[..n];
      assert all[n..] == a[n..] + [c] + b;
      WordsSplit(a[n..], c, b);
    } else {
      assert all[1..] == a[1..] + [c] + b;
      WordsSplit(a[1..], c, b);
    }
  }

  /** Words can be read back from their spaced form, so equal forms are equal words. */
  lemma {:induction false} WordsOfSpaced(words: seq<string>)
    requires AllWords(words)
    ensures Words(Spaced(words)) == words
  {
    hide Words, IsWord, IsAlnum, Spaced;
    if words == [] {
      NoWords();
    } else {
      var word := words[0];
      WordsOfWord(word);
      SpacedStep(word, words[1..]);
      assert words == [word] + words[1..];
      if |words| > 1 {
        WordsOfSpaced(words[1..]);
        NoWords();
        WordsSplit(word, ' ', Spaced(words[1..]));
        assert word + (" " + Spaced(words[1..])) == word + [' '] + Spaced(words[1..]);
      }
    }
  }

  lemma {:induction false} NoWords()
    ensures Words("") == [] && Spaced([]) == "" && !IsAlnum(' ')
  {
  }

  lemma {:induction false} WordsOfWord(w: string)
    requires IsWord(w)
    ensures Words(w) == [w]
  {
    assert w[..|w|] == w;
    assert Words(w[|w|..]) == [];
  }

  lemma {:induction false} SpacedGrows(words: seq<string>, more: seq<string>)
    ensures |Spaced(words)| <= |Spaced(words + more)|
  {
    if words == [] {
      assert words + more == more;
    } else {
      SpacedGrows(words[1..], more);
      assert (words + more)[1..] == words[1..] + more;
    }
  }

  lemma {:induction false} LoweredAppends(casing: Casing, a: string, b: string)
    ensures Lowered(casing, a + b) == Lowered(casing, a) + Lowered(casing, b)
  {
    if a == "" {
      assert a + b == b;
    } else {
      LoweredAppends(casing, a[1..], b);
      assert (a + b)[1..] == a[1..] + b;
    }
  }

  /** Two normalised texts are equal exactly when their words are. */
  lemma {:induction false} SameLookupIffSameWords(casing: Casing, a: string, b: string)
    ensures NormalizeLookup(casing, a) == NormalizeLookup(casing, b) <==> WordsOf(casing, a) == WordsOf(casing, b)
  {
    NormalizeIsWords(casing, a);
    NormalizeIsWords(casing, b);
    WordsAreWords(Lowered(casing, a));
    WordsAreWords(Lowered(casing, b));
    WordsOfSpaced(WordsOf(casing, a));
    WordsOfSpaced(WordsOf(casing, b));
    hide NormalizeLookup, Words, Spaced, Lowered, AllWords;
  }

  // ----- Tokens joined by spaces -----

  /** The words of every token, in order. */
  function TokenWords(casing: Casing, tokens: seq<string>): seq<string> {
    if tokens == [] then [] else WordsOf(casing, tokens[0]) + TokenWords(casing, tokens[1..])
  }

  lemma {:induction false} TokenWordsAppend(casing: Casing, a: seq<string>, b: seq<string>)
    ensures TokenWords(casing, a + b) == TokenWords(casing, a) + TokenWords(casing, b)
  {
    hide WordsOf;
    if a == [] {
      assert a + b == b;
    } else {
      TokenWordsAppend(casing, a[1..], b);
      assert (a + b)[1..] == a[1..] + b;
    }
  }

  /** A blank separates words. */
  lemma {:induction false} BlankSeparates(casing: Casing, a: string, c: char, b: string)
    requires casing.Lawful() && IsBlank(c)
    ensures WordsOf(casing, a + [c] + b) == WordsOf(casing, a) + WordsOf(casing, b)
  {
    LoweredAppends(casing, a + [c], b);
    LoweredAppends(casing, a, [c]);
    assert Lowered(casing, [c]) == [c];
    WordsSplit(Lowered(casing, a), c, Lowered(casing, b));
    hide Words, Lowered;
  }

  lemma {:induction false} WordsOfJoined(casing: Casing, tokens: seq<string>)
    requires casing.Lawful()
    ensures WordsOf(casing, Spaced(tokens)) == TokenWords(casing, tokens)
  {
    if |tokens| > 1 {
      WordsOfJoined(casing, tokens[1..]);
      BlankSeparates(casing, tokens[0], ' ', Spaced(tokens[1..]));
      hide WordsOf;
      assert Spaced(tokens) == tokens[0] + [' '] + Spaced(tokens[1..]);
    } else if |tokens| == 1 {
      hide WordsOf;
      assert TokenWords(casing, tokens[1..]) == [];
    }
  }

  /** The normalised form of joined tokens never gets shorter when tokens are added. */
  lemma {:induction false} LookupGrows(casing: Casing, tokens: seq<string>, more: seq<string>)
    requires casing.Lawful()
    ensures |NormalizeLookup(casing, Spaced(tokens))| <= |NormalizeLookup(casing, Spaced(tokens + more))|
  {
    NormalizeIsWords(casing, Spaced(tokens));
    NormalizeIsWords(casing, Spaced(tokens + more));
    WordsOfJoined(casing, tokens);
    WordsOfJoined(casing, tokens + more);
    TokenWordsAppend(casing, tokens, more);
    SpacedGrows(TokenWords(casing, tokens), TokenWords(casing, more));
    hide NormalizeLookup, WordsOf, TokenWords, Spaced;
  }

  /** Joined tokens and a span look the same exactly when the tokens hold the words of the span. */
  lemma {:induction false} JoinedLookup(casing: Casing, tokens: seq<string>, span: string)
    requires casing.Lawful()
    ensures NormalizeLookup(casing, Spaced(tokens)) == NormalizeLookup(casing, span)
            <==> TokenWords(casing, tokens) == WordsOf(casing, span)
  {
    SameLookupIffSameWords(casing, Spaced(tokens), span);
    WordsOfJoined(casing, tokens);
    hide NormalizeLookup, WordsOf, TokenWords, Spaced, Casing.Lawful;
  }

  lemma {:induction false} EmptyLookup(casing: Casing, span: string)
    ensures NormalizeLookup(casing, span) == "" <==> WordsOf(casing, span) == []
  {
    NormalizeIsWords(casing, span);
    WordsAreWords(Lowered(casing, span));
    var words := WordsOf(casing, span);
    if words != [] {
      SpacedEnds(words);
    }
    hide NormalizeLookup, Words, Lowered, AllWords;
  }

  // ----- The characters of words -----

  const WORD_CHARACTERS := "0123456789abcdefghijklmnopqrstuvwxyz"

  lemma {:induction false} DigitAt(k: nat)
    requires k < 10
    ensures WORD_CHARACTERS[k] as int == 48 + k
  {
  }

  lemma {:induction false} LetterAt(k: nat)
    requires k < 26
    ensures WORD_CHARACTERS[10 + k] as int == 97 + k
  {
  }

  lemma {:induction false} AlnumStands(c: char)
    requires IsAlnum(c)
    ensures c in WORD_CHARACTERS
  {
    if '0' <= c <= '9' {
      DigitAt(c as int - 48);
      assert WORD_CHARACTERS[c as int - 48] == c;
    } else {
      LetterAt(c as int - 97);
      assert WORD_CHARACTERS[10 + (c as int - 97)] == c;
    }
  }

  lemma {:induction false} AlnumIsListed(c: char)
    ensures IsAlnum(c) <==> c in WORD_CHARACTERS
  {
    if IsAlnum(c) {
      AlnumStands(c);
    }
    if c in WORD_CHARACTERS {
      var k :| 0 <= k < |WORD_CHARACTERS| && WORD_CHARACTERS[k] == c;
      if k < 10 {
        DigitAt(k);
      } else {
        LetterAt(k - 10);
      }
    }
  }

  lemma {:induction false} AllAlnum(w: string)
    requires forall k :: 0 <= k < |w| ==> IsAlnum(w[k])
    ensures AlnumRun(w) == |w|
    decreases |w|
  {
    if w != "" {
      AllAlnum(w[1..]);
    }
  }

  /**
   What words are: a text of the thirty-six characters only is one word, and any other character separates words.
   So every text has one list of words.
   */
  lemma {:induction false} WhatWordsAre(a: string, c: char, b: string, w: string)
    requires c !in WORD_CHARACTERS && w != "" && forall k :: 0 <= k < |w| ==> w[k] in WORD_CHARACTERS
    ensures Words("") == [] && Words(w) == [w]
    ensures Words(a + [c] + b) == Words(a) + Words(b)
  {
    AlnumIsListed(c);
    WordsSplit(a, c, b);
    forall k | 0 <= k < |w|
      ensures IsAlnum(w[k])
    {
      AlnumIsListed(w[k]);
    }
    AllAlnum(w);
    WordsOfWord(w);
    hide IsAlnum;
  }

  /** Words are put one space apart. */
  lemma {:induction false} WhatSpacedIs(words: seq<string>, more: seq<string>, w: string)
    requires words != [] && more != []
    ensures Spaced([]) == "" && Spaced([w]) == w
    ensures Spaced(words + more) == Spaced(words) + " " + Spaced(more)
    decreases |words|
  {
    var all := words + more;
    if |words| == 1 {
      assert all[1..] == more;
    } else {
      WhatSpacedIs(words[1..], more, w);
      assert all[1..] == words[1..] + more;
    }
  }

  /** A text is lowered character by character. */
  lemma {:induction false} WhatLoweredIs(casing: Casing, a: string, c: char, b: string)
    ensures Lowered(casing, "") == "" && Lowered(casing, [c]) == casing.lower(c)
    ensures Lowered(casing, a + b) == Lowered(casing, a) + Lowered(casing, b)
  {
    LoweredAppends(casing, a, b);
    assert [c][1..] == "";
    assert casing.lower(c) + "" == casing.lower(c);
  }
}
