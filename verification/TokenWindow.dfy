/** ml-service/app/main.py: where in a tokenised citation the value of a parsed field stands. */
module TokenWindow {
  import opened Wrappers
  import opened LookupWords

  datatype Tokenized = Tokenized(text: string, tokens: seq<string>, offsets: seq<(nat, nat)>)

  type Window = (nat, nat)

  // ----- Tokens -----

  predicate NoBlank(s: string) {
    forall k :: 0 <= k < |s| ==> !IsBlank(s[k])
  }

  predicate AllBlank(s: string) {
    forall k :: 0 <= k < |s| ==> IsBlank(s[k])
  }

  /** Where token `i` starts, or the end of the text when there is no such token. */
  function TokenStart(offsets: seq<(nat, nat)>, i: nat, size: nat): nat {
    if i < |offsets| then offsets[i].0 else size
  }

  /** Where the gap before token `i` starts. */
  function GapStart(offsets: seq<(nat, nat)>, i: nat): nat {
    if 0 < i <= |offsets| then offsets[i - 1].1 else 0
  }

  /** Tokens are non-empty, in order, with at least one character between them. */
  predicate Ordered(offsets: seq<(nat, nat)>, size: nat) {
    && (forall i :: 0 <= i < |offsets| ==> offsets[i].0 < offsets[i].1 <= size)
    && (forall i, j :: 0 <= i < j < |offsets| ==> offsets[i].1 < offsets[j].0)
  }

  /** Each token is the text between its offsets, without a blank. */
  predicate TokensAreSlices(t: Tokenized) {
    && |t.tokens| == |t.offsets|
    && Ordered(t.offsets, |t.text|)
    && (forall i :: 0 <= i < |t.tokens| ==>
          && t.tokens[i] == t.text[t.offsets[i].0..t.offsets[i].1]
          && NoBlank(t.tokens[i]))
  }

  predicate GapIsBlank(t: Tokenized, i: nat) {
    var (from, to) := (GapStart(t.offsets, i), TokenStart(t.offsets, i, |t.text|));
    from <= to <= |t.text| && AllBlank(t.text[from..to])
  }

  /** The tokens are all the maximal runs of non-blank characters. */
  predicate IsTokenization(t: Tokenized) {
    TokensAreSlices(t) && forall i :: 0 <= i <= |t.offsets| ==> GapIsBlank(t, i)
  }

  /** What is done when the scan stands at `pos`: the tokens before it, and blanks since the last. */
  ghost predicate ScannedTo(t: Tokenized, pos: nat) {
    && TokensAreSlices(t)
    && (forall i :: 0 <= i < |t.offsets| ==> GapIsBlank(t, i))
    && GapStart(t.offsets, |t.offsets|) <= pos <= |t.text|
    && AllBlank(t.text[GapStart(t.offsets, |t.offsets|)..pos])
  }

  /** After a token comes a blank, or the end. */
  predicate StandsApart(t: Tokenized, pos: nat) {
    t.offsets != [] && pos < |t.text| && !IsBlank(t.text[pos]) ==> GapStart(t.offsets, |t.offsets|) < pos
  }

  lemma {:induction false} SkipBlank(t: Tokenized, pos: nat)
    requires ScannedTo(t, pos) && pos < |t.text| && IsBlank(t.text[pos])
    ensures ScannedTo(t, pos + 1) && StandsApart(t, pos + 1)
  {
    hide IsBlank, GapIsBlank, TokensAreSlices;
    var from := GapStart(t.offsets, |t.offsets|);
    assert t.text[from..pos + 1] == t.text[from..pos] + [t.text[pos]];
  }

  lemma {:induction false} AddToken(t: Tokenized, pos: nat, end: nat)
    requires ScannedTo(t, pos) && StandsApart(t, pos) && pos < end <= |t.text|
    requires NoBlank(t.text[pos..end]) && !IsBlank(t.text[pos])
    ensures ScannedTo(Tokenized(t.text, t.tokens + [t.text[pos..end]], t.offsets + [(pos, end)]), end)
  {
    assert AllBlank("");
    hide IsBlank, NoBlank, AllBlank;
    var t' := Tokenized(t.text, t.tokens + [t.text[pos..end]], t.offsets + [(pos, end)]);
    AddSlice(t, pos, end);
    hide TokensAreSlices;
    forall i | 0 <= i < |t'.offsets|
      ensures GapIsBlank(t', i)
    {
      assert i < |t.offsets| ==> GapIsBlank(t, i);
    }
    assert t'.text[end..end] == "";
  }

  lemma {:induction false} AddSlice(t: Tokenized, pos: nat, end: nat)
    requires TokensAreSlices(t) && GapStart(t.offsets, |t.offsets|) <= pos < end <= |t.text|
    requires t.offsets == [] || GapStart(t.offsets, |t.offsets|) < pos
    requires NoBlank(t.text[pos..end])
    ensures TokensAreSlices(Tokenized(t.text, t.tokens + [t.text[pos..end]], t.offsets + [(pos, end)]))
  {
    hide NoBlank;
    var tokens, offsets := t.tokens + [t.text[pos..end]], t.offsets + [(pos, end)];
    forall i, j | 0 <= i < j < |offsets|
      ensures offsets[i].1 < offsets[j].0
    {
      assert j == |t.offsets| && i < j - 1 ==> t.offsets[i].1 < t.offsets[j - 1].0;
    }
  }

  /** `\S+` from a character it matches. */
  method RunEnd(text: string, pos: nat) returns (end: nat)
    requires pos < |text| && !IsBlank(text[pos])
    ensures pos < end <= |text| && NoBlank(text[pos..end])
    ensures end < |text| ==> IsBlank(text[end])
  {
    hide IsBlank;
    end := pos + 1;
    while end < |text| && !IsBlank(text[end])
      invariant pos < end <= |text|
      invariant forall k :: pos <= k < end ==> !IsBlank(text[k])
    {
      end := end + 1;
    }
  }

  /** `re.finditer(r"\S+", text)`, left to right. */
  method TokenizeWithOffsets(text: string) returns (t: Tokenized)
    ensures t.text == text && IsTokenization(t)
  {
    assert ScannedTo(Tokenized(text, [], []), 0) && StandsApart(Tokenized(text, [], []), 0);
    hide ScannedTo, StandsApart, IsBlank, IsTokenization;
    t := Tokenized(text, [], []);
    var pos := 0;
    while pos < |text|
      invariant pos <= |text| && t.text == text
      invariant ScannedTo(t, pos) && StandsApart(t, pos)
    {
      if IsBlank(text[pos]) {
        SkipBlank(t, pos);
        pos := pos + 1;
      } else {
        var end := RunEnd(text, pos);
        AddToken(t, pos, end);
        t := t.(tokens := t.tokens + [text[pos..end]], offsets := t.offsets + [(pos, end)]);
        pos := end;
        assert StandsApart(t, pos);
      }
    }
    assert IsTokenization(t);
  }

  // ----- The text of a window -----

  lemma {:induction false} BlanksHaveNoWords(casing: Casing, gap: string, rest: string)
    requires casing.Lawful() && AllBlank(gap)
    ensures WordsOf(casing, gap + rest) == WordsOf(casing, rest)
  {
    assert WordsOf(casing, "") == [];
    hide WordsOf, Casing.Lawful, IsBlank;
    if gap == "" {
      assert gap + rest == rest;
    } else {
      BlanksHaveNoWords(casing, gap[1..], rest);
      BlankSeparates(casing, "", gap[0], gap[1..] + rest);
      assert gap + rest == "" + [gap[0]] + (gap[1..] + rest);
    }
  }

  /** The characters from the first token of a window to its last. */
  function WindowText(t: Tokenized, w: Window): string
    requires TokensAreSlices(t) && w.0 < w.1 <= |t.tokens|
  {
    assert w.0 < w.1 - 1 ==> t.offsets[w.0].1 < t.offsets[w.1 - 1].0;
    t.text[t.offsets[w.0].0..t.offsets[w.1 - 1].1]
  }

  lemma {:induction false} WindowSplits(t: Tokenized, w: Window)
    requires IsTokenization(t) && w.0 + 1 < w.1 <= |t.tokens|
    ensures var gap := t.text[t.offsets[w.0].1..t.offsets[w.0 + 1].0];
            AllBlank(gap) && gap != "" && WindowText(t, w) == t.tokens[w.0] + gap + WindowText(t, (w.0 + 1, w.1))
  {
    assert GapIsBlank(t, w.0 + 1);
    hide NoBlank, AllBlank;
    var (s, e, n, f) := (t.offsets[w.0].0, t.offsets[w.0].1, t.offsets[w.0 + 1].0, t.offsets[w.1 - 1].1);
    assert w.0 + 1 < w.1 - 1 ==> t.offsets[w.0 + 1].1 < t.offsets[w.1 - 1].0;
    assert t.text[s..f] == t.text[s..e] + t.text[e..n] + t.text[n..f];
  }

  /** The text of a window has the words of its tokens. */
  lemma {:induction false} WindowWords(casing: Casing, t: Tokenized, w: Window)
    requires casing.Lawful() && IsTokenization(t) && w.0 < w.1 <= |t.tokens|
    ensures WordsOf(casing, WindowText(t, w)) == TokenWords(casing, t.tokens[w.0..w.1])
    decreases w.1 - w.0
  {
    if w.0 + 1 < w.1 {
      WindowSplits(t, w);
      assert TokenWords(casing, t.tokens[w.0..w.1])
             == WordsOf(casing, t.tokens[w.0]) + TokenWords(casing, t.tokens[w.0 + 1..w.1]);
      var gap, rest := t.text[t.offsets[w.0].1..t.offsets[w.0 + 1].0], WindowText(t, (w.0 + 1, w.1));
      WindowWords(casing, t, (w.0 + 1, w.1));
      hide IsTokenization, WindowText, WordsOf, Casing.Lawful, IsBlank;
      GapSeparates(casing, t.tokens[w.0], gap, rest);
    } else {
      hide WordsOf;
      assert t.tokens[w.0..w.1] == [t.tokens[w.0]];
    }
  }

  lemma {:induction false} GapSeparates(casing: Casing, token: string, gap: string, rest: string)
    requires casing.Lawful() && AllBlank(gap) && gap != ""
    ensures WordsOf(casing, token + gap + rest) == WordsOf(casing, token) + WordsOf(casing, rest)
  {
    hide WordsOf, Casing.Lawful, IsBlank;
    BlankSeparates(casing, token, gap[0], gap[1..] + rest);
    assert token + gap + rest == token + [gap[0]] + (gap[1..] + rest);
    BlanksHaveNoWords(casing, gap[1..], rest);
  }

  // ----- Tokens at a range of characters -----

  predicate Touches(offsets: seq<(nat, nat)>, i: nat, from: nat, to: nat)
    requires i < |offsets|
  {
    offsets[i].0 < to && from < offsets[i].1
  }

  /** `found` holds exactly the tokens with a character in the range, and is `None` when there are none. */
  predicate IsTouching(offsets: seq<(nat, nat)>, from: nat, to: nat, found: Option<Window>) {
    match found
    case None => forall i :: 0 <= i < |offsets| ==> !Touches(offsets, i, from, to)
    case Some(w) =>
      && w.0 < w.1 <= |offsets|
      && forall i :: 0 <= i < |offsets| ==> (Touches(offsets, i, from, to) <==> w.0 <= i < w.1)
  }

  method TokenWindowFromOffsets(offsets: seq<(nat, nat)>, from: nat, to: nat, ghost size: nat)
    returns (found: Option<Window>)
    requires Ordered(offsets, size)
    ensures IsTouching(offsets, from, to, found)
  {
    var tokenStart, tokenEnd := -1, -1;
    for i := 0 to |offsets|
      invariant -1 <= tokenStart < i && -1 <= tokenEnd <= i && tokenEnd != 0
      invariant tokenStart == -1 ==> forall k :: 0 <= k < i ==> offsets[k].1 <= from
      invariant tokenStart >= 0 ==> from < offsets[tokenStart].1 && forall k :: 0 <= k < tokenStart ==>
                  offsets[k].1 <= from
      invariant tokenEnd == -1 ==> forall k :: 0 <= k < i ==> to <= offsets[k].0
      invariant tokenEnd > 0 ==> offsets[tokenEnd - 1].0 < to && forall k :: tokenEnd <= k < i ==> to <= offsets[k].0
    {
      if tokenStart == -1 && offsets[i].1 > from {
        tokenStart := i;
      }
      if offsets[i].0 < to {
        tokenEnd := i + 1;
      }
    }
    if tokenStart == -1 || tokenEnd == -1 || tokenStart >= tokenEnd {
      return None;
    }
    return Some((tokenStart, tokenEnd));
  }

  lemma {:induction false} TouchingIsUnique(offsets: seq<(nat, nat)>, from: nat, to: nat, a: Option<Window>,
                                            b: Option<Window>)
    requires IsTouching(offsets, from, to, a) && IsTouching(offsets, from, to, b)
    ensures a == b
  {
    hide Touches;
    if a.Some? {
      assert Touches(offsets, a.value.0, from, to) && Touches(offsets, a.value.1 - 1, from, to);
    }
    if b.Some? {
      assert Touches(offsets, b.value.0, from, to) && Touches(offsets, b.value.1 - 1, from, to);
    }
  }

  /** Every character that is not blank is in a token. */
  lemma {:induction false} TokensCover(t: Tokenized, pos: nat) returns (i: nat)
    requires IsTokenization(t) && pos < |t.text| && !IsBlank(t.text[pos])
    ensures i < |t.offsets| && t.offsets[i].0 <= pos < t.offsets[i].1
  {
    hide IsBlank, TokensAreSlices;
    i := 0;
    while i < |t.offsets| && t.offsets[i].1 <= pos
      invariant 0 <= i <= |t.offsets| && GapStart(t.offsets, i) <= pos
    {
      i := i + 1;
    }
    assert GapIsBlank(t, i);
    assert pos < GapStart(t.offsets, i) || TokenStart(t.offsets, i, |t.text|) <= pos;
  }
}
