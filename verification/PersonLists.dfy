/** What `parsePersons` of `server/scripts/ingest-bibliography.ts` makes of names as they are usually written. */
module PersonLists {
  import opened Text
  import opened Persons

  // ----- Given names before the family name -----

  predicate IsGap(s: string) {
    s != "" && forall k :: 0 <= k < |s| ==> IsSpace(s[k])
  }

  predicate IsNameWord(w: string) {
    w != "" && ',' !in w && forall k :: 0 <= k < |w| ==> !IsSpace(w[k])
  }

  predicate AllNameWords(words: seq<string>) {
    forall i :: 0 <= i < |words| ==> IsNameWord(words[i])
  }

  predicate AllGaps(gaps: seq<string>) {
    forall i :: 0 <= i < |gaps| ==> IsGap(gaps[i])
  }

  /** Words with white space of any kind and length between them. */
  function Spread(words: seq<string>, gaps: seq<string>): string
    requires |words| == |gaps| + 1
  {
    if gaps == [] then words[0] else words[0] + (gaps[0] + Spread(words[1..], gaps[1..]))
  }

  /** Words one space apart. */
  function Spaced(words: seq<string>): string
    requires words != []
  {
    Spread(words, seq(|words| - 1, _ => " "))
  }

  lemma {:induction false} RunOfGap(gap: string, rest: string)
    requires (forall k :: 0 <= k < |gap| ==> IsSpace(gap[k])) && (rest == "" || !IsSpace(rest[0]))
    ensures SpaceRun(gap + rest) == |gap|
    decreases |gap|
  {
    hide IsSpace;
    if gap == "" {
      assert gap + rest == rest;
    } else {
      assert (gap + rest)[1..] == gap[1..] + rest;
      RunOfGap(gap[1..], rest);
    }
  }

  /** The first word, and those after the gap. */
  lemma {:induction false} WordsSplit(w: string, gap: string, rest: string)
    requires (forall k :: 0 <= k < |w| ==> !IsSpace(w[k])) && IsGap(gap) && rest != "" && !IsSpace(rest[0])
    ensures Words(w + (gap + rest)) == [w] + Words(rest)
    decreases |w|
  {
    hide IsSpace;
    var s := w + (gap + rest);
    if w == "" {
      assert s == gap + rest;
      RunOfGap(gap, rest);
      assert s[|gap|..] == rest;
    } else {
      assert s[0] == w[0] && s[1..] == w[1..] + (gap + rest);
      WordsSplit(w[1..], gap, rest);
      assert SpaceRun(s) == 0;
      assert [w[0]] + w[1..] == w;
    }
  }

  lemma {:induction false} SpreadOpens(words: seq<string>, gaps: seq<string>)
    requires |words| == |gaps| + 1 && AllNameWords(words)
    ensures var s := Spread(words, gaps); s != "" && s[0] == words[0][0] && !IsSpace(s[0])
  {
    hide IsSpace;
  }

  lemma {:induction false} SpreadCloses(words: seq<string>, gaps: seq<string>)
    requires |words| == |gaps| + 1 && AllNameWords(words)
    ensures var s := Spread(words, gaps); s != "" && !IsSpace(s[|s| - 1])
    decreases |words|
  {
    hide IsSpace;
    if gaps != [] {
      SpreadCloses(words[1..], gaps[1..]);
    }
  }

  lemma {:induction false} SpreadHasNoComma(words: seq<string>, gaps: seq<string>)
    requires |words| == |gaps| + 1 && AllNameWords(words) && AllGaps(gaps)
    ensures ',' !in Spread(words, gaps)
    decreases |words|
  {
    if gaps != [] {
      SpreadHasNoComma(words[1..], gaps[1..]);
      GapHasNoComma(gaps[0]);
    }
  }

  lemma {:induction false} GapHasNoComma(gap: string)
    requires IsGap(gap)
    ensures ',' !in gap
  {
  }

  lemma {:induction false} WordIsUnspaced(w: string)
    requires IsNameWord(w)
    ensures NoSpace(w)
  {
  }

  /** The words are read, however they are spaced. */
  lemma {:induction false} WordsOfSpread(words: seq<string>, gaps: seq<string>)
    requires |words| == |gaps| + 1 && AllNameWords(words) && AllGaps(gaps)
    ensures Words(Spread(words, gaps)) == words
    decreases |words|
  {
    WordIsUnspaced(words[0]);
    if gaps == [] {
      OneWord(words[0]);
    } else {
      SpreadOpens(words[1..], gaps[1..]);
      WordsOfSpread(words[1..], gaps[1..]);
      hide IsSpace, Words, Spread;
      WordsSplit(words[0], gaps[0], Spread(words[1..], gaps[1..]));
      assert Spread(words, gaps) == words[0] + (gaps[0] + Spread(words[1..], gaps[1..])) by {
        SpreadStep(words, gaps);
      }
    }
  }

  lemma {:induction false} SpreadStep(words: seq<string>, gaps: seq<string>)
    requires |words| == |gaps| + 1 && gaps != []
    ensures Spread(words, gaps) == words[0] + (gaps[0] + Spread(words[1..], gaps[1..]))
  {
  }

  lemma {:induction false} JoinIsSpaced(words: seq<string>)
    requires words != []
    ensures JoinWords(words) == Spaced(words)
  {
    if |words| > 1 {
      JoinIsSpaced(words[1..]);
      assert seq(|words| - 1, _ => " ")[1..] == seq(|words| - 2, _ => " ");
      hide JoinWords;
      JoinStep(words);
    }
  }

  lemma {:induction false} JoinStep(words: seq<string>)
    requires |words| > 1
    ensures JoinWords(words) == words[0] + (" " + JoinWords(words[1..]))
  {
    assert words[0] + " " + JoinWords(words[1..]) == words[0] + (" " + JoinWords(words[1..]));
  }

  /**
   A name of several words without a comma, with any white space between them and nothing that separates names:
   the last word is the family name, and the others, one space apart, are the given name.
   */
  lemma {:induction false} LastWordIsFamily(words: seq<string>, gaps: seq<string>)
    requires |words| == |gaps| + 1 && gaps != [] && AllNameWords(words) && AllGaps(gaps)
    requires NothingSeparates(Spread(words, gaps))
    ensures ParsePersons(Spread(words, gaps)) == [Person(words[|words| - 1], Spaced(words[..|words| - 1]))]
  {
    var s := Spread(words, gaps);
    SpreadOpens(words, gaps);
    SpreadCloses(words, gaps);
    SpreadHasNoComma(words, gaps);
    WordsOfSpread(words, gaps);
    JoinIsSpaced(words[..|words| - 1]);
    SeparatorFreeIffNothingSeparates(s);
    hide NothingSeparates, Spread, Spaced, SeparatorFree, Words, JoinWords, ParsePersons;
    OneName(s);
  }

  /** In particular a given name, in words one space apart, before the family name. */
  lemma {:induction false} GivenThenFamily(given: seq<string>, family: string)
    requires given != [] && AllNameWords(given) && IsNameWord(family)
    requires NothingSeparates(Spaced(given) + " " + family)
    ensures ParsePersons(Spaced(given) + " " + family) == [Person(family, Spaced(given))]
  {
    var words := given + [family];
    var gaps := seq(|given|, _ => " ");
    SpacedSnoc(given, family);
    assert AllNameWords(words) && AllGaps(gaps) && words[..|given|] == given;
    hide Spaced, Spread, NothingSeparates, ParsePersons;
    LastWordIsFamily(words, gaps);
  }

  lemma {:induction false} SpacedSnoc(words: seq<string>, last: string)
    requires words != []
    ensures Spread(words + [last], seq(|words|, _ => " ")) == Spaced(words) + " " + last
    decreases |words|
  {
    var all, gaps := words + [last], seq(|words|, _ => " ");
    assert all[1..] == words[1..] + [last] && gaps[1..] == seq(|words| - 1, _ => " ");
    SpreadStep(all, gaps);
    if |words| == 1 {
      assert all[1..] == [last];
      assert words[0] + (" " + last) == words[0] + " " + last;
    } else {
      SpacedSnoc(words[1..], last);
      SpreadStep(words, seq(|words| - 1, _ => " "));
      assert seq(|words| - 1, _ => " ")[1..] == seq(|words| - 2, _ => " ");
      var tail := Spaced(words[1..]);
      assert words[0] + (" " + (tail + " " + last)) == words[0] + (" " + tail) + " " + last;
    }
  }

  // ----- Names in a list -----

  /** What separates names stands nowhere in the text, in the characters themselves. */
  predicate NothingSeparates(s: string) {
    && ';' !in s && '\n' !in s
    && forall i :: 0 <= i && i + 4 < |s| && IsSpace(s[i]) && IsSpace(s[i + 4]) ==> s[i + 1..i + 4] != "and"
  }

  lemma {:induction false} RunIsSpace(s: string)
    ensures forall k :: 0 <= k < SpaceRun(s) ==> IsSpace(s[k])
    ensures SpaceRun(s) < |s| ==> !IsSpace(s[SpaceRun(s)])
    decreases |s|
  {
    hide IsSpace;
    if SpaceRun(s) > 0 {
      RunIsSpace(s[1..]);
      assert forall k :: 0 < k < |s| ==> s[k] == s[1..][k - 1];
    }
  }

  lemma {:induction false} SeparatorStands(s: string, i: nat)
    requires i <= |s| && SeparatorLength(s[i..]) > 0
    ensures !NothingSeparates(s)
  {
    var t := s[i..];
    var n := SpaceRun(t);
    RunIsSpace(t);
    hide IsSpace, SpaceRun;
    if n > 0 && "and" <= t[n..] && SpaceRun(t[n + 3..]) > 0 {
      RunIsSpace(t[n + 3..]);
      var j := i + n - 1;
      assert s[j] == t[n - 1] && s[j + 4] == t[n + 3..][0];
      assert s[j + 1..j + 4] == t[n..][..3] == "and";
    } else {
      assert t[0] == s[i];
    }
  }

  lemma {:induction false} AndSeparatesAt(s: string, i: nat)
    requires i + 4 < |s| && IsSpace(s[i]) && IsSpace(s[i + 4]) && s[i + 1..i + 4] == "and"
    ensures SeparatorLength(s[i..]) > 0
  {
    var t := s[i..];
    assert t[1] == s[i + 1..i + 4][0] == 'a' && t[0] == s[i];
    assert !IsSpace('a');
    assert SpaceRun(t) == 1 by {
      assert SpaceRun(t) == 1 + SpaceRun(t[1..]);
    }
    assert t[1..][..3] == "and" && t[4..][0] == s[i + 4];
    hide IsSpace;
  }

  /** A text is one name exactly when nothing in it separates names. */
  lemma {:induction false} SeparatorFreeIffNothingSeparates(s: string)
    ensures SeparatorFree(s) <==> NothingSeparates(s)
  {
    hide IsSpace, SeparatorLength;
    if !SeparatorFree(s) {
      var i :| 0 <= i <= |s| && SeparatorLength(s[i..]) > 0;
      SeparatorStands(s, i);
    }
    if ';' in s || '\n' in s {
      var i :| 0 <= i < |s| && (s[i] == ';' || s[i] == '\n');
      MarkSeparates(s[i..]);
    } else if !NothingSeparates(s) {
      var i :| 0 <= i && i + 4 < |s| && IsSpace(s[i]) && IsSpace(s[i + 4]) && s[i + 1..i + 4] == "and";
      AndSeparatesAt(s, i);
    }
  }

  lemma {:induction false} MarkSeparates(s: string)
    requires s != "" && (s[0] == ';' || s[0] == '\n')
    ensures SeparatorLength(s) > 0
  {
  }

  /** A text ending in a character that is no space, and not in the word "and" after a space. */
  predicate Closed(s: string) {
    s == "" || (!IsSpace(s[|s| - 1]) && !(|s| >= 4 && s[|s| - 3..] == "and" && IsSpace(s[|s| - 4])))
  }

  /** A text that can begin what follows a separator: its first character is no space. */
  predicate Open(s: string) {
    s != "" && !IsSpace(s[0])
  }

  lemma {:induction false} RunStops(a: string, t: string)
    requires t != "" && (!IsSpace(t[0]) || (a != "" && !IsSpace(a[|a| - 1])))
    ensures SpaceRun(a + t) == SpaceRun(a)
    decreases |a|
  {
    hide IsSpace;
    if a == "" {
      assert a + t == t;
    } else {
      assert (a + t)[1..] == a[1..] + t;
      if |a| > 1 || !IsSpace(t[0]) {
        RunStops(a[1..], t);
      }
    }
  }

  lemma {:induction false} AndIsBefore(a: string, t: string)
    requires t != "" && t[0] != 'a' && t[0] != 'n' && t[0] != 'd'
    ensures "and" <= a + t <==> "and" <= a
  {
    assert |a| < 3 ==> (a + t)[|a|] == t[0];
  }

  lemma {:induction false} AndEnds(a: string)
    requires |a| >= 4 && IsSpace(a[|a| - 4]) && a[|a| - 3..|a|] == "and"
    ensures !Closed(a)
  {
    assert a[|a| - 3..] == a[|a| - 3..|a|];
    hide IsSpace;
  }

  lemma {:induction false} SameAnd(a: string, n: nat, t: string)
    requires 0 < n && n + 3 <= |a| && IsSpace(a[n - 1]) && a[n..n + 3] == "and"
    requires t != "" && (t[0] == ';' || (IsSpace(t[0]) && Closed(a)))
    ensures (a + t)[n + 3..] == a[n + 3..] + t && SpaceRun(a[n + 3..] + t) == SpaceRun(a[n + 3..])
  {
    var b := a[n + 3..];
    assert (a + t)[n + 3..] == b + t;
    assert !IsSpace(';');
    if t[0] != ';' {
      if n + 3 == |a| {
        AndEnds(a);
        assert false;
      }
      assert b[|b| - 1] == a[|a| - 1];
    }
    hide IsSpace;
    RunStops(b, t);
  }

  /** A separator is found all the same whatever follows from a semicolon, or after a closed text from a space, on. */
  lemma {:induction false} SameSeparator(a: string, t: string)
    requires a != "" && t != "" && (t[0] == ';' || (IsSpace(t[0]) && Closed(a)))
    ensures SeparatorLength(a + t) == SeparatorLength(a)
  {
    var n := SpaceRun(a);
    assert (a + t)[0] == a[0];
    assert !IsSpace(';') && !IsSpace('a') && !IsSpace('n') && !IsSpace('d');
    RunStops(a, t);
    RunIsSpace(a);
    assert (a + t)[n..] == a[n..] + t;
    AndIsBefore(a[n..], t);
    hide IsSpace, SpaceRun, Closed;
    if n > 0 && "and" <= a[n..] {
      assert a[n..][..3] == a[n..n + 3];
      SameAnd(a, n, t);
    }
  }

  lemma {:induction false} ClosedAfter(a: string, n: nat)
    requires Closed(a) && n <= |a|
    ensures Closed(a[n..])
  {
    hide IsSpace;
    var b := a[n..];
    if |b| >= 4 {
      assert b[|b| - 3..] == a[|a| - 3..] && b[|b| - 4] == a[|a| - 4];
    }
  }

  /** Where a separator follows, the names before it and those after it are split on their own. */
  lemma {:induction false} SplitAtSeparator(a: string, t: string)
    requires t != "" && (t[0] == ';' || (IsSpace(t[0]) && Closed(a))) && SeparatorLength(t) > 0
    ensures SplitNames(a + t) == SplitNames(a) + SplitNames(t[SeparatorLength(t)..])
    decreases |a|
  {
    hide IsSpace, SeparatorLength, Closed;
    if a == "" {
      assert a + t == t;
      assert [""] + SplitNames(t[SeparatorLength(t)..]) == SplitNames(t);
    } else {
      SameSeparator(a, t);
      var n := if SeparatorLength(a) > 0 then SeparatorLength(a) else 1;
      if t[0] != ';' {
        ClosedAfter(a, n);
      }
      SplitAtSeparator(a[n..], t);
      SplitStep(a, t, n);
    }
  }

  lemma {:induction false} SplitStep(a: string, t: string, n: nat)
    requires a != "" && n == if SeparatorLength(a) > 0 then SeparatorLength(a) else 1
    requires SeparatorLength(a + t) == SeparatorLength(a) && SeparatorLength(t) > 0
    requires SplitNames(a[n..] + t) == SplitNames(a[n..]) + SplitNames(t[SeparatorLength(t)..])
    ensures SplitNames(a + t) == SplitNames(a) + SplitNames(t[SeparatorLength(t)..])
  {
    hide SeparatorLength;
    assert (a + t)[n..] == a[n..] + t && (a + t)[0] == a[0];
    var x, y := SplitNames(a[n..]), SplitNames(t[SeparatorLength(t)..]);
    assert [""] + (x + y) == [""] + x + y;
    assert [[a[0]] + (x + y)[0]] + (x + y)[1..] == [[a[0]] + x[0]] + x[1..] + y;
  }

  lemma {:induction false} TrimmedConcat(a: seq<string>, b: seq<string>)
    ensures NonEmptyTrimmed(a + b) == NonEmptyTrimmed(a) + NonEmptyTrimmed(b)
    decreases |a|
  {
    hide Trim;
    if a == [] {
      assert a + b == b;
    } else {
      assert (a + b)[1..] == a[1..] + b;
      TrimmedConcat(a[1..], b);
    }
  }

  lemma {:induction false} ListsAppend(s: string, a: string, b: string)
    requires SplitNames(s) == SplitNames(a) + SplitNames(b)
    ensures ParsePersons(s) == ParsePersons(a) + ParsePersons(b)
  {
    hide SplitNames, NonEmptyTrimmed, ParseName;
    TrimmedConcat(SplitNames(a), SplitNames(b));
  }

  /** A semicolon separates names, whatever stands on both sides. */
  lemma {:induction false} SemicolonSeparates(a: string, b: string)
    ensures ParsePersons(a + ";" + b) == ParsePersons(a) + ParsePersons(b)
  {
    var t := ";" + b;
    assert !IsSpace(';') && SeparatorLength(t) == 1 && t[1..] == b;
    assert a + ";" + b == a + t;
    hide SplitNames, IsSpace, SeparatorLength, ParsePersons;
    SplitAtSeparator(a, t);
    ListsAppend(a + t, a, b);
  }

  lemma {:induction false} AndLength(before: string, after: string, b: string)
    requires IsGap(before) && IsGap(after) && Open(b)
    ensures var t := before + ("and" + (after + b));
            SeparatorLength(t) == |before| + 3 + |after| && t[SeparatorLength(t)..] == b
  {
    var t := before + ("and" + (after + b));
    assert !IsSpace('a');
    hide IsSpace;
    RunOfGap(before, "and" + (after + b));
    RunOfGap(after, b);
    hide SpaceRun;
    assert t[|before|..] == "and" + (after + b) && t[|before| + 3..] == after + b;
  }

  /** The word "and" in white space separates names. */
  lemma {:induction false} AndSeparates(a: string, before: string, after: string, b: string)
    requires Closed(a) && IsGap(before) && IsGap(after) && Open(b)
    ensures ParsePersons(a + before + "and" + after + b) == ParsePersons(a) + ParsePersons(b)
  {
    var t := before + ("and" + (after + b));
    assert a + before + "and" + after + b == a + t && t[0] == before[0];
    hide SplitNames, IsSpace, SeparatorLength, ParsePersons, Open, Closed;
    AndLength(before, after, b);
    SplitAtSeparator(a, t);
    ListsAppend(a + t, a, b);
  }

  /** So does a line feed, unless it belongs to the white space around that word. */
  lemma {:induction false} LineFeedSeparates(a: string, b: string)
    requires Closed(a) && Open(b) && !(|b| > 3 && "and" <= b && IsSpace(b[3]))
    ensures ParsePersons(a + "\n" + b) == ParsePersons(a) + ParsePersons(b)
  {
    var t := "\n" + b;
    assert a + "\n" + b == a + t && t[0] == '\n' && t[1..] == b;
    LineFeedLength(b);
    assert IsSpace('\n');
    hide SplitNames, IsSpace, SeparatorLength, ParsePersons, Open, Closed;
    SplitAtSeparator(a, t);
    ListsAppend(a + t, a, b);
  }

  lemma {:induction false} LineFeedLength(b: string)
    requires Open(b) && !(|b| > 3 && "and" <= b && IsSpace(b[3]))
    ensures SeparatorLength("\n" + b) == 1
  {
    var t := "\n" + b;
    assert t[1..] == b && IsSpace('\n');
    assert SpaceRun(t) == 1 by {
      assert SpaceRun(t) == 1 + SpaceRun(b);
    }
    hide IsSpace;
    assert |t| >= 4 ==> t[4..] == b[3..];
  }

  // ----- The family name before a comma -----

  predicate Blank(s: string) {
    forall k :: 0 <= k < |s| ==> IsSpace(s[k])
  }

  lemma {:induction false} TrimLeftBlank(before: string, s: string)
    requires Blank(before) && Open(s)
    ensures TrimLeft(before + s) == s
    decreases |before|
  {
    hide IsSpace;
    if before == "" {
      assert before + s == s;
    } else {
      assert (before + s)[1..] == before[1..] + s;
      TrimLeftBlank(before[1..], s);
    }
  }

  lemma {:induction false} TrimRightBlank(s: string, after: string)
    requires Blank(after) && s != "" && !IsSpace(s[|s| - 1])
    ensures TrimRight(s + after) == s
    decreases |after|
  {
    hide IsSpace;
    if after == "" {
      assert s + after == s;
    } else {
      assert (s + after)[..|s + after| - 1] == s + after[..|after| - 1];
      TrimRightBlank(s, after[..|after| - 1]);
    }
  }

  /** Trimming takes away the white space around a text, and nothing else. */
  lemma {:induction false} TrimOf(before: string, s: string, after: string)
    requires Blank(before) && Blank(after) && s != "" && Trimmed(s)
    ensures Trim(before + s + after) == s
  {
    assert before + s + after == before + (s + after) && (s + after)[0] == s[0];
    TrimLeftBlank(before, s + after);
    TrimRightBlank(s, after);
    hide TrimLeft, TrimRight, IsSpace;
  }

  lemma {:induction false} BlankHasNoComma(s: string)
    requires Blank(s)
    ensures ',' !in s
  {
  }

  lemma {:induction false} NameAtComma(left: string, right: string, tail: string)
    requires ',' !in left && ',' !in right && (tail == "" || tail[0] == ',')
    ensures ParseName(left + ("," + (right + tail))) == Person(Trim(left), Trim(right))
  {
    var s := left + ("," + (right + tail));
    assert s[|left|] == ',' && s[|left| + 1..] == right + tail;
    BeforeCommaOf(left, "," + (right + tail));
    BeforeCommaOf(right, tail);
    hide Trim, BeforeComma;
  }

  lemma {:induction false} CommaAssoc(family: string, before: string, after: string, given: string, tail: string)
    ensures family + before + "," + after + given + tail == (family + before) + ("," + ((after + given) + tail))
  {
  }

  lemma {:induction false} CommaIsTrimmed(left: string, given: string, tail: string)
    requires left != "" && !IsSpace(left[0]) && given != "" && Trimmed(given)
    requires tail == "" || !IsSpace(tail[|tail| - 1])
    ensures left + given + tail != "" && Trimmed(left + given + tail)
  {
    var s := left + given + tail;
    assert s[|s| - 1] == if tail == "" then given[|given| - 1] else tail[|tail| - 1];
    hide IsSpace;
  }

  /** The text before the first comma is the family name, the text up to the next comma or the end the given name. */
  lemma {:induction false} FamilyBeforeComma(
      family: string, before: string, after: string, given: string, tail: string)
    requires family != "" && Trimmed(family) && ',' !in family && Blank(before) && Blank(after)
    requires given != "" && Trimmed(given) && ',' !in given
    requires tail == "" || (tail[0] == ',' && !IsSpace(tail[|tail| - 1]))
    requires NothingSeparates(family + before + "," + after + given + tail)
    ensures ParsePersons(family + before + "," + after + given + tail) == [Person(family, given)]
  {
    var left := family + before + "," + after;
    assert left[0] == family[0] && left + given + tail == family + before + "," + after + given + tail;
    var s := left + given + tail;
    BlankHasNoComma(before);
    BlankHasNoComma(after);
    TrimFamily(family, before);
    TrimGiven(after, given);
    CommaIsTrimmed(left, given, tail);
    SeparatorFreeIffNothingSeparates(s);
    hide *;
    CommaAssoc(family, before, after, given, tail);
    NameAtComma(family + before, after + given, tail);
    OneName(s);
  }

  lemma {:induction false} TrimFamily(family: string, before: string)
    requires family != "" && Trimmed(family) && Blank(before)
    ensures Trim(family + before) == family
  {
    assert "" + family + before == family + before;
    hide Trim, Trimmed, IsSpace;
    TrimOf("", family, before);
  }

  lemma {:induction false} TrimGiven(after: string, given: string)
    requires given != "" && Trimmed(given) && Blank(after)
    ensures Trim(after + given) == given
  {
    assert after + given + "" == after + given;
    hide Trim, Trimmed, IsSpace;
    TrimOf(after, given, "");
  }

  /** A single word is a family name. */
  lemma {:induction false} OneWordIsFamily(word: string)
    requires IsNameWord(word) && ';' !in word
    ensures ParsePersons(word) == [Person(word, "")]
  {
    WordIsUnspaced(word);
    WordSeparatesNothing(word);
    SeparatorFreeIffNothingSeparates(word);
    SingleName(word);
    assert Trimmed(word);
    hide ParseName, SeparatorFree, Trimmed, NothingSeparates;
    OneName(word);
  }

  lemma {:induction false} WordSeparatesNothing(word: string)
    requires IsNameWord(word) && ';' !in word
    ensures NothingSeparates(word)
  {
    assert IsSpace('\n');
    hide IsSpace;
  }
}
