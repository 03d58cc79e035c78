/** `parsePersons` of `server/scripts/ingest-bibliography.ts`, and the names it reads back. */
module Persons {
  import opened Text

  /** `given` is "" when missing. */
  datatype Person = Person(family: string, given: string)

  // ----- Splitting a list of names: /\s+and\s+|;|\n/ -----

  /** The length of the separator `s` begins with; 0 when it begins with none. */
  function SeparatorLength(s: string): (n: nat)
    ensures n <= |s|
  {
    var n := SpaceRun(s);
    if n > 0 && "and" <= s[n..] && SpaceRun(s[n + 3..]) > 0 then n + 3 + SpaceRun(s[n + 3..])
    else if s != "" && (s[0] == ';' || s[0] == '\n') then 1
    else 0
  }

  function SplitNames(s: string): (chunks: seq<string>)
    ensures |chunks| > 0
    decreases |s|
  {
    if s == "" then [""]
    else if SeparatorLength(s) > 0 then [""] + SplitNames(s[SeparatorLength(s)..])
    else
      var rest := SplitNames(s[1..]);
      [[s[0]] + rest[0]] + rest[1..]
  }

  // ----- One name -----

  /** The text before the first comma, or all of it if there is none. */
  function BeforeComma(s: string): string {
    if s == "" || s[0] == ',' then "" else [s[0]] + BeforeComma(s[1..])
  }

  /** `split(/\s+/)`. */
  function Words(s: string): (words: seq<string>)
    ensures |words| > 0
    decreases |s|
  {
    if s == "" then [""]
    else if SpaceRun(s) > 0 then [""] + Words(s[SpaceRun(s)..])
    else
      var rest := Words(s[1..]);
      [[s[0]] + rest[0]] + rest[1..]
  }

  function JoinWords(words: seq<string>): string {
    if words == [] then ""
    else if |words| == 1 then words[0]
    else words[0] + " " + JoinWords(words[1..])
  }

  function ParseName(name: string): Person {
    if ',' in name then
      var family := BeforeComma(name);
      var rest := if |family| < |name| then name[|family| + 1..] else "";
      Person(Trim(family), Trim(BeforeComma(rest)))
    else
      var parts := Words(name);
      Person(parts[|parts| - 1], JoinWords(parts[..|parts| - 1]))
  }

  function NonEmptyTrimmed(chunks: seq<string>): seq<string> {
    if chunks == [] then []
    else (if Trim(chunks[0]) != "" then [Trim(chunks[0])] else []) + NonEmptyTrimmed(chunks[1..])
  }

  function ParsePersons(value: string): seq<Person> {
    var names := NonEmptyTrimmed(SplitNames(value));
    seq(|names|, i requires 0 <= i < |names| => ParseName(names[i]))
  }

  // ----- Names that come back -----

  /** How the writer renders a name: family and given name, those that are there, with a comma between. */
  function Render(p: Person): string {
    if p.family != "" && p.given != "" then p.family + ", " + p.given
    else if p.family != "" then p.family
    else p.given
  }

  predicate SeparatorFree(s: string) {
    forall i :: 0 <= i <= |s| ==> SeparatorLength(s[i..]) == 0
  }

  lemma {:induction false} SeparatorFreeCons(s: string)
    requires s != ""
    ensures SeparatorFree(s) <==> SeparatorLength(s) == 0 && SeparatorFree(s[1..])
  {
    hide SeparatorLength;
    assert s[0..] == s;
    assert forall i :: 0 <= i <= |s[1..]| ==> s[1..][i..] == s[i + 1..];
    assert forall i :: 0 < i <= |s| ==> s[i..] == s[1..][i - 1..];
  }

  lemma {:induction false} NoSplit(s: string)
    requires SeparatorFree(s)
    ensures SplitNames(s) == [s]
    decreases |s|
  {
    if s != "" {
      SeparatorFreeCons(s);
      NoSplit(s[1..]);
      hide SeparatorLength, SeparatorFree;
      assert [s[0]] + s[1..] == s;
    }
  }

  lemma {:induction false} BeforeCommaOf(s: string, t: string)
    requires ',' !in s && (t == "" || t[0] == ',')
    ensures BeforeComma(s + t) == s
    decreases |s|
  {
    if s == "" {
      assert s + t == t;
    } else {
      assert s[0] in s && (s + t)[1..] == s[1..] + t;
      BeforeCommaOf(s[1..], t);
    }
  }

  lemma {:induction false} OneWord(s: string)
    requires NoSpace(s)
    ensures Words(s) == [s]
    decreases |s|
  {
    if s != "" {
      assert s[0] in s;
      OneWord(s[1..]);
      assert [s[0]] + s[1..] == s;
    }
  }

  lemma {:induction false} SeveralWords(s: string)
    requires !NoSpace(s)
    ensures |Words(s)| > 1
    decreases |s|
  {
    if SpaceRun(s) == 0 {
      assert s == [s[0]] + s[1..];
      assert !IsSpace(s[0]);
      SeveralWords(s[1..]);
    }
  }

  /** A trimmed chunk free of separators is one name. */
  lemma {:induction false} OneName(s: string)
    requires s != "" && Trimmed(s) && SeparatorFree(s)
    ensures ParsePersons(s) == [ParseName(s)]
  {
    NoSplit(s);
    TrimTrims(s);
    hide ParseName, SeparatorFree, Trim;
    assert NonEmptyTrimmed([s]) == [s] by {
      assert [s][1..] == [];
    }
  }

  // ----- Every name read stands somewhere in the text -----

  /** `t` is the part of `s` from position `a` on. */
  predicate StandsAt(t: string, s: string, a: nat) {
    a + |t| <= |s| && s[a..a + |t|] == t
  }

  lemma {:induction false} StandsWithin(t: string, r: string, s: string, a: nat, b: nat)
    requires StandsAt(t, r, a) && StandsAt(r, s, b)
    ensures StandsAt(t, s, b + a)
  {
    forall i | 0 <= i < |t|
      ensures s[b + a + i] == t[i]
    {
      assert s[b..b + |r|][a + i] == r[a + i] && r[a..a + |t|][i] == t[i];
    }
  }

  lemma {:induction false} TrimStands(s: string) returns (a: nat)
    ensures StandsAt(Trim(s), s, a)
  {
    TrimLeftOpens(s);
    TrimRightCloses(TrimLeft(s));
    hide TrimLeft, TrimRight;
    var left := TrimLeft(s);
    a := |s| - |left|;
    assert Trim(s) == left[..|Trim(s)|];
    assert s[a..][..|Trim(s)|] == s[a..a + |Trim(s)|];
  }

  lemma {:induction false} NothingStands(s: string)
    ensures StandsAt("", s, 0)
    ensures s == "" ==> SeparatorFree(s)
  {
  }

  lemma {:induction false} ChunkAfter(s: string, n: nat, rest: seq<string>, k: nat, b: nat)
    requires 0 < n <= |s| && 0 < k < |[""] + rest| && StandsAt(rest[k - 1], s[n..], b)
    ensures StandsAt(([""] + rest)[k], s, n + b) && |([""] + rest)[k]| < |s|
  {
    StandsWithin(rest[k - 1], s[n..], s, b, n);
  }

  lemma {:induction false} ChunkFrom(s: string, rest: seq<string>, k: nat, b: nat)
    requires s != "" && k < |rest| && StandsAt(rest[k], s[1..], b) && (k == 0 ==> b == 0)
    ensures var chunk := ([[s[0]] + rest[0]] + rest[1..])[k];
            StandsAt(chunk, s, if k == 0 then 0 else 1 + b) && (|chunk| == |s| ==> |rest[k]| == |s[1..]|)
  {
    if k == 0 {
      assert s[..1 + |rest[0]|] == [s[0]] + s[1..][..|rest[0]|];
    } else {
      StandsWithin(rest[k], s[1..], s, b, 1);
    }
  }

  /** A chunk stands in the text, and only an undivided text is its own chunk. */
  lemma {:induction false} ChunkStands(s: string, k: nat) returns (a: nat)
    requires k < |SplitNames(s)|
    ensures StandsAt(SplitNames(s)[k], s, a) && (k == 0 ==> a == 0)
    ensures |SplitNames(s)[k]| == |s| ==> SeparatorFree(s)
    decreases |s|
  {
    hide SeparatorLength, StandsAt, SeparatorFree;
    a := 0;
    NothingStands(s);
    if SeparatorLength(s) > 0 {
      var n := SeparatorLength(s);
      var rest := SplitNames(s[n..]);
      if k > 0 {
        var b := ChunkStands(s[n..], k - 1);
        hide SplitNames;
        ChunkAfter(s, n, rest, k, b);
        a := n + b;
      }
    } else if s != "" {
      SeparatorFreeCons(s);
      var rest := SplitNames(s[1..]);
      var b := ChunkStands(s[1..], k);
      ChunkFrom(s, rest, k, b);
      a := if k == 0 then 0 else 1 + b;
    }
  }

  lemma {:induction false} NameOfChunk(chunks: seq<string>, k: nat) returns (c: nat)
    requires k < |NonEmptyTrimmed(chunks)|
    ensures c < |chunks| && NonEmptyTrimmed(chunks)[k] == Trim(chunks[c]) != ""
  {
    hide Trim;
    if Trim(chunks[0]) != "" && k == 0 {
      c := 0;
    } else {
      var rest := NameOfChunk(chunks[1..], if Trim(chunks[0]) != "" then k - 1 else k);
      c := 1 + rest;
    }
  }

  /** The name a person was read from is trimmed and stands in the text; it is all of it if nothing is split off. */
  lemma {:induction false} NameStands(s: string, k: nat) returns (t: string, a: nat)
    requires k < |ParsePersons(s)|
    ensures t != "" && Trimmed(t) && StandsAt(t, s, a) && ParsePersons(s)[k] == ParseName(t)
    ensures t == s ==> SeparatorFree(s)
  {
    hide SplitNames, Trim, ParseName, SeparatorFree;
    var chunks := SplitNames(s);
    var c := NameOfChunk(chunks, k);
    t := Trim(chunks[c]);
    TrimTrims(chunks[c]);
    var b := ChunkStands(s, c);
    a := TrimStands(chunks[c]);
    StandsWithin(t, chunks[c], s, a, b);
    a := b + a;
  }

  // ----- Writing what was read gives the name back only where nothing was lost -----

  lemma {:induction false} BeforeCommaStands(s: string)
    ensures BeforeComma(s) <= s && ',' !in BeforeComma(s)
    ensures if ',' in s then |BeforeComma(s)| < |s| && s[|BeforeComma(s)|] == ',' else BeforeComma(s) == s
  {
    if s != "" && s[0] != ',' {
      BeforeCommaStands(s[1..]);
    }
  }

  lemma {:induction false} TrimIsPart(s: string)
    ensures |Trim(s)| <= |s| && (|Trim(s)| == |s| ==> Trim(s) == s)
    ensures forall c :: c in Trim(s) ==> c in s
  {
    var a := TrimStands(s);
    hide Trim;
    assert forall c :: c in s[a..a + |Trim(s)|] ==> c in s;
  }

  /** A name with a comma: both parts are trimmed, free of commas, and no longer than the text on their side. */
  lemma {:induction false} CommaName(t: string)
    requires ',' in t
    ensures var q, k := ParseName(t), |BeforeComma(t)|;
            && k < |t| && t[k] == ',' && ',' !in t[..k] && BeforeComma(t) == t[..k]
            && Trimmed(q.family) && Trimmed(q.given) && ',' !in q.family && ',' !in q.given
            && |q.family| <= k && |q.given| <= |t| - k - 1
            && (|q.family| == k ==> q.family == t[..k])
            && (|q.given| == |t| - k - 1 ==> q.given == t[k + 1..])
  {
    BeforeCommaStands(t);
    var family := BeforeComma(t);
    var rest := t[|family| + 1..];
    BeforeCommaStands(rest);
    TrimTrims(family);
    TrimIsPart(family);
    TrimTrims(BeforeComma(rest));
    TrimIsPart(BeforeComma(rest));
    hide Trim, Trimmed, BeforeComma;
  }

  lemma {:induction false} JoinedLength(s: string)
    ensures |JoinWords(Words(s))| <= |s|
    decreases |s|
  {
    if s != "" {
      if SpaceRun(s) > 0 {
        JoinedLength(s[SpaceRun(s)..]);
        assert ([""] + Words(s[SpaceRun(s)..]))[1..] == Words(s[SpaceRun(s)..]);
      } else {
        JoinedLength(s[1..]);
        var rest := Words(s[1..]);
        assert ([[s[0]] + rest[0]] + rest[1..])[1..] == rest[1..];
      }
    }
  }

  lemma {:induction false} JoinedParts(words: seq<string>)
    requires |words| > 1
    ensures |JoinWords(words)| == |JoinWords(words[..|words| - 1])| + 1 + |words[|words| - 1]|
  {
    if |words| > 2 {
      JoinedParts(words[1..]);
      assert words[..|words| - 1][1..] == words[1..][..|words| - 2];
    }
  }

  lemma {:induction false} FirstWordOpens(s: string)
    requires s != "" && !IsSpace(s[0])
    ensures Words(s)[0] != ""
  {
  }

  lemma {:induction false} JoinedNonEmpty(words: seq<string>)
    requires words != [] && words[0] != ""
    ensures JoinWords(words) != ""
  {
  }

  /**
   A name of several words without a comma: the last is the family name,
   and joining the others loses nothing but spaces.
   */
  lemma {:induction false} WordsName(t: string)
    requires t != "" && Trimmed(t) && ',' !in t && !NoSpace(t)
    ensures var q := ParseName(t); q.given != "" && |q.family| + 1 + |q.given| <= |t|
  {
    SeveralWords(t);
    JoinedLength(t);
    FirstWordOpens(t);
    hide Words, IsSpace, NoSpace;
    var parts := Words(t);
    JoinedParts(parts);
    var others := parts[..|parts| - 1];
    assert others[0] == parts[0];
    JoinedNonEmpty(others);
    hide JoinWords;
  }

  /** Where the comma of `family, given` is. */
  lemma {:induction false} OnlyComma(q: Person, i: nat)
    requires q.family != "" && q.given != "" && ',' !in q.family && ',' !in q.given
    requires i < |Render(q)| && Render(q)[i] == ','
    ensures i == |q.family|
  {
    var s := Render(q);
    assert forall j :: 0 <= j < |q.family| ==> s[j] == q.family[j] && q.family[j] in q.family;
    assert forall j :: 0 <= j < |q.given| ==> s[j + |q.family| + 2] == q.given[j] && q.given[j] in q.given;
    var j := i - |q.family| - 2;
    assert i == j + |q.family| + 2;
  }

  lemma {:induction false} CommaRestores(t: string, s: string, a: nat)
    requires ',' in t && StandsAt(t, s, a) && Render(ParseName(t)) == s
    ensures t == s && ParseName(t).family != "" && ParseName(t).given != ""
  {
    CommaName(t);
    var q, k := ParseName(t), |BeforeComma(t)|;
    assert s[a + k] == t[k] && ',' in s;
    hide ParseName, BeforeComma;
    assert q.family != "" && q.given != "";
    OnlyComma(q, a + k);
    assert |s| == |q.family| + 2 + |q.given| && s[|q.family| + 1] == ' ';
    assert a == 0 && |q.family| == k && |t| >= |s| - 1;
    assert k + 1 < |t| ==> t[k + 1..][0] == s[k + 1];
    assert q.given[0] != ' ';
    assert t[k + 1..] != q.given;
    assert s[0..0 + |s|] == s;
  }

  lemma {:induction false} WordsRestoreNot(t: string, s: string, a: nat)
    requires t != "" && Trimmed(t) && ',' !in t && !NoSpace(t) && StandsAt(t, s, a)
    ensures Render(ParseName(t)) != s
  {
    WordsName(t);
    var q := ParseName(t);
    hide ParseName, NoSpace, Trimmed;
    if Render(q) == s && q.family != "" {
      assert s[|q.family|] == ',';
      assert a <= |q.family| < a + |t|;
      CommaWithin(t, s, a, |q.family|);
    }
  }

  lemma {:induction false} CommaWithin(t: string, s: string, a: nat, i: nat)
    requires StandsAt(t, s, a) && a <= i < a + |t| && s[i] == ','
    ensures ',' in t
  {
    assert t[i - a] == s[i];
  }

  lemma {:induction false} SingleName(t: string)
    requires ',' !in t && NoSpace(t)
    ensures ParseName(t) == Person(t, "")
  {
    OneWord(t);
    assert [t][..0] == [];
  }

  /** A part of the text that is read as a name which is written as the text is all of it. */
  lemma {:induction false} RenderRestores(t: string, s: string, a: nat)
    requires t != "" && Trimmed(t) && StandsAt(t, s, a) && Render(ParseName(t)) == s
    ensures t == s
  {
    hide ParseName, NoSpace, Trimmed, StandsAt;
    if ',' in t {
      CommaRestores(t, s, a);
    } else if NoSpace(t) {
      SingleName(t);
    } else {
      WordsRestoreNot(t, s, a);
    }
  }

  // ----- Exactly which names come back -----

  /** One comma, after a character that is not a space; a space after it, and then a character that is none. */
  predicate CleanComma(s: string) {
    var k := |BeforeComma(s)|;
    && 0 < k && k + 2 < |s| && ',' !in s[k + 1..]
    && !IsSpace(s[k - 1]) && s[k + 1] == ' ' && !IsSpace(s[k + 2])
  }

  /** A text that is a name as the writer would write it. */
  predicate TextSurvives(s: string) {
    s != "" && Trimmed(s) && SeparatorFree(s) && ((NoSpace(s) && ',' !in s) || CleanComma(s))
  }

  predicate NameSurvives(p: Person) {
    && p.family != "" && Trimmed(p.family) && Trimmed(p.given) && SeparatorFree(Render(p))
    && ',' !in p.family && ',' !in p.given && (p.given != "" || NoSpace(p.family))
  }

  /** A text, or a part of it, in which some name is read that is written as the text is one undivided name. */
  lemma {:induction false} RestoredIsOne(s: string, r: string, b: nat, k: nat)
    requires StandsAt(r, s, b) && k < |ParsePersons(r)| && Render(ParsePersons(r)[k]) == s
    ensures r == s && s != "" && Trimmed(s) && SeparatorFree(s) && ParsePersons(s) == [ParseName(s)]
  {
    hide ParsePersons, ParseName, SeparatorFree, Render, Trimmed;
    var t, a := NameStands(r, k);
    StandsWithin(t, r, s, a, b);
    RenderRestores(t, s, b + a);
    assert r == s;
    OneName(s);
  }

  lemma {:induction false} PartsOfComma(before: string, given: string)
    requires ',' !in before && ',' !in given && before != "" && Trimmed(before) && given != "" && Trimmed(given)
    ensures ParseName(before + ", " + given) == Person(before, given)
  {
    var s := before + ", " + given;
    assert s == before + (", " + given) && s[|before|] == ',';
    BeforeCommaOf(before, ", " + given);
    var rest := s[|before| + 1..];
    assert rest == " " + given;
    assert rest + "" == rest;
    BeforeCommaOf(rest, "");
    assert Trim([' '] + given) == Trim(given);
    TrimTrims(before);
    TrimTrims(given);
    hide Trim, Trimmed, BeforeComma;
  }

  lemma {:induction false} CleanCommaParts(s: string)
    requires s != "" && Trimmed(s) && CleanComma(s)
    ensures Render(ParseName(s)) == s
  {
    BeforeCommaStands(s);
    var k := |BeforeComma(s)|;
    var before, given := s[..k], s[k + 2..];
    assert s == before + ", " + given;
    assert before[0] == s[0] && before[k - 1] == s[k - 1] && given[0] == s[k + 2] && given[|given| - 1] == s[|s| - 1];
    assert forall c :: c in given ==> c in s[k + 1..];
    hide BeforeComma, IsSpace;
    PartsOfComma(before, given);
  }

  lemma {:induction false} CommaIsClean(s: string)
    requires ',' in s && Render(ParseName(s)) == s
    ensures CleanComma(s)
  {
    CommaName(s);
    assert s[0..|s|] == s;
    CommaRestores(s, s, 0);
    var q, k := ParseName(s), |BeforeComma(s)|;
    hide ParseName, BeforeComma, IsSpace;
    assert s == q.family + ", " + q.given;
    OnlyComma(q, k);
    assert s[k - 1] == q.family[k - 1] && s[k + 2] == q.given[0];
    assert s[k + 1..] == " " + q.given;
  }

  /** A trimmed name is written as it was read exactly when it is one word or has a clean comma. */
  lemma {:induction false} WrittenBack(s: string)
    requires s != "" && Trimmed(s)
    ensures Render(ParseName(s)) == s <==> (NoSpace(s) && ',' !in s) || CleanComma(s)
  {
    BeforeCommaStands(s);
    assert CleanComma(s) ==> ',' in s;
    hide ParseName, BeforeComma, CleanComma, Trimmed, NoSpace;
    if ',' in s {
      if CleanComma(s) {
        CleanCommaParts(s);
      } else if Render(ParseName(s)) == s {
        CommaIsClean(s);
      }
    } else if NoSpace(s) {
      SingleName(s);
    } else {
      assert s[0..|s|] == s;
      WordsRestoreNot(s, s, 0);
    }
  }

  /** A text is read as one person, and that person written as the text, exactly when the text survives. */
  lemma {:induction false} AuthorTextRoundTrip(s: string)
    ensures |ParsePersons(Trim(s))| == 1 && Render(ParsePersons(Trim(s))[0]) == s <==> TextSurvives(s)
  {
    TrimTrims(s);
    hide ParsePersons, ParseName, SeparatorFree, Render, Trimmed, Trim, NoSpace, CleanComma;
    if |ParsePersons(Trim(s))| == 1 && Render(ParsePersons(Trim(s))[0]) == s {
      var b := TrimStands(s);
      RestoredIsOne(s, Trim(s), b, 0);
      WrittenBack(s);
    }
    if TextSurvives(s) {
      OneName(s);
      WrittenBack(s);
    }
  }

  lemma {:induction false} SurvivorRead(p: Person)
    requires NameSurvives(p)
    ensures Render(p) != "" && Trimmed(Render(p)) && ParseName(Render(p)) == p
  {
    var s := Render(p);
    hide SeparatorFree;
    if p.given != "" {
      assert s[0] == p.family[0] && s[|s| - 1] == p.given[|p.given| - 1];
      hide Trimmed;
      PartsOfComma(p.family, p.given);
    } else {
      SingleName(s);
    }
  }

  lemma {:induction false} ReadSurvives(p: Person)
    requires var s := Render(p); s != "" && Trimmed(s) && SeparatorFree(s) && ParseName(s) == p
    ensures NameSurvives(p)
  {
    var s := Render(p);
    assert s[0..|s|] == s;
    hide SeparatorFree, ParseName, Trimmed, NoSpace;
    if ',' in s {
      CommaRestores(s, s, 0);
      CommaName(s);
    } else if NoSpace(s) {
      SingleName(s);
      TrimmedEmpty();
    } else {
      WordsRestoreNot(s, s, 0);
    }
  }

  lemma {:induction false} TrimmedEmpty()
    ensures Trimmed("")
  {
  }

  /**
   A person is read back as written exactly when there is a family name, both parts are trimmed and free of commas,
   nothing in the written name separates names, and a missing given name leaves a family of a single word.
   It makes no difference whether the reader trims the line first.
   */
  lemma {:induction false} NameRoundTrip(p: Person)
    ensures ParsePersons(Render(p)) == [p] <==> NameSurvives(p)
    ensures ParsePersons(Trim(Render(p))) == [p] <==> NameSurvives(p)
  {
    var s := Render(p);
    TrimTrims(s);
    assert s[0..|s|] == s && StandsAt(s, s, 0);
    hide ParsePersons, ParseName, SeparatorFree, Render, Trimmed, Trim, NameSurvives, StandsAt;
    if ParsePersons(s) == [p] {
      RestoredIsOne(s, s, 0, 0);
      ReadSurvives(p);
    }
    if ParsePersons(Trim(s)) == [p] {
      var b := TrimStands(s);
      RestoredIsOne(s, Trim(s), b, 0);
      ReadSurvives(p);
    }
    if NameSurvives(p) {
      SurvivorRead(p);
      SurvivorFree(p);
      OneName(s);
    }
  }

  lemma {:induction false} SurvivorFree(p: Person)
    requires NameSurvives(p)
    ensures SeparatorFree(Render(p))
  {
    hide SeparatorFree;
  }
}
