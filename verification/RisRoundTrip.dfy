/**
 Which references a RIS export gives back: written by PortableOutput.tsx, read by
 `server/scripts/ingest-bibliography.ts`.
 */
module RisRoundTrip {
  import opened Wrappers
  import opened Text
  import opened Persons
  import opened Ris

  // ----- Which authors come back as they were -----

  /** The person read stands for the author: it is the name, or it is written as the text. */
  predicate Restores(a: Author, q: Person) {
    match a
    case Plain(text) => Render(q) == text
    case Name(p) => q == p
  }

  predicate AuthorSurvives(a: Author) {
    match a
    case Plain(text) => TextSurvives(text)
    case Name(p) => NameSurvives(p)
  }

  predicate AllAuthorsSurvive(authors: seq<Author>) {
    forall i :: 0 <= i < |authors| ==> AuthorSurvives(authors[i])
  }

  /** One person for each author, in order. */
  predicate AllRestored(authors: seq<Author>, persons: seq<Person>) {
    |authors| == |persons| && forall i :: 0 <= i < |authors| ==> Restores(authors[i], persons[i])
  }

  function PersonsOf(a: Author): seq<Person> {
    ParsePersons(Trim(AuthorText(a)))
  }

  /** An author's line that yields the author at all yields nothing else. */
  lemma {:induction false} RestoredAlone(a: Author, k: nat)
    requires k < |PersonsOf(a)| && Restores(a, PersonsOf(a)[k])
    ensures |PersonsOf(a)| == 1
  {
    var s := AuthorText(a);
    hide ParsePersons, ParseName, SeparatorFree, Render, Trimmed, Trim, StandsAt;
    var b := TrimStands(s);
    RestoredIsOne(s, Trim(s), b, k);
  }

  lemma {:induction false} AuthorRoundTrip(a: Author)
    ensures |PersonsOf(a)| == 1 && Restores(a, PersonsOf(a)[0]) <==> AuthorSurvives(a)
  {
    hide ParsePersons, Render, Trim, TextSurvives, NameSurvives;
    match a
    case Plain(text) => AuthorTextRoundTrip(text);
    case Name(p) =>
      NameRoundTrip(p);
      assert |PersonsOf(a)| == 1 ==> PersonsOf(a) == [PersonsOf(a)[0]];
  }

  lemma {:induction false} AllPersonsFirst(authors: seq<Author>)
    requires authors != []
    ensures AllPersons(authors) == PersonsOf(authors[0]) + AllPersons(authors[1..])
  {
  }

  /** `authors` are restored by the persons from number `d` on. */
  predicate RestoredFrom(authors: seq<Author>, persons: seq<Person>, d: nat) {
    |persons| == |authors| + d && forall i :: 0 <= i < |authors| ==> Restores(authors[i], persons[d + i])
  }

  /** Dropping the first author and the persons of its line. */
  lemma {:induction false} RestoredRest(authors: seq<Author>, first: seq<Person>, rest: seq<Person>, d: nat)
    requires authors != [] && RestoredFrom(authors, first + rest, d)
    ensures d < |first| ==> Restores(authors[0], first[d])
    ensures |first| <= d + 1 ==> RestoredFrom(authors[1..], rest, d + 1 - |first|)
  {
    hide Restores;
    var persons := first + rest;
    assert Restores(authors[0], persons[d + 0]);
    if |first| <= d + 1 {
      forall i | 0 <= i < |authors[1..]|
        ensures Restores(authors[1..][i], rest[d + 1 - |first| + i])
      {
        assert Restores(authors[i + 1], persons[d + (i + 1)]);
      }
    }
  }

  lemma {:induction false} SurviveFirst(authors: seq<Author>)
    requires authors != []
    ensures AllAuthorsSurvive(authors) <==> AuthorSurvives(authors[0]) && AllAuthorsSurvive(authors[1..])
  {
    hide AuthorSurvives;
    assert forall i :: 0 < i < |authors| ==> authors[i] == authors[1..][i - 1];
  }

  lemma {:induction false} RestoredCons(authors: seq<Author>, q: Person, rest: seq<Person>)
    requires authors != [] && Restores(authors[0], q) && AllRestored(authors[1..], rest)
    ensures AllRestored(authors, [q] + rest)
  {
    hide Restores;
    forall i | 0 <= i < |authors|
      ensures Restores(authors[i], ([q] + rest)[i])
    {
      assert i > 0 ==> Restores(authors[1..][i - 1], rest[i - 1]);
    }
  }

  lemma {:induction false} NoneToRestore(authors: seq<Author>, d: nat)
    requires authors == [] && RestoredFrom(authors, AllPersons(authors), d)
    ensures d == 0 && AllAuthorsSurvive(authors)
  {
  }

  /** The persons read line up with the authors only where every line yields its own. */
  lemma {:induction false} AuthorsLineUp(authors: seq<Author>, d: nat)
    requires RestoredFrom(authors, AllPersons(authors), d)
    ensures d == 0 && AllAuthorsSurvive(authors)
    decreases |authors|
  {
    hide *;
    if authors == [] {
      NoneToRestore(authors, d);
    } else {
      var first, rest := PersonsOf(authors[0]), AllPersons(authors[1..]);
      AllPersonsFirst(authors);
      SurviveFirst(authors);
      RestoredRest(authors, first, rest, d);
      AuthorRoundTrip(authors[0]);
      if d < |first| {
        RestoredAlone(authors[0], d);
      }
      AuthorsLineUp(authors[1..], d + 1 - |first|);
    }
  }

  lemma {:induction false} SurvivorsRestored(authors: seq<Author>)
    requires AllAuthorsSurvive(authors)
    ensures AllRestored(authors, AllPersons(authors))
    decreases |authors|
  {
    if authors != [] {
      hide *;
      var first := PersonsOf(authors[0]);
      SurviveFirst(authors);
      AllPersonsFirst(authors);
      AuthorRoundTrip(authors[0]);
      SurvivorsRestored(authors[1..]);
      assert first == [first[0]];
      RestoredCons(authors, first[0], AllPersons(authors[1..]));
    }
  }

  /** The authors come back one by one, in order, exactly when each of them survives. */
  lemma {:induction false} AuthorsRoundTrip(authors: seq<Author>)
    ensures AllRestored(authors, AllPersons(authors)) <==> AllAuthorsSurvive(authors)
  {
    if AllRestored(authors, AllPersons(authors)) {
      assert RestoredFrom(authors, AllPersons(authors), 0);
      hide AllRestored, AllAuthorsSurvive, RestoredFrom;
      AuthorsLineUp(authors, 0);
    }
    if AllAuthorsSurvive(authors) {
      hide AllRestored, AllAuthorsSurvive;
      SurvivorsRestored(authors);
    }
  }

  // ----- Which references come back as they were -----

  function AsIs(value: string): Option<string> {
    if value != "" then Some(value) else None
  }

  /** The record has the values of the reference as they stand, and nothing else. */
  predicate Verbatim(p: Parsed, r: Record) {
    && AllRestored(p.authors, r.authors)
    && r == EMPTY.(
      authors := r.authors, title := AsIs(p.title),
      journal := if Container(p) != "" then AsIs(Container(p)) else AsIs(p.journal),
      year := AsIs(p.year), volume := AsIs(p.volume), issue := AsIs(p.issue),
      pages := AsIs(p.pages), url := AsIs(p.url))
  }

  /** A trimmed year of at most four characters. */
  predicate YearSurvives(year: string) {
    Trimmed(year) && |year| <= 4
  }

  lemma {:induction false} YearRoundTrip(year: string)
    ensures Take(Trim(year), 4) == year <==> YearSurvives(year)
  {
    TrimTrims(year);
    TrimShortens(year);
    hide Trim, Trimmed;
    if Take(Trim(year), 4) == year {
      assert Trim(year) == year;
    }
  }

  lemma {:induction false} TextRoundTrip(value: string)
    ensures Given(value) == AsIs(value) <==> Trimmed(value)
  {
    TrimTrims(value);
    hide Trim;
  }

  lemma {:induction false} YearField(year: string)
    ensures (if year != "" then Some(Take(Trim(year), 4)) else None) == AsIs(year) <==> YearSurvives(year)
  {
    YearRoundTrip(year);
    hide Trim, Take;
  }

  predicate TextsSurvive(p: Parsed) {
    && Trimmed(p.title) && YearSurvives(p.year)
    && Trimmed(if Container(p) != "" then Container(p) else p.journal)
    && Trimmed(p.volume) && Trimmed(p.issue) && Trimmed(p.pages) && Trimmed(p.url)
  }

  /**
   A reference denotes a record with its own values exactly when its authors survive, its texts are trimmed,
   and its year is trimmed and has at most four characters.
   */
  lemma {:induction false} DenotesVerbatim(p: Parsed)
    ensures Verbatim(p, Denotes(p)) <==> AllAuthorsSurvive(p.authors) && TextsSurvive(p)
  {
    AuthorsRoundTrip(p.authors);
    TextRoundTrip(p.title);
    TextRoundTrip(if Container(p) != "" then Container(p) else p.journal);
    TextRoundTrip(p.volume);
    TextRoundTrip(p.issue);
    TextRoundTrip(p.pages);
    TextRoundTrip(p.url);
    YearField(p.year);
    hide AllAuthorsSurvive, AllRestored, AllPersons, Trimmed, Trim, Container, Given, AsIs, YearSurvives, Take;
  }

  // ----- What is read has no line feed -----

  predicate InLine(s: string) {
    '\n' !in s
  }

  predicate OptInLine(value: Option<string>) {
    value.Some? ==> InLine(value.value)
  }

  predicate PersonsInLine(persons: seq<Person>) {
    forall i :: 0 <= i < |persons| ==> InLine(Render(persons[i]))
  }

  /** No author and no text of the record has a line feed. */
  predicate RecordInLine(r: Record) {
    && PersonsInLine(r.authors) && OptInLine(r.title) && OptInLine(r.journal) && OptInLine(r.year)
    && OptInLine(r.volume) && OptInLine(r.issue) && OptInLine(r.pages) && OptInLine(r.url)
  }

  lemma {:induction false} LinesInLine(s: string)
    ensures forall i :: 0 <= i < |SplitLines(s)| ==> InLine(SplitLines(s)[i])
    decreases |s|
  {
    if s != "" {
      if s[0] == '\n' {
        LinesInLine(s[1..]);
      } else if |s| > 1 && s[0] == '\r' && s[1] == '\n' {
        LinesInLine(s[2..]);
      } else {
        LinesInLine(s[1..]);
      }
    }
  }

  lemma {:induction false} PartInLine(t: string, s: string, a: nat)
    requires StandsAt(t, s, a) && InLine(s)
    ensures InLine(t)
  {
    assert forall c :: c in s[a..a + |t|] ==> c in s;
  }

  lemma {:induction false} WordsInLine(s: string)
    requires InLine(s)
    ensures forall i :: 0 <= i < |Words(s)| ==> InLine(Words(s)[i])
    decreases |s|
  {
    if s != "" {
      if SpaceRun(s) > 0 {
        WordsInLine(s[SpaceRun(s)..]);
      } else {
        WordsInLine(s[1..]);
        assert s[0] in s;
      }
    }
  }

  lemma {:induction false} JoinedInLine(words: seq<string>)
    requires forall i :: 0 <= i < |words| ==> InLine(words[i])
    ensures InLine(JoinWords(words))
  {
    if |words| > 1 {
      JoinedInLine(words[1..]);
    }
  }

  lemma {:induction false} NameInLine(t: string)
    requires InLine(t)
    ensures InLine(Render(ParseName(t)))
  {
    if ',' in t {
      BeforeCommaStands(t);
      var rest := t[|BeforeComma(t)| + 1..];
      BeforeCommaStands(rest);
      TrimIsPart(BeforeComma(t));
      TrimIsPart(BeforeComma(rest));
      hide Trim, BeforeComma;
    } else {
      WordsInLine(t);
      var parts := Words(t);
      hide Words;
      JoinedInLine(parts[..|parts| - 1]);
      hide JoinWords;
    }
  }

  lemma {:induction false} PersonsReadInLine(value: string)
    requires InLine(value)
    ensures PersonsInLine(ParsePersons(value))
  {
    hide ParsePersons, ParseName, Render, Trimmed, StandsAt, SeparatorFree;
    forall k | 0 <= k < |ParsePersons(value)|
      ensures InLine(Render(ParsePersons(value)[k]))
    {
      var t, a := NameStands(value, k);
      PartInLine(t, value, a);
      NameInLine(t);
    }
  }

  lemma {:induction false} FieldInLine(r: Record, field: Field, value: string)
    requires RecordInLine(r) && InLine(value)
    ensures RecordInLine(SetField(r, field, value))
  {
    PersonsReadInLine(value);
    assert InLine(Take(value, 4));
    hide InLine, ParsePersons, Render;
    if field.AuthorTag? {
      MorePersons(r.authors, ParsePersons(value));
    }
    hide PersonsInLine;
  }

  lemma {:induction false} MorePersons(a: seq<Person>, b: seq<Person>)
    requires PersonsInLine(a) && PersonsInLine(b)
    ensures PersonsInLine(a + b)
  {
    hide InLine, Render;
  }

  predicate AllInLine(records: seq<Record>) {
    forall i :: 0 <= i < |records| ==> RecordInLine(records[i])
  }

  predicate ReaderInLine(st: Reader) {
    AllInLine(st.refs) && (st.current.Some? ==> RecordInLine(st.current.value))
  }

  lemma {:induction false} ValueInLine(line: string)
    requires InLine(line)
    ensures InLine(Trim(Drop(line, 6)))
  {
    TrimIsPart(Drop(line, 6));
    hide Trim;
  }

  lemma {:induction false} LineKeepsInLine(st: Reader, line: string)
    requires ReaderInLine(st) && InLine(line)
    ensures ReaderInLine(ReadLine(st, line))
  {
    ValueInLine(line);
    assert RecordInLine(EMPTY);
    var field, value := Classify(Take(line, 2)), Trim(Drop(line, 6));
    hide RecordInLine, InLine, Trim, Classify, SetField, HasContent;
    if st.current.Some? {
      FieldInLine(st.current.value, field, value);
    }
  }

  lemma {:induction false} LinesKeepInLine(st: Reader, lines: seq<string>)
    requires ReaderInLine(st) && forall i :: 0 <= i < |lines| ==> InLine(lines[i])
    ensures ReaderInLine(ReadLines(st, lines))
    decreases |lines|
  {
    if lines != [] {
      hide ReaderInLine, InLine, ReadLine;
      LineKeepsInLine(st, lines[0]);
      LinesKeepInLine(ReadLine(st, lines[0]), lines[1..]);
    }
  }

  /** Whatever the text, no record read from it has a line feed. */
  lemma {:induction false} RecordsInLine(content: string)
    ensures AllInLine(Records(content))
  {
    LinesInLine(content);
    hide SplitLines, ReadLines, InLine, RecordInLine;
    LinesKeepInLine(Reader([], None), SplitLines(content));
  }

  /** So a reference with a line feed in a value is never given back. */
  lemma {:induction false} VerbatimInLine(p: Parsed, r: Record)
    requires Verbatim(p, r) && RecordInLine(r) && (Container(p) != "" ==> InLine(p.journal))
    ensures OneLine(p)
  {
    forall i | 0 <= i < |p.authors|
      ensures InLine(AuthorText(p.authors[i]))
    {
      assert Restores(p.authors[i], r.authors[i]) && InLine(Render(r.authors[i]));
    }
    hide AllRestored, PersonsInLine, AuthorText, Container;
  }

  // ----- Whole exports -----

  /**
   What the caller can check: the authors and the texts survive, no value has a line feed,
   and there is an author or a title.
   */
  predicate ReferenceSurvives(p: Parsed) {
    AllAuthorsSurvive(p.authors) && TextsSurvive(p) && TextsInLine(p) && InLine(p.journal)
      && (p.authors != [] || p.title != "")
  }

  /** One record for each reference, in order, with its values. */
  predicate AllVerbatim(refs: seq<Parsed>, records: seq<Record>) {
    |refs| == |records| && forall i :: 0 <= i < |refs| ==> Verbatim(refs[i], records[i])
  }

  predicate AllReferencesSurvive(refs: seq<Parsed>) {
    forall i :: 0 <= i < |refs| ==> ReferenceSurvives(refs[i])
  }

  lemma {:induction false} ContentKept(p: Parsed, r: Record)
    requires Verbatim(p, r)
    ensures HasContent(r) <==> p.authors != [] || p.title != ""
  {
    hide Restores, Container;
  }

  predicate Content(p: Parsed) {
    HasContent(Denotes(p))
  }

  predicate AllContent(refs: seq<Parsed>) {
    forall i :: 0 <= i < |refs| ==> Content(refs[i])
  }

  predicate AreDenoted(refs: seq<Parsed>, records: seq<Record>) {
    |refs| == |records| && forall i :: 0 <= i < |refs| ==> records[i] == Denotes(refs[i])
  }

  lemma {:induction false} ContentFirst(refs: seq<Parsed>, rest: seq<Record>)
    requires refs != []
    ensures AllContent(refs) <==> Content(refs[0]) && AllContent(refs[1..])
    ensures AreDenoted(refs[1..], rest) ==> AreDenoted(refs, [Denotes(refs[0])] + rest)
  {
    hide Content, Denotes;
    assert forall i :: 0 < i < |refs| ==> refs[i] == refs[1..][i - 1];
  }

  /** Nothing is dropped, and the records are those denoted, exactly when every reference has content. */
  lemma {:induction false} NoneDropped(refs: seq<Parsed>)
    ensures |AllDenoted(refs)| <= |refs| && (|AllDenoted(refs)| == |refs| <==> AllContent(refs))
    ensures AllContent(refs) ==> AreDenoted(refs, AllDenoted(refs))
    decreases |refs|
  {
    if refs != [] {
      DenotedFirst(refs);
      NoneDropped(refs[1..]);
      ContentFirst(refs, AllDenoted(refs[1..]));
      hide AllDenoted, Denotes, HasContent, AllContent, AreDenoted;
    }
  }

  lemma {:induction false} SeparatorFreeInLine(s: string)
    requires SeparatorFree(s)
    ensures InLine(s)
  {
    forall i | 0 <= i < |s|
      ensures s[i] != '\n'
    {
      assert SeparatorLength(s[i..]) == 0 && s[i..][0] == s[i];
    }
  }

  lemma {:induction false} SurvivorInLine(p: Parsed)
    requires ReferenceSurvives(p)
    ensures OneLine(p)
  {
    forall i | 0 <= i < |p.authors|
      ensures InLine(AuthorText(p.authors[i]))
    {
      assert AuthorSurvives(p.authors[i]);
      hide SeparatorFree, Trimmed, NoSpace, CleanComma;
      SeparatorFreeInLine(AuthorText(p.authors[i]));
    }
    hide AllAuthorsSurvive, TextsSurvive;
  }

  lemma {:induction false} DenotedSurvives(p: Parsed)
    ensures ReferenceSurvives(p) <==> Verbatim(p, Denotes(p)) && Content(p) && OneLine(p)
  {
    DenotesVerbatim(p);
    if Verbatim(p, Denotes(p)) {
      ContentKept(p, Denotes(p));
    }
    hide AllAuthorsSurvive, TextsSurvive, TextsInLine, Denotes, Verbatim, HasContent, AuthorText;
    if ReferenceSurvives(p) {
      SurvivorInLine(p);
    }
  }

  /** Where a book or conference title hides the journal, the journal has no line feed either. */
  predicate HiddenInLine(refs: seq<Parsed>) {
    forall i :: 0 <= i < |refs| ==> Container(refs[i]) != "" ==> InLine(refs[i].journal)
  }

  lemma {:induction false} GivenBackInLine(refs: seq<Parsed>)
    requires HiddenInLine(refs) && AllVerbatim(refs, Records(ExportRis(refs)))
    ensures AllOneLine(refs)
  {
    RecordsInLine(ExportRis(refs));
    var records := Records(ExportRis(refs));
    hide Records, ExportRis, OneLine, Verbatim, RecordInLine, InLine, Container;
    forall i | 0 <= i < |refs|
      ensures OneLine(refs[i])
    {
      VerbatimInLine(refs[i], records[i]);
    }
  }

  lemma {:induction false} OneLineRoundTrip(refs: seq<Parsed>)
    requires AllOneLine(refs)
    ensures AllVerbatim(refs, Records(ExportRis(refs))) <==> AllReferencesSurvive(refs)
  {
    ExportReadsBack(refs);
    NoneDropped(refs);
    hide Records, ExportRis, OneLine, Verbatim, ReferenceSurvives, Denotes, Content, AllDenoted;
    forall i | 0 <= i < |refs|
      ensures OneLine(refs[i])
      ensures ReferenceSurvives(refs[i]) <==> Verbatim(refs[i], Denotes(refs[i])) && Content(refs[i])
    {
      DenotedSurvives(refs[i]);
    }
  }

  /**
   An export of references that survive reads back as one record for each, in order, with the same values.
   Nothing else reads back so, except perhaps where a journal that a book or conference title replaces
   has line feeds, and with them writes lines of its own.
   */
  lemma {:induction false} ExportRoundTrip(refs: seq<Parsed>)
    ensures AllReferencesSurvive(refs) ==> AllVerbatim(refs, Records(ExportRis(refs)))
    ensures HiddenInLine(refs) ==> (AllVerbatim(refs, Records(ExportRis(refs))) <==> AllReferencesSurvive(refs))
  {
    hide *;
    if AllReferencesSurvive(refs) {
      SurvivorsInLine(refs);
      OneLineRoundTrip(refs);
    } else if HiddenInLine(refs) && AllVerbatim(refs, Records(ExportRis(refs))) {
      GivenBackInLine(refs);
      OneLineRoundTrip(refs);
    }
  }

  lemma {:induction false} SurvivorsInLine(refs: seq<Parsed>)
    requires AllReferencesSurvive(refs)
    ensures AllOneLine(refs)
  {
    hide OneLine, ReferenceSurvives;
    forall i | 0 <= i < |refs|
      ensures OneLine(refs[i])
    {
      SurvivorInLine(refs[i]);
    }
  }
}
