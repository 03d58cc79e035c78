/**
 The RIS writer of PortableOutput.tsx against the RIS reader of `server/scripts/ingest-bibliography.ts`.
 */
module Ris {
  import opened Wrappers
  import opened Text
  import opened Persons

  // ----- The writer's input -----

  datatype Author = Plain(text: string) | Name(person: Person)

  /** Every text is "" when missing. */
  datatype Parsed = Parsed(
    referenceType: string, authors: seq<Author>, title: string, journal: string, bookTitle: string,
    conferenceTitle: string, year: string, volume: string, issue: string, pages: string, url: string)

  function AuthorText(a: Author): string {
    match a
    case Plain(text) => text
    case Name(p) => Render(p)
  }

  function TypeCode(referenceType: string): string {
    if referenceType == "book" then "BOOK"
    else if referenceType == "conference" then "CPAPER"
    else if referenceType == "website" then "ELEC"
    else "JOUR"
  }

  function Line(code: string, value: string): string {
    code + "  - " + value
  }

  /** A line for a value that is there. */
  function Opt(code: string, value: string): seq<string> {
    if value != "" then [Line(code, value)] else []
  }

  function AuthorLines(authors: seq<Author>): seq<string> {
    seq(|authors|, i requires 0 <= i < |authors| => Line("AU", AuthorText(authors[i])))
  }

  function Container(p: Parsed): string {
    if p.bookTitle != "" then p.bookTitle else p.conferenceTitle
  }

  /** The optional lines, in the order in which they are written. */
  function FieldsOf(p: Parsed): seq<(string, string)> {
    TitleFields(p) + NumberFields(p)
  }

  function TitleFields(p: Parsed): seq<(string, string)> {
    [("TI", p.title), ("JO", p.journal), ("T2", Container(p))]
  }

  function NumberFields(p: Parsed): seq<(string, string)> {
    [("PY", p.year), ("VL", p.volume), ("IS", p.issue), ("SP", p.pages), ("UR", p.url)]
  }

  function OptLines(fields: seq<(string, string)>): seq<string> {
    if fields == [] then [] else Opt(fields[0].0, fields[0].1) + OptLines(fields[1..])
  }

  function EntryLines(p: Parsed): seq<string> {
    [Line("TY", TypeCode(p.referenceType))] + AuthorLines(p.authors) + OptLines(FieldsOf(p)) + [Line("ER", "")]
  }

  function JoinWith(parts: seq<string>, separator: string): string {
    if parts == [] then ""
    else if |parts| == 1 then parts[0]
    else parts[0] + separator + JoinWith(parts[1..], separator)
  }

  function ToRisEntry(p: Parsed): string {
    JoinWith(EntryLines(p), "\n")
  }

  function ExportRis(refs: seq<Parsed>): string {
    JoinWith(seq(|refs|, i requires 0 <= i < |refs| => ToRisEntry(refs[i])), "\n\n")
  }

  // ----- The reader -----

  /** A record read; editors are listed separately, and every other field may be missing. */
  datatype Record = Record(
    authors: seq<Person>, editors: seq<Person>, year: Option<string>, title: Option<string>, journal: Option<string>,
    publisher: Option<string>, placeOfPublication: Option<string>, volume: Option<string>, issue: Option<string>,
    pages: Option<string>, doi: Option<string>, url: Option<string>)

  const EMPTY := Record([], [], None, None, None, None, None, None, None, None, None, None)

  datatype Field =
    | TypeTag | EndTag | AuthorTag | EditorTag | YearTag | TitleTag | JournalTag | PublisherTag | PlaceTag
    | VolumeTag | IssueTag | PagesTag | DoiTag | UrlTag | OtherTag

  function Classify(tag: string): Field {
    if |tag| != 2 then OtherTag
    else
      match (tag[0], tag[1])
      case ('T', 'Y') => TypeTag
      case ('E', 'R') => EndTag
      case ('A', 'U') => AuthorTag
      case ('A', '1') => AuthorTag
      case ('E', 'D') => EditorTag
      case ('P', 'Y') => YearTag
      case ('Y', '1') => YearTag
      case ('T', 'I') => TitleTag
      case ('T', '1') => TitleTag
      case ('J', 'O') => JournalTag
      case ('J', 'F') => JournalTag
      case ('T', '2') => JournalTag
      case ('P', 'B') => PublisherTag
      case ('C', 'Y') => PlaceTag
      case ('V', 'L') => VolumeTag
      case ('I', 'S') => IssueTag
      case ('S', 'P') => PagesTag
      case ('D', 'O') => DoiTag
      case ('U', 'R') => UrlTag
      case _ => OtherTag
  }

  /** `slice(0, n)` and `slice(n)`, which are lenient about short strings. */
  function Take(s: string, n: nat): string { if n <= |s| then s[..n] else s }
  function Drop(s: string, n: nat): string { if n <= |s| then s[n..] else "" }

  predicate HasContent(r: Record) {
    r.authors != [] || (r.title.Some? && r.title.value != "")
  }

  function SetField(r: Record, field: Field, value: string): Record {
    match field
    case AuthorTag => r.(authors := r.authors + ParsePersons(value))
    case EditorTag => r.(editors := r.editors + ParsePersons(value))
    case YearTag => r.(year := Some(Take(value, 4)))
    case TitleTag => r.(title := Some(value))
    case JournalTag => r.(journal := Some(value))
    case PublisherTag => r.(publisher := Some(value))
    case PlaceTag => r.(placeOfPublication := Some(value))
    case VolumeTag => r.(volume := Some(value))
    case IssueTag => r.(issue := Some(value))
    case PagesTag => r.(pages := Some(value))
    case DoiTag => r.(doi := Some(value))
    case UrlTag => r.(url := Some(value))
    case _ => r
  }

  /** The records closed so far, and the open one. */
  datatype Reader = Reader(refs: seq<Record>, current: Option<Record>)

  function Close(st: Reader): Reader {
    match st.current
    case Some(r) => Reader(if HasContent(r) then st.refs + [r] else st.refs, None)
    case None => st
  }

  function ReadLine(st: Reader, line: string): Reader {
    var field, value := Classify(Take(line, 2)), Trim(Drop(line, 6));
    if field == TypeTag then Reader(st.refs, Some(EMPTY))
    else if st.current == None then st
    else if field == EndTag then Close(st)
    else Reader(st.refs, Some(SetField(st.current.value, field, value)))
  }

  function ReadLines(st: Reader, lines: seq<string>): Reader
    decreases |lines|
  {
    if lines == [] then st else ReadLines(ReadLine(st, lines[0]), lines[1..])
  }

  function Records(content: string): seq<Record> {
    ReadLines(Reader([], None), SplitLines(content)).refs
  }

  method ParseRis(content: string) returns (refs: seq<Record>)
    ensures refs == Records(content)
  {
    hide Classify, SplitLines, SetField, HasContent;
    refs := [];
    var current: Option<Record> := None;
    var lines := SplitLines(content);
    for i := 0 to |lines|
      invariant ReadLines(Reader([], None), lines) == ReadLines(Reader(refs, current), lines[i..])
    {
      var line := lines[i];
      assert lines[i..][0] == line && lines[i..][1..] == lines[i + 1..];
      var field := Classify(Take(line, 2));
      var value := Trim(Drop(line, 6));
      if field == TypeTag {
        current := Some(EMPTY);
        continue;
      }
      if current == None {
        continue;
      }
      if field == EndTag {
        if HasContent(current.value) {
          refs := refs + [current.value];
        }
        current := None;
        continue;
      }
      current := Some(SetField(current.value, field, value));
    }
  }

  // ----- What a record should come back as -----

  function Given(value: string): Option<string> {
    if value != "" then Some(Trim(value)) else None
  }

  function AllPersons(authors: seq<Author>): seq<Person> {
    if authors == [] then [] else ParsePersons(Trim(AuthorText(authors[0]))) + AllPersons(authors[1..])
  }

  /** The record an entry denotes: the book or conference title takes the place of the journal. */
  function Denotes(p: Parsed): Record {
    EMPTY.(
      authors := AllPersons(p.authors),
      title := Given(p.title),
      journal := if Container(p) != "" then Given(Container(p)) else Given(p.journal),
      year := if p.year != "" then Some(Take(Trim(p.year), 4)) else None,
      volume := Given(p.volume), issue := Given(p.issue), pages := Given(p.pages), url := Given(p.url))
  }

  /** Records with neither author nor title are dropped by the reader. */
  function AllDenoted(refs: seq<Parsed>): seq<Record> {
    if refs == [] then []
    else (if HasContent(Denotes(refs[0])) then [Denotes(refs[0])] else []) + AllDenoted(refs[1..])
  }

  /** No value written holds a line feed. */
  predicate OneLine(p: Parsed) {
    && (forall i :: 0 <= i < |p.authors| ==> '\n' !in AuthorText(p.authors[i]))
    && '\n' !in p.journal && TextsInLine(p)
  }

  predicate TextsInLine(p: Parsed) {
    && '\n' !in p.title && '\n' !in Container(p) && '\n' !in p.year
    && '\n' !in p.volume && '\n' !in p.issue && '\n' !in p.pages && '\n' !in p.url
  }

  // ----- Lines -----

  lemma {:induction false} SplitFirst(line: string, rest: string)
    requires '\n' !in line
    ensures SplitLines(line + "\n" + rest) == [DropCR(line)] + SplitLines(rest)
    decreases |line|
  {
    var s := line + "\n" + rest;
    if line == "" {
      assert s[1..] == rest;
    } else if line == "\r" {
      assert s[2..] == rest;
    } else {
      assert line[0] in line && s[0] == line[0];
      assert s[1] != '\n' || s[0] != '\r' by {
        if |line| > 1 {
          assert line[1] in line && s[1] == line[1];
        }
      }
      assert s[1..] == line[1..] + "\n" + rest;
      SplitFirst(line[1..], rest);
      assert DropCR(line) == [line[0]] + DropCR(line[1..]);
    }
  }

  lemma {:induction false} SplitLast(line: string)
    requires '\n' !in line
    ensures SplitLines(line) == [line]
    decreases |line|
  {
    if line != "" {
      assert line[0] in line;
      if |line| > 1 {
        assert line[1] in line;
      }
      SplitLast(line[1..]);
      assert [line[0]] + line[1..] == line;
    }
  }

  ghost predicate NoneBreaks(lines: seq<string>) {
    forall i :: 0 <= i < |lines| ==> '\n' !in lines[i]
  }

  function AllDropCR(lines: seq<string>): seq<string> {
    seq(|lines|, i requires 0 <= i < |lines| => DropCR(lines[i]))
  }

  lemma {:induction false} DropCRFirst(lines: seq<string>)
    requires lines != []
    ensures AllDropCR(lines) == [DropCR(lines[0])] + AllDropCR(lines[1..])
  {
    hide DropCR;
  }

  lemma {:induction false} JoinedFirst(lines: seq<string>, rest: string)
    requires lines != []
    ensures JoinWith(lines, "\n") + "\n" + rest
         == lines[0] + "\n" + if |lines| == 1 then rest else JoinWith(lines[1..], "\n") + "\n" + rest
  {
    if |lines| > 1 {
      var tail := JoinWith(lines[1..], "\n");
      assert lines[0] + "\n" + tail + "\n" + rest == lines[0] + "\n" + (tail + "\n" + rest);
    }
  }

  lemma {:induction false} SplitJoined(lines: seq<string>, rest: string)
    requires lines != [] && NoneBreaks(lines)
    ensures SplitLines(JoinWith(lines, "\n") + "\n" + rest) == AllDropCR(lines) + SplitLines(rest)
    decreases |lines|
  {
    JoinedFirst(lines, rest);
    DropCRFirst(lines);
    assert '\n' !in lines[0] && NoneBreaks(lines[1..]);
    hide *;
    if |lines| == 1 {
      SplitFirst(lines[0], rest);
      assert AllDropCR([]) == [];
      assert lines[1..] == [];
    } else {
      SplitFirst(lines[0], JoinWith(lines[1..], "\n") + "\n" + rest);
      SplitJoined(lines[1..], rest);
      Assoc([DropCR(lines[0])], AllDropCR(lines[1..]), SplitLines(rest));
    }
  }


  lemma {:induction false} ReadAppend(st: Reader, a: seq<string>, b: seq<string>)
    ensures ReadLines(st, a + b) == ReadLines(ReadLines(st, a), b)
    decreases |a|
  {
    hide ReadLine;
    if a == [] {
      assert a + b == b;
    } else {
      assert (a + b)[1..] == a[1..] + b;
      ReadAppend(ReadLine(st, a[0]), a[1..], b);
    }
  }

  lemma {:induction false} ReadOne(st: Reader, line: string)
    ensures ReadLines(st, [line]) == ReadLine(st, line)
  {
    hide ReadLine;
    assert [line][1..] == [];
  }

  // ----- Reading one entry -----

  /** The codes the writer uses are read as the fields they stand for. */
  lemma {:induction false} CodesRead()
    ensures Classify("TY") == TypeTag && Classify("ER") == EndTag && Classify("AU") == AuthorTag
    ensures Classify("TI") == TitleTag && Classify("JO") == JournalTag && Classify("T2") == JournalTag
    ensures Classify("PY") == YearTag && Classify("VL") == VolumeTag && Classify("IS") == IssueTag
    ensures Classify("SP") == PagesTag && Classify("UR") == UrlTag && Classify("") == OtherTag
  {
  }

  /**
   The tag and the value of a written line survive,
   even where a carriage return at the end is taken for part of the line break.
   */
  lemma {:induction false} LineParts(code: string, value: string)
    requires |code| == 2
    ensures Take(DropCR(Line(code, value)), 2) == code
    ensures Trim(Drop(DropCR(Line(code, value)), 6)) == Trim(value)
  {
    var line := Line(code, value);
    assert line == code + ("  - " + value);
    assert line[6..] == value && line[..2] == code;
    if value != "" && value[|value| - 1] == '\r' {
      var v := value[..|value| - 1];
      assert line[|line| - 1] == '\r' && line[..|line| - 1][6..] == v && line[..|line| - 1][..2] == code;
      assert v + ['\r'] == value;
      TrimSpaceAfter(v, '\r');
    } else if value == "" {
      assert line[|line| - 1] == ' ';
    } else {
      assert line[|line| - 1] == value[|value| - 1];
    }
  }

  lemma {:induction false} ReadValueLine(refs: seq<Record>, r: Record, code: string, value: string)
    requires |code| == 2 && Classify(code) != TypeTag && Classify(code) != EndTag
    ensures ReadLine(Reader(refs, Some(r)), DropCR(Line(code, value)))
         == Reader(refs, Some(SetField(r, Classify(code), Trim(value))))
  {
    LineParts(code, value);
    hide Classify, Trim, SetField;
  }

  /** What the optional lines set. */
  function SetFields(r: Record, fields: seq<(string, string)>): Record
    decreases |fields|
  {
    if fields == [] then r else SetFields(SetOpt(r, fields[0].0, fields[0].1), fields[1..])
  }

  function SetOpt(r: Record, code: string, value: string): Record {
    if value != "" then SetField(r, Classify(code), Trim(value)) else r
  }

  lemma {:induction false} DropCRConcat(a: seq<string>, b: seq<string>)
    ensures AllDropCR(a + b) == AllDropCR(a) + AllDropCR(b)
  {
    hide DropCR;
  }

  ghost predicate FieldCodes(fields: seq<(string, string)>) {
    forall i :: 0 <= i < |fields| ==>
        |fields[i].0| == 2 && Classify(fields[i].0) != TypeTag && Classify(fields[i].0) != EndTag
  }

  lemma {:induction false} ReadFields(refs: seq<Record>, r: Record, fields: seq<(string, string)>)
    requires FieldCodes(fields)
    ensures ReadLines(Reader(refs, Some(r)), AllDropCR(OptLines(fields))) == Reader(refs, Some(SetFields(r, fields)))
    decreases |fields|
  {
    hide Classify, SetField, Trim, DropCR, Line;
    if fields != [] {
      var (code, value) := fields[0];
      var head, tail := Opt(code, value), OptLines(fields[1..]);
      DropCRConcat(head, tail);
      ReadAppend(Reader(refs, Some(r)), AllDropCR(head), AllDropCR(tail));
      if value != "" {
        ReadValueLine(refs, r, code, value);
        assert AllDropCR(head) == [DropCR(Line(code, value))];
        ReadOne(Reader(refs, Some(r)), DropCR(Line(code, value)));
        ReadFields(refs, SetField(r, Classify(code), Trim(value)), fields[1..]);
      } else {
        assert AllDropCR(head) == [];
        ReadFields(refs, r, fields[1..]);
      }
    }
  }

  lemma {:induction false} ReadAuthors(refs: seq<Record>, r: Record, authors: seq<Author>)
    ensures ReadLines(Reader(refs, Some(r)), AllDropCR(AuthorLines(authors)))
         == Reader(refs, Some(r.(authors := r.authors + AllPersons(authors))))
    decreases |authors|
  {
    CodesRead();
    hide Classify, Trim, DropCR, Line, ParsePersons, AuthorText;
    var lines := AllDropCR(AuthorLines(authors));
    if authors == [] {
      assert r.authors + [] == r.authors;
    } else {
      var value := AuthorText(authors[0]);
      var r' := r.(authors := r.authors + ParsePersons(Trim(value)));
      ReadValueLine(refs, r, "AU", value);
      assert lines == [DropCR(Line("AU", value))] + AllDropCR(AuthorLines(authors[1..]));
      ReadAuthors(refs, r', authors[1..]);
      Assoc(r.authors, ParsePersons(Trim(value)), AllPersons(authors[1..]));
    }
  }

  lemma {:induction false} SetFieldsAt(r: Record, fields: seq<(string, string)>, k: nat)
    requires k < |fields|
    ensures SetFields(r, fields[k..]) == SetFields(SetOpt(r, fields[k].0, fields[k].1), fields[k + 1..])
  {
    hide SetOpt;
    assert fields[k..][1..] == fields[k + 1..];
  }

  function Or(value: string, before: Option<string>): Option<string> {
    if value != "" then Some(Trim(value)) else before
  }

  /** A text that is there replaces the field. */
  lemma {:induction false} SetTitleText(r: Record, value: string)
    ensures SetOpt(r, "TI", value) == r.(title := Or(value, r.title))
    ensures SetOpt(r, "JO", value) == r.(journal := Or(value, r.journal))
    ensures SetOpt(r, "T2", value) == r.(journal := Or(value, r.journal))
  {
    CodesRead();
    hide Classify, Trim;
  }

  lemma {:induction false} SetNumberText(r: Record, value: string)
    ensures SetOpt(r, "PY", value) == r.(year := if value != "" then Some(Take(Trim(value), 4)) else r.year)
    ensures SetOpt(r, "VL", value) == r.(volume := Or(value, r.volume))
  {
    CodesRead();
    hide Classify, Trim;
  }

  lemma {:induction false} SetLastText(r: Record, value: string)
    ensures SetOpt(r, "IS", value) == r.(issue := Or(value, r.issue))
    ensures SetOpt(r, "SP", value) == r.(pages := Or(value, r.pages))
    ensures SetOpt(r, "UR", value) == r.(url := Or(value, r.url))
  {
    CodesRead();
    hide Classify, Trim;
  }

  lemma {:induction false} SetFieldsConcat(r: Record, a: seq<(string, string)>, b: seq<(string, string)>)
    ensures SetFields(r, a + b) == SetFields(SetFields(r, a), b)
    decreases |a|
  {
    hide SetOpt;
    if a == [] {
      assert a + b == b;
    } else {
      assert (a + b)[1..] == a[1..] + b;
      SetFieldsConcat(SetOpt(r, a[0].0, a[0].1), a[1..], b);
    }
  }

  lemma {:induction false} SetTitles(r: Record, p: Parsed)
    requires r.title == None && r.journal == None
    ensures SetFields(r, TitleFields(p)) ==
            r.(title := Given(p.title), journal := if Container(p) != "" then Given(Container(p)) else Given(p.journal))
  {
    hide Classify, Trim, Container, SetFields, SetOpt;
    var f := TitleFields(p);
    var r1 := r.(title := Or(p.title, None));
    var r2 := r1.(journal := Or(p.journal, None));
    assert f[0..] == f && f[3..] == [];
    SetFieldsAt(r, f, 0);
    SetTitleText(r, p.title);
    SetFieldsAt(r1, f, 1);
    SetTitleText(r1, p.journal);
    SetFieldsAt(r2, f, 2);
    SetTitleText(r2, Container(p));
    NoMoreFields(r2.(journal := Or(Container(p), r2.journal)));
  }

  lemma {:induction false} SetNumbers(r: Record, p: Parsed)
    requires r.year == None && r.volume == None && r.issue == None && r.pages == None && r.url == None
    ensures SetFields(r, NumberFields(p)) ==
            r.(year := if p.year != "" then Some(Take(Trim(p.year), 4)) else None,
               volume := Given(p.volume), issue := Given(p.issue), pages := Given(p.pages), url := Given(p.url))
  {
    hide Classify, Trim, SetFields, SetOpt, Take;
    var f := NumberFields(p);
    var r1 := r.(year := if p.year != "" then Some(Take(Trim(p.year), 4)) else None);
    var r2 := r1.(volume := Or(p.volume, None));
    assert f[0..] == f;
    SetFieldsAt(r, f, 0);
    SetNumberText(r, p.year);
    SetFieldsAt(r1, f, 1);
    SetNumberText(r1, p.volume);
    SetLast(r2, p, f);
  }

  lemma {:induction false} SetLast(r: Record, p: Parsed, f: seq<(string, string)>)
    requires f == NumberFields(p) && r.issue == None && r.pages == None && r.url == None
    ensures SetFields(r, f[2..]) == r.(issue := Given(p.issue), pages := Given(p.pages), url := Given(p.url))
  {
    hide Classify, Trim, SetFields, SetOpt, Take;
    var r1 := r.(issue := Or(p.issue, None));
    var r2 := r1.(pages := Or(p.pages, None));
    var r3 := r2.(url := Or(p.url, None));
    assert f[5..] == [];
    SetFieldsAt(r, f, 2);
    SetLastText(r, p.issue);
    SetFieldsAt(r1, f, 3);
    SetLastText(r1, p.pages);
    SetFieldsAt(r2, f, 4);
    SetLastText(r2, p.url);
    NoMoreFields(r3);
  }

  /** The fields of an entry, set after its authors, make the record it denotes. */
  lemma {:induction false} FieldsDenote(p: Parsed)
    ensures FieldCodes(FieldsOf(p))
    ensures SetFields(EMPTY.(authors := AllPersons(p.authors)), FieldsOf(p)) == Denotes(p)
  {
    CodesRead();
    assert FieldCodes(TitleFields(p)) && FieldCodes(NumberFields(p));
    hide Classify, Trim, AllPersons, Container, SetFields, TitleFields, NumberFields, Given, Take;
    var r := EMPTY.(authors := AllPersons(p.authors));
    SetFieldsConcat(r, TitleFields(p), NumberFields(p));
    SetTitles(r, p);
    SetNumbers(SetFields(r, TitleFields(p)), p);
  }

  lemma {:induction false} NoMoreFields(r: Record)
    ensures SetFields(r, []) == r
  {
  }

  lemma {:induction false} ReadFixedLine(st: Reader, code: string, value: string)
    requires |code| == 2
    requires Classify(code) == TypeTag || (Classify(code) == EndTag && st.current.Some?)
    ensures ReadLine(st, DropCR(Line(code, value)))
         == if Classify(code) == TypeTag then Reader(st.refs, Some(EMPTY)) else Close(st)
  {
    LineParts(code, value);
    hide Classify, Trim;
  }

  lemma {:induction false} EntryInParts(p: Parsed)
    ensures AllDropCR(EntryLines(p))
         == [DropCR(Line("TY", TypeCode(p.referenceType)))] + AllDropCR(AuthorLines(p.authors))
           + AllDropCR(OptLines(FieldsOf(p)))
            + [DropCR(Line("ER", ""))]
  {
    hide DropCR, Line, OptLines, FieldsOf, AuthorLines, TypeCode;
    var first, last := Line("TY", TypeCode(p.referenceType)), Line("ER", "");
    var authors, fields := AuthorLines(p.authors), OptLines(FieldsOf(p));
    DropCRConcat([first] + authors + fields, [last]);
    DropCRConcat([first] + authors, fields);
    DropCRConcat([first], authors);
    assert AllDropCR([first]) == [DropCR(first)] && AllDropCR([last]) == [DropCR(last)];
  }

  lemma {:induction false} ReadParts(st: Reader, a: seq<string>, b: seq<string>, c: seq<string>, d: seq<string>)
    ensures ReadLines(st, a + b + c + d) == ReadLines(ReadLines(ReadLines(ReadLines(st, a), b), c), d)
  {
    hide ReadLines;
    ReadAppend(st, a, b);
    ReadAppend(st, a + b, c);
    ReadAppend(st, a + b + c, d);
  }

  /** Reading an entry's lines from scratch adds the record it denotes, if it has content. */
  lemma {:induction false} ReadEntry(refs: seq<Record>, p: Parsed)
    ensures ReadLines(Reader(refs, None), AllDropCR(EntryLines(p))) == Close(Reader(refs, Some(Denotes(p))))
  {
    CodesRead();
    FieldsDenote(p);
    EntryInParts(p);
    assert EMPTY.authors == [];
    hide *;
    var first, last := DropCR(Line("TY", TypeCode(p.referenceType))), DropCR(Line("ER", ""));
    var authors, fields := AllDropCR(AuthorLines(p.authors)), AllDropCR(OptLines(FieldsOf(p)));
    ReadParts(Reader(refs, None), [first], authors, fields, [last]);
    ReadFixedLine(Reader(refs, None), "TY", TypeCode(p.referenceType));
    ReadOne(Reader(refs, None), first);
    ReadAuthors(refs, EMPTY, p.authors);
    assert [] + AllPersons(p.authors) == AllPersons(p.authors);
    ReadFields(refs, EMPTY.(authors := AllPersons(p.authors)), FieldsOf(p));
    ReadFixedLine(Reader(refs, Some(Denotes(p))), "ER", "");
    ReadOne(Reader(refs, Some(Denotes(p))), last);
  }

  // ----- Reading a whole export -----

  lemma {:induction false} SplitJoinedEnd(lines: seq<string>)
    requires lines != [] && NoneBreaks(lines) && DropCR(lines[|lines| - 1]) == lines[|lines| - 1]
    ensures SplitLines(JoinWith(lines, "\n")) == AllDropCR(lines)
    decreases |lines|
  {
    if |lines| == 1 {
      SplitLast(lines[0]);
    } else {
      SplitFirst(lines[0], JoinWith(lines[1..], "\n"));
      SplitJoinedEnd(lines[1..]);
      hide SplitLines, DropCR;
      assert AllDropCR(lines) == [DropCR(lines[0])] + AllDropCR(lines[1..]);
    }
  }

  lemma {:induction false} OptBreaks(fields: seq<(string, string)>)
    requires forall i :: 0 <= i < |fields| ==> '\n' !in fields[i].0 && '\n' !in fields[i].1
    ensures NoneBreaks(OptLines(fields))
    decreases |fields|
  {
    if fields != [] {
      assert forall i :: 0 <= i < |fields[1..]| ==> fields[1..][i] == fields[i + 1];
      OptBreaks(fields[1..]);
      assert '\n' !in "  - ";
    }
  }

  lemma {:induction false} EntryBreaks(p: Parsed)
    requires OneLine(p)
    ensures NoneBreaks(EntryLines(p)) && EntryLines(p) != []
    ensures EntryLines(p)[|EntryLines(p)| - 1] == Line("ER", "") && DropCR(Line("ER", "")) == Line("ER", "")
  {
    OptBreaks(FieldsOf(p));
    forall i | 0 <= i < |p.authors|
      ensures '\n' !in Line("AU", AuthorText(p.authors[i]))
    {
    }
    assert NoneBreaks(AuthorLines(p.authors));
    assert NoneBreaks([Line("TY", TypeCode(p.referenceType))]) && NoneBreaks([Line("ER", "")]);
    hide Line, TypeCode, AuthorText, FieldsOf, OptLines;
  }

  lemma {:induction false} ExportMore(refs: seq<Parsed>)
    requires |refs| > 1
    ensures ExportRis(refs) == JoinWith(EntryLines(refs[0]), "\n") + "\n" + ("\n" + ExportRis(refs[1..]))
  {
    hide EntryLines;
    var parts := seq(|refs|, i requires 0 <= i < |refs| => ToRisEntry(refs[i]));
    assert parts[1..] == seq(|refs[1..]|, i requires 0 <= i < |refs[1..]| => ToRisEntry(refs[1..][i]));
    assert "\n\n" == "\n" + "\n";
  }

  function Kept(p: Parsed): seq<Record> {
    if HasContent(Denotes(p)) then [Denotes(p)] else []
  }

  lemma {:induction false} CloseKeeps(read: seq<Record>, p: Parsed)
    ensures Close(Reader(read, Some(Denotes(p)))) == Reader(read + Kept(p), None)
  {
    hide Denotes, HasContent;
    assert read + [] == read;
  }

  lemma {:induction false} ReadBlank(refs: seq<Record>)
    ensures ReadLines(Reader(refs, None), [""]) == Reader(refs, None)
  {
    assert [""][1..] == [];
  }

  lemma {:induction false} SplitBlank(rest: string)
    ensures SplitLines("\n" + rest) == [""] + SplitLines(rest)
  {
    assert ("\n" + rest)[1..] == rest;
  }

  lemma {:induction false} ReadLast(read: seq<Record>, p: Parsed)
    requires OneLine(p)
    ensures ReadLines(Reader(read, None), SplitLines(ExportRis([p]))) == Reader(read + Kept(p), None)
  {
    hide *;
    EntryBreaks(p);
    CloseKeeps(read, p);
    ReadEntry(read, p);
    SplitJoinedEnd(EntryLines(p));
    OneExported(p);
  }

  lemma {:induction false} ReadFirst(read: seq<Record>, refs: seq<Parsed>)
    requires |refs| > 1 && OneLine(refs[0])
    ensures ReadLines(Reader(read, None), SplitLines(ExportRis(refs)))
         == ReadLines(Reader(read + Kept(refs[0]), None), SplitLines(ExportRis(refs[1..])))
  {
    hide *;
    EntryBreaks(refs[0]);
    CloseKeeps(read, refs[0]);
    ReadEntry(read, refs[0]);
    var lines, rest, next := EntryLines(refs[0]), ExportRis(refs[1..]), Reader(read + Kept(refs[0]), None);
    ExportMore(refs);
    SplitJoined(lines, "\n" + rest);
    SplitBlank(rest);
    ReadAppend(Reader(read, None), AllDropCR(lines), [""] + SplitLines(rest));
    ReadAppend(next, [""], SplitLines(rest));
    ReadBlank(next.refs);
  }

  predicate AllOneLine(refs: seq<Parsed>) {
    forall i :: 0 <= i < |refs| ==> OneLine(refs[i])
  }

  lemma {:induction false} DenotedFirst(refs: seq<Parsed>)
    requires refs != []
    ensures AllDenoted(refs) == Kept(refs[0]) + AllDenoted(refs[1..])
  {
    hide Denotes, HasContent;
  }

  lemma {:induction false} ReadExport(read: seq<Record>, refs: seq<Parsed>)
    requires AllOneLine(refs)
    ensures ReadLines(Reader(read, None), SplitLines(ExportRis(refs))) == Reader(read + AllDenoted(refs), None)
    decreases |refs|
  {
    if refs == [] {
      assert ReadLines(Reader(read, None), SplitLines(ExportRis([]))) == Reader(read + AllDenoted([]), None);
    } else {
      assert OneLine(refs[0]) && AllOneLine(refs[1..]);
      hide *;
      DenotedFirst(refs);
      if |refs| == 1 {
        ReadLast(read, refs[0]);
        assert AllDenoted([]) == [];
        assert refs == [refs[0]] && refs[1..] == [];
        assert Kept(refs[0]) + [] == Kept(refs[0]);
      } else {
        ReadFirst(read, refs);
        ReadExport(read + Kept(refs[0]), refs[1..]);
        Assoc(read, Kept(refs[0]), AllDenoted(refs[1..]));
      }
    }
  }

  lemma {:induction false} OneExported(p: Parsed)
    ensures ExportRis([p]) == JoinWith(EntryLines(p), "\n")
  {
    hide EntryLines;
  }

  /**
   Reading an export back gives, in order, the records the references denote, those without author and title
   left out.  The only condition is that no value holds a line feed.
   */
  lemma {:induction false} ExportReadsBack(refs: seq<Parsed>)
    requires AllOneLine(refs)
    ensures Records(ExportRis(refs)) == AllDenoted(refs)
  {
    hide SplitLines, ReadLines, ExportRis, AllOneLine;
    ReadExport([], refs);
    assert [] + AllDenoted(refs) == AllDenoted(refs);
  }
}
