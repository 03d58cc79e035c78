/** What the RIS reader of `server/scripts/ingest-bibliography.ts` makes of each line, and of a whole file. */
module RisLines {
  import opened Wrappers
  import opened Text
  import opened Persons
  import opened PersonLists
  import opened Ris

  // ----- One line inside a record -----

  /** The text begins in the seventh column, whatever stands in the four before it; a shorter line has none. */
  predicate Columns(between: string, text: string) {
    |between| == 4 || (|between| < 4 && text == "")
  }

  /** The state after a line with this code and this text, in an open record. */
  function After(refs: seq<Record>, r: Record, code: string, between: string, text: string): Reader {
    ReadLine(Reader(refs, Some(r)), code + between + text)
  }

  lemma {:induction false} Sets(refs: seq<Record>, r: Record, code: string, between: string, text: string)
    requires |code| == 2 && Classify(code) != TypeTag && Classify(code) != EndTag && Columns(between, text)
    ensures After(refs, r, code, between, text) == Reader(refs, Some(SetField(r, Classify(code), Trim(text))))
  {
    var line := code + between + text;
    assert line[..2] == code && Take(line, 2) == code;
    assert Drop(line, 6) == text;
    hide Classify, SetField, Trim, Take, Drop;
  }

  /** People are added to those already read, in order. */
  lemma {:induction false} PeopleLines(refs: seq<Record>, r: Record, between: string, text: string)
    requires Columns(between, text)
    ensures var people := ParsePersons(Trim(text));
            && After(refs, r, "AU", between, text) == Reader(refs, Some(r.(authors := r.authors + people)))
            && After(refs, r, "A1", between, text) == Reader(refs, Some(r.(authors := r.authors + people)))
            && After(refs, r, "ED", between, text) == Reader(refs, Some(r.(editors := r.editors + people)))
  {
    Sets(refs, r, "AU", between, text);
    Sets(refs, r, "A1", between, text);
    Sets(refs, r, "ED", between, text);
    hide After, Columns, ParsePersons, Trim;
  }

  /** The first four characters are the year. */
  lemma {:induction false} YearLines(refs: seq<Record>, r: Record, between: string, text: string)
    requires Columns(between, text)
    ensures var value := if |Trim(text)| > 4 then Trim(text)[..4] else Trim(text);
            && After(refs, r, "PY", between, text) == Reader(refs, Some(r.(year := Some(value))))
            && After(refs, r, "Y1", between, text) == Reader(refs, Some(r.(year := Some(value))))
  {
    Sets(refs, r, "PY", between, text);
    Sets(refs, r, "Y1", between, text);
    assert |Trim(text)| == 4 ==> Trim(text)[..4] == Trim(text);
    hide After, Columns, Trim;
  }

  /** A title replaces the one before, and so does a journal, whichever of their codes they have. */
  lemma {:induction false} TitleLines(refs: seq<Record>, r: Record, between: string, text: string)
    requires Columns(between, text)
    ensures var value := Some(Trim(text));
            && After(refs, r, "TI", between, text) == Reader(refs, Some(r.(title := value)))
            && After(refs, r, "T1", between, text) == Reader(refs, Some(r.(title := value)))
  {
    Sets(refs, r, "TI", between, text);
    Sets(refs, r, "T1", between, text);
    hide After, Columns, Trim;
  }

  lemma {:induction false} JournalLines(refs: seq<Record>, r: Record, between: string, text: string)
    requires Columns(between, text)
    ensures var value := Some(Trim(text));
            && After(refs, r, "JO", between, text) == Reader(refs, Some(r.(journal := value)))
            && After(refs, r, "JF", between, text) == Reader(refs, Some(r.(journal := value)))
            && After(refs, r, "T2", between, text) == Reader(refs, Some(r.(journal := value)))
  {
    Sets(refs, r, "JO", between, text);
    Sets(refs, r, "JF", between, text);
    Sets(refs, r, "T2", between, text);
    hide After, Columns, Trim;
  }

  lemma {:induction false} PlaceLines(refs: seq<Record>, r: Record, between: string, text: string)
    requires Columns(between, text)
    ensures var value := Some(Trim(text));
            && After(refs, r, "PB", between, text) == Reader(refs, Some(r.(publisher := value)))
            && After(refs, r, "CY", between, text) == Reader(refs, Some(r.(placeOfPublication := value)))
  {
    Sets(refs, r, "PB", between, text);
    Sets(refs, r, "CY", between, text);
    hide After, Columns, Trim;
  }

  lemma {:induction false} PageLines(refs: seq<Record>, r: Record, between: string, text: string)
    requires Columns(between, text)
    ensures After(refs, r, "SP", between, text) == Reader(refs, Some(r.(pages := Some(Trim(text)))))
  {
    Sets(refs, r, "SP", between, text);
    hide After, Columns, Trim;
  }

  lemma {:induction false} LinkLines(refs: seq<Record>, r: Record, between: string, text: string)
    requires Columns(between, text)
    ensures var value := Some(Trim(text));
            && After(refs, r, "DO", between, text) == Reader(refs, Some(r.(doi := value)))
            && After(refs, r, "UR", between, text) == Reader(refs, Some(r.(url := value)))
  {
    Sets(refs, r, "DO", between, text);
    Sets(refs, r, "UR", between, text);
    hide After, Columns, Trim;
  }

  lemma {:induction false} NumberLines(refs: seq<Record>, r: Record, between: string, text: string)
    requires Columns(between, text)
    ensures var value := Some(Trim(text));
            && After(refs, r, "VL", between, text) == Reader(refs, Some(r.(volume := value)))
            && After(refs, r, "IS", between, text) == Reader(refs, Some(r.(issue := value)))
  {
    Sets(refs, r, "VL", between, text);
    Sets(refs, r, "IS", between, text);
    hide After, Columns, Trim;
  }

  /** Every code the reader knows. */
  const CODES := {
    "TY", "ER", "AU", "A1", "ED", "PY", "Y1", "TI", "T1", "JO", "JF", "T2",
    "PB", "CY", "VL", "IS", "SP", "DO", "UR"}

  lemma {:induction false} PairIs(tag: string, a: char, b: char)
    requires |tag| == 2 && tag[0] == a && tag[1] == b
    ensures tag == [a, b]
  {
  }

  lemma {:induction false} OtherCodes(tag: string)
    requires tag !in CODES
    ensures Classify(tag) == OtherTag
  {
    if |tag| == 2 {
      PairIs(tag, tag[0], tag[1]);
    }
  }

  /** A line with another code, and a line that has none, changes nothing. */
  lemma {:induction false} OtherLines(st: Reader, line: string)
    requires (if |line| > 2 then line[..2] else line) !in CODES
    ensures ReadLine(st, line) == st
  {
    assert |line| == 2 ==> line[..2] == line;
    OtherCodes(Take(line, 2));
    hide Classify, Trim;
  }

  // ----- Where records begin and end -----

  predicate Begins(line: string) {
    "TY" <= line
  }

  predicate Ends(line: string) {
    "ER" <= line
  }

  lemma {:induction false} TagOf(line: string)
    ensures Begins(line) <==> Classify(Take(line, 2)) == TypeTag
    ensures Ends(line) <==> Classify(Take(line, 2)) == EndTag
  {
    var tag := Take(line, 2);
    if |line| >= 2 {
      assert tag[0] == line[0] && tag[1] == line[1] && |tag| == 2;
      assert "TY" <= line <==> line[0] == 'T' && line[1] == 'Y';
      assert "ER" <= line <==> line[0] == 'E' && line[1] == 'R';
    }
  }

  /**
   A line that begins with "TY" opens an empty record, and drops the one that was open.
   A line that begins with "ER" closes it, and keeps it if it has an author or a title.
   No other line outside a record does anything.
   */
  lemma {:induction false} RecordLines(st: Reader, line: string)
    ensures Begins(line) ==> ReadLine(st, line) == Reader(st.refs, Some(EMPTY))
    ensures Ends(line) && st.current.Some? ==>
              var r := st.current.value;
              ReadLine(st, line)
              == Reader(
                  st.refs + if r.authors != [] || (r.title.Some? && r.title.value != "") then [r] else [], None)
    ensures !Begins(line) && st.current.None? ==> ReadLine(st, line) == st
  {
    TagOf(line);
    hide Classify, Trim;
    assert st.refs + [] == st.refs;
  }

  predicate Inside(lines: seq<string>) {
    forall i :: 0 <= i < |lines| ==> !Begins(lines[i]) && !Ends(lines[i])
  }

  /** The record that the lines between the first and the last make. */
  function Body(r: Record, lines: seq<string>): Record
    decreases |lines|
  {
    if lines == [] then r
    else
      var st := ReadLine(Reader([], Some(r)), lines[0]);
      if st.current.Some? then Body(st.current.value, lines[1..]) else r
  }

  lemma {:induction false} LineInside(refs: seq<Record>, r: Record, line: string)
    requires !Begins(line) && !Ends(line)
    ensures ReadLine(Reader([], Some(r)), line).current.Some?
    ensures ReadLine(Reader(refs, Some(r)), line) == Reader(refs, ReadLine(Reader([], Some(r)), line).current)
  {
    TagOf(line);
    hide Classify, Trim, SetField;
  }

  lemma {:induction false} BodyIsRead(refs: seq<Record>, r: Record, lines: seq<string>)
    requires Inside(lines)
    ensures ReadLines(Reader(refs, Some(r)), lines) == Reader(refs, Some(Body(r, lines)))
    decreases |lines|
  {
    if lines != [] {
      LineInside(refs, r, lines[0]);
      assert Inside(lines[1..]);
      hide ReadLine, Inside, Begins, Ends;
      BodyIsRead(refs, ReadLine(Reader([], Some(r)), lines[0]).current.value, lines[1..]);
    }
  }

  // ----- A whole file -----

  function Joined(lines: seq<string>): string
    decreases |lines|
  {
    if lines == [] then "" else lines[0] + "\n" + Joined(lines[1..])
  }

  lemma {:induction false} SplitMore(lines: seq<string>, rest: string)
    requires NoneBreaks(lines)
    ensures SplitLines(Joined(lines) + rest) == AllDropCR(lines) + SplitLines(rest)
    decreases |lines|
  {
    if lines == [] {
      assert Joined(lines) + rest == rest;
      assert AllDropCR(lines) == [];
    } else {
      var tail := Joined(lines[1..]) + rest;
      assert '\n' !in lines[0] && NoneBreaks(lines[1..]);
      assert Joined(lines) + rest == lines[0] + "\n" + tail;
      hide *;
      SplitFirst(lines[0], tail);
      SplitMore(lines[1..], rest);
      DropCRFirst(lines);
      Assoc([DropCR(lines[0])], AllDropCR(lines[1..]), SplitLines(rest));
    }
  }

  lemma {:induction false} PrefixStays(refs: seq<Record>, st: Reader, lines: seq<string>)
    ensures ReadLines(Reader(refs + st.refs, st.current), lines)
         == Reader(refs + ReadLines(st, lines).refs, ReadLines(st, lines).current)
    decreases |lines|
  {
    if lines != [] {
      var next := ReadLine(st, lines[0]);
      assert ReadLine(Reader(refs + st.refs, st.current), lines[0]) == Reader(refs + next.refs, next.current) by {
        hide Classify, Trim, SetField, HasContent;
      }
      hide ReadLine;
      PrefixStays(refs, next, lines[1..]);
    }
  }

  lemma {:induction false} DropCRBegins(line: string)
    ensures Begins(DropCR(line)) <==> Begins(line)
    ensures Ends(DropCR(line)) <==> Ends(line)
  {
    assert |line| > 0 ==> line == line[..|line| - 1] + [line[|line| - 1]];
    TwoBegin("TY", line);
    TwoBegin("ER", line);
  }

  lemma {:induction false} TwoBegin(tag: string, line: string)
    requires |tag| == 2 && tag[1] != '\r'
    ensures tag <= DropCR(line) <==> tag <= line
  {
    if tag <= line {
      assert line[1] == tag[1];
    }
  }

  lemma {:induction false} BlockLines(refs: seq<Record>, first: string, lines: seq<string>, last: string)
    requires Begins(first) && Ends(last) && Inside(lines)
    ensures ReadLines(Reader(refs, None), [first] + lines + [last])
         == ReadLine(Reader(refs, Some(Body(EMPTY, lines))), last)
  {
    RecordLines(Reader(refs, None), first);
    hide *;
    ReadAppend(Reader(refs, None), [first] + lines, [last]);
    ReadAppend(Reader(refs, None), [first], lines);
    ReadOne(Reader(refs, None), first);
    BodyIsRead(refs, EMPTY, lines);
    ReadOne(Reader(refs, Some(Body(EMPTY, lines))), last);
  }

  predicate Named(r: Record) {
    r.authors != [] || (r.title.Some? && r.title.value != "")
  }

  lemma {:induction false} InsideDropCR(lines: seq<string>)
    requires Inside(lines)
    ensures Inside(AllDropCR(lines))
  {
    hide DropCR, Begins, Ends;
    forall i | 0 <= i < |lines|
      ensures !Begins(DropCR(lines[i])) && !Ends(DropCR(lines[i]))
    {
      DropCRBegins(lines[i]);
    }
  }

  /**
   A file is read record by record: what stands between a line that begins with "TY" and the next that begins with
   "ER" makes one record, which is kept if it has an author or a title, and the rest is read as if it stood alone.
   */
  lemma {:induction false} RecordByRecord(first: string, lines: seq<string>, last: string, rest: string)
    requires Begins(first) && Ends(last) && Inside(lines) && NoneBreaks([first] + lines + [last])
    ensures var r := Body(EMPTY, AllDropCR(lines));
            Records(Joined([first] + lines + [last]) + rest) == (if Named(r) then [r] else []) + Records(rest)
  {
    var all := [first] + lines + [last];
    SplitMore(all, rest);
    assert AllDropCR(all) == [DropCR(first)] + AllDropCR(lines) + [DropCR(last)] by {
      hide DropCR;
    }
    DropCRBegins(first);
    DropCRBegins(last);
    InsideDropCR(lines);
    var r := Body(EMPTY, AllDropCR(lines));
    RecordLines(Reader([], Some(r)), DropCR(last));
    var kept := if Named(r) then [r] else [];
    assert [] + kept == kept && kept + [] == kept;
    hide ReadLine, ReadLines, SplitLines, DropCR, Begins, Ends, Inside, AllDropCR, Joined, Body;
    BlockLines([], DropCR(first), AllDropCR(lines), DropCR(last));
    ReadAppend(Reader([], None), AllDropCR(all), SplitLines(rest));
    PrefixStays(kept, Reader([], None), SplitLines(rest));
  }

  lemma {:induction false} OneLineOutside(line: string, rest: string)
    requires !Begins(line) && '\n' !in line
    ensures Records(line + "\n" + rest) == Records(rest)
  {
    SplitFirst(line, rest);
    DropCRBegins(line);
    RecordLines(Reader([], None), DropCR(line));
    hide ReadLine, SplitLines, DropCR, Begins;
    var tail := SplitLines(rest);
    assert ([DropCR(line)] + tail)[1..] == tail;
  }

  lemma {:induction false} StaysOpen(r: Record, lines: seq<string>)
    requires Inside(lines)
    ensures ReadLines(Reader([], Some(r)), lines).refs == []
  {
    BodyIsRead([], r, lines);
  }

  /** A record that is not closed is dropped. */
  lemma {:induction false} Unclosed(first: string, lines: seq<string>)
    requires Begins(first) && Inside(lines) && NoneBreaks([first] + lines)
    ensures Records(Joined([first] + lines)) == []
  {
    var all := [first] + lines;
    assert Joined(all) + "" == Joined(all);
    SplitMore(all, "");
    assert AllDropCR(all) == [DropCR(first)] + AllDropCR(lines) by {
      hide DropCR;
    }
    DropCRBegins(first);
    InsideDropCR(lines);
    RecordLines(Reader([], None), DropCR(first));
    assert SplitLines("") == [""];
    var tail := AllDropCR(lines) + [""];
    assert Inside(tail) && ([DropCR(first)] + AllDropCR(lines)) + [""] == [DropCR(first)] + tail;
    hide ReadLine, SplitLines, DropCR, Begins, Ends, Inside, AllDropCR, Joined;
    StaysOpen(EMPTY, tail);
    assert ([DropCR(first)] + tail)[1..] == tail;
  }

  // ----- A record of one author -----

  lemma {:induction false} BodyOfOne(r: Record, line: string, made: Record)
    requires ReadLine(Reader([], Some(r)), line) == Reader([], Some(made))
    ensures Body(r, [line]) == made
  {
    hide ReadLine;
    assert [line][1..] == [];
  }

  lemma {:induction false} FirstAuthors(people: string)
    ensures SetField(EMPTY, AuthorTag, people) == EMPTY.(authors := ParsePersons(people))
  {
    hide ParsePersons;
    assert [] + ParsePersons(people) == ParsePersons(people);
  }

  lemma {:induction false} AuthorLine(text: string)
    ensures Body(EMPTY, AllDropCR(["AU  - " + text])) == EMPTY.(authors := ParsePersons(Trim(text)))
  {
    var line := Line("AU", text);
    assert line == "AU  - " + text;
    assert AllDropCR([line]) == [DropCR(line)] by {
      hide DropCR;
    }
    CodesRead();
    hide *;
    ReadValueLine([], EMPTY, "AU", text);
    FirstAuthors(Trim(text));
    BodyOfOne(EMPTY, DropCR(line), EMPTY.(authors := ParsePersons(Trim(text))));
  }

  lemma {:induction false} RecordsOfNothing()
    ensures Records("") == []
  {
    assert SplitLines("") == [""];
    assert Take("", 2) == "" && Classify("") == OtherTag;
    ReadOne(Reader([], None), "");
  }

  lemma {:induction false} JoinedThree(a: string, b: string, c: string)
    ensures Joined([a] + [b] + [c]) + "" == a + "\n" + b + "\n" + c + "\n"
  {
    var all := [a] + [b] + [c];
    assert all[1..] == [b, c] && all[1..][1..] == [c] && all[1..][1..][1..] == [];
    assert Joined(all) == a + "\n" + Joined(all[1..]);
    assert Joined(all[1..]) == b + "\n" + Joined([c]);
    assert Joined([c]) == c + "\n" + Joined([c][1..]);
  }

  lemma {:induction false} ThreeLines(kind: string, text: string)
    requires '\n' !in kind && '\n' !in text
    ensures var first, line, last := "TY  - " + kind, "AU  - " + text, "ER  - ";
            Begins(first) && Ends(last) && Inside([line]) && NoneBreaks([first] + [line] + [last])
  {
    var first, line := "TY  - " + kind, "AU  - " + text;
    assert '\n' !in "AU  - " && '\n' !in "TY  - " && '\n' !in "ER  - ";
    assert '\n' !in line && '\n' !in first;
    assert line[0] == 'A';
  }

  lemma {:induction false} OneAuthorLine(kind: string, text: string)
    requires '\n' !in kind && '\n' !in text && ParsePersons(Trim(text)) != []
    ensures Records("TY  - " + kind + "\n" + ("AU  - " + text) + "\n" + "ER  - " + "\n")
         == [EMPTY.(authors := ParsePersons(Trim(text)))]
  {
    var first, line, last := "TY  - " + kind, "AU  - " + text, "ER  - ";
    ThreeLines(kind, text);
    hide *;
    AuthorLine(text);
    JoinedThree(first, line, last);
    RecordsOfNothing();
    RecordByRecord(first, [line], last, "");
    NamedByAuthor(EMPTY.(authors := ParsePersons(Trim(text))));
  }

  lemma {:induction false} NamedByAuthor(r: Record)
    requires r.authors != []
    ensures Named(r)
  {
  }

  lemma {:induction false} NameIsTrimmed(words: seq<string>, gaps: seq<string>)
    requires |words| == |gaps| + 1 && AllNameWords(words)
    ensures Trim(Spread(words, gaps)) == Spread(words, gaps)
  {
    SpreadOpens(words, gaps);
    SpreadCloses(words, gaps);
    TrimTrims(Spread(words, gaps));
    hide Trim, Spread;
  }

  /**
   What is read of a file with one record of one author, named in several words without a comma:
   the last word is the family name, and the words before it, one space apart, are the given name.
   */
  lemma {:induction false} OneAuthor(kind: string, words: seq<string>, gaps: seq<string>)
    requires '\n' !in kind && |words| == |gaps| + 1 && gaps != [] && AllNameWords(words) && AllGaps(gaps)
    requires NothingSeparates(Spread(words, gaps))
    ensures Records("TY  - " + kind + "\n" + ("AU  - " + Spread(words, gaps)) + "\n" + "ER  - " + "\n")
         == [EMPTY.(authors := [Person(words[|words| - 1], Spaced(words[..|words| - 1]))])]
  {
    LastWordIsFamily(words, gaps);
    NameIsTrimmed(words, gaps);
    assert '\n' !in Spread(words, gaps);
    hide NothingSeparates, Spread, Spaced, ParsePersons, Trim, AllNameWords, AllGaps, Records;
    OneAuthorLine(kind, Spread(words, gaps));
  }

  // ----- What the writer writes -----

  /** The first line of an entry names its kind. */
  lemma {:induction false} KindIsWritten(p: Parsed)
    ensures EntryLines(p)[0] ==
            match p.referenceType
            case "book" => "TY  - BOOK"
            case "conference" => "TY  - CPAPER"
            case "website" => "TY  - ELEC"
            case _ => "TY  - JOUR"
  {
  }

  /** The line for a value, if there is one. */
  function Present(prefix: string, value: string): seq<string> {
    if value == "" then [] else [prefix + value]
  }

  lemma {:induction false} OptFirst(code: string, value: string, rest: seq<(string, string)>)
    ensures OptLines([(code, value)] + rest) == Present(code + "  - ", value) + OptLines(rest)
  {
    var fields := [(code, value)] + rest;
    assert fields[0] == (code, value) && fields[1..] == rest;
  }

  lemma {:induction false} LastLines(p: Parsed)
    ensures OptLines(NumberFields(p))
         == Present("PY  - ", p.year)
            + (Present("VL  - ", p.volume)
               + (Present("IS  - ", p.issue) + (Present("SP  - ", p.pages) + Present("UR  - ", p.url))))
  {
    hide OptLines, Present;
    var f := NumberFields(p);
    OptFirst("PY", p.year, f[1..]);
    assert [("PY", p.year)] + f[1..] == f;
    OptFirst("VL", p.volume, f[2..]);
    assert [("VL", p.volume)] + f[2..] == f[1..];
    OptFirst("IS", p.issue, f[3..]);
    assert [("IS", p.issue)] + f[3..] == f[2..];
    OptFirst("SP", p.pages, f[4..]);
    assert [("SP", p.pages)] + f[4..] == f[3..];
    LastLine(p);
    assert [("UR", p.url)] == f[4..];
    Prefixes();
  }

  lemma {:induction false} Prefixes()
    ensures "PY" + "  - " == "PY  - " && "VL" + "  - " == "VL  - " && "IS" + "  - " == "IS  - "
    ensures "SP" + "  - " == "SP  - " && "UR" + "  - " == "UR  - "
    ensures "TI" + "  - " == "TI  - " && "JO" + "  - " == "JO  - " && "T2" + "  - " == "T2  - "
  {
  }

  lemma {:induction false} LastLine(p: Parsed)
    ensures OptLines([("UR", p.url)]) == Present("UR  - ", p.url)
  {
    OptFirst("UR", p.url, []);
    Prefixes();
    assert [("UR", p.url)] + [] == [("UR", p.url)];
    assert OptLines([]) == [];
    hide OptLines, Present;
  }

  lemma {:induction false} MiddleLines(p: Parsed)
    ensures OptLines(FieldsOf(p))
         == Present("TI  - ", p.title)
            + (Present("JO  - ", p.journal)
               + (Present("T2  - ", if p.bookTitle != "" then p.bookTitle else p.conferenceTitle)
                  + OptLines(NumberFields(p))))
  {
    hide OptLines, Present;
    var f, rest := FieldsOf(p), NumberFields(p);
    hide NumberFields;
    var container := if p.bookTitle != "" then p.bookTitle else p.conferenceTitle;
    OptFirst("TI", p.title, f[1..]);
    assert [("TI", p.title)] + f[1..] == f;
    OptFirst("JO", p.journal, f[2..]);
    assert [("JO", p.journal)] + f[2..] == f[1..];
    OptFirst("T2", container, rest);
    assert [("T2", container)] + rest == f[2..];
    Prefixes();
  }

  /** An entry has a line for each author, and one with its own code for every value that is there, in this order. */
  lemma {:induction false} ValuesAreWritten(p: Parsed)
    ensures var n := |p.authors|;
            && (forall i :: 0 <= i < n ==> EntryLines(p)[1 + i] == "AU  - " + AuthorText(p.authors[i]))
            && EntryLines(p)[1 + n..]
               == Present("TI  - ", p.title)
                  + (Present("JO  - ", p.journal)
                     + (Present("T2  - ", if p.bookTitle != "" then p.bookTitle else p.conferenceTitle)
                        + (Present("PY  - ", p.year)
                           + (Present("VL  - ", p.volume)
                              + (Present("IS  - ", p.issue)
                                 + (Present("SP  - ", p.pages) + Present("UR  - ", p.url)))))))
                  + ["ER  - "]
  {
    MiddleLines(p);
    LastLines(p);
    hide OptLines, Present, FieldsOf, NumberFields, AuthorText, TypeCode;
    var authors := AuthorLines(p.authors);
    assert Line("ER", "") == "ER  - ";
    forall i | 0 <= i < |p.authors|
      ensures EntryLines(p)[1 + i] == "AU  - " + AuthorText(p.authors[i])
    {
      assert EntryLines(p)[1 + i] == authors[i];
      assert "AU" + "  - " == "AU  - ";
    }
  }
}
