/** The two decoders and the validity check, as the loops the sources run. */
module BioDecoders {
  import opened Wrappers
  import opened BioTags

  // ----- The validity check of bio_eval_metrics.py -----

  method BioSequenceValid(labels: seq<Tag>) returns (valid: bool)
    ensures valid <==> Valid(labels)
  {
    var current: Option<string> := None;
    for i := 0 to |labels|
      invariant current.Some? <==>
                  i > 0 && labels[i - 1].Tagged? && (labels[i - 1].prefix == "B" || labels[i - 1].prefix == "I")
      invariant current.Some? ==> current.value == labels[i - 1].core
      invariant forall k :: 0 <= k < i ==> ValidAt(labels, k)
    {
      var tag := labels[i];
      if tag.Plain? {
        current := None;
      } else if tag.prefix == "B" {
        current := Some(tag.core);
      } else if tag.prefix == "I" {
        if current != Some(tag.core) {
          assert !ValidAt(labels, i);
          return false;
        }
      } else {
        current := None;
      }
    }
    return true;
  }

  // ----- The decoder of train_bio_bundle.py -----

  /** The open span together with everything still to come completes what is already closed. */
  ghost predicate Pending(tags: seq<Tag>, done: seq<Entity>, current: Option<(string, nat)>, i: nat)
    requires i <= |tags|
  {
    match current
    case None =>
      && (i > 0 ==> tags[i - 1].Plain?)
      && done + Entities(tags, i) == Entities(tags, 0)
    case Some((core, start)) =>
      && start < i && tags[start].Tagged? && tags[start].core == core
      && tags[i - 1].Tagged? && tags[i - 1].core == core
      && (forall k :: start < k < i ==> Continues(tags, k))
      && done + [Entity(core, start, EndOf(tags, start))] + Entities(tags, i) == Entities(tags, 0)
  }

  lemma {:induction false} CloseSpan(tags: seq<Tag>, done: seq<Entity>, core: string, start: nat, i: nat)
    requires i <= |tags| && Pending(tags, done, Some((core, start)), i)
    requires i < |tags| ==> !Continues(tags, i)
    ensures done + [Entity(core, start, i)] + Entities(tags, i) == Entities(tags, 0)
  {
    EndOfIs(tags, start, i);
  }

  lemma {:induction false} OpenSpan(tags: seq<Tag>, done: seq<Entity>, i: nat)
    requires i < |tags| && Starts(tags, i) && done + Entities(tags, i) == Entities(tags, 0)
    ensures Pending(tags, done, Some((tags[i].core, i)), i + 1)
  {
    var e := Entity(tags[i].core, i, EndOf(tags, i));
    assert done + ([e] + Entities(tags, i + 1)) == done + [e] + Entities(tags, i + 1);
  }

  lemma {:induction false} SkipPlain(tags: seq<Tag>, done: seq<Entity>, i: nat)
    requires i < |tags| && tags[i].Plain? && done + Entities(tags, i) == Entities(tags, 0)
    ensures Pending(tags, done, None, i + 1)
  {
    SkipTo(tags, i, i + 1);
    hide Entities;
  }

  lemma {:induction false} ExtendSpan(tags: seq<Tag>, done: seq<Entity>, core: string, start: nat, i: nat)
    requires i < |tags| && Pending(tags, done, Some((core, start)), i) && Continues(tags, i)
    ensures Pending(tags, done, Some((core, start)), i + 1)
  {
    SkipTo(tags, i, i + 1);
    hide Entities, EndOf;
  }

  method ExtractBioEntities(tags: seq<Tag>) returns (entities: seq<Entity>)
    ensures OnlyBIO(tags) ==> entities == Entities(tags, 0)
  {
    assert Pending(tags, [], None, 0);
    hide Entities, EndOf, Pending;
    entities := [];
    var current: Option<(string, nat)> := None;
    var closed := tags + [OUTSIDE];
    for index := 0 to |closed|
      invariant index > |tags| ==> OnlyBIO(tags) ==> entities == Entities(tags, 0)
      invariant index <= |tags| && OnlyBIO(tags) ==> Pending(tags, entities, current, index)
    {
      var tag := closed[index];
      ghost var before, was := entities, current;
      if tag.Plain? {
        if current.Some? {
          entities := entities + [Entity(current.value.0, current.value.1, index)];
        }
        current := None;
      } else if tag.prefix == "B" || current.None? || current.value.0 != tag.core {
        if current.Some? {
          entities := entities + [Entity(current.value.0, current.value.1, index)];
        }
        current := Some((tag.core, index));
      } else if tag.prefix != "I" {
        entities := entities + [Entity(current.value.0, current.value.1, index)];
        current := None;
      }
      if OnlyBIO(tags) {
        DecoderStep(tags, before, was, index, entities, current);
      }
    }
  }

  ghost function Closed(done: seq<Entity>, current: Option<(string, nat)>, i: nat): seq<Entity> {
    if current.Some? then done + [Entity(current.value.0, current.value.1, i)] else done
  }

  /** The tag at `i` does not continue the open span. */
  predicate Closes(tags: seq<Tag>, current: Option<(string, nat)>, i: nat)
    requires i <= |tags|
  {
    i == |tags| || tags[i].Plain? || tags[i].prefix == "B" || current.None? || current.value.0 != tags[i].core
  }

  /** The span open behind `i`. */
  function OpenAfter(tags: seq<Tag>, current: Option<(string, nat)>, i: nat): Option<(string, nat)>
    requires i <= |tags|
  {
    if i == |tags| || tags[i].Plain? then None
    else if Closes(tags, current, i) then Some((tags[i].core, i))
    else current
  }

  /** One turn of the decoder's loop keeps `Pending`; the turn on the closing "O" completes the list. */
  lemma {:induction false} DecoderStep(tags: seq<Tag>, done: seq<Entity>, current: Option<(string, nat)>, i: nat,
                                       done': seq<Entity>, current': Option<(string, nat)>)
    requires OnlyBIO(tags) && i <= |tags| && Pending(tags, done, current, i)
    requires done' == if Closes(tags, current, i) then Closed(done, current, i) else done
    requires current' == OpenAfter(tags, current, i)
    ensures if i == |tags| then done' == Entities(tags, 0) else Pending(tags, done', current', i + 1)
  {
    var closes := Closes(tags, current, i);
    if closes && current.Some? {
      CloseSpan(tags, done, current.value.0, current.value.1, i);
    }
    hide Entities, EndOf;
    if i == |tags| {
      NoneLeft(tags);
    } else if tags[i].Plain? {
      SkipPlain(tags, done', i);
    } else if closes {
      OpenSpan(tags, done', i);
    } else {
      ExtendSpan(tags, done, current.value.0, current.value.1, i);
    }
  }

  lemma {:induction false} NoneLeft(tags: seq<Tag>)
    ensures Entities(tags, |tags|) == []
  {
  }

  // ----- The field reader of bio_training_dataset.py -----

  datatype FieldValue = Text(text: string) | Number(number: int) | Many(values: seq<FieldValue>)

  /** What regular expressions do for the reader: a span's value, blank text, and text joined with one space. */
  datatype Reader = Reader(
    value: (string, seq<string>) -> Option<FieldValue>,
    blank: string -> bool,
    join: (string, string) -> string)

  const FIELD_NAME_BY_BIO_CORE: map<string, string> := map[
    "author" := "authors", "editors" := "editors", "year" := "year", "title" := "title", "journal" := "journal",
    "conference_title" := "conferenceTitle", "book_title" := "bookTitle", "publisher" := "publisher",
    "institution" := "institution", "edition" := "edition", "thesis_type" := "thesisType",
    "repository" := "repository", "article_number" := "articleNumber", "accessed_date" := "accessedDate",
    "site_name" := "siteName", "database" := "database", "report_number" := "reportNumber",
    "volume" := "volume", "issue" := "issue", "pages" := "pages", "doi" := "doi", "url" := "url",
    "place_of_publication" := "placeOfPublication"]

  /** The capital of a small letter. */
  function CapitalOf(c: char): char {
    if 'a' <= c <= 'z' then (c as int - 32) as char else c
  }

  /** A name in snake case written in camel case. */
  function CamelCase(name: string): string {
    if name == "" then ""
    else if name[0] == '_' && |name| > 1 then [CapitalOf(name[1])] + CamelCase(name[2..])
    else [name[0]] + CamelCase(name[1..])
  }

  lemma {:induction false} PlainName(name: string)
    requires '_' !in name
    ensures CamelCase(name) == name
    decreases |name|
  {
    if name != "" {
      assert name[0] in name;
      PlainName(name[1..]);
    }
  }

  lemma {:induction false} SnakeName(before: string, c: char, after: string)
    requires '_' !in before
    ensures CamelCase(before + ("_" + ([c] + after))) == before + ([CapitalOf(c)] + CamelCase(after))
    decreases |before|
  {
    var name := before + ("_" + ([c] + after));
    if before == "" {
      assert name == "_" + ([c] + after) && name[2..] == after;
    } else {
      assert before[0] in before && name[1..] == before[1..] + ("_" + ([c] + after));
      SnakeName(before[1..], c, after);
    }
  }

  lemma {:induction false} TwoWords(name: string, before: string, c: char, after: string)
    requires name == before + ("_" + ([c] + after)) && '_' !in before && '_' !in after
    ensures CamelCase(name) == before + ([CapitalOf(c)] + after)
  {
    SnakeName(before, c, after);
    PlainName(after);
  }

  lemma {:induction false} Capitals()
    ensures CapitalOf('t') == 'T' && CapitalOf('n') == 'N' && CapitalOf('d') == 'D'
    ensures CapitalOf('o') == 'O' && CapitalOf('p') == 'P'
  {
  }

  /** Every core is a field under its own name in camel case, only authors are listed under their plural. */
  lemma {:induction false} FieldNames(core: string)
    ensures core in FIELD_NAME_BY_BIO_CORE ==>
              FIELD_NAME_BY_BIO_CORE[core] == if core == "author" then "authors" else CamelCase(core)
  {
    if core in FIELD_NAME_BY_BIO_CORE && core != "author" {
      if FIELD_NAME_BY_BIO_CORE[core] == core {
        PlainFields(core);
        PlainName(core);
      } else {
        SnakeFields(core);
      }
    }
  }

  lemma {:induction false} PlainFields(core: string)
    requires core in FIELD_NAME_BY_BIO_CORE && FIELD_NAME_BY_BIO_CORE[core] == core
    ensures '_' !in core
  {
  }

  lemma {:induction false} SnakeFields(core: string)
    requires core in FIELD_NAME_BY_BIO_CORE && FIELD_NAME_BY_BIO_CORE[core] != core && core != "author"
    ensures CamelCase(core) == FIELD_NAME_BY_BIO_CORE[core]
  {
    SnakeTitles();
    SnakeNumbers();
    SnakePlace();
    hide CamelCase;
  }

  lemma {:induction false} SnakeTitles()
    ensures CamelCase("conference_title") == "conferenceTitle"
    ensures CamelCase("book_title") == "bookTitle"
    ensures CamelCase("thesis_type") == "thesisType"
  {
    Capitals();
    hide CamelCase, CapitalOf;
    TwoWords("conference_title", "conference", 't', "itle");
    assert "conference" + (['T'] + "itle") == "conferenceTitle";
    TwoWords("book_title", "book", 't', "itle");
    assert "book" + (['T'] + "itle") == "bookTitle";
    TwoWords("thesis_type", "thesis", 't', "ype");
    assert "thesis" + (['T'] + "ype") == "thesisType";
  }

  lemma {:induction false} SnakeNumbers()
    ensures CamelCase("article_number") == "articleNumber"
    ensures CamelCase("accessed_date") == "accessedDate"
    ensures CamelCase("site_name") == "siteName"
    ensures CamelCase("report_number") == "reportNumber"
  {
    Capitals();
    hide CamelCase, CapitalOf;
    TwoWords("article_number", "article", 'n', "umber");
    assert "article" + (['N'] + "umber") == "articleNumber";
    TwoWords("accessed_date", "accessed", 'd', "ate");
    assert "accessed" + (['D'] + "ate") == "accessedDate";
    TwoWords("site_name", "site", 'n', "ame");
    assert "site" + (['N'] + "ame") == "siteName";
    TwoWords("report_number", "report", 'n', "umber");
    assert "report" + (['N'] + "umber") == "reportNumber";
  }

  lemma {:induction false} SnakePlace()
    ensures CamelCase("place_of_publication") == "placeOfPublication"
  {
    Capitals();
    hide CamelCase, CapitalOf;
    SnakeName("place", 'o', "f_publication");
    TwoWords("f_publication", "f", 'p', "ublication");
    assert "place" + ("_" + (['o'] + "f_publication")) == "place_of_publication";
    assert "place" + (['O'] + ("f" + (['P'] + "ublication"))) == "placeOfPublication";
  }

  type Fields = map<string, FieldValue>

  /** A missing or blank value is not recorded. */
  predicate Recorded(r: Reader, value: Option<FieldValue>) {
    value.Some? && !(value.value.Text? && r.blank(value.value.text))
  }

  function MergeExpectedField(r: Reader, fields: Fields, name: string, value: Option<FieldValue>): Fields {
    if !Recorded(r, value) then fields
    else if name == "authors" || name == "editors" then
      if name in fields && fields[name].Many? then fields[name := Many(fields[name].values + [value.value])]
      else if name !in fields then fields[name := Many([value.value])]
      else fields[name := Many([fields[name], value.value])]
    else if name in fields then
      if fields[name].Text? && value.value.Text? then fields[name := Text(r.join(fields[name].text, value.value.text))]
      else fields
    else fields[name := value.value]
  }

  /** What one span contributes; spans of an unknown core contribute nothing. */
  ghost function MergeSpan(r: Reader, tokens: seq<string>, e: Entity, fields: Fields): Fields {
    if e.core in FIELD_NAME_BY_BIO_CORE && e.start <= e.end <= |tokens| then
      var name := FIELD_NAME_BY_BIO_CORE[e.core];
      MergeExpectedField(r, fields, name, r.value(name, tokens[e.start..e.end]))
    else fields
  }

  /** Spans merged one after the other. */
  ghost function MergeAll(r: Reader, tokens: seq<string>, es: seq<Entity>): Fields {
    if es == [] then map[]
    else MergeSpan(r, tokens, es[|es| - 1], MergeAll(r, tokens, es[..|es| - 1]))
  }

  lemma {:induction false} NothingMerged(r: Reader, tokens: seq<string>)
    ensures MergeAll(r, tokens, []) == map[]
  {
  }

  lemma {:induction false} MergeOneMore(r: Reader, tokens: seq<string>, es: seq<Entity>, e: Entity)
    ensures MergeAll(r, tokens, es + [e]) == MergeSpan(r, tokens, e, MergeAll(r, tokens, es))
  {
    assert (es + [e])[..|es|] == es;
  }

  /** `flush_span`: merge the open span, if there is one. */
  method FlushSpan(r: Reader, fields: Fields, core: Option<string>, spanTokens: seq<string>) returns (fields': Fields)
    requires core.Some? ==> core.value in FIELD_NAME_BY_BIO_CORE
    ensures fields' == if core.None? || spanTokens == [] then fields
                       else var name := FIELD_NAME_BY_BIO_CORE[core.value];
                            MergeExpectedField(r, fields, name, r.value(name, spanTokens))
  {
    if core.None? || spanTokens == [] {
      return fields;
    }
    var name := FIELD_NAME_BY_BIO_CORE[core.value];
    fields' := MergeExpectedField(r, fields, name, r.value(name, spanTokens));
  }

  /** What the reader holds while the decoder holds `current`: the tokens of the open span, if its core is known. */
  ghost predicate ReaderMatches(tokens: seq<string>, i: nat, current: Option<(string, nat)>,
                                core: Option<string>, spanTokens: seq<string>)
  {
    if current.Some? && current.value.0 in FIELD_NAME_BY_BIO_CORE then
      && current.value.1 < i <= |tokens|
      && core == Some(current.value.0) && spanTokens == tokens[current.value.1..i]
    else core == None && spanTokens == []
  }

  lemma {:induction false} ReaderAtStart(tokens: seq<string>)
    ensures ReaderMatches(tokens, 0, None, None, [])
  {
  }

  /** One turn of the reader's loop follows one of the decoder's: they close spans together. */
  lemma {:induction false} ReaderFollows(tokens: seq<string>, tags: seq<Tag>, current: Option<(string, nat)>, i: nat,
                                         core: Option<string>, spanTokens: seq<string>)
    requires i < |tags| == |tokens| && ReaderMatches(tokens, i, current, core, spanTokens)
    ensures var current' := OpenAfter(tags, current, i);
            if tags[i].Plain? || tags[i].core !in FIELD_NAME_BY_BIO_CORE then
              && (Closes(tags, current, i) || core == None)
              && ReaderMatches(tokens, i + 1, current', None, [])
            else if tags[i].prefix == "B" || core != Some(tags[i].core) then
              && Closes(tags, current, i)
              && ReaderMatches(tokens, i + 1, current', Some(tags[i].core), [tokens[i]])
            else
              && !Closes(tags, current, i)
              && ReaderMatches(tokens, i + 1, current', core, spanTokens + [tokens[i]])
  {
    hide FIELD_NAME_BY_BIO_CORE;
  }

  lemma {:induction false} ReaderStep(tokens: seq<string>, tags: seq<Tag>, done: seq<Entity>,
                                      current: Option<(string, nat)>, i: nat,
                                      core: Option<string>, spanTokens: seq<string>)
    returns (done': seq<Entity>, current': Option<(string, nat)>)
    requires OnlyBIO(tags) && i < |tags| == |tokens|
    requires Pending(tags, done, current, i) && ReaderMatches(tokens, i, current, core, spanTokens)
    ensures Pending(tags, done', current', i + 1)
    ensures if tags[i].Plain? || tags[i].core !in FIELD_NAME_BY_BIO_CORE then
              && (done' == Closed(done, current, i) || (core == None && done' == done))
              && ReaderMatches(tokens, i + 1, current', None, [])
            else if tags[i].prefix == "B" || core != Some(tags[i].core) then
              && done' == Closed(done, current, i)
              && ReaderMatches(tokens, i + 1, current', Some(tags[i].core), [tokens[i]])
            else
              && done' == done
              && ReaderMatches(tokens, i + 1, current', core, spanTokens + [tokens[i]])
  {
    hide *;
    done' := if Closes(tags, current, i) then Closed(done, current, i) else done;
    current' := OpenAfter(tags, current, i);
    DecoderStep(tags, done, current, i, done', current');
    ReaderFollows(tokens, tags, current, i, core, spanTokens);
  }

  /** Flushing merges the decoder's span. */
  lemma {:induction false} FlushMerges(r: Reader, tokens: seq<string>, done: seq<Entity>,
                                       current: Option<(string, nat)>, i: nat,
                                       core: Option<string>, spanTokens: seq<string>)
    requires ReaderMatches(tokens, i, current, core, spanTokens)
    ensures var fields := MergeAll(r, tokens, done);
            MergeAll(r, tokens, Closed(done, current, i)) ==
            if core.None? || spanTokens == [] then fields
            else var name := FIELD_NAME_BY_BIO_CORE[core.value];
                 MergeExpectedField(r, fields, name, r.value(name, spanTokens))
  {
    hide MergeExpectedField, MergeAll;
    if current.Some? {
      MergeOneMore(r, tokens, done, Entity(current.value.0, current.value.1, i));
    }
  }

  /**
   A mismatch in length and a tag that cannot be split are errors; otherwise the fields are the decoder's spans,
   merged in the decoder's order.
   */
  method DeriveExpectedFields(r: Reader, tokens: seq<string>, tags: seq<Tag>) returns (result: Result<Fields, string>)
    ensures result.Failure? <==> |tokens| != |tags| || exists i :: 0 <= i < |tags| && IsDashless(tags[i])
    ensures OnlyBIO(tags) && |tokens| == |tags| ==> result == Success(MergeAll(r, tokens, Entities(tags, 0)))
  {
    if |tokens| != |tags| {
      return Failure("BIO row token/tag length mismatch");
    }
    assert Pending(tags, [], None, 0);
    hide *;
    var expectedFields: Fields := map[];
    var spanTokens: seq<string> := [];
    var currentCore: Option<string> := None;
    ghost var done: seq<Entity>, current: Option<(string, nat)> := [], None;
    NothingMerged(r, tokens);
    ReaderAtStart(tokens);
    for i := 0 to |tags|
      invariant forall k :: 0 <= k < i ==> !IsDashless(tags[k])
      invariant currentCore.Some? ==> currentCore.value in FIELD_NAME_BY_BIO_CORE
      invariant OnlyBIO(tags) ==> Pending(tags, done, current, i)
      invariant OnlyBIO(tags) ==> ReaderMatches(tokens, i, current, currentCore, spanTokens)
      invariant OnlyBIO(tags) ==> expectedFields == MergeAll(r, tokens, done)
    {
      var token, tag := tokens[i], tags[i];
      if IsDashless(tag) {
        return Failure("not enough values to unpack");
      }
      if OnlyBIO(tags) {
        FlushMerges(r, tokens, done, current, i, currentCore, spanTokens);
        var done', current' := ReaderStep(tokens, tags, done, current, i, currentCore, spanTokens);
        done, current := done', current';
      }
      if tag.Plain? || tag.core !in FIELD_NAME_BY_BIO_CORE {
        expectedFields := FlushSpan(r, expectedFields, currentCore, spanTokens);
        spanTokens, currentCore := [], None;
      } else if tag.prefix == "B" || currentCore != Some(tag.core) {
        expectedFields := FlushSpan(r, expectedFields, currentCore, spanTokens);
        currentCore := Some(tag.core);
        spanTokens := [token];
      } else {
        spanTokens := spanTokens + [token];
      }
    }
    if OnlyBIO(tags) {
      FlushMerges(r, tokens, done, current, |tags|, currentCore, spanTokens);
      DecoderStep(tags, done, current, |tags|, Closed(done, current, |tags|), None);
    }
    expectedFields := FlushSpan(r, expectedFields, currentCore, spanTokens);
    result := Success(expectedFields);
  }

  // ----- What the merged fields hold -----

  /** The recorded values of the spans that feed the field `name`, in order. */
  ghost function ValuesFor(r: Reader, tokens: seq<string>, es: seq<Entity>, name: string): seq<FieldValue> {
    if es == [] then []
    else
      var e := es[|es| - 1];
      var before := ValuesFor(r, tokens, es[..|es| - 1], name);
      if e.core in FIELD_NAME_BY_BIO_CORE && e.start <= e.end <= |tokens| && FIELD_NAME_BY_BIO_CORE[e.core] == name then
        var value := r.value(name, tokens[e.start..e.end]);
        if value.Some? && !(value.value.Text? && r.blank(value.value.text)) then before + [value.value] else before
      else before
  }

  /** Every author (or editor) span is kept, in order, and nothing else gets into the list. */
  lemma {:induction false} PeopleAreListed(r: Reader, tokens: seq<string>, es: seq<Entity>, name: string)
    requires name == "authors" || name == "editors"
    ensures var fields, values := MergeAll(r, tokens, es), ValuesFor(r, tokens, es, name);
            if values == [] then name !in fields else name in fields && fields[name] == Many(values)
    decreases |es|
  {
    if es != [] {
      PeopleAreListed(r, tokens, es[..|es| - 1], name);
    }
  }

  /** The texts among the values, in order. */
  ghost function TextsIn(values: seq<FieldValue>): (texts: seq<string>)
    ensures |texts| <= |values|
    ensures values != [] && values[0].Text? ==> texts != []
  {
    if values == [] then []
    else
      var last := values[|values| - 1];
      TextsIn(values[..|values| - 1]) + if last.Text? then [last.text] else []
  }

  /** Texts joined one after the other. */
  ghost function Joined(r: Reader, texts: seq<string>): string
    requires texts != []
  {
    if |texts| == 1 then texts[0] else r.join(Joined(r, texts[..|texts| - 1]), texts[|texts| - 1])
  }

  lemma {:induction false} JoinedMore(r: Reader, texts: seq<string>, text: string)
    requires texts != []
    ensures Joined(r, texts + [text]) == r.join(Joined(r, texts), text)
  {
    assert (texts + [text])[..|texts|] == texts;
  }

  /** What the field holds: a first value that is not text stays; a first text is joined with every later text. */
  ghost function Kept(r: Reader, values: seq<FieldValue>): FieldValue
    requires values != []
  {
    if values[0].Text? then Text(Joined(r, TextsIn(values))) else values[0]
  }

  lemma {:induction false} KeptMore(r: Reader, values: seq<FieldValue>, v: FieldValue)
    ensures values == [] ==> Kept(r, values + [v]) == v
    ensures values != [] ==>
              Kept(r, values + [v]) ==
              if values[0].Text? && v.Text? then Text(r.join(Kept(r, values).text, v.text)) else Kept(r, values)
  {
    TextsMore(values, v);
    JoinedOne(r, v);
    hide Joined, TextsIn;
    if values == [] {
      NoTexts();
      assert values + [v] == [v];
      if v.Text? {
        assert TextsIn(values) + [v.text] == [v.text];
      }
    } else if v.Text? && values[0].Text? {
      JoinedMore(r, TextsIn(values), v.text);
    } else {
      assert TextsIn(values) + [] == TextsIn(values);
    }
  }

  lemma {:induction false} TextsMore(values: seq<FieldValue>, v: FieldValue)
    ensures TextsIn(values + [v]) == TextsIn(values) + if v.Text? then [v.text] else []
  {
    assert (values + [v])[..|values|] == values;
  }

  lemma {:induction false} NoTexts()
    ensures TextsIn([]) == []
  {
  }

  lemma {:induction false} JoinedOne(r: Reader, v: FieldValue)
    ensures v.Text? ==> Joined(r, [v.text]) == v.text
  {
  }

  /** Any other field is present exactly when a span has a value for it, and holds what `Kept` says of the values. */
  lemma {:induction false} OthersKeepTheFirst(r: Reader, tokens: seq<string>, es: seq<Entity>, name: string)
    requires name != "authors" && name != "editors"
    ensures var fields, values := MergeAll(r, tokens, es), ValuesFor(r, tokens, es, name);
            && (name in fields <==> values != [])
            && (values != [] ==> fields[name] == Kept(r, values))
    decreases |es|
  {
    if es != [] {
      var before, e := es[..|es| - 1], es[|es| - 1];
      OthersKeepTheFirst(r, tokens, before, name);
      var values, more := ValuesFor(r, tokens, before, name), ValuesFor(r, tokens, es, name);
      if more != values {
        KeptMore(r, values, more[|values|]);
      }
      hide TextsIn, Joined;
    }
  }
}
