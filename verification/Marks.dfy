/** Reading marked-up text back: taking the mark tags out again, and counting them. */
module Marks {

  /** The opening and closing tag. */
  datatype Tags = Tags(open: string, close: string) {
    ghost predicate Valid() {
      && |open| > 1 && open[0] == '<' && open[1] != '/'
      && |close| > 1 && close[0] == '<' && close[1] == '/'
    }
  }

  function Strip(html: string, tags: Tags): string {
    if html == "" then ""
    else if tags.open != "" && tags.open <= html then Strip(html[|tags.open|..], tags)
    else if tags.close != "" && tags.close <= html then Strip(html[|tags.close|..], tags)
    else [html[0]] + Strip(html[1..], tags)
  }

  function Count(html: string, tags: Tags): nat {
    if html == "" then 0
    else if tags.open != "" && tags.open <= html then 1 + Count(html[|tags.open|..], tags)
    else Count(html[1..], tags)
  }

  lemma {:induction false} ReadOne(c: char, rest: string, tags: Tags)
    requires tags.Valid() && c != '<'
    ensures Strip([c] + rest, tags) == [c] + Strip(rest, tags) && Count([c] + rest, tags) == Count(rest, tags)
  {
    assert ([c] + rest)[0] == c && ([c] + rest)[1..] == rest;
  }

  /** Text without '<' is read through unchanged. */
  lemma {:induction false} ReadPlain(plain: string, rest: string, tags: Tags)
    requires tags.Valid() && '<' !in plain
    ensures Strip(plain + rest, tags) == plain + Strip(rest, tags)
    ensures Count(plain + rest, tags) == Count(rest, tags)
    decreases |plain|
  {
    hide Strip, Count, Tags.Valid;
    if plain == "" {
      assert plain + rest == rest;
    } else {
      assert plain[0] in plain && plain == [plain[0]] + plain[1..];
      ReadPlain(plain[1..], rest, tags);
      ReadOne(plain[0], plain[1..] + rest, tags);
      assert plain + rest == [plain[0]] + (plain[1..] + rest);
    }
  }

  lemma {:induction false} ReadClose(rest: string, tags: Tags)
    requires tags.Valid()
    ensures Strip(tags.close + rest, tags) == Strip(rest, tags)
    ensures '<' !in tags.close[1..] ==> Count(tags.close + rest, tags) == Count(rest, tags)
  {
    var html := tags.close + rest;
    assert html[|tags.close|..] == rest && html[1..] == tags.close[1..] + rest;
    assert html[1] == '/' && tags.close <= html;
    if '<' !in tags.close[1..] {
      ReadPlain(tags.close[1..], rest, tags);
    }
  }

  /** One marked stretch of text counts once and strips to the text. */
  lemma {:induction false} ReadMarked(plain: string, rest: string, tags: Tags)
    requires tags.Valid() && '<' !in plain && '<' !in tags.close[1..]
    ensures Strip(tags.open + plain + tags.close + rest, tags) == plain + Strip(rest, tags)
    ensures Count(tags.open + plain + tags.close + rest, tags) == 1 + Count(rest, tags)
  {
    assert Strip(tags.open + (plain + (tags.close + rest)), tags) == Strip(plain + (tags.close + rest), tags);
    assert Count(tags.open + (plain + (tags.close + rest)), tags) == 1 + Count(plain + (tags.close + rest), tags);
    hide Strip, Count;
    ReadPlain(plain, tags.close + rest, tags);
    ReadClose(rest, tags);
    assert tags.open + plain + tags.close + rest == tags.open + (plain + (tags.close + rest));
  }
}
