/** `stableStringify` of `server/scripts/harvest-style-gold-candidates.ts`: the text whose hash identifies evidence. */
module StableJson {
  import opened Wrappers
  import opened ObjectKeys
  import opened JsonReader

  predicate DistinctKeys(entries: seq<(string, Json)>) {
    forall i, j :: 0 <= i < j < |entries| ==> entries[i].0 != entries[j].0
  }

  /** Numbers are numerals and no object has a key twice. */
  predicate WellFormed(v: Json) {
    match v
    case Num(text) => IsNumeral(text)
    case Arr(items) => forall i :: 0 <= i < |items| ==> WellFormed(items[i])
    case Obj(entries) => DistinctKeys(entries) && forall i :: 0 <= i < |entries| ==> WellFormed(entries[i].1)
    case _ => true
  }

  // ----- Strings: JSON.stringify -----

  function HexDigit(n: nat): char
    requires n < 16
  {
    if n < 10 then ('0' as int + n) as char else ('a' as int + n - 10) as char
  }

  /** Section 7 of RFC 8259: two-character escapes where they exist, \u00XX for the other controls. */
  function QuoteChar(c: char): string {
    match c
    case '\"' => "\\\""
    case '\\' => "\\\\"
    case '\U{0008}' => "\\b"
    case '\U{000C}' => "\\f"
    case '\n' => "\\n"
    case '\r' => "\\r"
    case '\t' => "\\t"
    case _ =>
      if c < ' ' then ['\\', 'u', '0', '0', HexDigit(c as int / 16), HexDigit(c as int % 16)] else [c]
  }

  function QuoteBody(s: string): string {
    if s == "" then "" else QuoteChar(s[0]) + QuoteBody(s[1..])
  }

  function Quote(s: string): string {
    "\"" + QuoteBody(s) + "\""
  }

  // ----- The serialiser -----

  /** Into a sorted list, before the entries it ties with. */
  function Insert<T>(cmp: Compare, e: (string, T), sorted: seq<(string, T)>): seq<(string, T)> {
    if sorted == [] then [e]
    else if cmp(e.0, sorted[0].0) <= 0 then [e] + sorted
    else [sorted[0]] + Insert(cmp, e, sorted[1..])
  }

  /** A stable sort by key, as `Array.prototype.sort` is. */
  function Sort<T>(cmp: Compare, es: seq<(string, T)>): seq<(string, T)> {
    if es == [] then [] else Insert(cmp, es[0], Sort(cmp, es[1..]))
  }

  function Join(parts: seq<string>): string {
    if parts == [] then ""
    else if |parts| == 1 then parts[0]
    else parts[0] + "," + Join(parts[1..])
  }

  function Members(entries: seq<(string, string)>): (parts: seq<string>)
    ensures |parts| == |entries|
  {
    seq(|entries|, i requires 0 <= i < |entries| => Quote(entries[i].0) + ":" + entries[i].1)
  }

  function Stringify(cmp: Compare, v: Json): string {
    match v
    case Null => "null"
    case Bool(b) => if b then "true" else "false"
    case Num(text) => text
    case Str(s) => Quote(s)
    case Arr(items) => "[" + Join(seq(|items|, i requires 0 <= i < |items| => Stringify(cmp, items[i]))) + "]"
    case Obj(entries) =>
      var texts := seq(|entries|, i requires 0 <= i < |entries| => (entries[i].0, Stringify(cmp, entries[i].1)));
      "{" + Join(Members(Sort(cmp, texts))) + "}"
  }

  // ----- Equality up to the order of object entries -----

  ghost predicate Same(u: Json, v: Json)
    decreases u, 0
  {
    match (u, v)
    case (Arr(x), Arr(y)) => |x| == |y| && forall i :: 0 <= i < |x| ==> Same(x[i], y[i])
    case (Obj(x), Obj(y)) => |x| == |y| && forall i :: 0 <= i < |x| ==> Corresponds(x[i].0, x[i].1, y)
    case _ => u == v
  }

  /** The entries hold the key with an equal value. */
  ghost predicate Corresponds(key: string, value: Json, entries: seq<(string, Json)>)
    decreases value, 1
  {
    exists j :: 0 <= j < |entries| && entries[j].0 == key && Same(value, entries[j].1)
  }

  // ----- Sorted trees -----

  /** The value with every object's entries sorted. */
  ghost function Canon(cmp: Compare, v: Json): Json {
    match v
    case Arr(items) => Arr(seq(|items|, i requires 0 <= i < |items| => Canon(cmp, items[i])))
    case Obj(entries) =>
      Obj(Sort(cmp, seq(|entries|, i requires 0 <= i < |entries| => (entries[i].0, Canon(cmp, entries[i].1)))))
    case _ => v
  }

  /** Printing in the order given. */
  ghost function Print(v: Json): string {
    match v
    case Null => "null"
    case Bool(b) => if b then "true" else "false"
    case Num(text) => text
    case Str(s) => Quote(s)
    case Arr(items) => "[" + Join(seq(|items|, i requires 0 <= i < |items| => Print(items[i]))) + "]"
    case Obj(entries) =>
      "{" + Join(seq(|entries|, i requires 0 <= i < |entries| => Quote(entries[i].0) + ":" + Print(entries[i].1))) + "}"
  }

  ghost function Items(items: seq<Json>): (parts: seq<string>)
    ensures |parts| == |items|
  {
    seq(|items|, i requires 0 <= i < |items| => Print(items[i]))
  }

  ghost function Pairs(entries: seq<(string, Json)>): (parts: seq<string>)
    ensures |parts| == |entries|
  {
    seq(|entries|, i requires 0 <= i < |entries| => Quote(entries[i].0) + ":" + Print(entries[i].1))
  }

  lemma {:induction false} PrintLists(v: Json)
    ensures v.Arr? ==> Print(v) == "[" + Join(Items(v.items)) + "]"
    ensures v.Obj? ==> Print(v) == "{" + Join(Pairs(v.entries)) + "}"
  {
    match v
    case Arr(items) =>
      assert Items(items) == seq(|items|, i requires 0 <= i < |items| => Print(items[i]));
    case Obj(entries) =>
      assert Pairs(entries)
             == seq(|entries|, i requires 0 <= i < |entries| => Quote(entries[i].0) + ":" + Print(entries[i].1));
    case _ =>
  }

  /** The entries with their values printed. */
  ghost function Printed(es: seq<(string, Json)>): (ts: seq<(string, string)>)
    ensures |ts| == |es|
  {
    seq(|es|, i requires 0 <= i < |es| => (es[i].0, Print(es[i].1)))
  }

  lemma {:induction false} InsertPrinted(cmp: Compare, e: (string, Json), es: seq<(string, Json)>)
    ensures Insert(cmp, (e.0, Print(e.1)), Printed(es)) == Printed(Insert(cmp, e, es))
    decreases |es|
  {
    hide Print;
    if es != [] {
      InsertPrinted(cmp, e, es[1..]);
      assert Printed(es)[1..] == Printed(es[1..]);
    }
  }

  /** Sorting by key and printing the values commute. */
  lemma {:induction false} SortPrinted(cmp: Compare, es: seq<(string, Json)>)
    ensures Sort(cmp, Printed(es)) == Printed(Sort(cmp, es))
    decreases |es|
  {
    hide Print;
    if es != [] {
      SortPrinted(cmp, es[1..]);
      assert Printed(es)[1..] == Printed(es[1..]);
      InsertPrinted(cmp, es[0], Sort(cmp, es[1..]));
    }
  }

  lemma {:induction false} StringifyPrints(cmp: Compare, v: Json)
    ensures Stringify(cmp, v) == Print(Canon(cmp, v))
  {
    match v
    case Arr(items) =>
      forall i | 0 <= i < |items|
        ensures Stringify(cmp, items[i]) == Print(Canon(cmp, items[i]))
      {
        StringifyPrints(cmp, items[i]);
      }
      var texts := seq(|items|, i requires 0 <= i < |items| => Stringify(cmp, items[i]));
      assert texts == Items(Canon(cmp, v).items);
      PrintLists(Canon(cmp, v));
    case Obj(entries) =>
      forall i | 0 <= i < |entries|
        ensures Stringify(cmp, entries[i].1) == Print(Canon(cmp, entries[i].1))
      {
        StringifyPrints(cmp, entries[i].1);
      }
      var texts := seq(|entries|, i requires 0 <= i < |entries| => (entries[i].0, Stringify(cmp, entries[i].1)));
      var canons := seq(|entries|, i requires 0 <= i < |entries| => (entries[i].0, Canon(cmp, entries[i].1)));
      assert texts == Printed(canons);
      SortPrinted(cmp, canons);
      assert Members(Printed(Sort(cmp, canons))) == Pairs(Sort(cmp, canons));
      PrintLists(Canon(cmp, v));
    case _ =>
  }

  // ----- Strings are read back -----

  /** The text of one character: a short escape, an escape with hexadecimal digits, or the character itself. */
  lemma {:induction false} QuoteCharForms(c: char)
    ensures var q := QuoteChar(c);
            || (|q| == 2 && q[0] == '\\' && q[1] != 'u' && ShortEscape(q[1]) == Some(c))
            || (|q| == 6 && q[0] == '\\' && q[1] == 'u' && HexChar(q[2], q[3], q[4], q[5]) == Some(c))
            || (q == [c] && c != '\\' && c >= ' ')
    ensures QuoteChar(c)[0] != '\"'
  {
    if |QuoteChar(c)| == 6 {
      HexOfControl(c);
    }
  }

  lemma {:induction false} HexOfControl(c: char)
    requires c < ' '
    ensures HexChar('0', '0', HexDigit(c as int / 16), HexDigit(c as int % 16)) == Some(c)
  {
    HexDigitValue(c as int / 16);
    HexDigitValue(c as int % 16);
    HexDigitValue(0);
    assert c as int == c as int / 16 * 16 + c as int % 16;
    hide HexValue, HexDigit;
    assert HexValue('0') == Some(0) by {
      assert HexDigit(0) == '0' by {
        HexDigitZero();
      }
    }
  }

  lemma {:induction false} HexDigitZero()
    ensures HexDigit(0) == '0'
  {
  }

  lemma {:induction false} HexDigitValue(n: nat)
    requires n < 16
    ensures HexValue(HexDigit(n)) == Some(n)
  {
  }

  lemma {:induction false} ReadCharOf(c: char, x: string)
    ensures QuoteChar(c) + x != "" && ReadChar(QuoteChar(c) + x) == Some((c, |QuoteChar(c)|))
  {
    QuoteCharForms(c);
    var q := QuoteChar(c);
    hide QuoteChar, HexChar, ShortEscape;
    assert forall k :: 0 <= k < |q| ==> (q + x)[k] == q[k];
  }

  /** Reading a quoted text gives the text, and what follows it. */
  lemma {:induction false} ReadQuoted(s: string, r: string)
    ensures ReadChars(QuoteBody(s) + "\"" + r) == Some((s, r))
    decreases |s|
  {
    if s == "" {
      assert QuoteBody(s) + "\"" + r == "\"" + r;
      assert ("\"" + r)[1..] == r;
    } else {
      var q, x := QuoteChar(s[0]), QuoteBody(s[1..]) + "\"" + r;
      assert QuoteBody(s) + "\"" + r == q + x;
      QuoteCharForms(s[0]);
      ReadCharOf(s[0], x);
      hide QuoteChar, QuoteBody, ReadChar;
      assert (q + x)[0] == q[0] && (q + x)[|q|..] == x;
      ReadQuoted(s[1..], r);
      assert s == [s[0]] + s[1..];
    }
  }

  /** `Quote(s)` is a string of section 7 for `s`. */
  lemma {:induction false} QuoteIsRead(s: string, r: string)
    ensures Quote(s) + r != "" && (Quote(s) + r)[0] == '\"' && ReadChars((Quote(s) + r)[1..]) == Some((s, r))
  {
    ReadQuoted(s, r);
    hide QuoteBody, ReadChars;
    assert (Quote(s) + r)[1..] == QuoteBody(s) + "\"" + r;
  }

  predicate MustEscape(c: char) {
    c == '\"' || c == '\\' || c < ' '
  }

  /** Only what has to be escaped is, in two characters where that is possible, and otherwise with small letters. */
  lemma {:induction false} EscapesAreNeeded(c: char)
    ensures c != '\"' && c != '\\' && c >= ' ' ==> Quote([c]) == "\"" + [c] + "\""
    ensures c == '\"' || c == '\\' || '\U{0008}' <= c <= '\n' || c == '\U{000C}' || c == '\r' ==>
              |Quote([c])| == 4
    ensures forall k :: 0 <= k < |Quote([c])| && MustEscape(c) ==> !('A' <= Quote([c])[k] <= 'F')
  {
    assert [c][1..] == "";
    assert QuoteBody([c]) == QuoteChar(c) + QuoteBody("");
    assert QuoteBody("") == "";
  }

  /** A text is quoted character by character. */
  lemma {:induction false} QuoteConcat(s: string, t: string)
    ensures QuoteBody(s + t) == QuoteBody(s) + QuoteBody(t)
    decreases |s|
  {
    hide QuoteChar;
    if s == "" {
      assert s + t == t;
    } else {
      QuoteConcat(s[1..], t);
      assert (s + t)[1..] == s[1..] + t;
    }
  }

  // ----- Values are read back -----

  /** What may follow a value: nothing, a comma, or a closing bracket. */
  predicate Delimits(r: string) {
    r == "" || r[0] == ',' || r[0] == ']' || r[0] == '}'
  }

  lemma {:induction false} NumeralEnds(s: string, r: string)
    requires forall c :: c in s ==> IsNumeralChar(c)
    requires Delimits(r)
    ensures NumeralRun(s + r) == |s|
    decreases |s|
  {
    if s == "" {
      assert s + r == r;
    } else {
      assert s[0] in s && (s + r)[1..] == s[1..] + r;
      NumeralEnds(s[1..], r);
    }
  }

  /** The first character of a value's text tells its kind. */
  function FirstChar(v: Json): char {
    match v
    case Null => 'n'
    case Bool(b) => if b then 't' else 'f'
    case Num(text) => if text == "" then '0' else text[0]
    case Str(_) => '\"'
    case Arr(_) => '['
    case Obj(_) => '{'
  }

  lemma {:induction false} DropFirst(c: char, r: string)
    ensures ([c] + r)[1..] == r
  {
  }

  /** The rest of a list from element `i`, with its closing bracket and what follows. */
  ghost function Rest(parts: seq<string>, i: nat, close: char, r: string): string
    requires i <= |parts|
  {
    Join(parts[i..]) + [close] + r
  }

  lemma {:induction false} RestAt(parts: seq<string>, i: nat, close: char, r: string)
    requires i < |parts|
    ensures Rest(parts, i, close, r)
         == parts[i] + if i + 1 == |parts| then [close] + r else "," + Rest(parts, i + 1, close, r)
  {
    assert Join(parts[i..]) == if i + 1 == |parts| then parts[i] else parts[i] + "," + Join(parts[i + 1..]);
    hide Join;
    var tail := Join(parts[i + 1..]);
    assert parts[i] + "," + tail + [close] + r == parts[i] + ("," + (tail + [close] + r));
    assert parts[i] + [close] + r == parts[i] + ([close] + r);
  }

  lemma {:induction false} RestEnd(parts: seq<string>, close: char, r: string)
    ensures Rest(parts, |parts|, close, r) == [close] + r
  {
    assert parts[|parts|..] == [];
    assert "" + [close] + r == [close] + r;
  }

  lemma {:induction false} OpenText(v: Json, r: string)
    requires WellFormed(v)
    ensures var x := Print(v) + r;
            && x != "" && x[0] == FirstChar(v)
            && (v.Str? ==> x[1..] == QuoteBody(v.s) + "\"" + r)
            && (v.Null? || v.Bool? ==> x[|Print(v)|..] == r)
  {
    assert Print(v) != "" && Print(v)[0] == FirstChar(v);
    assert FirstChar(v) != ',' && FirstChar(v) != ']' && FirstChar(v) != '}';
    hide QuoteBody, Join, WellFormed;
    if v.Str? {
      assert ("\"" + QuoteBody(v.s) + "\"" + r)[1..] == QuoteBody(v.s) + "\"" + r;
    }
  }

  lemma {:induction false} OpenList(v: Json, r: string)
    ensures v.Arr? ==> (Print(v) + r)[1..] == Rest(Items(v.items), 0, ']', r)
    ensures v.Obj? ==> (Print(v) + r)[1..] == Rest(Pairs(v.entries), 0, '}', r)
  {
    PrintLists(v);
    hide Print, Join;
    if v.Arr? {
      var parts := Items(v.items);
      assert parts[0..] == parts;
      assert ("[" + Join(parts) + "]" + r)[1..] == Join(parts) + "]" + r;
    } else if v.Obj? {
      var parts := Pairs(v.entries);
      assert parts[0..] == parts;
      assert ("{" + Join(parts) + "}" + r)[1..] == Join(parts) + "}" + r;
    }
  }

  lemma {:induction false} ReadWord(v: Json, r: string)
    requires v.Null? || v.Bool?
    ensures ReadJson(Print(v) + r) == Some((v, r))
  {
    var x := Print(v) + r;
    assert Print(v) <= x && x[|Print(v)|..] == r;
    assert x[0] == Print(v)[0];
  }

  lemma {:induction false} ReadNumber(v: Json, r: string)
    requires v.Num? && WellFormed(v) && Delimits(r)
    ensures ReadJson(Print(v) + r) == Some((v, r))
  {
    NumeralEnds(v.text, r);
    var x := v.text + r;
    assert x[0] == v.text[0] && x[..|v.text|] == v.text && x[|v.text|..] == r;
    hide NumeralRun;
  }

  lemma {:induction false} NotAWord(t: string)
    requires t != "" && t[0] != 'n' && t[0] != 't' && t[0] != 'f'
    ensures !("null" <= t) && !("true" <= t) && !("false" <= t)
  {
  }

  /** A printed value is read back, whatever delimiter follows. */
  lemma {:induction false} ReadPrinted(v: Json, r: string)
    requires WellFormed(v) && Delimits(r)
    ensures ReadJson(Print(v) + r) == Some((v, r))
    decreases v, 1
  {
    match v
    case Num(_) => ReadNumber(v, r);
    case Str(s) => ReadPrintedString(s, r);
    case Arr(items) => ReadList(v, r);
    case Obj(entries) => ReadObject(v, r);
    case _ => ReadWord(v, r);
  }

  lemma {:induction false} ReadPrintedString(s: string, r: string)
    ensures ReadJson(Print(Str(s)) + r) == Some((Str(s), r))
  {
    QuoteIsRead(s, r);
    hide Quote, ReadChars;
    NotAWord(Quote(s) + r);
  }

  lemma {:induction false} ReadList(v: Json, r: string)
    requires v.Arr? && WellFormed(v) && Delimits(r)
    ensures ReadJson(Print(v) + r) == Some((v, r))
    decreases v, 0, |v.items| + 1
  {
    var x := Print(v) + r;
    OpenText(v, r);
    OpenList(v, r);
    ItemRest(v.items, 0, r);
    hide Rest, Print, Items, Join, ReadItems;
    NotAWord(x);
    if v.items == [] {
      assert x[1..][0] == x[1] && x[1..][1..] == x[2..];
      DropFirst(']', r);
    } else {
      ReadItemsFrom(v, 0, r);
      assert x[1..][0] == x[1];
      assert v.items[0..] == v.items;
    }
  }

  lemma {:induction false} ReadObject(v: Json, r: string)
    requires v.Obj? && WellFormed(v) && Delimits(r)
    ensures ReadJson(Print(v) + r) == Some((v, r))
    decreases v, 0, |v.entries| + 1
  {
    var x := Print(v) + r;
    OpenText(v, r);
    OpenList(v, r);
    PairRest(v.entries, 0, r);
    hide Rest, Print, Pairs, Join, ReadMembers;
    NotAWord(x);
    if v.entries == [] {
      assert x[1..][0] == x[1] && x[1..][1..] == x[2..];
      DropFirst('}', r);
    } else {
      ReadMembersFrom(v, 0, r);
      assert x[1..][0] == x[1];
      assert v.entries[0..] == v.entries;
    }
  }

  /** What follows an element: the closing bracket, or a comma and the next elements. */
  ghost function After(parts: seq<string>, i: nat, close: char, r: string): string
    requires i < |parts|
  {
    if i + 1 == |parts| then [close] + r else "," + Rest(parts, i + 1, close, r)
  }

  lemma {:induction false} FromNext<T>(s: seq<T>, i: nat)
    requires i < |s|
    ensures s[i..] == [s[i]] + s[i + 1..]
  {
  }

  lemma {:induction false} ItemRest(items: seq<Json>, i: nat, r: string)
    requires i <= |items| && WellFormed(Arr(items))
    ensures i == |items| ==> Rest(Items(items), i, ']', r) == "]" + r
    ensures i < |items| ==> Rest(Items(items), i, ']', r) == Print(items[i]) + After(Items(items), i, ']', r)
    ensures Rest(Items(items), i, ']', r) != "" && (Rest(Items(items), i, ']', r)[0] == ']' <==> i == |items|)
    ensures i < |items| ==> Delimits(After(Items(items), i, ']', r))
  {
    if i < |items| {
      RestAt(Items(items), i, ']', r);
      assert Print(items[i]) != "" && Print(items[i])[0] == FirstChar(items[i]);
      assert FirstChar(items[i]) != ',' && FirstChar(items[i]) != ']' && FirstChar(items[i]) != '}';
    } else {
      RestEnd(Items(items), ']', r);
    }
    hide Rest, Print;
  }

  lemma {:induction false} LastItem(x: string, v: Json, r: string)
    requires ReadJson(x) == Some((v, [']'] + r))
    ensures ReadItems(x) == Some(([v], r))
  {
    hide ReadJson;
    DropFirst(']', r);
  }

  lemma {:induction false} OneMoreItem(x: string, v: Json, y: string, vs: seq<Json>, r: string)
    requires ReadJson(x) == Some((v, "," + y)) && ReadItems(y) == Some((vs, r))
    ensures ReadItems(x) == Some(([v] + vs, r))
  {
    hide ReadJson;
    DropFirst(',', y);
  }

  lemma {:induction false} ReadItemsFrom(v: Json, i: nat, r: string)
    requires v.Arr? && WellFormed(v) && i < |v.items| && Delimits(r)
    ensures ReadItems(Rest(Items(v.items), i, ']', r)) == Some((v.items[i..], r))
    decreases v, 0, |v.items| - i
  {
    var x, after := Rest(Items(v.items), i, ']', r), After(Items(v.items), i, ']', r);
    ItemRest(v.items, i, r);
    ReadPrinted(v.items[i], after);
    FromNext(v.items, i);
    hide Rest, Print, Items, ReadJson, ReadItems;
    if i + 1 < |v.items| {
      ReadItemsFrom(v, i + 1, r);
      OneMoreItem(x, v.items[i], Rest(Items(v.items), i + 1, ']', r), v.items[i + 1..], r);
    } else {
      LastItem(x, v.items[i], r);
      assert v.items[i..] == [v.items[i]];
    }
  }

  lemma {:induction false} PairText(key: string, value: string, after: string)
    ensures var x := "\"" + key + "\"" + ":" + value + after;
            x[0] == '\"' && x[1..] == key + "\"" + (":" + (value + after))
  {
    var x := "\"" + key + "\"" + ":" + value + after;
    assert x == "\"" + (key + "\"" + (":" + (value + after)));
  }

  lemma {:induction false} PairRest(entries: seq<(string, Json)>, i: nat, r: string)
    requires i <= |entries| && WellFormed(Obj(entries))
    ensures i == |entries| ==> Rest(Pairs(entries), i, '}', r) == "}" + r
    ensures i < |entries| ==>
              var x := Rest(Pairs(entries), i, '}', r);
              && |x| > 0 && x[0] == '\"' && x[1..] == QuoteBody(entries[i].0) + "\""
                 + (":" + (Print(entries[i].1) + After(Pairs(entries), i, '}', r)))
              && Delimits(After(Pairs(entries), i, '}', r))
    ensures Rest(Pairs(entries), i, '}', r) != "" && (Rest(Pairs(entries), i, '}', r)[0] == '}' <==> i == |entries|)
  {
    if i < |entries| {
      RestAt(Pairs(entries), i, '}', r);
      var after := After(Pairs(entries), i, '}', r);
      hide Rest, Print, QuoteBody;
      PairText(QuoteBody(entries[i].0), Print(entries[i].1), after);
    } else {
      RestEnd(Pairs(entries), '}', r);
    }
  }

  lemma {:induction false} ReadPair(key: string, v: Json, after: string, x: string)
    requires WellFormed(v) && Delimits(after)
    requires x != "" && x[0] == '\"' && x[1..] == QuoteBody(key) + "\"" + (":" + (Print(v) + after))
    ensures ReadMember(x) == Some(((key, v), after))
    decreases v, 2
  {
    ReadQuoted(key, ":" + (Print(v) + after));
    ReadPrinted(v, after);
    DropFirst(':', Print(v) + after);
    hide ReadChars, ReadJson, Print, QuoteBody;
  }

  lemma {:induction false} LastMember(x: string, e: (string, Json), r: string)
    requires ReadMember(x) == Some((e, ['}'] + r))
    ensures ReadMembers(x) == Some(([e], r))
  {
    hide ReadMember;
    DropFirst('}', r);
  }

  lemma {:induction false} OneMoreMember(x: string, e: (string, Json), y: string, es: seq<(string, Json)>, r: string)
    requires ReadMember(x) == Some((e, "," + y)) && ReadMembers(y) == Some((es, r))
    ensures ReadMembers(x) == Some(([e] + es, r))
  {
    hide ReadMember;
    DropFirst(',', y);
  }

  lemma {:induction false} ReadMembersFrom(v: Json, i: nat, r: string)
    requires v.Obj? && WellFormed(v) && i < |v.entries| && Delimits(r)
    ensures ReadMembers(Rest(Pairs(v.entries), i, '}', r)) == Some((v.entries[i..], r))
    decreases v, 0, |v.entries| - i
  {
    var x, after := Rest(Pairs(v.entries), i, '}', r), After(Pairs(v.entries), i, '}', r);
    PairRest(v.entries, i, r);
    ReadPair(v.entries[i].0, v.entries[i].1, after, x);
    FromNext(v.entries, i);
    hide Rest, Print, Pairs, ReadMember, ReadMembers, QuoteBody;
    if i + 1 < |v.entries| {
      ReadMembersFrom(v, i + 1, r);
      OneMoreMember(x, v.entries[i], Rest(Pairs(v.entries), i + 1, '}', r), v.entries[i + 1..], r);
    } else {
      LastMember(x, v.entries[i], r);
      assert v.entries[i..] == [v.entries[i]];
    }
  }

  /** So a text determines its value, and where it ends. */
  lemma {:induction false} ReadValue(u: Json, v: Json, r1: string, r2: string)
    requires WellFormed(u) && WellFormed(v) && Delimits(r1) && Delimits(r2)
    requires Print(u) + r1 == Print(v) + r2
    ensures u == v && r1 == r2
  {
    ReadPrinted(u, r1);
    ReadPrinted(v, r2);
    hide Print, ReadJson;
  }

  // ----- The text identifies the value -----

  lemma {:induction false} InsertMembers<T>(cmp: Compare, e: (string, T), s: seq<(string, T)>)
    ensures multiset(Insert(cmp, e, s)) == multiset([e]) + multiset(s)
    decreases |s|
  {
    if s != [] {
      InsertMembers(cmp, e, s[1..]);
      assert s == [s[0]] + s[1..];
    }
  }

  lemma {:induction false} SortMembers<T>(cmp: Compare, es: seq<(string, T)>)
    ensures multiset(Sort(cmp, es)) == multiset(es)
    ensures |Sort(cmp, es)| == |es|
    decreases |es|
  {
    if es != [] {
      SortMembers(cmp, es[1..]);
      InsertMembers(cmp, es[0], Sort(cmp, es[1..]));
      assert es == [es[0]] + es[1..];
    }
    assert |multiset(Sort(cmp, es))| == |multiset(es)|;
  }

  lemma {:induction false} InSort(cmp: Compare, es: seq<(string, Json)>, e: (string, Json))
    ensures e in Sort(cmp, es) <==> e in es
  {
    SortMembers(cmp, es);
    hide Sort;
    assert e in multiset(Sort(cmp, es)) <==> e in multiset(es);
  }

  ghost function CanonEntries(cmp: Compare, entries: seq<(string, Json)>): (c: seq<(string, Json)>)
    ensures |c| == |entries|
  {
    seq(|entries|, i requires 0 <= i < |entries| => (entries[i].0, Canon(cmp, entries[i].1)))
  }

  lemma {:induction false} CanonOfObject(cmp: Compare, entries: seq<(string, Json)>)
    ensures Canon(cmp, Obj(entries)) == Obj(Sort(cmp, CanonEntries(cmp, entries)))
  {
    assert CanonEntries(cmp, entries)
           == seq(|entries|, i requires 0 <= i < |entries| => (entries[i].0, Canon(cmp, entries[i].1)));
  }

  /** Sorting entries with distinct keys keeps the keys distinct. */
  lemma {:induction false} SortDistinct(cmp: Compare, es: seq<(string, Json)>)
    requires DistinctKeys(es)
    ensures DistinctKeys(Sort(cmp, es))
    decreases |es|
  {
    if es != [] {
      SortDistinct(cmp, es[1..]);
      forall e | e in Sort(cmp, es[1..])
        ensures e.0 != es[0].0
      {
        InSort(cmp, es[1..], e);
        var i :| 0 <= i < |es[1..]| && es[1..][i] == e;
        assert es[i + 1] == e;
      }
      InsertDistinct(cmp, es[0], Sort(cmp, es[1..]));
    }
  }

  lemma {:induction false} InsertDistinct(cmp: Compare, e: (string, Json), s: seq<(string, Json)>)
    requires DistinctKeys(s) && forall d :: d in s ==> d.0 != e.0
    ensures DistinctKeys(Insert(cmp, e, s))
    decreases |s|
  {
    if s != [] && cmp(e.0, s[0].0) > 0 {
      InsertDistinct(cmp, e, s[1..]);
      InsertMembers(cmp, e, s[1..]);
      var r := Insert(cmp, e, s[1..]);
      forall d | d in r
        ensures d.0 != s[0].0
      {
        assert d in multiset(r);
        if d != e {
          var i :| 0 <= i < |s[1..]| && s[1..][i] == d;
          assert s[i + 1] == d;
        } else {
          assert s[0] in s;
        }
      }
    }
  }

  lemma {:induction false} CanonWellFormed(cmp: Compare, v: Json)
    requires WellFormed(v)
    ensures WellFormed(Canon(cmp, v))
  {
    match v
    case Arr(items) =>
      forall i | 0 <= i < |items|
        ensures WellFormed(Canon(cmp, items[i]))
      {
        CanonWellFormed(cmp, items[i]);
      }
    case Obj(entries) =>
      forall i | 0 <= i < |entries|
        ensures WellFormed(Canon(cmp, entries[i].1))
      {
        CanonWellFormed(cmp, entries[i].1);
      }
      CanonOfObject(cmp, entries);
      var c := CanonEntries(cmp, entries);
      SortDistinct(cmp, c);
      var sorted := Sort(cmp, c);
      forall i | 0 <= i < |sorted|
        ensures WellFormed(sorted[i].1)
      {
        assert sorted[i] in sorted;
        InSort(cmp, c, sorted[i]);
      }
    case _ =>
  }

  lemma {:induction false} InBoth(cmp: Compare, x: seq<(string, Json)>, y: seq<(string, Json)>, i: nat)
    requires i < |x| && Sort(cmp, x) == Sort(cmp, y)
    ensures x[i] in y
  {
    InSort(cmp, x, x[i]);
    InSort(cmp, y, x[i]);
    hide Sort;
    assert x[i] in x;
  }

  /** Equal sorted trees come from values that are equal up to the order of entries. */
  lemma {:induction false} CanonSame(cmp: Compare, u: Json, v: Json)
    requires Canon(cmp, u) == Canon(cmp, v)
    ensures Same(u, v)
  {
    match u
    case Arr(items) =>
      forall i | 0 <= i < |items|
        ensures |items| == |v.items| && Same(items[i], v.items[i])
      {
        assert Canon(cmp, u).items[i] == Canon(cmp, v).items[i];
        CanonSame(cmp, items[i], v.items[i]);
      }
    case Obj(entries) =>
      var x, y := CanonEntries(cmp, entries), CanonEntries(cmp, v.entries);
      CanonOfObject(cmp, entries);
      CanonOfObject(cmp, v.entries);
      SortMembers(cmp, x);
      SortMembers(cmp, y);
      forall i | 0 <= i < |entries|
        ensures Corresponds(entries[i].0, entries[i].1, v.entries)
      {
        InBoth(cmp, x, y, i);
        var j :| 0 <= j < |y| && y[j] == x[i];
        CanonSame(cmp, entries[i].1, v.entries[j].1);
      }
    case _ =>
  }

  /**
   Two values give the same text only when they are equal up to the order of object entries, whatever
   the comparison does: different evidence never shares a text.
   */
  lemma {:induction false} StringifyIsInjective(cmp: Compare, u: Json, v: Json)
    requires WellFormed(u) && WellFormed(v) && Stringify(cmp, u) == Stringify(cmp, v)
    ensures Same(u, v)
  {
    StringifyPrints(cmp, u);
    StringifyPrints(cmp, v);
    CanonWellFormed(cmp, u);
    CanonWellFormed(cmp, v);
    hide Print, Canon, Stringify, WellFormed;
    assert Print(Canon(cmp, u)) + "" == Print(Canon(cmp, v)) + "";
    ReadValue(Canon(cmp, u), Canon(cmp, v), "", "");
    CanonSame(cmp, u, v);
  }
}
