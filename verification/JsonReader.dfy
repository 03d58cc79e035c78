/** A reader of JSON texts without insignificant white space, after RFC 8259. */
module JsonReader {
  import opened Wrappers

  /**
   A JSON value.  A number is the text that stands for it; an object is its entries in the order in which
   they are listed.
   */
  datatype Json =
    | Null
    | Bool(b: bool)
    | Num(text: string)
    | Str(s: string)
    | Arr(items: seq<Json>)
    | Obj(entries: seq<(string, Json)>)

  // ----- Numbers: the characters of section 6 -----

  predicate IsNumeralChar(c: char) {
    c == '-' || c == '+' || c == '.' || c == 'e' || c == 'E' || '0' <= c <= '9'
  }

  predicate IsNumeral(text: string) {
    text != "" && (text[0] == '-' || '0' <= text[0] <= '9')
    && forall c :: c in text ==> IsNumeralChar(c)
  }

  /** How many numeral characters the text begins with. */
  function NumeralRun(t: string): (n: nat)
    ensures n <= |t|
  {
    if t == "" || !IsNumeralChar(t[0]) then 0 else 1 + NumeralRun(t[1..])
  }

  // ----- Strings: section 7 -----

  function HexValue(c: char): Option<nat> {
    if '0' <= c <= '9' then Some(c as int - '0' as int)
    else if 'a' <= c <= 'f' then Some(c as int - 'a' as int + 10)
    else if 'A' <= c <= 'F' then Some(c as int - 'A' as int + 10)
    else None
  }

  /** The character of an escape with four hexadecimal digits; halves of surrogate pairs are not read. */
  function HexChar(a: char, b: char, c: char, d: char): Option<char> {
    match (HexValue(a), HexValue(b), HexValue(c), HexValue(d))
    case (Some(w), Some(x), Some(y), Some(z)) =>
      var code := ((w * 16 + x) * 16 + y) * 16 + z;
      if 0 <= code < 0xD800 || 0xE000 <= code < 0x1_0000 then Some(code as char) else None
    case _ => None
  }

  /** The character behind a backslash. */
  function ShortEscape(c: char): Option<char> {
    match c
    case '\"' => Some('\"')
    case '\\' => Some('\\')
    case '/' => Some('/')
    case 'b' => Some('\U{0008}')
    case 'f' => Some('\U{000C}')
    case 'n' => Some('\n')
    case 'r' => Some('\r')
    case 't' => Some('\t')
    case _ => None
  }

  /** The first character of a string's text, and how long its text is. */
  function ReadChar(t: string): (r: Option<(char, nat)>)
    requires t != ""
    ensures r.Some? ==> 0 < r.value.1 <= |t|
  {
    if t[0] == '\\' then
      if |t| >= 6 && t[1] == 'u' then
        match HexChar(t[2], t[3], t[4], t[5])
        case Some(c) => Some((c, 6))
        case None => None
      else if |t| >= 2 then
        match ShortEscape(t[1])
        case Some(c) => Some((c, 2))
        case None => None
      else None
    else if t[0] < ' ' then None
    else Some((t[0], 1))
  }

  /** The characters up to the closing quotation mark, and what follows it. */
  function ReadChars(t: string): (r: Option<(string, string)>)
    ensures r.Some? ==> |r.value.1| < |t|
    decreases |t|
  {
    if t == "" then None
    else if t[0] == '\"' then Some(("", t[1..]))
    else
      match ReadChar(t)
      case None => None
      case Some((c, n)) =>
        match ReadChars(t[n..])
        case None => None
        case Some((s, rest)) => Some(([c] + s, rest))
  }

  // ----- Values: sections 3 to 5 -----

  function ReadJson(t: string): (r: Option<(Json, string)>)
    ensures r.Some? ==> |r.value.1| < |t|
    decreases |t|, 0
  {
    if t == "" then None
    else if "null" <= t then Some((Null, t[4..]))
    else if "true" <= t then Some((Bool(true), t[4..]))
    else if "false" <= t then Some((Bool(false), t[5..]))
    else if t[0] == '\"' then
      match ReadChars(t[1..])
      case None => None
      case Some((s, rest)) => Some((Str(s), rest))
    else if t[0] == '[' then
      if |t| > 1 && t[1] == ']' then Some((Arr([]), t[2..]))
      else
        match ReadItems(t[1..])
        case None => None
        case Some((items, rest)) => Some((Arr(items), rest))
    else if t[0] == '{' then
      if |t| > 1 && t[1] == '}' then Some((Obj([]), t[2..]))
      else
        match ReadMembers(t[1..])
        case None => None
        case Some((entries, rest)) => Some((Obj(entries), rest))
    else
      var n := NumeralRun(t);
      if IsNumeral(t[..n]) then Some((Num(t[..n]), t[n..])) else None
  }

  /** Values separated by commas, and the closing bracket. */
  function ReadItems(t: string): (r: Option<(seq<Json>, string)>)
    ensures r.Some? ==> |r.value.1| < |t|
    decreases |t|, 1
  {
    match ReadJson(t)
    case None => None
    case Some((v, rest)) =>
      if rest == "" then None
      else if rest[0] == ']' then Some(([v], rest[1..]))
      else if rest[0] != ',' then None
      else
        match ReadItems(rest[1..])
        case None => None
        case Some((vs, end)) => Some(([v] + vs, end))
  }

  /** A name, a colon and a value. */
  function ReadMember(t: string): (r: Option<((string, Json), string)>)
    ensures r.Some? ==> |r.value.1| < |t|
    decreases |t|, 1
  {
    if t == "" || t[0] != '\"' then None
    else
      match ReadChars(t[1..])
      case None => None
      case Some((key, rest)) =>
        if rest == "" || rest[0] != ':' then None
        else
          match ReadJson(rest[1..])
          case None => None
          case Some((v, end)) => Some(((key, v), end))
  }

  /** Members separated by commas, and the closing brace. */
  function ReadMembers(t: string): (r: Option<(seq<(string, Json)>, string)>)
    ensures r.Some? ==> |r.value.1| < |t|
    decreases |t|, 2
  {
    match ReadMember(t)
    case None => None
    case Some((e, rest)) =>
      if rest == "" then None
      else if rest[0] == '}' then Some(([e], rest[1..]))
      else if rest[0] != ',' then None
      else
        match ReadMembers(rest[1..])
        case None => None
        case Some((es, end)) => Some(([e] + es, end))
  }
}
