/** ml-service/app/main.py: the search for a field's value among the tokens, and the spans of all fields. */
module FieldSpans {
  import opened Wrappers
  import opened LookupWords
  import opened TokenWindow

  // ----- Case-insensitive occurrences of a literal -----

  predicate MatchesAt(casing: Casing, literal: string, text: string, pos: nat) {
    pos + |literal| <= |text| && forall k :: 0 <= k < |literal| ==> casing.same(literal[k], text[pos + k])
  }

  /** `re.finditer(re.escape(literal), text, flags=re.IGNORECASE)`: after a match the scan goes on behind it. */
  function Occurrences(casing: Casing, literal: string, text: string, pos: nat): seq<(nat, nat)>
    requires literal != ""
    decreases |text| - pos
  {
    if pos + |literal| > |text| then []
    else if MatchesAt(casing, literal, text, pos) then
      [(pos, pos + |literal|)] + Occurrences(casing, literal, text, pos + |literal|)
    else Occurrences(casing, literal, text, pos + 1)
  }

  predicate IsOccurrence(casing: Casing, literal: string, text: string, pos: nat, at: (nat, nat)) {
    pos <= at.0 && at.1 == at.0 + |literal| && MatchesAt(casing, literal, text, at.0)
  }

  predicate AllOccur(casing: Casing, literal: string, text: string, pos: nat, found: seq<(nat, nat)>) {
    forall k :: 0 <= k < |found| ==> IsOccurrence(casing, literal, text, pos, found[k])
  }

  lemma {:induction false} OccurrencesOccur(casing: Casing, literal: string, text: string, pos: nat)
    requires literal != ""
    ensures AllOccur(casing, literal, text, pos, Occurrences(casing, literal, text, pos))
    decreases |text| - pos
  {
    hide MatchesAt;
    if pos + |literal| <= |text| {
      var next := if MatchesAt(casing, literal, text, pos) then pos + |literal| else pos + 1;
      OccurrencesOccur(casing, literal, text, next);
    }
  }

  /** Every place where the literal matches starts inside a listed occurrence, or is one. */
  lemma {:induction false} OccurrencesCover(casing: Casing, literal: string, text: string, pos: nat, at: nat)
    returns (k: nat)
    requires literal != "" && pos <= at && MatchesAt(casing, literal, text, at)
    ensures var found := Occurrences(casing, literal, text, pos);
            k < |found| && found[k].0 <= at < found[k].1
    decreases |text| - pos
  {
    assert pos + |literal| <= |text|;
    hide MatchesAt;
    if !MatchesAt(casing, literal, text, pos) {
      k := OccurrencesCover(casing, literal, text, pos + 1, at);
    } else if at < pos + |literal| {
      k := 0;
    } else {
      k := OccurrencesCover(casing, literal, text, pos + |literal|, at);
      k := k + 1;
    }
  }

  // ----- One search -----

  /** What `_find_token_window` is given; tokens in `occupied` belong to spans found before. */
  datatype Query = Query(casing: Casing, t: Tokenized, span: string, occupied: set<nat>, allowOverlap: bool)
  {
    ghost predicate Lawful() {
      casing.Lawful() && IsTokenization(t)
    }

    function Needle(): seq<string> {
      WordsOf(casing, span)
    }

    function Fallback(): seq<(nat, nat)> {
      if Strip(span) == "" then [] else Occurrences(casing, Strip(span), t.text, 0)
    }
  }

  predicate Free(occupied: set<nat>, w: Window) {
    forall i :: w.0 <= i < w.1 ==> i !in occupied
  }

  /** A window of free tokens whose words are those of the span, whatever the case and the punctuation. */
  predicate Spells(q: Query, w: Window) {
    w.0 < w.1 <= |q.t.tokens| && Free(q.occupied, w) && TokenWords(q.casing, q.t.tokens[w.0..w.1]) == q.Needle()
  }

  predicate Before(v: Window, w: Window) {
    v.0 < w.0 || (v.0 == w.0 && v.1 < w.1)
  }

  ghost predicate FirstSpelling(q: Query, w: Window) {
    Spells(q, w) && forall v: Window :: Spells(q, v) ==> !Before(v, w)
  }

  /** `w` holds the tokens an occurrence touches, and may be taken. */
  predicate Acceptable(q: Query, at: (nat, nat), w: Window) {
    IsTouching(q.t.offsets, at.0, at.1, Some(w)) && (q.allowOverlap || Free(q.occupied, w))
  }

  ghost predicate NoneAcceptable(q: Query, n: nat)
    requires n <= |q.Fallback()|
  {
    forall j, v: Window :: 0 <= j < n ==> !Acceptable(q, q.Fallback()[j], v)
  }

  ghost predicate FirstAcceptable(q: Query, w: Window) {
    exists k :: 0 <= k < |q.Fallback()| && Acceptable(q, q.Fallback()[k], w) && NoneAcceptable(q, k)
  }

  /**
   * The search without pruning: the first free window that spells the span, if there is any;
   * otherwise the tokens of the first acceptable literal occurrence.
   */
  ghost predicate Finds(q: Query, found: Option<Window>) {
    if q.Needle() == [] then found == None
    else if exists v: Window :: Spells(q, v) then found.Some? && FirstSpelling(q, found.value)
    else match found
      case Some(w) => FirstAcceptable(q, w)
      case None => NoneAcceptable(q, |q.Fallback()|)
  }

  lemma {:induction false} AcceptableIsUnique(q: Query, v: Window, w: Window)
    requires FirstAcceptable(q, v) && FirstAcceptable(q, w)
    ensures v == w
  {
    hide Acceptable;
    var j :| 0 <= j < |q.Fallback()| && Acceptable(q, q.Fallback()[j], v) && NoneAcceptable(q, j);
    var k :| 0 <= k < |q.Fallback()| && Acceptable(q, q.Fallback()[k], w) && NoneAcceptable(q, k);
    assert j == k;
    SameTokens(q, q.Fallback()[k], v, w);
  }

  lemma {:induction false} SameTokens(q: Query, at: (nat, nat), v: Window, w: Window)
    requires Acceptable(q, at, v) && Acceptable(q, at, w)
    ensures v == w
  {
    TouchingIsUnique(q.t.offsets, at.0, at.1, Some(v), Some(w));
    hide IsTouching;
  }

  /** The search has one result. */
  lemma {:induction false} FindsOne(q: Query, a: Option<Window>, b: Option<Window>)
    requires Finds(q, a) && Finds(q, b)
    ensures a == b
  {
    hide Spells, Acceptable;
    if q.Needle() != [] && !exists v: Window :: Spells(q, v) {
      hide FirstSpelling;
      if a.Some? && b.Some? {
        AcceptableIsUnique(q, a.value, b.value);
      }
    }
  }

  /** A window lies among the tokens, and is free unless overlap is allowed. */
  lemma {:induction false} FoundIsFree(q: Query, w: Window)
    requires q.Lawful() && Finds(q, Some(w))
    ensures w.0 < w.1 <= |q.t.tokens| && (q.allowOverlap || Free(q.occupied, w))
  {
    assert |q.t.tokens| == |q.t.offsets|;
    hide Free, TokenWords, IsTokenization;
    if !exists v: Window :: Spells(q, v) {
      hide Spells;
      var k :| 0 <= k < |q.Fallback()| && Acceptable(q, q.Fallback()[k], w) && NoneAcceptable(q, k);
    }
  }

  /** When some free window spells the span, the text of the found one normalises to what the span does. */
  lemma {:induction false} FoundSpells(q: Query, v: Window, w: Window)
    requires q.Lawful() && Finds(q, Some(w)) && Spells(q, v)
    ensures w.0 < w.1 <= |q.t.tokens|
    ensures NormalizeLookup(q.casing, WindowText(q.t, w)) == NormalizeLookup(q.casing, q.span)
  {
    hide Free;
    WindowWords(q.casing, q.t, w);
    SameLookupIffSameWords(q.casing, WindowText(q.t, w), q.span);
    hide IsTokenization, Casing.Lawful, WindowText, WordsOf, NormalizeLookup, TokenWords;
  }

  lemma {:induction false} StripOpens(s: string)
    ensures Strip(s) != "" ==> !IsBlank(Strip(s)[0])
  {
    StripLeftOpens(s);
    StripRightPrefix(StripLeft(s));
  }

  lemma {:induction false} StripLeftOpens(s: string)
    ensures StripLeft(s) != "" ==> !IsBlank(StripLeft(s)[0])
  {
    if s != "" && IsBlank(s[0]) {
      StripLeftOpens(s[1..]);
    }
  }

  lemma {:induction false} StripRightPrefix(s: string)
    ensures StripRight(s) <= s
    decreases |s|
  {
    if s != "" && IsBlank(s[|s| - 1]) {
      StripRightPrefix(s[..|s| - 1]);
    }
  }

  /** Every literal occurrence touches a token, so the scan never meets one without a window. */
  lemma {:induction false} OccurrenceHasTokens(q: Query, k: nat) returns (i: nat)
    requires q.Lawful() && k < |q.Fallback()|
    ensures i < |q.t.offsets| && Touches(q.t.offsets, i, q.Fallback()[k].0, q.Fallback()[k].1)
  {
    var literal := Strip(q.span);
    StripOpens(q.span);
    OccurrencesOccur(q.casing, literal, q.t.text, 0);
    var at := q.Fallback()[k];
    assert IsOccurrence(q.casing, literal, q.t.text, 0, at);
    hide Strip, Occurrences, IsTokenization;
    assert q.casing.same(literal[0], q.t.text[at.0 + 0]);
    assert IsBlank(literal[0]) == IsBlank(q.t.text[at.0]);
    hide IsBlank, MatchesAt, Casing.Lawful;
    i := TokensCover(q.t, at.0);
  }

  // ----- The search as it is written -----

  ghost predicate NoneFrom(q: Query, start: nat) {
    forall v: Window :: v.0 < start ==> !Spells(q, v)
  }

  ghost predicate NoneUpTo(q: Query, start: nat, end: nat) {
    forall v: Window :: v.0 == start && v.1 <= end ==> !Spells(q, v)
  }

  lemma {:induction false} StartDone(q: Query, start: nat)
    requires NoneFrom(q, start) && NoneUpTo(q, start, |q.t.tokens|)
    ensures NoneFrom(q, start + 1)
  {
    forall v: Window | v.0 < start + 1
      ensures !Spells(q, v)
    {
      assert v.1 > |q.t.tokens| ==> !Spells(q, v);
      hide Spells;
    }
  }

  lemma {:induction false} StartOccupied(q: Query, start: nat)
    requires start in q.occupied
    ensures NoneUpTo(q, start, |q.t.tokens|)
  {
    hide TokenWords;
  }

  /** A window over an occupied token is not free. */
  lemma {:induction false} EndOccupied(q: Query, start: nat, end: nat)
    requires start <= end && end in q.occupied && NoneUpTo(q, start, end)
    ensures NoneUpTo(q, start, |q.t.tokens|)
  {
    forall v: Window | v.0 == start && v.1 <= |q.t.tokens|
      ensures !Spells(q, v)
    {
      if v.1 > end {
        hide TokenWords;
      } else {
        hide Spells;
      }
    }
  }

  /** Once the candidate is too long, no longer window can spell the span. */
  lemma {:induction false} PruneIsSafe(q: Query, start: nat, end: nat)
    requires q.casing.Lawful() && start <= end < |q.t.tokens| && NoneUpTo(q, start, end + 1)
    requires |NormalizeLookup(q.casing, Spaced(q.t.tokens[start..end + 1]))| > |NormalizeLookup(q.casing, q.span)|
    ensures NoneUpTo(q, start, |q.t.tokens|)
  {
    forall v: Window | v.0 == start && v.1 <= |q.t.tokens|
      ensures !Spells(q, v)
    {
      if v.1 > end + 1 {
        LongerDoesNotSpell(q, start, end, v.1);
      } else {
        hide Spells;
      }
    }
  }

  lemma {:induction false} LongerDoesNotSpell(q: Query, start: nat, end: nat, longer: nat)
    requires q.casing.Lawful() && start <= end < longer <= |q.t.tokens|
    requires |NormalizeLookup(q.casing, Spaced(q.t.tokens[start..end + 1]))| > |NormalizeLookup(q.casing, q.span)|
    ensures !Spells(q, (start, longer))
  {
    var tokens := q.t.tokens[start..longer];
    JoinedLookup(q.casing, tokens, q.span);
    assert tokens == q.t.tokens[start..end + 1] + q.t.tokens[end + 1..longer];
    LookupGrows(q.casing, q.t.tokens[start..end + 1], q.t.tokens[end + 1..longer]);
    hide NormalizeLookup, TokenWords, WordsOf, Spaced, Casing.Lawful, Free;
  }

  lemma {:induction false} CandidateSpells(q: Query, start: nat, end: nat)
    requires q.casing.Lawful() && start <= end < |q.t.tokens| && Free(q.occupied, (start, end + 1))
    requires NoneUpTo(q, start, end)
    ensures NormalizeLookup(q.casing, Spaced(q.t.tokens[start..end + 1])) == NormalizeLookup(q.casing, q.span)
            <==> Spells(q, (start, end + 1))
    ensures !Spells(q, (start, end + 1)) ==> NoneUpTo(q, start, end + 1)
  {
    JoinedLookup(q.casing, q.t.tokens[start..end + 1], q.span);
    hide NormalizeLookup, TokenWords, WordsOf, Spaced, Casing.Lawful, Free;
    if !Spells(q, (start, end + 1)) {
      hide Spells;
      assert forall v: Window :: v.0 == start && v.1 == end + 1 ==> v == (start, end + 1);
    }
  }

  lemma {:induction false} FirstFound(q: Query, w: Window)
    requires Spells(q, w) && NoneFrom(q, w.0) && NoneUpTo(q, w.0, w.1 - 1)
    requires w.1 > 0
    ensures FirstSpelling(q, w)
  {
    hide Spells;
  }

  lemma {:induction false} NothingSpells(q: Query)
    requires NoneFrom(q, |q.t.tokens|)
    ensures forall v: Window :: !Spells(q, v)
  {
    forall v: Window
      ensures !Spells(q, v)
    {
      assert v.0 >= |q.t.tokens| ==> !Spells(q, v);
      hide Spells;
    }
  }

  /** The first loop, which prunes. */
  method FindSpelling(q: Query, needle: string) returns (found: Option<Window>)
    requires q.Lawful() && needle == NormalizeLookup(q.casing, q.span)
    ensures found.Some? ==> FirstSpelling(q, found.value)
    ensures found.None? ==> forall v: Window :: !Spells(q, v)
  {
    hide Spells, NormalizeLookup, Spaced, FirstSpelling, NoneFrom, NoneUpTo, IsTokenization, Casing.Lawful;
    var tokens := q.t.tokens;
    NothingBefore(q);
    for start := 0 to |tokens|
      invariant NoneFrom(q, start)
    {
      if start in q.occupied {
        StartOccupied(q, start);
        StartDone(q, start);
        continue;
      }
      EmptyWindows(q, start);
      var end := start;
      while end < |tokens|
        invariant start <= end <= |tokens| && Free(q.occupied, (start, end))
        invariant NoneUpTo(q, start, end)
      {
        if end in q.occupied {
          EndOccupied(q, start, end);
          break;
        }
        var candidate := NormalizeLookup(q.casing, Spaced(tokens[start..end + 1]));
        CandidateSpells(q, start, end);
        if candidate == needle {
          FirstFound(q, (start, end + 1));
          return Some((start, end + 1));
        }
        if |candidate| > |needle| + 4 {
          PruneIsSafe(q, start, end);
          break;
        }
        end := end + 1;
      }
      StartDone(q, start);
    }
    NothingSpells(q);
    return None;
  }

  lemma {:induction false} NothingBefore(q: Query)
    ensures NoneFrom(q, 0)
  {
  }

  lemma {:induction false} EmptyWindows(q: Query, start: nat)
    ensures NoneUpTo(q, start, start)
  {
    hide TokenWords, Free;
  }

  method FindTokenWindow(q: Query) returns (found: Option<Window>)
    requires q.Lawful()
    ensures Finds(q, found)
  {
    hide Spells, NormalizeLookup, Strip, Query.Needle, Query.Fallback, Acceptable, IsTouching;
    var needle := NormalizeLookup(q.casing, q.span);
    EmptyNeedle(q);
    if needle == "" {
      return None;
    }
    found := FindSpelling(q, needle);
    if found.Some? {
      return;
    }
    var literal := Strip(q.span);
    FallbackIs(q);
    if literal == "" {
      return None;
    }
    var occurrences := Occurrences(q.casing, literal, q.t.text, 0);
    for k := 0 to |occurrences|
      invariant NoneAcceptable(q, k)
    {
      var w := TokenWindowFromOffsets(q.t.offsets, occurrences[k].0, occurrences[k].1, |q.t.text|);
      ghost var at := q.Fallback()[k];
      if w.None? {
        NoneTouched(q, at);
        continue;
      }
      Judge(q, at, w.value);
      if !q.allowOverlap && exists i | w.value.0 <= i < w.value.1 :: i in q.occupied {
        continue;
      }
      assert Acceptable(q, q.Fallback()[k], w.value);
      assert FirstAcceptable(q, w.value);
      return w;
    }
    return None;
  }

  lemma {:induction false} EmptyNeedle(q: Query)
    ensures NormalizeLookup(q.casing, q.span) == "" <==> q.Needle() == []
  {
    EmptyLookup(q.casing, q.span);
  }

  lemma {:induction false} FallbackIs(q: Query)
    ensures q.Fallback() == if Strip(q.span) == "" then [] else Occurrences(q.casing, Strip(q.span), q.t.text, 0)
  {
  }

  lemma {:induction false} NoneTouched(q: Query, at: (nat, nat))
    requires IsTouching(q.t.offsets, at.0, at.1, None)
    ensures forall v: Window :: !Acceptable(q, at, v)
  {
    forall v: Window
      ensures !Acceptable(q, at, v)
    {
      if IsTouching(q.t.offsets, at.0, at.1, Some(v)) {
        TouchingIsUnique(q.t.offsets, at.0, at.1, None, Some(v));
      }
    }
  }

  lemma {:induction false} Judge(q: Query, at: (nat, nat), w: Window)
    requires IsTouching(q.t.offsets, at.0, at.1, Some(w))
    ensures Acceptable(q, at, w) <==> q.allowOverlap || Free(q.occupied, w)
    ensures forall v: Window :: Acceptable(q, at, v) ==> v == w
  {
    forall v: Window | Acceptable(q, at, v)
      ensures v == w
    {
      TouchingIsUnique(q.t.offsets, at.0, at.1, Some(v), Some(w));
    }
  }

  // ----- The spans of all fields -----

  /** A parsed field and the text to look for, empty when the field has none. */
  datatype FieldValue = FieldValue(field: string, spanText: string)

  datatype Span = Span(field: string, tokens: Window, text: string, confidence: real, valid: bool)

  /** What the extractor knows about its fields: their confidences, and the warnings raised. */
  datatype Notes = Notes(confidences: map<string, real>, warnings: seq<string>)

  predicate MayOverlap(field: string) {
    field == "volume" || field == "issue"
  }

  /** The indices a window spans, as `range` lists them. */
  function Indices(w: Window): (indices: set<nat>)
    ensures forall i: nat :: i in indices <==> w.0 <= i < w.1
    decreases w.1
  {
    if w.0 >= w.1 then {} else Indices((w.0, w.1 - 1)) + {w.1 - 1}
  }

  /** The tokens of the spans. */
  function Covered(spans: seq<Span>): set<nat> {
    if spans == [] then {} else Covered(spans[..|spans| - 1]) + Indices(spans[|spans| - 1].tokens)
  }

  function SearchFor(casing: Casing, t: Tokenized, value: FieldValue, occupied: set<nat>): Query {
    Query(casing, t, value.spanText, occupied, MayOverlap(value.field))
  }

  /** The span of a window: its text, the confidence of the field or one half, and whether no warning is against it. */
  predicate IsSpanOf(t: Tokenized, notes: Notes, field: string, w: Window, span: Span)
    requires TokensAreSlices(t)
  {
    && w.0 < w.1 <= |t.tokens| && span.field == field && span.tokens == w && span.text == WindowText(t, w)
    && span.confidence == (if field in notes.confidences then notes.confidences[field] else 0.5)
    && span.valid == (field != "authors" || "invalid_author_span" !in notes.warnings)
  }

  /** The spans of the first `n` fields: each field is searched with the tokens of all earlier spans occupied. */
  ghost predicate Builds(casing: Casing, t: Tokenized, notes: Notes, values: seq<FieldValue>, n: nat, spans: seq<Span>)
    requires TokensAreSlices(t) && n <= |values|
  {
    if n == 0 then spans == []
    else
      var value := values[n - 1];
      || (Builds(casing, t, notes, values, n - 1, spans)
          && (value.spanText == "" || Finds(SearchFor(casing, t, value, Covered(spans)), None)))
      || (spans != [] && value.spanText != ""
          && var (earlier, last) := (spans[..|spans| - 1], spans[|spans| - 1]);
             && Builds(casing, t, notes, values, n - 1, earlier)
             && Finds(SearchFor(casing, t, value, Covered(earlier)), Some(last.tokens))
             && IsSpanOf(t, notes, value.field, last.tokens, last))
  }

  method BuildSpansFromFields(casing: Casing, t: Tokenized, notes: Notes, values: seq<FieldValue>)
    returns (spans: seq<Span>)
    requires casing.Lawful() && IsTokenization(t)
    ensures Builds(casing, t, notes, values, |values|, spans)
  {
    assert TokensAreSlices(t);
    hide *;
    var occupied: set<nat> := {};
    spans := [];
    NothingBuilt(casing, t, notes, values);
    for n := 0 to |values|
      invariant TokensAreSlices(t) && occupied == Covered(spans)
      invariant Builds(casing, t, notes, values, n, spans)
    {
      if values[n].spanText == "" {
        SkipBuilds(casing, t, notes, values, n, spans);
        continue;
      }
      var q := SearchFor(casing, t, values[n], occupied);
      SearchIsLawful(casing, t, values[n], occupied);
      var window := FindTokenWindow(q);
      if window.None? {
        SkipBuilds(casing, t, notes, values, n, spans);
        continue;
      }
      var span := NewSpan(q, notes, values[n].field, window.value);
      MoreBuilds(casing, t, notes, values, n, spans, span);
      occupied := MarkTokens(span.tokens, occupied);
      spans := spans + [span];
    }
  }

  lemma {:induction false} NothingBuilt(casing: Casing, t: Tokenized, notes: Notes, values: seq<FieldValue>)
    requires TokensAreSlices(t)
    ensures Builds(casing, t, notes, values, 0, []) && Covered([]) == {}
  {
  }

  lemma {:induction false} SearchIsLawful(casing: Casing, t: Tokenized, value: FieldValue, occupied: set<nat>)
    requires casing.Lawful() && IsTokenization(t)
    ensures SearchFor(casing, t, value, occupied).Lawful() && SearchFor(casing, t, value, occupied).t == t
  {
  }

  lemma {:induction false} SkipBuilds(casing: Casing, t: Tokenized, notes: Notes, values: seq<FieldValue>, n: nat,
                                      spans: seq<Span>)
    requires TokensAreSlices(t) && n < |values| && Builds(casing, t, notes, values, n, spans)
    requires values[n].spanText == "" || Finds(SearchFor(casing, t, values[n], Covered(spans)), None)
    ensures Builds(casing, t, notes, values, n + 1, spans)
  {
    hide TokensAreSlices, Finds, Covered, IsSpanOf;
  }

  lemma {:induction false} MoreBuilds(casing: Casing, t: Tokenized, notes: Notes, values: seq<FieldValue>, n: nat,
                                      spans: seq<Span>, span: Span)
    requires TokensAreSlices(t) && n < |values| && Builds(casing, t, notes, values, n, spans)
             && values[n].spanText != ""
    requires Finds(SearchFor(casing, t, values[n], Covered(spans)), Some(span.tokens))
    requires IsSpanOf(t, notes, values[n].field, span.tokens, span)
    ensures Builds(casing, t, notes, values, n + 1, spans + [span])
    ensures Covered(spans + [span]) == Covered(spans) + Indices(span.tokens) && span.tokens.0 <= span.tokens.1
  {
    hide TokensAreSlices, Finds, Indices, WindowText;
    assert (spans + [span])[..|spans|] == spans;
  }

  method NewSpan(q: Query, notes: Notes, field: string, w: Window) returns (span: Span)
    requires q.Lawful() && Finds(q, Some(w)) && TokensAreSlices(q.t)
    ensures span.tokens == w && IsSpanOf(q.t, notes, field, w, span)
  {
    FoundIsFree(q, w);
    hide TokensAreSlices, WindowText, Finds, Query.Lawful;
    var confidence := if field in notes.confidences then notes.confidences[field] else 0.5;
    var valid := field != "authors" || "invalid_author_span" !in notes.warnings;
    span := Span(field, w, WindowText(q.t, w), confidence, valid);
  }

  method MarkTokens(w: Window, occupied: set<nat>) returns (marked: set<nat>)
    requires w.0 <= w.1
    ensures marked == occupied + Indices(w)
  {
    marked := occupied;
    for idx := w.0 to w.1
      invariant marked == occupied + Indices((w.0, idx))
    {
      marked := marked + {idx};
    }
  }

  predicate Apart(v: Window, w: Window) {
    v.1 <= w.0 || w.1 <= v.0
  }

  /** A span for any field but volume and issue shares no token with an earlier span. */
  predicate KeepsApart(spans: seq<Span>) {
    forall i, j :: 0 <= i < j < |spans| && spans[j].field != "volume" && spans[j].field != "issue" ==>
      Apart(spans[i].tokens, spans[j].tokens)
  }

  predicate InRange(spans: seq<Span>, size: nat) {
    forall i :: 0 <= i < |spans| ==> spans[i].tokens.0 < spans[i].tokens.1 <= size
  }

  lemma {:induction false} CoveredHolds(spans: seq<Span>, i: nat)
    requires i < |spans|
    ensures Indices(spans[i].tokens) <= Covered(spans)
  {
    hide Indices;
    if i < |spans| - 1 {
      CoveredHolds(spans[..|spans| - 1], i);
    }
  }

  lemma {:induction false} FreeIsApart(spans: seq<Span>, i: nat, w: Window)
    requires i < |spans| && spans[i].tokens.0 < spans[i].tokens.1 && w.0 < w.1 && Free(Covered(spans), w)
    ensures Apart(spans[i].tokens, w)
  {
    CoveredHolds(spans, i);
    var v := spans[i].tokens;
    var shared := if v.0 <= w.0 then w.0 else v.0;
    assert shared in Indices(v) <==> v.0 <= shared < v.1;
  }

  lemma {:induction false} LastKeepsApart(earlier: seq<Span>, last: Span, size: nat)
    requires KeepsApart(earlier) && InRange(earlier, size) && last.tokens.0 < last.tokens.1 <= size
    requires last.field == "volume" || last.field == "issue" || Free(Covered(earlier), last.tokens)
    ensures KeepsApart(earlier + [last]) && InRange(earlier + [last], size)
  {
    hide Free, Apart, Covered;
    var spans := earlier + [last];
    forall i, j | 0 <= i < j < |spans| && spans[j].field != "volume" && spans[j].field != "issue"
      ensures Apart(spans[i].tokens, spans[j].tokens)
    {
      if j == |earlier| {
        FreeIsApart(earlier, i, last.tokens);
      }
    }
  }

  /** What the last field adds to the spans before it. */
  ghost predicate Adds(casing: Casing, t: Tokenized, notes: Notes, value: FieldValue, earlier: seq<Span>,
                       spans: seq<Span>)
    requires TokensAreSlices(t)
  {
    || (spans == earlier && (value.spanText == "" || Finds(SearchFor(casing, t, value, Covered(earlier)), None)))
    || (|spans| == |earlier| + 1 && value.spanText != "" && spans[..|earlier|] == earlier
        && Finds(SearchFor(casing, t, value, Covered(earlier)), Some(spans[|earlier|].tokens))
        && IsSpanOf(t, notes, value.field, spans[|earlier|].tokens, spans[|earlier|]))
  }

  lemma {:induction false} LastAdds(casing: Casing, t: Tokenized, notes: Notes, values: seq<FieldValue>, n: nat,
                                    spans: seq<Span>)
    returns (earlier: seq<Span>)
    requires TokensAreSlices(t) && 0 < n <= |values| && Builds(casing, t, notes, values, n, spans)
    ensures Builds(casing, t, notes, values, n - 1, earlier) && Adds(casing, t, notes, values[n - 1], earlier, spans)
  {
    hide TokensAreSlices, Finds, Covered, IsSpanOf;
    var value := values[n - 1];
    if Builds(casing, t, notes, values, n - 1, spans)
      && (value.spanText == "" || Finds(SearchFor(casing, t, value, Covered(spans)), None)) {
      earlier := spans;
    } else {
      earlier := spans[..|spans| - 1];
    }
  }

  lemma {:induction false} AddsOne(casing: Casing, t: Tokenized, notes: Notes, value: FieldValue, earlier: seq<Span>,
                                   a: seq<Span>, b: seq<Span>)
    requires TokensAreSlices(t) && Adds(casing, t, notes, value, earlier, a)
             && Adds(casing, t, notes, value, earlier, b)
    ensures a == b
  {
    var q := SearchFor(casing, t, value, Covered(earlier));
    hide TokensAreSlices, Finds, Covered, WindowText;
    if value.spanText != "" {
      var found := (spans: seq<Span>) => if |spans| > |earlier| then Some(spans[|earlier|].tokens) else None;
      FindsOne(q, found(a), found(b));
      if |a| > |earlier| {
        assert a == earlier + [a[|earlier|]];
        assert b == earlier + [b[|earlier|]];
      }
    }
  }

  lemma {:induction false} SpansKeepApart(casing: Casing, t: Tokenized, notes: Notes, values: seq<FieldValue>, n: nat,
                                          spans: seq<Span>)
    requires casing.Lawful() && IsTokenization(t) && TokensAreSlices(t) && n <= |values|
    requires Builds(casing, t, notes, values, n, spans)
    ensures KeepsApart(spans) && InRange(spans, |t.tokens|)
  {
    hide *;
    if n == 0 {
      NoSpans(casing, t, notes, values, spans);
    } else {
      var earlier := LastAdds(casing, t, notes, values, n, spans);
      SpansKeepApart(casing, t, notes, values, n - 1, earlier);
      AddsKeepsApart(casing, t, notes, values[n - 1], earlier, spans);
    }
  }

  lemma {:induction false} NoSpans(casing: Casing, t: Tokenized, notes: Notes, values: seq<FieldValue>,
                                   spans: seq<Span>)
    requires TokensAreSlices(t) && Builds(casing, t, notes, values, 0, spans)
    ensures KeepsApart(spans) && InRange(spans, |t.tokens|)
  {
  }

  lemma {:induction false} AddsKeepsApart(casing: Casing, t: Tokenized, notes: Notes, value: FieldValue,
                                          earlier: seq<Span>, spans: seq<Span>)
    requires casing.Lawful() && IsTokenization(t) && TokensAreSlices(t) && Adds(casing, t, notes, value, earlier, spans)
    requires KeepsApart(earlier) && InRange(earlier, |t.tokens|)
    ensures KeepsApart(spans) && InRange(spans, |t.tokens|)
  {
    hide IsTokenization, TokensAreSlices, Casing.Lawful, Covered, Finds, WindowText, Free, KeepsApart, InRange;
    if |spans| > |earlier| {
      var last := spans[|earlier|];
      FoundIsFree(SearchFor(casing, t, value, Covered(earlier)), last.tokens);
      LastKeepsApart(earlier, last, |t.tokens|);
      assert spans == earlier + [last];
    }
  }

  /** The spans are determined by the fields and the tokens. */
  lemma {:induction false} SpansAreOne(casing: Casing, t: Tokenized, notes: Notes, values: seq<FieldValue>, n: nat,
                                       a: seq<Span>, b: seq<Span>)
    requires TokensAreSlices(t) && n <= |values|
    requires Builds(casing, t, notes, values, n, a) && Builds(casing, t, notes, values, n, b)
    ensures a == b
  {
    if n > 0 {
      var a' := LastAdds(casing, t, notes, values, n, a);
      var b' := LastAdds(casing, t, notes, values, n, b);
      SpansAreOne(casing, t, notes, values, n - 1, a', b');
      AddsOne(casing, t, notes, values[n - 1], a', a, b);
    }
  }

  // ----- Volume and issue -----

  /** The literal occurs at `p`, and not before. */
  ghost predicate FirstAt(casing: Casing, literal: string, text: string, p: nat) {
    MatchesAt(casing, literal, text, p) && forall q: nat :: q < p ==> !MatchesAt(casing, literal, text, q)
  }

  lemma {:induction false} FirstOccurrence(casing: Casing, literal: string, text: string, pos: nat, p: nat)
    requires literal != "" && pos <= p && FirstAt(casing, literal, text, p)
    ensures Occurrences(casing, literal, text, pos) != []
            && Occurrences(casing, literal, text, pos)[0] == (p, p + |literal|)
    decreases |text| - pos
  {
    assert p + |literal| <= |text|;
    hide MatchesAt;
    if pos < p {
      FirstOccurrence(casing, literal, text, pos + 1, p);
    }
  }

  /** Every literal occurrence has a window. */
  lemma {:induction false} OccurrenceHasWindow(q: Query, k: nat) returns (w: Window)
    requires q.Lawful() && k < |q.Fallback()|
    ensures IsTouching(q.t.offsets, q.Fallback()[k].0, q.Fallback()[k].1, Some(w))
  {
    var at := q.Fallback()[k];
    var i := OccurrenceHasTokens(q, k);
    hide Query.Fallback, Occurrences, IsTokenization;
    var found := WindowOf(q.t, at.0, at.1);
    w := found.value;
  }

  lemma {:induction false} WindowOf(t: Tokenized, from: nat, to: nat) returns (found: Option<Window>)
    requires IsTokenization(t)
    ensures IsTouching(t.offsets, from, to, found)
  {
    var offsets := t.offsets;
    var a, b := 0, |offsets|;
    while a < |offsets| && offsets[a].1 <= from
      invariant 0 <= a <= |offsets| && forall i :: 0 <= i < a ==> offsets[i].1 <= from
    {
      a := a + 1;
    }
    while b > 0 && to <= offsets[b - 1].0
      invariant 0 <= b <= |offsets| && forall i :: b <= i < |offsets| ==> to <= offsets[i].0
    {
      b := b - 1;
    }
    hide IsTokenization;
    found := if a < b then Some((a, b)) else None;
  }

  /** No window of tokens outside `occupied` has the words of the text. */
  ghost predicate NoneSpells(casing: Casing, t: Tokenized, spanText: string, occupied: set<nat>) {
    forall w: Window :: w.0 < w.1 <= |t.tokens| && (forall i :: w.0 <= i < w.1 ==> i !in occupied) ==>
      TokenWords(casing, t.tokens[w.0..w.1]) != WordsOf(casing, spanText)
  }

  /** A volume or issue that no free window spells gets the tokens of its first literal occurrence, occupied or not. */
  lemma {:induction false} VolumeTakesAny(casing: Casing, t: Tokenized, value: FieldValue, occupied: set<nat>,
                                          found: Option<Window>, p: nat)
    requires casing.Lawful() && IsTokenization(t) && (value.field == "volume" || value.field == "issue")
    requires WordsOf(casing, value.spanText) != [] && NoneSpells(casing, t, value.spanText, occupied)
    requires Strip(value.spanText) != "" && FirstAt(casing, Strip(value.spanText), t.text, p)
    requires Finds(SearchFor(casing, t, value, occupied), found)
    ensures found.Some? && IsTouching(t.offsets, p, p + |Strip(value.spanText)|, found)
  {
    var q, literal := SearchFor(casing, t, value, occupied), Strip(value.spanText);
    NoWindowSpells(casing, t, value, occupied);
    FirstOccurrence(casing, literal, t.text, 0, p);
    hide Spells, Strip, Occurrences, NoneSpells, FirstAt, IsTokenization, Casing.Lawful, TokenWords, WordsOf;
    SearchIsLawful(casing, t, value, occupied);
    var w := OccurrenceHasWindow(q, 0);
    assert Acceptable(q, q.Fallback()[0], w);
    FirstIsTaken(q, w);
    FindsOne(q, found, Some(w));
  }

  lemma {:induction false} NoWindowSpells(casing: Casing, t: Tokenized, value: FieldValue, occupied: set<nat>)
    requires IsTokenization(t) && NoneSpells(casing, t, value.spanText, occupied)
    ensures forall v: Window :: !Spells(SearchFor(casing, t, value, occupied), v)
  {
    hide TokenWords, WordsOf;
  }

  lemma {:induction false} FirstIsTaken(q: Query, w: Window)
    requires q.Fallback() != [] && Acceptable(q, q.Fallback()[0], w) && q.Needle() != []
    requires forall v: Window :: !Spells(q, v)
    ensures Finds(q, Some(w))
  {
    hide Spells, Acceptable, Query.Fallback, Query.Needle;
    assert NoneAcceptable(q, 0);
    assert FirstAcceptable(q, w);
  }

  /** Any other field gets free tokens only. */
  lemma {:induction false} OthersTakeFree(casing: Casing, t: Tokenized, value: FieldValue, occupied: set<nat>,
                                          w: Window)
    requires casing.Lawful() && IsTokenization(t) && value.field != "volume" && value.field != "issue"
    requires Finds(SearchFor(casing, t, value, occupied), Some(w))
    ensures forall i :: w.0 <= i < w.1 ==> i !in occupied
  {
    SearchIsLawful(casing, t, value, occupied);
    FoundIsFree(SearchFor(casing, t, value, occupied), w);
    hide Finds, IsTokenization;
  }

  /**
   A volume or issue that no window of uncovered tokens spells, but that occurs in the text, gets a span that holds
   the tokens of its first occurrence, whatever spans hold them already.
   */
  lemma {:induction false} VolumesMayOverlap(casing: Casing, t: Tokenized, notes: Notes, values: seq<FieldValue>,
                                             n: nat, spans: seq<Span>, p: nat)
    returns (earlier: seq<Span>)
    requires casing.Lawful() && IsTokenization(t) && TokensAreSlices(t) && n < |values|
    requires Builds(casing, t, notes, values, n + 1, spans)
    requires values[n].field == "volume" || values[n].field == "issue"
    requires WordsOf(casing, values[n].spanText) != [] && Strip(values[n].spanText) != ""
    requires FirstAt(casing, Strip(values[n].spanText), t.text, p)
    ensures Builds(casing, t, notes, values, n, earlier)
    ensures NoneSpells(casing, t, values[n].spanText, Covered(earlier)) ==>
              && |spans| == |earlier| + 1 && spans[..|earlier|] == earlier
              && IsTouching(t.offsets, p, p + |Strip(values[n].spanText)|, Some(spans[|earlier|].tokens))
              && IsSpanOf(t, notes, values[n].field, spans[|earlier|].tokens, spans[|earlier|])
  {
    hide *;
    earlier := LastAdds(casing, t, notes, values, n + 1, spans);
    if NoneSpells(casing, t, values[n].spanText, Covered(earlier)) {
      AddsVolume(casing, t, notes, values[n], earlier, spans, p);
    }
  }

  lemma {:induction false} AddsVolume(casing: Casing, t: Tokenized, notes: Notes, value: FieldValue,
                                      earlier: seq<Span>, spans: seq<Span>, p: nat)
    requires casing.Lawful() && IsTokenization(t) && TokensAreSlices(t) && Adds(casing, t, notes, value, earlier, spans)
    requires value.field == "volume" || value.field == "issue"
    requires WordsOf(casing, value.spanText) != [] && Strip(value.spanText) != ""
    requires FirstAt(casing, Strip(value.spanText), t.text, p)
    requires NoneSpells(casing, t, value.spanText, Covered(earlier))
    ensures |spans| == |earlier| + 1 && spans[..|earlier|] == earlier
    ensures IsTouching(t.offsets, p, p + |Strip(value.spanText)|, Some(spans[|earlier|].tokens))
    ensures IsSpanOf(t, notes, value.field, spans[|earlier|].tokens, spans[|earlier|])
  {
    hide Finds, IsTokenization, TokensAreSlices, NoneSpells, FirstAt, Covered, WordsOf, IsTouching, IsSpanOf;
    hide Casing.Lawful, SearchFor;
    assert Strip("") == "";
    hide Strip;
    var found := if |spans| > |earlier| then Some(spans[|earlier|].tokens) else None;
    VolumeTakesAny(casing, t, value, Covered(earlier), found, p);
  }
}
