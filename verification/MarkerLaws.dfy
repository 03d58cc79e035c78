/** What `frontend/shared/liveReferenceDetection.ts` takes for a numeric marker, a citation's first line and a part. */
module MarkerLaws {
  import opened Wrappers
  import opened Text
  import opened StructuralCount

  // ----- Markers, written out -----

  predicate AllDigits(d: string) {
    d != "" && forall k :: 0 <= k < |d| ==> '0' <= d[k] <= '9'
  }

  predicate IsGap(s: string) {
    s != "" && forall k :: 0 <= k < |s| ==> IsSpace(s[k])
  }

  predicate IsText(s: string) {
    s == "" || !IsSpace(s[0])
  }

  /** `[7]`, `7.` or `7)`. */
  predicate IsLead(lead: string, d: string) {
    lead == "[" + d + "]" || lead == d + "." || lead == d + ")"
  }

  lemma {:induction false} DigitRunOf(d: string, rest: string)
    requires (forall k :: 0 <= k < |d| ==> '0' <= d[k] <= '9') && (rest == "" || !IsDigit(rest[0]))
    ensures DigitRun(d + rest) == |d|
    decreases |d|
  {
    if d == "" {
      assert d + rest == rest;
    } else {
      assert (d + rest)[1..] == d[1..] + rest;
      DigitRunOf(d[1..], rest);
    }
  }

  lemma {:induction false} SpaceRunOf(gap: string, rest: string)
    requires (forall k :: 0 <= k < |gap| ==> IsSpace(gap[k])) && IsText(rest)
    ensures SpaceRun(gap + rest) == |gap|
    decreases |gap|
  {
    hide IsSpace;
    if gap == "" {
      assert gap + rest == rest;
    } else {
      assert (gap + rest)[1..] == gap[1..] + rest;
      SpaceRunOf(gap[1..], rest);
    }
  }

  lemma {:induction false} BracketRead(d: string, gap: string, body: string)
    requires AllDigits(d) && IsGap(gap) && IsText(body)
    ensures var s := "[" + d + "]" + (gap + body);
            && MarkerLength(s) == Some(|d| + 2 + |gap|) && s[|d| + 2 + |gap|..] == body
            && DigitRun(s[1..]) == |d| && s[|d| + 1] == ']' && s[0] == '[' && SpaceRun(s[|d| + 2..]) == |gap|
  {
    var s := "[" + d + "]" + (gap + body);
    assert s[1..] == d + ("]" + (gap + body));
    DigitRunOf(d, "]" + (gap + body));
    SpaceRunOf(gap, body);
    assert s[|d| + 2..] == gap + body && s[|d| + 1] == ']';
    hide IsSpace, SpaceRun, DigitRun;
  }

  lemma {:induction false} DotRead(d: string, c: char, gap: string, body: string)
    requires AllDigits(d) && (c == '.' || c == ')') && IsGap(gap) && IsText(body)
    ensures var s := d + [c] + (gap + body);
            && MarkerLength(s) == Some(|d| + 1 + |gap|) && s[|d| + 1 + |gap|..] == body
            && DigitRun(s) == |d| && s[|d|] == c && s[0] == d[0] && SpaceRun(s[|d| + 1..]) == |gap|
  {
    var s := d + [c] + (gap + body);
    assert s == d + ([c] + (gap + body));
    DigitRunOf(d, [c] + (gap + body));
    SpaceRunOf(gap, body);
    assert s[|d| + 1..] == gap + body;
    assert s[0] == d[0];
    hide IsSpace, SpaceRun, DigitRun;
  }

  /** A number in brackets, or one with a full stop or a parenthesis after it, is a marker if white space follows. */
  lemma {:induction false} MarkersAreRead(lead: string, d: string, gap: string, body: string)
    requires IsLead(lead, d) && AllDigits(d) && IsGap(gap) && IsText(body)
    ensures MarkerLength(lead + (gap + body)) == Some(|lead| + |gap|)
  {
    hide MarkerLength, AllDigits, IsGap, IsText, DigitRun, SpaceRun;
    if lead == "[" + d + "]" {
      BracketRead(d, gap, body);
    } else {
      var c := if lead == d + "." then '.' else ')';
      DotRead(d, c, gap, body);
      assert lead == d + [c];
    }
  }

  lemma {:induction false} DigitsRun(s: string)
    ensures forall k :: 0 <= k < DigitRun(s) ==> '0' <= s[k] <= '9'
    decreases |s|
  {
    if DigitRun(s) > 0 {
      DigitsRun(s[1..]);
      assert forall k :: 0 < k < |s| ==> s[k] == s[1..][k - 1];
    }
  }

  lemma {:induction false} SpacesRun(s: string)
    ensures forall k :: 0 <= k < SpaceRun(s) ==> IsSpace(s[k])
    ensures IsText(s[SpaceRun(s)..])
    decreases |s|
  {
    hide IsSpace;
    if SpaceRun(s) > 0 {
      SpacesRun(s[1..]);
      assert s[SpaceRun(s)..] == s[1..][SpaceRun(s[1..])..];
      assert forall k :: 0 < k < |s| ==> s[k] == s[1..][k - 1];
    }
  }

  lemma {:induction false} BracketForm(s: string, n: nat)
    requires s != "" && n == DigitRun(s[1..]) && n > 0 && n + 1 < |s| && s[0] == '[' && s[n + 1] == ']'
    ensures IsLead(s[..n + 2], s[1..n + 1]) && AllDigits(s[1..n + 1])
  {
    DigitsRun(s[1..]);
    assert s[1..n + 1] == s[1..][..n];
    assert s[..n + 2] == "[" + s[1..n + 1] + "]";
  }

  lemma {:induction false} DotForm(s: string, n: nat)
    requires n == DigitRun(s) && 0 < n < |s| && (s[n] == '.' || s[n] == ')')
    ensures IsLead(s[..n + 1], s[..n]) && AllDigits(s[..n])
  {
    DigitsRun(s);
    assert s[..n + 1] == s[..n] + [s[n]];
  }

  lemma {:induction false} RestForm(s: string, n: nat)
    requires n <= |s| && SpaceRun(s[n..]) > 0
    ensures var rest := s[n..];
            var gap, body := rest[..SpaceRun(rest)], rest[SpaceRun(rest)..];
            s == s[..n] + (gap + body) && IsGap(gap) && IsText(body)
  {
    SpacesRun(s[n..]);
    hide IsSpace, SpaceRun;
  }

  /** Nothing else is a marker. */
  lemma {:induction false} MarkersAreForms(s: string) returns (lead: string, d: string, gap: string, body: string)
    requires MarkerLength(s).Some?
    ensures s == lead + (gap + body) && IsLead(lead, d) && AllDigits(d) && IsGap(gap) && IsText(body)
  {
    hide SpaceRun, DigitRun, IsLead, AllDigits, IsGap, IsText;
    if s[0] == '[' {
      var n := DigitRun(s[1..]);
      BracketForm(s, n);
      lead, d := s[..n + 2], s[1..n + 1];
    } else {
      var n := DigitRun(s);
      DotForm(s, n);
      lead, d := s[..n + 1], s[..n];
    }
    var rest := s[|lead|..];
    RestForm(s, |lead|);
    gap, body := rest[..SpaceRun(rest)], rest[SpaceRun(rest)..];
  }

  predicate OneLine(s: string) {
    forall k :: 0 <= k < |s| ==> s[k] != '\n' && s[k] != '\r' && s[k] != '\U{2028}' && s[k] != '\U{2029}'
  }

  lemma {:induction false} BodyIsGroup(body: string)
    requires IsText(body)
    ensures BodyGroup(body) == if body != "" && OneLine(body) then Some(body) else None
  {
    hide IsSpace;
  }

  lemma {:induction false} AfterBlanks(blank: string, s: string)
    requires (forall k :: 0 <= k < |blank| ==> IsSpace(blank[k])) && IsText(s)
    ensures (blank + s)[SpaceRun(blank + s)..] == s
  {
    SpaceRunOf(blank, s);
  }

  lemma {:induction false} BracketBodyIs(line: string, s: string, n: nat, body: string)
    requires line[SpaceRun(line)..] == s && s != "" && s[0] == '[' && n == DigitRun(s[1..]) && n > 0
    requires n + 1 < |s| && s[n + 1] == ']' && SpaceRun(s[n + 2..]) > 0 && s[n + 2..][SpaceRun(s[n + 2..])..] == body
    ensures BracketBody(line) == (if n <= 4 then BodyGroup(body) else None) && DotBody(line) == None
  {
    hide SpaceRun, BodyGroup;
    assert DigitRun(s) == 0;
    assert s[n + 2 + SpaceRun(s[n + 2..])..] == body;
  }

  lemma {:induction false} DotBodyIs(line: string, s: string, n: nat, body: string)
    requires line[SpaceRun(line)..] == s && n == DigitRun(s) && 0 < n < |s| && (s[n] == '.' || s[n] == ')')
    requires SpaceRun(s[n + 1..]) > 0 && s[n + 1..][SpaceRun(s[n + 1..])..] == body
    ensures DotBody(line) == (if n <= 4 && !IsYearMarker(s) then BodyGroup(body) else None) && BracketBody(line) == None
  {
    hide SpaceRun, BodyGroup, IsYearMarker;
    assert s[0] != '[';
    assert s[n + 1 + SpaceRun(s[n + 1..])..] == body;
  }

  /** A line opened by a number in brackets counts by the text after it, if the number has at most four digits. */
  lemma {:induction false} BracketLines(blank: string, d: string, gap: string, body: string)
    requires (forall k :: 0 <= k < |blank| ==> IsSpace(blank[k])) && AllDigits(d) && IsGap(gap) && IsText(body)
    ensures var line := blank + ("[" + d + "]" + (gap + body));
            && BracketBody(line) == (if |d| <= 4 && body != "" && OneLine(body) then Some(body) else None)
            && DotBody(line) == None
  {
    var s := "[" + d + "]" + (gap + body);
    BracketRead(d, gap, body);
    BodyIsGroup(body);
    assert s[0] == '[' && !IsSpace('[');
    AfterBlanks(blank, s);
    assert s[|d| + 2..][|gap|..] == body;
    hide IsSpace, SpaceRun, BodyGroup, OneLine, BracketBody, DotBody, MarkerLength, DigitRun;
    BracketBodyIs(blank + s, s, |d|, body);
  }

  /** `2019.` and the like, which is a year. */
  predicate LooksLikeYear(d: string) {
    |d| == 4 && (d[..2] == "19" || d[..2] == "20")
  }

  lemma {:induction false} YearIsMarker(d: string, c: char, rest: string)
    requires AllDigits(d) && (c == '.' || c == ')')
    ensures IsYearMarker(d + [c] + rest) <==> LooksLikeYear(d)
  {
    var s := d + [c] + rest;
    if |d| < 4 {
      assert s[|d|] == c;
    } else {
      assert s[..2] == d[..2] && s[2] == d[2] && s[3] == d[3];
      assert |d| > 4 ==> s[4] == d[4];
      assert |d| == 4 ==> s[4] == c;
    }
  }

  /** One opened by a number with a full stop or a parenthesis does too, unless the number looks like a year. */
  lemma {:induction false} DotLines(blank: string, d: string, c: char, gap: string, body: string)
    requires (forall k :: 0 <= k < |blank| ==> IsSpace(blank[k])) && AllDigits(d) && IsGap(gap) && IsText(body)
    requires c == '.' || c == ')'
    ensures var line := blank + (d + [c] + (gap + body));
            && DotBody(line)
               == (if |d| <= 4 && !LooksLikeYear(d) && body != "" && OneLine(body) then Some(body) else None)
            && BracketBody(line) == None
  {
    var s := d + [c] + (gap + body);
    DotRead(d, c, gap, body);
    BodyIsGroup(body);
    YearIsMarker(d, c, gap + body);
    assert s[0] == d[0] && !IsSpace(d[0]);
    AfterBlanks(blank, s);
    assert s[|d| + 1..][|gap|..] == body;
    hide IsSpace, SpaceRun, BodyGroup, OneLine, IsYearMarker, LooksLikeYear, BracketBody, DotBody;
    hide MarkerLength, DigitRun;
    DotBodyIs(blank + s, s, |d|, body);
  }

  // ----- The lines that are counted -----

  ghost predicate IsContent(rules: Rules, lines: seq<string>, i: nat) {
    i < |lines| && lines[i] != "" && !rules.artifact(lines[i]) && !rules.uriTail(lines[i])
  }

  ghost predicate Ignored(rules: Rules, lines: seq<string>, i: nat) {
    i < |lines| && (lines[i] == "" || rules.artifact(lines[i]))
  }

  /** A line of a text whose next line that is not ignored is line `i`; it is content and signals a continuation. */
  ghost predicate Continued(rules: Rules, lines: seq<string>, p: nat, i: nat) {
    && p < i && IsContent(rules, lines, p) && rules.continues(lines, p)
    && forall q :: p < q < i ==> Ignored(rules, lines, q)
  }

  /** The text after the line's numeric marker has the substance of a reference. */
  ghost predicate Numbered(rules: Rules, line: string) {
    exists lead: string, d: string, gap: string, body: string ::
      line == lead + (gap + body) && IsLead(lead, d) && AllDigits(d) && IsGap(gap) && IsText(body)
      && rules.substantial(Trim(Trim(body)))
  }

  lemma {:induction false} NumberedIsLead(rules: Rules, line: string)
    ensures HasValidNumericMarkerLead(rules, line) <==> Numbered(rules, line)
  {
    hide IsSpace, Trim, MarkerLength, IsLead, AllDigits, IsGap, IsText;
    if HasValidNumericMarkerLead(rules, line) {
      var lead, d, gap, body := MarkersAreForms(line);
      MarkersAreRead(lead, d, gap, body);
      assert line[|lead| + |gap|..] == body;
    }
    if Numbered(rules, line) {
      var lead: string, d: string, gap: string, body: string :|
        line == lead + (gap + body) && IsLead(lead, d) && AllDigits(d) && IsGap(gap) && IsText(body)
        && rules.substantial(Trim(Trim(body)));
      MarkersAreRead(lead, d, gap, body);
      assert line[|lead| + |gap|..] == body;
    }
  }

  lemma {:induction false} PreviousIsNearest(rules: Rules, lines: seq<string>, i: nat)
    requires i <= |lines|
    ensures var p := PreviousLine(rules, lines, i);
            && (p.Some? ==> !Ignored(rules, lines, p.value)
                            && forall q :: p.value < q < i ==> Ignored(rules, lines, q))
            && (p.None? ==> forall q :: 0 <= q < i ==> Ignored(rules, lines, q))
    decreases i
  {
    if i > 0 {
      PreviousIsNearest(rules, lines, i - 1);
    }
  }

  lemma {:induction false} NoContentBefore(rules: Rules, lines: seq<string>, i: nat)
    requires i <= |lines|
    ensures CountRole(rules, lines, Content, i) == 0 <==> forall p :: 0 <= p < i ==> !IsContent(rules, lines, p)
    decreases i
  {
    if i > 0 {
      NoContentBefore(rules, lines, i - 1);
      assert RoleOf(rules, lines[i - 1]) == Content <==> IsContent(rules, lines, i - 1);
      hide RoleOf, IsContent;
    }
  }

  lemma {:induction false} ReachedUnlessContinued(rules: Rules, lines: seq<string>, i: nat)
    requires i < |lines|
    ensures OpenerReached(rules, lines, i) <==>
              rules.opener(lines, i) && !exists p :: Continued(rules, lines, p, i)
  {
    PreviousIsNearest(rules, lines, i);
    var previous := PreviousLine(rules, lines, i);
    hide PreviousLine;
    forall p: nat | Continued(rules, lines, p, i)
      ensures previous == Some(p)
    {
      assert !Ignored(rules, lines, p);
    }
    if previous.Some? {
      var p := previous.value;
      assert RoleOf(rules, lines[p]).Content? <==> IsContent(rules, lines, p);
      assert Continued(rules, lines, p, i) <==> IsContent(rules, lines, p) && rules.continues(lines, p);
    }
  }

  /**
   A content line starts a citation when it has a numeric marker, or is the first content line, or stands right behind
   an ignored line and opens a citation, or scores as an opener while the line before it signals no continuation.
   */
  lemma {:induction false} WhatStarts(rules: Rules, lines: seq<string>, i: nat)
    requires i < |lines|
    ensures IsStart(rules, lines, i) <==>
              && IsContent(rules, lines, i)
              && (|| Numbered(rules, lines[i])
                  || (forall p :: 0 <= p < i ==> !IsContent(rules, lines, p))
                  || (i > 0 && Ignored(rules, lines, i - 1) && rules.opens(lines[i]))
                  || (rules.opener(lines, i) && !exists p :: Continued(rules, lines, p, i)))
  {
    NumberedIsLead(rules, lines[i]);
    NoContentBefore(rules, lines, i);
    ReachedUnlessContinued(rules, lines, i);
    assert RoleOf(rules, lines[i]) == Content <==> IsContent(rules, lines, i);
    assert BoundaryBefore(rules, lines, i) <==> i > 0 && Ignored(rules, lines, i - 1);
    hide Numbered, HasValidNumericMarkerLead, OpenerReached, Continued, RoleOf, IsContent, Ignored, BoundaryBefore;
    hide CountRole;
  }

  ghost function Starts(rules: Rules, lines: seq<string>, n: nat): set<nat>
    requires n <= |lines|
  {
    set i: nat | i < n && IsStart(rules, lines, i)
  }

  lemma {:induction false} StartsSize(rules: Rules, lines: seq<string>, n: nat)
    requires n <= |lines|
    ensures CountStarts(rules, lines, n) == |Starts(rules, lines, n)|
    decreases n
  {
    hide IsStart;
    if n > 0 {
      StartsSize(rules, lines, n - 1);
      var before := Starts(rules, lines, n - 1);
      assert Starts(rules, lines, n) == if IsStart(rules, lines, n - 1) then before + {n - 1} else before;
    }
  }

  lemma {:induction false} UriLines(rules: Rules, lines: seq<string>, n: nat)
    requires n <= |lines|
    ensures CountRole(rules, lines, UriTail, n) > 0 <==>
              exists i :: 0 <= i < n && !Ignored(rules, lines, i) && rules.uriTail(lines[i])
    decreases n
  {
    if n > 0 {
      UriLines(rules, lines, n - 1);
    }
  }

  /** The structural count is the number of starts; text without content is one citation if some line is a URI tail. */
  lemma {:induction false} WhatIsCounted(rules: Rules, lines: seq<string>)
    ensures StructuralCount.StructuralCount(rules, lines) ==
            if exists i :: IsContent(rules, lines, i) then |Starts(rules, lines, |lines|)|
            else if exists i :: 0 <= i < |lines| && !Ignored(rules, lines, i) && rules.uriTail(lines[i]) then 1
            else 0
  {
    NoContentBefore(rules, lines, |lines|);
    StartsSize(rules, lines, |lines|);
    UriLines(rules, lines, |lines|);
    hide Starts, CountStarts, CountRole, Ignored;
  }

  // ----- Parts between boundaries -----

  /** The text before boundary `k`, after the one before it; behind the last boundary the text runs to the end. */
  function Part(raw: string, boundaries: seq<(nat, nat)>, k: nat): string
    requires k <= |boundaries|
  {
    var from := if k == 0 then 0 else boundaries[k - 1].0 + boundaries[k - 1].1;
    var to := if k == |boundaries| then |raw| else boundaries[k].0;
    if from <= to <= |raw| then raw[from..to] else ""
  }

  function Parts(raw: string, boundaries: seq<(nat, nat)>, k: nat): set<nat>
    requires k <= |boundaries|
  {
    set l: nat | k <= l <= |boundaries| && Trim(Part(raw, boundaries, l)) != ""
  }

  lemma {:induction false} MoreParts(raw: string, boundaries: seq<(nat, nat)>, k: nat)
    requires k < |boundaries|
    ensures var more := Parts(raw, boundaries, k + 1);
            && k !in more
            && Parts(raw, boundaries, k) == if Trim(Part(raw, boundaries, k)) != "" then more + {k} else more
  {
    hide Trim, Part;
  }

  lemma {:induction false} PartsSize(raw: string, boundaries: seq<(nat, nat)>, k: nat)
    requires k <= |boundaries|
    ensures var from := if k == 0 then 0 else boundaries[k - 1].0 + boundaries[k - 1].1;
            PartsFrom(raw, boundaries[k..], from) == |Parts(raw, boundaries, k)|
    decreases |boundaries| - k
  {
    hide Trim;
    if k == |boundaries| {
      assert Parts(raw, boundaries, k) == if Trim(Part(raw, boundaries, k)) != "" then {k} else {};
    } else {
      PartsSize(raw, boundaries, k + 1);
      MoreParts(raw, boundaries, k);
      assert boundaries[k..][1..] == boundaries[k + 1..];
      hide Parts;
    }
  }

  /** Recovery counts the parts that are not blank, and at least one. */
  lemma {:induction false} WhatRecoveryCounts(rules: Rules, raw: string)
    ensures var boundaries := rules.secondary(raw);
            RecoveryCount(rules, raw) ==
            if boundaries == [] || Parts(raw, boundaries, 0) == {} then 1 else |Parts(raw, boundaries, 0)|
  {
    var boundaries := rules.secondary(raw);
    PartsSize(raw, boundaries, 0);
    assert boundaries[0..] == boundaries;
    hide Trim, Parts, PartsFrom;
  }
}
