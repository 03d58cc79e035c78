/** The live reference counters of `frontend/shared/liveReferenceDetection.ts`. */
module StructuralCount {
  import opened Wrappers
  import opened Text
  import opened Numbers

  /**
   The regular expressions that only classify text, and the score.  Lines are given trimmed.
   `artifact`: headings, page numbers and running titles.  `substantial`: enough text for a reference body.
   `opens`: an author lead, or a dated sentence, that opens a citation after a boundary.
   `opener`: the score of the line reaches the threshold.  `continues`: the line signals that the next continues it.
   `explicit`: the count of explicit entries, where the text has any.  `secondary`: the secondary boundaries of a
   long text, as positions and lengths; a short text has none.
   */
  datatype Rules = Rules(
    artifact: string -> bool, uriTail: string -> bool, substantial: string -> bool, opens: string -> bool,
    opener: (seq<string>, nat) -> bool, continues: (seq<string>, nat) -> bool,
    explicit: string -> Option<nat>, secondary: string -> seq<(nat, nat)>)

  // ----- Markers -----

  predicate IsDigit(c: char) {
    '0' <= c <= '9'
  }

  function DigitRun(s: string): (n: nat)
    ensures n <= |s|
  {
    if s != "" && IsDigit(s[0]) then 1 + DigitRun(s[1..]) else 0
  }

  /** `/^(?:\[\d+\]|\d+[.)])\s+/`: the length of the marker with the space after it. */
  function MarkerLength(s: string): (n: Option<nat>)
    ensures n.Some? ==> n.value <= |s|
  {
    if s != "" && s[0] == '[' then
      var d := DigitRun(s[1..]);
      if d > 0 && d + 1 < |s| && s[d + 1] == ']' && SpaceRun(s[d + 2..]) > 0 then
        Some(d + 2 + SpaceRun(s[d + 2..]))
      else None
    else
      var d := DigitRun(s);
      if d > 0 && d < |s| && (s[d] == '.' || s[d] == ')') && SpaceRun(s[d + 1..]) > 0 then
        Some(d + 1 + SpaceRun(s[d + 1..]))
      else None
  }

  predicate HasSubstantialBody(rules: Rules, remainder: string) {
    rules.substantial(Trim(remainder))
  }

  predicate HasValidNumericMarkerLead(rules: Rules, value: string) {
    var n := MarkerLength(value);
    n.Some? && HasSubstantialBody(rules, Trim(value[n.value..]))
  }

  /** What `.` does not match. */
  predicate IsLineTerminator(c: char) {
    c == '\n' || c == '\r' || c == '\U{2028}' || c == '\U{2029}'
  }

  /** `(\S.*)?$` after the spaces: the text, when there is any and it runs to the end. */
  function BodyGroup(s: string): Option<string> {
    if s == "" || IsSpace(s[0]) || exists k :: 0 <= k < |s| && IsLineTerminator(s[k]) then None else Some(s)
  }

  /** `/^\s*\[(\d{1,4})\]\s+(\S.*)?$/u`: its second group. */
  function BracketBody(line: string): Option<string> {
    var s := line[SpaceRun(line)..];
    if s == "" || s[0] != '[' then None
    else
      var d := DigitRun(s[1..]);
      if 1 <= d <= 4 && d + 1 < |s| && s[d + 1] == ']' && SpaceRun(s[d + 2..]) > 0
      then BodyGroup(s[d + 2 + SpaceRun(s[d + 2..])..])
      else None
  }

  /** `(?:19|20)\d{2}[.)]`. */
  predicate IsYearMarker(s: string) {
    |s| >= 5 && (s[..2] == "19" || s[..2] == "20") && IsDigit(s[2]) && IsDigit(s[3]) && (s[4] == '.' || s[4] == ')')
  }

  /** `/^\s*(?!(?:19|20)\d{2}[.)])(\d{1,4})[.)]\s+(\S.*)?$/u`: its second group. */
  function DotBody(line: string): Option<string> {
    var s := line[SpaceRun(line)..];
    if IsYearMarker(s) then None
    else
      var d := DigitRun(s);
      if 1 <= d <= 4 && d < |s| && (s[d] == '.' || s[d] == ')') && SpaceRun(s[d + 1..]) > 0
      then BodyGroup(s[d + 1 + SpaceRun(s[d + 1..])..])
      else None
  }

  predicate IsMarkerLine(rules: Rules, line: string) {
    || (BracketBody(line).Some? && HasSubstantialBody(rules, BracketBody(line).value))
    || (DotBody(line).Some? && HasSubstantialBody(rules, DotBody(line).value))
  }

  // ----- Lines -----

  datatype Role = Artifact | UriTail | Content

  /** The lines of a text, trimmed. */
  function TrimmedLines(text: string): (lines: seq<string>)
    ensures |lines| > 0
  {
    var raw := SplitLines(text);
    seq(|raw|, i requires 0 <= i < |raw| => Trim(DropCR(raw[i])))
  }

  predicate IsArtifact(rules: Rules, line: string) {
    line == "" || rules.artifact(line)
  }

  function RoleOf(rules: Rules, line: string): Role {
    if IsArtifact(rules, line) then Artifact else if rules.uriTail(line) then UriTail else Content
  }

  predicate BoundaryBefore(rules: Rules, lines: seq<string>, i: nat)
    requires i < |lines|
  {
    i > 0 && IsArtifact(rules, lines[i - 1])
  }

  /** The nearest line before `i` that is not an artifact. */
  function PreviousLine(rules: Rules, lines: seq<string>, i: nat): (r: Option<nat>)
    requires i <= |lines|
    ensures r.Some? ==> r.value < i
  {
    if i == 0 then None
    else if RoleOf(rules, lines[i - 1]).Artifact? then PreviousLine(rules, lines, i - 1)
    else Some(i - 1)
  }

  /** The opener score counts, unless the previous line is content that signals a continuation. */
  predicate OpenerReached(rules: Rules, lines: seq<string>, i: nat)
    requires i < |lines|
  {
    var previous := PreviousLine(rules, lines, i);
    rules.opener(lines, i)
    && !(previous.Some? && RoleOf(rules, lines[previous.value]).Content? && rules.continues(lines, previous.value))
  }

  predicate StartsNewCitation(rules: Rules, lines: seq<string>, i: nat, hasCurrentCandidate: bool)
    requires i < |lines|
  {
    RoleOf(rules, lines[i]).Content? &&
    ( || HasValidNumericMarkerLead(rules, lines[i])
      || !hasCurrentCandidate
      || (BoundaryBefore(rules, lines, i) && rules.opens(lines[i]))
      || OpenerReached(rules, lines, i))
  }

  // ----- What is counted -----

  function CountRole(rules: Rules, lines: seq<string>, role: Role, n: nat): nat
    requires n <= |lines|
  {
    if n == 0 then 0 else CountRole(rules, lines, role, n - 1) + if RoleOf(rules, lines[n - 1]) == role then 1 else 0
  }

  /** A content line starts a citation by itself, or because no content line comes before it. */
  predicate IsStart(rules: Rules, lines: seq<string>, i: nat)
    requires i < |lines|
  {
    StartsNewCitation(rules, lines, i, CountRole(rules, lines, Content, i) > 0)
  }

  function CountStarts(rules: Rules, lines: seq<string>, n: nat): nat
    requires n <= |lines|
  {
    if n == 0 then 0 else CountStarts(rules, lines, n - 1) + if IsStart(rules, lines, n - 1) then 1 else 0
  }

  /** Before recovery: the starting content lines; or one, if there is no content but a URI; or none. */
  function StructuralCount(rules: Rules, lines: seq<string>): nat {
    var n := |lines|;
    if CountRole(rules, lines, Content, n) > 0 then CountStarts(rules, lines, n)
    else if CountRole(rules, lines, UriTail, n) > 0 then 1
    else 0
  }

  function CountMarkers(rules: Rules, lines: seq<string>, n: nat): nat
    requires n <= |lines|
  {
    if n == 0 then 0
    else
      CountMarkers(rules, lines, n - 1)
      + if RoleOf(rules, lines[n - 1]).Content? && IsMarkerLine(rules, lines[n - 1]) then 1 else 0
  }

  // ----- Recovery -----

  function Slice(s: string, from: nat, to: nat): string {
    if from <= to <= |s| then s[from..to] else ""
  }

  /** The non-empty parts between the boundaries. */
  function PartsFrom(raw: string, boundaries: seq<(nat, nat)>, from: nat): nat {
    if boundaries == [] then (if Trim(Slice(raw, from, |raw|)) != "" then 1 else 0)
    else
      (if Trim(Slice(raw, from, boundaries[0].0)) != "" then 1 else 0)
      + PartsFrom(raw, boundaries[1..], boundaries[0].0 + boundaries[0].1)
  }

  function RecoveryCount(rules: Rules, raw: string): nat {
    var boundaries := rules.secondary(raw);
    if boundaries == [] then 1
    else if PartsFrom(raw, boundaries, 0) > 0 then PartsFrom(raw, boundaries, 0)
    else 1
  }

  // ----- The counters, as loops -----

  method CountStructuralCandidates(rules: Rules, rawItem: string) returns (count: nat)
    ensures var before := StructuralCount(rules, TrimmedLines(rawItem));
            count == if before > 1 then before else Max(before, RecoveryCount(rules, rawItem))
  {
    hide StartsNewCitation, RoleOf, TrimmedLines, RecoveryCount;
    var lines := TrimmedLines(rawItem);
    count := 0;
    var hasCurrentCandidate, pendingUriTailCount := false, 0;
    for i := 0 to |lines|
      invariant hasCurrentCandidate <==> CountRole(rules, lines, Content, i) > 0
      invariant CountStarts(rules, lines, i) == count + if hasCurrentCandidate then 1 else 0
      invariant hasCurrentCandidate ==> pendingUriTailCount == 0
      invariant !hasCurrentCandidate ==> pendingUriTailCount == CountRole(rules, lines, UriTail, i)
    {
      var role := RoleOf(rules, lines[i]);
      if role.Artifact? {
        NoStart(rules, lines, i);
        continue;
      }
      if role.UriTail? {
        NoStart(rules, lines, i);
        if hasCurrentCandidate {
          pendingUriTailCount := 0;
        } else {
          pendingUriTailCount := pendingUriTailCount + 1;
        }
        continue;
      }
      FirstStarts(rules, lines, i);
      if StartsNewCitation(rules, lines, i, hasCurrentCandidate) {
        if hasCurrentCandidate {
          count := count + 1;
        }
        hasCurrentCandidate := true;
        pendingUriTailCount := 0;
        continue;
      }
      if !hasCurrentCandidate {
        hasCurrentCandidate := true;
        pendingUriTailCount := 0;
      }
    }
    StartsAreContent(rules, lines, |lines|);
    if hasCurrentCandidate {
      count := count + 1;
    }
    if pendingUriTailCount > 0 {
      count := count + 1;
    }
    if count <= 1 {
      count := Max(count, RecoveryCount(rules, rawItem));
    }
  }

  method CountLineBasedReferenceMarkers(rules: Rules, text: string) returns (count: nat)
    ensures count == CountMarkers(rules, TrimmedLines(text), |TrimmedLines(text)|)
  {
    hide TrimmedLines, BracketBody, DotBody, HasSubstantialBody;
    var lines := TrimmedLines(text);
    count := 0;
    for i := 0 to |lines|
      invariant count == CountMarkers(rules, lines, i)
    {
      var t := lines[i];
      if t == "" || IsArtifact(rules, t) || rules.uriTail(t) {
        continue;
      }
      var bracket := BracketBody(t);
      if bracket.Some? && HasSubstantialBody(rules, bracket.value) {
        count := count + 1;
        continue;
      }
      var dot := DotBody(t);
      if dot.Some? && HasSubstantialBody(rules, dot.value) {
        count := count + 1;
      }
    }
  }

  lemma {:induction false} NoStart(rules: Rules, lines: seq<string>, i: nat)
    requires i < |lines| && !RoleOf(rules, lines[i]).Content?
    ensures !IsStart(rules, lines, i)
  {
  }

  /** The first content line always starts a citation, so the last branch of the scan is never taken. */
  lemma {:induction false} FirstStarts(rules: Rules, lines: seq<string>, i: nat)
    requires i < |lines| && RoleOf(rules, lines[i]).Content?
    ensures StartsNewCitation(rules, lines, i, false)
  {
  }

  // ----- The marker count is redundant -----

  /** Every counted marker line has a valid numeric lead: both patterns cut off the same marker. */
  lemma {:induction false} MarkerHasLead(rules: Rules, line: string)
    requires Trimmed(line) && IsMarkerLine(rules, line)
    ensures HasValidNumericMarkerLead(rules, line)
  {
    assert SpaceRun(line) == 0 && line[0..] == line;
    hide Trim, Trimmed, SpaceRun, DigitRun;
    if BracketBody(line).Some? && HasSubstantialBody(rules, BracketBody(line).value) {
      BodyIsRemainder(rules, line, BracketBody(line).value);
    } else {
      BodyIsRemainder(rules, line, DotBody(line).value);
    }
  }

  lemma {:induction false} BodyIsRemainder(rules: Rules, line: string, body: string)
    requires MarkerLength(line).Some? && line[MarkerLength(line).value..] == body && HasSubstantialBody(rules, body)
    ensures HasValidNumericMarkerLead(rules, line)
  {
    TrimTrims(body);
    TrimTrims(Trim(body));
    hide Trim, Trimmed;
  }

  lemma {:induction false} MarkerIsStart(rules: Rules, lines: seq<string>, i: nat)
    requires i < |lines| && Trimmed(lines[i]) && RoleOf(rules, lines[i]).Content? && IsMarkerLine(rules, lines[i])
    ensures IsStart(rules, lines, i)
  {
    MarkerHasLead(rules, lines[i]);
    hide HasValidNumericMarkerLead, IsMarkerLine, RoleOf, Trimmed, CountRole, BoundaryBefore, OpenerReached;
  }

  predicate AllTrimmed(lines: seq<string>) {
    forall i :: 0 <= i < |lines| ==> Trimmed(lines[i])
  }

  /** The `n`-th line counted as a marker counts as a start. */
  lemma {:induction false} OneMoreMarker(rules: Rules, lines: seq<string>, n: nat)
    requires 0 < n <= |lines| && AllTrimmed(lines)
    ensures CountMarkers(rules, lines, n) - CountMarkers(rules, lines, n - 1)
         <= CountStarts(rules, lines, n) - CountStarts(rules, lines, n - 1)
  {
    assert Trimmed(lines[n - 1]);
    hide IsStart, IsMarkerLine, RoleOf, Trimmed, AllTrimmed;
    if RoleOf(rules, lines[n - 1]).Content? && IsMarkerLine(rules, lines[n - 1]) {
      MarkerIsStart(rules, lines, n - 1);
    }
  }

  lemma {:induction false} MarkersStart(rules: Rules, lines: seq<string>, n: nat)
    requires n <= |lines| && AllTrimmed(lines)
    ensures CountMarkers(rules, lines, n) <= CountStarts(rules, lines, n)
  {
    hide AllTrimmed, IsStart, IsMarkerLine, RoleOf;
    if n > 0 {
      hide *;
      MarkersStart(rules, lines, n - 1);
      OneMoreMarker(rules, lines, n);
    }
  }

  lemma {:induction false} StartsAreContent(rules: Rules, lines: seq<string>, n: nat)
    requires n <= |lines|
    ensures CountStarts(rules, lines, n) <= CountRole(rules, lines, Content, n)
    ensures CountRole(rules, lines, Content, n) > 0 ==> CountStarts(rules, lines, n) > 0
  {
    if n > 0 {
      StartsAreContent(rules, lines, n - 1);
      hide HasValidNumericMarkerLead, RoleOf, OpenerReached, BoundaryBefore;
    }
  }

  lemma {:induction false} LinesAreTrimmed(text: string)
    ensures AllTrimmed(TrimmedLines(text))
  {
    hide SplitLines, Trim, Trimmed;
    forall i | 0 <= i < |TrimmedLines(text)|
      ensures Trimmed(TrimmedLines(text)[i])
    {
      TrimTrims(DropCR(SplitLines(text)[i]));
    }
  }

  /** The marker count never exceeds the structural count, which is never zero after recovery. */
  lemma {:induction false} MarkersAreRedundant(rules: Rules, text: string)
    ensures var lines := TrimmedLines(text);
            var before := StructuralCount(rules, lines);
            && CountMarkers(rules, lines, |lines|) <= before
            && RecoveryCount(rules, text) >= 1
  {
    var lines := TrimmedLines(text);
    LinesAreTrimmed(text);
    MarkersStart(rules, lines, |lines|);
    StartsAreContent(rules, lines, |lines|);
    hide CountStarts, CountMarkers, CountRole, TrimmedLines, PartsFrom;
  }

  /** Without explicit entries the three-way maximum is always the structural count. */
  method CountEngineLikeInputReferences(rules: Rules, text: string) returns (count: nat)
    ensures Trim(text) == "" ==> count == 0
    ensures Trim(text) != "" && rules.explicit(Trim(text)).Some? && rules.explicit(Trim(text)).value > 0 ==>
              count == rules.explicit(Trim(text)).value
    ensures Trim(text) != "" && !(rules.explicit(Trim(text)).Some? && rules.explicit(Trim(text)).value > 0) ==>
              var before := StructuralCount(rules, TrimmedLines(Trim(text)));
              count == if before > 1 then before else Max(before, RecoveryCount(rules, Trim(text)))
  {
    hide Trim, TrimmedLines, StructuralCount, RecoveryCount, CountMarkers;
    var trimmed := Trim(text);
    if trimmed == "" {
      return 0;
    }
    var explicitCount := rules.explicit(trimmed);
    if explicitCount.Some? && explicitCount.value > 0 {
      return explicitCount.value;
    }
    MarkersAreRedundant(rules, trimmed);
    var structural := CountStructuralCandidates(rules, trimmed);
    var lineMarkers := CountLineBasedReferenceMarkers(rules, trimmed);
    count := Max(Max(structural, lineMarkers), 1);
  }
}
