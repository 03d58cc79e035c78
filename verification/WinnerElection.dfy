/** How `clusterCitations` elects the best member: a cascade of filters, then a walk with a bias for APA input. */
module WinnerElection {
  import opened Wrappers
  import opened References

  /** The rounded quality score, the near-equivalence test, and the citation similarity. */
  datatype Judges = Judges(
    quality: (Reference, seq<Reference>) -> int,
    nearEquivalent: (Reference, Reference) -> bool,
    similarity: (Reference, Reference) -> int)

  predicate Validated(r: Reference) {
    r.hasAuthorityData && (r.authorityStatus == "fetched" || r.authorityStatus == "cache_hit") && !r.isSuspicious
  }

  predicate StyleDetected(r: Reference) { !r.styleDetectionFailed }

  predicate HasYear(r: Reference) { r.year != "" }

  predicate FullAuthors(r: Reference) { !r.hasEtAl }

  predicate ConferenceTyped(r: Reference) { r.referenceType == "conference" || r.conferenceTitle != "" }

  predicate IsApa(r: Reference) { r.inputStyle == "apa" }

  // ----- The cascade -----

  function Filter(s: seq<Reference>, p: Reference -> bool): seq<Reference> {
    if s == [] then [] else (if p(s[0]) then [s[0]] else []) + Filter(s[1..], p)
  }

  /** Keep those with the property, unless that keeps none, or all. */
  function Prefer(s: seq<Reference>, p: Reference -> bool): seq<Reference> {
    var kept := Filter(s, p);
    if |kept| > 0 && |kept| != |s| then kept else s
  }

  function Cascade(members: seq<Reference>): seq<Reference> {
    var authoritative := Filter(members, Validated);
    var c1 := if |authoritative| > 0 then authoritative else members;
    Prefer(Prefer(Prefer(Prefer(c1, StyleDetected), HasYear), FullAuthors), ConferenceTyped)
  }

  function Bit(b: bool): nat { if b then 1 else 0 }

  /**
   The five properties in order of precedence, read as a binary number:
   comparing these is comparing lexicographically.
   */
  function Rank(r: Reference): int {
    16 * Bit(Validated(r)) + 8 * Bit(StyleDetected(r)) + 4 * Bit(HasYear(r)) + 2 * Bit(FullAuthors(r))
      + Bit(ConferenceTyped(r))
  }

  /** The number read from the first `n` properties alone. */
  function Rank1(r: Reference): int { Bit(Validated(r)) }
  function Rank2(r: Reference): int { 2 * Rank1(r) + Bit(StyleDetected(r)) }
  function Rank3(r: Reference): int { 2 * Rank2(r) + Bit(HasYear(r)) }
  function Rank4(r: Reference): int { 2 * Rank3(r) + Bit(FullAuthors(r)) }

  ghost predicate Maximal(members: seq<Reference>, rank: Reference -> int, r: Reference) {
    forall d :: d in members ==> rank(d) <= rank(r)
  }

  ghost function Top(members: seq<Reference>, rank: Reference -> int): seq<Reference> {
    Filter(members, r => Maximal(members, rank, r))
  }

  lemma {:induction false} FilterMembers(s: seq<Reference>, p: Reference -> bool)
    ensures forall r :: r in Filter(s, p) <==> r in s && p(r)
    ensures |Filter(s, p)| <= |s|
    ensures |Filter(s, p)| == |s| ==> Filter(s, p) == s
  {
    if s != [] {
      FilterMembers(s[1..], p);
      assert s == [s[0]] + s[1..];
    }
  }

  lemma {:induction false} FilterFilter(s: seq<Reference>, p: Reference -> bool, q: Reference -> bool,
                                        both: Reference -> bool)
    requires forall r :: r in s ==> (both(r) <==> p(r) && q(r))
    ensures Filter(Filter(s, p), q) == Filter(s, both)
  {
    if s != [] {
      FilterFilter(s[1..], p, q, both);
      var rest := Filter(s[1..], p);
      if p(s[0]) {
        assert ([s[0]] + rest)[1..] == rest;
      } else {
        assert [] + rest == rest;
      }
      assert s[0] in s;
    }
  }

  lemma {:induction false} FilterSame(s: seq<Reference>, p: Reference -> bool, q: Reference -> bool)
    requires forall r :: r in s ==> (p(r) <==> q(r))
    ensures Filter(s, p) == Filter(s, q)
  {
    if s != [] {
      FilterSame(s[1..], p, q);
      assert s[0] in s;
    }
  }

  /** One step: from the members maximal in `rank` to those maximal in `rank` followed by one more property. */
  lemma {:induction false} PreferRefines(members: seq<Reference>, rank: Reference -> int, p: Reference -> bool,
                                         rank': Reference -> int)
    requires members != [] && forall r :: rank'(r) == 2 * rank(r) + Bit(p(r))
    ensures Prefer(Top(members, rank), p) == Top(members, rank')
  {
    var best := r => Maximal(members, rank, r);
    var s := Filter(members, best);
    FilterMembers(members, best);
    FilterMembers(s, p);
    if Filter(s, p) != [] {
      assert Filter(s, p)[0] in Filter(s, p);
      var d := Filter(s, p)[0];
      forall r | r in members
        ensures Maximal(members, rank', r) <==> best(r) && p(r)
      {
        RefinedTop(members, rank, p, rank', d, r);
      }
      FilterFilter(members, best, p, r => Maximal(members, rank', r));
    } else {
      forall r | r in members
        ensures best(r) <==> Maximal(members, rank', r)
      {
        RefinedRest(members, rank, p, rank', r);
      }
      FilterSame(members, best, r => Maximal(members, rank', r));
    }
  }

  /** Some top member has the property: then exactly the top members with it are on top. */
  lemma {:induction false} RefinedTop(members: seq<Reference>, rank: Reference -> int, p: Reference -> bool,
                                      rank': Reference -> int,
                                      d: Reference, r: Reference)
    requires forall x :: rank'(x) == 2 * rank(x) + Bit(p(x))
    requires r in members && d in members && Maximal(members, rank, d) && p(d)
    ensures Maximal(members, rank', r) <==> Maximal(members, rank, r) && p(r)
  {
    if Maximal(members, rank', r) {
      assert rank'(d) <= rank'(r) && rank(r) <= rank(d);
      forall x | x in members
        ensures rank(x) <= rank(r)
      {
        assert rank(x) <= rank(d);
      }
    }
  }

  lemma {:induction false} RefinedRest(members: seq<Reference>, rank: Reference -> int, p: Reference -> bool,
                                       rank': Reference -> int,
                                       r: Reference)
    requires forall x :: rank'(x) == 2 * rank(x) + Bit(p(x))
    requires forall x :: x in members && Maximal(members, rank, x) ==> !p(x)
    requires r in members
    ensures Maximal(members, rank, r) <==> Maximal(members, rank', r)
  {
    if Maximal(members, rank, r) {
      forall x | x in members
        ensures rank'(x) <= rank'(r)
      {
        if rank(x) == rank(r) {
          assert Maximal(members, rank, x);
        }
      }
    } else {
      var x :| x in members && rank(x) > rank(r);
      assert rank'(x) > rank'(r) || (rank(x) == rank(r));
    }
  }

  /** The cascade leaves, in order, exactly the members whose five properties are lexicographically maximal. */
  lemma {:induction false} CascadeIsLexicographic(members: seq<Reference>)
    requires members != []
    ensures Cascade(members) == Top(members, Rank)
    ensures Cascade(members) != []
  {
    FirstFilter(members);
    PreferRefines(members, Rank1, StyleDetected, Rank2);
    PreferRefines(members, Rank2, HasYear, Rank3);
    PreferRefines(members, Rank3, FullAuthors, Rank4);
    PreferRefines(members, Rank4, ConferenceTyped, Rank);
    TopExists(members, Rank);
    FilterMembers(members, r => Maximal(members, Rank, r));
    hide Prefer, Filter, Validated, StyleDetected, HasYear, FullAuthors, ConferenceTyped, Rank, Maximal;
  }

  lemma {:induction false} FirstFilter(members: seq<Reference>)
    requires members != []
    ensures var authoritative := Filter(members, Validated);
            (if |authoritative| > 0 then authoritative else members) == Top(members, Rank1)
  {
    var best := r => Maximal(members, Rank1, r);
    FilterMembers(members, Validated);
    FilterMembers(members, best);
    var authoritative := Filter(members, Validated);
    if authoritative != [] {
      assert authoritative[0] in authoritative;
      FilterSame(members, Validated, best);
    } else {
      FilterSame(members, best, r => true);
      FilterAll(members);
    }
  }

  lemma {:induction false} FilterAll(s: seq<Reference>)
    ensures Filter(s, r => true) == s
  {
    if s != [] {
      FilterAll(s[1..]);
      assert s == [s[0]] + s[1..];
    }
  }

  lemma {:induction false} TopExists(members: seq<Reference>, rank: Reference -> int)
    requires members != []
    ensures exists r :: r in members && Maximal(members, rank, r)
  {
    if |members| == 1 {
      assert members[0] in members && Maximal(members, rank, members[0]);
    } else {
      var rest := members[1..];
      TopExists(rest, rank);
      var r :| r in rest && Maximal(rest, rank, r);
      var top := if rank(members[0]) > rank(r) then members[0] else r;
      assert top in members;
      forall d | d in members
        ensures rank(d) <= rank(top)
      {
        assert d == members[0] || d in rest;
      }
    }
  }

  // ----- The walk -----

  /** The member elected so far, its score, and whether the preference for APA input has been applied. */
  datatype Best = Best(member: Reference, quality: int, usedApa: bool)

  /** The score is looked up by id among the cluster's diagnostics. */
  function Score(j: Judges, members: seq<Reference>, c: Reference): int {
    match MetaOf(members, c.id)
    case Some(m) => j.quality(m, members)
    case None => j.quality(c, members)
  }

  function Step(j: Judges, members: seq<Reference>, best: Best, c: Reference): Best {
    var quality := Score(j, members, c);
    var apaInstead := IsApa(c) && !IsApa(best.member) && j.nearEquivalent(c, best.member);
    if quality > best.quality then Best(c, quality, best.usedApa)
    else if quality == best.quality then
      if c.confidence > best.member.confidence then best.(member := c)
      else if c.confidence == best.member.confidence then
        if c.filledFields > best.member.filledFields then best.(member := c)
        else if c.filledFields == best.member.filledFields && apaInstead then Best(c, best.quality, true)
        else best
      else best
    else if quality >= best.quality - 2 && apaInstead then Best(c, quality, true)
    else best
  }

  /** The walk over the first `n` candidates. */
  function Walk(j: Judges, members: seq<Reference>, cands: seq<Reference>, n: nat): Best
    requires 0 < n <= |cands|
  {
    if n == 1 then Best(cands[0], Score(j, members, cands[0]), false)
    else Step(j, members, Walk(j, members, cands, n - 1), cands[n - 1])
  }

  /** The final bias: the first APA candidate that is not materially worse and is similar enough. */
  function FirstSimilarApa(j: Judges, members: seq<Reference>, apas: seq<Reference>, best: Best): (r: Option<Reference>)
    ensures r.Some? ==> r.value in apas && Score(j, members, r.value) + 2 >= best.quality
  {
    if apas == [] then None
    else if apas[0].id != best.member.id && Score(j, members, apas[0]) + 2 >= best.quality
            && j.similarity(apas[0], best.member) >= 90 then Some(apas[0])
    else FirstSimilarApa(j, members, apas[1..], best)
  }

  function Elect(j: Judges, members: seq<Reference>, cands: seq<Reference>): Best
    requires cands != []
  {
    var best := Walk(j, members, cands, |cands|);
    if best.usedApa then best
    else
      match FirstSimilarApa(j, members, Filter(cands, IsApa), best)
      case Some(apa) => Best(apa, Score(j, members, apa), true)
      case None => best
  }

  // ----- What the election decides, in terms of the references -----

  /** The five properties, the most important first. */
  ghost function Flags(r: Reference): seq<bool> {
    [r.hasAuthorityData && (r.authorityStatus == "fetched" || r.authorityStatus == "cache_hit") && !r.isSuspicious,
      !r.styleDetectionFailed, r.year != "", !r.hasEtAl, r.referenceType == "conference" || r.conferenceTitle != ""]
  }

  ghost predicate AtLeast(a: seq<bool>, b: seq<bool>)
    requires |a| == |b|
  {
    a == [] || (a[0] && !b[0]) || (a[0] == b[0] && AtLeast(a[1..], b[1..]))
  }

  lemma {:induction false} RankComparesFlags(a: Reference, b: Reference)
    ensures AtLeast(Flags(a), Flags(b)) <==> Rank(b) <= Rank(a)
  {
    var x, y := Flags(a), Flags(b);
    assert Rank(a) == Number(x) && Rank(b) == Number(y);
    hide Rank, Flags;
    FlagsCompare(x, y);
  }

  ghost function Number(x: seq<bool>): int
    requires |x| == 5
  {
    16 * Bit(x[0]) + 8 * Bit(x[1]) + 4 * Bit(x[2]) + 2 * Bit(x[3]) + Bit(x[4])
  }

  lemma {:induction false} FlagsCompare(x: seq<bool>, y: seq<bool>)
    requires |x| == |y| == 5
    ensures AtLeast(x, y) <==> Number(y) <= Number(x)
  {
    hide AtLeast;
    AtLeastEnd(x, y);
    AtLeastFrom(x, y, 4);
    AtLeastFrom(x, y, 3);
    AtLeastFrom(x, y, 2);
    AtLeastFrom(x, y, 1);
    AtLeastFrom(x, y, 0);
    assert x[0..] == x && y[0..] == y;
  }

  lemma {:induction false} AtLeastFrom(a: seq<bool>, b: seq<bool>, i: nat)
    requires i < |a| == |b|
    ensures AtLeast(a[i..], b[i..]) <==> (a[i] && !b[i]) || (a[i] == b[i] && AtLeast(a[i + 1..], b[i + 1..]))
  {
    assert a[i..][1..] == a[i + 1..] && b[i..][1..] == b[i + 1..];
  }

  lemma {:induction false} AtLeastEnd(a: seq<bool>, b: seq<bool>)
    requires |a| == |b| == 5
    ensures AtLeast(a[5..], b[5..])
  {
    assert a[5..] == [];
  }

  /** Exactly the members whose properties are lexicographically greatest survive. */
  lemma {:induction false} SurvivorsHaveTheFlags(members: seq<Reference>, r: Reference)
    requires members != []
    ensures r in Cascade(members) <==> r in members && forall m :: m in members ==> AtLeast(Flags(r), Flags(m))
  {
    CascadeIsLexicographic(members);
    FilterMembers(members, x => Maximal(members, Rank, x));
    hide Cascade, Flags, AtLeast, Rank, Filter;
    forall m | m in members
      ensures AtLeast(Flags(r), Flags(m)) <==> Rank(m) <= Rank(r)
    {
      RankComparesFlags(r, m);
    }
  }

  /** A candidate that is better than the best so far, by score, then confidence, then filled fields. */
  ghost predicate Beats(j: Judges, members: seq<Reference>, best: Best, c: Reference) {
    var score := Score(j, members, c);
    || score > best.quality
    || (score == best.quality && c.confidence > best.member.confidence)
    || (score == best.quality && c.confidence == best.member.confidence && c.filledFields > best.member.filledFields)
  }

  /** An APA variant of a best so far of another style: it ties in all three, or scores one or two points less. */
  ghost predicate Supersedes(j: Judges, members: seq<Reference>, best: Best, c: Reference) {
    var score := Score(j, members, c);
    && c.inputStyle == "apa" && best.member.inputStyle != "apa" && j.nearEquivalent(c, best.member)
    && (|| (score == best.quality && c.confidence == best.member.confidence
            && c.filledFields == best.member.filledFields)
        || score == best.quality - 1 || score == best.quality - 2)
  }

  /** The walk starts with the first candidate, and each later one takes its place if it beats or supersedes it. */
  lemma {:induction false} WalkIs(j: Judges, members: seq<Reference>, cands: seq<Reference>, n: nat)
    requires n < |cands|
    ensures n == 0 ==> Walk(j, members, cands, 1) == Best(cands[0], Score(j, members, cands[0]), false)
    ensures n > 0 ==>
              var best, c := Walk(j, members, cands, n), cands[n];
              Walk(j, members, cands, n + 1) ==
              if Beats(j, members, best, c) then Best(c, Score(j, members, c), best.usedApa)
              else if Supersedes(j, members, best, c) then Best(c, Score(j, members, c), true)
              else best
  {
    hide Score;
  }

  /** An APA variant that the final preference takes: not materially worse, and similar enough. */
  ghost predicate Preferred(j: Judges, members: seq<Reference>, best: Best, c: Reference) {
    && c.inputStyle == "apa" && c.id != best.member.id && Score(j, members, c) + 2 >= best.quality
    && j.similarity(c, best.member) >= 90
  }

  /** The best of the walk; or, where it did not use the preference, the first candidate the final one takes, if any. */
  ghost predicate IsElected(j: Judges, members: seq<Reference>, cands: seq<Reference>, winner: Reference)
    requires cands != []
  {
    var best := Walk(j, members, cands, |cands|);
    if !best.usedApa && exists k :: 0 <= k < |cands| && Preferred(j, members, best, cands[k]) then
      exists k :: 0 <= k < |cands| && winner == cands[k] && Preferred(j, members, best, cands[k])
                  && forall l :: 0 <= l < k ==> !Preferred(j, members, best, cands[l])
    else winner == best.member
  }

  /** The first candidate of APA style that passes is the first that is preferred. */
  lemma {:induction false} FirstSimilarIsPreferred(j: Judges, members: seq<Reference>, cands: seq<Reference>,
                                                   best: Best)
    ensures var found := FirstSimilarApa(j, members, Filter(cands, IsApa), best);
            if found.None? then forall k :: 0 <= k < |cands| ==> !Preferred(j, members, best, cands[k])
            else exists k :: 0 <= k < |cands| && found.value == cands[k] && Preferred(j, members, best, cands[k])
                             && forall l :: 0 <= l < k ==> !Preferred(j, members, best, cands[l])
    decreases |cands|
  {
    hide Score;
    if cands != [] {
      var rest := cands[1..];
      FirstSimilarIsPreferred(j, members, rest, best);
      FilterFirst(cands);
      var found := FirstSimilarApa(j, members, Filter(rest, IsApa), best);
      hide Filter;
      if Preferred(j, members, best, cands[0]) {
        assert FirstSimilarApa(j, members, Filter(cands, IsApa), best) == Some(cands[0]);
      } else {
        assert FirstSimilarApa(j, members, Filter(cands, IsApa), best) == found;
        PreferredLater(j, members, cands, best, found);
      }
    }
  }

  lemma {:induction false} FilterFirst(cands: seq<Reference>)
    requires cands != []
    ensures Filter(cands, IsApa) == if cands[0].inputStyle == "apa" then [cands[0]] + Filter(cands[1..], IsApa)
                                    else Filter(cands[1..], IsApa)
  {
  }

  lemma {:induction false} PreferredLater(j: Judges, members: seq<Reference>, cands: seq<Reference>, best: Best,
                                          found: Option<Reference>)
    requires cands != [] && !Preferred(j, members, best, cands[0])
    requires var rest := cands[1..];
             if found.None? then forall k :: 0 <= k < |rest| ==> !Preferred(j, members, best, rest[k])
             else exists k :: 0 <= k < |rest| && found.value == rest[k] && Preferred(j, members, best, rest[k])
                              && forall l :: 0 <= l < k ==> !Preferred(j, members, best, rest[l])
    ensures if found.None? then forall k :: 0 <= k < |cands| ==> !Preferred(j, members, best, cands[k])
            else exists k :: 0 <= k < |cands| && found.value == cands[k] && Preferred(j, members, best, cands[k])
                             && forall l :: 0 <= l < k ==> !Preferred(j, members, best, cands[l])
  {
    hide Preferred;
    var rest := cands[1..];
    assert forall k :: 0 < k < |cands| ==> cands[k] == rest[k - 1];
    if found.Some? {
      var k :| 0 <= k < |rest| && found.value == rest[k] && Preferred(j, members, best, rest[k])
               && forall l :: 0 <= l < k ==> !Preferred(j, members, best, rest[l]);
      assert found.value == cands[k + 1];
    }
  }

  lemma {:induction false} ElectIsElected(j: Judges, members: seq<Reference>, cands: seq<Reference>)
    requires cands != []
    ensures IsElected(j, members, cands, Elect(j, members, cands).member)
  {
    var best := Walk(j, members, cands, |cands|);
    FirstSimilarIsPreferred(j, members, cands, best);
    hide Walk, Score, Filter, FirstSimilarApa, Preferred;
  }

  // ----- How much the bias can cost -----

  /** No candidate among the first `n` scores above `top`, and one scores exactly `top`. */
  ghost predicate IsTopScore(j: Judges, members: seq<Reference>, cands: seq<Reference>, n: nat, top: int)
    requires n <= |cands|
  {
    && (forall k :: 0 <= k < n ==> Score(j, members, cands[k]) <= top)
    && (exists k :: 0 <= k < n && Score(j, members, cands[k]) == top)
  }

  /**
   After `n` candidates the elected score may trail by this much:
   a loss of two needs an APA candidate after one that is not.
   */
  function Slack(n: nat, apa: bool): nat
    requires n > 0
  {
    if apa then 2 * (n / 2) else 2 * ((n - 1) / 2)
  }

  /** The score of the elected member after `n` candidates, and how far it may trail the top one. */
  ghost predicate Trails(j: Judges, members: seq<Reference>, b: Best, n: nat, top: int)
    requires n > 0
  {
    && b.quality == Score(j, members, b.member)
    && top - Slack(n, IsApa(b.member)) <= b.quality <= top
    && (!b.usedApa ==> b.quality == top)
  }

  lemma {:induction false} StepTrails(j: Judges, members: seq<Reference>, best: Best, c: Reference, n: nat, top: int)
    requires n > 0 && Trails(j, members, best, n, top)
    ensures var score := Score(j, members, c);
            Trails(j, members, Step(j, members, best, c), n + 1, if score > top then score else top)
    ensures Step(j, members, best, c).member == best.member || Step(j, members, best, c).member == c
  {
    hide Score, IsApa;
  }

  lemma {:induction false} MoreScores(j: Judges, members: seq<Reference>, cands: seq<Reference>, n: nat, top: int)
    requires n < |cands| && IsTopScore(j, members, cands, n, top)
    ensures var score := Score(j, members, cands[n]);
            IsTopScore(j, members, cands, n + 1, if score > top then score else top)
  {
    hide Score;
    var k :| 0 <= k < n && Score(j, members, cands[k]) == top;
    assert Score(j, members, cands[n]) <= top ==> 0 <= k < n + 1;
  }

  lemma {:induction false} WalkTrails(j: Judges, members: seq<Reference>, cands: seq<Reference>, n: nat)
    returns (top: int)
    requires 0 < n <= |cands|
    ensures IsTopScore(j, members, cands, n, top)
    ensures var b := Walk(j, members, cands, n);
            (exists k :: 0 <= k < n && cands[k] == b.member) && Trails(j, members, b, n, top)
    decreases n
  {
    hide Score, Step, IsApa;
    if n == 1 {
      top := Score(j, members, cands[0]);
    } else {
      var before := WalkTrails(j, members, cands, n - 1);
      hide Trails, IsTopScore;
      StepTrails(j, members, Walk(j, members, cands, n - 1), cands[n - 1], n - 1, before);
      MoreScores(j, members, cands, n - 1, before);
      top := if Score(j, members, cands[n - 1]) > before then Score(j, members, cands[n - 1]) else before;
    }
  }

  lemma {:induction false} SimilarApaIsClose(j: Judges, members: seq<Reference>, cands: seq<Reference>, best: Best)
    requires cands != [] && (|cands| == 1 ==> cands[0] == best.member)
    ensures var apa := FirstSimilarApa(j, members, Filter(cands, IsApa), best);
            apa.Some? ==> |cands| > 1 && apa.value in cands && Score(j, members, apa.value) + 2 >= best.quality
  {
    FilterMembers(cands, IsApa);
  }

  /**
   The elected member is a survivor of the cascade, and its score is at most 2 * (n / 2) below the best
   score among the n survivors; at most 2 when the walk itself never applied the preference.
   */
  lemma {:induction false} ElectedIsNearBest(j: Judges, members: seq<Reference>, cands: seq<Reference>, c: Reference)
    requires c in cands
    ensures var e := Elect(j, members, cands);
            && e.member in cands && e.quality == Score(j, members, e.member)
            && Score(j, members, c) - 2 * (|cands| / 2) <= e.quality
            && (!Walk(j, members, cands, |cands|).usedApa ==> Score(j, members, c) - 2 <= e.quality)
  {
    var best := Walk(j, members, cands, |cands|);
    var top := WalkTrails(j, members, cands, |cands|);
    SimilarApaIsClose(j, members, cands, best);
    hide Score, Walk, Filter, FirstSimilarApa;
  }

  lemma {:induction false} SurvivorsAreMembers(members: seq<Reference>)
    requires members != []
    ensures Cascade(members) != [] && |Cascade(members)| <= |members|
    ensures forall r :: r in Cascade(members) ==> r in members
  {
    CascadeIsLexicographic(members);
    FilterMembers(members, r => Maximal(members, Rank, r));
  }

  lemma {:induction false} OwnScore(j: Judges, members: seq<Reference>, r: Reference)
    requires DistinctIds(members) && r in members
    ensures Score(j, members, r) == j.quality(r, members)
  {
    var i :| 0 <= i < |members| && members[i] == r;
    MetaIsOwn(members, i);
  }

  /** In a cluster of at most five references with distinct ids, the bias costs at most four points of rounded score. */
  lemma {:induction false} BiasCostsAtMostFour(j: Judges, members: seq<Reference>, r: Reference)
    requires 0 < |members| <= 5 && DistinctIds(members) && r in Cascade(members)
    ensures var e := Elect(j, members, Cascade(members));
            e.member in members && j.quality(r, members) - 4 <= j.quality(e.member, members)
  {
    hide *;
    SurvivorsAreMembers(members);
    ElectedIsNearBest(j, members, Cascade(members), r);
    OwnScore(j, members, r);
    OwnScore(j, members, Elect(j, members, Cascade(members)).member);
  }

  // ----- Without APA input there is no bias -----

  /** Better by score, then confidence, then the number of filled fields. */
  predicate Better(j: Judges, members: seq<Reference>, a: Reference, b: Reference) {
    var x, y := Score(j, members, a), Score(j, members, b);
    || x > y
    || (x == y && a.confidence > b.confidence)
    || (x == y && a.confidence == b.confidence && a.filledFields > b.filledFields)
  }

  lemma {:induction false} WalkWithoutApa(j: Judges, members: seq<Reference>, cands: seq<Reference>, n: nat)
    returns (k: nat)
    requires 0 < n <= |cands| && forall c :: c in cands ==> !IsApa(c)
    ensures k < n && Walk(j, members, cands, n) == Best(cands[k], Score(j, members, cands[k]), false)
    ensures forall l :: 0 <= l < n ==> !Better(j, members, cands[l], cands[k])
    ensures forall l :: 0 <= l < k ==> Better(j, members, cands[k], cands[l])
    decreases n
  {
    hide Score, IsApa;
    if n == 1 {
      k := 0;
    } else {
      var before := WalkWithoutApa(j, members, cands, n - 1);
      k := if Better(j, members, cands[n - 1], cands[before]) then n - 1 else before;
    }
  }

  /** The elected member is then the first of the survivors that none of the others beats. */
  lemma {:induction false} ElectWithoutApa(j: Judges, members: seq<Reference>, cands: seq<Reference>) returns (k: nat)
    requires cands != [] && forall c :: c in cands ==> !IsApa(c)
    ensures k < |cands| && Elect(j, members, cands).member == cands[k]
    ensures forall l :: 0 <= l < |cands| ==> !Better(j, members, cands[l], cands[k])
    ensures forall l :: 0 <= l < k ==> Better(j, members, cands[k], cands[l])
  {
    k := WalkWithoutApa(j, members, cands, |cands|);
    FilterMembers(cands, IsApa);
    var best := Walk(j, members, cands, |cands|);
    assert FirstSimilarApa(j, members, Filter(cands, IsApa), best).None?;
    hide Walk, Score, Filter, FirstSimilarApa, Better;
  }

  // ----- Four points can really be lost -----

  /** References that differ in style, confidence and the number of filled fields only. */
  function Example(id: string, style: string, confidence: real, fields: nat): Reference {
    Reference(id, "", "t", "", "", "2020", Some(2020), "", false, false, false, false, "journal", "", confidence,
      fields, style)
  }

  /** Two APA inputs, each two points below the member it replaces. */
  function ExampleMembers(): seq<Reference> {
    [Example("a", "ieee", 82.0, 6), Example("b", "apa", 80.0, 6), Example("c", "ieee", 82.0, 5),
      Example("d", "apa", 80.0, 5)]
  }

  /** What the quality score adds up where nothing else differs, less what is common to all. */
  function ExampleScore(r: Reference): int {
    r.confidence.Floor + if r.filledFields * 2 < 15 then r.filledFields * 2 else 15
  }

  /** What near-equivalence comes down to for references of one title without authors and venues. */
  predicate ExampleNear(a: Reference, b: Reference) {
    && a.normTitle != "" && a.normTitle == b.normTitle && a.year == b.year && a.referenceType == b.referenceType
    && a.filledFields <= b.filledFields + 1 && b.filledFields <= a.filledFields + 1
  }

  function ExampleJudges(): Judges {
    Judges((r: Reference, _) => ExampleScore(r), (a, b) => ExampleNear(a, b), (_, _) => 100)
  }

  /** An APA candidate, at most two points worse, replaces a near-equivalent member of another style. */
  predicate ExampleReplaces(best: Best, c: Reference) {
    && best.quality - 2 <= ExampleScore(c) < best.quality
    && IsApa(c) && !IsApa(best.member) && ExampleNear(c, best.member)
  }

  lemma {:induction false} ExampleStep(best: Best, c: Reference)
    requires c in ExampleMembers()
    ensures var score, next := ExampleScore(c), Step(ExampleJudges(), ExampleMembers(), best, c);
            && (score > best.quality ==> next == Best(c, score, best.usedApa))
            && (score == best.quality && c.confidence > best.member.confidence ==> next == best.(member := c))
            && (ExampleReplaces(best, c) ==> next == Best(c, score, true))
    ensures Score(ExampleJudges(), ExampleMembers(), c) == ExampleScore(c)
  {
    assert DistinctIds(ExampleMembers());
    OwnScore(ExampleJudges(), ExampleMembers(), c);
    hide Score, ExampleMembers, ExampleScore, ExampleNear;
  }

  lemma {:induction false} ExampleWalk()
    ensures var members := ExampleMembers();
            Walk(ExampleJudges(), members, members, 4) == Best(members[3], 90, true)
  {
    var j, members := ExampleJudges(), ExampleMembers();
    ExampleStep(Best(members[0], 94, false), members[0]);
    ExampleStep(Best(members[0], 94, false), members[1]);
    ExampleStep(Best(members[1], 92, true), members[2]);
    ExampleStep(Best(members[2], 92, true), members[3]);
    hide Score, Step, ExampleJudges;
    assert |"apa"| == 3 && |"ieee"| == 4;
    assert Walk(j, members, members, 1) == Best(members[0], 94, false);
    assert Walk(j, members, members, 2) == Best(members[1], 92, true);
    assert Walk(j, members, members, 3) == Best(members[2], 92, true);
  }

  /** The last member wins, four points below the best. */
  lemma {:induction false} FourPointsLost()
    ensures var j, members := ExampleJudges(), ExampleMembers();
            && Cascade(members) == members
            && j.quality(members[0], members) == 94
            && Elect(j, members, Cascade(members)).member == members[3] && j.quality(members[3], members) == 90
  {
    ExampleAllSurvive();
    ExampleWalk();
    hide Walk, Cascade;
  }

  lemma {:induction false} ExampleAllSurvive()
    ensures Cascade(ExampleMembers()) == ExampleMembers()
  {
    assert |"journal"| != |"conference"|;
  }

  // ----- The procedure -----

  method ElectWinner(j: Judges, members: seq<Reference>) returns (bestMember: Reference)
    requires members != []
    ensures bestMember == Elect(j, members, Cascade(members)).member
    ensures Cascade(members) != [] && IsElected(j, members, Cascade(members), bestMember)
    ensures bestMember in members && forall m :: m in members ==> AtLeast(Flags(bestMember), Flags(m))
    ensures forall c :: c in Cascade(members) ==>
              Score(j, members, c) - 2 * (|Cascade(members)| / 2) <= Score(j, members, bestMember)
  {
    var candidates := Cascade(members);
    SurvivorsAreMembers(members);
    hide Score, Cascade;
    bestMember := candidates[0];
    var bestQuality := Score(j, members, bestMember);
    var usedApaSourcePreference := false;
    for i := 1 to |candidates|
      invariant Best(bestMember, bestQuality, usedApaSourcePreference) == Walk(j, members, candidates, i)
    {
      var candidate := candidates[i];
      var candidateQuality := Score(j, members, candidate);
      if candidateQuality > bestQuality {
        bestQuality := candidateQuality;
        bestMember := candidate;
      } else if candidateQuality == bestQuality {
        if candidate.confidence > bestMember.confidence {
          bestMember := candidate;
        } else if candidate.confidence == bestMember.confidence {
          if candidate.filledFields > bestMember.filledFields {
            bestMember := candidate;
          } else if candidate.filledFields == bestMember.filledFields {
            if IsApa(candidate) && !IsApa(bestMember) && j.nearEquivalent(candidate, bestMember) {
              bestMember := candidate;
              usedApaSourcePreference := true;
            }
          }
        }
      } else if IsApa(candidate) && !IsApa(bestMember) && candidateQuality >= bestQuality - 2
                && j.nearEquivalent(candidate, bestMember) {
        bestQuality := candidateQuality;
        bestMember := candidate;
        usedApaSourcePreference := true;
      }
    }
    if !usedApaSourcePreference {
      bestMember := ApplyFinalBias(j, members, candidates, Best(bestMember, bestQuality, false));
    }
    ElectedProperties(j, members);
  }

  method ApplyFinalBias(j: Judges, members: seq<Reference>, candidates: seq<Reference>, best: Best)
    returns (bestMember: Reference)
    ensures bestMember == match FirstSimilarApa(j, members, Filter(candidates, IsApa), best)
                          case Some(apa) => apa
                          case None => best.member
  {
    var apaCandidates := Filter(candidates, IsApa);
    hide Score, Filter;
    for k := 0 to |apaCandidates|
      invariant FirstSimilarApa(j, members, apaCandidates, best)
                == FirstSimilarApa(j, members, apaCandidates[k..], best)
    {
      var apa := apaCandidates[k];
      assert apaCandidates[k..][0] == apa && apaCandidates[k..][1..] == apaCandidates[k + 1..];
      if apa.id == best.member.id || Score(j, members, apa) + 2 < best.quality {
        continue;
      }
      if j.similarity(apa, best.member) >= 90 {
        return apa;
      }
    }
    return best.member;
  }

  lemma {:induction false} ElectedProperties(j: Judges, members: seq<Reference>)
    requires members != []
    ensures Cascade(members) != []
    ensures var winner := Elect(j, members, Cascade(members)).member;
            && IsElected(j, members, Cascade(members), winner)
            && winner in members && (forall m :: m in members ==> AtLeast(Flags(winner), Flags(m)))
            && forall c :: c in Cascade(members) ==>
                 Score(j, members, c) - 2 * (|Cascade(members)| / 2) <= Score(j, members, winner)
  {
    SurvivorsAreMembers(members);
    hide Cascade, Score, Elect, IsElected, Flags, AtLeast;
    var cands := Cascade(members);
    ElectIsElected(j, members, cands);
    SurvivorsHaveTheFlags(members, Elect(j, members, cands).member);
    forall c | c in cands
      ensures Score(j, members, c) - 2 * (|cands| / 2) <= Score(j, members, Elect(j, members, cands).member)
    {
      ElectedIsNearBest(j, members, cands, c);
    }
    ElectedIsNearBest(j, members, cands, cands[0]);
  }
}
