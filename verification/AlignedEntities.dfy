/**
 Decoding the labels that `align_row` produces.  The source's entities come back, their boundaries moved by
 the prefix sums of the piece counts, exactly when no token without pieces swallows an entity or the
 only thing that kept two entities apart.
 */
module AlignedEntities {
  import opened BioTags
  import opened BioAlignment

  /** The entities with their boundaries counted in pieces. */
  ghost function Moved(es: seq<Entity>, pieces: seq<seq<string>>): seq<Entity>
    requires forall k :: 0 <= k < |es| ==> es[k].start <= |pieces| && es[k].end <= |pieces|
  {
    seq(|es|, k requires 0 <= k < |es| => Entity(es[k].core, Offset(pieces, es[k].start), Offset(pieces, es[k].end)))
  }

  /** The tag of the last token before `i` that has pieces. */
  function PrevTag(tags: seq<Tag>, pieces: seq<seq<string>>, i: nat): Tag
    requires i <= |tags| == |pieces|
  {
    if i == 0 then OUTSIDE else if pieces[i - 1] != [] then tags[i - 1] else PrevTag(tags, pieces, i - 1)
  }

  /** The first token from `i` on, before `end`, that has pieces. */
  function FirstWithPieces(pieces: seq<seq<string>>, i: nat, end: nat): (j: nat)
    requires i <= end <= |pieces|
    ensures i <= j <= end && (j < end ==> pieces[j] != [])
    ensures forall k :: i <= k < j ==> pieces[k] == []
    decreases end - i
  {
    if i == end || pieces[i] != [] then i else FirstWithPieces(pieces, i + 1, end)
  }

  /** Token `i` still opens an entity once the tokens without pieces are gone. */
  predicate StillStarts(tags: seq<Tag>, pieces: seq<seq<string>>, i: nat)
    requires i < |tags| == |pieces|
  {
    var previous := PrevTag(tags, pieces, i);
    tags[i].Tagged? && (tags[i].prefix == "B" || previous.Plain? || previous.core != tags[i].core)
  }

  /** The entity that starts at `s` keeps a piece, and its first remaining token does not continue what is before it. */
  predicate Survives(tags: seq<Tag>, pieces: seq<seq<string>>, s: nat)
    requires s < |tags| == |pieces| && Starts(tags, s)
  {
    var j := FirstWithPieces(pieces, s, EndOf(tags, s));
    j < EndOf(tags, s) && StillStarts(tags, pieces, j)
  }

  predicate AllSurvive(tags: seq<Tag>, pieces: seq<seq<string>>)
    requires |tags| == |pieces|
  {
    forall s :: 0 <= s < |tags| && Starts(tags, s) ==> Survives(tags, pieces, s)
  }

  ghost function Expanded(tags: seq<Tag>, pieces: seq<seq<string>>): (x: seq<Tag>)
    requires |tags| == |pieces|
    ensures |x| == Offset(pieces, |pieces|)
  {
    Expand(tags, pieces, |pieces|)
  }

  // ----- Reading the expanded labels -----

  lemma {:induction false} ExpandPrefix(tags: seq<Tag>, pieces: seq<seq<string>>, i: nat, n: nat)
    requires i <= n <= |tags| == |pieces|
    ensures Offset(pieces, i) <= Offset(pieces, n)
    ensures Expand(tags, pieces, n)[..Offset(pieces, i)] == Expand(tags, pieces, i)
    decreases n
  {
    OffsetGrows(pieces, i, n);
    if i < n {
      OffsetGrows(pieces, i, n - 1);
      ExpandPrefix(tags, pieces, i, n - 1);
      hide Labels;
      var a := Offset(pieces, i);
      assert Expand(tags, pieces, n)[..a] == Expand(tags, pieces, n - 1)[..a];
    }
  }

  /** Piece `r` of token `i` is labelled from that token's tag. */
  lemma {:induction false} ExpandedAt(tags: seq<Tag>, pieces: seq<seq<string>>, i: nat, r: nat)
    requires i < |tags| == |pieces| && r < |pieces[i]|
    ensures Offset(pieces, i) + r < |Expanded(tags, pieces)|
    ensures Expanded(tags, pieces)[Offset(pieces, i) + r] == LabelAt(tags[i], r)
  {
    var x, q := Expanded(tags, pieces), Offset(pieces, i) + r;
    ExpandPrefix(tags, pieces, i + 1, |pieces|);
    assert q < Offset(pieces, i + 1);
    assert x[q] == x[..Offset(pieces, i + 1)][q];
  }

  /** What comes before token `i`'s pieces is labelled from the last token before it that has any. */
  lemma {:induction false} ExpandedBefore(tags: seq<Tag>, pieces: seq<seq<string>>, i: nat)
    requires i <= |tags| == |pieces|
    ensures Offset(pieces, i) <= |Expanded(tags, pieces)|
    ensures Offset(pieces, i) == 0 ==> PrevTag(tags, pieces, i).Plain?
    ensures Offset(pieces, i) > 0 ==>
              var t := Expanded(tags, pieces)[Offset(pieces, i) - 1];
              var previous := PrevTag(tags, pieces, i);
              t.Plain? == previous.Plain? && (t.Tagged? ==> t.core == previous.core)
    decreases i
  {
    OffsetGrows(pieces, i, |pieces|);
    if i > 0 {
      if pieces[i - 1] != [] {
        ExpandedAt(tags, pieces, i - 1, |pieces[i - 1]| - 1);
      } else {
        ExpandedBefore(tags, pieces, i - 1);
      }
    }
  }

  /** Within a token's pieces only the first can open an entity. */
  lemma {:induction false} ExpandedStarts(tags: seq<Tag>, pieces: seq<seq<string>>, i: nat, r: nat)
    requires i < |tags| == |pieces| && r < |pieces[i]|
    ensures var q := Offset(pieces, i) + r;
            && q < |Expanded(tags, pieces)|
            && Expanded(tags, pieces)[q].Tagged? == tags[i].Tagged?
            && (Starts(Expanded(tags, pieces), q) <==> r == 0 && StillStarts(tags, pieces, i))
  {
    ExpandedAt(tags, pieces, i, r);
    if r > 0 {
      ExpandedAt(tags, pieces, i, r - 1);
    } else {
      ExpandedBefore(tags, pieces, i);
    }
    hide Expanded, Offset, PrevTag;
  }

  lemma {:induction false} SameOffset(tags: seq<Tag>, pieces: seq<seq<string>>, i: nat, j: nat)
    requires i <= j <= |pieces| == |tags| && forall k :: i <= k < j ==> pieces[k] == []
    ensures Offset(pieces, j) == Offset(pieces, i)
    decreases j
  {
    if i < j {
      SameOffset(tags, pieces, i, j - 1);
    }
  }

  lemma {:induction false} ExpandedIsBIO(tags: seq<Tag>, pieces: seq<seq<string>>, n: nat)
    requires n <= |tags| == |pieces|
    ensures OnlyBIO(Expand(tags, pieces, n))
    decreases n
  {
    if n > 0 {
      ExpandedIsBIO(tags, pieces, n - 1);
    }
  }

  // ----- The entities of the expanded labels -----

  /** A token that does not continue an entity is not read as a continuation either. */
  lemma {:induction false} BoundaryKept(tags: seq<Tag>, pieces: seq<seq<string>>, i: nat)
    requires i <= |tags| == |pieces| && AllSurvive(tags, pieces)
    requires i < |tags| ==> !Continues(tags, i)
    ensures Offset(pieces, i) <= |Expanded(tags, pieces)|
    ensures Offset(pieces, i) < |Expanded(tags, pieces)| ==> !Continues(Expanded(tags, pieces), Offset(pieces, i))
    decreases |tags| - i
  {
    OffsetGrows(pieces, i, |pieces|);
    if i < |tags| {
      if Starts(tags, i) {
        assert Survives(tags, pieces, i);
        var j := FirstWithPieces(pieces, i, EndOf(tags, i));
        SameOffset(tags, pieces, i, j);
        ExpandedStarts(tags, pieces, j, 0);
      } else if pieces[i] != [] {
        ExpandedAt(tags, pieces, i, 0);
      } else {
        BoundaryKept(tags, pieces, i + 1);
      }
    }
  }

  /** The pieces of an entity's tokens continue its first piece. */
  lemma {:induction false} SpanContinues(tags: seq<Tag>, pieces: seq<seq<string>>, j: nat, k: nat, q: nat)
    requires OnlyBIO(tags) && j < k <= |tags| == |pieces| && pieces[j] != [] && tags[j].Tagged?
    requires forall m :: j < m < k ==> Continues(tags, m)
    requires Offset(pieces, j) < q < Offset(pieces, k)
    ensures q < |Expanded(tags, pieces)| && Continues(Expanded(tags, pieces), q)
    decreases k
  {
    OffsetGrows(pieces, k, |pieces|);
    if Offset(pieces, k - 1) <= q {
      ExpandedStarts(tags, pieces, k - 1, q - Offset(pieces, k - 1));
      assert k - 1 == j || Continues(tags, k - 1);
      if q == Offset(pieces, k - 1) {
        PrevWithin(tags, pieces, j, k - 1);
      }
    } else {
      SpanContinues(tags, pieces, j, k - 1, q);
    }
  }

  /** Inside an entity, the previous remaining token is of the same entity. */
  lemma {:induction false} PrevWithin(tags: seq<Tag>, pieces: seq<seq<string>>, j: nat, i: nat)
    requires OnlyBIO(tags) && j < i < |tags| == |pieces| && pieces[j] != [] && tags[j].Tagged?
    requires forall m :: j < m <= i ==> Continues(tags, m)
    ensures !StillStarts(tags, pieces, i)
    decreases i
  {
    SpanLabels(tags, j, i + 1);
    PrevCore(tags, pieces, j, i);
  }

  lemma {:induction false} PrevCore(tags: seq<Tag>, pieces: seq<seq<string>>, j: nat, i: nat)
    requires j < i <= |tags| == |pieces| && pieces[j] != [] && tags[j].Tagged?
    requires forall m :: j < m < i ==> IsInside(tags[m], tags[j].core)
    ensures PrevTag(tags, pieces, i).Tagged? && PrevTag(tags, pieces, i).core == tags[j].core
    decreases i
  {
    if pieces[i - 1] == [] {
      PrevCore(tags, pieces, j, i - 1);
    }
  }

  /** A surviving entity is read back with its boundaries moved. */
  lemma {:induction false} SpanMoved(tags: seq<Tag>, pieces: seq<seq<string>>, s: nat)
    requires OnlyBIO(tags) && s < |tags| == |pieces| && AllSurvive(tags, pieces) && Starts(tags, s)
    ensures var x := Expanded(tags, pieces);
            && Offset(pieces, s) < |x| && Starts(x, Offset(pieces, s))
            && x[Offset(pieces, s)].core == tags[s].core
            && EndOf(x, Offset(pieces, s)) == Offset(pieces, EndOf(tags, s))
  {
    var x, end := Expanded(tags, pieces), EndOf(tags, s);
    assert Survives(tags, pieces, s);
    var j := FirstWithPieces(pieces, s, end);
    SameOffset(tags, pieces, s, j);
    ExpandedStarts(tags, pieces, j, 0);
    ExpandedAt(tags, pieces, j, 0);
    EndOfSpan(tags, s);
    SpanLabels(tags, s, end);
    OffsetGrows(pieces, j + 1, end);
    forall q | Offset(pieces, j) < q < Offset(pieces, end)
      ensures q < |x| && Continues(x, q)
    {
      SpanContinues(tags, pieces, j, end, q);
    }
    BoundaryKept(tags, pieces, end);
    hide Expanded, Survives, StillStarts, Continues, Starts;
    EndOfIs(x, Offset(pieces, j), Offset(pieces, end));
  }

  lemma {:induction false} MovedCons(e: Entity, es: seq<Entity>, pieces: seq<seq<string>>)
    requires e.start <= |pieces| && e.end <= |pieces|
    requires forall k :: 0 <= k < |es| ==> es[k].start <= |pieces| && es[k].end <= |pieces|
    ensures forall k :: 0 <= k < |[e] + es| ==> ([e] + es)[k].start <= |pieces| && ([e] + es)[k].end <= |pieces|
    ensures Moved([e] + es, pieces)
         == [Entity(e.core, Offset(pieces, e.start), Offset(pieces, e.end))] + Moved(es, pieces)
  {
    hide Offset;
  }

  lemma {:induction false} EntitiesMove(tags: seq<Tag>, pieces: seq<seq<string>>, i: nat)
    requires OnlyBIO(tags) && i <= |tags| == |pieces| && AllSurvive(tags, pieces)
    requires i < |tags| ==> !Continues(tags, i)
    ensures Offset(pieces, i) <= |Expanded(tags, pieces)|
    ensures InRange(tags, i)
    ensures Entities(Expanded(tags, pieces), Offset(pieces, i)) == Moved(Entities(tags, i), pieces)
    decreases |tags| - i
  {
    RangeOf(tags, i);
    OffsetGrows(pieces, i, |pieces|);
    var x, q := Expanded(tags, pieces), Offset(pieces, i);
    if i < |tags| {
      hide Moved, Expanded, Survives, OnlyBIO;
      if Starts(tags, i) {
        var end := EndOf(tags, i);
        SpanMoved(tags, pieces, i);
        EndOfSpan(tags, i);
        EntitiesMove(tags, pieces, end);
        NextEntity(tags, i);
        NextEntity(x, q);
        MovedCons(Entity(tags[i].core, i, end), Entities(tags, end), pieces);
      } else {
        SkipTo(tags, i, i + 1);
        forall k | q <= k < Offset(pieces, i + 1)
          ensures k < |x| && !Starts(x, k)
        {
          ExpandedAt(tags, pieces, i, k - q);
        }
        EntitiesMove(tags, pieces, i + 1);
        SkipTo(x, q, Offset(pieces, i + 1));
      }
    }
  }

  ghost predicate InRange(tags: seq<Tag>, i: nat)
    requires i <= |tags|
  {
    var es := Entities(tags, i);
    forall k :: 0 <= k < |es| ==> es[k].start <= |tags| && es[k].end <= |tags|
  }

  lemma {:induction false} RangeOf(tags: seq<Tag>, i: nat)
    requires i <= |tags|
    ensures InRange(tags, i)
    decreases |tags| - i
  {
    if i < |tags| {
      RangeOf(tags, i + 1);
    }
  }

  lemma {:induction false} EntityAt(tags: seq<Tag>, i: nat, s: nat)
    requires i <= s < |tags| && Starts(tags, s)
    ensures Entity(tags[s].core, s, EndOf(tags, s)) in Entities(tags, i)
    decreases s - i
  {
    if i < s {
      EntityAt(tags, i + 1, s);
    }
  }

  lemma {:induction false} MovedMember(es: seq<Entity>, pieces: seq<seq<string>>, e: Entity)
    requires forall k :: 0 <= k < |es| ==> es[k].start <= |pieces| && es[k].end <= |pieces|
    requires e in es
    ensures e.start <= |pieces| && e.end <= |pieces|
    ensures Entity(e.core, Offset(pieces, e.start), Offset(pieces, e.end)) in Moved(es, pieces)
  {
    hide Offset;
    var k :| 0 <= k < |es| && es[k] == e;
    assert Moved(es, pieces)[k] == Entity(e.core, Offset(pieces, e.start), Offset(pieces, e.end));
  }

  /**
   Decoding the aligned labels gives exactly the source's entities, moved by the prefix sums, if and only if
   every entity survives: it keeps at least one piece, and its first remaining token is not an I-c that
   follows, among the remaining tokens, a token of core c.
   */
  lemma {:induction false} DecodeAligned(tags: seq<Tag>, pieces: seq<seq<string>>)
    requires OnlyBIO(tags) && |tags| == |pieces|
    ensures InRange(tags, 0)
    ensures Entities(Expanded(tags, pieces), 0) == Moved(Entities(tags, 0), pieces) <==> AllSurvive(tags, pieces)
  {
    RangeOf(tags, 0);
    if AllSurvive(tags, pieces) {
      EntitiesMove(tags, pieces, 0);
    }
    if Entities(Expanded(tags, pieces), 0) == Moved(Entities(tags, 0), pieces) {
      forall s | 0 <= s < |tags| && Starts(tags, s)
        ensures Survives(tags, pieces, s)
      {
        MovedSurvives(tags, pieces, s);
      }
    }
  }

  lemma {:induction false} MovedSurvives(tags: seq<Tag>, pieces: seq<seq<string>>, s: nat)
    requires OnlyBIO(tags) && s < |tags| == |pieces| && Starts(tags, s) && InRange(tags, 0)
    requires Entities(Expanded(tags, pieces), 0) == Moved(Entities(tags, 0), pieces)
    ensures Survives(tags, pieces, s)
  {
    var x, end := Expanded(tags, pieces), EndOf(tags, s);
    EntityAt(tags, 0, s);
    MovedMember(Entities(tags, 0), pieces, Entity(tags[s].core, s, end));
    ExpandedIsBIO(tags, pieces, |pieces|);
    EntitiesAreMaximal(x, 0, Entity(tags[s].core, Offset(pieces, s), Offset(pieces, end)));
    var j := FirstWithPieces(pieces, s, end);
    SameOffset(tags, pieces, s, j);
    if j < end {
      ExpandedStarts(tags, pieces, j, 0);
    }
  }

  /** Tokens that all have pieces lose nothing. */
  lemma {:induction false} NothingDropped(tags: seq<Tag>, pieces: seq<seq<string>>)
    requires |tags| == |pieces| && forall k :: 0 <= k < |pieces| ==> pieces[k] != []
    ensures AllSurvive(tags, pieces)
  {
    forall s | 0 <= s < |tags| && Starts(tags, s)
      ensures Survives(tags, pieces, s)
    {
      assert FirstWithPieces(pieces, s, EndOf(tags, s)) == s;
    }
  }

  /** A token without pieces between two spans of one core fuses them. */
  lemma {:induction false} FusedSpans()
    ensures var tags, pieces := [Tagged("B", "title"), OUTSIDE, Tagged("I", "title")], [["a"], [], ["b"]];
            && Entities(tags, 0) == [Entity("title", 0, 1), Entity("title", 2, 3)]
            && Entities(Expanded(tags, pieces), 0) == [Entity("title", 0, 2)]
  {
    var b, i := Tagged("B", "title"), Tagged("I", "title");
    var tags, pieces := [b, OUTSIDE, i], [["a"], [], ["b"]];
    assert Entities(tags, 3) == [] && Entities(tags, 2) == [Entity("title", 2, 3)];
    assert Labels(b, 1) == [b] && Labels(OUTSIDE, 0) == [] && Labels(i, 1) == [i];
    assert Expand(tags, pieces, 1) == [b] && Expand(tags, pieces, 2) == [b];
    assert Expanded(tags, pieces) == [b, i];
    assert Entities([b, i], 2) == [] && Entities([b, i], 1) == [] && EndOf([b, i], 0) == 2;
  }
}
