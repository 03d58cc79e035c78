/** The label alignment loop of `align_row` in `ml-service/tools/train_bio_bundle.py`. */
module BioAlignment {
  import opened Wrappers
  import opened BioTags

  // ----- What alignment should produce -----

  /** The label of the `r`th piece of a source token with this tag. */
  function LabelAt(tag: Tag, r: nat): Tag {
    if tag.Plain? then OUTSIDE
    else Tagged(if r == 0 && tag.prefix == "B" then "B" else "I", tag.core)
  }

  function Labels(tag: Tag, n: nat): (s: seq<Tag>)
    ensures |s| == n
  {
    seq(n, r requires 0 <= r < n => LabelAt(tag, r))
  }

  /** The pieces of the first `i` source tokens, one after the other. */
  ghost function Flat(pieces: seq<seq<string>>, i: nat): seq<string>
    requires i <= |pieces|
  {
    if i == 0 then [] else Flat(pieces, i - 1) + pieces[i - 1]
  }

  /** How many pieces come before source token `i`: the prefix sum of the piece counts. */
  ghost function Offset(pieces: seq<seq<string>>, i: nat): nat
    requires i <= |pieces|
  {
    if i == 0 then 0 else Offset(pieces, i - 1) + |pieces[i - 1]|
  }

  /** The labels of those pieces. */
  ghost function Expand(tags: seq<Tag>, pieces: seq<seq<string>>, i: nat): (s: seq<Tag>)
    requires i <= |pieces| == |tags|
    ensures |s| == Offset(pieces, i)
  {
    if i == 0 then [] else Expand(tags, pieces, i - 1) + Labels(tags[i - 1], |pieces[i - 1]|)
  }

  lemma {:induction false} OffsetGrows(pieces: seq<seq<string>>, i: nat, j: nat)
    requires i <= j <= |pieces|
    ensures Offset(pieces, i) <= Offset(pieces, j)
    decreases j
  {
    if i < j {
      OffsetGrows(pieces, i, j - 1);
    }
  }

  lemma {:induction false} FlatSlice(pieces: seq<seq<string>>, i: nat, n: nat)
    requires i < n <= |pieces|
    ensures |Flat(pieces, n)| == Offset(pieces, n) && Offset(pieces, i + 1) <= Offset(pieces, n)
    ensures Flat(pieces, n)[Offset(pieces, i)..Offset(pieces, i + 1)] == pieces[i]
    decreases n
  {
    FlatLength(pieces, n - 1);
    OffsetGrows(pieces, i + 1, n);
    var a, b := Offset(pieces, i), Offset(pieces, i + 1);
    if i + 1 < n {
      FlatSlice(pieces, i, n - 1);
      assert Flat(pieces, n)[a..b] == Flat(pieces, n - 1)[a..b];
    } else {
      hide Offset;
      assert (Flat(pieces, i) + pieces[i])[a..] == pieces[i];
    }
  }

  lemma {:induction false} FlatLength(pieces: seq<seq<string>>, n: nat)
    requires n <= |pieces|
    ensures |Flat(pieces, n)| == Offset(pieces, n)
  {
    if n > 0 {
      FlatLength(pieces, n - 1);
    }
  }

  // ----- The loop -----

  function Painted(labels: seq<Tag>, start: nat, tag: Tag, n: nat): (s: seq<Tag>)
    requires start + n <= |labels|
    ensures |s| == |labels|
  {
    if tag.Plain? then labels else labels[..start] + Labels(tag, n) + labels[start + n..]
  }

  predicate Occurs(encoded: seq<string>, piece: seq<string>, start: nat) {
    start + |piece| <= |encoded| && encoded[start..start + |piece|] == piece
  }

  lemma {:induction false} PaintedIs(labels: seq<Tag>, start: nat, tag: Tag, n: nat, painted: seq<Tag>)
    requires start + n <= |labels| == |painted| && tag.Tagged?
    requires forall k :: start <= k < start + n ==> painted[k] == LabelAt(tag, k - start)
    requires forall k :: 0 <= k < |labels| && !(start <= k < start + n) ==> painted[k] == labels[k]
    ensures painted == Painted(labels, start, tag, n)
  {
    hide LabelAt;
    assert painted[..start] == labels[..start] && painted[start + n..] == labels[start + n..];
    assert painted[start..start + n] == Labels(tag, n);
    assert painted == painted[..start] + painted[start..start + n] + painted[start + n..];
  }

  method PaintLabels(labels: seq<Tag>, start: nat, tag: Tag, n: nat) returns (painted: seq<Tag>)
    requires 0 < n && start + n <= |labels|
    ensures painted == Painted(labels, start, tag, n)
  {
    painted := labels;
    if tag.Tagged? {
      painted := painted[start := Tagged(if tag.prefix == "B" then "B" else "I", tag.core)];
      for idx := start + 1 to start + n
        invariant |painted| == |labels|
        invariant forall k :: start <= k < idx ==> painted[k] == LabelAt(tag, k - start)
        invariant forall k :: 0 <= k < |labels| && !(start <= k < idx) ==> painted[k] == labels[k]
      {
        painted := painted[idx := Tagged("I", tag.core)];
      }
      PaintedIs(labels, start, tag, n, painted);
    }
  }

  /** One scan: label the first occurrence of `piece` at or after `from`. */
  method ScanFrom(encoded: seq<string>, piece: seq<string>, from: nat, labels: seq<Tag>, tag: Tag)
    returns (matched: bool, start: nat, painted: seq<Tag>)
    requires piece != [] && |labels| == |encoded|
    ensures matched <==> exists k: nat :: from <= k && Occurs(encoded, piece, k)
    ensures matched ==> from <= start && Occurs(encoded, piece, start)
    ensures matched ==> forall k: nat :: from <= k < start ==> !Occurs(encoded, piece, k)
    ensures matched ==> painted == Painted(labels, start, tag, |piece|)
    ensures !matched ==> painted == labels
  {
    start := from;
    while start + |piece| <= |encoded|
      invariant forall k: nat :: from <= k < start ==> !Occurs(encoded, piece, k)
      invariant from <= start
    {
      if encoded[start..start + |piece|] == piece {
        assert Occurs(encoded, piece, start);
        painted := PaintLabels(labels, start, tag, |piece|);
        return true, start, painted;
      }
      start := start + 1;
    }
    return false, start, labels;
  }

  /** The scan from the cursor, and if that finds nothing the one from the beginning. */
  method ScanTwice(encoded: seq<string>, piece: seq<string>, cursor: nat, labels: seq<Tag>, tag: Tag)
    returns (matched: bool, start: nat, painted: seq<Tag>, again: bool)
    requires piece != [] && |labels| == |encoded|
    ensures IsPlace(encoded, piece, cursor, if matched then Some(start) else None)
    ensures matched ==> Occurs(encoded, piece, start) && painted == Painted(labels, start, tag, |piece|)
    ensures Occurs(encoded, piece, cursor) ==> matched && start == cursor && !again
  {
    hide Occurs, Painted;
    again := false;
    matched, start, painted := ScanFrom(encoded, piece, cursor, labels, tag);
    if !matched {
      again := true;
      matched, start, painted := ScanFrom(encoded, piece, 0, labels, tag);
    }
  }

  /** The labels so far: the expansion of the tokens read, and "O" from the cursor on. */
  ghost predicate Aligned(labels: seq<Tag>, tags: seq<Tag>, pieces: seq<seq<string>>, i: nat, cursor: nat)
    requires i <= |tags| == |pieces|
  {
    && cursor == Offset(pieces, i) <= |labels|
    && labels[..cursor] == Expand(tags, pieces, i)
    && forall k :: cursor <= k < |labels| ==> labels[k] == OUTSIDE
  }

  lemma {:induction false} PaintingAligns(labels: seq<Tag>, tags: seq<Tag>, pieces: seq<seq<string>>, i: nat,
                                          cursor: nat)
    requires i < |tags| == |pieces| && Aligned(labels, tags, pieces, i, cursor)
    requires cursor + |pieces[i]| <= |labels|
    ensures Aligned(Painted(labels, cursor, tags[i], |pieces[i]|), tags, pieces, i + 1, cursor + |pieces[i]|)
  {
    var n := |pieces[i]|;
    var painted := Painted(labels, cursor, tags[i], n);
    assert painted[..cursor] == labels[..cursor];
    assert painted[cursor..cursor + n] == Labels(tags[i], n);
    assert painted[..cursor + n] == painted[..cursor] + painted[cursor..cursor + n];
  }

  /** Where the text's pieces are those of the source tokens, the next token's pieces are at the cursor. */
  lemma {:induction false} NextIsAtCursor(encoded: seq<string>, labels: seq<Tag>, tags: seq<Tag>,
                                          pieces: seq<seq<string>>, i: nat, cursor: nat)
    requires i < |tags| == |pieces| && encoded == Flat(pieces, |pieces|) && |labels| == |encoded|
    requires Aligned(labels, tags, pieces, i, cursor)
    ensures cursor + |pieces[i]| <= |labels| && Occurs(encoded, pieces[i], cursor)
  {
    FlatSlice(pieces, i, |pieces|);
  }

  // ----- Where each token is found, and which labels that leaves -----

  ghost predicate FirstFrom(encoded: seq<string>, piece: seq<string>, from: nat, start: nat) {
    from <= start && Occurs(encoded, piece, start)
    && forall k: nat :: from <= k < start ==> !Occurs(encoded, piece, k)
  }

  ghost predicate NoneFrom(encoded: seq<string>, piece: seq<string>, from: nat) {
    forall k: nat :: from <= k ==> !Occurs(encoded, piece, k)
  }

  /** The first occurrence from the cursor on, or if there is none the first of all; a token without pieces has none. */
  ghost predicate IsPlace(encoded: seq<string>, piece: seq<string>, cursor: nat, place: Option<nat>) {
    match place
    case None => piece == [] || NoneFrom(encoded, piece, 0)
    case Some(start) =>
      && piece != []
      && (FirstFrom(encoded, piece, cursor, start)
          || (NoneFrom(encoded, piece, cursor) && FirstFrom(encoded, piece, 0, start)))
  }

  /** The end of the last token found among the first `i`. */
  ghost function CursorAt(pieces: seq<seq<string>>, places: seq<Option<nat>>, i: nat): nat
    requires i <= |places| <= |pieces|
  {
    if i == 0 then 0
    else if places[i - 1].Some? then places[i - 1].value + |pieces[i - 1]|
    else CursorAt(pieces, places, i - 1)
  }

  ghost predicate ArePlaces(encoded: seq<string>, pieces: seq<seq<string>>, places: seq<Option<nat>>) {
    |places| <= |pieces|
    && forall i :: 0 <= i < |places| ==> IsPlace(encoded, pieces[i], CursorAt(pieces, places, i), places[i])
  }

  ghost predicate Covers(tags: seq<Tag>, pieces: seq<seq<string>>, places: seq<Option<nat>>, i: nat, p: nat)
    requires i < |places| <= |pieces| == |tags|
  {
    tags[i].Tagged? && places[i].Some? && places[i].value <= p < places[i].value + |pieces[i]|
  }

  ghost predicate Uncovered(tags: seq<Tag>, pieces: seq<seq<string>>, places: seq<Option<nat>>, p: nat)
    requires |places| <= |pieces| == |tags|
  {
    forall i :: 0 <= i < |places| ==> !Covers(tags, pieces, places, i, p)
  }

  ghost predicate CoversLast(tags: seq<Tag>, pieces: seq<seq<string>>, places: seq<Option<nat>>, i: nat, p: nat)
    requires i < |places| <= |pieces| == |tags|
  {
    Covers(tags, pieces, places, i, p) && forall j :: i < j < |places| ==> !Covers(tags, pieces, places, j, p)
  }

  /** The label at `p` is the last tagged token's found there: "B" on the first piece of a beginning, else "I". */
  ghost predicate IsLabel(tags: seq<Tag>, pieces: seq<seq<string>>, places: seq<Option<nat>>, p: nat, shown: Tag)
    requires |places| <= |pieces| == |tags|
  {
    && (Uncovered(tags, pieces, places, p) ==> shown == Plain("O"))
    && (forall i :: 0 <= i < |places| && CoversLast(tags, pieces, places, i, p) ==>
          shown == Tagged(if p == places[i].value && tags[i].prefix == "B" then "B" else "I", tags[i].core))
  }

  ghost predicate AreLabels(tags: seq<Tag>, pieces: seq<seq<string>>, places: seq<Option<nat>>, labels: seq<Tag>)
    requires |places| <= |pieces| == |tags|
  {
    forall p :: 0 <= p < |labels| ==> IsLabel(tags, pieces, places, p, labels[p])
  }

  lemma {:induction false} CursorOfPrefix(
      pieces: seq<seq<string>>, places: seq<Option<nat>>, more: Option<nat>, i: nat)
    requires i <= |places| < |pieces|
    ensures CursorAt(pieces, places + [more], i) == CursorAt(pieces, places, i)
  {
    if i > 0 {
      CursorOfPrefix(pieces, places, more, i - 1);
    }
  }

  lemma {:induction false} PlaceIsAdded(
      encoded: seq<string>, pieces: seq<seq<string>>, places: seq<Option<nat>>, place: Option<nat>)
    requires |places| < |pieces| && ArePlaces(encoded, pieces, places)
    requires IsPlace(encoded, pieces[|places|], CursorAt(pieces, places, |places|), place)
    ensures ArePlaces(encoded, pieces, places + [place])
  {
    hide IsPlace, CursorAt;
    var all := places + [place];
    forall i | 0 <= i < |all|
      ensures IsPlace(encoded, pieces[i], CursorAt(pieces, all, i), all[i])
    {
      CursorOfPrefix(pieces, places, place, i);
    }
  }

  lemma {:induction false} SameCover(
      tags: seq<Tag>, pieces: seq<seq<string>>, places: seq<Option<nat>>, place: Option<nat>, i: nat, p: nat)
    requires i < |places| < |pieces| == |tags|
    ensures Covers(tags, pieces, places + [place], i, p) <==> Covers(tags, pieces, places, i, p)
  {
  }

  lemma {:induction false} SameLast(
      tags: seq<Tag>, pieces: seq<seq<string>>, places: seq<Option<nat>>, place: Option<nat>, i: nat, p: nat)
    requires i < |places| < |pieces| == |tags| && CoversLast(tags, pieces, places + [place], i, p)
    ensures CoversLast(tags, pieces, places, i, p)
  {
    SameCover(tags, pieces, places, place, i, p);
    hide Covers;
    forall j | i < j < |places|
      ensures !Covers(tags, pieces, places, j, p)
    {
      SameCover(tags, pieces, places, place, j, p);
    }
  }

  lemma {:induction false} LabelIsKept(
      tags: seq<Tag>, pieces: seq<seq<string>>, places: seq<Option<nat>>, place: Option<nat>, p: nat, shown: Tag)
    requires |places| < |pieces| == |tags| && IsLabel(tags, pieces, places, p, shown)
    requires !Covers(tags, pieces, places + [place], |places|, p)
    ensures IsLabel(tags, pieces, places + [place], p, shown)
  {
    var all := places + [place];
    hide Covers;
    if Uncovered(tags, pieces, all, p) {
      forall i | 0 <= i < |places|
        ensures !Covers(tags, pieces, places, i, p)
      {
        SameCover(tags, pieces, places, place, i, p);
      }
    }
    forall i | 0 <= i < |all| && CoversLast(tags, pieces, all, i, p)
      ensures i < |places| && CoversLast(tags, pieces, places, i, p) && all[i] == places[i]
    {
      assert i != |places|;
      SameLast(tags, pieces, places, place, i, p);
    }
    hide CoversLast, Uncovered;
  }

  lemma {:induction false} LabelIsPainted(
      tags: seq<Tag>, pieces: seq<seq<string>>, places: seq<Option<nat>>, start: nat, p: nat)
    requires |places| < |pieces| == |tags| && tags[|places|].Tagged?
    requires start <= p < start + |pieces[|places|]|
    ensures IsLabel(tags, pieces, places + [Some(start)], p, LabelAt(tags[|places|], p - start))
  {
    assert Covers(tags, pieces, places + [Some(start)], |places|, p);
    hide Covers;
  }

  lemma {:induction false} PaintedAt(labels: seq<Tag>, start: nat, tag: Tag, n: nat, p: nat)
    requires start + n <= |labels| && p < |labels|
    ensures Painted(labels, start, tag, n)[p]
            == if tag.Tagged? && start <= p < start + n then LabelAt(tag, p - start) else labels[p]
  {
    hide LabelAt;
  }

  lemma {:induction false} LabelsArePainted(
      tags: seq<Tag>, pieces: seq<seq<string>>, places: seq<Option<nat>>, labels: seq<Tag>, start: nat)
    requires |places| < |pieces| == |tags| && AreLabels(tags, pieces, places, labels)
    requires start + |pieces[|places|]| <= |labels|
    ensures AreLabels(tags, pieces, places + [Some(start)],
                      Painted(labels, start, tags[|places|], |pieces[|places|]|))
  {
    var n, tag := |places|, tags[|places|];
    var painted := Painted(labels, start, tag, |pieces[n]|);
    forall p | 0 <= p < |painted|
      ensures IsLabel(tags, pieces, places + [Some(start)], p, painted[p])
    {
      PaintedAt(labels, start, tag, |pieces[n]|, p);
      hide IsLabel, Painted, LabelAt;
      if tag.Tagged? && start <= p < start + |pieces[n]| {
        LabelIsPainted(tags, pieces, places, start, p);
      } else {
        LabelIsKept(tags, pieces, places, Some(start), p, labels[p]);
      }
    }
  }

  lemma {:induction false} LabelsStay(
      tags: seq<Tag>, pieces: seq<seq<string>>, places: seq<Option<nat>>, labels: seq<Tag>)
    requires |places| < |pieces| == |tags| && AreLabels(tags, pieces, places, labels)
    ensures AreLabels(tags, pieces, places + [None], labels)
  {
    forall p | 0 <= p < |labels|
      ensures IsLabel(tags, pieces, places + [None], p, labels[p])
    {
      LabelIsKept(tags, pieces, places, None, p, labels[p]);
    }
    hide IsLabel;
  }

  /** One token: nothing for a token without pieces, and otherwise both scans. */
  method AlignToken(encoded: seq<string>, piece: seq<string>, labels: seq<Tag>, tag: Tag, cursor: nat)
    returns (failed: bool, painted: seq<Tag>, next: nat, again: bool, ghost place: Option<nat>)
    requires |labels| == |encoded|
    ensures IsPlace(encoded, piece, cursor, place)
    ensures failed <==> place.Some? && IsDashless(tag)
    ensures place.Some? ==> Occurs(encoded, piece, place.value) && place.value + |piece| <= |labels|
    ensures !failed ==>
              painted == (if place.Some? then Painted(labels, place.value, tag, |piece|) else labels)
              && next == if place.Some? then place.value + |piece| else cursor
    ensures piece == [] ==> !again && place.None?
    ensures piece != [] && Occurs(encoded, piece, cursor) ==> !again && place == Some(cursor)
  {
    hide Painted, FirstFrom, NoneFrom;
    if piece == [] {
      return false, labels, cursor, false, None;
    }
    var matched, start;
    matched, start, painted, again := ScanTwice(encoded, piece, cursor, labels, tag);
    if !matched {
      return false, labels, cursor, again, None;
    }
    return IsDashless(tag), painted, start + |piece|, again, Some(start);
  }

  /**
   The labels of the encoded text: those of the tokens where they are found, a later token's over an earlier one's.
   When tokenising the text gives the source tokens' pieces in order, they are the expansion of the tags, and the
   second scan, from the beginning, is never made.
   */
  method AlignRow(tokenize: string -> seq<string>, rawText: string, sourceTokens: seq<string>, bioTags: seq<Tag>)
    returns (result: Result<seq<Tag>, string>, ghost places: seq<Option<nat>>, ghost rescans: nat)
    ensures result.Failure? <==>
              || |sourceTokens| != |bioTags|
              || exists i :: CannotSplit(tokenize(rawText), Pieces(tokenize, sourceTokens), bioTags, i)
    ensures result.Success? ==> |result.value| == |tokenize(rawText)|
    ensures result.Success? ==>
              var pieces := Pieces(tokenize, sourceTokens);
              && |places| == |pieces| && ArePlaces(tokenize(rawText), pieces, places)
              && AreLabels(bioTags, pieces, places, result.value)
    ensures |sourceTokens| == |bioTags| ==>
              var pieces := Pieces(tokenize, sourceTokens);
              tokenize(rawText) == Flat(pieces, |pieces|) && result.Success? ==>
                rescans == 0 && result.value == Expand(bioTags, pieces, |pieces|)
  {
    hide *;
    rescans, places := 0, [];
    if |sourceTokens| != |bioTags| {
      return Failure("zip() arguments differ in length"), [], 0;
    }
    ghost var pieces := Pieces(tokenize, sourceTokens);
    var encoded := tokenize(rawText);
    ghost var concatenates := encoded == Flat(pieces, |pieces|);
    var labels := seq(|encoded|, _ => OUTSIDE);
    var cursor: nat := 0;
    NothingLaid(encoded, pieces, bioTags, labels);
    for i := 0 to |sourceTokens|
      invariant |labels| == |encoded| && |places| == i && Laid(encoded, pieces, bioTags, places, labels, cursor)
      invariant concatenates ==> rescans == 0 && Aligned(labels, bioTags, pieces, i, cursor)
    {
      var piece := tokenize(sourceTokens[i]);
      assert piece == pieces[i];
      var failed, painted, next, again;
      ghost var place;
      failed, painted, next, again, place := AlignToken(encoded, piece, labels, bioTags[i], cursor);
      rescans := if again then rescans + 1 else rescans;
      if concatenates {
        TokenAligns(encoded, labels, bioTags, pieces, i, cursor, place, again);
      }
      if failed {
        FoundDashless(encoded, pieces, bioTags, i, place.value);
        return Failure("not enough values to unpack"), places, rescans;
      }
      TokenIsLaid(encoded, pieces, bioTags, places, labels, cursor, place);
      labels, cursor, places := painted, next, places + [place];
    }
    if concatenates {
      AllAligned(labels, bioTags, pieces, cursor);
    }
    AllLaid(encoded, pieces, bioTags, places, labels, cursor);
    result := Success(labels);
  }

  lemma {:induction false} NothingLaid(
      encoded: seq<string>, pieces: seq<seq<string>>, tags: seq<Tag>, labels: seq<Tag>)
    requires |pieces| == |tags| && labels == seq(|encoded|, _ => OUTSIDE)
    ensures Laid(encoded, pieces, tags, [], labels, 0) && Aligned(labels, tags, pieces, 0, 0)
    ensures |Flat(pieces, |pieces|)| == Offset(pieces, |pieces|)
  {
    FlatLength(pieces, |pieces|);
    hide Flat;
  }

  lemma {:induction false} AllAligned(labels: seq<Tag>, tags: seq<Tag>, pieces: seq<seq<string>>, cursor: nat)
    requires |tags| == |pieces| && |labels| == Offset(pieces, |pieces|)
    requires Aligned(labels, tags, pieces, |pieces|, cursor)
    ensures labels == Expand(tags, pieces, |pieces|)
  {
    hide Expand;
  }

  /** Where the text's pieces are those of the tokens, a token is found at the cursor. */
  lemma {:induction false} TokenAligns(
      encoded: seq<string>, labels: seq<Tag>, tags: seq<Tag>, pieces: seq<seq<string>>, i: nat, cursor: nat,
      place: Option<nat>, again: bool)
    requires i < |tags| == |pieces| && encoded == Flat(pieces, |pieces|) && |labels| == |encoded|
    requires Aligned(labels, tags, pieces, i, cursor)
    requires pieces[i] == [] ==> !again && place.None?
    requires pieces[i] != [] && Occurs(encoded, pieces[i], cursor) ==> !again && place == Some(cursor)
    ensures !again && cursor + |pieces[i]| <= |labels|
    ensures place == if pieces[i] == [] then None else Some(cursor)
    ensures Aligned(if place.Some? then Painted(labels, cursor, tags[i], |pieces[i]|) else labels,
                    tags, pieces, i + 1, if place.Some? then cursor + |pieces[i]| else cursor)
  {
    hide Flat, Aligned, Painted, Occurs;
    NextIsAtCursor(encoded, labels, tags, pieces, i, cursor);
    PaintingAligns(labels, tags, pieces, i, cursor);
    NothingPainted(labels, cursor, tags[i]);
  }

  lemma {:induction false} TokenIsLaid(
      encoded: seq<string>, pieces: seq<seq<string>>, tags: seq<Tag>, places: seq<Option<nat>>, labels: seq<Tag>,
      cursor: nat, place: Option<nat>)
    requires |places| < |pieces| == |tags| && |labels| == |encoded|
    requires Laid(encoded, pieces, tags, places, labels, cursor)
    requires IsPlace(encoded, pieces[|places|], cursor, place)
    requires place.Some? ==>
               Occurs(encoded, pieces[|places|], place.value) && place.value + |pieces[|places|]| <= |labels|
               && !IsDashless(tags[|places|])
    ensures var n := |pieces[|places|]|;
            Laid(encoded, pieces, tags, places + [place],
                 if place.Some? then Painted(labels, place.value, tags[|places|], n) else labels,
                 if place.Some? then place.value + n else cursor)
  {
    hide Laid, IsPlace, Painted, Occurs, IsDashless;
    if place.Some? {
      Found(encoded, pieces, tags, places, labels, cursor, place.value);
    } else {
      NotFound(encoded, pieces, tags, places, labels, cursor);
    }
  }

  /** The tokens read are placed and their labels set, and none of them failed. */
  ghost predicate Laid(
      encoded: seq<string>, pieces: seq<seq<string>>, tags: seq<Tag>, places: seq<Option<nat>>, labels: seq<Tag>,
      cursor: nat)
  {
    && |places| <= |pieces| == |tags|
    && ArePlaces(encoded, pieces, places) && cursor == CursorAt(pieces, places, |places|)
    && AreLabels(tags, pieces, places, labels)
    && forall k :: 0 <= k < |places| ==> !CannotSplit(encoded, pieces, tags, k)
  }

  lemma {:induction false} AllLaid(
      encoded: seq<string>, pieces: seq<seq<string>>, tags: seq<Tag>, places: seq<Option<nat>>, labels: seq<Tag>,
      cursor: nat)
    requires |places| == |pieces| == |tags| && Laid(encoded, pieces, tags, places, labels, cursor)
    ensures ArePlaces(encoded, pieces, places) && AreLabels(tags, pieces, places, labels)
    ensures !exists i :: CannotSplit(encoded, pieces, tags, i)
  {
    hide ArePlaces, AreLabels;
  }

  lemma {:induction false} NotFound(
      encoded: seq<string>, pieces: seq<seq<string>>, tags: seq<Tag>, places: seq<Option<nat>>, labels: seq<Tag>,
      cursor: nat)
    requires |places| < |pieces| == |tags| && Laid(encoded, pieces, tags, places, labels, cursor)
    requires pieces[|places|] == [] || IsPlace(encoded, pieces[|places|], cursor, None)
    ensures Laid(encoded, pieces, tags, places + [None], labels, cursor)
  {
    assert IsPlace(encoded, pieces[|places|], cursor, None);
    hide ArePlaces, AreLabels;
    PlaceIsAdded(encoded, pieces, places, None);
    LabelsStay(tags, pieces, places, labels);
    CursorOfPrefix(pieces, places, None, |places|);
  }

  lemma {:induction false} Found(
      encoded: seq<string>, pieces: seq<seq<string>>, tags: seq<Tag>, places: seq<Option<nat>>, labels: seq<Tag>,
      cursor: nat, start: nat)
    requires |places| < |pieces| == |tags| && |labels| == |encoded|
    requires Laid(encoded, pieces, tags, places, labels, cursor)
    requires IsPlace(encoded, pieces[|places|], cursor, Some(start)) && Occurs(encoded, pieces[|places|], start)
    requires !IsDashless(tags[|places|])
    ensures Laid(encoded, pieces, tags, places + [Some(start)],
                 Painted(labels, start, tags[|places|], |pieces[|places|]|), start + |pieces[|places|]|)
  {
    hide ArePlaces, AreLabels, IsPlace;
    PlaceIsAdded(encoded, pieces, places, Some(start));
    LabelsArePainted(tags, pieces, places, labels, start);
  }

  /** A tag without a dash whose token is found: splitting it raises. */
  ghost predicate CannotSplit(encoded: seq<string>, pieces: seq<seq<string>>, tags: seq<Tag>, i: int) {
    && 0 <= i < |pieces| && i < |tags| && pieces[i] != [] && IsDashless(tags[i])
    && exists k: nat :: Occurs(encoded, pieces[i], k)
  }

  lemma {:induction false} FoundDashless(encoded: seq<string>, pieces: seq<seq<string>>, tags: seq<Tag>, i: nat, k: nat)
    requires i < |pieces| && i < |tags| && pieces[i] != [] && IsDashless(tags[i]) && Occurs(encoded, pieces[i], k)
    ensures CannotSplit(encoded, pieces, tags, i)
  {
  }

  ghost function Pieces(tokenize: string -> seq<string>, sourceTokens: seq<string>): (pieces: seq<seq<string>>)
    ensures |pieces| == |sourceTokens|
    ensures forall i :: 0 <= i < |pieces| ==> pieces[i] == tokenize(sourceTokens[i])
  {
    seq(|sourceTokens|, i requires 0 <= i < |sourceTokens| => tokenize(sourceTokens[i]))
  }

  lemma {:induction false} NothingPainted(labels: seq<Tag>, start: nat, tag: Tag)
    requires start <= |labels|
    ensures Painted(labels, start, tag, 0) == labels
  {
    assert labels[..start] + Labels(tag, 0) + labels[start + 0..] == labels;
  }
}
