/**
 BIO tag sequences: the validity check of `ml-service/app/bio_eval_metrics.py`, the decoder of
 `ml-service/tools/train_bio_bundle.py`, the field reader of `ml-service/app/bio_training_dataset.py`,
 and the encoding they all presuppose.
 */
module BioTags {

  /** "O" and every other tag without a dash are `Plain`; any other tag is split at its first dash. */
  datatype Tag = Plain(text: string) | Tagged(prefix: string, core: string)

  const OUTSIDE := Plain("O")

  /** Neither "O" nor with a dash: the decoder takes it for "O", the field reader and the aligner cannot split it. */
  predicate IsDashless(t: Tag) {
    t.Plain? && t != OUTSIDE
  }

  /** A labelled half-open span of token positions. */
  datatype Entity = Entity(core: string, start: nat, end: nat)

  predicate IsInside(t: Tag, core: string) {
    t == Tagged("I", core)
  }

  /** The tags the pipeline produces: O, B-c and I-c. */
  predicate OnlyBIO(tags: seq<Tag>) {
    forall i :: 0 <= i < |tags| ==>
      if tags[i].Tagged? then tags[i].prefix == "B" || tags[i].prefix == "I" else tags[i] == OUTSIDE
  }

  // ----- What a tag sequence denotes -----

  /** An entity begins where a tag does not continue the one before it. */
  predicate Starts(tags: seq<Tag>, i: nat)
    requires i < |tags|
  {
    && tags[i].Tagged?
    && (tags[i].prefix == "B" || i == 0 || tags[i - 1].Plain? || tags[i - 1].core != tags[i].core)
  }

  predicate Continues(tags: seq<Tag>, i: nat)
    requires i < |tags|
  {
    tags[i].Tagged? && !Starts(tags, i)
  }

  /** Where the entity that holds position `i` ends. */
  function EndOf(tags: seq<Tag>, i: nat): (end: nat)
    requires i < |tags|
    ensures i < end <= |tags|
    decreases |tags| - i
  {
    if i + 1 < |tags| && Continues(tags, i + 1) then EndOf(tags, i + 1) else i + 1
  }

  /** The entities that begin at position `i` or later, in order. */
  function Entities(tags: seq<Tag>, i: nat): seq<Entity>
    requires i <= |tags|
    decreases |tags| - i
  {
    if i == |tags| then []
    else (if Starts(tags, i) then [Entity(tags[i].core, i, EndOf(tags, i))] else []) + Entities(tags, i + 1)
  }

  /** An I-c needs a B-c or I-c right before it. */
  predicate ValidAt(tags: seq<Tag>, i: nat)
    requires i < |tags|
  {
    tags[i].Tagged? && tags[i].prefix == "I" ==>
      i > 0 && (tags[i - 1] == Tagged("B", tags[i].core) || tags[i - 1] == Tagged("I", tags[i].core))
  }

  predicate Valid(tags: seq<Tag>) {
    forall i :: 0 <= i < |tags| ==> ValidAt(tags, i)
  }

  // ----- Encoding -----

  function TagAt(es: seq<Entity>, k: nat): Tag {
    if es == [] then OUTSIDE
    else if k == es[0].start && k < es[0].end then Tagged("B", es[0].core)
    else if es[0].start < k < es[0].end then Tagged("I", es[0].core)
    else TagAt(es[1..], k)
  }

  function Encode(es: seq<Entity>, n: nat): (tags: seq<Tag>)
    ensures |tags| == n
  {
    seq(n, k requires 0 <= k < n => TagAt(es, k))
  }

  /** Non-empty spans within the first `n` positions, none before `i`, in order and without overlap. */
  ghost predicate Ordered(es: seq<Entity>, i: nat, n: nat) {
    es != [] ==> i <= es[0].start < es[0].end <= n && Ordered(es[1..], es[0].end, n)
  }

  // ----- The shape of the decoding -----

  lemma {:induction false} EndOfSpan(tags: seq<Tag>, i: nat)
    requires i < |tags|
    ensures forall k :: i < k < EndOf(tags, i) ==> Continues(tags, k)
    ensures EndOf(tags, i) < |tags| ==> !Continues(tags, EndOf(tags, i))
    decreases |tags| - i
  {
    if i + 1 < |tags| && Continues(tags, i + 1) {
      EndOfSpan(tags, i + 1);
    }
  }

  /** The end of a span is determined by where the continuing tags stop. */
  lemma {:induction false} EndOfIs(tags: seq<Tag>, i: nat, end: nat)
    requires i < end <= |tags|
    requires forall k :: i < k < end ==> Continues(tags, k)
    requires end < |tags| ==> !Continues(tags, end)
    ensures EndOf(tags, i) == end
    decreases |tags| - i
  {
    if i + 1 < end {
      EndOfIs(tags, i + 1, end);
    }
  }

  /** Positions at which nothing starts can be skipped. */
  lemma {:induction false} SkipTo(tags: seq<Tag>, i: nat, j: nat)
    requires i <= j <= |tags|
    requires forall k :: i <= k < j ==> !Starts(tags, k)
    ensures Entities(tags, i) == Entities(tags, j)
    decreases j - i
  {
    if i < j {
      SkipTo(tags, i + 1, j);
    }
  }

  /** One entity, then those after its end. */
  lemma {:induction false} NextEntity(tags: seq<Tag>, i: nat)
    requires i < |tags| && Starts(tags, i)
    ensures Entities(tags, i) == [Entity(tags[i].core, i, EndOf(tags, i))] + Entities(tags, EndOf(tags, i))
  {
    EndOfSpan(tags, i);
    forall k | i < k < EndOf(tags, i)
      ensures !Starts(tags, k)
    {
      assert Continues(tags, k);
    }
    SkipTo(tags, i + 1, EndOf(tags, i));
  }

  /** The spans come in order, do not overlap and are not empty. */
  lemma {:induction false} EntitiesAreOrdered(tags: seq<Tag>, i: nat)
    requires i <= |tags|
    ensures Ordered(Entities(tags, i), i, |tags|)
    decreases |tags| - i
  {
    if i < |tags| {
      if Starts(tags, i) {
        NextEntity(tags, i);
        EntitiesAreOrdered(tags, EndOf(tags, i));
        var es := Entities(tags, i);
        assert es[1..] == Entities(tags, EndOf(tags, i));
      } else {
        EntitiesAreOrdered(tags, i + 1);
        assert Entities(tags, i) == Entities(tags, i + 1);
      }
    }
  }

  /** Every span carries its label throughout and could not be longer at either end. */
  lemma {:induction false} EntitiesAreMaximal(tags: seq<Tag>, i: nat, e: Entity)
    requires i <= |tags| && OnlyBIO(tags) && e in Entities(tags, i)
    ensures i <= e.start < e.end <= |tags| && Starts(tags, e.start) && tags[e.start].core == e.core
    ensures forall k :: e.start < k < e.end ==> IsInside(tags[k], e.core)
    ensures e.end < |tags| ==> !IsInside(tags[e.end], e.core)
    decreases |tags| - i
  {
    if i < |tags| {
      if e in Entities(tags, i + 1) {
        EntitiesAreMaximal(tags, i + 1, e);
      } else {
        EndOfSpan(tags, i);
        SpanLabels(tags, i, e.end);
      }
    }
  }

  lemma {:induction false} SpanLabels(tags: seq<Tag>, i: nat, end: nat)
    requires OnlyBIO(tags) && i < end <= |tags| && tags[i].Tagged?
    requires forall k :: i < k < end ==> Continues(tags, k)
    ensures forall k :: i < k < end ==> IsInside(tags[k], tags[i].core)
    ensures tags[end - 1].Tagged? && tags[end - 1].core == tags[i].core
    decreases end
  {
    if i + 1 < end {
      SpanLabels(tags, i, end - 1);
      assert Continues(tags, end - 1);
    }
  }

  // ----- Encoding and decoding are inverse -----

  /** A decoded position is read back with the core of its tag. */
  lemma {:induction false} TagInSpan(tags: seq<Tag>, i: nat, k: nat)
    requires i <= k < |tags| && OnlyBIO(tags)
    requires i == 0 || (i < |tags| && !Continues(tags, i))
    ensures TagAt(Entities(tags, i), k) ==
            if tags[k].Plain? then OUTSIDE
            else Tagged(if Starts(tags, k) then "B" else "I", tags[k].core)
    decreases |tags| - i
  {
    if Starts(tags, i) {
      var end := EndOf(tags, i);
      NextEntity(tags, i);
      EndOfSpan(tags, i);
      SpanLabels(tags, i, end);
      assert Entities(tags, i)[1..] == Entities(tags, end);
      if k >= end {
        TagInSpan(tags, end, k);
      }
    } else {
      assert Entities(tags, i) == Entities(tags, i + 1);
      EntitiesAreOrdered(tags, i + 1);
      if k == i {
        BeforeAll(Entities(tags, i), i + 1, |tags|, k);
      } else {
        TagInSpan(tags, i + 1, k);
      }
    }
  }

  lemma {:induction false} BeforeAll(es: seq<Entity>, i: nat, n: nat, k: nat)
    requires Ordered(es, i, n) && k < i
    ensures TagAt(es, k) == OUTSIDE
    decreases |es|
  {
    if es != [] {
      BeforeAll(es[1..], es[0].end, n, k);
    }
  }

  /** Re-encoding the decoded entities gives the tags back exactly when the validity check accepts them. */
  lemma {:induction false} EncodeDecode(tags: seq<Tag>)
    requires OnlyBIO(tags)
    ensures Encode(Entities(tags, 0), |tags|) == tags <==> Valid(tags)
  {
    var back := Encode(Entities(tags, 0), |tags|);
    forall k | 0 <= k < |tags|
      ensures back[k] == tags[k] <==> (tags[k].Tagged? && Starts(tags, k) ==> tags[k].prefix == "B")
    {
      TagInSpan(tags, 0, k);
    }
    hide TagAt, Encode, Entities;
    if Valid(tags) {
      forall k | 0 <= k < |tags|
        ensures back[k] == tags[k]
      {
        assert ValidAt(tags, k);
      }
    }
    if back == tags {
      forall k | 0 <= k < |tags|
        ensures ValidAt(tags, k)
      {
        assert back[k] == tags[k];
      }
    }
  }

  /** From position `i` on, `tags` is the encoding of `es`. */
  ghost predicate Encodes(tags: seq<Tag>, es: seq<Entity>, i: nat) {
    forall k :: i <= k < |tags| ==> tags[k] == TagAt(es, k)
  }

  lemma {:induction false} DecodeFrom(tags: seq<Tag>, es: seq<Entity>, i: nat)
    requires i <= |tags| && Ordered(es, i, |tags|) && Encodes(tags, es, i)
    ensures Entities(tags, i) == es
    decreases |tags| - i
  {
    if i < |tags| {
      assert tags[i] == TagAt(es, i);
      if es != [] && es[0].start == i {
        EncodedSpan(tags, es, i);
        NextEntity(tags, i);
        DecodeFrom(tags, es[1..], es[0].end);
      } else {
        if es != [] {
          BeforeAll(es[1..], es[0].end, |tags|, i);
        }
        DecodeFrom(tags, es, i + 1);
      }
    }
  }

  lemma {:induction false} EncodedSpan(tags: seq<Tag>, es: seq<Entity>, i: nat)
    requires es != [] && es[0].start == i && Ordered(es, i, |tags|) && Encodes(tags, es, i)
    ensures Starts(tags, i) && tags[i].core == es[0].core && EndOf(tags, i) == es[0].end
    ensures Encodes(tags, es[1..], es[0].end)
  {
    var end := es[0].end;
    assert tags[i] == TagAt(es, i);
    forall k | i < k < end
      ensures tags[k] == Tagged("I", es[0].core)
    {
      assert tags[k] == TagAt(es, k);
    }
    forall k | i < k < end
      ensures Continues(tags, k)
    {
      assert tags[k] == Tagged("I", es[0].core);
      assert k - 1 == i || tags[k - 1] == Tagged("I", es[0].core);
    }
    forall k | end <= k < |tags|
      ensures tags[k] == TagAt(es[1..], k)
    {
      assert tags[k] == TagAt(es, k);
    }
    if end < |tags| {
      FirstOfOrdered(es[1..], end, |tags|);
      assert tags[end] == TagAt(es[1..], end);
    }
    EndOfIs(tags, i, end);
  }

  /** The first position an ordered list leaves room for is outside every span or begins one. */
  lemma {:induction false} FirstOfOrdered(es: seq<Entity>, i: nat, n: nat)
    requires Ordered(es, i, n)
    ensures TagAt(es, i).Plain? || TagAt(es, i).prefix == "B"
  {
    if es != [] && es[0].start != i {
      BeforeAll(es[1..], es[0].end, n, i);
    }
  }

  /** Decoding an encoded list of entities gives the list back. */
  lemma {:induction false} DecodeEncode(es: seq<Entity>, n: nat)
    requires Ordered(es, 0, n)
    ensures Entities(Encode(es, n), 0) == es
  {
    DecodeFrom(Encode(es, n), es, 0);
  }
}
