/** Where the clusterer of `frontend/shared/clustering.ts` puts a reference, in the program's own numbers. */
module ClusterLaws {
  import opened Wrappers
  import opened References
  import opened Clustering

  // ----- Which reference an id stands for -----

  ghost predicate LastWithId(refs: seq<Reference>, id: string, k: nat) {
    && k < |refs| && refs[k].id == id
    && forall j :: k < j < |refs| ==> refs[j].id != id
  }

  /** Of references that share an id, the last one's texts are those compared. */
  lemma {:induction false} MetaIsLast(refs: seq<Reference>, id: string, k: nat)
    requires LastWithId(refs, id, k)
    ensures MetaOf(refs, id) == Some(refs[k])
    decreases |refs|
  {
    var n := |refs| - 1;
    if k < n {
      assert refs[n].id != id;
      assert LastWithId(refs[..n], id, k);
      MetaIsLast(refs[..n], id, k);
    }
  }

  // ----- The similarity of two references -----

  /** A score of the two texts where both are there, and 100 otherwise. */
  function TextScore(ratio: Ratio, a: string, b: string): real {
    if a == "" || b == "" then 100.0 else ratio(a, b) as real
  }

  /** Five points for each year between two different years, up to 50. */
  function YearPenalty(a: Reference, b: Reference): real {
    if a.year == "" || b.year == "" || a.year == b.year || a.yearNumber.None? || b.yearNumber.None? then 0.0
    else
      var years := if a.yearNumber.value >= b.yearNumber.value then a.yearNumber.value - b.yearNumber.value
                   else b.yearNumber.value - a.yearNumber.value;
      if years >= 10 then 50.0 else 5.0 * years as real
  }

  /** Half the score of the titles, three tenths of that of the authors and two of that of the journals. */
  function Score(ratio: Ratio, meta: Reference, memberMeta: Reference, ref: Reference, member: Reference): real {
    0.5 * ratio(meta.normTitle, memberMeta.normTitle) as real
    + 0.3 * TextScore(ratio, meta.authStr, memberMeta.authStr)
    + 0.2 * TextScore(ratio, meta.jourStr, memberMeta.jourStr)
    - YearPenalty(ref, member)
  }

  /** The model's integers are ten times the program's scores. */
  lemma {:induction false} TenTimesTheScore(
      ratio: Ratio, meta: Reference, memberMeta: Reference, ref: Reference, member: Reference)
    ensures Similarity10(ratio, meta, memberMeta, ref, member) as real
         == 10.0 * Score(ratio, meta, memberMeta, ref, member)
  {
  }

  // ----- Where a reference goes -----

  /** Both references have a title. */
  predicate Titled(input: Input, i: nat, m: nat)
    requires i < |input.refs| && m < |input.refs|
  {
    var a, b := MetaOf(input.refs, input.refs[i].id), MetaOf(input.refs, input.refs[m].id);
    a.Some? && b.Some? && a.value.normTitle != "" && b.value.normTitle != ""
  }

  predicate TitlesAgree(input: Input, i: nat, m: nat)
    requires i < |input.refs| && m < |input.refs|
  {
    && Titled(input, i, m)
    && var a, b := MetaOf(input.refs, input.refs[i].id).value, MetaOf(input.refs, input.refs[m].id).value;
       input.ratio(a.normTitle, b.normTitle) >= 85
  }

  predicate AtThreshold(input: Input, i: nat, m: nat)
    requires i < |input.refs| && m < |input.refs|
  {
    Titled(input, i, m)
    && 10.0 * Score(
         input.ratio, MetaOf(input.refs, input.refs[i].id).value, MetaOf(input.refs, input.refs[m].id).value,
         input.refs[i], input.refs[m]) >= input.threshold10 as real
  }

  predicate HasRoom(groups: seq<seq<nat>>, g: nat) {
    g < |groups| && |groups[g]| < 5
  }

  /** The cluster has room and a member with the reference's work key. */
  ghost predicate KeyFits(input: Input, groups: seq<seq<nat>>, i: nat, g: nat)
    requires i < |input.refs|
  {
    && HasRoom(groups, g) && input.refs[i].workKey != ""
    && exists m :: m in groups[g] && m < |input.refs| && input.refs[m].workKey == input.refs[i].workKey
  }

  /** The cluster has room, a member with a close title and one, perhaps another, at the threshold. */
  ghost predicate TextFits(input: Input, groups: seq<seq<nat>>, i: nat, g: nat)
    requires i < |input.refs|
  {
    && HasRoom(groups, g)
    && (exists m :: m in groups[g] && m < |input.refs| && TitlesAgree(input, i, m))
    && (input.threshold10 <= 0 || exists m :: m in groups[g] && m < |input.refs| && AtThreshold(input, i, m))
  }

  /** `after` is `before` with the reference at the end of cluster `g`. */
  predicate Joins(before: seq<seq<nat>>, after: seq<seq<nat>>, i: nat, g: nat) {
    g < |before| && |after| == |before| && after[g] == before[g] + [i]
    && forall h :: 0 <= h < |before| && h != g ==> after[h] == before[h]
  }

  predicate Founds(before: seq<seq<nat>>, after: seq<seq<nat>>, i: nat) {
    after == before + [[i]]
  }

  /**
   A reference goes to the cluster with room that has its work key; if there is none, to the first cluster that its
   texts fit; and if there is none of these either, it founds a cluster.
   */
  ghost predicate Placed(input: Input, before: seq<seq<nat>>, after: seq<seq<nat>>, i: nat)
    requires i < |input.refs|
  {
    || (exists g :: KeyFits(input, before, i, g) && Joins(before, after, i, g))
    || ((forall g :: !KeyFits(input, before, i, g))
        && ((exists g :: TextFits(input, before, i, g) && Joins(before, after, i, g)
                         && forall h: nat :: h < g ==> !TextFits(input, before, i, h))
            || ((forall g :: !TextFits(input, before, i, g)) && Founds(before, after, i))))
  }

  lemma {:induction false} SameTests(input: Input, i: nat, m: nat)
    requires i < |input.refs| && m < |input.refs|
    ensures Titled(input, i, m) <==> Comparable(input, i, m)
    ensures TitlesAgree(input, i, m) <==> Comparable(input, i, m) && TitleOf(input, i, m) >= 85
    ensures AtThreshold(input, i, m) <==> Comparable(input, i, m) && SimilarityOf(input, i, m) >= input.threshold10
  {
    assert Titled(input, i, m) <==> Comparable(input, i, m);
    if Comparable(input, i, m) {
      var a, b := MetaOf(input.refs, input.refs[i].id).value, MetaOf(input.refs, input.refs[m].id).value;
      TenTimesTheScore(input.ratio, a, b, input.refs[i], input.refs[m]);
      hide Score, Similarity10, MetaOf;
    }
  }

  lemma {:induction false} AcceptsIsFit(input: Input, groups: seq<seq<nat>>, i: nat, g: nat)
    requires i < |input.refs| && InRange(input, groups)
    ensures TextFits(input, groups, i, g) <==> g < |groups| && |groups[g]| < CAP && Accepts(input, groups[g], i)
  {
    if g < |groups| {
      forall m | m in groups[g]
        ensures m < |input.refs|
        ensures TitlesAgree(input, i, m) <==> Comparable(input, i, m) && TitleOf(input, i, m) >= 85
        ensures AtThreshold(input, i, m)
                <==> Comparable(input, i, m) && SimilarityOf(input, i, m) >= input.threshold10
      {
        assert Within(input, groups[g]);
        SameTests(input, i, m);
      }
      hide TitlesAgree, AtThreshold, Comparable, TitleOf, SimilarityOf;
    }
  }

  lemma {:induction false} KeyHasRoomIsFit(input: Input, st: State, i: nat, n: nat)
    requires i < |input.refs| && Invariant(input, st, n)
    ensures KeyHasRoom(st, input.refs[i].workKey) <==> exists g :: KeyFits(input, st.groups, i, g)
    ensures KeyHasRoom(st, input.refs[i].workKey) ==> KeyFits(input, st.groups, i, st.index[input.refs[i].workKey])
  {
    var key := input.refs[i].workKey;
    Capped(st.groups, n);
    hide Partition, AllJustified;
    forall g | KeyFits(input, st.groups, i, g)
      ensures KeyHasRoom(st, key)
    {
      assert InRange(input, st.groups);
      assert Holds(input, st.groups, g, key) && !Full(st.groups, g);
    }
    if KeyHasRoom(st, key) {
      IndexedInRange(input, st, key);
      assert KeyFits(input, st.groups, i, st.index[key]);
    }
  }

  lemma {:induction false} ScanIsPlaced(input: Input, st: State, i: nat)
    requires i < |input.refs| && Invariant(input, st, i)
    requires !KeyHasRoom(st, input.refs[i].workKey) && forall g :: !KeyFits(input, st.groups, i, g)
    ensures Placed(input, st.groups, Place(input, st, i).groups, i)
  {
    var before, after := st.groups, Place(input, st, i).groups;
    assert InRange(input, before);
    forall g: nat
      ensures TextFits(input, before, i, g) <==> g < |before| && |before[g]| < CAP && Accepts(input, before[g], i)
    {
      AcceptsIsFit(input, before, i, g);
    }
    hide TextFits, KeyFits, Accepts, IndexInvariant, Partition, AllJustified, InRange, Within;
    match FirstAccepting(input, before, i, 0)
    case Some(g) =>
      assert Joins(before, after, i, g);
      assert forall h: nat :: h < g ==> !TextFits(input, before, i, h);
    case None =>
      assert Founds(before, after, i);
  }

  lemma {:induction false} PlaceIsPlaced(input: Input, st: State, i: nat)
    requires i < |input.refs| && Invariant(input, st, i)
    ensures Placed(input, st.groups, Place(input, st, i).groups, i)
  {
    var key := input.refs[i].workKey;
    var before := st.groups;
    KeyHasRoomIsFit(input, st, i, i);
    assert InRange(input, before);
    hide TextFits, KeyFits, Accepts, IndexInvariant, Partition, AllJustified, InRange, Within;
    if KeyHasRoom(st, key) {
      assert Joins(before, Place(input, st, i).groups, i, st.index[key]);
    } else {
      ScanIsPlaced(input, st, i);
    }
  }

  /** So every reference is placed, in every run. */
  lemma {:induction false} RunPlaces(input: Input, n: nat)
    requires n < |input.refs|
    ensures Placed(input, Run(input, n).groups, Run(input, n + 1).groups, n)
  {
    RunKeeps(input, n);
    RunStep(input, n + 1);
    hide Placed, Run, Place, Invariant;
    PlaceIsPlaced(input, Run(input, n), n);
  }

  /** There is never a choice: what comes after a placement is determined by what was before. */
  lemma {:induction false} PlacedIsOne(
      input: Input, before: seq<seq<nat>>, after: seq<seq<nat>>, other: seq<seq<nat>>, n: nat)
    requires n < |input.refs| && before == Run(input, n).groups
    requires Placed(input, before, after, n) && Placed(input, before, other, n)
    ensures after == other
  {
    OneKeyFits(input, n);
    hide KeyFits, TextFits, Run;
    if exists g :: KeyFits(input, before, n, g) {
      var g :| KeyFits(input, before, n, g) && Joins(before, after, n, g);
      var h :| KeyFits(input, before, n, h) && Joins(before, other, n, h);
      assert g == h;
    } else if exists g :: TextFits(input, before, n, g) {
      var g :| TextFits(input, before, n, g) && Joins(before, after, n, g)
               && forall k: nat :: k < g ==> !TextFits(input, before, n, k);
      var h :| TextFits(input, before, n, h) && Joins(before, other, n, h)
               && forall k: nat :: k < h ==> !TextFits(input, before, n, k);
      assert g == h;
    }
  }

  lemma {:induction false} OneKeyFits(input: Input, n: nat)
    requires n < |input.refs|
    ensures var groups := Run(input, n).groups;
            forall g, h :: KeyFits(input, groups, n, g) && KeyFits(input, groups, n, h) ==> g == h
  {
    RunKeeps(input, n);
    var st := Run(input, n);
    var key := input.refs[n].workKey;
    assert InRange(input, st.groups);
    forall g | KeyFits(input, st.groups, n, g)
      ensures key in st.index && g == st.index[key]
    {
      assert Holds(input, st.groups, g, key) && !Full(st.groups, g);
    }
  }
}
