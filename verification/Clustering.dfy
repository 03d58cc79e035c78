/**
 The greedy, capped clusterer of `frontend/shared/clustering.ts`, as a function of the references placed so far.

 A cluster is the list of its members' positions in the input.  `ClusterCitations` in ClusterLoop.dfy is
 the procedure; it is proved to compute `Run`.
 */
module Clustering {
  import opened Wrappers
  import opened References

  const CAP: nat := 5
  const TITLE_FLOOR: int := 85

  /** `fuzzball.token_set_ratio`. */
  type Ratio = (string, string) -> int

  /** The references, the similarity measure, and ten times the similarity threshold. */
  datatype Input = Input(refs: seq<Reference>, ratio: Ratio, threshold10: int)

  // ----- Similarity -----

  function Abs(x: int): int {
    if x < 0 then -x else x
  }

  function TitleScore(ratio: Ratio, a: Reference, b: Reference): int {
    ratio(a.normTitle, b.normTitle)
  }

  /** Ten times the weighted similarity of two looked-up references; `ref` and `member` give the years. */
  function Similarity10(ratio: Ratio, meta: Reference, memberMeta: Reference, ref: Reference, member: Reference): int {
    var auth := if meta.authStr != "" && memberMeta.authStr != "" then ratio(meta.authStr, memberMeta.authStr) else 100;
    var jour := if meta.jourStr != "" && memberMeta.jourStr != "" then ratio(meta.jourStr, memberMeta.jourStr) else 100;
    var base := TitleScore(ratio, meta, memberMeta) * 5 + auth * 3 + jour * 2;
    if ref.year != "" && member.year != "" && ref.year != member.year && ref.yearNumber.Some?
      && member.yearNumber.Some? then
      var delta := Abs(ref.yearNumber.value - member.yearNumber.value);
      base - 10 * (if delta * 5 < 50 then delta * 5 else 50)
    else base
  }

  /** Both titles are present, so the two references are compared at all. */
  predicate Comparable(input: Input, i: nat, m: nat)
    requires i < |input.refs| && m < |input.refs|
  {
    var a, b := MetaOf(input.refs, input.refs[i].id), MetaOf(input.refs, input.refs[m].id);
    a.Some? && b.Some? && a.value.normTitle != "" && b.value.normTitle != ""
  }

  function TitleOf(input: Input, i: nat, m: nat): int
    requires i < |input.refs| && m < |input.refs| && Comparable(input, i, m)
  {
    TitleScore(input.ratio, MetaOf(input.refs, input.refs[i].id).value, MetaOf(input.refs, input.refs[m].id).value)
  }

  function SimilarityOf(input: Input, i: nat, m: nat): int
    requires i < |input.refs| && m < |input.refs| && Comparable(input, i, m)
  {
    Similarity10(input.ratio, MetaOf(input.refs, input.refs[i].id).value, MetaOf(input.refs, input.refs[m].id).value,
      input.refs[i], input.refs[m])
  }

  predicate Within(input: Input, members: seq<nat>) {
    forall k :: 0 <= k < |members| ==> members[k] < |input.refs|
  }

  /**
   Reference `i` is similar enough to the cluster: one member has a close title, and one, perhaps another,
   is at the threshold.
   */
  predicate Accepts(input: Input, members: seq<nat>, i: nat)
    requires i < |input.refs| && Within(input, members)
  {
    && (exists m :: m in members && Comparable(input, i, m) && TitleOf(input, i, m) >= TITLE_FLOOR)
    && (input.threshold10 <= 0
        || exists m :: m in members && Comparable(input, i, m) && SimilarityOf(input, i, m) >= input.threshold10)
  }

  // ----- Placing one reference -----

  /** The clusters so far, and the index from work keys to cluster numbers. */
  datatype State = State(groups: seq<seq<nat>>, index: map<string, nat>)

  predicate InRange(input: Input, groups: seq<seq<nat>>) {
    forall g :: 0 <= g < |groups| ==> Within(input, groups[g])
  }

  /** The first cluster from number `g` on that has room and accepts reference `i`. */
  function FirstAccepting(input: Input, groups: seq<seq<nat>>, i: nat, g: nat): (r: Option<nat>)
    requires i < |input.refs| && InRange(input, groups) && g <= |groups|
    ensures r.Some? ==> g <= r.value < |groups| && |groups[r.value]| < CAP && Accepts(input, groups[r.value], i)
    ensures forall h :: g <= h < (if r.Some? then r.value else |groups|) ==>
              |groups[h]| >= CAP || !Accepts(input, groups[h], i)
    decreases |groups| - g
  {
    if g == |groups| then None
    else if |groups[g]| < CAP && Accepts(input, groups[g], i) then Some(g)
    else FirstAccepting(input, groups, i, g + 1)
  }

  predicate KeyHasRoom(st: State, key: string) {
    key != "" && key in st.index && st.index[key] < |st.groups| && |st.groups[st.index[key]]| < CAP
  }

  function Join(groups: seq<seq<nat>>, g: nat, i: nat): seq<seq<nat>>
    requires g < |groups|
  {
    groups[g := groups[g] + [i]]
  }

  function Indexed(index: map<string, nat>, key: string, g: nat): map<string, nat> {
    if key != "" then index[key := g] else index
  }

  function Place(input: Input, st: State, i: nat): State
    requires i < |input.refs| && InRange(input, st.groups)
  {
    var key := input.refs[i].workKey;
    if KeyHasRoom(st, key) then State(Join(st.groups, st.index[key], i), st.index)
    else
      match FirstAccepting(input, st.groups, i, 0)
      case Some(g) => State(Join(st.groups, g, i), Indexed(st.index, key, g))
      case None => State(st.groups + [[i]], Indexed(st.index, key, |st.groups|))
  }

  /** The state after the first `n` references. */
  function Run(input: Input, n: nat): (st: State)
    requires n <= |input.refs|
    ensures InRange(input, st.groups)
  {
    if n == 0 then State([], map[]) else Place(input, Run(input, n - 1), n - 1)
  }

  // ----- The index invariant -----

  predicate HoldsKey(input: Input, members: seq<nat>, key: string)
    requires Within(input, members)
  {
    exists m :: m in members && input.refs[m].workKey == key
  }

  ghost predicate Holds(input: Input, groups: seq<seq<nat>>, g: nat, key: string) {
    g < |groups| && Within(input, groups[g]) && HoldsKey(input, groups[g], key)
  }

  ghost predicate Full(groups: seq<seq<nat>>, g: nat) {
    g < |groups| && |groups[g]| == CAP
  }

  /**
   A work key is in the index exactly when some cluster holds a member with that key, the indexed cluster is
   one of them, and all the others are full.
   */
  ghost predicate IndexInvariant(input: Input, st: State) {
    && "" !in st.index
    && (forall key :: key in st.index ==> Holds(input, st.groups, st.index[key], key))
    && (forall g, key :: key != "" && Holds(input, st.groups, g, key) ==>
          key in st.index && (g == st.index[key] || Full(st.groups, g)))
  }

  lemma {:induction false} HoldsKeyAfter(input: Input, members: seq<nat>, i: nat, key: string)
    requires i < |input.refs| && Within(input, members)
    ensures Within(input, members + [i])
    ensures HoldsKey(input, members + [i], key) <==> HoldsKey(input, members, key) || input.refs[i].workKey == key
  {
    if HoldsKey(input, members, key) {
      var m :| m in members && input.refs[m].workKey == key;
      assert m in members + [i];
    }
    if input.refs[i].workKey == key {
      assert i in members + [i];
    }
  }

  lemma {:induction false} JoinKeepsIndex(input: Input, st: State, g: nat, i: nat, index': map<string, nat>)
    requires IndexInvariant(input, st) && InRange(input, st.groups)
    requires i < |input.refs| && g < |st.groups| && |st.groups[g]| < CAP
    requires forall h :: 0 <= h < |st.groups| ==> |st.groups[h]| <= CAP
    requires var key := input.refs[i].workKey;
             if key in st.index && st.index[key] == g then index' == st.index
             else !KeyHasRoom(st, key) && index' == Indexed(st.index, key, g)
    ensures IndexInvariant(input, State(Join(st.groups, g, i), index'))
  {
    var st' := State(Join(st.groups, g, i), index');
    var k := input.refs[i].workKey;
    forall h, key
      ensures Holds(input, st'.groups, h, key) <==> Holds(input, st.groups, h, key) || (h == g && key == k)
    {
      if h == g {
        HoldsKeyAfter(input, st.groups[g], i, key);
      }
    }
    if k in st.index {
      assert Holds(input, st.groups, st.index[k], k);
    }
    assert IndexInvariant(input, st');
    hide HoldsKey, Within;
  }

  lemma {:induction false} NewKeepsIndex(input: Input, st: State, i: nat)
    requires IndexInvariant(input, st) && InRange(input, st.groups)
    requires i < |input.refs| && !KeyHasRoom(st, input.refs[i].workKey)
    requires forall h :: 0 <= h < |st.groups| ==> |st.groups[h]| <= CAP
    ensures IndexInvariant(input, State(st.groups + [[i]], Indexed(st.index, input.refs[i].workKey, |st.groups|)))
  {
    var g, k := |st.groups|, input.refs[i].workKey;
    var st' := State(st.groups + [[i]], Indexed(st.index, k, g));
    forall h, key
      ensures Holds(input, st'.groups, h, key) <==> Holds(input, st.groups, h, key) || (h == g && key == k)
    {
      if h == g {
        HoldsKeyAfter(input, [], i, key);
        assert [] + [i] == [i];
      }
    }
    if k in st.index {
      assert Holds(input, st.groups, st.index[k], k);
    }
    assert IndexInvariant(input, st');
    hide HoldsKey, Within;
  }

  // ----- The partition -----

  /** One to five of the first `n` references, in input order. */
  ghost predicate WellFormed(members: seq<nat>, n: nat) {
    && 1 <= |members| <= CAP
    && (forall p :: 0 <= p < |members| ==> members[p] < n)
    && (forall p, q :: 0 <= p < q < |members| ==> members[p] < members[q])
  }

  ghost predicate In(groups: seq<seq<nat>>, g: nat, i: nat) {
    g < |groups| && i in groups[g]
  }

  /** The clusters hold each of the first `n` references exactly once and are listed in the order of their founders. */
  ghost predicate Partition(groups: seq<seq<nat>>, n: nat) {
    && (forall g :: 0 <= g < |groups| ==> WellFormed(groups[g], n))
    && (forall g, h, i :: In(groups, g, i) && In(groups, h, i) ==> g == h)
    && (forall i: nat :: i < n ==> Covered(groups, i))
    && FoundersIncrease(groups)
  }

  ghost predicate Covered(groups: seq<seq<nat>>, i: nat) {
    exists g :: In(groups, g, i)
  }

  ghost predicate FoundersIncrease(groups: seq<seq<nat>>) {
    forall g, h :: 0 <= g < h < |groups| && groups[g] != [] && groups[h] != [] ==> groups[g][0] < groups[h][0]
  }

  lemma {:induction false} InBelow(groups: seq<seq<nat>>, n: nat, g: nat, i: nat)
    requires Partition(groups, n) && In(groups, g, i)
    ensures i < n
  {
    assert WellFormed(groups[g], n);
  }

  /** Enlarging the clusters by reference `n` alone keeps the partition. */
  lemma {:induction false} PartitionGrows(groups: seq<seq<nat>>, groups': seq<seq<nat>>, n: nat, g: nat)
    requires Partition(groups, n)
    requires |groups| <= |groups'| && g < |groups'|
    requires forall h, i :: In(groups', h, i) <==> In(groups, h, i) || (h == g && i == n)
    requires forall h :: 0 <= h < |groups'| ==> WellFormed(groups'[h], n + 1)
    requires FoundersIncrease(groups')
    ensures Partition(groups', n + 1)
  {
    forall h, k, i | In(groups', h, i) && In(groups', k, i)
      ensures h == k
    {
      if i == n {
        if In(groups, h, n) { InBelow(groups, n, h, n); }
        if In(groups, k, n) { InBelow(groups, n, k, n); }
      }
    }
    hide WellFormed, In;
    forall i: nat | i < n + 1
      ensures Covered(groups', i)
    {
      if i == n {
        assert In(groups', g, n);
      } else {
        assert Covered(groups, i);
        var h :| In(groups, h, i);
        assert In(groups', h, i);
      }
    }
  }

  lemma {:induction false} JoinKeepsPartition(groups: seq<seq<nat>>, n: nat, g: nat)
    requires Partition(groups, n) && g < |groups| && |groups[g]| < CAP
    ensures Partition(Join(groups, g, n), n + 1)
  {
    var groups' := Join(groups, g, n);
    forall h | 0 <= h < |groups'|
      ensures WellFormed(groups'[h], n + 1) && groups'[h][0] == groups[h][0]
    {
      assert WellFormed(groups[h], n);
    }
    forall h, i
      ensures In(groups', h, i) <==> In(groups, h, i) || (h == g && i == n)
    {
    }
    hide WellFormed, In;
    PartitionGrows(groups, groups', n, g);
  }

  lemma {:induction false} NewKeepsPartition(groups: seq<seq<nat>>, n: nat)
    requires Partition(groups, n)
    ensures Partition(groups + [[n]], n + 1)
  {
    var groups' := groups + [[n]];
    forall h | 0 <= h < |groups|
      ensures WellFormed(groups[h], n + 1) && groups[h][0] < n
    {
      assert WellFormed(groups[h], n);
    }
    assert WellFormed([n], n + 1);
    forall h, i
      ensures In(groups', h, i) <==> In(groups, h, i) || (h == |groups| && i == n)
    {
    }
    hide WellFormed, In;
    PartitionGrows(groups, groups', n, |groups|);
  }

  // ----- Why a member is in its cluster -----

  /**
   The member at position `p` founded the cluster, shares a work key with an earlier member,
   or is similar enough to the earlier ones.
   */
  ghost predicate Justified(input: Input, members: seq<nat>, p: nat)
    requires p < |members| && Within(input, members)
  {
    || p == 0
    || (input.refs[members[p]].workKey != "" && HoldsKey(input, members[..p], input.refs[members[p]].workKey))
    || Accepts(input, members[..p], members[p])
  }

  ghost predicate AllJustified(input: Input, groups: seq<seq<nat>>) {
    && InRange(input, groups)
    && forall g, p :: 0 <= g < |groups| && 0 <= p < |groups[g]| ==> Justified(input, groups[g], p)
  }

  lemma {:induction false} JustifiedAfter(input: Input, members: seq<nat>, i: nat)
    requires i < |input.refs| && Within(input, members)
    requires forall p :: 0 <= p < |members| ==> Justified(input, members, p)
    requires members == [] || Accepts(input, members, i)
             || (input.refs[i].workKey != "" && HoldsKey(input, members, input.refs[i].workKey))
    ensures forall p :: 0 <= p < |members| + 1 ==> Justified(input, members + [i], p)
  {
    var more := members + [i];
    forall p | 0 <= p < |more|
      ensures Justified(input, more, p)
    {
      if p < |members| {
        assert Justified(input, members, p);
        assert more[..p] == members[..p];
      } else {
        assert more[..p] == members;
      }
    }
  }

  // ----- Every run -----

  ghost predicate Invariant(input: Input, st: State, n: nat) {
    IndexInvariant(input, st) && Partition(st.groups, n) && AllJustified(input, st.groups)
  }

  lemma {:induction false} Capped(groups: seq<seq<nat>>, n: nat)
    requires Partition(groups, n)
    ensures forall h :: 0 <= h < |groups| ==> |groups[h]| <= CAP
  {
    assert forall h :: 0 <= h < |groups| ==> WellFormed(groups[h], n);
  }

  lemma {:induction false} IndexedInRange(input: Input, st: State, key: string)
    requires IndexInvariant(input, st) && key in st.index
    ensures st.index[key] < |st.groups| && Within(input, st.groups[st.index[key]])
            && HoldsKey(input, st.groups[st.index[key]], key)
  {
    assert Holds(input, st.groups, st.index[key], key);
  }

  lemma {:induction false} PlaceKeeps(input: Input, st: State, i: nat)
    requires i < |input.refs| && Invariant(input, st, i)
    ensures Invariant(input, Place(input, st, i), i + 1)
  {
    var key := input.refs[i].workKey;
    Capped(st.groups, i);
    assert InRange(input, st.groups);
    if key in st.index {
      IndexedInRange(input, st, key);
    }
    hide IndexInvariant, Partition, AllJustified, Accepts, HoldsKey, Join, InRange, Within;
    if KeyHasRoom(st, key) {
      var g := st.index[key];
      JoinKeepsIndex(input, st, g, i, st.index);
      JoinKeepsPartition(st.groups, i, g);
      JoinKeepsJustified(input, st.groups, g, i);
    } else {
      match FirstAccepting(input, st.groups, i, 0)
      case Some(g) =>
        JoinKeepsIndex(input, st, g, i, Indexed(st.index, key, g));
        JoinKeepsPartition(st.groups, i, g);
        JoinKeepsJustified(input, st.groups, g, i);
      case None =>
        NewKeepsIndex(input, st, i);
        NewKeepsPartition(st.groups, i);
        NewKeepsJustified(input, st.groups, i);
    }
  }

  lemma {:induction false} JoinKeepsJustified(input: Input, groups: seq<seq<nat>>, g: nat, i: nat)
    requires AllJustified(input, groups) && g < |groups| && i < |input.refs|
    requires Accepts(input, groups[g], i)
             || (input.refs[i].workKey != "" && HoldsKey(input, groups[g], input.refs[i].workKey))
    ensures AllJustified(input, Join(groups, g, i))
  {
    JustifiedAfter(input, groups[g], i);
    assert InRange(input, Join(groups, g, i));
    hide Justified, Accepts, HoldsKey;
  }

  lemma {:induction false} NewKeepsJustified(input: Input, groups: seq<seq<nat>>, i: nat)
    requires AllJustified(input, groups) && i < |input.refs|
    ensures AllJustified(input, groups + [[i]])
  {
    JustifiedAfter(input, [], i);
    assert [] + [i] == [i];
    assert InRange(input, groups + [[i]]);
    hide Justified;
  }


  lemma {:induction false} NothingPlaced(input: Input)
    ensures Run(input, 0) == State([], map[]) && Invariant(input, Run(input, 0), 0)
  {
  }

  lemma {:induction false} RunStep(input: Input, n: nat)
    requires 0 < n <= |input.refs|
    ensures Run(input, n) == Place(input, Run(input, n - 1), n - 1)
  {
    hide Place;
  }

  /** The index, the partition and the reasons hold after every reference. */
  lemma {:induction false} RunKeeps(input: Input, n: nat)
    requires n <= |input.refs|
    ensures Invariant(input, Run(input, n), n)
  {
    hide *;
    if n > 0 {
      RunStep(input, n);
      RunKeeps(input, n - 1);
      PlaceKeeps(input, Run(input, n - 1), n - 1);
    } else {
      NothingPlaced(input);
    }
  }

  /**
   The constant-time lookup is complete: when it offers no room, no cluster with room holds the key, so the
   branch of the scan for equal work keys is never taken.
   */
  lemma {:induction false} LookupIsComplete(input: Input, n: nat, key: string)
    requires n <= |input.refs| && key != ""
    ensures var st := Run(input, n);
            && (key in st.index <==> exists g :: Holds(input, st.groups, g, key))
            && (KeyHasRoom(st, key) <==> exists g :: Holds(input, st.groups, g, key) && !Full(st.groups, g))
  {
    RunKeeps(input, n);
    var st := Run(input, n);
    assert forall g :: 0 <= g < |st.groups| ==> WellFormed(st.groups[g], n);
    hide HoldsKey, Run, Partition, AllJustified, InRange;
    if key in st.index {
      assert Holds(input, st.groups, st.index[key], key);
      assert WellFormed(st.groups[st.index[key]], n);
    }
  }
}
