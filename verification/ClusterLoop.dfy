/** `clusterCitations` as the source runs it: cluster objects shared between a list and the work-key index. */
module ClusterLoop {
  import opened Wrappers
  import opened References
  import opened Clustering
  import opened WinnerElection

  /** A copy of an input reference, which learns the id of its cluster. */
  class LocalReference {
    const data: Reference
    var clusterId: string

    constructor (data: Reference)
      ensures this.data == data && clusterId == ""
    {
      this.data := data;
      clusterId := "";
    }
  }

  class Cluster {
    const clusterId: string
    var members: seq<LocalReference>
    var bestMemberId: string

    constructor (clusterId: string, founder: LocalReference)
      ensures this.clusterId == clusterId && members == [founder] && bestMemberId == ""
    {
      this.clusterId := clusterId;
      members := [founder];
      bestMemberId := "";
    }
  }

  // ----- Cluster ids -----

  function Digit(d: nat): char
    requires d < 10
  {
    ('0' as int + d) as char
  }

  function Decimal(n: nat): string {
    if n < 10 then [Digit(n)] else Decimal(n / 10) + [Digit(n % 10)]
  }

  /** Cluster number `g` is called C(g+1). */
  function Name(g: nat): string {
    "C" + Decimal(g + 1)
  }

  ghost function Value(s: string): int {
    if s == "" then 0 else Value(s[..|s| - 1]) * 10 + (s[|s| - 1] as int - '0' as int)
  }

  lemma {:induction false} DecimalValue(n: nat)
    ensures Value(Decimal(n)) == n
  {
    if n >= 10 {
      DecimalValue(n / 10);
      var s := Decimal(n);
      assert s[..|s| - 1] == Decimal(n / 10);
    }
  }

  /** The ids are the letter C and the cluster's number, counted from one. */
  lemma {:induction false} NameIsNumbered(g: nat)
    ensures Name(g) != "" && Name(g)[0] == 'C' && Value(Name(g)[1..]) == g + 1
  {
    DecimalValue(g + 1);
    hide Decimal, Value;
    assert Name(g)[1..] == Decimal(g + 1);
  }

  /** Different clusters have different ids. */
  lemma {:induction false} NamesDiffer(g: nat, h: nat)
    requires Name(g) == Name(h)
    ensures g == h
  {
    DecimalValue(g + 1);
    DecimalValue(h + 1);
    assert Name(g)[1..] == Decimal(g + 1) && Name(h)[1..] == Decimal(h + 1);
  }

  // ----- Scanning one cluster -----

  /** The similarity accumulators agree with `Accepts` on the members seen so far. */
  ghost predicate Seen(input: Input, members: seq<nat>, i: nat, best10: int, bestTitle: int)
    requires i < |input.refs| && Within(input, members)
  {
    && (bestTitle >= TITLE_FLOOR <==>
         exists m :: m in members && Comparable(input, i, m) && TitleOf(input, i, m) >= TITLE_FLOOR)
    && (best10 >= input.threshold10 <==>
          || input.threshold10 <= 0
          || exists m :: m in members && Comparable(input, i, m) && SimilarityOf(input, i, m) >= input.threshold10)
  }

  lemma {:induction false} SeeMore(input: Input, members: seq<nat>, i: nat, m: nat, best10: int, bestTitle: int,
                                   best10': int, bestTitle': int)
    requires i < |input.refs| && m < |input.refs| && Within(input, members)
             && Seen(input, members, i, best10, bestTitle)
    requires if !Comparable(input, i, m) then best10' == best10 && bestTitle' == bestTitle
             else && bestTitle' == (if TitleOf(input, i, m) > bestTitle then TitleOf(input, i, m) else bestTitle)
                  && best10' == (if SimilarityOf(input, i, m) > best10 then SimilarityOf(input, i, m) else best10)
    ensures Within(input, members + [m]) && Seen(input, members + [m], i, best10', bestTitle')
  {
    hide Comparable, TitleOf, SimilarityOf;
    forall x
      ensures x in members + [m] <==> x in members || x == m
    {
    }
  }

  // ----- What the objects stand for -----

  predicate Distinct<T(==)>(s: seq<T>) {
    forall i, j :: 0 <= i < j < |s| ==> s[i] != s[j]
  }

  /** The members of a cluster are the local references at the positions the specification lists. */
  ghost predicate Mirrors(members: seq<LocalReference>, locals: seq<LocalReference>, group: seq<nat>) {
    |members| == |group| && forall p :: 0 <= p < |group| ==> group[p] < |locals| && members[p] == locals[group[p]]
  }

  ghost predicate Copies(locals: seq<LocalReference>, refs: seq<Reference>) {
    && |locals| == |refs| && Distinct(locals)
    && forall i :: 0 <= i < |refs| ==> locals[i].data == refs[i]
  }

  /** The cluster objects stand for the groups, and every member carries the id of its cluster. */
  ghost predicate Represents(locals: seq<LocalReference>, clusters: seq<Cluster>, groups: seq<seq<nat>>)
    reads locals`clusterId, clusters`members
  {
    && |clusters| == |groups| && Distinct(clusters)
    && (forall g :: 0 <= g < |groups| ==>
         clusters[g].clusterId == Name(g) && Mirrors(clusters[g].members, locals, groups[g]))
    && (forall g, m :: 0 <= g < |groups| && m in groups[g] && m < |locals| ==> locals[m].clusterId == Name(g))
  }

  ghost predicate IndexesTo(clusters: seq<Cluster>, workKeyMap: map<string, Cluster>, index: map<string, nat>) {
    && workKeyMap.Keys == index.Keys
    && forall key :: key in index ==> index[key] < |clusters| && workKeyMap[key] == clusters[index[key]]
  }

  /** Push a reference that is in no cluster yet into cluster `g`. */
  method AddMember(cluster: Cluster, ref: LocalReference,
                   ghost locals: seq<LocalReference>, ghost clusters: seq<Cluster>, ghost groups: seq<seq<nat>>,
                   ghost g: nat, ghost i: nat)
    requires Represents(locals, clusters, groups) && Distinct(locals)
    requires g < |groups| && cluster == clusters[g] && i < |locals| && ref == locals[i]
    requires Below(groups, i)
    modifies cluster`members, ref`clusterId
    ensures Represents(locals, clusters, Join(groups, g, i))
  {
    cluster.members := cluster.members + [ref];
    ref.clusterId := cluster.clusterId;
    hide Name;
    assert Mirrors(cluster.members, locals, Join(groups, g, i)[g]);
    assert forall h :: 0 <= h < |groups| && h != g ==>
             clusters[h] != cluster && Mirrors(clusters[h].members, locals, groups[h]);
  }

  method Found(ref: LocalReference, clusters: seq<Cluster>,
               ghost locals: seq<LocalReference>, ghost groups: seq<seq<nat>>, ghost i: nat)
    returns (newCluster: Cluster)
    requires Represents(locals, clusters, groups) && Distinct(locals)
    requires i < |locals| && ref == locals[i]
    requires Below(groups, i)
    modifies ref`clusterId
    ensures fresh(newCluster) && Represents(locals, clusters + [newCluster], groups + [[i]])
  {
    hide Name;
    ref.clusterId := Name(|clusters|);
    newCluster := new Cluster(ref.clusterId, ref);
    assert Mirrors(newCluster.members, locals, [i]);
    assert forall h :: 0 <= h < |groups| ==> Mirrors(clusters[h].members, locals, groups[h]);
  }

  /** The inner loop: the best similarity to a member of the cluster, and whether one shares the work key. */
  method ScanMembers(input: Input, metaById: map<string, Reference>, locals: seq<LocalReference>, i: nat,
                     members: seq<LocalReference>, ghost group: seq<nat>)
    returns (best10: int, bestTitle: int, workKeyMatched: bool)
    requires i < |input.refs| && Copies(locals, input.refs) && Within(input, group) && Mirrors(members, locals, group)
    requires IsMeta(metaById, input.refs)
    requires input.refs[i].workKey != "" ==> !HoldsKey(input, group, input.refs[i].workKey)
    ensures !workKeyMatched && Seen(input, group, i, best10, bestTitle)
  {
    hide Seen, HoldsKey, Similarity10;
    best10, bestTitle, workKeyMatched := 0, 0, false;
    var ref := locals[i].data;
    NoneSeen(input, i);
    MetaExists(input.refs, i);
    for p := 0 to |members|
      invariant !workKeyMatched && Within(input, group[..p]) && Seen(input, group[..p], i, best10, bestTitle)
    {
      var member := members[p].data;
      ghost var m, before10, beforeTitle := group[p], best10, bestTitle;
      assert group[..p + 1] == group[..p] + [m] && m in group;
      if ref.workKey != "" && member.workKey != "" && ref.workKey == member.workKey {
        best10, bestTitle, workKeyMatched := 1000, 100, true;
        KeyHeld(input, group, p);
        assert false;
      }
      var meta := metaById[ref.id];
      MetaExists(input.refs, m);
      var memberMeta := metaById[member.id];
      if meta.normTitle != "" && memberMeta.normTitle != "" {
        var titleSimilarity := TitleScore(input.ratio, meta, memberMeta);
        if titleSimilarity > bestTitle {
          bestTitle := titleSimilarity;
        }
        var similarity10 := Similarity10(input.ratio, meta, memberMeta, ref, member);
        if similarity10 > best10 {
          best10 := similarity10;
        }
      }
      SeeMore(input, group[..p], i, m, before10, beforeTitle, best10, bestTitle);
    }
    assert group[..|members|] == group;
  }

  ghost predicate IsMeta(metaById: map<string, Reference>, refs: seq<Reference>) {
    forall id :: if id in metaById then MetaOf(refs, id) == Some(metaById[id]) else MetaOf(refs, id) == None
  }

  lemma {:induction false} NoneSeen(input: Input, i: nat)
    requires i < |input.refs|
    ensures Seen(input, [], i, 0, 0)
  {
  }

  lemma {:induction false} KeyHeld(input: Input, group: seq<nat>, p: nat)
    requires p < |group| && Within(input, group)
    ensures HoldsKey(input, group, input.refs[group[p]].workKey)
  {
    assert group[p] in group;
  }

  // ----- The whole procedure -----

  ghost predicate Below(groups: seq<seq<nat>>, n: nat) {
    forall h, m :: 0 <= h < |groups| && m in groups[h] ==> m < n
  }

  lemma {:induction false} EarlierOnly(groups: seq<seq<nat>>, n: nat)
    requires Partition(groups, n)
    ensures Below(groups, n)
  {
    forall h, m | 0 <= h < |groups| && m in groups[h]
      ensures m < n
    {
      assert In(groups, h, m);
      InBelow(groups, n, h, m);
    }
  }

  /** When the fast path fails, no cluster with room holds the key. */
  lemma {:induction false} ScanMeetsNoKey(input: Input, n: nat, g: nat)
    requires n < |input.refs| && g < |Run(input, n).groups| && |Run(input, n).groups[g]| < CAP
    requires input.refs[n].workKey != "" && !KeyHasRoom(Run(input, n), input.refs[n].workKey)
    ensures Within(input, Run(input, n).groups[g]) && !HoldsKey(input, Run(input, n).groups[g], input.refs[n].workKey)
  {
    var st := Run(input, n);
    assert InRange(input, st.groups);
    hide Run, HoldsKey;
    LookupIsComplete(input, n, input.refs[n].workKey);
    assert !Full(st.groups, g);
    assert !Holds(input, st.groups, g, input.refs[n].workKey);
  }

  /** The scan over the clusters finds the first one with room that accepts the reference. */
  method ScanClusters(input: Input, metaById: map<string, Reference>, locals: seq<LocalReference>,
                      clusters: seq<Cluster>, i: nat,
                      ghost st: State)
    returns (found: Option<nat>)
    requires i < |input.refs| && Copies(locals, input.refs) && IsMeta(metaById, input.refs)
    requires st == Run(input, i) && Represents(locals, clusters, st.groups)
    requires !KeyHasRoom(st, input.refs[i].workKey)
    ensures found == FirstAccepting(input, st.groups, i, 0)
  {
    assert InRange(input, st.groups);
    hide Run, Seen, Accepts, HoldsKey, KeyHasRoom, Copies, Name, Mirrors, IsMeta;
    for c := 0 to |clusters|
      invariant FirstAccepting(input, st.groups, i, 0) == FirstAccepting(input, st.groups, i, c)
    {
      var cluster := clusters[c];
      assert |cluster.members| == |st.groups[c]|;
      if |cluster.members| >= 5 {
        continue;
      }
      if locals[i].data.workKey != "" {
        CopyAt(locals, input.refs, i);
        ScanMeetsNoKey(input, i, c);
      }
      CopyAt(locals, input.refs, i);
      var best10, bestTitle, workKeyMatched := ScanMembers(input, metaById, locals, i, cluster.members, st.groups[c]);
      assert best10 >= input.threshold10 && bestTitle >= TITLE_FLOOR <==> Accepts(input, st.groups[c], i);
      if best10 >= input.threshold10 && (workKeyMatched || bestTitle >= TITLE_FLOOR) {
        return Some(c);
      }
    }
    return None;
  }

  lemma {:induction false} CopyAt(locals: seq<LocalReference>, refs: seq<Reference>, i: nat)
    requires Copies(locals, refs) && i < |refs|
    ensures i < |locals| && locals[i].data == refs[i]
  {
  }

  method CopyReferences(refs: seq<Reference>) returns (locals: seq<LocalReference>, metaById: map<string, Reference>)
    ensures Copies(locals, refs) && fresh(locals) && IsMeta(metaById, refs)
  {
    locals, metaById := [], map[];
    for i := 0 to |refs|
      invariant Copies(locals, refs[..i]) && fresh(locals) && IsMeta(metaById, refs[..i])
    {
      var copy := new LocalReference(refs[i]);
      assert refs[..i + 1][..i] == refs[..i];
      locals := locals + [copy];
      metaById := metaById[refs[i].id := refs[i]];
    }
    assert refs[..|refs|] == refs;
  }

  /** Looking the key up finds the object of the indexed cluster. */
  lemma {:induction false} LookUp(locals: seq<LocalReference>, clusters: seq<Cluster>, workKeyMap: map<string, Cluster>,
                                  st: State, key: string)
    requires Represents(locals, clusters, st.groups) && IndexesTo(clusters, workKeyMap, st.index)
    ensures |clusters| == |st.groups|
    ensures KeyHasRoom(st, key) <==> key != "" && key in workKeyMap && |workKeyMap[key].members| < CAP
    ensures KeyHasRoom(st, key) ==>
              key in workKeyMap && key in st.index && st.index[key] < |clusters|
                && workKeyMap[key] == clusters[st.index[key]]
  {
    if key in st.index {
      assert |clusters[st.index[key]].members| == |st.groups[st.index[key]]|;
    }
  }

  lemma {:induction false} SetKey(clusters: seq<Cluster>, more: seq<Cluster>, workKeyMap: map<string, Cluster>,
                                  index: map<string, nat>,
                                  key: string, g: nat)
    requires IndexesTo(clusters, workKeyMap, index) && g < |clusters + more|
    ensures var workKeyMap' := if key != "" then workKeyMap[key := (clusters + more)[g]] else workKeyMap;
            IndexesTo(clusters + more, workKeyMap', Indexed(index, key, g))
  {
  }

  /** Steps 2 and 3 of the source: join the first similar cluster with room, or found a new one. */
  method PlaceByScan(input: Input, metaById: map<string, Reference>, locals: seq<LocalReference>, i: nat,
                     clusters: seq<Cluster>, workKeyMap: map<string, Cluster>, ghost st: State)
    returns (clusters': seq<Cluster>, workKeyMap': map<string, Cluster>)
    requires i < |input.refs| && IsMeta(metaById, input.refs) && st == Run(input, i) && Below(st.groups, i)
    requires Copies(locals, input.refs) && Represents(locals, clusters, st.groups)
             && IndexesTo(clusters, workKeyMap, st.index)
    requires |clusters| == |st.groups| && !KeyHasRoom(st, input.refs[i].workKey)
    modifies clusters, locals
    ensures clusters <= clusters' && fresh(clusters'[|clusters|..])
    ensures var st' := Place(input, st, i);
            Represents(locals, clusters', st'.groups) && IndexesTo(clusters', workKeyMap', st'.index)
  {
    assert clusters + [] == clusters && i < |locals| && Distinct(locals) && locals[i].data == input.refs[i];
    hide Run, Copies, Represents, IndexesTo, FirstAccepting, KeyHasRoom, Distinct, Indexed, Join, IsMeta, Below;
    clusters', workKeyMap' := clusters, workKeyMap;
    var ref := locals[i];
    var key := ref.data.workKey;
    var found := ScanClusters(input, metaById, locals, clusters, i, st);
    if found.Some? {
      var cluster := clusters[found.value];
      SetKey(clusters, [], workKeyMap, st.index, key, found.value);
      AddMember(cluster, ref, locals, clusters, st.groups, found.value, i);
      if key != "" {
        workKeyMap' := workKeyMap[key := cluster];
      }
    } else {
      var newCluster := Found(ref, clusters, locals, st.groups, i);
      clusters' := clusters + [newCluster];
      SetKey(clusters, [newCluster], workKeyMap, st.index, key, |clusters|);
      if key != "" {
        workKeyMap' := workKeyMap[key := newCluster];
      }
    }
  }

  /** Place one reference; the objects follow the specification's step. */
  method PlaceReference(input: Input, metaById: map<string, Reference>, locals: seq<LocalReference>, i: nat,
                        clusters: seq<Cluster>, workKeyMap: map<string, Cluster>, ghost st: State)
    returns (clusters': seq<Cluster>, workKeyMap': map<string, Cluster>)
    requires i < |input.refs| && IsMeta(metaById, input.refs) && st == Run(input, i)
    requires Copies(locals, input.refs) && Represents(locals, clusters, st.groups)
             && IndexesTo(clusters, workKeyMap, st.index)
    modifies clusters, locals
    ensures clusters <= clusters' && fresh(clusters'[|clusters|..])
    ensures var st' := Run(input, i + 1);
            Represents(locals, clusters', st'.groups) && IndexesTo(clusters', workKeyMap', st'.index)
  {
    assert i < |locals| && Distinct(locals) && locals[i].data == input.refs[i];
    var key := locals[i].data.workKey;
    RunStep(input, i + 1);
    RunKeeps(input, i);
    assert Partition(st.groups, i);
    EarlierOnly(st.groups, i);
    LookUp(locals, clusters, workKeyMap, st, key);
    if key != "" && key in workKeyMap && |workKeyMap[key].members| < 5 {
      assert Place(input, st, i) == State(Join(st.groups, st.index[input.refs[i].workKey], i), st.index);
      hide *;
      AddMember(workKeyMap[key], locals[i], locals, clusters, st.groups, st.index[key], i);
      clusters', workKeyMap' := clusters, workKeyMap;
    } else {
      hide *;
      clusters', workKeyMap' := PlaceByScan(input, metaById, locals, i, clusters, workKeyMap, st);
    }
  }

  /** The numbers of the clusters with more than one member, from number `g` on. */
  function Shared(groups: seq<seq<nat>>, g: nat): (kept: seq<nat>)
    requires g <= |groups|
    ensures forall k :: 0 <= k < |kept| ==> g <= kept[k] < |groups| && |groups[kept[k]]| > 1
    decreases |groups| - g
  {
    if g == |groups| then []
    else (if |groups[g]| > 1 then [g] else []) + Shared(groups, g + 1)
  }

  predicate Ascending(s: seq<nat>) {
    forall i, j :: 0 <= i < j < |s| ==> s[i] < s[j]
  }

  lemma {:induction false} AscendingCons(g: nat, rest: seq<nat>)
    requires Ascending(rest) && forall j :: 0 <= j < |rest| ==> g < rest[j]
    ensures Ascending([g] + rest)
  {
  }

  lemma {:induction false} SharedIncrease(groups: seq<seq<nat>>, g: nat)
    requires g <= |groups|
    ensures Ascending(Shared(groups, g))
    decreases |groups| - g
  {
    if g < |groups| {
      SharedIncrease(groups, g + 1);
      var rest := Shared(groups, g + 1);
      AscendingCons(g, rest);
      assert Shared(groups, g) == if |groups[g]| > 1 then [g] + rest else rest;
    }
  }

  lemma {:induction false} SharedMember(groups: seq<seq<nat>>, g: nat, k: nat)
    requires g <= |groups|
    ensures k in Shared(groups, g) <==> g <= k < |groups| && |groups[k]| >= 2
    decreases |groups| - g
  {
    if g < |groups| {
      SharedMember(groups, g + 1, k);
      var rest := Shared(groups, g + 1);
      assert Shared(groups, g) == (if |groups[g]| > 1 then [g] else []) + rest;
      hide Shared;
    }
  }

  /** They are all the clusters of two or more members, each once and in order. */
  lemma {:induction false} SharedAreAll(groups: seq<seq<nat>>)
    ensures var kept := Shared(groups, 0);
            && (forall k: nat :: k in kept <==> k < |groups| && |groups[k]| >= 2)
            && Ascending(kept)
  {
    SharedIncrease(groups, 0);
    forall k: nat
      ensures k in Shared(groups, 0) <==> k < |groups| && |groups[k]| >= 2
    {
      SharedMember(groups, 0, k);
    }
    hide Shared;
  }

  function Data(input: Input, group: seq<nat>): (refs: seq<Reference>)
    requires Within(input, group)
    ensures |refs| == |group|
  {
    seq(|group|, p requires 0 <= p < |group| => input.refs[group[p]])
  }

  /** The id of the member elected in a group. */
  ghost function WinnerId(input: Input, judges: Judges, group: seq<nat>): string
    requires Within(input, group)
  {
    var data := Data(input, group);
    if Cascade(data) == [] then "" else Elect(judges, data, Cascade(data)).member.id
  }

  /** The object returned for cluster `g`: its id, its members in order, each with that id, and the elected member. */
  ghost predicate Delivered(input: Input, judges: Judges, cluster: Cluster, g: nat, group: seq<nat>)
    requires Within(input, group)
    reads cluster, cluster.members
  {
    && cluster.clusterId == Name(g)
    && |cluster.members| == |group|
    && (forall p :: 0 <= p < |group| ==>
         cluster.members[p].data == input.refs[group[p]] && cluster.members[p].clusterId == Name(g))
    && cluster.bestMemberId == WinnerId(input, judges, group)
  }

  method MemberData(input: Input, locals: seq<LocalReference>, members: seq<LocalReference>, ghost group: seq<nat>)
    returns (data: seq<Reference>)
    requires Within(input, group) && Copies(locals, input.refs) && Mirrors(members, locals, group)
    ensures data == Data(input, group)
  {
    data := [];
    for p := 0 to |members|
      invariant |data| == p && data == Data(input, group)[..p]
    {
      data := data + [members[p].data];
    }
  }

  lemma {:induction false} WinnerIs(input: Input, judges: Judges, group: seq<nat>)
    requires group != [] && Within(input, group)
    ensures Cascade(Data(input, group)) != []
    ensures WinnerId(input, judges, group) == Elect(judges, Data(input, group), Cascade(Data(input, group))).member.id
  {
    hide Elect, Cascade;
    SurvivorsAreMembers(Data(input, group));
  }

  lemma {:induction false} MembersMirror(locals: seq<LocalReference>, clusters: seq<Cluster>,
                                         groups: seq<seq<nat>>, g: nat)
    requires Represents(locals, clusters, groups) && g < |groups|
    ensures g < |clusters| && Mirrors(clusters[g].members, locals, groups[g])
    ensures |clusters[g].members| == |groups[g]| && Distinct(clusters)
  {
  }

  /** The election within one cluster. */
  method ElectAmong(input: Input, judges: Judges, locals: seq<LocalReference>, clusters: seq<Cluster>,
                    ghost groups: seq<seq<nat>>, c: nat)
    returns (best: Reference)
    requires Copies(locals, input.refs) && Represents(locals, clusters, groups) && InRange(input, groups)
    requires c < |groups| && |groups[c]| > 1 && c < |clusters|
    ensures best.id == WinnerId(input, judges, groups[c])
  {
    MembersMirror(locals, clusters, groups, c);
    WinnerIs(input, judges, groups[c]);
    hide *;
    var data := MemberData(input, locals, clusters[c].members, groups[c]);
    best := ElectWinner(judges, data);
  }

  /** The first `n` clusters with more than one member have their winner. */
  ghost predicate Elected(input: Input, judges: Judges, clusters: seq<Cluster>, groups: seq<seq<nat>>, n: nat)
    requires InRange(input, groups) && n <= |groups| == |clusters|
    reads clusters`bestMemberId
  {
    forall g :: 0 <= g < n && |groups[g]| > 1 ==> clusters[g].bestMemberId == WinnerId(input, judges, groups[g])
  }

  method ElectAt(input: Input, judges: Judges, locals: seq<LocalReference>, clusters: seq<Cluster>,
                 ghost groups: seq<seq<nat>>, c: nat)
    requires Copies(locals, input.refs) && Represents(locals, clusters, groups) && InRange(input, groups)
    requires c < |groups| == |clusters| && Elected(input, judges, clusters, groups, c)
    modifies clusters`bestMemberId
    ensures Represents(locals, clusters, groups) && Elected(input, judges, clusters, groups, c + 1)
  {
    hide *;
    MembersMirror(locals, clusters, groups, c);
    if |clusters[c].members| > 1 {
      var best := ElectAmong(input, judges, locals, clusters, groups, c);
      SetBest(input, judges, clusters, groups, c, best.id);
    } else {
      Unelected(input, judges, clusters, groups, c);
    }
  }

  lemma {:induction false} Unelected(input: Input, judges: Judges, clusters: seq<Cluster>,
                                     groups: seq<seq<nat>>, c: nat)
    requires InRange(input, groups) && c < |groups| == |clusters| && |groups[c]| <= 1
    requires Elected(input, judges, clusters, groups, c)
    ensures Elected(input, judges, clusters, groups, c + 1)
  {
    hide WinnerId;
  }

  method SetBest(input: Input, judges: Judges, clusters: seq<Cluster>, ghost groups: seq<seq<nat>>, c: nat, id: string)
    requires InRange(input, groups) && c < |groups| == |clusters| && Distinct(clusters)
    requires Elected(input, judges, clusters, groups, c) && id == WinnerId(input, judges, groups[c])
    modifies clusters`bestMemberId
    ensures Elected(input, judges, clusters, groups, c + 1)
  {
    hide WinnerId;
    clusters[c].bestMemberId := id;
  }

  /** The post-processing loop: every cluster with more than one member gets its winner. */
  method ElectWinners(input: Input, judges: Judges, locals: seq<LocalReference>, clusters: seq<Cluster>,
                      ghost groups: seq<seq<nat>>)
    requires Copies(locals, input.refs) && Represents(locals, clusters, groups) && InRange(input, groups)
    requires |clusters| == |groups|
    modifies clusters`bestMemberId
    ensures Represents(locals, clusters, groups) && Elected(input, judges, clusters, groups, |groups|)
  {
    hide Represents, Copies, InRange, WinnerId;
    for c := 0 to |clusters|
      invariant Represents(locals, clusters, groups) && Elected(input, judges, clusters, groups, c)
    {
      ElectAt(input, judges, locals, clusters, groups, c);
    }
  }

  lemma {:induction false} Deliver(input: Input, judges: Judges, locals: seq<LocalReference>, clusters: seq<Cluster>,
                                   groups: seq<seq<nat>>, g: nat)
    requires Copies(locals, input.refs) && Represents(locals, clusters, groups) && InRange(input, groups)
    requires g < |groups| && clusters[g].bestMemberId == WinnerId(input, judges, groups[g])
    ensures Delivered(input, judges, clusters[g], g, groups[g])
  {
    hide Name, WinnerId;
    assert Mirrors(clusters[g].members, locals, groups[g]);
    forall p | 0 <= p < |groups[g]|
      ensures clusters[g].members[p].data == input.refs[groups[g][p]] && clusters[g].members[p].clusterId == Name(g)
    {
      assert groups[g][p] in groups[g];
    }
  }

  method KeepShared(clusters: seq<Cluster>, ghost groups: seq<seq<nat>>) returns (shared: seq<Cluster>)
    requires |clusters| == |groups| && forall g :: 0 <= g < |groups| ==> |clusters[g].members| == |groups[g]|
    ensures |shared| == |Shared(groups, 0)|
    ensures forall k :: 0 <= k < |shared| ==> shared[k] == clusters[Shared(groups, 0)[k]]
  {
    shared := [];
    ghost var kept: seq<nat> := [];
    for c := 0 to |clusters|
      invariant |kept| == |shared| && kept + Shared(groups, c) == Shared(groups, 0)
      invariant forall k :: 0 <= k < |kept| ==> kept[k] < c && shared[k] == clusters[kept[k]]
    {
      if |clusters[c].members| > 1 {
        assert kept + [c] + Shared(groups, c + 1) == kept + Shared(groups, c);
        shared := shared + [clusters[c]];
        kept := kept + [c];
      } else {
        assert Shared(groups, c) == Shared(groups, c + 1);
      }
    }
    assert kept + [] == kept;
  }

  /** The clusters after the last reference. */
  ghost function FinalGroups(input: Input): (groups: seq<seq<nat>>)
    ensures InRange(input, groups)
  {
    Run(input, |input.refs|).groups
  }

  /** The objects and the index stand for a state of the specification. */
  ghost predicate InSync(locals: seq<LocalReference>, clusters: seq<Cluster>, workKeyMap: map<string, Cluster>,
                         st: State)
    reads locals`clusterId, clusters`members
  {
    Represents(locals, clusters, st.groups) && IndexesTo(clusters, workKeyMap, st.index)
  }

  lemma {:induction false} InSyncAtStart(input: Input, locals: seq<LocalReference>)
    ensures InSync(locals, [], map[], Run(input, 0))
  {
  }

  /** One turn of the main loop. */
  method PlaceNext(input: Input, metaById: map<string, Reference>, locals: seq<LocalReference>, i: nat,
                   clusters: seq<Cluster>, workKeyMap: map<string, Cluster>)
    returns (clusters': seq<Cluster>, workKeyMap': map<string, Cluster>)
    requires i < |input.refs| && IsMeta(metaById, input.refs) && Copies(locals, input.refs)
    requires InSync(locals, clusters, workKeyMap, Run(input, i))
    modifies clusters, locals
    ensures clusters <= clusters' && fresh(clusters'[|clusters|..])
    ensures InSync(locals, clusters', workKeyMap', Run(input, i + 1))
  {
    hide Run, Represents, IndexesTo, Copies, IsMeta;
    clusters', workKeyMap' := PlaceReference(input, metaById, locals, i, clusters, workKeyMap, Run(input, i));
  }

  /** The main loop: every reference placed in turn. */
  method PlaceAll(input: Input) returns (locals: seq<LocalReference>, clusters: seq<Cluster>)
    ensures fresh(locals) && fresh(clusters)
    ensures Copies(locals, input.refs) && Represents(locals, clusters, FinalGroups(input))
  {
    hide Run, Represents, IndexesTo, Copies, IsMeta, InSync;
    var metaById;
    locals, metaById := CopyReferences(input.refs);
    clusters := [];
    var workKeyMap: map<string, Cluster> := map[];
    InSyncAtStart(input, locals);
    for i := 0 to |input.refs|
      invariant fresh(clusters) && InSync(locals, clusters, workKeyMap, Run(input, i))
    {
      ghost var before := clusters;
      clusters, workKeyMap := PlaceNext(input, metaById, locals, i, clusters, workKeyMap);
      assert clusters == before + clusters[|before|..];
    }
    Synced(locals, clusters, workKeyMap, Run(input, |input.refs|));
  }

  lemma {:induction false} Synced(locals: seq<LocalReference>, clusters: seq<Cluster>,
                                  workKeyMap: map<string, Cluster>, st: State)
    requires InSync(locals, clusters, workKeyMap, st)
    ensures Represents(locals, clusters, st.groups)
  {
  }

  /** The clusters with more than one member, in order. */
  ghost predicate DeliveredAll(input: Input, judges: Judges, result: seq<Cluster>, groups: seq<seq<nat>>)
    requires InRange(input, groups)
    reads *
  {
    && |result| == |Shared(groups, 0)|
    && forall k :: 0 <= k < |result| ==>
         Delivered(input, judges, result[k], Shared(groups, 0)[k], groups[Shared(groups, 0)[k]])
  }

  /**
   The source's function.  The clusters of the specification that have more than one member come back, in order,
   as fresh objects; what the specification guarantees of them is `Invariant`.
   */
  method ClusterCitations(input: Input, judges: Judges) returns (result: seq<Cluster>)
    ensures forall k :: 0 <= k < |result| ==> fresh(result[k])
    ensures Invariant(input, Run(input, |input.refs|), |input.refs|)
    ensures DeliveredAll(input, judges, result, FinalGroups(input))
  {
    RunKeeps(input, |input.refs|);
    hide *;
    var locals, clusters := PlaceAll(input);
    result := FinishClusters(input, judges, locals, clusters, FinalGroups(input));
  }

  method FinishClusters(input: Input, judges: Judges, locals: seq<LocalReference>, clusters: seq<Cluster>,
                        ghost groups: seq<seq<nat>>)
    returns (result: seq<Cluster>)
    requires Copies(locals, input.refs) && Represents(locals, clusters, groups) && InRange(input, groups)
    modifies clusters`bestMemberId
    ensures forall k :: 0 <= k < |result| ==> result[k] in clusters
    ensures DeliveredAll(input, judges, result, groups)
  {
    ElectWinners(input, judges, locals, clusters, groups);
    forall g | 0 <= g < |groups|
      ensures g < |clusters| && |clusters[g].members| == |groups[g]|
    {
      MembersMirror(locals, clusters, groups, g);
    }
    forall g | 0 <= g < |groups| && |groups[g]| > 1
      ensures Delivered(input, judges, clusters[g], g, groups[g])
    {
      Deliver(input, judges, locals, clusters, groups, g);
    }
    hide Represents, Copies, Delivered, WinnerId;
    result := KeepShared(clusters, groups);
  }
}
