/**
 The memory accounting of `ml-service/app/models/loader.py` as a protocol: each step is one block under the
 registry's lock, and threads may be scheduled in any order between blocks.
 */
module RegistryProtocol {
  import opened Wrappers
  import opened Numbers

  /** 3.5 GB. */
  const MAX_MEMORY_BYTES: int := 3758096384

  datatype Model = Model(name: string, bytes: nat, lastUsed: int)

  datatype Extractor = Extractor(bytes: nat, lastUsed: int)

  /**
   `models` is the ordered dictionary, oldest first.  `counted` and `lost` are not in the source: the sizes of
   extractors some thread has counted but not yet installed, and the bytes of entries that were overwritten.
   `now` is the last reading of the monotonic clock.
   */
  datatype State = State(
    models: seq<Model>, extractor: Option<Extractor>, key: Option<string>, total: int,
    counted: seq<nat>, lost: nat, now: int)

  datatype Step =
    | TouchModel(name: string, now: int)              // get_model, found
    | InstallModel(name: string, bytes: nat, now: int)  // the block at the end of _load
    | TouchExtractor(cacheKey: string, now: int)      // the first block of get_extractor_artifact
    | CountExtractor(bytes: nat)                      // the block at the end of _load_extractor_artifact
    | InstallExtractor(k: nat, cacheKey: string, created: int)  // the second block, for counted artifact number k
    | InstallNothing                                  // the same block after a failed load
    | Unload                                          // unload_lru
    | ClearExtractor                                  // _clear_extractor_cache

  function Max(a: int, b: int): int {
    if a >= b then a else b
  }

  function Without(models: seq<Model>, name: string): seq<Model> {
    if models == [] then []
    else if models[0].name == name then Without(models[1..], name)
    else [models[0]] + Without(models[1..], name)
  }

  function Find(models: seq<Model>, name: string): Option<Model> {
    if models == [] then None else if models[0].name == name then Some(models[0]) else Find(models[1..], name)
  }

  function ModelBytes(models: seq<Model>): nat {
    if models == [] then 0 else models[0].bytes + ModelBytes(models[1..])
  }

  function ExtractorBytes(e: Option<Extractor>): nat {
    if e.Some? then e.value.bytes else 0
  }

  function Unloaded(s: State): State {
    if s.extractor.Some? && s.models == [] then
      s.(extractor := None, key := None, total := Max(0, s.total - s.extractor.value.bytes))
    else if s.models == [] then s
    else s.(models := s.models[1..], total := s.total - s.models[0].bytes)
  }

  function Cleared(s: State): State {
    s.(extractor := None, key := None,
       total := if s.extractor.Some? then Max(0, s.total - s.extractor.value.bytes) else s.total)
  }

  /** A step a thread can take: the clock does not run backwards, and only a counted artifact is installed. */
  predicate Enabled(s: State, step: Step) {
    match step
    case TouchModel(_, now) => s.now <= now
    case InstallModel(_, _, now) => s.now <= now
    case TouchExtractor(_, now) => s.now <= now
    case InstallExtractor(k, _, _) => k < |s.counted|
    case _ => true
  }

  function Next(s: State, step: Step): State
    requires Enabled(s, step)
  {
    match step
    case TouchModel(name, now) =>
      var m := Find(s.models, name);
      if m.Some? then s.(models := Without(s.models, name) + [m.value.(lastUsed := now)], now := now)
      else s
    case InstallModel(name, bytes, now) =>
      var m := Find(s.models, name);
      s.(models := Without(s.models, name) + [Model(name, bytes, now)], total := s.total + bytes,
         lost := s.lost + (if m.Some? then m.value.bytes else 0), now := now)
    case TouchExtractor(cacheKey, now) =>
      if s.extractor.Some? && s.key == Some(cacheKey) then
        s.(extractor := Some(s.extractor.value.(lastUsed := now)), now := now)
      else s
    case CountExtractor(bytes) =>
      s.(total := s.total + bytes, counted := s.counted + [bytes])
    case InstallExtractor(k, cacheKey, created) =>
      s.(extractor := Some(Extractor(s.counted[k], created)), key := Some(cacheKey),
         counted := s.counted[..k] + s.counted[k + 1..], lost := s.lost + ExtractorBytes(s.extractor))
    case InstallNothing =>
      s.(extractor := None, key := None, lost := s.lost + ExtractorBytes(s.extractor))
    case Unload => Unloaded(s)
    case ClearExtractor => Cleared(s)
  }

  const START := State([], None, None, 0, [], 0, 0)

  /** A run from the empty registry: any schedule of enabled steps. */
  ghost predicate IsRun(states: seq<State>, steps: seq<Step>) {
    && |states| == |steps| + 1 && states[0] == START
    && forall i :: 0 <= i < |steps| ==> Enabled(states[i], steps[i]) && states[i + 1] == Next(states[i], steps[i])
  }

  function Resident(s: State): nat {
    ModelBytes(s.models) + ExtractorBytes(s.extractor)
  }

  // ----- The invariant -----

  /** The counter is what is resident, what is counted but not installed, and what was overwritten. */
  predicate Balanced(s: State) {
    s.total == Resident(s) + Sum(s.counted) + s.lost
  }

  /** One entry a name, the least recently used first, none used after the last reading of the clock. */
  ghost predicate Ordered(models: seq<Model>, now: int) {
    && (forall i, j :: 0 <= i < j < |models| ==>
         models[i].name != models[j].name && models[i].lastUsed <= models[j].lastUsed)
    && (forall i :: 0 <= i < |models| ==> models[i].lastUsed <= now)
  }

  ghost predicate Invariant(s: State) {
    Balanced(s) && Ordered(s.models, s.now)
  }

  lemma {:induction false} BytesConcat(a: seq<Model>, b: seq<Model>)
    ensures ModelBytes(a + b) == ModelBytes(a) + ModelBytes(b)
    decreases |a|
  {
    if a == [] {
      assert a + b == b;
    } else {
      assert (a + b)[1..] == a[1..] + b;
      BytesConcat(a[1..], b);
    }
  }

  lemma {:induction false} SumConcat(a: seq<nat>, b: seq<nat>)
    ensures Sum(a + b) == Sum(a) + Sum(b)
    decreases |a|
  {
    if a == [] {
      assert a + b == b;
    } else {
      assert (a + b)[1..] == a[1..] + b;
      SumConcat(a[1..], b);
    }
  }

  lemma {:induction false} SumRemove(s: seq<nat>, k: nat)
    requires k < |s|
    ensures Sum(s) == Sum(s[..k] + s[k + 1..]) + s[k]
  {
    SumConcat(s[..k], s[k + 1..]);
    SumConcat(s[..k], s[k..]);
    assert s == s[..k] + s[k..] && s[k..][1..] == s[k + 1..];
  }

  lemma {:induction false} WithoutMembers(models: seq<Model>, name: string)
    ensures forall i :: 0 <= i < |Without(models, name)| ==>
              Without(models, name)[i] in models && Without(models, name)[i].name != name
    decreases |models|
  {
    if models != [] {
      WithoutMembers(models[1..], name);
    }
  }

  lemma {:induction false} OrderedCons(m: Model, rest: seq<Model>, tail: seq<Model>, now: int)
    requires Ordered([m] + tail, now) && Ordered(rest, now)
    requires forall i :: 0 <= i < |rest| ==> rest[i] in tail
    ensures Ordered([m] + rest, now)
  {
    forall j | 0 <= j < |rest|
      ensures m.name != rest[j].name && m.lastUsed <= rest[j].lastUsed
    {
      var k :| 0 <= k < |tail| && tail[k] == rest[j];
      assert ([m] + tail)[k + 1] == rest[j] && ([m] + tail)[0] == m;
    }
    assert ([m] + tail)[0] == m;
  }

  /** Taking out a name removes the bytes of its one entry and keeps the order. */
  lemma {:induction false} WithoutOne(models: seq<Model>, name: string, now: int)
    requires Ordered(models, now)
    ensures ModelBytes(models) == ModelBytes(Without(models, name))
                                + (if Find(models, name).Some? then Find(models, name).value.bytes else 0)
    ensures Ordered(Without(models, name), now)
    ensures Find(models, name).Some? ==> Find(models, name).value.name == name
    decreases |models|
  {
    if models != [] {
      assert models == [models[0]] + models[1..];
      WithoutOne(models[1..], name, now);
      WithoutMembers(models[1..], name);
      if models[0].name == name {
        NotFound(models[1..], name);
      } else {
        OrderedCons(models[0], Without(models[1..], name), models[1..], now);
      }
      hide Ordered;
    }
  }

  lemma {:induction false} NotFound(models: seq<Model>, name: string)
    requires forall i :: 0 <= i < |models| ==> models[i].name != name
    ensures Find(models, name) == None && Without(models, name) == models
    decreases |models|
  {
    if models != [] {
      NotFound(models[1..], name);
      assert models == [models[0]] + models[1..];
    }
  }

  /** Appending the most recently used entry keeps the order. */
  lemma {:induction false} AppendNewest(models: seq<Model>, m: Model, now: int)
    requires Ordered(models, now) && now <= m.lastUsed
    requires forall i :: 0 <= i < |models| ==> models[i].name != m.name
    ensures Ordered(models + [m], m.lastUsed)
    ensures ModelBytes(models + [m]) == ModelBytes(models) + m.bytes
  {
    BytesConcat(models, [m]);
    assert [m][1..] == [];
  }

  lemma {:induction false} StepKeeps(s: State, step: Step)
    requires Invariant(s) && Enabled(s, step)
    ensures Invariant(Next(s, step))
  {
    match step {
      case TouchModel(name, now) =>
        MoveToEnd(s.models, name, s.now, now);
      case InstallModel(name, bytes, now) =>
        WithoutOne(s.models, name, s.now);
        WithoutMembers(s.models, name);
        AppendNewest(Without(s.models, name), Model(name, bytes, now), s.now);
      case CountExtractor(bytes) =>
        SumConcat(s.counted, [bytes]);
        assert [bytes][1..] == [];
      case InstallExtractor(k, _, _) =>
        SumRemove(s.counted, k);
      case _ =>
    }
  }

  lemma {:induction false} MoveToEnd(models: seq<Model>, name: string, before: int, now: int)
    requires Ordered(models, before) && before <= now
    ensures Find(models, name).Some? ==>
              var moved := Without(models, name) + [Find(models, name).value.(lastUsed := now)];
              Ordered(moved, now) && ModelBytes(moved) == ModelBytes(models)
  {
    WithoutOne(models, name, before);
    WithoutMembers(models, name);
    if Find(models, name).Some? {
      AppendNewest(Without(models, name), Find(models, name).value.(lastUsed := now), before);
    }
  }

  // ----- Every run -----

  lemma {:induction false} RunKeeps(states: seq<State>, steps: seq<Step>, i: nat)
    requires IsRun(states, steps) && i < |states|
    ensures Invariant(states[i])
    decreases i
  {
    if i > 0 {
      RunKeeps(states, steps, i - 1);
      StepKeeps(states[i - 1], steps[i - 1]);
    }
  }

  /**
   In every run the counter never under-reports and never goes negative;
   it is exact just when nothing is in flight or lost.
   */
  lemma {:induction false} CounterCovers(states: seq<State>, steps: seq<Step>, i: nat)
    requires IsRun(states, steps) && i < |states|
    ensures var s := states[i];
            && s.total >= Resident(s) >= 0
            && (s.total == Resident(s) <==> Sum(s.counted) == 0 && s.lost == 0)
  {
    RunKeeps(states, steps, i);
  }

  /** A step that puts an entry in the place of one whose bytes are still counted. */
  predicate Overwrites(s: State, step: Step) {
    match step
    case InstallModel(name, _, _) => Find(s.models, name).Some? && Find(s.models, name).value.bytes > 0
    case InstallExtractor(_, _, _) => ExtractorBytes(s.extractor) > 0
    case InstallNothing => ExtractorBytes(s.extractor) > 0
    case _ => false
  }

  /** Bytes are lost exactly when some step so far has overwritten an entry. */
  lemma {:induction false} LostByOverwriting(states: seq<State>, steps: seq<Step>, i: nat)
    requires IsRun(states, steps) && i < |states|
    ensures states[i].lost > 0 <==> exists j :: 0 <= j < i && Overwrites(states[j], steps[j])
    decreases i
  {
    if i > 0 {
      LostByOverwriting(states, steps, i - 1);
      LossGrows(states[i - 1], steps[i - 1]);
      assert states[i] == Next(states[i - 1], steps[i - 1]);
      hide Next, Overwrites, IsRun;
    }
  }

  lemma {:induction false} LossGrows(s: State, step: Step)
    requires Enabled(s, step)
    ensures Next(s, step).lost >= s.lost && (Next(s, step).lost > s.lost <==> Overwrites(s, step))
  {
    hide Find, Without;
  }

  /** So the counter is the resident size exactly when nothing is in flight and no step has overwritten an entry. */
  lemma {:induction false} ExactUnlessOverwritten(states: seq<State>, steps: seq<Step>, i: nat)
    requires IsRun(states, steps) && i < |states|
    ensures states[i].total == Resident(states[i]) <==>
            Sum(states[i].counted) == 0 && !exists j :: 0 <= j < i && Overwrites(states[j], steps[j])
  {
    hide *;
    CounterCovers(states, steps, i);
    LostByOverwriting(states, steps, i);
  }

  /** So the clamps at zero never take effect. */
  lemma {:induction false} ClampsNeverBite(states: seq<State>, steps: seq<Step>, i: nat)
    requires IsRun(states, steps) && i < |states| && states[i].extractor.Some?
    ensures var s := states[i];
            Max(0, s.total - s.extractor.value.bytes) == s.total - s.extractor.value.bytes
  {
    RunKeeps(states, steps, i);
  }

  /** What is evicted is the least recently used model. */
  lemma {:induction false} EvictsOldest(states: seq<State>, steps: seq<Step>, i: nat, j: nat)
    requires IsRun(states, steps) && i < |states| && j < |states[i].models|
    ensures Unloaded(states[i]).models == states[i].models[1..]
    ensures states[i].models[0].lastUsed <= states[i].models[j].lastUsed
  {
    RunKeeps(states, steps, i);
  }

  /** Bytes once lost stay counted: the counter never falls below them again. */
  lemma {:induction false} LossIsForever(states: seq<State>, steps: seq<Step>, i: nat, j: nat)
    requires IsRun(states, steps) && i <= j < |states|
    ensures states[i].lost <= states[j].lost <= states[j].total
    decreases j
  {
    RunKeeps(states, steps, j);
    if i < j {
      LossIsForever(states, steps, i, j - 1);
    }
  }

  /** Two threads that load the same model leave the first copy's bytes counted for good. */
  lemma {:induction false} DoubleLoadLeaks()
    ensures var s1 := Next(START, InstallModel("m", 10, 1));
            var s2 := Next(s1, InstallModel("m", 10, 2));
            Resident(s2) == 10 && s2.total == 20 && s2.lost == 10
  {
    var m, m2 := Model("m", 10, 1), Model("m", 10, 2);
    assert [m][1..] == [] && [m2][1..] == [] && [] + [m] == [m] && [] + [m2] == [m2];
    assert Next(START, InstallModel("m", 10, 1)) == START.(models := [m], total := 10, now := 1);
    assert Without([m], "m") == [] && Find([m], "m") == Some(m);
    assert ModelBytes([m2]) == 10;
  }

  // ----- Least recently used, told from the steps alone -----

  /** The step installs the model or asks for it. */
  predicate Uses(step: Step, name: string) {
    match step
    case InstallModel(n, _, _) => n == name
    case TouchModel(n, _) => n == name
    case _ => false
  }

  function ClockOf(step: Step): int {
    match step
    case InstallModel(_, _, now) => now
    case TouchModel(_, now) => now
    case _ => 0
  }

  /** The last of the first `i` steps that uses the name, counted from one; 0 if none does. */
  function LastUse(steps: seq<Step>, i: nat, name: string): (j: nat)
    requires i <= |steps|
    ensures j <= i
    ensures j > 0 ==> Uses(steps[j - 1], name)
    ensures forall k :: j <= k < i ==> !Uses(steps[k], name)
  {
    if i == 0 then 0 else if Uses(steps[i - 1], name) then i else LastUse(steps, i - 1, name)
  }

  /** Every resident model has been used, at the time it carries, and those before it in the dictionary before it. */
  ghost predicate UseOrder(models: seq<Model>, steps: seq<Step>, i: nat)
    requires i <= |steps|
  {
    && (forall k :: 0 <= k < |models| ==> UsedAt(models[k], steps, i))
    && (forall k, l :: 0 <= k < l < |models| ==> LastUse(steps, i, models[k].name) < LastUse(steps, i, models[l].name))
  }

  ghost predicate UsedAt(m: Model, steps: seq<Step>, i: nat)
    requires i <= |steps|
  {
    var j := LastUse(steps, i, m.name);
    j > 0 && m.lastUsed == ClockOf(steps[j - 1])
  }

  ghost predicate NameFree(models: seq<Model>, name: string) {
    forall k :: 0 <= k < |models| ==> models[k].name != name
  }

  /** A step that does not use the models that stay leaves their order. */
  lemma {:induction false} UnusedKeeps(models: seq<Model>, steps: seq<Step>, i: nat)
    requires i < |steps| && UseOrder(models, steps, i)
    requires forall k :: 0 <= k < |models| ==> !Uses(steps[i], models[k].name)
    ensures UseOrder(models, steps, i + 1)
  {
    hide Uses, ClockOf;
  }

  /** The model just used goes last. */
  lemma {:induction false} UsedGoesLast(models: seq<Model>, m: Model, steps: seq<Step>, i: nat)
    requires i < |steps| && UseOrder(models, steps, i) && NameFree(models, m.name)
    requires Uses(steps[i], m.name) && m.lastUsed == ClockOf(steps[i])
    requires forall k :: 0 <= k < |models| ==> !Uses(steps[i], models[k].name)
    ensures UseOrder(models + [m], steps, i + 1)
  {
    UnusedKeeps(models, steps, i);
    hide Uses, ClockOf;
  }

  ghost predicate AllLater(models: seq<Model>, steps: seq<Step>, i: nat, use: nat)
    requires i <= |steps|
  {
    forall m :: m in models ==> use < LastUse(steps, i, m.name)
  }

  lemma {:induction false} UseCons(m: Model, rest: seq<Model>, steps: seq<Step>, i: nat)
    requires i <= |steps| && UsedAt(m, steps, i) && UseOrder(rest, steps, i)
    requires AllLater(rest, steps, i, LastUse(steps, i, m.name))
    ensures UseOrder([m] + rest, steps, i)
  {
    hide LastUse, UsedAt;
  }

  lemma {:induction false} UseFirst(models: seq<Model>, steps: seq<Step>, i: nat)
    requires i <= |steps| && models != [] && UseOrder(models, steps, i)
    ensures UsedAt(models[0], steps, i) && UseOrder(models[1..], steps, i)
    ensures AllLater(models[1..], steps, i, LastUse(steps, i, models[0].name))
  {
    hide LastUse, UsedAt;
    forall m | m in models[1..]
      ensures LastUse(steps, i, models[0].name) < LastUse(steps, i, m.name)
    {
      var l :| 0 <= l < |models[1..]| && models[1..][l] == m;
      assert models[l + 1] == m;
    }
  }

  lemma {:induction false} FewerLater(models: seq<Model>, fewer: seq<Model>, steps: seq<Step>, i: nat, use: nat)
    requires i <= |steps| && AllLater(models, steps, i, use) && forall k :: 0 <= k < |fewer| ==> fewer[k] in models
    ensures AllLater(fewer, steps, i, use)
  {
    hide LastUse;
  }

  lemma {:induction false} UseOrderWithout(models: seq<Model>, name: string, steps: seq<Step>, i: nat)
    requires i <= |steps| && UseOrder(models, steps, i)
    ensures UseOrder(Without(models, name), steps, i)
    decreases |models|
  {
    hide LastUse, UsedAt, UseOrder, AllLater;
    if models != [] {
      UseFirst(models, steps, i);
      UseOrderWithout(models[1..], name, steps, i);
      WithoutMembers(models[1..], name);
      FewerLater(models[1..], Without(models[1..], name), steps, i, LastUse(steps, i, models[0].name));
      UseCons(models[0], Without(models[1..], name), steps, i);
    }
  }

  lemma {:induction false} FindTells(models: seq<Model>, name: string)
    ensures Find(models, name).None? ==> NameFree(models, name)
    ensures Find(models, name).Some? ==> Find(models, name).value in models && Find(models, name).value.name == name
  {
    if models != [] {
      FindTells(models[1..], name);
      assert forall k :: 0 < k < |models| ==> models[k] == models[1..][k - 1];
    }
  }

  lemma {:induction false} UseOrderStep(s: State, steps: seq<Step>, i: nat)
    requires i < |steps| && Enabled(s, steps[i]) && UseOrder(s.models, steps, i)
    ensures UseOrder(Next(s, steps[i]).models, steps, i + 1)
  {
    hide LastUse, UsedAt, UseOrder, Find, Without;
    match steps[i]
    case TouchModel(name, now) =>
      FindTells(s.models, name);
      var m := Find(s.models, name);
      if m.Some? {
        UseOrderWithout(s.models, name, steps, i);
        WithoutMembers(s.models, name);
        UsedGoesLast(Without(s.models, name), m.value.(lastUsed := now), steps, i);
      } else {
        UnusedKeeps(s.models, steps, i);
      }
    case InstallModel(name, bytes, now) =>
      UseOrderWithout(s.models, name, steps, i);
      WithoutMembers(s.models, name);
      UsedGoesLast(Without(s.models, name), Model(name, bytes, now), steps, i);
    case Unload =>
      if s.models != [] {
        UseFirst(s.models, steps, i);
        UnusedKeeps(s.models[1..], steps, i);
      } else {
        UnusedKeeps(s.models, steps, i);
      }
    case _ => UnusedKeeps(s.models, steps, i);
  }

  /** In every run the dictionary lists the models in the order of their last use, each with the time of its own. */
  lemma {:induction false} ListedByUse(states: seq<State>, steps: seq<Step>, i: nat)
    requires IsRun(states, steps) && i < |states|
    ensures UseOrder(states[i].models, steps, i)
    decreases i
  {
    if i > 0 {
      ListedByUse(states, steps, i - 1);
      hide Next, Enabled, UseOrder;
      UseOrderStep(states[i - 1], steps, i - 1);
    }
  }

  /** So an eviction takes the model whose last installation or request is the earliest. */
  lemma {:induction false} EvictsLeastRecentlyUsed(states: seq<State>, steps: seq<Step>, i: nat, j: nat)
    requires IsRun(states, steps) && i < |steps| && steps[i] == Unload && 0 < j < |states[i].models|
    ensures states[i + 1].models == states[i].models[1..]
    ensures LastUse(steps, i, states[i].models[0].name) < LastUse(steps, i, states[i].models[j].name)
  {
    ListedByUse(states, steps, i);
    hide LastUse;
  }

  /** A request changes no name and no size. */
  lemma {:induction false} TouchKeepsModels(s: State, name: string, now: int, other: string)
    requires Invariant(s) && s.now <= now
    ensures var before, after := Find(s.models, other), Find(Next(s, TouchModel(name, now)).models, other);
            && (before.Some? <==> after.Some?)
            && (before.Some? ==> after.value.name == before.value.name && after.value.bytes == before.value.bytes)
            && (before.Some? && other == name ==> after.value.lastUsed == now)
            && (before.Some? && other != name ==> after.value.lastUsed == before.value.lastUsed)
  {
    var m := Find(s.models, name);
    if m.Some? {
      FindTells(s.models, name);
      WithoutMembers(s.models, name);
      FindWithout(s.models, name, other);
      FindAppended(Without(s.models, name), m.value.(lastUsed := now), other);
    }
  }

  lemma {:induction false} FindWithout(models: seq<Model>, name: string, other: string)
    ensures Find(Without(models, name), other) == if other == name then None else Find(models, other)
    decreases |models|
  {
    if models != [] {
      FindWithout(models[1..], name, other);
    }
  }

  lemma {:induction false} FindAppended(models: seq<Model>, m: Model, other: string)
    ensures Find(models + [m], other) ==
            if Find(models, other).Some? then Find(models, other) else if m.name == other then Some(m) else None
    decreases |models|
  {
    if models == [] {
      assert models + [m] == [m] && [m][1..] == [];
    } else {
      FindAppended(models[1..], m, other);
      assert (models + [m])[1..] == models[1..] + [m];
    }
  }

  /** A loaded model is found, with its size, until it is evicted or loaded again. */
  lemma {:induction false} InstallIsFound(s: State, name: string, bytes: nat, now: int)
    requires s.now <= now
    ensures Find(Next(s, InstallModel(name, bytes, now)).models, name) == Some(Model(name, bytes, now))
  {
    FindWithout(s.models, name, name);
    FindAppended(Without(s.models, name), Model(name, bytes, now), name);
  }

  /** Asking for the extractor under its key refreshes its time, and changes nothing else. */
  lemma {:induction false} TouchKeepsExtractor(s: State, cacheKey: string, now: int)
    requires s.now <= now
    ensures var t := Next(s, TouchExtractor(cacheKey, now));
            && t.models == s.models && t.key == s.key && t.total == s.total && t.counted == s.counted
            && (s.extractor.None? || s.key != Some(cacheKey) ==> t == s)
            && (s.extractor.Some? && s.key == Some(cacheKey) ==>
                  t.extractor == Some(Extractor(s.extractor.value.bytes, now)))
  {
  }

  /** The extractor is installed under its key, dropped by a failed load, and evicted after all models only. */
  lemma {:induction false} ExtractorSteps(s: State, k: nat, cacheKey: string, created: int)
    requires k < |s.counted|
    ensures var t := Next(s, InstallExtractor(k, cacheKey, created));
            t.extractor == Some(Extractor(s.counted[k], created)) && t.key == Some(cacheKey) && t.models == s.models
    ensures Next(s, InstallNothing).extractor == None && Next(s, ClearExtractor).extractor == None
    ensures s.models != [] ==> Next(s, Unload).extractor == s.extractor
    ensures s.models == [] ==> Next(s, Unload).extractor == None && Next(s, Unload).models == []
  {
  }
}
