/** `ModelRegistry` of `ml-service/app/models/loader.py`: one method for each block under the lock. */
module ModelRegistry {
  import opened Wrappers
  import opened RegistryProtocol

  class Registry {
    var models: seq<Model>
    var extractor: Option<Extractor>
    var extractorKey: Option<string>
    var totalMemory: int
    ghost var counted: seq<nat>
    ghost var lost: nat
    ghost var clock: int

    /** The registry as a state of the protocol. */
    ghost function View(): State
      reads this
    {
      State(models, extractor, extractorKey, totalMemory, counted, lost, clock)
    }

    constructor ()
      ensures View() == START
    {
      models, extractor, extractorKey, totalMemory := [], None, None, 0;
      counted, lost, clock := [], 0, 0;
    }

    /** The position of a name in the dictionary. */
    method IndexOf(name: string) returns (k: nat)
      ensures k <= |models| && forall i :: 0 <= i < k ==> models[i].name != name
      ensures k < |models| ==> models[k].name == name
    {
      k := 0;
      while k < |models| && models[k].name != name
        invariant k <= |models| && forall i :: 0 <= i < k ==> models[i].name != name
      {
        k := k + 1;
      }
    }

    /** `get_model` up to the end of its locked block. */
    method TouchModel(name: string, now: int) returns (found: bool)
      requires Ordered(models, clock) && clock <= now
      modifies this
      ensures found <==> Find(old(models), name).Some?
      ensures View() == Next(old(View()), Step.TouchModel(name, now))
    {
      var k := IndexOf(name);
      SplitAt(models, name, k, clock);
      found := k < |models|;
      if found {
        var entry := models[k].(lastUsed := now);
        models := models[..k] + models[k + 1..] + [entry];
        clock := now;
      }
    }

    /** The locked block at the end of `_load`. */
    method InstallModel(name: string, bytes: nat, now: int)
      requires Ordered(models, clock) && clock <= now
      modifies this
      ensures View() == Next(old(View()), Step.InstallModel(name, bytes, now))
    {
      var k := IndexOf(name);
      SplitAt(models, name, k, clock);
      if k < |models| {
        lost := lost + models[k].bytes;
        models := models[..k] + models[k + 1..];
      }
      models := models + [Model(name, bytes, now)];
      totalMemory := totalMemory + bytes;
      clock := now;
    }

    /** The first locked block of `get_extractor_artifact`. */
    method TouchExtractor(cacheKey: string, now: int) returns (hit: bool)
      requires clock <= now
      modifies this
      ensures hit <==> old(extractor).Some? && old(extractorKey) == Some(cacheKey)
      ensures View() == Next(old(View()), Step.TouchExtractor(cacheKey, now))
    {
      hit := extractor.Some? && extractorKey == Some(cacheKey);
      if hit {
        extractor := Some(extractor.value.(lastUsed := now));
        clock := now;
      }
    }

    /** The locked block of `_load_extractor_artifact`. */
    method CountExtractor(bytes: nat)
      modifies this
      ensures View() == Next(old(View()), Step.CountExtractor(bytes))
    {
      totalMemory := totalMemory + bytes;
      counted := counted + [bytes];
    }

    /** The second locked block of `get_extractor_artifact`: `k` says which of the counted artifacts this is. */
    method InstallExtractor(artifact: Option<Extractor>, cacheKey: string, ghost k: nat)
      requires artifact.Some? ==> k < |counted| && artifact.value.bytes == counted[k]
      modifies this
      ensures View() == Next(old(View()),
                if artifact.Some? then Step.InstallExtractor(k, cacheKey, artifact.value.lastUsed) else InstallNothing)
    {
      lost := lost + ExtractorBytes(extractor);
      if artifact.Some? {
        counted := counted[..k] + counted[k + 1..];
      }
      extractor := artifact;
      extractorKey := if artifact.Some? then Some(cacheKey) else None;
    }

    method UnloadLru() returns (evicted: bool)
      modifies this
      ensures View() == Next(old(View()), Unload)
      ensures evicted <==> old(models) != [] || old(extractor).Some?
    {
      if extractor.Some? && models == [] {
        var entry := extractor.value;
        extractor, extractorKey := None, None;
        totalMemory := Max(0, totalMemory - entry.bytes);
        return true;
      }
      if models == [] {
        return false;
      }
      var entry := models[0];
      models := models[1..];
      totalMemory := totalMemory - entry.bytes;
      return true;
    }

    method ClearExtractorCache()
      modifies this
      ensures View() == Next(old(View()), ClearExtractor)
    {
      if extractor.Some? {
        totalMemory := Max(0, totalMemory - extractor.value.bytes);
      }
      extractor, extractorKey := None, None;
    }

    /**
     `_reserve_memory`, when no other thread interferes: it evicts as little as it can, oldest first and the extractor
     last, and stops short of the limit only with nothing left to evict.
     */
    method ReserveMemory(bytes: nat) returns (ghost evictions: nat)
      requires Invariant(View())
      modifies this
      ensures Invariant(View())
      ensures View() == After(old(View()), evictions)
      ensures totalMemory + bytes <= MAX_MEMORY_BYTES || (models == [] && extractor == None)
      ensures forall k :: 0 <= k < evictions ==> After(old(View()), k).total + bytes > MAX_MEMORY_BYTES
    {
      evictions := 0;
      while totalMemory + bytes > MAX_MEMORY_BYTES
        invariant Invariant(View()) && View() == After(old(View()), evictions)
        invariant forall k :: 0 <= k < evictions ==> After(old(View()), k).total + bytes > MAX_MEMORY_BYTES
        decreases |models| + if extractor.Some? then 1 else 0
      {
        StepKeeps(View(), Unload);
        var evicted := UnloadLru();
        if !evicted {
          break;
        }
        evictions := evictions + 1;
      }
    }
  }

  /** The state after a number of evictions. */
  ghost function After(s: State, evictions: nat): State {
    if evictions == 0 then s else Unloaded(After(s, evictions - 1))
  }

  /**
   With lost bytes alone over the limit no number of evictions is enough, so that a reservation
   empties the registry.
   */
  lemma {:induction false} LossForcesEviction(s: State, bytes: nat, evictions: nat)
    requires Invariant(s) && s.lost + bytes > MAX_MEMORY_BYTES
    ensures Invariant(After(s, evictions)) && After(s, evictions).lost == s.lost
    ensures After(s, evictions).total + bytes > MAX_MEMORY_BYTES
  {
    if evictions > 0 {
      LossForcesEviction(s, bytes, evictions - 1);
      StepKeeps(After(s, evictions - 1), Unload);
    }
  }

  lemma {:induction false} SplitAt(models: seq<Model>, name: string, k: nat, now: int)
    requires Ordered(models, now) && k <= |models|
    requires forall i :: 0 <= i < k ==> models[i].name != name
    requires k < |models| ==> models[k].name == name
    ensures k < |models| ==>
              Find(models, name) == Some(models[k]) && Without(models, name) == models[..k] + models[k + 1..]
    ensures k == |models| ==> Find(models, name) == None && Without(models, name) == models
    decreases |models|
  {
    if k == |models| {
      NotFound(models, name);
    } else {
      TailOrdered(models, now);
      hide Ordered;
      if k == 0 {
        NotFound(models[1..], name);
        assert models[..0] + models[1..] == models[1..];
      } else {
        SplitAt(models[1..], name, k - 1, now);
        assert models[..k] + models[k + 1..] == [models[0]] + (models[1..][..k - 1] + models[1..][k..]);
      }
    }
  }

  lemma {:induction false} TailOrdered(models: seq<Model>, now: int)
    requires Ordered(models, now) && models != []
    ensures Ordered(models[1..], now) && forall i :: 0 <= i < |models[1..]| ==> models[1..][i].name != models[0].name
  {
  }
}
