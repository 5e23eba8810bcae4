/** Graceful shutdown: which services stop, in which wave (src/shutdown/plan.rs). */
module Shutdown {
  import opened Collections
  import opened Graphs
  import opened Services
  import StartOrder

  datatype StopParticipant = StopParticipant(service: string, state: ServiceState, alreadyStopping: bool)

  datatype IgnoredService = IgnoredService(service: string, state: ServiceState)

  datatype StopWave = StopWave(services: seq<StopParticipant>)

  datatype ShutdownPlan = ShutdownPlan(
    completedToClear: seq<string>, startingToKill: seq<string>, stopWaves: seq<StopWave>, ignored: seq<IgnoredService>)

  datatype PlanError =
    | MissingRuntime(service: string)
    | MissingDefinition(service: string)
    | MissingReadyService(service: string)
    | DependencyCycle(services: seq<string>)

  predicate CompiledIn(services: ServiceTable, service: string) {
    service in services.entries && services.entries[service].definition.compiledIn
  }

  ghost predicate DependsHard(services: ServiceTable, dependent: string, target: string) {
    dependent in services.entries && HardDependsOn(services.entries[dependent].definition, target)
  }

  /** `dependent` must stop before `target`: it depends on it, or rests on it as a compiled-in service. */
  ghost predicate StopsBefore(services: ServiceTable, dependent: string, target: string) {
    DependsHard(services, dependent, target) || (!CompiledIn(services, dependent) && CompiledIn(services, target))
  }

  ghost function StopGraph(services: ServiceTable, candidates: set<string>): set<(string, string)> {
    set d, t | d in candidates && t in candidates && StopsBefore(services, d, t) :: (d, t)
  }

  predicate Records(dependents: map<string, set<string>>, target: string, dependent: string) {
    target in dependents && dependent in dependents[target]
  }

  /** Enter `dependent` under each of `targets`. */
  method Enter(dependents: map<string, set<string>>, targets: seq<string>, dependent: string)
    returns (r: map<string, set<string>>)
    ensures forall t, d :: Records(r, t, d) <==> Records(dependents, t, d) || (d == dependent && t in targets)
  {
    r := dependents;
    for k := 0 to |targets|
      invariant forall t, d :: Records(r, t, d) <==> Records(dependents, t, d) || (d == dependent && t in targets[..k])
    {
      var entries := if targets[k] in r then r[targets[k]] else {};
      r := r[targets[k] := entries + {dependent}];
      assert targets[..k + 1] == targets[..k] + [targets[k]];
    }
    assert targets[..|targets|] == targets;
  }

  /** Who among the candidates must stop before whom. */
  method DependentsByTarget(services: ServiceTable, candidates: seq<string>)
    returns (r: Result<map<string, set<string>>, PlanError>)
    ensures r.Ok? <==> Elements(candidates) <= services.entries.Keys
    ensures r.Ok? ==> forall t, d ::
              Records(r.value, t, d) <==> (d, t) in StopGraph(services, Elements(candidates))
  {
    var nodes := Elements(candidates);
    var restsOn := Filter(candidates, service => CompiledIn(services, service));
    var dependents := map[];
    for i := 0 to |candidates|
      invariant Elements(candidates[..i]) <= services.entries.Keys
      invariant forall t, d :: Records(dependents, t, d) <==>
                  d in candidates[..i] && (d, t) in StopGraph(services, nodes)
    {
      var dependent := candidates[i];
      assert candidates[..i + 1] == candidates[..i] + [dependent];
      if dependent !in services.entries {
        return Err(MissingDefinition(dependent));
      }
      var definition := services.entries[dependent].definition;
      if !definition.compiledIn {
        dependents := Enter(dependents, restsOn, dependent);
      }
      var hard := HardDependencies(definition);
      var targets := seq(|hard|, k requires 0 <= k < |hard| => hard[k].target);
      forall t ensures t in targets <==> HardDependsOn(definition, t) {
        HardDependencyTargets(definition, t);
        if t in targets {
          var k :| 0 <= k < |targets| && targets[k] == t;
          assert hard[k] in hard;
        }
        if d :| d in hard && d.target == t {
          var k :| 0 <= k < |hard| && hard[k] == d;
          assert targets[k] == t;
        }
      }
      dependents := Enter(dependents, Filter(targets, t => t in nodes), dependent);
    }
    assert candidates[..|candidates|] == candidates;
    r := Ok(dependents);
  }

  function WaveNames(wave: StopWave): set<string> {
    set p | p in wave.services :: p.service
  }

  /** The participants of `names`, one for each and in that order. */
  ghost predicate ListsInOrder(wave: StopWave, names: seq<string>, candidates: map<string, StopParticipant>) {
    && |wave.services| == |names|
    && forall i :: 0 <= i < |names| ==> names[i] in candidates && wave.services[i] == candidates[names[i]]
  }

  /** Take the ready services out of `remaining`, in order. */
  method TakeWave(ready: seq<string>, candidates: map<string, StopParticipant>)
    returns (r: Result<StopWave, PlanError>, remaining: map<string, StopParticipant>)
    requires Distinct(ready)
    requires forall s :: s in candidates ==> candidates[s].service == s
    ensures r.Ok? <==> Elements(ready) <= candidates.Keys
    ensures r.Ok? ==> WaveNames(r.value) == Elements(ready)
    ensures r.Ok? ==> ListsInOrder(r.value, ready, candidates)
    ensures r.Ok? ==> remaining == candidates - Elements(ready) && remaining.Keys == candidates.Keys - Elements(ready)
  {
    remaining := candidates;
    var wave := [];
    for i := 0 to |ready|
      invariant Elements(ready[..i]) <= candidates.Keys
      invariant remaining == candidates - Elements(ready[..i])
      invariant WaveNames(StopWave(wave)) == Elements(ready[..i])
      invariant ListsInOrder(StopWave(wave), ready[..i], candidates)
    {
      assert ready[i] !in ready[..i];
      assert ready[..i + 1] == ready[..i] + [ready[i]];
      if ready[i] !in remaining {
        return Err(MissingReadyService(ready[i])), remaining;
      }
      var participant := remaining[ready[i]];
      ghost var before := WaveNames(StopWave(wave));
      wave := wave + [participant];
      assert WaveNames(StopWave(wave)) == before + {ready[i]};
      remaining := remaining - {ready[i]};
    }
    assert ready[..|ready|] == ready;
    r := Ok(StopWave(wave));
  }

  /** Names in the order of the table. */
  function InTable(services: ServiceTable, names: set<string>): seq<string> {
    Filter(services.names, Among(names))
  }

  function ServicesOf(wave: StopWave): seq<string> {
    seq(|wave.services|, i requires 0 <= i < |wave.services| => wave.services[i].service)
  }

  /** Everybody is listed once, in the order of the table and as found. */
  ghost predicate ListsOnce(services: ServiceTable, wave: StopWave, candidates: map<string, StopParticipant>) {
    && (forall p :: p in wave.services ==> p.service in candidates && p == candidates[p.service])
    && ServicesOf(wave) == InTable(services, WaveNames(wave)) && Distinct(ServicesOf(wave))
  }

  /** Every wave holds exactly the candidates `waveOf` gives its index, each once and as it was found. */
  ghost predicate WavesFollow(
    services: ServiceTable, waves: seq<StopWave>, waveOf: map<string, int>, candidates: map<string, StopParticipant>)
  {
    forall k :: 0 <= k < |waves| ==>
      && WaveNames(waves[k]) == Layer(waveOf, k)
      && ListsOnce(services, waves[k], candidates)
  }

  /** The largest set of candidates each of which another of the set must stop before; it holds a cycle. */
  ghost predicate GenuinelyStuck(edges: set<(string, string)>, candidates: set<string>, stuck: seq<string>) {
    && stuck != [] && Distinct(stuck) && Elements(stuck) <= candidates
    && IsSelfFed(edges, Elements(stuck))
    && (forall others :: others <= candidates && IsSelfFed(edges, others) ==> others <= Elements(stuck))
    && (exists cycle :: IsCycle(edges, cycle) && Elements(cycle) <= Elements(stuck))
  }

  /** The remaining services that no remaining service must stop before. */
  method ReadyServices(services: ServiceTable, remaining: set<string>, ghost candidates: set<string>)
    returns (keys: seq<string>, ready: Result<seq<string>, PlanError>)
    requires services.Valid() && remaining <= candidates <= services.entries.Keys
    ensures Distinct(keys) && Elements(keys) == remaining && keys == InTable(services, remaining)
    ensures ready.Ok? && Distinct(ready.value) && Elements(ready.value) <= remaining
    ensures ready.Ok? && ready.value == InTable(services, Elements(ready.value))
    ensures forall s {:trigger HasPredecessor(StopGraph(services, candidates), remaining, s)} :: s in remaining ==>
              (s in Elements(ready.value) <==> !HasPredecessor(StopGraph(services, candidates), remaining, s))
  {
    keys := InTable(services, remaining);
    FilterKeepsDistinct(services.names, Among(remaining));
    assert Elements(keys) == remaining;
    var found := DependentsByTarget(services, keys);
    match found {
      case Err(error) =>
        ready := Err(error);
      case Ok(dependents) =>
        var undisturbed := name => name !in dependents || dependents[name] !! remaining;
        FilterKeepsDistinct(keys, undisturbed);
        ReadyHaveNoPredecessor(services, candidates, remaining, dependents);
        ready := Ok(Filter(keys, undisturbed));
        StaysInOrder(services, remaining, undisturbed);
    }
  }

  lemma StaysInOrder(services: ServiceTable, remaining: set<string>, keep: string -> bool)
    ensures var kept := Filter(InTable(services, remaining), keep);
            kept == InTable(services, Elements(kept))
  {
    var kept := Filter(InTable(services, remaining), keep);
    FilterTwice(services.names, Among(remaining), keep);
    FilterAgrees(services.names, Both(Among(remaining), keep), Among(Elements(kept)));
  }

  lemma ListedInOrder(
    services: ServiceTable, wave: StopWave, ready: seq<string>, candidates: map<string, StopParticipant>)
    requires ListsInOrder(wave, ready, candidates) && Distinct(ready) && WaveNames(wave) == Elements(ready)
    requires ready == InTable(services, Elements(ready)) && forall s :: s in candidates ==> candidates[s].service == s
    ensures ListsOnce(services, wave, candidates)
  {
    hide InTable, WaveNames;
    assert ServicesOf(wave) == ready;
  }

  /** One round of the planner: the next wave and what remains after it, or no wave when nobody is ready. */
  method NextWave(services: ServiceTable, remaining: map<string, StopParticipant>, ghost candidates: set<string>)
    returns (keys: seq<string>, wave: Option<StopWave>, after: map<string, StopParticipant>)
    requires services.Valid() && remaining.Keys <= candidates <= services.entries.Keys
    requires forall s :: s in remaining ==> remaining[s].service == s
    ensures Distinct(keys) && Elements(keys) == remaining.Keys && keys == InTable(services, remaining.Keys)
    ensures wave.None? ==> IsSelfFed(StopGraph(services, candidates), remaining.Keys)
    ensures wave.Some? ==>
              && AreReady(WaveNames(wave.value), remaining.Keys, StopGraph(services, candidates))
              && ListsOnce(services, wave.value, remaining)
              && after == remaining - WaveNames(wave.value)
              && after.Keys == remaining.Keys - WaveNames(wave.value)
  {
    var found;
    keys, found := ReadyServices(services, remaining.Keys, candidates);
    var ready := found.value;
    if ready == [] {
      return keys, None, remaining;
    }
    assert ready[0] in Elements(ready);
    var taken;
    taken, after := TakeWave(ready, remaining);
    wave := Some(taken.value);
    ListedInOrder(services, taken.value, ready, remaining);
  }

  /** Peel off, wave by wave, the services no remaining service must stop before. */
  method ReverseDependencyWaves(services: ServiceTable, candidates: map<string, StopParticipant>)
    returns (r: Result<seq<StopWave>, PlanError>, ghost waveOf: map<string, int>)
    requires services.Valid() && candidates.Keys <= services.entries.Keys
    requires forall s :: s in candidates ==> candidates[s].service == s
    ensures r.Ok? <==> Acyclic(StopGraph(services, candidates.Keys))
    ensures r.Ok? ==>
              && WavesFollow(services, r.value, waveOf, candidates)
              && IsLayering(waveOf, |r.value|, candidates.Keys, StopGraph(services, candidates.Keys))
    ensures r.Err? ==>
              && r.error.DependencyCycle?
              && GenuinelyStuck(StopGraph(services, candidates.Keys), candidates.Keys, r.error.services)
  {
    waveOf := map[];
    var remaining := candidates;
    var waves := [];
    while |remaining| > 0
      invariant remaining.Keys <= candidates.Keys
      invariant forall s :: s in remaining ==> remaining[s] == candidates[s]
      invariant PartlyLayered(waveOf, |waves|, remaining.Keys, candidates.Keys, StopGraph(services, candidates.Keys))
      invariant WavesFollow(services, waves, waveOf, candidates)
      decreases remaining.Keys
    {
      hide PartlyLayered, WavesFollow, ListsOnce, StopGraph, GenuinelyStuck, Acyclic, WaveNames, Place, IsLayering;
      var keys, wave, after := NextWave(services, remaining, candidates.Keys);
      if wave.None? {
        StuckMeansCycle(waveOf, |waves|, StopGraph(services, candidates.Keys), candidates.Keys, keys);
        return Err(DependencyCycle(keys)), waveOf;
      }
      AddWave(services, waves, wave.value, waveOf, remaining, candidates);
      waveOf := Place(waveOf, |waves|, WaveNames(wave.value));
      waves := waves + [wave.value];
      remaining := after;
    }
    assert remaining.Keys == {};
    hide PartlyLayered, WavesFollow, StopGraph, Acyclic, GenuinelyStuck;
    EdgesAmongCandidates(services, candidates.Keys);
    LayeredIsAcyclic(waveOf, |waves|, candidates.Keys, StopGraph(services, candidates.Keys));
    r := Ok(waves);
  }

  lemma EdgesAmongCandidates(services: ServiceTable, candidates: set<string>)
    ensures forall e :: e in StopGraph(services, candidates) ==> e.0 in candidates && e.1 in candidates
  {
  }

  /** Another wave of ready services extends the layering and is listed as it should be. */
  lemma AddWave(
    services: ServiceTable, waves: seq<StopWave>, wave: StopWave, waveOf: map<string, int>,
    remaining: map<string, StopParticipant>, candidates: map<string, StopParticipant>)
    requires remaining.Keys <= candidates.Keys && forall s :: s in remaining ==> remaining[s] == candidates[s]
    requires PartlyLayered(waveOf, |waves|, remaining.Keys, candidates.Keys, StopGraph(services, candidates.Keys))
    requires AreReady(WaveNames(wave), remaining.Keys, StopGraph(services, candidates.Keys))
    requires WavesFollow(services, waves, waveOf, candidates) && ListsOnce(services, wave, remaining)
    ensures waveOf.Keys !! WaveNames(wave) && forall s :: s in waveOf ==> waveOf[s] < |waves|
    ensures PartlyLayered(Place(waveOf, |waves|, WaveNames(wave)), |waves| + 1, remaining.Keys - WaveNames(wave),
                          candidates.Keys, StopGraph(services, candidates.Keys))
    ensures WavesFollow(services, waves + [wave], Place(waveOf, |waves|, WaveNames(wave)), candidates)
  {
    var ready := WaveNames(wave);
    EdgesAmongCandidates(services, candidates.Keys);
    assert waveOf.Keys !! ready && forall s :: s in waveOf ==> waveOf[s] < |waves|;
    PeelLayer(waveOf, |waves|, ready, remaining.Keys, candidates.Keys, StopGraph(services, candidates.Keys));
    assert ListsOnce(services, wave, candidates);
    hide PartlyLayered, StopGraph, ListsOnce, AreReady;
    var placed, more := Place(waveOf, |waves|, ready), waves + [wave];
    forall k | 0 <= k < |more|
      ensures WaveNames(more[k]) == Layer(placed, k) && ListsOnce(services, more[k], candidates)
    {
      if k < |waves| {
        assert more[k] == waves[k];
      }
    }
  }

  lemma StuckMeansCycle(
    waveOf: map<string, int>, n: nat, edges: set<(string, string)>, candidates: set<string>, stuck: seq<string>)
    requires stuck != [] && Distinct(stuck) && Elements(stuck) <= candidates && IsSelfFed(edges, Elements(stuck))
    requires PartlyLayered(waveOf, n, Elements(stuck), candidates, edges)
    ensures GenuinelyStuck(edges, candidates, stuck) && !Acyclic(edges)
  {
    assert stuck[0] in Elements(stuck);
    PredecessorsMakeCycle(edges, Elements(stuck));
    forall others | others <= candidates && IsSelfFed(edges, others) ensures others <= Elements(stuck) {
      forall x | x in others ensures x in Elements(stuck) {
        SelfFedIsUnplaced(waveOf, edges, others, x);
      }
    }
  }

  lemma ReadyHaveNoPredecessor(
    services: ServiceTable, candidates: set<string>, left: set<string>, dependents: map<string, set<string>>)
    requires left <= candidates
    requires forall t, d :: Records(dependents, t, d) <==> (d, t) in StopGraph(services, left)
    ensures forall s {:trigger HasPredecessor(StopGraph(services, candidates), left, s)} :: s in left ==>
              ((s !in dependents || dependents[s] !! left) <==>
               !HasPredecessor(StopGraph(services, candidates), left, s))
  {
    var edges := StopGraph(services, candidates);
    forall s | s in left
      ensures (s !in dependents || dependents[s] !! left) <==> !HasPredecessor(edges, left, s)
    {
      if HasPredecessor(edges, left, s) {
        var d :| d in left && (d, s) in edges;
        assert Records(dependents, s, d);
      }
      if s in dependents && !(dependents[s] !! left) {
        var d :| d in dependents[s] && d in left;
        assert Records(dependents, s, d);
        assert (d, s) in edges;
      }
    }
  }

  /** Those of `names` in one of the states, in order. */
  ghost function InStates(services: ServiceTable, names: seq<string>, states: set<ServiceState>): seq<string> {
    Filter(names, s => s in services.entries && services.entries[s].state in states)
  }

  lemma OneMoreInStates(services: ServiceTable, names: seq<string>, service: string, states: set<ServiceState>)
    ensures InStates(services, names + [service], states) ==
            if service in services.entries && services.entries[service].state in states
            then InStates(services, names, states) + [service] else InStates(services, names, states)
  {
    FilterAppend(names, service, s => s in services.entries && services.entries[s].state in states);
  }

  function StopCandidates(services: ServiceTable): map<string, StopParticipant> {
    map s | s in services.entries && IsStoppable(services.entries[s].state)
      :: StopParticipant(s, services.entries[s].state, services.entries[s].state.Stopping?)
  }

  predicate IsStoppable(state: ServiceState) { state.Active? || state.Reloading? || state.Stopping? }

  function IgnoredNames(ignored: seq<IgnoredService>): seq<string> {
    seq(|ignored|, i requires 0 <= i < |ignored| => ignored[i].service)
  }

  /** The services of `names` that are not stopped, each by its state. */
  ghost predicate Sorted(
    services: ServiceTable, names: seq<string>, completed: seq<string>, starting: seq<string>,
    ignored: seq<IgnoredService>)
  {
    && completed == InStates(services, names, {Completed})
    && starting == InStates(services, names, {Starting})
    && IgnoredNames(ignored) == InStates(services, names, {Inactive, Backoff, Failed, Abandoned, Skipped})
    && (forall x :: x in ignored ==> x.service in services.entries && x.state == services.entries[x.service].state)
  }

  function CandidatesAmong(services: ServiceTable, names: seq<string>): map<string, StopParticipant> {
    map s | s in StopCandidates(services) && s in names :: StopCandidates(services)[s]
  }

  lemma AddCandidate(services: ServiceTable, names: seq<string>, service: string)
    requires service in services.entries
    ensures CandidatesAmong(services, names + [service]) ==
            if IsStoppable(services.entries[service].state)
            then CandidatesAmong(services, names)[service := StopCandidates(services)[service]]
            else CandidatesAmong(services, names)
    ensures var state := services.entries[service].state;
            IsStoppable(state) ==> StopCandidates(services)[service] == StopParticipant(service, state, state.Stopping?)
  {
    assert forall s :: s in names + [service] <==> s in names || s == service;
  }

  lemma AddSorted(
    services: ServiceTable, names: seq<string>, service: string,
    completed: seq<string>, starting: seq<string>, ignored: seq<IgnoredService>)
    requires Sorted(services, names, completed, starting, ignored) && service in services.entries
    ensures var state := services.entries[service].state;
            Sorted(services, names + [service],
                   if state.Completed? then completed + [service] else completed,
                   if state.Starting? then starting + [service] else starting,
                   if state.Completed? || state.Starting? || IsStoppable(state) then ignored
                   else ignored + [IgnoredService(service, state)])
  {
    OneMoreInStates(services, names, service, {Completed});
    OneMoreInStates(services, names, service, {Starting});
    OneMoreInStates(services, names, service, {Inactive, Backoff, Failed, Abandoned, Skipped});
    hide InStates;
    var more := ignored + [IgnoredService(service, services.entries[service].state)];
    assert IgnoredNames(more) == IgnoredNames(ignored) + [service];
  }

  method SortServices(services: ServiceTable)
    returns (completed: seq<string>, starting: seq<string>, ignored: seq<IgnoredService>,
             candidates: map<string, StopParticipant>)
    requires services.Valid()
    ensures Sorted(services, services.names, completed, starting, ignored)
    ensures candidates == StopCandidates(services)
  {
    hide Sorted, CandidatesAmong, StopCandidates;
    completed, starting, ignored, candidates := [], [], [], map[];
    SortsFromNothing(services);
    assert services.names[..0] == [];
    for i := 0 to |services.names|
      invariant Sorted(services, services.names[..i], completed, starting, ignored)
      invariant candidates == CandidatesAmong(services, services.names[..i])
    {
      var service := services.names[i];
      assert services.names[..i + 1] == services.names[..i] + [service];
      assert service in services.entries.Keys;
      AddCandidate(services, services.names[..i], service);
      AddSorted(services, services.names[..i], service, completed, starting, ignored);
      var state := services.entries[service].state;
      match state {
        case Completed =>
          completed := completed + [service];
        case Starting =>
          starting := starting + [service];
        case Active | Reloading | Stopping =>
          candidates := candidates[service := StopParticipant(service, state, state.Stopping?)];
        case Inactive | Backoff | Failed | Abandoned | Skipped =>
          ignored := ignored + [IgnoredService(service, state)];
      }
    }
    assert services.names[..|services.names|] == services.names;
  }

  lemma SortsFromNothing(services: ServiceTable)
    requires services.Valid()
    ensures Sorted(services, [], [], [], []) && CandidatesAmong(services, []) == map[]
    ensures CandidatesAmong(services, services.names) == StopCandidates(services)
  {
    forall s | s in services.entries ensures s in services.names {
      assert s in Elements(services.names);
    }
  }

  /** Exactly the services that are up are in a wave, and those already stopping are marked. */
  ghost predicate WavesHold(services: ServiceTable, waves: seq<StopWave>) {
    && (forall s :: s in InStates(services, services.names, {Active, Reloading, Stopping}) <==>
          exists k :: 0 <= k < |waves| && s in WaveNames(waves[k]))
    && (forall k, p :: 0 <= k < |waves| && p in waves[k].services ==>
          && p.service in services.entries && p.state == services.entries[p.service].state
          && (p.alreadyStopping <==> p.state == Stopping))
  }

  lemma WavesAreOfCandidates(services: ServiceTable, waves: seq<StopWave>, waveOf: map<string, int>)
    requires services.Valid() && WavesFollow(services, waves, waveOf, StopCandidates(services))
    requires waveOf.Keys == StopCandidates(services).Keys && forall s :: s in waveOf ==> 0 <= waveOf[s] < |waves|
    ensures WavesHold(services, waves)
  {
    var candidates := StopCandidates(services);
    forall s ensures s in InStates(services, services.names, {Active, Reloading, Stopping}) <==>
                     exists k :: 0 <= k < |waves| && s in WaveNames(waves[k]) {
      assert s in Elements(services.names) <==> s in services.entries;
      assert s in InStates(services, services.names, {Active, Reloading, Stopping}) <==> s in waveOf;
      hide ListsOnce, StopCandidates, InStates;
      if s in waveOf {
        assert s in Layer(waveOf, waveOf[s]) && s in WaveNames(waves[waveOf[s]]);
      }
    }
  }

  /** Sort the services by what shutdown does with them, and the ones to stop into waves. */
  method PlanGracefulShutdown(services: ServiceTable)
    returns (r: Result<ShutdownPlan, PlanError>, ghost waveOf: map<string, int>)
    requires services.Valid()
    ensures r.Ok? <==> Acyclic(StopGraph(services, StopCandidates(services).Keys))
    ensures r.Err? ==>
              && r.error.DependencyCycle?
              && GenuinelyStuck(StopGraph(services, StopCandidates(services).Keys), StopCandidates(services).Keys,
                                r.error.services)
    ensures r.Ok? ==>
              && Sorted(services, services.names, r.value.completedToClear, r.value.startingToKill, r.value.ignored)
              && WavesFollow(services, r.value.stopWaves, waveOf, StopCandidates(services))
              && WavesHold(services, r.value.stopWaves)
              && IsLayering(waveOf, |r.value.stopWaves|, StopCandidates(services).Keys,
                            StopGraph(services, StopCandidates(services).Keys))
  {
    var completed, starting, ignored, candidates := SortServices(services);
    var waves;
    waves, waveOf := ReverseDependencyWaves(services, candidates);
    if waves.Err? {
      return Err(waves.error), waveOf;
    }
    WavesAreOfCandidates(services, waves.value, waveOf);
    r := Ok(ShutdownPlan(completed, starting, waves.value, ignored));
  }

  /** What the start planner orders a service after. */
  function DependencyTargets(services: ServiceTable): string -> seq<string> {
    service =>
      if service in services.entries then StartOrderDependencyTargets(services.entries[service].definition) else []
  }

  ghost predicate LeansOnRegistry(services: ServiceTable, c: string, t: string) {
    && c in services.entries && services.entries[c].definition.compiledIn
    && !(t in services.entries && services.entries[t].definition.compiledIn)
    && HardDependsOn(services.entries[c].definition, t)
  }

  /** A compiled-in candidate hard-depends on one the registry defines. */
  ghost predicate CompiledInLeansOnRegistry(services: ServiceTable, candidates: set<string>) {
    exists c, t :: c in candidates && t in candidates && LeansOnRegistry(services, c, t)
  }

  /** A hard dependency is placed before its dependent in any start order of a set that holds both. */
  lemma StartsBefore(services: ServiceTable, startable: set<string>, order: seq<string>, a: string, b: string)
    requires StartOrder.IsStartOrder(order, startable, StartOrder.StartGraph(startable, DependencyTargets(services)))
    requires a in startable && b in startable && DependsHard(services, a, b)
    ensures a in StartOrder.Positions(order) && b in StartOrder.Positions(order)
    ensures StartOrder.Positions(order)[b] < StartOrder.Positions(order)[a]
  {
    HardDependencyOrdersStart(services.entries[a].definition, b);
    assert b in DependencyTargets(services)(a);
    assert (a, b) in StartOrder.StartGraph(startable, DependencyTargets(services));
    assert a in order && b in order;
    var i :| 0 <= i < |order| && order[i] == a;
    assert b in order[..i];
  }

  /** Once a start order exists for a set that holds the stop candidates, the waves can be planned
      exactly when no compiled-in candidate hard-depends on a registry-defined one. */
  lemma StartableMeansStoppable(
    services: ServiceTable, startable: set<string>, order: seq<string>, candidates: set<string>)
    requires StartOrder.IsStartOrder(order, startable, StartOrder.StartGraph(startable, DependencyTargets(services)))
    requires candidates <= startable
    ensures Acyclic(StopGraph(services, candidates)) <==> !CompiledInLeansOnRegistry(services, candidates)
  {
    var edges := StopGraph(services, candidates);
    if CompiledInLeansOnRegistry(services, candidates) {
      var c, t :| c in candidates && t in candidates && LeansOnRegistry(services, c, t);
      assert IsCycle(edges, [c, t]);
    } else {
      var position := StartOrder.Positions(order);
      var rank := map s | s in candidates :: position[s] + if CompiledIn(services, s) then 0 else |order|;
      forall e | e in edges ensures rank[e.0] > rank[e.1] {
        if DependsHard(services, e.0, e.1) {
          StartsBefore(services, startable, order, e.0, e.1);
        }
        assert e.0 in order && e.1 in order;
      }
      RankedIsAcyclic(edges, rank);
    }
  }

  /** Starting and stopping mirror each other: a dependent starts after its dependency and stops in an earlier wave. */
  lemma StartAndStopMirror(
    services: ServiceTable, startable: set<string>, order: seq<string>, candidates: set<string>,
    waveOf: map<string, int>, n: nat, a: string, b: string)
    requires StartOrder.IsStartOrder(order, startable, StartOrder.StartGraph(startable, DependencyTargets(services)))
    requires candidates <= startable && IsLayering(waveOf, n, candidates, StopGraph(services, candidates))
    requires a in candidates && b in candidates && a in services.entries
    requires HardDependsOn(services.entries[a].definition, b)
    ensures StartOrder.Positions(order)[b] < StartOrder.Positions(order)[a] && waveOf[a] < waveOf[b]
  {
    StartsBefore(services, startable, order, a, b);
    assert (a, b) in StopGraph(services, candidates);
  }

  /** Of two services to stop, the one that hard-depends on the other is in an earlier
      wave, and so is one that the registry defines when the other is compiled in. */
  lemma StopsInOrder(
    services: ServiceTable, candidates: set<string>, waveOf: map<string, int>, n: nat, a: string, b: string)
    requires IsLayering(waveOf, n, candidates, StopGraph(services, candidates))
    requires a in candidates && b in candidates && a in services.entries && b in services.entries
    requires var first, second := services.entries[a].definition, services.entries[b].definition;
             HardDependsOn(first, b) || (second.compiledIn && !first.compiledIn)
    ensures waveOf[a] < waveOf[b]
  {
    assert (a, b) in StopGraph(services, candidates);
  }
}
