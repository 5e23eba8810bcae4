/** The boot planner over definitions as they are declared: roles first, then the graph (src/boot/phase2/planner.rs). */
module BootPlan {
  import opened Collections
  import opened Services
  import opened Graphs
  import opened Names
  import opened CycleReports
  import opened BootGraph
  import opened SafeMode
  import Roles
  import Shutdown
  import StartOrder

  /** What service `i` must wait for: what its hard dependencies stand
      for, and the authority's providers if it needs one. */
  ghost predicate MustWaitFor(definitions: seq<ServiceDefinition>, i: nat, p: string)
    requires i < |definitions|
  {
    || Roles.DeclaresHard(definitions, i, p)
    || (Roles.RunsAsOther(definitions[i]) && "authn" !in definitions[i].roles
        && Roles.ProvidesAuthority(definitions, p) && p != definitions[i].name)
  }

  /** Every started service comes after all it must wait for, save what was retained and what the mode left out. */
  ghost predicate WaitsForAll(
    mode: BootMode, definitions: seq<ServiceDefinition>, byName: Definitions, starts: seq<string>,
    retained: seq<string>)
  {
    forall i, k, p :: 0 <= i < |definitions| && 0 <= k < |starts| && starts[k] == definitions[i].name
                      && MustWaitFor(definitions, i, p) ==>
                        p in starts[..k] || p in retained || LeftOutByMode(mode, byName, p)
  }

  /** After synthesis it depends hard on all of them. */
  lemma SynthesisCoversAll(definitions: seq<ServiceDefinition>, i: nat, p: string)
    requires Roles.UsableNames(definitions) && i < |definitions| && MustWaitFor(definitions, i, p)
    ensures HardDependsOn(Roles.Synthesised(definitions)[i], p)
  {
    var d, s := definitions[i], Roles.Synthesised(definitions)[i];
    if Roles.DeclaresHard(definitions, i, p) {
      var x :| (Roles.Declares(definitions, d.name, d.required, x) || Roles.Declares(definitions, d.name, d.bindsTo, x))
               && SplitTarget(x).0 == p;
      Roles.SynthesisMeaning(definitions, i, x);
      assert x in s.required + s.bindsTo;
    } else {
      Roles.AuthorityEdgeWhen(definitions, i, p);
    }
  }

  /** What a filter keeps stays in the same order. */
  lemma {:induction false} KeptInOrder(order: seq<string>, keep: string -> bool, i: nat, k: nat)
    requires Distinct(order) && i < |order| && k < |Filter(order, keep)| && Filter(order, keep)[k] == order[i]
    ensures Filter(order, keep)[..k] == Filter(order[..i], keep)
  {
    var kept, rest := Filter(order, keep), Filter(order[1..], keep);
    assert kept[k] in kept && order[0] !in order[1..];
    if i == 0 {
      FilterKeepsDistinct(order, keep);
      assert kept[0] == order[0];
      assert k == 0;
    } else {
      assert order[i] == order[1..][i - 1] && order[i] != order[0];
      assert order[..i][1..] == order[1..][..i - 1];
      if keep(order[0]) {
        assert k > 0;
        KeptInOrder(order[1..], keep, i - 1, k - 1);
        assert kept[..k] == [order[0]] + rest[..k - 1];
      } else {
        KeptInOrder(order[1..], keep, i - 1, k);
      }
    }
  }

  /** What is left to start of an order when some services were retained from before. */
  function StillToStart(order: seq<string>, retained: seq<string>): seq<string> {
    Filter(order, s => s !in retained)
  }

  lemma StartsAreOrdered(order: seq<string>, retained: seq<string>, k: nat) returns (i: nat)
    requires Distinct(order) && k < |StillToStart(order, retained)|
    ensures i < |order| && order[i] == StillToStart(order, retained)[k]
    ensures forall p :: p in order[..i] ==> p in retained || p in StillToStart(order, retained)[..k]
  {
    var starts := StillToStart(order, retained);
    assert starts[k] in starts;
    i :| 0 <= i < |order| && order[i] == starts[k];
    KeptInOrder(order, s => s !in retained, i, k);
  }

  lemma PlanWaitsForAll(
    mode: BootMode, definitions: seq<ServiceDefinition>, byName: Definitions, order: seq<string>, retained: seq<string>)
    requires Roles.UsableNames(definitions) && IsServiceMap(Roles.Synthesised(definitions), byName)
    requires Distinct(order) && HardDependenciesFirst(order, mode, byName)
    ensures WaitsForAll(mode, definitions, byName, StillToStart(order, retained), retained)
  {
    var synthesised, starts := Roles.Synthesised(definitions), StillToStart(order, retained);
    hide MustWaitFor, HardDependsOn, HardDependencies, LeftOutByMode, StillToStart, Distinct;
    Roles.SynthesisKeepsRoles(definitions);
    hide Roles.Synthesised;
    forall i, k, p | 0 <= i < |definitions| && 0 <= k < |starts| && starts[k] == definitions[i].name
                     && MustWaitFor(definitions, i, p)
      ensures p in starts[..k] || p in retained || LeftOutByMode(mode, byName, p)
    {
      var at := StartsAreOrdered(order, retained, k);
      SynthesisCoversAll(definitions, i, p);
      assert synthesised[i] in synthesised && byName[order[at]] == synthesised[i];
      HardDependencyTargets(synthesised[i], p);
      var d :| d in HardDependencies(synthesised[i]) && d.target == p;
    }
  }

  lemma SynthesisKeepsDistinctNames(definitions: seq<ServiceDefinition>)
    ensures DistinctNames(Roles.Synthesised(definitions)) <==> DistinctNames(definitions)
  {
    Roles.SynthesisKeepsRoles(definitions);
    hide Roles.Synthesised;
    var s := Roles.Synthesised(definitions);
    assert forall i :: 0 <= i < |definitions| ==> s[i].name == definitions[i].name;
  }

  lemma ServiceMapIsUnique(services: seq<ServiceDefinition>, a: Definitions, b: Definitions)
    requires IsServiceMap(services, a) && IsServiceMap(services, b)
    ensures a == b
  {
    assert forall n :: n in a ==> a[n] in services && n in b && b[n] == a[n];
    assert forall n :: n in b ==> b[n] in services && n in a;
  }

  /** The services of a boot in name order are settled by its mode and its definitions. */
  lemma ClosureIsUnique(
    mode: BootMode, services: seq<ServiceDefinition>, byName: Definitions, a: seq<string>, b: seq<string>)
    requires IsClosureInOrder(mode, services, byName, a) && IsClosureInOrder(mode, services, byName, b)
    ensures a == b
  {
    hide PulledByRoot, IsNameOrder;
    assert forall x :: x in a <==> x in b;
    NameOrderIsUnique(a, b);
  }

  datatype PlanError = InvalidMaxParallelStarts | DuplicateService(service: string)

  /** The mode that takes effect, what forced it, and what is started and blocked. */
  datatype Plan = Plan(mode: BootMode, downgrade: Downgrade, starts: seq<string>, blocked: Blocked)

  const NOTHING := Downgrade([], [])

  /** How a plan was come by: the definitions, a full boot's services, this boot's, and their order. */
  datatype Trace = Trace(byName: Definitions, full: seq<string>, included: seq<string>, order: seq<string>)

  /** A full boot stands unless its graph would fail a critical service for a cycle or a conflict. */
  ghost predicate IsRightMode(mode: BootMode, services: seq<ServiceDefinition>, plan: Plan, trace: Trace) {
    if mode == Full then
      && IsClosureInOrder(Full, services, trace.byName, trace.full)
      && IsDowngradeOf(trace.full, trace.byName, plan.downgrade)
      && plan.mode == if HoldsCritical(trace.full, trace.byName) then Safe else Full
    else plan.mode == mode && plan.downgrade == NOTHING
  }

  /** What is started is settled in every respect, and what is not has an account. */
  ghost predicate IsSoundPlan(
    services: seq<ServiceDefinition>, invalid: seq<(string, string)>, retained: seq<string>, plan: Plan, trace: Trace)
  {
    && IsClosureInOrder(plan.mode, services, trace.byName, trace.included)
    && StartOrder.IsStartOrder(trace.order, Elements(trace.included) - plan.blocked.Keys,
         StartOrder.StartGraph(Elements(trace.included) - plan.blocked.Keys, OrderTargets(trace.byName)))
    && IsSearchOrder(trace.order, trace.included, trace.byName, plan.blocked.Keys)
    && plan.starts == StillToStart(trace.order, retained)
    && HardDependenciesFirst(trace.order, plan.mode, trace.byName)
    && Accountable(plan.blocked, trace.byName, invalid)
    && (forall s :: s in plan.blocked <==> IsDoomed(trace.included, trace.byName, invalid, s))
    && GraphFindings(plan.blocked) == HeldInGraph(trace.included, trace.byName)
    && (forall s, message :: (s, message) in invalid ==> s in plan.blocked)
    && Propagated(trace.included, trace.byName, plan.blocked)
    && (forall a, b :: a in trace.order && b in trace.order ==> !InConflict(trace.byName, a, b))
  }

  /** Plan a boot of declared definitions; a recovery boot starts nothing. */
  method PrepareBootPlan(
    mode: BootMode, services: seq<ServiceDefinition>, maxParallelStarts: u32, invalid: seq<(string, string)>,
    retained: seq<string>)
    returns (r: Result<Plan, PlanError>, ghost trace: Trace)
    ensures r.Ok? <==> maxParallelStarts > 0 && (mode == Recovery || DistinctNames(services))
    ensures r.Err? ==> (r.error == InvalidMaxParallelStarts <==> maxParallelStarts == 0)
    ensures r.Ok? && mode == Recovery ==> r.value == Plan(Recovery, NOTHING, [], map[])
    ensures r.Ok? && mode != Recovery ==>
              && IsServiceMap(Roles.Synthesised(services), trace.byName)
              && IsRightMode(mode, Roles.Synthesised(services), r.value, trace)
              && IsSoundPlan(Roles.Synthesised(services), invalid, retained, r.value, trace)
    ensures r.Ok? && mode != Recovery && Roles.UsableNames(services) ==>
              WaitsForAll(r.value.mode, services, trace.byName, r.value.starts, retained)
  {
    hide IsServiceMap, IsBootClosure, HardDependenciesFirst, Accountable, Propagated, InConflict, GraphFindings,
         HeldInGraph, IsReport, Reported, OrderTargets, StartOrder.StartGraph, StartOrder.IsStartOrder, WaitsForAll,
         PulledByRoot, Roles.Synthesised, Roles.UsableNames, IsDowngradeOf, HoldsCritical, IsNameOrder, StillToStart,
         DistinctNames, IsSearchOrder, IsDoomed;
    trace := Trace(map[], [], [], []);
    if maxParallelStarts == 0 {
      return Err(InvalidMaxParallelStarts), trace;
    }
    if mode == Recovery {
      return Ok(Plan(Recovery, NOTHING, [], map[])), trace;
    }
    SynthesisKeepsDistinctNames(services);
    var synthesised := Roles.SynthesiseRoleDependencies(services);
    var downgrade := NOTHING;
    ghost var full, definitions := [], map[];
    if mode == Full {
      var findings;
      findings, full, definitions := SafeModeDowngradeFindings(synthesised, invalid);
      if findings.Err? {
        return Err(DuplicateService(findings.error)), trace;
      }
      downgrade := findings.value;
    }
    var effective := if downgrade.IsRequired() then Safe else mode;
    var graph;
    ghost var included, byName;
    graph, included, byName := BuildPhase2BootGraph(effective, synthesised, invalid);
    if graph.Err? {
      return Err(DuplicateService(graph.error)), trace;
    }
    var (order, blocked) := graph.value;
    if mode == Full {
      ServiceMapIsUnique(synthesised, definitions, byName);
    }
    forall x ensures x in included <==> PulledByRoot(effective, synthesised, byName, x) {
      ClosureIsExact(effective, synthesised, byName, included, blocked, invalid, x);
    }
    trace := Trace(byName, full, included, order);
    r := Ok(Plan(effective, downgrade, StillToStart(order, retained), blocked));
    if Roles.UsableNames(services) {
      OrderIsDistinct(order, Elements(included) - blocked.Keys, byName);
      PlanWaitsForAll(effective, services, byName, order, retained);
    }
  }

  lemma OrderIsDistinct(order: seq<string>, startable: set<string>, byName: Definitions)
    requires StartOrder.IsStartOrder(order, startable, StartOrder.StartGraph(startable, OrderTargets(byName)))
    ensures Distinct(order)
  {
  }

  // ----- what a plan promises -----

  /** A full boot that stands fails no critical service for a cycle or a conflict. */
  lemma FullPlanSparesCriticals(
    services: seq<ServiceDefinition>, invalid: seq<(string, string)>, retained: seq<string>, plan: Plan, trace: Trace,
    s: string, reason: BlockedReason)
    requires IsRightMode(Full, services, plan, trace) && IsSoundPlan(services, invalid, retained, plan, trace)
    requires plan.mode == Full && s in trace.byName && trace.byName[s].errorControl == Critical
    requires reason.CycleDetected? || reason.ConflictingBootService?
    ensures reason !in FoundAgainst(plan.blocked, s)
  {
    hide HeldInGraph, Accountable, Propagated, HardDependenciesFirst, IsDowngradeOf, PulledByRoot, IsNameOrder,
         StartOrder.IsStartOrder, StartOrder.StartGraph, InConflict;
    ClosureIsUnique(Full, services, trace.byName, trace.full, trace.included);
    assert (s, reason) !in HeldInGraph(trace.full, trace.byName);
  }

  /** Plans of the same definitions agree on the mode, on what is blocked and on what is started, in the same order. */
  lemma PlansAgree(
    mode: BootMode, services: seq<ServiceDefinition>, invalid: seq<(string, string)>, retained: seq<string>,
    plan: Plan, trace: Trace, plan': Plan, trace': Trace)
    requires IsServiceMap(services, trace.byName) && IsServiceMap(services, trace'.byName)
    requires IsRightMode(mode, services, plan, trace) && IsSoundPlan(services, invalid, retained, plan, trace)
    requires IsRightMode(mode, services, plan', trace') && IsSoundPlan(services, invalid, retained, plan', trace')
    ensures plan.mode == plan'.mode && plan.downgrade == plan'.downgrade
    ensures plan.starts == plan'.starts && plan.blocked.Keys == plan'.blocked.Keys
  {
    hide IsServiceMap, HeldInGraph, Accountable, Propagated, HardDependenciesFirst, PulledByRoot, IsNameOrder,
         StartOrder.IsStartOrder, StartOrder.StartGraph, InConflict, GraphFindings, IsDoomed, HoldsCritical,
         StillToStart, StartOrder.VisitAll, Unblocked, IsDowngradeOf;
    ServiceMapIsUnique(services, trace.byName, trace'.byName);
    if mode == Full {
      ClosureIsUnique(Full, services, trace.byName, trace.full, trace'.full);
      DowngradeIsUnique(trace.full, trace.byName, plan.downgrade, plan'.downgrade);
    }
    ClosureIsUnique(plan.mode, services, trace.byName, trace.included, trace'.included);
    assert forall s :: s in plan.blocked <==> s in plan'.blocked;
    assert plan.blocked.Keys == plan'.blocked.Keys;
    assert trace.order == trace'.order;
  }

  /** No service that is invalid, blocked or retained is started. */
  lemma StartsNothingInvalid(
    services: seq<ServiceDefinition>, invalid: seq<(string, string)>, retained: seq<string>, plan: Plan, trace: Trace,
    s: string)
    requires IsSoundPlan(services, invalid, retained, plan, trace) && s in plan.starts
    ensures s in trace.included && s !in plan.blocked && s !in retained
    ensures forall message :: (s, message) !in invalid
  {
    hide Accountable, Propagated, HardDependenciesFirst, StartOrder.StartGraph, InConflict, PulledByRoot, IsNameOrder;
    assert s in Elements(trace.order);
  }

  /** A service that a boot of this mode is to start. */
  ghost predicate IsToBoot(mode: BootMode, d: ServiceDefinition) {
    && d.bootTrigger && !d.disabled
    && (mode == Safe ==> d.safeMode || d.errorControl == Critical)
  }

  /** A service that a boot of this mode may hold: in a safe boot, only one that it is to start itself. */
  ghost predicate MayBoot(mode: BootMode, d: ServiceDefinition) {
    if mode == Safe then IsToBoot(Safe, d) else !d.disabled
  }

  /** A boot starts, blocks or has retained every service it is to start, and holds none that it may not. */
  lemma BootHolds(
    services: seq<ServiceDefinition>, invalid: seq<(string, string)>, retained: seq<string>, plan: Plan, trace: Trace,
    k: nat)
    requires IsServiceMap(Roles.Synthesised(services), trace.byName)
    requires IsSoundPlan(Roles.Synthesised(services), invalid, retained, plan, trace)
    requires plan.mode != Recovery && k < |services|
    ensures IsToBoot(plan.mode, services[k]) ==>
              services[k].name in plan.starts || services[k].name in retained || services[k].name in plan.blocked
    ensures services[k].name in trace.included || services[k].name in plan.starts ==> MayBoot(plan.mode, services[k])
  {
    var d, s := services[k], Roles.Synthesised(services)[k];
    Roles.OnlyListsChange(services, k);
    assert s in Roles.Synthesised(services) && trace.byName[d.name] == s;
    if IsToBoot(plan.mode, d) {
      assert d in services && IsRoot(plan.mode, d);
      RootsAreAccountedFor(services, invalid, retained, plan, trace, d);
    }
    if d.name in plan.starts {
      StartsNothingInvalid(Roles.Synthesised(services), invalid, retained, plan, trace, d.name);
    }
    if d.name in trace.included {
      hide Roles.Synthesised, Accountable, Propagated, HardDependenciesFirst, StartOrder.StartGraph, InConflict,
           IsNameOrder;
      PulledMayBoot(plan.mode, Roles.Synthesised(services), trace.byName, d.name);
    }
  }

  /** Of two boot services of which one declares a conflict with the other
      at most one is started, and if both are to be, both are blocked. */
  lemma ConflictsAreKeptApart(
    services: seq<ServiceDefinition>, invalid: seq<(string, string)>, retained: seq<string>, plan: Plan, trace: Trace,
    i: nat, j: nat)
    requires IsServiceMap(Roles.Synthesised(services), trace.byName)
    requires IsSoundPlan(Roles.Synthesised(services), invalid, retained, plan, trace)
    requires i < |services| && j < |services| && services[j].name in services[i].conflicts
    requires services[i].bootTrigger && services[j].bootTrigger && plan.mode != Recovery
    ensures services[i].name !in plan.starts || services[j].name !in plan.starts
    ensures IsToBoot(plan.mode, services[i]) && IsToBoot(plan.mode, services[j]) ==>
              services[i].name in plan.blocked && services[j].name in plan.blocked
  {
    var synthesised := Roles.Synthesised(services);
    var a, b := services[i].name, services[j].name;
    Roles.OnlyListsChange(services, i);
    Roles.OnlyListsChange(services, j);
    assert synthesised[i] in synthesised && synthesised[j] in synthesised;
    assert InConflict(trace.byName, a, b);
    hide Roles.Synthesised, Accountable, Propagated, HardDependenciesFirst, StartOrder.StartGraph, IsNameOrder;
    if IsToBoot(plan.mode, services[i]) && IsToBoot(plan.mode, services[j]) {
      IsIncludedWhenToBoot(services, synthesised, trace.byName, plan.mode, i);
      IsIncludedWhenToBoot(services, synthesised, trace.byName, plan.mode, j);
      assert (a, ConflictingBootService(b)) in HeldInGraph(trace.included, trace.byName);
      assert (b, ConflictingBootService(a)) in HeldInGraph(trace.included, trace.byName);
      assert (a, ConflictingBootService(b)) in GraphFindings(plan.blocked);
      assert (b, ConflictingBootService(a)) in GraphFindings(plan.blocked);
    }
  }

  lemma IsIncludedWhenToBoot(
    services: seq<ServiceDefinition>, synthesised: seq<ServiceDefinition>, byName: Definitions, mode: BootMode, i: nat)
    requires synthesised == Roles.Synthesised(services) && i < |services| && IsToBoot(mode, services[i])
    requires mode != Recovery
    ensures PulledByRoot(mode, synthesised, byName, services[i].name)
  {
    Roles.OnlyListsChange(services, i);
    assert synthesised[i] in synthesised && IsRoot(mode, synthesised[i]);
    PullsSelf(mode, byName, services[i].name);
  }

  /** What a booted service depends on, in any of the three ways, is booted too if the boot may hold it. */
  lemma BootPulls(
    services: seq<ServiceDefinition>, invalid: seq<(string, string)>, retained: seq<string>, plan: Plan, trace: Trace,
    s: string, entry: string)
    requires IsServiceMap(services, trace.byName) && plan.mode != Recovery
    requires IsSoundPlan(services, invalid, retained, plan, trace)
    requires s in trace.included && s in trace.byName && SplitTarget(entry).0 in trace.byName
    requires var d := trace.byName[s]; entry in d.required || entry in d.bindsTo || entry in d.wants
    requires MayBoot(plan.mode, trace.byName[SplitTarget(entry).0])
    ensures SplitTarget(entry).0 in trace.included
  {
    var d, t := trace.byName[s], SplitTarget(entry).0;
    var declared := d.required + d.bindsTo + d.wants;
    assert entry in declared;
    var k :| 0 <= k < |declared| && declared[k] == entry;
    assert StartOrderDependencyTargets(d)[k] == t;
    assert (s, t) in PullGraph(plan.mode, trace.byName);
    hide Accountable, Propagated, HardDependenciesFirst, StartOrder.StartGraph, InConflict, IsNameOrder, PullGraph,
         StartOrderDependencyTargets;
    var root :| root in services && IsRoot(plan.mode, root) && Pulls(plan.mode, trace.byName, root.name, s);
    PullsOn(plan.mode, trace.byName, root.name, s, t);
    assert PulledByRoot(plan.mode, services, trace.byName, t);
  }

  lemma PullsOn(mode: BootMode, byName: Definitions, service: string, s: string, t: string)
    requires Pulls(mode, byName, service, s) && (s, t) in PullGraph(mode, byName)
    ensures Pulls(mode, byName, service, t)
  {
    hide PullGraph, WalkTo;
    var walk :| walk != [] && walk[0] == service && WalkTo(PullGraph(mode, byName), walk, s);
    AppendToWalk(PullGraph(mode, byName), walk, s, t);
    assert (walk + [t])[0] == service;
  }

  /** What a root pulls in is a root or available. */
  lemma PulledMayBoot(mode: BootMode, services: seq<ServiceDefinition>, byName: Definitions, x: string)
    requires IsServiceMap(services, byName) && PulledByRoot(mode, services, byName, x) && mode != Recovery
    ensures x in byName && MayBoot(mode, byName[x])
  {
    var d :| d in services && IsRoot(mode, d) && Pulls(mode, byName, d.name, x);
    var walk :| walk != [] && walk[0] == d.name && WalkTo(PullGraph(mode, byName), walk, x);
    if |walk| > 1 {
      assert (walk[|walk| - 2], walk[|walk| - 1]) in PullGraph(mode, byName);
    }
  }

  /** In a full boot a started service comes after everything it must wait for; in a safe
      boot, after all of it that the boot may hold, the rest being defined and enabled. */
  lemma WaitsPlainly(
    mode: BootMode, definitions: seq<ServiceDefinition>, byName: Definitions, starts: seq<string>,
    retained: seq<string>, i: nat, k: nat, p: string)
    requires WaitsForAll(mode, definitions, byName, starts, retained) && mode != Recovery
    requires i < |definitions| && k < |starts| && starts[k] == definitions[i].name && MustWaitFor(definitions, i, p)
    ensures p in starts[..k] || p in retained ||
            (mode == Safe && p in byName && !byName[p].disabled && !IsToBoot(Safe, byName[p]))
  {
    hide MustWaitFor;
  }

  /** Every service that the mode boots is started, blocked with an account, or retained. */
  lemma RootsAreAccountedFor(
    services: seq<ServiceDefinition>, invalid: seq<(string, string)>, retained: seq<string>, plan: Plan, trace: Trace,
    d: ServiceDefinition)
    requires IsSoundPlan(Roles.Synthesised(services), invalid, retained, plan, trace)
    requires d in services && IsRoot(plan.mode, d)
    ensures d.name in plan.starts || d.name in retained || d.name in plan.blocked
  {
    hide Accountable, Propagated, HardDependenciesFirst, StartOrder.StartGraph, InConflict, Pulls, IsNameOrder;
    var synthesised := Roles.Synthesised(services);
    var i :| 0 <= i < |services| && services[i] == d;
    Roles.OnlyListsChange(services, i);
    assert synthesised[i] in synthesised && IsRoot(plan.mode, synthesised[i]);
    PullsSelf(plan.mode, trace.byName, d.name);
    assert PulledByRoot(plan.mode, synthesised, trace.byName, d.name);
    assert d.name in plan.blocked || d.name in Elements(trace.order);
  }

  // ----- from boot to shutdown -----

  /** The table holds the planned definitions of the ordered services. */
  ghost predicate Holds(table: ServiceTable, trace: Trace) {
    forall s :: s in trace.order ==>
      s in trace.byName && s in table.entries && table.entries[s].definition == trace.byName[s]
  }

  lemma SameStartGraph(table: ServiceTable, trace: Trace, startable: set<string>)
    requires Holds(table, trace) && startable <= Elements(trace.order)
    ensures StartOrder.StartGraph(startable, OrderTargets(trace.byName)) ==
            StartOrder.StartGraph(startable, Shutdown.DependencyTargets(table))
  {
    hide StartOrderDependencyTargets;
    forall s | s in startable ensures OrderTargets(trace.byName)(s) == Shutdown.DependencyTargets(table)(s) {
      assert s in trace.order;
    }
  }

  /** Of what a plan ordered, any stop candidates can be stopped in waves exactly
      when no compiled-in one hard-depends on one that the registry defines. */
  lemma BootedCanBeStopped(
    services: seq<ServiceDefinition>, invalid: seq<(string, string)>, retained: seq<string>, plan: Plan, trace: Trace,
    table: ServiceTable, candidates: set<string>)
    requires IsSoundPlan(services, invalid, retained, plan, trace)
    requires Holds(table, trace) && candidates <= Elements(trace.order)
    ensures Acyclic(Shutdown.StopGraph(table, candidates)) <==>
            !Shutdown.CompiledInLeansOnRegistry(table, candidates)
  {
    hide Accountable, Propagated, HardDependenciesFirst, InConflict, PulledByRoot, IsNameOrder, Holds, Acyclic,
         Shutdown.StopGraph, Shutdown.CompiledInLeansOnRegistry, StartOrder.StartGraph;
    var startable := Elements(trace.included) - plan.blocked.Keys;
    assert startable == Elements(trace.order);
    SameStartGraph(table, trace, startable);
    Shutdown.StartableMeansStoppable(table, startable, trace.order, candidates);
  }
}
