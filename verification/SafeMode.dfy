/** What takes a full boot down to safe mode (src/boot/phase2/graph/safe_mode.rs, src/boot/phase2/graph/conflict.rs). */
module SafeMode {
  import opened Collections
  import opened Graphs
  import opened Names
  import opened Services
  import opened CycleReports
  import opened CycleSearches
  import opened BootGraph
  import StartOrder

  predicate IsCritical(byName: Definitions, service: string) {
    service in byName && byName[service].errorControl == Critical
  }

  predicate HasCritical(byName: Definitions, services: seq<string>) {
    exists s :: s in services && IsCritical(byName, s)
  }

  // ----- conflicts -----

  /** The same pair from either end. */
  function Pair(a: string, b: string): (string, string) { if AtMost(a, b) then (a, b) else (b, a) }

  ghost function CriticalPairs(from: seq<string>, among: seq<string>, byName: Definitions): set<(string, string)> {
    set a, b | a in from && b in among && IsCritical(byName, a) && InConflict(byName, a, b) :: Pair(a, b)
  }

  lemma OneMorePair(a: string, among: seq<string>, b: string, byName: Definitions)
    ensures CriticalPairs([a], among + [b], byName) ==
            CriticalPairs([a], among, byName) +
            if IsCritical(byName, a) && InConflict(byName, a, b) then {Pair(a, b)} else {}
  {
    hide InConflict, IsCritical, Pair;
    assert forall x :: x in among + [b] <==> x in among || x == b;
  }

  lemma OneMorePairing(from: seq<string>, a: string, among: seq<string>, byName: Definitions)
    ensures CriticalPairs(from + [a], among, byName) ==
            CriticalPairs(from, among, byName) + CriticalPairs([a], among, byName)
  {
    hide InConflict, IsCritical, Pair;
    assert forall x :: x in from + [a] <==> x in from || x == a;
  }

  /** A pair is found exactly when its services conflict and one of them is critical. */
  lemma PairsAreExact(included: seq<string>, byName: Definitions, a: string, b: string)
    ensures (a, b) in CriticalPairs(included, included, byName) <==>
            && AtMost(a, b) && a in included && b in included && InConflict(byName, a, b)
            && (IsCritical(byName, a) || IsCritical(byName, b))
  {
    var found := CriticalPairs(included, included, byName);
    AtMostIsTotal(a, b);
    if (a, b) in found {
      var x, y :| x in included && y in included && IsCritical(byName, x) && InConflict(byName, x, y)
                  && Pair(x, y) == (a, b);
      AtMostIsTotal(x, y);
    }
    if AtMost(a, b) && a in included && b in included && InConflict(byName, a, b) {
      assert IsCritical(byName, a) ==> Pair(a, b) in found;
      assert InConflict(byName, b, a) && Pair(b, a) == (a, b);
      assert IsCritical(byName, b) ==> Pair(b, a) in found;
    }
  }

  /** Another pair into the set of them. */
  function InsertedPair(pair: (string, string), found: seq<(string, string)>): (r: seq<(string, string)>)
    requires Ascends(found, PairAtMost)
    ensures Ascends(r, PairAtMost) && Elements(r) == Elements(found) + {pair}
  {
    PairsAreOrdered();
    InsertedAscends(pair, found, PairAtMost);
    Inserted(pair, found, PairAtMost)
  }

  method CriticalBootConflicts(included: seq<string>, byName: Definitions) returns (found: seq<(string, string)>)
    ensures forall a, b :: (a, b) in found <==>
              && AtMost(a, b) && a in included && b in included && InConflict(byName, a, b)
              && (IsCritical(byName, a) || IsCritical(byName, b))
    ensures Ascends(found, PairAtMost) && Elements(found) == CriticalPairs(included, included, byName)
  {
    hide Ascends;
    assert Ascends<(string, string)>([], PairAtMost) by {
      AscendsNothing();
    }
    found := [];
    assert Elements(found) == CriticalPairs(included[..0], included, byName);
    for i := 0 to |included|
      invariant Ascends(found, PairAtMost) && Elements(found) == CriticalPairs(included[..i], included, byName)
    {
      hide InConflict, IsCritical;
      var service := included[i];
      OneMorePairing(included[..i], service, included, byName);
      assert included[..i + 1] == included[..i] + [service];
      if IsCritical(byName, service) {
        found := AddPairsOf(service, included, byName, found);
      } else {
        assert CriticalPairs([service], included, byName) == {};
      }
    }
    assert included[..|included|] == included;
    forall a, b
      ensures (a, b) in found <==>
              && AtMost(a, b) && a in included && b in included && InConflict(byName, a, b)
              && (IsCritical(byName, a) || IsCritical(byName, b))
    {
      PairsAreExact(included, byName, a, b);
      assert (a, b) in found <==> (a, b) in Elements(found);
    }
  }

  lemma AscendsNothing()
    ensures Ascends<(string, string)>([], PairAtMost)
  {
  }

  /** The conflicts of one critical service. */
  method AddPairsOf(service: string, included: seq<string>, byName: Definitions, found: seq<(string, string)>)
    returns (found': seq<(string, string)>)
    requires IsCritical(byName, service) && Ascends(found, PairAtMost)
    ensures Ascends(found', PairAtMost)
    ensures Elements(found') == Elements(found) + CriticalPairs([service], included, byName)
  {
    hide InConflict, IsCritical, Ascends;
    found' := found;
    assert CriticalPairs([service], included[..0], byName) == {};
    for j := 0 to |included|
      invariant Ascends(found', PairAtMost)
      invariant Elements(found') == Elements(found) + CriticalPairs([service], included[..j], byName)
    {
      hide CriticalPairs, Elements;
      OneMorePair(service, included[..j], included[j], byName);
      assert included[..j + 1] == included[..j] + [included[j]];
      if InConflict(byName, service, included[j]) {
        found' := InsertedPair(Pair(service, included[j]), found');
      }
    }
    assert included[..|included|] == included;
  }

  // ----- cycles -----

  function CriticalOnes(byName: Definitions, cycles: seq<seq<string>>): seq<seq<string>> {
    Filter(cycles, c => HasCritical(byName, c))
  }

  /** The reported cycles that have a critical member, in the order they are reported. */
  method CriticalCycles(included: seq<string>, byName: Definitions) returns (critical: seq<seq<string>>)
    requires Distinct(included)
    ensures critical == CriticalOnes(byName, Reported(included, OrderTargets(byName)))
    ensures IsReport(Elements(included), OrderTargets(byName), Reported(included, OrderTargets(byName)))
  {
    hide OrderTargets, StartOrder.StartGraph, StartOrder.VisitAll, SoFar, Reported, IsReport, HasCritical, IsCycle,
         Acyclic, Without;
    critical := [];
    ghost var cycles := [];
    var remaining := included;
    NothingYet(included, OrderTargets(byName));
    while remaining != []
      invariant Distinct(remaining) && SoFar(included, OrderTargets(byName), cycles, remaining)
      invariant critical == CriticalOnes(byName, cycles)
      decreases |remaining|
    {
      var order := StartOrder.DependencyStartOrder(remaining, OrderTargets(byName));
      if order.Ok? {
        ReportIsDone(included, OrderTargets(byName), cycles, remaining);
        return;
      }
      var cycle := order.error.services;
      ReportOneMore(included, OrderTargets(byName), cycles, remaining, cycle);
      OneMoreCritical(byName, cycles, cycle);
      hide CriticalOnes;
      if HasCritical(byName, cycle) {
        critical := critical + [cycle];
      }
      cycles := cycles + [cycle];
      remaining := Without(remaining, cycle);
    }
    NothingRemains(included, OrderTargets(byName), cycles);
  }

  lemma OneMoreCritical(byName: Definitions, cycles: seq<seq<string>>, cycle: seq<string>)
    ensures CriticalOnes(byName, cycles + [cycle]) ==
            CriticalOnes(byName, cycles) + if HasCritical(byName, cycle) then [cycle] else []
  {
    hide HasCritical;
    FilterAppend(cycles, cycle, c => HasCritical(byName, c));
  }

  // ----- the downgrade -----

  /** The pairs are listed in order, and the cycles as they are found. */
  datatype Downgrade = Downgrade(conflicts: seq<(string, string)>, cycles: seq<seq<string>>) {
    predicate IsRequired() { conflicts != [] || cycles != [] }
  }

  /** The graph holds a cycle or a conflict against a critical service. */
  ghost predicate HoldsCritical(included: seq<string>, byName: Definitions) {
    exists s, reason :: (s, reason) in HeldInGraph(included, byName) && IsCritical(byName, s)
  }

  /** The conflicts and the reported cycles of a full boot that have a critical member. */
  ghost predicate IsDowngradeOf(included: seq<string>, byName: Definitions, downgrade: Downgrade) {
    && Ascends(downgrade.conflicts, PairAtMost)
    && Elements(downgrade.conflicts) == CriticalPairs(included, included, byName)
    && downgrade.cycles == CriticalOnes(byName, Reported(included, OrderTargets(byName)))
  }

  /** A downgrade is called for exactly when the full boot would fail a critical service for a cycle or a conflict. */
  lemma RequiredWhenCriticalIsHeld(included: seq<string>, byName: Definitions, downgrade: Downgrade)
    requires IsDowngradeOf(included, byName, downgrade)
    ensures downgrade.IsRequired() <==> HoldsCritical(included, byName)
  {
    var cycles := Reported(included, OrderTargets(byName));
    hide InConflict, IsCritical, Reported, OrderTargets, Pair;
    if downgrade.cycles != [] {
      var c := downgrade.cycles[0];
      assert c in downgrade.cycles && HasCritical(byName, c);
      var s :| s in c && IsCritical(byName, s);
      assert (s, CycleDetected(c)) in Accusations(cycles);
      assert (s, CycleDetected(c)) in HeldInGraph(included, byName);
    }
    if downgrade.conflicts != [] {
      var pair := downgrade.conflicts[0];
      assert pair in Elements(downgrade.conflicts);
      var a, b :| a in included && b in included && IsCritical(byName, a) && InConflict(byName, a, b)
                  && Pair(a, b) == pair;
      assert (a, ConflictingBootService(b)) in HeldInGraph(included, byName);
    }
    if s, reason :| (s, reason) in HeldInGraph(included, byName) && IsCritical(byName, s) {
      HeldIsFound(included, byName, downgrade, s, reason);
    }
  }

  lemma DowngradeIsUnique(included: seq<string>, byName: Definitions, a: Downgrade, b: Downgrade)
    requires IsDowngradeOf(included, byName, a) && IsDowngradeOf(included, byName, b)
    ensures a == b
  {
    hide CriticalPairs, CriticalOnes, Reported, Ascends;
    PairsAreOrdered();
    AscendingIsUnique(a.conflicts, b.conflicts, PairAtMost);
  }

  lemma HeldIsFound(
    included: seq<string>, byName: Definitions, downgrade: Downgrade, s: string, reason: BlockedReason)
    requires IsDowngradeOf(included, byName, downgrade)
    requires (s, reason) in HeldInGraph(included, byName) && IsCritical(byName, s)
    ensures downgrade.IsRequired()
  {
    var cycles := Reported(included, OrderTargets(byName));
    hide Reported, OrderTargets, IsCritical, Pair;
    if (s, reason) in Accusations(cycles) {
      var c :| c in cycles && s in c;
      assert HasCritical(byName, c);
      assert c in downgrade.cycles;
    } else {
      var t :| t in included && s in included && (InConflict(byName, s, t) || InConflict(byName, t, s));
      assert InConflict(byName, s, t);
      assert Pair(s, t) in CriticalPairs(included, included, byName);
      assert Pair(s, t) in Elements(downgrade.conflicts);
    }
  }

  method SafeModeDowngradeFindings(services: seq<ServiceDefinition>, ghost invalid: seq<(string, string)>)
    returns (r: Result<Downgrade, string>, ghost included: seq<string>, ghost byName: Definitions)
    ensures r.Ok? <==> DistinctNames(services)
    ensures r.Ok? ==>
              && IsServiceMap(services, byName) && IsClosureInOrder(Full, services, byName, included)
    ensures r.Ok? ==>
              && IsDowngradeOf(included, byName, r.value)
              && IsReport(Elements(included), OrderTargets(byName), Reported(included, OrderTargets(byName)))
              && (r.value.IsRequired() <==> HoldsCritical(included, byName))
  {
    hide Accountable, IsBootClosure, PulledByRoot, HeldInGraph, CriticalPairs, CriticalOnes, Reported, Ascends;
    included, byName := [], map[];
    var mapped := ServiceMap(services);
    if mapped.Err? {
      return Err(mapped.error), included, byName;
    }
    byName := mapped.value;
    var closure, blocked := CollectBootClosure(Full, services, mapped.value, invalid);
    included := closure;
    forall x ensures x in included <==> PulledByRoot(Full, services, byName, x) {
      ClosureIsExact(Full, services, byName, included, blocked, invalid, x);
    }
    AscendingIsDistinct(included, AtMost);
    var conflicts := CriticalBootConflicts(closure, mapped.value);
    var cycles := CriticalCycles(closure, mapped.value);
    r := Ok(Downgrade(conflicts, cycles));
    RequiredWhenCriticalIsHeld(included, byName, r.value);
  }

  // ----- what the search for cycles promises -----

  ghost function Criticals(nodes: set<string>, byName: Definitions): set<string> {
    set s | s in nodes && IsCritical(byName, s)
  }

  /** Every cycle found is one of the boot's, and has a critical member. */
  lemma CycleFindingsAreGenuine(
    included: seq<string>, byName: Definitions, cycles: seq<seq<string>>, c: seq<string>)
    requires IsReport(Elements(included), OrderTargets(byName), cycles) && c in CriticalOnes(byName, cycles)
    ensures Distinct(c) && IsCycle(StartOrder.StartGraph(Elements(included), OrderTargets(byName)), c)
    ensures HasCritical(byName, c)
  {
    hide OrderTargets, StartOrder.StartGraph, IsCycle, TakesOut, Acyclic;
    ReportedAreCycles(Elements(included), OrderTargets(byName), cycles, c);
  }

  lemma NoCriticalOnes(nodes: set<string>, byName: Definitions, cycles: seq<seq<string>>)
    requires IsReport(nodes, OrderTargets(byName), cycles)
    ensures CriticalOnes(byName, cycles) == [] <==> Members(cycles) !! Criticals(nodes, byName)
  {
    hide OrderTargets, StartOrder.StartGraph, IsCycle, TakesOut, Acyclic, IsCritical, Members;
    if s :| s in Members(cycles) && s in Criticals(nodes, byName) {
      MembersAre(cycles, s);
      var c :| c in cycles && s in c;
      assert HasCritical(byName, c);
      assert c in CriticalOnes(byName, cycles);
    }
    if CriticalOnes(byName, cycles) != [] {
      var c := CriticalOnes(byName, cycles)[0];
      assert c in CriticalOnes(byName, cycles) && HasCritical(byName, c);
      var s :| s in c && IsCritical(byName, s);
      ReportedAreCycles(nodes, OrderTargets(byName), cycles, c);
      CycleInside(nodes, OrderTargets(byName), c);
      assert s in Elements(c);
      MembersAre(cycles, s);
    }
  }

  /** The search finds a cycle with a critical service, whatever the order of services and of dependencies,
      exactly when no disjoint cycles of other services meet every cycle through a critical one. */
  lemma CriticalCycleDowngradesWhen(nodes: set<string>, byName: Definitions)
    ensures (forall order, other :: IsOrderOf(order, nodes) && Rearranges(other, OrderTargets(byName)) ==>
               CriticalOnes(byName, Reported(order, other)) != []) <==>
            !IsScreened(nodes, OrderTargets(byName), Criticals(nodes, byName))
  {
    hide OrderTargets, IsReport, CriticalOnes, Criticals, IsScreened, Members, Reported, IsOrderOf, Rearranges;
    var targets, watched := OrderTargets(byName), Criticals(nodes, byName);
    MissedWhen(nodes, targets, watched);
    forall order, other | IsOrderOf(order, nodes) && Rearranges(other, targets)
      ensures CriticalOnes(byName, Reported(order, other)) == [] <==> Members(Reported(order, other)) !! watched
    {
      SearchesReport(order, other, nodes, targets);
      NoCriticalOnes(nodes, byName, Reported(order, other));
    }
  }

  /** The order of dependencies matters: as declared here, every order of the services finds
      a cycle with `c`, though another order of the dependencies of `b` can miss it. */
  lemma TriangleDowngrades(byName: Definitions, order: seq<string>)
    requires IsTriangle(OrderTargets(byName)) && IsOrderOf(order, {"a", "b", "c"})
    requires IsCritical(byName, "c") && !IsCritical(byName, "a") && !IsCritical(byName, "b")
    ensures CriticalOnes(byName, Reported(order, OrderTargets(byName))) != []
    ensures IsScreened({"a", "b", "c"}, OrderTargets(byName), Criticals({"a", "b", "c"}, byName))
  {
    hide OrderTargets, Reported, IsTriangle, IsScreened, IsCritical, CriticalOnes, Members;
    TriangleIsAccused(order, OrderTargets(byName));
    ReportedIsReport(order, OrderTargets(byName));
    NoCriticalOnes({"a", "b", "c"}, byName, Reported(order, OrderTargets(byName)));
    assert Criticals({"a", "b", "c"}, byName) == {"c"};
  }

  // ----- a critical service on a cycle, and no downgrade -----

  function Member(name: string, required: seq<string>, control: ErrorControl): ServiceDefinition {
    ServiceDefinition(name, "SYSTEM", required, [], [], [], [], true, false, false, [], [], None, [], Never, 0, 0,
                      control, None, false)
  }

  const CHAIN_SERVICES: seq<ServiceDefinition> :=
    [Member("a", ["b"], Normal), Member("b", ["a", "c"], Normal), Member("c", ["b"], Critical)]

  lemma ChainTargetsOf(byName: Definitions)
    requires IsServiceMap(CHAIN_SERVICES, byName)
    ensures IsChain(OrderTargets(byName)) && byName.Keys == Elements(CHAIN)
  {
    assert CHAIN_SERVICES[0] in CHAIN_SERVICES && CHAIN_SERVICES[1] in CHAIN_SERVICES
           && CHAIN_SERVICES[2] in CHAIN_SERVICES;
    assert SplitTarget("a").0 == "a" && SplitTarget("b").0 == "b" && SplitTarget("c").0 == "c";
    assert byName["a"].required + byName["a"].bindsTo + byName["a"].wants == ["b"];
    assert byName["b"].required + byName["b"].bindsTo + byName["b"].wants == ["a", "c"];
    assert byName["c"].required + byName["c"].bindsTo + byName["c"].wants == ["b"];
  }

  lemma ChainIsIncluded(byName: Definitions, included: seq<string>)
    requires IsServiceMap(CHAIN_SERVICES, byName) && byName.Keys == Elements(CHAIN)
    requires IsClosureInOrder(Full, CHAIN_SERVICES, byName, included)
    ensures included == CHAIN
  {
    hide PulledByRoot, IsServiceMap, Pulls, IsRoot;
    forall k | 0 <= k < |CHAIN_SERVICES| ensures CHAIN_SERVICES[k].name in included {
      ChainIsRooted(byName, k);
    }
    forall x | x in included ensures x in byName.Keys {
      ChainIsDefined(byName, x);
    }
    assert CHAIN_SERVICES[0].name == "a" && CHAIN_SERVICES[1].name == "b" && CHAIN_SERVICES[2].name == "c";
    assert Elements(included) == Elements(CHAIN);
    ChainIsOrdered();
    hide Ascends;
    NameOrderIsUnique(included, CHAIN);
  }

  lemma ChainIsOrdered()
    ensures IsNameOrder(CHAIN)
  {
  }

  lemma ChainIsRooted(byName: Definitions, k: nat)
    requires k < |CHAIN_SERVICES|
    ensures PulledByRoot(Full, CHAIN_SERVICES, byName, CHAIN_SERVICES[k].name)
  {
    hide Pulls;
    PullsSelf(Full, byName, CHAIN_SERVICES[k].name);
    assert CHAIN_SERVICES[k] in CHAIN_SERVICES && IsRoot(Full, CHAIN_SERVICES[k]);
  }

  lemma ChainIsDefined(byName: Definitions, x: string)
    requires IsServiceMap(CHAIN_SERVICES, byName) && PulledByRoot(Full, CHAIN_SERVICES, byName, x)
    ensures x in byName
  {
    hide Pulls, IsRoot;
    var d :| d in CHAIN_SERVICES && IsRoot(Full, d) && Pulls(Full, byName, d.name, x);
    PulledIsDefined(Full, byName, d.name, x);
  }

  lemma PulledIsDefined(mode: BootMode, byName: Definitions, service: string, x: string)
    requires Pulls(mode, byName, service, x)
    ensures x == service || x in byName
  {
    var walk :| walk != [] && walk[0] == service && WalkTo(PullGraph(mode, byName), walk, x);
    if |walk| > 1 {
      assert (walk[|walk| - 2], walk[|walk| - 1]) in PullGraph(mode, byName);
    }
  }

  /** `b` and `c` require each other and `c` is critical, but the full boot stands: `a` and `b` are reported first. */
  lemma CriticalCycleIsMissed(byName: Definitions, included: seq<string>)
    requires IsServiceMap(CHAIN_SERVICES, byName) && IsClosureInOrder(Full, CHAIN_SERVICES, byName, included)
    ensures included == CHAIN && IsCritical(byName, "c")
    ensures IsCycle(StartOrder.StartGraph(Elements(included), OrderTargets(byName)), ["b", "c"])
    ensures !HoldsCritical(included, byName)
    ensures ("b", CycleDetected(["a", "b"])) in HeldInGraph(included, byName)
  {
    hide *;
    ChainTargetsOf(byName);
    ChainIsIncluded(byName, included);
    ChainEdges(OrderTargets(byName));
    ChainReport(OrderTargets(byName));
    ChainHoldsNothingCritical(byName);
  }

  lemma ChainHoldsNothingCritical(byName: Definitions)
    requires IsServiceMap(CHAIN_SERVICES, byName) && Reported(CHAIN, OrderTargets(byName)) == [["a", "b"]]
    ensures !HoldsCritical(CHAIN, byName) && IsCritical(byName, "c")
    ensures ("b", CycleDetected(["a", "b"])) in HeldInGraph(CHAIN, byName)
  {
    hide OrderTargets, Reported;
    assert ("b", CycleDetected(["a", "b"])) in Accusations([["a", "b"]]);
    assert CHAIN_SERVICES[2] in CHAIN_SERVICES;
    assert CHAIN_SERVICES[0] in CHAIN_SERVICES && CHAIN_SERVICES[1] in CHAIN_SERVICES;
    forall x, y ensures !InConflict(byName, x, y) {
      assert x in byName ==> byName[x] in CHAIN_SERVICES;
      assert y in byName ==> byName[y] in CHAIN_SERVICES;
    }
    hide InConflict;
    forall s, reason | (s, reason) in HeldInGraph(CHAIN, byName) ensures !IsCritical(byName, s) {
      assert s in ["a", "b"];
    }
  }
}
