/** Which cycles are reported when each one found is taken out and the search repeated
    (src/boot/phase2/graph/validation.rs, src/boot/phase2/graph/safe_mode.rs). */
module CycleReports {
  import opened Collections
  import opened Graphs
  import opened StartOrder

  /** The services of all the cycles. */
  ghost function Members(cycles: seq<seq<string>>): set<string> {
    if cycles == [] then {} else Members(cycles[..|cycles| - 1]) + Elements(cycles[|cycles| - 1])
  }

  lemma {:induction false} MembersAre(cycles: seq<seq<string>>, x: string)
    ensures x in Members(cycles) <==> exists c :: c in cycles && x in c
  {
    if cycles != [] {
      var init, last := cycles[..|cycles| - 1], cycles[|cycles| - 1];
      MembersAre(init, x);
      assert forall c :: c in cycles <==> c in init || c == last;
    }
  }

  /** Each is a cycle without repetition of what the ones before it leave. */
  ghost predicate TakesOut(nodes: set<string>, targets: string -> seq<string>, cycles: seq<seq<string>>) {
    cycles != [] ==>
      var init, last := cycles[..|cycles| - 1], cycles[|cycles| - 1];
      && TakesOut(nodes, targets, init)
      && Distinct(last) && IsCycle(StartGraph(nodes - Members(init), targets), last)
  }

  /** And together they leave none. */
  ghost predicate IsReport(nodes: set<string>, targets: string -> seq<string>, cycles: seq<seq<string>>) {
    TakesOut(nodes, targets, cycles) && Acyclic(StartGraph(nodes - Members(cycles), targets))
  }

  /** What a cycle leaves of the services, in order. */
  function Without(services: seq<string>, cycle: seq<string>): seq<string> {
    Filter(services, s => s !in cycle)
  }

  /** The report that the depth-first search makes of services in the order they are gone through. */
  ghost function Reported(remaining: seq<string>, targets: string -> seq<string>): seq<seq<string>>
    decreases |remaining|
  {
    match VisitAll(remaining, remaining, targets, [], [])
    case Ok(_) => []
    case Err(cycle) =>
      var rest := Without(remaining, cycle);
      if |rest| < |remaining| then [cycle] + Reported(rest, targets) else [cycle]
  }

  // ----- walks inside part of a graph -----

  lemma CycleInside(nodes: set<string>, targets: string -> seq<string>, cycle: seq<string>)
    requires IsCycle(StartGraph(nodes, targets), cycle)
    ensures Elements(cycle) <= nodes
  {
    var edges := StartGraph(nodes, targets);
    forall x | x in cycle ensures x in nodes {
      var i :| 0 <= i < |cycle| && cycle[i] == x;
      assert (cycle[i], cycle[if i + 1 < |cycle| then i + 1 else 0]) in edges;
    }
  }

  /** A cycle stays one in any set that holds its services. */
  lemma CycleCarriesOver(from: set<string>, to: set<string>, targets: string -> seq<string>, cycle: seq<string>)
    requires IsCycle(StartGraph(from, targets), cycle) && Elements(cycle) <= to
    ensures IsCycle(StartGraph(to, targets), cycle)
  {
    var edges, others := StartGraph(from, targets), StartGraph(to, targets);
    forall i, j | 0 <= i && j == i + 1 < |cycle| ensures (cycle[i], cycle[j]) in others {
      assert (cycle[i], cycle[j]) in edges && cycle[i] in Elements(cycle) && cycle[j] in Elements(cycle);
    }
    assert cycle[|cycle| - 1] in Elements(cycle) && cycle[0] in Elements(cycle);
  }

  /** A cycle runs through one that repeats nothing. */
  lemma {:induction false} SimpleCycle(edges: set<(string, string)>, cycle: seq<string>) returns (simple: seq<string>)
    requires IsCycle(edges, cycle)
    ensures IsCycle(edges, simple) && Distinct(simple)
    decreases |cycle|
  {
    simple := cycle;
    if !Distinct(cycle) {
      var i, j :| 0 <= i < j < |cycle| && cycle[i] == cycle[j];
      var part := cycle[i..j];
      assert (cycle[j - 1], cycle[j]) in edges;
      forall k, l | 0 <= k && l == k + 1 < |part| ensures (part[k], part[l]) in edges {
        assert (cycle[i + k], cycle[i + l]) in edges;
      }
      simple := SimpleCycle(edges, part);
    }
  }

  // ----- the search -----

  /** `cycles` have been reported of `included`, and `remaining` is left in its order. */
  ghost predicate SoFar(
    included: seq<string>, targets: string -> seq<string>, cycles: seq<seq<string>>, remaining: seq<string>)
  {
    && Distinct(remaining) && Elements(remaining) == Elements(included) - Members(cycles)
    && Reported(included, targets) == cycles + Reported(remaining, targets)
    && TakesOut(Elements(included), targets, cycles)
  }

  lemma NothingYet(included: seq<string>, targets: string -> seq<string>)
    requires Distinct(included)
    ensures SoFar(included, targets, [], included)
  {
    assert [] + Reported(included, targets) == Reported(included, targets);
  }

  /** When the search finds no more, the report is complete. */
  lemma ReportIsDone(
    included: seq<string>, targets: string -> seq<string>, cycles: seq<seq<string>>, remaining: seq<string>)
    requires SoFar(included, targets, cycles, remaining) && VisitAll(remaining, remaining, targets, [], []).Ok?
    requires Acyclic(StartGraph(Elements(remaining), targets))
    ensures cycles == Reported(included, targets) && IsReport(Elements(included), targets, cycles)
  {
    assert cycles + [] == cycles;
  }

  lemma NothingRemains(included: seq<string>, targets: string -> seq<string>, cycles: seq<seq<string>>)
    requires SoFar(included, targets, cycles, [])
    ensures cycles == Reported(included, targets) && IsReport(Elements(included), targets, cycles)
  {
    assert VisitAll([], [], targets, [], []) == Ok([]);
    forall cycle ensures !IsCycle(StartGraph({}, targets), cycle) {
      if IsCycle(StartGraph({}, targets), cycle) {
        CycleInside({}, targets, cycle);
      }
    }
    ReportIsDone(included, targets, cycles, []);
  }

  lemma OneMoreMember(cycles: seq<seq<string>>, cycle: seq<string>)
    ensures Members(cycles + [cycle]) == Members(cycles) + Elements(cycle)
  {
    assert (cycles + [cycle])[..|cycles|] == cycles;
  }

  lemma OneMoreTakenOut(
    nodes: set<string>, targets: string -> seq<string>, cycles: seq<seq<string>>, cycle: seq<string>)
    requires TakesOut(nodes, targets, cycles)
    requires Distinct(cycle) && IsCycle(StartGraph(nodes - Members(cycles), targets), cycle)
    ensures TakesOut(nodes, targets, cycles + [cycle])
  {
    assert (cycles + [cycle])[..|cycles|] == cycles;
  }

  lemma AppendRegroups(a: seq<seq<string>>, b: seq<string>, c: seq<seq<string>>)
    ensures a + ([b] + c) == a + [b] + c
  {
  }

  /** Searching on after the first cycle. */
  lemma ReportedNext(remaining: seq<string>, targets: string -> seq<string>, cycle: seq<string>)
    requires Distinct(remaining) && VisitAll(remaining, remaining, targets, [], []) == Err(cycle)
    requires cycle != [] && Elements(cycle) <= Elements(remaining)
    ensures var rest := Without(remaining, cycle);
            && Distinct(rest) && |rest| < |remaining| && Elements(rest) == Elements(remaining) - Elements(cycle)
            && Reported(remaining, targets) == [cycle] + Reported(rest, targets)
  {
    hide VisitAll;
    assert cycle[0] in Elements(cycle);
    FilterKeepsDistinct(remaining, s => s !in cycle);
    FilterShrinks(remaining, s => s !in cycle, cycle[0]);
  }

  /** When it finds a cycle, that is reported next, and the search goes on without it. */
  lemma ReportOneMore(
    included: seq<string>, targets: string -> seq<string>, cycles: seq<seq<string>>, remaining: seq<string>,
    cycle: seq<string>)
    requires SoFar(included, targets, cycles, remaining)
    requires VisitAll(remaining, remaining, targets, [], []) == Err(cycle)
    requires Distinct(cycle) && IsCycle(StartGraph(Elements(remaining), targets), cycle)
    ensures SoFar(included, targets, cycles + [cycle], Without(remaining, cycle))
    ensures IsCycle(StartGraph(Elements(included), targets), cycle)
    ensures Distinct(Without(remaining, cycle)) && |Without(remaining, cycle)| < |remaining|
  {
    assert cycle != [];
    hide VisitAll, TakesOut, Members, Reported, StartGraph, Without, Distinct, Elements, IsCycle;
    CycleInside(Elements(remaining), targets, cycle);
    CycleCarriesOver(Elements(remaining), Elements(included), targets, cycle);
    ReportedNext(remaining, targets, cycle);
    OneMoreMember(cycles, cycle);
    OneMoreTakenOut(Elements(included), targets, cycles, cycle);
    AppendRegroups(cycles, cycle, Reported(Without(remaining, cycle), targets));
  }

  lemma {:induction false} ReportFrom(
    included: seq<string>, targets: string -> seq<string>, cycles: seq<seq<string>>, remaining: seq<string>)
    requires SoFar(included, targets, cycles, remaining)
    ensures IsReport(Elements(included), targets, Reported(included, targets))
    decreases |remaining|
  {
    hide VisitAll, Reported, IsReport, StartGraph, IsCycle, Acyclic, IsStartOrder, SoFar;
    SearchMeans(remaining, targets);
    match VisitAll(remaining, remaining, targets, [], []) {
      case Ok(_) =>
        ReportIsDone(included, targets, cycles, remaining);
      case Err(cycle) =>
        ReportOneMore(included, targets, cycles, remaining, cycle);
        ReportFrom(included, targets, cycles + [cycle], Without(remaining, cycle));
    }
  }

  /** What the search reports is a report. */
  lemma ReportedIsReport(included: seq<string>, targets: string -> seq<string>)
    requires Distinct(included)
    ensures IsReport(Elements(included), targets, Reported(included, targets))
  {
    NothingYet(included, targets);
    ReportFrom(included, targets, [], included);
  }

  // ----- what every report has -----

  lemma {:induction false} ReportedAreCycles(
    nodes: set<string>, targets: string -> seq<string>, cycles: seq<seq<string>>, c: seq<string>)
    requires TakesOut(nodes, targets, cycles) && c in cycles
    ensures Distinct(c) && IsCycle(StartGraph(nodes, targets), c)
  {
    hide StartGraph, IsCycle;
    var init, last := cycles[..|cycles| - 1], cycles[|cycles| - 1];
    if c in init {
      ReportedAreCycles(nodes, targets, init, c);
    } else {
      CycleInside(nodes - Members(init), targets, c);
      CycleCarriesOver(nodes - Members(init), nodes, targets, c);
    }
  }

  /** No two share a service. */
  lemma {:induction false} ReportedAreApart(
    nodes: set<string>, targets: string -> seq<string>, cycles: seq<seq<string>>, i: nat, j: nat)
    requires TakesOut(nodes, targets, cycles) && i < j < |cycles|
    ensures Elements(cycles[i]) !! Elements(cycles[j])
  {
    hide StartGraph, IsCycle;
    var init, last := cycles[..|cycles| - 1], cycles[|cycles| - 1];
    if j < |init| {
      ReportedAreApart(nodes, targets, init, i, j);
    } else {
      CycleInside(nodes - Members(init), targets, last);
      forall x | x in init[i] ensures x in Members(init) {
        MembersAre(init, x);
      }
    }
  }

  lemma SharedMeansSame(
    nodes: set<string>, targets: string -> seq<string>, cycles: seq<seq<string>>, p: seq<string>, q: seq<string>,
    x: string)
    requires TakesOut(nodes, targets, cycles) && p in cycles && q in cycles && x in p && x in q
    ensures p == q
  {
    hide TakesOut;
    var i :| 0 <= i < |cycles| && cycles[i] == p;
    var j :| 0 <= j < |cycles| && cycles[j] == q;
    assert x in Elements(p) && x in Elements(q);
    if i < j {
      ReportedAreApart(nodes, targets, cycles, i, j);
    } else if j < i {
      ReportedAreApart(nodes, targets, cycles, j, i);
    }
  }

  /** No cycle escapes a report altogether. */
  lemma EveryCycleIsMet(
    nodes: set<string>, targets: string -> seq<string>, cycles: seq<seq<string>>, cycle: seq<string>)
    requires IsReport(nodes, targets, cycles) && IsCycle(StartGraph(nodes, targets), cycle)
    ensures !(Elements(cycle) !! Members(cycles))
  {
    if Elements(cycle) !! Members(cycles) {
      CycleInside(nodes, targets, cycle);
      CycleCarriesOver(nodes, nodes - Members(cycles), targets, cycle);
    }
  }

  // ----- what a report can miss -----

  /** Disjoint cycles, none through `watched`, that meet every cycle through `watched`. */
  ghost predicate Screens(
    nodes: set<string>, targets: string -> seq<string>, watched: set<string>, cycles: seq<seq<string>>)
  {
    && TakesOut(nodes, targets, cycles) && Members(cycles) !! watched
    && forall c :: IsCycle(StartGraph(nodes, targets), c) && Elements(c) !! Members(cycles) ==> Elements(c) !! watched
  }

  ghost predicate IsScreened(nodes: set<string>, targets: string -> seq<string>, watched: set<string>) {
    exists cycles :: Screens(nodes, targets, watched, cycles)
  }

  lemma {:induction false} CompleteReport(
    nodes: set<string>, targets: string -> seq<string>, watched: set<string>, cycles: seq<seq<string>>)
    returns (report: seq<seq<string>>)
    requires Screens(nodes, targets, watched, cycles)
    ensures IsReport(nodes, targets, report) && Members(report) !! watched
    decreases nodes - Members(cycles)
  {
    var left := nodes - Members(cycles);
    var edges := StartGraph(left, targets);
    if Acyclic(edges) {
      report := cycles;
    } else {
      var closed :| IsCycle(edges, closed);
      var cycle := SimpleCycle(edges, closed);
      CycleInside(left, targets, cycle);
      CycleCarriesOver(left, nodes, targets, cycle);
      assert cycle[0] in Elements(cycle);
      var more := cycles + [cycle];
      assert more[..|cycles|] == cycles;
      assert Members(more) == Members(cycles) + Elements(cycle) && Elements(cycle) !! Members(cycles);
      report := CompleteReport(nodes, targets, watched, more);
    }
  }

  /** Some report leaves `watched` out altogether exactly when disjoint cycles elsewhere meet every cycle through it. */
  lemma LeftOutWhen(nodes: set<string>, targets: string -> seq<string>, watched: set<string>)
    ensures (exists report :: IsReport(nodes, targets, report) && Members(report) !! watched) <==>
            IsScreened(nodes, targets, watched)
  {
    hide TakesOut, StartGraph, IsCycle, Acyclic;
    if report :| IsReport(nodes, targets, report) && Members(report) !! watched {
      forall c | IsCycle(StartGraph(nodes, targets), c) ensures !(Elements(c) !! Members(report)) {
        EveryCycleIsMet(nodes, targets, report, c);
      }
      assert Screens(nodes, targets, watched, report);
    }
    if cycles :| Screens(nodes, targets, watched, cycles) {
      var report := CompleteReport(nodes, targets, watched, cycles);
    }
  }

  ghost predicate OnCycle(nodes: set<string>, targets: string -> seq<string>, x: string) {
    exists c :: IsCycle(StartGraph(nodes, targets), c) && x in c
  }

  /** Cycles that share a service are made of the same services. */
  ghost predicate CyclesAreApart(nodes: set<string>, targets: string -> seq<string>) {
    forall c, d :: IsCycle(StartGraph(nodes, targets), c) && IsCycle(StartGraph(nodes, targets), d) ==>
                     Elements(c) !! Elements(d) || Elements(c) == Elements(d)
  }

  /** Then every service on a cycle is reported. */
  lemma ApartCyclesAreReported(
    nodes: set<string>, targets: string -> seq<string>, cycles: seq<seq<string>>, cycle: seq<string>)
    requires IsReport(nodes, targets, cycles) && CyclesAreApart(nodes, targets)
    requires IsCycle(StartGraph(nodes, targets), cycle)
    ensures Elements(cycle) <= Members(cycles)
  {
    hide StartGraph, IsCycle, Acyclic;
    EveryCycleIsMet(nodes, targets, cycles, cycle);
    var x :| x in Elements(cycle) && x in Members(cycles);
    MembersAre(cycles, x);
    var c :| c in cycles && x in c;
    ReportedAreCycles(nodes, targets, cycles, c);
    assert x in Elements(cycle) && x in Elements(c);
    forall y | y in Elements(cycle) ensures y in Members(cycles) {
      MembersAre(cycles, y);
    }
  }

  // ----- two cycles through one service -----

  /** `a` and `b` require each other, and so do `b` and `c`. */
  predicate IsChain(targets: string -> seq<string>) {
    targets("a") == ["b"] && targets("b") == ["a", "c"] && targets("c") == ["b"]
  }

  const CHAIN: seq<string> := ["a", "b", "c"]

  lemma ChainEdges(targets: string -> seq<string>)
    requires IsChain(targets)
    ensures StartGraph(Elements(CHAIN), targets) == {("a", "b"), ("b", "a"), ("b", "c"), ("c", "b")}
    ensures IsCycle(StartGraph(Elements(CHAIN), targets), ["a", "b"])
    ensures IsCycle(StartGraph(Elements(CHAIN), targets), ["b", "c"])
  {
  }

  /** Whatever the order, a report of this graph leaves a service on a cycle unaccused. */
  lemma ChainIsNotAllReported(targets: string -> seq<string>, cycles: seq<seq<string>>)
    requires IsChain(targets) && IsReport(Elements(CHAIN), targets, cycles)
    ensures "a" !in Members(cycles) || "c" !in Members(cycles)
    ensures IsCycle(StartGraph(Elements(CHAIN), targets), ["a", "b"])
    ensures IsCycle(StartGraph(Elements(CHAIN), targets), ["b", "c"])
  {
    ChainEdges(targets);
    if "a" in Members(cycles) && "c" in Members(cycles) {
      MembersAre(cycles, "a");
      MembersAre(cycles, "c");
      var p :| p in cycles && "a" in p;
      var q :| q in cycles && "c" in q;
      ReportedAreCycles(Elements(CHAIN), targets, cycles, p);
      ReportedAreCycles(Elements(CHAIN), targets, cycles, q);
      AfterEndComesMiddle(p, "a");
      AfterEndComesMiddle(q, "c");
      SharedMeansSame(Elements(CHAIN), targets, cycles, p, q, "b");
      var i :| 0 <= i < |p| && p[i] == "a";
      var k :| 0 <= k < |p| && p[k] == "c";
      OnlyOneEnd(p, i, k);
    }
  }

  lemma AfterEndComesMiddle(cycle: seq<string>, x: string)
    requires IsCycle({("a", "b"), ("b", "a"), ("b", "c"), ("c", "b")}, cycle) && x in cycle && x != "b"
    ensures "b" in cycle
  {
    var i :| 0 <= i < |cycle| && cycle[i] == x;
    var j := if i + 1 < |cycle| then i + 1 else 0;
    assert (cycle[i], cycle[j]) in {("a", "b"), ("b", "a"), ("b", "c"), ("c", "b")};
    assert cycle[j] == "b";
  }

  lemma OnlyOneEnd(cycle: seq<string>, i: nat, k: nat)
    requires IsCycle({("a", "b"), ("b", "a"), ("b", "c"), ("c", "b")}, cycle) && Distinct(cycle)
    requires i < |cycle| && k < |cycle| && cycle[i] != "b" && cycle[k] != "b"
    ensures i == k
  {
    var edges := {("a", "b"), ("b", "a"), ("b", "c"), ("c", "b")};
    var j, l := if i + 1 < |cycle| then i + 1 else 0, if k + 1 < |cycle| then k + 1 else 0;
    assert (cycle[i], cycle[j]) in edges && (cycle[k], cycle[l]) in edges;
    assert cycle[j] == "b" && cycle[l] == "b";
    assert j == l;
  }

  /** Gone through in this order, the search reports `a` and `b` and nothing else. */
  lemma ChainReport(targets: string -> seq<string>)
    requires IsChain(targets)
    ensures Reported(CHAIN, targets) == [["a", "b"]]
  {
    hide Without;
    assert Visit("a", CHAIN, targets, ["a", "b"], []) == Err(["a", "b"]);
    assert VisitAll(["a", "c"], CHAIN, targets, ["a", "b"], []) == Err(["a", "b"]);
    assert ["a"] + ["b"] == ["a", "b"];
    assert Visit("b", CHAIN, targets, ["a"], []) == Err(["a", "b"]);
    assert VisitAll(["b"], CHAIN, targets, ["a"], []) == Err(["a", "b"]);
    assert [] + ["a"] == ["a"];
    assert Visit("a", CHAIN, targets, [], []) == Err(["a", "b"]);
    assert VisitAll(CHAIN, CHAIN, targets, [], []) == Err(["a", "b"]);
    ChainRest();
    assert VisitAll(["b"], ["c"], targets, ["c"], []) == Ok([]);
    assert [] + ["c"] == ["c"];
    assert Visit("c", ["c"], targets, [], []) == Ok(["c"]);
    assert VisitAll(["c"], ["c"], targets, [], []) == Ok(["c"]);
  }

  lemma ChainRest()
    ensures Without(CHAIN, ["a", "b"]) == ["c"]
  {
    assert CHAIN[1..] == ["b", "c"] && ["b", "c"][1..] == ["c"] && ["c"][1..] == [];
    assert Without(["c"], ["a", "b"]) == ["c"];
  }
}
