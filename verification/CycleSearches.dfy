/** Every report is one that the depth-first search makes when services and dependencies are gone through in some order
    (src/service/dependency.rs, src/boot/phase2/graph/validation.rs). */
module CycleSearches {
  import opened Collections
  import opened Graphs
  import opened StartOrder
  import opened CycleReports

  /** The lists name the same targets as often, in any order. */
  ghost predicate Rearranges(other: string -> seq<string>, targets: string -> seq<string>) {
    forall s :: multiset(other(s)) == multiset(targets(s))
  }

  ghost predicate IsOrderOf(order: seq<string>, nodes: set<string>) {
    Distinct(order) && Elements(order) == nodes
  }

  lemma SameGraph(other: string -> seq<string>, targets: string -> seq<string>, nodes: set<string>)
    requires Rearranges(other, targets)
    ensures StartGraph(nodes, other) == StartGraph(nodes, targets)
  {
    forall s, x ensures x in other(s) <==> x in targets(s) {
      assert x in multiset(other(s)) <==> x in multiset(targets(s));
    }
  }

  lemma {:induction false} SameTakesOut(
    other: string -> seq<string>, targets: string -> seq<string>, nodes: set<string>, cycles: seq<seq<string>>)
    requires Rearranges(other, targets)
    ensures TakesOut(nodes, other, cycles) <==> TakesOut(nodes, targets, cycles)
  {
    hide Rearranges, StartGraph;
    if cycles != [] {
      SameTakesOut(other, targets, nodes, cycles[..|cycles| - 1]);
      SameGraph(other, targets, nodes - Members(cycles[..|cycles| - 1]));
    }
  }

  /** A search in any order makes a report. */
  lemma SearchesReport(
    order: seq<string>, other: string -> seq<string>, nodes: set<string>, targets: string -> seq<string>)
    requires IsOrderOf(order, nodes) && Rearranges(other, targets)
    ensures IsReport(nodes, targets, Reported(order, other))
  {
    hide Rearranges, Reported;
    ReportedIsReport(order, other);
    SameTakesOut(other, targets, nodes, Reported(order, other));
    SameGraph(other, targets, nodes - Members(Reported(order, other)));
  }

  // ----- a search that goes round a given cycle -----

  /** The index after `i`, going round. */
  function After(i: nat, n: nat): nat { if i + 1 < n then i + 1 else 0 }

  /** Every member names the next one first. */
  ghost predicate GoesRound(cycle: seq<string>, targets: string -> seq<string>) {
    && cycle != [] && Distinct(cycle)
    && forall i :: 0 <= i < |cycle| ==> targets(cycle[i]) != [] && targets(cycle[i])[0] == cycle[After(i, |cycle|)]
  }

  lemma VisitFollowsFirst(
    service: string, startable: seq<string>, targets: string -> seq<string>, temporary: seq<string>, cycle: seq<string>)
    requires service in startable && Elements(temporary + [service]) <= Elements(startable) && service !in temporary
    requires Elements(temporary) <= Elements(startable)
    requires targets(service) != [] && targets(service)[0] in startable
    requires Visit(targets(service)[0], startable, targets, temporary + [service], []) == Err(cycle)
    ensures Visit(service, startable, targets, temporary, []) == Err(cycle)
  {
    assert VisitAll(targets(service), startable, targets, temporary + [service], []) == Err(cycle);
  }

  lemma PartInside(cycle: seq<string>, startable: seq<string>, k: nat)
    requires Elements(cycle) <= Elements(startable) && k < |cycle| && Distinct(cycle)
    ensures cycle[k] in startable && cycle[k] !in cycle[..k] && cycle[..k] + [cycle[k]] == cycle[..k + 1]
    ensures Elements(cycle[..k]) <= Elements(startable) && Elements(cycle[..k + 1]) <= Elements(startable)
  {
    assert forall x :: x in cycle ==> x in Elements(cycle);
    assert cycle[k] in Elements(startable);
  }

  /** Then the search that has come to `k` members closes the cycle. */
  lemma {:induction false} SearchGoesRound(
    cycle: seq<string>, startable: seq<string>, targets: string -> seq<string>, k: nat)
    requires GoesRound(cycle, targets) && Elements(cycle) <= Elements(startable) && k < |cycle|
    ensures cycle[k] in startable && Elements(cycle[..k]) <= Elements(startable)
    ensures Visit(cycle[k], startable, targets, cycle[..k], []) == Err(cycle)
    decreases |cycle| - k
  {
    PartInside(cycle, startable, k);
    PartInside(cycle, startable, After(k, |cycle|));
    if k + 1 < |cycle| {
      SearchGoesRound(cycle, startable, targets, k + 1);
    } else {
      assert cycle[..k + 1] == cycle;
      assert Visit(cycle[0], startable, targets, cycle, []) == Err(cycle);
    }
    hide Visit;
    VisitFollowsFirst(cycle[k], startable, targets, cycle[..k], cycle);
  }

  // ----- all the cycles of a report, one after the other -----

  ghost function Flat(cycles: seq<seq<string>>): seq<string> {
    if cycles == [] then [] else cycles[0] + Flat(cycles[1..])
  }

  lemma {:induction false} FlatHolds(cycles: seq<seq<string>>, x: string)
    ensures x in Flat(cycles) <==> exists c :: c in cycles && x in c
  {
    if cycles != [] {
      FlatHolds(cycles[1..], x);
      assert forall c :: c in cycles <==> c == cycles[0] || c in cycles[1..];
    }
  }

  ghost predicate Apart(cycles: seq<seq<string>>) {
    forall i, j :: 0 <= i < j < |cycles| ==> Elements(cycles[i]) !! Elements(cycles[j])
  }

  lemma RestIsApart(cycles: seq<seq<string>>, x: string)
    requires cycles != [] && Apart(cycles) && x in cycles[0]
    ensures Apart(cycles[1..]) && x !in Flat(cycles[1..])
  {
    FlatHolds(cycles[1..], x);
    assert x in Elements(cycles[0]);
    forall c | c in cycles[1..] ensures x !in c {
      var j :| 0 <= j < |cycles[1..]| && cycles[1..][j] == c;
      assert cycles[j + 1] == c && Elements(cycles[0]) !! Elements(cycles[j + 1]);
    }
  }

  lemma FirstIsApart(cycles: seq<seq<string>>, last: seq<string>)
    requires cycles != [] && Apart(cycles) && forall x :: x in last ==> x !in Flat(cycles)
    ensures Elements(cycles[0]) !! Elements(Flat(cycles[1..]) + last) && Apart(cycles[1..])
    ensures forall x :: x in last ==> x !in Flat(cycles[1..])
    ensures Flat(cycles) + last == cycles[0] + (Flat(cycles[1..]) + last) && cycles == [cycles[0]] + cycles[1..]
  {
    forall x | x in cycles[0] ensures x !in Flat(cycles[1..]) {
      RestIsApart(cycles, x);
    }
  }

  lemma {:induction false} FlatIsDistinct(cycles: seq<seq<string>>)
    requires Apart(cycles) && forall c :: c in cycles ==> Distinct(c)
    ensures Distinct(Flat(cycles))
  {
    if cycles != [] {
      assert Apart(cycles[1..]);
      FlatIsDistinct(cycles[1..]);
      forall i | 0 <= i < |Flat(cycles[1..])| ensures Flat(cycles[1..])[i] !in cycles[0] {
        if Flat(cycles[1..])[i] in cycles[0] {
          RestIsApart(cycles, Flat(cycles[1..])[i]);
          assert false;
        }
      }
      DistinctJoin(cycles[0], Flat(cycles[1..]));
    }
  }

  lemma {:induction false} WithoutFront(front: seq<string>, rest: seq<string>, cycle: seq<string>)
    requires (forall x :: x in front ==> x in cycle) && forall x :: x in rest ==> x !in cycle
    ensures Without(front + rest, cycle) == rest
  {
    if front != [] {
      assert (front + rest)[1..] == front[1..] + rest;
      WithoutFront(front[1..], rest, cycle);
    } else {
      assert front + rest == rest;
      WithoutNone(rest, cycle);
    }
  }

  lemma {:induction false} WithoutNone(rest: seq<string>, cycle: seq<string>)
    requires forall x :: x in rest ==> x !in cycle
    ensures Without(rest, cycle) == rest
  {
    if rest != [] {
      WithoutNone(rest[1..], cycle);
    }
  }

  lemma ReportedFront(cycle: seq<string>, rest: seq<string>, targets: string -> seq<string>)
    requires GoesRound(cycle, targets) && Elements(cycle) !! Elements(rest)
    ensures Reported(cycle + rest, targets) == [cycle] + Reported(rest, targets)
  {
    var all := cycle + rest;
    assert forall x :: x in cycle ==> x in all;
    SearchGoesRound(cycle, all, targets, 0);
    assert all[0] == cycle[0] && cycle[..0] == [];
    assert VisitAll(all, all, targets, [], []) == Err(cycle);
    forall x | x in rest ensures x !in cycle {
      assert x in Elements(rest);
    }
    WithoutFront(cycle, rest, cycle);
  }

  lemma {:induction false} ReportedInTurn(
    cycles: seq<seq<string>>, last: seq<string>, targets: string -> seq<string>)
    requires Apart(cycles) && forall c :: c in cycles ==> GoesRound(c, targets)
    requires forall x :: x in last ==> x !in Flat(cycles)
    requires VisitAll(last, last, targets, [], []).Ok?
    ensures Reported(Flat(cycles) + last, targets) == cycles
  {
    hide GoesRound;
    if cycles == [] {
      assert Flat(cycles) + last == last;
    } else {
      hide Reported, VisitAll, Apart;
      FirstIsApart(cycles, last);
      ReportedFront(cycles[0], Flat(cycles[1..]) + last, targets);
      ReportedInTurn(cycles[1..], last, targets);
    }
  }

  // ----- lists that name each member's successor first -----

  ghost function IndexIn(s: seq<string>, x: string): (i: nat)
    requires x in s
    ensures i < |s| && s[i] == x && x !in s[..i]
  {
    if s[0] == x then 0 else
      var i := IndexIn(s[1..], x);
      assert s[..i + 1] == [s[0]] + s[1..][..i];
      i + 1
  }

  ghost function Fronted(s: seq<string>, x: string): seq<string> {
    if x in s then [x] + s[..IndexIn(s, x)] + s[IndexIn(s, x) + 1..] else s
  }

  lemma FrontedIsSame(s: seq<string>, x: string)
    ensures multiset(Fronted(s, x)) == multiset(s)
    ensures x in s ==> Fronted(s, x)[0] == x
  {
    if x in s {
      var i := IndexIn(s, x);
      assert s == s[..i] + [s[i]] + s[i + 1..];
    }
  }

  ghost function Successor(cycle: seq<string>, s: string): string
    requires s in cycle
  {
    cycle[After(IndexIn(cycle, s), |cycle|)]
  }

  ghost function LedBy(list: seq<string>, cycles: seq<seq<string>>, s: string): seq<string> {
    if cycles == [] then list
    else if s in cycles[0] then Fronted(list, Successor(cycles[0], s))
    else LedBy(list, cycles[1..], s)
  }

  ghost function Led(targets: string -> seq<string>, cycles: seq<seq<string>>): string -> seq<string> {
    s => LedBy(targets(s), cycles, s)
  }

  lemma {:induction false} LedIsSame(list: seq<string>, cycles: seq<seq<string>>, s: string)
    ensures multiset(LedBy(list, cycles, s)) == multiset(list)
  {
    if cycles != [] {
      if s in cycles[0] {
        FrontedIsSame(list, Successor(cycles[0], s));
      } else {
        LedIsSame(list, cycles[1..], s);
      }
    }
  }

  lemma {:induction false} LedRound(list: seq<string>, cycles: seq<seq<string>>, j: nat, i: nat)
    requires Apart(cycles) && j < |cycles| && Distinct(cycles[j]) && i < |cycles[j]|
    ensures LedBy(list, cycles, cycles[j][i]) == Fronted(list, cycles[j][After(i, |cycles[j]|)])
  {
    var s := cycles[j][i];
    if j == 0 {
      assert IndexIn(cycles[0], s) == i;
    } else {
      assert s in Elements(cycles[j]) && Elements(cycles[0]) !! Elements(cycles[j]);
      assert s !in cycles[0];
      assert cycles[1..][j - 1] == cycles[j];
      assert Apart(cycles[1..]);
      LedRound(list, cycles[1..], j - 1, i);
    }
  }

  lemma LedGoesRound(
    nodes: set<string>, targets: string -> seq<string>, cycles: seq<seq<string>>, c: seq<string>)
    requires TakesOut(nodes, targets, cycles) && Apart(cycles) && c in cycles
    ensures GoesRound(c, Led(targets, cycles))
  {
    hide TakesOut;
    ReportedAreCycles(nodes, targets, cycles, c);
    var j :| 0 <= j < |cycles| && cycles[j] == c;
    forall i | 0 <= i < |c|
      ensures Led(targets, cycles)(c[i]) != [] && Led(targets, cycles)(c[i])[0] == c[After(i, |c|)]
    {
      LedRound(targets(c[i]), cycles, j, i);
      assert (c[i], c[After(i, |c|)]) in StartGraph(nodes, targets);
      FrontedIsSame(targets(c[i]), c[After(i, |c|)]);
    }
  }

  // ----- every report -----

  lemma {:induction false} SomeOrder(nodes: set<string>) returns (order: seq<string>)
    ensures IsOrderOf(order, nodes)
    decreases nodes
  {
    order := [];
    if nodes != {} {
      var x :| x in nodes;
      var rest := SomeOrder(nodes - {x});
      assert x !in Elements(rest);
      order := [x] + rest;
      assert Elements(order) == {x} + Elements(rest);
      DistinctJoin([x], rest);
    }
  }

  /** Every report is made by the search in some order of the services and of each one's dependencies. */
  lemma EveryReportCanBeMade(nodes: set<string>, targets: string -> seq<string>, cycles: seq<seq<string>>)
    returns (order: seq<string>, other: string -> seq<string>)
    requires IsReport(nodes, targets, cycles)
    ensures IsOrderOf(order, nodes) && Rearranges(other, targets) && Reported(order, other) == cycles
  {
    other := Led(targets, cycles);
    var last := SomeOrder(nodes - Members(cycles));
    order := Flat(cycles) + last;
    forall s ensures multiset(other(s)) == multiset(targets(s)) {
      LedIsSame(targets(s), cycles, s);
    }
    forall i, j | 0 <= i < j < |cycles| ensures Elements(cycles[i]) !! Elements(cycles[j]) {
      ReportedAreApart(nodes, targets, cycles, i, j);
    }
    forall c | c in cycles ensures GoesRound(c, other) {
      LedGoesRound(nodes, targets, cycles, c);
    }
    FlatIsMembers(nodes, targets, cycles);
    SameGraph(other, targets, nodes - Members(cycles));
    SearchMeans(last, other);
    forall x | x in last ensures x !in Flat(cycles) {
      assert x in Elements(last) && (x in Flat(cycles) ==> x in Elements(Flat(cycles)));
    }
    ReportedInTurn(cycles, last, other);
    FlatIsDistinct(cycles);
    DistinctJoin(Flat(cycles), last);
    assert Elements(order) == Elements(Flat(cycles)) + Elements(last);
  }

  lemma FlatIsMembers(nodes: set<string>, targets: string -> seq<string>, cycles: seq<seq<string>>)
    requires TakesOut(nodes, targets, cycles)
    ensures Elements(Flat(cycles)) == Members(cycles) <= nodes
  {
    hide TakesOut, Members, Flat;
    forall x ensures x in Flat(cycles) <==> x in Members(cycles) {
      FlatHolds(cycles, x);
      MembersAre(cycles, x);
    }
    forall x | x in Members(cycles) ensures x in nodes {
      MembersAre(cycles, x);
      var c :| c in cycles && x in c;
      ReportedAreCycles(nodes, targets, cycles, c);
      CycleInside(nodes, targets, c);
      assert x in Elements(c);
    }
  }

  // ----- what the search can miss -----

  /** A search in some order leaves `watched` out altogether exactly when
      disjoint cycles elsewhere meet every cycle through it. */
  lemma MissedWhen(nodes: set<string>, targets: string -> seq<string>, watched: set<string>)
    ensures (exists order, other ::
               IsOrderOf(order, nodes) && Rearranges(other, targets) && Members(Reported(order, other)) !! watched) <==>
            IsScreened(nodes, targets, watched)
  {
    hide IsScreened, Members, Reported, Rearranges, IsOrderOf;
    LeftOutWhen(nodes, targets, watched);
    if order, other :|
      IsOrderOf(order, nodes) && Rearranges(other, targets) && Members(Reported(order, other)) !! watched
    {
      SearchesReport(order, other, nodes, targets);
    }
    if report :| IsReport(nodes, targets, report) && Members(report) !! watched {
      var order, other := EveryReportCanBeMade(nodes, targets, report);
    }
  }

  /** The search accuses every service on a cycle, whatever the order of services and of
      dependencies, exactly when none of them is screened by cycles elsewhere. */
  lemma AllAreAccusedWhen(nodes: set<string>, targets: string -> seq<string>)
    ensures (forall order, other, x ::
               IsOrderOf(order, nodes) && Rearranges(other, targets) && OnCycle(nodes, targets, x) ==>
                 x in Members(Reported(order, other))) <==>
            (forall x :: OnCycle(nodes, targets, x) ==> !IsScreened(nodes, targets, {x}))
  {
    hide IsScreened, Members, Reported, Rearranges, IsOrderOf, OnCycle;
    forall x
      ensures IsScreened(nodes, targets, {x}) <==>
              exists order, other ::
                IsOrderOf(order, nodes) && Rearranges(other, targets) && x !in Members(Reported(order, other))
    {
      MissedWhen(nodes, targets, {x});
      assert forall order, other ::
          x !in Members(Reported(order, other)) <==> Members(Reported(order, other)) !! {x};
    }
  }

  // ----- an order of dependencies that misses nothing -----

  /** `b` names `c` before `a`, and `c` leads back to `a`. */
  predicate IsTriangle(targets: string -> seq<string>) {
    targets("a") == ["b"] && targets("b") == ["c", "a"] && targets("c") == ["a"]
  }

  /** With these lists every order of the services accuses all three, though `a` and `b` screen `c`. */
  lemma TriangleIsAccused(order: seq<string>, targets: string -> seq<string>)
    requires IsTriangle(targets) && IsOrderOf(order, {"a", "b", "c"})
    ensures Members(Reported(order, targets)) == {"a", "b", "c"}
    ensures IsScreened({"a", "b", "c"}, targets, {"c"})
  {
    TriangleScreens(targets);
    hide IsScreened, IsTriangle;
    var cycle := TriangleRound(order, targets);
    ReportedIsReport(order, targets);
    FlatIsMembers(Elements(order), targets, Reported(order, targets));
    forall x | x in cycle ensures x in Members(Reported(order, targets)) {
      MembersAre(Reported(order, targets), x);
    }
    assert "a" in cycle && "b" in cycle && "c" in cycle;
  }

  lemma TriangleRound(order: seq<string>, targets: string -> seq<string>) returns (cycle: seq<string>)
    requires IsTriangle(targets) && IsOrderOf(order, {"a", "b", "c"})
    ensures Elements(cycle) == {"a", "b", "c"} && cycle in Reported(order, targets)
  {
    assert order != [] by {
      assert "a" in Elements(order);
    }
    assert order[0] in Elements(order);
    cycle := if order[0] == "a" then ["a", "b", "c"] else if order[0] == "b" then ["b", "c", "a"] else ["c", "a", "b"];
    assert GoesRound(cycle, targets);
    hide IsTriangle, GoesRound;
    SearchGoesRound(cycle, order, targets, 0);
    assert cycle[..0] == [];
    assert VisitAll(order, order, targets, [], []) == Err(cycle);
  }

  lemma TriangleScreens(targets: string -> seq<string>)
    requires IsTriangle(targets)
    ensures IsScreened({"a", "b", "c"}, targets, {"c"})
  {
    var nodes, cycles := {"a", "b", "c"}, [["a", "b"]];
    var edges := StartGraph(nodes, targets);
    assert edges == {("a", "b"), ("b", "c"), ("b", "a"), ("c", "a")};
    assert cycles[..0] == [] && Members(cycles) == {"a", "b"};
    assert nodes - Members([]) == nodes;
    assert TakesOut(nodes, targets, cycles);
    forall c | IsCycle(edges, c) ensures "c" in c ==> "a" in Elements(c) {
      if i :| 0 <= i < |c| && c[i] == "c" {
        assert (c[i], c[After(i, |c|)]) in edges;
      }
    }
    assert Screens(nodes, targets, {"c"}, cycles);
  }
}
