/** The depth-first start order and its cycle report (src/service/dependency.rs). */
module StartOrder {
  import opened Collections
  import opened Graphs

  datatype DependencyOrderCycle = DependencyOrderCycle(services: seq<string>)

  /** An edge from each startable service to each startable service it depends on. */
  ghost function StartGraph(startable: set<string>, dependenciesFor: string -> seq<string>): set<(string, string)> {
    set a, b | a in startable && b in dependenciesFor(a) && b in startable :: (a, b)
  }

  /** Every edge out of an entry of `order` leads to an earlier entry. */
  ghost predicate DependenciesFirst(order: seq<string>, edges: set<(string, string)>) {
    forall i, b :: 0 <= i < |order| && (order[i], b) in edges ==> b in order[..i]
  }

  /** A duplicate-free enumeration of `startable` with every dependency before its dependent. */
  ghost predicate IsStartOrder(order: seq<string>, startable: set<string>, edges: set<(string, string)>) {
    Distinct(order) && Elements(order) == startable && DependenciesFirst(order, edges)
  }

  ghost function Positions(order: seq<string>): (rank: map<string, int>)
    requires Distinct(order)
    ensures forall i :: 0 <= i < |order| ==> order[i] in rank && rank[order[i]] == i
    ensures rank.Keys == Elements(order)
  {
    if order == [] then map[] else
      var init := order[..|order| - 1];
      var rank := Positions(init)[order[|order| - 1] := |order| - 1];
      assert forall i :: 0 <= i < |init| ==> order[i] == init[i];
      assert forall x :: x in order <==> x in init || x == order[|order| - 1];
      rank
  }

  /** A start order exists only when the graph has no cycle. */
  lemma StartOrderMeansAcyclic(order: seq<string>, startable: set<string>, edges: set<(string, string)>)
    requires IsStartOrder(order, startable, edges)
    requires forall e :: e in edges ==> e.0 in startable && e.1 in startable
    ensures Acyclic(edges)
  {
    var rank := Positions(order);
    forall e | e in edges ensures e.0 in rank && e.1 in rank && rank[e.0] > rank[e.1] {
      assert e.0 in order;
      var i :| 0 <= i < |order| && order[i] == e.0;
      assert (order[i], e.1) in edges;
      assert e.1 in order[..i];
    }
    RankedIsAcyclic(edges, rank);
  }

  /** What holds of the traversal state between visits. */
  ghost predicate Traversing(
    permanent: set<string>, temporary: seq<string>, order: seq<string>,
    startable: set<string>, edges: set<(string, string)>)
  {
    && permanent == Elements(order) <= startable
    && Distinct(order) && DependenciesFirst(order, edges)
    && Distinct(temporary) && Elements(temporary) <= startable
    && IsWalk(edges, temporary)
    && (forall x :: x in temporary ==> x !in permanent)
  }

  /** What a visit makes of the services placed so far: more of them, or the cycle it closes. */
  type Visited = Result<seq<string>, seq<string>>

  function From(s: seq<string>, x: string): seq<string> {
    if s == [] || s[0] == x then s else From(s[1..], x)
  }

  lemma {:induction false} FromFirst(s: seq<string>, i: nat)
    requires i < |s| && s[i] !in s[..i]
    ensures From(s, s[i]) == s[i..]
  {
    if i > 0 {
      assert s[0] in s[..i];
      assert s[1..][i - 1] == s[i] && s[1..][..i - 1] == s[..i][1..] && s[1..][i - 1..] == s[i..];
      FromFirst(s[1..], i - 1);
    } else {
      assert s[0..] == s;
    }
  }

  /** The visit as a function of what is on the way to it and what has been placed. */
  ghost function Visit(
    service: string, startable: seq<string>, dependenciesFor: string -> seq<string>,
    temporary: seq<string>, order: seq<string>): Visited
    requires service in startable && Elements(temporary) <= Elements(startable)
    decreases Elements(startable) - Elements(temporary), 0, 0
  {
    if service in order then Ok(order)
    else if service in temporary then Err(From(temporary, service))
    else
      assert Elements(temporary + [service]) == Elements(temporary) + {service};
      match VisitAll(dependenciesFor(service), startable, dependenciesFor, temporary + [service], order)
      case Err(cycle) => Err(cycle)
      case Ok(placed) => Ok(placed + [service])
  }

  ghost function VisitAll(
    services: seq<string>, startable: seq<string>, dependenciesFor: string -> seq<string>,
    temporary: seq<string>, order: seq<string>): Visited
    requires Elements(temporary) <= Elements(startable)
    decreases Elements(startable) - Elements(temporary), 1, |services|
  {
    if services == [] then Ok(order)
    else if services[0] !in startable then VisitAll(services[1..], startable, dependenciesFor, temporary, order)
    else match Visit(services[0], startable, dependenciesFor, temporary, order)
      case Err(cycle) => Err(cycle)
      case Ok(placed) => VisitAll(services[1..], startable, dependenciesFor, temporary, placed)
  }

  /** The last service on the way depends on `service`. */
  ghost predicate LeadsTo(temporary: seq<string>, service: string, edges: set<(string, string)>) {
    temporary != [] ==> (temporary[|temporary| - 1], service) in edges
  }

  /** The traversal has come down to `service`. */
  ghost predicate IsOnTheWay(
    service: string, startable: seq<string>, dependenciesFor: string -> seq<string>,
    temporary: seq<string>, order: seq<string>)
  {
    var edges := StartGraph(Elements(startable), dependenciesFor);
    Traversing(Elements(order), temporary, order, Elements(startable), edges) && LeadsTo(temporary, service, edges)
  }

  /** The services are placed with all they need and the traversal stands as before, or there is a cycle. */
  ghost predicate IsVisit(
    r: Visited, services: seq<string>, temporary: seq<string>, order: seq<string>,
    startable: set<string>, edges: set<(string, string)>)
  {
    match r
    case Ok(placed) =>
      && Traversing(Elements(placed), temporary, placed, startable, edges) && order <= placed
      && forall s :: s in services && s in startable ==> s in placed
    case Err(cycle) => IsCycle(edges, cycle) && Distinct(cycle)
  }

  /** Popping a service whose dependencies are all placed, and placing it, keeps the traversal state. */
  lemma FinishVisit(
    service: string, permanent: set<string>, temporary: seq<string>, order: seq<string>,
    startable: set<string>, edges: set<(string, string)>)
    requires service in startable
    requires Traversing(permanent, temporary + [service], order, startable, edges)
    requires forall b :: (service, b) in edges ==> b in permanent
    ensures Traversing(permanent + {service}, temporary, order + [service], startable, edges)
  {
    var pushed, placed := temporary + [service], order + [service];
    assert forall i :: 0 <= i < |temporary| ==> pushed[i] == temporary[i];
    assert pushed[|temporary|] == service && service in pushed;
    assert forall x :: x in placed <==> x in order || x == service;
    forall i, b | 0 <= i < |placed| && (placed[i], b) in edges ensures b in placed[..i] {
      if i < |order| {
        assert placed[..i] == order[..i];
      } else {
        assert placed[..i] == order;
      }
    }
  }

  lemma ClosesCycle(service: string, temporary: seq<string>, edges: set<(string, string)>)
    requires Distinct(temporary) && IsWalk(edges, temporary) && service in temporary
    requires LeadsTo(temporary, service, edges)
    ensures IsCycle(edges, From(temporary, service)) && Distinct(From(temporary, service))
  {
    var i :| 0 <= i < |temporary| && temporary[i] == service;
    FromFirst(temporary, i);
    var cycle := temporary[i..];
    forall k, l | 0 <= k && l == k + 1 < |cycle| ensures (cycle[k], cycle[l]) in edges {
      assert (temporary[i + k], temporary[i + l]) in edges;
    }
  }

  lemma Pushes(
    service: string, temporary: seq<string>, order: seq<string>, startable: set<string>, edges: set<(string, string)>)
    requires Traversing(Elements(order), temporary, order, startable, edges) && LeadsTo(temporary, service, edges)
    requires service in startable && service !in temporary && service !in order
    ensures Traversing(Elements(order), temporary + [service], order, startable, edges)
  {
    var pushed := temporary + [service];
    assert forall x :: x in pushed <==> x in temporary || x == service;
  }

  /** What a visit gives on the way from services that depend on one another down to this one. */
  lemma {:induction false} VisitMeans(
    service: string, startable: seq<string>, dependenciesFor: string -> seq<string>,
    temporary: seq<string>, order: seq<string>)
    requires service in startable
    requires IsOnTheWay(service, startable, dependenciesFor, temporary, order)
    ensures IsVisit(Visit(service, startable, dependenciesFor, temporary, order), [service], temporary, order,
                    Elements(startable), StartGraph(Elements(startable), dependenciesFor))
    decreases Elements(startable) - Elements(temporary), 0, 0
  {
    var nodes := Elements(startable);
    var edges := StartGraph(nodes, dependenciesFor);
    if service in order {
    } else if service in temporary {
      ClosesCycle(service, temporary, edges);
    } else {
      var pushed, dependencies := temporary + [service], dependenciesFor(service);
      Pushes(service, temporary, order, nodes, edges);
      assert Elements(pushed) == Elements(temporary) + {service};
      assert service in nodes;
      VisitAllMeans(dependencies, startable, dependenciesFor, pushed, order);
      var r := VisitAll(dependencies, startable, dependenciesFor, pushed, order);
      if r.Ok? {
        FinishVisit(service, Elements(r.value), temporary, r.value, nodes, edges);
        assert Elements(r.value + [service]) == Elements(r.value) + {service};
      }
    }
  }

  lemma {:induction false} VisitAllMeans(
    services: seq<string>, startable: seq<string>, dependenciesFor: string -> seq<string>,
    temporary: seq<string>, order: seq<string>)
    requires Traversing(Elements(order), temporary, order, Elements(startable),
                        StartGraph(Elements(startable), dependenciesFor))
    requires forall s :: s in services && s in startable ==>
               LeadsTo(temporary, s, StartGraph(Elements(startable), dependenciesFor))
    ensures IsVisit(VisitAll(services, startable, dependenciesFor, temporary, order), services, temporary, order,
                    Elements(startable), StartGraph(Elements(startable), dependenciesFor))
    decreases Elements(startable) - Elements(temporary), 1, |services|
  {
    assert Elements(temporary) <= Elements(startable);
    hide Traversing, LeadsTo, StartGraph;
    if services != [] {
      if services[0] in startable {
        VisitMeans(services[0], startable, dependenciesFor, temporary, order);
        var r := Visit(services[0], startable, dependenciesFor, temporary, order);
        if r.Ok? {
          assert services[0] in r.value;
          VisitAllMeans(services[1..], startable, dependenciesFor, temporary, r.value);
          var all := VisitAll(services[1..], startable, dependenciesFor, temporary, r.value);
          assert all.Ok? ==> r.value == all.value[..|r.value|];
        }
      } else {
        VisitAllMeans(services[1..], startable, dependenciesFor, temporary, order);
      }
    }
  }

  method VisitOrder(
    service: string, startable: seq<string>, dependenciesFor: string -> seq<string>,
    permanent: set<string>, temporary: seq<string>, order: seq<string>)
    returns (r: Result<(), DependencyOrderCycle>, permanent': set<string>, temporary': seq<string>, order': seq<string>)
    requires service in startable && Elements(temporary) <= Elements(startable) && permanent == Elements(order)
    ensures r.Ok? ==> permanent' == Elements(order') && temporary' == temporary
    ensures Visit(service, startable, dependenciesFor, temporary, order) ==
            if r.Ok? then Ok(order') else Err(r.error.services)
    ensures IsOnTheWay(service, startable, dependenciesFor, temporary, order) ==>
              IsVisit(if r.Ok? then Ok(order') else Err(r.error.services), [service], temporary, order,
                      Elements(startable), StartGraph(Elements(startable), dependenciesFor))
    decreases Elements(startable) - Elements(temporary)
  {
    hide IsVisit, IsOnTheWay;
    if IsOnTheWay(service, startable, dependenciesFor, temporary, order) {
      VisitMeans(service, startable, dependenciesFor, temporary, order);
    }
    permanent', temporary', order' := permanent, temporary, order;
    if service in permanent {
      return Ok(()), permanent', temporary', order';
    }
    var index := 0;
    while index < |temporary| && temporary[index] != service
      invariant 0 <= index <= |temporary|
      invariant service !in temporary[..index]
    {
      index := index + 1;
    }
    if index < |temporary| {
      FromFirst(temporary, index);
      return Err(DependencyOrderCycle(temporary[index..])), permanent', temporary', order';
    }

    temporary' := temporary + [service];
    ghost var pushed := temporary';
    assert Elements(pushed) == Elements(temporary) + {service} && service in Elements(startable);
    var dependencies := dependenciesFor(service);
    assert dependencies[0..] == dependencies;
    for k := 0 to |dependencies|
      invariant temporary' == pushed && permanent' == Elements(order')
      invariant VisitAll(dependencies, startable, dependenciesFor, pushed, order) ==
                VisitAll(dependencies[k..], startable, dependenciesFor, pushed, order')
    {
      assert dependencies[k..][0] == dependencies[k] && dependencies[k..][1..] == dependencies[k + 1..];
      if dependencies[k] in startable {
        r, permanent', temporary', order' :=
          VisitOrder(dependencies[k], startable, dependenciesFor, permanent', temporary', order');
        if r.Err? {
          return;
        }
      }
    }
    temporary' := temporary'[..|temporary'| - 1];
    permanent' := permanent' + {service};
    order' := order' + [service];
    r := Ok(());
  }

  /** The search of all services finds a start order or a cycle, whichever there is. */
  lemma SearchMeans(startable: seq<string>, dependenciesFor: string -> seq<string>)
    ensures var edges := StartGraph(Elements(startable), dependenciesFor);
            match VisitAll(startable, startable, dependenciesFor, [], [])
            case Ok(order) => IsStartOrder(order, Elements(startable), edges) && Acyclic(edges)
            case Err(cycle) => IsCycle(edges, cycle) && Distinct(cycle) && !Acyclic(edges)
  {
    var edges := StartGraph(Elements(startable), dependenciesFor);
    VisitAllMeans(startable, startable, dependenciesFor, [], []);
    match VisitAll(startable, startable, dependenciesFor, [], []) {
      case Ok(order) =>
        assert Elements(order) == Elements(startable);
        StartOrderMeansAcyclic(order, Elements(startable), edges);
      case Err(cycle) =>
    }
  }

  /** The services in an order that starts every dependency first, or a cycle among them. */
  method DependencyStartOrder(startable: seq<string>, dependenciesFor: string -> seq<string>)
    returns (r: Result<seq<string>, DependencyOrderCycle>)
    requires Distinct(startable)
    ensures r.Ok? ==> IsStartOrder(r.value, Elements(startable), StartGraph(Elements(startable), dependenciesFor))
    ensures r.Err? ==>
            IsCycle(StartGraph(Elements(startable), dependenciesFor), r.error.services) && Distinct(r.error.services)
    ensures r.Ok? <==> Acyclic(StartGraph(Elements(startable), dependenciesFor))
    ensures VisitAll(startable, startable, dependenciesFor, [], []) ==
            if r.Ok? then Ok(r.value) else Err(r.error.services)
  {
    hide IsStartOrder, IsCycle, Acyclic, StartGraph;
    SearchMeans(startable, dependenciesFor);
    var permanent, temporary, order := {}, [], [];
    assert startable[0..] == startable;
    for i := 0 to |startable|
      invariant temporary == [] && permanent == Elements(order)
      invariant VisitAll(startable, startable, dependenciesFor, [], []) ==
                VisitAll(startable[i..], startable, dependenciesFor, [], order)
    {
      assert startable[i..][0] == startable[i] && startable[i..][1..] == startable[i + 1..];
      var visited;
      visited, permanent, temporary, order :=
        VisitOrder(startable[i], startable, dependenciesFor, permanent, temporary, order);
      if visited.Err? {
        return Err(visited.error);
      }
    }
    r := Ok(order);
  }
}
