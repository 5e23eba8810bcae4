/** Roles: declared references to a role resolved, and the authority's edge derived (src/service/role.rs). */
module Roles {
  import opened Collections
  import opened Services

  const AUTHN_ROLE: string := "authn"
  const SYSTEM_IDENTITY: string := "SYSTEM"

  predicate RequiresAuthority(definition: ServiceDefinition) {
    || definition.identity != SYSTEM_IDENTITY
    || ((definition.execStartPre != [] || definition.execStartPost != []) &&
        (match definition.hookIdentity
         case Some(identity) => identity
         case None => definition.identity) != SYSTEM_IDENTITY)
  }

  /** Every service filling `role`, by name. */
  function RoleProviders(definitions: seq<ServiceDefinition>, role: string): (r: seq<string>)
    ensures forall p :: p in r <==> IsProvider(definitions, role, p)
  {
    if definitions == [] then [] else
      var last := definitions[|definitions| - 1];
      var init := definitions[..|definitions| - 1];
      assert forall d :: d in definitions <==> d in init || d == last;
      if role in last.roles then RoleProviders(init, role) + [last.name] else RoleProviders(init, role)
  }

  predicate IsProvider(definitions: seq<ServiceDefinition>, role: string, service: string) {
    exists d :: d in definitions && role in d.roles && d.name == service
  }

  predicate BearsName(definitions: seq<ServiceDefinition>, name: string) {
    exists d :: d in definitions && d.name == name
  }

  /** `name` once for each time `roles` lists `role`. */
  function Occurrences(name: string, roles: seq<string>, role: string): (r: seq<string>)
    ensures forall p :: p in r <==> p == name && role in roles
  {
    if roles == [] then [] else
      var init, last := roles[..|roles| - 1], roles[|roles| - 1];
      assert forall x :: x in roles <==> x in init || x == last;
      if last == role then Occurrences(name, init, role) + [name] else Occurrences(name, init, role)
  }

  /** The services providing `role`, each as often as it says so. */
  function ListedProviders(definitions: seq<ServiceDefinition>, role: string): (r: seq<string>)
    ensures forall p :: p in r <==> IsProvider(definitions, role, p)
  {
    if definitions == [] then [] else
      var init, last := definitions[..|definitions| - 1], definitions[|definitions| - 1];
      assert forall d :: d in definitions <==> d in init || d == last;
      ListedProviders(init, role) + Occurrences(last.name, last.roles, role)
  }

  /** The entry names a role that some service provides and that no service bears as its own name. */
  predicate NamesRole(definitions: seq<ServiceDefinition>, entry: string) {
    var target := SplitTarget(entry).0;
    ListedProviders(definitions, target) != [] && !BearsName(definitions, target)
  }

  /** The providers other than `me`, each at `level`. */
  function OthersAt(providers: seq<string>, me: string, level: Option<string>): (r: seq<string>)
    ensures forall x :: x in r <==> exists p :: p in providers && p != me && x == WithLevel(p, level)
  {
    if providers == [] then [] else
      var rest := OthersAt(providers[1..], me, level);
      assert forall p :: p in providers <==> p == providers[0] || p in providers[1..];
      if providers[0] != me then [WithLevel(providers[0], level)] + rest else rest
  }

  /** What one declared entry of `me` resolves to. */
  function ResolveEntry(definitions: seq<ServiceDefinition>, me: string, entry: string): seq<string> {
    var (target, level) := SplitTarget(entry);
    if NamesRole(definitions, entry) then OthersAt(ListedProviders(definitions, target), me, level) else [entry]
  }

  /** `more` appended, without what is already there. */
  function AppendNew(list: seq<string>, more: seq<string>): (r: seq<string>)
    ensures forall x :: x in r <==> x in list || x in more
    ensures Distinct(list) ==> Distinct(r)
  {
    if more == [] then list else
      var init, last := AppendNew(list, more[..|more| - 1]), more[|more| - 1];
      assert forall x :: x in more <==> x in more[..|more| - 1] || x == last;
      if last in init then init else init + [last]
  }

  function ResolveList(definitions: seq<ServiceDefinition>, me: string, list: seq<string>): seq<string> {
    if list == [] then [] else
      AppendNew(ResolveList(definitions, me, list[..|list| - 1]), ResolveEntry(definitions, me, list[|list| - 1]))
  }

  lemma {:induction false} ResolveListMeans(definitions: seq<ServiceDefinition>, me: string, list: seq<string>)
    ensures forall x :: x in ResolveList(definitions, me, list) <==> Means(definitions, me, list, x)
    ensures Distinct(ResolveList(definitions, me, list))
  {
    if list != [] {
      hide AppendNew, ResolveEntry;
      var init, last := list[..|list| - 1], list[|list| - 1];
      ResolveListMeans(definitions, me, init);
      assert forall e :: e in list <==> e in init || e == last;
    }
  }

  /** `x` is what some entry of `list` stands for. */
  predicate Means(definitions: seq<ServiceDefinition>, me: string, list: seq<string>, x: string) {
    exists entry :: entry in list && x in ResolveEntry(definitions, me, entry)
  }

  predicate NothingProvided(definitions: seq<ServiceDefinition>) {
    forall d :: d in definitions ==> d.roles == []
  }

  function ResolveDefinition(definitions: seq<ServiceDefinition>, d: ServiceDefinition): ServiceDefinition {
    d.(required := ResolveList(definitions, d.name, d.required),
       wants := ResolveList(definitions, d.name, d.wants),
       bindsTo := ResolveList(definitions, d.name, d.bindsTo))
  }

  /** Every declared reference to a role rewritten onto the services that fill it. */
  function Resolved(definitions: seq<ServiceDefinition>): (r: seq<ServiceDefinition>)
    ensures |r| == |definitions|
  {
    if NothingProvided(definitions) then definitions else
      seq(|definitions|, i requires 0 <= i < |definitions| => ResolveDefinition(definitions, definitions[i]))
  }

  /** The providers that still need an edge: not the service itself, and not hard-depended on already. */
  function Additions(d: ServiceDefinition, providers: seq<string>): seq<string> {
    Filter(providers, p => p != d.name && !HardDependsOn(d, p))
  }

  function WithAuthority(d: ServiceDefinition, providers: seq<string>): ServiceDefinition {
    if !RequiresAuthority(d) || AUTHN_ROLE in d.roles then d else d.(required := d.required + Additions(d, providers))
  }

  function Synthesised(definitions: seq<ServiceDefinition>): (r: seq<ServiceDefinition>)
    ensures |r| == |definitions|
  {
    var resolved := Resolved(definitions);
    var providers := RoleProviders(resolved, AUTHN_ROLE);
    if providers == [] then resolved else
      seq(|resolved|, i requires 0 <= i < |resolved| => WithAuthority(resolved[i], providers))
  }

  // ----- the loops compute these -----

  function Get(table: map<string, seq<string>>, role: string): seq<string> {
    if role in table then table[role] else []
  }

  ghost predicate Entered(
    table: map<string, seq<string>>, r: map<string, seq<string>>, name: string, roles: seq<string>)
  {
    forall role :: Get(r, role) == Get(table, role) + Occurrences(name, roles, role)
  }

  lemma OccurrencesOfOneMore(name: string, roles: seq<string>, next: string, role: string)
    ensures Occurrences(name, roles + [next], role) ==
            if next == role then Occurrences(name, roles, role) + [name] else Occurrences(name, roles, role)
  {
    assert (roles + [next])[..|roles|] == roles;
  }

  lemma EnterNone(table: map<string, seq<string>>, name: string)
    ensures Entered(table, table, name, [])
  {
    assert forall role :: Occurrences(name, [], role) == [];
  }

  lemma EnterOne(
    table: map<string, seq<string>>, r: map<string, seq<string>>, name: string, roles: seq<string>, next: string)
    requires Entered(table, r, name, roles)
    ensures Entered(table, r[next := Get(r, next) + [name]], name, roles + [next])
  {
    hide Occurrences;
    var r' := r[next := Get(r, next) + [name]];
    forall role ensures Get(r', role) == Get(table, role) + Occurrences(name, roles + [next], role) {
      OccurrencesOfOneMore(name, roles, next, role);
      assert Get(r, role) == Get(table, role) + Occurrences(name, roles, role);
      if role == next {
        assert Get(r', role) == Get(r, role) + [name];
      }
    }
  }

  /** Enter `name` under each of `roles`, once for each time it is listed. */
  method EnterRoles(table: map<string, seq<string>>, name: string, roles: seq<string>)
    returns (r: map<string, seq<string>>)
    requires forall role :: role in table ==> table[role] != []
    ensures Entered(table, r, name, roles)
    ensures forall role :: role in r ==> r[role] != []
  {
    hide Entered, Occurrences;
    EnterNone(table, name);
    r := table;
    for j := 0 to |roles|
      invariant Entered(table, r, name, roles[..j])
      invariant forall role :: role in r ==> r[role] != []
    {
      EnterOne(table, r, name, roles[..j], roles[j]);
      r := r[roles[j] := Get(r, roles[j]) + [name]];
      assert roles[..j + 1] == roles[..j] + [roles[j]];
    }
    assert roles[..|roles|] == roles;
  }

  method RoleTable(definitions: seq<ServiceDefinition>) returns (table: map<string, seq<string>>)
    ensures forall role :: Get(table, role) == ListedProviders(definitions, role)
    ensures forall role :: role in table ==> table[role] != []
  {
    table := map[];
    for i := 0 to |definitions|
      invariant forall role :: Get(table, role) == ListedProviders(definitions[..i], role)
      invariant forall role :: role in table ==> table[role] != []
    {
      ghost var before := table;
      table := EnterRoles(table, definitions[i].name, definitions[i].roles);
      assert definitions[..i + 1][..i] == definitions[..i];
      forall role ensures Get(table, role) == ListedProviders(definitions[..i + 1], role) {
        assert Get(before, role) == ListedProviders(definitions[..i], role);
      }
    }
    assert definitions[..|definitions|] == definitions;
  }

  /** Drain a dependency list and rebuild it with every role reference resolved. */
  method ResolveDeclared(
    ghost definitions: seq<ServiceDefinition>, me: string, names: set<string>, table: map<string, seq<string>>,
    list: seq<string>)
    returns (resolved: seq<string>)
    requires forall n :: n in names <==> BearsName(definitions, n)
    requires forall role :: Get(table, role) == ListedProviders(definitions, role)
    requires forall role :: role in table ==> table[role] != []
    ensures resolved == ResolveList(definitions, me, list)
  {
    hide AppendNew, ResolveEntry, NamesRole;
    resolved := [];
    for i := 0 to |list|
      invariant resolved == ResolveList(definitions, me, list[..i])
    {
      var replacements := Replacements(definitions, me, names, table, list[i]);
      resolved := AppendMissing(resolved, replacements);
      assert list[..i + 1][..i] == list[..i];
    }
    assert list[..|list|] == list;
  }

  method Replacements(
    ghost definitions: seq<ServiceDefinition>, me: string, names: set<string>, table: map<string, seq<string>>,
    entry: string)
    returns (replacements: seq<string>)
    requires forall n :: n in names <==> BearsName(definitions, n)
    requires forall role :: Get(table, role) == ListedProviders(definitions, role)
    requires forall role :: role in table ==> table[role] != []
    ensures replacements == ResolveEntry(definitions, me, entry)
  {
    hide BearsName, ListedProviders, OthersAt;
    var (target, level) := SplitTarget(entry);
    replacements := if target in table && target !in names then OthersAt(table[target], me, level) else [entry];
    assert Get(table, target) == ListedProviders(definitions, target);
  }

  method AppendMissing(list: seq<string>, more: seq<string>) returns (r: seq<string>)
    ensures r == AppendNew(list, more)
  {
    r := list;
    for j := 0 to |more|
      invariant r == AppendNew(list, more[..j])
    {
      if more[j] !in r {
        r := r + [more[j]];
      }
      assert more[..j + 1][..j] == more[..j];
    }
    assert more[..|more|] == more;
  }

  method ResolveRoleReferences(definitions: seq<ServiceDefinition>) returns (r: seq<ServiceDefinition>)
    ensures r == Resolved(definitions)
  {
    var names := set d | d in definitions :: d.name;
    var table := RoleTable(definitions);
    EmptyTableMeansNothingProvided(definitions, table);
    if table == map[] {
      return definitions;
    }
    r := definitions;
    for i := 0 to |definitions|
      invariant |r| == |definitions|
      invariant forall k :: 0 <= k < i ==> r[k] == ResolveDefinition(definitions, definitions[k])
      invariant forall k :: i <= k < |r| ==> r[k] == definitions[k]
    {
      hide ResolveList, Resolved;
      var d := r[i];
      var required := ResolveDeclared(definitions, d.name, names, table, d.required);
      var wants := ResolveDeclared(definitions, d.name, names, table, d.wants);
      var bindsTo := ResolveDeclared(definitions, d.name, names, table, d.bindsTo);
      r := r[i := d.(required := required, wants := wants, bindsTo := bindsTo)];
    }
  }

  lemma EmptyTableMeansNothingProvided(definitions: seq<ServiceDefinition>, table: map<string, seq<string>>)
    requires forall role :: Get(table, role) == ListedProviders(definitions, role)
    requires forall role :: role in table ==> table[role] != []
    ensures table == map[] <==> NothingProvided(definitions)
  {
    if d :| d in definitions && d.roles != [] {
      assert d.name in ListedProviders(definitions, d.roles[0]);
      assert Get(table, d.roles[0]) != [];
    }
    if role :| role in table {
      assert table[role][0] in ListedProviders(definitions, role);
    }
  }

  method SynthesiseRoleDependencies(definitions: seq<ServiceDefinition>) returns (r: seq<ServiceDefinition>)
    ensures r == Synthesised(definitions)
  {
    var resolved := ResolveRoleReferences(definitions);
    var providers := RoleProviders(resolved, AUTHN_ROLE);
    r := resolved;
    if providers == [] {
      return;
    }
    for i := 0 to |resolved|
      invariant |r| == |resolved|
      invariant forall k :: 0 <= k < i ==> r[k] == WithAuthority(resolved[k], providers)
      invariant forall k :: i <= k < |r| ==> r[k] == resolved[k]
    {
      hide WithAuthority;
      var d := AddAuthority(r[i], providers);
      r := r[i := d];
    }
  }

  method AddAuthority(d: ServiceDefinition, providers: seq<string>) returns (r: ServiceDefinition)
    ensures r == WithAuthority(d, providers)
  {
    if !RequiresAuthority(d) || AUTHN_ROLE in d.roles {
      return d;
    }
    var entries := d.required + d.bindsTo;
    var declared := set entry | entry in entries :: SplitTarget(entry).0;
    FiltersAgree(providers, p => p != d.name && p !in declared, p => p != d.name && !HardDependsOn(d, p));
    r := d.(required := d.required + Filter(providers, p => p != d.name && p !in declared));
  }

  lemma {:induction false} FiltersAgree<T(!new)>(s: seq<T>, f: T -> bool, g: T -> bool)
    requires forall x :: x in s ==> f(x) == g(x)
    ensures Filter(s, f) == Filter(s, g)
  {
    if s != [] {
      FiltersAgree(s[1..], f, g);
    }
  }

  // ----- what synthesis means -----

  /** No name holds a colon, as none does that peinit accepts. */
  ghost predicate UsableNames(definitions: seq<ServiceDefinition>) {
    forall d :: d in definitions ==> ':' !in d.name
  }

  /** `x` is what `entry` of `me` stands for: itself, or another provider of the role it names, at the same level. */
  ghost predicate StandsFor(definitions: seq<ServiceDefinition>, me: string, entry: string, x: string) {
    var (target, level) := SplitTarget(entry);
    if (exists p :: IsProvider(definitions, target, p)) && !BearsName(definitions, target)
    then exists p :: IsProvider(definitions, target, p) && p != me && x == WithLevel(p, level)
    else x == entry
  }

  lemma EntryStandsFor(definitions: seq<ServiceDefinition>, me: string, entry: string, x: string)
    ensures x in ResolveEntry(definitions, me, entry) <==> StandsFor(definitions, me, entry, x)
    ensures NamesRole(definitions, entry) <==>
            && (exists p :: IsProvider(definitions, SplitTarget(entry).0, p))
            && !BearsName(definitions, SplitTarget(entry).0)
  {
    var (target, level) := SplitTarget(entry);
    var providers := ListedProviders(definitions, target);
    assert providers != [] ==> providers[0] in providers;
    assert forall p :: p in providers <==> IsProvider(definitions, target, p);
  }

  /** Each list holds, once each, exactly what its declared entries stand for. */
  lemma ResolvedListMeaning(definitions: seq<ServiceDefinition>, me: string, list: seq<string>, x: string)
    ensures x in ResolveList(definitions, me, list) <==>
            exists entry :: entry in list && StandsFor(definitions, me, entry, x)
    ensures Distinct(ResolveList(definitions, me, list))
  {
    hide ResolveList, ResolveEntry, StandsFor;
    forall entry ensures x in ResolveEntry(definitions, me, entry) <==> StandsFor(definitions, me, entry, x) {
      EntryStandsFor(definitions, me, entry, x);
    }
    ResolveListMeans(definitions, me, list);
  }

  /** A resolved entry naming `me` was declared so: no self-edge is introduced. */
  lemma NoNewSelfEdge(definitions: seq<ServiceDefinition>, me: string, list: seq<string>, x: string)
    requires UsableNames(definitions) && x in ResolveList(definitions, me, list) && SplitTarget(x).0 == me
    ensures x in list
  {
    ResolveListMeans(definitions, me, list);
    var entry :| entry in list && x in ResolveEntry(definitions, me, entry);
    if NamesRole(definitions, entry) {
      var (target, level) := SplitTarget(entry);
      var p :| p in ListedProviders(definitions, target) && p != me && x == WithLevel(p, level);
      SplitOfJoin(p, level);
    }
  }

  /** No entry of `list` names a role. */
  ghost predicate Settled(definitions: seq<ServiceDefinition>, list: seq<string>) {
    forall entry :: entry in list ==> !NamesRole(definitions, entry)
  }

  /** After a pass every entry names a service or something nobody provides. */
  lemma ResolvedIsSettled(definitions: seq<ServiceDefinition>, me: string, list: seq<string>)
    requires UsableNames(definitions)
    ensures Settled(definitions, ResolveList(definitions, me, list))
  {
    ResolveListMeans(definitions, me, list);
    forall x | x in ResolveList(definitions, me, list) ensures !NamesRole(definitions, x) {
      assert Means(definitions, me, list, x);
      var entry :| entry in list && x in ResolveEntry(definitions, me, entry);
      if NamesRole(definitions, entry) {
        var (target, level) := SplitTarget(entry);
        var p :| p in ListedProviders(definitions, target) && p != me && x == WithLevel(p, level);
        assert IsProvider(definitions, target, p);
        SplitOfJoin(p, level);
        assert BearsName(definitions, p);
      }
    }
  }

  /** A settled list without duplicates resolves to itself. */
  lemma {:induction false} SettledResolvesToItself(definitions: seq<ServiceDefinition>, me: string, list: seq<string>)
    requires Settled(definitions, list) && Distinct(list)
    ensures ResolveList(definitions, me, list) == list
  {
    if list != [] {
      hide NamesRole, AppendNew, ResolveEntry, Distinct;
      var init, last := list[..|list| - 1], list[|list| - 1];
      assert list == init + [last];
      DistinctOneMore(init, last);
      SettledResolvesToItself(definitions, me, init);
      PlainEntry(definitions, me, last);
      AppendOne(init, last);
    }
  }

  lemma PlainEntry(definitions: seq<ServiceDefinition>, me: string, entry: string)
    requires !NamesRole(definitions, entry)
    ensures ResolveEntry(definitions, me, entry) == [entry]
  {
  }

  lemma AppendOne(list: seq<string>, x: string)
    requires x !in list
    ensures AppendNew(list, [x]) == list + [x]
  {
    assert [x][..0] == [];
  }

  /** The same services, roles and names: what role references resolve against. */
  ghost predicate SameRoles(a: seq<ServiceDefinition>, b: seq<ServiceDefinition>) {
    |a| == |b| && forall i :: 0 <= i < |a| ==> a[i].name == b[i].name && a[i].roles == b[i].roles
  }

  lemma {:induction false} SameProviders(a: seq<ServiceDefinition>, b: seq<ServiceDefinition>, role: string)
    requires SameRoles(a, b)
    ensures ListedProviders(a, role) == ListedProviders(b, role)
    ensures RoleProviders(a, role) == RoleProviders(b, role)
  {
    if a != [] {
      SameProviders(a[..|a| - 1], b[..|b| - 1], role);
    }
  }

  lemma SameMeaning(a: seq<ServiceDefinition>, b: seq<ServiceDefinition>, entry: string)
    requires SameRoles(a, b)
    ensures NamesRole(a, entry) <==> NamesRole(b, entry)
  {
    var target := SplitTarget(entry).0;
    SameProviders(a, b, target);
    if BearsName(a, target) {
      var i :| 0 <= i < |a| && a[i].name == target;
      assert b[i] in b;
    }
    if BearsName(b, target) {
      var i :| 0 <= i < |b| && b[i].name == target;
      assert a[i] in a;
    }
  }

  lemma SynthesisKeepsRoles(definitions: seq<ServiceDefinition>)
    ensures SameRoles(definitions, Resolved(definitions))
    ensures SameRoles(definitions, Synthesised(definitions))
  {
    hide ResolveList, RoleProviders, Additions;
  }

  ghost predicate Declares(definitions: seq<ServiceDefinition>, me: string, list: seq<string>, x: string) {
    exists entry :: entry in list && StandsFor(definitions, me, entry, x)
  }

  /** The pass over role references alone: each list means what its entries stood for. */
  lemma ResolvedMeaning(definitions: seq<ServiceDefinition>, i: nat, x: string)
    requires i < |definitions|
    ensures var d, s := definitions[i], Resolved(definitions)[i];
            && (x in s.required <==> Declares(definitions, d.name, d.required, x))
            && (x in s.wants <==> Declares(definitions, d.name, d.wants, x))
            && (x in s.bindsTo <==> Declares(definitions, d.name, d.bindsTo, x))
            && s == d.(required := s.required, wants := s.wants, bindsTo := s.bindsTo)
  {
    var d := definitions[i];
    if NothingProvided(definitions) {
      forall entry, role ensures !IsProvider(definitions, role, entry) {
      }
      assert forall entry :: StandsFor(definitions, d.name, entry, x) <==> x == entry;
    } else {
      hide ResolveList, StandsFor;
      ResolvedListMeaning(definitions, d.name, d.required, x);
      ResolvedListMeaning(definitions, d.name, d.wants, x);
      ResolvedListMeaning(definitions, d.name, d.bindsTo, x);
    }
  }

  /** A hard dependency of service `i`, read for what it stands for, leads to `p`. */
  ghost predicate DeclaresHard(definitions: seq<ServiceDefinition>, i: nat, p: string)
    requires i < |definitions|
  {
    var d := definitions[i];
    exists x :: (Declares(definitions, d.name, d.required, x) || Declares(definitions, d.name, d.bindsTo, x))
                && SplitTarget(x).0 == p
  }

  lemma ResolvedDependsHard(definitions: seq<ServiceDefinition>, i: nat, p: string)
    requires i < |definitions|
    ensures HardDependsOn(Resolved(definitions)[i], p) <==> DeclaresHard(definitions, i, p)
  {
    hide Resolved, Declares, SplitTarget;
    var d, r := definitions[i], Resolved(definitions)[i];
    forall x ensures x in r.required + r.bindsTo <==>
                     Declares(definitions, d.name, d.required, x) || Declares(definitions, d.name, d.bindsTo, x) {
      ResolvedMeaning(definitions, i, x);
    }
  }

  /** Synthesis changes only the three dependency lists; `Wants` and `BindsTo` mean what was declared, and
      `Requires` gains exactly the authority's providers that a service needing one did not already depend on. */
  lemma SynthesisMeaning(definitions: seq<ServiceDefinition>, i: nat, x: string)
    requires i < |definitions|
    ensures var d, s := definitions[i], Synthesised(definitions)[i];
            && (x in s.wants <==> Declares(definitions, d.name, d.wants, x))
            && (x in s.bindsTo <==> Declares(definitions, d.name, d.bindsTo, x))
            && (x in s.required <==>
                  || Declares(definitions, d.name, d.required, x)
                  || (RequiresAuthority(d) && AUTHN_ROLE !in d.roles && IsProvider(definitions, AUTHN_ROLE, x)
                      && x != d.name && !DeclaresHard(definitions, i, x)))
            && s == d.(required := s.required, wants := s.wants, bindsTo := s.bindsTo)
  {
    hide Declares, DeclaresHard, HardDependsOn, Resolved, ResolveList, IsProvider, RequiresAuthority, RoleProviders;
    ResolvedMeaning(definitions, i, x);
    ResolvedDependsHard(definitions, i, x);
    SynthesisKeepsRoles(definitions);
    SameProviders(definitions, Resolved(definitions), AUTHN_ROLE);
    RequiresAuthorityReads(definitions[i], Resolved(definitions)[i]);
    var providers := RoleProviders(Resolved(definitions), AUTHN_ROLE);
    assert x in providers <==> IsProvider(definitions, AUTHN_ROLE, x);
  }

  /** A service that needs the authority and does not provide it ends with a hard edge to every provider. */
  lemma AuthorityIsDependedOn(definitions: seq<ServiceDefinition>, i: nat, p: string)
    requires UsableNames(definitions) && i < |definitions|
    requires RequiresAuthority(definitions[i]) && AUTHN_ROLE !in definitions[i].roles
    requires IsProvider(definitions, AUTHN_ROLE, p) && p != definitions[i].name
    ensures HardDependsOn(Synthesised(definitions)[i], p)
  {
    var d, s := definitions[i], Synthesised(definitions)[i];
    SynthesisMeaning(definitions, i, p);
    assert ':' !in p;
    if DeclaresHard(definitions, i, p) {
      var entry :| (Declares(definitions, d.name, d.required, entry) || Declares(definitions, d.name, d.bindsTo, entry))
                   && SplitTarget(entry).0 == p;
      SynthesisMeaning(definitions, i, entry);
      assert entry in s.required + s.bindsTo;
    } else {
      SplitOfJoin(p, None);
      assert p in s.required + s.bindsTo;
    }
  }

  /** The service or one of its start hooks runs as an identity that the authority must vouch for. */
  ghost predicate RunsAsOther(d: ServiceDefinition) {
    var hooks := d.execStartPre + d.execStartPost;
    || d.identity != "SYSTEM"
    || (hooks != [] && d.hookIdentity.Some? && d.hookIdentity.value != "SYSTEM")
  }

  /** Some service of that name provides the authority. */
  ghost predicate ProvidesAuthority(definitions: seq<ServiceDefinition>, name: string) {
    exists k :: 0 <= k < |definitions| && definitions[k].name == name && "authn" in definitions[k].roles
  }

  /** A service that runs as another identity ends with a hard edge to every other provider of the
      authority; any other service, and a provider, gains nothing beyond what its entries stand for. */
  lemma AuthorityEdgeWhen(definitions: seq<ServiceDefinition>, i: nat, x: string)
    requires i < |definitions|
    ensures var d, s := definitions[i], Synthesised(definitions)[i];
            && ((RunsAsOther(d) && "authn" !in d.roles && UsableNames(definitions)
                 && ProvidesAuthority(definitions, x) && x != d.name) ==> HardDependsOn(s, x))
            && (!RunsAsOther(d) || "authn" in d.roles ==>
                  (x in s.required <==> Declares(definitions, d.name, d.required, x)))
  {
    var d := definitions[i];
    assert RequiresAuthority(d) <==> RunsAsOther(d) by {
      assert d.execStartPre + d.execStartPost != [] <==> d.execStartPre != [] || d.execStartPost != [];
    }
    assert ProvidesAuthority(definitions, x) <==> IsProvider(definitions, AUTHN_ROLE, x);
    hide RequiresAuthority, RunsAsOther, ProvidesAuthority, Synthesised, HardDependsOn, Declares, IsProvider;
    SynthesisMeaning(definitions, i, x);
    if UsableNames(definitions) && RequiresAuthority(d) && AUTHN_ROLE !in d.roles
       && IsProvider(definitions, AUTHN_ROLE, x) && x != d.name
    {
      AuthorityIsDependedOn(definitions, i, x);
    }
  }

  /** No dependency of a service on itself appears that was not declared. */
  lemma SynthesisAddsNoSelfEdge(definitions: seq<ServiceDefinition>, i: nat, x: string)
    requires UsableNames(definitions) && i < |definitions| && SplitTarget(x).0 == definitions[i].name
    ensures var d, s := definitions[i], Synthesised(definitions)[i];
            && (x in s.required ==> x in d.required)
            && (x in s.wants ==> x in d.wants)
            && (x in s.bindsTo ==> x in d.bindsTo)
  {
    var d := definitions[i];
    SynthesisMeaning(definitions, i, x);
    if IsProvider(definitions, AUTHN_ROLE, x) {
      assert ':' !in x;
      SplitOfJoin(x, None);
    }
    forall list | Declares(definitions, d.name, list, x) ensures x in list {
      ResolvedListMeaning(definitions, d.name, list, x);
      NoNewSelfEdge(definitions, d.name, list, x);
    }
  }

  /** Two definitions of one name provide the authority to service `i`, which does not yet hard-depend on that name. */
  ghost predicate DoublesEdge(definitions: seq<ServiceDefinition>, i: nat)
    requires i < |definitions|
  {
    && RequiresAuthority(definitions[i]) && AUTHN_ROLE !in definitions[i].roles
    && exists j, k :: 0 <= j < k < |definitions|
         && AUTHN_ROLE in definitions[j].roles && AUTHN_ROLE in definitions[k].roles
         && definitions[j].name == definitions[k].name != definitions[i].name
         && !DeclaresHard(definitions, i, definitions[k].name)
  }

  ghost predicate Doubled(definitions: seq<ServiceDefinition>, role: string, keep: string -> bool) {
    exists j, k :: 0 <= j < k < |definitions| && role in definitions[j].roles && role in definitions[k].roles
                   && definitions[j].name == definitions[k].name && keep(definitions[k].name)
  }

  lemma DoubledByOneMore(init: seq<ServiceDefinition>, last: ServiceDefinition, role: string, keep: string -> bool)
    ensures Doubled(init + [last], role, keep) <==>
            Doubled(init, role, keep) || (role in last.roles && keep(last.name) && IsProvider(init, role, last.name))
  {
    var more := init + [last];
    assert forall j :: 0 <= j < |init| ==> more[j] == init[j] && init[j] in init;
    assert more[|init|] == last;
    if Doubled(init, role, keep) {
      var j, k :| 0 <= j < k < |init| && role in init[j].roles && role in init[k].roles
                  && init[j].name == init[k].name && keep(init[k].name);
      assert more[j] == init[j] && more[k] == init[k];
    }
    if role in last.roles && keep(last.name) && IsProvider(init, role, last.name) {
      var j :| 0 <= j < |init| && role in init[j].roles && init[j].name == last.name;
      assert more[j] == init[j] && more[|init|] == last;
    }
  }

  lemma {:induction false} DoubledProviders(definitions: seq<ServiceDefinition>, role: string, keep: string -> bool)
    ensures Distinct(Filter(RoleProviders(definitions, role), keep)) <==> !Doubled(definitions, role, keep)
  {
    if definitions != [] {
      hide Doubled, IsProvider, Filter, Distinct;
      var init, last := definitions[..|definitions| - 1], definitions[|definitions| - 1];
      assert definitions == init + [last];
      DoubledProviders(init, role, keep);
      DoubledByOneMore(init, last, role, keep);
      assert last.name in RoleProviders(init, role) <==> IsProvider(init, role, last.name);
      if role in last.roles {
        FilterAppend(RoleProviders(init, role), last.name, keep);
        DistinctOneMore(Filter(RoleProviders(init, role), keep), last.name);
      }
    }
  }

  lemma DistinctOneMore(s: seq<string>, x: string)
    ensures Distinct(s + [x]) <==> Distinct(s) && x !in s
  {
    var more := s + [x];
    assert forall i :: 0 <= i < |s| ==> more[i] == s[i];
    assert more[|s|] == x;
    if x in s {
      var i :| 0 <= i < |s| && s[i] == x;
      assert more[i] == more[|s|];
    }
    if Distinct(more) {
      assert forall i, j :: 0 <= i < j < |s| ==> more[i] != more[j];
    }
  }

  /** The edges added to service `i` are distinct unless it doubles one. */
  lemma AdditionsAreDistinct(definitions: seq<ServiceDefinition>, i: nat)
    requires i < |definitions| && RequiresAuthority(definitions[i]) && AUTHN_ROLE !in definitions[i].roles
    ensures Distinct(Additions(Resolved(definitions)[i], RoleProviders(definitions, AUTHN_ROLE))) <==>
            !DoublesEdge(definitions, i)
  {
    hide RequiresAuthority, HardDependsOn, RoleProviders, Resolved;
    var r := Resolved(definitions)[i];
    var keep := p => p != r.name && !HardDependsOn(r, p);
    SynthesisKeepsRoles(definitions);
    DoubledProviders(definitions, AUTHN_ROLE, keep);
    forall p ensures HardDependsOn(r, p) <==> DeclaresHard(definitions, i, p) {
      ResolvedDependsHard(definitions, i, p);
    }
    hide DeclaresHard;
    assert Doubled(definitions, AUTHN_ROLE, keep) <==> DoublesEdge(definitions, i);
  }

  lemma SynthesisedIsSettled(definitions: seq<ServiceDefinition>, i: nat)
    requires UsableNames(definitions) && i < |definitions| && !NothingProvided(definitions)
    ensures var s := Synthesised(definitions)[i];
            && Settled(definitions, s.required) && Settled(definitions, s.wants) && Settled(definitions, s.bindsTo)
            && Distinct(s.wants) && Distinct(s.bindsTo)
            && (Distinct(s.required) <==> !DoublesEdge(definitions, i))
  {
    hide Settled, ResolveList, RoleProviders, Additions, RequiresAuthority;
    var d, r := definitions[i], Resolved(definitions)[i];
    ResolvedIsSettled(definitions, d.name, d.required);
    ResolvedIsSettled(definitions, d.name, d.wants);
    ResolvedIsSettled(definitions, d.name, d.bindsTo);
    ResolveListMeans(definitions, d.name, d.required);
    ResolveListMeans(definitions, d.name, d.wants);
    ResolveListMeans(definitions, d.name, d.bindsTo);
    SynthesisKeepsRoles(definitions);
    SameProviders(definitions, Resolved(definitions), AUTHN_ROLE);
    RequiresAuthorityReads(d, r);
    var providers := RoleProviders(definitions, AUTHN_ROLE);
    if RequiresAuthority(d) && AUTHN_ROLE !in d.roles {
      AdditionsAreDistinct(definitions, i);
      AdditionsAreSettled(definitions, r, providers);
      if providers == [] {
        NothingToAdd(r, providers);
        assert r.required + [] == r.required;
      }
    }
  }

  lemma AdditionsAreSettled(definitions: seq<ServiceDefinition>, d: ServiceDefinition, providers: seq<string>)
    requires UsableNames(definitions) && Settled(definitions, d.required) && Distinct(d.required)
    requires forall p :: p in providers ==> BearsName(definitions, p)
    ensures Settled(definitions, d.required + Additions(d, providers))
    ensures Distinct(d.required + Additions(d, providers)) <==> Distinct(Additions(d, providers))
  {
    var additions := Additions(d, providers);
    forall p | p in additions ensures !NamesRole(definitions, p) && p !in d.required {
      assert BearsName(definitions, p) && ':' !in p;
      SplitOfJoin(p, None);
      assert p in d.required ==> p in d.required + d.bindsTo;
    }
    if Distinct(additions) {
      assert forall i :: 0 <= i < |additions| ==> additions[i] in additions;
      DistinctJoin(d.required, additions);
    }
    if Distinct(d.required + additions) {
      assert forall i :: 0 <= i < |additions| ==> (d.required + additions)[|d.required| + i] == additions[i];
    }
  }

  lemma OnlyListsChange(definitions: seq<ServiceDefinition>, i: nat)
    requires i < |definitions|
    ensures var s := Synthesised(definitions)[i];
            s == definitions[i].(required := s.required, wants := s.wants, bindsTo := s.bindsTo)
  {
    SynthesisMeaning(definitions, i, []);
  }

  lemma AuthorityAddedOnce(definitions: seq<ServiceDefinition>, i: nat)
    requires UsableNames(definitions) && i < |definitions|
    ensures WithAuthority(Synthesised(definitions)[i], RoleProviders(definitions, AUTHN_ROLE)) ==
            Synthesised(definitions)[i]
  {
    hide Synthesised, RoleProviders, HardDependsOn, RequiresAuthority, IsProvider, WithAuthority;
    var s, providers := Synthesised(definitions)[i], RoleProviders(definitions, AUTHN_ROLE);
    OnlyListsChange(definitions, i);
    RequiresAuthorityReads(definitions[i], s);
    if RequiresAuthority(s) && AUTHN_ROLE !in s.roles {
      forall p | p in providers && p != s.name ensures HardDependsOn(s, p) {
        AuthorityIsDependedOn(definitions, i, p);
      }
    }
    AuthorityAlreadyThere(s, providers);
  }

  lemma AuthorityAlreadyThere(s: ServiceDefinition, providers: seq<string>)
    requires RequiresAuthority(s) && AUTHN_ROLE !in s.roles ==>
               forall p :: p in providers && p != s.name ==> HardDependsOn(s, p)
    ensures WithAuthority(s, providers) == s
  {
    hide HardDependsOn, RequiresAuthority, Additions;
    if RequiresAuthority(s) && AUTHN_ROLE !in s.roles {
      NothingToAdd(s, providers);
      assert s.required + [] == s.required;
    }
  }

  lemma NothingToAdd(d: ServiceDefinition, providers: seq<string>)
    requires forall p :: p in providers && p != d.name ==> HardDependsOn(d, p)
    ensures Additions(d, providers) == []
  {
    hide HardDependsOn;
    FilterNothing(providers, p => p != d.name && !HardDependsOn(d, p));
  }

  /** Needing the authority does not depend on the dependency lists. */
  lemma RequiresAuthorityReads(d: ServiceDefinition, s: ServiceDefinition)
    requires s == d.(required := s.required, wants := s.wants, bindsTo := s.bindsTo)
    ensures RequiresAuthority(s) == RequiresAuthority(d)
  {
  }

  /** A second pass changes nothing, exactly when no derived edge is doubled. */
  lemma SynthesisIsIdempotent(definitions: seq<ServiceDefinition>)
    requires UsableNames(definitions)
    ensures Synthesised(Synthesised(definitions)) == Synthesised(definitions) <==>
            forall i :: 0 <= i < |definitions| ==> !DoublesEdge(definitions, i)
  {
    hide Resolved, RoleProviders, WithAuthority, DoublesEdge;
    var once := Synthesised(definitions);
    SynthesisKeepsRoles(definitions);
    SynthesisKeepsRoles(once);
    SameProviders(definitions, once, AUTHN_ROLE);
    if i :| 0 <= i < |definitions| && DoublesEdge(definitions, i) {
      DoubledEdgeIsDropped(definitions, i);
    } else {
      ResolvingAgain(definitions);
      forall i | 0 <= i < |once| ensures WithAuthority(once[i], RoleProviders(once, AUTHN_ROLE)) == once[i] {
        AuthorityAddedOnce(definitions, i);
      }
      assert Synthesised(once) == once;
    }
  }

  /** Where names are unique no edge is doubled, so synthesis is idempotent. */
  lemma SynthesisOfUniqueNamesIsIdempotent(definitions: seq<ServiceDefinition>)
    requires UsableNames(definitions)
    requires forall i, j :: 0 <= i < j < |definitions| ==> definitions[i].name != definitions[j].name
    ensures Synthesised(Synthesised(definitions)) == Synthesised(definitions)
  {
    SynthesisIsIdempotent(definitions);
  }

  /** A doubled edge is dropped to one by the next pass. */
  lemma DoubledEdgeIsDropped(definitions: seq<ServiceDefinition>, i: nat)
    requires UsableNames(definitions) && i < |definitions| && DoublesEdge(definitions, i)
    ensures Synthesised(Synthesised(definitions))[i] != Synthesised(definitions)[i]
  {
    var once := Synthesised(definitions);
    assert !NothingProvided(definitions) by {
      var j, k :| 0 <= j < k < |definitions| && AUTHN_ROLE in definitions[j].roles
        && AUTHN_ROLE in definitions[k].roles;
      assert definitions[j] in definitions;
    }
    SynthesisedIsSettled(definitions, i);
    SynthesisKeepsRoles(definitions);
    SecondPassIsDistinct(definitions, i);
  }

  /** A definition with nothing declared but its name, identity and role. */
  function Plain(name: string, identity: string, roles: seq<string>): ServiceDefinition {
    ServiceDefinition(name, identity, [], [], [], roles, [], true, false, false, [], [], None, [], Never, 0, 0, Normal,
                      None, false)
  }

  function TwoOfOneName(): seq<ServiceDefinition> {
    [Plain("a", "SYSTEM", [AUTHN_ROLE]), Plain("a", "SYSTEM", [AUTHN_ROLE]), Plain("b", "LOCAL", [])]
  }

  /** Synthesis is not idempotent where two definitions of one name provide the authority. */
  lemma SharedNameBreaksIdempotence()
    ensures var definitions := TwoOfOneName();
            UsableNames(definitions) && Synthesised(Synthesised(definitions)) != Synthesised(definitions)
  {
    var definitions := TwoOfOneName();
    assert definitions[0].name == definitions[1].name == "a" && definitions[2].name == "b";
    assert !DeclaresHard(definitions, 2, "a");
    assert DoublesEdge(definitions, 2);
    DoubledEdgeIsDropped(definitions, 2);
  }

  lemma SecondPassIsDistinct(definitions: seq<ServiceDefinition>, i: nat)
    requires UsableNames(definitions) && i < |definitions| && !NothingProvided(definitions)
    ensures Distinct(Synthesised(Synthesised(definitions))[i].required)
  {
    var once := Synthesised(definitions);
    SynthesisKeepsRoles(definitions);
    assert UsableNames(once) && !NothingProvided(once) by {
      forall d | d in once ensures ':' !in d.name {
        var j :| 0 <= j < |once| && once[j] == d;
        assert definitions[j] in definitions;
      }
      var d :| d in definitions && d.roles != [];
      var j :| 0 <= j < |definitions| && definitions[j] == d;
      assert once[j] in once;
    }
    SynthesisedIsSettled(once, i);
    NoSecondDouble(definitions, i);
  }

  lemma NoSecondDouble(definitions: seq<ServiceDefinition>, i: nat)
    requires UsableNames(definitions) && i < |definitions|
    ensures i < |Synthesised(definitions)| && !DoublesEdge(Synthesised(definitions), i)
  {
    var once := Synthesised(definitions);
    SynthesisKeepsRoles(definitions);
    SynthesisMeaning(definitions, i, []);
    if DoublesEdge(once, i) {
      var k :| 0 <= k < |once| && AUTHN_ROLE in once[k].roles && once[k].name != once[i].name
               && !DeclaresHard(once, i, once[k].name);
      assert definitions[k] in definitions;
      AuthorityIsDependedOn(definitions, i, definitions[k].name);
      StillDependsHard(once, i, once[k].name);
      ResolvedDependsHard(once, i, once[k].name);
    }
  }

  /** Resolving keeps a hard dependency on a service. */
  lemma StillDependsHard(definitions: seq<ServiceDefinition>, i: nat, p: string)
    requires i < |definitions| && HardDependsOn(definitions[i], p) && BearsName(definitions, p)
    ensures HardDependsOn(Resolved(definitions)[i], p)
  {
    var d, r := definitions[i], Resolved(definitions)[i];
    var entry :| entry in d.required + d.bindsTo && SplitTarget(entry).0 == p;
    assert StandsFor(definitions, d.name, entry, entry);
    ResolvedMeaning(definitions, i, entry);
    assert entry in r.required + r.bindsTo;
  }

  /** After synthesis there is no role reference left to resolve. */
  lemma ResolvingAgain(definitions: seq<ServiceDefinition>)
    requires UsableNames(definitions)
    requires forall i :: 0 <= i < |definitions| ==> !DoublesEdge(definitions, i)
    ensures Resolved(Synthesised(definitions)) == Synthesised(definitions)
  {
    hide DoublesEdge;
    var once := Synthesised(definitions);
    SynthesisKeepsRoles(definitions);
    if NothingProvided(definitions) {
      assert forall i :: 0 <= i < |once| ==> once[i].roles == definitions[i].roles && definitions[i] in definitions;
    } else {
      hide ResolveDefinition;
      forall i | 0 <= i < |once| ensures ResolveDefinition(once, once[i]) == once[i] {
        ResolvesToItself(definitions, i);
      }
    }
  }

  lemma ResolvesToItself(definitions: seq<ServiceDefinition>, i: nat)
    requires UsableNames(definitions) && i < |definitions| && !NothingProvided(definitions)
             && !DoublesEdge(definitions, i)
    ensures var once := Synthesised(definitions); ResolveDefinition(once, once[i]) == once[i]
  {
    hide DoublesEdge, NamesRole, Synthesised, ResolveList;
    var once := Synthesised(definitions);
    SynthesisKeepsRoles(definitions);
    SynthesisedIsSettled(definitions, i);
    forall entry ensures NamesRole(once, entry) <==> NamesRole(definitions, entry) {
      SameMeaning(once, definitions, entry);
    }
    SettledResolvesToItself(once, once[i].name, once[i].required);
    SettledResolvesToItself(once, once[i].name, once[i].wants);
    SettledResolvesToItself(once, once[i].name, once[i].bindsTo);
  }
}
