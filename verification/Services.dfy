/** Service definitions and the dependencies they declare (src/service/definition.rs, src/service/dependency.rs). */
module Services {
  import opened Collections

  datatype ServiceState =
    Inactive | Starting | Active | Reloading | Stopping | Completed | Backoff | Failed | Abandoned | Skipped

  predicate SatisfiesDependents(state: ServiceState) {
    state.Active? || state.Reloading? || state.Completed? || state.Skipped?
  }

  datatype RestartPolicy = Never | OnFailure | Always

  datatype ErrorControl = Normal | Critical

  /** The fields of a definition that ordering, roles, restarts and boot success read. */
  datatype ServiceDefinition = ServiceDefinition(
    name: string,
    identity: string,
    required: seq<string>,
    wants: seq<string>,
    bindsTo: seq<string>,
    roles: seq<string>,  // the `Provides` list
    conflicts: seq<string>,
    bootTrigger: bool,  // one of its triggers is `boot`
    disabled: bool,
    safeMode: bool,
    execStartPre: seq<string>,
    execStartPost: seq<string>,
    hookIdentity: Option<string>,
    successExitCodes: seq<int>,
    restartPolicy: RestartPolicy,
    restartMaxRetries: u32,
    restartDelaySecs: u64,
    errorControl: ErrorControl,
    consolePath: Option<string>,
    compiledIn: bool
  )

  datatype DependencyKind = Requires | Wants | BindsTo

  datatype ServiceDependency = ServiceDependency(target: string, level: Option<string>, kind: DependencyKind)

  /** The text before the first colon. */
  function BeforeColon(text: string): (r: string)
    ensures r <= text && ':' !in r
    ensures |r| < |text| ==> text[|r|] == ':'
  {
    if text == [] || text[0] == ':' then [] else [text[0]] + BeforeColon(text[1..])
  }

  /** Split a declared dependency into a service and an optional readiness level. */
  function SplitTarget(declared: string): (r: (string, Option<string>))
    ensures ':' !in r.0
    ensures r.1.Some? ==> r.1.value != [] && declared == r.0 + ":" + r.1.value
    ensures r.1.None? ==> declared == r.0 || declared == r.0 + ":"
  {
    var service := BeforeColon(declared);
    if |service| + 1 < |declared| then
      assert declared == service + [declared[|service|]] + declared[|service| + 1..];
      (service, Some(declared[|service| + 1..]))
    else
      (service, None)
  }

  /** The declaration that asks for `service` at `level`. */
  function WithLevel(service: string, level: Option<string>): string {
    match level
    case Some(text) => service + ":" + text
    case None => service
  }

  lemma {:induction false} BeforeColonOfJoin(service: string, rest: string)
    requires ':' !in service && (rest == [] || rest[0] == ':')
    ensures BeforeColon(service + rest) == service
  {
    if service != [] {
      assert (service + rest)[1..] == service[1..] + rest;
      BeforeColonOfJoin(service[1..], rest);
    } else {
      assert service + rest == rest;
    }
  }

  /** Splitting inverts joining, for a colon-free service and a level that is not empty. */
  lemma SplitOfJoin(service: string, level: Option<string>)
    requires ':' !in service && (level.Some? ==> level.value != [])
    ensures SplitTarget(WithLevel(service, level)) == (service, level)
  {
    match level {
      case Some(text) =>
        BeforeColonOfJoin(service, ":" + text);
        assert service + (":" + text) == service + ":" + text;
      case None =>
        BeforeColonOfJoin(service, []);
        assert service + [] == service;
    }
  }

  function Dependencies(declared: seq<string>, kind: DependencyKind): (r: seq<ServiceDependency>) {
    seq(|declared|, i requires 0 <= i < |declared| =>
      var (target, level) := SplitTarget(declared[i]); ServiceDependency(target, level, kind))
  }

  function HardDependencies(definition: ServiceDefinition): seq<ServiceDependency> {
    Dependencies(definition.required, Requires) + Dependencies(definition.bindsTo, BindsTo)
  }

  /** The services this one is ordered after, levels stripped. */
  function StartOrderDependencyTargets(definition: ServiceDefinition): seq<string> {
    var declared := definition.required + definition.bindsTo + definition.wants;
    seq(|declared|, i requires 0 <= i < |declared| => SplitTarget(declared[i]).0)
  }

  predicate HardDependsOn(definition: ServiceDefinition, target: string) {
    exists entry :: entry in definition.required + definition.bindsTo && SplitTarget(entry).0 == target
  }

  /** The targets of the hard dependencies are what `HardDependsOn` names. */
  lemma HardDependencyTargets(definition: ServiceDefinition, target: string)
    ensures (exists d :: d in HardDependencies(definition) && d.target == target) <==> HardDependsOn(definition, target)
  {
    var deps, declared := HardDependencies(definition), definition.required + definition.bindsTo;
    assert |deps| == |declared|;
    assert forall i :: 0 <= i < |declared| ==> deps[i].target == SplitTarget(declared[i]).0;
    if HardDependsOn(definition, target) {
      var i :| 0 <= i < |declared| && SplitTarget(declared[i]).0 == target;
      assert deps[i] in deps;
    }
    if d :| d in deps && d.target == target {
      var i :| 0 <= i < |deps| && deps[i] == d;
      assert declared[i] in declared;
    }
  }

  /** Starting is ordered after every hard dependency. */
  lemma HardDependencyOrdersStart(definition: ServiceDefinition, target: string)
    requires HardDependsOn(definition, target)
    ensures target in StartOrderDependencyTargets(definition)
  {
    var hard := definition.required + definition.bindsTo;
    var i :| 0 <= i < |hard| && SplitTarget(hard[i]).0 == target;
    assert (hard + definition.wants)[i] == hard[i];
    assert StartOrderDependencyTargets(definition)[i] == target;
  }

  datatype ServiceEntry = ServiceEntry(
    definition: ServiceDefinition, state: ServiceState, dependentSatisfiedSinceNs: Option<u64>)

  /** The service table: its entries, and their names in iteration order. */
  datatype ServiceTable = ServiceTable(names: seq<string>, entries: map<string, ServiceEntry>) {
    ghost predicate Valid() {
      Distinct(names) && Elements(names) == entries.Keys
    }
  }
}
