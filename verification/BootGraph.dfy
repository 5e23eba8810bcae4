/** Which services a boot starts, in what order, and why the others are blocked (src/boot/phase2/graph). */
module BootGraph {
  import opened Collections
  import opened Graphs
  import opened Services
  import StartOrder
  import opened CycleReports
  import opened Names

  datatype BootMode = Full | Safe | Recovery

  datatype BlockedReason =
    | HardDependencyUnavailable(target: string, kind: DependencyKind)
    | HardDependencyBlocked(target: string, kind: DependencyKind)
    | CycleDetected(services: seq<string>)
    | ConflictingBootService(target: string)
    | ValidationError(message: string)

  /** The primary finding against a service and every other one, in discovery order. */
  datatype BlockedDraft = BlockedDraft(reason: BlockedReason, additional: seq<BlockedReason>)

  type Blocked = map<string, BlockedDraft>

  type Definitions = map<string, ServiceDefinition>

  function Precedence(reason: BlockedReason): int {
    match reason
    case CycleDetected(_) => 3
    case ConflictingBootService(_) | ValidationError(_) => 2
    case HardDependencyUnavailable(_, _) | HardDependencyBlocked(_, _) => 1
  }

  /** The primary finding outranks or equals the rest, and nothing is recorded twice. */
  ghost predicate WellRanked(draft: BlockedDraft) {
    && draft.reason !in draft.additional && Distinct(draft.additional)
    && forall other :: other in draft.additional ==> Precedence(draft.reason) >= Precedence(other)
  }

  function Findings(draft: BlockedDraft): set<BlockedReason> {
    {draft.reason} + Elements(draft.additional)
  }

  /** A cycle before all others, and a missing or blocked dependency after them. */
  ghost predicate IsGraver(a: BlockedReason, b: BlockedReason) {
    || (a.CycleDetected? && !b.CycleDetected?)
    || ((a.ConflictingBootService? || a.ValidationError?)
        && (b.HardDependencyUnavailable? || b.HardDependencyBlocked?))
  }

  function AddFinding(draft: BlockedDraft, reason: BlockedReason): (r: BlockedDraft)
    ensures Findings(r) == Findings(draft) + {reason} && draft.additional <= r.additional
    ensures WellRanked(draft) ==> WellRanked(r)
    ensures r.reason == if IsGraver(reason, draft.reason) && reason !in draft.additional then reason else draft.reason
  {
    if draft.reason == reason || reason in draft.additional then
      draft
    else if Precedence(reason) > Precedence(draft.reason) then
      var demoted := draft.additional + [draft.reason];
      assert forall x :: x in demoted <==> x in draft.additional || x == draft.reason;
      BlockedDraft(reason, demoted)
    else
      var more := draft.additional + [reason];
      assert forall x :: x in more <==> x in draft.additional || x == reason;
      BlockedDraft(draft.reason, more)
  }

  /** The primary finding is a cycle if there is one, and else a conflict or a validation error if there is one. */
  lemma PrimaryIsGravest(draft: BlockedDraft, other: BlockedReason)
    requires WellRanked(draft) && other in Findings(draft)
    ensures other.CycleDetected? ==> draft.reason.CycleDetected?
    ensures other.ConflictingBootService? || other.ValidationError? ==>
              !draft.reason.HardDependencyUnavailable? && !draft.reason.HardDependencyBlocked?
  {
  }

  /** Everything found against a service. */
  function FoundAgainst(blocked: Blocked, service: string): set<BlockedReason> {
    if service in blocked then Findings(blocked[service]) else {}
  }

  /** Record a finding, keeping every other and the highest-ranked one first. */
  function BlockService(blocked: Blocked, service: string, reason: BlockedReason): (r: Blocked)
    ensures r.Keys == blocked.Keys + {service}
    ensures forall s :: s != service ==> FoundAgainst(r, s) == FoundAgainst(blocked, s)
    ensures FoundAgainst(r, service) == FoundAgainst(blocked, service) + {reason}
    ensures (forall s :: s in blocked ==> WellRanked(blocked[s])) ==> forall s :: s in r ==> WellRanked(r[s])
  {
    if service in blocked then
      blocked[service := AddFinding(blocked[service], reason)]
    else
      blocked[service := BlockedDraft(reason, [])]
  }

  predicate DependencyEligible(mode: BootMode, definition: ServiceDefinition) {
    mode == Full || (definition.bootTrigger && (definition.safeMode || definition.errorControl == Critical))
  }

  /** A definition the closure follows a dependency into. */
  predicate Available(mode: BootMode, byName: Definitions, target: string) {
    target in byName && !byName[target].disabled && DependencyEligible(mode, byName[target])
  }

  /** Present and enabled, and left out only by the mode: the edge is dropped. */
  predicate LeftOutByMode(mode: BootMode, byName: Definitions, target: string) {
    target in byName && !byName[target].disabled && !DependencyEligible(mode, byName[target])
  }

  ghost function HardGraph(byName: Definitions): set<(string, string)> {
    set s, d | s in byName && d in HardDependencies(byName[s]) :: (s, d.target)
  }

  function OrderTargets(byName: Definitions): string -> seq<string> {
    service => if service in byName then StartOrderDependencyTargets(byName[service]) else []
  }

  predicate InConflict(byName: Definitions, a: string, b: string) {
    && a in byName && b in byName && byName[a].bootTrigger && byName[b].bootTrigger
    && (b in byName[a].conflicts || (a != b && a in byName[b].conflicts))
  }

  /** The finding says something true of the definitions. */
  ghost predicate IsTrue(
    service: string, reason: BlockedReason, blocked: set<string>, byName: Definitions, invalid: seq<(string, string)>)
  {
    match reason
    case HardDependencyUnavailable(target, kind) =>
      && service in byName && (target !in byName || byName[target].disabled)
      && exists level :: ServiceDependency(target, level, kind) in HardDependencies(byName[service])
    case HardDependencyBlocked(target, kind) =>
      && service in byName && target in blocked
      && exists level :: ServiceDependency(target, level, kind) in HardDependencies(byName[service])
    case CycleDetected(services) =>
      service in services && IsCycle(StartOrder.StartGraph(byName.Keys, OrderTargets(byName)), services)
    case ConflictingBootService(target) => InConflict(byName, service, target) || InConflict(byName, target, service)
    case ValidationError(message) => (service, message) in invalid
  }

  ghost predicate HasOwnFinding(blocked: Blocked, service: string) {
    exists reason :: reason in FoundAgainst(blocked, service) && !reason.HardDependencyBlocked?
  }

  /** Hard dependencies lead from `service` through blocked services to one with a finding of its own. */
  ghost predicate HasRootCause(blocked: Blocked, byName: Definitions, service: string) {
    exists walk, root :: LeadsToCause(blocked, byName, service, walk, root)
  }

  ghost predicate LeadsToCause(
    blocked: Blocked, byName: Definitions, service: string, walk: seq<string>, root: string)
  {
    && walk != [] && walk[0] == service && WalkTo(HardGraph(byName), walk, root)
    && Elements(walk) <= blocked.Keys && HasOwnFinding(blocked, root)
  }

  /** Every finding is true, is kept, and every blocked service has a root cause. */
  ghost predicate Accountable(blocked: Blocked, byName: Definitions, invalid: seq<(string, string)>) {
    && (forall s :: s in blocked ==> WellRanked(blocked[s]))
    && (forall s, reason :: reason in FoundAgainst(blocked, s) ==> IsTrue(s, reason, blocked.Keys, byName, invalid))
    && (forall s {:trigger HasRootCause(blocked, byName, s)} :: s in blocked ==> HasRootCause(blocked, byName, s))
  }

  ghost predicate Grows(blocked: Blocked, blocked': Blocked) {
    blocked.Keys <= blocked'.Keys && forall s :: FoundAgainst(blocked, s) <= FoundAgainst(blocked', s)
  }

  predicate IsOfGraph(reason: BlockedReason) { reason.CycleDetected? || reason.ConflictingBootService? }

  /** The cycles and conflicts held against services. */
  ghost function GraphFindings(blocked: Blocked): set<(string, BlockedReason)> {
    set s, r | s in blocked && r in FoundAgainst(blocked, s) && IsOfGraph(r) :: (s, r)
  }

  /** The services held for something other than being invalid. */
  ghost function Judged(blocked: Blocked): set<string> {
    set s | s in blocked && exists r :: r in FoundAgainst(blocked, s) && !r.ValidationError?
  }

  lemma BlockAddsFinding(blocked: Blocked, service: string, reason: BlockedReason)
    ensures GraphFindings(BlockService(blocked, service, reason)) ==
            GraphFindings(blocked) + if IsOfGraph(reason) then {(service, reason)} else {}
    ensures Judged(BlockService(blocked, service, reason)) ==
            Judged(blocked) + if reason.ValidationError? then {} else {service}
  {
    var blocked' := BlockService(blocked, service, reason);
    hide BlockService, Findings;
    forall s ensures FoundAgainst(blocked', s) == FoundAgainst(blocked, s) + if s == service then {reason} else {} {
    }
  }

  lemma RootCauseGrows(blocked: Blocked, blocked': Blocked, byName: Definitions, service: string)
    requires Grows(blocked, blocked') && HasRootCause(blocked, byName, service)
    ensures HasRootCause(blocked', byName, service)
  {
    var walk, root :| LeadsToCause(blocked, byName, service, walk, root);
    var reason :| reason in FoundAgainst(blocked, root) && !reason.HardDependencyBlocked?;
    assert reason in FoundAgainst(blocked', root);
    assert LeadsToCause(blocked', byName, service, walk, root);
  }

  lemma OwnFindingIsRoot(blocked: Blocked, byName: Definitions, service: string, reason: BlockedReason)
    requires reason in FoundAgainst(blocked, service) && !reason.HardDependencyBlocked?
    ensures HasRootCause(blocked, byName, service)
  {
    assert LeadsToCause(blocked, byName, service, [service], service);
  }

  lemma RootCauseInherited(blocked: Blocked, byName: Definitions, service: string, target: string)
    requires HasRootCause(blocked, byName, target) && (service, target) in HardGraph(byName) && service in blocked
    ensures HasRootCause(blocked, byName, service)
  {
    hide HardGraph, WalkTo, HasOwnFinding;
    var walk, root :| LeadsToCause(blocked, byName, target, walk, root);
    PrependToWalk(HardGraph(byName), service, walk, root);
    assert LeadsToCause(blocked, byName, service, [service] + walk, root);
  }

  /** Recording a true finding keeps the account. */
  lemma BlockIsAccountable(
    blocked: Blocked, byName: Definitions, invalid: seq<(string, string)>, service: string, reason: BlockedReason)
    requires Accountable(blocked, byName, invalid)
    requires IsTrue(service, reason, blocked.Keys, byName, invalid)
    ensures Accountable(BlockService(blocked, service, reason), byName, invalid)
    ensures Grows(blocked, BlockService(blocked, service, reason))
  {
    hide HasRootCause, IsTrue, WellRanked, BlockService;
    BlockGrows(blocked, service, reason);
    forall s | s in BlockService(blocked, service, reason)
      ensures HasRootCause(BlockService(blocked, service, reason), byName, s)
    {
      BlockHasRootCause(blocked, byName, invalid, service, reason, s);
    }
    forall s, other | other in FoundAgainst(BlockService(blocked, service, reason), s)
      ensures IsTrue(s, other, BlockService(blocked, service, reason).Keys, byName, invalid)
    {
      StaysTrue(s, other, blocked.Keys, BlockService(blocked, service, reason).Keys, byName, invalid);
    }
  }

  lemma BlockGrows(blocked: Blocked, service: string, reason: BlockedReason)
    ensures Grows(blocked, BlockService(blocked, service, reason))
  {
    hide BlockService, FoundAgainst;
  }

  lemma BlockHasRootCause(
    blocked: Blocked, byName: Definitions, invalid: seq<(string, string)>, service: string, reason: BlockedReason,
    s: string)
    requires forall x {:trigger HasRootCause(blocked, byName, x)} :: x in blocked ==> HasRootCause(blocked, byName, x)
    requires IsTrue(service, reason, blocked.Keys, byName, invalid) && s in BlockService(blocked, service, reason)
    ensures HasRootCause(BlockService(blocked, service, reason), byName, s)
  {
    var blocked' := BlockService(blocked, service, reason);
    BlockGrows(blocked, service, reason);
    hide HasRootCause, Grows, BlockService, HardGraph;
    if s in blocked {
      RootCauseGrows(blocked, blocked', byName, s);
    } else if reason.HardDependencyBlocked? {
      BlockedTargetIs(blocked, byName, invalid, service, reason);
      RootCauseGrows(blocked, blocked', byName, reason.target);
      RootCauseInherited(blocked', byName, service, reason.target);
    } else {
      OwnFindingIsRoot(blocked', byName, service, reason);
    }
  }

  lemma BlockedTargetIs(
    blocked: Blocked, byName: Definitions, invalid: seq<(string, string)>, service: string, reason: BlockedReason)
    requires reason.HardDependencyBlocked? && IsTrue(service, reason, blocked.Keys, byName, invalid)
    ensures reason.target in blocked && (service, reason.target) in HardGraph(byName)
  {
  }

  /** An edge to each definition a service pulls into the boot. */
  ghost function PullGraph(mode: BootMode, byName: Definitions): set<(string, string)> {
    set s, t | s in byName && t in OrderTargets(byName)(s) && Available(mode, byName, t) :: (s, t)
  }

  ghost predicate Pulls(mode: BootMode, byName: Definitions, service: string, x: string) {
    exists walk :: walk != [] && walk[0] == service && WalkTo(PullGraph(mode, byName), walk, x)
  }

  lemma PullsStep(mode: BootMode, byName: Definitions, service: string, next: string, x: string)
    requires (service, next) in PullGraph(mode, byName) && Pulls(mode, byName, next, x)
    ensures Pulls(mode, byName, service, x)
  {
    hide PullGraph, WalkTo;
    var walk :| walk != [] && walk[0] == next && WalkTo(PullGraph(mode, byName), walk, x);
    PrependToWalk(PullGraph(mode, byName), service, walk, x);
    assert ([service] + walk)[0] == service;
  }

  lemma PullsSelf(mode: BootMode, byName: Definitions, service: string)
    ensures Pulls(mode, byName, service, service)
  {
    assert WalkTo(PullGraph(mode, byName), [service], service);
  }

  /** A hard dependency is followed, dropped by the mode, or held against the service. */
  ghost predicate HardSettled(
    mode: BootMode, byName: Definitions, included: seq<string>, blocked: Blocked, service: string, d: ServiceDependency)
  {
    || (Available(mode, byName, d.target) && d.target in included)
    || LeftOutByMode(mode, byName, d.target)
    || HardDependencyUnavailable(d.target, d.kind) in FoundAgainst(blocked, service)
  }

  ghost predicate WantSettled(mode: BootMode, byName: Definitions, included: seq<string>, declared: string) {
    Available(mode, byName, SplitTarget(declared).0) ==> SplitTarget(declared).0 in included
  }

  ghost predicate WantsSettled(mode: BootMode, byName: Definitions, included: seq<string>, wants: seq<string>) {
    forall w :: w in wants ==> WantSettled(mode, byName, included, w)
  }

  lemma WantsGrow(
    mode: BootMode, byName: Definitions, included: seq<string>, included': seq<string>, wants: seq<string>,
    more: string)
    requires WantsSettled(mode, byName, included, wants) && Elements(included) <= Elements(included')
    requires WantSettled(mode, byName, included', more)
    ensures WantsSettled(mode, byName, included', wants + [more])
  {
    forall w | w in wants ensures WantSettled(mode, byName, included', w) {
      assert WantSettled(mode, byName, included, w);
      assert SplitTarget(w).0 in Elements(included) ==> SplitTarget(w).0 in Elements(included');
    }
  }

  ghost predicate Settled(
    mode: BootMode, byName: Definitions, included: seq<string>, blocked: Blocked, service: string)
  {
    && service in byName
    && (forall d :: d in HardDependencies(byName[service]) ==> HardSettled(mode, byName, included, blocked, service, d))
    && WantsSettled(mode, byName, included, byName[service].wants)
  }

  /** What an inclusion that began at `included` has done: grown it by settled services that `service` pulls. */
  ghost predicate Included(
    mode: BootMode, byName: Definitions, service: string, pushed: seq<string>, included: seq<string>, blocked: Blocked)
  {
    && Distinct(included) && pushed <= included
    && forall x :: x in included && x !in pushed ==>
         Settled(mode, byName, included, blocked, x) && Pulls(mode, byName, service, x)
  }

  lemma SettledGrows(
    mode: BootMode, byName: Definitions, included: seq<string>, blocked: Blocked, included': seq<string>,
    blocked': Blocked, x: string)
    requires Settled(mode, byName, included, blocked, x) && included <= included' && Grows(blocked, blocked')
    ensures Settled(mode, byName, included', blocked', x)
  {
    forall y | y in included ensures y in included' {
      assert included == included'[..|included|];
    }
    forall d | d in HardDependencies(byName[x]) ensures HardSettled(mode, byName, included', blocked', x, d) {
      assert HardSettled(mode, byName, included, blocked, x, d);
    }
    forall w | w in byName[x].wants ensures WantSettled(mode, byName, included', w) {
      assert WantSettled(mode, byName, included, w);
    }
  }

  /** Following one edge of `service` extends what its inclusion has done. */
  lemma IncludedGrows(
    mode: BootMode, byName: Definitions, service: string, next: string, pushed: seq<string>,
    included: seq<string>, blocked: Blocked, included': seq<string>, blocked': Blocked)
    requires Included(mode, byName, service, pushed, included, blocked)
    requires Included(mode, byName, next, included, included', blocked') && Grows(blocked, blocked')
    requires (service, next) in PullGraph(mode, byName)
    ensures Included(mode, byName, service, pushed, included', blocked')
  {
    forall x | x in included' && x !in pushed
      ensures Settled(mode, byName, included', blocked', x) && Pulls(mode, byName, service, x)
    {
      if x in included {
        SettledGrows(mode, byName, included, blocked, included', blocked', x);
      } else {
        PullsStep(mode, byName, service, next, x);
      }
    }
  }

  lemma BlockKeepsIncluded(
    mode: BootMode, byName: Definitions, service: string, pushed: seq<string>, included: seq<string>,
    blocked: Blocked, blocked': Blocked)
    requires Included(mode, byName, service, pushed, included, blocked) && Grows(blocked, blocked')
    ensures Included(mode, byName, service, pushed, included, blocked')
  {
    forall x | x in included && x !in pushed ensures Settled(mode, byName, included, blocked', x) {
      SettledGrows(mode, byName, included, blocked, included, blocked', x);
    }
  }

  /** The first `k` hard dependencies of `service` are settled. */
  ghost predicate HardSettledUpTo(
    mode: BootMode, byName: Definitions, included: seq<string>, blocked: Blocked, service: string, k: nat)
    requires service in byName && k <= |HardDependencies(byName[service])|
  {
    forall j :: 0 <= j < k ==>
      HardSettled(mode, byName, included, blocked, service, HardDependencies(byName[service])[j])
  }

  lemma HardSettledGrows(
    mode: BootMode, byName: Definitions, included: seq<string>, blocked: Blocked, included': seq<string>,
    blocked': Blocked,
    service: string, k: nat)
    requires service in byName && k <= |HardDependencies(byName[service])|
    requires HardSettledUpTo(mode, byName, included, blocked, service, k)
    requires included <= included' && Grows(blocked, blocked')
    ensures HardSettledUpTo(mode, byName, included', blocked', service, k)
  {
    assert included == included'[..|included|];
    forall j | 0 <= j < k
      ensures HardSettled(mode, byName, included', blocked', service, HardDependencies(byName[service])[j])
    {
      assert HardSettled(mode, byName, included, blocked, service, HardDependencies(byName[service])[j]);
    }
  }

  /** A hard or wanted dependency on an available definition is an edge of the pull graph. */
  lemma HardDependencyPulls(mode: BootMode, byName: Definitions, service: string, d: ServiceDependency)
    requires service in byName && Available(mode, byName, d.target) && d in HardDependencies(byName[service])
    ensures (service, d.target) in PullGraph(mode, byName)
  {
    hide HardDependencies, StartOrderDependencyTargets;
    HardDependencyTargets(byName[service], d.target);
    HardDependencyOrdersStart(byName[service], d.target);
    assert d.target in OrderTargets(byName)(service);
  }

  lemma WantPulls(mode: BootMode, byName: Definitions, service: string, declared: string)
    requires service in byName && declared in byName[service].wants && Available(mode, byName, SplitTarget(declared).0)
    ensures (service, SplitTarget(declared).0) in PullGraph(mode, byName)
  {
    var definition := byName[service];
    var hard, target := definition.required + definition.bindsTo, SplitTarget(declared).0;
    var i :| 0 <= i < |definition.wants| && definition.wants[i] == declared;
    assert (hard + definition.wants)[|hard| + i] == declared;
    assert StartOrderDependencyTargets(definition)[|hard| + i] == target;
    assert target in OrderTargets(byName)(service);
  }

  lemma GrowsTransitive(a: Blocked, b: Blocked, c: Blocked)
    requires Grows(a, b) && Grows(b, c)
    ensures Grows(a, c)
  {
  }

  lemma IncludedShrinks(
    mode: BootMode, byName: Definitions, service: string, pushed: seq<string>, included: seq<string>, blocked: Blocked)
    requires Included(mode, byName, service, pushed, included, blocked)
    ensures Distinct(included) && pushed <= included && Elements(pushed) <= Elements(included)
    ensures byName.Keys - Elements(included) <= byName.Keys - Elements(pushed)
  {
    assert pushed == included[..|pushed|];
  }

  method IncludeClosure(
    service: string, mode: BootMode, byName: Definitions, included: seq<string>, blocked: Blocked,
    ghost invalid: seq<(string, string)>)
    returns (included': seq<string>, blocked': Blocked)
    requires service in byName && Distinct(included) && Accountable(blocked, byName, invalid)
    ensures service in included' && Included(mode, byName, service, included, included', blocked')
    ensures Accountable(blocked', byName, invalid) && Grows(blocked, blocked')
    ensures GraphFindings(blocked') == GraphFindings(blocked)
    ensures Judged(blocked') <= Judged(blocked) + Elements(included')
    decreases byName.Keys - Elements(included), 2
  {
    if service in included {
      return included, blocked;
    }
    ghost var pushed := included + [service];
    assert forall x :: x in pushed <==> x in included || x == service;
    assert byName.Keys - Elements(pushed) < byName.Keys - Elements(included) by {
      assert service in byName.Keys - Elements(included);
    }
    ghost var afterHard, afterHardBlocked;
    included', blocked' := FollowHard(service, mode, byName, included + [service], blocked, invalid);
    afterHard, afterHardBlocked := included', blocked';
    included', blocked' := FollowWants(service, mode, byName, pushed, included', blocked', invalid);
    HardSettledGrows(mode, byName, afterHard, afterHardBlocked, included', blocked', service,
      |HardDependencies(byName[service])|);
    assert Settled(mode, byName, included', blocked', service);
    PullsSelf(mode, byName, service);
    assert pushed == included'[..|pushed|] && included == pushed[..|included|];
  }

  /** Include, drop or hold against `service` each of its hard dependencies. */
  method FollowHard(
    service: string, mode: BootMode, byName: Definitions, pushed: seq<string>, blocked: Blocked,
    ghost invalid: seq<(string, string)>)
    returns (included: seq<string>, blocked': Blocked)
    requires service in byName && service in pushed && Distinct(pushed) && Accountable(blocked, byName, invalid)
    ensures Included(mode, byName, service, pushed, included, blocked')
    ensures HardSettledUpTo(mode, byName, included, blocked', service, |HardDependencies(byName[service])|)
    ensures Accountable(blocked', byName, invalid) && Grows(blocked, blocked')
    ensures GraphFindings(blocked') == GraphFindings(blocked)
    ensures Judged(blocked') <= Judged(blocked) + Elements(included)
    decreases byName.Keys - Elements(pushed), 4
  {
    hide HardDependencies, Accountable, HardSettled;
    included, blocked' := pushed, blocked;
    var hard := HardDependencies(byName[service]);
    for k := 0 to |hard|
      invariant Included(mode, byName, service, pushed, included, blocked')
      invariant HardSettledUpTo(mode, byName, included, blocked', service, k)
      invariant Accountable(blocked', byName, invalid) && Grows(blocked, blocked')
      invariant GraphFindings(blocked') == GraphFindings(blocked)
      invariant Judged(blocked') <= Judged(blocked) + Elements(included)
    {
      hide Included, Grows;
      ghost var before, beforeBlocked := included, blocked';
      IncludedShrinks(mode, byName, service, pushed, included, blocked');
      included, blocked' := FollowOneHard(service, hard[k], mode, byName, pushed, included, blocked', invalid);
      GrowsTransitive(blocked, beforeBlocked, blocked');
      HardSettledGrows(mode, byName, before, beforeBlocked, included, blocked', service, k);
    }
  }

  method FollowOneHard(
    service: string, d: ServiceDependency, mode: BootMode, byName: Definitions, ghost pushed: seq<string>,
    start: seq<string>, blocked: Blocked, ghost invalid: seq<(string, string)>)
    returns (included: seq<string>, blocked': Blocked)
    requires service in byName && service in pushed && d in HardDependencies(byName[service])
    requires Accountable(blocked, byName, invalid) && Included(mode, byName, service, pushed, start, blocked)
    ensures Included(mode, byName, service, pushed, included, blocked')
    ensures start <= included && Elements(start) <= Elements(included)
    ensures HardSettled(mode, byName, included, blocked', service, d)
    ensures Accountable(blocked', byName, invalid) && Grows(blocked, blocked')
    ensures GraphFindings(blocked') == GraphFindings(blocked)
    ensures Judged(blocked') <= Judged(blocked) + Elements(included)
    decreases byName.Keys - Elements(start), 3
  {
    hide Accountable, Included;
    IncludedShrinks(mode, byName, service, pushed, start, blocked);
    assert service in Elements(pushed);
    included, blocked' := start, blocked;
    if Available(mode, byName, d.target) {
      HardDependencyPulls(mode, byName, service, d);
      included, blocked' := IncludeClosure(d.target, mode, byName, start, blocked, invalid);
      IncludedShrinks(mode, byName, d.target, start, included, blocked');
      IncludedGrows(mode, byName, service, d.target, pushed, start, blocked, included, blocked');
    } else if d.target in byName && !byName[d.target].disabled && mode != Full {
      assert LeftOutByMode(mode, byName, d.target);
    } else {
      assert ServiceDependency(d.target, d.level, d.kind) in HardDependencies(byName[service]);
      BlockIsAccountable(blocked, byName, invalid, service, HardDependencyUnavailable(d.target, d.kind));
      BlockAddsFinding(blocked, service, HardDependencyUnavailable(d.target, d.kind));
      blocked' := BlockService(blocked, service, HardDependencyUnavailable(d.target, d.kind));
      BlockKeepsIncluded(mode, byName, service, pushed, included, blocked, blocked');
    }
  }

  /** Include each available definition `service` wants. */
  method FollowWants(
    service: string, mode: BootMode, byName: Definitions, ghost pushed: seq<string>, start: seq<string>,
    blocked: Blocked,
    ghost invalid: seq<(string, string)>)
    returns (included: seq<string>, blocked': Blocked)
    requires service in byName && Accountable(blocked, byName, invalid)
    requires Included(mode, byName, service, pushed, start, blocked)
    ensures Included(mode, byName, service, pushed, included, blocked') && start <= included
    ensures WantsSettled(mode, byName, included, byName[service].wants)
    ensures Accountable(blocked', byName, invalid) && Grows(blocked, blocked')
    ensures GraphFindings(blocked') == GraphFindings(blocked)
    ensures Judged(blocked') <= Judged(blocked) + Elements(included)
    decreases byName.Keys - Elements(start), 4
  {
    included, blocked' := start, blocked;
    var wants := byName[service].wants;
    for k := 0 to |wants|
      invariant Included(mode, byName, service, pushed, included, blocked')
      invariant start <= included && Elements(start) <= Elements(included)
      invariant WantsSettled(mode, byName, included, wants[..k])
      invariant Accountable(blocked', byName, invalid) && Grows(blocked, blocked')
      invariant GraphFindings(blocked') == GraphFindings(blocked)
      invariant Judged(blocked') <= Judged(blocked) + Elements(included)
    {
      hide Accountable, Included, Grows, WantSettled, WantsSettled;
      ghost var before, beforeBlocked := included, blocked';
      included, blocked' := FollowOneWant(service, wants[k], mode, byName, pushed, included, blocked', invalid);
      GrowsTransitive(blocked, beforeBlocked, blocked');
      WantsGrow(mode, byName, before, included, wants[..k], wants[k]);
      assert wants[..k + 1] == wants[..k] + [wants[k]];
    }
    assert wants[..|wants|] == wants;
  }

  method FollowOneWant(
    service: string, declared: string, mode: BootMode, byName: Definitions, ghost pushed: seq<string>,
    start: seq<string>, blocked: Blocked, ghost invalid: seq<(string, string)>)
    returns (included: seq<string>, blocked': Blocked)
    requires service in byName && declared in byName[service].wants
    requires Accountable(blocked, byName, invalid) && Included(mode, byName, service, pushed, start, blocked)
    ensures Included(mode, byName, service, pushed, included, blocked')
    ensures start <= included && Elements(start) <= Elements(included)
    ensures WantSettled(mode, byName, included, declared)
    ensures Accountable(blocked', byName, invalid) && Grows(blocked, blocked')
    ensures GraphFindings(blocked') == GraphFindings(blocked)
    ensures Judged(blocked') <= Judged(blocked) + Elements(included)
    decreases byName.Keys - Elements(start), 3
  {
    hide Accountable, Included;
    IncludedShrinks(mode, byName, service, pushed, start, blocked);
    included, blocked' := start, blocked;
    var target := SplitTarget(declared).0;
    if Available(mode, byName, target) {
      WantPulls(mode, byName, service, declared);
      included, blocked' := IncludeClosure(target, mode, byName, start, blocked, invalid);
      IncludedShrinks(mode, byName, target, start, included, blocked');
      IncludedGrows(mode, byName, service, target, pushed, start, blocked, included, blocked');
    }
  }

  predicate IsRoot(mode: BootMode, definition: ServiceDefinition) {
    !definition.disabled && (mode == Full || DependencyEligible(mode, definition)) && definition.bootTrigger
  }

  /** The boot's services: every root, and only what the roots pull in, each settled. */
  ghost predicate IsBootClosure(
    mode: BootMode, services: seq<ServiceDefinition>, byName: Definitions, included: seq<string>, blocked: Blocked)
  {
    && Distinct(included)
    && (forall d :: d in services && IsRoot(mode, d) ==> d.name in included)
    && (forall x :: x in included ==> Settled(mode, byName, included, blocked, x))
    && (forall x {:trigger PulledByRoot(mode, services, byName, x)} ::
          x in included ==> PulledByRoot(mode, services, byName, x))
  }

  ghost predicate PulledByRoot(mode: BootMode, services: seq<ServiceDefinition>, byName: Definitions, x: string) {
    exists d :: d in services && IsRoot(mode, d) && Pulls(mode, byName, d.name, x)
  }

  /** The services of a boot, in name order. */
  ghost predicate IsClosureInOrder(
    mode: BootMode, services: seq<ServiceDefinition>, byName: Definitions, included: seq<string>)
  {
    IsNameOrder(included) && forall x :: x in included <==> PulledByRoot(mode, services, byName, x)
  }

  ghost predicate IsServiceMap(services: seq<ServiceDefinition>, byName: Definitions) {
    && (forall d :: d in services ==> d.name in byName && byName[d.name] == d)
    && (forall n :: n in byName ==> byName[n].name == n && byName[n] in services)
  }

  lemma MapOneMore(services: seq<ServiceDefinition>, definition: ServiceDefinition, byName: Definitions)
    requires IsServiceMap(services, byName) && definition.name !in byName
    ensures IsServiceMap(services + [definition], byName[definition.name := definition])
  {
    var more := services + [definition];
    assert forall d :: d in more <==> d in services || d == definition;
  }

  ghost predicate DistinctNames(services: seq<ServiceDefinition>) {
    forall i, j :: 0 <= i < j < |services| ==> services[i].name != services[j].name
  }

  /** The definitions by name, or a name that occurs twice. */
  method ServiceMap(services: seq<ServiceDefinition>) returns (r: Result<Definitions, string>)
    ensures r.Ok? ==> IsServiceMap(services, r.value) && DistinctNames(services)
    ensures r.Err? ==> exists i, j :: 0 <= i < j < |services| && services[i].name == services[j].name == r.error
  {
    var byName := map[];
    for i := 0 to |services|
      invariant IsServiceMap(services[..i], byName)
      invariant forall j :: 0 <= j < i ==> services[j].name in byName
      invariant DistinctNames(services[..i])
    {
      if services[i].name in byName {
        assert byName[services[i].name] in services[..i];
        return Err(services[i].name);
      }
      hide IsServiceMap;
      MapOneMore(services[..i], services[i], byName);
      byName := byName[services[i].name := services[i]];
      assert services[..i + 1] == services[..i] + [services[i]];
    }
    assert services[..|services|] == services;
    r := Ok(byName);
  }

  /** Nobody unblocked in `included` hard-depends on somebody blocked. */
  ghost predicate Propagated(included: seq<string>, byName: Definitions, blocked: Blocked) {
    forall s, d :: s in included && s !in blocked && s in byName && d in HardDependencies(byName[s]) ==>
      d.target !in blocked
  }

  method FirstBlockedDependency(definition: ServiceDefinition, blocked: Blocked) returns (r: Option<ServiceDependency>)
    ensures r.Some? ==> r.value in HardDependencies(definition) && r.value.target in blocked
    ensures r.None? ==> forall d :: d in HardDependencies(definition) ==> d.target !in blocked
  {
    var hard := HardDependencies(definition);
    for k := 0 to |hard|
      invariant forall j :: 0 <= j < k ==> hard[j].target !in blocked
    {
      if hard[k].target in blocked {
        return Some(hard[k]);
      }
    }
    r := None;
  }

  /** Block, until nothing changes, every service that hard-depends on a blocked one. */
  method PropagateBlocked(
    included: seq<string>, byName: Definitions, blocked: Blocked, ghost invalid: seq<(string, string)>)
    returns (blocked': Blocked)
    requires Accountable(blocked, byName, invalid)
    ensures Propagated(included, byName, blocked')
    ensures Accountable(blocked', byName, invalid) && Grows(blocked, blocked')
    ensures GraphFindings(blocked') == GraphFindings(blocked)
    ensures Judged(blocked') <= Judged(blocked) + Elements(included)
    ensures blocked'.Keys <= blocked.Keys + Elements(included)
  {
    blocked' := blocked;
    var changed := true;
    while changed
      invariant !changed ==> Propagated(included, byName, blocked')
      invariant Accountable(blocked', byName, invalid) && Grows(blocked, blocked')
      invariant GraphFindings(blocked') == GraphFindings(blocked)
      invariant Judged(blocked') <= Judged(blocked) + Elements(included)
      invariant blocked'.Keys <= blocked.Keys + Elements(included)
      decreases Elements(included) - blocked'.Keys, changed
    {
      changed, blocked' := PropagateOnce(included, byName, blocked', blocked, invalid);
    }
  }

  method PropagateOnce(
    included: seq<string>, byName: Definitions, start: Blocked, ghost blocked: Blocked,
    ghost invalid: seq<(string, string)>)
    returns (changed: bool, blocked': Blocked)
    requires Accountable(start, byName, invalid) && Grows(blocked, start)
    requires start.Keys <= blocked.Keys + Elements(included)
    ensures Accountable(blocked', byName, invalid) && Grows(blocked, blocked')
    ensures GraphFindings(blocked') == GraphFindings(start)
    ensures Judged(blocked') <= Judged(start) + Elements(included)
    ensures blocked'.Keys <= blocked.Keys + Elements(included)
    ensures !changed ==> blocked' == start && Propagated(included, byName, blocked')
    ensures changed ==> Elements(included) - blocked'.Keys < Elements(included) - start.Keys
  {
    hide Accountable;
    changed, blocked' := false, start;
    for k := 0 to |included|
      invariant Accountable(blocked', byName, invalid) && Grows(blocked, blocked')
      invariant GraphFindings(blocked') == GraphFindings(start)
      invariant Judged(blocked') <= Judged(start) + Elements(included)
      invariant start.Keys <= blocked'.Keys <= blocked.Keys + Elements(included)
      invariant !changed ==> blocked' == start
      invariant changed ==> Elements(included) - blocked'.Keys < Elements(included) - start.Keys
      invariant !changed ==> Propagated(included[..k], byName, start)
    {
      hide Grows, HardDependencies, GraphFindings, Judged;
      var service := included[k];
      assert included[..k + 1] == included[..k] + [service];
      if service !in blocked' && service in byName {
        var found := FirstBlockedDependency(byName[service], blocked');
        if found.Some? {
          var reason := HardDependencyBlocked(found.value.target, found.value.kind);
          var d := found.value;
          assert ServiceDependency(d.target, d.level, d.kind) in HardDependencies(byName[service]);
          BlockIsAccountable(blocked', byName, invalid, service, reason);
          BlockAddsFinding(blocked', service, reason);
          GrowsTransitive(blocked, blocked', BlockService(blocked', service, reason));
          assert service in Elements(included) - start.Keys;
          blocked' := BlockService(blocked', service, reason);
          changed := true;
        }
      }
    }
    assert included[..|included|] == included;
  }

  lemma ClosureInOrder(
    mode: BootMode, services: seq<ServiceDefinition>, byName: Definitions, included: seq<string>,
    ordered: seq<string>, blocked: Blocked)
    requires IsBootClosure(mode, services, byName, included, blocked)
    requires Elements(ordered) == Elements(included) && Distinct(ordered)
    ensures IsBootClosure(mode, services, byName, ordered, blocked)
  {
    hide PulledByRoot, IsRoot, Available, LeftOutByMode, FoundAgainst;
    forall x ensures x in included <==> x in ordered {
      assert x in Elements(included) <==> x in Elements(ordered);
    }
    forall x | x in ordered ensures Settled(mode, byName, ordered, blocked, x) {
      assert Settled(mode, byName, included, blocked, x);
      forall d | d in HardDependencies(byName[x]) ensures HardSettled(mode, byName, ordered, blocked, x, d) {
        assert HardSettled(mode, byName, included, blocked, x, d);
      }
      forall w | w in byName[x].wants ensures WantSettled(mode, byName, ordered, w) {
        assert WantSettled(mode, byName, included, w);
      }
    }
  }

  /** Every root and what it pulls in, with the unavailable and the
      blocked dependencies held against their dependents. */
  method CollectBootClosure(
    mode: BootMode, services: seq<ServiceDefinition>, byName: Definitions, ghost invalid: seq<(string, string)>)
    returns (included: seq<string>, blocked: Blocked)
    requires IsServiceMap(services, byName)
    ensures IsBootClosure(mode, services, byName, included, blocked) && IsNameOrder(included)
    ensures Accountable(blocked, byName, invalid) && GraphFindings(blocked) == {}
    ensures Judged(blocked) <= Elements(included)
  {
    included, blocked := [], map[];
    for k := 0 to |services|
      invariant IsBootClosure(mode, services[..k], byName, included, blocked)
      invariant Accountable(blocked, byName, invalid) && GraphFindings(blocked) == {}
      invariant Judged(blocked) <= Elements(included)
    {
      hide Accountable;
      if IsRoot(mode, services[k]) {
        ghost var before, beforeBlocked := included, blocked;
        included, blocked := IncludeClosure(services[k].name, mode, byName, included, blocked, invalid);
        ClosureGrows(mode, services[..k], services[k], byName, before, beforeBlocked, included, blocked);
      } else {
        ClosureSkips(mode, services[..k], services[k], byName, included, blocked);
      }
      assert services[..k + 1] == services[..k] + [services[k]];
    }
    assert services[..|services|] == services;
    NameOrderIsOfThem(included);
    ClosureInOrder(mode, services, byName, included, NameOrder(included), blocked);
    included := NameOrder(included);
    ghost var unpropagated := blocked;
    blocked := PropagateBlocked(included, byName, blocked, invalid);
    ClosureKeeps(mode, services, byName, included, unpropagated, blocked);
  }

  /** What a closed set pulls in directly, it holds. */
  lemma PulledIsIncluded(
    mode: BootMode, byName: Definitions, included: seq<string>, blocked: Blocked, invalid: seq<(string, string)>,
    s: string, t: string)
    requires s in included && Settled(mode, byName, included, blocked, s) && Accountable(blocked, byName, invalid)
    requires (s, t) in PullGraph(mode, byName)
    ensures t in included
  {
    var d := byName[s];
    var declared := d.required + d.bindsTo + d.wants;
    var k :| 0 <= k < |declared| && SplitTarget(declared[k]).0 == t;
    hide SplitTarget, StartOrderDependencyTargets, HardGraph, HasRootCause, WellRanked, IsCycle;
    if k < |d.required + d.bindsTo| {
      assert HardDependsOn(d, t) by {
        assert declared[k] == (d.required + d.bindsTo)[k];
      }
      HardDependencyTargets(d, t);
      var dep :| dep in HardDependencies(d) && dep.target == t;
      assert HardSettled(mode, byName, included, blocked, s, dep);
    } else {
      assert declared[k] in d.wants;
      assert WantSettled(mode, byName, included, declared[k]);
    }
  }

  lemma {:induction false} PulledAlongWalk(
    mode: BootMode, byName: Definitions, included: seq<string>, blocked: Blocked, invalid: seq<(string, string)>,
    walk: seq<string>, x: string)
    requires forall s :: s in included ==> Settled(mode, byName, included, blocked, s)
    requires Accountable(blocked, byName, invalid)
    requires walk != [] && walk[0] in included && WalkTo(PullGraph(mode, byName), walk, x)
    ensures x in included
  {
    if |walk| > 1 {
      hide PullGraph, Settled, Accountable;
      RestOfWalk(PullGraph(mode, byName), walk, x);
      hide WalkTo;
      PulledIsIncluded(mode, byName, included, blocked, invalid, walk[0], walk[1]);
      PulledAlongWalk(mode, byName, included, blocked, invalid, walk[1..], x);
    }
  }

  /** The boot's services are exactly what its roots pull in. */
  lemma ClosureIsExact(
    mode: BootMode, services: seq<ServiceDefinition>, byName: Definitions, included: seq<string>, blocked: Blocked,
    invalid: seq<(string, string)>, x: string)
    requires IsBootClosure(mode, services, byName, included, blocked) && Accountable(blocked, byName, invalid)
    ensures x in included <==> PulledByRoot(mode, services, byName, x)
  {
    hide Settled, Accountable, PullGraph, WalkTo, IsRoot;
    if PulledByRoot(mode, services, byName, x) {
      var d :| d in services && IsRoot(mode, d) && Pulls(mode, byName, d.name, x);
      var walk :| walk != [] && walk[0] == d.name && WalkTo(PullGraph(mode, byName), walk, x);
      PulledAlongWalk(mode, byName, included, blocked, invalid, walk, x);
    }
  }

  lemma ClosureKeeps(
    mode: BootMode, services: seq<ServiceDefinition>, byName: Definitions, included: seq<string>,
    blocked: Blocked, blocked': Blocked)
    requires IsBootClosure(mode, services, byName, included, blocked) && Grows(blocked, blocked')
    ensures IsBootClosure(mode, services, byName, included, blocked')
  {
    hide Settled, PulledByRoot, Grows;
    forall x | x in included ensures Settled(mode, byName, included, blocked', x) {
      SettledGrows(mode, byName, included, blocked, included, blocked', x);
    }
  }

  lemma ClosureSkips(
    mode: BootMode, services: seq<ServiceDefinition>, other: ServiceDefinition, byName: Definitions,
    included: seq<string>, blocked: Blocked)
    requires IsBootClosure(mode, services, byName, included, blocked) && !IsRoot(mode, other)
    ensures IsBootClosure(mode, services + [other], byName, included, blocked)
  {
    hide Settled, Pulls, IsRoot;
    forall x | x in included ensures PulledByRoot(mode, services + [other], byName, x) {
      assert PulledByRoot(mode, services, byName, x);
      var d :| d in services && IsRoot(mode, d) && Pulls(mode, byName, d.name, x);
      assert d in services + [other];
    }
  }

  lemma ClosureGrows(
    mode: BootMode, services: seq<ServiceDefinition>, root: ServiceDefinition, byName: Definitions,
    included: seq<string>, blocked: Blocked, included': seq<string>, blocked': Blocked)
    requires IsBootClosure(mode, services, byName, included, blocked) && IsRoot(mode, root)
    requires Included(mode, byName, root.name, included, included', blocked') && root.name in included'
    requires Grows(blocked, blocked')
    ensures IsBootClosure(mode, services + [root], byName, included', blocked')
  {
    hide Settled, Pulls, IsRoot, Grows;
    assert included == included'[..|included|];
    forall x | x in included' ensures Settled(mode, byName, included', blocked', x) {
      if x in included {
        SettledGrows(mode, byName, included, blocked, included', blocked', x);
      }
    }
    forall x | x in included' ensures PulledByRoot(mode, services + [root], byName, x) {
      if x in included {
        assert PulledByRoot(mode, services, byName, x);
        var d :| d in services && IsRoot(mode, d) && Pulls(mode, byName, d.name, x);
        assert d in services + [root];
      } else {
        assert root in services + [root];
      }
    }
  }

  lemma StaysTrue(
    service: string, reason: BlockedReason, blocked: set<string>, blocked': set<string>, byName: Definitions,
    invalid: seq<(string, string)>)
    requires IsTrue(service, reason, blocked, byName, invalid) && blocked <= blocked'
    ensures IsTrue(service, reason, blocked', byName, invalid)
  {
  }

  /** A cycle held against some services. */
  ghost function Accused(services: seq<string>, cycle: seq<string>): set<(string, BlockedReason)> {
    set s | s in services :: (s, CycleDetected(cycle))
  }

  lemma AccusedIsAccusation(cycle: seq<string>)
    ensures Accused(cycle[..0], cycle) == {} && Accused(cycle, cycle) == Accusations([cycle])
  {
  }

  lemma OneMoreAccused(cycle: seq<string>, k: nat)
    requires k < |cycle|
    ensures Accused(cycle[..k + 1], cycle) == Accused(cycle[..k], cycle) + {(cycle[k], CycleDetected(cycle))}
    ensures Elements(cycle[..k + 1]) == Elements(cycle[..k]) + {cycle[k]}
  {
    assert cycle[..k + 1] == cycle[..k] + [cycle[k]];
  }

  /** Hold a cycle against each of its members. */
  method BlockCycle(cycle: seq<string>, byName: Definitions, blocked: Blocked, ghost invalid: seq<(string, string)>)
    returns (blocked': Blocked)
    requires Accountable(blocked, byName, invalid)
    requires IsCycle(StartOrder.StartGraph(byName.Keys, OrderTargets(byName)), cycle)
    ensures Accountable(blocked', byName, invalid) && Grows(blocked, blocked')
    ensures blocked'.Keys == blocked.Keys + Elements(cycle)
    ensures GraphFindings(blocked') == GraphFindings(blocked) + Accusations([cycle])
    ensures Judged(blocked') == Judged(blocked) + Elements(cycle)
  {
    hide Accountable, GraphFindings, Judged, FoundAgainst, IsCycle, StartOrder.StartGraph, OrderTargets, Accused,
         Accusations;
    blocked' := blocked;
    AccusedIsAccusation(cycle);
    for k := 0 to |cycle|
      invariant Accountable(blocked', byName, invalid) && Grows(blocked, blocked')
      invariant blocked'.Keys == blocked.Keys + Elements(cycle[..k])
      invariant GraphFindings(blocked') == GraphFindings(blocked) + Accused(cycle[..k], cycle)
      invariant Judged(blocked') == Judged(blocked) + Elements(cycle[..k])
    {
      hide Grows, Elements;
      BlockIsAccountable(blocked', byName, invalid, cycle[k], CycleDetected(cycle));
      GrowsTransitive(blocked, blocked', BlockService(blocked', cycle[k], CycleDetected(cycle)));
      BlockAddsFinding(blocked', cycle[k], CycleDetected(cycle));
      OneMoreAccused(cycle, k);
      blocked' := BlockService(blocked', cycle[k], CycleDetected(cycle));
    }
    assert cycle[..|cycle|] == cycle;
  }

  lemma SubgraphIsAcyclic(startable: set<string>, all: set<string>, targets: string -> seq<string>)
    requires startable <= all && Acyclic(StartOrder.StartGraph(all, targets))
    ensures Acyclic(StartOrder.StartGraph(startable, targets))
  {
    forall cycle ensures !IsCycle(StartOrder.StartGraph(startable, targets), cycle) {
      if IsCycle(StartOrder.StartGraph(startable, targets), cycle) {
        CycleInside(startable, targets, cycle);
        CycleCarriesOver(startable, all, targets, cycle);
      }
    }
  }

  /** Each cycle held against each of its members. */
  ghost function Accusations(cycles: seq<seq<string>>): set<(string, BlockedReason)> {
    set c, s | c in cycles && s in c :: (s, CycleDetected(c))
  }

  /** Hold each cycle found against its members and take them out, until what is left has none. */
  method BlockDependencyCycles(
    included: seq<string>, byName: Definitions, blocked: Blocked, ghost invalid: seq<(string, string)>)
    returns (blocked': Blocked, ghost cycles: seq<seq<string>>)
    requires Distinct(included) && Elements(included) <= byName.Keys && Accountable(blocked, byName, invalid)
    ensures Accountable(blocked', byName, invalid) && Grows(blocked, blocked')
    ensures cycles == Reported(included, OrderTargets(byName))
    ensures IsReport(Elements(included), OrderTargets(byName), cycles)
    ensures blocked'.Keys == blocked.Keys + Members(cycles)
    ensures GraphFindings(blocked') == GraphFindings(blocked) + Accusations(cycles)
    ensures Judged(blocked') <= Judged(blocked) + Elements(included)
  {
    hide Accountable, OrderTargets, StartOrder.StartGraph, FoundAgainst, GraphFindings, Judged, SoFar, Reported,
         IsReport, StartOrder.VisitAll, IsCycle, Acyclic, Without;
    blocked' := blocked;
    cycles := [];
    var remaining := included;
    NothingYet(included, OrderTargets(byName));
    while remaining != []
      invariant Accountable(blocked', byName, invalid) && Grows(blocked, blocked')
      invariant Distinct(remaining) && SoFar(included, OrderTargets(byName), cycles, remaining)
      invariant blocked'.Keys == blocked.Keys + Members(cycles)
      invariant GraphFindings(blocked') == GraphFindings(blocked) + Accusations(cycles)
      invariant Judged(blocked') <= Judged(blocked) + Elements(included)
      decreases |remaining|
    {
      hide Grows;
      var order := StartOrder.DependencyStartOrder(remaining, OrderTargets(byName));
      if order.Ok? {
        ReportIsDone(included, OrderTargets(byName), cycles, remaining);
        return;
      }
      var cycle := order.error.services;
      ReportOneMore(included, OrderTargets(byName), cycles, remaining, cycle);
      CycleInside(Elements(included), OrderTargets(byName), cycle);
      CycleCarriesOver(Elements(included), byName.Keys, OrderTargets(byName), cycle);
      ghost var before := blocked';
      blocked' := BlockCycle(cycle, byName, blocked', invalid);
      GrowsTransitive(blocked, before, blocked');
      OneMoreMember(cycles, cycle);
      AccuseOneMore(cycles, cycle);
      hide Accusations, Members;
      cycles := cycles + [cycle];
      remaining := Without(remaining, cycle);
    }
    NothingRemains(included, OrderTargets(byName), cycles);
  }

  lemma AccuseOneMore(cycles: seq<seq<string>>, cycle: seq<string>)
    ensures Accusations(cycles + [cycle]) == Accusations(cycles) + Accusations([cycle])
  {
    assert forall c :: c in cycles + [cycle] <==> c in cycles || c == cycle;
  }

  ghost predicate ConflictsBlocked(included: seq<string>, byName: Definitions, blocked: Blocked) {
    forall a, b :: a in included && b in included && InConflict(byName, a, b) ==> a in blocked && b in blocked
  }

  method BlockConflict(
    a: string, b: string, byName: Definitions, blocked: Blocked, ghost invalid: seq<(string, string)>)
    returns (blocked': Blocked)
    requires Accountable(blocked, byName, invalid) && InConflict(byName, a, b)
    ensures Accountable(blocked', byName, invalid) && Grows(blocked, blocked')
    ensures GraphFindings(blocked') ==
            GraphFindings(blocked) + {(a, ConflictingBootService(b)), (b, ConflictingBootService(a))}
    ensures Judged(blocked') == Judged(blocked) + {a, b}
    ensures blocked'.Keys == blocked.Keys + {a, b}
  {
    hide Accountable, Grows, GraphFindings, Judged;
    var first := BlockService(blocked, a, ConflictingBootService(b));
    BlockIsAccountable(blocked, byName, invalid, a, ConflictingBootService(b));
    BlockIsAccountable(first, byName, invalid, b, ConflictingBootService(a));
    BlockAddsFinding(blocked, a, ConflictingBootService(b));
    BlockAddsFinding(first, b, ConflictingBootService(a));
    blocked' := BlockService(first, b, ConflictingBootService(a));
    GrowsTransitive(blocked, first, blocked');
  }

  /** Each conflict of one of `from` with one of `among` held against both. */
  ghost function ConflictFindings(
    from: seq<string>, among: seq<string>, byName: Definitions): set<(string, BlockedReason)>
  {
    (set a, b | a in from && b in among && InConflict(byName, a, b) :: (a, ConflictingBootService(b))) +
    (set a, b | a in from && b in among && InConflict(byName, a, b) :: (b, ConflictingBootService(a)))
  }

  lemma OneMoreAmong(a: string, among: seq<string>, b: string, byName: Definitions)
    ensures ConflictFindings([a], among + [b], byName) ==
            ConflictFindings([a], among, byName) +
            if InConflict(byName, a, b) then {(a, ConflictingBootService(b)), (b, ConflictingBootService(a))} else {}
  {
    hide InConflict;
    assert forall x :: x in among + [b] <==> x in among || x == b;
  }

  lemma OneMoreFrom(from: seq<string>, a: string, among: seq<string>, byName: Definitions)
    ensures ConflictFindings(from + [a], among, byName) ==
            ConflictFindings(from, among, byName) + ConflictFindings([a], among, byName)
  {
    hide InConflict;
    assert forall x :: x in from + [a] <==> x in from || x == a;
  }

  lemma HeldConflictsAreBlocked(included: seq<string>, byName: Definitions, blocked: Blocked)
    requires ConflictFindings(included, included, byName) <= GraphFindings(blocked)
    ensures ConflictsBlocked(included, byName, blocked)
  {
    hide InConflict, FoundAgainst;
    forall a, b | a in included && b in included && InConflict(byName, a, b) ensures a in blocked && b in blocked {
      assert (a, ConflictingBootService(b)) in GraphFindings(blocked);
      assert (b, ConflictingBootService(a)) in GraphFindings(blocked);
    }
  }

  /** Hold each conflict of one boot service against both sides. */
  method BlockConflictsOf(
    a: string, included: seq<string>, byName: Definitions, blocked: Blocked, ghost invalid: seq<(string, string)>)
    returns (blocked': Blocked)
    requires Accountable(blocked, byName, invalid)
    ensures Accountable(blocked', byName, invalid) && Grows(blocked, blocked')
    ensures GraphFindings(blocked') == GraphFindings(blocked) + ConflictFindings([a], included, byName)
    ensures Judged(blocked') <= Judged(blocked) + {a} + Elements(included)
  {
    hide Accountable, InConflict, GraphFindings, Judged, FoundAgainst;
    blocked' := blocked;
    assert ConflictFindings([a], included[..0], byName) == {};
    for j := 0 to |included|
      invariant Accountable(blocked', byName, invalid) && Grows(blocked, blocked')
      invariant GraphFindings(blocked') == GraphFindings(blocked) + ConflictFindings([a], included[..j], byName)
      invariant Judged(blocked') <= Judged(blocked) + {a} + Elements(included)
    {
      hide Grows, ConflictFindings, Elements;
      OneMoreAmong(a, included[..j], included[j], byName);
      if InConflict(byName, a, included[j]) {
        ghost var before := blocked';
        blocked' := BlockConflict(a, included[j], byName, blocked', invalid);
        GrowsTransitive(blocked, before, blocked');
      }
      assert included[..j + 1] == included[..j] + [included[j]];
    }
    assert included[..|included|] == included;
  }

  /** Hold a conflict between two boot services against both. */
  method BlockUnresolvableConflicts(
    included: seq<string>, byName: Definitions, blocked: Blocked, ghost invalid: seq<(string, string)>)
    returns (blocked': Blocked)
    requires Accountable(blocked, byName, invalid)
    ensures Accountable(blocked', byName, invalid) && Grows(blocked, blocked')
    ensures GraphFindings(blocked') == GraphFindings(blocked) + ConflictFindings(included, included, byName)
    ensures Judged(blocked') <= Judged(blocked) + Elements(included)
    ensures ConflictsBlocked(included, byName, blocked')
  {
    hide Accountable, InConflict, GraphFindings, Judged, FoundAgainst;
    blocked' := blocked;
    assert ConflictFindings(included[..0], included, byName) == {};
    for i := 0 to |included|
      invariant Accountable(blocked', byName, invalid) && Grows(blocked, blocked')
      invariant GraphFindings(blocked') ==
                GraphFindings(blocked) + ConflictFindings(included[..i], included, byName)
      invariant Judged(blocked') <= Judged(blocked) + Elements(included)
    {
      hide Grows, ConflictFindings;
      ghost var before := blocked';
      OneMoreFrom(included[..i], included[i], included, byName);
      blocked' := BlockConflictsOf(included[i], included, byName, blocked', invalid);
      GrowsTransitive(blocked, before, blocked');
      assert included[..i + 1] == included[..i] + [included[i]];
    }
    assert included[..|included|] == included;
    HeldConflictsAreBlocked(included, byName, blocked');
  }

  /** The order is the depth-first search's, through what is not blocked in the order given. */
  ghost predicate IsSearchOrder(
    order: seq<string>, included: seq<string>, byName: Definitions, blocked: set<string>)
  {
    var startable := Unblocked(included, blocked);
    StartOrder.VisitAll(startable, startable, OrderTargets(byName), [], []) == Ok(order)
  }

  function Unblocked(included: seq<string>, blocked: set<string>): seq<string> {
    Filter(included, s => s !in blocked)
  }

  /** Hold each validation error against its service. */
  method BlockInvalid(byName: Definitions, blocked: Blocked, invalid: seq<(string, string)>) returns (blocked': Blocked)
    requires Accountable(blocked, byName, invalid)
    ensures Accountable(blocked', byName, invalid) && Grows(blocked, blocked')
    ensures GraphFindings(blocked') == GraphFindings(blocked) && Judged(blocked') == Judged(blocked)
    ensures forall s, message :: (s, message) in invalid ==> ValidationError(message) in FoundAgainst(blocked', s)
  {
    hide Accountable;
    blocked' := blocked;
    for k := 0 to |invalid|
      invariant Accountable(blocked', byName, invalid) && Grows(blocked, blocked')
      invariant forall j :: 0 <= j < k ==> ValidationError(invalid[j].1) in FoundAgainst(blocked', invalid[j].0)
      invariant GraphFindings(blocked') == GraphFindings(blocked) && Judged(blocked') == Judged(blocked)
    {
      hide Grows, GraphFindings, Judged, FoundAgainst;
      var (service, message) := invalid[k];
      BlockAddsFinding(blocked', service, ValidationError(message));
      BlockIsAccountable(blocked', byName, invalid, service, ValidationError(message));
      GrowsTransitive(blocked, blocked', BlockService(blocked', service, ValidationError(message)));
      blocked' := BlockService(blocked', service, ValidationError(message));
    }
  }

  /** Block what is invalid, cyclic or depends on something blocked, and order the rest. */
  method StartOrderAfterValidation(
    included: seq<string>, byName: Definitions, blocked: Blocked, invalid: seq<(string, string)>)
    returns (order: seq<string>, blocked': Blocked, ghost cycles: seq<seq<string>>)
    requires Distinct(included) && Elements(included) <= byName.Keys && Accountable(blocked, byName, invalid)
    ensures Accountable(blocked', byName, invalid) && Grows(blocked, blocked')
    ensures cycles == Reported(included, OrderTargets(byName))
    ensures IsReport(Elements(included), OrderTargets(byName), cycles)
    ensures GraphFindings(blocked') == GraphFindings(blocked) + Accusations(cycles)
    ensures Judged(blocked') <= Judged(blocked) + Elements(included)
    ensures forall s, message :: (s, message) in invalid ==> s in blocked'
    ensures Propagated(included, byName, blocked')
    ensures StartOrder.IsStartOrder(order, Elements(included) - blocked'.Keys,
                                    StartOrder.StartGraph(Elements(included) - blocked'.Keys, OrderTargets(byName)))
    ensures IsSearchOrder(order, included, byName, blocked'.Keys)
  {
    hide Accountable, StartOrder.IsStartOrder, StartOrder.StartGraph, OrderTargets, IsCycle, Propagated;
    blocked' := BlockInvalid(byName, blocked, invalid);
    forall s, message | (s, message) in invalid ensures s in blocked' {
      assert FoundAgainst(blocked', s) != {};
    }
    ghost var validated := blocked';
    blocked', cycles := BlockDependencyCycles(included, byName, blocked', invalid);
    ghost var broken := blocked';
    blocked' := PropagateBlocked(included, byName, blocked', invalid);
    GrowsTransitive(validated, broken, blocked');
    GrowsTransitive(blocked, validated, blocked');
    BlockedKeysGrow(validated, blocked');
    BlockedKeysGrow(broken, blocked');
    var startable := Unblocked(included, blocked'.Keys);
    ghost var names := blocked'.Keys;
    FilterKeepsDistinct(included, s => s !in names);
    assert Elements(startable) == Elements(included) - blocked'.Keys;
    SubgraphIsAcyclic(Elements(startable), Elements(included) - Members(cycles), OrderTargets(byName));
    var r := StartOrder.DependencyStartOrder(startable, OrderTargets(byName));
    match r {
      case Ok(found) =>
        order := found;
      case Err(_) =>
        // The source would hold this cycle against its members and try again, but none is left to find.
        assert false;
    }
  }

  lemma BlockedKeysGrow(blocked: Blocked, blocked': Blocked)
    requires Grows(blocked, blocked')
    ensures blocked.Keys <= blocked'.Keys
  {
  }

  /** Every hard dependency of a started service is started before it, or was left out by the mode. */
  ghost predicate HardDependenciesFirst(order: seq<string>, mode: BootMode, byName: Definitions) {
    forall i, d :: 0 <= i < |order| && order[i] in byName && d in HardDependencies(byName[order[i]]) ==>
      d.target in order[..i] || LeftOutByMode(mode, byName, d.target)
  }

  lemma OrderedAfterHardDependencies(
    order: seq<string>, mode: BootMode, byName: Definitions, included: seq<string>, blocked: Blocked)
    requires forall x :: x in included ==> Settled(mode, byName, included, blocked, x)
    requires Propagated(included, byName, blocked)
    requires StartOrder.IsStartOrder(order, Elements(included) - blocked.Keys,
                                     StartOrder.StartGraph(Elements(included) - blocked.Keys, OrderTargets(byName)))
    ensures HardDependenciesFirst(order, mode, byName)
  {
    var startable := Elements(included) - blocked.Keys;
    var edges := StartOrder.StartGraph(startable, OrderTargets(byName));
    forall i, d | 0 <= i < |order| && order[i] in byName && d in HardDependencies(byName[order[i]])
      ensures d.target in order[..i] || LeftOutByMode(mode, byName, d.target)
    {
      hide HardDependencies, StartOrderDependencyTargets;
      var s := order[i];
      assert s in Elements(order);
      assert Settled(mode, byName, included, blocked, s);
      assert HardSettled(mode, byName, included, blocked, s, d);
      if !LeftOutByMode(mode, byName, d.target) {
        assert d.target in startable;
        HardDependencyTargets(byName[s], d.target);
        HardDependencyOrdersStart(byName[s], d.target);
        assert d.target in OrderTargets(byName)(s);
        assert (s, d.target) in edges;
      }
    }
  }

  /** The conflicts between the boot's services and the cycles reported of them, each held against its members. */
  ghost function HeldInGraph(included: seq<string>, byName: Definitions): set<(string, BlockedReason)> {
    ConflictFindings(included, included, byName) + Accusations(Reported(included, OrderTargets(byName)))
  }

  // ----- which services are blocked -----

  ghost predicate LacksDependency(byName: Definitions, service: string) {
    && service in byName
    && exists d :: d in HardDependencies(byName[service]) && (d.target !in byName || byName[d.target].disabled)
  }

  /** Invalid, in the boot without a hard dependency, or in a conflict or a reported cycle of its services. */
  ghost predicate HasOwnReason(
    included: seq<string>, byName: Definitions, invalid: seq<(string, string)>, service: string)
  {
    || (exists message :: (service, message) in invalid)
    || (service in included && LacksDependency(byName, service))
    || (exists reason :: (service, reason) in HeldInGraph(included, byName))
  }

  /** Hard dependencies lead from it through the boot's services to one with a reason of its own. */
  ghost predicate IsDoomed(
    included: seq<string>, byName: Definitions, invalid: seq<(string, string)>, service: string)
  {
    exists walk, root :: IsDoomedBy(included, byName, invalid, service, walk, root)
  }

  ghost predicate IsDoomedBy(
    included: seq<string>, byName: Definitions, invalid: seq<(string, string)>, service: string, walk: seq<string>,
    root: string)
  {
    && walk != [] && walk[0] == service && WalkTo(HardGraph(byName), walk, root)
    && (forall i :: 0 <= i < |walk| - 1 ==> walk[i] in included)
    && HasOwnReason(included, byName, invalid, root)
  }

  /** What planning leaves of the closure, the findings and the blocked services. */
  ghost predicate IsJudged(
    mode: BootMode, services: seq<ServiceDefinition>, byName: Definitions, included: seq<string>, blocked: Blocked,
    invalid: seq<(string, string)>)
  {
    && IsBootClosure(mode, services, byName, included, blocked) && Accountable(blocked, byName, invalid)
    && Propagated(included, byName, blocked) && Judged(blocked) <= Elements(included)
    && GraphFindings(blocked) == HeldInGraph(included, byName)
    && (forall s, message :: (s, message) in invalid ==> s in blocked)
  }

  lemma OwnReasonIsHeld(
    mode: BootMode, services: seq<ServiceDefinition>, byName: Definitions, included: seq<string>, blocked: Blocked,
    invalid: seq<(string, string)>, service: string)
    requires IsJudged(mode, services, byName, included, blocked, invalid)
    requires HasOwnReason(included, byName, invalid, service)
    ensures service in blocked
  {
    hide Accountable, Propagated, HeldInGraph, PulledByRoot, HardDependencies, WantsSettled;
    if service in included && LacksDependency(byName, service) {
      assert Settled(mode, byName, included, blocked, service);
      var d :| d in HardDependencies(byName[service]) && (d.target !in byName || byName[d.target].disabled);
      assert HardSettled(mode, byName, included, blocked, service, d);
    } else if reason :| (service, reason) in HeldInGraph(included, byName) {
      assert (service, reason) in GraphFindings(blocked);
    }
  }

  lemma {:induction false} DoomedIsBlocked(
    mode: BootMode, services: seq<ServiceDefinition>, byName: Definitions, included: seq<string>, blocked: Blocked,
    invalid: seq<(string, string)>, service: string, walk: seq<string>, root: string)
    requires IsJudged(mode, services, byName, included, blocked, invalid)
    requires IsDoomedBy(included, byName, invalid, service, walk, root)
    ensures service in blocked
    decreases |walk|
  {
    hide IsBootClosure, Accountable, HasOwnReason, GraphFindings, HeldInGraph;
    if |walk| == 1 {
      OwnReasonIsHeld(mode, services, byName, included, blocked, invalid, service);
    } else {
      RestOfWalk(HardGraph(byName), walk, root);
      assert forall i :: 0 <= i < |walk[1..]| - 1 ==> walk[1..][i] == walk[i + 1];
      DoomedIsBlocked(mode, services, byName, included, blocked, invalid, walk[1], walk[1..], root);
      assert walk[0] in included;
    }
  }

  lemma OwnFindingHasReason(
    mode: BootMode, services: seq<ServiceDefinition>, byName: Definitions, included: seq<string>, blocked: Blocked,
    invalid: seq<(string, string)>, service: string)
    requires IsJudged(mode, services, byName, included, blocked, invalid) && HasOwnFinding(blocked, service)
    ensures HasOwnReason(included, byName, invalid, service)
  {
    hide IsBootClosure, Propagated, HeldInGraph, HasRootCause, WellRanked, HardDependencies;
    var reason :| reason in FoundAgainst(blocked, service) && !reason.HardDependencyBlocked?;
    assert IsTrue(service, reason, blocked.Keys, byName, invalid);
    assert service in blocked;
    match reason {
      case HardDependencyUnavailable(target, kind) =>
        assert service in Judged(blocked);
        var level :| ServiceDependency(target, level, kind) in HardDependencies(byName[service]);
        assert LacksDependency(byName, service);
      case ValidationError(message) =>
      case CycleDetected(_) =>
        assert (service, reason) in GraphFindings(blocked);
      case ConflictingBootService(_) =>
        assert (service, reason) in GraphFindings(blocked);
    }
  }

  lemma {:induction false} BlockedIsDoomed(
    mode: BootMode, services: seq<ServiceDefinition>, byName: Definitions, included: seq<string>, blocked: Blocked,
    invalid: seq<(string, string)>, service: string, walk: seq<string>, root: string)
    requires IsJudged(mode, services, byName, included, blocked, invalid)
    requires LeadsToCause(blocked, byName, service, walk, root)
    ensures IsDoomed(included, byName, invalid, service)
    decreases |walk|
  {
    hide IsBootClosure, Accountable, HasOwnReason, GraphFindings, HeldInGraph, Propagated, HardGraph;
    if HasOwnFinding(blocked, service) {
      OwnFindingHasReason(mode, services, byName, included, blocked, invalid, service);
      assert IsDoomedBy(included, byName, invalid, service, [service], service);
    } else {
      assert |walk| > 1;
      RestOfWalk(HardGraph(byName), walk, root);
      assert forall x :: x in walk[1..] ==> x in walk;
      assert LeadsToCause(blocked, byName, walk[1], walk[1..], root);
      BlockedIsDoomed(mode, services, byName, included, blocked, invalid, walk[1], walk[1..], root);
      var rest, cause :| IsDoomedBy(included, byName, invalid, walk[1], rest, cause);
      OthersAreIncluded(included, blocked, service, walk);
      PrependToWalk(HardGraph(byName), service, rest, cause);
      assert IsDoomedBy(included, byName, invalid, service, [service] + rest, cause);
    }
  }

  lemma OthersAreIncluded(included: seq<string>, blocked: Blocked, service: string, walk: seq<string>)
    requires Judged(blocked) <= Elements(included) && !HasOwnFinding(blocked, service)
    requires walk != [] && walk[0] == service && Elements(walk) <= blocked.Keys
    ensures service in included
  {
    assert service in Elements(walk);
    assert blocked[service].reason in FoundAgainst(blocked, service);
    assert service in Judged(blocked);
  }

  /** A service is blocked exactly when it is doomed. */
  lemma BlockedExactlyWhen(
    mode: BootMode, services: seq<ServiceDefinition>, byName: Definitions, included: seq<string>, blocked: Blocked,
    invalid: seq<(string, string)>, service: string)
    requires IsJudged(mode, services, byName, included, blocked, invalid)
    ensures service in blocked <==> IsDoomed(included, byName, invalid, service)
  {
    hide IsBootClosure, Propagated, GraphFindings, HeldInGraph, IsTrue, WellRanked, IsDoomedBy, LeadsToCause;
    if service in blocked {
      assert HasRootCause(blocked, byName, service);
      var walk, root :| LeadsToCause(blocked, byName, service, walk, root);
      BlockedIsDoomed(mode, services, byName, included, blocked, invalid, service, walk, root);
    }
    if walk, root :| IsDoomedBy(included, byName, invalid, service, walk, root) {
      DoomedIsBlocked(mode, services, byName, included, blocked, invalid, service, walk, root);
    }
  }

  /** Plan a boot: what starts, in order, and what is held against everything that does not. */
  method BuildPhase2BootGraph(mode: BootMode, services: seq<ServiceDefinition>, invalid: seq<(string, string)>)
    returns (r: Result<(seq<string>, Blocked), string>, ghost included: seq<string>, ghost byName: Definitions)
    ensures r.Ok? <==> DistinctNames(services)
    ensures r.Ok? ==>
              && IsServiceMap(services, byName)
              && IsBootClosure(mode, services, byName, included, r.value.1) && IsNameOrder(included)
              && Accountable(r.value.1, byName, invalid)
    ensures r.Ok? ==>
              && StartOrder.IsStartOrder(r.value.0, Elements(included) - r.value.1.Keys,
                   StartOrder.StartGraph(Elements(included) - r.value.1.Keys, OrderTargets(byName)))
              && IsSearchOrder(r.value.0, included, byName, r.value.1.Keys)
              && HardDependenciesFirst(r.value.0, mode, byName)
    ensures r.Ok? ==> forall a, b :: a in r.value.0 && b in r.value.0 ==> !InConflict(byName, a, b)
    ensures r.Ok? ==>
              && (forall s, message :: (s, message) in invalid ==> s in r.value.1)
              && Propagated(included, byName, r.value.1)
    ensures r.Ok? ==>
              && GraphFindings(r.value.1) == HeldInGraph(included, byName)
              && IsReport(Elements(included), OrderTargets(byName), Reported(included, OrderTargets(byName)))
              && forall s :: s in r.value.1 <==> IsDoomed(included, byName, invalid, s)
  {
    hide Accusations, ConflictFindings, Reported, IsReport, GraphFindings, Judged, FoundAgainst, Filter, IsDoomed;
    included, byName := [], map[];
    var mapped := ServiceMap(services);
    if mapped.Err? {
      return Err(mapped.error), included, byName;
    }
    byName := mapped.value;
    var closure, closed := CollectBootClosure(mode, services, mapped.value, invalid);
    var conflicted := BlockUnresolvableConflicts(closure, mapped.value, closed, invalid);
    assert Elements(closure) <= byName.Keys by {
      forall x | x in closure ensures x in byName {
        assert Settled(mode, byName, closure, closed, x);
      }
    }
    ghost var cycles;
    var order, blocked;
    order, blocked, cycles := StartOrderAfterValidation(closure, mapped.value, conflicted, invalid);
    included := closure;
    FinishPlan(mode, services, byName, included, closed, conflicted, blocked, order);
    r := Ok((order, blocked));
    forall s ensures s in blocked <==> IsDoomed(included, byName, invalid, s) {
      BlockedExactlyWhen(mode, services, byName, included, blocked, invalid, s);
    }
  }

  lemma FinishPlan(
    mode: BootMode, services: seq<ServiceDefinition>, byName: Definitions, included: seq<string>,
    closed: Blocked, conflicted: Blocked, blocked: Blocked, order: seq<string>)
    requires IsBootClosure(mode, services, byName, included, closed)
    requires Grows(closed, conflicted) && Grows(conflicted, blocked) && Propagated(included, byName, blocked)
    requires ConflictsBlocked(included, byName, conflicted)
    requires StartOrder.IsStartOrder(order, Elements(included) - blocked.Keys,
                                     StartOrder.StartGraph(Elements(included) - blocked.Keys, OrderTargets(byName)))
    ensures IsBootClosure(mode, services, byName, included, blocked)
    ensures HardDependenciesFirst(order, mode, byName)
    ensures forall a, b :: a in order && b in order ==> !InConflict(byName, a, b)
  {
    hide Propagated, InConflict, OrderTargets, StartOrder.StartGraph, Settled, HardDependenciesFirst, PulledByRoot;
    GrowsTransitive(closed, conflicted, blocked);
    ClosureKeeps(mode, services, byName, included, closed, blocked);
    OrderedAfterHardDependencies(order, mode, byName, included, blocked);
    forall a, b | a in order && b in order ensures !InConflict(byName, a, b) {
      assert a in Elements(order) && b in Elements(order);
    }
  }
}
