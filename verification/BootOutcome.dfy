/** A plan, the tracker that Phase 2 configures from it and the counter, over repeated boots
    (src/boot/phase2/planner.rs, src/supervisor/boot_success.rs, src/init/orchestrator.rs). */
module BootOutcome {
  import opened Collections
  import opened Services
  import opened BootGraph
  import opened BootPlan
  import opened BootAttempts
  import opened BootSuccess
  import opened BootLatch
  import SafeMode

  /** The tracker waits for the critical services that the plan starts or blocks and that were retained. */
  ghost predicate IsConfiguredFrom(tracker: Tracker, services: ServiceTable, plan: Plan, retained: seq<string>) {
    exists blocked :: Elements(blocked) == plan.blocked.Keys
                      && RequiresCriticals(tracker.required, services, plan.starts + blocked + retained)
  }

  ghost predicate IsCriticalIn(services: ServiceTable, service: string) {
    service in services.entries && services.entries[service].definition.errorControl == Critical
  }

  /** No turn finds the service up. */
  ghost predicate StaysDown(session: Session, service: string) {
    forall i :: 0 <= i < |session.turns| ==> !IsUp(session.turns[i].services, service)
  }

  /** A boot whose plan blocks a critical service does not last while that service stays down. */
  lemma BlockedCriticalNeverLasts(
    session: Session, services: ServiceTable, plan: Plan, retained: seq<string>, service: string)
    requires IsConfiguredFrom(session.tracker, services, plan, retained)
    requires service in plan.blocked && IsCriticalIn(services, service) && StaysDown(session, service)
    ensures !Lasts(session)
  {
    var blocked :| Elements(blocked) == plan.blocked.Keys
                   && RequiresCriticals(session.tracker.required, services, plan.starts + blocked + retained);
    assert service in Elements(blocked);
    assert service in plan.starts + blocked + retained;
    forall i | 0 <= i < |session.turns|
      ensures !IsEarned(session.tracker, session.turns[i].services, session.turns[i].nowNs)
    {
      assert !IsUp(session.turns[i].services, service);
    }
  }

  /** So repeating that boot recovers after exactly `threshold` attempts. */
  lemma BlockedCriticalRecovers(
    sessions: seq<Session>, threshold: u32, services: ServiceTable, plan: Plan, retained: seq<string>, service: string)
    requires threshold > 0 && AreOrdinary(sessions, threshold)
    requires service in plan.blocked && IsCriticalIn(services, service)
    requires forall i :: 0 <= i < |sessions| ==>
               IsConfiguredFrom(sessions[i].tracker, services, plan, retained) && StaysDown(sessions[i], service)
    ensures Decide(AfterSessions(Ok(0), sessions), Ordinary(threshold)).Proceed? <==> |sessions| < threshold
  {
    hide AfterSessions, Decide, Lasts, IsOrderly, IsConfiguredFrom, StaysDown;
    forall i | 0 <= i < |sessions| ensures !Lasts(sessions[i]) {
      BlockedCriticalNeverLasts(sessions[i], services, plan, retained, service);
    }
    FailingMachineRecovers(sessions, threshold);
  }

  /** The critical service of the missed cycle is blocked all the same: the full boot stands and `c` waits for `b`. */
  lemma MissedCriticalIsBlocked(invalid: seq<(string, string)>, retained: seq<string>, plan: Plan, trace: Trace)
    requires IsServiceMap(SafeMode.CHAIN_SERVICES, trace.byName)
    requires IsRightMode(Full, SafeMode.CHAIN_SERVICES, plan, trace)
    requires IsSoundPlan(SafeMode.CHAIN_SERVICES, invalid, retained, plan, trace)
    ensures plan.mode == Full && "c" in plan.blocked
    ensures "c" in trace.byName && trace.byName["c"].errorControl == Critical
  {
    hide Accountable, HardDependenciesFirst, InConflict, HeldInGraph, IsDoomed, SafeMode.HoldsCritical,
         SafeMode.IsDowngradeOf, IsClosureInOrder;
    SafeMode.CriticalCycleIsMissed(trace.byName, trace.full);
    SafeMode.CriticalCycleIsMissed(trace.byName, trace.included);
    assert ("b", CycleDetected(["a", "b"])) in GraphFindings(plan.blocked);
    var c := SafeMode.CHAIN_SERVICES[2];
    assert c in SafeMode.CHAIN_SERVICES && trace.byName["c"] == c;
    assert "b" in c.required + c.bindsTo && SplitTarget("b").0 == "b";
    HardDependencyTargets(c, "b");
    assert "c" in trace.included;
  }

  /** With it, a machine of these services recovers after exactly `threshold` attempts. */
  lemma MissedCycleRecovers(
    sessions: seq<Session>, threshold: u32, services: ServiceTable, invalid: seq<(string, string)>,
    retained: seq<string>, plan: Plan, trace: Trace)
    requires IsServiceMap(SafeMode.CHAIN_SERVICES, trace.byName)
    requires IsRightMode(Full, SafeMode.CHAIN_SERVICES, plan, trace)
    requires IsSoundPlan(SafeMode.CHAIN_SERVICES, invalid, retained, plan, trace)
    requires "c" in services.entries && services.entries["c"].definition == trace.byName["c"]
    requires threshold > 0 && AreOrdinary(sessions, threshold)
    requires forall i :: 0 <= i < |sessions| ==>
               IsConfiguredFrom(sessions[i].tracker, services, plan, retained) && StaysDown(sessions[i], "c")
    ensures Decide(AfterSessions(Ok(0), sessions), Ordinary(threshold)).Proceed? <==> |sessions| < threshold
  {
    MissedCriticalIsBlocked(invalid, retained, plan, trace);
    hide IsSoundPlan, IsRightMode, AfterSessions, Decide, IsConfiguredFrom, StaysDown, AreOrdinary, IsServiceMap;
    BlockedCriticalRecovers(sessions, threshold, services, plan, retained, "c");
  }
}
