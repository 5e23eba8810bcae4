/** When a boot counts as successful and its attempt counter is reset (src/supervisor/boot_success.rs). */
module BootSuccess {
  import opened Collections
  import opened Names
  import opened Services
  import opened BootAttempts

  predicate IsCritical(services: ServiceTable, service: string) {
    service in services.entries && services.entries[service].definition.errorControl == Critical
  }

  /** A service its dependents can rely on, and known since when. */
  predicate IsSatisfied(services: ServiceTable, service: string) {
    && service in services.entries
    && SatisfiesDependents(services.entries[service].state)
    && services.entries[service].dependentSatisfiedSinceNs.Some?
  }

  function Since(services: ServiceTable, service: string): u64
    requires IsSatisfied(services, service)
  {
    services.entries[service].dependentSatisfiedSinceNs.value
  }

  datatype Tracker = Tracker(
    required: seq<string>, graceSecs: u32, emptySinceNs: Option<u64>, resetAttempted: bool, resetFailed: bool)

  /** The moment from which all of `names` have been satisfied, none while one is not. */
  function LatestSince(services: ServiceTable, names: seq<string>): Option<u64> {
    if names == [] then Some(0) else
      var last := names[|names| - 1];
      match LatestSince(services, names[..|names| - 1])
      case None => None
      case Some(t) =>
        if !IsSatisfied(services, last) then None
        else if Since(services, last) > t then Some(Since(services, last))
        else Some(t)
  }

  lemma {:induction false} LatestSinceMeans(services: ServiceTable, names: seq<string>)
    ensures LatestSince(services, names).Some? <==> forall s :: s in names ==> IsSatisfied(services, s)
    ensures LatestSince(services, names).Some? ==>
              forall s :: s in names ==> Since(services, s) <= LatestSince(services, names).value
    ensures LatestSince(services, names).Some? && names != [] ==>
              exists s :: s in names && Since(services, s) == LatestSince(services, names).value
  {
    hide IsSatisfied, Since;
    if names != [] {
      var init, last := names[..|names| - 1], names[|names| - 1];
      LatestSinceMeans(services, init);
      assert forall s :: s in names <==> s in init || s == last;
      var latest := LatestSince(services, names);
      if latest.Some? && Since(services, last) != latest.value {
        var s :| s in init && Since(services, s) == latest.value;
      }
    }
  }

  function SatisfiedSince(tracker: Tracker, services: ServiceTable): Option<u64> {
    if tracker.required == [] then tracker.emptySinceNs else LatestSince(services, tracker.required)
  }

  datatype Deadline = Deadline(dueAtNs: u64, satisfiedSinceNs: u64, required: seq<string>)

  function NextDeadlineOf(tracker: Tracker, services: ServiceTable): Option<Deadline> {
    if tracker.resetAttempted then None
    else match SatisfiedSince(tracker, services)
      case None => None
      case Some(since) =>
        Some(Deadline(Min(since + Min(tracker.graceSecs * NANOS_PER_SEC, U64_MAX), U64_MAX), since, tracker.required))
  }

  predicate IsDue(tracker: Tracker, services: ServiceTable, nowNs: u64) {
    NextDeadlineOf(tracker, services).Some? && NextDeadlineOf(tracker, services).value.dueAtNs <= nowNs
  }

  /** Exactly the critical ones of `names` are required. */
  ghost predicate RequiresCriticals(required: seq<string>, services: ServiceTable, names: seq<string>) {
    forall s :: s in required <==>
      s in names && s in services.entries && services.entries[s].definition.errorControl == Critical
  }

  class BootSuccessTracker {
    var required: seq<string>
    var graceSecs: u32
    var emptySinceNs: Option<u64>
    var resetAttempted: bool
    var resetFailed: bool

    ghost function State(): Tracker
      reads this
    {
      Tracker(required, graceSecs, emptySinceNs, resetAttempted, resetFailed)
    }

    /** Wait for every critical service that was planned, blocked or already satisfied, in order and each once. */
    method ConfigurePhase2(services: ServiceTable, starts: seq<string>, blocked: seq<string>, retained: seq<string>,
                           recovery: bool, observedAtNs: u64, graceSecs: u32)
      modifies this
      ensures IsNameOrder(required) && RequiresCriticals(required, services, starts + blocked + retained)
      ensures this.graceSecs == graceSecs && !resetAttempted && !resetFailed
      ensures emptySinceNs == if recovery then None else Some(observedAtNs)
    {
      var candidates := starts + blocked + retained;
      var critical: seq<string> := [];
      for i := 0 to |candidates|
        invariant forall s :: s in critical <==> s in candidates[..i] && IsCritical(services, s)
      {
        assert candidates[..i + 1] == candidates[..i] + [candidates[i]];
        if IsCritical(services, candidates[i]) {
          critical := critical + [candidates[i]];
        }
      }
      assert candidates[..|candidates|] == candidates;
      NameOrderIsOfThem(critical);
      required := NameOrder(critical);
      forall s ensures s in required <==> s in critical {
        assert s in Elements(required) <==> s in Elements(critical);
      }
      this.graceSecs := graceSecs;
      emptySinceNs := if recovery then None else Some(observedAtNs);
      resetAttempted := false;
      resetFailed := false;
    }

    method RequiredSatisfiedSince(services: ServiceTable) returns (r: Option<u64>)
      ensures r == SatisfiedSince(State(), services)
    {
      if required == [] {
        return emptySinceNs;
      }
      var satisfiedSinceNs := 0;
      for i := 0 to |required|
        invariant LatestSince(services, required[..i]) == Some(satisfiedSinceNs)
      {
        var service := required[i];
        assert required[..i + 1][..i] == required[..i];
        if !IsSatisfied(services, service) {
          LatestSinceMeans(services, required);
          return None;
        }
        if Since(services, service) > satisfiedSinceNs {
          satisfiedSinceNs := Since(services, service);
        }
      }
      assert required[..|required|] == required;
      r := Some(satisfiedSinceNs);
    }

    method NextDeadline(services: ServiceTable) returns (r: Option<Deadline>)
      ensures r == NextDeadlineOf(State(), services)
    {
      if resetAttempted {
        return None;
      }
      var since := RequiredSatisfiedSince(services);
      match since {
        case None =>
          r := None;
        case Some(t) =>
          r := Some(Deadline(Min(t + Min(graceSecs * NANOS_PER_SEC, U64_MAX), U64_MAX), t, required));
      }
    }

    /** Reset the counter if the boot is due to count, and never again after that. */
    method ProcessDue(services: ServiceTable, counter: BootAttemptCounter, nowNs: u64, outcome: WriteOutcome<File>)
      returns (r: Option<Deadline>)
      modifies this, counter
      ensures r == if IsDue(old(State()), services, nowNs) then NextDeadlineOf(old(State()), services) else None
      ensures r.Some? <==> IsDue(old(State()), services, nowNs)
      ensures State() == Processed(old(State()), services, nowNs, outcome.Done?)
      ensures r.Some? ==> ReadFile(counter.file) == AfterWrite(0, Seen(outcome))
      ensures r.None? ==> counter.file == old(counter.file)
    {
      var deadline := NextDeadline(services);
      match deadline {
        case None =>
          r := None;
        case Some(d) =>
          if d.dueAtNs > nowNs {
            return None;
          }
          resetAttempted := true;
          var ok := counter.Reset(outcome);
          resetFailed := !ok;
          r := deadline;
      }
    }
  }

  function Processed(tracker: Tracker, services: ServiceTable, nowNs: u64, written: bool): Tracker {
    if IsDue(tracker, services, nowNs) then tracker.(resetAttempted := true, resetFailed := !written) else tracker
  }

  // ----- one configured boot -----

  datatype Turn = Turn(services: ServiceTable, nowNs: u64, outcome: WriteOutcome<Reading>)

  function AfterTurns(tracker: Tracker, turns: seq<Turn>): Tracker {
    if turns == [] then tracker else
      var last := turns[|turns| - 1];
      Processed(AfterTurns(tracker, turns[..|turns| - 1]), last.services, last.nowNs, last.outcome.Done?)
  }

  /** Whether turn `i` resets the counter. */
  ghost predicate ResetsAt(tracker: Tracker, turns: seq<Turn>, i: nat)
    requires i < |turns|
  {
    IsDue(AfterTurns(tracker, turns[..i]), turns[i].services, turns[i].nowNs)
  }

  /** The grace period is over: the service has been satisfied for it, or the clock is at its end. */
  ghost predicate HasLasted(sinceNs: u64, graceSecs: u32, nowNs: u64) {
    sinceNs + graceSecs * 1_000_000_000 <= nowNs || nowNs == 0xffff_ffff_ffff_ffff
  }

  /** The service is up or done, or was passed over, and it is known since when. */
  ghost predicate IsUp(services: ServiceTable, service: string) {
    && service in services.entries
    && services.entries[service].state in {Active, Reloading, Completed, Skipped}
    && services.entries[service].dependentSatisfiedSinceNs != None
  }

  lemma {:induction false} TurnsKeep(tracker: Tracker, turns: seq<Turn>)
    ensures var after := AfterTurns(tracker, turns);
            && after.required == tracker.required && after.graceSecs == tracker.graceSecs
            && after.emptySinceNs == tracker.emptySinceNs && (tracker.resetAttempted ==> after.resetAttempted)
  {
    hide IsDue;
    if turns != [] {
      TurnsKeep(tracker, turns[..|turns| - 1]);
    }
  }

  lemma {:induction false} AfterTurnsInTwo(tracker: Tracker, turns: seq<Turn>, i: nat)
    requires i <= |turns|
    ensures AfterTurns(tracker, turns) == AfterTurns(AfterTurns(tracker, turns[..i]), turns[i..])
    decreases |turns|
  {
    hide Processed;
    if i == |turns| {
      assert turns[..i] == turns && turns[i..] == [];
    } else {
      var init := turns[..|turns| - 1];
      AfterTurnsInTwo(tracker, init, i);
      assert init[..i] == turns[..i] && turns[i..][..|turns| - i - 1] == init[i..];
    }
  }

  /** In a configured boot the counter is reset at most once. */
  lemma ResetsAtMostOnce(tracker: Tracker, turns: seq<Turn>, i: nat, j: nat)
    requires i < j < |turns| && ResetsAt(tracker, turns, i)
    ensures !ResetsAt(tracker, turns, j)
  {
    hide AfterTurns;
    var before := turns[..j];
    AfterTurnsInTwo(tracker, before, i + 1);
    assert before[..i + 1] == turns[..i + 1];
    AfterNextTurn(tracker, turns, i);
    TurnsKeep(AfterTurns(tracker, turns[..i + 1]), before[i + 1..]);
  }

  lemma AfterNextTurn(tracker: Tracker, turns: seq<Turn>, i: nat)
    requires i < |turns|
    ensures AfterTurns(tracker, turns[..i + 1]) ==
            Processed(AfterTurns(tracker, turns[..i]), turns[i].services, turns[i].nowNs, turns[i].outcome.Done?)
  {
    assert turns[..i + 1][..i] == turns[..i];
  }

  /** What a boot must show to count: every required service satisfied for the grace
      period, or, where none is required, a Phase 2 that began that long ago. */
  ghost predicate IsEarned(tracker: Tracker, services: ServiceTable, nowNs: u64) {
    if tracker.required == [] then
      tracker.emptySinceNs.Some? && HasLasted(tracker.emptySinceNs.value, tracker.graceSecs, nowNs)
    else
      forall s :: s in tracker.required ==>
        IsUp(services, s) && HasLasted(services.entries[s].dependentSatisfiedSinceNs.value, tracker.graceSecs, nowNs)
  }

  /** A turn resets exactly when that is earned and no reset was attempted. */
  lemma DueWhenEarned(tracker: Tracker, services: ServiceTable, nowNs: u64)
    ensures IsDue(tracker, services, nowNs) <==> !tracker.resetAttempted && IsEarned(tracker, services, nowNs)
  {
    LatestSinceMeans(services, tracker.required);
    hide LatestSince;
  }

  /** A reset comes only once it is earned. */
  lemma ResetIsEarned(tracker: Tracker, turns: seq<Turn>, i: nat)
    requires i < |turns| && ResetsAt(tracker, turns, i)
    ensures IsEarned(tracker, turns[i].services, turns[i].nowNs)
  {
    hide AfterTurns;
    TurnsKeep(tracker, turns[..i]);
    DueWhenEarned(AfterTurns(tracker, turns[..i]), turns[i].services, turns[i].nowNs);
  }

  /** And it has come by the first turn at which it is. */
  lemma EarnedResetComes(tracker: Tracker, turns: seq<Turn>, i: nat)
    requires i < |turns| && IsEarned(tracker, turns[i].services, turns[i].nowNs)
    ensures AfterTurns(tracker, turns[..i + 1]).resetAttempted
  {
    hide AfterTurns, IsDue;
    TurnsKeep(tracker, turns[..i]);
    DueWhenEarned(AfterTurns(tracker, turns[..i]), turns[i].services, turns[i].nowNs);
    AfterNextTurn(tracker, turns, i);
  }

  /** What `boot` reports as waited for. */
  function WaitingOn(tracker: Tracker, services: ServiceTable): seq<string> {
    Filter(tracker.required, (s: string) => !IsSatisfied(services, s))
  }

  /** A deadline is reported exactly when nothing is waited for, unless nothing is required in a recovery boot. */
  lemma ReportAgrees(tracker: Tracker, services: ServiceTable)
    requires !tracker.resetAttempted
    ensures NextDeadlineOf(tracker, services).Some? <==>
            WaitingOn(tracker, services) == [] && (tracker.required != [] || tracker.emptySinceNs.Some?)
    ensures forall s :: s in WaitingOn(tracker, services) <==> s in tracker.required && !IsUp(services, s)
  {
    LatestSinceMeans(services, tracker.required);
    hide LatestSince;
    var waiting := WaitingOn(tracker, services);
    if waiting == [] {
      assert forall s :: s in tracker.required && !IsSatisfied(services, s) ==> s in waiting;
    } else {
      assert waiting[0] in waiting;
    }
  }

  /** There nothing is waited for and no deadline is set. */
  lemma RecoveryReportsNothing(services: ServiceTable, graceSecs: u32)
    ensures var tracker := Tracker([], graceSecs, None, false, false);
            WaitingOn(tracker, services) == [] && NextDeadlineOf(tracker, services) == None
  {
  }
}
