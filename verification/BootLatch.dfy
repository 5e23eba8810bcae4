/** Whole sessions: a boot is decided by the counter, and what its services then do decides
    the counter (src/init/orchestrator.rs, src/supervisor/boot_success.rs). */
module BootLatch {
  import opened Collections
  import opened BootAttempts
  import opened BootSuccess

  /** A boot, the tracker its Phase 2 configures and the turns of its runtime loop, had it got that far. */
  datatype Session = Session(boot: Boot, tracker: Tracker, turns: seq<Turn>)

  /** The counter after the turns of a boot that proceeded. */
  function AfterRun(reading: Reading, tracker: Tracker, turns: seq<Turn>): Reading {
    if turns == [] then reading else
      var init, last := turns[..|turns| - 1], turns[|turns| - 1];
      if IsDue(AfterTurns(tracker, init), last.services, last.nowNs) then AfterWrite(0, last.outcome)
      else AfterRun(reading, tracker, init)
  }

  /** A boot that enters recovery stays there and takes no turn. */
  function AfterSession(reading: Reading, session: Session): Reading {
    var booted := AfterBoot(reading, session.boot);
    if Decide(reading, session.boot).EnterRecovery? then booted
    else AfterRun(booted, session.tracker, session.turns)
  }

  /** `counting` is how the increment's write ends and `resetting` how a reset's would in each turn. */
  method RunSession(counter: BootAttemptCounter, tracker: BootSuccessTracker, session: Session,
                    counting: WriteOutcome<File>, resetting: seq<WriteOutcome<File>>)
    returns (decision: Decision)
    requires tracker.State() == session.tracker && Seen(counting) == session.boot.outcome
    requires |resetting| == |session.turns|
    requires forall i :: 0 <= i < |resetting| ==> Seen(resetting[i]) == session.turns[i].outcome
    modifies counter, tracker
    ensures decision == Decide(ReadFile(old(counter.file)), session.boot)
    ensures ReadFile(counter.file) == AfterSession(ReadFile(old(counter.file)), session)
  {
    hide ReadFile, IsDue;
    decision := DecideBoot(counter, session.boot, counting);
    if decision.EnterRecovery? {
      return;
    }
    ghost var booted := ReadFile(counter.file);
    var turns := session.turns;
    for i := 0 to |turns|
      invariant tracker.State() == AfterTurns(session.tracker, turns[..i])
      invariant ReadFile(counter.file) == AfterRun(booted, session.tracker, turns[..i])
    {
      assert turns[..i + 1][..i] == turns[..i];
      assert Seen(resetting[i]) == turns[i].outcome;
      var reset := tracker.ProcessDue(turns[i].services, counter, turns[i].nowNs, resetting[i]);
    }
    assert turns[..|turns|] == turns;
  }

  /** Some turn finds the boot's success earned. */
  ghost predicate Lasts(session: Session) {
    exists i :: 0 <= i < |session.turns|
                && IsEarned(session.tracker, session.turns[i].services, session.turns[i].nowNs)
  }

  /** Freshly configured, and every write succeeds. */
  ghost predicate IsOrderly(session: Session) {
    && session.boot.outcome.Done? && !session.tracker.resetAttempted
    && forall i :: 0 <= i < |session.turns| ==> session.turns[i].outcome.Done?
  }

  /** The turns leave a zero count exactly when the boot lasts, and otherwise leave the count alone. */
  lemma {:induction false} TurnsReset(reading: Reading, tracker: Tracker, turns: seq<Turn>)
    requires !tracker.resetAttempted && forall i :: 0 <= i < |turns| ==> turns[i].outcome.Done?
    ensures AfterTurns(tracker, turns).resetAttempted <==>
            exists i :: 0 <= i < |turns| && IsEarned(tracker, turns[i].services, turns[i].nowNs)
    ensures AfterRun(reading, tracker, turns) == if AfterTurns(tracker, turns).resetAttempted then Ok(0) else reading
  {
    hide IsDue;
    if turns != [] {
      var init, last := turns[..|turns| - 1], turns[|turns| - 1];
      TurnsReset(reading, tracker, init);
      TurnsKeep(tracker, init);
      DueWhenEarned(AfterTurns(tracker, init), last.services, last.nowNs);
      assert IsEarned(AfterTurns(tracker, init), last.services, last.nowNs) <==>
             IsEarned(tracker, last.services, last.nowNs);
      hide IsEarned, AfterTurns;
      if i :| 0 <= i < |init| && IsEarned(tracker, init[i].services, init[i].nowNs) {
        assert IsEarned(tracker, turns[i].services, turns[i].nowNs);
      }
    }
  }

  // ----- any number of sessions -----

  function AfterSessions(reading: Reading, sessions: seq<Session>): Reading {
    if sessions == [] then reading
    else AfterSession(AfterSessions(reading, sessions[..|sessions| - 1]), sessions[|sessions| - 1])
  }

  /** The boots since the last one that proceeded and lasted. */
  ghost function Unconfirmed(sessions: seq<Session>): nat {
    if sessions == [] then 0 else
      var before, last := Unconfirmed(sessions[..|sessions| - 1]), sessions[|sessions| - 1];
      if ProceedsAt(before, last.boot) && Lasts(last) then 0 else before + 1
  }

  lemma SessionIsCounted(session: Session, unconfirmed: nat)
    requires IsOrderly(session)
    ensures AfterSession(Ok(Min(unconfirmed, U32_MAX)), session) ==
            if ProceedsAt(unconfirmed, session.boot) && Lasts(session) then Ok(0)
            else Ok(Min(unconfirmed + 1, U32_MAX))
  {
    hide IsEarned, AfterTurns, AfterRun, IsDue;
    var reading := Ok(Min(unconfirmed, U32_MAX));
    TurnsReset(AfterBoot(reading, session.boot), session.tracker, session.turns);
  }

  /** After any history of sessions the count is the boots since one that lasted, and decides the next exactly. */
  lemma {:induction false} SessionsAreCounted(sessions: seq<Session>, boot: Boot)
    requires forall i :: 0 <= i < |sessions| ==> IsOrderly(sessions[i])
    ensures AfterSessions(Ok(0), sessions) == Ok(Min(Unconfirmed(sessions), U32_MAX))
    ensures Decide(AfterSessions(Ok(0), sessions), boot).Proceed? <==> ProceedsAt(Unconfirmed(sessions), boot)
  {
    hide AfterSession, Lasts, IsOrderly;
    if sessions != [] {
      var init, last := sessions[..|sessions| - 1], sessions[|sessions| - 1];
      SessionsAreCounted(init, boot);
      SessionIsCounted(last, Unconfirmed(init));
    }
  }

  /** Ordinary boots with one threshold. */
  ghost predicate AreOrdinary(sessions: seq<Session>, threshold: u32) {
    forall i :: 0 <= i < |sessions| ==>
      IsOrderly(sessions[i]) && !sessions[i].boot.recovery && sessions[i].boot.threshold == threshold
  }

  lemma {:induction false} NoneConfirms(sessions: seq<Session>)
    requires forall i :: 0 <= i < |sessions| ==> !Lasts(sessions[i])
    ensures Unconfirmed(sessions) == |sessions|
  {
    hide Lasts;
    if sessions != [] {
      NoneConfirms(sessions[..|sessions| - 1]);
    }
  }

  /** A machine whose critical services never last the grace period
      boots exactly `threshold` times, and then recovers. */
  lemma FailingMachineRecovers(sessions: seq<Session>, threshold: u32)
    requires threshold > 0 && AreOrdinary(sessions, threshold)
    requires forall i :: 0 <= i < |sessions| ==> !Lasts(sessions[i])
    ensures Decide(AfterSessions(Ok(0), sessions), Ordinary(threshold)).Proceed? <==> |sessions| < threshold
  {
    hide AfterSessions, Decide, Lasts, IsOrderly;
    NoneConfirms(sessions);
    SessionsAreCounted(sessions, Ordinary(threshold));
  }

  lemma {:induction false} RecoveryKeepsCounting(sessions: seq<Session>, threshold: u32, later: seq<Session>)
    requires threshold > 0 && AreOrdinary(later, threshold) && Unconfirmed(sessions) >= threshold
    ensures Unconfirmed(sessions + later) == Unconfirmed(sessions) + |later|
  {
    hide Lasts;
    if later == [] {
      assert sessions + later == sessions;
    } else {
      var init, last := later[..|later| - 1], later[|later| - 1];
      RecoveryKeepsCounting(sessions, threshold, init);
      assert (sessions + later)[..|sessions + later| - 1] == sessions + init;
    }
  }

  /** Once an ordinary boot recovers all later ones do, whatever their services would have done. */
  lemma RecoveryIsFinal(sessions: seq<Session>, threshold: u32, later: seq<Session>)
    requires forall i :: 0 <= i < |sessions| ==> IsOrderly(sessions[i])
    requires Decide(AfterSessions(Ok(0), sessions), Ordinary(threshold)).EnterRecovery?
    requires AreOrdinary(later, threshold)
    ensures Decide(AfterSessions(Ok(0), sessions + later), Ordinary(threshold)).EnterRecovery?
  {
    hide AfterSessions, Decide, Lasts, IsOrderly, Unconfirmed;
    SessionsAreCounted(sessions, Ordinary(threshold));
    RecoveryKeepsCounting(sessions, threshold, later);
    SessionsAreCounted(sessions + later, Ordinary(threshold));
  }

  lemma {:induction false} EachConfirms(sessions: seq<Session>, threshold: u32)
    requires AreOrdinary(sessions, threshold) && forall i :: 0 <= i < |sessions| ==> Lasts(sessions[i])
    ensures Unconfirmed(sessions) == 0
  {
    hide Lasts, IsOrderly;
    if sessions != [] {
      EachConfirms(sessions[..|sessions| - 1], threshold);
    }
  }

  /** A machine whose services last in every boot never recovers. */
  lemma HealthyMachineProceeds(sessions: seq<Session>, threshold: u32)
    requires AreOrdinary(sessions, threshold) && forall i :: 0 <= i < |sessions| ==> Lasts(sessions[i])
    ensures Decide(AfterSessions(Ok(0), sessions), Ordinary(threshold)).Proceed?
  {
    hide AfterSessions, Decide, Lasts, IsOrderly, Unconfirmed;
    EachConfirms(sessions, threshold);
    SessionsAreCounted(sessions, Ordinary(threshold));
  }
}
