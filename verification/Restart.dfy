/** Restart decisions, backoff and the retry budget (src/service/restart.rs, src/service/runtime/model.rs). */
module Restart {
  import opened Collections
  import opened Services

  const MAX_RESTART_DELAY_SECS: nat := 60

  datatype TransitionCause =
    | ExplicitStart | DependencyStart | RestartByPolicy | BindsToRecovery | ExplicitStop | ExplicitReload
    | ExplicitReset | ConflictEviction | BindsToPropagation | Timer | ShutdownWave | ProcessCrash | CleanExit
    | CleanExitRestart | ReadinessTimeout | WatchdogTimeout | HealthCheckFailure | PreHookFailure
    | ParentSetupFailure | PreExecFailure | DependencyFailure | RestartBudgetExhausted | CycleDetected
    | ValidationError | AssertionError | ConditionSkipped | TtyUnavailable | ProcessUnkillable | InternalError

  /** Whether the restart policy is asked at all. */
  predicate IsConsulted(cause: TransitionCause) {
    match cause
    case ProcessCrash | WatchdogTimeout | HealthCheckFailure | ReadinessTimeout
       | PreHookFailure | PreExecFailure | ParentSetupFailure | CleanExitRestart | BindsToRecovery => true
    case _ => false
  }

  // ----- the delay -----

  function Pow2(n: nat): (r: nat)
    ensures r > n
  {
    if n == 0 then 1 else 2 * Pow2(n - 1)
  }

  /** `1 << n` in 64 bits, none when the shift is as wide as the word. */
  function CheckedShl(n: u32): Option<nat> { if n < 64 then Some(Pow2(n)) else None }

  function SaturatingMul(a: nat, b: nat): nat { Min(a * b, U64_MAX) }

  function RestartDelaySecs(baseDelaySecs: u64, consecutiveFailures: u32): nat {
    var multiplier := match CheckedShl(consecutiveFailures) case Some(m) => m case None => U64_MAX;
    Min(SaturatingMul(baseDelaySecs, multiplier), MAX_RESTART_DELAY_SECS)
  }

  /** Saturation never shows: the delay is the ideal exponential backoff, capped. */
  lemma DelayIsIdeal(base: u64, n: u32)
    ensures RestartDelaySecs(base, n) == Min(base * Pow2(n), MAX_RESTART_DELAY_SECS)
  {
    hide Pow2;
    if n < 64 {
      var product := base * Pow2(n);
      assert SaturatingMul(base, Pow2(n)) == Min(product, U64_MAX);
    } else if base > 0 {
      AtLeast(base, Pow2(n));
      AtLeast(base, U64_MAX);
    }
  }

  /** The first delay is the declared one and each next is twice the one before, within the cap. */
  lemma DelayDoubles(base: u64, n: u32)
    ensures RestartDelaySecs(base, 0) == Min(base, 60)
    ensures n < U32_MAX ==> RestartDelaySecs(base, n + 1) == Min(2 * RestartDelaySecs(base, n), 60)
  {
    assert Pow2(0) == 1;
    hide RestartDelaySecs, Pow2;
    DelayIsIdeal(base, 0);
    DelayIsIdeal(base, n);
    if n < U32_MAX {
      DelayIsIdeal(base, n + 1);
      PowerDoubles(base, n);
      var power := base * Pow2(n);
    }
  }

  lemma PowerDoubles(base: nat, n: nat)
    ensures base * Pow2(n + 1) == 2 * (base * Pow2(n))
  {
  }

  lemma AtLeast(base: nat, m: nat)
    requires base > 0
    ensures base * m >= m
  {
    MulGrows(m, 1, base);
  }

  lemma {:induction false} Pow2Grows(m: nat, n: nat)
    requires m <= n
    ensures Pow2(m) <= Pow2(n)
  {
    if m < n {
      Pow2Grows(m, n - 1);
    }
  }

  lemma DelayIsMonotone(base: u64, m: u32, n: u32)
    requires m <= n
    ensures RestartDelaySecs(base, m) <= RestartDelaySecs(base, n) <= MAX_RESTART_DELAY_SECS
  {
    hide RestartDelaySecs;
    DelayIsIdeal(base, m);
    DelayIsIdeal(base, n);
    Pow2Grows(m, n);
    MulGrows(base, Pow2(m), Pow2(n));
  }

  lemma MulGrows(base: nat, a: nat, b: nat)
    requires a <= b
    ensures base * a <= base * b
  {
  }

  // ----- one decision -----

  datatype Action =
    | BackOff(cause: TransitionCause, delaySecs: nat, nextConsecutiveFailures: u32)
    | Fail(cause: TransitionCause)

  predicate IsSuccessExitCode(definition: ServiceDefinition, code: int) {
    code == 0 || code in definition.successExitCodes
  }

  datatype Failure = Failure(cause: TransitionCause, exitCode: Option<int>)

  /** The checks before the budget: whether the policy would restart the service at all. */
  predicate PolicyRestarts(definition: ServiceDefinition, failure: Failure) {
    && IsConsulted(failure.cause)
    && (failure.cause == CleanExitRestart ==> definition.restartPolicy == Always)
    && definition.restartPolicy != Never
    && !(definition.restartPolicy == OnFailure && failure.cause == ProcessCrash
         && failure.exitCode.Some? && IsSuccessExitCode(definition, failure.exitCode.value))
  }

  /** A normal logout from a console, which costs no retry. */
  predicate IsConsoleLogout(definition: ServiceDefinition, failure: Failure) {
    failure.cause == CleanExitRestart && definition.consolePath.Some?
  }

  function EvaluateRestartAfterFailure(
    definition: ServiceDefinition, failure: Failure, consecutiveFailures: u32): Action
  {
    if !PolicyRestarts(definition, failure) then Fail(failure.cause)
    else if IsConsoleLogout(definition, failure) then
      BackOff(failure.cause, Min(definition.restartDelaySecs, MAX_RESTART_DELAY_SECS), 0)
    else if consecutiveFailures >= definition.restartMaxRetries then Fail(RestartBudgetExhausted)
    else
      BackOff(failure.cause, RestartDelaySecs(definition.restartDelaySecs, consecutiveFailures),
              Min(consecutiveFailures + 1, U32_MAX))
  }

  /** The causes that a restart may mend. */
  const MENDABLE: set<TransitionCause> :=
    {ProcessCrash, WatchdogTimeout, HealthCheckFailure, ReadinessTimeout, PreHookFailure, PreExecFailure,
     ParentSetupFailure, BindsToRecovery}

  /** What each policy restarts: never anything, failures only, or clean exits as well. A process that exits
      with a code its definition counts as success has not failed. */
  ghost predicate Restarts(definition: ServiceDefinition, failure: Failure) {
    match definition.restartPolicy
    case Never => false
    case Always => failure.cause in MENDABLE || failure.cause == CleanExitRestart
    case OnFailure =>
      && failure.cause in MENDABLE
      && !(failure.cause == ProcessCrash && failure.exitCode.Some?
           && failure.exitCode.value in [0] + definition.successExitCodes)
  }

  /** The answer to one failure: backed off as often as the budget lets it, or a logout that costs nothing. */
  lemma RestartsExactlyWhen(definition: ServiceDefinition, failure: Failure, n: u32)
    ensures var action := EvaluateRestartAfterFailure(definition, failure, n);
            var logout := failure.cause == CleanExitRestart && definition.consolePath.Some?;
            && (action.BackOff? <==> Restarts(definition, failure) && (logout || n < definition.restartMaxRetries))
            && (action.BackOff? ==> action.cause == failure.cause
                                    && action.nextConsecutiveFailures == if logout then 0 else n + 1)
            && (action.BackOff? && logout ==> action.delaySecs == Min(definition.restartDelaySecs, 60))
            && (action.Fail? ==>
                  action.cause == if Restarts(definition, failure) then RestartBudgetExhausted else failure.cause)
  {
    hide RestartDelaySecs;
    assert forall code :: code in [0] + definition.successExitCodes <==> IsSuccessExitCode(definition, code);
  }

  // ----- whole runs -----

  /** Where a run of failures with no other counter reset leaves the service: its counter and what it was granted. */
  datatype Tally = Tally(consecutiveFailures: u32, backoffs: nat, totalDelay: nat, logouts: nat)

  function After(definition: ServiceDefinition, tally: Tally, failure: Failure): Tally {
    match EvaluateRestartAfterFailure(definition, failure, tally.consecutiveFailures)
    case Fail(_) => tally
    case BackOff(_, delay, next) =>
      Tally(next, tally.backoffs + 1, tally.totalDelay + delay,
            tally.logouts + if IsConsoleLogout(definition, failure) then 1 else 0)
  }

  /** How many of the failures are console logouts that the policy restarts. */
  ghost function Logouts(definition: ServiceDefinition, failures: seq<Failure>): nat {
    if failures == [] then 0 else
      var last := failures[|failures| - 1];
      var isLogout := last.cause == CleanExitRestart && definition.consolePath.Some?;
      Logouts(definition, failures[..|failures| - 1]) +
      if definition.restartPolicy == Always && isLogout then 1 else 0
  }

  lemma {:induction false} LogoutsAreCounted(definition: ServiceDefinition, start: u32, failures: seq<Failure>)
    ensures Run(definition, start, failures).logouts == Logouts(definition, failures)
  {
    hide RestartDelaySecs;
    if failures != [] {
      LogoutsAreCounted(definition, start, failures[..|failures| - 1]);
    }
  }

  function Run(definition: ServiceDefinition, start: u32, failures: seq<Failure>): Tally {
    if failures == [] then Tally(start, 0, 0, 0)
    else After(definition, Run(definition, start, failures[..|failures| - 1]), failures[|failures| - 1])
  }

  function Room(definition: ServiceDefinition, consecutiveFailures: nat): nat {
    if consecutiveFailures < definition.restartMaxRetries then definition.restartMaxRetries - consecutiveFailures else 0
  }

  ghost predicate WithinBudget(definition: ServiceDefinition, start: u32, tally: Tally) {
    && tally.backoffs + Room(definition, tally.consecutiveFailures)
       <= Room(definition, start) + tally.logouts * (definition.restartMaxRetries + 1)
    && tally.totalDelay <= MAX_RESTART_DELAY_SECS * tally.backoffs
  }

  lemma StepIsWithinBudget(definition: ServiceDefinition, start: u32, tally: Tally, failure: Failure)
    requires WithinBudget(definition, start, tally)
    ensures WithinBudget(definition, start, After(definition, tally, failure))
  {
    hide RestartDelaySecs, PolicyRestarts;
    DelayIsMonotone(definition.restartDelaySecs, tally.consecutiveFailures, tally.consecutiveFailures);
    var cost: nat := definition.restartMaxRetries + 1;
    assert (tally.logouts + 1) * cost == tally.logouts * cost + cost;
  }

  /** Every run keeps its budget, each console logout refilling it once; and no delay exceeds the cap. */
  lemma {:induction false} RunIsWithinBudget(definition: ServiceDefinition, start: u32, failures: seq<Failure>)
    ensures WithinBudget(definition, start, Run(definition, start, failures))
  {
    hide After;
    if failures != [] {
      var init, last := failures[..|failures| - 1], failures[|failures| - 1];
      RunIsWithinBudget(definition, start, init);
      StepIsWithinBudget(definition, start, Run(definition, start, init), last);
    }
  }

  /** Without console logouts a fresh service is restarted at most as often as its definition allows. */
  lemma BudgetIsKept(definition: ServiceDefinition, failures: seq<Failure>)
    requires forall i :: 0 <= i < |failures| ==> !IsConsoleLogout(definition, failures[i])
    ensures Run(definition, 0, failures).backoffs <= definition.restartMaxRetries
    ensures Run(definition, 0, failures).totalDelay <= MAX_RESTART_DELAY_SECS * definition.restartMaxRetries
  {
    hide Run;
    RunIsWithinBudget(definition, 0, failures);
    NoLogouts(definition, failures);
  }

  lemma {:induction false} NoLogouts(definition: ServiceDefinition, failures: seq<Failure>)
    requires forall i :: 0 <= i < |failures| ==> !IsConsoleLogout(definition, failures[i])
    ensures Run(definition, 0, failures).logouts == 0
  {
    hide PolicyRestarts, RestartDelaySecs, IsConsoleLogout;
    if failures != [] {
      NoLogouts(definition, failures[..|failures| - 1]);
    }
  }

  /** The budget is also granted in full: restartable failures back off until it is spent, and then all fail. */
  lemma {:induction false} BudgetIsSpent(definition: ServiceDefinition, failures: seq<Failure>)
    requires forall i :: 0 <= i < |failures| ==>
               PolicyRestarts(definition, failures[i]) && !IsConsoleLogout(definition, failures[i])
    ensures var tally := Run(definition, 0, failures);
            tally.consecutiveFailures == tally.backoffs == Min(|failures|, definition.restartMaxRetries)
  {
    hide PolicyRestarts, RestartDelaySecs, IsConsoleLogout;
    if failures != [] {
      BudgetIsSpent(definition, failures[..|failures| - 1]);
    }
  }

  /** The answer to the next restartable failure, given those before it. */
  lemma NextAnswer(definition: ServiceDefinition, failures: seq<Failure>, next: Failure)
    requires forall i :: 0 <= i < |failures| ==>
               PolicyRestarts(definition, failures[i]) && !IsConsoleLogout(definition, failures[i])
    requires PolicyRestarts(definition, next) && !IsConsoleLogout(definition, next)
    ensures EvaluateRestartAfterFailure(definition, next, Run(definition, 0, failures).consecutiveFailures) ==
            if |failures| < definition.restartMaxRetries
            then var delay := Min(definition.restartDelaySecs * Pow2(|failures|), MAX_RESTART_DELAY_SECS);
                 BackOff(next.cause, delay, |failures| + 1)
            else Fail(RestartBudgetExhausted)
  {
    hide PolicyRestarts, RestartDelaySecs, IsConsoleLogout, Run;
    BudgetIsSpent(definition, failures);
    if |failures| < definition.restartMaxRetries {
      DelayIsIdeal(definition.restartDelaySecs, |failures|);
    }
  }

  /** Console logouts do lift the bound: with them a run is restarted as often as one likes. */
  lemma {:induction false} LogoutsRefill(definition: ServiceDefinition, rounds: nat)
    requires definition.restartPolicy == Always && definition.consolePath.Some? && definition.restartMaxRetries > 0
    ensures var failures := seq(2 * rounds, i => Failure(if i % 2 == 0 then ProcessCrash else CleanExitRestart, None));
            Run(definition, 0, failures).backoffs == 2 * rounds && Run(definition, 0, failures).consecutiveFailures == 0
  {
    hide After;
    if rounds > 0 {
      LogoutsRefill(definition, rounds - 1);
      var failures := seq(2 * rounds, i => Failure(if i % 2 == 0 then ProcessCrash else CleanExitRestart, None));
      var before := seq(2 * (rounds - 1), i => Failure(if i % 2 == 0 then ProcessCrash else CleanExitRestart, None));
      var odd := failures[..|failures| - 1];
      assert odd[..|odd| - 1] == before;
      CrashThenLogout(definition, Run(definition, 0, before));
    }
  }

  lemma CrashThenLogout(definition: ServiceDefinition, tally: Tally)
    requires definition.restartPolicy == Always && definition.consolePath.Some? && definition.restartMaxRetries > 0
    requires tally.consecutiveFailures == 0
    ensures var crashed := After(definition, tally, Failure(ProcessCrash, None));
            var after := After(definition, crashed, Failure(CleanExitRestart, None));
            after.backoffs == tally.backoffs + 2 && after.consecutiveFailures == 0
  {
  }
}
