/** The life of one job and the events told of it (src/job/lifecycle.rs, src/job/event.rs). */
module Jobs {
  import opened Collections

  /** A job's identifier: its sixteen bytes read as one number, which orders as the bytes do. */
  type JobId = nat

  datatype JobState = Created | Running | Completed | Failed | Abandoned

  predicate IsTerminal(state: JobState) { state.Completed? || state.Failed? || state.Abandoned? }

  datatype JobExit = ExitCode(code: int) | Signal(signal: int)

  datatype JobFacts = JobFacts(
    id: JobId,
    state: JobState,
    pid: Option<u32>,
    pidfd: Option<int>,
    createdAtNs: u64,
    startedAtNs: Option<u64>,
    endedAtNs: Option<u64>,
    exitCode: Option<int>,
    exitSignal: Option<int>,
    failureCause: Option<string>
  )

  datatype JobAction =
    | Start(pid: u32, pidfd: int, startedAtNs: u64)
    | Complete(endedAtNs: u64, exitCode: int)
    | FailBeforeStart(endedAtNs: u64, failureCause: string)
    | FailRunning(endedAtNs: u64, exit: Option<JobExit>, failureCause: string)
    | Abandon(endedAtNs: u64, failureCause: string)

  datatype ActionKind = Starting | Completing | FailingBeforeStart | FailingRunning | Abandoning

  datatype TransitionError =
    | InvalidTransition(id: JobId, from: JobState, attempted: ActionKind)
    | StartBeforeCreation(id: JobId, createdAtNs: u64, startedAtNs: u64)
    | EndBeforeCreation(id: JobId, createdAtNs: u64, endedAtNs: u64)
    | EndBeforeStart(id: JobId, startedAtNs: u64, endedAtNs: u64)

  type Refusal = Option<TransitionError>

  function EnsureState(job: JobFacts, expected: JobState, attempted: ActionKind): Refusal {
    if job.state == expected then None else Some(InvalidTransition(job.id, job.state, attempted))
  }

  function EnsureEndedAt(job: JobFacts, endedAtNs: u64): Refusal {
    if endedAtNs < job.createdAtNs then Some(EndBeforeCreation(job.id, job.createdAtNs, endedAtNs))
    else if job.startedAtNs.Some? && endedAtNs < job.startedAtNs.value then
      Some(EndBeforeStart(job.id, job.startedAtNs.value, endedAtNs))
    else None
  }

  function EnsureEnd(job: JobFacts, expected: JobState, attempted: ActionKind, endedAtNs: u64): Refusal {
    match EnsureState(job, expected, attempted)
    case Some(error) => Some(error)
    case None => EnsureEndedAt(job, endedAtNs)
  }

  /** Why an action is refused, if it is. */
  function Refused(job: JobFacts, action: JobAction): Refusal {
    match action
    case Start(_, _, at) =>
      (match EnsureState(job, Created, Starting)
       case Some(error) => Some(error)
       case None => if at < job.createdAtNs then Some(StartBeforeCreation(job.id, job.createdAtNs, at)) else None)
    case FailBeforeStart(at, _) => EnsureEnd(job, Created, FailingBeforeStart, at)
    case Complete(at, _) => EnsureEnd(job, Running, Completing, at)
    case FailRunning(at, _, _) => EnsureEnd(job, Running, FailingRunning, at)
    case Abandon(at, _) => EnsureEnd(job, Running, Abandoning, at)
  }

  /** The job after an action; a refused one leaves it as it was. */
  function Step(job: JobFacts, action: JobAction): JobFacts {
    if Refused(job, action).Some? then job else
      match action
      case Start(pid, pidfd, at) =>
        job.(state := Running, pid := Some(pid), pidfd := Some(pidfd), startedAtNs := Some(at))
      case Complete(at, code) => job.(state := Completed, endedAtNs := Some(at), exitCode := Some(code))
      case FailBeforeStart(at, cause) => job.(state := Failed, endedAtNs := Some(at), failureCause := Some(cause))
      case FailRunning(at, exit, cause) =>
        var failed := job.(state := Failed, endedAtNs := Some(at), failureCause := Some(cause));
        (match exit
         case Some(ExitCode(code)) => failed.(exitCode := Some(code))
         case Some(Signal(signal)) => failed.(exitSignal := Some(signal))
         case None => failed)
      case Abandon(at, cause) => job.(state := Abandoned, endedAtNs := Some(at), failureCause := Some(cause))
  }

  /** A job as it is built: nothing has happened to it. */
  ghost predicate IsNew(job: JobFacts) {
    && job.state == Created && job.pid.None? && job.pidfd.None? && job.startedAtNs.None? && job.endedAtNs.None?
    && job.exitCode.None? && job.exitSignal.None? && job.failureCause.None?
  }

  class JobRecord {
    const id: JobId
    const createdAtNs: u64
    var state: JobState
    var pid: Option<u32>
    var pidfd: Option<int>
    var startedAtNs: Option<u64>
    var endedAtNs: Option<u64>
    var exitCode: Option<int>
    var exitSignal: Option<int>
    var failureCause: Option<string>

    constructor (id: JobId, createdAtNs: u64)
      ensures IsNew(Facts()) && Facts().id == id && Facts().createdAtNs == createdAtNs
    {
      this.id, this.createdAtNs := id, createdAtNs;
      state, pid, pidfd, startedAtNs, endedAtNs := Created, None, None, None, None;
      exitCode, exitSignal, failureCause := None, None, None;
    }

    function Facts(): JobFacts
      reads this
    {
      JobFacts(id, state, pid, pidfd, createdAtNs, startedAtNs, endedAtNs, exitCode, exitSignal, failureCause)
    }

    method Start(pid: u32, pidfd: int, at: u64) returns (r: Refusal)
      modifies this
      ensures Facts() == Step(old(Facts()), JobAction.Start(pid, pidfd, at))
      ensures r == Refused(old(Facts()), JobAction.Start(pid, pidfd, at))
    {
      if state != Created {
        return Some(InvalidTransition(id, state, Starting));
      }
      if at < createdAtNs {
        return Some(StartBeforeCreation(id, createdAtNs, at));
      }
      state := Running;
      this.pid := Some(pid);
      this.pidfd := Some(pidfd);
      startedAtNs := Some(at);
      r := None;
    }

    method EnsureEndable(expected: JobState, attempted: ActionKind, at: u64) returns (r: Refusal)
      ensures r == EnsureEnd(Facts(), expected, attempted, at)
    {
      if state != expected {
        return Some(InvalidTransition(id, state, attempted));
      }
      if at < createdAtNs {
        return Some(EndBeforeCreation(id, createdAtNs, at));
      }
      if startedAtNs.Some? && at < startedAtNs.value {
        return Some(EndBeforeStart(id, startedAtNs.value, at));
      }
      r := None;
    }

    method Complete(at: u64, code: int) returns (r: Refusal)
      modifies this
      ensures Facts() == Step(old(Facts()), JobAction.Complete(at, code))
      ensures r == Refused(old(Facts()), JobAction.Complete(at, code))
    {
      r := EnsureEndable(Running, Completing, at);
      if r.Some? {
        return;
      }
      state, endedAtNs, exitCode := Completed, Some(at), Some(code);
    }

    method FailBeforeStart(at: u64, cause: string) returns (r: Refusal)
      modifies this
      ensures Facts() == Step(old(Facts()), JobAction.FailBeforeStart(at, cause))
      ensures r == Refused(old(Facts()), JobAction.FailBeforeStart(at, cause))
    {
      r := EnsureEndable(Created, FailingBeforeStart, at);
      if r.Some? {
        return;
      }
      state, endedAtNs, failureCause := Failed, Some(at), Some(cause);
    }

    method FailRunning(at: u64, exit: Option<JobExit>, cause: string) returns (r: Refusal)
      modifies this
      ensures Facts() == Step(old(Facts()), JobAction.FailRunning(at, exit, cause))
      ensures r == Refused(old(Facts()), JobAction.FailRunning(at, exit, cause))
    {
      r := EnsureEndable(Running, FailingRunning, at);
      if r.Some? {
        return;
      }
      state, endedAtNs, failureCause := Failed, Some(at), Some(cause);
      match exit {
        case Some(ExitCode(code)) => exitCode := Some(code);
        case Some(Signal(signal)) => exitSignal := Some(signal);
        case None =>
      }
    }

    method Abandon(at: u64, cause: string) returns (r: Refusal)
      modifies this
      ensures Facts() == Step(old(Facts()), JobAction.Abandon(at, cause))
      ensures r == Refused(old(Facts()), JobAction.Abandon(at, cause))
    {
      r := EnsureEndable(Running, Abandoning, at);
      if r.Some? {
        return;
      }
      state, endedAtNs, failureCause := Abandoned, Some(at), Some(cause);
    }
  }

  function Run(job: JobFacts, actions: seq<JobAction>): JobFacts
    decreases |actions|
  {
    if actions == [] then job else Run(Step(job, actions[0]), actions[1..])
  }

  /** What a state says of the other fields: the times are in order, and each outcome has what it must. */
  ghost predicate Coherent(job: JobFacts) {
    && (job.startedAtNs.Some? ==> job.createdAtNs <= job.startedAtNs.value && job.pid.Some? && job.pidfd.Some?)
    && (job.endedAtNs.Some? ==> job.createdAtNs <= job.endedAtNs.value)
    && (job.startedAtNs.Some? && job.endedAtNs.Some? ==> job.startedAtNs.value <= job.endedAtNs.value)
    && (job.endedAtNs.Some? <==> IsTerminal(job.state))
    && (job.state.Created? ==> IsNew(job))
    && (job.state.Running? || job.state.Completed? || job.state.Abandoned? ==> job.startedAtNs.Some?)
    && (job.state.Completed? <==> job.exitCode.Some? && job.failureCause.None?)
    && (job.state.Failed? || job.state.Abandoned? <==> job.failureCause.Some?)
    && (job.state.Abandoned? ==> job.exitCode.None? && job.exitSignal.None?)
    && (job.exitSignal.Some? ==> job.state.Failed? && job.exitCode.None?)
  }

  /** Every run of actions on a new job keeps it coherent. */
  lemma {:induction false} EveryRunIsCoherent(job: JobFacts, actions: seq<JobAction>)
    requires Coherent(job)
    ensures Coherent(Run(job, actions))
    ensures Run(job, actions).id == job.id && Run(job, actions).createdAtNs == job.createdAtNs
    decreases |actions|
  {
    if actions != [] {
      EveryRunIsCoherent(Step(job, actions[0]), actions[1..]);
    }
  }

  lemma NewIsCoherent(job: JobFacts)
    requires IsNew(job)
    ensures Coherent(job)
  {
  }

  /** A terminal job refuses everything and never changes again. */
  lemma {:induction false} TerminalAbsorbs(job: JobFacts, actions: seq<JobAction>)
    requires IsTerminal(job.state)
    ensures Run(job, actions) == job && forall a :: a in actions ==> Refused(job, a).Some?
    decreases |actions|
  {
    if actions != [] {
      TerminalAbsorbs(job, actions[1..]);
      assert actions == [actions[0]] + actions[1..];
    }
  }

  predicate Ends(action: JobAction) { !action.Start? }

  // ----- what is allowed, and what it records -----

  /** A start or a failure before it needs a created job, any other end a running one, and times must be in order. */
  ghost predicate IsAllowed(job: JobFacts, action: JobAction) {
    match action
    case Start(_, _, at) => job.state == Created && job.createdAtNs <= at
    case FailBeforeStart(at, _) => job.state == Created && IsNotBefore(job, at)
    case Complete(at, _) => job.state == Running && IsNotBefore(job, at)
    case FailRunning(at, _, _) => job.state == Running && IsNotBefore(job, at)
    case Abandon(at, _) => job.state == Running && IsNotBefore(job, at)
  }

  ghost predicate IsNotBefore(job: JobFacts, at: u64) {
    job.createdAtNs <= at && (job.startedAtNs.Some? ==> job.startedAtNs.value <= at)
  }

  /** The error says what is wrong: the state first, then the creation, then the start. */
  ghost predicate IsReason(job: JobFacts, action: JobAction, error: TransitionError) {
    && error.id == job.id
    && match error
       case InvalidTransition(_, from, attempted) =>
         && from == job.state && attempted == KindOf(action)
         && job.state != if action.Start? || action.FailBeforeStart? then Created else Running
       case StartBeforeCreation(_, created, at) =>
         action.Start? && at == action.startedAtNs < created == job.createdAtNs && job.state == Created
       case EndBeforeCreation(_, created, at) =>
         Ends(action) && at == action.endedAtNs < created == job.createdAtNs
       case EndBeforeStart(_, started, at) =>
         Ends(action) && at == action.endedAtNs < started && job.startedAtNs == Some(started) && job.createdAtNs <= at
  }

  ghost function KindOf(action: JobAction): ActionKind {
    match action
    case Start(_, _, _) => Starting
    case Complete(_, _) => Completing
    case FailBeforeStart(_, _) => FailingBeforeStart
    case FailRunning(_, _, _) => FailingRunning
    case Abandon(_, _) => Abandoning
  }

  /** An action is accepted exactly when it is allowed; otherwise it changes nothing and the reason is true. */
  lemma AcceptedWhen(job: JobFacts, action: JobAction)
    ensures Refused(job, action).None? <==> IsAllowed(job, action)
    ensures Refused(job, action).Some? ==> IsReason(job, action, Refused(job, action).value) && Step(job, action) == job
  {
  }

  /** What the record says of a start and of an end. */
  ghost predicate TellsStart(job: JobFacts, action: JobAction)
    requires action.Start?
  {
    job.pid == Some(action.pid) && job.pidfd == Some(action.pidfd) && job.startedAtNs == Some(action.startedAtNs)
  }

  ghost predicate TellsEnd(before: JobFacts, job: JobFacts, action: JobAction)
    requires Ends(action)
  {
    && job.endedAtNs == Some(action.endedAtNs)
    && job.pid == before.pid && job.pidfd == before.pidfd && job.startedAtNs == before.startedAtNs
    && match action
       case Complete(_, code) =>
         job.state == Completed && job.exitCode == Some(code) && job.exitSignal == before.exitSignal
         && job.failureCause == before.failureCause
       case FailBeforeStart(_, cause) =>
         job.state == Failed && job.failureCause == Some(cause) && job.exitCode == before.exitCode
         && job.exitSignal == before.exitSignal
       case FailRunning(_, exit, cause) =>
         && job.state == Failed && job.failureCause == Some(cause)
         && job.exitCode == (if exit.Some? && exit.value.ExitCode? then Some(exit.value.code) else before.exitCode)
         && job.exitSignal == (if exit.Some? && exit.value.Signal? then Some(exit.value.signal) else before.exitSignal)
       case Abandon(_, cause) =>
         job.state == Abandoned && job.failureCause == Some(cause) && job.exitCode == before.exitCode
         && job.exitSignal == before.exitSignal
  }

  lemma {:induction false} RunInTwo(job: JobFacts, actions: seq<JobAction>, i: nat)
    requires i <= |actions|
    ensures Run(job, actions) == Run(Run(job, actions[..i]), actions[i..])
    decreases |actions|
  {
    hide Step;
    if i == 0 {
      assert actions[..0] == [] && actions[0..] == actions;
    } else {
      RunInTwo(Step(job, actions[0]), actions[1..], i - 1);
      assert actions[..i][1..] == actions[1..][..i - 1] && actions[1..][i - 1..] == actions[i..];
    }
  }

  /** An allowed end stands: whatever is tried after it, the record tells that end. */
  lemma AllowedEndStands(job: JobFacts, actions: seq<JobAction>, i: nat)
    requires i < |actions| && Ends(actions[i]) && IsAllowed(Run(job, actions[..i]), actions[i])
    ensures TellsEnd(Run(job, actions[..i]), Run(job, actions), actions[i])
  {
    var before := Run(job, actions[..i]);
    hide Run;
    RunInTwo(job, actions, i);
    RunStep(before, actions[i..]);
    AcceptedWhen(before, actions[i]);
    TerminalAbsorbs(Step(before, actions[i]), actions[i..][1..]);
  }

  lemma RunStep(job: JobFacts, actions: seq<JobAction>)
    requires actions != []
    ensures Run(job, actions) == Run(Step(job, actions[0]), actions[1..])
  {
  }

  lemma {:induction false} StartedStays(job: JobFacts, actions: seq<JobAction>)
    requires !job.state.Created?
    ensures var now := Run(job, actions);
            now.pid == job.pid && now.pidfd == job.pidfd && now.startedAtNs == job.startedAtNs && !now.state.Created?
    decreases |actions|
  {
    if actions != [] {
      StartedStays(Step(job, actions[0]), actions[1..]);
    }
  }

  /** An allowed start stands too, and leaves the job running until it ends. */
  lemma AllowedStartStands(job: JobFacts, actions: seq<JobAction>, i: nat)
    requires i < |actions| && actions[i].Start? && IsAllowed(Run(job, actions[..i]), actions[i])
    ensures TellsStart(Run(job, actions), actions[i]) && Run(job, actions[..i + 1]).state == Running
  {
    var before := Run(job, actions[..i]);
    hide Run;
    RunInTwo(job, actions, i);
    RunStep(before, actions[i..]);
    RunInTwo(job, actions[..i + 1], i);
    assert actions[..i + 1][..i] == actions[..i] && actions[..i + 1][i..] == [actions[i]];
    RunStep(before, [actions[i]]);
    RunNothing(Step(before, actions[i]));
    AcceptedWhen(before, actions[i]);
    StartedStays(Step(before, actions[i]), actions[i..][1..]);
  }

  lemma RunNothing(job: JobFacts)
    ensures Run(job, []) == job
  {
  }

  /** The accepted actions that end the job. */
  function AcceptedEnds(job: JobFacts, actions: seq<JobAction>): nat
    decreases |actions|
  {
    if actions == [] then 0 else
      (if Ends(actions[0]) && Refused(job, actions[0]).None? then 1 else 0)
        + AcceptedEnds(Step(job, actions[0]), actions[1..])
  }

  /** In any run a job ends at most once, and is terminal exactly when it has ended. */
  lemma {:induction false} EndsAtMostOnce(job: JobFacts, actions: seq<JobAction>)
    requires IsNew(job) || job.state.Running?
    ensures AcceptedEnds(job, actions) == if IsTerminal(Run(job, actions).state) then 1 else 0
    decreases |actions|
  {
    if actions != [] {
      var next := Step(job, actions[0]);
      if IsTerminal(next.state) {
        TerminalAbsorbs(next, actions[1..]);
        NoEndsWhenTerminal(next, actions[1..]);
      } else {
        EndsAtMostOnce(next, actions[1..]);
      }
    }
  }

  lemma {:induction false} NoEndsWhenTerminal(job: JobFacts, actions: seq<JobAction>)
    requires IsTerminal(job.state)
    ensures AcceptedEnds(job, actions) == 0
    decreases |actions|
  {
    if actions != [] {
      NoEndsWhenTerminal(job, actions[1..]);
    }
  }

  // ----- the events -----

  datatype EventDetail =
    | WasCreated
    | WasStarted(startedAtNs: u64, pid: u32)
    | WasEnded(
        endedAtNs: u64, durationNs: int, exitCode: Option<int>, exitSignal: Option<int>, failureCause: Option<string>)

  datatype JobEvent = JobEvent(job: JobFacts, detail: EventDetail)

  datatype InvalidEventRecord = InvalidEventRecord(id: JobId, state: JobState, reason: string)

  /** The time from creation to the end. The source subtracts machine words, so the result must not be negative. */
  function DurationNs(job: JobFacts): Option<int> {
    match job.endedAtNs
    case Some(at) => Some(at - job.createdAtNs)
    case None => None
  }

  function StartedEvent(job: JobFacts): Result<JobEvent, InvalidEventRecord> {
    if job.startedAtNs.None? then Err(InvalidEventRecord(job.id, job.state, "started job has start timestamp"))
    else if job.pid.None? then Err(InvalidEventRecord(job.id, job.state, "started job has pid"))
    else Ok(JobEvent(job, WasStarted(job.startedAtNs.value, job.pid.value)))
  }

  function EndedEvent(job: JobFacts): Result<JobEvent, InvalidEventRecord> {
    if job.endedAtNs.None? then Err(InvalidEventRecord(job.id, job.state, "ended job has end timestamp"))
    else
      match DurationNs(job)
      case None => Err(InvalidEventRecord(job.id, job.state, "ended job has duration"))
      case Some(duration) =>
        Ok(JobEvent(job, WasEnded(job.endedAtNs.value, duration, job.exitCode, job.exitSignal, job.failureCause)))
  }

  /** In any run of a new job the ended event can be made exactly when the job is terminal,
      the started event exactly when it was launched, and no duration underflows. */
  lemma EventsCanBeMade(job: JobFacts, actions: seq<JobAction>)
    requires IsNew(job)
    ensures var now := Run(job, actions);
            && (EndedEvent(now).Ok? <==> IsTerminal(now.state))
            && (StartedEvent(now).Ok? <==> now.startedAtNs.Some?)
            && (DurationNs(now).Some? ==> 0 <= DurationNs(now).value <= now.endedAtNs.value)
            && (EndedEvent(now).Ok? && now.startedAtNs.Some? ==>
                  DurationNs(now).value >= now.endedAtNs.value - now.startedAtNs.value)
  {
    NewIsCoherent(job);
    EveryRunIsCoherent(job, actions);
  }
}
