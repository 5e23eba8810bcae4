/** Submitted jobs: the store, its stop protocol and its deadlines, and the view (src/submitted). */
module Submitted {
  import opened Collections
  import opened Jobs

  datatype Cause =
    ParentSetupFailure | PreExecFailure | ReadinessTimeout | Timeout | ExplicitStop | Shutdown | ProcessUnkillable

  datatype StopPhase = Terminating | Killed

  datatype Stop = Stop(cause: Cause, requestedAtNs: u64, phase: StopPhase, dueAtNs: u64)

  datatype Outcome = Outcome(
    state: JobState, pid: Option<u32>, startedAtNs: Option<u64>, endedAtNs: u64,
    exitCode: Option<int>, exitSignal: Option<int>, failureCause: Option<string>, retainedUntilNs: u64)

  datatype Definition = Definition(
    timeoutSecs: u64, stopTimeoutSecs: u64, notifies: bool, readinessTimeoutSecs: u64)

  datatype Entry = Entry(
    jobId: JobId,
    submitterSid: string,
    definition: Definition,
    createdAtNs: u64,
    ready: Option<bool>,
    cause: Option<Cause>,
    stop: Option<Stop>,
    outcome: Option<Outcome>,
    cgroupCleanupDueAtNs: Option<u64>
  )

  type Entries = map<JobId, Entry>

  predicate IsLive(entry: Entry) { entry.outcome.None? }

  /** Seconds in nanoseconds, in the machine's 64 bits. */
  function Nanos(secs: u64): u64 { secs * NANOS_PER_SEC % (U64_MAX + 1) }

  datatype StoreError =
    DuplicateJobId(id: JobId) | UnknownJob(id: JobId) | AlreadyTerminal(id: JobId) | NotTerminal(id: JobId)

  predicate StartsWith(text: string, prefix: string) { prefix <= text }

  function CauseFromTerminalRecord(state: JobState, failureCause: Option<string>): Option<Cause> {
    match state
    case Abandoned => Some(ProcessUnkillable)
    case Failed =>
      if failureCause.None? then None
      else if StartsWith(failureCause.value, "ParentSetupFailure") then Some(ParentSetupFailure)
      else if StartsWith(failureCause.value, "PreExecFailure") then Some(PreExecFailure)
      else None
    case Created | Running | Completed => None
  }

  /** What an ended job without a cause is found to have died of. */
  lemma CauseLearnt(state: JobState, failureCause: Option<string>)
    ensures var cause := CauseFromTerminalRecord(state, failureCause);
            && (cause == Some(ProcessUnkillable) <==> state == Abandoned)
            && (cause == Some(Cause.ParentSetupFailure) <==>
                  state == JobState.Failed && failureCause.Some? && "ParentSetupFailure" <= failureCause.value)
            && (cause == Some(Cause.PreExecFailure) <==>
                  state == JobState.Failed && failureCause.Some? && "PreExecFailure" <= failureCause.value)
            && (cause.Some? ==> cause.value in {ProcessUnkillable, Cause.ParentSetupFailure, Cause.PreExecFailure})
  {
    assert "ParentSetupFailure"[1] != "PreExecFailure"[1];
  }

  /** One call on the store, or one of the two fields the supervisor sets through a borrowed entry. */
  datatype StoreOp =
    | Insert(entry: Entry)
    | RecordTerminal(event: JobEvent, retentionNs: u64)
    | BeginStop(id: JobId, stopCause: Cause, nowNs: u64)
    | RecordKill(id: JobId, nowNs: u64, postKillTimeoutSecs: u64)
    | PurgeRetainedUntil(nowNs: u64)
    | Remove(id: JobId)
    | SetReady(id: JobId)
    | SetCleanup(id: JobId, dueAtNs: Option<u64>)

  /** The entry once its terminal event is recorded. */
  function Ended(entry: Entry, event: JobEvent, retentionNs: u64): Entry
    requires event.detail.WasEnded?
  {
    var detail, job := event.detail, event.job;
    entry.(
      cause := if entry.cause.None? then CauseFromTerminalRecord(job.state, detail.failureCause) else entry.cause,
      stop := None,
      outcome := Some(Outcome(job.state, job.pid, job.startedAtNs, detail.endedAtNs, detail.exitCode, detail.exitSignal,
                              detail.failureCause, SaturatingAdd(detail.endedAtNs, retentionNs))))
  }

  predicate IsPurgeable(entry: Entry, nowNs: u64) {
    entry.outcome.Some? && entry.outcome.value.retainedUntilNs <= nowNs && entry.cgroupCleanupDueAtNs.None?
  }

  /** The job has ended, its retention is over and its cgroup is clean. */
  ghost predicate HasExpired(entry: Entry, nowNs: u64) {
    match entry.outcome
    case None => false
    case Some(outcome) => nowNs >= outcome.retainedUntilNs && entry.cgroupCleanupDueAtNs == None
  }

  function PurgedIds(entries: Entries, nowNs: u64): set<JobId> {
    set id | id in entries && IsPurgeable(entries[id], nowNs)
  }

  function Stopping(entry: Entry, cause: Cause, nowNs: u64): Entry {
    entry.(cause := Some(cause),
           stop := Some(Stop(cause, nowNs, Terminating, SaturatingAdd(nowNs, Nanos(entry.definition.stopTimeoutSecs)))))
  }

  /** A stop is begun only on a live job that is not being stopped. */
  predicate BeginsStop(entries: Entries, id: JobId) {
    id in entries && entries[id].outcome.None? && entries[id].stop.None?
  }

  predicate EndsLive(entries: Entries, event: JobEvent) {
    event.job.id in entries && entries[event.job.id].outcome.None? && event.detail.WasEnded?
  }

  function Apply(entries: Entries, op: StoreOp): Entries {
    match op
    case Insert(entry) => if entry.jobId in entries then entries else entries[entry.jobId := entry]
    case RecordTerminal(event, retentionNs) =>
      if EndsLive(entries, event) then entries[event.job.id := Ended(entries[event.job.id], event, retentionNs)]
      else entries
    case BeginStop(id, cause, nowNs) =>
      if BeginsStop(entries, id) then entries[id := Stopping(entries[id], cause, nowNs)] else entries
    case RecordKill(id, nowNs, secs) =>
      if id in entries && entries[id].stop.Some? then
        entries[id := entries[id].(stop := Some(entries[id].stop.value.(
          phase := Killed, dueAtNs := SaturatingAdd(nowNs, Nanos(secs)))))]
      else entries
    case PurgeRetainedUntil(nowNs) => entries - PurgedIds(entries, nowNs)
    case Remove(id) => entries - {id}
    case SetReady(id) =>
      if id in entries && entries[id].definition.notifies && entries[id].ready == Some(false)
      then entries[id := entries[id].(ready := Some(true))] else entries
    case SetCleanup(id, due) =>
      if id in entries then entries[id := entries[id].(cgroupCleanupDueAtNs := due)] else entries
  }

  class SubmittedJobStore {
    var entries: Entries

    constructor ()
      ensures entries == map[]
    {
      entries := map[];
    }

    method Insert(entry: Entry) returns (r: Result<(), StoreError>)
      modifies this
      ensures entries == Apply(old(entries), StoreOp.Insert(entry))
      ensures r == if entry.jobId in old(entries) then Err(DuplicateJobId(entry.jobId)) else Ok(())
    {
      if entry.jobId in entries {
        return Err(DuplicateJobId(entry.jobId));
      }
      entries := entries[entry.jobId := entry];
      r := Ok(());
    }

    method RecordTerminal(event: JobEvent, retentionNs: u64) returns (r: Result<Entry, StoreError>)
      modifies this
      ensures entries == Apply(old(entries), StoreOp.RecordTerminal(event, retentionNs))
      ensures r.Ok? ==> event.job.id in entries && r.value == entries[event.job.id]
      ensures r == Err(UnknownJob(event.job.id)) <==> event.job.id !in old(entries)
      ensures r == Err(AlreadyTerminal(event.job.id)) <==>
              event.job.id in old(entries) && old(entries)[event.job.id].outcome.Some?
      ensures r == Err(NotTerminal(event.job.id)) <==>
              event.job.id in old(entries) && old(entries)[event.job.id].outcome.None? && !event.detail.WasEnded?
      ensures r.Err? ==> r.error in {UnknownJob(event.job.id), AlreadyTerminal(event.job.id), NotTerminal(event.job.id)}
    {
      var id := event.job.id;
      if id !in entries {
        return Err(UnknownJob(id));
      }
      var entry := entries[id];
      if entry.outcome.Some? {
        return Err(AlreadyTerminal(id));
      }
      match event.detail {
        case WasEnded(endedAtNs, _, exitCode, exitSignal, failureCause) =>
          if entry.cause.None? {
            entry := entry.(cause := CauseFromTerminalRecord(event.job.state, failureCause));
          }
          entry := entry.(stop := None);
          var outcome := Outcome(event.job.state, event.job.pid, event.job.startedAtNs, endedAtNs, exitCode, exitSignal,
                                 failureCause, SaturatingAdd(endedAtNs, retentionNs));
          entry := entry.(outcome := Some(outcome));
          entries := entries[id := entry];
          r := Ok(entry);
        case _ =>
          r := Err(NotTerminal(id));
      }
    }

    method BeginStop(id: JobId, cause: Cause, nowNs: u64) returns (r: Result<bool, StoreError>)
      modifies this
      ensures entries == Apply(old(entries), StoreOp.BeginStop(id, cause, nowNs))
      ensures r == Err(UnknownJob(id)) <==> id !in old(entries)
      ensures r == Ok(true) <==>
              id in old(entries) && old(entries)[id].outcome == None && old(entries)[id].stop == None
      ensures r.Err? ==> r.error == UnknownJob(id)
    {
      if id !in entries {
        return Err(UnknownJob(id));
      }
      var entry := entries[id];
      if entry.outcome.Some? || entry.stop.Some? {
        return Ok(false);
      }
      entry := entry.(cause := Some(cause));
      var due := SaturatingAdd(nowNs, Nanos(entry.definition.stopTimeoutSecs));
      entries := entries[id := entry.(stop := Some(Stop(cause, nowNs, Terminating, due)))];
      r := Ok(true);
    }

    method RecordKill(id: JobId, nowNs: u64, postKillTimeoutSecs: u64) returns (r: Result<(), StoreError>)
      modifies this
      ensures entries == Apply(old(entries), StoreOp.RecordKill(id, nowNs, postKillTimeoutSecs))
      ensures r == if id !in old(entries) then Err(UnknownJob(id)) else Ok(())
    {
      if id !in entries {
        return Err(UnknownJob(id));
      }
      var entry := entries[id];
      if entry.stop.Some? {
        var stop := entry.stop.value.(phase := Killed);
        stop := stop.(dueAtNs := SaturatingAdd(nowNs, Nanos(postKillTimeoutSecs)));
        entries := entries[id := entry.(stop := Some(stop))];
      }
      r := Ok(());
    }

    /** The purged identifiers come in ascending order. */
    method PurgeRetainedUntil(nowNs: u64) returns (purged: seq<JobId>)
      modifies this
      ensures entries == Apply(old(entries), StoreOp.PurgeRetainedUntil(nowNs))
      ensures forall id :: id in purged <==> id in old(entries) && HasExpired(old(entries)[id], nowNs)
      ensures Ascending(purged)
    {
      purged := InOrderOf(PurgedIds(entries, nowNs));
      for i := 0 to |purged|
        invariant entries == old(entries) - Elements(purged[..i])
      {
        assert purged[..i + 1] == purged[..i] + [purged[i]];
        entries := entries - {purged[i]};
      }
      assert purged[..|purged|] == purged;
      forall id ensures id in purged <==> id in old(entries) && HasExpired(old(entries)[id], nowNs) {
        assert id in purged <==> id in Elements(purged);
      }
    }
  }

  ghost predicate Ascending(ids: seq<JobId>) {
    forall i, j :: 0 <= i < j < |ids| ==> ids[i] < ids[j]
  }

  /** The order in which the store goes through `ids`. */
  method InOrderOf(ids: set<JobId>) returns (r: seq<JobId>)
    ensures Elements(r) == ids && Ascending(r)
  {
    r := [];
    var left := ids;
    while left != {}
      invariant left <= ids && Elements(r) == ids - left && Ascending(r)
      invariant forall i, b :: 0 <= i < |r| && b in left ==> r[i] < b
      decreases left
    {
      ghost var least := Least(left);
      var id :| id in left && forall other :: other in left ==> id <= other;
      assert Elements(r + [id]) == Elements(r) + {id};
      r := r + [id];
      left := left - {id};
    }
  }

  lemma {:induction false} Least(ids: set<JobId>) returns (least: JobId)
    requires ids != {}
    ensures least in ids && forall other :: other in ids ==> least <= other
  {
    least :| least in ids;
    if ids != {least} {
      var other := Least(ids - {least});
      assert ids == (ids - {least}) + {least};
      least := if least <= other then least else other;
    }
  }

  // ----- the stop protocol over whole runs -----

  function Run(entries: Entries, ops: seq<StoreOp>): Entries
    decreases |ops|
  {
    if ops == [] then entries else Run(Apply(entries, ops[0]), ops[1..])
  }

  /** Inserted entries are as a submission makes them: nothing decided, nothing ended. */
  ghost predicate Fresh(op: StoreOp) {
    op.Insert? ==> op.entry.cause.None? && op.entry.stop.None? && op.entry.outcome.None?
  }

  ghost predicate AllFresh(ops: seq<StoreOp>) { forall op :: op in ops ==> Fresh(op) }

  /** An outcome leaves no stop; a stop carries the entry's cause; a cause comes from a stop or an outcome. */
  ghost predicate Sound(entries: Entries) {
    forall id :: id in entries ==>
      && entries[id].jobId == id
      && (entries[id].outcome.Some? ==> entries[id].stop.None?)
      && (entries[id].stop.Some? ==> entries[id].cause == Some(entries[id].stop.value.cause))
      && (entries[id].cause.Some? ==> entries[id].stop.Some? || entries[id].outcome.Some?)
  }

  lemma ApplyKeepsSound(entries: Entries, op: StoreOp)
    requires Sound(entries) && Fresh(op)
    ensures Sound(Apply(entries, op))
  {
  }

  lemma {:induction false} EveryRunIsSound(entries: Entries, ops: seq<StoreOp>)
    requires Sound(entries) && AllFresh(ops)
    ensures Sound(Run(entries, ops))
    decreases |ops|
  {
    if ops != [] {
      ApplyKeepsSound(entries, ops[0]);
      EveryRunIsSound(Apply(entries, ops[0]), ops[1..]);
    }
  }

  /** What an entry may become while it stays in the store. */
  ghost predicate Follows(a: Entry, b: Entry) {
    && a.jobId == b.jobId && a.submitterSid == b.submitterSid
    && a.definition == b.definition && a.createdAtNs == b.createdAtNs
    && (a.outcome.Some? ==> b.outcome == a.outcome && b.stop.None?)
    && (a.cause.Some? ==> b.cause == a.cause)
    && (a.stop.Some? && b.outcome.None? ==>
          && b.stop.Some? && b.stop.value.cause == a.stop.value.cause
          && b.stop.value.requestedAtNs == a.stop.value.requestedAtNs
          && (a.stop.value.phase.Killed? ==> b.stop.value.phase.Killed?))
  }

  lemma ApplyFollows(entries: Entries, op: StoreOp, id: JobId)
    requires Sound(entries) && Fresh(op) && id in entries && id in Apply(entries, op)
    ensures Follows(entries[id], Apply(entries, op)[id])
  {
  }

  /** The job is in the store before and after each of the operations. */
  predicate Stays(entries: Entries, ops: seq<StoreOp>, id: JobId)
    decreases |ops|
  {
    id in entries && (ops == [] || Stays(Apply(entries, ops[0]), ops[1..], id))
  }

  /** Over any run an entry keeps its outcome once it has one, its cause once it has one, and a stop only moves on. */
  lemma {:induction false} EveryRunFollows(entries: Entries, ops: seq<StoreOp>, id: JobId)
    requires Sound(entries) && AllFresh(ops) && Stays(entries, ops, id)
    ensures id in Run(entries, ops) && Follows(entries[id], Run(entries, ops)[id])
    decreases |ops|
  {
    if ops != [] {
      hide Apply, Sound;
      var next := Apply(entries, ops[0]);
      ApplyKeepsSound(entries, ops[0]);
      assert id in next;
      ApplyFollows(entries, ops[0], id);
      EveryRunFollows(next, ops[1..], id);
      assert Sound(next);
      FollowsOutcome(next, id);
    } else {
      FollowsOutcome(entries, id);
    }
  }

  lemma FollowsOutcome(entries: Entries, id: JobId)
    requires Sound(entries) && id in entries
    ensures entries[id].outcome.Some? ==> entries[id].stop.None?
  {
  }

  /** How often a stop of `id` takes effect in a run. */
  function StopsTaken(entries: Entries, ops: seq<StoreOp>, id: JobId): nat
    decreases |ops|
  {
    if ops == [] then 0 else
      (if ops[0].BeginStop? && ops[0].id == id && BeginsStop(entries, id) then 1 else 0) +
      StopsTaken(Apply(entries, ops[0]), ops[1..], id)
  }

  /** A stop takes effect at most once while the job stays, and never on a job already stopping or ended. */
  lemma {:induction false} StopTakesEffectOnce(entries: Entries, ops: seq<StoreOp>, id: JobId)
    requires Sound(entries) && AllFresh(ops) && Stays(entries, ops, id)
    ensures StopsTaken(entries, ops, id) <= if BeginsStop(entries, id) then 1 else 0
    decreases |ops|
  {
    if ops != [] {
      ApplyKeepsSound(entries, ops[0]);
      StopTakesEffectOnce(Apply(entries, ops[0]), ops[1..], id);
      hide Sound;
      ApplyFollows(entries, ops[0], id);
    }
  }

  /** A purge takes exactly the expired entries; nothing else but `remove` takes any. */
  lemma LeavesByPurge(entries: Entries, op: StoreOp, id: JobId)
    requires id in entries && !op.Remove?
    ensures id !in Apply(entries, op) <==> op.PurgeRetainedUntil? && HasExpired(entries[id], op.nowNs)
    ensures op.PurgeRetainedUntil? && id in Apply(entries, op) ==> Apply(entries, op)[id] == entries[id]
  {
  }

  /** In any run without `remove` a job that is gone at the end stayed until
      a purge found it ended, past its retention and with its cgroup clean. */
  lemma {:induction false} LeavesOnlyWhenExpired(entries: Entries, ops: seq<StoreOp>, id: JobId) returns (k: nat)
    requires id in entries && id !in Run(entries, ops) && forall op :: op in ops ==> !op.Remove?
    ensures k < |ops| && Stays(entries, ops[..k], id) && id !in Run(entries, ops[..k + 1])
    ensures id in Run(entries, ops[..k])
    ensures ops[k].PurgeRetainedUntil? && HasExpired(Run(entries, ops[..k])[id], ops[k].nowNs)
    decreases |ops|
  {
    hide Apply, HasExpired;
    var next := Apply(entries, ops[0]);
    if id in next {
      k := LeavesOnlyWhenExpired(next, ops[1..], id);
      assert ops[..k + 1][1..] == ops[1..][..k] && ops[..k + 2][1..] == ops[1..][..k + 1];
      k := k + 1;
    } else {
      LeavesByPurge(entries, ops[0], id);
      assert ops[..1] == [ops[0]];
      k := 0;
    }
  }

  lemma EndedByItsEvent(entries: Entries, op: StoreOp, id: JobId)
    requires id in entries && IsLive(entries[id])
    requires id in Apply(entries, op) && !IsLive(Apply(entries, op)[id])
    ensures op.RecordTerminal? && op.event.job.id == id && op.event.detail.WasEnded?
    ensures Apply(entries, op)[id].outcome.value.retainedUntilNs ==
            SaturatingAdd(op.event.detail.endedAtNs, op.retentionNs)
  {
  }

  /** A job that has ended in a run was ended by its own terminal event, which set how long it is retained. */
  lemma {:induction false} EndedInRun(entries: Entries, ops: seq<StoreOp>, id: JobId) returns (i: nat)
    requires Sound(entries) && AllFresh(ops) && Stays(entries, ops, id)
    requires IsLive(entries[id]) && id in Run(entries, ops) && !IsLive(Run(entries, ops)[id])
    ensures i < |ops| && ops[i].RecordTerminal? && ops[i].event.job.id == id && ops[i].event.detail.WasEnded?
    ensures Run(entries, ops)[id].outcome.value.retainedUntilNs ==
            SaturatingAdd(ops[i].event.detail.endedAtNs, ops[i].retentionNs)
    decreases |ops|
  {
    var next := Apply(entries, ops[0]);
    ApplyKeepsSound(entries, ops[0]);
    if IsLive(next[id]) {
      hide Apply, Sound;
      i := EndedInRun(next, ops[1..], id);
      i := i + 1;
    } else {
      EndedByItsEvent(entries, ops[0], id);
      EveryRunFollows(next, ops[1..], id);
      i := 0;
    }
  }

  /** So a live job gone at the end was ended by its event, and purged no sooner than the retention after it. */
  lemma RetainedUntilExpired(entries: Entries, ops: seq<StoreOp>, id: JobId) returns (i: nat, k: nat)
    requires Sound(entries) && AllFresh(ops) && forall op :: op in ops ==> !op.Remove?
    requires id in entries && IsLive(entries[id]) && id !in Run(entries, ops)
    ensures i < k < |ops| && Stays(entries, ops[..k], id) && id !in Run(entries, ops[..k + 1])
    ensures ops[i].RecordTerminal? && ops[i].event.job.id == id && ops[i].event.detail.WasEnded?
    ensures ops[k].PurgeRetainedUntil?
    ensures SaturatingAdd(ops[i].event.detail.endedAtNs, ops[i].retentionNs) <= ops[k].nowNs
  {
    k := LeavesOnlyWhenExpired(entries, ops, id);
    hide Apply, Sound, Run, Stays;
    assert AllFresh(ops[..k]);
    i := EndedInRun(entries, ops[..k], id);
  }

  // ----- the quota -----

  function LiveIds(entries: Entries, sid: string): set<JobId> {
    set id | id in entries && IsLive(entries[id]) && entries[id].submitterSid == sid
  }

  function LiveCountForSubmitter(entries: Entries, sid: string): nat { |LiveIds(entries, sid)| }

  predicate Submits(entries: Entries, op: StoreOp, sid: string) {
    op.Insert? && op.entry.jobId !in entries && op.entry.submitterSid == sid
  }

  predicate EndsFor(entries: Entries, op: StoreOp, sid: string) {
    op.RecordTerminal? && EndsLive(entries, op.event) && entries[op.event.job.id].submitterSid == sid
  }

  function Submissions(entries: Entries, ops: seq<StoreOp>, sid: string): nat
    decreases |ops|
  {
    if ops == [] then 0 else
      (if Submits(entries, ops[0], sid) then 1 else 0) + Submissions(Apply(entries, ops[0]), ops[1..], sid)
  }

  function Endings(entries: Entries, ops: seq<StoreOp>, sid: string): nat
    decreases |ops|
  {
    if ops == [] then 0 else
      (if EndsFor(entries, ops[0], sid) then 1 else 0) + Endings(Apply(entries, ops[0]), ops[1..], sid)
  }

  lemma LiveIdsAfter(entries: Entries, op: StoreOp, sid: string)
    requires Fresh(op) && !op.Remove?
    ensures LiveIds(Apply(entries, op), sid) ==
            if Submits(entries, op, sid) then LiveIds(entries, sid) + {op.entry.jobId}
            else if EndsFor(entries, op, sid) then LiveIds(entries, sid) - {op.event.job.id}
            else LiveIds(entries, sid)
  {
  }

  /** In any run without `remove` a submitter's live jobs are those submitted less those ended. */
  lemma {:induction false} QuotaIsConserved(entries: Entries, ops: seq<StoreOp>, sid: string)
    requires AllFresh(ops) && forall op :: op in ops ==> !op.Remove?
    ensures LiveCountForSubmitter(Run(entries, ops), sid) + Endings(entries, ops, sid) ==
            LiveCountForSubmitter(entries, sid) + Submissions(entries, ops, sid)
    decreases |ops|
  {
    if ops != [] {
      hide Apply;
      LiveIdsAfter(entries, ops[0], sid);
      QuotaIsConserved(Apply(entries, ops[0]), ops[1..], sid);
    }
  }

  // ----- the view -----

  datatype ViewState = ViewState(
    state: JobState, pid: Option<u32>, startedAtNs: Option<u64>, endedAtNs: Option<u64>,
    exitCode: Option<int>, exitSignal: Option<int>)

  datatype JobView = JobView(
    id: JobId, state: ViewState, cause: Option<Cause>, submitterSid: string, ready: Option<bool>, createdAtNs: u64)

  /** The view from the outcome once there is one, and from the record until then. */
  function ViewOf(entry: Entry, record: Option<JobFacts>): Option<JobView> {
    match (entry.outcome, record)
    case (Some(o), _) =>
      var pid := if o.state.Abandoned? then o.pid else None;
      Some(JobView(entry.jobId, ViewState(o.state, pid, o.startedAtNs, Some(o.endedAtNs), o.exitCode, o.exitSignal),
                   entry.cause, entry.submitterSid, entry.ready, entry.createdAtNs))
    case (None, Some(job)) =>
      var state := ViewState(job.state, job.pid, job.startedAtNs, job.endedAtNs, job.exitCode, job.exitSignal);
      Some(JobView(entry.jobId, state, entry.cause, entry.submitterSid, entry.ready, entry.createdAtNs))
    case (None, None) => None
  }

  /** Once a job has run to an end and its terminal event is recorded, the view without the record shows what the view
      with it showed; only the process id of a job that is gone is withheld, and a cause may have been learnt. */
  lemma RetainedOutcomeAgrees(entries: Entries, job: JobFacts, actions: seq<JobAction>, retentionNs: u64)
    requires Sound(entries) && IsNew(job) && job.id in entries && IsLive(entries[job.id])
    requires IsTerminal(Jobs.Run(job, actions).state)
    ensures var last := Jobs.Run(job, actions);
            && EndedEvent(last).Ok?
            && var after := Apply(entries, RecordTerminal(EndedEvent(last).value, retentionNs));
            && job.id in after && after[job.id].outcome.Some?
            && var before, later := ViewOf(entries[job.id], Some(last)).value, ViewOf(after[job.id], None).value;
            && later.state == before.state.(pid := if last.state.Abandoned? then before.state.pid else None)
            && (before.cause.Some? ==> later == before.(state := later.state))
            && later == before.(state := later.state, cause := later.cause)
            && later.state.endedAtNs.Some?
            && (later.state.startedAtNs.Some? ==> later.state.startedAtNs.value <= later.state.endedAtNs.value)
  {
    EventsCanBeMade(job, actions);
    NewIsCoherent(job);
    EveryRunIsCoherent(job, actions);
  }
}
