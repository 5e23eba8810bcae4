/** The deadlines held against submitted jobs, and the scheduler's two views of them (src/submitted/store.rs). */
module Deadlines {
  import opened Collections
  import opened Jobs
  import opened Submitted

  datatype DeadlineKind = OfTimeout | OfReadiness | StopKill | PostKill | CgroupCleanup

  datatype Deadline = Deadline(jobId: JobId, kind: DeadlineKind, dueAtNs: u64)

  /** The deadlines of one entry, built up in the order the source pushes them. */
  method EntryDeadlines(entry: Entry, startedAtNs: Option<u64>) returns (deadlines: seq<Deadline>)
    ensures deadlines == DeadlinesOf(entry, startedAtNs)
    ensures forall d :: d in deadlines <==> IsDeadlineOf(entry, startedAtNs, d)
  {
    forall d ensures d in DeadlinesOf(entry, startedAtNs) <==> IsDeadlineOf(entry, startedAtNs, d) {
      DeadlineIsThere(entry, startedAtNs, d);
    }
    hide IsDeadlineOf;
    deadlines := [];
    if entry.cgroupCleanupDueAtNs.Some? {
      deadlines := deadlines + [Deadline(entry.jobId, CgroupCleanup, entry.cgroupCleanupDueAtNs.value)];
    }
    if entry.outcome.Some? {
      return;
    }
    if entry.stop.Some? {
      var kind := if entry.stop.value.phase.Terminating? then StopKill else PostKill;
      deadlines := deadlines + [Deadline(entry.jobId, kind, entry.stop.value.dueAtNs)];
      return;
    }
    if startedAtNs.None? {
      return;
    }
    if entry.definition.timeoutSecs > 0 {
      deadlines := deadlines +
        [Deadline(entry.jobId, OfTimeout, SaturatingAdd(startedAtNs.value, Nanos(entry.definition.timeoutSecs)))];
    }
    if entry.definition.notifies && entry.ready == Some(false) {
      deadlines := deadlines +
        [Deadline(entry.jobId, OfReadiness,
          SaturatingAdd(startedAtNs.value, Nanos(entry.definition.readinessTimeoutSecs)))];
    }
  }

  function Only(d: Deadline, holds: bool): seq<Deadline> { if holds then [d] else [] }

  /** Each kind of deadline, and when an entry has it. */
  function DeadlinesOf(entry: Entry, startedAtNs: Option<u64>): seq<Deadline> {
    var undisturbed := entry.outcome.None? && entry.stop.None? && startedAtNs.Some?;
    var from := if startedAtNs.Some? then startedAtNs.value else 0;
    (match entry.cgroupCleanupDueAtNs
     case Some(due) => [Deadline(entry.jobId, CgroupCleanup, due)]
     case None => []) +
    (match entry.stop
     case Some(stop) =>
       var kind := if stop.phase.Terminating? then StopKill else PostKill;
       Only(Deadline(entry.jobId, kind, stop.dueAtNs), entry.outcome.None?)
     case None => []) +
    Only(Deadline(entry.jobId, OfTimeout, SaturatingAdd(from, Nanos(entry.definition.timeoutSecs))),
         undisturbed && entry.definition.timeoutSecs > 0) +
    Only(Deadline(entry.jobId, OfReadiness, SaturatingAdd(from, Nanos(entry.definition.readinessTimeoutSecs))),
         undisturbed && entry.definition.notifies && entry.ready == Some(false))
  }

  /** When a deadline of each kind is held against a job, and when it is due. */
  ghost predicate IsDeadlineOf(entry: Entry, startedAtNs: Option<u64>, d: Deadline) {
    && d.jobId == entry.jobId
    && match d.kind
       case CgroupCleanup => entry.cgroupCleanupDueAtNs == Some(d.dueAtNs)
       case StopKill => entry.outcome.None? && IsStopping(entry, Terminating, d.dueAtNs)
       case PostKill => entry.outcome.None? && IsStopping(entry, Killed, d.dueAtNs)
       case OfTimeout =>
         && entry.outcome.None? && entry.stop.None? && entry.definition.timeoutSecs > 0
         && startedAtNs.Some? && IsSecondsAfter(startedAtNs.value, entry.definition.timeoutSecs, d.dueAtNs)
       case OfReadiness =>
         && entry.outcome.None? && entry.stop.None? && entry.definition.notifies && entry.ready == Some(false)
         && startedAtNs.Some? && IsSecondsAfter(startedAtNs.value, entry.definition.readinessTimeoutSecs, d.dueAtNs)
  }

  ghost predicate IsStopping(entry: Entry, phase: StopPhase, dueAtNs: u64) {
    entry.stop.Some? && entry.stop.value.phase == phase && entry.stop.value.dueAtNs == dueAtNs
  }

  /** A thousand million nanoseconds to the second, kept in 64 bits; the sum is held at the largest number. */
  ghost predicate IsSecondsAfter(fromNs: u64, secs: u64, dueAtNs: u64) {
    var later := fromNs + secs * 1_000_000_000 % 0x1_0000_0000_0000_0000;
    dueAtNs == if later <= 0xffff_ffff_ffff_ffff then later else 0xffff_ffff_ffff_ffff
  }

  lemma DeadlineIsThere(entry: Entry, startedAtNs: Option<u64>, d: Deadline)
    ensures d in DeadlinesOf(entry, startedAtNs) <==> IsDeadlineOf(entry, startedAtNs, d)
  {
    assert forall from: u64, secs: u64 ::
        IsSecondsAfter(from, secs, d.dueAtNs) <==> d.dueAtNs == SaturatingAdd(from, Nanos(secs));
    hide SaturatingAdd, Nanos, IsSecondsAfter;
  }

  /** A job that is stopping or has ended has no run or readiness deadline, and one that has ended only its cleanup. */
  lemma StoppingHasNoTimeout(entry: Entry, startedAtNs: Option<u64>, d: Deadline)
    requires d in DeadlinesOf(entry, startedAtNs)
    ensures d.jobId == entry.jobId
    ensures entry.stop.Some? || entry.outcome.Some? ==> !d.kind.OfTimeout? && !d.kind.OfReadiness?
    ensures entry.outcome.Some? ==> d.kind.CgroupCleanup?
    ensures d.kind.StopKill? || d.kind.PostKill? ==>
              entry.stop.Some? && d.dueAtNs == entry.stop.value.dueAtNs
                && (d.kind.PostKill? <==> entry.stop.value.phase.Killed?)
  {
  }

  /** A stop that begins is to be followed by a kill after the job's stop timeout, and nothing else but its cleanup. */
  lemma StopIsTimed(
    entries: Entries, id: JobId, cause: Cause, nowNs: u64, startedAtNs: Option<u64>, d: Deadline)
    requires id in entries && entries[id].outcome == None && entries[id].stop == None && entries[id].jobId == id
    ensures var after := Apply(entries, BeginStop(id, cause, nowNs));
            && after.Keys == entries.Keys
            && (forall other :: other in entries && other != id ==> after[other] == entries[other])
            && after[id].cause == Some(cause)
            && (d in DeadlinesOf(after[id], startedAtNs) && d.kind != CgroupCleanup <==>
                  && d.jobId == id && d.kind == StopKill
                  && IsSecondsAfter(nowNs, entries[id].definition.stopTimeoutSecs, d.dueAtNs))
  {
    var entry := Apply(entries, BeginStop(id, cause, nowNs))[id];
    DeadlineIsThere(entry, startedAtNs, d);
  }

  /** The kill is to be followed by giving the job up after the timeout given with it. */
  lemma KillIsTimed(
    entries: Entries, id: JobId, nowNs: u64, secs: u64, startedAtNs: Option<u64>, d: Deadline)
    requires id in entries && entries[id].outcome == None && entries[id].stop != None && entries[id].jobId == id
    ensures var after := Apply(entries, RecordKill(id, nowNs, secs));
            && after.Keys == entries.Keys
            && (forall other :: other in entries && other != id ==> after[other] == entries[other])
            && after[id].cause == entries[id].cause
            && (d in DeadlinesOf(after[id], startedAtNs) && d.kind != CgroupCleanup <==>
                  d.jobId == id && d.kind == PostKill && IsSecondsAfter(nowNs, secs, d.dueAtNs))
  {
    var entry := Apply(entries, RecordKill(id, nowNs, secs))[id];
    DeadlineIsThere(entry, startedAtNs, d);
  }

  /** A job that says it is ready loses its readiness deadline and no other. */
  lemma ReadyEndsWait(entries: Entries, id: JobId, startedAtNs: Option<u64>, d: Deadline)
    requires id in entries
    ensures var after := Apply(entries, SetReady(id));
            id in after &&
            (d in DeadlinesOf(after[id], startedAtNs) <==>
               d in DeadlinesOf(entries[id], startedAtNs) && d.kind != OfReadiness)
  {
    DeadlineIsThere(entries[id], startedAtNs, d);
    DeadlineIsThere(Apply(entries, SetReady(id))[id], startedAtNs, d);
  }

  /** Every deadline of the store, entry by entry in the order of their identifiers. */
  function AllDeadlines(entries: Entries, ids: seq<JobId>, startedAt: JobId -> Option<u64>): seq<Deadline>
    requires forall id :: id in ids ==> id in entries
  {
    if ids == [] then []
    else DeadlinesOf(entries[ids[0]], startedAt(ids[0])) + AllDeadlines(entries, ids[1..], startedAt)
  }

  // ----- the order -----

  predicate KeyLess(a: Deadline, b: Deadline) {
    a.dueAtNs < b.dueAtNs || (a.dueAtNs == b.dueAtNs && a.jobId < b.jobId)
  }

  ghost predicate IsSorted(s: seq<Deadline>) {
    forall i, j :: 0 <= i < j < |s| ==> !KeyLess(s[j], s[i])
  }

  /** `d` after everything its key does not precede. */
  function Insert(s: seq<Deadline>, d: Deadline): (r: seq<Deadline>)
    ensures multiset(r) == multiset(s) + multiset{d}
  {
    if s == [] || KeyLess(d, s[0]) then [d] + s else
      assert s == [s[0]] + s[1..];
      [s[0]] + Insert(s[1..], d)
  }

  /** A stable sort by due time and identifier. */
  function Sort(s: seq<Deadline>): (r: seq<Deadline>)
    ensures multiset(r) == multiset(s)
  {
    if s == [] then [] else
      assert s == s[..|s| - 1] + [s[|s| - 1]];
      Insert(Sort(s[..|s| - 1]), s[|s| - 1])
  }

  lemma {:induction false} InsertKeepsSorted(s: seq<Deadline>, d: Deadline)
    requires IsSorted(s)
    ensures IsSorted(Insert(s, d))
  {
    if s != [] && !KeyLess(d, s[0]) {
      InsertKeepsSorted(s[1..], d);
      var rest := Insert(s[1..], d);
      forall j | 0 <= j < |rest| ensures !KeyLess(rest[j], s[0]) {
        assert rest[j] in multiset(rest);
        assert rest[j] in s[1..] || rest[j] == d;
      }
    } else if s != [] {
      assert forall j :: 0 <= j < |s| ==> !KeyLess(s[j], d);
    }
  }

  lemma {:induction false} SortIsSorted(s: seq<Deadline>)
    ensures IsSorted(Sort(s))
  {
    if s != [] {
      SortIsSorted(s[..|s| - 1]);
      InsertKeepsSorted(Sort(s[..|s| - 1]), s[|s| - 1]);
    }
  }

  /** The first of those with the least key, as a minimum by key picks it. */
  function FirstLeast(s: seq<Deadline>): Deadline
    requires s != []
  {
    var last := s[|s| - 1];
    if |s| == 1 then last else
      var least := FirstLeast(s[..|s| - 1]);
      if KeyLess(last, least) then last else least
  }

  lemma {:induction false} HeadIsFirstLeast(s: seq<Deadline>)
    requires s != []
    ensures Sort(s) != [] && Sort(s)[0] == FirstLeast(s)
  {
    if |s| == 1 {
      assert s[..0] == [];
    } else {
      HeadIsFirstLeast(s[..|s| - 1]);
    }
  }

  function Due(s: seq<Deadline>, nowNs: u64): seq<Deadline> {
    Filter(s, (d: Deadline) => d.dueAtNs <= nowNs)
  }

  /** In a sorted list the due ones come first. */
  lemma {:induction false} DueIsPrefix(s: seq<Deadline>, nowNs: u64)
    requires IsSorted(s)
    ensures Due(s, nowNs) <= s
    ensures |Due(s, nowNs)| < |s| ==> s[|Due(s, nowNs)|].dueAtNs > nowNs
  {
    if s != [] {
      if s[0].dueAtNs <= nowNs {
        DueIsPrefix(s[1..], nowNs);
        assert s == [s[0]] + s[1..];
      } else {
        assert forall d :: d in s ==> d.dueAtNs > nowNs;
        FilterNothing(s, (d: Deadline) => d.dueAtNs <= nowNs);
      }
    }
  }

  lemma DueOfCons(d: Deadline, s: seq<Deadline>, nowNs: u64)
    ensures Due([d] + s, nowNs) == if d.dueAtNs <= nowNs then [d] + Due(s, nowNs) else Due(s, nowNs)
  {
    assert ([d] + s)[1..] == s;
  }

  lemma {:induction false} DueOfInsert(s: seq<Deadline>, d: Deadline, nowNs: u64)
    requires IsSorted(s)
    ensures Due(Insert(s, d), nowNs) == if d.dueAtNs <= nowNs then Insert(Due(s, nowNs), d) else Due(s, nowNs)
  {
    hide Due;
    DueIsPrefix(s, nowNs);
    if s == [] || KeyLess(d, s[0]) {
      DueOfCons(d, s, nowNs);
    } else {
      assert s == [s[0]] + s[1..];
      DueOfInsert(s[1..], d, nowNs);
      DueOfCons(s[0], s[1..], nowNs);
      DueOfCons(s[0], Insert(s[1..], d), nowNs);
      DueIsPrefix(s[1..], nowNs);
      assert ([s[0]] + Due(s[1..], nowNs))[1..] == Due(s[1..], nowNs);
    }
  }

  lemma {:induction false} DueGrows(s: seq<Deadline>, t1: u64, t2: u64)
    requires IsSorted(s) && t1 <= t2
    ensures Due(s, t1) <= Due(s, t2)
  {
    if s != [] {
      assert s == [s[0]] + s[1..];
      DueIsPrefix(s, t1);
      hide Due;
      DueGrows(s[1..], t1, t2);
      DueOfCons(s[0], s[1..], t1);
      DueOfCons(s[0], s[1..], t2);
    }
  }

  lemma SortOneMore(s: seq<Deadline>, d: Deadline)
    ensures Sort(s + [d]) == Insert(Sort(s), d)
  {
    assert (s + [d])[..|s|] == s;
  }

  lemma DueOneMore(s: seq<Deadline>, d: Deadline, nowNs: u64)
    ensures Due(s + [d], nowNs) == if d.dueAtNs <= nowNs then Due(s, nowNs) + [d] else Due(s, nowNs)
  {
    FilterAppend(s, d, (x: Deadline) => x.dueAtNs <= nowNs);
  }

  lemma SortNothing(nowNs: u64)
    ensures Sort([]) == [] && Due([], nowNs) == []
  {
  }

  /** Sorting what is due is the due part of the sorted whole. */
  lemma {:induction false} DueOfSort(s: seq<Deadline>, nowNs: u64)
    ensures Sort(Due(s, nowNs)) == Due(Sort(s), nowNs)
  {
    hide Sort, Insert, Due, KeyLess, IsSorted;
    if s == [] {
      SortNothing(nowNs);
    } else {
      var init, last := s[..|s| - 1], s[|s| - 1];
      assert s == init + [last];
      DueOfSort(init, nowNs);
      SortIsSorted(init);
      SortOneMore(init, last);
      DueOfInsert(Sort(init), last, nowNs);
      DueOneMore(init, last, nowNs);
      SortOneMore(Due(init, nowNs), last);
    }
  }

  // ----- the scheduler -----

  function NextDeadline(all: seq<Deadline>): Option<Deadline> {
    if all == [] then None else Some(FirstLeast(all))
  }

  function DueDeadlines(all: seq<Deadline>, nowNs: u64): seq<Deadline> {
    Sort(Due(all, nowNs))
  }

  /** What is due is sorted, is exactly the deadlines that have passed, and grows only at its end as time passes. */
  lemma DueDeadlinesGrow(all: seq<Deadline>, t1: u64, t2: u64)
    requires t1 <= t2
    ensures DueDeadlines(all, t1) <= DueDeadlines(all, t2)
    ensures IsSorted(DueDeadlines(all, t1)) && multiset(DueDeadlines(all, t1)) == multiset(Due(all, t1))
  {
    var sorted := Sort(all);
    SortIsSorted(all);
    DueOfSort(all, t1);
    DueOfSort(all, t2);
    hide Due, Sort;
    DueGrows(sorted, t1, t2);
    SortIsSorted(Due(all, t1));
  }

  /** Something is due exactly when the next deadline is, and the next deadline is then the first of it. */
  lemma NextIsFirstDue(all: seq<Deadline>, nowNs: u64)
    ensures DueDeadlines(all, nowNs) != [] <==> NextDeadline(all).Some? && NextDeadline(all).value.dueAtNs <= nowNs
    ensures DueDeadlines(all, nowNs) != [] ==> NextDeadline(all) == Some(DueDeadlines(all, nowNs)[0])
  {
    var sorted := Sort(all);
    SortIsSorted(all);
    DueOfSort(all, nowNs);
    DueIsPrefix(sorted, nowNs);
    if all == [] {
      assert sorted == [];
    } else {
      HeadIsFirstLeast(all);
    }
  }

  /** The identifiers of the store's entries, in order. */
  ghost predicate InOrder(entries: Entries, ids: seq<JobId>) {
    Elements(ids) == entries.Keys && Ascending(ids)
  }

  lemma {:induction false} AllDeadlinesHold(
    entries: Entries, ids: seq<JobId>, startedAt: JobId -> Option<u64>, d: Deadline)
    requires forall id :: id in ids ==> id in entries
    ensures d in AllDeadlines(entries, ids, startedAt) <==>
            exists id :: id in ids && IsDeadlineOf(entries[id], startedAt(id), d)
  {
    if ids != [] {
      DeadlineIsThere(entries[ids[0]], startedAt(ids[0]), d);
      hide DeadlinesOf, IsDeadlineOf;
      AllDeadlinesHold(entries, ids[1..], startedAt, d);
      assert forall id :: id in ids <==> id == ids[0] || id in ids[1..];
    }
  }

  /** The scheduler on the whole store: what is due at `t1` begins what is due at `t2`, holds exactly the jobs'
      deadlines that have passed, is nonempty exactly when the next deadline has passed, and then begins with it. */
  lemma SchedulerIsConsistent(
    entries: Entries, ids: seq<JobId>, startedAt: JobId -> Option<u64>, t1: u64, t2: u64, d: Deadline)
    requires InOrder(entries, ids) && t1 <= t2
    ensures forall id :: id in ids ==> id in entries
    ensures var all := AllDeadlines(entries, ids, startedAt);
            && DueDeadlines(all, t1) <= DueDeadlines(all, t2)
            && (d in DueDeadlines(all, t1) <==>
                  d.dueAtNs <= t1 && exists id :: id in entries && IsDeadlineOf(entries[id], startedAt(id), d))
            && (DueDeadlines(all, t1) != [] <==> NextDeadline(all).Some? && NextDeadline(all).value.dueAtNs <= t1)
            && (DueDeadlines(all, t1) != [] ==> NextDeadline(all) == Some(DueDeadlines(all, t1)[0]))
  {
    hide DeadlinesOf, IsDeadlineOf, Sort, NextDeadline;
    assert forall id :: id in ids <==> id in entries.Keys;
    var all := AllDeadlines(entries, ids, startedAt);
    hide AllDeadlines;
    DueDeadlinesGrow(all, t1, t2);
    NextIsFirstDue(all, t1);
    AllDeadlinesHold(entries, ids, startedAt, d);
    assert d in DueDeadlines(all, t1) <==> d in multiset(Due(all, t1));
  }
}
