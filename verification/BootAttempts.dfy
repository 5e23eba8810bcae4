/** The persistent count of boot attempts and the decision it latches
    (src/boundary/linux_boot_attempts.rs, src/init/orchestrator.rs). */
module BootAttempts {
  import opened Collections
  import opened CounterText

  /** The counter's file: missing, readable as text, or failing to be read. */
  datatype File = Absent | Text(contents: seq<byte>) | Unreadable

  /** What reading the counter gives: a missing file counts as zero. */
  type Reading = Result<u32, CounterError>

  function ReadFile(file: File): Reading {
    match file
    case Absent => Ok(0)
    case Text(contents) => ParseCounter(contents)
    case Unreadable => Err(ReadFailed)
  }

  /** How a write ends: done, or failed and leaving whatever it leaves. */
  datatype WriteOutcome<+T> = Done | Failed(left: T)

  /** The same, by what is read of what it leaves. */
  function Seen(outcome: WriteOutcome<File>): WriteOutcome<Reading> {
    match outcome
    case Done => Done
    case Failed(left) => Failed(ReadFile(left))
  }

  /** What is read after a write of `value`. */
  function AfterWrite(value: u32, outcome: WriteOutcome<Reading>): Reading {
    match outcome
    case Done => Ok(value)
    case Failed(left) => left
  }

  /** The next count, never wrapping round to a small one; an unreadable count starts again. */
  function NextCount(reading: Reading): u32 {
    match reading
    case Ok(n) => Min(n + 1, U32_MAX)
    case Err(_) => 1
  }

  class BootAttemptCounter {
    var file: File

    constructor (file: File)
      ensures this.file == file
    {
      this.file := file;
    }

    method Read() returns (r: Reading)
      ensures r == ReadFile(file)
    {
      match file {
        case Text(contents) => r := ParseCounter(contents);
        case Absent => r := Ok(0);
        case Unreadable => r := Err(ReadFailed);
      }
    }

    method Write(value: u32, outcome: WriteOutcome<File>) returns (ok: bool)
      modifies this
      ensures ok == outcome.Done?
      ensures file == if ok then Text(Written(value)) else outcome.left
      ensures ReadFile(file) == AfterWrite(value, Seen(outcome))
    {
      match outcome {
        case Done =>
          file := Text(Written(value));
          CounterRoundTrip(value);
          ok := true;
        case Failed(left) =>
          file := left;
          ok := false;
      }
    }

    method Increment(outcome: WriteOutcome<File>) returns (ok: bool)
      modifies this
      ensures ok == outcome.Done?
      ensures ReadFile(file) == AfterWrite(NextCount(ReadFile(old(file))), Seen(outcome))
    {
      hide ParseCounter;
      var current := Read();
      var count := match current case Ok(n) => n case Err(_) => 0;
      ok := Write(Min(count + 1, U32_MAX), outcome);
    }

    method Reset(outcome: WriteOutcome<File>) returns (ok: bool)
      modifies this
      ensures ok == outcome.Done? && ReadFile(file) == AfterWrite(0, Seen(outcome))
    {
      ok := Write(0, outcome);
    }
  }

  // ----- one boot -----

  datatype RecoveryReason =
    | CounterFailed(error: CounterError)
    | ForcedByKernelCommandLine
    | ThresholdReached(counter: u32, threshold: u32)

  datatype Decision = EnterRecovery(reason: RecoveryReason) | Proceed(counted: u32)

  datatype Boot = Boot(recovery: bool, threshold: u32, outcome: WriteOutcome<Reading>)

  function Decide(reading: Reading, boot: Boot): Decision {
    if boot.recovery then EnterRecovery(ForcedByKernelCommandLine)
    else match reading
      case Err(error) => EnterRecovery(CounterFailed(error))
      case Ok(n) =>
        var counter := if boot.outcome.Done? then n else 0;
        if boot.threshold > 0 && counter >= boot.threshold then EnterRecovery(ThresholdReached(counter, boot.threshold))
        else Proceed(counter)
  }

  /** What the next boot reads. */
  function AfterBoot(reading: Reading, boot: Boot): Reading {
    if !boot.recovery && reading.Err? then reading else AfterWrite(NextCount(reading), boot.outcome)
  }

  /** An ordinary boot that cannot read the counter leaves its file as it is. */
  method DecideBoot(platform: BootAttemptCounter, boot: Boot, outcome: WriteOutcome<File>) returns (decision: Decision)
    requires Seen(outcome) == boot.outcome
    modifies platform
    ensures decision == Decide(ReadFile(old(platform.file)), boot)
    ensures ReadFile(platform.file) == AfterBoot(ReadFile(old(platform.file)), boot)
    ensures !boot.recovery && ReadFile(old(platform.file)).Err? ==> platform.file == old(platform.file)
  {
    hide ReadFile;
    var counter: Option<u32>;
    if boot.recovery {
      counter := None;
    } else {
      var read := platform.Read();
      match read {
        case Ok(n) =>
          counter := Some(n);
        case Err(error) =>
          return EnterRecovery(CounterFailed(error));
      }
    }
    var incremented := platform.Increment(outcome);
    if !incremented {
      counter := Some(0);
    }
    if boot.recovery {
      return EnterRecovery(ForcedByKernelCommandLine);
    }
    if boot.threshold > 0 && counter.Some? && counter.value >= boot.threshold {
      return EnterRecovery(ThresholdReached(counter.value, boot.threshold));
    }
    decision := Proceed(UnwrapOr0(counter));
  }

  function UnwrapOr0(counter: Option<u32>): u32 {
    match counter case Some(n) => n case None => 0
  }

  // ----- any number of boots -----

  datatype Event = Booted(boot: Boot) | Confirmed(outcome: WriteOutcome<Reading>)

  function AfterEvent(reading: Reading, event: Event): Reading {
    match event
    case Booted(boot) => AfterBoot(reading, boot)
    case Confirmed(outcome) => AfterWrite(0, outcome)
  }

  function AfterEvents(reading: Reading, events: seq<Event>): Reading {
    if events == [] then reading
    else AfterEvent(AfterEvents(reading, events[..|events| - 1]), events[|events| - 1])
  }

  ghost predicate WritesSucceed(events: seq<Event>) {
    forall i :: 0 <= i < |events| ==> match events[i] case Booted(b) => b.outcome.Done? case Confirmed(o) => o.Done?
  }

  /** The boots since the last confirmed one, `count` having been there at the start. */
  function BootsSince(count: nat, events: seq<Event>): nat {
    if events == [] then count
    else match events[|events| - 1]
      case Booted(_) => BootsSince(count, events[..|events| - 1]) + 1
      case Confirmed(_) => 0
  }

  /** The count is the number of boots since the last reset, held at the largest 32-bit number. */
  lemma {:induction false} CountIsSaturated(count: u32, events: seq<Event>)
    requires WritesSucceed(events)
    ensures AfterEvents(Ok(count), events) == Ok(Min(BootsSince(count, events), U32_MAX))
  {
    if events != [] {
      CountIsSaturated(count, events[..|events| - 1]);
    }
  }

  /** A boot that is not told to recover proceeds when it could not be counted, when there is no threshold, or when
      fewer boots went unconfirmed. */
  predicate ProceedsAt(unconfirmed: nat, boot: Boot) {
    !boot.recovery && (boot.outcome.Failed? || boot.threshold == 0 || unconfirmed < boot.threshold)
  }

  /** That decides the next boot after any history. */
  lemma {:induction false} RecoversWhenThresholdReached(count: u32, events: seq<Event>, boot: Boot)
    requires WritesSucceed(events)
    ensures Decide(AfterEvents(Ok(count), events), boot).Proceed? <==> ProceedsAt(BootsSince(count, events), boot)
  {
    CountIsSaturated(count, events);
  }

  /** A boot that is counted and not told to recover. */
  function Ordinary(threshold: u32): Boot { Boot(false, threshold, Done) }

  function Repeated(boot: Boot, n: nat): seq<Event> { seq(n, _ => Booted(boot)) }

  /** From a count of zero, exactly the first `threshold` unconfirmed boots proceed and all later ones recover. */
  lemma {:induction false} FirstBootsProceed(threshold: u32, earlier: nat)
    requires threshold > 0
    ensures Decide(AfterEvents(Ok(0), Repeated(Ordinary(threshold), earlier)), Ordinary(threshold)).Proceed? <==>
            earlier < threshold
  {
    var boot := Ordinary(threshold);
    RecoversWhenThresholdReached(0, Repeated(boot, earlier), boot);
    CountNeverFalls(0, boot, earlier);
  }

  /** Once the count reaches the threshold, repeating the ordinary boot keeps recovering. */
  lemma {:induction false} LatchHolds(count: u32, threshold: u32, later: nat)
    requires 0 < threshold <= count
    ensures Decide(AfterEvents(Ok(count), Repeated(Ordinary(threshold), later)), Ordinary(threshold)).EnterRecovery?
  {
    var boot := Ordinary(threshold);
    RecoversWhenThresholdReached(count, Repeated(boot, later), boot);
    CountNeverFalls(count, boot, later);
  }

  lemma {:induction false} CountNeverFalls(count: nat, boot: Boot, n: nat)
    ensures BootsSince(count, Repeated(boot, n)) == count + n
  {
    if n > 0 {
      assert Repeated(boot, n)[..n - 1] == Repeated(boot, n - 1);
      CountNeverFalls(count, boot, n - 1);
    }
  }

  /** A count that cannot be read keeps every ordinary boot in recovery and is left as it is. */
  lemma {:induction false} BadCountIsSticky(error: CounterError, boots: seq<Boot>)
    requires forall i :: 0 <= i < |boots| ==> !boots[i].recovery
    ensures AfterEvents(Err(error), seq(|boots|, i requires 0 <= i < |boots| => Booted(boots[i]))) == Err(error)
    ensures forall i :: 0 <= i < |boots| ==> Decide(Err(error), boots[i]) == EnterRecovery(CounterFailed(error))
  {
    var events := seq(|boots|, i requires 0 <= i < |boots| => Booted(boots[i]));
    if boots != [] {
      var init := boots[..|boots| - 1];
      BadCountIsSticky(error, init);
      assert events[..|events| - 1] == seq(|init|, i requires 0 <= i < |init| => Booted(init[i]));
    }
  }

  lemma {:induction false} AfterFirst(reading: Reading, first: Event, events: seq<Event>)
    ensures AfterEvents(reading, [first] + events) == AfterEvents(AfterEvent(reading, first), events)
  {
    if events == [] {
      assert [first] + events == [first] && [first][..0] == [];
    } else {
      var init := events[..|events| - 1];
      AfterFirst(reading, first, init);
      assert ([first] + events)[..|events|] == [first] + init;
    }
  }

  /** A boot told to recover mends the count: it starts again at one, and counts on from there. */
  lemma ForcedRecoveryMendsCount(error: CounterError, boot: Boot, events: seq<Event>)
    requires boot.recovery && boot.outcome.Done? && WritesSucceed(events)
    ensures AfterEvents(Err(error), [Booted(boot)] + events) == Ok(Min(BootsSince(1, events), U32_MAX))
  {
    AfterFirst(Err(error), Booted(boot), events);
    CountIsSaturated(1, events);
  }
}
