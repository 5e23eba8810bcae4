/** The byte-bounded queue of records kept until eventd takes them (src/logging/buffer.rs). */
module LogBuffer {
  import opened Collections
  import opened Bytes
  import opened Msgpack

  function EstimatedBytes(record: LogRecord): nat {
    |record.origin| + |record.message| + 8 + (if record.jobId.Some? then 16 else 0) + 32
  }

  /** What a record is taken to cost: forty bytes, its origin and message, and sixteen for a job. */
  lemma EstimateCounts(record: LogRecord, origin: seq<byte>, message: seq<byte>, job: Uuid)
    ensures EstimatedBytes(LogRecord([], record.isError, [], record.timestampNs, None)) == 40
    ensures EstimatedBytes(record.(origin := origin)) + |record.origin| == EstimatedBytes(record) + |origin|
    ensures EstimatedBytes(record.(message := message)) + |record.message| == EstimatedBytes(record) + |message|
    ensures EstimatedBytes(record.(jobId := Some(job))) == EstimatedBytes(record.(jobId := None)) + 16
  {
  }

  function TotalBytes(records: seq<LogRecord>): nat {
    if records == [] then 0 else EstimatedBytes(records[0]) + TotalBytes(records[1..])
  }

  /** What is left after dropping from the front until the rest fits. */
  function Fitting(records: seq<LogRecord>, capacity: nat): seq<LogRecord> {
    if TotalBytes(records) <= capacity then records else Fitting(records[1..], capacity)
  }

  ghost predicate IsSuffix(a: seq<LogRecord>, b: seq<LogRecord>) {
    |a| <= |b| && a == b[|b| - |a|..]
  }

  lemma {:induction false} FittingIsSuffix(records: seq<LogRecord>, capacity: nat)
    ensures IsSuffix(Fitting(records, capacity), records)
    ensures TotalBytes(Fitting(records, capacity)) <= capacity
    decreases |records|
  {
    if TotalBytes(records) > capacity {
      FittingIsSuffix(records[1..], capacity);
      SuffixOfRest(Fitting(records[1..], capacity), records);
    }
  }

  lemma SuffixOfRest(a: seq<LogRecord>, b: seq<LogRecord>)
    requires b != [] && IsSuffix(a, b[1..])
    ensures IsSuffix(a, b)
  {
    assert b[1..][|b| - 1 - |a|..] == b[|b| - |a|..];
  }

  lemma SuffixOfSuffix(a: seq<LogRecord>, b: seq<LogRecord>, c: seq<LogRecord>)
    requires IsSuffix(a, b) && IsSuffix(b, c)
    ensures IsSuffix(a, c)
  {
    assert c[|c| - |b|..][|b| - |a|..] == c[|c| - |a|..];
  }

  lemma {:induction false} SuffixesAreSmaller(records: seq<LogRecord>, n: nat, m: nat)
    requires n <= m <= |records|
    ensures TotalBytes(records[m..]) <= TotalBytes(records[n..])
    decreases m - n
  {
    if n < m {
      SuffixesAreSmaller(records, n + 1, m);
      assert records[n..][1..] == records[n + 1..];
    }
  }

  /** No longer suffix fits. */
  lemma {:induction false} FittingIsLongest(records: seq<LogRecord>, capacity: nat, n: nat)
    requires n <= |records| && TotalBytes(records[n..]) <= capacity
    ensures |records| - n <= |Fitting(records, capacity)|
    decreases |records|
  {
    if TotalBytes(records) > capacity {
      assert n > 0 by {
        assert records[0..] == records;
      }
      assert records[n..] == records[1..][n - 1..];
      FittingIsLongest(records[1..], capacity, n - 1);
    }
  }

  /** What a push leaves. */
  function Pushed(records: seq<LogRecord>, record: LogRecord, capacity: nat): seq<LogRecord> {
    if EstimatedBytes(record) > capacity then records
    else Fitting(records, capacity - EstimatedBytes(record)) + [record]
  }

  datatype Buffered = Buffered(record: LogRecord, sizeBytes: nat)

  function RecordsOf(queue: seq<Buffered>): seq<LogRecord> {
    seq(|queue|, i requires 0 <= i < |queue| => queue[i].record)
  }

  ghost predicate SizesHold(queue: seq<Buffered>) {
    forall i :: 0 <= i < |queue| ==> queue[i].sizeBytes == EstimatedBytes(queue[i].record)
  }

  /** While too much is held there is a record to drop, and its size is part of the total. */
  lemma DropFront(queue: seq<Buffered>, limit: nat)
    requires SizesHold(queue) && TotalBytes(RecordsOf(queue)) > limit
    ensures queue != [] && SizesHold(queue[1..])
    ensures TotalBytes(RecordsOf(queue)) == queue[0].sizeBytes + TotalBytes(RecordsOf(queue[1..]))
    ensures Fitting(RecordsOf(queue[1..]), limit) == Fitting(RecordsOf(queue), limit)
  {
    assert RecordsOf(queue)[1..] == RecordsOf(queue[1..]);
  }

  class PreEventdLogBuffer {
    var capacityBytes: nat
    var usedBytes: nat
    var queue: seq<Buffered>

    ghost predicate Valid()
      reads this
    {
      && SizesHold(queue)
      && usedBytes == TotalBytes(RecordsOf(queue))
      && usedBytes <= capacityBytes
    }

    constructor (capacityBytes: nat)
      ensures Valid() && RecordsOf(queue) == [] && this.capacityBytes == capacityBytes
    {
      this.capacityBytes, usedBytes, queue := capacityBytes, 0, [];
    }

    /** Drop records from the front until at most `limit` bytes are used; the queue never runs out first. */
    method Evict(limit: nat)
      requires usedBytes == TotalBytes(RecordsOf(queue)) && SizesHold(queue)
      modifies this`usedBytes, this`queue
      ensures RecordsOf(queue) == Fitting(old(RecordsOf(queue)), limit)
      ensures usedBytes == TotalBytes(RecordsOf(queue)) <= limit && SizesHold(queue)
    {
      while usedBytes > limit
        invariant usedBytes == TotalBytes(RecordsOf(queue)) && SizesHold(queue)
        invariant Fitting(RecordsOf(queue), limit) == Fitting(old(RecordsOf(queue)), limit)
        decreases |queue|
      {
        hide *;
        DropFront(queue, limit);
        var removed := queue[0];
        queue := queue[1..];
        usedBytes := usedBytes - removed.sizeBytes;
      }
    }

    method Push(record: LogRecord)
      requires Valid()
      modifies this
      ensures Valid() && capacityBytes == old(capacityBytes)
      ensures RecordsOf(queue) == Pushed(old(RecordsOf(queue)), record, capacityBytes)
    {
      hide Fitting, TotalBytes;
      var sizeBytes := EstimatedBytes(record);
      if sizeBytes > capacityBytes {
        return;
      }
      Evict(capacityBytes - sizeBytes);
      ghost var kept := RecordsOf(queue);
      TotalOfAppend(kept, record);
      usedBytes := usedBytes + sizeBytes;
      queue := queue + [Buffered(record, sizeBytes)];
      assert RecordsOf(queue) == kept + [record];
    }

    method SetCapacityBytes(capacityBytes: nat)
      requires Valid()
      modifies this
      ensures Valid() && this.capacityBytes == capacityBytes
      ensures RecordsOf(queue) == Fitting(old(RecordsOf(queue)), capacityBytes)
    {
      this.capacityBytes := capacityBytes;
      Evict(capacityBytes);
    }

    method Clear()
      requires Valid()
      modifies this
      ensures Valid() && capacityBytes == old(capacityBytes) && RecordsOf(queue) == []
    {
      queue := [];
      usedBytes := 0;
    }

    method PopFront() returns (r: Option<LogRecord>)
      requires Valid()
      modifies this
      ensures Valid() && capacityBytes == old(capacityBytes)
      ensures old(RecordsOf(queue)) == [] ==> r.None? && RecordsOf(queue) == []
      ensures old(RecordsOf(queue)) != [] ==>
                r == Some(old(RecordsOf(queue))[0]) && RecordsOf(queue) == old(RecordsOf(queue))[1..]
    {
      if queue == [] {
        return None;
      }
      var removed := queue[0];
      assert RecordsOf(queue)[1..] == RecordsOf(queue[1..]);
      queue := queue[1..];
      usedBytes := usedBytes - removed.sizeBytes;
      r := Some(removed.record);
    }

    method DiscardFront(count: nat)
      requires Valid()
      modifies this
      ensures Valid() && capacityBytes == old(capacityBytes)
      ensures RecordsOf(queue) == old(RecordsOf(queue))[Min(count, |old(RecordsOf(queue))|)..]
    {
      var i := 0;
      while i < count
        invariant 0 <= i <= count && Valid() && capacityBytes == old(capacityBytes)
        invariant RecordsOf(queue) == old(RecordsOf(queue))[Min(i, |old(RecordsOf(queue))|)..]
      {
        var popped := PopFront();
        if popped.None? {
          return;
        }
        i := i + 1;
      }
    }
  }

  lemma {:induction false} TotalOfAppend(records: seq<LogRecord>, record: LogRecord)
    ensures TotalBytes(records + [record]) == TotalBytes(records) + EstimatedBytes(record)
  {
    if records == [] {
      assert records + [record] == [record] && [record][1..] == [];
    } else {
      TotalOfAppend(records[1..], record);
      assert (records + [record])[1..] == records[1..] + [record];
    }
  }

  // ----- whole runs -----

  datatype BufferOp = Push(record: LogRecord) | SetCapacity(capacity: nat) | Discard(count: nat) | Clear

  datatype BufferState = BufferState(capacity: nat, records: seq<LogRecord>)

  /** What each operation does to the abstract state, as the methods promise. */
  function Apply(state: BufferState, op: BufferOp): BufferState {
    match op
    case Push(record) => state.(records := Pushed(state.records, record, state.capacity))
    case SetCapacity(capacity) => BufferState(capacity, Fitting(state.records, capacity))
    case Discard(count) => state.(records := state.records[Min(count, |state.records|)..])
    case Clear => state.(records := [])
  }

  function Run(state: BufferState, ops: seq<BufferOp>): BufferState {
    if ops == [] then state else Apply(Run(state, ops[..|ops| - 1]), ops[|ops| - 1])
  }

  /** The records pushed that were not larger than the capacity of the moment. */
  function Accepted(state: BufferState, ops: seq<BufferOp>): seq<LogRecord> {
    if ops == [] then state.records else
      var before, op := ops[..|ops| - 1], ops[|ops| - 1];
      if op.Push? && EstimatedBytes(op.record) <= Run(state, before).capacity
      then Accepted(state, before) + [op.record] else Accepted(state, before)
  }

  /** A step keeps what is held a suffix of what was accepted, within the capacity. */
  lemma ApplyKeepsSuffix(state: BufferState, op: BufferOp, accepted: seq<LogRecord>)
    requires IsSuffix(state.records, accepted) && TotalBytes(state.records) <= state.capacity
    ensures var after := Apply(state, op);
            && TotalBytes(after.records) <= after.capacity
            && IsSuffix(after.records, if op.Push? && EstimatedBytes(op.record) <= state.capacity
                                       then accepted + [op.record] else accepted)
  {
    hide Fitting, TotalBytes;
    match op {
      case Push(record) =>
        if EstimatedBytes(record) <= state.capacity {
          var kept := Fitting(state.records, state.capacity - EstimatedBytes(record));
          FittingIsSuffix(state.records, state.capacity - EstimatedBytes(record));
          SuffixOfSuffix(kept, state.records, accepted);
          TotalOfAppend(kept, record);
        }
      case Discard(count) =>
        var n := Min(count, |state.records|);
        SuffixesAreSmaller(state.records, 0, n);
        assert state.records[0..] == state.records;
        SuffixOfSuffix(state.records[n..], state.records, accepted);
      case SetCapacity(capacity) =>
        FittingIsSuffix(state.records, capacity);
        SuffixOfSuffix(Fitting(state.records, capacity), state.records, accepted);
      case Clear =>
        assert TotalBytes([]) == 0 by { NothingIsFree(); }
    }
  }

  lemma NothingIsFree()
    ensures TotalBytes([]) == 0
  {
  }

  /** In every run the buffer holds a suffix of what it accepted, within its capacity. */
  lemma {:induction false} HoldsSuffixOfAccepted(state: BufferState, ops: seq<BufferOp>)
    requires TotalBytes(state.records) <= state.capacity
    ensures IsSuffix(Run(state, ops).records, Accepted(state, ops))
    ensures TotalBytes(Run(state, ops).records) <= Run(state, ops).capacity
  {
    hide Apply, TotalBytes;
    if ops != [] {
      var before, op := ops[..|ops| - 1], ops[|ops| - 1];
      HoldsSuffixOfAccepted(state, before);
      ApplyKeepsSuffix(Run(state, before), op, Accepted(state, before));
    }
  }

  function Pushes(records: seq<LogRecord>): seq<BufferOp> {
    seq(|records|, i requires 0 <= i < |records| => Push(records[i]))
  }

  /** Those of `records` that can be held at all. */
  function Holdable(records: seq<LogRecord>, capacity: nat): seq<LogRecord> {
    Filter(records, (r: LogRecord) => EstimatedBytes(r) <= capacity)
  }

  /** Dropping to fit and then pushing keeps the same suffix as pushing and then dropping to fit. */
  lemma {:induction false} FittingOfAppend(records: seq<LogRecord>, record: LogRecord, capacity: nat)
    requires EstimatedBytes(record) <= capacity
    ensures Fitting(records + [record], capacity) == Fitting(records, capacity - EstimatedBytes(record)) + [record]
    decreases |records|
  {
    TotalOfAppend(records, record);
    if TotalBytes(records) > capacity - EstimatedBytes(record) {
      assert (records + [record])[1..] == records[1..] + [record];
      FittingOfAppend(records[1..], record, capacity);
    }
  }

  lemma {:induction false} FittingTwice(records: seq<LogRecord>, capacity: nat, less: nat)
    requires less <= capacity
    ensures Fitting(Fitting(records, capacity), less) == Fitting(records, less)
    decreases |records|
  {
    if TotalBytes(records) > capacity {
      FittingTwice(records[1..], capacity, less);
    }
  }

  /** Pushes alone leave the longest suffix, of the records that can be held, that fits; larger ones evict nothing. */
  lemma {:induction false} PushesKeepLongestSuffix(capacity: nat, records: seq<LogRecord>)
    ensures Run(BufferState(capacity, []), Pushes(records)) ==
            BufferState(capacity, Fitting(Holdable(records, capacity), capacity))
  {
    hide TotalBytes, Fitting, EstimatedBytes;
    if records == [] {
      NothingIsFree();
      FittingIsSuffix([], capacity);
    } else {
      var init, last := records[..|records| - 1], records[|records| - 1];
      var held := Holdable(init, capacity);
      PushesKeepLongestSuffix(capacity, init);
      assert Pushes(records)[..|records| - 1] == Pushes(init);
      assert records == init + [last];
      FilterAppend(init, last, (r: LogRecord) => EstimatedBytes(r) <= capacity);
      if EstimatedBytes(last) <= capacity {
        FittingTwice(held, capacity, capacity - EstimatedBytes(last));
        FittingOfAppend(held, last, capacity);
      }
    }
  }
}
