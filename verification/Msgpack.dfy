/** The MessagePack form of log records, its length calculator and the batch fitter (src/logging/msgpack.rs). */
module Msgpack {
  import opened Collections
  import opened Bytes

  datatype LogRecord = LogRecord(
    origin: seq<byte>, isError: bool, message: seq<byte>, timestampNs: u64, jobId: Option<Uuid>)

  const ORIGIN: seq<byte> := Ascii("origin")
  const IS_ERROR: seq<byte> := Ascii("is_error")
  const MESSAGE: seq<byte> := Ascii("message")
  const TIMESTAMP: seq<byte> := Ascii("timestamp")
  const JOB_ID: seq<byte> := Ascii("job_id")

  /** A UUID in the mixed-endian layout of a binary GUID: the first three fields reversed. */
  function GuidBytes(id: Uuid): (r: Uuid) {
    [id[3], id[2], id[1], id[0], id[5], id[4], id[7], id[6]] + id[8..]
  }

  /** The layout is its own inverse, so the identifier can be read back. */
  lemma GuidBytesTwice(id: Uuid)
    ensures GuidBytes(GuidBytes(id)) == id
  {
    var guid := GuidBytes(id);
    assert guid[8..] == id[8..];
    assert id == [id[0], id[1], id[2], id[3], id[4], id[5], id[6], id[7]] + id[8..];
  }

  /** Its first three fields, read little-endian, are the identifier's, read big-endian; the rest is as it was. */
  lemma GuidFields(id: Uuid)
    ensures FromLittleEndian(GuidBytes(id)[..4]) == FromBigEndian(id[..4])
    ensures FromLittleEndian(GuidBytes(id)[4..6]) == FromBigEndian(id[4..6])
    ensures FromLittleEndian(GuidBytes(id)[6..8]) == FromBigEndian(id[6..8])
    ensures GuidBytes(id)[8..] == id[8..]
  {
    var guid := GuidBytes(id);
    assert guid[..4] == [id[3], id[2], id[1], id[0]] && id[..4] == [id[0], id[1], id[2], id[3]];
    assert guid[4..6] == [id[5], id[4]] && id[4..6] == [id[4], id[5]];
    assert guid[6..8] == [id[7], id[6]] && id[6..8] == [id[6], id[7]];
    FieldReads([id[0], id[1], id[2], id[3]], [id[3], id[2], id[1], id[0]]);
    FieldReads([id[4], id[5]], [id[5], id[4]]);
    FieldReads([id[6], id[7]], [id[7], id[6]]);
  }

  /** Reversed bytes read from the other end. */
  lemma {:induction false} FieldReads(field: seq<byte>, reversed: seq<byte>)
    requires |reversed| == |field| && forall i :: 0 <= i < |field| ==> reversed[i] == field[|field| - 1 - i]
    ensures FromLittleEndian(reversed) == FromBigEndian(field)
  {
    if field != [] {
      FieldReads(field[..|field| - 1], reversed[1..]);
    }
  }

  // ----- the writers: the bytes each appends -----

  function ArrayHeader(len: nat): seq<byte> {
    if len <= 15 then [0x90 + len]
    else if len <= 0xffff then [0xdc] + BigEndian(len, 2)
    else [0xdd] + BigEndian(len, 4)
  }

  function StrHeader(len: nat): seq<byte> {
    if len <= 31 then [0xa0 + len]
    else if len <= 0xff then [0xd9, len]
    else if len <= 0xffff then [0xda] + BigEndian(len, 2)
    else [0xdb] + BigEndian(len, 4)
  }

  function BinHeader(len: nat): seq<byte> {
    if len <= 0xff then [0xc4, len]
    else if len <= 0xffff then [0xc5] + BigEndian(len, 2)
    else [0xc6] + BigEndian(len, 4)
  }

  function WriteStr(bytes: seq<byte>): seq<byte> { StrHeader(|bytes|) + bytes }

  function WriteBin(bytes: seq<byte>): seq<byte> { BinHeader(|bytes|) + bytes }

  function WriteBool(value: bool): seq<byte> { [if value then 0xc3 else 0xc2] }

  function WriteU64(value: u64): seq<byte> {
    if value <= 0x7f then [value]
    else if value <= 0xff then [0xcc, value]
    else if value <= 0xffff then [0xcd] + BigEndian(value, 2)
    else if value <= 0xffff_ffff then [0xce] + BigEndian(value, 4)
    else [0xcf] + BigEndian(value, 8)
  }

  /** The keys and values of a record's map, each as it is written. */
  function RecordParts(record: LogRecord): seq<seq<byte>> {
    [WriteStr(ORIGIN), WriteStr(record.origin), WriteStr(IS_ERROR), WriteBool(record.isError),
     WriteStr(MESSAGE), WriteStr(record.message), WriteStr(TIMESTAMP), WriteU64(record.timestampNs)] +
    match record.jobId
    case Some(id) => [WriteStr(JOB_ID), WriteBin(GuidBytes(id))]
    case None => []
  }

  function Concat(parts: seq<seq<byte>>): seq<byte> {
    if parts == [] then [] else parts[0] + Concat(parts[1..])
  }

  function EncodeRecord(record: LogRecord): seq<byte> {
    [0x80 + if record.jobId.Some? then 5 else 4] + Concat(RecordParts(record))
  }

  function EncodedRecords(records: seq<LogRecord>): seq<seq<byte>> {
    seq(|records|, i requires 0 <= i < |records| => EncodeRecord(records[i]))
  }

  /** One datagram: a MessagePack array of records. */
  function EncodeBatch(records: seq<LogRecord>): seq<byte> {
    ArrayHeader(|records|) + Concat(EncodedRecords(records))
  }

  // ----- the length calculator -----

  function ArrayHeaderLen(len: nat): nat {
    if len <= 15 then 1 else if len <= 0xffff then 3 else 5
  }

  function EncodedStrLen(len: nat): nat {
    len + if len <= 31 then 1 else if len <= 0xff then 2 else if len <= 0xffff then 3 else 5
  }

  function EncodedBinLen(len: nat): nat {
    len + if len <= 0xff then 2 else if len <= 0xffff then 3 else 5
  }

  function EncodedU64Len(value: u64): nat {
    if value <= 0x7f then 1 else if value <= 0xff then 2 else if value <= 0xffff then 3
    else if value <= 0xffff_ffff then 5 else 9
  }

  function EncodedRecordLen(record: LogRecord): nat {
    1 + EncodedStrLen(|ORIGIN|) + EncodedStrLen(|record.origin|) + EncodedStrLen(|IS_ERROR|) + 1
    + EncodedStrLen(|MESSAGE|) + EncodedStrLen(|record.message|) + EncodedStrLen(|TIMESTAMP|)
    + EncodedU64Len(record.timestampNs)
    + match record.jobId
      case Some(id) => EncodedStrLen(|JOB_ID|) + EncodedBinLen(|id|)
      case None => 0
  }

  function PayloadLen(records: seq<LogRecord>): nat {
    if records == [] then 0 else PayloadLen(records[..|records| - 1]) + EncodedRecordLen(records[|records| - 1])
  }

  function EncodedBatchLen(records: seq<LogRecord>): nat {
    ArrayHeaderLen(|records|) + PayloadLen(records)
  }

  function TotalLen(parts: seq<seq<byte>>): nat {
    if parts == [] then 0 else |parts[0]| + TotalLen(parts[1..])
  }

  lemma {:induction false} ConcatLen(parts: seq<seq<byte>>)
    ensures |Concat(parts)| == TotalLen(parts)
  {
    if parts != [] {
      ConcatLen(parts[1..]);
    }
  }

  lemma {:induction false} ConcatAppend(parts: seq<seq<byte>>, more: seq<byte>)
    ensures Concat(parts + [more]) == Concat(parts) + more
  {
    if parts == [] {
      assert parts + [more] == [more] && [more][1..] == [];
    } else {
      ConcatAppend(parts[1..], more);
      assert (parts + [more])[1..] == parts[1..] + [more];
    }
  }

  lemma StrLenIsExact(bytes: seq<byte>)
    ensures |WriteStr(bytes)| == EncodedStrLen(|bytes|)
  {
  }

  lemma U64LenIsExact(value: u64)
    ensures |WriteU64(value)| == EncodedU64Len(value)
  {
  }

  lemma BinLenIsExact(bytes: seq<byte>)
    ensures |WriteBin(bytes)| == EncodedBinLen(|bytes|)
  {
  }

  /** The length calculator says exactly how many bytes a record is written in. */
  lemma RecordLenIsExact(record: LogRecord)
    ensures |EncodeRecord(record)| == EncodedRecordLen(record)
  {
    hide WriteStr, EncodedStrLen, WriteU64, EncodedU64Len, WriteBin, EncodedBinLen, GuidBytes, Concat, Ascii;
    StrLenIsExact(ORIGIN);
    StrLenIsExact(record.origin);
    StrLenIsExact(IS_ERROR);
    StrLenIsExact(MESSAGE);
    StrLenIsExact(record.message);
    StrLenIsExact(TIMESTAMP);
    U64LenIsExact(record.timestampNs);
    var parts := RecordParts(record);
    ConcatLen(parts);
    TotalOfRest(parts, 8);
    TotalOfEight(parts[..8]);
    match record.jobId {
      case Some(id) =>
        StrLenIsExact(JOB_ID);
        BinLenIsExact(GuidBytes(id));
        var bin: seq<byte> := WriteBin(GuidBytes(id));
        assert parts[8..] == [WriteStr(JOB_ID), bin] && parts[8..][1..] == [bin];
        assert TotalLen([bin]) == |bin|;
        assert TotalLen(parts[8..]) == |WriteStr(JOB_ID)| + TotalLen([bin]);
        assert |GuidBytes(id)| == |id|;
      case None =>
        assert parts[8..] == [];
    }
  }

  lemma {:induction false} TotalOfRest(parts: seq<seq<byte>>, n: nat)
    requires n <= |parts|
    ensures TotalLen(parts) == TotalLen(parts[..n]) + TotalLen(parts[n..])
  {
    if n > 0 {
      TotalOfRest(parts[1..], n - 1);
      assert parts[..n][1..] == parts[1..][..n - 1] && parts[n..] == parts[1..][n - 1..];
    } else {
      assert parts[..0] == [] && parts[0..] == parts;
    }
  }

  lemma TotalOfEight(p: seq<seq<byte>>)
    requires |p| == 8
    ensures TotalLen(p) == |p[0]| + |p[1]| + |p[2]| + |p[3]| + |p[4]| + |p[5]| + |p[6]| + |p[7]|
  {
    assert TotalLen(p[8..]) == 0;
    assert p[7..][1..] == p[8..] && p[6..][1..] == p[7..] && p[5..][1..] == p[6..] && p[4..][1..] == p[5..];
    assert p[3..][1..] == p[4..] && p[2..][1..] == p[3..] && p[1..][1..] == p[2..] && p[0..] == p;
    assert TotalLen(p[7..]) == |p[7]| + TotalLen(p[8..]);
    assert TotalLen(p[6..]) == |p[6]| + TotalLen(p[7..]);
    assert TotalLen(p[5..]) == |p[5]| + TotalLen(p[6..]);
    assert TotalLen(p[4..]) == |p[4]| + TotalLen(p[5..]);
    assert TotalLen(p[3..]) == |p[3]| + TotalLen(p[4..]);
    assert TotalLen(p[2..]) == |p[2]| + TotalLen(p[3..]);
    assert TotalLen(p[1..]) == |p[1]| + TotalLen(p[2..]);
  }

  /** So does the batch's. */
  lemma {:induction false} BatchLenIsExact(records: seq<LogRecord>)
    ensures |EncodeBatch(records)| == EncodedBatchLen(records)
  {
    hide Concat, EncodedRecords, PayloadLen;
    PayloadLenIsExact(records);
  }

  lemma EncodedOneMore(records: seq<LogRecord>)
    requires records != []
    ensures EncodedRecords(records) ==
            EncodedRecords(records[..|records| - 1]) + [EncodeRecord(records[|records| - 1])]
  {
    hide EncodeRecord;
  }

  lemma {:induction false} PayloadLenIsExact(records: seq<LogRecord>)
    ensures |Concat(EncodedRecords(records))| == PayloadLen(records)
  {
    assert EncodedRecords([]) == [];
    hide EncodeRecord, EncodedRecordLen, Concat, EncodedRecords;
    if records == [] {
      EmptyConcat();
    } else {
      var init, last := records[..|records| - 1], records[|records| - 1];
      PayloadLenIsExact(init);
      EncodedOneMore(records);
      ConcatAppend(EncodedRecords(init), EncodeRecord(last));
      RecordLenIsExact(last);
    }
  }

  /** Write the header and then each record after it. */
  method EncodeRecordsInto(records: seq<LogRecord>) returns (out: seq<byte>)
    ensures out == EncodeBatch(records) && |out| == EncodedBatchLen(records)
  {
    hide EncodeRecord, Concat, EncodedBatchLen;
    out := ArrayHeader(|records|);
    assert EncodedRecords(records[..0]) == [];
    EmptyConcat();
    for i := 0 to |records|
      invariant out == ArrayHeader(|records|) + Concat(EncodedRecords(records[..i]))
    {
      assert EncodedRecords(records[..i + 1]) == EncodedRecords(records[..i]) + [EncodeRecord(records[i])];
      ConcatAppend(EncodedRecords(records[..i]), EncodeRecord(records[i]));
      out := out + EncodeRecord(records[i]);
    }
    assert records[..|records|] == records;
    BatchLenIsExact(records);
  }

  lemma EmptyConcat()
    ensures Concat([]) == []
  {
  }

  // ----- the batch fitter -----

  ghost predicate Fits(records: seq<LogRecord>, n: nat, max: nat)
    requires n <= |records|
  {
    |EncodeBatch(records[..n])| <= max
  }

  lemma {:induction false} PayloadGrows(records: seq<LogRecord>, n: nat, m: nat)
    requires n <= m <= |records|
    ensures PayloadLen(records[..n]) <= PayloadLen(records[..m])
    decreases m
  {
    if n < m {
      PayloadGrows(records, n, m - 1);
      assert records[..m][..m - 1] == records[..m - 1];
    }
  }

  lemma LongerBatchesAreLarger(records: seq<LogRecord>, n: nat, m: nat)
    requires n <= m <= |records|
    ensures |EncodeBatch(records[..n])| <= |EncodeBatch(records[..m])|
  {
    hide EncodeBatch, PayloadLen;
    BatchLenIsExact(records[..n]);
    BatchLenIsExact(records[..m]);
    PayloadGrows(records, n, m);
  }

  /** The longest prefix whose datagram fits; none when there is no record or the first alone does not fit. */
  method BatchPrefixLen(records: seq<LogRecord>, maxDatagramBytes: nat) returns (accepted: nat)
    requires maxDatagramBytes <= U64_MAX
    ensures accepted <= |records|
    ensures maxDatagramBytes < U64_MAX ==>
              && (accepted > 0 ==> Fits(records, accepted, maxDatagramBytes))
              && (forall m :: accepted < m <= |records| ==> !Fits(records, m, maxDatagramBytes))
              && (accepted == 0 <==> records == [] || !Fits(records, 1, maxDatagramBytes))
    ensures maxDatagramBytes == U64_MAX ==> accepted == |records|
  {
    hide EncodeBatch, PayloadLen, EncodedRecordLen;
    var payload := 0;
    accepted := 0;
    assert records[..0] == [];
    EmptyPayload();
    while accepted < |records|
      invariant accepted <= |records|
      invariant payload == Min(PayloadLen(records[..accepted]), U64_MAX)
      invariant maxDatagramBytes < U64_MAX && accepted > 0 ==> Fits(records, accepted, maxDatagramBytes)
    {
      var count := accepted + 1;
      PayloadOneMore(records, accepted);
      payload := SaturatingAdd(payload, EncodedRecordLen(records[accepted]));
      BatchLenIsExact(records[..count]);
      if SaturatingAdd(ArrayHeaderLen(count), payload) > maxDatagramBytes {
        break;
      }
      accepted := count;
    }
    if maxDatagramBytes < U64_MAX {
      forall m | accepted < m <= |records| ensures !Fits(records, m, maxDatagramBytes) {
        LongerBatchesAreLarger(records, accepted + 1, m);
      }
      if accepted > 0 {
        LongerBatchesAreLarger(records, 1, accepted);
      }
    }
  }

  lemma EmptyPayload()
    ensures PayloadLen([]) == 0
  {
  }

  lemma PayloadOneMore(records: seq<LogRecord>, n: nat)
    requires n < |records|
    ensures PayloadLen(records[..n + 1]) == PayloadLen(records[..n]) + EncodedRecordLen(records[n])
  {
    assert records[..n + 1][..n] == records[..n];
  }
}
