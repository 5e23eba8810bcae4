/** A MessagePack reader, and that it recovers every batch of log records. */
module MsgpackDecoder {
  import opened Collections
  import opened Bytes
  import opened Msgpack

  /** A decoded value; a map lists its keys and values in turn. */
  datatype Item =
    | StrItem(bytes: seq<byte>)
    | BoolItem(value: bool)
    | UintItem(n: nat)
    | BinItem(bytes: seq<byte>)
    | ArrayItem(items: seq<Item>)
    | MapItem(items: seq<Item>)

  type Read<T> = Option<(T, seq<byte>)>

  /** A big-endian number of `width` bytes. */
  function ReadNumber(bytes: seq<byte>, width: nat): (r: Read<nat>)
    ensures r.Some? ==> |r.value.1| + width == |bytes|
  {
    if |bytes| < width then None else Some((FromBigEndian(bytes[..width]), bytes[width..]))
  }

  function ReadBytes(n: nat, bytes: seq<byte>): (r: Read<seq<byte>>)
    ensures r.Some? ==> |r.value.1| <= |bytes|
  {
    if |bytes| < n then None else Some((bytes[..n], bytes[n..]))
  }

  /** A length of `width` bytes and that many more. */
  function ReadSized(bytes: seq<byte>, width: nat): (r: Read<seq<byte>>)
    ensures r.Some? ==> |r.value.1| <= |bytes|
  {
    match ReadNumber(bytes, width)
    case None => None
    case Some((n, rest)) => ReadBytes(n, rest)
  }

  function AsStr(r: Read<seq<byte>>): Read<Item> {
    match r case None => None case Some((bytes, rest)) => Some((StrItem(bytes), rest))
  }

  function AsBin(r: Read<seq<byte>>): Read<Item> {
    match r case None => None case Some((bytes, rest)) => Some((BinItem(bytes), rest))
  }

  function AsUint(r: Read<nat>): Read<Item> {
    match r case None => None case Some((n, rest)) => Some((UintItem(n), rest))
  }

  function AsArray(r: Read<seq<Item>>): Read<Item> {
    match r case None => None case Some((items, rest)) => Some((ArrayItem(items), rest))
  }

  function AsMap(r: Read<seq<Item>>): Read<Item> {
    match r case None => None case Some((items, rest)) => Some((MapItem(items), rest))
  }

  /** The value at the head of `bytes`, by its leading byte, and what follows it. */
  function ReadItem(bytes: seq<byte>): (r: Read<Item>)
    ensures r.Some? ==> |r.value.1| < |bytes|
    decreases |bytes|, 0, 0
  {
    if bytes == [] then None else
      var lead, rest := bytes[0], bytes[1..];
      if lead < 0x80 then Some((UintItem(lead), rest))
      else if lead < 0x90 then AsMap(ReadItems(2 * (lead - 0x80), rest))
      else if lead < 0xa0 then AsArray(ReadItems(lead - 0x90, rest))
      else if lead < 0xc0 then AsStr(ReadBytes(lead - 0xa0, rest))
      else if lead == 0xc2 then Some((BoolItem(false), rest))
      else if lead == 0xc3 then Some((BoolItem(true), rest))
      else if lead == 0xc4 then AsBin(ReadSized(rest, 1))
      else if lead == 0xc5 then AsBin(ReadSized(rest, 2))
      else if lead == 0xc6 then AsBin(ReadSized(rest, 4))
      else if lead == 0xcc then AsUint(ReadNumber(rest, 1))
      else if lead == 0xcd then AsUint(ReadNumber(rest, 2))
      else if lead == 0xce then AsUint(ReadNumber(rest, 4))
      else if lead == 0xcf then AsUint(ReadNumber(rest, 8))
      else if lead == 0xd9 then AsStr(ReadSized(rest, 1))
      else if lead == 0xda then AsStr(ReadSized(rest, 2))
      else if lead == 0xdb then AsStr(ReadSized(rest, 4))
      else if lead == 0xdc then AsArray(ReadCounted(rest, 2, 1))
      else if lead == 0xdd then AsArray(ReadCounted(rest, 4, 1))
      else if lead == 0xde then AsMap(ReadCounted(rest, 2, 2))
      else if lead == 0xdf then AsMap(ReadCounted(rest, 4, 2))
      else None
  }

  /** A count of `width` bytes and `each` values for every one counted. */
  function ReadCounted(bytes: seq<byte>, width: nat, each: nat): (r: Read<seq<Item>>)
    ensures r.Some? ==> |r.value.1| <= |bytes|
    decreases |bytes|, 2, 0
  {
    match ReadNumber(bytes, width)
    case None => None
    case Some((n, rest)) => ReadItems(each * n, rest)
  }

  function ReadItems(n: nat, bytes: seq<byte>): (r: Read<seq<Item>>)
    ensures r.Some? ==> |r.value.1| <= |bytes|
    decreases |bytes|, 1, n
  {
    if n == 0 then Some(([], bytes)) else
      match ReadItem(bytes)
      case None => None
      case Some((item, rest)) =>
        match ReadItems(n - 1, rest)
        case None => None
        case Some((items, rest')) => Some(([item] + items, rest'))
  }

  /** `code` reads as `item`, whatever follows it. */
  ghost predicate Reads(code: seq<byte>, item: Item) {
    forall rest :: ReadItem(code + rest) == Some((item, rest))
  }

  lemma {:induction false} ItemsRead(codes: seq<seq<byte>>, items: seq<Item>, rest: seq<byte>)
    requires |codes| == |items| && forall i :: 0 <= i < |codes| ==> Reads(codes[i], items[i])
    ensures ReadItems(|codes|, Concat(codes) + rest) == Some((items, rest))
  {
    if codes == [] {
      assert Concat(codes) + rest == rest;
    } else {
      hide ReadItem;
      var after := Concat(codes[1..]) + rest;
      ItemsRead(codes[1..], items[1..], rest);
      assert Concat(codes) + rest == codes[0] + after;
      assert Reads(codes[0], items[0]);
      assert ReadItem(codes[0] + after) == Some((items[0], after));
      assert items == [items[0]] + items[1..];
    }
  }

  lemma NumberReads(n: nat, width: nat, rest: seq<byte>)
    requires n < Pow256(width)
    ensures ReadNumber(BigEndian(n, width) + rest, width) == Some((n, rest))
  {
    BigEndianRoundTrip(n, width);
    assert (BigEndian(n, width) + rest)[..width] == BigEndian(n, width);
  }

  lemma Powers()
    ensures Pow256(1) == 0x100 && Pow256(2) == 0x1_0000 && Pow256(4) == 0x1_0000_0000
    ensures Pow256(8) == 0x1_0000_0000_0000_0000
  {
    assert Pow256(3) == 0x100_0000;
    assert Pow256(5) == 0x100_0000_0000 && Pow256(6) == 0x1_0000_0000_0000 && Pow256(7) == 0x100_0000_0000_0000;
  }

  lemma SizedReads(bytes: seq<byte>, width: nat, rest: seq<byte>)
    requires |bytes| < Pow256(width)
    ensures ReadSized(BigEndian(|bytes|, width) + (bytes + rest), width) == Some((bytes, rest))
  {
    NumberReads(|bytes|, width, bytes + rest);
    assert (bytes + rest)[..|bytes|] == bytes && (bytes + rest)[|bytes|..] == rest;
  }

  lemma OneByte(n: byte)
    ensures BigEndian(n, 1) == [n]
  {
    assert BigEndian(n / 256, 0) == [];
  }

  lemma AfterLead(code: seq<byte>, lead: byte, number: seq<byte>, bytes: seq<byte>, rest: seq<byte>)
    requires code == [lead] + number + bytes + rest
    ensures code[0] == lead && code[1..] == number + (bytes + rest)
  {
    assert code == [lead] + (number + (bytes + rest));
  }

  function WidthOf(n: nat): nat { if n <= 0xff then 1 else if n <= 0xffff then 2 else 4 }

  lemma StrHeaderIs(n: nat)
    requires 31 < n < 0x1_0000_0000
    ensures StrHeader(n) == [if n <= 0xff then 0xd9 else if n <= 0xffff then 0xda else 0xdb] + BigEndian(n, WidthOf(n))
  {
    if n <= 0xff { OneByte(n); }
  }

  lemma BinHeaderIs(n: nat)
    requires n < 0x1_0000_0000
    ensures BinHeader(n) == [if n <= 0xff then 0xc4 else if n <= 0xffff then 0xc5 else 0xc6] + BigEndian(n, WidthOf(n))
  {
    if n <= 0xff { OneByte(n); }
  }

  lemma ShortStrReads(bytes: seq<byte>, rest: seq<byte>)
    requires |bytes| <= 31
    ensures ReadItem(WriteStr(bytes) + rest) == Some((StrItem(bytes), rest))
  {
    hide ReadItems, ReadCounted, ReadSized, ReadNumber;
    var code := WriteStr(bytes) + rest;
    assert code[1..] == bytes + rest;
    assert (bytes + rest)[..|bytes|] == bytes && (bytes + rest)[|bytes|..] == rest;
  }

  lemma LongStrReads(bytes: seq<byte>, rest: seq<byte>)
    requires 31 < |bytes| < 0x1_0000_0000
    ensures ReadItem(WriteStr(bytes) + rest) == Some((StrItem(bytes), rest))
  {
    Powers();
    StrHeaderIs(|bytes|);
    hide BigEndian, FromBigEndian, ReadItems, ReadCounted, ReadSized, ReadNumber, ReadBytes, StrHeader;
    AfterLead(WriteStr(bytes) + rest, StrHeader(|bytes|)[0], BigEndian(|bytes|, WidthOf(|bytes|)), bytes, rest);
    SizedReads(bytes, WidthOf(|bytes|), rest);
  }

  lemma StrReads(bytes: seq<byte>)
    requires |bytes| < 0x1_0000_0000
    ensures Reads(WriteStr(bytes), StrItem(bytes))
  {
    hide ReadItem, WriteStr;
    forall rest ensures ReadItem(WriteStr(bytes) + rest) == Some((StrItem(bytes), rest)) {
      if |bytes| <= 31 {
        ShortStrReads(bytes, rest);
      } else {
        LongStrReads(bytes, rest);
      }
    }
  }

  lemma BinReads(bytes: seq<byte>)
    requires |bytes| < 0x1_0000_0000
    ensures Reads(WriteBin(bytes), BinItem(bytes))
  {
    var n := |bytes|;
    Powers();
    BinHeaderIs(n);
    forall rest ensures ReadItem(WriteBin(bytes) + rest) == Some((BinItem(bytes), rest)) {
      hide BigEndian, FromBigEndian, ReadItems, ReadCounted, ReadSized, ReadNumber, BinHeader;
      AfterLead(WriteBin(bytes) + rest, BinHeader(n)[0], BigEndian(n, WidthOf(n)), bytes, rest);
      SizedReads(bytes, WidthOf(n), rest);
    }
  }

  lemma BoolReads(value: bool)
    ensures Reads(WriteBool(value), BoolItem(value))
  {
    forall rest ensures ReadItem(WriteBool(value) + rest) == Some((BoolItem(value), rest)) {
      assert (WriteBool(value) + rest)[1..] == rest;
    }
  }

  function U64Width(value: u64): nat {
    if value <= 0xff then 1 else if value <= 0xffff then 2 else if value <= 0xffff_ffff then 4 else 8
  }

  lemma LongU64Reads(value: u64, rest: seq<byte>)
    requires 0x7f < value
    ensures ReadItem(WriteU64(value) + rest) == Some((UintItem(value), rest))
  {
    Powers();
    if value <= 0xff { OneByte(value); }
    hide BigEndian, FromBigEndian, ReadItems, ReadCounted, ReadSized, ReadNumber, ReadBytes;
    NumberReads(value, U64Width(value), rest);
    assert (WriteU64(value) + rest)[1..] == BigEndian(value, U64Width(value)) + rest;
  }

  lemma U64Reads(value: u64)
    ensures Reads(WriteU64(value), UintItem(value))
  {
    forall rest ensures ReadItem(WriteU64(value) + rest) == Some((UintItem(value), rest)) {
      if value <= 0x7f {
        assert (WriteU64(value) + rest)[1..] == rest;
      } else {
        hide ReadItem, WriteU64;
        LongU64Reads(value, rest);
      }
    }
  }

  /** A record as a reader sees it. */
  function AsItems(record: LogRecord): seq<Item> {
    [StrItem(Ascii("origin")), StrItem(record.origin), StrItem(Ascii("is_error")), BoolItem(record.isError),
     StrItem(Ascii("message")), StrItem(record.message),
     StrItem(Ascii("timestamp")), UintItem(record.timestampNs)] +
    match record.jobId
    case Some(id) =>
      [StrItem(Ascii("job_id")),
       BinItem([id[3], id[2], id[1], id[0], id[5], id[4], id[7], id[6]] + id[8..])]
    case None => []
  }

  /** Reading distinguishes any two records. */
  lemma AsItemsIsInjective(a: LogRecord, b: LogRecord)
    requires AsItems(a) == AsItems(b)
    ensures a == b
  {
    var x, y := AsItems(a), AsItems(b);
    assert x[1] == y[1] && x[3] == y[3] && x[5] == y[5] && x[7] == y[7];
    if a.jobId.Some? {
      assert |y| == 10 && x[9] == y[9];
      GuidBytesTwice(a.jobId.value);
      GuidBytesTwice(b.jobId.value);
    }
  }

  /** The strings' lengths fit the 32 bits MessagePack has for them. */
  predicate Representable(record: LogRecord) {
    |record.origin| < 0x1_0000_0000 && |record.message| < 0x1_0000_0000
  }

  lemma PartsRead(record: LogRecord)
    requires Representable(record)
    ensures |RecordParts(record)| == |AsItems(record)|
    ensures forall i :: 0 <= i < |RecordParts(record)| ==> Reads(RecordParts(record)[i], AsItems(record)[i])
  {
    hide Reads, WriteStr, WriteBin, WriteBool, WriteU64, Ascii;
    StrReads(ORIGIN);
    StrReads(record.origin);
    StrReads(IS_ERROR);
    BoolReads(record.isError);
    StrReads(MESSAGE);
    StrReads(record.message);
    StrReads(TIMESTAMP);
    U64Reads(record.timestampNs);
    StrReads(JOB_ID);
    if record.jobId.Some? {
      BinReads(GuidBytes(record.jobId.value));
    }
  }

  lemma RecordReadsBefore(record: LogRecord, rest: seq<byte>)
    requires Representable(record)
    ensures ReadItem(EncodeRecord(record) + rest) == Some((MapItem(AsItems(record)), rest))
  {
    hide RecordParts, AsItems, Reads, ReadItems, ReadCounted, ReadSized, ReadNumber, ReadBytes, Concat;
    PartsRead(record);
    ItemsRead(RecordParts(record), AsItems(record), rest);
    PartCount(record);
    assert (EncodeRecord(record) + rest)[1..] == Concat(RecordParts(record)) + rest;
  }

  lemma RecordReads(record: LogRecord)
    requires Representable(record)
    ensures Reads(EncodeRecord(record), MapItem(AsItems(record)))
  {
    hide ReadItem, EncodeRecord, AsItems;
    forall rest ensures ReadItem(EncodeRecord(record) + rest) == Some((MapItem(AsItems(record)), rest)) {
      RecordReadsBefore(record, rest);
    }
  }

  lemma PartCount(record: LogRecord)
    ensures |RecordParts(record)| == 2 * (if record.jobId.Some? then 5 else 4)
  {
  }

  function BatchItem(records: seq<LogRecord>): Item {
    ArrayItem(seq(|records|, i requires 0 <= i < |records| => MapItem(AsItems(records[i]))))
  }

  /** Reading an encoded batch gives back its records and nothing more. */
  lemma BatchReads(records: seq<LogRecord>)
    requires |records| < 0x1_0000_0000 && forall r :: r in records ==> Representable(r)
    ensures ReadItem(EncodeBatch(records)) == Some((BatchItem(records), []))
  {
    hide Reads, EncodeRecord, AsItems, BigEndian, FromBigEndian, ReadItems, ReadNumber;
    var codes, items, n := EncodedRecords(records), BatchItem(records).items, |records|;
    forall i | 0 <= i < n ensures Reads(codes[i], items[i]) {
      RecordReads(records[i]);
    }
    ItemsRead(codes, items, []);
    assert Concat(codes) + [] == Concat(codes);
    var code := EncodeBatch(records);
    if n <= 15 {
      assert code[1..] == Concat(codes);
    } else {
      Powers();
      var width := if n <= 0xffff then 2 else 4;
      NumberReads(n, width, Concat(codes));
      assert code[1..] == BigEndian(n, width) + Concat(codes);
    }
  }

  /** So no two batches share an encoding. */
  lemma EncodingIsInjective(a: seq<LogRecord>, b: seq<LogRecord>)
    requires |a| < 0x1_0000_0000 && forall r :: r in a ==> Representable(r)
    requires |b| < 0x1_0000_0000 && forall r :: r in b ==> Representable(r)
    requires EncodeBatch(a) == EncodeBatch(b)
    ensures a == b
  {
    BatchReads(a);
    BatchReads(b);
    hide ReadItem, EncodeBatch;
    var x, y := BatchItem(a).items, BatchItem(b).items;
    assert |x| == |a| && |y| == |b|;
    forall i | 0 <= i < |a| ensures a[i] == b[i] {
      assert x[i] == y[i];
      AsItemsIsInjective(a[i], b[i]);
    }
  }
}
