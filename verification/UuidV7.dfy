/** Version 7 UUIDs: allocation, canonical text and its parser (src/ids; section 5.7 of RFC 9562). */
module UuidV7 {
  import opened Collections
  import opened Bytes

  const NANOS_PER_MILLI: nat := 1_000_000
  const TIMESTAMP_MAX_MS: nat := 0x0000_ffff_ffff_ffff
  const TWO_46: nat := 0x4000_0000_0000
  const TWO_48: nat := 0x1_0000_0000_0000

  datatype AllocationError =
    | SequenceExhausted(nextSequence: u64, count: nat)
    | TimestampOverflow(observedAtNs: nat)

  /** The identifier for a clock reading and a sequence number. */
  function FromSeed(observedAtNs: nat, sequence: u64): Result<Uuid, AllocationError> {
    var timestampMs := observedAtNs / NANOS_PER_MILLI;
    if timestampMs > TIMESTAMP_MAX_MS then Err(TimestampOverflow(observedAtNs))
    else
      var seq8 := BigEndian(sequence, 8);
      Ok(BigEndian(timestampMs, 8)[2..] + Stamped(seq8) + [observedAtNs / 256 % 256, observedAtNs % 256])
  }

  /** A sequence number's eight bytes with the version and the variant written over six of its bits. */
  function Stamped(s: seq<byte>): (r: seq<byte>)
    requires |s| == 8
    ensures |r| == 8
  {
    [0x70 + s[0] % 16, s[1], 0x80 + s[2] % 64, s[3], s[4], s[5], s[6], s[7]]
  }

  /** The error branch cannot be taken: no 64-bit count of nanoseconds reaches the timestamp limit. */
  lemma TimestampNeverOverflows(observedAtNs: u64, sequence: u64)
    ensures FromSeed(observedAtNs, sequence).Ok?
  {
  }

  function IdOf(observedAtNs: u64, sequence: u64): (id: Uuid) {
    TimestampNeverOverflows(observedAtNs, sequence);
    FromSeed(observedAtNs, sequence).value
  }

  function Spell6(a: int, b: int, c: int, d: int, e: int, f: int): int {
    ((((a * 256 + b) * 256 + c) * 256 + d) * 256 + e) * 256 + f
  }

  lemma {:induction false} LastDigits(s: seq<byte>)
    requires |s| == 8
    ensures var a: int, b: int := s[0], s[1];
            FromBigEndian(s) == Spell6(a * 65536 + b * 256 + s[2], s[3], s[4], s[5], s[6], s[7])
  {
    var top: int := s[0];
    assert s[..7][..6] == s[..6] && s[..6][..5] == s[..5] && s[..5][..4] == s[..4];
    assert s[..4][..3] == s[..3] && s[..3][..2] == s[..2] && s[..2][..1] == s[..1];
    assert s[..1][..0] == [];
    assert FromBigEndian(s[..1]) == top;
    assert FromBigEndian(s[..2]) == FromBigEndian(s[..1]) * 256 + s[1];
    assert FromBigEndian(s[..3]) == FromBigEndian(s[..2]) * 256 + s[2];
    assert FromBigEndian(s[..4]) == FromBigEndian(s[..3]) * 256 + s[3];
    assert FromBigEndian(s[..5]) == FromBigEndian(s[..4]) * 256 + s[4];
    assert FromBigEndian(s[..6]) == FromBigEndian(s[..5]) * 256 + s[5];
    assert FromBigEndian(s[..7]) == FromBigEndian(s[..6]) * 256 + s[6];
  }

  /** What survives the stamping of a sequence number: all but bits 46, 47 and 60 to 63. */
  function KeptHigh(sequence: u64): nat { sequence / TWO_48 % 4096 }
  function KeptLow(sequence: u64): nat { sequence % TWO_46 }

  lemma {:induction false} KeptDigits(sequence: u64)
    ensures var s := BigEndian(sequence, 8);
            && FromBigEndian(s) == sequence
            && KeptHigh(sequence) == 256 * (s[0] % 16) as int + s[1]
            && KeptLow(sequence) == Spell6(s[2] % 64, s[3], s[4], s[5], s[6], s[7])
  {
    var s := BigEndian(sequence, 8);
    EightBytes();
    BigEndianRoundTrip(sequence, 8);
    LastDigits(s);
    hide BigEndian, FromBigEndian;
    var low := Spell6(0, s[3], s[4], s[5], s[6], s[7]);
    HighOf(sequence, s[0], s[1], s[2], low);
    LowOf(sequence, s[0], s[1], s[2], low);
  }

  lemma EightBytes()
    ensures Pow256(8) == U64_MAX + 1 && Pow256(2) == 65536 && Pow256(6) == TWO_48
  {
    assert Pow256(1) == 256 && Pow256(2) == 65536 && Pow256(3) == 0x100_0000 && Pow256(4) == 0x1_0000_0000;
    assert Pow256(5) == 0x100_0000_0000 && Pow256(6) == TWO_48 && Pow256(7) == 0x100_0000_0000_0000;
  }

  lemma HighOf(n: u64, a: nat, b: nat, c: nat, low: nat)
    requires b < 256 && c < 256 && low < 0x100_0000_0000
             && n == a * 0x100_0000_0000_0000 + b * TWO_48 + c * 0x100_0000_0000 + low
    ensures KeptHigh(n) == 256 * (a % 16) + b
  {
    var rest := c * 0x100_0000_0000 + low;
    assert n == (a * 256 + b) * TWO_48 + rest && 0 <= rest < TWO_48;
    assert n / TWO_48 == a * 256 + b;
    assert a * 256 + b == a / 16 * 4096 + (256 * (a % 16) + b);
  }

  lemma LowOf(n: u64, a: nat, b: nat, c: nat, low: nat)
    requires b < 256 && c < 256 && low < 0x100_0000_0000
             && n == a * 0x100_0000_0000_0000 + b * TWO_48 + c * 0x100_0000_0000 + low
    ensures KeptLow(n) == c % 64 * 0x100_0000_0000 + low
  {
    var rest := c % 64 * 0x100_0000_0000 + low;
    assert n == ((a * 256 + b) * 4 + c / 64) * TWO_46 + rest && 0 <= rest < TWO_46;
  }

  /** Two identifiers are equal exactly when millisecond, low clock bytes and kept sequence bits all are. */
  lemma SameIdMeans(t: u64, m: u64, u: u64, n: u64)
    ensures IdOf(t, m) == IdOf(u, n) <==>
            && t / NANOS_PER_MILLI == u / NANOS_PER_MILLI && t % 65536 == u % 65536
            && KeptHigh(m) == KeptHigh(n) && KeptLow(m) == KeptLow(n)
  {
    var a, b := BigEndian(m, 8), BigEndian(n, 8);
    var p, q := BigEndian(t / NANOS_PER_MILLI, 8), BigEndian(u / NANOS_PER_MILLI, 8);
    KeptDigits(m);
    KeptDigits(n);
    TopIsZero(t / NANOS_PER_MILLI);
    TopIsZero(u / NANOS_PER_MILLI);
    SameTail(t, u);
    hide BigEndian, FromBigEndian, KeptHigh, KeptLow;
    assert IdOf(t, m) == p[2..] + Stamped(a) + [t / 256 % 256, t % 256];
    assert IdOf(u, n) == q[2..] + Stamped(b) + [u / 256 % 256, u % 256];
    assert IdOf(t, m)[..6] == p[2..] && IdOf(u, n)[..6] == q[2..];
    assert IdOf(t, m)[6..14] == Stamped(a) && IdOf(u, n)[6..14] == Stamped(b);
    assert IdOf(t, m)[14] == t / 256 % 256 && IdOf(t, m)[15] == t % 256;
    assert IdOf(u, n)[14] == u / 256 % 256 && IdOf(u, n)[15] == u % 256;
    SameStamp(a, b);
    if p[2..] == q[2..] {
      assert p == p[..2] + p[2..] && q == q[..2] + q[2..];
    }
  }

  lemma SameTail(t: nat, u: nat)
    ensures t % 65536 == u % 65536 <==> t / 256 % 256 == u / 256 % 256 && t % 256 == u % 256
  {
    assert t % 65536 == t / 256 % 256 * 256 + t % 256;
    assert u % 65536 == u / 256 % 256 * 256 + u % 256;
  }

  /** A timestamp that fits six bytes leaves the first two of its eight zero, and is given by the rest. */
  lemma TopIsZero(ms: u64)
    requires ms <= TIMESTAMP_MAX_MS
    ensures BigEndian(ms, 8)[..2] == [0, 0] && FromBigEndian(BigEndian(ms, 8)) == ms
  {
    EightBytes();
    BigEndianRoundTrip(ms, 8);
    var s := BigEndian(ms, 8);
    LastDigits(s);
    assert s[0] == 0 && s[1] == 0;
  }

  lemma SameStamp(a: seq<byte>, b: seq<byte>)
    requires |a| == 8 && |b| == 8
    ensures Stamped(a) == Stamped(b) <==>
            && 256 * (a[0] % 16) as int + a[1] == 256 * (b[0] % 16) as int + b[1]
            && Spell6(a[2] % 64, a[3], a[4], a[5], a[6], a[7]) == Spell6(b[2] % 64, b[3], b[4], b[5], b[6], b[7])
  {
    var x, y := Stamped(a), Stamped(b);
    if x == y {
      assert x[0] == y[0] && x[1] == y[1] && x[2] == y[2] && x[3] == y[3];
      assert x[4] == y[4] && x[5] == y[5] && x[6] == y[6] && x[7] == y[7];
    } else if Spell6(a[2] % 64, a[3], a[4], a[5], a[6], a[7]) == Spell6(b[2] % 64, b[3], b[4], b[5], b[6], b[7]) {
      Spell6IsInjective(a[2] % 64, a[3..], b[2] % 64, b[3..]);
      assert a[3..] == [a[3], a[4], a[5], a[6], a[7]] && b[3..] == [b[3], b[4], b[5], b[6], b[7]];
    }
  }

  lemma Spell6IsInjective(p: nat, s: seq<byte>, q: nat, t: seq<byte>)
    requires |s| == 5 && |t| == 5
    requires Spell6(p, s[0], s[1], s[2], s[3], s[4]) == Spell6(q, t[0], t[1], t[2], t[3], t[4])
    ensures p == q && s == t
  {
    var a, b, c, d: int := s[0], s[1], s[2], s[3];
    var e, f, g, h: int := t[0], t[1], t[2], t[3];
    SameDigit((((p * 256 + a) * 256 + b) * 256 + c) * 256 + d, s[4], (((q * 256 + e) * 256 + f) * 256 + g) * 256 + h,
      t[4]);
    SameDigit(((p * 256 + a) * 256 + b) * 256 + c, s[3], ((q * 256 + e) * 256 + f) * 256 + g, t[3]);
    SameDigit((p * 256 + a) * 256 + b, s[2], (q * 256 + e) * 256 + f, t[2]);
    SameDigit(p * 256 + a, s[1], q * 256 + e, t[1]);
    SameDigit(p, s[0], q, t[0]);
  }

  lemma SameDigit(x: int, a: byte, y: int, b: byte)
    requires x * 256 + a == y * 256 + b
    ensures x == y && a == b
  {
  }

  /** Sequences fewer than 2^46 apart give different identifiers whatever the clock said. */
  lemma NearSequencesDiffer(t: u64, m: u64, u: u64, n: u64)
    requires m < n < m + TWO_46
    ensures IdOf(t, m) != IdOf(u, n)
  {
    hide IdOf;
    SameIdMeans(t, m, u, n);
    assert m % TWO_46 != n % TWO_46;
  }

  /** The bound is tight: at one clock reading a sequence number and the one 2^46 on share an identifier. */
  lemma FarSequencesCollide(t: u64, m: u64)
    requires m / TWO_46 % 4 < 3 && m + TWO_46 <= U64_MAX
    ensures IdOf(t, m) == IdOf(t, m + TWO_46)
  {
    hide IdOf;
    SameIdMeans(t, m, t, m + TWO_46);
    var q, r := m / TWO_46, m % TWO_46;
    assert m == q * TWO_46 + r && m + TWO_46 == (q + 1) * TWO_46 + r;
    assert m / TWO_48 == q / 4 && (m + TWO_46) / TWO_48 == (q + 1) / 4;
  }

  // ----- byte order -----

  /** The order of byte strings of one length: the first difference decides. */
  ghost predicate Before(a: seq<byte>, b: seq<byte>) {
    exists k :: FirstDifference(a, b, k)
  }

  ghost predicate FirstDifference(a: seq<byte>, b: seq<byte>, k: int) {
    0 <= k < |a| && k < |b| && a[..k] == b[..k] && a[k] < b[k]
  }

  lemma {:induction false} NumbersInByteOrder(m: nat, n: nat, width: nat)
    requires m < n < Pow256(width)
    ensures Before(BigEndian(m, width), BigEndian(n, width))
    decreases width
  {
    var a, b := BigEndian(m, width), BigEndian(n, width);
    var p, q := BigEndian(m / 256, width - 1), BigEndian(n / 256, width - 1);
    assert a == p + [m % 256] && b == q + [n % 256];
    if m / 256 == n / 256 {
      assert FirstDifference(a, b, width - 1);
    } else {
      NumbersInByteOrder(m / 256, n / 256, width - 1);
      var k :| FirstDifference(p, q, k);
      assert a[..k] == p[..k] && b[..k] == q[..k];
      assert FirstDifference(a, b, k);
    }
  }

  lemma BeforeInContext(x: seq<byte>, a: seq<byte>, b: seq<byte>, y: seq<byte>, z: seq<byte>)
    requires Before(a, b)
    ensures Before(x + a + y, x + b + z)
  {
    var k :| FirstDifference(a, b, k);
    assert (x + a + y)[..|x| + k] == x + a[..k] && (x + b + z)[..|x| + k] == x + b[..k];
    assert FirstDifference(x + a + y, x + b + z, |x| + k);
  }

  /** With time not going back and sequences below 2^46, later identifiers come later in byte order. */
  lemma LaterIdsAreLarger(t: u64, m: u64, u: u64, n: u64)
    requires t <= u && m < n < TWO_46
    ensures Before(IdOf(t, m), IdOf(u, n))
  {
    var a, b := BigEndian(m, 8), BigEndian(n, 8);
    var p, q := t / NANOS_PER_MILLI, u / NANOS_PER_MILLI;
    var y, z := [t / 256 % 256, t % 256], [u / 256 % 256, u % 256];
    assert IdOf(t, m) == BigEndian(p, 8)[2..] + Stamped(a) + y;
    assert IdOf(u, n) == BigEndian(q, 8)[2..] + Stamped(b) + z;
    hide IdOf;
    if p < q {
      EarlierStamp(p, q);
      assert [] + BigEndian(p, 8)[2..] + (Stamped(a) + y) == BigEndian(p, 8)[2..] + Stamped(a) + y;
      assert [] + BigEndian(q, 8)[2..] + (Stamped(b) + z) == BigEndian(q, 8)[2..] + Stamped(b) + z;
      BeforeInContext([], BigEndian(p, 8)[2..], BigEndian(q, 8)[2..], Stamped(a) + y, Stamped(b) + z);
    } else {
      assert p == q;
      StampKeepsOrder(m, n);
      BeforeInContext(BigEndian(p, 8)[2..], Stamped(a), Stamped(b), y, z);
    }
  }

  lemma EarlierStamp(p: u64, q: u64)
    requires p < q <= TIMESTAMP_MAX_MS
    ensures Before(BigEndian(p, 8)[2..], BigEndian(q, 8)[2..])
  {
    EightBytes();
    TopIsZero(p);
    TopIsZero(q);
    NumbersInByteOrder(p, q, 8);
    var a, b := BigEndian(p, 8), BigEndian(q, 8);
    var k :| FirstDifference(a, b, k);
    assert a[..2] == b[..2] && a[0] == a[..2][0] && a[1] == a[..2][1] && b[0] == b[..2][0] && b[1] == b[..2][1];
    assert a[2..][..k - 2] == a[..k][2..] && b[2..][..k - 2] == b[..k][2..];
    assert FirstDifference(a[2..], b[2..], k - 2);
  }

  lemma StampKeepsOrder(m: u64, n: u64)
    requires m < n < TWO_46
    ensures Before(Stamped(BigEndian(m, 8)), Stamped(BigEndian(n, 8)))
  {
    hide BigEndian;
    EightBytes();
    NumbersInByteOrder(m, n, 8);
    SmallSequence(m);
    SmallSequence(n);
    var a, b := BigEndian(m, 8), BigEndian(n, 8);
    var k :| FirstDifference(a, b, k);
    StampKeepsDifference(a, b, k);
  }

  lemma StampKeepsDifference(a: seq<byte>, b: seq<byte>, k: nat)
    requires |a| == 8 && a[0] == 0 && a[1] == 0 && a[2] < 64
    requires |b| == 8 && b[0] == 0 && b[1] == 0 && b[2] < 64
    requires FirstDifference(a, b, k)
    ensures FirstDifference(Stamped(a), Stamped(b), k)
  {
    forall i | 0 <= i < k ensures Stamped(a)[i] == Stamped(b)[i] {
      assert a[i] == a[..k][i] && b[i] == b[..k][i];
    }
    assert Stamped(a)[..k] == Stamped(b)[..k];
  }

  lemma SmallSequence(m: u64)
    requires m < TWO_46
    ensures var s := BigEndian(m, 8); s[0] == 0 && s[1] == 0 && s[2] < 64
  {
    EightBytes();
    BigEndianRoundTrip(m, 8);
    LastDigits(BigEndian(m, 8));
  }

  // ----- the allocator -----

  /** The outcome of a request for `count` identifiers. */
  function Batch(nextSequence: u64, count: u64, observedAtNs: nat): Result<seq<Uuid>, AllocationError> {
    if count == 0 then Ok([])
    else if nextSequence + count > U64_MAX then Err(SequenceExhausted(nextSequence, count))
    else if observedAtNs / NANOS_PER_MILLI > TIMESTAMP_MAX_MS then Err(TimestampOverflow(observedAtNs))
    else Ok(Ids(nextSequence, count, observedAtNs))
  }

  function Ids(nextSequence: u64, count: u64, observedAtNs: nat): (r: seq<Uuid>)
    requires nextSequence + count <= U64_MAX && observedAtNs / NANOS_PER_MILLI <= TIMESTAMP_MAX_MS
    ensures |r| == count
    ensures forall i :: 0 <= i < count ==> FromSeed(observedAtNs, nextSequence + i) == Ok(r[i])
  {
    if count == 0 then []
    else Ids(nextSequence, count - 1, observedAtNs) + [FromSeed(observedAtNs, nextSequence + count - 1).value]
  }

  class IdAllocator {
    var nextSequence: u64

    constructor ()
      ensures nextSequence == 0
    {
      nextSequence := 0;
    }

    /** A batch that fails takes no sequence numbers. */
    method AllocateBatch(count: u64, observedAtNs: nat) returns (r: Result<seq<Uuid>, AllocationError>)
      modifies this
      ensures r == Batch(old(nextSequence), count, observedAtNs)
      ensures nextSequence == old(nextSequence) + if r.Ok? then count else 0
    {
      if count == 0 {
        return Ok([]);
      }
      if nextSequence + count > U64_MAX {
        return Err(SequenceExhausted(nextSequence, count));
      }
      var ids: seq<Uuid> := [];
      for offset := 0 to count
        invariant nextSequence == old(nextSequence)
        invariant offset > 0 ==> observedAtNs / NANOS_PER_MILLI <= TIMESTAMP_MAX_MS
        invariant offset == 0 ==> ids == []
        invariant offset > 0 ==> ids == Ids(nextSequence, offset, observedAtNs)
      {
        hide Stamped, BigEndian;
        match FromSeed(observedAtNs, nextSequence + offset) {
          case Err(error) =>
            return Err(error);
          case Ok(id) =>
            ids := ids + [id];
        }
      }
      nextSequence := nextSequence + count;
      r := Ok(ids);
    }
  }

  datatype Request = Request(count: u64, observedAtNs: u64)

  /** The clock reading behind each identifier handed out in a run of requests; a failed one hands out none. */
  function Clocks(nextSequence: u64, requests: seq<Request>): seq<u64>
    decreases |requests|
  {
    if requests == [] then [] else
      var Request(count, observedAtNs) := requests[0];
      if nextSequence + count > U64_MAX then Clocks(nextSequence, requests[1..])
      else seq(count, _ => observedAtNs) + Clocks(nextSequence + count, requests[1..])
  }

  /** The identifiers an allocator hands out in a run of requests. */
  function Issued(nextSequence: u64, requests: seq<Request>): seq<Uuid>
    decreases |requests|
  {
    if requests == [] then [] else
      match Batch(nextSequence, requests[0].count, requests[0].observedAtNs)
      case Ok(ids) => ids + Issued(nextSequence + requests[0].count, requests[1..])
      case Err(_) => Issued(nextSequence, requests[1..])
  }

  ghost predicate Accounted(nextSequence: u64, ids: seq<Uuid>, clocks: seq<u64>) {
    && |ids| == |clocks| && nextSequence + |ids| <= U64_MAX
    && forall i :: 0 <= i < |ids| ==> ids[i] == IdOf(clocks[i], nextSequence + i)
  }

  /** Over a whole run the identifiers use consecutive sequence numbers: none is skipped or used twice. */
  lemma {:induction false} RunIsConsecutive(nextSequence: u64, requests: seq<Request>)
    ensures Accounted(nextSequence, Issued(nextSequence, requests), Clocks(nextSequence, requests))
    decreases |requests|
  {
    hide FromSeed, IdOf;
    if requests != [] {
      var Request(count, observedAtNs) := requests[0];
      if nextSequence + count > U64_MAX {
        RunIsConsecutive(nextSequence, requests[1..]);
      } else {
        RunIsConsecutive(nextSequence + count, requests[1..]);
        var rest := Issued(nextSequence + count, requests[1..]);
        var clocks := Clocks(nextSequence + count, requests[1..]);
        if count == 0 {
          assert [] + rest == rest;
        } else {
          var ids := Ids(nextSequence, count, observedAtNs);
          BatchIsAccounted(nextSequence, count, observedAtNs);
          JoinRuns(nextSequence, ids, seq(count, _ => observedAtNs), rest, clocks);
        }
      }
    }
  }

  lemma BatchIsAccounted(nextSequence: u64, count: u64, observedAtNs: u64)
    requires nextSequence + count <= U64_MAX
    ensures Accounted(nextSequence, Ids(nextSequence, count, observedAtNs), seq(count, _ => observedAtNs))
  {
  }

  lemma JoinRuns(nextSequence: u64, ids: seq<Uuid>, clocks: seq<u64>, rest: seq<Uuid>, later: seq<u64>)
    requires Accounted(nextSequence, ids, clocks) && Accounted(nextSequence + |ids|, rest, later)
    ensures Accounted(nextSequence, ids + rest, clocks + later)
  {
    forall i | 0 <= i < |ids + rest| ensures (ids + rest)[i] == IdOf((clocks + later)[i], nextSequence + i) {
      if i >= |ids| {
        assert rest[i - |ids|] == IdOf(later[i - |ids|], nextSequence + |ids| + (i - |ids|));
      }
    }
  }

  /** No run of up to 2^46 identifiers repeats one, however the clock jumps. */
  lemma IssuedAreDistinct(nextSequence: u64, requests: seq<Request>)
    requires |Issued(nextSequence, requests)| <= TWO_46
    ensures Distinct(Issued(nextSequence, requests))
  {
    hide IdOf;
    RunIsConsecutive(nextSequence, requests);
    var ids, clocks := Issued(nextSequence, requests), Clocks(nextSequence, requests);
    forall i, j | 0 <= i < j < |ids| ensures ids[i] != ids[j] {
      NearSequencesDiffer(clocks[i], nextSequence + i, clocks[j], nextSequence + j);
    }
  }

  ghost predicate NeverGoesBack(clock: seq<u64>) {
    forall i, j :: 0 <= i < j < |clock| ==> clock[i] <= clock[j]
  }

  function Times(requests: seq<Request>): seq<u64> {
    seq(|requests|, i requires 0 <= i < |requests| => requests[i].observedAtNs)
  }

  ghost predicate NotBefore(clock: seq<u64>, since: u64) {
    forall i :: 0 <= i < |clock| ==> since <= clock[i]
  }

  lemma {:induction false} ClocksNeverGoBack(nextSequence: u64, requests: seq<Request>, since: u64)
    requires NeverGoesBack(Times(requests)) && NotBefore(Times(requests), since)
    ensures NeverGoesBack(Clocks(nextSequence, requests)) && NotBefore(Clocks(nextSequence, requests), since)
    decreases |requests|
  {
    if requests != [] {
      var Request(count, observedAtNs) := requests[0];
      TimesOfRest(requests);
      if nextSequence + count > U64_MAX {
        ClocksNeverGoBack(nextSequence, requests[1..], observedAtNs);
      } else {
        ClocksNeverGoBack(nextSequence + count, requests[1..], observedAtNs);
        var later := Clocks(nextSequence + count, requests[1..]);
        assert Clocks(nextSequence, requests) == seq(count, _ => observedAtNs) + later;
        StaysThenRises(observedAtNs, count, later);
      }
      assert since <= Times(requests)[0] == observedAtNs;
    }
  }

  lemma TimesOfRest(requests: seq<Request>)
    requires requests != [] && NeverGoesBack(Times(requests))
    ensures NeverGoesBack(Times(requests[1..])) && NotBefore(Times(requests[1..]), requests[0].observedAtNs)
  {
    var times, rest := Times(requests), Times(requests[1..]);
    forall i | 0 <= i < |rest| ensures requests[0].observedAtNs <= rest[i] {
      assert times[0] <= times[i + 1];
    }
    forall i, j | 0 <= i < j < |rest| ensures rest[i] <= rest[j] {
      assert times[i + 1] <= times[j + 1];
    }
  }

  lemma StaysThenRises(t: u64, count: nat, later: seq<u64>)
    requires NeverGoesBack(later) && NotBefore(later, t)
    ensures NeverGoesBack(seq(count, _ => t) + later) && NotBefore(seq(count, _ => t) + later, t)
  {
  }

  /** While the clock never goes back and sequences stay below 2^46, identifiers sort in the order they were made. */
  lemma IssuedAreSorted(nextSequence: u64, requests: seq<Request>, i: nat, j: nat)
    requires NeverGoesBack(Times(requests)) && i < j < |Issued(nextSequence, requests)|
    requires nextSequence + j < TWO_46
    ensures Before(Issued(nextSequence, requests)[i], Issued(nextSequence, requests)[j])
  {
    hide IdOf, Issued, Clocks, Times;
    RunIsConsecutive(nextSequence, requests);
    ClocksNeverGoBack(nextSequence, requests, 0);
    var clocks := Clocks(nextSequence, requests);
    LaterIdsAreLarger(clocks[i], nextSequence + i, clocks[j], nextSequence + j);
  }

  // ----- canonical text -----

  function NibbleAt(bytes: seq<byte>, i: nat): (r: byte)
    requires i < 2 * |bytes|
    ensures r < 16
  {
    if i % 2 == 0 then bytes[i / 2] / 16 else bytes[i / 2] % 16
  }

  function HexText(bytes: seq<byte>): (r: seq<byte>)
    ensures |r| == 2 * |bytes|
    ensures forall i :: 0 <= i < |r| ==> r[i] == LowerHex(NibbleAt(bytes, i))
  {
    seq(2 * |bytes|, i requires 0 <= i < 2 * |bytes| => LowerHex(NibbleAt(bytes, i)))
  }

  const HYPHEN: byte := 45

  /** Lower-case hexadecimal in groups of 8, 4, 4, 4 and 12 digits. */
  function Canonical(id: Uuid): (r: seq<byte>)
    ensures |r| == 36
  {
    HexText(id[0..4]) + [HYPHEN] + HexText(id[4..6]) + [HYPHEN] + HexText(id[6..8]) + [HYPHEN]
    + HexText(id[8..10]) + [HYPHEN] + HexText(id[10..16])
  }

  datatype ParseError =
    | Length(actual: nat) | Hyphen(index: nat) | Hex(index: nat) | Version(actual: nat) | Variant(actual: nat)

  function FromCanonicalBytes(bytes: Uuid): Result<Uuid, ParseError> {
    if bytes[6] / 16 != 7 then Err(Version(bytes[6] / 16))
    else if bytes[8] / 64 != 2 then Err(Variant(bytes[8] / 64))
    else Ok(bytes)
  }

  predicate IsPlace(i: int) { i == 8 || i == 13 || i == 18 || i == 23 }

  /** The hyphen places below `i`. */
  function PlacesBelow(i: int): nat {
    (if i > 8 then 1 else 0) + (if i > 13 then 1 else 0) + (if i > 18 then 1 else 0) + (if i > 23 then 1 else 0)
  }

  predicate IsReadable(b: byte) { b == HYPHEN || HexValue(b).Some? }

  /** The values of the digits of `text`, hyphens skipped wherever they are. */
  function Digits(text: seq<byte>): (r: seq<byte>)
    ensures forall i :: 0 <= i < |r| ==> r[i] < 16
  {
    if text == [] then [] else
      var before := Digits(text[..|text| - 1]);
      match HexValue(text[|text| - 1])
      case Some(digit) => before + [digit]
      case None => before
  }

  /** Digits paired into bytes, the missing ones zero; a digit without a partner is lost. */
  function Paired(digits: seq<byte>): (r: Uuid)
    requires forall i :: 0 <= i < |digits| ==> digits[i] < 16
    ensures forall k :: 0 <= k < 16 ==> r[k] == PairAt(digits, k)
  {
    seq(16, k requires 0 <= k < 16 => PairAt(digits, k))
  }

  function PairAt(digits: seq<byte>, k: nat): byte
    requires forall i :: 0 <= i < |digits| ==> digits[i] < 16
  {
    if 2 * k + 1 < |digits| then digits[2 * k] * 16 + digits[2 * k + 1] else 0
  }

  function FirstUnreadable(text: seq<byte>, from: nat): Option<nat>
    requires from <= |text|
    decreases |text| - from
  {
    if from == |text| then None
    else if !IsReadable(text[from]) then Some(from)
    else FirstUnreadable(text, from + 1)
  }

  /** What the parser makes of a text. */
  function Parsed(text: seq<byte>): Result<Uuid, ParseError> {
    if |text| != 36 then Err(Length(|text|))
    else if text[8] != HYPHEN then Err(Hyphen(8))
    else if text[13] != HYPHEN then Err(Hyphen(13))
    else if text[18] != HYPHEN then Err(Hyphen(18))
    else if text[23] != HYPHEN then Err(Hyphen(23))
    else match FirstUnreadable(text, 0)
      case Some(index) => Err(Hex(index))
      case None => FromCanonicalBytes(Paired(Digits(text)))
  }

  method ParseCanonical(value: seq<byte>) returns (r: Result<Uuid, ParseError>)
    ensures r == Parsed(value)
  {
    if |value| != 36 {
      return Err(Length(|value|));
    }
    var places := [8, 13, 18, 23];
    for k := 0 to |places|
      invariant k > 0 ==> value[8] == HYPHEN
      invariant k > 1 ==> value[13] == HYPHEN
      invariant k > 2 ==> value[18] == HYPHEN
      invariant k > 3 ==> value[23] == HYPHEN
    {
      if value[places[k]] != HYPHEN {
        return Err(Hyphen(places[k]));
      }
    }
    r := ReadDigits(value);
  }

  /** There are never more digits than the array has room for. */
  method ReadDigits(value: seq<byte>) returns (r: Result<Uuid, ParseError>)
    requires |value| == 36 && forall j :: IsPlace(j) ==> value[j] == HYPHEN
    ensures match FirstUnreadable(value, 0)
            case Some(index) => r == Err(Hex(index))
            case None => r == FromCanonicalBytes(Paired(Digits(value)))
  {
    var bytes := new byte[16](_ => 0);
    var byteIndex := 0;
    var highNibble: Option<byte> := None;
    for index := 0 to 36
      invariant FirstUnreadable(value, 0) == FirstUnreadable(value, index)
      invariant |Digits(value[..index])| == 2 * byteIndex + (if highNibble.Some? then 1 else 0)
      invariant |Digits(value[..index])| <= index - PlacesBelow(index)
      invariant highNibble.Some? ==> highNibble.value == Digits(value[..index])[2 * byteIndex]
      invariant byteIndex <= 16
      invariant forall k :: 0 <= k < 16 ==> bytes[k] == PairAt(Digits(value[..index]), k)
    {
      assert value[..index + 1][..index] == value[..index];
      if value[index] == HYPHEN {
        continue;
      }
      match HexValue(value[index]) {
        case None =>
          return Err(Hex(index));
        case Some(nibble) =>
          match highNibble {
            case Some(high) =>
              highNibble := None;
              bytes[byteIndex] := high * 16 + nibble;
              byteIndex := byteIndex + 1;
            case None =>
              highNibble := Some(nibble);
          }
      }
    }
    assert value[..36] == value;
    assert bytes[..] == Paired(Digits(value));
    r := FromCanonicalBytes(bytes[..]);
  }

  /** Hyphens in the four places and nowhere else, and digits in all others. */
  ghost predicate IsGrouped(text: seq<byte>) {
    |text| == 36 && forall i :: 0 <= i < 36 ==> GroupedAt(text[i], i)
  }

  ghost predicate GroupedAt(b: byte, i: nat) {
    if IsPlace(i) then b == HYPHEN else HexValue(b).Some?
  }

  ghost predicate HasNoCapital(text: seq<byte>) {
    forall i :: 0 <= i < |text| ==> !(65 <= text[i] <= 70)
  }

  lemma {:induction false} DigitsOfGrouped(text: seq<byte>, n: nat)
    requires IsGrouped(text) && n <= 36
    ensures |Digits(text[..n])| == n - PlacesBelow(n)
    ensures forall i :: 0 <= i < n && !IsPlace(i) ==>
              i - PlacesBelow(i) < n - PlacesBelow(n)
                && HexValue(text[i]) == Some(Digits(text[..n])[i - PlacesBelow(i)])
  {
    if n > 0 {
      DigitsOfGrouped(text, n - 1);
      assert text[..n][..n - 1] == text[..n - 1];
      assert GroupedAt(text[n - 1], n - 1);
    }
  }

  lemma CanonicalAt(id: Uuid, i: nat)
    requires i < 36
    ensures Canonical(id)[i] ==
            if IsPlace(i) then HYPHEN else LowerHex(NibbleAt(id, i - PlacesBelow(i)))
  {
    hide LowerHex, NibbleAt, HexText;
    var a, b, c, d, e :=
      HexText(id[0..4]), HexText(id[4..6]), HexText(id[6..8]), HexText(id[8..10]), HexText(id[10..16]);
    if i < 8 {
      assert Canonical(id)[i] == a[i];
      NibbleOfSlice(id, 0, 4, i);
    } else if 8 < i < 13 {
      assert Canonical(id)[i] == b[i - 9];
      NibbleOfSlice(id, 4, 6, i - 9);
    } else if 13 < i < 18 {
      assert Canonical(id)[i] == c[i - 14];
      NibbleOfSlice(id, 6, 8, i - 14);
    } else if 18 < i < 23 {
      assert Canonical(id)[i] == d[i - 19];
      NibbleOfSlice(id, 8, 10, i - 19);
    } else if 23 < i {
      assert Canonical(id)[i] == e[i - 24];
      NibbleOfSlice(id, 10, 16, i - 24);
    }
  }

  lemma NibbleOfSlice(id: Uuid, lo: nat, hi: nat, i: nat)
    requires lo <= hi <= 16 && i < 2 * (hi - lo)
    ensures NibbleAt(id[lo..hi], i) == NibbleAt(id, 2 * lo + i)
  {
  }

  lemma CanonicalIsGrouped(id: Uuid)
    ensures IsGrouped(Canonical(id)) && HasNoCapital(Canonical(id))
  {
    var text := Canonical(id);
    forall i | 0 <= i < 36 ensures GroupedAt(text[i], i) && !(65 <= text[i] <= 70) {
      CanonicalAt(id, i);
    }
  }

  /** Where digit `m` of an identifier stands in its text. */
  function PlaceOf(m: nat): (i: nat)
    requires m < 32
    ensures i < 36 && !IsPlace(i) && i - PlacesBelow(i) == m
  {
    if m < 8 then m else if m < 12 then m + 1 else if m < 16 then m + 2 else if m < 20 then m + 3 else m + 4
  }

  lemma GroupedIsReadable(text: seq<byte>, from: nat)
    requires IsGrouped(text) && from <= 36
    ensures FirstUnreadable(text, from) == None
    decreases 36 - from
  {
    if from < 36 {
      assert GroupedAt(text[from], from);
      GroupedIsReadable(text, from + 1);
    }
  }

  /** The digits of a grouped text are the digits of the identifier it parses to. */
  lemma DigitsOfParsed(text: seq<byte>, m: nat)
    requires IsGrouped(text) && m < 32
    ensures |Digits(text)| == 32
    ensures Digits(text)[m] == NibbleAt(Paired(Digits(text)), m)
    ensures HexValue(text[PlaceOf(m)]) == Some(Digits(text)[m])
  {
    hide Digits, Paired, NibbleAt, HexValue;
    DigitsOfGrouped(text, 36);
    assert text[..36] == text;
    NibbleOfPair(Digits(text), m);
  }

  lemma NibbleOfPair(digits: seq<byte>, m: nat)
    requires |digits| == 32 && m < 32 && forall i :: 0 <= i < |digits| ==> digits[i] < 16
    ensures NibbleAt(Paired(digits), m) == digits[m]
  {
    var k := m / 2;
    assert Paired(digits)[k] == PairAt(digits, k) && digits[2 * k] < 16 && digits[2 * k + 1] < 16;
  }

  lemma GroupedParses(text: seq<byte>)
    requires IsGrouped(text)
    ensures Parsed(text) == FromCanonicalBytes(Paired(Digits(text)))
  {
    GroupedIsReadable(text, 0);
    assert GroupedAt(text[8], 8) && GroupedAt(text[13], 13) && GroupedAt(text[18], 18) && GroupedAt(text[23], 23);
  }

  lemma SameNibbles(a: Uuid, b: Uuid)
    requires forall m :: 0 <= m < 32 ==> NibbleAt(a, m) == NibbleAt(b, m)
    ensures a == b
  {
    forall k | 0 <= k < 16 ensures a[k] == b[k] {
      assert NibbleAt(a, 2 * k) == NibbleAt(b, 2 * k) && NibbleAt(a, 2 * k + 1) == NibbleAt(b, 2 * k + 1);
    }
  }

  /** Parsing the text of any sixteen bytes is checking their version and variant. */
  lemma TextRoundTrip(id: Uuid)
    ensures Parsed(Canonical(id)) == FromCanonicalBytes(id)
  {
    hide Canonical, Digits, Paired;
    var text := Canonical(id);
    CanonicalIsGrouped(id);
    GroupedParses(text);
    var back := Paired(Digits(text));
    forall m | 0 <= m < 32 ensures NibbleAt(back, m) == NibbleAt(id, m) {
      DigitsOfParsed(text, m);
      CanonicalAt(id, PlaceOf(m));
    }
    SameNibbles(back, id);
  }

  /** So every allocated identifier is read back from its text. */
  lemma AllocatedRoundTrip(observedAtNs: u64, sequence: u64)
    ensures Parsed(Canonical(IdOf(observedAtNs, sequence))) == Ok(IdOf(observedAtNs, sequence))
  {
    var id := IdOf(observedAtNs, sequence);
    TextRoundTrip(id);
    hide Canonical, Parsed, BigEndian;
  }

  /** An accepted text is the one printed for its identifier unless it has extra hyphens or capitals. */
  lemma TextIsCanonicalWhen(text: seq<byte>)
    requires Parsed(text).Ok?
    ensures text == Canonical(Parsed(text).value) <==> IsGrouped(text) && HasNoCapital(text)
  {
    var id := Parsed(text).value;
    CanonicalIsGrouped(id);
    hide Canonical, Digits, Paired;
    if IsGrouped(text) && HasNoCapital(text) {
      GroupedParses(text);
      hide *;
      forall i | 0 <= i < 36 ensures text[i] == Canonical(id)[i] {
        PrintedAgain(text, id, i);
      }
    }
  }

  lemma PrintedAgain(text: seq<byte>, id: Uuid, i: nat)
    requires IsGrouped(text) && HasNoCapital(text) && i < 36 && id == Paired(Digits(text))
    ensures text[i] == Canonical(id)[i]
  {
    hide Canonical, Digits, Paired;
    CanonicalAt(id, i);
    assert GroupedAt(text[i], i);
    if !IsPlace(i) {
      DigitsOfParsed(text, i - PlacesBelow(i));
    }
  }

  const CAPITAL_TEXT: seq<byte> := Ascii("00000000-0000-7000-8000-00000000000A")

  lemma CapitalTextIsGrouped()
    ensures IsGrouped(CAPITAL_TEXT) && CAPITAL_TEXT[14] == 55 && CAPITAL_TEXT[19] == 56 && CAPITAL_TEXT[35] == 65
  {
  }

  /** The parser does take other texts: this one ends in a capital. */
  lemma CapitalIsAccepted()
    ensures Parsed(CAPITAL_TEXT).Ok? && CAPITAL_TEXT != Canonical(Parsed(CAPITAL_TEXT).value)
  {
    var id := Paired(Digits(CAPITAL_TEXT));
    CapitalTextIsGrouped();
    GroupedParses(CAPITAL_TEXT);
    DigitsOfParsed(CAPITAL_TEXT, 12);
    DigitsOfParsed(CAPITAL_TEXT, 16);
    hide Ascii, Canonical, Digits, Paired, Parsed;
    assert NibbleAt(id, 12) == 7 && NibbleAt(id, 16) == 8;
    TextIsCanonicalWhen(CAPITAL_TEXT);
  }

  /** A hexadecimal digit, in either case. */
  ghost predicate IsHexChar(b: byte) {
    '0' as int <= b <= '9' as int || 'a' as int <= b <= 'f' as int || 'A' as int <= b <= 'F' as int
  }

  /** The error is the first of these that is wrong: the length, a hyphen of
      the four, a character, the version, the variant. */
  ghost predicate IsFirstFault(text: seq<byte>, error: ParseError) {
    var hyphen := '-' as int;
    match error
    case Length(n) => n == |text| && n != 36
    case Hyphen(i) =>
      && |text| == 36 && i in {8, 13, 18, 23} && text[i] != hyphen
      && forall j :: j in {8, 13, 18, 23} && j < i ==> text[j] == hyphen
    case Hex(i) =>
      && HasHyphens(text) && i < 36 && text[i] != hyphen && !IsHexChar(text[i])
      && forall j :: 0 <= j < i ==> text[j] == hyphen || IsHexChar(text[j])
    case Version(n) => HasHyphens(text) && IsAllHex(text) && n == Paired(Digits(text))[6] / 16 && n != 7
    case Variant(n) =>
      && HasHyphens(text) && IsAllHex(text) && n == Paired(Digits(text))[8] / 64 && n != 2
      && Paired(Digits(text))[6] / 16 == 7
  }

  ghost predicate HasHyphens(text: seq<byte>) {
    |text| == 36 && forall j :: j in {8, 13, 18, 23} ==> text[j] == '-' as int
  }

  ghost predicate IsAllHex(text: seq<byte>) {
    forall j :: 0 <= j < |text| ==> text[j] == '-' as int || IsHexChar(text[j])
  }

  lemma {:induction false} FirstUnreadableIs(text: seq<byte>, from: nat)
    requires from <= |text|
    ensures match FirstUnreadable(text, from)
            case None => forall j :: from <= j < |text| ==> text[j] == '-' as int || IsHexChar(text[j])
            case Some(i) =>
              && from <= i < |text| && text[i] != '-' as int && !IsHexChar(text[i])
              && forall j :: from <= j < i ==> text[j] == '-' as int || IsHexChar(text[j])
    decreases |text| - from
  {
    if from < |text| && IsReadable(text[from]) {
      FirstUnreadableIs(text, from + 1);
    }
  }

  /** A text is refused for its first fault, and accepted when it has none. */
  lemma RefusedForFirstFault(text: seq<byte>, error: ParseError)
    ensures Parsed(text) == Err(error) <==> IsFirstFault(text, error)
    ensures Parsed(text).Ok? ==> HasHyphens(text) && IsAllHex(text) && Parsed(text).value == Paired(Digits(text))
    ensures Parsed(text).Ok? && |Digits(text)| < 32 ==> Parsed(text).value[15] == 0
  {
    hide Digits, Paired, IsHexChar, FirstUnreadable;
    if HasHyphens(text) {
      FirstUnreadableIs(text, 0);
    }
  }

  /** Of texts with hyphens in the four places only, those are accepted
      whose version is 7 and whose variant begins with the bits 1 and 0. */
  lemma GroupedIsAcceptedWhen(text: seq<byte>)
    requires IsGrouped(text)
    ensures Parsed(text).Ok? <==>
            && text[14] == '7' as int
            && text[19] in ['8' as int, '9' as int, 'a' as int, 'b' as int, 'A' as int, 'B' as int]
  {
    var id := Paired(Digits(text));
    GroupedParses(text);
    DigitsOfParsed(text, 12);
    DigitsOfParsed(text, 16);
    hide Digits, Paired, Parsed;
    assert GroupedAt(text[14], 14) && GroupedAt(text[19], 19);
    assert NibbleAt(id, 12) == id[6] / 16 && NibbleAt(id, 16) == id[8] / 16;
  }
}
