/** Byte strings: numbers in binary, decimal and hexadecimal, and well-formed UTF-8. */
module Bytes {
  import opened Collections

  /** The sixteen bytes of a UUID, as RFC 9562 orders them. */
  type Uuid = id: seq<byte> | |id| == 16 witness seq(16, _ => 0)

  /** The ASCII bytes of a literal. */
  function Ascii(text: string): (r: seq<byte>)
    requires forall i :: 0 <= i < |text| ==> text[i] as int < 128
    ensures |r| == |text|
  {
    seq(|text|, i requires 0 <= i < |text| => var b: byte := text[i] as int; b)
  }

  /** The low `width` bytes of `n`, most significant first. */
  function BigEndian(n: nat, width: nat): (r: seq<byte>)
    ensures |r| == width
  {
    if width == 0 then [] else BigEndian(n / 256, width - 1) + [n % 256]
  }

  /** The number that bytes spell, most significant first. */
  function FromBigEndian(bytes: seq<byte>): nat {
    if bytes == [] then 0 else FromBigEndian(bytes[..|bytes| - 1]) * 256 + bytes[|bytes| - 1]
  }

  function FromLittleEndian(bytes: seq<byte>): nat {
    if bytes == [] then 0 else bytes[0] + 256 * FromLittleEndian(bytes[1..])
  }

  function Pow256(width: nat): nat { if width == 0 then 1 else 256 * Pow256(width - 1) }

  lemma {:induction false} BigEndianRoundTrip(n: nat, width: nat)
    requires n < Pow256(width)
    ensures FromBigEndian(BigEndian(n, width)) == n
  {
    if width > 0 {
      BigEndianRoundTrip(n / 256, width - 1);
      assert BigEndian(n, width)[..width - 1] == BigEndian(n / 256, width - 1);
    }
  }

  const NEWLINE: byte := 10

  /** The place of the first `b`, or the length when there is none. */
  function IndexOf(s: seq<byte>, b: byte): (r: nat)
    ensures r <= |s|
  {
    if s == [] || s[0] == b then 0 else 1 + IndexOf(s[1..], b)
  }

  lemma {:induction false} IndexOfFirst(a: seq<byte>, rest: seq<byte>, b: byte)
    requires b !in a && (rest == [] || rest[0] == b)
    ensures IndexOf(a + rest, b) == |a|
  {
    if a == [] {
      assert a + rest == rest;
    } else {
      IndexOfFirst(a[1..], rest, b);
      assert (a + rest)[1..] == a[1..] + rest && a[0] in a;
    }
  }

  // ----- decimal -----

  predicate IsDigit(b: byte) { 48 <= b <= 57 }

  function Decimal(n: nat): (r: seq<byte>)
    ensures r != [] && forall i :: 0 <= i < |r| ==> IsDigit(r[i])
  {
    if n < 10 then [48 + n] else Decimal(n / 10) + [48 + n % 10]
  }

  function DecimalValue(digits: seq<byte>): nat
    requires forall i :: 0 <= i < |digits| ==> IsDigit(digits[i])
  {
    if digits == [] then 0 else
      assert IsDigit(digits[|digits| - 1]);
      DecimalValue(digits[..|digits| - 1]) * 10 + digits[|digits| - 1] - 48
  }

  lemma {:induction false} DecimalRoundTrip(n: nat)
    ensures DecimalValue(Decimal(n)) == n
  {
    if n < 10 {
      assert DecimalValue([48 + n][..0]) == 0;
    } else {
      DecimalRoundTrip(n / 10);
      assert Decimal(n)[..|Decimal(n)| - 1] == Decimal(n / 10);
    }
  }

  // ----- hexadecimal -----

  function HexValue(b: byte): (r: Option<byte>)
    ensures r.Some? ==> r.value < 16
  {
    if 48 <= b <= 57 then Some(b - 48)
    else if 97 <= b <= 102 then Some(b - 87)
    else if 65 <= b <= 70 then Some(b - 55)
    else None
  }

  function LowerHex(nibble: byte): (r: byte)
    requires nibble < 16
    ensures HexValue(r) == Some(nibble)
  {
    if nibble < 10 then 48 + nibble else 87 + nibble
  }

  function UpperHex(nibble: byte): (r: byte)
    requires nibble < 16
    ensures HexValue(r) == Some(nibble)
  {
    if nibble < 10 then 48 + nibble else 55 + nibble
  }

  // ----- UTF-8 (section 4 of RFC 3629) -----

  predicate IsContinuation(b: byte) { 0x80 <= b <= 0xbf }

  /** The length of the well-formed character `s` begins with, 0 when there is none. */
  function CharLength(s: seq<byte>): (n: nat)
    ensures n <= |s|
  {
    if s == [] then 0
    else if s[0] <= 0x7f then 1
    else if 0xc2 <= s[0] <= 0xdf && |s| >= 2 && IsContinuation(s[1]) then 2
    else if |s| >= 3 && IsContinuation(s[2]) && SecondOfThree(s[0], s[1]) then 3
    else if |s| >= 4 && IsContinuation(s[2]) && IsContinuation(s[3]) && SecondOfFour(s[0], s[1]) then 4
    else 0
  }

  predicate SecondOfThree(lead: byte, second: byte) {
    || (lead == 0xe0 && 0xa0 <= second <= 0xbf)
    || (0xe1 <= lead <= 0xec && IsContinuation(second))
    || (lead == 0xed && 0x80 <= second <= 0x9f)
    || (0xee <= lead <= 0xef && IsContinuation(second))
  }

  predicate SecondOfFour(lead: byte, second: byte) {
    || (lead == 0xf0 && 0x90 <= second <= 0xbf)
    || (0xf1 <= lead <= 0xf3 && IsContinuation(second))
    || (lead == 0xf4 && 0x80 <= second <= 0x8f)
  }

  predicate IsUtf8(s: seq<byte>) {
    s == [] || (CharLength(s) > 0 && IsUtf8(s[CharLength(s)..]))
  }
}
