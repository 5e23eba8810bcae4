/** The text of the boot-attempt counter (src/boundary/linux_boot_attempts.rs). */
module CounterText {
  import opened Collections
  import opened Bytes
  import opened Utf8

  datatype CounterError = ReadFailed | Empty | NotAnInteger

  /** The length of the white space character that ends `s`, 0 when it ends otherwise. */
  function TrailingSpace(s: seq<byte>): (n: nat)
    ensures n <= |s|
  {
    var k := |s|;
    if k >= 1 && (9 <= s[k - 1] <= 13 || s[k - 1] == 32) then 1
    else if k >= 2 && s[k - 2] == 0xc2 && (s[k - 1] == 0x85 || s[k - 1] == 0xa0) then 2
    else if k >= 3 && IsWideSpace(s[k - 3], s[k - 2], s[k - 1]) then 3
    else 0
  }

  /** U+1680, U+2000 to U+200A, U+2028, U+2029, U+202F, U+205F and U+3000. */
  predicate IsWideSpace(a: byte, b: byte, c: byte) {
    || (a == 0xe1 && b == 0x9a && c == 0x80)
    || (a == 0xe2 && b == 0x80 && (c <= 0x8a || c == 0xa8 || c == 0xa9 || c == 0xaf) && c >= 0x80)
    || (a == 0xe2 && b == 0x81 && c == 0x9f)
    || (a == 0xe3 && b == 0x80 && c == 0x80)
  }

  function TrimEnd(s: seq<byte>): seq<byte>
    decreases |s|
  {
    if TrailingSpace(s) == 0 then s else TrimEnd(s[..|s| - TrailingSpace(s)])
  }

  predicate AreDigits(s: seq<byte>) {
    forall i :: 0 <= i < |s| ==> IsDigit(s[i])
  }

  /** An unsigned 32-bit number in decimal, which may be signed `+`. */
  function ParseU32(s: seq<byte>): Option<u32> {
    var digits := if s != [] && s[0] == 43 then s[1..] else s;
    if digits == [] || !AreDigits(digits) || DecimalValue(digits) > U32_MAX then None else Some(DecimalValue(digits))
  }

  function ParseCounter(contents: seq<byte>): Result<u32, CounterError> {
    var trimmed := TrimEnd(contents);
    if trimmed == [] then Err(Empty)
    else match ParseU32(trimmed)
      case None => Err(NotAnInteger)
      case Some(n) => Ok(n)
  }

  function Written(value: u32): seq<byte> { Decimal(value) + [10] }

  // ----- what is accepted -----

  /** The characters that Unicode calls white space. */
  ghost predicate IsWhite(c: nat) {
    || 9 <= c <= 13 || c == 0x20 || c == 0x85 || c == 0xa0 || c == 0x1680 || 0x2000 <= c <= 0x200a
    || c == 0x2028 || c == 0x2029 || c == 0x202f || c == 0x205f || c == 0x3000
  }

  ghost predicate AreWhite(text: seq<nat>) { forall i :: 0 <= i < |text| ==> IsWhite(text[i]) }

  lemma WhiteIsScalar(text: seq<nat>)
    requires AreWhite(text)
    ensures AreScalars(text)
  {
  }

  lemma WhiteEnds(s: seq<byte>, c: nat)
    requires IsWhite(c)
    ensures TrailingSpace(s + EncodeScalar(c)) == |EncodeScalar(c)|
  {
    var all, end := s + EncodeScalar(c), EncodeScalar(c);
    assert forall i :: 0 <= i < |end| ==> all[|s| + i] == end[i];
    if 0x2000 <= c <= 0x205f {
      assert c / 4096 == 2 && end[0] == 0xe2;
      assert end[1] == (if c <= 0x202f then 0x80 else 0x81);
      assert end[2] == 0x80 + (if c <= 0x202f then c - 0x2000 else c - 0x2040);
    }
  }

  lemma WideIsWhite(a: byte, b: byte, d: byte) returns (c: nat)
    requires IsWideSpace(a, b, d)
    ensures IsWhite(c) && EncodeScalar(c) == [a, b, d]
  {
    if a == 0xe1 {
      c := 0x1680;
    } else if a == 0xe3 {
      c := 0x3000;
    } else if b == 0x81 {
      c := 0x205f;
    } else {
      var last: int := d;
      c := 0x2000 + last - 0x80;
      assert c / 4096 == 2 && c / 64 % 64 == 0 && c % 64 == last - 0x80;
    }
  }

  lemma EndIsWhite(s: seq<byte>) returns (c: nat)
    requires TrailingSpace(s) > 0
    ensures IsWhite(c) && EncodeScalar(c) == s[|s| - TrailingSpace(s)..]
  {
    var n, k := TrailingSpace(s), |s|;
    if n == 1 {
      c := s[k - 1];
      assert s[k - 1..] == [s[k - 1]];
    } else if n == 2 {
      c := s[k - 1];
      assert s[k - 2..] == [s[k - 2], s[k - 1]];
    } else {
      assert s[k - 3..] == [s[k - 3], s[k - 2], s[k - 1]];
      c := WideIsWhite(s[k - 3], s[k - 2], s[k - 1]);
    }
  }

  lemma {:induction false} EncodeOneMore(text: seq<nat>, c: nat)
    requires AreScalars(text) && IsScalar(c)
    ensures AreScalars(text + [c]) && EncodeText(text + [c]) == EncodeText(text) + EncodeScalar(c)
  {
    if text == [] {
      assert text + [c] == [c] && [c][1..] == [];
    } else {
      assert (text + [c])[1..] == text[1..] + [c];
      EncodeOneMore(text[1..], c);
    }
  }

  lemma Regroups(a: seq<byte>, b: seq<byte>, c: seq<byte>)
    ensures a + b + c == a + (b + c)
  {
  }

  /** Trimming takes off white space, and all of it. */
  lemma {:induction false} TrimmedIs(s: seq<byte>) returns (spaces: seq<nat>)
    ensures AreWhite(spaces) && AreScalars(spaces) && s == TrimEnd(s) + EncodeText(spaces)
    ensures TrailingSpace(TrimEnd(s)) == 0
    decreases |s|
  {
    hide IsWhite, TrimEnd, TrailingSpace, EncodeScalar, EncodeText;
    TrimsOnce(s);
    if TrailingSpace(s) == 0 {
      spaces := [];
      EncodeNothing();
      assert s + [] == s;
    } else {
      var rest := s[..|s| - TrailingSpace(s)];
      var c := EndIsWhite(s);
      assert s == rest + EncodeScalar(c);
      var before := TrimmedIs(rest);
      WhiteIsScalar([c]);
      EncodeOneMore(before, c);
      spaces := before + [c];
      Regroups(TrimEnd(rest), EncodeText(before), EncodeScalar(c));
    }
  }

  lemma TrimsOnce(s: seq<byte>)
    ensures TrimEnd(s) == if TrailingSpace(s) == 0 then s else TrimEnd(s[..|s| - TrailingSpace(s)])
  {
  }

  lemma {:induction false} TrimOfSpaces(s: seq<byte>, spaces: seq<nat>)
    requires TrailingSpace(s) == 0 && AreWhite(spaces) && AreScalars(spaces)
    ensures TrimEnd(s + EncodeText(spaces)) == s
  {
    if spaces == [] {
      assert s + [] == s;
    } else {
      var init, last := spaces[..|spaces| - 1], spaces[|spaces| - 1];
      assert spaces == init + [last];
      EncodeOneMore(init, last);
      hide IsWhite, TrailingSpace, EncodeScalar, EncodeText;
      var before := s + EncodeText(init);
      assert s + EncodeText(spaces) == before + EncodeScalar(last);
      WhiteEnds(before, last);
      assert (before + EncodeScalar(last))[..|before|] == before;
      TrimOfSpaces(s, init);
    }
  }

  /** A decimal number of 32 bits, with or without a plus sign before it and with any white space after it. */
  ghost predicate Spells(contents: seq<byte>, sign: seq<byte>, digits: seq<byte>, spaces: seq<nat>, n: u32) {
    && sign in [[], Ascii("+")] && digits != [] && AreDigits(digits) && DecimalValue(digits) == n
    && AreWhite(spaces) && AreScalars(spaces) && contents == sign + digits + EncodeText(spaces)
  }

  /** A count is read exactly from its spellings, and nothing but white space is an empty one. */
  lemma ReadsExactly(contents: seq<byte>, n: u32)
    ensures ParseCounter(contents) == Ok(n) <==>
            exists sign, digits, spaces :: Spells(contents, sign, digits, spaces, n)
    ensures ParseCounter(contents) == Err(Empty) <==>
            exists spaces :: AreWhite(spaces) && AreScalars(spaces) && contents == EncodeText(spaces)
  {
    hide TrailingSpace, EncodeText, TrimEnd, IsWhite, DecimalValue;
    var spaces := TrimmedIs(contents);
    var trimmed := TrimEnd(contents);
    assert trimmed == [] ==> contents == EncodeText(spaces);
    if ParseCounter(contents) == Ok(n) {
      var signed := trimmed[0] == 43;
      var sign, digits := if signed then Ascii("+") else [], if signed then trimmed[1..] else trimmed;
      assert trimmed == sign + digits;
      assert Spells(contents, sign, digits, spaces, n);
    }
    if sign, digits, spaces' :| Spells(contents, sign, digits, spaces', n) {
      SpellingIsRead(contents, sign, digits, spaces', n);
    }
    if spaces' :| AreWhite(spaces') && AreScalars(spaces') && contents == EncodeText(spaces') {
      NothingTrailing();
      TrimOfSpaces([], spaces');
      assert [] + EncodeText(spaces') == contents;
    }
  }

  lemma NothingTrailing()
    ensures TrailingSpace([]) == 0
  {
  }

  lemma SpellingIsRead(contents: seq<byte>, sign: seq<byte>, digits: seq<byte>, spaces: seq<nat>, n: u32)
    requires Spells(contents, sign, digits, spaces, n)
    ensures ParseCounter(contents) == Ok(n)
  {
    hide TrailingSpace, EncodeText, TrimEnd, IsWhite, DecimalValue;
    var text := sign + digits;
    assert IsDigit(digits[|digits| - 1]) && text[|text| - 1] == digits[|digits| - 1];
    EndsInDigit(text);
    TrimOfSpaces(text, spaces);
    assert Ascii("+") == [43];
    if sign == [] {
      assert text == digits && IsDigit(digits[0]);
    } else {
      assert text[0] == 43 && text[1..] == digits;
    }
  }

  /** What is written is decimal digits and a newline, and is read back. */
  lemma {:induction false} CounterRoundTrip(value: u32)
    ensures ParseCounter(Written(value)) == Ok(value) && Written(value) == Decimal(value) + Ascii("\n")
  {
    var digits := Decimal(value);
    var text := Written(value);
    DecimalRoundTrip(value);
    assert IsDigit(digits[0]) && IsDigit(digits[|digits| - 1]);
    assert TrailingSpace(text) == 1 && text[..|text| - 1] == digits;
    EndsInDigit(digits);
    assert TrimEnd(text) == TrimEnd(digits) == digits;
    assert AreDigits(digits);
  }

  lemma EndsInDigit(s: seq<byte>)
    requires s != [] && IsDigit(s[|s| - 1])
    ensures TrailingSpace(s) == 0
  {
  }
}
