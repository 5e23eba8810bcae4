/** What well-formed UTF-8 is: the encodings of Unicode scalar values (section 3 of RFC 3629). */
module Utf8 {
  import opened Collections
  import opened Bytes

  predicate IsScalar(c: nat) { c <= 0xd7ff || 0xe000 <= c <= 0x10ffff }

  function EncodeScalar(c: nat): seq<byte>
    requires IsScalar(c)
  {
    if c < 0x80 then [c]
    else if c < 0x800 then [0xc0 + c / 64, 0x80 + c % 64]
    else if c < 0x10000 then [0xe0 + c / 4096, 0x80 + c / 64 % 64, 0x80 + c % 64]
    else [0xf0 + c / 262144, 0x80 + c / 4096 % 64, 0x80 + c / 64 % 64, 0x80 + c % 64]
  }

  predicate AreScalars(text: seq<nat>) { forall i :: 0 <= i < |text| ==> IsScalar(text[i]) }

  function EncodeText(text: seq<nat>): seq<byte>
    requires AreScalars(text)
  {
    if text == [] then [] else EncodeScalar(text[0]) + EncodeText(text[1..])
  }

  lemma ScalarIsChar(c: nat, rest: seq<byte>)
    requires IsScalar(c)
    ensures CharLength(EncodeScalar(c) + rest) == |EncodeScalar(c)| > 0
  {
    var s := EncodeScalar(c) + rest;
    assert forall i :: 0 <= i < |EncodeScalar(c)| ==> s[i] == EncodeScalar(c)[i];
  }

  lemma CharIsScalar(s: seq<byte>) returns (c: nat)
    requires CharLength(s) > 0
    ensures IsScalar(c) && EncodeScalar(c) == s[..CharLength(s)]
  {
    if s[0] <= 0x7f {
      c := s[0];
      assert s[..1] == [s[0]];
    } else if CharLength(s) == 2 {
      c := TwoBytes(s[0], s[1]);
      assert s[..2] == [s[0], s[1]];
    } else if CharLength(s) == 3 {
      c := ThreeBytes(s[0], s[1], s[2]);
      assert s[..3] == [s[0], s[1], s[2]];
    } else {
      c := FourBytes(s[0], s[1], s[2], s[3]);
      assert s[..4] == [s[0], s[1], s[2], s[3]];
    }
  }

  lemma TwoBytes(a: byte, b: byte) returns (c: nat)
    requires 0xc2 <= a <= 0xdf && IsContinuation(b)
    ensures IsScalar(c) && EncodeScalar(c) == [a, b]
  {
    var x: int, y: int := a - 0xc0, b - 0x80;
    c := x * 64 + y;
    assert c / 64 == x && c % 64 == y;
  }

  lemma ThreeBytes(a: byte, b: byte, d: byte) returns (c: nat)
    requires SecondOfThree(a, b) && IsContinuation(d)
    ensures IsScalar(c) && EncodeScalar(c) == [a, b, d]
  {
    var x, y, z := a - 0xe0, b - 0x80, d - 0x80;
    c := x * 4096 + y * 64 + z;
    assert c / 64 == x * 64 + y && c % 64 == z;
    assert c / 4096 == x && c / 64 % 64 == y;
  }

  lemma FourBytes(a: byte, b: byte, d: byte, e: byte) returns (c: nat)
    requires SecondOfFour(a, b) && IsContinuation(d) && IsContinuation(e)
    ensures IsScalar(c) && EncodeScalar(c) == [a, b, d, e]
  {
    var w, x, y, z := a - 0xf0, b - 0x80, d - 0x80, e - 0x80;
    c := w * 262144 + x * 4096 + y * 64 + z;
    assert c / 64 == w * 4096 + x * 64 + y && c % 64 == z;
    assert c / 4096 == w * 64 + x && c / 64 % 64 == y;
    assert c / 262144 == w && c / 4096 % 64 == x;
  }

  lemma {:induction false} TextIsUtf8(text: seq<nat>)
    requires AreScalars(text)
    ensures IsUtf8(EncodeText(text))
  {
    if text != [] {
      var rest := EncodeText(text[1..]);
      TextIsUtf8(text[1..]);
      ScalarIsChar(text[0], rest);
      assert (EncodeScalar(text[0]) + rest)[|EncodeScalar(text[0])|..] == rest;
    }
  }

  lemma EncodeCons(c: nat, rest: seq<nat>)
    requires IsScalar(c) && AreScalars(rest)
    ensures AreScalars([c] + rest) && EncodeText([c] + rest) == EncodeScalar(c) + EncodeText(rest)
  {
    assert ([c] + rest)[1..] == rest;
  }

  lemma FirstChar(s: seq<byte>)
    requires s != [] && IsUtf8(s)
    ensures CharLength(s) > 0 && IsUtf8(s[CharLength(s)..]) && s == s[..CharLength(s)] + s[CharLength(s)..]
  {
  }

  lemma EncodeNothing()
    ensures EncodeText([]) == []
  {
  }

  lemma {:induction false} Utf8IsText(s: seq<byte>) returns (text: seq<nat>)
    requires IsUtf8(s)
    ensures AreScalars(text) && EncodeText(text) == s
    decreases |s|
  {
    hide IsUtf8, CharLength, EncodeScalar, EncodeText;
    if s == [] {
      text := [];
      EncodeNothing();
    } else {
      FirstChar(s);
      var c := CharIsScalar(s);
      var rest := Utf8IsText(s[CharLength(s)..]);
      text := [c] + rest;
      EncodeCons(c, rest);
    }
  }

  /** Bytes are accepted exactly when they encode a sequence of scalar values. */
  lemma Utf8Exactly(s: seq<byte>)
    ensures IsUtf8(s) <==> exists text :: AreScalars(text) && EncodeText(text) == s
  {
    if IsUtf8(s) {
      var text := Utf8IsText(s);
    }
    if text :| AreScalars(text) && EncodeText(text) == s {
      TextIsUtf8(text);
    }
  }
}
