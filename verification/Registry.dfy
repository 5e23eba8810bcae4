/** Registry strings and lists of strings (src/registry/value.rs, src/client/definition.rs). */
module Registry {
  import opened Collections
  import opened Bytes

  /** What `REG_SZ` and `REG_MULTI_SZ` can hold: text without NUL. */
  predicate IsText(s: seq<byte>) { 0 !in s && IsUtf8(s) }

  predicate AreTexts(items: seq<seq<byte>>) {
    forall i :: 0 <= i < |items| ==> IsText(items[i])
  }

  datatype StringError = StringMissingTerminator | InteriorNul(byteIndex: nat) | StringInvalidUtf8

  function Sz(text: seq<byte>): seq<byte> { text + [0] }

  function DecodeString(data: seq<byte>): Result<seq<byte>, StringError> {
    if data == [] || data[|data| - 1] != 0 then Err(StringMissingTerminator) else
      var payload := data[..|data| - 1];
      var nul := IndexOf(payload, 0);
      if nul < |payload| then Err(InteriorNul(nul))
      else if IsUtf8(payload) then Ok(payload)
      else Err(StringInvalidUtf8)
  }

  /** The bytes accepted are exactly the encodings, and each gives back what was encoded. */
  lemma StringsRoundTrip(data: seq<byte>, text: seq<byte>)
    ensures DecodeString(data) == Ok(text) <==> data == Sz(text) && IsText(text)
  {
    hide IsUtf8;
    if data != [] {
      IndexOfMeans(data[..|data| - 1], 0);
      assert data == data[..|data| - 1] + [data[|data| - 1]];
    }
    assert Sz(text)[..|text|] == text;
  }

  /** `b` stands at its index and nowhere before it. */
  lemma {:induction false} IndexOfMeans(s: seq<byte>, b: byte)
    ensures b !in s[..IndexOf(s, b)]
    ensures IndexOf(s, b) < |s| ==> s[IndexOf(s, b)] == b
  {
    if s != [] && s[0] != b {
      IndexOfMeans(s[1..], b);
      var r := IndexOf(s, b);
      assert s[..r] == [s[0]] + s[1..][..r - 1];
    }
  }

  // ----- lists -----

  datatype ListError = MissingTerminator | InvalidUtf8(itemIndex: nat)

  function Terminated(items: seq<seq<byte>>): seq<byte> {
    if items == [] then [] else Terminated(items[..|items| - 1]) + items[|items| - 1] + [0]
  }

  /** Each item terminated, and the list too. */
  function MultiSz(items: seq<seq<byte>>): seq<byte> { Terminated(items) + [0] }

  method EncodeMultiSz(items: seq<seq<byte>>) returns (data: seq<byte>)
    ensures data == MultiSz(items)
  {
    data := [];
    for i := 0 to |items|
      invariant data == Terminated(items[..i])
    {
      assert items[..i + 1][..i] == items[..i];
      data := data + items[i];
      data := data + [0];
    }
    assert items[..|items|] == items;
    data := data + [0];
  }

  /** The items of the rest of a list, of which `before` have been read. */
  function ItemsOf(rest: seq<byte>, before: nat): Result<seq<seq<byte>>, ListError>
    decreases |rest|
  {
    if rest == [] then Err(MissingTerminator) else
      var end := IndexOf(rest, 0);
      if end == |rest| then Err(MissingTerminator)
      else if end == 0 && |rest| == 1 then Ok([])
      else if !IsUtf8(rest[..end]) then Err(InvalidUtf8(before))
      else match ItemsOf(rest[end + 1..], before + 1)
        case Err(error) => Err(error)
        case Ok(items) => Ok([rest[..end]] + items)
  }

  function DecodeMultiString(data: seq<byte>): Result<seq<seq<byte>>, ListError> {
    if data == [] || data[|data| - 1] != 0 then Err(MissingTerminator) else ItemsOf(data, 0)
  }

  method DecodeRegistryMultiString(data: seq<byte>) returns (r: Result<seq<seq<byte>>, ListError>)
    ensures r == DecodeMultiString(data)
  {
    hide IsUtf8, IndexOf;
    if data == [] || data[|data| - 1] != 0 {
      return Err(MissingTerminator);
    }
    var values: seq<seq<byte>> := [];
    var start, itemIndex := 0, 0;
    assert data[0..] == data && forall items: seq<seq<byte>> :: values + items == items;
    while start < |data|
      invariant start <= |data|
      invariant ItemsOf(data, 0) == match ItemsOf(data[start..], itemIndex)
                                    case Err(error) => Err(error)
                                    case Ok(items) => Ok(values + items)
    {
      var relativeEnd := IndexOf(data[start..], 0);
      if relativeEnd == |data| - start {
        return Err(MissingTerminator);
      }
      var end := start + relativeEnd;
      assert data[start..][..relativeEnd] == data[start..end];
      if end == start && end == |data| - 1 {
        assert values + [] == values;
        return Ok(values);
      }
      if !IsUtf8(data[start..end]) {
        return Err(InvalidUtf8(itemIndex));
      }
      assert data[start..][relativeEnd + 1..] == data[end + 1..];
      assert forall items :: values + ([data[start..end]] + items) == values + [data[start..end]] + items;
      values := values + [data[start..end]];
      itemIndex := itemIndex + 1;
      start := end + 1;
    }
    r := Err(MissingTerminator);
  }

  lemma {:induction false} TerminatedFirst(item: seq<byte>, items: seq<seq<byte>>)
    ensures Terminated([item] + items) == item + [0] + Terminated(items)
  {
    if items == [] {
      assert [item] + items == [item] && Terminated([]) == [] && [item][..0] == [];
      assert Terminated([item]) == [] + item + [0];
    } else {
      var init, last := items[..|items| - 1], items[|items| - 1];
      TerminatedFirst(item, init);
      assert ([item] + items)[..|items|] == [item] + init;
      assert item + [0] + Terminated(init) + last + [0] == item + [0] + (Terminated(init) + last + [0]);
    }
  }

  lemma MultiSzFirst(item: seq<byte>, items: seq<seq<byte>>)
    ensures MultiSz([item] + items) == item + ([0] + MultiSz(items))
  {
    hide Terminated;
    TerminatedFirst(item, items);
    assert item + [0] + Terminated(items) + [0] == item + ([0] + MultiSz(items));
  }

  /** Decoding undoes encoding, empty items included. */
  lemma {:induction false} ItemsOfEncoded(items: seq<seq<byte>>, before: nat)
    requires AreTexts(items)
    ensures ItemsOf(MultiSz(items), before) == Ok(items)
    decreases |items|
  {
    hide IsUtf8, Terminated;
    if items == [] {
      NothingTerminated();
      assert IndexOf([0], 0) == 0;
    } else {
      var item, others := items[0], items[1..];
      var data := MultiSz(items);
      assert items == [item] + others && IsText(item) && AreTexts(others);
      MultiSzFirst(item, others);
      hide MultiSz;
      IndexOfFirst(item, [0] + MultiSz(others), 0);
      assert data[..|item|] == item && data[|item| + 1..] == MultiSz(others);
      ItemsOfEncoded(others, before + 1);
    }
  }

  lemma NothingTerminated()
    ensures Terminated([]) == []
  {
  }

  /** A list that is not empty is its first item and the rest of it. */
  lemma FirstItem(data: seq<byte>, before: nat) returns (item: seq<byte>, rest: seq<byte>)
    requires ItemsOf(data, before).Ok? && data != [0]
    ensures data == item + ([0] + rest) && IsText(item) && ItemsOf(rest, before + 1).Ok?
    ensures ItemsOf(data, before) == Ok([item] + ItemsOf(rest, before + 1).value)
  {
    hide IsUtf8;
    var end := IndexOf(data, 0);
    IndexOfMeans(data, 0);
    assert end == 0 && |data| == 1 ==> data == [0];
    item, rest := data[..end], data[end + 1..];
  }

  /** Encoding undoes decoding, on whatever bytes were accepted. */
  lemma {:induction false} EncodedItemsOf(data: seq<byte>, before: nat)
    requires ItemsOf(data, before).Ok?
    ensures MultiSz(ItemsOf(data, before).value) == data && AreTexts(ItemsOf(data, before).value)
    decreases |data|
  {
    hide IsText, Terminated;
    if data == [0] {
      NothingTerminated();
      assert IndexOf(data, 0) == 0;
    } else {
      hide ItemsOf, MultiSz;
      var item, rest := FirstItem(data, before);
      EncodedItemsOf(rest, before + 1);
      MultiSzFirst(item, ItemsOf(rest, before + 1).value);
    }
  }

  /** Lists and accepted bytes correspond one to one. */
  lemma ListsRoundTrip(data: seq<byte>, items: seq<seq<byte>>)
    ensures DecodeMultiString(data) == Ok(items) <==> data == MultiSz(items) && AreTexts(items)
  {
    hide Terminated, AreTexts;
    if data == MultiSz(items) && AreTexts(items) {
      ItemsOfEncoded(items, 0);
    }
    if DecodeMultiString(data) == Ok(items) {
      EncodedItemsOf(data, 0);
    }
  }
}
