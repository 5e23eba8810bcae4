/** Editing a service definition as registry values, and what turns one into another (src/client/definition.rs). */
module Definitions {
  import opened Collections

  datatype Value = Value(name: seq<byte>, valueType: nat, data: seq<byte>)

  /** A name with its ASCII capitals made small: names are compared this way. */
  function Fold(name: seq<byte>): seq<byte> {
    seq(|name|, i requires 0 <= i < |name| => if 65 <= name[i] <= 90 then name[i] + 32 else name[i])
  }

  const CAPITALS: string := "ABCDEFGHIJKLMNOPQRSTUVWXYZ"
  const SMALL: string := "abcdefghijklmnopqrstuvwxyz"

  /** Each capital becomes its small letter, and nothing else changes. */
  lemma FoldIsLowercase(name: seq<byte>, i: nat)
    requires i < |name|
    ensures |Fold(name)| == |name|
    ensures forall k :: 0 <= k < 26 && name[i] == CAPITALS[k] as int ==> Fold(name)[i] == SMALL[k] as int
    ensures (forall k :: 0 <= k < 26 ==> name[i] != CAPITALS[k] as int) ==> Fold(name)[i] == name[i]
  {
    assert forall k :: 0 <= k < 26 ==> CAPITALS[k] as int == 65 + k && SMALL[k] as int == 97 + k;
    if 65 <= name[i] <= 90 {
      assert name[i] == CAPITALS[name[i] - 65] as int;
    }
  }

  function Key(value: Value): seq<byte> { Fold(value.name) }

  /** The place of the first value of a name, or the number of values when there is none. */
  function Place(values: seq<Value>, key: seq<byte>): (i: nat)
    ensures i <= |values| && (i < |values| ==> Key(values[i]) == key)
    ensures forall j :: 0 <= j < i ==> Key(values[j]) != key
  {
    if values == [] || Key(values[0]) == key then 0 else 1 + Place(values[1..], key)
  }

  function Find(values: seq<Value>, key: seq<byte>): Option<Value> {
    var i := Place(values, key);
    if i < |values| then Some(values[i]) else None
  }

  function Get(values: seq<Value>, field: seq<byte>): Option<Value> { Find(values, Fold(field)) }

  /** No name is repeated, in any case. */
  ghost predicate NamesAreUnique(values: seq<Value>) {
    forall i, j :: 0 <= i < j < |values| ==> Key(values[i]) != Key(values[j])
  }

  lemma FindIsFirst(values: seq<Value>, key: seq<byte>, i: nat)
    requires i < |values| && Key(values[i]) == key
    requires forall j :: 0 <= j < i ==> Key(values[j]) != key
    ensures Find(values, key) == Some(values[i])
  {
  }

  lemma FindNothing(values: seq<Value>, key: seq<byte>)
    ensures Find(values, key) == None <==> forall i :: 0 <= i < |values| ==> Key(values[i]) != key
  {
  }

  class Definition {
    var values: seq<Value>

    constructor (values: seq<Value>)
      ensures this.values == values
    {
      this.values := values;
    }

    /** Take a name away and leave every other value, in order. */
    method Unset(field: seq<byte>)
      modifies this
      ensures Get(values, field) == None
      ensures forall key :: key != Fold(field) ==> Find(values, key) == old(Find(values, key))
      ensures old(NamesAreUnique(values)) ==> NamesAreUnique(values)
    {
      var kept: seq<Value> := [];
      for i := 0 to |values|
        invariant values == old(values)
        invariant kept == Without(values[..i], Fold(field))
      {
        assert values[..i + 1][..i] == values[..i];
        if Key(values[i]) != Fold(field) {
          kept := kept + [values[i]];
        }
      }
      assert values[..|values|] == values;
      forall key ensures Find(kept, key) == if key == Fold(field) then None else old(Find(values, key)) {
        FindWithout(values, Fold(field), key);
      }
      if NamesAreUnique(values) {
        WithoutIsUnique(values, Fold(field));
      }
      values := kept;
    }

    /** Give a name a value, under the name it has if it has one; nothing else changes. */
    method Put(name: seq<byte>, valueType: nat, data: seq<byte>)
      modifies this
      ensures var had := old(Get(values, name));
              Get(values, name) == Some(Value(if had.Some? then had.value.name else name, valueType, data))
      ensures forall key :: key != Fold(name) ==> Find(values, key) == old(Find(values, key))
      ensures old(NamesAreUnique(values)) ==> NamesAreUnique(values)
    {
      ghost var before := values;
      var i := 0;
      while i < |values| && Key(values[i]) != Fold(name)
        invariant i <= |values| && forall j :: 0 <= j < i ==> Key(values[j]) != Fold(name)
      {
        i := i + 1;
      }
      if i < |values| {
        FindIsFirst(before, Fold(name), i);
        values := values[i := values[i].(valueType := valueType, data := data)];
        forall key ensures Place(values, key) == Place(before, key) {
          SamePlace(before, values, key);
        }
      } else {
        FindNothing(before, Fold(name));
        values := values + [Value(name, valueType, data)];
        FindIsFirst(values, Fold(name), |before|);
        forall key | key != Fold(name) ensures Find(values, key) == Find(before, key) {
          FindInLonger(before, Value(name, valueType, data), key);
        }
      }
    }
  }

  function Without(values: seq<Value>, key: seq<byte>): seq<Value> {
    if values == [] then [] else
      var before := Without(values[..|values| - 1], key);
      if Key(values[|values| - 1]) == key then before else before + [values[|values| - 1]]
  }

  lemma FindInLonger(values: seq<Value>, value: Value, key: seq<byte>)
    ensures Find(values + [value], key) ==
            if Find(values, key) == None && Key(value) == key then Some(value) else Find(values, key)
  {
    var i := Place(values, key);
    assert forall j :: 0 <= j < |values| ==> (values + [value])[j] == values[j];
    if i < |values| {
      FindIsFirst(values + [value], key, i);
    } else if Key(value) == key {
      FindIsFirst(values + [value], key, |values|);
    } else {
      FindNothing(values + [value], key);
    }
  }

  lemma {:induction false} FindWithout(values: seq<Value>, gone: seq<byte>, key: seq<byte>)
    ensures Find(Without(values, gone), key) == if key == gone then None else Find(values, key)
  {
    if values != [] {
      var init, last := values[..|values| - 1], values[|values| - 1];
      FindWithout(init, gone, key);
      assert values == init + [last];
      FindInLonger(init, last, key);
      FindInLonger(Without(init, gone), last, key);
    }
  }

  lemma {:induction false} WithoutIsUnique(values: seq<Value>, gone: seq<byte>)
    requires NamesAreUnique(values)
    ensures NamesAreUnique(Without(values, gone))
  {
    if values != [] {
      var init, last := values[..|values| - 1], values[|values| - 1];
      WithoutIsUnique(init, gone);
      FindNothing(init, Key(last));
      FindWithout(init, gone, Key(last));
      FindNothing(Without(init, gone), Key(last));
    }
  }

  lemma {:induction false} SamePlace(a: seq<Value>, b: seq<Value>, key: seq<byte>)
    requires |a| == |b| && forall i :: 0 <= i < |a| ==> Key(a[i]) == Key(b[i])
    ensures Place(a, key) == Place(b, key)
  {
    if a != [] && Key(a[0]) != key {
      SamePlace(a[1..], b[1..], key);
    }
  }

  // ----- changes -----

  datatype Change = Set(value: Value) | Unset(name: seq<byte>)

  function ChangedKey(change: Change): seq<byte> {
    match change
    case Set(value) => Key(value)
    case Unset(name) => Fold(name)
  }

  /** The values of `to` that `from` does not hold under their names. */
  function Sets(from: seq<Value>, to: seq<Value>): seq<Change> {
    if to == [] then [] else
      var last := to[|to| - 1];
      if Get(from, last.name) != Some(last) then Sets(from, to[..|to| - 1]) + [Set(last)]
      else Sets(from, to[..|to| - 1])
  }

  /** The names of `from` that `to` has no value for. */
  function Unsets(from: seq<Value>, to: seq<Value>): seq<Change> {
    if from == [] then [] else
      var last := from[|from| - 1];
      if Get(to, last.name) == None then Unsets(from[..|from| - 1], to) + [Unset(last.name)]
      else Unsets(from[..|from| - 1], to)
  }

  function Changes(from: seq<Value>, to: seq<Value>): seq<Change> { Sets(from, to) + Unsets(from, to) }

  /** A registry key: its values by name, in any case. */
  type Store = map<seq<byte>, Value>

  function At(store: Store, key: seq<byte>): Option<Value> {
    if key in store then Some(store[key]) else None
  }

  function Apply(store: Store, change: Change): Store {
    match change
    case Set(value) => store[Key(value) := value]
    case Unset(name) => store - {Fold(name)}
  }

  function ApplyAll(store: Store, changes: seq<Change>): Store {
    if changes == [] then store
    else Apply(ApplyAll(store, changes[..|changes| - 1]), changes[|changes| - 1])
  }

  /** A key that holds a definition. */
  ghost predicate Holds(store: Store, values: seq<Value>) {
    forall key :: At(store, key) == Find(values, key)
  }

  /** The last value of `to` under a name that `from` does not hold there. */
  function LastChanged(from: seq<Value>, to: seq<Value>, key: seq<byte>): Option<Value> {
    if to == [] then None else
      var last := to[|to| - 1];
      if Key(last) == key && Find(from, key) != Some(last) then Some(last)
      else LastChanged(from, to[..|to| - 1], key)
  }

  lemma {:induction false} ApplyInTwo(store: Store, a: seq<Change>, b: seq<Change>)
    ensures ApplyAll(store, a + b) == ApplyAll(ApplyAll(store, a), b)
  {
    if b == [] {
      assert a + b == a;
    } else {
      ApplyInTwo(store, a, b[..|b| - 1]);
      assert (a + b)[..|a + b| - 1] == a + b[..|b| - 1];
    }
  }

  lemma ApplyOneMore(store: Store, changes: seq<Change>, change: Change)
    ensures ApplyAll(store, changes + [change]) == Apply(ApplyAll(store, changes), change)
  {
    assert (changes + [change])[..|changes|] == changes;
  }

  lemma {:induction false} AfterSets(store: Store, from: seq<Value>, to: seq<Value>, key: seq<byte>)
    ensures At(ApplyAll(store, Sets(from, to)), key) ==
            match LastChanged(from, to, key) case Some(value) => Some(value) case None => At(store, key)
  {
    hide Find, Fold;
    if to != [] {
      var init, last := to[..|to| - 1], to[|to| - 1];
      AfterSets(store, from, init, key);
      if Get(from, last.name) != Some(last) {
        ApplyOneMore(store, Sets(from, init), Set(last));
      }
      hide ApplyAll;
    }
  }

  lemma {:induction false} AfterUnsets(store: Store, from: seq<Value>, to: seq<Value>, key: seq<byte>)
    ensures At(ApplyAll(store, Unsets(from, to)), key) ==
            if Find(from, key).Some? && Find(to, key) == None then None else At(store, key)
  {
    hide Find, Fold;
    if from == [] {
      FindNothing(from, key);
    } else {
      var init, last := from[..|from| - 1], from[|from| - 1];
      AfterUnsets(store, init, to, key);
      assert from == init + [last];
      FindInLonger(init, last, key);
      if Get(to, last.name) == None {
        ApplyOneMore(store, Unsets(init, to), Unset(last.name));
      }
      hide ApplyAll;
    }
  }

  lemma {:induction false} NothingChanged(from: seq<Value>, to: seq<Value>, key: seq<byte>)
    ensures LastChanged(from, to, key) == None && Find(to, key).Some? ==> Find(from, key) == Find(to, key)
    ensures LastChanged(from, to, key).Some? ==> Find(to, key).Some?
  {
    hide Find;
    if to == [] {
      FindNothing(to, key);
    } else {
      var init, last := to[..|to| - 1], to[|to| - 1];
      NothingChanged(from, init, key);
      assert to == init + [last];
      FindInLonger(init, last, key);
    }
  }

  /** What stands under a name once the changes are made. */
  lemma AfterChanges(store: Store, from: seq<Value>, to: seq<Value>, key: seq<byte>)
    requires Holds(store, from)
    ensures At(ApplyAll(store, Changes(from, to)), key) ==
            match LastChanged(from, to, key) case Some(value) => Some(value) case None => Find(to, key)
  {
    hide Find, ApplyAll, Sets, Unsets, LastChanged;
    ApplyInTwo(store, Sets(from, to), Unsets(from, to));
    AfterSets(store, from, to, key);
    AfterUnsets(ApplyAll(store, Sets(from, to)), from, to, key);
    NothingChanged(from, to, key);
  }

  /** The changes give every name its value in `to` exactly when no later value of `to` under a name overrides it. */
  lemma ChangesAreRightWhen(store: Store, from: seq<Value>, to: seq<Value>)
    requires Holds(store, from)
    ensures Holds(ApplyAll(store, Changes(from, to)), to) <==>
            forall key :: LastChanged(from, to, key).Some? ==> LastChanged(from, to, key) == Find(to, key)
  {
    hide Find, ApplyAll, Changes, LastChanged;
    forall key
      ensures At(ApplyAll(store, Changes(from, to)), key) ==
              match LastChanged(from, to, key) case Some(value) => Some(value) case None => Find(to, key)
    {
      AfterChanges(store, from, to, key);
    }
  }

  lemma {:induction false} UniqueChange(from: seq<Value>, to: seq<Value>, key: seq<byte>)
    requires NamesAreUnique(to)
    ensures LastChanged(from, to, key) == if Find(from, key) != Find(to, key) then Find(to, key) else None
  {
    hide Find;
    if to == [] {
      FindNothing(to, key);
    } else {
      var init, last := to[..|to| - 1], to[|to| - 1];
      UniqueChange(from, init, key);
      assert to == init + [last];
      FindInLonger(init, last, key);
      FindNothing(init, Key(last));
    }
  }

  /** With no name repeated in `to`, applying the changes gives every name its value there. */
  lemma ChangesAreRight(store: Store, from: seq<Value>, to: seq<Value>)
    requires Holds(store, from) && NamesAreUnique(to)
    ensures Holds(ApplyAll(store, Changes(from, to)), to)
  {
    hide Find, ApplyAll, Changes, LastChanged;
    forall key ensures LastChanged(from, to, key).Some? ==> LastChanged(from, to, key) == Find(to, key) {
      UniqueChange(from, to, key);
    }
    ChangesAreRightWhen(store, from, to);
  }

  /** A repeated name defeats them: the last of its values is written, and the first is the one read. */
  lemma RepeatedNameIsWrong()
    ensures var to := [Value([97], 1, [1]), Value([65], 1, [2])];
            !Holds(ApplyAll(map[], Changes([], to)), to)
  {
    var first, second := Value([97], 1, [1]), Value([65], 1, [2]);
    var to := [first, second];
    assert Fold([65]) == [97] && Fold([97]) == [97];
    assert Find(to, [97]) == Some(first);
    assert to[..1] == [first] && [first][..0] == [];
    assert LastChanged([], to, [97]) == Some(second);
    AfterChanges(map[], [], to, [97]);
  }

  ghost predicate Touches(changes: seq<Change>, key: seq<byte>) {
    exists i :: 0 <= i < |changes| && ChangedKey(changes[i]) == key
  }

  lemma {:induction false} SetsTouch(from: seq<Value>, to: seq<Value>, key: seq<byte>)
    ensures Touches(Sets(from, to), key) <==> LastChanged(from, to, key).Some?
  {
    hide Find, Fold;
    if to != [] {
      var init, last := to[..|to| - 1], to[|to| - 1];
      SetsTouch(from, init, key);
      if Get(from, last.name) != Some(last) {
        TouchesOneMore(Sets(from, init), Set(last), key);
      }
    }
  }

  lemma {:induction false} UnsetsTouch(from: seq<Value>, to: seq<Value>, key: seq<byte>)
    ensures Touches(Unsets(from, to), key) <==> Find(from, key).Some? && Find(to, key) == None
  {
    hide Find, Fold;
    if from == [] {
      FindNothing(from, key);
    } else {
      var init, last := from[..|from| - 1], from[|from| - 1];
      UnsetsTouch(init, to, key);
      assert from == init + [last];
      FindInLonger(init, last, key);
      if Get(to, last.name) == None {
        TouchesOneMore(Unsets(init, to), Unset(last.name), key);
      }
    }
  }

  lemma TouchesOneMore(changes: seq<Change>, change: Change, key: seq<byte>)
    ensures Touches(changes + [change], key) <==> Touches(changes, key) || ChangedKey(change) == key
  {
    var all := changes + [change];
    assert all[|changes|] == change;
    if Touches(changes, key) {
      var i :| 0 <= i < |changes| && ChangedKey(changes[i]) == key;
      assert all[i] == changes[i];
    }
  }

  /** Exactly the names whose values differ are touched. */
  lemma OnlyDifferencesAreTouched(from: seq<Value>, to: seq<Value>, key: seq<byte>)
    requires NamesAreUnique(to)
    ensures Touches(Changes(from, to), key) <==> Find(from, key) != Find(to, key)
  {
    hide Find, Sets, Unsets, LastChanged;
    SetsTouch(from, to, key);
    UnsetsTouch(from, to, key);
    UniqueChange(from, to, key);
    TouchesJoin(Sets(from, to), Unsets(from, to), key);
  }

  lemma TouchesJoin(a: seq<Change>, b: seq<Change>, key: seq<byte>)
    ensures Touches(a + b, key) <==> Touches(a, key) || Touches(b, key)
  {
    if Touches(a, key) {
      var i :| 0 <= i < |a| && ChangedKey(a[i]) == key;
      assert (a + b)[i] == a[i];
    }
    if Touches(b, key) {
      var i :| 0 <= i < |b| && ChangedKey(b[i]) == key;
      assert (a + b)[|a| + i] == b[i];
    }
  }
}
