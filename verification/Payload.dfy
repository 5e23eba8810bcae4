/** An event payload under construction: nested maps that behave as
    one flat map of dotted paths (src/kmes/payload.rs). */
module Payload {
  import opened Collections

  datatype Value =
    | Str(text: string)
    | Uint(n: u64)
    | Int(i: int)
    | Bool(b: bool)
    | Bin(bytes: seq<byte>)
    | StrArray(items: seq<string>)
    | BinArray(blobs: seq<seq<byte>>)

  datatype Node = Leaf(value: Value) | Map(entries: seq<Field>)

  datatype Field = Field(key: string, node: Node)

  type Level = seq<Field>

  type Path = seq<string>

  /** The segments joined by dots. */
  function Dotted(segments: Path): string {
    if |segments| == 0 then "" else if |segments| == 1 then segments[0] else segments[0] + "." + Dotted(segments[1..])
  }

  /** A dotted path's segments: at least one, none holding a dot, and together the path. */
  function Segments(path: string): (r: Path)
    ensures r != [] && (forall s :: s in r ==> '.' !in s) && Dotted(r) == path
  {
    if path == "" then [""] else
      var rest := Segments(path[1..]);
      if path[0] == '.' then
        assert path == "" + "." + path[1..];
        [""] + rest
      else
        var r := [[path[0]] + rest[0]] + rest[1..];
        assert r[1..] == rest[1..];
        assert path == [path[0]] + path[1..];
        r
  }

  /** Where `key` first stands, or the length when it does not. */
  function Position(level: Level, key: string): (i: nat)
    ensures i <= |level| && (forall j :: 0 <= j < i ==> level[j].key != key)
    ensures i < |level| ==> level[i].key == key
  {
    if level == [] || level[0].key == key then 0 else 1 + Position(level[1..], key)
  }

  /** The node under `key`. */
  function Found(level: Level, key: string): Option<Node> {
    var i := Position(level, key);
    if i < |level| then Some(level[i].node) else None
  }

  function Children(level: Level, key: string): Level {
    match Found(level, key)
    case Some(Map(entries)) => entries
    case _ => []
  }

  /** `key` made to hold `node`, where it stands or at the end. */
  function Put(level: Level, key: string, node: Node): Level {
    var i := Position(level, key);
    if i < |level| then level[i := level[i].(node := node)] else level + [Field(key, node)]
  }

  /** What setting `path` leaves under its first segment. */
  function NodeFor(level: Level, path: Path, value: Value): Node
    requires path != []
    decreases |path|, 0
  {
    if |path| == 1 then Leaf(value) else Map(SetAt(Children(level, path[0]), path[1..], value))
  }

  function SetAt(level: Level, path: Path, value: Value): Level
    requires path != []
    decreases |path|, 1
  {
    Put(level, path[0], NodeFor(level, path, value))
  }

  function Lookup(level: Level, path: Path): Option<Value>
    decreases |path|
  {
    if path == [] then None
    else if |path| == 1 then
      match Found(level, path[0])
      case Some(Leaf(value)) => Some(value)
      case _ => None
    else Lookup(Children(level, path[0]), path[1..])
  }

  /** One path leads through the other. */
  predicate Overlap(p: Path, q: Path) { p <= q || q <= p }

  lemma TailsCompare(p: Path, q: Path)
    requires p != [] && q != [] && p[0] == q[0]
    ensures (p == q <==> p[1..] == q[1..]) && (Overlap(p, q) <==> Overlap(p[1..], q[1..]))
  {
    assert p == [p[0]] + p[1..] && q == [q[0]] + q[1..];
  }

  lemma PositionIs(level: Level, key: string, i: nat)
    requires i <= |level| && (forall j :: 0 <= j < i ==> level[j].key != key) && (i < |level| ==> level[i].key == key)
    ensures Position(level, key) == i
  {
  }

  lemma FoundAfterPut(level: Level, key: string, node: Node, other: string)
    ensures Found(Put(level, key, node), other) == if other == key then Some(node) else Found(level, other)
  {
    var level', i := Put(level, key, node), Position(level, key);
    PositionIs(level', key, i);
    if other != key {
      var j := Position(level, other);
      PositionIs(level', other, if j < |level| then j else |level'|);
    }
  }

  lemma NothingInEmpty(q: Path)
    ensures Lookup([], q) == None
  {
  }

  /** Setting a path sets it, clears whatever it runs through or covers, and leaves every other path alone. */
  lemma {:induction false} LookupAfterSet(level: Level, p: Path, value: Value, q: Path)
    requires p != []
    ensures Lookup(SetAt(level, p, value), q) ==
            if q == p then Some(value) else if Overlap(p, q) then None else Lookup(level, q)
    decreases |p|
  {
    if q != [] {
      FoundAfterPut(level, p[0], NodeFor(level, p, value), q[0]);
      hide SetAt, Found, Overlap;
      if q[0] != p[0] {
        ApartAtHead(p, q);
      } else {
        TailsCompare(p, q);
        OverlapEmpty(p[1..]);
        OverlapEmpty(q[1..]);
        if |p| == 1 && |q| > 1 {
          NothingInEmpty(q[1..]);
        } else if |p| > 1 && |q| > 1 {
          LookupAfterSet(Children(level, p[0]), p[1..], value, q[1..]);
        }
      }
    } else {
      OverlapEmpty(p);
    }
  }

  lemma ApartAtHead(p: Path, q: Path)
    requires p != [] && q != [] && p[0] != q[0]
    ensures !Overlap(p, q)
  {
  }

  lemma OverlapEmpty(p: Path)
    ensures Overlap(p, []) && Overlap([], p)
  {
  }

  /** Keys are unique and no nested map is empty, at every level. */
  ghost predicate WellFormed(level: Level) {
    && (forall i, j :: 0 <= i < j < |level| ==> level[i].key != level[j].key)
    && (forall i :: 0 <= i < |level| && level[i].node.Map? ==>
          level[i].node.entries != [] && WellFormed(level[i].node.entries))
  }

  lemma {:induction false} SetKeepsWellFormed(level: Level, path: Path, value: Value)
    requires path != [] && WellFormed(level)
    ensures WellFormed(SetAt(level, path, value)) && SetAt(level, path, value) != []
    decreases |path|
  {
    if |path| > 1 {
      SetKeepsWellFormed(Children(level, path[0]), path[1..], value);
    }
  }

  /** The branches a debug build asserts against: a value where the path goes on, or a map where it ends. */
  predicate HitsConflict(level: Level, path: Path)
    decreases |path|
  {
    if path == [] then false else
      match Found(level, path[0])
      case Some(Leaf(_)) => |path| > 1
      case Some(Map(entries)) => |path| == 1 || HitsConflict(entries, path[1..])
      case None => false
  }

  /** Some path below a nonempty level holds a value. */
  lemma {:induction false} SomethingIsSet(level: Level) returns (q: Path)
    requires WellFormed(level) && level != []
    ensures q != [] && Lookup(level, q).Some?
  {
    PositionIs(level, level[0].key, 0);
    match level[0].node {
      case Leaf(_) => q := [level[0].key];
      case Map(entries) =>
        var below := SomethingIsSet(entries);
        q := [level[0].key] + below;
    }
  }

  lemma ChildrenAreWellFormed(level: Level, key: string)
    requires WellFormed(level)
    ensures WellFormed(Children(level, key))
  {
  }

  /** A conflict is reached exactly when a different path that overlaps is set. */
  lemma ConflictMeansOverlap(level: Level, p: Path)
    requires WellFormed(level) && p != []
    ensures HitsConflict(level, p) <==> exists q :: q != p && Overlap(p, q) && Lookup(level, q).Some?
  {
    if HitsConflict(level, p) {
      var q := WitnessOfConflict(level, p);
    }
    forall q | q != p && Overlap(p, q) && Lookup(level, q).Some? ensures HitsConflict(level, p) {
      OverlapMeansConflict(level, p, q);
    }
  }

  lemma {:induction false} OverlapMeansConflict(level: Level, p: Path, q: Path)
    requires WellFormed(level) && p != [] && q != p && Overlap(p, q) && Lookup(level, q).Some?
    ensures HitsConflict(level, p)
    decreases |p|
  {
    TailsCompare(p, q);
    if |q| > 1 {
      NothingInEmpty(q[1..]);
      if |p| > 1 {
        ChildrenAreWellFormed(level, p[0]);
        OverlapMeansConflict(Children(level, p[0]), p[1..], q[1..]);
      }
    }
  }

  lemma {:induction false} WitnessOfConflict(level: Level, p: Path) returns (q: Path)
    requires WellFormed(level) && HitsConflict(level, p)
    ensures q != p && Overlap(p, q) && Lookup(level, q).Some?
    decreases |p|
  {
    var i := Position(level, p[0]);
    match level[i].node {
      case Leaf(_) => q := [p[0]];
      case Map(entries) =>
        var below;
        if |p| == 1 {
          below := SomethingIsSet(entries);
        } else {
          below := WitnessOfConflict(entries, p[1..]);
          assert below != [] by { NothingInEmpty([]); }
        }
        q := [p[0]] + below;
        assert p == [p[0]] + p[1..] && q[1..] == below;
    }
  }

  function Keys(level: Level): seq<string> {
    seq(|level|, i requires 0 <= i < |level| => level[i].key)
  }

  /** The keys of the map at `prefix`, in order; none where there is no map. */
  function KeysAt(level: Level, prefix: Path): seq<string>
    decreases |prefix|
  {
    if prefix == [] then Keys(level) else KeysAt(Children(level, prefix[0]), prefix[1..])
  }

  function WithKey(keys: seq<string>, key: string): seq<string> {
    if key in keys then keys else keys + [key]
  }

  lemma KeysAfterPut(level: Level, key: string, node: Node)
    ensures Keys(Put(level, key, node)) == WithKey(Keys(level), key)
  {
    var i := Position(level, key);
    if i < |level| {
      assert Keys(level)[i] == key;
    }
  }

  lemma NoKeysInEmpty(prefix: Path)
    ensures KeysAt([], prefix) == []
  {
  }

  /** Setting a path without a conflict appends each new key where its map has not named it yet, and moves none. */
  lemma {:induction false} KeysAfterSet(level: Level, p: Path, value: Value, q: Path)
    requires p != [] && !HitsConflict(level, p)
    ensures KeysAt(SetAt(level, p, value), q) ==
            if q < p then WithKey(KeysAt(level, q), p[|q|]) else KeysAt(level, q)
    decreases |p|
  {
    if q == [] {
      KeysAfterPut(level, p[0], NodeFor(level, p, value));
    } else {
      FoundAfterPut(level, p[0], NodeFor(level, p, value), q[0]);
      hide SetAt, Found, WithKey;
      assert q == [q[0]] + q[1..] && p == [p[0]] + p[1..];
      if q[0] == p[0] && |p| > 1 {
        assert q < p <==> q[1..] < p[1..];
        KeysAfterSet(Children(level, p[0]), p[1..], value, q[1..]);
      }
    }
  }

  /** One `set_opt` call; `set` is the one whose value is present. */
  datatype Assignment = Assignment(path: Path, value: Option<Value>)

  predicate Paths(ops: seq<Assignment>) {
    forall op :: op in ops ==> op.path != []
  }

  function Apply(level: Level, op: Assignment): Level
    requires op.path != []
  {
    match op.value
    case Some(value) => SetAt(level, op.path, value)
    case None => level
  }

  function Run(ops: seq<Assignment>): Level
    requires Paths(ops)
  {
    if ops == [] then [] else Apply(Run(ops[..|ops| - 1]), ops[|ops| - 1])
  }

  /** The flat reading of a run: the last assignment that touches `q` decides it. */
  function Flat(ops: seq<Assignment>, q: Path): Option<Value> {
    if ops == [] then None else
      var init, last := ops[..|ops| - 1], ops[|ops| - 1];
      if last.value.None? || !Overlap(last.path, q) then Flat(init, q)
      else if last.path == q then last.value
      else None
  }

  /** The value `q` was last set to. */
  function LastSet(ops: seq<Assignment>, q: Path): Option<Value> {
    if ops == [] then None else
      var last := ops[|ops| - 1];
      if last.path == q && last.value.Some? then last.value else LastSet(ops[..|ops| - 1], q)
  }

  /** Every run of assignments reads as the flat map, and keeps the nested maps well formed. */
  lemma {:induction false} RunIsFlat(ops: seq<Assignment>, q: Path)
    requires Paths(ops)
    ensures Lookup(Run(ops), q) == Flat(ops, q) && WellFormed(Run(ops))
  {
    if ops == [] {
      NothingInEmpty(q);
    } else {
      hide Lookup, SetAt, WellFormed;
      var init, last := ops[..|ops| - 1], ops[|ops| - 1];
      RunIsFlat(init, q);
      if last.value.Some? {
        LookupAfterSet(Run(init), last.path, last.value.value, q);
        SetKeepsWellFormed(Run(init), last.path, last.value.value);
        assert last.path == q ==> Overlap(last.path, q);
      }
    }
  }

  /** Only what was set is there. */
  lemma {:induction false} OnlySetPathsAreThere(ops: seq<Assignment>, q: Path)
    requires Flat(ops, q).Some?
    ensures exists op :: op in ops && op.path == q && op.value.Some?
  {
    var init, last := ops[..|ops| - 1], ops[|ops| - 1];
    if last.value.None? || !Overlap(last.path, q) {
      OnlySetPathsAreThere(init, q);
      var op :| op in init && op.path == q && op.value.Some?;
      assert op in ops;
    }
  }

  /** No path that is set leads through another: no field is a value in one place and a map in another. */
  predicate PrefixFree(ops: seq<Assignment>) {
    forall a, b :: a in ops && b in ops && a.value.Some? && b.value.Some? && a.path != b.path ==>
      !Overlap(a.path, b.path)
  }

  lemma PrefixFreeInit(ops: seq<Assignment>)
    requires ops != [] && PrefixFree(ops) && Paths(ops)
    ensures PrefixFree(ops[..|ops| - 1]) && Paths(ops[..|ops| - 1])
  {
  }

  /** Over prefix-free paths neither conflict branch is reached. */
  lemma NoConflictInRun(ops: seq<Assignment>)
    requires ops != [] && Paths(ops) && PrefixFree(ops) && ops[|ops| - 1].value.Some?
    ensures !HitsConflict(Run(ops[..|ops| - 1]), ops[|ops| - 1].path)
  {
    hide WellFormed, Lookup, HitsConflict, Run;
    var init, last := ops[..|ops| - 1], ops[|ops| - 1];
    RunIsFlat(init, []);
    ConflictMeansOverlap(Run(init), last.path);
    forall q | q != last.path && Overlap(last.path, q) ensures Lookup(Run(init), q) == None {
      RunIsFlat(init, q);
      if Flat(init, q).Some? {
        OnlySetPathsAreThere(init, q);
      }
    }
  }

  /** Over prefix-free paths every path holds what it was last set to, and nothing else is there. */
  lemma {:induction false} PrefixFreeRunHoldsLastSet(ops: seq<Assignment>, q: Path)
    requires Paths(ops) && PrefixFree(ops) && (exists op :: op in ops && op.path == q && op.value.Some?)
    ensures Lookup(Run(ops), q) == LastSet(ops, q)
  {
    RunIsFlat(ops, q);
    var op :| op in ops && op.path == q && op.value.Some?;
    FlatIsLastSet(ops, op);
  }

  lemma {:induction false} FlatIsLastSet(ops: seq<Assignment>, op: Assignment)
    requires op.value.Some? && PrefixFree(ops + [op])
    ensures Flat(ops, op.path) == LastSet(ops, op.path)
  {
    if ops != [] {
      var init, last := ops[..|ops| - 1], ops[|ops| - 1];
      assert forall x :: x in init + [op] ==> x in ops + [op];
      FlatIsLastSet(init, op);
      assert last in ops + [op] && op in ops + [op];
    }
  }

  /** The keys that paths below `prefix` name, in the order they are first named. */
  function FirstNamed(ops: seq<Assignment>, prefix: Path): seq<string> {
    if ops == [] then [] else
      var init, last := FirstNamed(ops[..|ops| - 1], prefix), ops[|ops| - 1];
      if last.value.Some? && prefix < last.path then WithKey(init, last.path[|prefix|]) else init
  }

  /** At every level the keys stand in the order they were first named. */
  lemma {:induction false} KeysAreInFirstNamedOrder(ops: seq<Assignment>, prefix: Path)
    requires Paths(ops) && PrefixFree(ops)
    ensures KeysAt(Run(ops), prefix) == FirstNamed(ops, prefix)
  {
    if ops == [] {
      NoKeysInEmpty(prefix);
    } else {
      var init, last := ops[..|ops| - 1], ops[|ops| - 1];
      PrefixFreeInit(ops);
      KeysAreInFirstNamedOrder(init, prefix);
      if last.value.Some? {
        NoConflictInRun(ops);
        KeysAfterSet(Run(init), last.path, last.value.value, prefix);
      }
    }
  }

  /** Where a walk down the nested maps has been: each level passed, and the index it was left at. */
  datatype Frame = Frame(level: Level, index: nat)

  ghost predicate Framed(frames: seq<Frame>) {
    forall i :: 0 <= i < |frames| ==> frames[i].index < |frames[i].level|
  }

  function Replace(frame: Frame, children: Level): Level
    requires frame.index < |frame.level|
  {
    frame.level[frame.index := frame.level[frame.index].(node := Map(children))]
  }

  /** The root, with the innermost level made `level`. */
  ghost function Rebuilt(frames: seq<Frame>, level: Level): Level
    requires Framed(frames)
  {
    if frames == [] then level else
      Rebuilt(frames[..|frames| - 1], Replace(frames[|frames| - 1], level))
  }

  lemma {:induction false} RebuildOneMore(frames: seq<Frame>, frame: Frame, level: Level)
    requires Framed(frames) && frame.index < |frame.level|
    ensures Framed(frames + [frame]) && Rebuilt(frames + [frame], level) == Rebuilt(frames, Replace(frame, level))
  {
    assert (frames + [frame])[..|frames|] == frames;
  }

  class EventPayload {
    var root: Level

    constructor ()
      ensures root == []
    {
      root := [];
    }

    /** Set the field at the dotted path, walking down the levels and making the maps that are missing. */
    method Set(path: string, value: Value)
      modifies this
      ensures root == SetAt(old(root), Segments(path), value)
    {
      var segments := Segments(path);
      var level, frames, i := root, [], 0;
      while i + 1 < |segments|
        invariant 0 <= i < |segments| && Framed(frames) && root == old(root)
        invariant Rebuilt(frames, SetAt(level, segments[i..], value)) == SetAt(root, segments, value)
        decreases |segments| - i
      {
        hide Rebuilt;
        var frame := Enter(level, segments[i], segments[i..], value);
        RebuildOneMore(frames, frame, SetAt(frame.level[frame.index].node.entries, segments[i + 1..], value));
        assert segments[i..][1..] == segments[i + 1..];
        frames := frames + [frame];
        level := frame.level[frame.index].node.entries;
        i := i + 1;
      }
      var position := Position(level, segments[i]);
      if position < |level| {
        level := level[position := level[position].(node := Leaf(value))];
      } else {
        level := level + [Field(segments[i], Leaf(value))];
      }
      while frames != []
        invariant Framed(frames) && root == old(root)
        invariant Rebuilt(frames, level) == SetAt(root, segments, value)
        decreases |frames|
      {
        var frame := frames[|frames| - 1];
        level := Replace(frame, level);
        frames := frames[..|frames| - 1];
      }
      root := level;
    }

    method SetOpt(path: string, value: Option<Value>)
      modifies this
      ensures root == Apply(old(root), Assignment(Segments(path), value))
    {
      if value.Some? {
        Set(path, value.value);
      }
    }
  }

  /** The level with a map in place under `key`, and where that stands. */
  method Enter(level: Level, key: string, ghost segments: Path, ghost value: Value) returns (frame: Frame)
    requires |segments| > 1 && segments[0] == key
    ensures frame.index < |frame.level| && frame.level[frame.index].node.Map?
    ensures Replace(frame, SetAt(frame.level[frame.index].node.entries, segments[1..], value)) ==
            SetAt(level, segments, value)
  {
    var index := Position(level, key);
    var made := level;
    if index == |level| {
      made := level + [Field(key, Map([]))];
    }
    if !made[index].node.Map? {
      made := made[index := made[index].(node := Map([]))];
    }
    frame := Frame(made, index);
    assert made[index].node.entries == Children(level, key);
  }
}
