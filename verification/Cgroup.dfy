/** Names of control groups and the way back from them (src/job/cgroup.rs). Text is its UTF-8 bytes. */
module Cgroup {
  import opened Collections
  import opened Bytes
  import opened UuidV7

  const SLASH: byte := 47
  const PERCENT: byte := 37
  const RETURN: byte := 13

  const MOUNT: seq<byte> := Ascii("/sys/fs/cgroup")
  const PEINIT: seq<byte> := Ascii("/peinit/")
  const JOBS: seq<byte> := Ascii("jobs")
  const GENERATION: seq<byte> := Ascii("%gen")
  const UNIFIED: seq<byte> := Ascii("0::")

  datatype Part = Main | Hooks | Health | Checks

  function PartName(part: Part): seq<byte> {
    match part
    case Main => Ascii("main")
    case Hooks => Ascii("hooks")
    case Health => Ascii("health")
    case Checks => Ascii("checks")
  }

  // ----- escaping -----

  predicate IsSafe(b: byte) {
    48 <= b <= 57 || 65 <= b <= 90 || 97 <= b <= 122 || b == 46 || b == 95 || b == 45
  }

  function EncodeByte(b: byte): seq<byte> {
    if IsSafe(b) then [b] else [PERCENT, UpperHex(b / 16), UpperHex(b % 16)]
  }

  function Encode(service: seq<byte>): seq<byte> {
    if service == [] then [] else EncodeByte(service[0]) + Encode(service[1..])
  }

  lemma {:induction false} EncodeAppend(service: seq<byte>, b: byte)
    ensures Encode(service + [b]) == Encode(service) + EncodeByte(b)
  {
    hide EncodeByte;
    if service == [] {
      assert service + [b] == [b] && [b][1..] == [];
    } else {
      EncodeAppend(service[1..], b);
      assert (service + [b])[1..] == service[1..] + [b];
    }
  }

  method EncodeServiceCgroupId(service: seq<byte>) returns (encoded: seq<byte>)
    ensures encoded == Encode(service)
  {
    encoded := [];
    for i := 0 to |service|
      invariant encoded == Encode(service[..i])
    {
      var b := service[i];
      EncodeAppend(service[..i], b);
      assert service[..i + 1] == service[..i] + [b];
      if IsSafe(b) {
        encoded := encoded + [b];
      } else {
        encoded := encoded + [PERCENT];
        encoded := encoded + [UpperHex(b / 16)];
        encoded := encoded + [UpperHex(b % 16)];
      }
    }
    assert service[..|service|] == service;
  }

  /** Letters, digits, dots, underscores and hyphens. */
  ghost predicate IsNameChar(b: byte) {
    || '0' as int <= b <= '9' as int || 'A' as int <= b <= 'Z' as int || 'a' as int <= b <= 'z' as int
    || b == '.' as int || b == '_' as int || b == '-' as int
  }

  /** A name is its own directory exactly when it holds nothing else. */
  lemma {:induction false} NameIsKeptWhen(service: seq<byte>)
    ensures |Encode(service)| >= |service|
    ensures Encode(service) == service <==> forall i :: 0 <= i < |service| ==> IsNameChar(service[i])
  {
    if service != [] {
      NameIsKeptWhen(service[1..]);
      assert service == [service[0]] + service[1..];
      if IsNameChar(service[0]) {
        assert Encode(service)[1..] == Encode(service[1..]);
        assert forall i :: 1 <= i < |service| ==> service[i] == service[1..][i - 1];
      } else {
        assert |EncodeByte(service[0])| == 3;
      }
    }
  }

  /** Two bytes read as an unsigned number in base 16, which may be signed `+`. */
  function FromRadix16(high: byte, low: byte): Option<byte> {
    match HexValue(low)
    case None => None
    case Some(l) =>
      if high == 43 then Some(l)
      else match HexValue(high)
        case None => None
        case Some(h) => Some(h * 16 + l)
  }

  function Prepend(b: byte, rest: Option<seq<byte>>): Option<seq<byte>> {
    match rest
    case None => None
    case Some(s) => Some([b] + s)
  }

  /** Undo the escapes; none when one is cut short, ends inside a character or is no number. */
  function Unescape(encoded: seq<byte>): Option<seq<byte>> {
    if encoded == [] then Some([])
    else if encoded[0] != PERCENT then Prepend(encoded[0], Unescape(encoded[1..]))
    else if |encoded| < 3 || (|encoded| > 3 && IsContinuation(encoded[3])) then None
    else match FromRadix16(encoded[1], encoded[2])
      case None => None
      case Some(b) => Prepend(b, Unescape(encoded[3..]))
  }

  /** Of an escape, two hexadecimal digits are taken, or a plus sign and one; and no character may be cut by it. */
  lemma EscapeIsTakenWhen(high: byte, low: byte, rest: seq<byte>)
    ensures Unescape([PERCENT, high, low] + rest).Some? <==>
            && HexValue(low).Some? && (HexValue(high).Some? || high == '+' as int)
            && (rest != [] ==> rest[0] < 0x80 || rest[0] > 0xbf) && Unescape(rest).Some?
    ensures HexValue(low).Some? ==> Unescape([PERCENT, '+' as int, low]) == Some([HexValue(low).value])
    ensures HexValue(low).Some? && HexValue(high).Some? ==>
              Unescape([PERCENT, high, low]) == Some([HexValue(high).value * 16 + HexValue(low).value])
  {
    var encoded := [PERCENT, high, low] + rest;
    assert encoded[3..] == rest;
    assert [PERCENT, '+' as int, low][3..] == [] && [PERCENT, high, low][3..] == [];
    assert forall b: byte :: Prepend(b, Unescape([])) == Some([b]) by {
      assert forall b: byte :: [b] + [] == [b];
    }
  }

  function Decode(encoded: seq<byte>): Option<seq<byte>> {
    match Unescape(encoded)
    case None => None
    case Some(out) => if IsUtf8(out) then Some(out) else None
  }

  method DecodeServiceCgroupId(encoded: seq<byte>) returns (r: Option<seq<byte>>)
    ensures r == Decode(encoded)
  {
    var out: seq<byte> := [];
    var i := 0;
    assert encoded[0..] == encoded && forall rest :: out + rest == rest;
    while i < |encoded|
      invariant i <= |encoded|
      invariant Unescape(encoded) ==
                match Unescape(encoded[i..]) case None => None case Some(rest) => Some(out + rest)
    {
      ghost var before := out;
      if encoded[i] == PERCENT {
        if i + 3 > |encoded| || (i + 3 < |encoded| && IsContinuation(encoded[i + 3])) {
          return None;
        }
        match FromRadix16(encoded[i + 1], encoded[i + 2]) {
          case None =>
            return None;
          case Some(b) =>
            out := out + [b];
            assert encoded[i..][3..] == encoded[i + 3..];
            assert forall rest :: before + ([b] + rest) == out + rest;
        }
        i := i + 3;
      } else {
        out := out + [encoded[i]];
        assert encoded[i..][1..] == encoded[i + 1..];
        assert forall rest :: before + ([encoded[i]] + rest) == out + rest;
        i := i + 1;
      }
    }
    assert Unescape(encoded) == Some(out) by {
      assert encoded[i..] == [] && out + [] == out;
    }
    r := if IsUtf8(out) then Some(out) else None;
  }

  lemma UnescapeByte(b: byte, rest: seq<byte>)
    requires rest != [] ==> !IsContinuation(rest[0])
    ensures Unescape(EncodeByte(b) + rest) == Prepend(b, Unescape(rest))
  {
    var e := EncodeByte(b) + rest;
    if IsSafe(b) {
      assert e[0] == b && e[1..] == rest;
    } else {
      assert e[0] == PERCENT && e[1] == UpperHex(b / 16) && e[2] == UpperHex(b % 16) && e[3..] == rest;
      assert |e| > 3 ==> e[3] == rest[0];
      assert FromRadix16(e[1], e[2]) == Some(b);
    }
  }

  /** Escaping loses nothing: exactly what is not text at all fails to come back. */
  lemma {:induction false} UnescapeOfEncode(service: seq<byte>)
    ensures Unescape(Encode(service)) == Some(service)
  {
    if service != [] {
      hide Unescape, EncodeByte;
      UnescapeOfEncode(service[1..]);
      EncodeStartsPlainly(service[1..]);
      UnescapeByte(service[0], Encode(service[1..]));
      assert service == [service[0]] + service[1..];
    } else {
      assert Unescape([]) == Some([]);
    }
  }

  lemma EncodeStartsPlainly(service: seq<byte>)
    ensures Encode(service) != [] ==> !IsContinuation(Encode(service)[0])
  {
  }

  lemma {:induction false} DecodeOfEncode(service: seq<byte>)
    ensures Decode(Encode(service)) == if IsUtf8(service) then Some(service) else None
  {
    UnescapeOfEncode(service);
  }

  // ----- paths -----

  /** The directory of a service's generation. */
  function Segment(service: seq<byte>, generation: u64): seq<byte> {
    if generation == 0 then Encode(service) else Encode(service) + GENERATION + Decimal(generation)
  }

  function ServiceRootPath(service: seq<byte>, generation: u64): seq<byte> {
    MOUNT + PEINIT + Segment(service, generation)
  }

  function ServicePartPath(service: seq<byte>, generation: u64, part: Part): seq<byte> {
    ServiceRootPath(service, generation) + [SLASH] + PartName(part)
  }

  function SubmittedJobPath(id: Uuid): seq<byte> {
    MOUNT + PEINIT + JOBS + [SLASH] + Canonical(id)
  }

  /** What precedes the first generation mark. */
  function BeforeGeneration(s: seq<byte>): seq<byte> {
    if s == [] || GENERATION <= s then [] else [s[0]] + BeforeGeneration(s[1..])
  }

  /** An escaped name holds no generation mark, so the first one is the one added after it. */
  lemma {:induction false} BeforeGenerationOfEncoded(service: seq<byte>, rest: seq<byte>)
    requires rest == [] || GENERATION <= rest
    ensures BeforeGeneration(Encode(service) + rest) == Encode(service)
  {
    if service == [] {
      assert Encode(service) + rest == rest;
    } else {
      var b, tail := service[0], Encode(service[1..]) + rest;
      BeforeGenerationOfEncoded(service[1..], rest);
      assert Encode(service) + rest == EncodeByte(b) + tail;
      if IsSafe(b) {
        NotAMark([b] + tail);
        assert ([b] + tail)[1..] == tail;
      } else {
        NoMarkInEscape(UpperHex(b / 16), UpperHex(b % 16), tail);
      }
    }
  }

  lemma NoMarkInEscape(h: byte, l: byte, tail: seq<byte>)
    requires h != PERCENT && h != 103 && l != PERCENT
    ensures BeforeGeneration([PERCENT, h, l] + tail) == [PERCENT, h, l] + BeforeGeneration(tail)
  {
    var three, two, one := [PERCENT, h, l] + tail, [h, l] + tail, [l] + tail;
    NotAMark(three);
    NotAMark(two);
    NotAMark(one);
    var rest := BeforeGeneration(tail);
    assert three[1..] == two && two[1..] == one && one[1..] == tail;
    assert BeforeGeneration(one) == [l] + rest;
    assert BeforeGeneration(two) == [h] + ([l] + rest) == [h, l] + rest;
    assert BeforeGeneration(three) == [PERCENT] + ([h, l] + rest);
  }

  lemma NotAMark(s: seq<byte>)
    requires s != [] && (s[0] != PERCENT || (|s| > 1 && s[1] != 103))
    ensures !(GENERATION <= s)
  {
    assert GENERATION[0] == PERCENT && GENERATION[1] == 103;
  }

  lemma BeforeGenerationOfSegment(service: seq<byte>, generation: u64)
    ensures BeforeGeneration(Segment(service, generation)) == Encode(service)
  {
    hide Encode, BeforeGeneration, Decimal, Ascii;
    if generation == 0 {
      BeforeGenerationOfEncoded(service, []);
      assert Encode(service) + [] == Encode(service);
    } else {
      BeforeGenerationOfEncoded(service, GENERATION + Decimal(generation));
      assert Segment(service, generation) == Encode(service) + (GENERATION + Decimal(generation));
    }
  }

  /** A service and a generation have a directory to themselves. */
  lemma SegmentIsInjective(s: seq<byte>, g: u64, t: seq<byte>, h: u64)
    requires Segment(s, g) == Segment(t, h)
    ensures s == t && g == h
  {
    BeforeGenerationOfSegment(s, g);
    BeforeGenerationOfSegment(t, h);
    UnescapeOfEncode(s);
    UnescapeOfEncode(t);
    var e := Encode(s);
    if g > 0 && h > 0 {
      assert Decimal(g) == Segment(s, g)[|e| + 4..];
      assert Decimal(h) == Segment(t, h)[|e| + 4..];
      DecimalRoundTrip(g);
      DecimalRoundTrip(h);
    }
  }

  // ----- reading a process's group back -----

  /** The group of the unified hierarchy: what follows `0::` on the first line that starts so. */
  function Unified(text: seq<byte>): Option<seq<byte>>
    decreases |text|
  {
    if text == [] then None else
      var end := IndexOf(text, NEWLINE);
      var line := if end < |text| && end > 0 && text[end - 1] == RETURN then text[..end - 1] else text[..end];
      if UNIFIED <= line then Some(line[|UNIFIED|..])
      else if end < |text| then Unified(text[end + 1..])
      else None
  }

  datatype Member = Service(service: seq<byte>, part: Option<Part>) | Job(id: seq<byte>)

  function PartOf(name: seq<byte>): (r: Option<Part>)
    ensures forall part :: r == Some(part) <==> name == PartName(part)
  {
    assert PartName(Health)[0] != PartName(Checks)[0];
    if name == PartName(Main) then Some(Main)
    else if name == PartName(Hooks) then Some(Hooks)
    else if name == PartName(Health) then Some(Health)
    else if name == PartName(Checks) then Some(Checks)
    else None
  }

  /** What a path below the mount point belongs to. */
  function MemberAt(path: seq<byte>): Option<Member> {
    if !(PEINIT <= path) then None else
      var below := path[|PEINIT|..];
      var n := IndexOf(below, SLASH);
      var first := below[..n];
      var second: Option<seq<byte>> :=
        if n < |below| then var rest := below[n + 1..]; Some(rest[..IndexOf(rest, SLASH)]) else None;
      if first == JOBS && second.Some? && PartOf(second.value) == None then Some(Job(second.value))
      else match Decode(BeforeGeneration(first))
        case None => None
        case Some(service) =>
          Some(Service(service, if second.Some? then PartOf(second.value) else None))
  }

  function CgroupMember(procCgroup: seq<byte>): Option<Member> {
    match Unified(procCgroup)
    case None => None
    case Some(path) => MemberAt(path)
  }

  /** Safe characters and escapes only: no slash and no end of line. */
  ghost predicate IsPlain(s: seq<byte>) {
    forall i :: 0 <= i < |s| ==> IsSafe(s[i]) || s[i] == PERCENT
  }

  lemma {:induction false} EncodeIsPlain(service: seq<byte>)
    ensures IsPlain(Encode(service))
  {
    if service != [] {
      EncodeIsPlain(service[1..]);
      assert IsPlain(EncodeByte(service[0]));
    }
  }

  lemma SegmentIsPlain(service: seq<byte>, generation: u64)
    ensures IsPlain(Segment(service, generation))
  {
    EncodeIsPlain(service);
    hide Encode;
    assert IsPlain(GENERATION) by {
      assert GENERATION == [37, 103, 101, 110];
    }
    assert IsPlain(Decimal(generation)) by {
      assert forall i :: 0 <= i < |Decimal(generation)| ==> IsDigit(Decimal(generation)[i]);
    }
  }

  lemma PartNameIsPlain(part: Part)
    ensures IsPlain(PartName(part))
  {
    match part {
      case Main => assert PartName(part) == [109, 97, 105, 110];
      case Hooks => assert PartName(part) == [104, 111, 111, 107, 115];
      case Health => assert PartName(part) == [104, 101, 97, 108, 116, 104];
      case Checks => assert PartName(part) == [99, 104, 101, 99, 107, 115];
    }
  }

  lemma JobsIsPlain()
    ensures IsPlain(JOBS)
  {
    assert JOBS == [106, 111, 98, 115];
  }

  lemma CanonicalIsPlain(id: Uuid)
    ensures IsPlain(Canonical(id))
  {
    CanonicalIsGrouped(id);
    hide Canonical;
    forall i | 0 <= i < 36 ensures IsSafe(Canonical(id)[i]) {
      assert GroupedAt(Canonical(id)[i], i);
    }
  }

  /** A name ends a path or is followed by a slash. */
  ghost predicate Ends(below: seq<byte>) { below == [] || below[0] == SLASH }

  lemma Head(first: seq<byte>, rest: seq<byte>)
    requires SLASH !in first
    ensures var s := first + [SLASH] + rest;
            IndexOf(s, SLASH) == |first| && s[..|first|] == first && s[|first| + 1..] == rest
  {
    hide IndexOf;
    IndexOfFirst(first, [SLASH] + rest, SLASH);
    assert first + ([SLASH] + rest) == first + [SLASH] + rest;
  }

  /** Reading back any process in one of a service's parts, or deeper, gives the service and the part. */
  lemma MemberOfPart(service: seq<byte>, generation: u64, part: Part, below: seq<byte>)
    requires IsUtf8(service) && Ends(below)
    ensures MemberAt(PEINIT + Segment(service, generation) + [SLASH] + PartName(part) + below)
            == Some(Service(service, Some(part)))
  {
    hide Segment, PartName, Encode, Decode, BeforeGeneration, IsUtf8, IndexOf;
    var first, second := Segment(service, generation), PartName(part);
    SegmentIsPlain(service, generation);
    PartNameIsPlain(part);
    Head(first, second + below);
    IndexOfFirst(second, below, SLASH);
    BeforeGenerationOfSegment(service, generation);
    DecodeOfEncode(service);
    var path := PEINIT + first + [SLASH] + second + below;
    assert path[|PEINIT|..] == first + [SLASH] + (second + below);
    assert (second + below)[..|second|] == second;
  }

  lemma MemberOfRoot(service: seq<byte>, generation: u64)
    requires IsUtf8(service)
    ensures MemberAt(PEINIT + Segment(service, generation)) == Some(Service(service, None))
  {
    hide Segment, PartOf, Encode, Decode, BeforeGeneration, IsUtf8, IndexOf;
    var first := Segment(service, generation);
    SegmentIsPlain(service, generation);
    IndexOfFirst(first, [], SLASH);
    assert first + [] == first;
    BeforeGenerationOfSegment(service, generation);
    DecodeOfEncode(service);
    assert (PEINIT + first)[|PEINIT|..] == first;
  }

  /** Reading back any process of a submitted job, or deeper, gives the job. */
  lemma MemberOfJob(id: Uuid, below: seq<byte>)
    requires Ends(below)
    ensures MemberAt(PEINIT + JOBS + [SLASH] + Canonical(id) + below) == Some(Job(Canonical(id)))
  {
    hide Canonical, Encode, Decode, BeforeGeneration, IndexOf;
    var second := Canonical(id);
    JobsIsPlain();
    CanonicalIsPlain(id);
    Head(JOBS, second + below);
    IndexOfFirst(second, below, SLASH);
    var path := PEINIT + JOBS + [SLASH] + second + below;
    assert path[|PEINIT|..] == JOBS + [SLASH] + (second + below);
    assert (second + below)[..|second|] == second;
    NoPartIsThatLong(second);
  }

  lemma NoPartIsThatLong(name: seq<byte>)
    requires |name| == 36
    ensures PartOf(name) == None
  {
  }

  lemma UnifiedOfLine(line: seq<byte>, after: seq<byte>)
    requires NEWLINE !in line && (line == [] || line[|line| - 1] != RETURN)
    ensures Unified(line + [NEWLINE] + after) ==
            if UNIFIED <= line then Some(line[|UNIFIED|..]) else Unified(after)
  {
    var text := line + ([NEWLINE] + after);
    assert text == line + [NEWLINE] + after;
    IndexOfFirst(line, [NEWLINE] + after, NEWLINE);
    assert text[..|line|] == line && text[|line| + 1..] == after;
    assert line != [] ==> text[|line| - 1] == line[|line| - 1];
  }

  /** Lines of other hierarchies, as `/proc` lists them before the unified one. */
  ghost predicate IsOtherLine(line: seq<byte>) {
    NEWLINE !in line && (line == [] || line[|line| - 1] != RETURN) && !(UNIFIED <= line)
  }

  function Lines(lines: seq<seq<byte>>): seq<byte> {
    if lines == [] then [] else lines[0] + [NEWLINE] + Lines(lines[1..])
  }

  /** Where the services' and the jobs' groups are. */
  lemma PathsAreInTree(service: seq<byte>, generation: u64, part: Part, id: Uuid)
    ensures ServiceRootPath(service, 0) == Ascii("/sys/fs/cgroup/peinit/") + Encode(service)
    ensures generation > 0 ==>
              ServiceRootPath(service, generation) ==
              Ascii("/sys/fs/cgroup/peinit/") + Encode(service) + Ascii("%gen") + Decimal(generation)
    ensures ServicePartPath(service, generation, part) ==
            ServiceRootPath(service, generation) + Ascii("/") +
            (match part
             case Main => Ascii("main")
             case Hooks => Ascii("hooks")
             case Health => Ascii("health")
             case Checks => Ascii("checks"))
    ensures SubmittedJobPath(id) == Ascii("/sys/fs/cgroup/peinit/jobs/") + Canonical(id)
  {
    hide Encode, Decimal, Canonical;
    assert MOUNT + PEINIT == Ascii("/sys/fs/cgroup/peinit/");
    assert MOUNT + PEINIT + JOBS + [SLASH] == Ascii("/sys/fs/cgroup/peinit/jobs/");
    assert Ascii("/") == [SLASH];
    assert MOUNT + PEINIT + (Encode(service) + GENERATION + Decimal(generation)) ==
           MOUNT + PEINIT + Encode(service) + GENERATION + Decimal(generation);
  }

  lemma LastLineIsWhole(path: seq<byte>)
    requires '\n' as int !in path
    ensures Unified(Ascii("0::") + path) == Some(path)
  {
    var text := Ascii("0::") + path;
    assert NEWLINE !in text;
    IndexOfFirst(text, [], NEWLINE);
    assert text + [] == text;
    assert text[..|text|] == text && text[3..] == path;
  }

  /** A carriage return before a newline is part of the line's end, and otherwise of the line. */
  lemma ReturnIsDropped(path: seq<byte>, after: seq<byte>)
    requires '\n' as int !in path
    ensures Unified(Ascii("0::") + path + Ascii("\r\n") + after) == Some(path)
    ensures Unified(Ascii("0::") + path) == Some(path)
  {
    LastLineIsWhole(path);
    assert Ascii("\r\n") == [RETURN, NEWLINE];
    hide Ascii;
    LineEndsInReturn(Ascii("0::") + path, path, after);
    assert Ascii("0::") + path + [RETURN, NEWLINE] + after ==
           Ascii("0::") + path + [RETURN] + ([NEWLINE] + after);
  }

  lemma LineEndsInReturn(line: seq<byte>, path: seq<byte>, after: seq<byte>)
    requires line == UNIFIED + path && NEWLINE !in path
    ensures Unified(line + [RETURN] + ([NEWLINE] + after)) == Some(path)
  {
    var text := line + [RETURN] + ([NEWLINE] + after);
    assert NEWLINE !in line + [RETURN];
    IndexOfFirst(line + [RETURN], [NEWLINE] + after, NEWLINE);
    assert text[..|line|] == line && line[|UNIFIED|..] == path;
  }

  /** The unified line is found behind any number of others. */
  lemma {:induction false} UnifiedIsFound(others: seq<seq<byte>>, path: seq<byte>, after: seq<byte>)
    requires forall i :: 0 <= i < |others| ==> IsOtherLine(others[i])
    requires NEWLINE !in path && (path == [] || path[|path| - 1] != RETURN)
    ensures Unified(Lines(others) + UNIFIED + path + [NEWLINE] + after) == Some(path)
  {
    hide Unified;
    var line := UNIFIED + path;
    if others == [] {
      assert UNIFIED == [48, 58, 58];
      assert Lines(others) + UNIFIED + path + [NEWLINE] + after == line + [NEWLINE] + after;
      assert line[|UNIFIED|..] == path;
      UnifiedOfLine(line, after);
    } else {
      assert IsOtherLine(others[0]);
      UnifiedIsFound(others[1..], path, after);
      var rest := Lines(others[1..]) + UNIFIED + path + [NEWLINE] + after;
      assert Lines(others) + UNIFIED + path + [NEWLINE] + after == others[0] + [NEWLINE] + rest;
      UnifiedOfLine(others[0], rest);
    }
  }

  // ----- the paths themselves -----

  lemma JobsIsNoPart(part: Part, id: Uuid)
    ensures PartName(part) != Canonical(id)
  {
  }

  lemma SlashAt(first: seq<byte>, second: seq<byte>, third: seq<byte>, fourth: seq<byte>)
    requires IsPlain(first) && IsPlain(third)
    requires first + [SLASH] + second == third + [SLASH] + fourth
    ensures first == third && second == fourth
  {
    Head(first, second);
    Head(third, fourth);
  }

  /** Different services, generations or parts have different directories. */
  lemma ServicePathsDiffer(s: seq<byte>, g: u64, p: Part, t: seq<byte>, h: u64, q: Part)
    ensures ServiceRootPath(s, g) == ServiceRootPath(t, h) <==> s == t && g == h
    ensures ServicePartPath(s, g, p) == ServicePartPath(t, h, q) <==> s == t && g == h && p == q
    ensures ServiceRootPath(s, g) != ServicePartPath(t, h, q)
  {
    hide Segment, PartName, Ascii;
    var a, b := Segment(s, g), Segment(t, h);
    SegmentIsPlain(s, g);
    SegmentIsPlain(t, h);
    var above := MOUNT + PEINIT;
    assert ServiceRootPath(s, g)[|above|..] == a && ServiceRootPath(t, h)[|above|..] == b;
    assert ServicePartPath(s, g, p)[|above|..] == a + [SLASH] + PartName(p);
    assert ServicePartPath(t, h, q)[|above|..] == b + [SLASH] + PartName(q);
    assert (b + [SLASH] + PartName(q))[|b|] == SLASH;
    if a == b {
      SegmentIsInjective(s, g, t, h);
    }
    if a + [SLASH] + PartName(p) == b + [SLASH] + PartName(q) {
      SlashAt(a, PartName(p), b, PartName(q));
      PartNamesDiffer(p, q);
    }
  }

  lemma PartNamesDiffer(p: Part, q: Part)
    requires PartName(p) == PartName(q)
    ensures p == q
  {
    assert PartOf(PartName(p)) == Some(p) && PartOf(PartName(q)) == Some(q);
  }

  /** No submitted job's directory is a service's, and no two jobs share one. */
  lemma JobPathsAreApart(id: Uuid, other: Uuid, service: seq<byte>, generation: u64, part: Part)
    requires FromCanonicalBytes(id).Ok? && FromCanonicalBytes(other).Ok?
    ensures SubmittedJobPath(id) == SubmittedJobPath(other) <==> id == other
    ensures SubmittedJobPath(id) != ServiceRootPath(service, generation)
    ensures SubmittedJobPath(id) != ServicePartPath(service, generation, part)
  {
    hide Segment, Canonical, PartName, Parsed, Ascii;
    var above, segment := MOUNT + PEINIT, Segment(service, generation);
    SegmentIsPlain(service, generation);
    assert SubmittedJobPath(id)[|above|..] == JOBS + [SLASH] + Canonical(id);
    assert SubmittedJobPath(other)[|above|..] == JOBS + [SLASH] + Canonical(other);
    assert (JOBS + [SLASH] + Canonical(id))[|JOBS| + 1..] == Canonical(id);
    assert (JOBS + [SLASH] + Canonical(other))[|JOBS| + 1..] == Canonical(other);
    TextRoundTrip(id);
    TextRoundTrip(other);
    assert ServiceRootPath(service, generation)[|above|..] == segment;
    assert (JOBS + [SLASH] + Canonical(id))[|JOBS|] == SLASH;
    assert ServicePartPath(service, generation, part)[|above|..] == segment + [SLASH] + PartName(part);
    if JOBS + [SLASH] + Canonical(id) == segment + [SLASH] + PartName(part) {
      JobsIsPlain();
      SlashAt(JOBS, Canonical(id), segment, PartName(part));
      JobsIsNoPart(part, id);
    }
  }

  /** A path below the mount point, as one of its directories or something deeper is listed. */
  function Listed(others: seq<seq<byte>>, path: seq<byte>, below: seq<byte>, after: seq<byte>): seq<byte>
    requires MOUNT <= path
  {
    Lines(others) + UNIFIED + (path[|MOUNT|..] + below) + [NEWLINE] + after
  }

  ghost predicate CanBeListed(others: seq<seq<byte>>, below: seq<byte>) {
    && (forall i :: 0 <= i < |others| ==> IsOtherLine(others[i]))
    && Ends(below) && NEWLINE !in below && (below == [] || below[|below| - 1] != RETURN)
  }

  lemma ListedIsFound(others: seq<seq<byte>>, path: seq<byte>, below: seq<byte>, after: seq<byte>)
    requires CanBeListed(others, below) && MOUNT < path
    requires forall i :: |MOUNT| <= i < |path| ==> path[i] == SLASH || IsSafe(path[i]) || path[i] == PERCENT
    ensures Unified(Listed(others, path, below, after)) == Some(path[|MOUNT|..] + below)
  {
    hide Unified;
    var line := path[|MOUNT|..] + below;
    assert forall i :: |MOUNT| <= i < |path| ==> path[i] != NEWLINE && path[i] != RETURN;
    UnifiedIsFound(others, line, after);
  }

  /** What `/proc` lists for a process in a service's part names the service and the part again. */
  lemma ServiceIsReadBack(others: seq<seq<byte>>, service: seq<byte>, generation: u64, part: Part,
                          below: seq<byte>, after: seq<byte>)
    requires IsUtf8(service) && CanBeListed(others, below)
    ensures CgroupMember(Listed(others, ServicePartPath(service, generation, part), below, after))
            == Some(Service(service, Some(part)))
  {
    hide Unified, MemberAt, Segment, PartName, IsUtf8;
    SegmentIsPlain(service, generation);
    PartNameIsPlain(part);
    PeinitHasNoLineEnd();
    var path := ServicePartPath(service, generation, part);
    var rest := PEINIT + Segment(service, generation) + [SLASH] + PartName(part);
    assert path == MOUNT + rest && path[|MOUNT|..] == rest;
    ListedIsFound(others, path, below, after);
    MemberOfPart(service, generation, part, below);
  }

  lemma PeinitHasNoLineEnd()
    ensures forall i :: 0 <= i < |PEINIT| ==> PEINIT[i] == SLASH || IsSafe(PEINIT[i])
  {
    assert PEINIT == [47, 112, 101, 105, 110, 105, 116, 47];
  }

  /** What `/proc` lists for a process of a submitted job names the job again. */
  lemma JobIsReadBack(others: seq<seq<byte>>, id: Uuid, below: seq<byte>, after: seq<byte>)
    requires CanBeListed(others, below)
    ensures CgroupMember(Listed(others, SubmittedJobPath(id), below, after)) == Some(Job(Canonical(id)))
  {
    hide Unified, MemberAt, Canonical, Ascii;
    JobsIsPlain();
    CanonicalIsPlain(id);
    PeinitHasNoLineEnd();
    var path, rest := SubmittedJobPath(id), PEINIT + JOBS + [SLASH] + Canonical(id);
    assert path == MOUNT + rest && path[|MOUNT|..] == rest;
    ListedIsFound(others, path, below, after);
    MemberOfJob(id, below);
  }
}
