/** The streaming line assembler (src/logging/line.rs). Lines are the bytes handed to the lossy UTF-8 decoder. */
module LogLines {
  import opened Collections
  import opened Bytes

  /** `[truncated]` */
  const TRUNCATED_MARKER: seq<byte> := [91, 116, 114, 117, 110, 99, 97, 116, 101, 100, 93]

  /** A line as it is emitted: whole when it fits, and otherwise a prefix and the marker, clipped to the limit. */
  function Clip(line: seq<byte>, max: nat): (r: seq<byte>)
    ensures |r| <= max
    ensures |line| <= max ==> r == line
    ensures |line| > max ==>
              && |r| == max && var kept := max - Min(11, max);
              r[..kept] == line[..kept] && r[kept..] == Ascii("[truncated]")[..Min(11, max)]
  {
    if |line| <= max then line else
      var markerLen := Min(|TRUNCATED_MARKER|, max);
      line[..max - markerLen] + TRUNCATED_MARKER[..markerLen]
  }

  /** The complete lines of `bytes`, and what follows the last newline. */
  function Split(bytes: seq<byte>): (r: (seq<seq<byte>>, seq<byte>)) {
    if bytes == [] then ([], []) else
      var (lines, tail) := Split(bytes[..|bytes| - 1]);
      if bytes[|bytes| - 1] == NEWLINE then (lines + [tail], []) else (lines, tail + [bytes[|bytes| - 1]])
  }

  function Joined(lines: seq<seq<byte>>): seq<byte> {
    if lines == [] then [] else Joined(lines[..|lines| - 1]) + lines[|lines| - 1] + [NEWLINE]
  }

  /** The lines and the tail hold no newline and spell the input out again. */
  lemma {:induction false} SplitIsExact(bytes: seq<byte>)
    ensures var (lines, tail) := Split(bytes);
            && Joined(lines) + tail == bytes
            && '\n' as byte !in tail && forall line :: line in lines ==> '\n' as byte !in line
  {
    if bytes != [] {
      var init, last := bytes[..|bytes| - 1], bytes[|bytes| - 1];
      SplitIsExact(init);
      var (lines, tail) := Split(init);
      assert bytes == init + [last];
      if last == NEWLINE {
        assert (lines + [tail])[..|lines|] == lines;
      }
    }
  }

  function ClipAll(lines: seq<seq<byte>>, max: nat): (r: seq<seq<byte>>)
    ensures |r| == |lines| && forall i :: 0 <= i < |r| ==> r[i] == Clip(lines[i], max)
  {
    seq(|lines|, i requires 0 <= i < |lines| => Clip(lines[i], max))
  }

  /** Splitting on from the tail of what came before completes the lines of the whole. */
  lemma {:induction false} SplitInTwo(a: seq<byte>, b: seq<byte>)
    ensures var (lines, tail) := Split(a);
            var (more, rest) := Split(tail + b);
            Split(a + b) == (lines + more, rest)
  {
    var (lines, tail) := Split(a);
    if b == [] {
      SplitIsExact(a);
      SplitOfPlain(tail);
      assert a + b == a && tail + b == tail && lines + [] == lines;
    } else {
      var init, last := b[..|b| - 1], b[|b| - 1];
      SplitInTwo(a, init);
      assert (a + b)[..|a + b| - 1] == a + init && (tail + b)[..|tail + b| - 1] == tail + init;
      var (more, rest) := Split(tail + init);
      assert lines + (more + [rest]) == (lines + more) + [rest];
    }
  }

  lemma {:induction false} SplitOfPlain(bytes: seq<byte>)
    requires NEWLINE !in bytes
    ensures Split(bytes) == ([], bytes)
  {
    if bytes != [] {
      SplitOfPlain(bytes[..|bytes| - 1]);
      assert bytes == bytes[..|bytes| - 1] + [bytes[|bytes| - 1]];
      assert bytes[|bytes| - 1] in bytes;
    }
  }

  class LogLineAssembler {
    const maxLineBytes: nat
    var pending: seq<byte>
    var truncated: bool
    /** Everything since the last newline. */
    ghost var tail: seq<byte>

    ghost predicate Valid()
      reads this
    {
      && NEWLINE !in tail
      && pending == Clip(tail, maxLineBytes)
      && (truncated <==> |tail| > maxLineBytes)
    }

    constructor (maxLineBytes: nat)
      ensures Valid() && tail == [] && this.maxLineBytes == maxLineBytes
    {
      this.maxLineBytes, pending, truncated, tail := maxLineBytes, [], false, [];
    }

    method FinishLine() returns (line: seq<byte>)
      requires Valid()
      modifies this
      ensures Valid() && tail == [] && line == Clip(old(tail), maxLineBytes)
    {
      line := pending;
      pending := [];
      truncated := false;
      tail := [];
    }

    method MarkTruncated(ghost next: byte)
      requires Valid() && |tail| >= maxLineBytes > 0 && next != NEWLINE
      modifies this
      ensures Valid() && tail == old(tail) + [next]
    {
      tail := tail + [next];
      if truncated {
        return;
      }
      truncated := true;
      var markerLen := Min(|TRUNCATED_MARKER|, maxLineBytes);
      var keepLen := maxLineBytes - markerLen;
      pending := pending[..Min(keepLen, |pending|)];
      pending := pending + TRUNCATED_MARKER[..markerLen];
    }

    method PushLineByte(next: byte)
      requires Valid() && next != NEWLINE
      modifies this
      ensures Valid() && tail == old(tail) + [next]
    {
      if maxLineBytes == 0 {
        truncated := true;
        tail := tail + [next];
        return;
      }
      if |pending| < maxLineBytes && !truncated {
        pending := pending + [next];
        tail := tail + [next];
        return;
      }
      MarkTruncated(next);
    }

    /** The lines completed are those of everything since the last newline and `bytes`, each clipped. */
    method PushBytes(bytes: seq<byte>) returns (lines: seq<seq<byte>>)
      requires Valid()
      modifies this
      ensures Valid()
      ensures lines == ClipAll(Split(old(tail) + bytes).0, maxLineBytes)
      ensures tail == Split(old(tail) + bytes).1
    {
      lines := [];
      ghost var start := tail;
      SplitOfPlain(start);
      assert start + bytes[..0] == start;
      for i := 0 to |bytes|
        invariant Valid()
        invariant lines == ClipAll(Split(start + bytes[..i]).0, maxLineBytes)
        invariant tail == Split(start + bytes[..i]).1
      {
        SplitOfNext(start, bytes, i);
        if bytes[i] == NEWLINE {
          var line := FinishLine();
          lines := lines + [line];
        } else {
          PushLineByte(bytes[i]);
        }
      }
      assert bytes[..|bytes|] == bytes;
    }

    /** A line is left over exactly when bytes followed the last newline. */
    method Finish() returns (r: Option<seq<byte>>)
      requires Valid()
      modifies this
      ensures Valid() && tail == []
      ensures r == if old(tail) == [] then None else Some(Clip(old(tail), maxLineBytes))
    {
      if pending == [] && !truncated {
        r := None;
      } else {
        var line := FinishLine();
        r := Some(line);
      }
    }
  }

  lemma SplitOfNext(start: seq<byte>, bytes: seq<byte>, i: nat)
    requires i < |bytes|
    ensures var (lines, tail) := Split(start + bytes[..i]);
            Split(start + bytes[..i + 1]) ==
            if bytes[i] == NEWLINE then (lines + [tail], []) else (lines, tail + [bytes[i]])
  {
    var longer := start + bytes[..i + 1];
    assert longer[..|longer| - 1] == start + bytes[..i];
  }

  function Flattened(chunks: seq<seq<byte>>): seq<byte> {
    if chunks == [] then [] else Flattened(chunks[..|chunks| - 1]) + chunks[|chunks| - 1]
  }

  /** However a stream is cut into reads, the same lines come out of it. */
  method Assemble(maxLineBytes: nat, chunks: seq<seq<byte>>)
    returns (lines: seq<seq<byte>>, last: Option<seq<byte>>)
    ensures lines == ClipAll(Split(Flattened(chunks)).0, maxLineBytes)
    ensures var tail := Split(Flattened(chunks)).1;
            last == if tail == [] then None else Some(Clip(tail, maxLineBytes))
  {
    var assembler := new LogLineAssembler(maxLineBytes);
    lines := [];
    for i := 0 to |chunks|
      invariant fresh(assembler) && assembler.Valid() && assembler.maxLineBytes == maxLineBytes
      invariant lines == ClipAll(Split(Flattened(chunks[..i])).0, maxLineBytes)
      invariant assembler.tail == Split(Flattened(chunks[..i])).1
    {
      SplitInTwo(Flattened(chunks[..i]), chunks[i]);
      assert chunks[..i + 1][..i] == chunks[..i];
      var more := assembler.PushBytes(chunks[i]);
      lines := lines + more;
    }
    assert chunks[..|chunks|] == chunks;
    last := assembler.Finish();
  }
}
