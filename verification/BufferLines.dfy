/** Splitting a buffer into lines and building one from lines. A buffer is a string with one character
    for each byte. src/utils/buffer.ts */
module BufferLines {
  import opened Text

  const CRLF := "\r\n"

  predicate BreakAt(s: string, i: int) {
    0 <= i && i + 1 < |s| && s[i] == '\r' && s[i + 1] == '\n'
  }

  /** The texts between the line breaks. */
  function SplitLines(s: string): (lines: seq<string>)
    ensures lines != []
  {
    if s == "" then [""] else
    if BreakAt(s, 0) then [""] + SplitLines(s[2..]) else
    var rest := SplitLines(s[1..]);
    [[s[0]] + rest[0]] + rest[1..]
  }

  /** The lines of a buffer; an empty one has none. */
  function Lines(s: string): seq<string> {
    if s == "" then [] else SplitLines(s)
  }

  ghost predicate Unbroken(s: string) {
    forall i :: !BreakAt(s, i)
  }

  /** The lines that the iterator yields. */
  method CreateLineIterator(buffer: string) returns (lines: seq<string>)
    ensures lines == Lines(buffer)
  {
    lines := [];
    var lastIdx := |buffer| - 1;
    var start, i := 0, 0;
    if buffer == "" {
      return;
    }
    assert buffer[0..] == buffer && [] + SplitLines(buffer) == SplitLines(buffer);
    while i < |buffer|
      invariant 0 <= start <= |buffer| && 0 <= i <= |buffer| && start <= i + 1
      invariant i < |buffer| ==> lines + SplitLines(buffer[start..]) == SplitLines(buffer)
      invariant i < |buffer| ==> forall k :: start <= k < i ==> !BreakAt(buffer, k)
      invariant i < |buffer| && start > i ==> buffer[i] == '\n'
      invariant i == |buffer| ==> lines == SplitLines(buffer)
    {
      if i == lastIdx {
        LastLine(buffer, start);
        lines := lines + [buffer[start..]];
      } else if BreakAt(buffer, i) {
        NextLine(lines, buffer, start, i);
        lines := lines + [buffer[start..i]];
        start := i + 2;
      }
      i := i + 1;
    }
  }

  lemma {:induction false} WholeLine(s: string)
    requires Unbroken(s)
    ensures SplitLines(s) == [s]
  {
    if s != "" {
      forall i ensures !BreakAt(s[1..], i) { assert BreakAt(s[1..], i) ==> BreakAt(s, i + 1); }
      WholeLine(s[1..]);
      assert s == [s[0]] + s[1..];
    }
  }

  lemma LastLine(s: string, start: nat)
    requires start <= |s| && forall k :: start <= k < |s| - 1 ==> !BreakAt(s, k)
    ensures SplitLines(s[start..]) == [s[start..]]
  {
    forall k ensures !BreakAt(s[start..], k) { assert BreakAt(s[start..], k) ==> BreakAt(s, start + k); }
    WholeLine(s[start..]);
  }

  lemma NextLine(lines: seq<string>, s: string, start: nat, i: nat)
    requires start <= i && BreakAt(s, i) && forall k :: start <= k < i ==> !BreakAt(s, k)
    ensures lines + SplitLines(s[start..]) == (lines + [s[start..i]]) + SplitLines(s[i + 2..])
  {
    FirstLine(s, start, i);
  }

  lemma FirstLine(s: string, start: nat, i: nat)
    requires start <= i && BreakAt(s, i) && forall k :: start <= k < i ==> !BreakAt(s, k)
    ensures SplitLines(s[start..]) == [s[start..i]] + SplitLines(s[i + 2..])
    decreases i - start
  {
    if start == i {
      assert BreakAt(s[i..], 0) && s[i..][2..] == s[i + 2..] && s[i..i] == "";
    } else {
      FirstLine(s, start + 1, i);
      assert s[start..][1..] == s[start + 1..];
      assert s[start..i] == [s[start]] + s[start + 1..i];
      assert !BreakAt(s, start);
    }
  }

  /** Joining the lines restores the buffer. */
  lemma {:induction false} JoinLines(s: string)
    ensures Join(SplitLines(s), CRLF) == s
  {
    if s == "" {
    } else if BreakAt(s, 0) {
      JoinLines(s[2..]);
      assert ([""] + SplitLines(s[2..]))[1..] == SplitLines(s[2..]);
      assert s == "" + CRLF + s[2..];
    } else {
      var rest := SplitLines(s[1..]);
      JoinLines(s[1..]);
      assert s == [s[0]] + s[1..];
      if |rest| > 1 { assert ([[s[0]] + rest[0]] + rest[1..])[1..] == rest[1..]; }
    }
  }

  /** The lines of a buffer contain no break. */
  lemma {:induction false} LinesUnbroken(s: string, i: nat)
    requires i < |SplitLines(s)|
    ensures Unbroken(SplitLines(s)[i])
    decreases |s|
  {
    if s == "" {
    } else if BreakAt(s, 0) {
      if i > 0 { LinesUnbroken(s[2..], i - 1); }
    } else {
      var rest := SplitLines(s[1..]);
      LinesUnbroken(s[1..], i);
      if i == 0 {
        var line := [s[0]] + rest[0];
        LineStart(s[1..]);
        forall k ensures !BreakAt(line, k) { assert k > 0 && BreakAt(line, k) ==> BreakAt(rest[0], k - 1); }
      } else {
        assert SplitLines(s)[i] == rest[i];
      }
    }
  }

  lemma LineStart(s: string)
    ensures SplitLines(s)[0] != "" ==> s != "" && SplitLines(s)[0][0] == s[0]
  {
  }

  lemma {:induction false} SplitFirstLine(first: string, rest: string)
    requires Unbroken(first)
    ensures SplitLines(first + CRLF + rest) == [first] + SplitLines(rest)
  {
    var s := first + CRLF + rest;
    if first == "" {
      assert BreakAt(s, 0) && s[2..] == rest;
    } else {
      forall i ensures !BreakAt(first[1..], i) { assert BreakAt(first[1..], i) ==> BreakAt(first, i + 1); }
      SplitFirstLine(first[1..], rest);
      assert s[1..] == first[1..] + CRLF + rest;
      assert first == [first[0]] + first[1..];
      assert !BreakAt(s, 0) by { assert !BreakAt(first, 0); if |first| == 1 { assert s[1] == '\r'; } }
    }
  }

  /** Splitting restores lines that were joined. */
  lemma {:induction false} SplitJoined(lines: seq<string>)
    requires lines != [] && forall l :: l in lines ==> Unbroken(l)
    ensures SplitLines(Join(lines, CRLF)) == lines
  {
    if |lines| == 1 {
      WholeLine(lines[0]);
    } else {
      SplitJoined(lines[1..]);
      SplitFirstLine(lines[0], Join(lines[1..], CRLF));
      assert lines == [lines[0]] + lines[1..];
    }
  }

  // ---------------------------------------------------------------- lists of chunks

  /** appendLine */
  function AppendLine(chunks: seq<string>, line: string): seq<string> {
    chunks + (if chunks != [] then [CRLF] else []) + [line]
  }

  /** The chunks after the lines were appended to an empty list. */
  function Chunks(lines: seq<string>): seq<string> {
    if lines == [] then [] else AppendLine(Chunks(lines[..|lines| - 1]), lines[|lines| - 1])
  }

  lemma {:induction false} ConcatBoth(a: seq<string>, b: seq<string>)
    ensures Concat(a + b) == Concat(a) + Concat(b)
  {
    if b == [] {
      assert a + b == a;
    } else {
      var init, last := b[..|b| - 1], b[|b| - 1];
      ConcatBoth(a, init);
      assert a + b == (a + init) + [last];
      ConcatAppend(a + init, last);
    }
  }

  lemma {:induction false} JoinAppend(lines: seq<string>, line: string)
    requires lines != []
    ensures Join(lines + [line], CRLF) == Join(lines, CRLF) + CRLF + line
  {
    if |lines| == 1 {
      assert (lines + [line])[1..] == [line];
    } else {
      JoinAppend(lines[1..], line);
      assert (lines + [line])[1..] == lines[1..] + [line];
      assert lines[0] + CRLF + (Join(lines[1..], CRLF) + CRLF + line) == (lines[0] + CRLF + Join(lines[1..], CRLF)) + CRLF + line;
    }
  }

  lemma {:induction false} JoinBoth(a: seq<string>, b: seq<string>)
    requires a != [] && b != []
    ensures Join(a + b, CRLF) == Join(a, CRLF) + CRLF + Join(b, CRLF)
  {
    if |a| == 1 {
      assert (a + b)[1..] == b;
    } else {
      JoinBoth(a[1..], b);
      assert (a + b)[1..] == a[1..] + b;
      assert a[0] + CRLF + (Join(a[1..], CRLF) + CRLF + Join(b, CRLF)) == (a[0] + CRLF + Join(a[1..], CRLF)) + CRLF + Join(b, CRLF);
    }
  }

  /** The chunks are the lines with the breaks between them. */
  lemma {:induction false} ConcatChunks(lines: seq<string>)
    ensures Concat(Chunks(lines)) == Join(lines, CRLF)
    ensures Chunks(lines) == [] <==> lines == []
  {
    if lines != [] {
      var init, last := lines[..|lines| - 1], lines[|lines| - 1];
      ConcatChunks(init);
      assert lines == init + [last];
      if init == [] {
        assert Chunks(lines) == [last];
        ConcatAppend([], last);
      } else {
        JoinAppend(init, last);
        ConcatAppend(Chunks(init) + [CRLF], last);
        ConcatAppend(Chunks(init), CRLF);
      }
    }
  }
}
