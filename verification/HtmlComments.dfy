/** Removing HTML comment lines from a script until none is left. src/processing/script/index.ts */
module HtmlComments {
  import opened Prelude
  import opened Text

  const OPEN := "<!--"

  function SpaceRun(s: string): (n: nat)
    ensures n <= |s|
  {
    if s != "" && IsSpace(s[0]) then 1 + SpaceRun(s[1..]) else 0
  }

  /** The end of the line with its break, from i on. */
  function LineEnd(s: string, i: nat): (end: nat)
    requires i <= |s|
    ensures i <= end <= |s|
  {
    var e := i + Until(s[i..], "\n");
    if e < |s| then e + 1 else e
  }

  /** Where a match of HTML_COMMENT_RE that begins at the start of s ends: white space, the opening of a
      comment, and the rest of the line with its break. */
  function MatchEnd(s: string): (end: Option<nat>)
    ensures end.Some? ==> |OPEN| <= end.value <= |s|
  {
    var k := SpaceRun(s);
    if OPEN <= s[k..] then Some(LineEnd(s, k + |OPEN|)) else None
  }

  /** A match begins at the start of the text or at a line break. */
  function MatchAt(s: string, start: bool): Option<nat> {
    if start || (s != "" && s[0] == '\n') then MatchEnd(s) else None
  }

  /** replace with the global flag. */
  function Replace(s: string, start: bool): string
    decreases |s|
  {
    match MatchAt(s, start)
    case Some(end) => "\n" + Replace(s[end..], false)
    case None => if s == "" then "" else [s[0]] + Replace(s[1..], false)
  }

  /** test */
  predicate Test(s: string, start: bool)
    decreases |s|
  {
    MatchAt(s, start).Some? || (s != "" && Test(s[1..], false))
  }

  lemma {:induction false} ReplaceShorter(s: string, start: bool)
    ensures |Replace(s, start)| <= |s|
    ensures Test(s, start) ==> |Replace(s, start)| < |s|
    decreases |s|
  {
    match MatchAt(s, start)
    case Some(end) => ReplaceShorter(s[end..], false);
    case None => if s != "" { ReplaceShorter(s[1..], false); }
  }

  // ---------------------------------------------------------------- lines

  predicate IsCommentLine(line: string) {
    "<!--" <= line[SpaceRun(line)..]
  }

  predicate IsBlank(line: string) {
    SpaceRun(line) == |line|
  }

  /** The lines that hold code. */
  function CodeLines(lines: seq<string>): seq<string> {
    if lines == [] then [] else
    (if IsBlank(lines[0]) || IsCommentLine(lines[0]) then [] else [lines[0]]) + CodeLines(lines[1..])
  }

  method RemoveHtmlComments(code: string) returns (r: string)
    ensures forall line :: line in Split(r, '\n') ==> !IsCommentLine(line)
    ensures CodeLines(Split(r, '\n')) == CodeLines(Split(code, '\n'))
  {
    r := Replace(code, true);
    ReplaceKeepsCode(code);
    while Test(r, true)
      invariant CodeLines(Split(r, '\n')) == CodeLines(Split(code, '\n'))
      decreases |r|
    {
      ReplaceShorter(r, true);
      ReplaceKeepsCode(r);
      r := Replace(r, true);
    }
    NothingLeft(r);
  }

  // ---------------------------------------------------------------- a match covers no code

  lemma SplitChar(c: char, s: string)
    ensures Split([c] + s, '\n') == if c == '\n' then [""] + Split(s, '\n') else [[c] + Split(s, '\n')[0]] + Split(s, '\n')[1..]
  {
    assert ([c] + s)[1..] == s;
  }

  lemma CodeCons(line: string, rest: seq<string>)
    ensures CodeLines([line] + rest) == (if IsBlank(line) || IsCommentLine(line) then [] else [line]) + CodeLines(rest)
  {
    assert ([line] + rest)[1..] == rest;
  }

  lemma {:induction false} SplitUntil(s: string)
    ensures Split(s, '\n')[0] == s[..Until(s, "\n")]
    ensures Split(s, '\n')[1..] == if Until(s, "\n") < |s| then Split(s[Until(s, "\n") + 1..], '\n') else []
  {
    if s != "" {
      SplitUntil(s[1..]);
      assert s == [s[0]] + s[1..];
      SplitChar(s[0], s[1..]);
    }
  }

  lemma {:induction false} SpacesThenComment(line: string, n: nat)
    requires n <= |line| && (forall i :: 0 <= i < n ==> IsSpace(line[i])) && OPEN <= line[n..]
    ensures IsCommentLine(line)
  {
    if n > 0 {
      SpacesThenComment(line[1..], n - 1);
      assert line[1..][SpaceRun(line[1..])..] == line[SpaceRun(line)..];
    } else {
      assert line[0] == '<' && !IsSpace('<');
      assert line[0..] == line;
    }
  }

  lemma {:induction false} SpaceRunMeans(s: string)
    ensures forall i :: 0 <= i < SpaceRun(s) ==> IsSpace(s[i])
    ensures SpaceRun(s) < |s| ==> !IsSpace(s[SpaceRun(s)])
  {
    if s != "" && IsSpace(s[0]) {
      SpaceRunMeans(s[1..]);
      assert forall i :: 1 <= i < |s| ==> s[i] == s[1..][i - 1];
    }
  }

  lemma OpenIsPlain(s: string, k: nat)
    requires k <= |s| && OPEN <= s[k..]
    ensures k + 4 <= |s| && forall i :: k <= i < k + 4 ==> s[i] != '\n'
  {
    assert s[k..][0] == '<' && s[k..][1] == '!' && s[k..][2] == '-' && s[k..][3] == '-';
  }

  lemma OpenInSlice(s: string, k: nat, e: nat)
    requires k + 4 <= e <= |s| && OPEN <= s[k..]
    ensures OPEN <= s[..e][k..]
  {
    assert s[..e][k..] == s[k..][..e - k];
  }

  predicate OneLinePrefix(s: string, n: nat)
    requires n <= |s|
  {
    forall i :: 0 <= i < n ==> s[i] != '\n'
  }

  lemma PrefixUntil(s: string, n: nat)
    requires n <= |s| && OneLinePrefix(s, n)
    ensures Until(s, "\n") == n + Until(s[n..], "\n")
  {
    var head := s[..n];
    UntilIs(head, "\n", n);
    UntilConcat(head, s[n..], "\n");
    assert s == head + s[n..];
  }

  lemma OpenPrefix(s: string, k: nat)
    requires k <= Until(s, "\n") && OPEN <= s[k..]
    ensures k + 4 <= |s| && OneLinePrefix(s, k + 4)
  {
    UntilMeans(s, "\n");
    OpenIsPlain(s, k);
  }

  /** A match on one line takes this line, which is a comment. */
  lemma CommentIsFirstLine(s: string)
    requires MatchEnd(s).Some? && SpaceRun(s) <= Until(s, "\n")
    ensures IsCommentLine(Split(s, '\n')[0])
    ensures MatchEnd(s).value == if Until(s, "\n") < |s| then Until(s, "\n") + 1 else Until(s, "\n")
  {
    var k := SpaceRun(s);
    OpenPrefix(s, k);
    FirstLineEnd(s, k + |OPEN|);
    FirstLineIsComment(s, k, Until(s, "\n"));
  }

  lemma FirstLineEnd(s: string, i: nat)
    requires i <= |s| && OneLinePrefix(s, i)
    ensures i <= Until(s, "\n") && LineEnd(s, i) == if Until(s, "\n") < |s| then Until(s, "\n") + 1 else Until(s, "\n")
  {
    PrefixUntil(s, i);
  }

  lemma FirstLineIsComment(s: string, k: nat, e: nat)
    requires k == SpaceRun(s) && e == Until(s, "\n") && k + 4 <= e && OPEN <= s[k..]
    ensures IsCommentLine(Split(s, '\n')[0])
  {
    OpenInSlice(s, k, e);
    SpaceRunMeans(s);
    SplitUntil(s);
    SpacesThenComment(s[..e], k);
  }

  /** A line that holds no code. */
  predicate IsEmptyLine(line: string) {
    IsBlank(line) || IsCommentLine(line)
  }

  lemma SpaceKeepsEmpty(c: char, line: string)
    requires IsSpace(c) && IsEmptyLine(line)
    ensures IsEmptyLine([c] + line)
  {
    var t := [c] + line;
    assert t[1..] == line;
    assert SpaceRun(t) == 1 + SpaceRun(line);
    assert t[SpaceRun(t)..] == line[SpaceRun(line)..];
  }

  lemma Drops(s: string, b: nat)
    requires 1 + b <= |s|
    ensures s[1..][b..] == s[b + 1..]
  {
  }

  lemma LaterLineEnd(s: string, i: nat)
    requires 1 <= i <= |s|
    ensures LineEnd(s, i) == LineEnd(s[1..], i - 1) + 1
  {
    Drops(s, i - 1);
  }

  lemma MatchEndIs(s: string, k: nat)
    requires k == SpaceRun(s)
    ensures MatchEnd(s).Some? <==> OPEN <= s[k..]
    ensures MatchEnd(s).Some? ==> k + |OPEN| <= |s| && MatchEnd(s).value == LineEnd(s, k + |OPEN|)
  {
  }

  /** A match that begins with white space goes on behind it. */
  lemma LaterMatch(s: string)
    requires MatchEnd(s).Some? && s != "" && IsSpace(s[0])
    ensures MatchEnd(s[1..]) == Some(MatchEnd(s).value - 1) && s[1..][MatchEnd(s).value - 1..] == s[MatchEnd(s).value..]
  {
    var k := SpaceRun(s);
    assert SpaceRun(s[1..]) == k - 1;
    MatchEndIs(s, k);
    MatchEndIs(s[1..], k - 1);
    Drops(s, k - 1);
    LaterLineEnd(s, k + |OPEN|);
    Drops(s, MatchEnd(s).value - 1);
  }

  /** The code lines of a text that begins with a match are those after the match. */
  lemma {:induction false} MatchHasNoCode(s: string)
    requires MatchEnd(s).Some?
    ensures IsEmptyLine(Split(s, '\n')[0])
    ensures CodeLines(Split(s, '\n')) == CodeLines(Split(s[MatchEnd(s).value..], '\n'))
    decreases |s|
  {
    if s != "" && IsSpace(s[0]) {
      var t := s[1..];
      LaterMatch(s);
      MatchHasNoCode(t);
      assert s == [s[0]] + t;
      SplitChar(s[0], t);
      EmptyFirst(s[0], Split(t, '\n'));
    } else {
      CommentHasNoCode(s);
    }
  }

  lemma EmptyFirst(c: char, lines: seq<string>)
    requires IsSpace(c) && lines != [] && IsEmptyLine(lines[0])
    ensures IsEmptyLine([c] + lines[0]) && CodeLines([[c] + lines[0]] + lines[1..]) == CodeLines(lines)
    ensures CodeLines([""] + lines) == CodeLines(lines)
  {
    SpaceKeepsEmpty(c, lines[0]);
    CodeCons([c] + lines[0], lines[1..]);
    CodeCons(lines[0], lines[1..]);
    CodeCons("", lines);
    assert lines == [lines[0]] + lines[1..];
  }

  lemma CommentHasNoCode(s: string)
    requires MatchEnd(s).Some? && SpaceRun(s) == 0
    ensures IsEmptyLine(Split(s, '\n')[0])
    ensures CodeLines(Split(s, '\n')) == CodeLines(Split(s[MatchEnd(s).value..], '\n'))
  {
    CommentIsFirstLine(s);
    SplitUntil(s);
    var lines := Split(s, '\n');
    CodeCons(lines[0], lines[1..]);
    assert lines == [lines[0]] + lines[1..];
    if Until(s, "\n") == |s| {
      CodeCons("", []);
      assert s[|s|..] == "" && Split("", '\n') == [""] + [];
    }
  }

  /** After the first line break the two texts have the same code lines, and before it the same text. */
  ghost predicate SameCode(a: string, b: string) {
    Split(a, '\n')[0] == Split(b, '\n')[0] && CodeLines(Split(a, '\n')[1..]) == CodeLines(Split(b, '\n')[1..])
  }

  lemma SameCodeLines(a: string, b: string)
    requires SameCode(a, b)
    ensures CodeLines(Split(a, '\n')) == CodeLines(Split(b, '\n'))
  {
    var x, y := Split(a, '\n'), Split(b, '\n');
    CodeCons(x[0], x[1..]);
    CodeCons(y[0], y[1..]);
    assert x == [x[0]] + x[1..] && y == [y[0]] + y[1..];
  }

  lemma {:induction false} ReplaceInside(s: string)
    ensures SameCode(Replace(s, false), s)
    decreases |s|
  {
    if s != "" {
      assert s == [s[0]] + s[1..];
      SplitChar(s[0], s[1..]);
      match MatchAt(s, false)
      case None =>
        ReplaceInside(s[1..]);
        SplitChar(s[0], Replace(s[1..], false));
        if s[0] == '\n' { SameCodeLines(Replace(s[1..], false), s[1..]); }
      case Some(end) =>
        BreakThenMatch(s, end);
    }
  }

  lemma {:induction false} BreakThenMatch(s: string, end: nat)
    requires s != "" && s[0] == '\n' && MatchAt(s, false) == Some(end)
    ensures SameCode(Replace(s, false), s)
    decreases |s|, 0
  {
    ReplaceInside(s[end..]);
    SameCodeLines(Replace(s[end..], false), s[end..]);
    assert Replace(s, false) == ['\n'] + Replace(s[end..], false);
    SplitChar('\n', Replace(s[end..], false));
    assert s == ['\n'] + s[1..];
    SplitChar('\n', s[1..]);
    MatchHasNoCode(s);
    CodeCons("", Split(s[1..], '\n'));
  }

  /** A replacement changes no code line. */
  lemma ReplaceKeepsCode(s: string)
    ensures CodeLines(Split(Replace(s, true), '\n')) == CodeLines(Split(s, '\n'))
  {
    match MatchAt(s, true)
    case None =>
      if s != "" {
        ReplaceInside(s[1..]);
        assert s == [s[0]] + s[1..];
        SplitChar(s[0], s[1..]);
        SplitChar(s[0], Replace(s[1..], false));
        if s[0] == '\n' { SameCodeLines(Replace(s[1..], false), s[1..]); }
        SameCodeLines(Replace(s, true), s);
      }
    case Some(end) =>
      ReplaceInside(s[end..]);
      SameCodeLines(Replace(s[end..], false), s[end..]);
      SplitChar('\n', Replace(s[end..], false));
      assert Replace(s, true) == ['\n'] + Replace(s[end..], false);
      CodeCons("", Split(Replace(s[end..], false), '\n'));
      MatchHasNoCode(s);
  }

  // ---------------------------------------------------------------- the end of the loop

  lemma CommentLineMatches(s: string)
    requires IsCommentLine(Split(s, '\n')[0])
    ensures MatchEnd(s).Some? && MatchEnd("\n" + s).Some?
  {
    SplitUntil(s);
    var line := s[..Until(s, "\n")];
    var k := SpaceRun(line);
    SpaceRunMeans(line);
    assert line[k..][0] == '<' && line[k] == '<';
    SpaceRunMeans(s);
    assert forall i :: 0 <= i < |line| ==> s[i] == line[i];
    assert SpaceRun(s) == k && s[k..][..|line| - k] == line[k..];
    assert OPEN <= s[k..];
    assert ("\n" + s)[1..] == s && IsSpace('\n');
    assert ("\n" + s)[k + 1..] == s[k..];
  }

  lemma {:induction false} NoCommentAfter(s: string)
    requires !Test(s, false)
    ensures forall line :: line in Split(s, '\n')[1..] ==> !IsCommentLine(line)
    decreases |s|
  {
    if s != "" {
      NoCommentAfter(s[1..]);
      assert s == [s[0]] + s[1..];
      SplitChar(s[0], s[1..]);
      if s[0] == '\n' {
        var rest := Split(s[1..], '\n');
        assert s == "\n" + s[1..];
        if IsCommentLine(rest[0]) { CommentLineMatches(s[1..]); }
        assert rest == [rest[0]] + rest[1..];
      }
    }
  }

  /** When nothing matches any more no line is a comment. */
  lemma NothingLeft(s: string)
    requires !Test(s, true)
    ensures forall line :: line in Split(s, '\n') ==> !IsCommentLine(line)
  {
    var lines := Split(s, '\n');
    if IsCommentLine(lines[0]) { CommentLineMatches(s); }
    assert !Test(s, false) by { if s != "" { assert !Test(s[1..], false); } }
    NoCommentAfter(s);
    assert lines == [lines[0]] + lines[1..];
  }
}
