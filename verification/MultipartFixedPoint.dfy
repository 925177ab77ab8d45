/** One parse and print of any multipart body reaches a fixed point, and the exact condition for it. */
module MultipartFixedPoint {
  import opened Prelude
  import opened Text
  import opened BufferLines
  import opened Multipart
  import opened MultipartRoundTrip

  // ---------------------------------------------------------------- what is read from a header line

  /** The colon after the name is the first one that can be. */
  predicate Separated(h: Header) {
    h.rawName == "" || ':' !in h.rawName[1..]
  }

  /** A header that was read: it prints as one line, which reads the same exactly when it is separated. */
  predicate ReadHeader(h: Header) {
    OneLine(HeaderLine(h)) && (Separated(h) <==> ParseHeader(HeaderLine(h)) == h)
  }

  lemma {:induction false} FirstColon(line: string, k: nat, c: nat)
    requires k <= c < |line| && line[c] == ':' && OneLine(line) && (forall i :: k <= i < c ==> line[i] != ':')
    ensures HeaderColon(line, k) == Some(c)
    decreases c - k
  {
    assert line[k] in line;
    if k < c {
      FirstColon(line, k + 1, c);
    } else {
      TrimLeftOneLine(line[c + 1..]);
    }
  }

  lemma {:induction false} TrimLeftOneLine(s: string)
    requires OneLine(s)
    ensures OneLine(TrimLeft(s)) && TrimLeft(TrimLeft(s)) == TrimLeft(s)
    ensures TrimLeft(" " + s) == TrimLeft(s)
  {
    assert (" " + s)[1..] == s;
    if s != "" && IsSpace(s[0]) { TrimLeftOneLine(s[1..]); }
  }

  lemma {:induction false} ColonIsFirst(line: string, k: nat)
    requires k <= |line| && OneLine(line)
    ensures HeaderColon(line, k).Some? ==> forall i :: k <= i < HeaderColon(line, k).value ==> line[i] != ':'
    decreases |line| - k
  {
    if k < |line| {
      assert line[k] in line;
      if line[k] == ':' {
        TrimLeftOneLine(line[k + 1..]);
      } else {
        ColonIsFirst(line, k + 1);
      }
    }
  }

  lemma {:induction false} TrimLeftTwice(s: string)
    ensures TrimLeft(TrimLeft(s)) == TrimLeft(s)
  {
    if s != "" && IsSpace(s[0]) { TrimLeftTwice(s[1..]); }
  }

  lemma {:induction false} BeforeColon(line: string, k: nat)
    requires k <= |line|
    ensures HeaderColon(line, k).Some? ==>
              && OneLine(line[k..HeaderColon(line, k).value]) && OneLine(TrimLeft(line[HeaderColon(line, k).value + 1..]))
    decreases |line| - k
  {
    if k < |line| && HeaderColon(line, k).Some? && HeaderColon(line, k).value != k {
      var c := HeaderColon(line, k).value;
      BeforeColon(line, k + 1);
      assert line[k..c] == [line[k]] + line[k + 1..c];
    }
  }

  lemma HeaderIsRead(line: string)
    ensures ReadHeader(ParseHeader(line))
    ensures OneLine(line) ==> Separated(ParseHeader(line))
  {
    if line != "" && !IsLineTerminator(line[0]) && HeaderColon(line, 1).Some? {
      var k := HeaderColon(line, 1).value;
      BeforeColon(line, 1);
      TrimLeftTwice(line[k + 1..]);
      PrintedIsRead(line[..k], TrimLeft(line[k + 1..]));
      if OneLine(line) { ColonIsFirst(line, 1); }
    } else {
      assert HeaderLine(Header("", "", "")) == ": ";
      assert HeaderColon(": ", 2) == None;
      assert HeaderColon(": ", 1) == None;
    }
  }

  lemma PrintedText(rawName: string, value: string)
    requires rawName != "" && OneLine(rawName) && OneLine(value)
    ensures var printed, k := HeaderLine(Header(Lower(rawName), rawName, value)), |rawName|;
            && k < |printed| && printed[k] == ':' && printed[..k] == rawName && printed[k + 1..] == " " + value
            && OneLine(printed) && !IsLineTerminator(printed[0])
  {
    var printed := HeaderLine(Header(Lower(rawName), rawName, value));
    assert printed == rawName + [':'] + (" " + value);
    forall c | c in printed ensures !IsLineTerminator(c) { assert c in rawName || c in value || c in ": "; }
    assert printed[0] in printed;
  }

  lemma PrintedIsRead(rawName: string, value: string)
    requires rawName != "" && OneLine(rawName) && OneLine(value) && TrimLeft(value) == value
    ensures ReadHeader(Header(Lower(rawName), rawName, value))
  {
    var h, k := Header(Lower(rawName), rawName, value), |rawName|;
    var printed := HeaderLine(h);
    PrintedText(rawName, value);
    if Separated(h) {
      forall i | 1 <= i < k ensures printed[i] != ':' { assert rawName[1..][i - 1] == printed[..k][i]; }
      FirstColon(printed, 1, k);
      TrimLeftOneLine(value);
    } else {
      ColonIsFirst(printed, 1);
      var i :| 0 <= i < |rawName[1..]| && rawName[1..][i] == ':';
      assert printed[..k][i + 1] == ':';
    }
  }

  lemma {:induction false} SetKeepsUnique(headers: seq<Header>, h: Header)
    requires UniqueNames(headers)
    ensures UniqueNames(SetHeader(headers, h))
    ensures forall x :: x in SetHeader(headers, h) ==> x == h || x in headers
    ensures GetHeader(SetHeader(headers, h), h.name) == Some(h)
  {
    if headers != [] && headers[0].name != h.name {
      var rest := SetHeader(headers[1..], h);
      SetKeepsUnique(headers[1..], h);
      forall j | 0 <= j < |rest| ensures headers[0].name != rest[j].name {
        assert rest[j] in rest;
        if rest[j] != h {
          var i :| 0 <= i < |headers[1..]| && headers[1..][i] == rest[j];
          assert headers[i + 1] == rest[j];
        }
      }
    }
  }

  lemma {:induction false} SetKeepsOthers(headers: seq<Header>, h: Header, name: string)
    requires name != h.name
    ensures GetHeader(SetHeader(headers, h), name) == GetHeader(headers, name)
  {
    if headers != [] && headers[0].name != h.name { SetKeepsOthers(headers[1..], h, name); }
  }

  // ---------------------------------------------------------------- what is read from a body

  ghost predicate ReadEntry(e: Entry, token: string) {
    && (forall h :: h in e.headers ==> ReadHeader(h))
    && UniqueNames(e.headers) && Named(e) && PlainLines(e.body, token)
  }

  ghost predicate ReadForm(f: Form, token: string) {
    && PlainLines(f.preamble, token) && PlainLines(f.epilogue, token)
    && forall e :: e in f.entries ==> ReadEntry(e, token)
  }

  ghost predicate ReadParser(p: Parser, token: string) {
    ReadForm(FormOf(p), token) && (p.current.Some? ==> ReadEntry(p.current.value, token))
  }

  lemma SetRawHeaderIsRead(e: Entry, line: string, token: string)
    requires ReadEntry(e, token)
    ensures ReadEntry(SetRawHeader(e, line), token)
  {
    var h := ParseHeader(line);
    HeaderIsRead(line);
    SetKeepsUnique(e.headers, h);
    if h.name != DISPOSITION { SetKeepsOthers(e.headers, h, DISPOSITION); }
  }

  lemma StepIsRead(p: Parser, line: string, token: string)
    requires ReadParser(p, token) && Unbroken(line)
    ensures ReadParser(Step(p, line, token), token)
  {
    if p.state == InHeaders && !IsDelimiter(line, token) && p.current.Some? {
      SetRawHeaderIsRead(p.current.value, line, token);
    }
  }

  lemma {:induction false} ParsedIsRead(p: Parser, lines: seq<string>, token: string)
    requires ReadParser(p, token) && forall l :: l in lines ==> Unbroken(l)
    ensures ReadParser(ParseFrom(p, lines, token), token)
    decreases |lines|
  {
    if lines != [] {
      assert lines[0] in lines;
      StepIsRead(p, lines[0], token);
      ParsedIsRead(Step(p, lines[0], token), lines[1..], token);
    }
  }

  lemma BodyLinesUnbroken(body: string)
    ensures forall l :: l in Lines(body) ==> Unbroken(l)
  {
    forall l | l in Lines(body) ensures Unbroken(l) {
      var i :| 0 <= i < |Lines(body)| && Lines(body)[i] == l;
      LinesUnbroken(body, i);
    }
  }

  // ---------------------------------------------------------------- which lines are read as headers

  function NextState(s: State, line: string, token: string): State {
    if line == Delimiter(token) then InHeaders
    else if line == EndDelimiter(token) then InEpilogue
    else if s == InHeaders && line == "" then InBody
    else s
  }

  function StateAfter(s: State, lines: seq<string>, token: string): State
    decreases |lines|
  {
    if lines == [] then s else StateAfter(NextState(s, lines[0], token), lines[1..], token)
  }

  /** Every line that is read as a header is one of the given lines. */
  predicate HeadersAmong(s: State, lines: seq<string>, token: string, allowed: set<string>)
    decreases |lines|
  {
    lines == [] || (
      && (s == InHeaders && !IsDelimiter(lines[0], token) && lines[0] != "" ==> lines[0] in allowed)
      && HeadersAmong(NextState(s, lines[0], token), lines[1..], token, allowed))
  }

  lemma {:induction false} AmongConcat(s: State, a: seq<string>, b: seq<string>, token: string, allowed: set<string>)
    requires HeadersAmong(s, a, token, allowed) && HeadersAmong(StateAfter(s, a, token), b, token, allowed)
    ensures HeadersAmong(s, a + b, token, allowed)
    ensures StateAfter(s, a + b, token) == StateAfter(StateAfter(s, a, token), b, token)
    decreases |a|
  {
    if a == [] {
      assert a + b == b;
    } else {
      assert (a + b)[1..] == a[1..] + b;
      AmongConcat(NextState(s, a[0], token), a[1..], b, token, allowed);
    }
  }

  lemma {:induction false} PlainAmong(s: State, lines: seq<string>, token: string, allowed: set<string>)
    requires s != InHeaders && PlainLines(lines, token)
    ensures HeadersAmong(s, lines, token, allowed) && StateAfter(s, lines, token) == s
    decreases |lines|
  {
    if lines != [] {
      PlainTail(lines, token);
      PlainAmong(s, lines[1..], token, allowed);
    }
  }

  lemma {:induction false} HeaderLinesAmong(s: State, headers: seq<Header>, token: string, allowed: set<string>)
    requires forall h :: h in headers ==> HeaderLine(h) in allowed
    ensures HeadersAmong(s, HeaderLines(headers), token, allowed)
    decreases |headers|
  {
    if headers != [] {
      assert headers[0] in headers;
      assert HeaderLines(headers)[1..] == HeaderLines(headers[1..]);
      HeaderLinesAmong(NextState(s, HeaderLine(headers[0]), token), headers[1..], token, allowed);
    }
  }

  /** The lines that print as headers of a form. */
  function AllHeaderLines(f: Form): set<string> {
    set e, h | e in f.entries && h in e.headers :: HeaderLine(h)
  }

  lemma EntryAmong(s: State, e: Entry, token: string, allowed: set<string>)
    requires PlainLines(e.body, token) && forall h :: h in e.headers ==> HeaderLine(h) in allowed
    ensures HeadersAmong(s, EntryLines(e, token), token, allowed)
    ensures StateAfter(s, EntryLines(e, token), token) != InHeaders
  {
    var d, h, b := [Delimiter(token)], HeaderLines(e.headers), OrEmptyLine(e.body);
    DelimitersDiffer(token);
    PlainOrEmpty(e.body, token);
    assert d[1..] == [] && [""][1..] == [];
    HeaderLinesAmong(InHeaders, e.headers, token, allowed);
    AmongConcat(s, d, h, token, allowed);
    AmongConcat(s, d + h, [""], token, allowed);
    PlainAmong(StateAfter(s, d + h + [""], token), b, token, allowed);
    AmongConcat(s, d + h + [""], b, token, allowed);
  }

  lemma {:induction false} EntriesAmong(s: State, entries: seq<Entry>, token: string, allowed: set<string>)
    requires s != InHeaders
    requires forall e :: e in entries ==> PlainLines(e.body, token) && forall h :: h in e.headers ==> HeaderLine(h) in allowed
    ensures HeadersAmong(s, EntriesLines(entries, token), token, allowed)
    ensures StateAfter(s, EntriesLines(entries, token), token) != InHeaders
    decreases |entries|
  {
    if entries != [] {
      assert entries[0] in entries;
      EntryAmong(s, entries[0], token, allowed);
      EntriesAmong(StateAfter(s, EntryLines(entries[0], token), token), entries[1..], token, allowed);
      AmongConcat(s, EntryLines(entries[0], token), EntriesLines(entries[1..], token), token, allowed);
    }
  }

  /** In a printed form only the printed headers are read as headers, even when one of them is a
      delimiter. */
  lemma FormAmong(f: Form, token: string)
    requires ReadForm(f, token)
    ensures HeadersAmong(InPreamble, FormLines(f, token), token, AllHeaderLines(f))
  {
    var a, b, c, d := f.preamble, EntriesLines(f.entries, token), [EndDelimiter(token)], OrEmptyLine(f.epilogue);
    var allowed := AllHeaderLines(f);
    DelimitersDiffer(token);
    PlainOrEmpty(f.epilogue, token);
    assert c[1..] == [];
    PlainAmong(InPreamble, a, token, allowed);
    EntriesAmong(InPreamble, f.entries, token, allowed);
    AmongConcat(InPreamble, a, b, token, allowed);
    AmongConcat(InPreamble, a + b, c, token, allowed);
    PlainAmong(InEpilogue, d, token, allowed);
    AmongConcat(InPreamble, a + b + c, d, token, allowed);
  }

  /** The headers of an entry were read from lines that are no delimiters. */
  ghost predicate EntryFrom(e: Entry, token: string, allowed: set<string>) {
    forall h :: h in e.headers ==> exists l :: l in allowed && !IsDelimiter(l, token) && h == ParseHeader(l)
  }

  ghost predicate ParserFrom(p: Parser, token: string, allowed: set<string>) {
    && (forall e :: e in p.entries ==> EntryFrom(e, token, allowed))
    && (p.current.Some? ==> EntryFrom(p.current.value, token, allowed))
  }

  lemma StepFrom(p: Parser, line: string, token: string, allowed: set<string>)
    requires ParserFrom(p, token, allowed)
    requires p.state == InHeaders && !IsDelimiter(line, token) && line != "" ==> line in allowed
    ensures ParserFrom(Step(p, line, token), token, allowed) && Step(p, line, token).state == NextState(p.state, line, token)
  {
    if p.state == InHeaders && !IsDelimiter(line, token) && line != "" && p.current.Some? {
      SetKeepsMembers(p.current.value.headers, ParseHeader(line));
    }
  }

  lemma {:induction false} SetKeepsMembers(headers: seq<Header>, h: Header)
    ensures forall x :: x in SetHeader(headers, h) ==> x == h || x in headers
  {
    if headers != [] && headers[0].name != h.name { SetKeepsMembers(headers[1..], h); }
  }

  lemma {:induction false} ParsedFrom(p: Parser, lines: seq<string>, token: string, allowed: set<string>)
    requires ParserFrom(p, token, allowed) && HeadersAmong(p.state, lines, token, allowed)
    ensures ParserFrom(ParseFrom(p, lines, token), token, allowed)
    decreases |lines|
  {
    if lines != [] {
      StepFrom(p, lines[0], token, allowed);
      ParsedFrom(Step(p, lines[0], token), lines[1..], token, allowed);
    }
  }

  // ---------------------------------------------------------------- the fixed point

  /** Every header is separated and does not print as a delimiter. */
  ghost predicate Faithful(f: Form, token: string) {
    forall e, h :: e in f.entries && h in e.headers ==> Separated(h) && !IsDelimiter(HeaderLine(h), token)
  }

  /** The text of a part. */
  function BodyText(e: Entry): string {
    Join(e.body, CRLF)
  }

  predicate SameEntry(e: Entry, d: Entry) {
    e.headers == d.headers && e.name == d.name && e.fileName == d.fileName && BodyText(e) == BodyText(d)
  }

  /** Two forms have the same headers, names and contents. */
  predicate SameForm(f: Form, g: Form) {
    && g.preamble == f.preamble && |g.entries| == |f.entries|
    && (forall i :: 0 <= i < |f.entries| ==> SameEntry(f.entries[i], g.entries[i]))
    && Join(g.epilogue, CRLF) == Join(f.epilogue, CRLF)
  }

  lemma {:induction false} PrintedHeadersUnbroken(headers: seq<Header>)
    requires forall h :: h in headers ==> ReadHeader(h)
    ensures forall l :: l in HeaderLines(headers) ==> Unbroken(l)
  {
    if headers != [] {
      assert headers[0] in headers;
      OneLineUnbroken(HeaderLine(headers[0]));
      PrintedHeadersUnbroken(headers[1..]);
    }
  }

  lemma {:induction false} PrintedEntriesUnbroken(entries: seq<Entry>, token: string)
    requires (forall e :: e in entries ==> ReadEntry(e, token)) && Unbroken(Delimiter(token))
    ensures forall l :: l in EntriesLines(entries, token) ==> Unbroken(l)
  {
    if entries != [] {
      assert entries[0] in entries;
      PrintedHeadersUnbroken(entries[0].headers);
      PrintedEntriesUnbroken(entries[1..], token);
    }
  }

  /** The headers that are read from a printed form. */
  lemma ReadAgainFrom(f: Form, token: string)
    requires ReadForm(f, token) && Unbroken(token)
    ensures forall e :: e in ParseBody(Print(f, token), token).entries ==> EntryFrom(e, token, AllHeaderLines(f))
  {
    PrintIsLines(f, token);
    DelimitersUnbroken(token);
    PrintedEntriesUnbroken(f.entries, token);
    SplitJoined(FormLines(f, token));
    assert Print(f, token) != "" by { assert EndDelimiter(token) != ""; }
    FormAmong(f, token);
    ParsedFrom(START, FormLines(f, token), token, AllHeaderLines(f));
  }

  lemma SameHeaders(f: Form, g: Form, e: Entry)
    requires SameForm(f, g) && e in f.entries
    ensures exists d :: d in g.entries && d.headers == e.headers
  {
    var i :| 0 <= i < |f.entries| && f.entries[i] == e;
    assert SameEntry(f.entries[i], g.entries[i]) && g.entries[i] in g.entries;
  }

  /** A header that is read again from a printed form was faithful. */
  lemma SameIsFaithful(f: Form, token: string)
    requires ReadForm(f, token) && Unbroken(token) && SameForm(f, ParseBody(Print(f, token), token))
    ensures Faithful(f, token)
  {
    var g, lines := ParseBody(Print(f, token), token), AllHeaderLines(f);
    ReadAgainFrom(f, token);
    forall e, h | e in f.entries && h in e.headers ensures Separated(h) {
      SameHeaders(f, g, e);
      var l :| l in lines && !IsDelimiter(l, token) && h == ParseHeader(l);
      var e', h' :| e' in f.entries && h' in e'.headers && l == HeaderLine(h');
      HeaderIsRead(l);
    }
    forall e, h | e in f.entries && h in e.headers ensures !IsDelimiter(HeaderLine(h), token) {
      SameHeaders(f, g, e);
      var l :| l in lines && !IsDelimiter(l, token) && h == ParseHeader(l);
      var e', h' :| e' in f.entries && h' in e'.headers && l == HeaderLine(h');
      assert ReadHeader(h') && Separated(h');
    }
  }

  lemma FaithfulIsStable(f: Form, token: string)
    requires ReadForm(f, token) && Faithful(f, token)
    ensures Stable(f, token)
  {
    forall e | e in f.entries ensures StableEntry(e, token) {
      forall h | h in e.headers ensures StableHeader(h) && !IsDelimiter(HeaderLine(h), token) {
        assert ReadHeader(h) && Separated(h);
      }
    }
  }

  /** For any body one parse and print reaches a fixed point, with the same names, headers and part
      contents, exactly when no header has a second colon in its name or prints as a delimiter. */
  lemma OnePrintIsFixed(body: string, token: string)
    requires Unbroken(token)
    ensures var f := ParseBody(body, token);
            var printed := Print(f, token);
            var g := ParseBody(printed, token);
            Faithful(f, token) <==> Print(g, token) == printed && SameForm(f, g)
  {
    BodyLinesUnbroken(body);
    ParsedIsRead(START, Lines(body), token);
    var f := ParseBody(body, token);
    if Faithful(f, token) {
      FaithfulIsStable(f, token);
      ParsePrinted(f, token);
      PrintNormal(f, token);
    }
    if SameForm(f, ParseBody(Print(f, token), token)) {
      SameIsFaithful(f, token);
    }
  }

  /** Header lines of one line each are faithful as long as the boundary has no colon. */
  lemma OneLineIsFaithful(line: string, token: string)
    requires OneLine(line) && ':' !in token
    ensures Separated(ParseHeader(line)) && !IsDelimiter(HeaderLine(ParseHeader(line)), token)
  {
    HeaderIsRead(line);
    var h := ParseHeader(line);
    assert HeaderLine(h)[|h.rawName|] == ':';
    assert ':' in HeaderLine(h);
  }

  lemma FirstOfTwoColons()
    ensures ParseHeader("a:b: c") == Header("a", "a", "b: c")
  {
    var t := "a:b: c";
    assert t[2..] == "b: c" && TrimLeft("b: c") == "b: c";
    assert HeaderColon(t, 1) == Some(1);
    assert t[..1] == "a" && Lower("a") == "a";
  }

  lemma HeaderAt(line: string, k: nat)
    requires line != "" && !IsLineTerminator(line[0]) && HeaderColon(line, 1) == Some(k)
    ensures ParseHeader(line) == Header(Lower(line[..k]), line[..k], TrimLeft(line[k + 1..]))
  {
  }

  lemma SecondColonIsFound()
    ensures HeaderColon("a:b:\nc", 1) == Some(3)
  {
    var s := "a:b:\nc";
    assert s[2..] == "b:\nc" && s[4..] == "\nc" && "\nc"[1..] == "c";
    assert '\n' in "b:\nc" && TrimLeft("b:\nc") == "b:\nc" && TrimLeft("\nc") == "c";
    assert HeaderColon(s, 3) == Some(3);
    assert HeaderColon(s, 2) == Some(3);
  }

  lemma ColonBeforeLineFeed()
    ensures ParseHeader("a:b:\nc") == Header("a:b", "a:b", "c")
  {
    var s := "a:b:\nc";
    SecondColonIsFound();
    HeaderAt(s, 3);
    assert s[4..] == "\nc" && "\nc"[1..] == "c" && TrimLeft("\nc") == "c";
    assert s[..3] == "a:b" && Lower("a:b") == "a:b";
  }

  /** A header line with a lone line feed is read differently after it was printed. */
  lemma SecondColon()
    ensures ParseHeader("a:b:\nc") == Header("a:b", "a:b", "c")
    ensures HeaderLine(Header("a:b", "a:b", "c")) == "a:b: c" && ParseHeader("a:b: c") == Header("a", "a", "b: c")
  {
    ColonBeforeLineFeed();
    FirstOfTwoColons();
  }
}
