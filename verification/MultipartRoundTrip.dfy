/** Parsing and printing multipart bodies undo each other. */
module MultipartRoundTrip {
  import opened Prelude
  import opened Text
  import opened BufferLines
  import opened Multipart

  // ---------------------------------------------------------------- stable forms

  /** A header whose printed line reads as the same header. */
  predicate StableHeader(h: Header) {
    OneLine(HeaderLine(h)) && ParseHeader(HeaderLine(h)) == h
  }

  predicate UniqueNames(headers: seq<Header>) {
    forall i, j :: 0 <= i < j < |headers| ==> headers[i].name != headers[j].name
  }

  ghost predicate PlainLines(lines: seq<string>, token: string) {
    forall l :: l in lines ==> Unbroken(l) && !IsDelimiter(l, token)
  }

  /** The names of an entry are those of its content disposition. */
  predicate Named(e: Entry) {
    var h := GetHeader(e.headers, DISPOSITION);
    if h.Some? then e.name == InputName(h.value.value) && e.fileName == FileName(h.value.value)
    else e.name == "" && e.fileName == ""
  }

  ghost predicate StableEntry(e: Entry, token: string) {
    && (forall h :: h in e.headers ==> StableHeader(h) && !IsDelimiter(HeaderLine(h), token))
    && UniqueNames(e.headers) && Named(e) && PlainLines(e.body, token)
  }

  ghost predicate Stable(f: Form, token: string) {
    && PlainLines(f.preamble, token) && PlainLines(f.epilogue, token)
    && forall e :: e in f.entries ==> StableEntry(e, token)
  }

  /** The same form with a line in every body and in the epilogue. */
  function Normal(e: Entry): Entry {
    e.(body := OrEmptyLine(e.body))
  }

  function Normals(entries: seq<Entry>): (r: seq<Entry>)
    ensures |r| == |entries|
  {
    seq(|entries|, i requires 0 <= i < |entries| => Normal(entries[i]))
  }

  function NormalForm(f: Form): Form {
    f.(entries := Normals(f.entries), epilogue := OrEmptyLine(f.epilogue))
  }

  // ---------------------------------------------------------------- runs of the parser

  lemma {:induction false} ParseConcat(p: Parser, a: seq<string>, b: seq<string>, token: string)
    ensures ParseFrom(p, a + b, token) == ParseFrom(ParseFrom(p, a, token), b, token)
    decreases |a|
  {
    if a == [] {
      assert a + b == b;
    } else {
      assert (a + b)[1..] == a[1..] + b;
      ParseConcat(Step(p, a[0], token), a[1..], b, token);
    }
  }

  lemma ParseOne(p: Parser, line: string, token: string)
    ensures ParseFrom(p, [line], token) == Step(p, line, token)
  {
    assert [line][1..] == [];
  }

  lemma PlainTail(lines: seq<string>, token: string)
    requires PlainLines(lines, token) && lines != []
    ensures PlainLines(lines[1..], token) && !IsDelimiter(lines[0], token)
  {
    assert lines[0] in lines;
  }

  lemma {:induction false} ParsePreamble(p: Parser, lines: seq<string>, token: string)
    requires p.state == InPreamble && PlainLines(lines, token)
    ensures ParseFrom(p, lines, token) == p.(preamble := p.preamble + lines)
    decreases |lines|
  {
    if lines == [] {
      assert p.preamble + lines == p.preamble;
    } else {
      PlainTail(lines, token);
      ParsePreamble(Step(p, lines[0], token), lines[1..], token);
      assert p.preamble + [lines[0]] + lines[1..] == p.preamble + lines;
    }
  }

  lemma {:induction false} ParseEpilogue(p: Parser, lines: seq<string>, token: string)
    requires p.state == InEpilogue && PlainLines(lines, token)
    ensures ParseFrom(p, lines, token) == p.(epilogue := p.epilogue + lines)
    decreases |lines|
  {
    if lines == [] {
      assert p.epilogue + lines == p.epilogue;
    } else {
      PlainTail(lines, token);
      ParseEpilogue(Step(p, lines[0], token), lines[1..], token);
      assert p.epilogue + [lines[0]] + lines[1..] == p.epilogue + lines;
    }
  }

  lemma {:induction false} ParseLines(p: Parser, lines: seq<string>, token: string)
    requires p.state == InBody && p.current.Some? && PlainLines(lines, token)
    ensures ParseFrom(p, lines, token) == p.(current := Some(p.current.value.(body := p.current.value.body + lines)))
    decreases |lines|
  {
    if lines == [] {
      assert p.current.value.body + lines == p.current.value.body;
    } else {
      PlainTail(lines, token);
      ParseLines(Step(p, lines[0], token), lines[1..], token);
      assert p.current.value.body + [lines[0]] + lines[1..] == p.current.value.body + lines;
    }
  }

  // ---------------------------------------------------------------- headers

  lemma {:induction false} SetNewHeader(headers: seq<Header>, h: Header)
    requires forall i :: 0 <= i < |headers| ==> headers[i].name != h.name
    ensures SetHeader(headers, h) == headers + [h]
  {
    if headers == [] {
      assert headers + [h] == [h];
    } else {
      SetNewHeader(headers[1..], h);
      assert headers + [h] == [headers[0]] + (headers[1..] + [h]);
    }
  }

  lemma {:induction false} GetLast(headers: seq<Header>, h: Header, name: string)
    ensures GetHeader(headers + [h], name)
         == if GetHeader(headers, name).Some? then GetHeader(headers, name) else if h.name == name then Some(h) else None
  {
    if headers == [] {
      assert headers + [h] == [h] && [h][1..] == [];
    } else {
      GetLast(headers[1..], h, name);
      assert (headers + [h])[1..] == headers[1..] + [h];
    }
  }

  lemma {:induction false} GetAbsent(headers: seq<Header>, name: string)
    requires forall i :: 0 <= i < |headers| ==> headers[i].name != name
    ensures GetHeader(headers, name) == None
  {
    if headers != [] { GetAbsent(headers[1..], name); }
  }

  lemma NewHeaderKeepsNamed(e: Entry, h: Header)
    requires StableHeader(h) && Named(e) && UniqueNames(e.headers + [h])
    ensures SetRawHeader(e, HeaderLine(h)).headers == e.headers + [h] && Named(SetRawHeader(e, HeaderLine(h)))
    ensures SetRawHeader(e, HeaderLine(h)).body == e.body
  {
    var hs := e.headers + [h];
    forall i | 0 <= i < |e.headers| ensures e.headers[i].name != h.name { assert hs[i].name != hs[|e.headers|].name; }
    SetNewHeader(e.headers, h);
    GetLast(e.headers, h, DISPOSITION);
    if h.name == DISPOSITION { GetAbsent(e.headers, DISPOSITION); }
  }

  lemma NamedByHeaders(a: Entry, b: Entry)
    requires Named(a) && Named(b) && a.headers == b.headers && a.body == b.body
    ensures a == b
  {
  }

  lemma HeaderLineIsNotEmpty(h: Header)
    ensures HeaderLine(h) != ""
  {
    assert HeaderLine(h)[|h.rawName|] == ':';
  }

  lemma {:induction false} ParseHeaders(p: Parser, headers: seq<Header>, token: string)
    requires p.state == InHeaders && p.current.Some? && Named(p.current.value)
    requires UniqueNames(p.current.value.headers + headers)
    requires forall h :: h in headers ==> StableHeader(h) && !IsDelimiter(HeaderLine(h), token)
    ensures var q := ParseFrom(p, HeaderLines(headers), token);
            && q.current.Some? && Named(q.current.value)
            && q.current.value.headers == p.current.value.headers + headers && q.current.value.body == p.current.value.body
            && q == p.(current := q.current)
    decreases |headers|
  {
    var e := p.current.value;
    if headers == [] {
      assert e.headers + headers == e.headers;
    } else {
      var h, rest := headers[0], headers[1..];
      assert h in headers;
      assert e.headers + headers == (e.headers + [h]) + rest;
      forall i, j | 0 <= i < j < |e.headers + [h]| ensures (e.headers + [h])[i].name != (e.headers + [h])[j].name {
        assert (e.headers + headers)[i].name != (e.headers + headers)[j].name;
      }
      HeaderLineIsNotEmpty(h);
      NewHeaderKeepsNamed(e, h);
      var q := Step(p, HeaderLine(h), token);
      assert HeaderLines(headers)[1..] == HeaderLines(rest);
      ParseHeaders(q, rest, token);
    }
  }

  // ---------------------------------------------------------------- entries

  lemma DelimitersDiffer(token: string)
    ensures Delimiter(token) != EndDelimiter(token) && !IsDelimiter("", token)
  {
    assert |EndDelimiter(token)| == |Delimiter(token)| + 2;
  }

  lemma PlainOrEmpty(lines: seq<string>, token: string)
    requires PlainLines(lines, token)
    ensures PlainLines(OrEmptyLine(lines), token)
  {
    DelimitersDiffer(token);
  }

  /** The lines of an entry push the one before it and make it the current one. */
  lemma ParseEntry(p: Parser, e: Entry, token: string)
    requires StableEntry(e, token)
    ensures ParseFrom(p, EntryLines(e, token), token)
         == p.(state := InBody, entries := PushCurrent(p), current := Some(Normal(e)))
  {
    var d, h, b := [Delimiter(token)], HeaderLines(e.headers), OrEmptyLine(e.body);
    DelimitersDiffer(token);
    var p1 := Step(p, Delimiter(token), token);
    ParseOne(p, Delimiter(token), token);
    assert p1.current.value.headers + e.headers == e.headers;
    ParseHeaders(p1, e.headers, token);
    var p2 := ParseFrom(p1, h, token);
    var p3 := Step(p2, "", token);
    ParseOne(p2, "", token);
    PlainOrEmpty(e.body, token);
    ParseLines(p3, b, token);
    ParseConcat(p, d + h + [""], b, token);
    ParseConcat(p, d + h, [""], token);
    ParseConcat(p, d, h, token);
    assert [] + b == b;
    NamedByHeaders(p3.current.value.(body := b), Normal(e));
  }

  lemma NormalsCons(e: Entry, rest: seq<Entry>)
    ensures Normals([e] + rest) == [Normal(e)] + Normals(rest)
  {
  }

  lemma {:induction false} ParseEntries(p: Parser, entries: seq<Entry>, token: string)
    requires forall e :: e in entries ==> StableEntry(e, token)
    ensures var q := ParseFrom(p, EntriesLines(entries, token), token);
            PushCurrent(q) == PushCurrent(p) + Normals(entries) && q.preamble == p.preamble && q.epilogue == p.epilogue
    decreases |entries|
  {
    if entries == [] {
      assert PushCurrent(p) + Normals(entries) == PushCurrent(p);
    } else {
      var e, rest := entries[0], entries[1..];
      assert e in entries && entries == [e] + rest;
      ParseEntry(p, e, token);
      var p1 := ParseFrom(p, EntryLines(e, token), token);
      ParseConcat(p, EntryLines(e, token), EntriesLines(rest, token), token);
      ParseEntries(p1, rest, token);
      NormalsAfter(PushCurrent(p), e, rest);
    }
  }

  lemma NormalsAfter(pushed: seq<Entry>, e: Entry, rest: seq<Entry>)
    ensures (pushed + [Normal(e)]) + Normals(rest) == pushed + Normals([e] + rest)
  {
    NormalsCons(e, rest);
  }

  // ---------------------------------------------------------------- forms

  lemma ParseFormLines(f: Form, token: string)
    requires Stable(f, token)
    ensures FormOf(ParseFrom(START, FormLines(f, token), token)) == NormalForm(f)
  {
    var a, b, c, d := f.preamble, EntriesLines(f.entries, token), [EndDelimiter(token)], OrEmptyLine(f.epilogue);
    DelimitersDiffer(token);
    ParseConcat(START, a + b + c, d, token);
    ParseConcat(START, a + b, c, token);
    ParseConcat(START, a, b, token);
    ParsePreamble(START, a, token);
    assert [] + a == a;
    var p1 := ParseFrom(START, a, token);
    ParseEntries(p1, f.entries, token);
    assert PushCurrent(p1) == [] && [] + Normals(f.entries) == Normals(f.entries);
    var p2 := ParseFrom(p1, b, token);
    ParseOne(p2, EndDelimiter(token), token);
    var p3 := Step(p2, EndDelimiter(token), token);
    PlainOrEmpty(f.epilogue, token);
    ParseEpilogue(p3, d, token);
    assert [] + d == d;
  }

  lemma OneLineUnbroken(s: string)
    requires OneLine(s)
    ensures Unbroken(s)
  {
    forall i ensures !BreakAt(s, i) {
      if 0 <= i < |s| { assert s[i] in s; }
    }
  }

  lemma {:induction false} HeaderLinesUnbroken(headers: seq<Header>)
    requires forall h :: h in headers ==> StableHeader(h)
    ensures forall l :: l in HeaderLines(headers) ==> Unbroken(l)
  {
    if headers != [] {
      assert headers[0] in headers;
      OneLineUnbroken(HeaderLine(headers[0]));
      HeaderLinesUnbroken(headers[1..]);
    }
  }

  lemma BreakInToken(token: string, i: int)
    ensures BreakAt(Delimiter(token), i) || BreakAt(EndDelimiter(token), i) ==> BreakAt(token, i - 2)
  {
  }

  lemma DelimitersUnbroken(token: string)
    requires Unbroken(token)
    ensures Unbroken(Delimiter(token)) && Unbroken(EndDelimiter(token))
  {
    forall i ensures !BreakAt(Delimiter(token), i) && !BreakAt(EndDelimiter(token), i) {
      BreakInToken(token, i);
    }
  }

  lemma {:induction false} EntriesUnbroken(entries: seq<Entry>, token: string)
    requires (forall e :: e in entries ==> StableEntry(e, token)) && Unbroken(Delimiter(token))
    ensures forall l :: l in EntriesLines(entries, token) ==> Unbroken(l)
  {
    if entries != [] {
      var e := entries[0];
      assert e in entries && StableEntry(e, token);
      HeaderLinesUnbroken(e.headers);
      EntriesUnbroken(entries[1..], token);
    }
  }

  lemma FormLinesUnbroken(f: Form, token: string)
    requires Stable(f, token) && Unbroken(token)
    ensures forall l :: l in FormLines(f, token) ==> Unbroken(l)
  {
    DelimitersUnbroken(token);
    EntriesUnbroken(f.entries, token);
  }

  /** Parsing a printed form gives the form, with a line in every body and in the epilogue. */
  lemma ParsePrinted(f: Form, token: string)
    requires Stable(f, token) && Unbroken(token)
    ensures ParseBody(Print(f, token), token) == NormalForm(f)
  {
    PrintIsLines(f, token);
    FormLinesUnbroken(f, token);
    SplitJoined(FormLines(f, token));
    ParseFormLines(f, token);
    assert Print(f, token) != "" by { assert EndDelimiter(token) != ""; }
  }

  lemma {:induction false} PrintNormals(entries: seq<Entry>, token: string)
    ensures PrintEntries(Normals(entries), token) == PrintEntries(entries, token)
  {
    if entries != [] {
      assert entries == [entries[0]] + entries[1..];
      NormalsCons(entries[0], entries[1..]);
      PrintNormals(entries[1..], token);
    }
  }

  lemma PrintNormal(f: Form, token: string)
    ensures Print(NormalForm(f), token) == Print(f, token)
  {
    PrintNormals(f.entries, token);
  }

  /** A body in normal form, the text of a form, is reproduced byte for byte. */
  lemma NormalBodyIsReproduced(f: Form, token: string)
    requires Stable(f, token) && Unbroken(token)
    ensures Print(ParseBody(Print(f, token), token), token) == Print(f, token)
  {
    ParsePrinted(f, token);
    PrintNormal(f, token);
  }
}
