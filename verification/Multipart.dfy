/** Multipart form data (RFC 2046 section 5.1.1) as values: parsing lines in four states and printing.
    src/upload/form-data.ts, src/upload/form-data-entry.ts */
module Multipart {
  import opened Prelude
  import opened Text
  import opened BufferLines

  // ---------------------------------------------------------------- headers

  /** A header under its lower case name. */
  datatype Header = Header(name: string, rawName: string, value: string)

  const DISPOSITION := "content-disposition"
  const TYPE := "content-type"

  /** Map.prototype.set: an existing key keeps its place. */
  function SetHeader(headers: seq<Header>, h: Header): seq<Header> {
    if headers == [] then [h]
    else if headers[0].name == h.name then [h] + headers[1..]
    else [headers[0]] + SetHeader(headers[1..], h)
  }

  function GetHeader(headers: seq<Header>, name: string): Option<Header> {
    if headers == [] then None else if headers[0].name == name then Some(headers[0]) else GetHeader(headers[1..], name)
  }

  /** The first colon from k on that HEADER_RE can use: one line before it, and one line after it and
      the white space that follows. */
  function HeaderColon(line: string, k: nat): (r: Option<nat>)
    requires k <= |line|
    ensures r.Some? ==> k <= r.value < |line| && line[r.value] == ':'
    decreases |line| - k
  {
    if k == |line| || IsLineTerminator(line[k]) then None
    else if line[k] == ':' && OneLine(TrimLeft(line[k + 1..])) then Some(k)
    else HeaderColon(line, k + 1)
  }

  /** HEADER_RE; a line that does not match gives empty texts. */
  function ParseHeader(line: string): Header {
    if line == "" || IsLineTerminator(line[0]) then Header("", "", "") else
    match HeaderColon(line, 1)
    case Some(k) => Header(Lower(line[..k]), line[..k], TrimLeft(line[k + 1..]))
    case None => Header("", "", "")
  }

  /** A parameter right after a semicolon: its quoted text. */
  function MatchParam(s: string, prefix: string): Option<string> {
    var t := TrimLeft(s);
    var n := PrefixLength(t, prefix);
    if n == 0 then None else
    var q := Until(t[n..], "\"");
    if n + q == |t| then None else Some(t[n..n + q])
  }

  /** INPUT_NAME_RE and FILE_NAME_RE: the first match, or "". */
  function FindParam(s: string, prefix: string): string {
    if s == "" then ""
    else if s[0] == ';' && MatchParam(s[1..], prefix).Some? then MatchParam(s[1..], prefix).value
    else FindParam(s[1..], prefix)
  }

  function InputName(value: string): string {
    FindParam(value, "name=\"")
  }

  function FileName(value: string): string {
    FindParam(value, "filename=\"")
  }

  // ---------------------------------------------------------------- entries

  /** An entry; its body is a list of lines. */
  datatype Entry = Entry(headers: seq<Header>, body: seq<string>, name: string, fileName: string)

  const NEW_ENTRY := Entry([], [], "", "")

  function SetRawHeader(e: Entry, rawHeader: string): Entry {
    var h := ParseHeader(rawHeader);
    var e' := e.(headers := SetHeader(e.headers, h));
    if h.name == DISPOSITION then e'.(name := InputName(h.value), fileName := FileName(h.value)) else e'
  }

  function HeaderLine(h: Header): string {
    h.rawName + ": " + h.value
  }

  function PrintHeaders(headers: seq<Header>): string {
    if headers == [] then "" else HeaderLine(headers[0]) + CRLF + PrintHeaders(headers[1..])
  }

  /** FormDataEntry.toBuffer */
  function PrintEntry(e: Entry): string {
    PrintHeaders(e.headers) + CRLF + Join(e.body, CRLF)
  }

  // ---------------------------------------------------------------- the parser

  datatype State = InPreamble | InHeaders | InBody | InEpilogue

  datatype Parser = Parser(state: State, preamble: seq<string>, entries: seq<Entry>, current: Option<Entry>, epilogue: seq<string>)

  function Delimiter(token: string): string {
    "--" + token
  }

  function EndDelimiter(token: string): string {
    "--" + token + "--"
  }

  predicate IsDelimiter(line: string, token: string) {
    line == Delimiter(token) || line == EndDelimiter(token)
  }

  function PushCurrent(p: Parser): seq<Entry> {
    p.entries + if p.current.Some? then [p.current.value] else []
  }

  /** One line of parseBody. */
  function Step(p: Parser, line: string, token: string): Parser {
    if line == Delimiter(token) then p.(state := InHeaders, entries := PushCurrent(p), current := Some(NEW_ENTRY))
    else if line == EndDelimiter(token) then p.(state := InEpilogue, entries := PushCurrent(p))
    else match p.state
      case InPreamble => p.(preamble := p.preamble + [line])
      case InHeaders =>
        if line == "" then p.(state := InBody)
        else if p.current.Some? then p.(current := Some(SetRawHeader(p.current.value, line)))
        else p
      case InBody =>
        if p.current.Some? then p.(current := Some(p.current.value.(body := p.current.value.body + [line]))) else p
      case InEpilogue => p.(epilogue := p.epilogue + [line])
  }

  function ParseFrom(p: Parser, lines: seq<string>, token: string): Parser
    decreases |lines|
  {
    if lines == [] then p else ParseFrom(Step(p, lines[0], token), lines[1..], token)
  }

  const START := Parser(InPreamble, [], [], None, [])

  datatype Form = Form(preamble: seq<string>, entries: seq<Entry>, epilogue: seq<string>)

  function FormOf(p: Parser): Form {
    Form(p.preamble, p.entries, p.epilogue)
  }

  /** parseBody of an empty form. */
  function ParseBody(body: string, token: string): Form {
    FormOf(ParseFrom(START, Lines(body), token))
  }

  // ---------------------------------------------------------------- printing

  function PrintEntries(entries: seq<Entry>, token: string): string {
    if entries == [] then "" else Delimiter(token) + CRLF + PrintEntry(entries[0]) + CRLF + PrintEntries(entries[1..], token)
  }

  /** FormData.toBuffer, the first time. */
  function Print(f: Form, token: string): string {
    (if f.preamble != [] then Join(f.preamble, CRLF) + CRLF else "") + PrintEntries(f.entries, token)
    + EndDelimiter(token) + CRLF + Join(f.epilogue, CRLF)
  }

  function OrEmptyLine(lines: seq<string>): (r: seq<string>)
    ensures r != [] && Join(r, CRLF) == Join(lines, CRLF)
  {
    if lines == [] then [""] else lines
  }

  function HeaderLines(headers: seq<Header>): seq<string> {
    if headers == [] then [] else [HeaderLine(headers[0])] + HeaderLines(headers[1..])
  }

  function EntryLines(e: Entry, token: string): seq<string> {
    [Delimiter(token)] + HeaderLines(e.headers) + [""] + OrEmptyLine(e.body)
  }

  function EntriesLines(entries: seq<Entry>, token: string): seq<string> {
    if entries == [] then [] else EntryLines(entries[0], token) + EntriesLines(entries[1..], token)
  }

  /** The lines of a printed form. */
  function FormLines(f: Form, token: string): seq<string> {
    f.preamble + EntriesLines(f.entries, token) + [EndDelimiter(token)] + OrEmptyLine(f.epilogue)
  }

  /** Every line followed by a break. */
  function Terminated(lines: seq<string>): string {
    if lines == [] then "" else lines[0] + CRLF + Terminated(lines[1..])
  }

  lemma {:induction false} TerminatedConcat(a: seq<string>, b: seq<string>)
    ensures Terminated(a + b) == Terminated(a) + Terminated(b)
  {
    if a == [] {
      assert a + b == b;
    } else {
      TerminatedConcat(a[1..], b);
      assert (a + b)[1..] == a[1..] + b;
      assert a[0] + CRLF + (Terminated(a[1..]) + Terminated(b)) == (a[0] + CRLF + Terminated(a[1..])) + Terminated(b);
    }
  }

  lemma {:induction false} TerminatedJoin(lines: seq<string>)
    requires lines != []
    ensures Terminated(lines) == Join(lines, CRLF) + CRLF
  {
    if |lines| == 1 {
      assert Terminated(lines[1..]) == "";
    } else {
      TerminatedJoin(lines[1..]);
      assert lines[0] + CRLF + (Join(lines[1..], CRLF) + CRLF) == (lines[0] + CRLF + Join(lines[1..], CRLF)) + CRLF;
    }
  }

  lemma {:induction false} HeadersTerminated(headers: seq<Header>)
    ensures PrintHeaders(headers) == Terminated(HeaderLines(headers))
  {
    if headers != [] {
      HeadersTerminated(headers[1..]);
      assert HeaderLines(headers)[1..] == HeaderLines(headers[1..]);
    }
  }

  lemma OneTerminated(line: string)
    ensures Terminated([line]) == line + CRLF
  {
    assert [line][1..] == [] && Terminated([]) == "";
  }

  lemma EntryTerminated(e: Entry, token: string)
    ensures Terminated(EntryLines(e, token)) == Delimiter(token) + CRLF + PrintEntry(e) + CRLF
  {
    var d, h, b := [Delimiter(token)], HeaderLines(e.headers), OrEmptyLine(e.body);
    HeadersTerminated(e.headers);
    TerminatedConcat(d + h + [""], b);
    TerminatedConcat(d + h, [""]);
    TerminatedConcat(d, h);
    OneTerminated(Delimiter(token));
    OneTerminated("");
    TerminatedJoin(b);
    assert "" + CRLF == CRLF;
  }

  lemma {:induction false} EntriesTerminated(entries: seq<Entry>, token: string)
    ensures Terminated(EntriesLines(entries, token)) == PrintEntries(entries, token)
  {
    if entries != [] {
      EntriesTerminated(entries[1..], token);
      EntryTerminated(entries[0], token);
      TerminatedConcat(EntryLines(entries[0], token), EntriesLines(entries[1..], token));
    }
  }

  lemma HeadTerminated(f: Form, token: string)
    ensures Terminated(f.preamble + EntriesLines(f.entries, token))
         == (if f.preamble != [] then Join(f.preamble, CRLF) + CRLF else "") + PrintEntries(f.entries, token)
  {
    TerminatedConcat(f.preamble, EntriesLines(f.entries, token));
    EntriesTerminated(f.entries, token);
    if f.preamble != [] { TerminatedJoin(f.preamble); }
  }

  /** A printed form is its lines with breaks between them. */
  lemma PrintIsLines(f: Form, token: string)
    ensures Print(f, token) == Join(FormLines(f, token), CRLF)
  {
    var parts, end, last := f.preamble + EntriesLines(f.entries, token), [EndDelimiter(token)], OrEmptyLine(f.epilogue);
    JoinBoth(parts + end, last);
    TerminatedJoin(parts + end);
    TerminatedConcat(parts, end);
    OneTerminated(EndDelimiter(token));
    HeadTerminated(f, token);
    assert Terminated(parts) + (EndDelimiter(token) + CRLF) == Terminated(parts) + EndDelimiter(token) + CRLF;
  }
}
