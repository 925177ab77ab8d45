/** The objects that hold a form: entries that change in place, and the form with its lists of chunks.
    src/upload/form-data.ts, src/upload/form-data-entry.ts */
module FormData {
  import opened Prelude
  import opened BufferLines
  import opened Multipart
  import opened MultipartParts
  import opened UploadExpansion
  import Sharing = UploadSharing
  import opened Text

  /** An entry as the objects hold it: its body is a list of chunks. */
  function InChunks(e: Entry): Entry {
    e.(body := Chunks(e.body))
  }

  function AllInChunks(entries: seq<Entry>): (r: seq<Entry>)
    ensures |r| == |entries|
  {
    seq(|entries|, i requires 0 <= i < |entries| => InChunks(entries[i]))
  }

  lemma AllInChunksAppend(entries: seq<Entry>, e: Entry)
    ensures AllInChunks(entries + [e]) == AllInChunks(entries) + [InChunks(e)]
  {
  }

  class FormDataEntry {
    var headers: seq<Header>
    var body: seq<string>
    var name: string
    var fileName: string

    function Fields(): Entry
      reads this
    {
      Entry(headers, body, name, fileName)
    }

    constructor ()
      ensures Fields() == NEW_ENTRY
    {
      headers, body, name, fileName := [], [], "", "";
    }

    method SetRawHeaderLine(rawHeader: string)
      modifies this
      ensures Fields() == SetRawHeader(old(Fields()), rawHeader)
    {
      var h := ParseHeader(rawHeader);
      headers := SetHeader(headers, h);
      if h.name == DISPOSITION {
        name, fileName := InputName(h.value), FileName(h.value);
      }
    }

    method AppendBodyLine(line: string)
      modifies this
      ensures Fields() == old(Fields()).(body := AppendLine(old(body), line))
    {
      body := AppendLine(body, line);
    }

    /** A line of the headers or of the body. */
    method TakeLine(line: string, state: State, ghost p: Parser, ghost token: string)
      requires p.current.Some? && Fields() == InChunks(p.current.value) && state == p.state
      requires !IsDelimiter(line, token) && ((state == InHeaders && line != "") || state == InBody)
      modifies this
      ensures Step(p, line, token).current.Some? && Fields() == InChunks(Step(p, line, token).current.value)
    {
      if state == InHeaders {
        SetRawHeaderLine(line);
      } else {
        ChunksAppend(p.current.value.body, line);
        AppendBodyLine(line);
      }
    }

    method SetContentDisposition(inputName: string, file: string)
      modifies this
      ensures Fields() == Entry(PutHeader(old(headers), DISPOSITION, DispositionText(inputName, file), DISPOSITION), old(body), inputName, file)
    {
      name := inputName;
      fileName := file;
      headers := PutHeader(headers, DISPOSITION, DispositionText(name, fileName), DISPOSITION);
    }

    method AddFileInfo(info: FileInputInfo, idx: nat)
      requires idx < |info.files|
      modifies this
      ensures Fields() == AddFile(old(Fields()), info, idx)
    {
      var file := info.files[idx];
      SetContentDisposition(info.name, file.name);
      body := [file.data];
      headers := PutHeader(headers, TYPE, file.mimeType, TYPE);
    }

    method CloneWithRawHeaders() returns (entry: FormDataEntry)
      ensures fresh(entry) && entry.Fields() == Clone(Fields())
    {
      entry := new FormDataEntry();
      var i := 0;
      while i < |headers|
        invariant 0 <= i <= |headers| && fresh(entry)
        invariant entry.Fields() == NEW_ENTRY.(headers := entry.headers)
        invariant ClonedHeaders(headers[i..], entry.headers) == ClonedHeaders(headers, [])
      {
        assert headers[i..][1..] == headers[i + 1..];
        entry.headers := PutHeader(entry.headers, headers[i].name, "", headers[i].rawName);
        i := i + 1;
      }
      assert headers[i..] == [];
    }

    method ToBuffer() returns (r: string)
      ensures r == PrintHeaders(headers) + CRLF + Concat(body)
    {
      var chunks: seq<string> := [];
      var i := 0;
      assert headers[0..] == headers && Concat([]) + PrintHeaders(headers) == PrintHeaders(headers);
      while i < |headers|
        invariant 0 <= i <= |headers|
        invariant Concat(chunks) + PrintHeaders(headers[i..]) == PrintHeaders(headers)
      {
        HeaderPrinted(chunks, headers[i..]);
        assert headers[i..][1..] == headers[i + 1..];
        chunks := chunks + [HeaderLine(headers[i])];
        chunks := chunks + [CRLF];
        i := i + 1;
      }
      assert headers[i..] == [] && Concat(chunks) + "" == Concat(chunks);
      ConcatAppend(chunks, CRLF);
      chunks := chunks + [CRLF];
      ConcatBoth(chunks, body);
      return Concat(chunks + body);
    }
  }

  lemma HeaderPrinted(chunks: seq<string>, headers: seq<Header>)
    requires headers != []
    ensures Concat(chunks + [HeaderLine(headers[0])] + [CRLF]) + PrintHeaders(headers[1..]) == Concat(chunks) + PrintHeaders(headers)
  {
    ConcatAppend(chunks + [HeaderLine(headers[0])], CRLF);
    ConcatAppend(chunks, HeaderLine(headers[0]));
    assert (Concat(chunks) + HeaderLine(headers[0]) + CRLF) + PrintHeaders(headers[1..])
        == Concat(chunks) + (HeaderLine(headers[0]) + CRLF + PrintHeaders(headers[1..]));
  }

  lemma ValuesAppend(entries: seq<FormDataEntry>, e: FormDataEntry)
    ensures Values(entries + [e]) == Values(entries) + [e.Fields()]
  {
  }

  /** The values of the entries. */
  ghost function Values(entries: seq<FormDataEntry>): (r: seq<Entry>)
    reads entries
    ensures |r| == |entries|
  {
    seq(|entries|, i requires 0 <= i < |entries| reads entries => entries[i].Fields())
  }

  ghost function ValueOf(entry: FormDataEntry?): Option<Entry>
    reads if entry == null then {} else {entry}
  {
    if entry == null then None else Some(entry.Fields())
  }

  ghost predicate Distinct(entries: seq<FormDataEntry>) {
    forall i, j :: 0 <= i < j < |entries| ==> entries[i] != entries[j]
  }

  /** The slots number the objects of a list and have their values. */
  ghost predicate Shows(entries: seq<FormDataEntry>, slots: seq<Sharing.Slot>)
    reads entries
  {
    SameObjects(entries, slots) && Values(entries) == Sharing.Entries(slots)
  }

  ghost predicate SameObjects(entries: seq<FormDataEntry>, slots: seq<Sharing.Slot>) {
    |slots| == |entries| && forall i, j :: 0 <= i < |entries| && 0 <= j < |entries| ==> SameAt(entries, slots, i, j)
  }

  /** Two places hold one object exactly when their slots have one number. */
  ghost predicate SameAt(entries: seq<FormDataEntry>, slots: seq<Sharing.Slot>, i: nat, j: nat)
    requires i < |entries| == |slots| && j < |entries|
  {
    entries[i] == entries[j] <==> slots[i].id == slots[j].id
  }

  lemma ShownAt(entries: seq<FormDataEntry>, slots: seq<Sharing.Slot>, i: nat)
    requires Shows(entries, slots) && i < |entries|
    ensures slots[i].entry == entries[i].Fields()
  {
    assert Values(entries)[i] == Sharing.Entries(slots)[i];
  }

  lemma ShownAll(entries: seq<FormDataEntry>, slots: seq<Sharing.Slot>)
    requires |slots| == |entries| && forall i :: 0 <= i < |entries| ==> slots[i].entry == entries[i].Fields()
    ensures Values(entries) == Sharing.Entries(slots)
  {
  }

  lemma ShownValues(entries: seq<FormDataEntry>, slots: seq<Sharing.Slot>)
    requires Shows(entries, slots)
    ensures Sharing.Entries(slots) == Values(entries) && Sharing.Consistent(slots)
    ensures Distinct(entries) <==> Sharing.Unshared(slots)
  {
    forall a, b | a in slots && b in slots && a.id == b.id ensures a == b {
      var i :| 0 <= i < |slots| && slots[i] == a;
      var j :| 0 <= j < |slots| && slots[j] == b;
      assert SameAt(entries, slots, i, j);
      ShownAt(entries, slots, i);
      ShownAt(entries, slots, j);
    }
    forall i, j | 0 <= i < j < |entries| ensures entries[i] != entries[j] <==> slots[i].id != slots[j].id { assert SameAt(entries, slots, i, j); }
  }

  /** Every list is shown by slots. */
  lemma {:induction false} SlotsExist(entries: seq<FormDataEntry>) returns (slots: seq<Sharing.Slot>)
    ensures Shows(entries, slots)
  {
    if entries == [] {
      slots := [];
    } else {
      var n := |entries| - 1;
      var before := SlotsExist(entries[..n]);
      assert entries == entries[..n] + [entries[n]];
      if k :| 0 <= k < n && entries[k] == entries[n] {
        slots := before + [Sharing.Slot(before[k].id, entries[n].Fields())];
        forall i, j | 0 <= i <= n && 0 <= j <= n ensures SameAt(entries, slots, i, j) {
          assert SameAt(entries[..n], before, if i < n then i else k, if j < n then j else k);
        }
        forall i | 0 <= i <= n ensures slots[i].entry == entries[i].Fields() { if i < n { ShownAt(entries[..n], before, i); } }
        ShownAll(entries, slots);
      } else {
        slots := Sharing.Push(before, entries[n].Fields());
        ShownPush(entries[..n], before, entries[n]);
      }
    }
  }

  /** Once the object at a place changed, the slots of that object change. */
  lemma ShownPut(entries: seq<FormDataEntry>, slots: seq<Sharing.Slot>, place: nat)
    requires SameObjects(entries, slots) && place < |entries|
    requires forall i :: 0 <= i < |entries| && entries[i] != entries[place] ==> slots[i].entry == entries[i].Fields()
    ensures Shows(entries, Sharing.Put(slots, slots[place].id, entries[place].Fields()))
  {
    var put := Sharing.Put(slots, slots[place].id, entries[place].Fields());
    forall i | 0 <= i < |entries| ensures put[i].entry == entries[i].Fields() && put[i].id == slots[i].id { assert SameAt(entries, slots, i, place); }
    forall i, j | 0 <= i < |entries| && 0 <= j < |entries| ensures SameAt(entries, put, i, j) { assert SameAt(entries, slots, i, j); }
    ShownAll(entries, put);
  }

  lemma ShownPush(entries: seq<FormDataEntry>, slots: seq<Sharing.Slot>, e: FormDataEntry)
    requires Shows(entries, slots) && forall k :: 0 <= k < |entries| ==> entries[k] != e
    ensures Shows(entries + [e], Sharing.Push(slots, e.Fields()))
  {
    var all, pushed := entries + [e], Sharing.Push(slots, e.Fields());
    forall i | 0 <= i < |slots| ensures slots[i].id < Sharing.NewId(slots) { assert slots[i] in slots; }
    forall i, j | 0 <= i < |all| && 0 <= j < |all| ensures SameAt(all, pushed, i, j) {
      if i < |entries| && j < |entries| { assert SameAt(entries, slots, i, j); }
    }
    forall i | 0 <= i < |all| ensures pushed[i].entry == all[i].Fields() { if i < |entries| { ShownAt(entries, slots, i); } }
    ShownAll(all, pushed);
  }

  // ---------------------------------------------------------------- the chunks of a printed form

  function EntryChunks(e: Entry, token: string): seq<string> {
    [Delimiter(token), CRLF, PrintHeaders(e.headers) + CRLF + Concat(e.body), CRLF]
  }

  function EntriesChunks(entries: seq<Entry>, token: string): seq<string> {
    if entries == [] then [] else EntriesChunks(entries[..|entries| - 1], token) + EntryChunks(entries[|entries| - 1], token)
  }

  lemma EntriesChunksNext(entries: seq<Entry>, i: nat, token: string)
    requires i < |entries|
    ensures EntriesChunks(entries[..i + 1], token) == EntriesChunks(entries[..i], token) + EntryChunks(entries[i], token)
  {
    assert entries[..i + 1][..i] == entries[..i];
  }

  /** What toBuffer leaves in the list of the preamble, on which it builds. */
  function BuiltChunks(preamble: seq<string>, entries: seq<Entry>, token: string): seq<string> {
    preamble + (if preamble != [] then [CRLF] else []) + EntriesChunks(entries, token) + [EndDelimiter(token), CRLF]
  }

  // ---------------------------------------------------------------- reading a body

  /** What a form holds before a body is read. */
  datatype Content = Content(preamble: seq<string>, entries: seq<FormDataEntry>, epilogue: seq<string>)

  /** The list of chunks after lines were appended to it. */
  function AppendLines(chunks: seq<string>, lines: seq<string>): seq<string> {
    if lines == [] then chunks else AppendLine(AppendLines(chunks, lines[..|lines| - 1]), lines[|lines| - 1])
  }

  /** Two entries are one object exactly when their numbers are equal. */
  ghost predicate SameNumbers(own: seq<FormDataEntry>, numbers: seq<nat>) {
    |own| == |numbers| && forall i, j :: 0 <= i < |own| && 0 <= j < |own| ==> (own[i] == own[j] <==> numbers[i] == numbers[j])
  }

  /** The current entry is part number count - 1. */
  ghost predicate Numbered(own: seq<FormDataEntry>, current: FormDataEntry?, numbers: seq<nat>, count: nat) {
    && SameNumbers(own, numbers) && (current != null <==> count > 0)
    && forall i :: 0 <= i < |own| ==> numbers[i] < count && (own[i] == current <==> numbers[i] == count - 1)
  }

  /** The number that a line pushes. */
  function PushedAt(line: string, count: nat, token: string): seq<nat> {
    if count > 0 && IsDelimiter(line, token) then [count - 1] else []
  }

  function CountAfter(line: string, count: nat, token: string): nat {
    if line == Delimiter(token) then count + 1 else count
  }

  /** What the loop over the lines has come to: the parser, the numbers pushed and the parts started. */
  datatype Reading = Reading(parser: Parser, numbers: seq<nat>, count: nat)

  /** The lines from i on remain to be read, and then the goal is reached. */
  ghost predicate HasRead(r: Reading, lines: seq<string>, i: nat, token: string, goal: Reading) {
    && i <= |lines| && ParseFrom(r.parser, lines[i..], token) == goal.parser
    && r.numbers + Pushed(lines[i..], r.count, token) == goal.numbers
  }

  function AfterLine(r: Reading, line: string, token: string): Reading {
    Reading(Step(r.parser, line, token), r.numbers + PushedAt(line, r.count, token), CountAfter(line, r.count, token))
  }

  lemma ReadingStarts(lines: seq<string>, token: string, goal: Reading)
    requires goal.parser == ParseFrom(START, lines, token) && goal.numbers == Pushed(lines, 0, token)
    ensures HasRead(Reading(START, [], 0), lines, 0, token, goal)
  {
    assert lines[0..] == lines && [] + Pushed(lines, 0, token) == Pushed(lines, 0, token);
  }

  lemma ReadingNext(r: Reading, lines: seq<string>, i: nat, token: string, goal: Reading)
    requires i < |lines| && HasRead(r, lines, i, token, goal)
    ensures HasRead(AfterLine(r, lines[i], token), lines, i + 1, token, goal)
  {
    assert lines[i..][0] == lines[i] && lines[i..][1..] == lines[i + 1..];
    var last, rest := PushedAt(lines[i], r.count, token), Pushed(lines[i + 1..], CountAfter(lines[i], r.count, token), token);
    assert r.numbers + (last + rest) == r.numbers + last + rest;
  }

  lemma ReadingEnds(r: Reading, lines: seq<string>, token: string, goal: Reading)
    requires HasRead(r, lines, |lines|, token, goal)
    ensures r.parser == goal.parser && r.numbers == goal.numbers
  {
    assert lines[|lines|..] == [] && r.numbers + [] == r.numbers;
  }

  lemma NumberedNext(own: seq<FormDataEntry>, current: FormDataEntry?, numbers: seq<nat>, count: nat, line: string, token: string,
                     own': seq<FormDataEntry>, current': FormDataEntry?)
    requires Numbered(own, current, numbers, count)
    requires own' == own + if current != null && IsDelimiter(line, token) then [current] else []
    requires if line == Delimiter(token) then current' != null && current' !in own' else current' == current
    ensures Numbered(own', current', numbers + PushedAt(line, count, token), CountAfter(line, count, token))
  {
  }

  // ---------------------------------------------------------------- lists of entries

  /** Each pair of an entry and a slot is one of the list. */
  ghost predicate PairsFrom(kept: seq<FormDataEntry>, rest: seq<Sharing.Slot>, entries: seq<FormDataEntry>, slots: seq<Sharing.Slot>) {
    |kept| == |rest| && |entries| == |slots| && forall j :: 0 <= j < |kept| ==> PairAt(kept[j], rest[j], entries, slots)
  }

  ghost predicate PairAt(e: FormDataEntry, slot: Sharing.Slot, entries: seq<FormDataEntry>, slots: seq<Sharing.Slot>)
    requires |entries| == |slots|
  {
    exists i :: 0 <= i < |entries| && entries[i] == e && slots[i] == slot
  }

  lemma PairKept(kept: seq<FormDataEntry>, rest: seq<Sharing.Slot>, entries: seq<FormDataEntry>, slots: seq<Sharing.Slot>, i: nat)
    requires PairsFrom(kept, rest, entries, slots) && i < |entries|
    ensures PairsFrom(kept + [entries[i]], rest + [slots[i]], entries, slots)
  {
    assert PairAt(entries[i], slots[i], entries, slots);
  }

  lemma PairsShow(kept: seq<FormDataEntry>, rest: seq<Sharing.Slot>, entries: seq<FormDataEntry>, slots: seq<Sharing.Slot>)
    requires Shows(entries, slots) && PairsFrom(kept, rest, entries, slots)
    ensures Shows(kept, rest) && forall k :: 0 <= k < |kept| ==> kept[k] in entries
  {
    forall a | 0 <= a < |kept| ensures rest[a].entry == kept[a].Fields() {
      assert PairAt(kept[a], rest[a], entries, slots);
      var i :| 0 <= i < |entries| && entries[i] == kept[a] && slots[i] == rest[a];
      ShownAt(entries, slots, i);
    }
    ShownAll(kept, rest);
    forall a, b | 0 <= a < |kept| && 0 <= b < |kept| ensures SameAt(kept, rest, a, b) {
      assert PairAt(kept[a], rest[a], entries, slots) && PairAt(kept[b], rest[b], entries, slots);
      var i :| 0 <= i < |entries| && entries[i] == kept[a] && slots[i] == rest[a];
      var j :| 0 <= j < |entries| && entries[j] == kept[b] && slots[j] == rest[b];
      assert SameAt(entries, slots, i, j);
    }
    forall k | 0 <= k < |kept| ensures kept[k] in entries { assert PairAt(kept[k], rest[k], entries, slots); }
  }

  /** The kept entries of the first n, with their slots. */
  ghost predicate KeptUpTo(kept: seq<FormDataEntry>, rest: seq<Sharing.Slot>, entries: seq<FormDataEntry>, slots: seq<Sharing.Slot>, n: nat,
                           name: string)
  {
    PairsFrom(kept, rest, entries, slots) && n <= |slots| && rest + Sharing.Without(slots[n..], name) == Sharing.Without(slots, name)
  }

  lemma KeptNone(entries: seq<FormDataEntry>, slots: seq<Sharing.Slot>, name: string)
    requires |entries| == |slots|
    ensures KeptUpTo([], [], entries, slots, 0, name)
  {
    assert slots[0..] == slots && [] + Sharing.Without(slots, name) == Sharing.Without(slots, name);
  }

  lemma KeptNext(kept: seq<FormDataEntry>, rest: seq<Sharing.Slot>, entries: seq<FormDataEntry>, slots: seq<Sharing.Slot>, n: nat, name: string)
    requires n < |entries| && KeptUpTo(kept, rest, entries, slots, n, name)
    ensures if slots[n].entry.name != name then KeptUpTo(kept + [entries[n]], rest + [slots[n]], entries, slots, n + 1, name)
            else KeptUpTo(kept, rest, entries, slots, n + 1, name)
  {
    Sharing.WithoutNext(rest, slots, n, name);
    PairKept(kept, rest, entries, slots, n);
  }

  lemma KeptAll(kept: seq<FormDataEntry>, rest: seq<Sharing.Slot>, entries: seq<FormDataEntry>, slots: seq<Sharing.Slot>, name: string)
    requires Shows(entries, slots) && KeptUpTo(kept, rest, entries, slots, |entries|, name)
    ensures Shows(kept, Sharing.Without(slots, name)) && Values(kept) == WithoutName(Values(entries), name)
    ensures forall k :: 0 <= k < |kept| ==> kept[k] in entries
  {
    assert slots[|entries|..] == [] && rest + [] == rest;
    PairsShow(kept, rest, entries, slots);
    ShownValues(entries, slots);
    ShownValues(kept, rest);
    Sharing.EntriesWithout(slots, name);
  }

  /** Entries were only added at the end. */
  ghost predicate Grown(before: seq<FormDataEntry>, after: seq<FormDataEntry>) {
    |before| <= |after| && forall k :: 0 <= k < |before| ==> after[k] == before[k]
  }

  lemma PutLast(slots: seq<Sharing.Slot>, e: Entry, filled: Entry)
    ensures var pushed := Sharing.Push(slots, e); Sharing.Put(pushed, pushed[|slots|].id, filled) == Sharing.Push(slots, filled)
  {
    forall i | 0 <= i < |slots| ensures slots[i].id < Sharing.NewId(slots) { assert slots[i] in slots; }
  }

  /** The found entries are the ones at the places. */
  ghost predicate FoundAt(found: seq<FormDataEntry>, places: seq<nat>, entries: seq<FormDataEntry>) {
    |found| == |places| && forall k :: 0 <= k < |found| ==> places[k] < |entries| && found[k] == entries[places[k]]
  }

  lemma StillFound(found: seq<FormDataEntry>, places: seq<nat>, before: seq<FormDataEntry>, after: seq<FormDataEntry>)
    requires FoundAt(found, places, before) && Grown(before, after)
    ensures FoundAt(found, places, after)
  {
  }

  /** The list after expandUploads: the first hidden entry holds the file infos. */
  function Expanded(slots: seq<Sharing.Slot>, hidden: string, parse: string -> seq<FileInputInfo>): seq<Sharing.Slot> {
    var uploads := WithName(Sharing.Entries(slots), hidden);
    if uploads == [] then slots else Sharing.Expand(slots, hidden, parse(Concat(uploads[0].body)))
  }

  function ExpandedValues(entries: seq<Entry>, hidden: string, parse: string -> seq<FileInputInfo>): seq<Entry> {
    var uploads := WithName(entries, hidden);
    if uploads == [] then entries else Expand(entries, hidden, parse(Concat(uploads[0].body)))
  }

  class FormDataObject {
    const token: string
    var hasBoundary: bool
    var epilogue: seq<string>
    var entries: seq<FormDataEntry>
    var preamble: seq<string>

    constructor (token: string, hasBoundary: bool)
      ensures this.token == token && this.hasBoundary == hasBoundary
      ensures epilogue == [] && entries == [] && preamble == []
    {
      this.token, this.hasBoundary := token, hasBoundary;
      epilogue, entries, preamble := [], [], [];
    }

    /** The objects hold what the parser has, after what was there before; `own` are the parser's entries. */
    ghost predicate Tracks(p: Parser, current: FormDataEntry?, was: Content, own: seq<FormDataEntry>)
      reads this, entries, own, if current == null then {} else {current}
    {
      && preamble == AppendLines(was.preamble, p.preamble) && epilogue == AppendLines(was.epilogue, p.epilogue)
      && entries == was.entries + own && Values(own) == AllInChunks(p.entries)
      && (current == null <==> p.current.None?)
      && (current != null ==> current.Fields() == InChunks(p.current.value))
      && (current != null && p.state in {InHeaders, InBody} ==> current !in own)
    }

    /** parseBody: the lines of the preamble and of the epilogue are appended to what there is, and the
        parts that were pushed come after the entries that there are. Two of them are one object exactly
        when they have the same number among the parts. */
    method ParseBodyLines(body: string) returns (ghost own: seq<FormDataEntry>)
      requires hasBoundary
      modifies `entries, `preamble, `epilogue
      ensures entries == old(entries) + own && forall e :: e in own ==> fresh(e)
      ensures Values(own) == AllInChunks(ParseBody(body, token).entries)
      ensures preamble == AppendLines(old(preamble), ParseBody(body, token).preamble)
      ensures epilogue == AppendLines(old(epilogue), ParseBody(body, token).epilogue)
      ensures SameNumbers(own, Pushed(Lines(body), 0, token))
    {
      own := [];
      var state := InPreamble;
      var lines := CreateLineIterator(body);
      var currentEntry: FormDataEntry? := null;
      ghost var r, goal := Reading(START, [], 0), Reading(ParseFrom(START, lines, token), Pushed(lines, 0, token), 0);
      ghost var was := Content(preamble, entries, epilogue);
      ReadingStarts(lines, token, goal);
      var i := 0;
      assert entries + [] == entries;
      while i < |lines|
        invariant 0 <= i <= |lines|
        invariant Tracks(r.parser, currentEntry, was, own) && state == r.parser.state
        invariant currentEntry != null ==> fresh(currentEntry)
        invariant forall e :: e in own ==> fresh(e)
        invariant HasRead(r, lines, i, token, goal) && Numbered(own, currentEntry, r.numbers, r.count)
      {
        ghost var before, current := own, currentEntry;
        currentEntry, state, own := ParseLine(lines[i], currentEntry, state, r.parser, was, own);
        NumberedNext(before, current, r.numbers, r.count, lines[i], token, own, currentEntry);
        ReadingNext(r, lines, i, token, goal);
        r := AfterLine(r, lines[i], token);
        i := i + 1;
      }
      ReadingEnds(r, lines, token, goal);
    }

    /** A delimiter line pushes the current entry and starts another one or the epilogue. */
    method DelimiterLine(line: string, current: FormDataEntry?, state: State, ghost p: Parser, ghost was: Content, ghost own: seq<FormDataEntry>)
      returns (current': FormDataEntry?, state': State, ghost own': seq<FormDataEntry>)
      requires Tracks(p, current, was, own) && state == p.state && IsDelimiter(line, token)
      modifies `entries
      ensures Tracks(Step(p, line, token), current', was, own') && state' == Step(p, line, token).state
      ensures own' == own + if current != null then [current] else []
      ensures if line == Delimiter(token) then current' != null && fresh(current') && current' !in own' else current' == current
    {
      current', own' := current, own;
      if current != null {
        assert (was.entries + own) + [current] == was.entries + (own + [current]);
        entries := entries + [current];
        own' := own + [current];
        ValuesAppend(own, current);
        AllInChunksAppend(p.entries, p.current.value);
      } else {
        assert p.entries + [] == p.entries && own + [] == own;
      }
      if line == Delimiter(token) {
        state' := InHeaders;
        current' := new FormDataEntry();
      } else {
        state' := InEpilogue;
      }
    }

    /** Any other line goes where the state says. */
    method ContentLine(line: string, current: FormDataEntry?, state: State, ghost p: Parser, ghost was: Content, ghost own: seq<FormDataEntry>)
      returns (state': State)
      requires Tracks(p, current, was, own) && state == p.state && !IsDelimiter(line, token)
      requires current != null ==> current !in was.entries
      modifies `preamble, `epilogue, if current == null then {} else {current}
      ensures Tracks(Step(p, line, token), current, was, own) && state' == Step(p, line, token).state
    {
      state' := state;
      if state == InPreamble {
        preamble := AppendLine(preamble, line);
        AppendOneMore(was.preamble, p.preamble, line);
      } else if state == InEpilogue {
        epilogue := AppendLine(epilogue, line);
        AppendOneMore(was.epilogue, p.epilogue, line);
      } else if state == InHeaders && line == "" {
        state' := InBody;
      } else if current != null {
        current.TakeLine(line, state, p, token);
      }
    }

    /** One round of the loop over the lines. */
    method ParseLine(line: string, current: FormDataEntry?, state: State, ghost p: Parser, ghost was: Content, ghost own: seq<FormDataEntry>)
      returns (current': FormDataEntry?, state': State, ghost own': seq<FormDataEntry>)
      requires Tracks(p, current, was, own) && state == p.state && hasBoundary
      requires current != null ==> current !in was.entries
      modifies `entries, `preamble, `epilogue, if current == null then {} else {current}
      ensures Tracks(Step(p, line, token), current', was, own') && state' == Step(p, line, token).state
      ensures own' == own + if current != null && IsDelimiter(line, token) then [current] else []
      ensures if line == Delimiter(token) then current' != null && fresh(current') && current' !in own' else current' == current
    {
      if line == Delimiter(token) || line == EndDelimiter(token) {
        current', state', own' := DelimiterLine(line, current, state, p, was, own);
      } else {
        state' := ContentLine(line, current, state, p, was, own);
        current', own' := current, own;
        assert own + [] == own;
      }
    }

    /** _getEntriesByName */
    method GetEntriesByName(name: string) returns (found: seq<FormDataEntry>)
      ensures |found| == |Places(Values(entries), name)|
      ensures forall k :: 0 <= k < |found| ==>
                Places(Values(entries), name)[k] < |entries| && found[k] == entries[Places(Values(entries), name)[k]]
    {
      found := [];
      ghost var es := Values(entries);
      var i := 0;
      assert es[..0] == [];
      while i < |entries|
        invariant 0 <= i <= |entries|
        invariant |found| == |Places(es[..i], name)|
        invariant forall k :: 0 <= k < |found| ==> Places(es[..i], name)[k] < i && found[k] == entries[Places(es[..i], name)[k]]
      {
        PlacesAppend(es[..i], es[i], name);
        assert es[..i + 1] == es[..i] + [es[i]];
        if entries[i].name == name {
          found := found + [entries[i]];
        }
        i := i + 1;
      }
      assert es[..i] == es;
    }

    /** _removeEntry; in this and the following methods `slots` tell which places of the list hold the same
        object (SlotsExist). */
    method RemoveEntry(name: string, ghost slots: seq<Sharing.Slot>)
      requires Shows(entries, slots)
      modifies `entries
      ensures Shows(entries, Sharing.Without(slots, name))
      ensures Values(entries) == WithoutName(old(Values(entries)), name)
      ensures forall k :: 0 <= k < |entries| ==> entries[k] in old(entries)
    {
      var kept: seq<FormDataEntry> := [];
      ghost var rest: seq<Sharing.Slot> := [];
      KeptNone(entries, slots, name);
      var i := 0;
      while i < |entries|
        invariant 0 <= i <= |entries| && unchanged(`entries)
        invariant KeptUpTo(kept, rest, entries, slots, i, name)
      {
        KeptNext(kept, rest, entries, slots, i, name);
        ShownAt(entries, slots, i);
        if entries[i].name != name {
          kept := kept + [entries[i]];
          rest := rest + [slots[i]];
        }
        i := i + 1;
      }
      KeptAll(kept, rest, entries, slots, name);
      entries := kept;
    }

    /** A new entry at the end, with the headers of the previous one. */
    method PushEntry(previousEntry: FormDataEntry?, ghost slots: seq<Sharing.Slot>) returns (entry: FormDataEntry)
      requires Shows(entries, slots)
      modifies `entries
      ensures fresh(entry) && entries == old(entries) + [entry] && Shows(entries, Sharing.Push(slots, entry.Fields()))
      ensures entry.Fields() == if previousEntry != null then Clone(previousEntry.Fields()) else NEW_ENTRY
    {
      if previousEntry != null {
        entry := previousEntry.CloneWithRawHeaders();
      } else {
        entry := new FormDataEntry();
      }
      ShownPush(entries, slots, entry);
      entries := entries + [entry];
    }

    /** A file goes into the entry at a place, and so into every place of the same object. */
    method FillEntry(entry: FormDataEntry, ghost place: nat, info: FileInputInfo, idx: nat, ghost slots: seq<Sharing.Slot>)
      requires Shows(entries, slots) && place < |entries| && entries[place] == entry && idx < |info.files|
      modifies entry
      ensures entry.Fields() == AddFile(slots[place].entry, info, idx)
      ensures Shows(entries, Sharing.Put(slots, slots[place].id, entry.Fields()))
    {
      ShownAt(entries, slots, place);
      forall i | 0 <= i < |entries| ensures slots[i].entry == entries[i].Fields() { ShownAt(entries, slots, i); }
      entry.AddFileInfo(info, idx);
      ShownPut(entries, slots, place);
    }

    /** The entry of the next file: a found one, or a new one. */
    method InjectFile(found: seq<FormDataEntry>, info: FileInputInfo, idx: nat, previousEntry: FormDataEntry?, ghost places: seq<nat>,
                      ghost slots: seq<Sharing.Slot>, ghost previous: Option<Entry>)
      returns (entry: FormDataEntry, ghost now: seq<Sharing.Slot>)
      requires Shows(entries, slots) && idx < |info.files| && FoundAt(found, places, entries) && previous == ValueOf(previousEntry)
      modifies `entries, if idx < |found| then {found[idx]} else {}
      ensures FoundAt(found, places, entries)
      ensures |old(entries)| <= |entries|
      ensures forall k :: 0 <= k < |entries| ==> if k < |old(entries)| then entries[k] == old(entries)[k] else fresh(entries[k])
      ensures now == Sharing.InjectFile(slots, places, info, idx, previous) && Shows(entries, now)
      ensures entry.Fields() == Sharing.FileEntry(slots, places, info, idx, previous)
    {
      ghost var originals := entries;
      now := Sharing.InjectFile(slots, places, info, idx, previous);
      if idx < |found| {
        entry := found[idx];
        FillEntry(entry, places[idx], info, idx, slots);
      } else {
        entry := PushEntry(previousEntry, slots);
        ghost var pushed := Sharing.Push(slots, entry.Fields());
        FillEntry(entry, |entries| - 1, info, idx, pushed);
        PutLast(slots, pushed[|slots|].entry, entry.Fields());
        StillFound(found, places, originals, entries);
      }
    }

    /** One round of the loop of _injectFileInfo. */
    method InjectNext(found: seq<FormDataEntry>, info: FileInputInfo, idx: nat, previousEntry: FormDataEntry?, ghost places: seq<nat>,
                      ghost goal: seq<Sharing.Slot>, ghost now: seq<Sharing.Slot>)
      returns (entry: FormDataEntry, ghost next: seq<Sharing.Slot>)
      requires Shows(entries, now) && idx < |info.files| && FoundAt(found, places, entries)
      requires Sharing.Injecting(goal, info, idx, now, places, ValueOf(previousEntry))
      modifies `entries, if idx < |found| then {found[idx]} else {}
      ensures Shows(entries, next) && FoundAt(found, places, entries)
      ensures Sharing.Injecting(goal, info, idx + 1, next, places, ValueOf(entry))
      ensures |old(entries)| <= |entries|
      ensures forall k :: 0 <= k < |entries| ==> if k < |old(entries)| then entries[k] == old(entries)[k] else fresh(entries[k])
    {
      ghost var previous := ValueOf(previousEntry);
      Sharing.InjectingNext(goal, info, idx, now, places, previous);
      entry, next := InjectFile(found, info, idx, previousEntry, places, now, previous);
    }

    /** The loop of _injectFileInfo. */
    method InjectFilesInto(found: seq<FormDataEntry>, info: FileInputInfo, ghost places: seq<nat>, ghost slots: seq<Sharing.Slot>,
                           ghost goal: seq<Sharing.Slot>)
      requires Shows(entries, slots) && FoundAt(found, places, entries) && Sharing.Injecting(goal, info, 0, slots, places, None)
      modifies `entries, found
      ensures Shows(entries, goal)
      ensures |old(entries)| <= |entries|
      ensures forall k :: 0 <= k < |entries| ==> if k < |old(entries)| then entries[k] == old(entries)[k] else fresh(entries[k])
    {
      ghost var now := slots;
      var previousEntry: FormDataEntry? := null;
      var idx := 0;
      while idx < |info.files|
        invariant 0 <= idx <= |info.files| && Shows(entries, now) && FoundAt(found, places, entries)
        invariant |old(entries)| <= |entries|
        invariant forall k :: 0 <= k < |entries| ==> if k < |old(entries)| then entries[k] == old(entries)[k] else fresh(entries[k])
        invariant Sharing.Injecting(goal, info, idx, now, places, ValueOf(previousEntry))
      {
        previousEntry, now := InjectNext(found, info, idx, previousEntry, places, goal, now);
        idx := idx + 1;
      }
      Sharing.InjectingEnds(goal, info, now, places, ValueOf(previousEntry));
    }

    /** _injectFileInfo */
    method InjectFileInfo(info: FileInputInfo, ghost slots: seq<Sharing.Slot>)
      requires Shows(entries, slots)
      modifies `entries, entries
      ensures Shows(entries, Sharing.Inject(slots, info))
      ensures |old(entries)| <= |entries|
      ensures forall k :: 0 <= k < |entries| ==> if k < |old(entries)| then entries[k] == old(entries)[k] else fresh(entries[k])
    {
      var found := GetEntriesByName(info.name);
      ShownValues(entries, slots);
      Sharing.InjectingStarts(slots, info);
      InjectFilesInto(found, info, Places(Values(entries), info.name), slots, Sharing.Inject(slots, info));
    }

    /** The hidden entry goes, and the files of every input go in. */
    method InjectFiles(hidden: string, files: seq<FileInputInfo>, ghost slots: seq<Sharing.Slot>)
      requires Shows(entries, slots)
      modifies `entries, entries
      ensures Shows(entries, Sharing.InjectAll(Sharing.Without(slots, hidden), files))
    {
      RemoveEntry(hidden, slots);
      ghost var now := Sharing.Without(slots, hidden);
      ghost var expanded := Sharing.InjectAll(now, files);
      var i := 0;
      assert files[0..] == files;
      while i < |files|
        invariant 0 <= i <= |files| && Shows(entries, now)
        invariant forall k :: 0 <= k < |entries| ==> entries[k] in old(entries) || fresh(entries[k])
        invariant Sharing.InjectAll(now, files[i..]) == expanded
      {
        Sharing.InjectAllNext(now, files, i);
        InjectFileInfo(files[i], now);
        now := Sharing.Inject(now, files[i]);
        i := i + 1;
      }
      assert files[i..] == [];
    }

    /** expandUploads; `parse` decodes the text of the hidden entry. */
    method ExpandUploads(hidden: string, parse: string -> seq<FileInputInfo>, ghost slots: seq<Sharing.Slot>)
      requires Shows(entries, slots)
      modifies `entries, entries
      ensures Shows(entries, Expanded(slots, hidden, parse))
      ensures old(Distinct(entries)) ==> Values(entries) == ExpandedValues(old(Values(entries)), hidden, parse)
    {
      ShownValues(entries, slots);
      PlacesCount(Values(entries), hidden);
      var found := GetEntriesByName(hidden);
      if |found| == 0 {
        return;
      }
      var files := parse(Concat(found[0].body));
      InjectFiles(hidden, files, slots);
      ShownValues(entries, Sharing.Expand(slots, hidden, files));
      if old(Distinct(entries)) { Sharing.UnsharedExpansion(slots, hidden, files); }
    }

    /** toBuffer; the list of the preamble is the one it builds in. */
    method ToBuffer() returns (r: Option<string>)
      modifies `preamble
      ensures !hasBoundary ==> r == None && preamble == old(preamble)
      ensures hasBoundary ==> preamble == BuiltChunks(old(preamble), Values(entries), token)
      ensures hasBoundary ==> r == Some(Concat(preamble) + Concat(epilogue))
    {
      if !hasBoundary {
        return None;
      }
      if preamble != [] {
        preamble := preamble + [CRLF];
      }
      ghost var head, es := preamble, Values(entries);
      var i := 0;
      assert es[..0] == [] && head + [] == head;
      while i < |entries|
        invariant 0 <= i <= |entries| && Values(entries) == es
        invariant preamble == head + EntriesChunks(es[..i], token)
      {
        var text := entries[i].ToBuffer();
        assert text == PrintHeaders(es[i].headers) + CRLF + Concat(es[i].body);
        EntriesChunksNext(es, i, token);
        AssocTexts(head, EntriesChunks(es[..i], token), EntryChunks(es[i], token));
        preamble := preamble + [Delimiter(token), CRLF, text, CRLF];
        i := i + 1;
      }
      assert es[..i] == es;
      preamble := preamble + [EndDelimiter(token), CRLF];
      ConcatBoth(preamble, epilogue);
      return Some(Concat(preamble + epilogue));
    }
  }

  lemma AppendOneMore(chunks: seq<string>, lines: seq<string>, line: string)
    ensures AppendLines(chunks, lines + [line]) == AppendLine(AppendLines(chunks, lines), line)
  {
    assert (lines + [line])[..|lines|] == lines;
  }

  lemma ChunksAppend(lines: seq<string>, line: string)
    ensures Chunks(lines + [line]) == AppendLine(Chunks(lines), line)
  {
    assert (lines + [line])[..|lines|] == lines;
  }

  // ---------------------------------------------------------------- what is printed

  lemma ConcatFour(chunks: seq<string>, a: string, b: string, c: string, d: string)
    ensures Concat(chunks + [a, b, c, d]) == Concat(chunks) + (a + b + c + d)
  {
    ConcatAppend(chunks + [a, b, c], d);
    ConcatAppend(chunks + [a, b], c);
    ConcatAppend(chunks + [a], b);
    ConcatAppend(chunks, a);
    assert chunks + [a, b, c, d] == (chunks + [a, b, c]) + [d] && chunks + [a, b, c] == (chunks + [a, b]) + [c]
        && chunks + [a, b] == (chunks + [a]) + [b];
  }

  lemma {:induction false} EntriesAppend(entries: seq<Entry>, e: Entry, token: string)
    ensures PrintEntries(entries + [e], token) == PrintEntries(entries, token) + (Delimiter(token) + CRLF + PrintEntry(e) + CRLF)
  {
    if entries == [] {
      assert [e][1..] == [] && [] + [e] == [e];
      assert PrintEntries([e], token) == Delimiter(token) + CRLF + PrintEntry(e) + CRLF + PrintEntries([], token);
    } else {
      var rest := entries[1..];
      var text, last := Delimiter(token) + CRLF + PrintEntry(entries[0]) + CRLF, Delimiter(token) + CRLF + PrintEntry(e) + CRLF;
      EntriesAppend(rest, e, token);
      assert (entries + [e])[1..] == rest + [e];
      Assoc(text, PrintEntries(rest, token), last);
    }
  }

  lemma {:induction false} ChunksPrintEntries(entries: seq<Entry>, token: string)
    ensures Concat(EntriesChunks(AllInChunks(entries), token)) == PrintEntries(entries, token)
  {
    if entries == [] {
      assert AllInChunks(entries) == [];
    } else {
      var init, e := entries[..|entries| - 1], entries[|entries| - 1];
      ChunksPrintEntries(init, token);
      assert entries == init + [e];
      AllInChunksAppend(init, e);
      assert (AllInChunks(init) + [InChunks(e)])[..|init|] == AllInChunks(init);
      ConcatChunks(e.body);
      ConcatFour(EntriesChunks(AllInChunks(init), token), Delimiter(token), CRLF, PrintEntry(e), CRLF);
      EntriesAppend(init, e, token);
    }
  }

  lemma ConcatEnd(chunks: seq<string>, token: string)
    ensures Concat(chunks + [EndDelimiter(token), CRLF]) == Concat(chunks) + (EndDelimiter(token) + CRLF)
  {
    ConcatAppend(chunks + [EndDelimiter(token)], CRLF);
    ConcatAppend(chunks, EndDelimiter(token));
    assert chunks + [EndDelimiter(token), CRLF] == (chunks + [EndDelimiter(token)]) + [CRLF];
  }

  lemma HeadText(lines: seq<string>)
    ensures Concat(Chunks(lines) + if Chunks(lines) != [] then [CRLF] else []) == if lines != [] then Join(lines, CRLF) + CRLF else ""
  {
    ConcatChunks(lines);
    if lines != [] { ConcatAppend(Chunks(lines), CRLF); } else { assert Chunks(lines) + [] == []; }
  }

  /** The first call of toBuffer prints the form that was parsed. */
  lemma FirstPrint(f: Form, token: string)
    ensures Concat(BuiltChunks(Chunks(f.preamble), AllInChunks(f.entries), token)) + Concat(Chunks(f.epilogue)) == Print(f, token)
  {
    var pre, es := Chunks(f.preamble), EntriesChunks(AllInChunks(f.entries), token);
    var head := pre + if pre != [] then [CRLF] else [];
    HeadText(f.preamble);
    ConcatChunks(f.epilogue);
    ConcatEnd(head + es, token);
    ConcatBoth(head, es);
    ChunksPrintEntries(f.entries, token);
    Assoc(Concat(head) + PrintEntries(f.entries, token), EndDelimiter(token), CRLF);
  }

  /** A second call prints all that the first one built once more in front. */
  lemma SecondPrintRepeats(preamble: seq<string>, entries: seq<Entry>, token: string)
    ensures var first := BuiltChunks(preamble, entries, token);
            Concat(BuiltChunks(first, entries, token)) == Concat(first) + CRLF + Concat(BuiltChunks([], entries, token))
  {
    var first, es := BuiltChunks(preamble, entries, token), EntriesChunks(entries, token);
    ConcatEnd(first + [CRLF] + es, token);
    ConcatBoth(first + [CRLF], es);
    ConcatAppend(first, CRLF);
    assert [] + [] + es == es;
    ConcatEnd(es, token);
    assert BuiltChunks([], entries, token) == es + [EndDelimiter(token), CRLF];
    assert (Concat(first) + CRLF) + Concat(es) + (EndDelimiter(token) + CRLF) == Concat(first) + CRLF + (Concat(es) + (EndDelimiter(token) + CRLF));
  }
}
