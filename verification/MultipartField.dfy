/** A form with one file, written out: how its name, file name, type and content are read and printed.
    src/upload/form-data.ts, src/upload/form-data-entry.ts */
module MultipartField {
  import opened Prelude
  import opened Text
  import opened BufferLines
  import opened Multipart
  import opened MultipartRoundTrip
  import opened MultipartFixedPoint

  // ---------------------------------------------------------------- the names in a content disposition

  /** The name ends in what looks like the beginning of a file name. */
  predicate HidesFile(name: string) {
    name != "" && ((name[0] == ';' && Lower(TrimLeft(name[1..])) == "filename=") || HidesFile(name[1..]))
  }

  lemma {:induction false} TrimBefore(a: string, rest: string)
    ensures TrimLeft(a + "\"" + rest) == TrimLeft(a) + "\"" + rest
    ensures forall c :: c in TrimLeft(a) ==> c in a
  {
    if a == "" {
      assert "" + "\"" + rest == "\"" + rest;
    } else if IsSpace(a[0]) {
      assert (a + "\"" + rest)[1..] == a[1..] + "\"" + rest;
      TrimBefore(a[1..], rest);
    }
  }

  lemma LowerAt(u: string, n: nat, i: nat)
    requires i < n <= |u|
    ensures |Lower(u[..n])| == n && Lower(u[..n])[i] == LowerChar(u[i])
  {
  }

  /** A text without quotes before a quote: a prefix that ends in a quote ends there. */
  lemma QuotePlace(w: string, rest: string, word: string)
    requires '"' !in w && '"' !in word && PrefixLength(w + "\"" + rest, word + "\"") > 0
    ensures |w| == |word| && Lower(w) == word
  {
    var u, n := w + "\"" + rest, |word| + 1;
    forall i | 0 <= i < n ensures LowerChar(u[i]) == (word + "\"")[i] { LowerAt(u, n, i); }
    assert LowerChar('"') == '"' && forall i :: 0 <= i < |word| ==> word[i] in word;
    assert forall i :: 0 <= i < |word| ==> u[i] != '"';
    assert forall i :: 0 <= i < |w| ==> u[i] == w[i] && w[i] in w;
    assert u[|word|] == '"' && u[|w|] == '"';
    forall i | 0 <= i < |w| ensures Lower(w)[i] == word[i] { assert w[i] == u[i]; }
  }

  lemma PrefixToQuote(w: string, rest: string, word: string)
    requires '"' !in w && '"' !in word && Lower(word) == word
    ensures PrefixLength(w + "\"" + rest, word + "\"") == if Lower(w) == word then |word| + 1 else 0
  {
    if Lower(w) == word {
      assert (w + "\"" + rest)[..|word| + 1] == w + "\"";
      assert Lower(w + "\"") == Lower(w) + "\"";
    } else if PrefixLength(w + "\"" + rest, word + "\"") > 0 {
      QuotePlace(w, rest, word);
    }
  }

  lemma MatchIs(s: string, t: string, prefix: string, n: nat, value: string)
    requires t == TrimLeft(s) && n == PrefixLength(t, prefix) && n <= |t|
    requires n > 0 ==> n + Until(t[n..], "\"") < |t| && value == t[n..][..Until(t[n..], "\"")]
    ensures MatchParam(s, prefix) == if n == 0 then None else Some(value)
  {
    if n > 0 { assert t[n..n + Until(t[n..], "\"")] == t[n..][..Until(t[n..], "\"")]; }
  }

  lemma MatchInName(a: string, rest: string)
    requires '"' !in a && '"' in rest
    ensures MatchParam(a + "\"" + rest, "filename=\"") == if Lower(TrimLeft(a)) == "filename=" then Some(rest[..Until(rest, "\"")]) else None
  {
    var w := TrimLeft(a);
    var t := w + "\"" + rest;
    TrimBefore(a, rest);
    FileNameWord();
    PrefixToQuote(w, rest, "filename=");
    QuoteUntil(rest);
    if Lower(w) == "filename=" { BehindQuote(w, rest); }
    MatchIs(a + "\"" + rest, t, "filename=\"", if Lower(w) == "filename=" then 10 else 0, rest[..Until(rest, "\"")]);
  }

  lemma FileNameWord()
    ensures "filename=" + "\"" == "filename=\"" && Lower("filename=") == "filename=" && '"' !in "filename="
  {
  }

  lemma QuoteUntil(rest: string)
    requires '"' in rest
    ensures Until(rest, "\"") < |rest|
  {
    UntilMeans(rest, "\"");
  }

  lemma BehindQuote(w: string, rest: string)
    requires Lower(w) == "filename="
    ensures |w| == 9 && |w + "\"" + rest| == 10 + |rest| && (w + "\"" + rest)[10..] == rest
  {
    assert |Lower(w)| == |w|;
  }

  lemma {:induction false} FindInName(name: string, rest: string)
    requires '"' !in name && '"' in rest
    ensures FindParam(name + "\"" + rest, "filename=\"")
         == if HidesFile(name) then rest[..Until(rest, "\"")] else FindParam("\"" + rest, "filename=\"")
  {
    if name == "" {
      assert "" + "\"" + rest == "\"" + rest;
    } else {
      assert (name + "\"" + rest)[1..] == name[1..] + "\"" + rest;
      FindInName(name[1..], rest);
      MatchInName(name[1..], rest);
    }
  }

  lemma FindSkips(c: char, rest: string, prefix: string)
    requires c != ';'
    ensures FindParam([c] + rest, prefix) == FindParam(rest, prefix)
  {
    assert ([c] + rest)[1..] == rest;
  }

  lemma {:induction false} FindSkipsAll(before: string, rest: string, prefix: string)
    requires ';' !in before
    ensures FindParam(before + rest, prefix) == FindParam(rest, prefix)
  {
    if before == "" {
      assert before + rest == rest;
    } else {
      FindSkipsAll(before[1..], rest, prefix);
      assert before + rest == [before[0]] + (before[1..] + rest);
      FindSkips(before[0], before[1..] + rest, prefix);
    }
  }

  /** A parameter right behind a semicolon and a space. */
  lemma ParamHere(word: string, value: string, rest: string)
    requires '"' !in value && '"' !in word && Lower(word) == word && word != "" && !IsSpace(word[0])
    ensures FindParam("; " + (word + "\"" + (value + "\"" + rest)), word + "\"") == value
  {
    var after := word + "\"" + (value + "\"" + rest);
    var s := "; " + after;
    assert s[1..] == " " + after && (" " + after)[1..] == after && IsSpace(' ');
    assert TrimLeft(after) == after && TrimLeft(" " + after) == after;
    PrefixToQuote(word, value + "\"" + rest, word);
    assert after[|word| + 1..] == value + "\"" + rest;
    UntilIs(value + "\"" + rest, "\"", |value|);
    assert after[|word| + 1..|word| + 1 + |value|] == value;
  }

  function Disposition(name: string, fileName: string): string {
    "form-data; name=\"" + name + "\"; filename=\"" + fileName + "\""
  }

  lemma DispositionParts(name: string, fileName: string)
    ensures Disposition(name, fileName) == "form-data" + ("; " + ("name=" + "\"" + (name + "\"" + ("; filename=\"" + fileName + "\""))))
  {
  }

  lemma InputNameIsRead(name: string, fileName: string)
    requires '"' !in name
    ensures InputName(Disposition(name, fileName)) == name
  {
    DispositionParts(name, fileName);
    FindSkipsAll("form-data", "; " + ("name=" + "\"" + (name + "\"" + ("; filename=\"" + fileName + "\""))), "name=\"");
    assert "name=" + "\"" == "name=\"" && Lower("name=") == "name=";
    ParamHere("name=", name, "; filename=\"" + fileName + "\"");
  }

  lemma NotFileName(rest: string)
    ensures MatchParam(" " + ("name=" + "\"" + rest), "filename=\"") == None
  {
    var after := "name=" + "\"" + rest;
    assert (" " + after)[1..] == after && IsSpace(' ') && TrimLeft(after) == after;
    if |after| >= 10 { LowerAt(after, 10, 0); }
  }

  lemma FileNameBehind(fileName: string)
    requires '"' !in fileName
    ensures FindParam("\"" + ("; filename=\"" + fileName + "\""), "filename=\"") == fileName
  {
    var rest := "; filename=\"" + fileName + "\"";
    FileNameWord();
    FindSkips('"', rest, "filename=\"");
    assert "\"" + rest == ['"'] + rest;
    assert rest == "; " + ("filename=" + "\"" + (fileName + "\"" + ""));
    ParamHere("filename=", fileName, "");
  }

  lemma HiddenText(fileName: string)
    ensures var rest := "; filename=\"" + fileName + "\""; '"' in rest && rest[..Until(rest, "\"")] == "; filename="
  {
    var rest := "; filename=\"" + fileName + "\"";
    assert rest[11] == '"' && rest[..11] == "; filename=";
    forall i | 0 <= i < 11 ensures rest[i] !in "\"" { assert rest[i] == "; filename="[i]; }
    UntilIs(rest, "\"", 11);
  }

  /** The first semicolon does not introduce the file name. */
  lemma SkipName(tail: string)
    ensures FindParam("form-data" + ("; " + ("name=" + "\"" + tail)), "filename=\"") == FindParam(tail, "filename=\"")
  {
    var p, quoted := "filename=\"", "name=" + "\"" + tail;
    FindSkipsAll("form-data", "; " + quoted, p);
    NotFileName(tail);
    assert ("; " + quoted)[1..] == " " + quoted;
    FindSkipsAll(" ", quoted, p);
    assert quoted == "name=\"" + tail;
    FindSkipsAll("name=\"", tail, p);
  }

  /** The file name is read, unless the name hides it: then it is what stands between the quotes that follow. */
  lemma FileNameIsRead(name: string, fileName: string)
    requires '"' !in name && '"' !in fileName
    ensures FileName(Disposition(name, fileName)) == if HidesFile(name) then "; filename=" else fileName
  {
    var rest := "; filename=\"" + fileName + "\"";
    DispositionParts(name, fileName);
    SkipName(name + "\"" + rest);
    HiddenText(fileName);
    FindInName(name, rest);
    FileNameBehind(fileName);
  }

  // ---------------------------------------------------------------- a form with one file

  function FileHeaders(name: string, fileName: string, mimeType: string): seq<Header> {
    [Header("content-disposition", "Content-Disposition", Disposition(name, fileName)), Header("content-type", "Content-Type", mimeType)]
  }

  /** The form as it is read; `read` is the file name found. */
  function FileForm(name: string, fileName: string, read: string, mimeType: string, lines: seq<string>): Form {
    Form([], [Entry(FileHeaders(name, fileName, mimeType), lines, name, read)], [""])
  }

  /** A header whose name begins with C and has no colon is read as it is printed. */
  lemma HeaderIsStable(rawName: string, name: string, value: string, token: string)
    requires rawName != "" && rawName[0] == 'C' && ':' !in rawName && name == Lower(rawName)
    requires OneLine(rawName) && OneLine(value) && TrimLeft(value) == value
    ensures var h := Header(name, rawName, value);
            StableHeader(h) && !IsDelimiter(HeaderLine(h), token)
  {
    PrintedIsRead(rawName, value);
    assert HeaderLine(Header(name, rawName, value))[0] == 'C';
    forall c | c in rawName[1..] ensures c != ':' { }
  }

  lemma DispositionLine(name: string, fileName: string)
    requires OneLine(name) && OneLine(fileName)
    ensures OneLine(Disposition(name, fileName)) && TrimLeft(Disposition(name, fileName)) == Disposition(name, fileName)
  {
    var s := Disposition(name, fileName);
    assert s[0] == 'f' && !IsSpace('f');
    forall c | c in s ensures !IsLineTerminator(c) {
      assert c in "form-data; name=\"" || c in name || c in "\"; filename=\"" || c in fileName || c in "\"";
    }
  }

  lemma HeadersAreStable(name: string, fileName: string, mimeType: string, token: string)
    requires OneLine(name) && OneLine(fileName) && OneLine(mimeType) && TrimLeft(mimeType) == mimeType
    ensures forall h :: h in FileHeaders(name, fileName, mimeType) ==> StableHeader(h) && !IsDelimiter(HeaderLine(h), token)
  {
    RawNames();
    DispositionLine(name, fileName);
    HeaderIsStable("Content-Disposition", "content-disposition", Disposition(name, fileName), token);
    HeaderIsStable("Content-Type", "content-type", mimeType, token);
  }

  lemma RawNames()
    ensures Lower("Content-Disposition") == "content-disposition" && Lower("Content-Type") == "content-type"
    ensures OneLine("Content-Disposition") && OneLine("Content-Type") && ':' !in "Content-Disposition" && ':' !in "Content-Type"
    ensures "content-disposition" != "content-type" && DISPOSITION == "content-disposition"
  {
    assert |"content-disposition"| != |"content-type"|;
  }

  lemma FileFormIsStable(name: string, fileName: string, mimeType: string, lines: seq<string>, token: string)
    requires '"' !in name && '"' !in fileName
    requires OneLine(name) && OneLine(fileName) && OneLine(mimeType) && TrimLeft(mimeType) == mimeType && PlainLines(lines, token)
    ensures Stable(FileForm(name, fileName, if HidesFile(name) then "; filename=" else fileName, mimeType, lines), token)
  {
    RawNames();
    HeadersAreStable(name, fileName, mimeType, token);
    InputNameIsRead(name, fileName);
    FileNameIsRead(name, fileName);
    var e := FileForm(name, fileName, if HidesFile(name) then "; filename=" else fileName, mimeType, lines).entries[0];
    assert GetHeader(e.headers, DISPOSITION) == Some(e.headers[0]);
    assert forall l :: l in [""] ==> Unbroken(l) && !IsDelimiter(l, token);
  }

  /** The text of the form. */
  function FileText(token: string, name: string, fileName: string, mimeType: string, lines: seq<string>): string {
    "--" + token + "\r\n"
    + ("Content-Disposition: form-data; name=\"" + name + "\"; filename=\"" + fileName + "\"" + "\r\n"
       + ("Content-Type: " + mimeType + "\r\n"
          + ("\r\n" + (Join(lines, "\r\n") + ("\r\n" + ("--" + token + "--" + "\r\n"))))))
  }

  lemma TwoHeaders(a: Header, b: Header)
    ensures PrintHeaders([a, b]) == HeaderLine(a) + CRLF + (HeaderLine(b) + CRLF)
  {
    assert [a, b][1..] == [b] && [b][1..] == [];
    assert PrintHeaders([b]) == HeaderLine(b) + CRLF + "";
  }

  lemma DispositionHeader(name: string, fileName: string)
    ensures HeaderLine(FileHeaders(name, fileName, "")[0]) == "Content-Disposition: form-data; name=\"" + name + "\"; filename=\"" + fileName + "\""
  {
    var rest := name + ("\"; filename=\"" + (fileName + "\""));
    assert Disposition(name, fileName) == "form-data; name=\"" + rest;
    assert "Content-Disposition" + ": " + ("form-data; name=\"" + rest) == "Content-Disposition: form-data; name=\"" + rest;
  }

  lemma EntryText(token: string, name: string, fileName: string, read: string, mimeType: string, lines: seq<string>)
    ensures Print(FileForm(name, fileName, read, mimeType, lines), token) == FileText(token, name, fileName, mimeType, lines)
  {
    var f := FileForm(name, fileName, read, mimeType, lines);
    var a, b := HeaderLine(f.entries[0].headers[0]), HeaderLine(f.entries[0].headers[1]);
    DispositionHeader(name, fileName);
    assert b == "Content-Type: " + mimeType;
    TwoHeaders(f.entries[0].headers[0], f.entries[0].headers[1]);
    assert PrintEntries(f.entries[1..], token) == "";
    assert PrintEntries(f.entries, token) == "--" + token + CRLF + (a + CRLF + (b + CRLF) + CRLF + Join(lines, CRLF)) + CRLF + "";
    PutTogether("--" + token, a, b, Join(lines, CRLF), "--" + token + "--", PrintEntries(f.entries, token));
  }

  lemma PutTogether(first: string, a: string, b: string, body: string, last: string, entries: string)
    requires entries == first + CRLF + (a + CRLF + (b + CRLF) + CRLF + body) + CRLF + ""
    ensures "" + entries + last + CRLF + "" == first + CRLF + (a + CRLF + (b + CRLF + (CRLF + (body + (CRLF + (last + CRLF))))))
  {
    var head := b + CRLF + CRLF + body;
    assert a + CRLF + (b + CRLF) + CRLF + body == a + CRLF + head;
    assert entries == first + CRLF + (a + CRLF + (head + CRLF));
    assert head + CRLF + (last + CRLF) == b + CRLF + (CRLF + (body + (CRLF + (last + CRLF))));
    assert (a + CRLF + (head + CRLF)) + (last + CRLF) == a + CRLF + (head + CRLF + (last + CRLF));
  }

  /** A form with one file, as a browser writes it, is read as one entry with its two headers, its content line by line and its
      name; the file name is the given one, unless the name ends in the beginning of a file name parameter: then the
      text behind the quote is taken for it. Printing gives the text back. */
  lemma FileIsRead(token: string, name: string, fileName: string, mimeType: string, lines: seq<string>)
    requires '"' !in name && '"' !in fileName && OneLine(name) && OneLine(fileName)
    requires OneLine(mimeType) && TrimLeft(mimeType) == mimeType
    requires Unbroken(token) && lines != [] && PlainLines(lines, token)
    ensures var form := ParseBody(FileText(token, name, fileName, mimeType, lines), token);
            && form == FileForm(name, fileName, if HidesFile(name) then "; filename=" else fileName, mimeType, lines)
            && Print(form, token) == FileText(token, name, fileName, mimeType, lines)
  {
    var f := FileForm(name, fileName, if HidesFile(name) then "; filename=" else fileName, mimeType, lines);
    FileFormIsStable(name, fileName, mimeType, lines, token);
    EntryText(token, name, fileName, if HidesFile(name) then "; filename=" else fileName, mimeType, lines);
    ParsePrinted(f, token);
    assert Normals(f.entries) == f.entries;
  }
}
