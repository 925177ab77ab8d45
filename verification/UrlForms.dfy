/** URLs written out: which characters end a host, how many slashes stay, and which ports are left out.
    src/utils/url.ts */
module UrlForms {
  import opened Prelude
  import opened Text
  import opened ProxyDescriptor
  import opened Urls
  import opened UrlCase

  // ---------------------------------------------------------------- hosts

  predicate IsWord(word: string) {
    word != "" && forall c :: c in word ==> 'a' <= c <= 'z' || 'A' <= c <= 'Z' || '0' <= c <= '9' || c == '_' || c == '-'
  }

  /** A host name: no character that ends one, and no at-sign. */
  predicate IsHostName(name: string) {
    name != "" && forall c :: c in name ==> c !in {'/', '%', '?', ';', '#', ':', ' ', '@'}
  }

  /** What follows a host: nothing, or something that begins with one of those characters but a colon, without an
      at-sign before the first slash. */
  predicate IsRest(rest: string) {
    && (rest == "" || rest[0] in {'/', '%', '?', ';', '#'})
    && forall i :: 0 <= i < |rest| && rest[i] == '@' ==> exists j :: 0 <= j < i && rest[j] == '/'
  }

  lemma WordIsProtocol(word: string)
    requires IsWord(word)
    ensures IsProtocol(word + ":")
  {
    forall i | 0 <= i < |word| ensures IsWordChar((word + ":")[i]) { assert word[i] in word; }
    WordRunIs(word + ":", |word|);
  }

  lemma NameIsWhole(name: string)
    requires IsHostName(name)
    ensures Until(name, HOST_STOPS) == |name| && '@' !in name && '/' !in name
  {
    forall i | 0 <= i < |name| ensures name[i] !in HOST_STOPS { assert name[i] in name; }
    UntilIs(name, HOST_STOPS, |name|);
  }

  lemma NoAtBefore(host: string, rest: string)
    requires '@' !in host && '/' !in host && IsRest(rest)
    ensures NoAtFrom(host + rest, 1)
  {
    var s := host + rest;
    UntilMeans(s, "/");
    assert forall j :: 0 <= j < |rest| ==> s[|host| + j] == rest[j];
    forall i | 1 <= i < Until(s, "/") ensures s[i] != '@' {
      if i < |host| {
        assert s[i] == host[i] && host[i] in host;
      } else {
        assert s[i] == rest[i - |host|];
      }
    }
  }

  /** The parts of a URL with a host name and without a port. */
  function PartsOf(protocol: string, name: string, port: string, rest: string): ParsedUrl {
    ParsedUrl(protocol, "", name + if port == "" then "" else ":" + port, name, port, rest)
  }

  lemma HostPlain(name: string, port: string)
    requires IsHostName(name) && DigitRun(port) == |port|
    ensures var host := name + if port == "" then "" else ":" + port; '@' !in host && '/' !in host
  {
    DigitRunMeans(port);
    NameIsWhole(name);
  }

  lemma FormIsCanonical(protocol: string, name: string, port: string, rest: string)
    requires IsProtocol(protocol) && IsHostName(name) && IsRest(rest) && DigitRun(port) == |port|
    ensures Canonical(PartsOf(protocol, name, port, rest))
  {
    NameIsWhole(name);
    HostPlain(name, port);
    NoAtBefore(name + if port == "" then "" else ":" + port, rest);
    assert rest != "" ==> PortLength(rest) == 0;
  }

  lemma FormText(p: ParsedUrl)
    requires Canonical(p) && IsWeb(p) && p.auth == ""
    ensures FormatUrl(p) == p.protocol + "//" + (p.host + p.partAfterHost)
  {
    CanonicalIsPrintable(p);
    FormatCanonical(p);
  }

  predicate IsPort(port: string) {
    forall i :: 0 <= i < |port| ==> '0' <= port[i] <= '9'
  }

  /** A URL that is written out, with a port or without, is read as it is written: the host name ends at the first
      slash, percent sign, question mark, semicolon, number sign, colon or space, and the port is the digits behind a
      colon. */
  lemma UrlIsRead(word: string, name: string, port: string, rest: string)
    requires IsWord(word) && Lower(word + ":") !in {"file:", "about:"} && IsHostName(name) && IsPort(port) && IsRest(rest)
    requires Short(word + ":" + "//" + (name + (if port == "" then "" else ":" + port) + rest))
    ensures ParseUrl(word + ":" + "//" + (name + (if port == "" then "" else ":" + port) + rest))
         == ParsedUrl(word + ":", "", name + if port == "" then "" else ":" + port, name, port, rest)
  {
    WordIsProtocol(word);
    DigitRunIs(port, |port|);
    var p := PartsOf(word + ":", name, port, rest);
    FormIsCanonical(word + ":", name, port, rest);
    FormText(p);
    ParsePrinted(p);
  }

  // ---------------------------------------------------------------- white space

  lemma {:induction false} BreaksConcat(a: string, b: string)
    ensures WithoutBreaks(a + b) == WithoutBreaks(a) + WithoutBreaks(b)
  {
    if a == "" {
      assert a + b == b && "" + WithoutBreaks(b) == WithoutBreaks(b);
    } else {
      assert (a + b)[1..] == a[1..] + b;
      BreaksConcat(a[1..], b);
      Assoc(if a[0] in "\n\t" then "" else [a[0]], WithoutBreaks(a[1..]), WithoutBreaks(b));
    }
  }

  /** Line feeds and tabs are removed before a URL is read. */
  lemma BreaksAreRemoved(a: string, c: char, b: string)
    requires c in {'\n', '\t'}
    ensures ParseUrl(a + [c] + b) == ParseUrl(a + b)
  {
    BreaksConcat(a + [c], b);
    BreaksConcat(a, [c]);
    BreaksConcat(a, b);
    assert [c][1..] == "" && WithoutBreaks([c]) == "";
    assert WithoutBreaks(a) + "" == WithoutBreaks(a);
  }

  function Spaces(n: nat): (s: string)
    ensures |s| == n && forall c :: c in s ==> c == ' '
  {
    seq(n, _ => ' ')
  }

  lemma {:induction false} TrimSpaces(n: nat, s: string)
    requires TrimLeft(s) == s
    ensures TrimLeft(Spaces(n) + s) == s
  {
    if n == 0 {
      assert Spaces(0) + s == s;
    } else {
      assert (Spaces(n) + s)[1..] == Spaces(n - 1) + s && IsSpace(' ');
      TrimSpaces(n - 1, s);
    }
  }

  lemma {:induction false} EndSpaces(rest: string, n: nat, limit: nat)
    requires n <= limit && NoSpaces(rest)
    ensures SpacesAtEnd(rest + Spaces(n), limit) == n
    decreases n
  {
    if n == 0 {
      assert rest + Spaces(0) == rest;
      if rest != "" { assert rest[|rest| - 1] in rest; }
    } else {
      assert (rest + Spaces(n))[..|rest| + n - 1] == rest + Spaces(n - 1) && IsSpace(' ');
      EndSpaces(rest, n - 1, limit - 1);
    }
  }

  lemma PartBeforeSpaces(p: ParsedUrl, rest: string, n: nat)
    requires Short(rest) && n <= 100
    ensures WithPart(p, rest + Spaces(n)) == p.(partAfterHost := rest)
  {
    EndSpaces(rest, n, 100);
    WithoutBreaksPlain(rest);
    assert (rest + Spaces(n))[..|rest|] == rest;
  }

  lemma {:induction false} NoBreaks(s: string)
    requires '\n' !in s && '\t' !in s
    ensures WithoutBreaks(s) == s
  {
    if s != "" {
      NoBreaks(s[1..]);
      assert s == [s[0]] + s[1..];
    }
  }

  lemma HostThenPart(q: ParsedUrl, name: string, behind: string)
    requires Until(name, HOST_STOPS) == |name| <= LIMIT && (behind == "" || behind[0] in HOST_STOPS) && PortLength(behind) == 0
    ensures ParseHost(q, name + behind) == WithPart(q.(host := name, hostname := name), behind)
  {
    HostnameOf(name, behind);
  }

  lemma HostPortCut(q: ParsedUrl, s: string, n: nat, m: nat, name: string, port: string, behind: string)
    requires n == HostnameLength(s) && m == PortLength(s[n..]) && m > 0 && n + 1 + m <= |s|
    requires s[..n] == name && s[..n + 1 + m] == name + ":" + port && s[n + 1..n + 1 + m] == port && s[n + 1 + m..] == behind
    ensures ParseHost(q, s) == WithPart(q.(host := name + ":" + port, hostname := name, port := port), behind)
  {
  }

  lemma HostPortThenPart(q: ParsedUrl, name: string, port: string, behind: string)
    requires Until(name, HOST_STOPS) == |name| <= LIMIT && port != "" && DigitRun(port) == |port| && (behind == "" || !IsDigit(behind[0]))
    ensures ParseHost(q, name + (":" + port + behind)) == WithPart(q.(host := name + ":" + port, hostname := name, port := port), behind)
  {
    var s := name + (":" + port + behind);
    HostnameOf(name, ":" + port + behind);
    PortOf(port, behind);
    PortSlices(name, port, behind);
    HostPortCut(q, s, |name|, |port|, name, port, behind);
  }

  /** A host and what follows it, with spaces behind. */
  lemma HostBeforeSpaces(q: ParsedUrl, name: string, port: string, rest: string, n: nat)
    requires q.port == "" && Until(name, HOST_STOPS) == |name| <= LIMIT && DigitRun(port) == |port| && Short(rest) && IsRest(rest) && n <= 100
    ensures var host := name + if port == "" then "" else ":" + port;
            ParseHost(q, host + (rest + Spaces(n))) == q.(host := host, hostname := name, port := port, partAfterHost := rest)
  {
    var behind := rest + Spaces(n);
    assert behind != "" ==> behind[0] == (if rest != "" then rest[0] else ' ');
    if port == "" {
      HostThenPart(q, name, behind);
      PartBeforeSpaces(q.(host := name, hostname := name), rest, n);
      assert name + "" == name;
    } else {
      HostPortThenPart(q, name, port, behind);
      Assoc(name, ":" + port, behind);
      Assoc(name, ":", port);
      PartBeforeSpaces(q.(host := name + ":" + port, hostname := name, port := port), rest, n);
    }
  }

  lemma AuthorityBeforeSpaces(q: ParsedUrl, name: string, port: string, rest: string, n: nat)
    requires q.port == "" && IsHostName(name) && |name| <= LIMIT && IsPort(port) && Short(rest) && IsRest(rest) && n <= 100
    ensures var host := name + if port == "" then "" else ":" + port;
            ParseAuthority(q, host + (rest + Spaces(n))) == q.(host := host, hostname := name, port := port, partAfterHost := rest)
  {
    var host := name + if port == "" then "" else ":" + port;
    NameIsWhole(name);
    DigitRunIs(port, |port|);
    assert '@' !in host && '/' !in host && host != "" && host[0] == name[0];
    NoAtWithSpaces(host, rest, n);
    NoAuth(host + (rest + Spaces(n)));
    HostBeforeSpaces(q, name, port, rest, n);
  }

  lemma NoAtWithSpaces(host: string, rest: string, n: nat)
    requires '@' !in host && '/' !in host && IsRest(rest)
    ensures NoAtFrom(host + (rest + Spaces(n)), 1)
  {
    var s := host + (rest + Spaces(n));
    UntilMeans(s, "/");
    assert forall j :: 0 <= j < |rest| ==> s[|host| + j] == rest[j];
    forall i | 1 <= i < Until(s, "/") ensures s[i] != '@' {
      if i < |host| {
        assert s[i] == host[i] && host[i] in host;
      } else if i < |host| + |rest| {
        assert s[i] == rest[i - |host|];
      } else {
        assert s[i] in Spaces(n);
      }
    }
  }

  /** Spaces in front of a URL and up to a hundred behind it are left out. */
  lemma SpacesAreDropped(word: string, name: string, port: string, rest: string, m: nat, n: nat)
    requires IsWord(word) && Lower(word + ":") !in {"file:", "about:"} && IsHostName(name) && IsPort(port) && IsRest(rest) && n <= 100
    requires Short(word + ":" + "//" + (name + (if port == "" then "" else ":" + port) + rest))
    ensures var url := word + ":" + "//" + (name + (if port == "" then "" else ":" + port) + rest);
            ParseUrl(Spaces(m) + (url + Spaces(n)))
            == ParsedUrl(word + ":", "", name + if port == "" then "" else ":" + port, name, port, rest)
  {
    var protocol, host := word + ":", name + if port == "" then "" else ":" + port;
    var tail := host + (rest + Spaces(n));
    var text := protocol + "//" + tail;
    var url := protocol + "//" + (host + rest);
    assert url + Spaces(n) == text;
    assert name[0] in name && tail[0] == name[0];
    WordIsProtocol(word);
    FormParts(url, protocol, host, rest, name);
    TextWithSpaces(protocol, tail, m, url, n);
    ParseTrimmedAt(protocol, tail);
    AuthorityBeforeSpaces(EMPTY.(protocol := protocol), name, port, rest, n);
  }

  lemma FormParts(url: string, protocol: string, host: string, rest: string, name: string)
    requires url == protocol + "//" + (host + rest) && Short(url) && name <= host
    ensures Short(rest) && |name| <= LIMIT && NoSpaces(protocol) && |url| > 0
  {
    forall c | c in rest || c in protocol ensures c in url { }
  }

  lemma TextWithSpaces(protocol: string, tail: string, m: nat, url: string, n: nat)
    requires IsProtocol(protocol) && protocol != "" && Lower(protocol) != "file:" && tail != "" && tail[0] != '/'
    requires NoSpaces(url) && url + Spaces(n) == protocol + "//" + tail
    ensures TrimLeft(Processed(Spaces(m) + (url + Spaces(n)))) == protocol + "//" + tail
  {
    var text := protocol + "//" + tail;
    var s := Spaces(m) + text;
    assert text[0] == protocol[0] && url != "" && text[0] == url[0] && url[0] in url;
    forall c | c in s ensures c != '\n' && c != '\t' { assert c == ' ' || c in url; }
    NoBreaks(s);
    TrimSpaces(m, text);
    if m == 0 {
      assert s == text;
      SlashesCorrect(protocol, tail);
    } else {
      assert s[0] == ' ' && LowerChar(' ') == ' ';
      PrefixFails(s, "file:", 0);
      PrefixFails(s, "http:", 0);
      PrefixFails(s, "https:", 0);
      NothingToDrop(s, 0, 2);
    }
  }

  lemma WebWords()
    ensures IsWord("http") && IsWord("https") && "http" + ":" == "http:" && "https" + ":" == "https:"
    ensures Lower("http:") == "http:" && Lower("https:") == "https:"
  {
  }

  /** The port 80 of an http URL and the port 443 of an https URL are left out; all others stay. */
  lemma PortIsLeftOut(protocol: string, name: string, port: string, rest: string)
    requires protocol in {"http:", "https:"} && IsHostName(name) && port != "" && IsPort(port) && IsRest(rest)
    requires Short(protocol + "//" + (name + (":" + port) + rest))
    ensures OmitDefaultPort(protocol + "//" + (name + (":" + port) + rest))
         == if (protocol, port) in {("http:", "80"), ("https:", "443")} then protocol + "//" + (name + rest)
            else protocol + "//" + (name + (":" + port) + rest)
  {
    var p, q := PartsOf(protocol, name, port, rest), PartsOf(protocol, name, "", rest);
    WebWords();
    WordIsProtocol(if protocol == "http:" then "http" else "https");
    DigitRunIs(port, |port|);
    FormIsCanonical(protocol, name, port, rest);
    FormText(p);
    ParsePrinted(p);
    FormIsCanonical(protocol, name, "", rest);
    FormText(q);
    assert name + "" == name;
    assert p.(host := p.hostname, port := "") == q;
  }

  // ---------------------------------------------------------------- slashes

  function Run(n: nat): (s: string)
    ensures |s| == n && forall c :: c in s ==> c == '/'
  {
    seq(n, _ => '/')
  }

  predicate IsTail(rest: string) {
    (rest == "" || rest[0] != '/') && OneLine(rest)
  }

  /** How many of n slashes stay when up to a hundred go and k are enough. */
  function Kept(n: nat, k: nat): nat {
    if n <= k then n else if n <= k + 100 then k else n - 100
  }

  lemma RunCut(prefix: string, n: nat, rest: string, drop: nat)
    requires drop <= n
    ensures var s := prefix + Run(n) + rest;
            |s| == |prefix| + n + |rest| && s[..|prefix|] == prefix && s[|prefix| + drop..] == Run(n - drop) + rest
  {
  }

  lemma RunIsOneLine(n: nat, rest: string)
    requires OneLine(rest)
    ensures OneLine(Run(n) + rest)
  {
  }

  lemma DropIs(s: string, from: nat, keep: nat, n: nat, drop: nat, r: string)
    requires from <= |s| && Slashes(s[from..]) == n && drop == (if n <= keep then 0 else if n - keep <= 100 then n - keep else 100)
    requires from + drop + keep <= |s| || drop == 0
    requires drop > 0 ==> OneLine(s[from + drop + keep..])
    requires from + drop <= |s| && s[..from] + s[from + drop..] == r
    ensures DropSlashes(s, from, keep) == r
  {
    assert s[..from] + s[from..] == s;
  }

  lemma SlashesBehind(prefix: string, n: nat, rest: string, s: string)
    requires IsTail(rest) && s == prefix + Run(n) + rest
    ensures |prefix| + n <= |s| && Slashes(s[|prefix|..]) == n
  {
    RunCut(prefix, n, rest, 0);
    SlashesAre(Run(n) + rest, n);
  }

  lemma SlashesDropped(prefix: string, n: nat, rest: string, keep: nat)
    requires IsTail(rest)
    ensures DropSlashes(prefix + Run(n) + rest, |prefix|, keep) == prefix + Run(Kept(n, keep)) + rest
  {
    var s := prefix + Run(n) + rest;
    var drop: nat := if n <= keep then 0 else if n - keep <= 100 then n - keep else 100;
    SlashesBehind(prefix, n, rest, s);
    if drop > 0 { OneLineBehind(prefix, n, rest, drop + keep); }
    RunDropped(prefix, n, rest, drop);
    DropIs(s, |prefix|, keep, n, drop, prefix + Run(n - drop) + rest);
  }

  lemma RunDropped(prefix: string, n: nat, rest: string, drop: nat)
    requires drop <= n
    ensures var s := prefix + Run(n) + rest;
            |prefix| + drop <= |s| && s[..|prefix|] + s[|prefix| + drop..] == prefix + Run(n - drop) + rest
  {
    RunCut(prefix, n, rest, drop);
    Assoc(prefix, Run(n - drop), rest);
  }

  lemma OneLineBehind(prefix: string, n: nat, rest: string, k: nat)
    requires k <= n && OneLine(rest)
    ensures |prefix| + k <= |prefix + Run(n) + rest| && OneLine((prefix + Run(n) + rest)[|prefix| + k..])
  {
    RunCut(prefix, n, rest, k);
    RunIsOneLine(n - k, rest);
  }

  lemma PrefixHolds(prefix: string, s: string)
    requires prefix <= s && Lower(prefix) == prefix
    ensures PrefixLength(s, prefix) == |prefix|
  {
    assert s[..|prefix|] == prefix;
  }

  lemma PrefixFails(s: string, prefix: string, i: nat)
    requires i < |s| && i < |prefix| && LowerChar(s[i]) != prefix[i]
    ensures PrefixLength(s, prefix) == 0
  {
    if |prefix| <= |s| { assert Lower(s[..|prefix|])[i] == LowerChar(s[i]); }
  }

  /** Behind http:, https: or nothing two slashes stay of more, as long as not more than a hundred have to go. */
  lemma WebSlashes(prefix: string, n: nat, rest: string)
    requires prefix in {"", "http:", "https:"} && n > 0 && IsTail(rest)
    ensures CorrectSlashes(prefix + Run(n) + rest)
         == prefix + Run(if n <= 2 then n else if n <= 102 then 2 else n - 100) + rest
  {
    var s := prefix + Run(n) + rest;
    assert s == prefix + (Run(n) + rest);
    SlashesDropped(prefix, n, rest, 2);
    PrefixFails(s, "file:", 0);
    if prefix == "" {
      PrefixFails(s, "http:", 0);
      PrefixFails(s, "https:", 0);
    } else if prefix == "http:" {
      PrefixFails(s, "https:", 4);
      assert Lower(prefix) == prefix;
      PrefixHolds("http:", s);
    } else {
      assert Lower(prefix) == prefix;
      PrefixHolds("https:", s);
    }
  }

  lemma FileStart(n: nat, rest: string)
    ensures PrefixLength("file:" + Run(n) + rest, "file:") == 5 && ("file:" + Run(n) + rest)[5..] == Run(n) + rest
  {
    assert "file:" + Run(n) + rest == "file:" + (Run(n) + rest) && Lower("file:") == "file:";
    PrefixHolds("file:", "file:" + Run(n) + rest);
  }

  predicate StartsWithDrive(rest: string) {
    |rest| > 1 && ('a' <= rest[0] <= 'z' || 'A' <= rest[0] <= 'Z') && rest[1] == ':'
  }

  lemma DriveIsFixed(m: nat, rest: string)
    requires IsTail(rest)
    ensures FixDrive("file:" + Run(m) + rest) == if StartsWithDrive(rest) then "file:///" + rest else "file:" + Run(m) + rest
  {
    var x, k := "file:" + Run(m) + rest, 5 + m;
    FileStart(m, rest);
    SlashesAre(Run(m) + rest, m);
    DriveAfter(x, m, rest);
  }

  lemma DriveAfter(x: string, m: nat, rest: string)
    requires x == "file:" + Run(m) + rest
    ensures |x| == 5 + m + |rest| && x[5 + m..] == rest && x[..5] == "file:" && "file:" + "///" + rest == "file:///" + rest
    ensures forall i :: 0 <= i < |rest| ==> x[5 + m + i] == rest[i]
  {
  }

  /** Behind file: three slashes stay of more; a drive letter gets three slashes, whatever there was. */
  lemma FileSlashes(n: nat, rest: string)
    requires IsTail(rest)
    ensures CorrectSlashes("file:" + Run(n) + rest)
         == if |rest| > 1 && ('a' <= rest[0] <= 'z' || 'A' <= rest[0] <= 'Z') && rest[1] == ':' then "file:///" + rest
            else "file:" + Run(if n <= 3 then n else if n <= 103 then 3 else n - 100) + rest
  {
    FileStart(n, rest);
    SlashesDropped("file:", n, rest, 3);
    DriveIsFixed(Kept(n, 3), rest);
  }
}
