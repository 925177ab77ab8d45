/** Taking URLs apart and putting them together: URL_RE, formatUrl and the functions that change one
    part of a URL. src/utils/url.ts */
module Urls {
  import opened Prelude
  import opened Text
  import opened ProxyDescriptor

  /** The parts of a URL; "" stands for an absent one. */
  datatype ParsedUrl = ParsedUrl(protocol: string, auth: string, host: string, hostname: string, port: string, partAfterHost: string)

  const EMPTY := ParsedUrl("", "", "", "", "", "")
  const LIMIT := 80000

  // ---------------------------------------------------------------- before parsing

  /** getURLString */
  function WithoutBreaks(s: string): string {
    if s == "" then "" else (if s[0] in "\n\t" then "" else [s[0]]) + WithoutBreaks(s[1..])
  }

  function Slashes(s: string): (n: nat)
    ensures n <= |s|
  {
    if s != "" && s[0] == '/' then 1 + Slashes(s[1..]) else 0
  }

  /** Removes up to a hundred slashes at `from` while `keep` remain, when what remains is one line. */
  function DropSlashes(s: string, from: nat, keep: nat): string
    requires from <= |s|
  {
    var n := Slashes(s[from..]);
    var drop: nat := if n <= keep then 0 else if n - keep <= 100 then n - keep else 100;
    if drop > 0 && OneLine(s[from + drop + keep..]) then s[..from] + s[from + drop..] else s
  }

  predicate IsLetter(c: char) {
    'a' <= c <= 'z' || 'A' <= c <= 'Z'
  }

  /** "file:" and slashes before a drive letter become "file:///". */
  function FixDrive(s: string): string {
    var from := PrefixLength(s, "file:");
    var k := from + Slashes(s[from..]);
    if k + 1 < |s| && IsLetter(s[k]) && s[k + 1] == ':' then s[..from] + "///" + s[k..] else s
  }

  /** correctMultipleSlashes */
  function CorrectSlashes(s: string): string {
    if PrefixLength(s, "file:") > 0 then FixDrive(DropSlashes(s, 5, 3))
    else
      var from := if PrefixLength(s, "https:") > 0 then 6 else PrefixLength(s, "http:");
      DropSlashes(s, from, 2)
  }

  /** processSpecialChars */
  function Processed(url: string): string {
    CorrectSlashes(WithoutBreaks(url))
  }

  // ---------------------------------------------------------------- URL_RE

  predicate IsWordChar(c: char) {
    IsLetter(c) || '0' <= c <= '9' || c == '_' || c == '-'
  }

  function WordRun(s: string): (n: nat)
    ensures n <= |s|
  {
    if s != "" && IsWordChar(s[0]) then 1 + WordRun(s[1..]) else 0
  }

  /** A word and a colon. */
  function ProtocolLength(s: string): (n: nat)
    ensures n <= |s|
  {
    var n := WordRun(s);
    if 0 < n < |s| && s[n] == ':' then n + 1 else 0
  }

  /** The last '@' that is not the first character, or 0. */
  function LastAt(s: string): (n: nat)
    ensures n < |s| || n == 0
  {
    if |s| < 2 then 0 else if s[|s| - 1] == '@' then |s| - 1 else LastAt(s[..|s| - 1])
  }

  predicate IsDigit(c: char) {
    '0' <= c <= '9'
  }

  function DigitRun(s: string): (n: nat)
    ensures n <= |s|
  {
    if s != "" && IsDigit(s[0]) then 1 + DigitRun(s[1..]) else 0
  }

  const HOST_STOPS := "/%?;#: "

  /** The number of white-space characters at the end, but at most n. */
  function SpacesAtEnd(s: string, n: nat): (k: nat)
    ensures k <= |s|
  {
    if n > 0 && s != "" && IsSpace(s[|s| - 1]) then 1 + SpacesAtEnd(s[..|s| - 1], n - 1) else 0
  }

  /** The part after the host must be one line within the limit; else the URL does not match. */
  function WithPart(p: ParsedUrl, rest: string): ParsedUrl {
    var part := rest[..|rest| - SpacesAtEnd(rest, 100)];
    if |part| <= LIMIT && OneLine(part) then p.(partAfterHost := part) else EMPTY
  }

  /** The length of the credentials in front of a host, without '@'. */
  function AuthLength(s: string): (n: nat)
    ensures n < |s| || n == 0
  {
    LastAt(s[..Until(s, "/")])
  }

  function HostnameLength(s: string): (n: nat)
    ensures n <= |s|
  {
    var n := Until(s, HOST_STOPS);
    if n <= LIMIT then n else LIMIT
  }

  /** The length of a port after its colon, or 0. */
  function PortLength(s: string): (n: nat)
    ensures n < |s| || n == 0
  {
    if s != "" && s[0] == ':' then DigitRun(s[1..]) else 0
  }

  /** The host and what follows. */
  function ParseHost(p: ParsedUrl, s: string): ParsedUrl {
    var n := HostnameLength(s);
    var m := PortLength(s[n..]);
    if m == 0 then WithPart(p.(host := s[..n], hostname := s[..n]), s[n..])
    else WithPart(p.(host := s[..n + 1 + m], hostname := s[..n], port := s[n + 1..n + 1 + m]), s[n + 1 + m..])
  }

  /** The authority after the two slashes. */
  function ParseAuthority(p: ParsedUrl, s: string): ParsedUrl {
    var n := AuthLength(s);
    if n == 0 then ParseHost(p, s) else ParseHost(p.(auth := s[..n]), s[n + 1..])
  }

  function ParseTrimmed(s: string): ParsedUrl {
    var n := ProtocolLength(s);
    var p := EMPTY.(protocol := s[..n]);
    if "//" <= s[n..] then ParseAuthority(p, s[n + 2..]) else WithPart(p, s[n..])
  }

  /** parseUrl */
  function ParseUrl(url: string): ParsedUrl {
    ParseTrimmed(TrimLeft(Processed(url)))
  }

  // ---------------------------------------------------------------- formatUrl

  function FormatUrl(p: ParsedUrl): string {
    if p.protocol != "file:" && p.protocol != "about:" && p.host == "" && (p.hostname == "" || p.port == "") then p.partAfterHost
    else
      p.protocol
      + (if p.protocol != "about:" then "//" else "")
      + (if p.auth != "" then p.auth + "@" else "")
      + (if p.host != "" then p.host else if p.hostname != "" then p.hostname + (if p.port != "" then ":" + p.port else "") else "")
      + p.partAfterHost
  }

  function LowerHost(p: ParsedUrl): ParsedUrl {
    p.(protocol := Lower(p.protocol), host := Lower(p.host))
  }

  function ConvertHostToLowerCase(url: string): string {
    FormatUrl(LowerHost(ParseUrl(url)))
  }

  predicate HasDefaultPort(p: ParsedUrl) {
    (p.protocol == "https:" && p.port == "443") || (p.protocol == "http:" && p.port == "80")
  }

  function OmitDefaultPort(url: string): string {
    var p := ParseUrl(url);
    if HasDefaultPort(p) then FormatUrl(p.(host := p.hostname, port := "")) else url
  }

  // ---------------------------------------------------------------- URLs with a host

  predicate NoSpaces(s: string) {
    forall c :: c in s ==> !IsSpace(c)
  }

  /** A word and a colon, or nothing. */
  predicate IsProtocol(s: string) {
    s == "" || (|s| > 1 && WordRun(s) == |s| - 1 && s[|s| - 1] == ':')
  }

  /** The part after the host does not continue the host or the port. */
  predicate Delimited(port: string, partAfterHost: string) {
    || partAfterHost == ""
    || if port == "" then partAfterHost[0] in HOST_STOPS && PortLength(partAfterHost) == 0 else !IsDigit(partAfterHost[0])
  }

  /** No '@' at k or after it, before the first slash. */
  predicate NoAtFrom(s: string, k: nat) {
    forall i :: k <= i < Until(s, "/") ==> s[i] != '@'
  }

  /** Each part is the one that URL_RE finds behind two slashes. */
  predicate Parted(p: ParsedUrl) {
    && IsProtocol(p.protocol)
    && '/' !in p.auth && NoAtFrom(p.host + p.partAfterHost, if p.auth == "" then 1 else 0)
    && Until(p.hostname, HOST_STOPS) == |p.hostname|
    && p.host == p.hostname + (if p.port != "" then ":" + p.port else "")
    && DigitRun(p.port) == |p.port|
    && Delimited(p.port, p.partAfterHost)
  }

  /** Such parts of a URL with a host. */
  predicate Canonical(p: ParsedUrl) {
    Parted(p) && p.hostname != ""
  }

  /** Parts that print with the host after two slashes. */
  predicate Printable(p: ParsedUrl) {
    && IsProtocol(p.protocol) && '/' !in p.auth
    && p.hostname != "" && Until(p.hostname, HOST_STOPS) == |p.hostname| && p.hostname <= p.host
  }

  /** A text that URL_RE takes apart without cutting it. */
  predicate Short(s: string) {
    NoSpaces(s) && |s| <= LIMIT
  }

  /** Neither a file nor an about URL: those are printed in other ways. */
  predicate IsWeb(p: ParsedUrl) {
    Lower(p.protocol) != "file:" && Lower(p.protocol) != "about:"
  }

  // ---------------------------------------------------------------- reading what was printed

  lemma {:induction false} DigitRunConcat(a: string, b: string)
    requires DigitRun(a) == |a| && (b == "" || !IsDigit(b[0]))
    ensures DigitRun(a + b) == |a|
  {
    if a == "" {
      assert a + b == b;
    } else {
      assert (a + b)[1..] == a[1..] + b;
      DigitRunConcat(a[1..], b);
    }
  }

  lemma {:induction false} WordRunConcat(a: string, b: string)
    requires WordRun(a) == |a| && (b == "" || !IsWordChar(b[0]))
    ensures WordRun(a + b) == |a|
  {
    if a == "" {
      assert a + b == b;
    } else {
      assert (a + b)[1..] == a[1..] + b;
      WordRunConcat(a[1..], b);
    }
  }

  lemma {:induction false} WithoutBreaksPlain(s: string)
    requires NoSpaces(s)
    ensures WithoutBreaks(s) == s && OneLine(s)
  {
    if s != "" {
      WithoutBreaksPlain(s[1..]);
      assert s[0] in s && s == [s[0]] + s[1..];
    }
  }

  lemma NoSpacesPart(s: string, p: ParsedUrl)
    requires NoSpaces(s) && |s| <= LIMIT
    ensures WithPart(p, s) == p.(partAfterHost := s)
  {
    WithoutBreaksPlain(s);
    if s != "" { assert s[|s| - 1] in s; }
    assert s[..|s| - SpacesAtEnd(s, 100)] == s;
  }

  lemma Cut(a: string, b: string)
    ensures (a + b)[..|a|] == a && (a + b)[|a|..] == b
  {
  }

  lemma CutMiddle(a: string, b: string, c: string)
    ensures (a + b + c)[..|a| + |b|] == a + b && (a + b + c)[|a|..|a| + |b|] == b && (a + b + c)[|a| + |b|..] == c
  {
  }

  lemma HostnameOf(hostname: string, after: string)
    requires Until(hostname, HOST_STOPS) == |hostname| <= LIMIT && (after == "" || after[0] in HOST_STOPS)
    ensures HostnameLength(hostname + after) == |hostname|
    ensures (hostname + after)[..|hostname|] == hostname && (hostname + after)[|hostname|..] == after
  {
    UntilConcat(hostname, after, HOST_STOPS);
    Cut(hostname, after);
  }

  lemma ParseHostNoPort(q: ParsedUrl, hostname: string, part: string)
    requires Until(hostname, HOST_STOPS) == |hostname| <= LIMIT && Delimited("", part) && Short(part)
    ensures ParseHost(q, hostname + part) == q.(host := hostname, hostname := hostname, partAfterHost := part)
  {
    HostnameOf(hostname, part);
    NoSpacesPart(part, q.(host := hostname, hostname := hostname));
  }

  lemma ParseHostWithPort(q: ParsedUrl, hostname: string, port: string, part: string)
    requires Until(hostname, HOST_STOPS) == |hostname| <= LIMIT && Delimited(port, part) && Short(part)
    requires port != "" && DigitRun(port) == |port|
    ensures ParseHost(q, hostname + (":" + port + part))
         == q.(host := hostname + ":" + port, hostname := hostname, port := port, partAfterHost := part)
  {
    var after := ":" + port + part;
    HostnameOf(hostname, after);
    PortOf(port, part);
    PortSlices(hostname, port, part);
    NoSpacesPart(part, q.(host := hostname + ":" + port, hostname := hostname, port := port));
  }

  lemma PortSlices(hostname: string, port: string, part: string)
    ensures var s, n, m := hostname + (":" + port + part), |hostname|, |port|;
            s[..n + 1 + m] == hostname + ":" + port && s[n + 1..n + 1 + m] == port && s[n + 1 + m..] == part
  {
    Assoc(hostname, ":" + port, part);
    Assoc(hostname, ":", port);
    CutMiddle(hostname + ":", port, part);
  }

  lemma ParseHostCanonical(q: ParsedUrl, p: ParsedUrl)
    requires Parted(p) && Short(p.host + p.partAfterHost) && q.port == ""
    ensures ParseHost(q, p.host + p.partAfterHost)
         == q.(host := p.host, hostname := p.hostname, port := p.port, partAfterHost := p.partAfterHost)
  {
    var part := p.partAfterHost;
    assert forall c :: c in part ==> c in p.host + part;
    if p.port == "" {
      assert p.host == p.hostname;
      ParseHostNoPort(q, p.hostname, part);
    } else {
      assert p.host + part == p.hostname + (":" + p.port + part);
      ParseHostWithPort(q, p.hostname, p.port, part);
      Assoc(p.hostname, ":", p.port);
    }
  }

  lemma PortAfterColon(s: string)
    ensures PortLength(":" + s) == DigitRun(s)
  {
    assert (":" + s)[1..] == s;
  }

  lemma PortOf(port: string, part: string)
    requires port != "" && DigitRun(port) == |port| && (part == "" || !IsDigit(part[0]))
    ensures PortLength(":" + port + part) == |port|
  {
    DigitRunConcat(port, part);
    PortAfterColon(port + part);
    Assoc(":", port, part);
  }

  lemma {:induction false} LastAtMeans(s: string)
    ensures LastAt(s) > 0 ==> s[LastAt(s)] == '@'
    ensures forall i :: 1 <= i < |s| && LastAt(s) < i ==> s[i] != '@'
  {
    if |s| >= 2 && s[|s| - 1] != '@' {
      LastAtMeans(s[..|s| - 1]);
      assert forall i :: 1 <= i < |s| - 1 ==> s[..|s| - 1][i] == s[i];
    }
  }

  lemma NoAuth(s: string)
    ensures AuthLength(s) == 0 <==> NoAtFrom(s, 1)
  {
    LastAtMeans(s[..Until(s, "/")]);
  }

  lemma SomeAuth(auth: string, s: string)
    requires auth != "" && '/' !in auth
    ensures AuthLength(auth + "@" + s) == |auth| <==> NoAtFrom(s, 0)
  {
    var t, n := auth + "@" + s, |auth| + 1;
    UntilIs(auth + "@", "/", n);
    UntilConcat(auth + "@", s, "/");
    var end := Until(t, "/");
    assert end == n + Until(s, "/");
    LastAtMeans(t[..end]);
    assert forall i :: 0 <= i < Until(s, "/") ==> t[..end][n + i] == s[i];
    assert t[..end][|auth|] == '@';
    if AuthLength(t) != |auth| {
      var k := AuthLength(t) - n;
      assert s[k] == '@';
    }
  }

  lemma ParseWithAuth(q: ParsedUrl, auth: string, tail: string)
    requires auth != "" && '/' !in auth && NoAtFrom(tail, 0)
    ensures ParseAuthority(q, auth + "@" + tail) == ParseHost(q.(auth := auth), tail)
  {
    SomeAuth(auth, tail);
    Cut(auth + "@", tail);
    Assoc(auth, "@", tail);
    Cut(auth, "@" + tail);
  }

  lemma ParseWithoutAuth(q: ParsedUrl, tail: string)
    requires NoAtFrom(tail, 1)
    ensures ParseAuthority(q, tail) == ParseHost(q, tail)
  {
    NoAuth(tail);
  }

  /** What follows the two slashes of a canonical URL. */
  function Tail(p: ParsedUrl): string {
    var tail := p.host + p.partAfterHost;
    if p.auth != "" then p.auth + "@" + tail else tail
  }

  lemma ParseAuthorityCanonical(q: ParsedUrl, p: ParsedUrl)
    requires Parted(p) && q.port == "" && q.auth == "" && Short(Tail(p))
    ensures ParseAuthority(q, Tail(p)) == p.(protocol := q.protocol)
  {
    var tail := p.host + p.partAfterHost;
    assert forall c :: c in tail ==> c in Tail(p);
    if p.auth == "" {
      ParseWithoutAuth(q, tail);
      ParseHostCanonical(q, p);
    } else {
      ParseWithAuth(q, p.auth, tail);
      ParseHostCanonical(q.(auth := p.auth), p);
    }
  }

  // ---------------------------------------------------------------- slashes

  lemma LowerAbout()
    ensures Lower("about:") == "about:" && Lower("file:") == "file:"
  {
  }

  lemma CanonicalIsPrintable(p: ParsedUrl)
    requires Canonical(p)
    ensures Printable(p)
  {
  }

  lemma FormatCanonical(p: ParsedUrl)
    requires Printable(p) && IsWeb(p)
    ensures FormatUrl(p) == p.protocol + "//" + Tail(p)
    ensures Tail(p) != "" && Tail(p)[0] != '/'
  {
    UntilMeans(p.hostname, HOST_STOPS);
    LowerAbout();
    assert p.host[0] == p.hostname[0];
    var tail := p.host + p.partAfterHost;
    if p.auth != "" {
      Assoc(p.protocol + "//", p.auth + "@" + p.host, p.partAfterHost);
      Assoc(p.protocol + "//", p.auth + "@", p.host);
      assert p.auth + "@" + p.host + p.partAfterHost == p.auth + "@" + tail;
      assert Tail(p)[0] == p.auth[0];
    } else {
      Assoc(p.protocol + "//", p.host, p.partAfterHost);
      assert p.protocol + "//" + "" == p.protocol + "//";
    }
  }

  lemma OneSlash(s: string)
    ensures Slashes("/" + s) == 1 + Slashes(s)
  {
    assert ("/" + s)[1..] == s;
  }

  lemma SlashesBefore(s: string)
    requires s == "" || s[0] != '/'
    ensures Slashes("//" + s) == 2
  {
    OneSlash(s);
    OneSlash("/" + s);
    assert "//" + s == "/" + ("/" + s);
  }

  lemma {:induction false} WordRunMeans(s: string)
    ensures forall i :: 0 <= i < WordRun(s) ==> IsWordChar(s[i])
    ensures WordRun(s) < |s| ==> !IsWordChar(s[WordRun(s)])
  {
    if s != "" && IsWordChar(s[0]) {
      WordRunMeans(s[1..]);
      assert forall i :: 1 <= i < |s| ==> s[i] == s[1..][i - 1];
    }
  }

  lemma WordRunIs(s: string, n: nat)
    requires n <= |s| && (forall i :: 0 <= i < n ==> IsWordChar(s[i])) && (n < |s| ==> !IsWordChar(s[n]))
    ensures WordRun(s) == n
  {
    WordRunMeans(s);
  }

  lemma ProtocolOf(protocol: string, rest: string)
    requires IsProtocol(protocol) && "//" <= rest
    ensures ProtocolLength(protocol + rest) == |protocol|
  {
    WordRunMeans(protocol);
    WordRunIs(protocol + rest, if protocol == "" then 0 else |protocol| - 1);
  }

  /** A text that starts with the word and colon has them as its protocol. */
  lemma PrefixIsProtocol(protocol: string, rest: string, prefix: string)
    requires IsProtocol(protocol) && "//" <= rest && PrefixLength(protocol + rest, prefix) > 0
    requires |prefix| > 1 && (forall i :: 0 <= i < |prefix| - 1 ==> 'a' <= prefix[i] <= 'z') && prefix[|prefix| - 1] == ':'
    ensures Lower(protocol) == prefix
  {
    var s, n := protocol + rest, |prefix| - 1;
    ProtocolOf(protocol, rest);
    assert Lower(s[..n + 1]) == prefix;
    forall i | 0 <= i < n ensures IsWordChar(s[i]) { assert Lower(s[..n + 1])[i] == prefix[i]; }
    assert Lower(s[..n + 1])[n] == ':';
    WordRunIs(s, n);
    assert s[..n + 1] == protocol;
  }

  lemma NothingToDrop(s: string, from: nat, keep: nat)
    requires from <= |s| && Slashes(s[from..]) <= keep
    ensures DropSlashes(s, from, keep) == s
  {
  }

  lemma SlashesCorrect(protocol: string, tail: string)
    requires IsProtocol(protocol) && Lower(protocol) != "file:" && (tail == "" || tail[0] != '/')
    ensures CorrectSlashes(protocol + "//" + tail) == protocol + "//" + tail
  {
    var s, rest := protocol + "//" + tail, "//" + tail;
    assert s == protocol + rest;
    SlashesBefore(tail);
    if PrefixLength(s, "file:") > 0 { PrefixIsProtocol(protocol, rest, "file:"); }
    if PrefixLength(s, "https:") > 0 { PrefixIsProtocol(protocol, rest, "https:"); assert s[6..] == rest; }
    else if PrefixLength(s, "http:") > 0 { PrefixIsProtocol(protocol, rest, "http:"); assert s[5..] == rest; }
    else {
      assert s[0..] == s;
      WordRunMeans(protocol);
      assert protocol != "" ==> s[0] == protocol[0] && IsWordChar(s[0]);
    }
    NothingToDrop(s, if PrefixLength(s, "https:") > 0 then 6 else PrefixLength(s, "http:"), 2);
  }

  lemma ProcessedCanonical(p: ParsedUrl)
    requires Printable(p) && IsWeb(p) && Short(FormatUrl(p))
    ensures Processed(FormatUrl(p)) == FormatUrl(p) && TrimLeft(FormatUrl(p)) == FormatUrl(p)
  {
    var s := FormatUrl(p);
    FormatCanonical(p);
    WithoutBreaksPlain(s);
    SlashesCorrect(p.protocol, Tail(p));
    assert s[0] in s;
  }

  lemma ParseTrimmedAt(protocol: string, tail: string)
    requires IsProtocol(protocol)
    ensures ParseTrimmed(protocol + "//" + tail) == ParseAuthority(EMPTY.(protocol := protocol), tail)
  {
    var s := protocol + "//" + tail;
    assert s == protocol + ("//" + tail);
    ProtocolOf(protocol, "//" + tail);
    Cut(protocol, "//" + tail);
    Cut(protocol + "//", tail);
  }

  /** Printing a canonical URL and taking it apart gives the same parts. */
  lemma ParsePrinted(p: ParsedUrl)
    requires Canonical(p) && IsWeb(p) && Short(FormatUrl(p))
    ensures ParseUrl(FormatUrl(p)) == p
  {
    FormatCanonical(p);
    ProcessedCanonical(p);
    ParseTrimmedAt(p.protocol, Tail(p));
    assert forall c :: c in Tail(p) ==> c in FormatUrl(p);
    ParseAuthorityCanonical(EMPTY.(protocol := p.protocol), p);
  }

  // ---------------------------------------------------------------- printing what was read

  lemma {:induction false} DigitRunMeans(s: string)
    ensures forall i :: 0 <= i < DigitRun(s) ==> IsDigit(s[i])
    ensures DigitRun(s) < |s| ==> !IsDigit(s[DigitRun(s)])
  {
    if s != "" && IsDigit(s[0]) {
      DigitRunMeans(s[1..]);
      assert forall i :: 1 <= i < |s| ==> s[i] == s[1..][i - 1];
    }
  }

  lemma DigitRunIs(s: string, n: nat)
    requires n <= |s| && (forall i :: 0 <= i < n ==> IsDigit(s[i])) && (n < |s| ==> !IsDigit(s[n]))
    ensures DigitRun(s) == n
  {
    DigitRunMeans(s);
  }

  lemma NoHostWithoutHostname(p: ParsedUrl, s: string)
    requires p.hostname == ""
    ensures WithPart(p, s).hostname == ""
  {
  }

  /** A host and what follows are cut at the right places. */
  predicate HostCut(p: ParsedUrl, s: string) {
    && Until(p.hostname, HOST_STOPS) == |p.hostname| && DigitRun(p.port) == |p.port|
    && p.host == p.hostname + (if p.port != "" then ":" + p.port else "")
    && Delimited(p.port, p.partAfterHost) && s == p.host + p.partAfterHost
  }

  lemma HostnameCut(s: string)
    requires Short(s)
    ensures var n := HostnameLength(s);
            Until(s[..n], HOST_STOPS) == n && (s[n..] == "" || s[n..][0] in HOST_STOPS)
  {
    UntilMeans(s, HOST_STOPS);
    var n := HostnameLength(s);
    UntilIs(s[..n], HOST_STOPS, n);
  }

  lemma PortCut(after: string)
    requires PortLength(after) > 0
    ensures var m := PortLength(after);
            && after == ":" + after[1..1 + m] + after[1 + m..]
            && DigitRun(after[1..1 + m]) == m
            && (after[1 + m..] == "" || !IsDigit(after[1 + m..][0]))
  {
    var m, digits := PortLength(after), after[1..];
    DigitRunMeans(digits);
    assert after[1..1 + m] == digits[..m] && after[1 + m..] == digits[m..];
    DigitRunIs(digits[..m], m);
  }

  lemma ParseHostCuts(q: ParsedUrl, s: string)
    requires Short(s) && q.port == ""
    ensures var p := ParseHost(q, s);
            HostCut(p, s) && p == q.(host := p.host, hostname := p.hostname, port := p.port, partAfterHost := p.partAfterHost)
  {
    HostnameCut(s);
    var n := HostnameLength(s);
    var hostname, after := s[..n], s[n..];
    assert s == hostname + after;
    assert forall c :: c in after ==> c in s;
    if PortLength(after) == 0 {
      ParseHostNoPort(q, hostname, after);
      assert hostname + "" == hostname;
    } else {
      PortCut(after);
      var port, part := after[1..1 + PortLength(after)], after[1 + PortLength(after)..];
      assert forall c :: c in part ==> c in after;
      ParseHostWithPort(q, hostname, port, part);
      Assoc(hostname, ":" + port, part);
      Assoc(hostname, ":", port);
    }
  }

  lemma AuthCut(s: string)
    requires AuthLength(s) > 0
    ensures var n := AuthLength(s);
            s[n] == '@' && '/' !in s[..n] && NoAtFrom(s[n + 1..], 0) && s == s[..n] + "@" + s[n + 1..]
  {
    var n, end := AuthLength(s), Until(s, "/");
    UntilMeans(s, "/");
    LastAtMeans(s[..end]);
    assert s[..end][n] == '@';
    var rest := s[n + 1..];
    assert forall i :: 0 <= i < |rest| ==> rest[i] == s[n + 1 + i];
    UntilIs(rest, "/", end - (n + 1));
    forall i | 0 <= i < end - (n + 1) ensures rest[i] != '@' { assert s[..end][n + 1 + i] == rest[i]; }
  }

  lemma AuthorityCuts(q: ParsedUrl, s: string)
    requires Short(s) && q.port == "" && q.auth == "" && IsProtocol(q.protocol)
    ensures var p := ParseAuthority(q, s);
            Parted(p) && Tail(p) == s && p.protocol == q.protocol
  {
    var n := AuthLength(s);
    if n == 0 {
      NoAuth(s);
      ParseHostCuts(q, s);
    } else {
      AuthCut(s);
      assert forall c :: c in s[n + 1..] ==> c in s;
      ParseHostCuts(q.(auth := s[..n]), s[n + 1..]);
    }
  }

  lemma ProtocolCut(s: string)
    ensures IsProtocol(s[..ProtocolLength(s)])
  {
    var n := ProtocolLength(s);
    WordRunMeans(s);
    if n > 0 { WordRunIs(s[..n], n - 1); }
  }

  /** The parts of a URL with a host are canonical, and together they are the text. */
  lemma TrimmedIsCanonical(s: string)
    requires Short(s) && ParseTrimmed(s).hostname != ""
    ensures var p := ParseTrimmed(s);
            Canonical(p) && s == p.protocol + "//" + Tail(p)
  {
    var n := ProtocolLength(s);
    ProtocolCut(s);
    if "//" <= s[n..] {
      NoSpacesSlice(s, n + 2, |s|);
      CutSlashes(s, n);
      AuthorityCuts(EMPTY.(protocol := s[..n]), s[n + 2..]);
    } else {
      NoHostWithoutHostname(EMPTY.(protocol := s[..n]), s[n..]);
    }
  }

  lemma CutSlashes(s: string, n: nat)
    requires n <= |s| && "//" <= s[n..]
    ensures s == s[..n] + "//" + s[n + 2..]
  {
    assert s[n..] == "//" + s[n + 2..];
  }

  /** A URL with a host: what parseUrl gives is canonical and prints as the processed text. */
  lemma PrintParsed(url: string)
    requires Short(Processed(url)) && ParseUrl(url).hostname != "" && IsWeb(ParseUrl(url))
    ensures Canonical(ParseUrl(url)) && FormatUrl(ParseUrl(url)) == Processed(url)
  {
    var s := Processed(url);
    if s != "" { assert s[0] in s; }
    assert TrimLeft(s) == s;
    TrimmedIsCanonical(s);
    CanonicalIsPrintable(ParseUrl(url));
    FormatCanonical(ParseUrl(url));
  }

  /** Printing the parts of a URL with a host and taking the text apart gives the same parts exactly
      when they are canonical. */
  lemma PrintedRoundTrip(p: ParsedUrl)
    requires Printable(p) && IsWeb(p) && Short(FormatUrl(p))
    ensures ParseUrl(FormatUrl(p)) == p <==> Canonical(p)
  {
    if Canonical(p) {
      ParsePrinted(p);
    } else if ParseUrl(FormatUrl(p)) == p {
      ProcessedCanonical(p);
      PrintParsed(FormatUrl(p));
    }
  }

  lemma NoSpacesSlice(s: string, a: nat, b: nat)
    requires NoSpaces(s) && a <= b <= |s|
    ensures NoSpaces(s[a..b])
  {
    forall c | c in s[a..b] ensures c in s { }
  }

  // ---------------------------------------------------------------- the lower case host

  lemma LowerChars(c: char)
    ensures LowerChar(LowerChar(c)) == LowerChar(c)
    ensures IsWordChar(LowerChar(c)) == IsWordChar(c) && IsSpace(LowerChar(c)) == IsSpace(c)
    ensures (LowerChar(c) in HOST_STOPS) == (c in HOST_STOPS)
    ensures IsDigit(c) || c in ":/@" ==> LowerChar(c) == c
    ensures LowerChar(c) in ":/@" ==> LowerChar(c) == c
  {
  }

  lemma LowerConcat(a: string, b: string)
    ensures Lower(a + b) == Lower(a) + Lower(b)
  {
  }

  lemma LowerWordRun(s: string)
    ensures WordRun(Lower(s)) == WordRun(s)
  {
    WordRunMeans(s);
    forall i | 0 <= i < |s| ensures IsWordChar(Lower(s)[i]) == IsWordChar(s[i]) { LowerChars(s[i]); }
    WordRunIs(Lower(s), WordRun(s));
  }

  lemma LowerProtocol(s: string)
    requires IsProtocol(s)
    ensures IsProtocol(Lower(s)) && Lower(Lower(s)) == Lower(s)
  {
    LowerWordRun(s);
    forall i | 0 <= i < |s| ensures LowerChar(LowerChar(s[i])) == LowerChar(s[i]) { LowerChars(s[i]); }
    if s != "" { LowerChars(s[|s| - 1]); }
  }

  lemma LowerUntil(s: string)
    ensures Until(Lower(s), HOST_STOPS) == Until(s, HOST_STOPS)
  {
    UntilMeans(s, HOST_STOPS);
    forall i | 0 <= i < |s| ensures (Lower(s)[i] in HOST_STOPS) == (s[i] in HOST_STOPS) { LowerChars(s[i]); }
    UntilIs(Lower(s), HOST_STOPS, Until(s, HOST_STOPS));
  }

  lemma LowerDigits(s: string)
    requires DigitRun(s) == |s|
    ensures Lower(s) == s
  {
    DigitRunMeans(s);
    forall i | 0 <= i < |s| ensures Lower(s)[i] == s[i] { LowerChars(s[i]); }
  }

  /** Texts with the slashes and '@' at the same places. */
  lemma SameMarks(a: string, b: string, k: nat)
    requires |a| == |b| && (forall i :: 0 <= i < |a| ==> (a[i] == '/' <==> b[i] == '/') && (a[i] == '@' <==> b[i] == '@'))
    ensures NoAtFrom(a, k) == NoAtFrom(b, k)
  {
    UntilMeans(a, "/");
    UntilIs(b, "/", Until(a, "/"));
  }

  lemma LowerMarks(host: string, part: string, k: nat)
    ensures NoAtFrom(Lower(host) + part, k) == NoAtFrom(host + part, k)
  {
    var a, b := Lower(host) + part, host + part;
    forall i | 0 <= i < |a| ensures (a[i] == '/' <==> b[i] == '/') && (a[i] == '@' <==> b[i] == '@') {
      if i < |host| { LowerChars(host[i]); }
    }
    SameMarks(a, b, k);
  }

  function Lowered(p: ParsedUrl): ParsedUrl {
    p.(protocol := Lower(p.protocol), host := Lower(p.host), hostname := Lower(p.hostname))
  }

  lemma LowerHostText(p: ParsedUrl)
    requires p.host == p.hostname + (if p.port != "" then ":" + p.port else "") && DigitRun(p.port) == |p.port|
    ensures Lower(p.host) == Lower(p.hostname) + (if p.port != "" then ":" + p.port else "")
  {
    if p.port != "" {
      LowerConcat(p.hostname, ":" + p.port);
      LowerConcat(":", p.port);
      LowerDigits(p.port);
      LowerChars(':');
    }
  }

  lemma LoweredIsCanonical(p: ParsedUrl)
    requires Parted(p)
    ensures Parted(Lowered(p)) && (p.hostname != "" ==> Canonical(Lowered(p)))
  {
    LowerProtocol(p.protocol);
    LowerUntil(p.hostname);
    LowerHostText(p);
    LowerMarks(p.host, p.partAfterHost, if p.auth == "" then 1 else 0);
  }

  lemma NoSpacesConcat(p: ParsedUrl)
    requires NoSpaces(p.protocol + "//" + Tail(p))
    ensures NoSpaces(p.protocol) && NoSpaces(p.auth) && NoSpaces(p.host) && NoSpaces(p.partAfterHost)
    ensures forall q: ParsedUrl :: q.auth == p.auth && q.partAfterHost == p.partAfterHost && NoSpaces(q.protocol) && NoSpaces(q.host)
              ==> NoSpaces(q.protocol + "//" + Tail(q))
  {
    var s := p.protocol + "//" + Tail(p);
    forall c | c in p.protocol || c in p.auth || c in p.host || c in p.partAfterHost ensures c in s {
      assert c in Tail(p) || c in p.protocol;
    }
  }

  // ---------------------------------------------------------------- the default port

  function WithoutPort(p: ParsedUrl): ParsedUrl {
    p.(host := p.hostname, port := "")
  }

  lemma NoSlashIn(s: string)
    requires Until(s, HOST_STOPS) == |s|
    ensures Until(s, "/") == |s|
  {
    UntilMeans(s, HOST_STOPS);
    UntilIs(s, "/", |s|);
  }

  lemma PortHasNoMarks(p: ParsedUrl, k: nat)
    requires Canonical(p) && k <= 1 && NoAtFrom(p.host + p.partAfterHost, k)
    ensures NoAtFrom(p.hostname + p.partAfterHost, k)
  {
    var part, n := p.partAfterHost, |p.hostname|;
    var middle := if p.port != "" then ":" + p.port else "";
    NoSlashIn(p.hostname);
    UntilConcat(p.hostname, part, "/");
    DigitRunMeans(p.port);
    UntilIs(middle, "/", |middle|);
    UntilConcat(middle, part, "/");
    UntilConcat(p.hostname, middle + part, "/");
    assert p.host + part == p.hostname + (middle + part);
    forall i | k <= i < n + Until(part, "/") ensures (p.hostname + part)[i] != '@' {
      if i < n {
        assert (p.hostname + part)[i] == (p.host + part)[i];
      } else {
        assert (p.hostname + part)[i] == (p.host + part)[i + |middle|];
      }
    }
  }

  lemma WithoutPortShort(p: ParsedUrl)
    requires Canonical(p) && IsWeb(p) && Short(FormatUrl(p))
    ensures Printable(WithoutPort(p)) && Short(FormatUrl(WithoutPort(p)))
  {
    FormatCanonical(p);
    FormatCanonical(WithoutPort(p));
    NoSpacesConcat(p);
    forall c | c in p.hostname ensures c in p.host { }
  }

  lemma WithoutPortCanonical(p: ParsedUrl)
    requires Canonical(p)
    ensures Canonical(WithoutPort(p)) <==> Delimited("", p.partAfterHost)
  {
    PortHasNoMarks(p, if p.auth == "" then 1 else 0);
    assert p.hostname + "" == p.hostname;
  }

  lemma OmittedRoundTrip(p: ParsedUrl)
    requires Canonical(p) && IsWeb(p) && Short(FormatUrl(p))
    ensures ParseUrl(FormatUrl(WithoutPort(p))) == WithoutPort(p) <==> Delimited("", p.partAfterHost)
  {
    WithoutPortCanonical(p);
    WithoutPortShort(p);
    PrintedRoundTrip(WithoutPort(p));
  }

  /** A URL with the default port loses it, and nothing else, exactly when what follows the port does
      not look like more of the host or another port; all other URLs stay as they are. */
  lemma DefaultPortOmitted(url: string)
    requires Short(Processed(url)) && ParseUrl(url).hostname != "" && IsWeb(ParseUrl(url))
    ensures var p := ParseUrl(url);
            && (!HasDefaultPort(p) ==> OmitDefaultPort(url) == url)
            && (HasDefaultPort(p) ==> (ParseUrl(OmitDefaultPort(url)) == WithoutPort(p) <==> Delimited("", p.partAfterHost)))
            && (HasDefaultPort(p) && Delimited("", p.partAfterHost) ==> OmitDefaultPort(OmitDefaultPort(url)) == OmitDefaultPort(url))
  {
    var p := ParseUrl(url);
    PrintParsed(url);
    if HasDefaultPort(p) { OmittedRoundTrip(p); }
  }

  lemma ParseShort(protocol: string, tail: string)
    requires IsProtocol(protocol) && IsWeb(EMPTY.(protocol := protocol)) && Short(protocol + "//" + tail)
    requires tail != "" && tail[0] != '/'
    ensures ParseUrl(protocol + "//" + tail) == ParseAuthority(EMPTY.(protocol := protocol), tail) && Short(tail)
  {
    var s := protocol + "//" + tail;
    WithoutBreaksPlain(s);
    SlashesCorrect(protocol, tail);
    assert s[0] in s;
    ParseTrimmedAt(protocol, tail);
    assert forall c :: c in tail ==> c in s;
  }

  /** A name that may stand before a query. */
  predicate IsName(name: string) {
    name != "" && '@' !in name && Until(name, HOST_STOPS) == |name|
  }

  lemma NameStarts(name: string, rest: string)
    requires IsName(name)
    ensures '/' !in name && name + rest != "" && (name + rest)[0] != '/'
  {
    NoSlashIn(name);
    UntilMeans(name, "/");
    assert (name + rest)[0] == name[0];
  }

  /** What parseUrl gives for credentials, '@' and the rest of a URL. */
  lemma ParseCredentials(protocol: string, auth: string, rest: string)
    requires IsProtocol(protocol) && IsWeb(EMPTY.(protocol := protocol)) && auth != "" && '/' !in auth && NoAtFrom(rest, 0)
    requires Short(protocol + "//" + (auth + "@" + rest))
    ensures var p := ParseUrl(protocol + "//" + (auth + "@" + rest));
            p.protocol == protocol && p.auth == auth && p.hostname == rest[..HostnameLength(rest)] && p.host + p.partAfterHost == rest
  {
    var q := EMPTY.(protocol := protocol);
    assert (auth + "@" + rest)[0] == auth[0];
    ParseShort(protocol, auth + "@" + rest);
    ParseWithAuth(q, auth, rest);
    assert forall c :: c in rest ==> c in auth + "@" + rest;
    ParseHostCuts(q.(auth := auth), rest);
  }

  /** An '@' in a query with no slash before it: what precedes the last such '@' is taken for
      credentials, and the host that URL_RE finds is what follows it. */
  lemma QueryTakenForCredentials(protocol: string, name: string, query: string, rest: string)
    requires IsProtocol(protocol) && IsWeb(EMPTY.(protocol := protocol)) && IsName(name)
    requires '/' !in query && NoAtFrom(rest, 0)
    requires Short(protocol + "//" + (name + "?" + query + "@" + rest))
    ensures var p := ParseUrl(protocol + "//" + (name + "?" + query + "@" + rest));
            && p.protocol == protocol && p.auth == name + "?" + query
            && p.hostname == rest[..Until(rest, HOST_STOPS)] && p.host + p.partAfterHost == rest
  {
    NameStarts(name, "?" + query);
    ParseCredentials(protocol, name + "?" + query, rest);
  }

  lemma MarksInQuery(name: string, query: string)
    requires IsName(name)
    ensures AuthLength(name + ("?" + query)) == 0 <==> NoAtFrom(query, 0)
  {
    var tail, n := name + ("?" + query), |name| + 1;
    NameStarts(name, "");
    UntilIs(name + "?", "/", n);
    UntilConcat(name + "?", query, "/");
    Assoc(name, "?", query);
    NoAuth(tail);
    forall i | 0 <= i < |query| ensures tail[n + i] == query[i] { }
    forall i | 0 <= i < |name| ensures tail[i] != '@' { assert tail[i] in name; }
    if j :| 0 <= j < Until(query, "/") && query[j] == '@' { assert tail[n + j] == '@'; }
  }

  /** A name and a query are read as such exactly when the query has no '@' before its first slash. */
  lemma QueryIsRead(protocol: string, name: string, query: string)
    requires IsProtocol(protocol) && IsWeb(EMPTY.(protocol := protocol)) && IsName(name)
    requires Short(protocol + "//" + (name + ("?" + query)))
    ensures ParseUrl(protocol + "//" + (name + ("?" + query))) == ParsedUrl(protocol, "", name, name, "", "?" + query)
       <==> NoAtFrom(query, 0)
  {
    var q, part := EMPTY.(protocol := protocol), "?" + query;
    NameStarts(name, part);
    ParseShort(protocol, name + part);
    MarksInQuery(name, query);
    if NoAtFrom(query, 0) {
      assert forall c :: c in part ==> c in name + part;
      ParseHostNoPort(q, name, part);
    } else {
      AuthKept(q, name + part);
    }
  }

  lemma AuthKept(q: ParsedUrl, s: string)
    requires Short(s) && AuthLength(s) > 0 && q.port == ""
    ensures ParseAuthority(q, s).auth == s[..AuthLength(s)]
  {
    AuthCut(s);
    assert forall c :: c in s[AuthLength(s) + 1..] ==> c in s;
    ParseHostCuts(q.(auth := s[..AuthLength(s)]), s[AuthLength(s) + 1..]);
  }
}
