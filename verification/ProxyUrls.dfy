/** Proxy URLs: a descriptor and a destination URL behind the address of the proxy. src/utils/url.ts */
module ProxyUrls {
  import opened Prelude
  import opened Text
  import opened ProxyDescriptor
  import opened Urls
  import opened UrlCase

  datatype Options = Options(proxyProtocol: string, proxyHostname: string, proxyPort: string, descriptor: Descriptor)

  function ProxyProtocol(o: Options): string {
    if o.proxyProtocol == "" then "http:" else o.proxyProtocol
  }

  /** getProxyUrl */
  function GetProxyUrl(url: string, o: Options): string {
    ProxyProtocol(o) + "//" + (o.proxyHostname + ":" + o.proxyPort + ("/" + Print(o.descriptor) + "/" + ConvertHostToLowerCase(url)))
  }

  /** The parameters, one after the other. */
  lemma ParamsAre(d: Descriptor, head: seq<string>, withCharset: seq<string>, withCredentials: seq<string>, params: seq<string>)
    requires head == [SessionInfo(d)] + if d.resourceType != "" then [d.resourceType] else []
    requires withCharset == if d.charset != "" then head + [Lower(d.charset)] else head
    requires withCredentials == if !d.credentials.Absent? then withCharset + [NumberText(d.credentials)] else withCharset
    requires params == if d.reqOrigin != "" then withCredentials + [Percent.Encode(MakeShortOrigin(d.reqOrigin))] else withCredentials
    ensures params == Params(d)
  {
    var a := if d.charset != "" then [Lower(d.charset)] else [];
    var b := if !d.credentials.Absent? then [NumberText(d.credentials)] else [];
    var c := if d.reqOrigin != "" then [Percent.Encode(MakeShortOrigin(d.reqOrigin))] else [];
    assert head + [] == head && withCharset + [] == withCharset && withCredentials + [] == withCredentials;
    ParamsRegrouped(head, a, b, c);
  }

  lemma ParamsRegrouped(head: seq<string>, a: seq<string>, b: seq<string>, c: seq<string>)
    ensures head + a + b + c == head + (a + b + c)
  {
  }

  /** getProxyUrl as the program builds it, one parameter after the other. */
  method BuildProxyUrl(url: string, opts: Options) returns (r: string)
    ensures r == GetProxyUrl(url, opts)
  {
    var d := opts.descriptor;
    var sessionInfo := [d.sessionId];
    if d.windowId != "" {
      sessionInfo := sessionInfo + [d.windowId];
    }
    assert sessionInfo == [d.sessionId] + if d.windowId != "" then [d.windowId] else [];
    var params := [Join(sessionInfo, "*")];
    if d.resourceType != "" {
      params := params + [d.resourceType];
    }
    ghost var head := params;
    if d.charset != "" {
      params := params + [Lower(d.charset)];
    }
    ghost var withCharset := params;
    if !d.credentials.Absent? {
      params := params + [NumberText(d.credentials)];
    }
    ghost var withCredentials := params;
    if d.reqOrigin != "" {
      params := params + [Percent.Encode(MakeShortOrigin(d.reqOrigin))];
    }
    ParamsAre(d, head, withCharset, withCredentials, params);
    var proxyProtocol := if opts.proxyProtocol == "" then "http:" else opts.proxyProtocol;
    return proxyProtocol + "//" + (opts.proxyHostname + ":" + opts.proxyPort + ("/" + Join(params, "!") + "/" + ConvertHostToLowerCase(url)));
  }

  // ---------------------------------------------------------------- parsing

  const SPECIAL_PAGE_INFO := ParsedUrl("about:", "", "", "", "", "")

  predicate IsSpecialPage(url: string) {
    url == "about:blank" || url == "about:error"
  }

  function WithoutHash(url: string): string {
    url[..Until(url, "#")]
  }

  predicate IsSupported(url: string) {
    PrefixLength(url, "http:") > 0 || PrefixLength(url, "https:") > 0 || PrefixLength(url, "file:") > 0
  }

  datatype ProxyUrl = ProxyUrl(destUrl: string, destResourceInfo: ParsedUrl, partAfterHost: string, proxyHostname: string,
                               proxyPort: string, descriptor: Descriptor)

  /** A proxy URL, null, or the exception of decodeURIComponent. */
  datatype Result = Proxy(url: ProxyUrl) | NotProxy | Raised

  /** PATH_AFTER_HOST_RE: the descriptor and the destination. */
  function MatchPath(path: string): Option<(string, string)> {
    if path == "" || path[0] != '/' then None else
    var n := Until(path[1..], "/");
    if n == 0 || n + 2 >= |path| then None else Some((path[1..n + 1], path[n + 2..]))
  }

  /** The destination URL and its parts. */
  function Destination(url: string): (string, ParsedUrl) {
    if IsSpecialPage(WithoutHash(url)) then (url, SPECIAL_PAGE_INFO) else (OmitDefaultPort(url), ParseUrl(OmitDefaultPort(url)))
  }

  /** parseProxyUrl */
  function ParseProxyUrl(proxyUrl: string): Result {
    var p := ParseUrl(proxyUrl);
    if p.partAfterHost == "" then NotProxy else
    match MatchPath(p.partAfterHost)
    case None => NotProxy
    case Some((desc, dest)) =>
      match Parse(desc)
      case Null => NotProxy
      case UriError => Raised
      case Parsed(d) =>
        if !IsSpecialPage(WithoutHash(dest)) && !IsSupported(dest) then NotProxy else
        Proxy(ProxyUrl(Destination(dest).0, Destination(dest).1, p.partAfterHost, p.hostname, p.port, d))
  }

  // ---------------------------------------------------------------- round trip

  /** An address that a browser can have. */
  predicate IsAddress(o: Options) {
    && o.proxyProtocol in {"", "http:", "https:"}
    && o.proxyHostname != "" && Until(o.proxyHostname, HOST_STOPS) == |o.proxyHostname| && '@' !in o.proxyHostname
    && o.proxyPort != "" && DigitRun(o.proxyPort) == |o.proxyPort|
  }

  predicate WithoutSlashes(d: Descriptor) {
    '/' !in d.sessionId && '/' !in d.windowId && '/' !in d.resourceType && '/' !in d.charset
  }

  lemma LowerKeepsSlashOut(s: string)
    requires '/' !in s
    ensures '/' !in Lower(s)
  {
    forall i | 0 <= i < |s| ensures Lower(s)[i] != '/' { LowerChars(s[i]); }
  }

  lemma NumberKeepsSlashOut(n: Number)
    ensures '/' !in NumberText(n)
  {
    if n.Int? {
      var m := if n.n < 0 then -n.n else n.n;
      NumeralRoundTrip(m, 10);
      var s := Numeral(m, 10);
      forall k | 0 <= k < |s| ensures s[k] != '/' { assert IsDigitChar(s[k], 10); }
    }
  }

  lemma EncodeKeepsSlashOut(s: string)
    ensures '/' !in Percent.Encode(s)
  {
    Percent.EncodePlain(s);
    assert !Percent.IsEncodedChar('/');
  }

  lemma PrintKeepsSlashOut(d: Descriptor)
    requires WithoutSlashes(d)
    ensures '/' !in Print(d)
  {
    LowerKeepsSlashOut(d.charset);
    NumberKeepsSlashOut(d.credentials);
    EncodeKeepsSlashOut(MakeShortOrigin(d.reqOrigin));
    JoinWithout([d.sessionId] + (if d.windowId != "" then [d.windowId] else []), "*", '/');
    JoinWithout(Params(d), "!", '/');
  }

  lemma PrintNotEmpty(d: Descriptor)
    requires d.sessionId != ""
    ensures Print(d) != ""
  {
    assert SessionInfo(d) != "";
    assert Params(d)[0] == SessionInfo(d);
  }

  lemma PathRoundTrip(desc: string, dest: string)
    requires desc != "" && '/' !in desc && dest != ""
    ensures MatchPath("/" + desc + "/" + dest) == Some((desc, dest))
  {
    var path := "/" + desc + "/" + dest;
    assert path[1..] == desc + ("/" + dest);
    UntilIs(path[1..], "/", |desc|);
    assert path[1..|desc| + 1] == desc && path[|desc| + 2..] == dest;
  }

  /** The parts of a printed proxy URL. */
  function ProxyParts(url: string, o: Options): ParsedUrl {
    ParsedUrl(ProxyProtocol(o), "", o.proxyHostname + ":" + o.proxyPort, o.proxyHostname, o.proxyPort,
              "/" + Print(o.descriptor) + "/" + ConvertHostToLowerCase(url))
  }

  lemma HostHasNoMarks(hostname: string, port: string, part: string)
    requires Until(hostname, HOST_STOPS) == |hostname| && '@' !in hostname && DigitRun(port) == |port| && part != "" && part[0] == '/'
    ensures NoAtFrom(hostname + ":" + port + part, 1)
  {
    var host := hostname + ":" + port;
    UntilMeans(hostname, HOST_STOPS);
    DigitRunMeans(port);
    assert '/' !in host && '@' !in host;
    UntilIs(host + part, "/", |host|);
    assert forall i :: 0 <= i < |host| ==> (host + part)[i] == host[i];
  }

  lemma ProxyPartsCanonical(url: string, o: Options)
    requires IsAddress(o)
    ensures var p := ProxyParts(url, o);
            Canonical(p) && IsWeb(p) && FormatUrl(p) == GetProxyUrl(url, o)
  {
    var p := ProxyParts(url, o);
    WebProtocols(ProxyProtocol(o));
    HostHasNoMarks(o.proxyHostname, o.proxyPort, p.partAfterHost);
    Assoc(o.proxyHostname, ":", o.proxyPort);
    ProxyText(p);
  }

  lemma ProxyText(p: ParsedUrl)
    requires Canonical(p) && IsWeb(p) && p.auth == ""
    ensures FormatUrl(p) == p.protocol + "//" + (p.host + p.partAfterHost)
  {
    CanonicalIsPrintable(p);
    FormatCanonical(p);
  }

  lemma WebProtocols(s: string)
    requires s in {"http:", "https:"}
    ensures IsProtocol(s) && Lower(s) == s
  {
    assert s == "http:" || s == "https:";
    WordRunIs(s, |s| - 1);
  }

  lemma PageWithHash(dest: string, page: string)
    requires '#' !in page
    ensures WithoutHash(dest) == page <==> dest == page || page + "#" <= dest
  {
    var n := Until(dest, "#");
    UntilMeans(dest, "#");
    if page + "#" <= dest {
      assert dest[|page|] == (page + "#")[|page|] && forall i :: 0 <= i < |page| ==> dest[i] == page[i];
      UntilIs(dest, "#", |page|);
    } else if dest == page {
      UntilIs(dest, "#", |page|);
    } else {
      assert n < |dest| ==> dest[..n + 1] == dest[..n] + "#";
    }
  }

  /** The special pages, with or without a hash. */
  lemma SpecialPages(dest: string)
    ensures IsSpecialPage(WithoutHash(dest))
       <==> dest in {"about:blank", "about:error"} || "about:blank#" <= dest || "about:error#" <= dest
  {
    PageWithHash(dest, "about:blank");
    PageWithHash(dest, "about:error");
    assert "about:blank" + "#" == "about:blank#" && "about:error" + "#" == "about:error#";
  }

  /** What correcting the slashes of a text without spaces leaves of it. */
  lemma CorrectedShort(w: string)
    requires NoSpaces(w) && |w| + 3 <= LIMIT
    ensures Short(CorrectSlashes(w))
  {
    if PrefixLength(w, "file:") > 0 {
      var x := DropSlashes(w, 5, 3);
      DropKeepsStart(w, 5, 3);
      assert |x| <= |w| && forall c :: c in x ==> c in w;
      assert |FixDrive(x)| <= |x| + 3 && forall c :: c in FixDrive(x) ==> c in x || c == '/';
    } else {
      PlainStays(w);
    }
  }

  lemma SlashIsNoProtocol(s: string)
    requires s != "" && s[0] == '/'
    ensures ProtocolLength(s) == 0
  {
  }

  /** Correcting the slashes of a text keeps its protocol, if it is one of those three. */
  lemma CorrectedProtocol(w: string)
    requires NoSpaces(w)
    ensures var s := CorrectSlashes(w);
            IsSupported(w) <==> Lower(s[..ProtocolLength(s)]) in {"http:", "https:", "file:"}
  {
    var s := CorrectSlashes(w);
    ProtocolPrefix(s, "file:");
    ProtocolPrefix(s, "http:");
    ProtocolPrefix(s, "https:");
    if PrefixLength(w, "file:") > 0 {
      var x := DropSlashes(w, 5, 3);
      DropKeepsStart(w, 5, 3);
      PrefixOfStart(w, x, "file:");
      DriveFixed(x);
      PrefixOfStart(x, s, "file:");
    } else {
      var from := if PrefixLength(w, "https:") > 0 then 6 else PrefixLength(w, "http:");
      DropKeepsStart(w, from, 2);
      if from > 0 {
        PrefixOfStart(w, s, if from == 6 then "https:" else "http:");
      } else if s != w {
        SlashIsNoProtocol(s);
      }
    }
  }

  lemma SupportedProtocols(dest: string)
    requires NoSpaces(dest) && |dest| + 3 <= LIMIT
    ensures IsSupported(dest) <==> Lower(ParseUrl(dest).protocol) in {"http:", "https:", "file:"}
  {
    var s := CorrectSlashes(dest);
    WithoutBreaksPlain(dest);
    CorrectedShort(dest);
    CorrectedProtocol(dest);
    TrimPlain(s);
    Pieces(s);
  }

  lemma LastPart(head: string, dest: string, all: string)
    requires all == head + dest && Short(all) && |head| >= 3
    ensures NoSpaces(dest) && |dest| + 3 <= LIMIT
  {
    forall c | c in dest ensures c in all { }
  }

  lemma DestinationLast(a: string, b: string, c: string, dest: string)
    ensures a + "//" + (b + ("/" + c + "/" + dest)) == (a + "//" + (b + ("/" + c + "/"))) + dest
  {
  }

  lemma DestinationShort(url: string, o: Options)
    requires IsAddress(o) && Short(GetProxyUrl(url, o))
    ensures NoSpaces(ConvertHostToLowerCase(url)) && |ConvertHostToLowerCase(url)| + 3 <= LIMIT
  {
    var dest, desc, address := ConvertHostToLowerCase(url), Print(o.descriptor), o.proxyHostname + ":" + o.proxyPort;
    DestinationLast(ProxyProtocol(o), address, desc, dest);
    LastPart(ProxyProtocol(o) + "//" + (address + ("/" + desc + "/")), dest, GetProxyUrl(url, o));
  }

  /** A printed proxy URL parses exactly when its destination, the given URL with the protocol and the
      host in lower case, is a special page, with or without a hash, or a URL of the protocol http:, https:
      or file:. Parsing then gives back the session, the window, the resource type, the lower case charset,
      the credentials and the origin, the address of the proxy, and the destination without the default port
      (a special page as it is). */
  lemma ProxyUrlRoundTrip(url: string, o: Options)
    requires IsAddress(o) && Plain(o.descriptor) && WithoutSlashes(o.descriptor) && Fits(o.descriptor)
    requires Short(GetProxyUrl(url, o))
    ensures var dest, d := ConvertHostToLowerCase(url), o.descriptor;
            var isPage := dest in {"about:blank", "about:error"} || "about:blank#" <= dest || "about:error#" <= dest;
            var destUrl := if isPage then dest else OmitDefaultPort(dest);
            ParseProxyUrl(GetProxyUrl(url, o))
            == if isPage || Lower(ParseUrl(dest).protocol) in {"http:", "https:", "file:"} then
                 Proxy(ProxyUrl(destUrl, if isPage then ParsedUrl("about:", "", "", "", "", "") else ParseUrl(destUrl),
                                "/" + Print(d) + "/" + dest, o.proxyHostname, o.proxyPort, d.(charset := Lower(d.charset))))
               else NotProxy
  {
    var dest, d := ConvertHostToLowerCase(url), o.descriptor;
    SpecialPages(dest);
    DestinationShort(url, o);
    SupportedProtocols(dest);
    ProxyUrlParts(url, o);
  }

  lemma ParsedPath(proxyUrl: string, p: ParsedUrl, desc: string, dest: string, d: Descriptor)
    requires ParseUrl(proxyUrl) == p && p.partAfterHost != ""
    requires MatchPath(p.partAfterHost) == if dest == "" then None else Some((desc, dest))
    requires Parse(desc) == Parsed(d)
    requires dest == "" ==> !IsSpecialPage(WithoutHash(dest)) && !IsSupported(dest)
    ensures ParseProxyUrl(proxyUrl)
         == if IsSpecialPage(WithoutHash(dest)) || IsSupported(dest)
            then Proxy(ProxyUrl(Destination(dest).0, Destination(dest).1, p.partAfterHost, p.hostname, p.port, d)) else NotProxy
  {
  }

  lemma ProxyUrlParts(url: string, o: Options)
    requires IsAddress(o) && Plain(o.descriptor) && WithoutSlashes(o.descriptor) && Fits(o.descriptor)
    requires Short(GetProxyUrl(url, o))
    ensures var dest, d := ConvertHostToLowerCase(url), o.descriptor;
            ParseProxyUrl(GetProxyUrl(url, o))
            == if IsSpecialPage(WithoutHash(dest)) || IsSupported(dest) then
                 Proxy(ProxyUrl(Destination(dest).0, Destination(dest).1, "/" + Print(d) + "/" + dest,
                                o.proxyHostname, o.proxyPort, d.(charset := Lower(d.charset))))
               else NotProxy
  {
    var dest, d, p := ConvertHostToLowerCase(url), o.descriptor, ProxyParts(url, o);
    ProxyPartsCanonical(url, o);
    ParsePrinted(p);
    PrintKeepsSlashOut(d);
    PrintNotEmpty(d);
    if dest == "" { NoDestination(Print(d)); } else { PathRoundTrip(Print(d), dest); }
    DescriptorRoundTrip(d);
    ParsedPath(GetProxyUrl(url, o), p, Print(d), dest, d.(charset := Lower(d.charset)));
  }

  lemma NoDestination(desc: string)
    requires desc != "" && '/' !in desc
    ensures MatchPath("/" + desc + "/" + "") == None
  {
    var path := "/" + desc + "/" + "";
    assert path[1..] == desc + "/";
    UntilIs(path[1..], "/", |desc|);
  }

  /** With data that do not fit the resource type the descriptor does not come back. */
  lemma MisfitIsNotReadBack(url: string, o: Options)
    requires IsAddress(o) && Plain(o.descriptor) && WithoutSlashes(o.descriptor) && !Fits(o.descriptor)
    requires Short(GetProxyUrl(url, o)) && ConvertHostToLowerCase(url) != ""
    ensures var r, d := ParseProxyUrl(GetProxyUrl(url, o)), o.descriptor;
            r.Proxy? ==> r.url.descriptor != d.(charset := Lower(d.charset))
  {
    var d := o.descriptor;
    ProxyPartsCanonical(url, o);
    ParsePrinted(ProxyParts(url, o));
    PrintKeepsSlashOut(d);
    PrintNotEmpty(d);
    PathRoundTrip(Print(d), ConvertHostToLowerCase(url));
    DescriptorRoundTrip(d);
  }

  /** A port without a host name cannot be left out: the rest is no URL of that protocol with the same rest. */
  lemma PortWithoutHost(p: ParsedUrl)
    requires p.hostname == "" && p.protocol in {"http:", "https:"} && Short(p.partAfterHost)
    ensures ParseUrl(p.partAfterHost) != WithoutPort(p)
  {
    var part := p.partAfterHost;
    WithoutBreaksPlain(part);
    WebProtocols(p.protocol);
    if PrefixLength(part, "file:") > 0 {
      FileStays(part);
    } else {
      PlainStays(part);
      TrimPlain(CorrectSlashes(part));
      Pieces(CorrectSlashes(part));
    }
  }

  lemma PlainStays(w: string)
    requires Short(w) && PrefixLength(w, "file:") == 0
    ensures Short(CorrectSlashes(w)) && |CorrectSlashes(w)| <= |w|
  {
    forall c | c in CorrectSlashes(w) ensures c in w { }
  }

  lemma FileStays(w: string)
    requires NoSpaces(w) && PrefixLength(w, "file:") > 0
    ensures Lower(ParseUrl(w).protocol) in {"", "file:"}
  {
    WithoutBreaksPlain(w);
    var x := DropSlashes(w, 5, 3);
    DropKeepsStart(w, 5, 3);
    PrefixOfStart(w, x, "file:");
    DriveFixed(x);
    PrefixOfStart(x, FixDrive(x), "file:");
    FileIsRead(FixDrive(x));
  }

  lemma FileIsRead(s: string)
    requires PrefixLength(s, "file:") > 0
    ensures Lower(ParseTrimmed(TrimLeft(s)).protocol) in {"", "file:"}
  {
    assert Lower(s[..5])[0] == 'f' && !IsSpace(s[0]);
    assert TrimLeft(s) == s;
    ProtocolPrefix(s, "file:");
    ProtocolKept(s);
  }

  lemma ProtocolKept(s: string)
    ensures ParseTrimmed(s).protocol in {"", s[..ProtocolLength(s)]}
  {
  }

  /** The parts of the destination: those of the given URL with the protocol and the host in lower case; a
      default port goes, and nothing else changes, exactly when there is a host name and what follows the
      port does not look like more of the host or another port. */
  lemma DestinationParts(url: string)
    requires var s := Processed(url); Short(s) && PrintsItself(s) && FewSlashes(s)
    requires !IsSpecialPage(WithoutHash(ConvertHostToLowerCase(url)))
    ensures var p, parts := Lowered(ParseUrl(url)), Destination(ConvertHostToLowerCase(url)).1;
            if (p.protocol, p.port) in {("http:", "80"), ("https:", "443")}
            then parts == p.(host := p.hostname, port := "") <==> p.hostname != "" && Delimited("", p.partAfterHost)
            else parts == p
  {
    var dest, p := ConvertHostToLowerCase(url), Lowered(ParseUrl(url));
    ConvertedParts(url);
    LowerTextStays(url);
    ConvertedText(url);
    if HasDefaultPort(p) {
      WebProtocols(p.protocol);
      if p.hostname != "" {
        DefaultPortOmitted(dest);
      } else {
        RestIsShort(dest);
        PortWithoutHost(p);
      }
    }
  }

  lemma RestIsShort(url: string)
    requires Short(Processed(url))
    ensures Short(ParseUrl(url).partAfterHost)
  {
    var s := Processed(url);
    TrimPlain(s);
    Pieces(s);
    var p := ParseUrl(url);
    forall c | c in p.partAfterHost ensures c in s { assert HasSlashes(s) ==> c in Tail(p); }
  }
}
