/** Converting the protocol and the host of a URL to lower case. src/utils/url.ts */
module UrlCase {
  import opened Prelude
  import opened Text
  import opened ProxyDescriptor
  import opened Urls

  // ---------------------------------------------------------------- the pieces of a text

  /** Two slashes follow the protocol. */
  predicate HasSlashes(s: string) {
    "//" <= s[ProtocolLength(s)..]
  }

  /** The parts of a text are its pieces. */
  lemma Pieces(s: string)
    requires Short(s)
    ensures var p := ParseTrimmed(s);
            && p.protocol == s[..ProtocolLength(s)] && IsProtocol(p.protocol)
            && (HasSlashes(s) ==> Parted(p) && s == p.protocol + "//" + Tail(p) && Short(Tail(p)))
            && (!HasSlashes(s) ==> p == EMPTY.(protocol := p.protocol, partAfterHost := p.partAfterHost) && s == p.protocol + p.partAfterHost)
  {
    var n := ProtocolLength(s);
    ProtocolCut(s);
    if HasSlashes(s) {
      NoSpacesSlice(s, n + 2, |s|);
      CutSlashes(s, n);
      AuthorityCuts(EMPTY.(protocol := s[..n]), s[n + 2..]);
    } else {
      NoSpacesSlice(s, n, |s|);
      NoSpacesPart(s[n..], EMPTY.(protocol := s[..n]));
    }
  }

  /** The text with its protocol and its host in lower case. */
  function LowerText(s: string): string {
    var p := ParseTrimmed(s);
    if HasSlashes(s) then Lower(p.protocol) + "//" + Tail(Lowered(p)) else Lower(p.protocol) + p.partAfterHost
  }

  /** URLs that are printed as they were written: those with a host, file URLs with two slashes, and about
      URLs and relative ones without. */
  predicate PrintsItself(s: string) {
    var p := ParseTrimmed(s);
    if HasSlashes(s) then Lower(p.protocol) != "about:" && (p.host != "" || Lower(p.protocol) == "file:")
    else Lower(p.protocol) == "about:" || p.protocol == ""
  }

  lemma TrimPlain(s: string)
    requires NoSpaces(s)
    ensures TrimLeft(s) == s
  {
    if s != "" { assert s[0] in s; }
  }

  /** What is printed for lower case parts behind two slashes. */
  lemma FormatLowered(p: ParsedUrl)
    requires Parted(p)
    ensures var tail := Tail(Lowered(p));
            FormatUrl(LowerHost(p)) == if Lower(p.protocol) == "about:" then "about:" + tail
                                       else if p.host == "" && Lower(p.protocol) != "file:" then p.partAfterHost
                                       else Lower(p.protocol) + "//" + tail
  {
    var protocol, host, part := Lower(p.protocol), Lower(p.host), p.partAfterHost;
    assert p.host == "" ==> p.hostname == "";
    var start := protocol + if protocol != "about:" then "//" else "";
    assert protocol == "about:" ==> start == "about:";
    if p.auth != "" {
      Assoc(start, p.auth + "@", host);
      Assoc(start, p.auth + "@" + host, part);
      Assoc(p.auth + "@", host, part);
    } else {
      assert start + "" == start;
      Assoc(start, host, part);
    }
  }

  lemma TextWithSlashes(p: ParsedUrl)
    requires Parted(p)
    ensures FormatUrl(LowerHost(p)) == Lower(p.protocol) + "//" + Tail(Lowered(p))
       <==> Lower(p.protocol) != "about:" && (p.host != "" || Lower(p.protocol) == "file:")
  {
    FormatLowered(p);
    assert |Tail(Lowered(p))| >= |p.partAfterHost|;
  }

  lemma TextWithoutSlashes(p: ParsedUrl)
    requires p == EMPTY.(protocol := p.protocol, partAfterHost := p.partAfterHost)
    ensures FormatUrl(LowerHost(p)) == Lower(p.protocol) + p.partAfterHost <==> Lower(p.protocol) == "about:" || p.protocol == ""
  {
    assert Lower(p.protocol) == "" <==> p.protocol == "";
    assert "about:" + "" + "" + "" == "about:";
  }

  /** Converting a URL to lower case changes the case of its protocol and host and nothing else, exactly when
      the URL is one that is printed as it was written. */
  lemma ConvertedText(url: string)
    requires Short(Processed(url))
    ensures ConvertHostToLowerCase(url) == LowerText(Processed(url)) <==> PrintsItself(Processed(url))
  {
    var s := Processed(url);
    TrimPlain(s);
    Pieces(s);
    if HasSlashes(s) { TextWithSlashes(ParseTrimmed(s)); } else { TextWithoutSlashes(ParseTrimmed(s)); }
  }

  // ---------------------------------------------------------------- texts of one shape

  /** The second text has some letters of the first in lower case. */
  predicate SameShape(a: string, b: string) {
    |a| == |b| && forall i :: 0 <= i < |a| ==> b[i] == a[i] || b[i] == LowerChar(a[i])
  }

  lemma ShapeConcat(a: string, b: string, c: string, d: string)
    requires SameShape(a, b) && SameShape(c, d)
    ensures SameShape(a + c, b + d)
  {
  }

  lemma ShapeAt(a: string, b: string, i: nat)
    requires SameShape(a, b) && i < |a|
    ensures IsLetter(b[i]) == IsLetter(a[i]) && IsWordChar(b[i]) == IsWordChar(a[i]) && IsSpace(b[i]) == IsSpace(a[i])
    ensures (b[i] == ':' <==> a[i] == ':') && (b[i] == '/' <==> a[i] == '/')
  {
    LowerChars(a[i]);
  }

  lemma LowerTextShape(s: string)
    requires Short(s)
    ensures SameShape(s, LowerText(s)) && Short(LowerText(s))
  {
    Pieces(s);
    var p := ParseTrimmed(s);
    if HasSlashes(s) {
      ShapeConcat(p.protocol, Lower(p.protocol), "//", "//");
      ShapeConcat(p.host, Lower(p.host), p.partAfterHost, p.partAfterHost);
      if p.auth != "" { ShapeConcat(p.auth + "@", p.auth + "@", p.host + p.partAfterHost, Lower(p.host) + p.partAfterHost); }
      ShapeConcat(p.protocol + "//", Lower(p.protocol) + "//", Tail(p), Tail(Lowered(p)));
    } else {
      ShapeConcat(p.protocol, Lower(p.protocol), p.partAfterHost, p.partAfterHost);
    }
    forall c | c in LowerText(s) ensures !IsSpace(c) {
      var i :| 0 <= i < |s| && LowerText(s)[i] == c;
      ShapeAt(s, LowerText(s), i);
      assert s[i] in s;
    }
  }

  lemma {:induction false} SlashesMean(s: string)
    ensures forall i :: 0 <= i < Slashes(s) ==> s[i] == '/'
    ensures Slashes(s) < |s| ==> s[Slashes(s)] != '/'
  {
    if s != "" && s[0] == '/' {
      SlashesMean(s[1..]);
      assert forall i :: 1 <= i < |s| ==> s[i] == s[1..][i - 1];
    }
  }

  lemma SlashesAre(s: string, n: nat)
    requires n <= |s| && (forall i :: 0 <= i < n ==> s[i] == '/') && (n < |s| ==> s[n] != '/')
    ensures Slashes(s) == n
  {
    SlashesMean(s);
  }

  lemma ShapeSlashes(a: string, b: string, from: nat)
    requires SameShape(a, b) && from <= |a|
    ensures Slashes(b[from..]) == Slashes(a[from..])
  {
    var n := Slashes(a[from..]);
    SlashesMean(a[from..]);
    forall i | 0 <= i < |a| - from ensures b[from..][i] == '/' <==> a[from..][i] == '/' { ShapeAt(a, b, from + i); }
    SlashesAre(b[from..], n);
  }

  // ---------------------------------------------------------------- texts that are processed already

  /** A drive letter follows the slashes of a file URL. */
  predicate DriveAt(s: string, from: nat)
    requires from <= |s|
  {
    var k := from + Slashes(s[from..]);
    k + 1 < |s| && IsLetter(s[k]) && s[k + 1] == ':'
  }

  lemma ShapeDrive(a: string, b: string, from: nat)
    requires SameShape(a, b) && from <= |a|
    ensures DriveAt(b, from) == DriveAt(a, from)
  {
    ShapeSlashes(a, b, from);
    var k := from + Slashes(a[from..]);
    if k + 1 < |a| {
      ShapeAt(a, b, k);
      ShapeAt(a, b, k + 1);
    }
  }

  /** A file URL that processing leaves alone. */
  predicate SteadyFile(s: string) {
    |s| >= 5 && Slashes(s[5..]) <= 3 && (DriveAt(s, 5) ==> Slashes(s[5..]) == 3)
  }

  lemma SteadyFileStays(s: string)
    requires PrefixLength(s, "file:") > 0 && SteadyFile(s)
    ensures CorrectSlashes(s) == s
  {
    NothingToDrop(s, 5, 3);
    SlashesMean(s[5..]);
    if DriveAt(s, 5) {
      assert s[5..8] == "///" && s == s[..5] + s[5..8] + s[8..];
    }
  }

  /** A drive letter gets three slashes. */
  lemma DriveFixed(x: string)
    requires PrefixLength(x, "file:") > 0
    ensures var s := FixDrive(x); |s| >= 5 && s[..5] == x[..5] && (DriveAt(s, 5) ==> Slashes(s[5..]) == 3)
  {
    var k := 5 + Slashes(x[5..]);
    if k + 1 < |x| && IsLetter(x[k]) && x[k + 1] == ':' {
      var s := FixDrive(x);
      assert s == x[..5] + "///" + x[k..] && s[5..] == "///" + x[k..];
      SlashesAre(s[5..], 3);
    }
  }

  lemma DropKeepsStart(s: string, from: nat, keep: nat)
    requires from <= |s|
    ensures |DropSlashes(s, from, keep)| >= from && DropSlashes(s, from, keep)[..from] == s[..from]
    ensures DropSlashes(s, from, keep) != s && keep > 0 ==> |DropSlashes(s, from, keep)| > from && DropSlashes(s, from, keep)[from] == '/'
  {
    SlashesMean(s[from..]);
    var n := Slashes(s[from..]);
    var drop: nat := if n <= keep then 0 else if n - keep <= 100 then n - keep else 100;
    if DropSlashes(s, from, keep) != s && keep > 0 {
      assert s[from..][drop] == s[from + drop];
      assert DropSlashes(s, from, keep) == s[..from] + s[from + drop..];
    }
  }

  lemma PrefixOfStart(s: string, t: string, prefix: string)
    requires |s| >= |prefix| && |t| >= |prefix| && s[..|prefix|] == t[..|prefix|]
    ensures PrefixLength(s, prefix) == PrefixLength(t, prefix)
  {
  }

  lemma OtherStays(w: string)
    requires PrefixLength(w, "file:") == 0
    ensures PrefixLength(CorrectSlashes(w), "file:") == 0
  {
    var s := CorrectSlashes(w);
    var from := if PrefixLength(w, "https:") > 0 then 6 else PrefixLength(w, "http:");
    DropKeepsStart(w, from, 2);
    if from > 0 {
      assert s[..5] == s[..from][..5] && w[..5] == w[..from][..5];
      PrefixOfStart(s, w, "file:");
    } else if s != w && |s| >= 5 {
      assert Lower(s[..5])[0] == '/';
    }
  }

  /** A processed file URL was one before, and a drive letter has three slashes in it. */
  lemma ProcessedFile(w: string)
    requires PrefixLength(CorrectSlashes(w), "file:") > 0
    ensures var s := CorrectSlashes(w); |s| >= 5 && (DriveAt(s, 5) ==> Slashes(s[5..]) == 3)
  {
    if PrefixLength(w, "file:") > 0 {
      DropKeepsStart(w, 5, 3);
      PrefixOfStart(w, DropSlashes(w, 5, 3), "file:");
      DriveFixed(DropSlashes(w, 5, 3));
    } else {
      OtherStays(w);
    }
  }

  // ---------------------------------------------------------------- the parts

  /** No more slashes follow `file:` than processing leaves there. */
  predicate FewSlashes(s: string) {
    PrefixLength(s, "file:") > 0 ==> Slashes(s[5..]) <= 3
  }

  lemma ProtocolPrefix(s: string, prefix: string)
    requires prefix in {"file:", "http:", "https:", "about:"}
    ensures PrefixLength(s, prefix) > 0 <==> Lower(s[..ProtocolLength(s)]) == prefix
  {
    var n := |prefix| - 1;
    if PrefixLength(s, prefix) > 0 {
      forall i | 0 <= i < n ensures IsWordChar(s[i]) {
        assert Lower(s[..n + 1])[i] == prefix[i];
        LowerChars(s[i]);
      }
      assert Lower(s[..n + 1])[n] == ':';
      LowerChars(s[n]);
      WordRunIs(s, n);
    }
  }

  lemma SteadyWithSlashes(s: string)
    requires Short(s) && HasSlashes(s) && PrintsItself(s) && PrefixLength(s, "file:") == 0
    ensures CorrectSlashes(LowerText(s)) == LowerText(s)
  {
    Pieces(s);
    var p := ParseTrimmed(s);
    ProtocolPrefix(s, "file:");
    LowerProtocol(p.protocol);
    LowerHostText(p);
    UntilMeans(p.hostname, HOST_STOPS);
    assert p.hostname != "" ==> p.host[0] == p.hostname[0];
    LowerChars(p.host[0]);
    assert Lower(p.host)[0] != '/';
    assert p.auth != "" ==> Tail(Lowered(p))[0] == p.auth[0];
    SlashesCorrect(Lower(p.protocol), Tail(Lowered(p)));
  }

  lemma AboutProtocol(part: string)
    ensures ProtocolLength("about:" + part) == 6 && Lower("about:") == "about:" && ("about:" + part)[..6] == "about:"
  {
    WordRunIs("about:" + part, 5);
  }

  lemma SteadyAbout(part: string)
    ensures CorrectSlashes("about:" + part) == "about:" + part
  {
    var t := "about:" + part;
    AboutProtocol(part);
    ProtocolPrefix(t, "file:");
    ProtocolPrefix(t, "http:");
    ProtocolPrefix(t, "https:");
    assert t[0..] == t && t[0] == 'a';
    NothingToDrop(t, 0, 2);
  }

  lemma TwoSlashes(s: string)
    ensures Slashes(s) > 1 ==> "//" <= s
  {
    SlashesMean(s);
  }

  lemma SteadyRelative(s: string)
    requires ProtocolLength(s) == 0 && !HasSlashes(s)
    ensures CorrectSlashes(s) == s
  {
    ProtocolPrefix(s, "file:");
    ProtocolPrefix(s, "http:");
    ProtocolPrefix(s, "https:");
    assert s[0..] == s && Lower(s[..0]) == "";
    TwoSlashes(s);
    NothingToDrop(s, 0, 2);
  }

  lemma SteadyWithoutSlashes(s: string)
    requires Short(s) && !HasSlashes(s) && PrintsItself(s)
    ensures CorrectSlashes(LowerText(s)) == LowerText(s)
  {
    Pieces(s);
    var p := ParseTrimmed(s);
    if p.protocol == "" {
      assert LowerText(s) == "" + p.partAfterHost == s;
      SteadyRelative(s);
    } else {
      SteadyAbout(p.partAfterHost);
    }
  }

  lemma SteadyFileText(w: string)
    requires var s := CorrectSlashes(w); Short(s) && PrefixLength(s, "file:") > 0 && FewSlashes(s)
    ensures CorrectSlashes(LowerText(CorrectSlashes(w))) == LowerText(CorrectSlashes(w))
  {
    var s := CorrectSlashes(w);
    var t := LowerText(s);
    LowerTextShape(s);
    ProcessedFile(w);
    ShapeSlashes(s, t, 5);
    ShapeDrive(s, t, 5);
    LowerPrefix(s, t, "file:");
    SteadyFileStays(t);
  }

  lemma LowerPrefix(a: string, b: string, prefix: string)
    requires SameShape(a, b)
    ensures PrefixLength(b, prefix) == PrefixLength(a, prefix)
  {
    forall i | 0 <= i < |a| ensures LowerChar(b[i]) == LowerChar(a[i]) { LowerChars(a[i]); }
    if |prefix| <= |a| { assert Lower(b[..|prefix|]) == Lower(a[..|prefix|]); }
  }

  /** A URL in lower case is left alone by another round of processing. */
  lemma LowerTextStays(url: string)
    requires var s := Processed(url); Short(s) && PrintsItself(s) && FewSlashes(s)
    ensures Processed(LowerText(Processed(url))) == LowerText(Processed(url)) && Short(LowerText(Processed(url)))
  {
    var s := Processed(url);
    LowerTextShape(s);
    WithoutBreaksPlain(LowerText(s));
    if PrefixLength(s, "file:") > 0 {
      SteadyFileText(WithoutBreaks(url));
    } else if HasSlashes(s) {
      SteadyWithSlashes(s);
    } else {
      SteadyWithoutSlashes(s);
    }
  }

  lemma ParseLowerText(s: string)
    requires Short(s) && PrintsItself(s)
    ensures ParseTrimmed(LowerText(s)) == Lowered(ParseTrimmed(s))
  {
    Pieces(s);
    LowerTextShape(s);
    var p, q := ParseTrimmed(s), Lowered(ParseTrimmed(s));
    if HasSlashes(s) {
      LoweredIsCanonical(p);
      ParseTrimmedAt(q.protocol, Tail(q));
      forall c | c in Tail(q) ensures c in LowerText(s) { }
      ParseAuthorityCanonical(EMPTY.(protocol := q.protocol), q);
    } else if p.protocol == "" {
      assert LowerText(s) == "" + p.partAfterHost == s;
      assert q == p;
    } else {
      var part := p.partAfterHost;
      AboutProtocol(part);
      assert part == s[|p.protocol|..] && ("about:" + part)[6..] == part;
      forall c | c in part ensures c in s { }
      NoSpacesPart(part, EMPTY.(protocol := "about:"));
    }
  }

  /** What dropping slashes leaves of a file URL that has more than three. */
  lemma SlashesDropped(t: string)
    requires NoSpaces(t) && PrefixLength(t, "file:") > 0 && Slashes(t[5..]) > 3
    ensures var x := DropSlashes(t, 5, 3);
            |x| < |t| && NoSpaces(x) && PrefixLength(x, "file:") > 0 && Slashes(x[5..]) >= 3
  {
    var n := Slashes(t[5..]);
    var drop := if n - 3 <= 100 then n - 3 else 100;
    NoSpacesSlice(t, 5 + drop + 3, |t|);
    WithoutBreaksPlain(t[5 + drop + 3..]);
    var x := DropSlashes(t, 5, 3);
    assert x == t[..5] + t[5 + drop..] && x[5..] == t[5..][drop..];
    SlashesMean(t[5..]);
    SlashesAre(x[5..], n - drop);
    PrefixOfStart(t, x, "file:");
    forall c | c in x ensures c in t { }
  }

  lemma DriveShortens(x: string)
    requires NoSpaces(x) && PrefixLength(x, "file:") > 0 && Slashes(x[5..]) >= 3
    ensures var s := FixDrive(x); |s| <= |x| && NoSpaces(s) && HasSlashes(s)
  {
    var s, k := FixDrive(x), 5 + Slashes(x[5..]);
    TwoSlashes(x[5..]);
    if k + 1 < |x| && IsLetter(x[k]) && x[k + 1] == ':' {
      assert s == x[..5] + "///" + x[k..];
      forall c | c in s ensures c in x || c == '/' { }
      assert s[5..] == "///" + x[k..];
    }
    PrefixOfStart(x, s, "file:");
    FileProtocol(s);
    assert s[5..][..2] == "//";
  }

  lemma FileProtocol(s: string)
    requires PrefixLength(s, "file:") > 0
    ensures ProtocolLength(s) == 5
  {
    ProtocolPrefix(s, "file:");
    assert |Lower(s[..ProtocolLength(s)])| == 5;
  }

  /** Processing shortens such a file URL. */
  lemma ManySlashesDropped(t: string)
    requires Short(t) && PrefixLength(t, "file:") > 0 && Slashes(t[5..]) > 3
    ensures |Processed(t)| < |t| && Short(Processed(t)) && HasSlashes(Processed(t))
  {
    WithoutBreaksPlain(t);
    SlashesDropped(t);
    DriveShortens(DropSlashes(t, 5, 3));
  }

  lemma ManySlashesLost(t: string, q: ParsedUrl)
    requires Short(t) && PrefixLength(t, "file:") > 0 && Slashes(t[5..]) > 3
    requires t == q.protocol + "//" + Tail(q)
    ensures ParseUrl(t) != q
  {
    ManySlashesDropped(t);
    TrimPlain(Processed(t));
    Pieces(Processed(t));
  }

  /** Converting a URL that is printed as it was written changes the case of the protocol and the host among
      its parts, and nothing else, exactly when processing once more has no slashes to drop. */
  lemma ConvertedParts(url: string)
    requires var s := Processed(url); Short(s) && PrintsItself(s)
    ensures ParseUrl(ConvertHostToLowerCase(url)) == Lowered(ParseUrl(url)) <==> FewSlashes(Processed(url))
  {
    var s := Processed(url);
    var t := LowerText(s);
    ConvertedText(url);
    TrimPlain(s);
    if FewSlashes(s) {
      LowerTextStays(url);
      TrimPlain(t);
      ParseLowerText(s);
    } else {
      LowerTextShape(s);
      LowerPrefix(s, t, "file:");
      ShapeSlashes(s, t, 5);
      FileHasSlashes(s);
      ManySlashesLost(t, Lowered(ParseTrimmed(s)));
    }
  }

  lemma FileHasSlashes(s: string)
    requires PrefixLength(s, "file:") > 0 && Slashes(s[5..]) > 3
    ensures HasSlashes(s)
  {
    FileProtocol(s);
    TwoSlashes(s[5..]);
  }
}
