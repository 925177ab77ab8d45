/** The request descriptor inside a proxy URL: what kind of request it is, and with what data.
    src/utils/url.ts */
module ProxyDescriptor {
  import opened Prelude
  import opened Text
  import opened Numbers
  import Percent

  // ---------------------------------------------------------------- resource types

  /** The flags in the order of RESOURCE_TYPES: iframe, form, script, event source, HTML import, web
      socket, service worker, ajax, object. */
  const FLAGS := "ifsehwcao"

  /** The properties that are set, as their flags. */
  type ResourceType = set<char>

  function FlagsIn(resourceType: string, n: nat): ResourceType
    requires n <= |FLAGS|
  {
    set c | c in FLAGS[..n] && c in resourceType
  }

  function ParseType(resourceType: string): ResourceType {
    FlagsIn(resourceType, |FLAGS|)
  }

  /** The flags of the properties that are set, in order; none gives null, here "". */
  function TypeString(t: ResourceType, n: nat): string
    requires n <= |FLAGS|
  {
    if n == 0 then "" else TypeString(t, n - 1) + if FLAGS[n - 1] in t then [FLAGS[n - 1]] else ""
  }

  method ParseResourceType(resourceType: string) returns (parsed: ResourceType)
    ensures parsed == ParseType(resourceType)
  {
    parsed := {};
    if resourceType == "" {
      return;
    }
    var i := 0;
    while i < |FLAGS|
      invariant 0 <= i <= |FLAGS| && parsed == FlagsIn(resourceType, i)
    {
      assert FLAGS[..i + 1] == FLAGS[..i] + [FLAGS[i]];
      if FLAGS[i] in resourceType {
        parsed := parsed + {FLAGS[i]};
      }
      i := i + 1;
    }
    assert FLAGS[..i] == FLAGS;
  }

  method GetResourceTypeString(parsedResourceType: ResourceType) returns (resourceType: string)
    ensures resourceType == TypeString(parsedResourceType, |FLAGS|)
  {
    resourceType := "";
    var i := 0;
    while i < |FLAGS|
      invariant 0 <= i <= |FLAGS| && resourceType == TypeString(parsedResourceType, i)
    {
      if FLAGS[i] in parsedResourceType {
        resourceType := resourceType + [FLAGS[i]];
      }
      i := i + 1;
    }
  }

  lemma {:induction false} TypeStringHas(t: ResourceType, n: nat, c: char)
    requires n <= |FLAGS|
    ensures c in TypeString(t, n) <==> c in FLAGS[..n] && c in t
  {
    if n == 0 {
      assert FLAGS[..0] == "";
    } else {
      TypeStringHas(t, n - 1, c);
      assert FLAGS[..n] == FLAGS[..n - 1] + [FLAGS[n - 1]];
    }
  }

  /** Printing a resource type and reading it gives the same properties; only the empty one prints
      as null. */
  lemma TypeRoundTrip(t: ResourceType)
    requires forall c :: c in t ==> c in FLAGS
    ensures ParseType(TypeString(t, |FLAGS|)) == t
    ensures TypeString(t, |FLAGS|) == "" <==> t == {}
  {
    assert FLAGS[..|FLAGS|] == FLAGS;
    forall c ensures c in ParseType(TypeString(t, |FLAGS|)) <==> c in t {
      TypeStringHas(t, |FLAGS|, c);
    }
    EmptyType();
    if TypeString(t, |FLAGS|) != "" {
      assert TypeString(t, |FLAGS|)[0] in TypeString(t, |FLAGS|);
      TypeStringHas(t, |FLAGS|, TypeString(t, |FLAGS|)[0]);
    }
  }

  lemma EmptyType()
    ensures ParseType("") == {}
  {
    forall c ensures c !in ParseType("") { }
  }

  /** Each of the flags is read wherever it stands. */
  lemma TypeHas(s: string, c: char)
    ensures c in ParseType(s) <==> c in "ifsehwcao" && c in s
  {
    assert FLAGS[..|FLAGS|] == "ifsehwcao";
  }

  /** The text has the flags of the type among the first n, at growing places of the list. */
  ghost predicate Spells(flags: string, n: nat, t: ResourceType, text: string, at: seq<nat>)
    requires n <= |flags|
  {
    && |at| == |text|
    && (forall k :: 0 <= k < |at| ==> at[k] < n && flags[at[k]] in t && text[k] == flags[at[k]])
    && (forall k, l :: 0 <= k < l < |at| ==> at[k] < at[l])
    && (forall i :: 0 <= i < n && flags[i] in t ==> i in at)
  }

  lemma SpellsNext(flags: string, n: nat, t: ResourceType, text: string, at: seq<nat>)
    requires n < |flags| && Spells(flags, n, t, text, at)
    ensures if flags[n] in t then Spells(flags, n + 1, t, text + [flags[n]], at + [n]) else Spells(flags, n + 1, t, text, at)
  {
    if flags[n] in t {
      forall i | 0 <= i <= n && flags[i] in t ensures i in at + [n] { assert i < n ==> i in at; }
    }
  }

  /** A resource type is printed as its flags in the order i, f, s, e, h, w, c, a and o. */
  lemma {:induction false} TypeInOrder(t: ResourceType, n: nat) returns (at: seq<nat>)
    requires n <= 9
    ensures FLAGS == "ifsehwcao" && Spells(FLAGS, n, t, TypeString(t, n), at)
  {
    if n == 0 {
      at := [];
    } else {
      var before := TypeInOrder(t, n - 1);
      SpellsNext(FLAGS, n - 1, t, TypeString(t, n - 1), before);
      assert TypeString(t, n - 1) + "" == TypeString(t, n - 1);
      at := if FLAGS[n - 1] in t then before + [n - 1] else before;
    }
  }

  // ---------------------------------------------------------------- origins

  const HTTP := "http://"
  const HTTPS := "https://"

  function MakeShortOrigin(origin: string): string {
    if origin == "null" then ""
    else if HTTP <= origin then origin[|HTTP|..]
    else if HTTPS <= origin then "s*" + origin[|HTTPS|..]
    else origin
  }

  function RestoreShortOrigin(origin: string): string {
    if origin == "" then "null"
    else if "s*" <= origin then HTTPS + origin[2..]
    else HTTP + origin
  }

  /** An origin that comes back: null, a secure one, or another one that does not look shortened. */
  predicate Restorable(origin: string) {
    || origin == "null"
    || HTTPS <= origin
    || (HTTP <= origin && origin != HTTP && !("s*" <= origin[|HTTP|..]))
  }

  lemma PrefixSplit(s: string, prefix: string)
    requires prefix <= s
    ensures s == prefix + s[|prefix|..]
  {
  }

  lemma ShortSecure(rest: string)
    ensures MakeShortOrigin(HTTPS + rest) == "s*" + rest && RestoreShortOrigin("s*" + rest) == HTTPS + rest
  {
    var o := HTTPS + rest;
    assert o[4] == 's' && o[|HTTPS|..] == rest && ("s*" + rest)[2..] == rest;
  }

  lemma ShortPlain(rest: string)
    ensures MakeShortOrigin(HTTP + rest) == rest
    ensures RestoreShortOrigin(rest) == HTTP + rest <==> rest != "" && !("s*" <= rest)
  {
    var o := HTTP + rest;
    assert o[4] == ':' && o[|HTTP|..] == rest;
    if "s*" <= rest { assert RestoreShortOrigin(rest)[4] == 's'; }
    if rest == "" { assert RestoreShortOrigin(rest)[0] == 'n'; }
  }

  /** Restoring undoes shortening exactly on the restorable origins. */
  lemma ShortOriginRoundTrip(origin: string)
    ensures RestoreShortOrigin(MakeShortOrigin(origin)) == origin <==> Restorable(origin)
  {
    if origin == "null" {
    } else if HTTPS <= origin {
      PrefixSplit(origin, HTTPS);
      ShortSecure(origin[|HTTPS|..]);
    } else if HTTP <= origin {
      PrefixSplit(origin, HTTP);
      ShortPlain(origin[|HTTP|..]);
    } else {
      NotRestored(origin);
    }
  }

  lemma NotRestored(origin: string)
    requires origin != "null" && !(HTTPS <= origin) && !(HTTP <= origin)
    ensures MakeShortOrigin(origin) == origin && RestoreShortOrigin(origin) != origin
  {
    if "s*" <= origin {
      PrefixOf(HTTPS, origin[2..]);
    } else {
      PrefixOf(HTTP, origin);
    }
  }

  lemma PrefixOf(prefix: string, rest: string)
    ensures prefix <= prefix + rest
  {
  }

  // ---------------------------------------------------------------- descriptors

  /** A number field: absent, a number, or NaN. */
  datatype Number = Absent | Int(n: int) | NaN

  /** The fields; "" stands for an absent one. */
  datatype Descriptor = Descriptor(sessionId: string, windowId: string, resourceType: string, charset: string,
                                   credentials: Number, reqOrigin: string)

  function SessionInfo(d: Descriptor): string {
    Join([d.sessionId] + (if d.windowId != "" then [d.windowId] else []), "*")
  }

  function NumberText(n: Number): string {
    match n
    case Absent => ""
    case Int(n) => IntText(n, 10)
    case NaN => "NaN"
  }

  /** What follows the resource type. */
  function Data(d: Descriptor): seq<string> {
    (if d.charset != "" then [Lower(d.charset)] else [])
    + (if !d.credentials.Absent? then [NumberText(d.credentials)] else [])
    + (if d.reqOrigin != "" then [Percent.Encode(MakeShortOrigin(d.reqOrigin))] else [])
  }

  function Params(d: Descriptor): seq<string> {
    [SessionInfo(d)] + (if d.resourceType != "" then [d.resourceType] else []) + Data(d)
  }

  function Print(d: Descriptor): string {
    Join(Params(d), "!")
  }

  function ReadNumber(s: string): Number {
    match ParseInt(s, 10)
    case Some(n) => Int(n)
    case None => NaN
  }

  /** A descriptor, null, or the exception of decodeURIComponent. */
  datatype Parsed = Parsed(descriptor: Descriptor) | Null | UriError

  function WithOrigin(d: Descriptor, text: string): Parsed {
    match Percent.Decode(RestoreShortOrigin(text))
    case Some(origin) => Parsed(d.(reqOrigin := origin))
    case None => UriError
  }

  /** What the data after the resource type mean. */
  function ParseData(d: Descriptor, t: ResourceType, data: seq<string>): Parsed
    requires data != []
  {
    if 's' in t || 'c' in t then Parsed(d.(charset := data[0]))
    else if 'w' in t then WithOrigin(d, data[0])
    else if 'i' in t && data[0] != "" then WithOrigin(d, data[0])
    else if 'a' in t then
      var d' := d.(credentials := ReadNumber(data[0]));
      if |data| == 2 then WithOrigin(d', data[1]) else Parsed(d')
    else Parsed(d)
  }

  /** parseRequestDescriptor after the split. */
  function ParseParams(params: seq<string>): Parsed
    requires params != []
  {
    if params[0] == "" then Null else
    var session := Split(params[0], '*');
    var resourceType := if |params| > 1 then params[1] else "";
    var d := Descriptor(session[0], if |session| > 1 then session[1] else "", resourceType, "", Absent, "");
    if resourceType != "" && |params| > 2 then ParseData(d, ParseType(resourceType), params[2..]) else Parsed(d)
  }

  function Parse(desc: string): Parsed {
    ParseParams(Split(desc, '!'))
  }

  // ---------------------------------------------------------------- round trip

  /** The data that a request of the type can carry. */
  predicate Fits(d: Descriptor) {
    var t := ParseType(d.resourceType);
    if 's' in t || 'c' in t then d.credentials.Absent? && d.reqOrigin == ""
    else if 'w' in t then d.charset == "" && d.credentials.Absent?
    else if 'i' in t then d.charset == "" && d.credentials.Absent? && d.reqOrigin != "null"
    else if 'a' in t then d.charset == "" && (d.reqOrigin != "" ==> !d.credentials.Absent?)
    else d.charset == "" && d.credentials.Absent? && d.reqOrigin == ""
  }

  /** Fields without the separators, and an origin that can be shortened. */
  predicate Plain(d: Descriptor) {
    && d.sessionId != "" && '!' !in d.sessionId && '*' !in d.sessionId
    && '!' !in d.windowId && '*' !in d.windowId
    && '!' !in d.resourceType && '!' !in d.charset && '!' !in d.reqOrigin
    && (d.reqOrigin != "" ==> Restorable(d.reqOrigin))
  }

  lemma DecodeFirst(c: char, s: string)
    requires c != '%' && Percent.Decode(s).Some?
    ensures Percent.Decode([c] + s) == Some([c] + Percent.Decode(s).value)
  {
    assert ([c] + s)[1..] == s;
  }

  lemma {:induction false} DecodePlain(prefix: string, s: string)
    requires '%' !in prefix && Percent.Decode(s).Some?
    ensures Percent.Decode(prefix + s) == Some(prefix + Percent.Decode(s).value)
  {
    var t := Percent.Decode(s).value;
    if prefix == "" {
      assert prefix + s == s && prefix + t == t;
    } else {
      DecodePlain(prefix[1..], s);
      DecodeFirst(prefix[0], prefix[1..] + s);
      Regroup(prefix, s);
      Regroup(prefix, t);
    }
  }

  lemma Regroup(prefix: string, s: string)
    requires prefix != ""
    ensures prefix + s == [prefix[0]] + (prefix[1..] + s)
  {
  }

  lemma EncodeFirst(c: char, rest: string)
    ensures Percent.Encode([c] + rest) == Percent.EncodeChar(c) + Percent.Encode(rest)
  {
    assert ([c] + rest)[1..] == rest;
  }

  lemma EncodeSecure(rest: string)
    ensures Percent.Encode("s*" + rest) == "s*" + Percent.Encode(rest)
  {
    EncodeFirst('*', rest);
    EncodeFirst('s', ['*'] + rest);
    TwoChars('s', '*', rest);
    TwoChars('s', '*', Percent.Encode(rest));
  }

  lemma TwoChars(a: char, b: char, rest: string)
    ensures [a] + ([b] + rest) == [a, b] + rest
  {
  }

  lemma EncodedHead(s: string)
    requires s != ""
    ensures Percent.Encode(s) != "" && (Percent.Encode(s)[0] == s[0] || Percent.Encode(s)[0] == '%')
    ensures Percent.Encode(s)[0] == s[0] && s[0] != '%' ==> Percent.Encode(s) == [s[0]] + Percent.Encode(s[1..])
  {
    if !Percent.IsUnreserved(s[0]) { assert Percent.EncodeChar(s[0])[0] == '%'; }
  }

  lemma EncodeNotSecure(s: string)
    requires "s*" <= Percent.Encode(s)
    ensures "s*" <= s
  {
    var t := Percent.Encode(s);
    assert s != "" && t[0] == 's' && t[1] == '*';
    EncodedHead(s);
    var rest := Percent.Encode(s[1..]);
    assert t == ['s'] + rest;
    assert rest[0] == t[1];
    assert s[1..] != "";
    EncodedHead(s[1..]);
    assert s[1..][0] == s[1];
  }

  /** An origin is read back from its text. */
  lemma OriginRoundTrip(d: Descriptor, origin: string)
    requires Restorable(origin)
    ensures WithOrigin(d, Percent.Encode(MakeShortOrigin(origin))) == Parsed(d.(reqOrigin := origin))
  {
    if origin == "null" {
      DecodePlain("null", "");
      assert "null" + "" == "null" && Percent.Encode("") == "";
    } else if HTTPS <= origin {
      var rest := origin[|HTTPS|..];
      PrefixSplit(origin, HTTPS);
      ShortSecure(rest);
      EncodeSecure(rest);
      ShortSecure(Percent.Encode(rest));
      Percent.RoundTrip(rest);
      DecodePlain(HTTPS, Percent.Encode(rest));
    } else {
      var rest := origin[|HTTP|..];
      PrefixSplit(origin, HTTP);
      ShortPlain(rest);
      EncodedHead(rest);
      if "s*" <= Percent.Encode(rest) { EncodeNotSecure(rest); }
      ShortPlain(Percent.Encode(rest));
      Percent.RoundTrip(rest);
      DecodePlain(HTTP, Percent.Encode(rest));
    }
  }

  lemma {:induction false} EncodeKeepsOut(s: string, c: char)
    requires c !in s && c != '%' && !('0' <= c <= '9' || 'A' <= c <= 'F')
    ensures c !in Percent.Encode(s)
  {
    if s != "" {
      EncodeKeepsOut(s[1..], c);
      Percent.EscapesPlain(Percent.Utf8(s[0]));
    }
  }

  lemma ShortKeepsOut(origin: string)
    requires '!' !in origin
    ensures '!' !in Percent.Encode(MakeShortOrigin(origin))
  {
    EncodeKeepsOut(MakeShortOrigin(origin), '!');
  }

  lemma LowerKeepsOut(s: string)
    requires '!' !in s
    ensures '!' !in Lower(s)
  {
  }

  lemma IntTextPlain(n: int)
    ensures '!' !in IntText(n, 10)
  {
    var m := if n < 0 then -n else n;
    NumeralRoundTrip(m, 10);
    var s := Numeral(m, 10);
    forall k | 0 <= k < |s| ensures s[k] != '!' { assert IsDigitChar(s[k], 10); }
  }

  lemma NaNText()
    ensures ReadNumber("NaN") == NaN
  {
    assert !(0 <= DigitValue('N') < 10) && TrimLeft("NaN") == "NaN";
  }

  lemma NumberTextPlain(n: Number)
    ensures '!' !in NumberText(n) && (!n.Absent? ==> ReadNumber(NumberText(n)) == n)
    ensures !n.Absent? ==> NumberText(n) != ""
  {
    match n
    case Absent =>
    case NaN => NaNText();
    case Int(i) => IntRoundTrip(i, 10); IntTextPlain(i);
  }

  lemma ParamsPlain(d: Descriptor)
    requires Plain(d)
    ensures forall i :: 0 <= i < |Params(d)| ==> '!' !in Params(d)[i]
  {
    ShortKeepsOut(d.reqOrigin);
    LowerKeepsOut(d.charset);
    NumberTextPlain(d.credentials);
    JoinWithout([d.sessionId] + (if d.windowId != "" then [d.windowId] else []), "*", '!');
  }

  lemma SessionRoundTrip(d: Descriptor)
    requires Plain(d)
    ensures SessionInfo(d) != ""
    ensures Split(SessionInfo(d), '*') == [d.sessionId] + if d.windowId != "" then [d.windowId] else []
  {
    SplitJoin([d.sessionId] + (if d.windowId != "" then [d.windowId] else []), '*');
  }

  /** The fields before the data. */
  function Base(d: Descriptor): Descriptor {
    Descriptor(d.sessionId, d.windowId, d.resourceType, "", Absent, "")
  }

  function ReadData(d: Descriptor): Parsed {
    if Data(d) == [] then Parsed(Base(d)) else ParseData(Base(d), ParseType(d.resourceType), Data(d))
  }

  predicate IsReadBack(d: Descriptor) {
    ReadData(d) == Parsed(d.(charset := Lower(d.charset)))
  }

  /** Only the first data are read where one is expected. */
  lemma FirstData(d: Descriptor)
    requires Plain(d)
    ensures Data(d) != [] ==> Data(d)[0] == if d.charset != "" then Lower(d.charset)
                                           else if !d.credentials.Absent? then NumberText(d.credentials)
                                           else Percent.Encode(MakeShortOrigin(d.reqOrigin))
    ensures Data(d) == [] <==> d.charset == "" && d.credentials.Absent? && d.reqOrigin == ""
  {
  }

  lemma ScriptData(d: Descriptor)
    requires Plain(d) && ('s' in ParseType(d.resourceType) || 'c' in ParseType(d.resourceType))
    ensures IsReadBack(d) <==> Fits(d)
  {
    FirstData(d);
  }

  lemma SocketData(d: Descriptor)
    requires Plain(d) && 's' !in ParseType(d.resourceType) && 'c' !in ParseType(d.resourceType) && 'w' in ParseType(d.resourceType)
    ensures IsReadBack(d) <==> Fits(d)
  {
    FirstData(d);
    if d.reqOrigin != "" { OriginRoundTrip(Base(d), d.reqOrigin); }
  }

  predicate PlainType(t: ResourceType) {
    's' !in t && 'c' !in t && 'w' !in t
  }

  lemma IframeData(d: Descriptor)
    requires Plain(d) && PlainType(ParseType(d.resourceType)) && 'i' in ParseType(d.resourceType)
    ensures IsReadBack(d) <==> Fits(d)
  {
    FirstData(d);
    NumberTextPlain(d.credentials);
    if d.reqOrigin != "" {
      OriginRoundTrip(Base(d), d.reqOrigin);
      OriginText(d.reqOrigin);
    }
  }

  lemma AjaxData(d: Descriptor)
    requires Plain(d) && PlainType(ParseType(d.resourceType)) && 'i' !in ParseType(d.resourceType) && 'a' in ParseType(d.resourceType)
    ensures IsReadBack(d) <==> Fits(d)
  {
    FirstData(d);
    NumberTextPlain(d.credentials);
    if d.reqOrigin != "" { OriginRoundTrip(Base(d).(credentials := d.credentials), d.reqOrigin); }
    if d.charset == "" && !d.credentials.Absent? {
      assert |Data(d)| == 2 <==> d.reqOrigin != "";
      if d.reqOrigin != "" { assert Data(d)[1] == Percent.Encode(MakeShortOrigin(d.reqOrigin)); }
    }
  }

  lemma OtherData(d: Descriptor)
    requires Plain(d) && PlainType(ParseType(d.resourceType)) && 'i' !in ParseType(d.resourceType) && 'a' !in ParseType(d.resourceType)
    ensures IsReadBack(d) <==> Fits(d)
  {
    FirstData(d);
  }

  /** The data of a printed descriptor are read back exactly when they fit the resource type. */
  lemma DataRoundTrip(d: Descriptor)
    requires Plain(d)
    ensures IsReadBack(d) <==> Fits(d)
  {
    var t := ParseType(d.resourceType);
    if 's' in t || 'c' in t { ScriptData(d); }
    else if 'w' in t { SocketData(d); }
    else if 'i' in t { IframeData(d); }
    else if 'a' in t { AjaxData(d); }
    else { OtherData(d); }
  }

  lemma OriginText(origin: string)
    requires Restorable(origin)
    ensures Percent.Encode(MakeShortOrigin(origin)) == "" <==> origin == "null"
  {
    if origin != "null" {
      assert MakeShortOrigin(origin) != "" by {
        if HTTPS <= origin { PrefixSplit(origin, HTTPS); ShortSecure(origin[|HTTPS|..]); }
        else { PrefixSplit(origin, HTTP); ShortPlain(origin[|HTTP|..]); }
      }
      EncodedHead(MakeShortOrigin(origin));
    }
  }

  /** A printed descriptor is read back, with a lower case charset, exactly when its data fit the
      resource type. */
  lemma DescriptorRoundTrip(d: Descriptor)
    requires Plain(d)
    ensures Parse(Print(d)) == Parsed(d.(charset := Lower(d.charset))) <==> Fits(d)
  {
    ParamsPlain(d);
    SplitJoin(Params(d), '!');
    SessionRoundTrip(d);
    if d.resourceType != "" {
      TypedParams(d);
      DataRoundTrip(d);
    } else {
      NoTypeRoundTrip(d);
    }
  }

  lemma TypedParams(d: Descriptor)
    requires Plain(d) && d.resourceType != ""
    ensures ParseParams(Params(d)) == ReadData(d)
  {
    SessionRoundTrip(d);
    var params := Params(d);
    assert params[0] == SessionInfo(d) && params[1] == d.resourceType && params[2..] == Data(d);
  }

  lemma SecondIsType(params: seq<string>)
    requires |params| > 1
    ensures ParseParams(params).Parsed? ==> ParseParams(params).descriptor.resourceType == params[1]
    ensures ParseParams(params).Parsed? && params[1] == "" ==> ParseParams(params).descriptor.reqOrigin == ""
  {
  }

  lemma NoTypeRoundTrip(d: Descriptor)
    requires Plain(d) && d.resourceType == ""
    ensures ParseParams(Params(d)) == Parsed(d.(charset := Lower(d.charset))) <==> Fits(d)
  {
    SessionRoundTrip(d);
    NumberTextPlain(d.credentials);
    if d.reqOrigin != "" { OriginText(d.reqOrigin); }
    EmptyType();
    FirstData(d);
    var params := Params(d);
    assert params == [SessionInfo(d)] + Data(d);
    if Data(d) != [] {
      assert params[1] == Data(d)[0];
      SecondIsType(params);
    }
  }

  // ---------------------------------------------------------------- the text of a descriptor

  lemma JoinMore(first: string, rest: seq<string>, sep: string)
    ensures Join([first] + rest, sep) == first + Joined(rest, sep)
    decreases |rest|
  {
    if rest != [] {
      assert ([first] + rest)[1..] == rest;
      JoinMore(rest[0], rest[1..], sep);
      assert rest == [rest[0]] + rest[1..];
      Assoc(first, sep, Join(rest, sep));
      Assoc(sep, rest[0], Joined(rest[1..], sep));
    } else {
      assert first + "" == first && [first] + rest == [first];
    }
  }

  /** Each part behind a separator. */
  function Joined(parts: seq<string>, sep: string): string {
    if parts == [] then "" else sep + parts[0] + Joined(parts[1..], sep)
  }

  lemma {:induction false} JoinedBoth(a: seq<string>, b: seq<string>, sep: string)
    ensures Joined(a + b, sep) == Joined(a, sep) + Joined(b, sep)
  {
    if a == [] {
      assert a + b == b && "" + Joined(b, sep) == Joined(b, sep);
    } else {
      assert (a + b)[1..] == a[1..] + b;
      JoinedBoth(a[1..], b, sep);
      Assoc(sep + a[0], Joined(a[1..], sep), Joined(b, sep));
    }
  }

  lemma JoinedOne(part: string, sep: string)
    ensures Joined([part], sep) == sep + part
  {
    assert [part][1..] == [] && Joined([], sep) == "";
    assert sep + part + "" == sep + part;
  }

  /** A field behind an exclamation mark, if there is one. */
  function Field(present: bool, text: string): string {
    if present then "!" + text else ""
  }

  lemma FieldIsJoined(present: bool, text: string)
    ensures Joined(if present then [text] else [], "!") == Field(present, text)
  {
    JoinedOne(text, "!");
  }

  /** The text of a descriptor: the session, the window behind an asterisk, and behind exclamation marks the
      resource type, the charset in lower case, the credentials and the origin, encoded, without its
      http:// or with s* for its https://. */
  lemma DescriptorText(d: Descriptor)
    ensures var origin := if d.reqOrigin == "null" then "" else if "http://" <= d.reqOrigin then d.reqOrigin[7..]
                          else if "https://" <= d.reqOrigin then "s*" + d.reqOrigin[8..] else d.reqOrigin;
            Print(d) == (d.sessionId + if d.windowId != "" then "*" + d.windowId else "")
                        + (Field(d.resourceType != "", d.resourceType)
                           + (Field(d.charset != "", Lower(d.charset))
                              + (Field(d.credentials != Absent, NumberText(d.credentials))
                                 + Field(d.reqOrigin != "", Percent.Encode(origin)))))
  {
    var t := if d.resourceType != "" then [d.resourceType] else [];
    var c := if d.charset != "" then [Lower(d.charset)] else [];
    var n := if !d.credentials.Absent? then [NumberText(d.credentials)] else [];
    var o := if d.reqOrigin != "" then [Percent.Encode(MakeShortOrigin(d.reqOrigin))] else [];
    SessionText(d);
    assert Params(d) == [SessionInfo(d)] + (t + (c + (n + o)));
    JoinMore(SessionInfo(d), t + (c + (n + o)), "!");
    JoinedBoth(t, c + (n + o), "!");
    JoinedBoth(c, n + o, "!");
    JoinedBoth(n, o, "!");
    FieldIsJoined(d.resourceType != "", d.resourceType);
    FieldIsJoined(d.charset != "", Lower(d.charset));
    FieldIsJoined(!d.credentials.Absent?, NumberText(d.credentials));
    FieldIsJoined(d.reqOrigin != "", Percent.Encode(MakeShortOrigin(d.reqOrigin)));
  }

  lemma SessionText(d: Descriptor)
    ensures SessionInfo(d) == d.sessionId + if d.windowId != "" then "*" + d.windowId else ""
  {
    JoinMore(d.sessionId, if d.windowId != "" then [d.windowId] else [], "*");
    if d.windowId != "" { JoinedOne(d.windowId, "*"); }
  }

  /** How the field behind a resource type is read: as the charset of a script or a service worker, as the
      origin of a web socket or of an iframe that gives one, and as the credentials of an ajax request. */
  lemma DataIsRead(sid: string, resourceType: string, x: string)
    requires sid != "" && '!' !in sid && '*' !in sid && resourceType != "" && '!' !in resourceType && '!' !in x
    ensures var base := Descriptor(sid, "", resourceType, "", Absent, "");
            var origin := Percent.Decode(if x == "" then "null" else if "s*" <= x then "https://" + x[2..] else "http://" + x);
            Parse(sid + "!" + resourceType + "!" + x)
            == if 's' in resourceType || 'c' in resourceType then Parsed(base.(charset := x))
               else if 'w' in resourceType || ('i' in resourceType && x != "") then
                 match origin case Some(o) => Parsed(base.(reqOrigin := o)) case None => UriError
               else if 'a' in resourceType then
                 Parsed(base.(credentials := match ParseInt(x, 10) case Some(n) => Int(n) case None => NaN))
               else Parsed(base)
  {
    var params := [sid, resourceType, x];
    SplitNone(sid, '*');
    SplitJoin(params, '!');
    ThreeJoined(sid, resourceType, x);
    assert params[2..] == [x];
    FieldIsRead(Descriptor(sid, "", resourceType, "", Absent, ""), resourceType, x);
  }

  lemma FieldIsRead(base: Descriptor, resourceType: string, x: string)
    ensures var origin := Percent.Decode(if x == "" then "null" else if "s*" <= x then "https://" + x[2..] else "http://" + x);
            ParseData(base, ParseType(resourceType), [x])
            == if 's' in resourceType || 'c' in resourceType then Parsed(base.(charset := x))
               else if 'w' in resourceType || ('i' in resourceType && x != "") then
                 match origin case Some(o) => Parsed(base.(reqOrigin := o)) case None => UriError
               else if 'a' in resourceType then
                 Parsed(base.(credentials := match ParseInt(x, 10) case Some(n) => Int(n) case None => NaN))
               else Parsed(base)
  {
    TypeHas(resourceType, 's');
    TypeHas(resourceType, 'c');
    TypeHas(resourceType, 'w');
    TypeHas(resourceType, 'i');
    TypeHas(resourceType, 'a');
    var text := if x == "" then "null" else if "s*" <= x then "https://" + x[2..] else "http://" + x;
    OriginIsRead(base, x, text);
  }

  lemma OriginIsRead(base: Descriptor, x: string, text: string)
    requires text == if x == "" then "null" else if "s*" <= x then "https://" + x[2..] else "http://" + x
    ensures WithOrigin(base, x) == match Percent.Decode(text) case Some(o) => Parsed(base.(reqOrigin := o)) case None => UriError
  {
    assert RestoreShortOrigin(x) == text;
  }

  lemma ThreeJoined(a: string, b: string, c: string)
    ensures Join([a, b, c], ['!']) == a + "!" + b + "!" + c
  {
    assert [a, b, c][1..] == [b, c] && [b, c][1..] == [c];
    assert Join([b, c], ['!']) == b + ['!'] + Join([c], ['!']) == b + ['!'] + c;
    assert a + ['!'] + (b + ['!'] + c) == a + "!" + b + "!" + c;
  }
}
