/** The records that carry cookies between the server, the client and other windows, and their
    text form. src/utils/cookie.ts */
module SyncCookies {
  import opened Prelude
  import opened Text
  import opened Numbers
  import Percent

  /** A Date as its milliseconds. */
  datatype Time = At(ms: int) | InvalidDate

  datatype Expires = Never | On(time: Time)

  datatype MaxAge = NoMaxAge | Seconds(seconds: int) | PlusInfinity | MinusInfinity | NotANumber

  datatype Cookie = Cookie(isServerSync: bool, isClientSync: bool, isWindowSync: bool,
                           sid: string, key: string, domain: string, path: string,
                           expires: Expires, lastAccessed: Time, maxAge: MaxAge, value: string,
                           syncKey: Option<string>, cookieStr: Option<string>)

  predicate IsSame(a: Cookie, b: Cookie) {
    a.sid == b.sid && a.key == b.key && a.domain == b.domain && a.path == b.path
  }

  /** What identifies a cookie. */
  function Identity(c: Cookie): (string, string, string, string) {
    (c.sid, c.key, c.domain, c.path)
  }

  /** The comparison of dates; an invalid date is not later than any and no date is later than it. */
  predicate Later(a: Cookie, b: Cookie) {
    a.lastAccessed.At? && b.lastAccessed.At? && a.lastAccessed.ms > b.lastAccessed.ms
  }

  const RADIX := 36

  // ---------------------------------------------------------------- formatting

  function SyncType(c: Cookie): string {
    (if c.isServerSync then "s" else "") + (if c.isClientSync then "c" else "") + (if c.isWindowSync then "w" else "")
  }

  function TimeText(t: Time): string {
    match t
    case At(ms) => IntText(ms, RADIX)
    case InvalidDate => "NaN"
  }

  function ExpiresText(e: Expires): string {
    match e
    case Never => ""
    case On(time) => TimeText(time)
  }

  function MaxAgeText(m: MaxAge): string {
    match m
    case Seconds(n) => IntText(n, RADIX)
    case MinusInfinity => "-Infinity"
    case _ => ""
  }

  /** The fields of the key, which '|' separates. */
  function KeyParts(c: Cookie): seq<string> {
    [SyncType(c), c.sid, Percent.Encode(c.key), Percent.Encode(c.domain), Percent.Encode(c.path),
     ExpiresText(c.expires), TimeText(c.lastAccessed), MaxAgeText(c.maxAge)]
  }

  function FormatKey(c: Cookie): string {
    Join(KeyParts(c), "|")
  }

  function KeyValue(c: Cookie): string {
    FormatKey(c) + "=" + c.value
  }

  function Truthy(s: Option<string>): bool {
    s.Some? && s.value != ""
  }

  /** formatSyncCookie */
  function Format(c: Cookie): string {
    (if Truthy(c.cookieStr) then c.cookieStr.value else KeyValue(c)) + ";path=/"
  }

  /** prepareSyncCookieProperties */
  function Prepare(c: Cookie): Cookie {
    var syncKey := if Truthy(c.syncKey) then c.syncKey.value else FormatKey(c);
    c.(syncKey := Some(syncKey),
       cookieStr := if Truthy(c.cookieStr) then c.cookieStr else Some(syncKey + "=" + c.value))
  }

  const CLEAR := "=;path=/;expires=Thu, 01 Jan 1970 00:00:01 GMT"

  /** generateDeleteSyncCookieStr */
  function DeleteText(c: Cookie): string {
    (if c.syncKey.Some? then c.syncKey.value else "undefined") + CLEAR
  }

  // ---------------------------------------------------------------- parsing

  /** A record, null for a text that is no sync cookie, or an exception. */
  datatype Parsed = Parsed(cookie: Cookie) | NoSyncCookie | TypeError | UriError

  function ReadTime(s: string): Time {
    match ParseInt(s, RADIX)
    case Some(n) => At(n)
    case None => InvalidDate
  }

  function ReadMaxAge(s: string): MaxAge {
    if s == "" then NoMaxAge else
    match ParseInt(s, RADIX)
    case Some(n) => Seconds(n)
    case None => NotANumber
  }

  function ParseParts(parts: seq<string>, syncKey: string, value: string, cookieStr: string): Parsed
    requires |parts| == 8
  {
    var key, domain, path := Percent.Decode(parts[2]), Percent.Decode(parts[3]), Percent.Decode(parts[4]);
    if key.None? || domain.None? || path.None? then UriError else
    Parsed(Cookie('s' in parts[0], 'c' in parts[0], 'w' in parts[0], parts[1], key.value, domain.value, path.value,
                  if parts[5] == "" then Never else On(ReadTime(parts[5])), ReadTime(parts[6]), ReadMaxAge(parts[7]),
                  value, Some(syncKey), Some(cookieStr)))
  }

  /** parseSyncCookie: a text without a non-empty name before '=' makes it read a field of `false`. */
  function Parse(s: string): Parsed {
    var i := IndexOf(s, '=');
    if i == 0 || i == |s| then TypeError else
    var parts := Split(s[..i], '|');
    if |parts| != 8 then NoSyncCookie else ParseParts(parts, s[..i], s[i + 1..], s)
  }

  // ---------------------------------------------------------------- round trip

  /** What the text form keeps of a time: the text "NaN" is a numeral in radix 36. */
  function StoredTime(t: Time): Time {
    if t.At? then t else At(30191)
  }

  /** What the text form keeps of a maximal age: so is "Infinity". */
  function StoredMaxAge(m: MaxAge): MaxAge {
    match m
    case Seconds(n) => m
    case MinusInfinity => ReadMaxAge("-Infinity")
    case _ => NoMaxAge
  }

  function Stored(c: Cookie): Cookie {
    c.(expires := if c.expires.Never? then Never else On(StoredTime(c.expires.time)),
       lastAccessed := StoredTime(c.lastAccessed), maxAge := StoredMaxAge(c.maxAge),
       syncKey := Some(FormatKey(c)), cookieStr := Some(KeyValue(c)))
  }

  /** The characters of a numeral, and of "NaN" and "-Infinity". */
  predicate Plain(s: string) {
    forall c :: c in s ==> c == '-' || '0' <= c <= '9' || 'a' <= c <= 'z' || 'A' <= c <= 'Z'
  }

  lemma IntPlain(n: int)
    ensures Plain(IntText(n, RADIX))
  {
    var m := if n < 0 then -n else n;
    NumeralRoundTrip(m, RADIX);
    forall c | c in IntText(n, RADIX) ensures c == '-' || '0' <= c <= '9' || 'a' <= c <= 'z' {
      if c in Numeral(m, RADIX) {
        var i :| 0 <= i < |Numeral(m, RADIX)| && Numeral(m, RADIX)[i] == c;
      }
    }
  }

  lemma TimeTextRoundTrip(t: Time)
    ensures Plain(TimeText(t)) && TimeText(t) != "" && ReadTime(TimeText(t)) == StoredTime(t)
  {
    match t
    case At(ms) => IntPlain(ms); IntRoundTrip(ms, RADIX);
    case InvalidDate => NaNText();
  }

  lemma NaNText()
    ensures ParseInt("NaN", RADIX) == Some(30191)
  {
    var s := "NaN";
    assert TrimLeft(s) == s;
    assert AllDigits(s, RADIX);
    DigitCountAll(s, RADIX);
    assert s[..3] == s && s[..2] == "Na" && s[..2][..1] == "N" && s[..2][..1][..0] == "";
    assert ReadNumeral("", RADIX) == 0;
    assert ReadNumeral("N", RADIX) == 23;
    assert ReadNumeral("Na", RADIX) == 838;
    assert ReadNumeral("NaN", RADIX) == 30191;
  }

  lemma MaxAgeTextRoundTrip(m: MaxAge)
    ensures Plain(MaxAgeText(m)) && ReadMaxAge(MaxAgeText(m)) == StoredMaxAge(m)
  {
    match m
    case Seconds(n) => IntPlain(n); IntRoundTrip(n, RADIX);
    case _ =>
  }

  /** An identifier that a key can hold. */
  predicate PlainId(sid: string) {
    NoSeparator(sid)
  }

  predicate NoSeparator(s: string) {
    '|' !in s && '=' !in s
  }

  lemma PlainNoSeparator(s: string)
    requires Plain(s)
    ensures NoSeparator(s)
  {
  }

  lemma EncodedNoSeparator(s: string)
    ensures NoSeparator(Percent.Encode(s))
  {
    Percent.EncodePlain(s);
    assert !Percent.IsEncodedChar('|') && !Percent.IsEncodedChar('=');
  }

  lemma TimesNoSeparator(c: Cookie)
    ensures NoSeparator(ExpiresText(c.expires)) && NoSeparator(TimeText(c.lastAccessed)) && NoSeparator(MaxAgeText(c.maxAge))
  {
    if c.expires.On? { TimeTextRoundTrip(c.expires.time); }
    TimeTextRoundTrip(c.lastAccessed);
    MaxAgeTextRoundTrip(c.maxAge);
    PlainNoSeparator(ExpiresText(c.expires));
    PlainNoSeparator(TimeText(c.lastAccessed));
    PlainNoSeparator(MaxAgeText(c.maxAge));
  }

  lemma KeyPartsPlain(c: Cookie)
    requires PlainId(c.sid)
    ensures forall i :: 0 <= i < 8 ==> NoSeparator(KeyParts(c)[i])
  {
    EncodedNoSeparator(c.key);
    EncodedNoSeparator(c.domain);
    EncodedNoSeparator(c.path);
    TimesNoSeparator(c);
    assert NoSeparator(SyncType(c));
  }

  lemma JoinLonger(parts: seq<string>)
    requires |parts| > 1
    ensures Join(parts, "|") != ""
  {
  }

  lemma ParseFields(c: Cookie)
    ensures ParseParts(KeyParts(c), FormatKey(c), c.value, KeyValue(c)) == Parsed(Stored(c))
  {
    Percent.RoundTrip(c.key);
    Percent.RoundTrip(c.domain);
    Percent.RoundTrip(c.path);
    ParseTimes(c);
    var parts := KeyParts(c);
    assert parts[2] == Percent.Encode(c.key) && parts[3] == Percent.Encode(c.domain) && parts[4] == Percent.Encode(c.path);
    assert parts[5] == ExpiresText(c.expires) && parts[6] == TimeText(c.lastAccessed) && parts[7] == MaxAgeText(c.maxAge);
    assert parts[0] == SyncType(c) && parts[1] == c.sid;
    SyncTypeFlags(c);
  }

  lemma SyncTypeFlags(c: Cookie)
    ensures 's' in SyncType(c) <==> c.isServerSync
    ensures 'c' in SyncType(c) <==> c.isClientSync
    ensures 'w' in SyncType(c) <==> c.isWindowSync
  {
  }

  lemma ParseTimes(c: Cookie)
    ensures (if ExpiresText(c.expires) == "" then Never else On(ReadTime(ExpiresText(c.expires)))) == Stored(c).expires
    ensures ReadTime(TimeText(c.lastAccessed)) == StoredTime(c.lastAccessed)
    ensures ReadMaxAge(MaxAgeText(c.maxAge)) == StoredMaxAge(c.maxAge)
  {
    if c.expires.On? { TimeTextRoundTrip(c.expires.time); }
    TimeTextRoundTrip(c.lastAccessed);
    MaxAgeTextRoundTrip(c.maxAge);
  }

  /** Parsing the text of a record gives what the text form keeps of it. */
  lemma ParseFormatted(c: Cookie)
    requires PlainId(c.sid)
    ensures Parse(KeyValue(c)) == Parsed(Stored(c))
  {
    KeyPartsPlain(c);
    var parts, key, s := KeyParts(c), FormatKey(c), KeyValue(c);
    SplitJoin(parts, '|');
    JoinWithout(parts, "|", '=');
    JoinLonger(parts);
    assert s == key + ['='] + c.value;
    IndexOfSplit(key, '=', c.value);
    assert s[..|key|] == key && s[|key| + 1..] == c.value;
    ParseFields(c);
  }

  lemma ReadBack(n: int)
    ensures ParseInt(IntText(n, 36), 36) == Some(n)
  {
    IntRoundTrip(n, 36);
  }

  /** The text of a record: eight fields that '|' separates, '=' and the value. They are the letters of the
      synchronization types, the session, the key, the domain and the path in percent encoding, and in radix
      36 the milliseconds of the expiration and of the last access and the maximal age. */
  lemma FormatFields(c: Cookie)
    requires PlainId(c.sid)
    ensures var i := IndexOf(KeyValue(c), '=');
            i < |KeyValue(c)| && KeyValue(c)[i + 1..] == c.value && |Split(KeyValue(c)[..i], '|')| == 8
    ensures var parts := Split(KeyValue(c)[..IndexOf(KeyValue(c), '=')], '|');
            && parts[0] == (if c.isServerSync then "s" else "") + (if c.isClientSync then "c" else "") + (if c.isWindowSync then "w" else "")
            && parts[1] == c.sid
            && Percent.Decode(parts[2]) == Some(c.key) && Percent.Decode(parts[3]) == Some(c.domain) && Percent.Decode(parts[4]) == Some(c.path)
            && (parts[5] == "" <==> c.expires.Never?)
            && (c.expires.On? && c.expires.time.At? ==> ParseInt(parts[5], 36) == Some(c.expires.time.ms))
            && (c.lastAccessed.At? ==> ParseInt(parts[6], 36) == Some(c.lastAccessed.ms))
            && (parts[7] == "" <==> c.maxAge in {NoMaxAge, PlusInfinity, NotANumber})
            && (c.maxAge.Seconds? ==> ParseInt(parts[7], 36) == Some(c.maxAge.seconds))
  {
    KeyPartsPlain(c);
    var parts, key, s := KeyParts(c), FormatKey(c), KeyValue(c);
    SplitJoin(parts, '|');
    JoinWithout(parts, "|", '=');
    assert s == key + ['='] + c.value;
    IndexOfSplit(key, '=', c.value);
    assert s[..|key|] == key && s[|key| + 1..] == c.value;
    FieldsMean(c, parts);
  }

  lemma TimeFields(t: Time, text: string)
    requires text == TimeText(t)
    ensures text != "" && (t.At? ==> ParseInt(text, 36) == Some(t.ms))
  {
    if t.At? { ReadBack(t.ms); }
  }

  lemma AgeField(m: MaxAge, text: string)
    requires text == MaxAgeText(m)
    ensures text == "" <==> m in {NoMaxAge, PlusInfinity, NotANumber}
    ensures m.Seconds? ==> ParseInt(text, 36) == Some(m.seconds)
  {
    if m.Seconds? { ReadBack(m.seconds); }
  }

  lemma FieldsMean(c: Cookie, parts: seq<string>)
    requires parts == KeyParts(c)
    ensures parts[0] == (if c.isServerSync then "s" else "") + (if c.isClientSync then "c" else "") + (if c.isWindowSync then "w" else "")
    ensures parts[1] == c.sid
    ensures Percent.Decode(parts[2]) == Some(c.key) && Percent.Decode(parts[3]) == Some(c.domain) && Percent.Decode(parts[4]) == Some(c.path)
    ensures parts[5] == "" <==> c.expires.Never?
    ensures c.expires.On? && c.expires.time.At? ==> ParseInt(parts[5], 36) == Some(c.expires.time.ms)
    ensures c.lastAccessed.At? ==> ParseInt(parts[6], 36) == Some(c.lastAccessed.ms)
    ensures parts[7] == "" <==> c.maxAge in {NoMaxAge, PlusInfinity, NotANumber}
    ensures c.maxAge.Seconds? ==> ParseInt(parts[7], 36) == Some(c.maxAge.seconds)
  {
    Percent.RoundTrip(c.key);
    Percent.RoundTrip(c.domain);
    Percent.RoundTrip(c.path);
    if c.expires.On? { TimeFields(c.expires.time, parts[5]); }
    TimeFields(c.lastAccessed, parts[6]);
    AgeField(c.maxAge, parts[7]);
  }

  /** The fields of a record, without its cached texts. */
  function Data(c: Cookie): Cookie {
    c.(syncKey := None, cookieStr := None)
  }

  predicate ValidTimes(c: Cookie) {
    c.lastAccessed.At? && (c.expires.On? ==> c.expires.time.At?)
  }

  /** The text form keeps every field exactly when the dates are valid and the maximal age is absent
      or an integer. Infinite ages come back as absent, or as a number when negative. */
  lemma CodecRoundTrip(c: Cookie)
    requires PlainId(c.sid)
    ensures Parse(KeyValue(c)).Parsed?
    ensures Data(Parse(KeyValue(c)).cookie) == Data(c) <==> ValidTimes(c) && (c.maxAge.NoMaxAge? || c.maxAge.Seconds?)
    ensures c.maxAge.PlusInfinity? ==> Parse(KeyValue(c)).cookie.maxAge == NoMaxAge
    ensures c.maxAge.MinusInfinity? ==> Parse(KeyValue(c)).cookie.maxAge == Seconds(-1461559270678)
  {
    ParseFormatted(c);
    StoredFaithfully(c);
    if c.maxAge.MinusInfinity? { InfinityText(); }
  }

  lemma StoredFaithfully(c: Cookie)
    ensures Data(Stored(c)) == Data(c) <==> ValidTimes(c) && (c.maxAge.NoMaxAge? || c.maxAge.Seconds?)
  {
  }

  lemma InfinityText()
    ensures ReadMaxAge("-Infinity") == Seconds(-1461559270678)
  {
    var s := "Infinity";
    assert "-Infinity"[1..] == s && TrimLeft("-Infinity") == "-Infinity";
    ReadInfinity();
    DigitCountAll(s, RADIX);
    assert s[..8] == s;
  }

  lemma ReadInfi()
    ensures AllDigits("Infi", RADIX) && ReadNumeral("Infi", RADIX) == 870174
  {
    assert ReadNumeral("", RADIX) == 0;
    ReadStep("", 'I');
    ReadStep("I", 'n');
    ReadStep("In", 'f');
    ReadStep("Inf", 'i');
    assert "" + ['I'] == "I" && "I" + ['n'] == "In" && "In" + ['f'] == "Inf" && "Inf" + ['i'] == "Infi";
  }

  lemma ReadInfinity()
    ensures AllDigits("Infinity", RADIX) && ReadNumeral("Infinity", RADIX) == 1461559270678
  {
    ReadInfi();
    ReadStep("Infi", 'n');
    ReadStep("Infin", 'i');
    ReadStep("Infini", 't');
    ReadStep("Infinit", 'y');
    assert "Infi" + ['n'] == "Infin" && "Infin" + ['i'] == "Infini" && "Infini" + ['t'] == "Infinit" && "Infinit" + ['y'] == "Infinity";
  }

  lemma ReadStep(t: string, c: char)
    requires AllDigits(t, RADIX) && DigitValue(c) >= 0
    ensures AllDigits(t + [c], RADIX) && ReadNumeral(t + [c], RADIX) == ReadNumeral(t, RADIX) * 36 + DigitValue(c)
  {
    AppendDigit(t, c, RADIX);
  }

  lemma PartsKeepTexts(parts: seq<string>, syncKey: string, value: string, text: string)
    requires |parts| == 8 && ParseParts(parts, syncKey, value, text).Parsed?
    ensures ParseParts(parts, syncKey, value, text).cookie.syncKey == Some(syncKey)
    ensures ParseParts(parts, syncKey, value, text).cookie.cookieStr == Some(text)
  {
  }

  lemma ParsedTexts(s: string)
    requires Parse(s).Parsed?
    ensures var i := IndexOf(s, '=');
            0 < i < |s| && Parse(s).cookie.syncKey == Some(s[..i]) && Parse(s).cookie.cookieStr == Some(s)
  {
    var i := IndexOf(s, '=');
    PartsKeepTexts(Split(s[..i], '|'), s[..i], s[i + 1..], s);
  }

  lemma TextStays(c: Cookie, key: string, text: string)
    requires c.syncKey == Some(key) && c.cookieStr == Some(text) && key != "" && text != ""
    ensures Format(c) == text + ";path=/" && Prepare(c) == c
    ensures DeleteText(c) == key + "=;path=/;expires=Thu, 01 Jan 1970 00:00:01 GMT"
  {
  }

  /** A record that was read keeps its text: it is formatted as that text, whatever its value is changed to, is not
      changed by preparing it, and is deleted under the name that the text has. */
  lemma ParsedTextStays(s: string, value: string)
    requires Parse(s).Parsed?
    ensures var c := Parse(s).cookie.(value := value);
            && Format(c) == s + ";path=/" && Prepare(c) == c
            && IndexOf(s, '=') < |s| && DeleteText(c) == s[..IndexOf(s, '=')] + "=;path=/;expires=Thu, 01 Jan 1970 00:00:01 GMT"
  {
    ParsedTexts(s);
    TextStays(Parse(s).cookie.(value := value), s[..IndexOf(s, '=')], s);
  }

  /** A record without texts gets them from its fields, once: preparing it again and formatting it before or after give
      the same. */
  lemma PreparedOnce(c: Cookie)
    requires c.syncKey.None? && c.cookieStr.None?
    ensures Prepare(c) == c.(syncKey := Some(FormatKey(c)), cookieStr := Some(KeyValue(c)))
    ensures Prepare(Prepare(c)) == Prepare(c) && Format(c) == KeyValue(c) + ";path=/" == Format(Prepare(c))
  {
    JoinLonger(KeyParts(c));
    assert FormatKey(c) != "";
  }

  // ---------------------------------------------------------------- changing the synchronization type

  /** The flags to set. */
  datatype Flags = Flags(server: Option<bool>, client: Option<bool>, window: Option<bool>)

  function Chosen(flag: Option<bool>, current: bool): bool {
    if flag.Some? then flag.value else current
  }

  function WithFlags(c: Cookie, flags: Flags): Cookie {
    c.(isServerSync := Chosen(flags.server, c.isServerSync), isClientSync := Chosen(flags.client, c.isClientSync),
       isWindowSync := Chosen(flags.window, c.isWindowSync))
  }

  /** The length of the leading run of synchronization letters. */
  function SyncRun(s: string): (n: nat)
    ensures n <= |s|
  {
    if s != [] && s[0] in "scw" then 1 + SyncRun(s[1..]) else 0
  }

  /** replace of the leading run, when there is one. */
  function ReplaceSyncType(s: string, syncType: string): string {
    if SyncRun(s) == 0 then s else syncType + s[SyncRun(s)..]
  }

  function ReplaceIn(s: Option<string>, syncType: string): Option<string> {
    if s.None? then None else Some(ReplaceSyncType(s.value, syncType))
  }

  /** changeSyncType */
  function ChangeSyncType(c: Cookie, flags: Flags): Cookie {
    var c' := WithFlags(c, flags);
    c'.(syncKey := ReplaceIn(c.syncKey, SyncType(c')), cookieStr := ReplaceIn(c.cookieStr, SyncType(c')))
  }

  lemma {:induction false} SyncRunOf(t: string, rest: string)
    requires (forall ch :: ch in t ==> ch in "scw") && rest != [] && rest[0] !in "scw"
    ensures SyncRun(t + rest) == |t|
  {
    if t == [] {
      assert t + rest == rest;
    } else {
      SyncRunOf(t[1..], rest);
      assert (t + rest)[1..] == t[1..] + rest;
    }
  }

  /** The key after the synchronization letters, which the flags do not change. */
  function KeyRest(c: Cookie): string {
    "|" + Join(KeyParts(c)[1..], "|")
  }

  lemma KeySplits(c: Cookie, flags: Flags)
    ensures FormatKey(c) == SyncType(c) + KeyRest(c)
    ensures KeyRest(WithFlags(c, flags)) == KeyRest(c)
  {
    var parts := KeyParts(c);
    assert parts[1..] == KeyParts(WithFlags(c, flags))[1..];
    assert FormatKey(c) == parts[0] + "|" + Join(parts[1..], "|");
  }

  lemma ReplaceSyncTypeIn(c: Cookie, syncType: string, rest: string)
    requires rest != [] && rest[0] == '|'
    ensures ReplaceSyncType(SyncType(c) + rest, syncType) == if SyncType(c) == "" then rest else syncType + rest
  {
    SyncRunOf(SyncType(c), rest);
    assert (SyncType(c) + rest)[|SyncType(c)|..] == rest;
  }

  /** Changing the flags inside the texts of a record agrees with formatting the changed record
      exactly when it had a synchronization letter before or has none afterwards. */
  lemma ChangedTextIsFormatted(c: Cookie, flags: Flags)
    requires c.syncKey == Some(FormatKey(c)) && c.cookieStr == Some(KeyValue(c))
    ensures var c' := ChangeSyncType(c, flags);
            c'.syncKey == Some(FormatKey(c')) && c'.cookieStr == Some(KeyValue(c'))
            <==> SyncType(c) != "" || SyncType(c') == ""
    ensures Data(ChangeSyncType(c, flags)) == Data(WithFlags(c, flags))
  {
    var w, rest := WithFlags(c, flags), KeyRest(c);
    var t := SyncType(w);
    KeySplits(c, flags);
    KeySplits(w, flags);
    var tail := "=" + c.value;
    assert KeyValue(c) == SyncType(c) + (rest + tail) && KeyValue(w) == t + (rest + tail);
    ReplaceSyncTypeIn(c, t, rest);
    ReplaceSyncTypeIn(c, t, rest + tail);
    SameKey(w, ChangeSyncType(c, flags));
    if SyncType(c) == "" && t != "" {
      assert |FormatKey(w)| == |t| + |rest|;
    }
  }

  lemma SameKey(a: Cookie, b: Cookie)
    requires Data(a) == Data(b)
    ensures FormatKey(a) == FormatKey(b) && KeyValue(a) == KeyValue(b) && SyncType(a) == SyncType(b)
  {
    assert KeyParts(a) == KeyParts(b);
  }

  /** So a reader of the changed text gets the record with the new flags. */
  lemma ChangedTextParses(c: Cookie, flags: Flags)
    requires PlainId(c.sid) && c.syncKey == Some(FormatKey(c)) && c.cookieStr == Some(KeyValue(c)) && SyncType(c) != ""
    ensures ChangeSyncType(c, flags).cookieStr.Some?
    ensures Parse(ChangeSyncType(c, flags).cookieStr.value) == Parsed(Stored(WithFlags(c, flags)))
  {
    ChangedTextIsFormatted(c, flags);
    SameKey(ChangeSyncType(c, flags), WithFlags(c, flags));
    ParseFormatted(WithFlags(c, flags));
  }

  /** The record as the programs hold it: its fields change in place. */
  class CookieRecord {
    var isServerSync: bool
    var isClientSync: bool
    var isWindowSync: bool
    const sid: string
    const key: string
    const domain: string
    const path: string
    const expires: Expires
    const maxAge: MaxAge
    const lastAccessed: Time
    const value: string
    var syncKey: Option<string>
    var cookieStr: Option<string>

    function Fields(): Cookie
      reads this
    {
      Cookie(isServerSync, isClientSync, isWindowSync, sid, key, domain, path, expires, lastAccessed, maxAge, value, syncKey, cookieStr)
    }

    constructor (c: Cookie)
      ensures Fields() == c
    {
      isServerSync, isClientSync, isWindowSync := c.isServerSync, c.isClientSync, c.isWindowSync;
      sid, key, domain, path := c.sid, c.key, c.domain, c.path;
      expires, maxAge, lastAccessed, value := c.expires, c.maxAge, c.lastAccessed, c.value;
      syncKey, cookieStr := c.syncKey, c.cookieStr;
    }

    method PrepareSyncCookieProperties()
      modifies this
      ensures Fields() == Prepare(old(Fields()))
      ensures old(syncKey).None? && old(cookieStr).None? ==>
                syncKey == Some(FormatKey(Fields())) && cookieStr == Some(KeyValue(Fields()))
    {
      ghost var before := Fields();
      if !Truthy(syncKey) {
        syncKey := Some(FormatKey(Fields()));
      }
      if !Truthy(cookieStr) {
        cookieStr := Some(syncKey.value + "=" + value);
      }
      SameKey(before, Fields());
    }

    method ChangeSyncTypeTo(flags: Flags)
      modifies this
      ensures Fields() == ChangeSyncType(old(Fields()), flags)
    {
      if flags.server.Some? {
        isServerSync := flags.server.value;
      }
      if flags.client.Some? {
        isClientSync := flags.client.value;
      }
      if flags.window.Some? {
        isWindowSync := flags.window.value;
      }
      var newSyncTypeStr := SyncType(Fields());
      ghost var flagged := Fields();
      syncKey := ReplaceIn(syncKey, newSyncTypeStr);
      cookieStr := ReplaceIn(cookieStr, newSyncTypeStr);
      assert flagged == WithFlags(old(Fields()), flags);
    }
  }
}
