/** One request and its response: what the server takes from the client's records and which of them
    it lets the browser delete. src/utils/cookie.ts,
    src/request-pipeline/header-transforms/transforms.ts, src/request-pipeline/context/index.ts */
module SyncCookieExchange {
  import opened Prelude
  import opened Text
  import opened SyncCookies
  import opened CookieSort
  import Percent

  // ---------------------------------------------------------------- reading the client's records

  /** The records among what was parsed; None when a text raised an exception. */
  function Collect(results: seq<Parsed>): Option<Records> {
    if results == [] then Some([]) else
    match results[0]
    case Parsed(cookie) =>
      var rest :- Collect(results[1..]);
      Some([cookie] + rest)
    case NoSyncCookie => Collect(results[1..])
    case _ => None
  }

  function ParsedTexts(texts: seq<string>): (r: seq<Parsed>)
    ensures |r| == |texts|
  {
    seq(|texts|, i requires 0 <= i < |texts| => Parse(texts[i]))
  }

  function ParseAll(texts: seq<string>): Option<Records> {
    Collect(ParsedTexts(texts))
  }

  /** A text that makes the parser raise an exception: without a name before an '=', or with a name of eight
      parts of which one cannot be decoded. */
  predicate Raises(s: string) {
    || '=' !in s || s[0] == '='
    || var parts := Split(s[..IndexOf(s, '=')], '|');
       |parts| == 8 && (Percent.Decode(parts[2]).None? || Percent.Decode(parts[3]).None? || Percent.Decode(parts[4]).None?)
  }

  lemma {:induction false} CollectFails(results: seq<Parsed>)
    ensures Collect(results).None? <==> exists r :: r in results && (r.TypeError? || r.UriError?)
  {
    if results != [] {
      CollectFails(results[1..]);
      assert forall r :: r in results <==> r == results[0] || r in results[1..];
    }
  }

  lemma ParseFails(s: string)
    ensures Parse(s).TypeError? || Parse(s).UriError? <==> Raises(s)
  {
    assert IndexOf(s, '=') == 0 <==> s == "" || s[0] == '=';
  }

  /** The list cannot be read exactly when one of its texts raises an exception. */
  lemma ListFailsExactly(texts: seq<string>)
    ensures ParseAll(texts).None? <==> exists s :: s in texts && Raises(s)
  {
    var results := ParsedTexts(texts);
    CollectFails(results);
    forall i | 0 <= i < |texts| ensures results[i] in results && (results[i].TypeError? || results[i].UriError? <==> Raises(texts[i])) {
      ParseFails(texts[i]);
    }
  }

  /** One cookie without a name is enough. */
  lemma NamelessCookieFails(record: string)
    ensures Parse("a") == TypeError && ParseAll([record, "a"]) == None
  {
    assert "a" in [record, "a"] && '=' !in "a";
    assert IndexOf("a", '=') == 1;
    ListFailsExactly([record, "a"]);
  }

  datatype ClientSyncCookie = ClientSyncCookie(outdated: Records, actual: Records)

  ghost function Append(before: Records, rest: Option<Records>): Option<Records> {
    if rest.Some? then Some(before + rest.value) else None
  }

  lemma AppendParsed(before: Records, rest: Option<Records>)
    ensures before == [] ==> Append(before, rest) == rest
  {
    assert rest.Some? ==> [] + rest.value == rest.value;
  }

  lemma CollectStep(before: Records, results: seq<Parsed>)
    requires results != []
    ensures Append(before, Collect(results)) == match results[0]
                                                case Parsed(cookie) => Append(before + [cookie], Collect(results[1..]))
                                                case NoSyncCookie => Append(before, Collect(results[1..]))
                                                case _ => None
  {
    var rest := Collect(results[1..]);
    if results[0].Parsed? && rest.Some? {
      assert before + ([results[0].cookie] + rest.value) == (before + [results[0].cookie]) + rest.value;
    }
  }

  method ParseClientSyncCookieStr(cookieStr: string) returns (r: Option<ClientSyncCookie>)
    ensures r == match ParseAll(Entries(cookieStr))
                 case Some(all) => Some(ClientSyncCookie(Outdated(all), Actual(all)))
                 case None => None
  {
    var cookies := if cookieStr == "" then [] else Split(cookieStr, ';');
    ghost var results := ParsedTexts(TrimAll(cookies));
    assert TrimAll(cookies) == Entries(cookieStr);
    var parsedCookies: Records := [];
    var i := 0;
    AppendParsed([], Collect(results));
    assert results[0..] == results;
    while i < |cookies|
      invariant 0 <= i <= |cookies|
      invariant Collect(results) == Append(parsedCookies, Collect(results[i..]))
    {
      CollectStep(parsedCookies, results[i..]);
      assert results[i..][1..] == results[i + 1..];
      var parsedCookie := Parse(Trim(cookies[i]));
      assert parsedCookie == results[i];
      match parsedCookie {
        case Parsed(cookie) =>
          parsedCookies := parsedCookies + [cookie];
        case NoSyncCookie =>
        case _ => return None;
      }
      i := i + 1;
    }
    assert results[i..] == [] && parsedCookies + [] == parsedCookies;
    var records := new Cookie[|parsedCookies|](k requires 0 <= k < |parsedCookies| => parsedCookies[k]);
    assert records[..] == parsedCookies;
    var outdated, actual := SortByOutdatedAndActual(records);
    return Some(ClientSyncCookie(outdated, actual));
  }

  function KeyValues(cs: Records): seq<string> {
    seq(|cs|, i requires 0 <= i < |cs| => KeyValue(cs[i]))
  }

  function StoredAll(cs: Records): Records {
    seq(|cs|, i requires 0 <= i < |cs| => Stored(cs[i]))
  }

  /** A record whose text a cookie list can hold. */
  predicate Listable(c: Cookie) {
    PlainId(c.sid) && IsEntry(KeyValue(c))
  }

  lemma {:induction false} CollectEach(results: seq<Parsed>, cs: Records)
    requires |results| == |cs| && forall i :: 0 <= i < |cs| ==> results[i] == Parsed(cs[i])
    ensures Collect(results) == Some(cs)
  {
    if cs != [] {
      CollectEach(results[1..], cs[1..]);
      assert cs == [cs[0]] + cs[1..];
    }
  }

  lemma ParseKeyValues(cs: Records)
    requires forall c :: c in cs ==> PlainId(c.sid)
    ensures ParseAll(KeyValues(cs)) == Some(StoredAll(cs))
  {
    forall i | 0 <= i < |cs| ensures Parse(KeyValues(cs)[i]) == Parsed(StoredAll(cs)[i]) {
      ParseFormatted(cs[i]);
    }
    CollectEach(ParsedTexts(KeyValues(cs)), StoredAll(cs));
  }

  /** The server reads the records that the browser lists, in the same order. */
  lemma ListIsRead(cs: Records)
    requires forall c :: c in cs ==> Listable(c)
    ensures ParseAll(Entries(Join(KeyValues(cs), "; "))) == Some(StoredAll(cs))
  {
    var texts := KeyValues(cs);
    assert forall i :: 0 <= i < |cs| ==> cs[i] in cs && texts[i] == KeyValue(cs[i]);
    EntriesRoundTrip(texts);
    ParseKeyValues(cs);
  }

  // ---------------------------------------------------------------- the request

  /** _applyClientSyncCookie: the records that setByClient gets. */
  function SetByClient(actual: Records, sid: string): Records {
    if actual == [] then [] else
    (if actual[0].isClientSync && actual[0].sid == sid then [actual[0]] else []) + SetByClient(actual[1..], sid)
  }

  lemma {:induction false} SetByClientHas(actual: Records, sid: string, c: Cookie)
    ensures c in SetByClient(actual, sid) <==> c in actual && c.isClientSync && c.sid == sid
  {
    if actual != [] {
      SetByClientHas(actual[1..], sid, c);
      assert actual == [actual[0]] + actual[1..];
    }
  }

  // ---------------------------------------------------------------- the response

  datatype ServerCookie = ServerCookie(cookie: Cookie, httpOnly: bool)

  function Visible(cookies: seq<ServerCookie>, sid: string): Records {
    if cookies == [] then [] else
    (if cookies[0].httpOnly then [] else [cookies[0].cookie.(isServerSync := true, sid := sid)]) + Visible(cookies[1..], sid)
  }

  /** isOutdatedSyncCookie */
  predicate IsOutdatedBy(current: Cookie, other: Cookie) {
    other.isServerSync == current.isServerSync && IsSame(other, current) && Later(other, current)
  }

  predicate Dropped(c: Cookie, server: Records) {
    (c.isClientSync && !c.isWindowSync) || exists s :: s in server && IsOutdatedBy(c, s)
  }

  function DroppedOf(actual: Records, server: Records): Records {
    if actual == [] then [] else
    (if Dropped(actual[0], server) then [actual[0]] else []) + DroppedOf(actual[1..], server)
  }

  function Formats(cs: Records): seq<string> {
    seq(|cs|, i requires 0 <= i < |cs| => Format(cs[i]))
  }

  function DeleteTexts(cs: Records): seq<string> {
    seq(|cs|, i requires 0 <= i < |cs| => DeleteText(cs[i]))
  }

  /** The client records whose deletion the response asks for, in order. */
  function Deleted(client: ClientSyncCookie, server: Records): Records {
    client.outdated + DroppedOf(client.actual, server)
  }

  /** generateSyncCookie */
  function GenerateSyncCookie(cookies: seq<ServerCookie>, client: Option<ClientSyncCookie>, sid: string): seq<string> {
    var server := Visible(cookies, sid);
    (if client.None? then [] else DeleteTexts(Deleted(client.value, server))) + Formats(server)
  }

  lemma {:induction false} DroppedHas(actual: Records, server: Records, c: Cookie)
    ensures c in DroppedOf(actual, server) <==> c in actual && Dropped(c, server)
  {
    if actual != [] {
      DroppedHas(actual[1..], server, c);
      assert actual == [actual[0]] + actual[1..];
    }
  }

  lemma EitherOutdatedOrActual(all: Records, c: Cookie)
    ensures c in all <==> c in Outdated(all) || c in Actual(all)
  {
    NothingLost(all);
    assert c in all <==> c in multiset(all);
    assert c in multiset(all) <==> c in multiset(Outdated(all)) || c in multiset(Actual(all));
  }

  /** A record superseded by an actual one of its identity that is at least as new. */
  predicate Superseded(all: Records, c: Cookie) {
    exists d :: d in Actual(all) && Identity(d) == Identity(c)
             && (c.lastAccessed.At? && d.lastAccessed.At? ==> c.lastAccessed.ms <= d.lastAccessed.ms)
  }

  /** No write is lost: a client record of the session is handed to the cookie jar or superseded, as long
      as no undated record hides a dated one of its identity. */
  lemma WriteNotLost(all: Records, sid: string, c: Cookie)
    requires c in all && c.isClientSync && c.sid == sid && LatestKept(all, c)
    ensures c in SetByClient(Actual(all), sid) || Superseded(all, c)
  {
    EitherOutdatedOrActual(all, c);
    SetByClientHas(Actual(all), sid, c);
    if c !in Actual(all) {
      var p := ActualIsLatest(all, c);
      assert Identity(c) == Identity(c) && !Later(c, Actual(all)[p]);
    }
  }

  /** The k-th deletion of a response is for a record that the client sent, and a client write of the
      session is deleted only after it was handed over or superseded. */
  lemma DeletedAfterApplied(all: Records, cookies: seq<ServerCookie>, sid: string, k: nat)
    requires k < |Deleted(ClientSyncCookie(Outdated(all), Actual(all)), Visible(cookies, sid))|
    ensures var client := ClientSyncCookie(Outdated(all), Actual(all));
            var c := Deleted(client, Visible(cookies, sid))[k];
            && k < |GenerateSyncCookie(cookies, Some(client), sid)|
            && GenerateSyncCookie(cookies, Some(client), sid)[k]
               == (if c.syncKey.Some? then c.syncKey.value else "undefined") + "=;path=/;expires=Thu, 01 Jan 1970 00:00:01 GMT"
            && c in all
            && (c.isClientSync && c.sid == sid && LatestKept(all, c) ==> c in SetByClient(Actual(all), sid) || Superseded(all, c))
  {
    var client, server := ClientSyncCookie(Outdated(all), Actual(all)), Visible(cookies, sid);
    var c := Deleted(client, server)[k];
    DroppedHas(Actual(all), server, c);
    EitherOutdatedOrActual(all, c);
    assert c in Deleted(client, server);
    if c.isClientSync && c.sid == sid && LatestKept(all, c) { WriteNotLost(all, sid, c); }
  }

  /** Both dates are valid and s was accessed after c. */
  predicate Newer(s: Cookie, c: Cookie) {
    s.lastAccessed.At? && c.lastAccessed.At? && c.lastAccessed.ms < s.lastAccessed.ms
  }

  /** Every outdated record is deleted, and every actual one that only the client wrote. Any other actual one
      is deleted exactly when it came from the server and the response has a newer record of its identity. */
  lemma DeletedExactly(all: Records, cookies: seq<ServerCookie>, sid: string, c: Cookie)
    requires c in all
    ensures var server := Visible(cookies, sid);
            var deleted := Deleted(ClientSyncCookie(Outdated(all), Actual(all)), server);
            && (c in Outdated(all) ==> c in deleted)
            && (c !in Outdated(all) && (c.isWindowSync || !c.isClientSync) ==>
                  (c in deleted <==> c.isServerSync && exists s :: s in server && Identity(s) == Identity(c) && Newer(s, c)))
            && (c !in Outdated(all) && c.isClientSync && !c.isWindowSync ==> c in deleted)
  {
    var server := Visible(cookies, sid);
    EitherOutdatedOrActual(all, c);
    DroppedHas(Actual(all), server, c);
    VisibleFromServer(cookies, sid);
    if c.isServerSync && exists s :: s in server && Identity(s) == Identity(c) && Newer(s, c) {
      var s :| s in server && Identity(s) == Identity(c) && Newer(s, c);
      assert IsOutdatedBy(c, s);
    }
  }

  lemma {:induction false} VisibleFromServer(cookies: seq<ServerCookie>, sid: string)
    ensures forall s :: s in Visible(cookies, sid) ==> s.isServerSync && s.sid == sid
  {
    if cookies != [] { VisibleFromServer(cookies[1..], sid); }
  }

  /** What the server sends are the cookies that scripts may see, as records of the session; the others stay. */
  lemma {:induction false} VisibleExactly(cookies: seq<ServerCookie>, sid: string, s: Cookie)
    ensures s in Visible(cookies, sid)
       <==> exists i :: 0 <= i < |cookies| && !cookies[i].httpOnly && s == cookies[i].cookie.(isServerSync := true, sid := sid)
  {
    if cookies != [] {
      VisibleExactly(cookies[1..], sid, s);
      if i :| 0 <= i < |cookies| && !cookies[i].httpOnly && s == cookies[i].cookie.(isServerSync := true, sid := sid) {
        if i > 0 { assert cookies[1..][i - 1] == cookies[i]; }
      }
    }
  }

  lemma {:induction false} VisibleHas(cookies: seq<ServerCookie>, sid: string, i: nat)
    requires i < |cookies| && !cookies[i].httpOnly
    ensures cookies[i].cookie.(isServerSync := true, sid := sid) in Visible(cookies, sid)
  {
    if i > 0 {
      VisibleHas(cookies[1..], sid, i - 1);
    }
  }

  /** A cookie that the server sets reaches the client as a server record of the session. */
  lemma ServerCookieIsSent(cookies: seq<ServerCookie>, client: Option<ClientSyncCookie>, sid: string, i: nat)
    requires i < |cookies| && !cookies[i].httpOnly && cookies[i].cookie.cookieStr.None? && PlainId(sid)
    ensures var sent := cookies[i].cookie.(isServerSync := true, sid := sid);
            && KeyValue(sent) + ";path=/" in GenerateSyncCookie(cookies, client, sid)
            && Parse(KeyValue(sent)) == Parsed(Stored(sent))
  {
    var sent, server := cookies[i].cookie.(isServerSync := true, sid := sid), Visible(cookies, sid);
    VisibleHas(cookies, sid, i);
    var k :| 0 <= k < |server| && server[k] == sent;
    assert Formats(server)[k] == Format(sent);
    assert Formats(server)[k] in Formats(server);
    ParseFormatted(sent);
  }
}
