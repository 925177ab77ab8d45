/** The cookie string that the page sees, as an ordered map. src/client/sandbox/cookie/index.ts */
module ClientCookies {
  import opened Prelude
  import opened Text

  /** Whether an entry is a cookie of the key; the cookie without a name is the entry without '='. */
  predicate Matches(entry: string, key: string) {
    if key == "" then '=' !in entry else key + "=" <= entry
  }

  /** The entries with those of the key replaced by the new entry or dropped. */
  function Changed(entries: seq<string>, key: string, newEntry: Option<string>): seq<string> {
    if entries == [] then [] else
    (if !Matches(entries[0], key) then [entries[0]] else if newEntry.Some? then [newEntry.value] else [])
    + Changed(entries[1..], key, newEntry)
  }

  predicate Occurs(entries: seq<string>, key: string) {
    exists e :: e in entries && Matches(e, key)
  }

  function Updated(entries: seq<string>, key: string, newEntry: Option<string>): seq<string> {
    Changed(entries, key, newEntry) + if newEntry.Some? && !Occurs(entries, key) then [newEntry.value] else []
  }

  lemma {:induction false} ChangedAppend(entries: seq<string>, e: string, key: string, newEntry: Option<string>)
    ensures Changed(entries + [e], key, newEntry)
         == Changed(entries, key, newEntry) + if !Matches(e, key) then [e] else if newEntry.Some? then [newEntry.value] else []
  {
    if entries == [] {
      assert [] + [e] == [e] && [e][1..] == [];
      assert Changed([], key, newEntry) == [];
    } else {
      assert (entries + [e])[1..] == entries[1..] + [e];
      ChangedAppend(entries[1..], e, key, newEntry);
    }
  }

  class Settings {
    var cookie: string

    constructor ()
      ensures cookie == ""
    {
      cookie := "";
    }

    /** _updateClientCookieStr */
    method UpdateClientCookieStr(cookieKey: string, newCookieStr: Option<string>)
      modifies this
      ensures cookie == Join(Updated(Entries(old(cookie)), cookieKey, newCookieStr), "; ")
    {
      var cookies := if cookie == "" then [] else Split(cookie, ';');
      ghost var entries := TrimAll(cookies);
      var changedCookies: seq<string> := [];
      var replaced := false;
      var i := 0;
      while i < |cookies|
        invariant 0 <= i <= |cookies|
        invariant changedCookies == Changed(entries[..i], cookieKey, newCookieStr)
        invariant replaced == (newCookieStr.Some? && Occurs(entries[..i], cookieKey))
      {
        var trimmed := Trim(cookies[i]);
        assert entries[..i + 1] == entries[..i] + [trimmed];
        ChangedAppend(entries[..i], trimmed, cookieKey, newCookieStr);
        if !Matches(trimmed, cookieKey) {
          changedCookies := changedCookies + [trimmed];
        } else if newCookieStr.Some? {
          changedCookies := changedCookies + [newCookieStr.value];
          replaced := true;
          assert trimmed in entries[..i + 1];
        }
        i := i + 1;
      }
      assert entries[..i] == entries;
      assert changedCookies + [] == changedCookies;
      if !replaced && newCookieStr.Some? {
        changedCookies := changedCookies + [newCookieStr.value];
      }
      cookie := Join(changedCookies, "; ");
    }
  }

  // ---------------------------------------------------------------- the ordered map

  /** An entry with a name before '=', or with neither. */
  predicate IsCookie(entry: string) {
    IsEntry(entry) && entry != "" && entry[0] != '='
  }

  function NameOf(entry: string): string {
    if '=' in entry then entry[..IndexOf(entry, '=')] else ""
  }

  predicate IsJar(entries: seq<string>) {
    && (forall e :: e in entries ==> IsCookie(e))
    && forall i, j :: 0 <= i < j < |entries| ==> NameOf(entries[i]) != NameOf(entries[j])
  }

  /** An update of the cookie of a key: a new entry of that name, or None to remove it. */
  datatype Update = Update(key: string, entry: Option<string>)

  predicate IsUpdate(u: Update) {
    '=' !in u.key && (u.entry.Some? ==> IsCookie(u.entry.value) && NameOf(u.entry.value) == u.key)
  }

  function Apply(entries: seq<string>, u: Update): seq<string> {
    Updated(entries, u.key, u.entry)
  }

  /** The cookie of a name. */
  function Get(entries: seq<string>, name: string): Option<string> {
    if entries == [] then None else
    if NameOf(entries[0]) == name then Some(entries[0]) else Get(entries[1..], name)
  }

  /** The cookies of the other names, in order. */
  function Others(entries: seq<string>, name: string): seq<string> {
    if entries == [] then [] else
    (if NameOf(entries[0]) == name then [] else [entries[0]]) + Others(entries[1..], name)
  }

  /** The names in order. */
  function Names(entries: seq<string>): seq<string> {
    if entries == [] then [] else [NameOf(entries[0])] + Names(entries[1..])
  }

  lemma MatchesIsName(entry: string, key: string)
    requires IsCookie(entry) && '=' !in key
    ensures Matches(entry, key) <==> NameOf(entry) == key
  {
    if key != "" && Matches(entry, key) {
      assert entry == key + ['='] + entry[|key| + 1..];
      IndexOfSplit(key, '=', entry[|key| + 1..]);
      assert entry[|key|] == '=';
    }
    if '=' in entry && NameOf(entry) == key {
      assert entry[..|key|] == key && entry[|key|] == '=';
    }
  }

  lemma JarTail(entries: seq<string>)
    requires IsJar(entries) && entries != []
    ensures IsCookie(entries[0]) && IsJar(entries[1..])
    ensures forall e :: e in entries[1..] ==> NameOf(e) != NameOf(entries[0])
  {
    forall e | e in entries[1..] ensures NameOf(e) != NameOf(entries[0]) && IsCookie(e) {
      var i :| 0 <= i < |entries[1..]| && entries[1..][i] == e;
      assert entries[i + 1] == e;
    }
  }

  lemma {:induction false} ChangedAbsent(entries: seq<string>, u: Update)
    requires IsJar(entries) && IsUpdate(u) && forall e :: e in entries ==> NameOf(e) != u.key
    ensures Changed(entries, u.key, u.entry) == entries && !Occurs(entries, u.key)
    ensures Get(entries, u.key) == None && Others(entries, u.key) == entries
  {
    if entries != [] {
      JarTail(entries);
      MatchesIsName(entries[0], u.key);
      ChangedAbsent(entries[1..], u);
      assert entries == [entries[0]] + entries[1..];
    }
  }

  /** Entries that stay cookies with different names when one is put in front. */
  lemma JarCons(first: string, rest: seq<string>)
    requires IsCookie(first) && IsJar(rest) && forall e :: e in rest ==> NameOf(e) != NameOf(first)
    ensures IsJar([first] + rest)
  {
  }

  lemma OccursCons(first: string, rest: seq<string>, key: string)
    ensures Occurs([first] + rest, key) <==> Matches(first, key) || Occurs(rest, key)
  {
    if Matches(first, key) { assert first in [first] + rest; }
    if Occurs(rest, key) {
      var e :| e in rest && Matches(e, key);
      assert e in [first] + rest;
    }
  }

  /** An update of a key that the first entry does not have leaves that entry in front. */
  lemma ApplyRest(entries: seq<string>, u: Update)
    requires IsJar(entries) && IsUpdate(u) && entries != [] && NameOf(entries[0]) != u.key
    ensures Apply(entries, u) == [entries[0]] + Apply(entries[1..], u)
  {
    JarTail(entries);
    MatchesIsName(entries[0], u.key);
    assert entries == [entries[0]] + entries[1..];
    OccursCons(entries[0], entries[1..], u.key);
  }

  /** An update of the key of the first entry replaces or drops that entry. */
  lemma ApplyFirst(entries: seq<string>, u: Update)
    requires IsJar(entries) && IsUpdate(u) && entries != [] && NameOf(entries[0]) == u.key
    ensures Apply(entries, u) == (if u.entry.Some? then [u.entry.value] else []) + entries[1..]
  {
    JarTail(entries);
    MatchesIsName(entries[0], u.key);
    ChangedAbsent(entries[1..], u);
    assert entries == [entries[0]] + entries[1..];
    OccursCons(entries[0], entries[1..], u.key);
  }

  lemma GetCons(first: string, rest: seq<string>, name: string)
    ensures Get([first] + rest, name) == if NameOf(first) == name then Some(first) else Get(rest, name)
    ensures Others([first] + rest, name) == if NameOf(first) == name then Others(rest, name) else [first] + Others(rest, name)
  {
    assert ([first] + rest)[1..] == rest;
    assert [] + Others(rest, name) == Others(rest, name);
  }

  /** An update sets or removes the cookie of its key and keeps all others in order. */
  lemma {:induction false} ApplyIsMapUpdate(entries: seq<string>, u: Update)
    requires IsJar(entries) && IsUpdate(u)
    ensures Get(Apply(entries, u), u.key) == u.entry
    ensures Others(Apply(entries, u), u.key) == Others(entries, u.key)
    ensures forall e :: e in Apply(entries, u) ==> e in entries || Some(e) == u.entry
  {
    if entries == [] {
      if u.entry.Some? {
        GetCons(u.entry.value, [], u.key);
        assert Apply(entries, u) == [u.entry.value] + [];
      }
    } else {
      JarTail(entries);
      var first, rest := entries[0], entries[1..];
      assert entries == [first] + rest;
      GetCons(first, rest, u.key);
      if NameOf(first) == u.key {
        ApplyFirst(entries, u);
        ChangedAbsent(rest, u);
        if u.entry.Some? { GetCons(u.entry.value, rest, u.key); } else { assert [] + rest == rest; }
      } else {
        ApplyRest(entries, u);
        ApplyIsMapUpdate(rest, u);
        GetCons(first, Apply(rest, u), u.key);
      }
    }
  }

  /** Names stay unique. */
  lemma {:induction false} ApplyKeepsJar(entries: seq<string>, u: Update)
    requires IsJar(entries) && IsUpdate(u)
    ensures IsJar(Apply(entries, u))
  {
    if entries == [] {
      assert Apply(entries, u) == if u.entry.Some? then [u.entry.value] else [];
    } else {
      JarTail(entries);
      if NameOf(entries[0]) == u.key {
        ApplyFirst(entries, u);
        if u.entry.Some? { JarCons(u.entry.value, entries[1..]); } else { assert [] + entries[1..] == entries[1..]; }
      } else {
        ApplyRest(entries, u);
        ApplyKeepsJar(entries[1..], u);
        ApplyIsMapUpdate(entries[1..], u);
        JarCons(entries[0], Apply(entries[1..], u));
      }
    }
  }

  lemma NamesCons(first: string, rest: seq<string>)
    ensures Names([first] + rest) == [NameOf(first)] + Names(rest)
  {
    assert ([first] + rest)[1..] == rest;
  }

  /** A cookie keeps its place when it is set again; a new one comes last. */
  lemma {:induction false} ApplyKeepsPlaces(entries: seq<string>, u: Update)
    requires IsJar(entries) && IsUpdate(u) && u.entry.Some?
    ensures Names(Apply(entries, u)) == if Get(entries, u.key).Some? then Names(entries) else Names(entries) + [u.key]
  {
    if entries == [] {
      NamesCons(u.entry.value, []);
      assert [u.entry.value] + [] == Apply(entries, u);
    } else {
      JarTail(entries);
      var first, rest := entries[0], entries[1..];
      assert entries == [first] + rest;
      NamesCons(first, rest);
      if NameOf(first) == u.key {
        ApplyFirst(entries, u);
        NamesCons(u.entry.value, rest);
      } else {
        ApplyRest(entries, u);
        ApplyKeepsPlaces(rest, u);
        NamesCons(first, Apply(rest, u));
        assert [NameOf(first)] + (Names(rest) + [u.key]) == ([NameOf(first)] + Names(rest)) + [u.key];
      }
    }
  }

  // ---------------------------------------------------------------- runs

  function ApplyAll(entries: seq<string>, us: seq<Update>): seq<string>
    decreases |us|
  {
    if us == [] then entries else ApplyAll(Apply(entries, us[0]), us[1..])
  }

  /** The text after the updates. */
  function RunText(s: string, us: seq<Update>): string
    decreases |us|
  {
    if us == [] then s else RunText(Join(Updated(Entries(s), us[0].key, us[0].entry), "; "), us[1..])
  }

  /** The string refines the ordered map: after any updates it is the text of the map. */
  lemma {:induction false} TextRefinesJar(entries: seq<string>, us: seq<Update>)
    requires IsJar(entries) && forall u :: u in us ==> IsUpdate(u)
    ensures RunText(Join(entries, "; "), us) == Join(ApplyAll(entries, us), "; ")
    ensures IsJar(ApplyAll(entries, us)) && Entries(RunText(Join(entries, "; "), us)) == ApplyAll(entries, us)
    decreases |us|
  {
    JarText(entries);
    if us != [] {
      ApplyKeepsJar(entries, us[0]);
      TextRefinesJar(Apply(entries, us[0]), us[1..]);
    }
  }

  lemma JarText(entries: seq<string>)
    requires IsJar(entries)
    ensures Entries(Join(entries, "; ")) == entries
  {
    forall i | 0 <= i < |entries| ensures IsEntry(entries[i]) && entries[i] != "" {
      assert IsCookie(entries[i]);
    }
    EntriesRoundTrip(entries);
  }

  lemma {:induction false} GetOther(entries: seq<string>, name: string, key: string)
    requires name != key
    ensures Get(Others(entries, key), name) == Get(entries, name)
  {
    if entries != [] {
      GetOther(entries[1..], name, key);
      if NameOf(entries[0]) != key {
        assert ([entries[0]] + Others(entries[1..], key))[1..] == Others(entries[1..], key);
      } else {
        assert [] + Others(entries[1..], key) == Others(entries[1..], key);
      }
    }
  }

  lemma ApplyKeepsOthers(entries: seq<string>, u: Update, name: string)
    requires IsJar(entries) && IsUpdate(u) && name != u.key
    ensures Get(Apply(entries, u), name) == Get(entries, name)
  {
    ApplyIsMapUpdate(entries, u);
    GetOther(entries, name, u.key);
    GetOther(Apply(entries, u), name, u.key);
  }

  // ---------------------------------------------------------------- looking a record up

  predicate OccursAt(s: string, t: string, j: int) {
    0 <= j && j + |t| <= |s| && forall k :: 0 <= k < |t| ==> s[j + k] == t[k]
  }

  lemma OccursSlice(s: string, t: string, j: nat)
    requires j + |t| <= |s|
    ensures OccursAt(s, t, j) <==> s[j..j + |t|] == t
  {
  }

  lemma OccursLater(s: string, t: string, d: nat, j: int)
    requires d <= |s| && d <= j
    ensures OccursAt(s, t, j) <==> OccursAt(s[d..], t, j - d)
  {
    if j + |t| <= |s| {
      assert s[j..j + |t|] == s[d..][j - d..j - d + |t|];
      OccursSlice(s, t, j);
      OccursSlice(s[d..], t, j - d);
    }
  }

  lemma OccursInTail(s: string, t: string)
    requires s != []
    ensures forall j {:trigger OccursAt(s, t, j)} :: j > 0 ==> (OccursAt(s, t, j) <==> OccursAt(s[1..], t, j - 1))
  {
    forall j {:trigger OccursAt(s, t, j)} | j > 0 ensures OccursAt(s, t, j) <==> OccursAt(s[1..], t, j - 1) {
      OccursLater(s, t, 1, j);
    }
  }

  lemma CharWithin(s: string, t: string, j: int, p: int)
    requires OccursAt(s, t, j) && j <= p < j + |t|
    ensures s[p] in t && (p == j ==> s[p] == t[0])
  {
    assert s[j + (p - j)] == t[p - j];
  }

  /** String.prototype.indexOf */
  function FirstIndex(s: string, t: string): (r: int)
    ensures r == -1 || 0 <= r <= |s| - |t|
  {
    if OccursAt(s, t, 0) then 0
    else if s == [] then -1
    else
      var r := FirstIndex(s[1..], t);
      if r == -1 then -1 else r + 1
  }

  lemma {:induction false} FirstIndexIsFirst(s: string, t: string)
    ensures FirstIndex(s, t) == -1 ==> forall j :: !OccursAt(s, t, j)
    ensures FirstIndex(s, t) != -1 ==> OccursAt(s, t, FirstIndex(s, t)) && forall j :: j < FirstIndex(s, t) ==> !OccursAt(s, t, j)
  {
    if !OccursAt(s, t, 0) && s != [] {
      FirstIndexIsFirst(s[1..], t);
      OccursInTail(s, t);
    }
  }

  predicate EndsAt(s: string, end: nat)
    requires end <= |s|
  {
    |s| == end || s[end] == ';'
  }

  /** isSyncCookieExists */
  predicate IsSyncCookieExists(record: string, clientCookieStr: string) {
    var start := FirstIndex(clientCookieStr, record);
    start > -1 && EndsAt(clientCookieStr, start + |record|)
  }

  /** The first entry that contains the record has its first occurrence at the end. */
  predicate EndsFirstHolder(entries: seq<string>, record: string) {
    if entries == [] then false else
    var start := FirstIndex(entries[0], record);
    if start > -1 then start + |record| == |entries[0]| else EndsFirstHolder(entries[1..], record)
  }

  predicate IsRecordText(record: string) {
    record != "" && ';' !in record && !IsSpace(record[0])
  }

  lemma FirstIs(s: string, t: string, r: int)
    requires OccursAt(s, t, r) && forall j :: j < r ==> !OccursAt(s, t, j)
    ensures FirstIndex(s, t) == r
  {
    FirstIndexIsFirst(s, t);
  }

  lemma OccursWithin(first: string, rest: string, record: string, j: int)
    requires j + |record| <= |first|
    ensures OccursAt(first + rest, record, j) <==> OccursAt(first, record, j)
  {
  }

  lemma IndexWithin(first: string, rest: string, record: string)
    requires FirstIndex(first, record) > -1
    ensures FirstIndex(first + rest, record) == FirstIndex(first, record)
  {
    var r := FirstIndex(first, record);
    FirstIndexIsFirst(first, record);
    forall j | j <= r ensures OccursAt(first + rest, record, j) <==> j == r {
      OccursWithin(first, rest, record, j);
    }
    FirstIs(first + rest, record, r);
  }

  lemma OccursAfter(first: string, rest: string, record: string, j: int)
    requires IsRecordText(record) && FirstIndex(first, record) == -1
    ensures OccursAt(first + "; " + rest, record, j) <==> OccursAt(rest, record, j - |first| - 2)
  {
    FirstIndexIsFirst(first, record);
    var s, d := first + "; " + rest, |first| + 2;
    assert s[d..] == rest && s[|first|] == ';' && s[|first| + 1] == ' ';
    if j >= d {
      OccursLater(s, record, d, j);
    } else if j + |record| <= |first| {
      assert s == first + ("; " + rest);
      OccursWithin(first, "; " + rest, record, j);
    } else if OccursAt(s, record, j) {
      CharWithin(s, record, j, if j <= |first| then |first| else j);
    }
  }

  lemma IndexAfter(first: string, rest: string, record: string)
    requires IsRecordText(record) && FirstIndex(first, record) == -1
    ensures FirstIndex(first + "; " + rest, record)
         == if FirstIndex(rest, record) == -1 then -1 else |first| + 2 + FirstIndex(rest, record)
  {
    var s, r, d := first + "; " + rest, FirstIndex(rest, record), |first| + 2;
    FirstIndexIsFirst(s, record);
    FirstIndexIsFirst(rest, record);
    forall j ensures OccursAt(s, record, j) <==> OccursAt(rest, record, j - d) { OccursAfter(first, rest, record, j); }
    if r != -1 {
      assert (r + d) - d == r;
      FirstIs(s, record, r + d);
    }
  }

  /** What the search in the text answers, in terms of the entries. */
  lemma {:induction false} SearchMeansEntry(entries: seq<string>, record: string)
    requires IsRecordText(record) && forall e :: e in entries ==> ';' !in e
    ensures IsSyncCookieExists(record, Join(entries, "; ")) <==> EndsFirstHolder(entries, record)
  {
    if entries == [] {
      assert Join(entries, "; ") == "";
    } else if |entries| == 1 {
      assert Join(entries, "; ") == entries[0] && ';' !in entries[0];
      assert entries[1..] == [];
    } else {
      var first, rest := entries[0], Join(entries[1..], "; ");
      if FirstIndex(first, record) > -1 {
        SearchHit(first, rest, record);
      } else {
        SearchMeansEntry(entries[1..], record);
        SearchMiss(first, rest, record);
      }
    }
  }

  lemma SearchHit(first: string, rest: string, record: string)
    requires ';' !in first && FirstIndex(first, record) > -1
    ensures IsSyncCookieExists(record, first + "; " + rest) <==> FirstIndex(first, record) + |record| == |first|
  {
    var start := FirstIndex(first, record);
    Assoc(first, "; ", rest);
    IndexWithin(first, "; " + rest, record);
    EndInFirst(first, rest, start + |record|);
  }

  lemma SearchMiss(first: string, rest: string, record: string)
    requires IsRecordText(record) && FirstIndex(first, record) == -1
    ensures IsSyncCookieExists(record, first + "; " + rest) <==> IsSyncCookieExists(record, rest)
  {
    var later := FirstIndex(rest, record);
    IndexAfter(first, rest, record);
    if later > -1 { EndInRest(first, rest, later + |record|); }
  }

  lemma EndInFirst(first: string, rest: string, end: nat)
    requires ';' !in first && end <= |first|
    ensures EndsAt(first + "; " + rest, end) <==> end == |first|
  {
  }

  lemma EndInRest(first: string, rest: string, end: nat)
    requires end <= |rest|
    ensures EndsAt(first + "; " + rest, |first| + 2 + end) <==> EndsAt(rest, end)
  {
    if end < |rest| { assert (first + "; " + rest)[|first| + 2 + end] == rest[end]; }
  }

  /** When only the record itself contains its text, it is found exactly when it is in the list. */
  lemma {:induction false} FoundExactly(entries: seq<string>, record: string)
    requires IsRecordText(record) && forall e :: e in entries ==> (FirstIndex(e, record) > -1 ==> e == record)
    ensures EndsFirstHolder(entries, record) <==> record in entries
  {
    FirstIs(record, record, 0);
    if entries != [] {
      FoundExactly(entries[1..], record);
      assert entries == [entries[0]] + entries[1..];
    }
  }

  /** Otherwise a record of the windows is found inside one of the client and the windows. */
  lemma FoundInsideAnother()
    ensures IsSyncCookieExists("w|s|k|d|p||a|=1", "cw|s|k|d|p||a|=1")
  {
    var record, s := "w|s|k|d|p||a|=1", "cw|s|k|d|p||a|=1";
    assert OccursAt(s, record, 1);
    if OccursAt(s, record, 0) { CharWithin(s, record, 0, 0); }
    FirstIs(s, record, 1);
  }
}
