/** Delivering the cookies of a synchronization message, once and again. src/client/sandbox/cookie/index.ts */
module CookieRedelivery {
  import opened Prelude
  import opened Text
  import opened ClientCookies

  // ---------------------------------------------------------------- one delivery

  /** A cookie of a message: the text of its record, and the update that setCookie makes of it, None when
      the page may not see the cookie. */
  datatype WindowCookie = WindowCookie(record: string, update: Option<Update>)

  /** The updates of the cookies whose records the document has. */
  function Delivered(cookies: seq<WindowCookie>, clientCookie: string): seq<Update> {
    if cookies == [] then [] else
    (if IsSyncCookieExists(cookies[0].record, clientCookie) && cookies[0].update.Some? then [cookies[0].update.value] else [])
    + Delivered(cookies[1..], clientCookie)
  }

  /** syncWindowCookie; `clientCookie` is the cookie text of the document. */
  method SyncWindowCookie(settings: Settings, parsedCookies: seq<WindowCookie>, clientCookie: string)
    modifies settings
    ensures settings.cookie == RunText(old(settings.cookie), Delivered(parsedCookies, clientCookie))
  {
    var i := 0;
    assert parsedCookies[0..] == parsedCookies;
    while i < |parsedCookies|
      invariant 0 <= i <= |parsedCookies|
      invariant RunText(settings.cookie, Delivered(parsedCookies[i..], clientCookie))
             == RunText(old(settings.cookie), Delivered(parsedCookies, clientCookie))
    {
      var parsedCookie := parsedCookies[i];
      ghost var others := Delivered(parsedCookies[i + 1..], clientCookie);
      assert parsedCookies[i..][1..] == parsedCookies[i + 1..];
      if IsSyncCookieExists(parsedCookie.record, clientCookie) && parsedCookie.update.Some? {
        var u := parsedCookie.update.value;
        RunCons(settings.cookie, u, others);
        settings.UpdateClientCookieStr(u.key, u.entry);
      } else {
        assert [] + others == others;
      }
      i := i + 1;
    }
    assert parsedCookies[i..] == [];
  }

  lemma RunCons(s: string, u: Update, us: seq<Update>)
    ensures RunText(s, [u] + us) == RunText(Join(Updated(Entries(s), u.key, u.entry), "; "), us)
  {
    assert ([u] + us)[1..] == us;
  }

  predicate Takes(cookie: WindowCookie, clientCookie: string) {
    IsSyncCookieExists(cookie.record, clientCookie) && cookie.update.Some?
  }

  /** The updates are those of the cookies at the places, from i on. */
  predicate Picked(cookies: seq<WindowCookie>, i: nat, us: seq<Update>, at: seq<nat>) {
    && |at| == |us|
    && (forall k :: 0 <= k < |at| ==> i <= at[k] < |cookies| && cookies[at[k]].update == Some(us[k]))
    && (forall k, l :: 0 <= k < l < |at| ==> at[k] < at[l])
  }

  lemma PickedBefore(cookies: seq<WindowCookie>, i: nat, us: seq<Update>, at: seq<nat>, u: Update)
    requires i < |cookies| && cookies[i].update == Some(u) && Picked(cookies, i + 1, us, at)
    ensures Picked(cookies, i, [u] + us, [i] + at)
  {
  }

  lemma {:induction false} DeliveredFrom(cookies: seq<WindowCookie>, i: nat, clientCookie: string) returns (at: seq<nat>)
    requires i <= |cookies|
    ensures Picked(cookies, i, Delivered(cookies[i..], clientCookie), at)
    ensures forall j :: i <= j < |cookies| ==> (j in at <==> Takes(cookies[j], clientCookie))
    decreases |cookies| - i
  {
    if i == |cookies| {
      at := [];
    } else {
      var rest := DeliveredFrom(cookies, i + 1, clientCookie);
      var us := Delivered(cookies[i + 1..], clientCookie);
      assert cookies[i..][0] == cookies[i] && cookies[i..][1..] == cookies[i + 1..];
      if Takes(cookies[i], clientCookie) {
        PickedBefore(cookies, i, us, rest, cookies[i].update.value);
        at := [i] + rest;
      } else {
        assert [] + us == us;
        at := rest;
      }
    }
  }

  /** The updates of one delivery are those of the cookies that the page may see and whose records the document has, in
      order. */
  lemma DeliveredExactly(cookies: seq<WindowCookie>, clientCookie: string) returns (at: seq<nat>)
    ensures |at| == |Delivered(cookies, clientCookie)|
    ensures forall k :: 0 <= k < |at| ==> at[k] < |cookies| && cookies[at[k]].update == Some(Delivered(cookies, clientCookie)[k])
    ensures forall k, l :: 0 <= k < l < |at| ==> at[k] < at[l]
    ensures forall i :: 0 <= i < |cookies| ==> (i in at <==> IsSyncCookieExists(cookies[i].record, clientCookie) && cookies[i].update.Some?)
  {
    at := DeliveredFrom(cookies, 0, clientCookie);
    assert cookies[0..] == cookies;
    forall i | 0 <= i < |cookies| ensures i in at <==> IsSyncCookieExists(cookies[i].record, clientCookie) && cookies[i].update.Some? {
      assert i in at <==> Takes(cookies[i], clientCookie);
    }
  }

  // ---------------------------------------------------------------- values

  /** What the last update of the name says; without one the cookie before. */
  function LastSaid(us: seq<Update>, name: string, before: Option<string>): Option<string>
    decreases |us|
  {
    if us == [] then before else LastSaid(us[1..], name, if us[0].key == name then us[0].entry else before)
  }

  lemma {:induction false} GetAfter(entries: seq<string>, us: seq<Update>, name: string)
    requires IsJar(entries) && forall u :: u in us ==> IsUpdate(u)
    ensures IsJar(ApplyAll(entries, us)) && Get(ApplyAll(entries, us), name) == LastSaid(us, name, Get(entries, name))
    decreases |us|
  {
    if us != [] {
      assert us[0] in us;
      ApplyKeepsJar(entries, us[0]);
      if us[0].key == name { ApplyIsMapUpdate(entries, us[0]); } else { ApplyKeepsOthers(entries, us[0], name); }
      GetAfter(Apply(entries, us[0]), us[1..], name);
    }
  }

  lemma {:induction false} SaidTwice(us: seq<Update>, name: string, before: Option<string>, other: Option<string>)
    ensures LastSaid(us, name, before) == LastSaid(us, name, other)
         || (LastSaid(us, name, before) == before && LastSaid(us, name, other) == other)
    ensures LastSaid(us, name, LastSaid(us, name, before)) == LastSaid(us, name, before)
    decreases |us|
  {
    if us != [] {
      var next := if us[0].key == name then us[0].entry else before;
      SaidTwice(us[1..], name, next, if us[0].key == name then us[0].entry else other);
      SaidTwice(us[1..], name, next, if us[0].key == name then us[0].entry else LastSaid(us, name, before));
    }
  }

  /** Delivering any list again leaves the cookie of every name as it is. */
  lemma RedeliveryKeepsValues(entries: seq<string>, us: seq<Update>, name: string)
    requires IsJar(entries) && forall u :: u in us ==> IsUpdate(u)
    ensures Get(ApplyAll(ApplyAll(entries, us), us), name) == Get(ApplyAll(entries, us), name)
  {
    GetAfter(entries, us, name);
    GetAfter(ApplyAll(entries, us), us, name);
    SaidTwice(us, name, Get(entries, name), Get(ApplyAll(entries, us), name));
  }

  // ---------------------------------------------------------------- order

  function DropName(names: seq<string>, name: string): seq<string> {
    if names == [] then [] else (if names[0] == name then [] else [names[0]]) + DropName(names[1..], name)
  }

  /** The names after an update: a new one comes last, a removed one disappears. */
  function NameStep(names: seq<string>, u: Update): seq<string> {
    if u.entry.None? then DropName(names, u.key) else if u.key in names then names else names + [u.key]
  }

  function NameRun(names: seq<string>, us: seq<Update>): seq<string>
    decreases |us|
  {
    if us == [] then names else NameRun(NameStep(names, us[0]), us[1..])
  }

  lemma {:induction false} NamesOfOthers(entries: seq<string>, name: string)
    ensures Names(Others(entries, name)) == DropName(Names(entries), name)
    ensures name in Names(entries) <==> Get(entries, name).Some?
  {
    if entries != [] {
      var first, rest := entries[0], Others(entries[1..], name);
      NamesOfOthers(entries[1..], name);
      assert entries == [first] + entries[1..];
      NamesCons(first, entries[1..]);
      assert [] + rest == rest && [] + DropName(Names(entries[1..]), name) == DropName(Names(entries[1..]), name);
      NamesCons(first, rest);
    }
  }

  lemma {:induction false} OthersOfAbsent(entries: seq<string>, name: string)
    requires Get(entries, name).None?
    ensures Others(entries, name) == entries
  {
    if entries != [] {
      OthersOfAbsent(entries[1..], name);
      assert entries == [entries[0]] + entries[1..];
    }
  }

  lemma NamesStep(entries: seq<string>, u: Update)
    requires IsJar(entries) && IsUpdate(u)
    ensures Names(Apply(entries, u)) == NameStep(Names(entries), u)
  {
    NamesOfOthers(entries, u.key);
    if u.entry.Some? {
      ApplyKeepsPlaces(entries, u);
    } else {
      ApplyIsMapUpdate(entries, u);
      OthersOfAbsent(Apply(entries, u), u.key);
    }
  }

  lemma {:induction false} NamesAfter(entries: seq<string>, us: seq<Update>)
    requires IsJar(entries) && forall u :: u in us ==> IsUpdate(u)
    ensures IsJar(ApplyAll(entries, us)) && Names(ApplyAll(entries, us)) == NameRun(Names(entries), us)
    decreases |us|
  {
    if us != [] {
      assert us[0] in us;
      ApplyKeepsJar(entries, us[0]);
      NamesStep(entries, us[0]);
      NamesAfter(Apply(entries, us[0]), us[1..]);
    }
  }

  /** The names in order and the cookie of each name make up the jar. */
  lemma {:induction false} JarIsNamesAndValues(a: seq<string>, b: seq<string>)
    requires IsJar(a) && IsJar(b) && Names(a) == Names(b) && forall name :: Get(a, name) == Get(b, name)
    ensures a == b
  {
    if a == [] || b == [] {
      assert Names(a) == Names(b) && (a != [] ==> Names(a) != []) && (b != [] ==> Names(b) != []);
    } else {
      JarTail(a);
      JarTail(b);
      var first := NameOf(a[0]);
      assert Names(a)[0] == first && Names(b)[0] == NameOf(b[0]);
      assert Names(a)[1..] == Names(a[1..]) && Names(b)[1..] == Names(b[1..]);
      assert Get(a, first) == Some(a[0]) && Get(b, first) == Some(b[0]);
      forall name ensures Get(a[1..], name) == Get(b[1..], name) {
        if name == first {
          AbsentName(a[1..], first);
          AbsentName(b[1..], first);
        } else {
          assert Get(a, name) == Get(a[1..], name) && Get(b, name) == Get(b[1..], name);
        }
      }
      JarIsNamesAndValues(a[1..], b[1..]);
      assert a == [a[0]] + a[1..] && b == [b[0]] + b[1..];
    }
  }

  lemma {:induction false} AbsentName(entries: seq<string>, name: string)
    requires forall e :: e in entries ==> NameOf(e) != name
    ensures Get(entries, name) == None
  {
    if entries != [] { AbsentName(entries[1..], name); }
  }

  // ---------------------------------------------------------------- which names a list moves to the end

  /** A cookie of the name is there before the k-th update; `start` tells whether one was there at first. */
  predicate Present(us: seq<Update>, name: string, start: bool, k: nat)
    requires k <= |us|
  {
    if k == 0 then start else if us[k - 1].key == name then us[k - 1].entry.Some? else Present(us, name, start, k - 1)
  }

  /** The name is removed by an update from k on. */
  predicate Removes(us: seq<Update>, name: string, k: nat) {
    exists i :: k <= i < |us| && us[i].key == name && us[i].entry.None?
  }

  /** The k-th update adds a cookie that stays until the end of the list. */
  predicate Adds(us: seq<Update>, names: seq<string>, k: nat)
    requires k < |us|
  {
    us[k].entry.Some? && !Present(us, us[k].key, us[k].key in names, k) && !Removes(us, us[k].key, k)
  }

  /** The names that are added from the i-th update on and stay, in order. */
  function Added(us: seq<Update>, names: seq<string>, i: nat): seq<string>
    requires i <= |us|
    decreases |us| - i
  {
    if i == |us| then [] else (if Adds(us, names, i) then [us[i].key] else []) + Added(us, names, i + 1)
  }

  /** The names that are not removed from the i-th update on. */
  function Staying(names: seq<string>, us: seq<Update>, i: nat): seq<string> {
    if names == [] then [] else (if Removes(us, names[0], i) then [] else [names[0]]) + Staying(names[1..], us, i)
  }

  lemma RemovesNext(us: seq<Update>, name: string, i: nat)
    requires i < |us|
    ensures Removes(us, name, i) <==> (us[i].key == name && us[i].entry.None?) || Removes(us, name, i + 1)
  {
  }

  lemma {:induction false} DropMeans(names: seq<string>, name: string)
    ensures forall n :: n in DropName(names, name) <==> n in names && n != name
  {
    if names != [] { DropMeans(names[1..], name); }
  }

  lemma {:induction false} StayingAfterDrop(names: seq<string>, us: seq<Update>, i: nat)
    requires i < |us| && us[i].entry.None?
    ensures Staying(DropName(names, us[i].key), us, i + 1) == Staying(names, us, i)
  {
    if names != [] {
      var dropped := DropName(names[1..], us[i].key);
      StayingAfterDrop(names[1..], us, i);
      RemovesNext(us, names[0], i);
      assert [] + dropped == dropped && ([names[0]] + dropped)[1..] == dropped;
      assert [] + Staying(names[1..], us, i) == Staying(names[1..], us, i);
    }
  }

  lemma {:induction false} StayingAfterSet(names: seq<string>, us: seq<Update>, i: nat)
    requires i < |us| && us[i].entry.Some?
    ensures Staying(names, us, i + 1) == Staying(names, us, i)
  {
    if names != [] {
      StayingAfterSet(names[1..], us, i);
      RemovesNext(us, names[0], i);
    }
  }

  lemma {:induction false} StayingAppend(names: seq<string>, name: string, us: seq<Update>, i: nat)
    ensures Staying(names + [name], us, i) == Staying(names, us, i) + if Removes(us, name, i) then [] else [name]
  {
    if names == [] {
      assert [] + [name] == [name] && [name][1..] == [];
      assert Staying([name], us, i) == (if Removes(us, name, i) then [] else [name]) + [];
    } else {
      StayingAppend(names[1..], name, us, i);
      assert (names + [name])[1..] == names[1..] + [name];
      Regroup(if Removes(us, names[0], i) then [] else [names[0]], Staying(names[1..], us, i), if Removes(us, name, i) then [] else [name]);
    }
  }

  lemma Regroup(a: seq<string>, b: seq<string>, c: seq<string>)
    ensures a + (b + c) == (a + b) + c
  {
  }

  /** The names that are there are those that the updates so far leave. */
  ghost predicate NamesAt(names: seq<string>, us: seq<Update>, first: seq<string>, i: nat) {
    i <= |us| && forall n :: n in names <==> Present(us, n, n in first, i)
  }

  lemma NamesAtNext(names: seq<string>, us: seq<Update>, first: seq<string>, i: nat)
    requires i < |us| && NamesAt(names, us, first, i)
    ensures NamesAt(NameStep(names, us[i]), us, first, i + 1)
  {
    DropMeans(names, us[i].key);
  }

  /** The names after the remaining updates: those that stay, and then those that are added. */
  lemma {:induction false} RunIsStayingAndAdded(names: seq<string>, us: seq<Update>, first: seq<string>, i: nat)
    requires i <= |us| && NamesAt(names, us, first, i)
    ensures NameRun(names, us[i..]) == Staying(names, us, i) + Added(us, first, i)
    decreases |us| - i
  {
    if i == |us| {
      StayingAtEnd(names, us);
      assert names + [] == names;
    } else {
      var u, next := us[i], NameStep(names, us[i]);
      assert us[i..][0] == u && us[i..][1..] == us[i + 1..];
      NamesAtNext(names, us, first, i);
      RunIsStayingAndAdded(next, us, first, i + 1);
      StepStaysAndAdds(names, us, first, i);
    }
  }

  lemma StepStaysAndAdds(names: seq<string>, us: seq<Update>, first: seq<string>, i: nat)
    requires i < |us| && NamesAt(names, us, first, i)
    ensures Staying(NameStep(names, us[i]), us, i + 1) + Added(us, first, i + 1) == Staying(names, us, i) + Added(us, first, i)
  {
    var u, own, rest := us[i], if Adds(us, first, i) then [us[i].key] else [], Added(us, first, i + 1);
    if u.entry.None? {
      StayingAfterDrop(names, us, i);
      assert [] + rest == rest;
    } else {
      StayingAfterSet(names, us, i);
      RemovesNext(us, u.key, i);
      if u.key !in names { StayingAppend(names, u.key, us, i + 1); }
      assert Staying(NameStep(names, u), us, i + 1) == Staying(names, us, i) + own;
      Regroup(Staying(names, us, i), own, rest);
    }
  }

  lemma {:induction false} StayingAtEnd(names: seq<string>, us: seq<Update>)
    ensures Staying(names, us, |us|) == names
  {
    if names != [] {
      StayingAtEnd(names[1..], us);
      assert names == [names[0]] + names[1..];
    }
  }

  lemma WholeRun(names: seq<string>, us: seq<Update>)
    ensures NameRun(names, us) == Staying(names, us, 0) + Added(us, names, 0)
  {
    assert us[0..] == us;
    RunIsStayingAndAdded(names, us, names, 0);
  }

  // ---------------------------------------------------------------- what is added once more

  lemma {:induction false} PresentSame(us: seq<Update>, name: string, a: bool, b: bool, k: nat)
    requires k <= |us| && exists i :: 0 <= i < k && us[i].key == name
    ensures Present(us, name, a, k) == Present(us, name, b, k)
  {
    if us[k - 1].key != name { PresentSame(us, name, a, b, k - 1); }
  }

  lemma {:induction false} PresentStays(us: seq<Update>, name: string, k: nat)
    requires k <= |us| && !Removes(us, name, 0)
    ensures Present(us, name, true, k)
  {
    if k > 0 { PresentStays(us, name, k - 1); }
  }

  lemma {:induction false} NamesAtEnd(names: seq<string>, us: seq<Update>, first: seq<string>, i: nat)
    requires i <= |us| && NamesAt(names, us, first, i)
    ensures NamesAt(NameRun(names, us[i..]), us, first, |us|)
    decreases |us| - i
  {
    if i < |us| {
      assert us[i..][0] == us[i] && us[i..][1..] == us[i + 1..];
      NamesAtNext(names, us, first, i);
      NamesAtEnd(NameStep(names, us[i]), us, first, i + 1);
    }
  }

  lemma {:induction false} MentionedIsPresent(us: seq<Update>, name: string, start: bool, k: nat, i: nat)
    requires i < k <= |us| && us[i].key == name && !Removes(us, name, 0)
    ensures Present(us, name, start, k)
  {
    if us[k - 1].key != name { MentionedIsPresent(us, name, start, k - 1, i); }
  }

  /** A name that the list sets and never removes is there afterwards. */
  lemma SetIsThere(names: seq<string>, us: seq<Update>, k: nat)
    requires k < |us| && !Removes(us, us[k].key, 0)
    ensures us[k].key in NameRun(names, us)
  {
    assert us[0..] == us;
    NamesAtEnd(names, us, names, 0);
    MentionedIsPresent(us, us[k].key, us[k].key in names, |us|, k);
  }

  /** A second time the list adds exactly the names that it also removes. */
  lemma AddsAgain(us: seq<Update>, names: seq<string>, k: nat)
    requires k < |us|
    ensures Adds(us, NameRun(names, us), k) <==> Adds(us, names, k) && Removes(us, us[k].key, 0)
  {
    var key, once := us[k].key, NameRun(names, us);
    if us[k].entry.Some? && !Removes(us, key, k) {
      if Removes(us, key, 0) {
        PresentSame(us, key, key in names, key in once, k);
      } else {
        SetIsThere(names, us, k);
        PresentStays(us, key, k);
      }
    }
  }

  /** The names among the given ones that the list removes, or does not remove. */
  function Among(names: seq<string>, us: seq<Update>, removed: bool): seq<string> {
    if names == [] then [] else (if Removes(us, names[0], 0) == removed then [names[0]] else []) + Among(names[1..], us, removed)
  }

  lemma {:induction false} AddedAgain(us: seq<Update>, names: seq<string>, i: nat)
    requires i <= |us|
    ensures Added(us, NameRun(names, us), i) == Among(Added(us, names, i), us, true)
    decreases |us| - i
  {
    if i < |us| {
      AddsAgain(us, names, i);
      AddedAgain(us, names, i + 1);
      var rest := Added(us, names, i + 1);
      assert ([us[i].key] + rest)[1..] == rest && [] + rest == rest;
      assert [] + Among(rest, us, true) == Among(rest, us, true);
    }
  }

  lemma {:induction false} StayingOfStaying(names: seq<string>, us: seq<Update>)
    ensures Staying(Staying(names, us, 0), us, 0) == Staying(names, us, 0)
  {
    if names != [] {
      var rest := Staying(names[1..], us, 0);
      StayingOfStaying(names[1..], us);
      assert [] + rest == rest && ([names[0]] + rest)[1..] == rest;
    }
  }

  lemma {:induction false} StayingConcat(a: seq<string>, b: seq<string>, us: seq<Update>)
    ensures Staying(a + b, us, 0) == Staying(a, us, 0) + Among(b, us, false)
  {
    if a == [] {
      assert a + b == b && [] + Among(b, us, false) == Among(b, us, false);
      StayingIsAmong(b, us);
    } else {
      StayingConcat(a[1..], b, us);
      assert (a + b)[1..] == a[1..] + b;
      Regroup(if Removes(us, a[0], 0) then [] else [a[0]], Staying(a[1..], us, 0), Among(b, us, false));
    }
  }

  lemma {:induction false} StayingIsAmong(names: seq<string>, us: seq<Update>)
    ensures Staying(names, us, 0) == Among(names, us, false)
  {
    if names != [] { StayingIsAmong(names[1..], us); }
  }

  /** The names after a second delivery: those added for the first time come before those that the list
      removes and adds again. */
  lemma SecondRun(names: seq<string>, us: seq<Update>)
    ensures var added := Added(us, names, 0);
            && NameRun(names, us) == Staying(names, us, 0) + added
            && NameRun(NameRun(names, us), us) == Staying(names, us, 0) + (Among(added, us, false) + Among(added, us, true))
  {
    var once, added := NameRun(names, us), Added(us, names, 0);
    WholeRun(names, us);
    WholeRun(once, us);
    AddedAgain(us, names, 0);
    StayingOfStaying(names, us);
    StayingConcat(Staying(names, us, 0), added, us);
    assert Staying(Staying(names, us, 0) + added, us, 0) == Staying(names, us, 0) + Among(added, us, false) by {
      StayingIsAmong(Staying(names, us, 0), us);
    }
    Regroup(Staying(names, us, 0), Among(added, us, false), Among(added, us, true));
  }

  // ---------------------------------------------------------------- when the order stays

  /** No name that the list removes comes before one that it does not remove. */
  predicate Parted(names: seq<string>, us: seq<Update>) {
    forall p, q :: 0 <= p < q < |names| && Removes(us, names[p], 0) ==> Removes(us, names[q], 0)
  }

  lemma {:induction false} AmongMeans(names: seq<string>, us: seq<Update>, removed: bool)
    ensures forall n :: n in Among(names, us, removed) <==> n in names && Removes(us, n, 0) == removed
  {
    if names != [] { AmongMeans(names[1..], us, removed); }
  }

  lemma {:induction false} AmongAll(names: seq<string>, us: seq<Update>)
    requires forall n :: n in names ==> Removes(us, n, 0)
    ensures Among(names, us, false) == [] && Among(names, us, true) == names
  {
    if names != [] {
      assert names[0] in names;
      AmongAll(names[1..], us);
      assert names == [names[0]] + names[1..];
    }
  }

  lemma {:induction false} PartedExactly(names: seq<string>, us: seq<Update>)
    ensures Among(names, us, false) + Among(names, us, true) == names <==> Parted(names, us)
  {
    if names != [] {
      var x, rest, late, early := names[0], names[1..], Among(names[1..], us, true), Among(names[1..], us, false);
      assert names == [x] + rest;
      if Removes(us, x, 0) {
        AmongMeans(rest, us, false);
        FirstOfRemoved(names, us);
      } else {
        PartedExactly(rest, us);
        PartedTail(names, us);
        assert [] + late == late;
        assert ([x] + early) + late == [x] + (early + late);
        assert ([x] + (early + late))[1..] == early + late;
      }
    }
  }

  lemma PartedTail(names: seq<string>, us: seq<Update>)
    requires names != [] && !Removes(us, names[0], 0)
    ensures Parted(names, us) <==> Parted(names[1..], us)
  {
    var rest := names[1..];
    if Parted(names, us) {
      forall p, q | 0 <= p < q < |rest| && Removes(us, rest[p], 0) ensures Removes(us, rest[q], 0) {
        assert names[p + 1] == rest[p] && names[q + 1] == rest[q];
      }
    }
    if Parted(rest, us) {
      forall p, q | 0 <= p < q < |names| && Removes(us, names[p], 0) ensures Removes(us, names[q], 0) {
        assert p > 0 && names[p] == rest[p - 1] && names[q] == rest[q - 1];
      }
    }
  }

  /** A list of names whose first one is removed is in order exactly when all are removed. */
  lemma FirstOfRemoved(names: seq<string>, us: seq<Update>)
    requires names != [] && Removes(us, names[0], 0)
    ensures Among(names, us, false) + Among(names, us, true) == names <==> Parted(names, us)
  {
    var early, late := Among(names, us, false), Among(names, us, true);
    AmongMeans(names, us, false);
    if early == [] {
      forall q | 0 <= q < |names| ensures Removes(us, names[q], 0) {
        assert names[q] in names && (names[q] in early <==> !Removes(us, names[q], 0));
      }
      AmongAll(names, us);
      assert [] + names == names;
    } else {
      assert early[0] in early && (early + late)[0] == early[0];
      var q :| 0 <= q < |names| && names[q] == early[0];
    }
  }

  // ---------------------------------------------------------------- the condition on the updates

  /** The i-th update sets a key that was removed before and is not removed after it. */
  predicate SetsRemoved(us: seq<Update>, i: nat)
    requires i < |us|
  {
    us[i].entry.Some? && Removes(us, us[i].key, 0) && !Removes(us, us[i].key, i)
  }

  /** The j-th update is the first one of a key that the list never removes. */
  predicate FirstSet(us: seq<Update>, j: nat)
    requires j < |us|
  {
    !Removes(us, us[j].key, 0) && forall k :: 0 <= k < j ==> us[k].key != us[j].key
  }

  /** A key is set again after its removal, and later a name that was not there is set for the first time. */
  predicate Reorders(us: seq<Update>, names: seq<string>) {
    exists i, j :: 0 <= i < j < |us| && SetsRemoved(us, i) && FirstSet(us, j) && us[j].key !in names
  }

  /** The same for some jar. */
  predicate CanReorder(us: seq<Update>) {
    Reorders(us, [])
  }

  lemma {:induction false} PresentUnmentioned(us: seq<Update>, name: string, start: bool, k: nat)
    requires k <= |us| && forall i :: 0 <= i < k ==> us[i].key != name
    ensures Present(us, name, start, k) == start
  {
    if k > 0 { PresentUnmentioned(us, name, start, k - 1); }
  }

  /** A name that is never removed is added by its first update, if it was not there. */
  lemma AddsUnremoved(us: seq<Update>, names: seq<string>, k: nat)
    requires k < |us| && !Removes(us, us[k].key, 0)
    ensures Adds(us, names, k) <==> FirstSet(us, k) && us[k].key !in names
  {
    var key := us[k].key;
    if i :| 0 <= i < k && us[i].key == key {
      MentionedIsPresent(us, key, key in names, k, i);
    } else {
      PresentUnmentioned(us, key, key in names, k);
    }
  }

  /** The last update of the name before k. */
  lemma LastUpdate(us: seq<Update>, name: string, start: bool, k: nat) returns (i: nat)
    requires k <= |us| && exists l :: 0 <= l < k && us[l].key == name
    ensures i < k && us[i].key == name && Present(us, name, start, k) == us[i].entry.Some?
    ensures forall l :: i < l < k ==> us[l].key != name
  {
    if us[k - 1].key == name { i := k - 1; } else { i := LastUpdate(us, name, start, k - 1); }
  }

  /** A key that is set again after its removal is added then or by an earlier update. */
  lemma {:induction false} SetRemovedIsAdded(us: seq<Update>, names: seq<string>, i: nat) returns (k: nat)
    requires i < |us| && SetsRemoved(us, i)
    ensures k <= i && us[k].key == us[i].key && Adds(us, names, k)
  {
    var key := us[i].key;
    if Present(us, key, key in names, i) {
      var l := LastUpdate(us, key, key in names, i);
      forall m | l <= m < |us| && us[m].key == key ensures us[m].entry.Some? {
        if m >= i { assert !Removes(us, key, i); }
      }
      k := SetRemovedIsAdded(us, names, l);
    } else {
      k := i;
    }
  }

  /** The places of the updates that add the names. */
  lemma {:induction false} AddedBy(us: seq<Update>, names: seq<string>, i: nat, p: nat, q: nat) returns (k: nat, l: nat)
    requires i <= |us| && p < q < |Added(us, names, i)|
    ensures i <= k < l < |us| && Adds(us, names, k) && Adds(us, names, l)
    ensures us[k].key == Added(us, names, i)[p] && us[l].key == Added(us, names, i)[q]
    decreases |us| - i
  {
    var rest := Added(us, names, i + 1);
    if !Adds(us, names, i) {
      assert Added(us, names, i) == [] + rest == rest;
      k, l := AddedBy(us, names, i + 1, p, q);
    } else if p == 0 {
      k := i;
      l := AddedByOne(us, names, i + 1, q - 1);
    } else {
      k, l := AddedBy(us, names, i + 1, p - 1, q - 1);
    }
  }

  lemma {:induction false} AddedByOne(us: seq<Update>, names: seq<string>, i: nat, p: nat) returns (k: nat)
    requires i <= |us| && p < |Added(us, names, i)|
    ensures i <= k < |us| && Adds(us, names, k) && us[k].key == Added(us, names, i)[p]
    decreases |us| - i
  {
    var rest := Added(us, names, i + 1);
    if !Adds(us, names, i) {
      assert Added(us, names, i) == [] + rest == rest;
      k := AddedByOne(us, names, i + 1, p);
    } else if p == 0 {
      k := i;
    } else {
      k := AddedByOne(us, names, i + 1, p - 1);
    }
  }

  /** Where the names that two updates add are in the list of added names. */
  lemma {:induction false} AddedAt(us: seq<Update>, names: seq<string>, i: nat, k: nat, l: nat) returns (p: nat, q: nat)
    requires i <= k < l < |us| && Adds(us, names, k) && Adds(us, names, l)
    ensures p < q < |Added(us, names, i)| && Added(us, names, i)[p] == us[k].key && Added(us, names, i)[q] == us[l].key
    decreases |us| - i
  {
    var rest := Added(us, names, i + 1);
    if k == i {
      var r := AddedAtOne(us, names, i + 1, l);
      p, q := 0, r + 1;
    } else {
      p, q := AddedAt(us, names, i + 1, k, l);
      if Adds(us, names, i) { p, q := p + 1, q + 1; } else { assert [] + rest == rest; }
    }
  }

  lemma {:induction false} AddedAtOne(us: seq<Update>, names: seq<string>, i: nat, l: nat) returns (q: nat)
    requires i <= l < |us| && Adds(us, names, l)
    ensures q < |Added(us, names, i)| && Added(us, names, i)[q] == us[l].key
    decreases |us| - i
  {
    var rest := Added(us, names, i + 1);
    if l == i {
      q := 0;
    } else {
      q := AddedAtOne(us, names, i + 1, l);
      if Adds(us, names, i) { q := q + 1; } else { assert [] + rest == rest; }
    }
  }

  lemma PartedAdded(us: seq<Update>, names: seq<string>)
    ensures Parted(Added(us, names, 0), us) <==> !Reorders(us, names)
  {
    var added := Added(us, names, 0);
    if i, j :| 0 <= i < j < |us| && SetsRemoved(us, i) && FirstSet(us, j) && us[j].key !in names {
      AddsUnremoved(us, names, j);
      var k := SetRemovedIsAdded(us, names, i);
      var p, q := AddedAt(us, names, 0, k, j);
      assert Removes(us, added[p], 0) && !Removes(us, added[q], 0);
    } else {
      forall p, q | 0 <= p < q < |added| && Removes(us, added[p], 0) ensures Removes(us, added[q], 0) {
        var k, l := AddedBy(us, names, 0, p, q);
        if !Removes(us, us[l].key, 0) {
          AddsUnremoved(us, names, l);
          assert SetsRemoved(us, k);
        }
      }
    }
  }

  /** The order of the names stays exactly when the list does not reorder them. */
  lemma NamesStayExactly(names: seq<string>, us: seq<Update>)
    ensures NameRun(NameRun(names, us), us) == NameRun(names, us) <==> !Reorders(us, names)
  {
    var added, front := Added(us, names, 0), Staying(names, us, 0);
    SecondRun(names, us);
    PartedExactly(added, us);
    PartedAdded(us, names);
    SameBehind(front, Among(added, us, false) + Among(added, us, true), added);
  }

  lemma SameBehind(front: seq<string>, a: seq<string>, b: seq<string>)
    ensures front + a == front + b <==> a == b
  {
    assert (front + a)[|front|..] == a && (front + b)[|front|..] == b;
  }

  // ---------------------------------------------------------------- results

  /** Delivering a list again changes nothing, not even the order, exactly when the list does not set a key
      again after its removal and later, for the first time, a key that the jar did not have and that the
      list never removes. */
  lemma RedeliveryIsHarmless(entries: seq<string>, us: seq<Update>)
    requires IsJar(entries) && forall u :: u in us ==> IsUpdate(u)
    ensures ApplyAll(ApplyAll(entries, us), us) == ApplyAll(entries, us) <==> !Reorders(us, Names(entries))
  {
    var once := ApplyAll(entries, us);
    var twice := ApplyAll(once, us);
    NamesAfter(entries, us);
    NamesAfter(once, us);
    NamesStayExactly(Names(entries), us);
    if !Reorders(us, Names(entries)) {
      forall name ensures Get(twice, name) == Get(once, name) { RedeliveryKeepsValues(entries, us, name); }
      JarIsNamesAndValues(twice, once);
    }
  }

  /** So it changes no jar exactly when it does not change the empty one. */
  lemma RedeliveryIsAlwaysHarmless(us: seq<Update>)
    requires forall u :: u in us ==> IsUpdate(u)
    ensures (forall entries :: IsJar(entries) ==> ApplyAll(ApplyAll(entries, us), us) == ApplyAll(entries, us)) <==> !CanReorder(us)
  {
    var empty: seq<string> := [];
    assert IsJar(empty) && Names(empty) == [];
    RedeliveryIsHarmless(empty, us);
    if !CanReorder(us) {
      forall entries | IsJar(entries) ensures ApplyAll(ApplyAll(entries, us), us) == ApplyAll(entries, us) {
        RedeliveryIsHarmless(entries, us);
      }
    }
  }

  /** The same for the text: a message that arrives again while the document has the same records. */
  lemma MessageAgain(entries: seq<string>, cookies: seq<WindowCookie>, clientCookie: string)
    requires IsJar(entries) && (forall u :: u in Delivered(cookies, clientCookie) ==> IsUpdate(u))
    ensures var us := Delivered(cookies, clientCookie);
            var once := RunText(Join(entries, "; "), us);
            && (RunText(once, us) == once <==> !Reorders(us, Names(entries)))
            && forall name :: Get(Entries(RunText(once, us)), name) == Get(Entries(once), name)
  {
    var us := Delivered(cookies, clientCookie);
    TextRefinesJar(entries, us);
    TextRefinesJar(ApplyAll(entries, us), us);
    RedeliveryIsHarmless(entries, us);
    forall name ensures Get(ApplyAll(ApplyAll(entries, us), us), name) == Get(ApplyAll(entries, us), name) {
      RedeliveryKeepsValues(entries, us, name);
    }
  }

  /** A key that is set again after its removal moves behind the others. */
  lemma RemovedThenSetMoves()
    ensures var us := [Update("k", None), Update("k", Some("k=1")), Update("n", Some("n=2"))];
            && Names(ApplyAll([], us)) == ["k", "n"]
            && Names(ApplyAll(ApplyAll([], us), us)) == ["n", "k"]
  {
    var a, b, c := Update("k", None), Update("k", Some("k=1")), Update("n", Some("n=2"));
    NamedByKey("k", "1");
    NamedByKey("n", "2");
    assert "k" + "=" + "1" == "k=1" && "n" + "=" + "2" == "n=2";
    NamesAfter([], [a, b, c]);
    NamesAfter(ApplyAll([], [a, b, c]), [a, b, c]);
    NamesMove(a, b, c);
  }

  lemma NamedByKey(key: string, value: string)
    requires |key| == 1 && |value| == 1 && '=' !in key && ';' !in key + value && !IsSpace(key[0]) && !IsSpace(value[0])
    ensures IsCookie(key + "=" + value) && NameOf(key + "=" + value) == key
  {
    var entry := key + "=" + value;
    assert entry == key + ['='] + value;
    IndexOfSplit(key, '=', value);
    assert entry[1] == '=' && entry[0] == key[0] && key[0] in key;
    assert entry[|entry| - 1] == value[0] && '=' in entry;
    assert entry[..1] == key;
    assert IsEntry(entry) by {
      forall c | c in entry ensures c != ';' { assert c in key + value || c == '='; }
    }
  }

  lemma NamesMove(a: Update, b: Update, c: Update)
    requires a.entry.None? && b.entry.Some? && c.entry.Some? && a.key == b.key && c.key != b.key
    ensures NameRun([], [a, b, c]) == [b.key, c.key] && NameRun([b.key, c.key], [a, b, c]) == [c.key, b.key]
  {
    ThreeSteps([], a, b, c);
    assert NameStep([], b) == [b.key] && NameStep([b.key], c) == [b.key, c.key];
    ThreeSteps([b.key, c.key], a, b, c);
    assert [b.key, c.key][1..] == [c.key] && [c.key][1..] == [];
    assert DropName([c.key], a.key) == [c.key];
    assert NameStep([b.key, c.key], a) == [c.key] && NameStep([c.key], b) == [c.key, b.key];
  }

  lemma ThreeSteps(names: seq<string>, a: Update, b: Update, c: Update)
    ensures NameRun(names, [a, b, c]) == NameStep(NameStep(NameStep(names, a), b), c)
  {
    var s1, s2 := NameStep(names, a), NameStep(NameStep(names, a), b);
    assert [a, b, c][1..] == [b, c] && [b, c][1..] == [c] && [c][1..] == [];
    assert NameRun(s2, [c]) == NameStep(s2, c);
    assert NameRun(s1, [b, c]) == NameRun(s2, [c]);
  }
}
