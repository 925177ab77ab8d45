/** Forms in which one entry object occurs at several places, as after a delimiter behind the end
    delimiter: a file that goes into it shows at all of them. src/upload/form-data.ts */
module UploadSharing {
  import opened Prelude
  import opened Multipart
  import opened UploadExpansion

  /** A place of the list: the number of its object and what the object holds. */
  datatype Slot = Slot(id: nat, entry: Entry)

  function Entries(slots: seq<Slot>): (r: seq<Entry>)
    ensures |r| == |slots|
  {
    seq(|slots|, i requires 0 <= i < |slots| => slots[i].entry)
  }

  /** An object holds one value. */
  ghost predicate Consistent(slots: seq<Slot>) {
    forall a, b :: a in slots && b in slots && a.id == b.id ==> a == b
  }

  /** No object occurs twice. */
  predicate Unshared(slots: seq<Slot>) {
    forall i, j :: 0 <= i < j < |slots| ==> slots[i].id != slots[j].id
  }

  /** The object gets a value. */
  function Put(slots: seq<Slot>, id: nat, e: Entry): (r: seq<Slot>)
    ensures |r| == |slots|
  {
    seq(|slots|, i requires 0 <= i < |slots| => if slots[i].id == id then Slot(id, e) else slots[i])
  }

  function NewId(slots: seq<Slot>): (id: nat)
    ensures forall s :: s in slots ==> s.id < id
  {
    if slots == [] then 0 else
    var id := NewId(slots[1..]);
    if slots[0].id < id then id else slots[0].id + 1
  }

  /** A new object comes last. */
  function Push(slots: seq<Slot>, e: Entry): seq<Slot> {
    slots + [Slot(NewId(slots), e)]
  }

  /** _removeEntry */
  function Without(slots: seq<Slot>, name: string): seq<Slot> {
    if slots == [] then [] else (if slots[0].entry.name != name then [slots[0]] else []) + Without(slots[1..], name)
  }

  // ---------------------------------------------------------------- one input

  /** The places of the entries with the name. */
  predicate ArePlaces(places: seq<nat>, slots: seq<Slot>) {
    forall k :: 0 <= k < |places| ==> places[k] < |slots|
  }

  /** The entry that a file goes to, with the file. */
  function FileEntry(now: seq<Slot>, places: seq<nat>, info: FileInputInfo, idx: nat, previous: Option<Entry>): Entry
    requires ArePlaces(places, now) && idx < |info.files|
  {
    AddFile(if idx < |places| then now[places[idx]].entry else if previous.Some? then Clone(previous.value) else NEW_ENTRY, info, idx)
  }

  function InjectFile(now: seq<Slot>, places: seq<nat>, info: FileInputInfo, idx: nat, previous: Option<Entry>): (r: seq<Slot>)
    requires ArePlaces(places, now) && idx < |info.files|
    ensures |now| <= |r|
  {
    var e := FileEntry(now, places, info, idx, previous);
    if idx < |places| then Put(now, now[places[idx]].id, e) else Push(now, e)
  }

  /** The files from idx on go into the entries. */
  function InjectFrom(now: seq<Slot>, places: seq<nat>, info: FileInputInfo, idx: nat, previous: Option<Entry>): seq<Slot>
    requires ArePlaces(places, now)
    decreases |info.files| - idx
  {
    if idx >= |info.files| then now else
    InjectFrom(InjectFile(now, places, info, idx, previous), places, info, idx + 1, Some(FileEntry(now, places, info, idx, previous)))
  }

  lemma PlacesOf(slots: seq<Slot>, name: string)
    ensures ArePlaces(Places(Entries(slots), name), slots)
    ensures forall k :: 0 <= k < |Places(Entries(slots), name)| ==> slots[Places(Entries(slots), name)[k]].entry.name == name
  {
    forall k | 0 <= k < |Places(Entries(slots), name)|
      ensures Places(Entries(slots), name)[k] < |slots| && slots[Places(Entries(slots), name)[k]].entry.name == name
    {
      RankOfPlace(Entries(slots), name, k);
    }
  }

  /** _injectFileInfo */
  function Inject(slots: seq<Slot>, info: FileInputInfo): seq<Slot> {
    PlacesOf(slots, info.name);
    InjectFrom(slots, Places(Entries(slots), info.name), info, 0, None)
  }

  function InjectAll(slots: seq<Slot>, infos: seq<FileInputInfo>): seq<Slot>
    decreases |infos|
  {
    if infos == [] then slots else InjectAll(Inject(slots, infos[0]), infos[1..])
  }

  /** expandUploads, with the file infos that the hidden entry holds. */
  function Expand(slots: seq<Slot>, hidden: string, infos: seq<FileInputInfo>): seq<Slot> {
    if WithName(Entries(slots), hidden) == [] then slots else InjectAll(Without(slots, hidden), infos)
  }

  // ---------------------------------------------------------------- the loops

  /** The files from idx on remain to go in, and then the goal is reached. */
  ghost predicate Injecting(goal: seq<Slot>, info: FileInputInfo, idx: nat, now: seq<Slot>, places: seq<nat>, previous: Option<Entry>) {
    idx <= |info.files| && ArePlaces(places, now) && InjectFrom(now, places, info, idx, previous) == goal
  }

  lemma InjectingStarts(slots: seq<Slot>, info: FileInputInfo)
    ensures Injecting(Inject(slots, info), info, 0, slots, Places(Entries(slots), info.name), None)
  {
    PlacesOf(slots, info.name);
  }

  lemma InjectingNext(goal: seq<Slot>, info: FileInputInfo, idx: nat, now: seq<Slot>, places: seq<nat>, previous: Option<Entry>)
    requires Injecting(goal, info, idx, now, places, previous) && idx < |info.files|
    ensures Injecting(goal, info, idx + 1, InjectFile(now, places, info, idx, previous), places, Some(FileEntry(now, places, info, idx, previous)))
  {
  }

  lemma InjectingEnds(goal: seq<Slot>, info: FileInputInfo, now: seq<Slot>, places: seq<nat>, previous: Option<Entry>)
    requires Injecting(goal, info, |info.files|, now, places, previous)
    ensures now == goal
  {
  }

  lemma InjectAllNext(now: seq<Slot>, infos: seq<FileInputInfo>, i: nat)
    requires i < |infos|
    ensures InjectAll(now, infos[i..]) == InjectAll(Inject(now, infos[i]), infos[i + 1..])
  {
    assert infos[i..][0] == infos[i] && infos[i..][1..] == infos[i + 1..];
  }

  lemma WithoutNext(rest: seq<Slot>, slots: seq<Slot>, i: nat, name: string)
    requires i < |slots|
    ensures rest + Without(slots[i..], name)
         == (if slots[i].entry.name != name then rest + [slots[i]] else rest) + Without(slots[i + 1..], name)
  {
    assert slots[i..][0] == slots[i] && slots[i..][1..] == slots[i + 1..];
  }

  // ---------------------------------------------------------------- what every place shows

  /** What an object holds after the first n found places were filled. */
  function Filled(e: Entry, id: nat, found: seq<nat>, info: FileInputInfo, n: nat): Entry
    requires n <= |found| && n <= |info.files|
  {
    if n == 0 then e else
    var before := Filled(e, id, found, info, n - 1);
    if found[n - 1] == id then AddFile(before, info, n - 1) else before
  }

  /** The objects at the places. */
  function Ids(slots: seq<Slot>, places: seq<nat>): (r: seq<nat>)
    requires ArePlaces(places, slots)
    ensures |r| == |places|
  {
    seq(|places|, k requires 0 <= k < |places| => slots[places[k]].id)
  }

  function Least(a: nat, b: nat): nat {
    if a < b then a else b
  }

  /** The state after the first idx files. */
  ghost predicate Reached(slots: seq<Slot>, places: seq<nat>, info: FileInputInfo, idx: nat, now: seq<Slot>)
    requires ArePlaces(places, slots) && idx <= |info.files|
  {
    && |now| == |slots| + (if idx > |places| then idx - |places| else 0)
    && (forall i :: 0 <= i < |slots| ==>
          now[i] == Slot(slots[i].id, Filled(slots[i].entry, slots[i].id, Ids(slots, places), info, Least(idx, |places|))))
    && (forall i :: |slots| <= i < |now| ==> ShowsFile(now[i].entry, info, |places| + (i - |slots|)))
  }

  /** The entry belongs to the input and holds its k-th file. */
  predicate ShowsFile(e: Entry, info: FileInputInfo, k: nat) {
    k < |info.files| && e.name == info.name && e.body == [info.files[k].data] && e.fileName == info.files[k].name
  }

  lemma ReachedFound(slots: seq<Slot>, places: seq<nat>, info: FileInputInfo, idx: nat, now: seq<Slot>, previous: Option<Entry>)
    requires ArePlaces(places, slots) && Consistent(slots) && idx < |info.files| && idx < |places|
    requires Reached(slots, places, info, idx, now)
    ensures Reached(slots, places, info, idx + 1, InjectFile(now, places, info, idx, previous))
  {
    var ids, p := Ids(slots, places), places[idx];
    var e := FileEntry(now, places, info, idx, previous);
    var next := InjectFile(now, places, info, idx, previous);
    forall i | 0 <= i < |slots| ensures next[i] == Slot(slots[i].id, Filled(slots[i].entry, slots[i].id, ids, info, idx + 1)) {
      if slots[i].id == slots[p].id { assert slots[i] in slots && slots[p] in slots; }
    }
  }

  lemma ReachedNew(slots: seq<Slot>, places: seq<nat>, info: FileInputInfo, idx: nat, now: seq<Slot>, previous: Option<Entry>)
    requires ArePlaces(places, slots) && idx < |info.files| && idx >= |places|
    requires Reached(slots, places, info, idx, now)
    ensures Reached(slots, places, info, idx + 1, InjectFile(now, places, info, idx, previous))
  {
  }

  lemma ReachedNext(slots: seq<Slot>, places: seq<nat>, info: FileInputInfo, idx: nat, now: seq<Slot>, previous: Option<Entry>)
    requires ArePlaces(places, slots) && Consistent(slots) && idx < |info.files|
    requires Reached(slots, places, info, idx, now)
    ensures Reached(slots, places, info, idx + 1, InjectFile(now, places, info, idx, previous))
  {
    if idx < |places| {
      ReachedFound(slots, places, info, idx, now, previous);
    } else {
      ReachedNew(slots, places, info, idx, now, previous);
    }
  }

  lemma {:induction false} AllReached(slots: seq<Slot>, places: seq<nat>, info: FileInputInfo, idx: nat, now: seq<Slot>, previous: Option<Entry>)
    requires ArePlaces(places, slots) && Consistent(slots) && idx <= |info.files|
    requires Reached(slots, places, info, idx, now)
    ensures Reached(slots, places, info, |info.files|, InjectFrom(now, places, info, idx, previous))
    decreases |info.files| - idx, 1
  {
    if idx < |info.files| {
      ReachedNext(slots, places, info, idx, now, previous);
      RestReached(slots, places, info, idx, InjectFile(now, places, info, idx, previous), FileEntry(now, places, info, idx, previous));
    }
  }

  lemma {:induction false} RestReached(slots: seq<Slot>, places: seq<nat>, info: FileInputInfo, idx: nat, next: seq<Slot>, e: Entry)
    requires ArePlaces(places, slots) && Consistent(slots) && idx < |info.files|
    requires Reached(slots, places, info, idx + 1, next)
    ensures Reached(slots, places, info, |info.files|, InjectFrom(next, places, info, idx + 1, Some(e)))
    decreases |info.files| - idx, 0
  {
    AllReached(slots, places, info, idx + 1, next, Some(e));
  }

  /** After an input's files went in, each place shows its object with the files that reached it, one after
      the other, and the entries that were added show the remaining files. */
  lemma InjectReaches(slots: seq<Slot>, info: FileInputInfo)
    requires Consistent(slots)
    ensures ArePlaces(Places(Entries(slots), info.name), slots)
    ensures Reached(slots, Places(Entries(slots), info.name), info, |info.files|, Inject(slots, info))
  {
    PlacesOf(slots, info.name);
    AllReached(slots, Places(Entries(slots), info.name), info, 0, slots, None);
  }

  lemma {:induction false} FilledLast(e: Entry, id: nat, found: seq<nat>, info: FileInputInfo, n: nat, k: nat)
    requires k < n <= |found| && n <= |info.files| && found[k] == id && forall j :: k < j < n ==> found[j] != id
    ensures ShowsFile(Filled(e, id, found, info, n), info, k)
  {
    if k < n - 1 { FilledLast(e, id, found, info, n - 1, k); }
  }

  predicate NotReached(id: nat, found: seq<nat>, n: nat)
    requires n <= |found|
  {
    forall j :: 0 <= j < n ==> found[j] != id
  }

  lemma {:induction false} FilledNot(e: Entry, id: nat, found: seq<nat>, info: FileInputInfo, n: nat)
    requires n <= |found| && n <= |info.files| && NotReached(id, found, n)
    ensures Filled(e, id, found, info, n) == e
  {
    if n > 0 { FilledNot(e, id, found, info, n - 1); }
  }

  lemma {:induction false} FilledName(e: Entry, id: nat, found: seq<nat>, info: FileInputInfo, n: nat)
    requires n <= |found| && n <= |info.files|
    ensures Filled(e, id, found, info, n).name == e.name || Filled(e, id, found, info, n).name == info.name
  {
    if n > 0 { FilledName(e, id, found, info, n - 1); }
  }

  /** The last of the first n found places that is one of the k-th object. */
  function LastReach(found: seq<nat>, k: nat, n: nat): (j: nat)
    requires k < n <= |found|
    ensures k <= j < n
    decreases n
  {
    if found[n - 1] == found[k] then n - 1 else LastReach(found, k, n - 1)
  }

  lemma {:induction false} LastReachMeans(found: seq<nat>, k: nat, n: nat)
    requires k < n <= |found|
    ensures var j := LastReach(found, k, n); found[j] == found[k] && forall l :: j < l < n ==> found[l] != found[k]
    decreases n
  {
    if found[n - 1] != found[k] { LastReachMeans(found, k, n - 1); }
  }

  /** The first n objects are different ones. */
  predicate AllDiffer(found: seq<nat>, n: nat)
    requires n <= |found|
  {
    forall i, j :: 0 <= i < j < n ==> found[i] != found[j]
  }

  /** What the places show after n found places were filled: the last file that reached their object. */
  ghost predicate ShowsLast(slots: seq<Slot>, places: seq<nat>, info: FileInputInfo, n: nat, after: seq<Slot>)
    requires ArePlaces(places, slots) && n <= |places| && |slots| <= |after|
  {
    var found := Ids(slots, places);
    && (forall k :: 0 <= k < n ==> ShowsFile(after[places[k]].entry, info, LastReach(found, k, n)))
    && (forall i :: 0 <= i < |slots| && NotReached(slots[i].id, found, n) ==> after[i] == slots[i])
  }

  lemma ReachedShows(slots: seq<Slot>, places: seq<nat>, info: FileInputInfo, n: nat, after: seq<Slot>)
    requires ArePlaces(places, slots) && n == Least(|info.files|, |places|) && Reached(slots, places, info, |info.files|, after)
    ensures ShowsLast(slots, places, info, n, after)
  {
    var found := Ids(slots, places);
    forall k | 0 <= k < n ensures ShowsFile(after[places[k]].entry, info, LastReach(found, k, n)) {
      LastReachMeans(found, k, n);
      FilledLast(slots[places[k]].entry, found[k], found, info, n, LastReach(found, k, n));
    }
    forall i | 0 <= i < |slots| && NotReached(slots[i].id, found, n) ensures after[i] == slots[i] {
      FilledNot(slots[i].entry, slots[i].id, found, info, n);
    }
  }

  /** Each of the first n found places is the last one of its object. */
  predicate EachLast(found: seq<nat>, n: nat)
    requires n <= |found|
  {
    forall k :: 0 <= k < n ==> LastReach(found, k, n) == k
  }

  lemma DifferExactly(found: seq<nat>, n: nat)
    requires n <= |found|
    ensures EachLast(found, n) <==> AllDiffer(found, n)
  {
    if EachLast(found, n) {
      forall i, j | 0 <= i < j < n ensures found[i] != found[j] {
        LastReachMeans(found, i, n);
        assert LastReach(found, i, n) == i;
      }
    }
    if AllDiffer(found, n) {
      forall k | 0 <= k < n ensures LastReach(found, k, n) == k {
        LastReachMeans(found, k, n);
      }
    }
  }

  /** The k-th place of the name shows the last file that reached its object, other objects stay, the
      remaining files have entries at the end, and every file is at its own place exactly when the objects
      that files reached are different ones. */
  ghost predicate SharesFiles(slots: seq<Slot>, places: seq<nat>, info: FileInputInfo, after: seq<Slot>)
    requires ArePlaces(places, slots)
  {
    var n := Least(|info.files|, |places|);
    && |after| == |slots| + (|info.files| - n)
    && ShowsLast(slots, places, info, n, after)
    && (forall i :: |slots| <= i < |after| ==> ShowsFile(after[i].entry, info, n + (i - |slots|)))
    && (EachLast(Ids(slots, places), n) <==> AllDiffer(Ids(slots, places), n))
  }

  lemma SharedInjectionAt(slots: seq<Slot>, places: seq<nat>, info: FileInputInfo, after: seq<Slot>)
    requires ArePlaces(places, slots) && Reached(slots, places, info, |info.files|, after)
    ensures SharesFiles(slots, places, info, after)
  {
    var n := Least(|info.files|, |places|);
    ReachedShows(slots, places, info, n, after);
    DifferExactly(Ids(slots, places), n);
  }

  /** What an input's files do to a list in which objects may be shared. */
  lemma SharedInjection(slots: seq<Slot>, info: FileInputInfo)
    requires Consistent(slots)
    ensures var places := Places(Entries(slots), info.name);
            ArePlaces(places, slots) && SharesFiles(slots, places, info, Inject(slots, info))
  {
    InjectReaches(slots, info);
    SharedInjectionAt(slots, Places(Entries(slots), info.name), info, Inject(slots, info));
  }

  // ---------------------------------------------------------------- the other entries

  lemma SharedNames(slots: seq<Slot>, info: FileInputInfo, i: nat)
    requires Consistent(slots) && i < |slots|
    ensures i < |Inject(slots, info)|
    ensures var e := Inject(slots, info)[i].entry;
            e.name == slots[i].entry.name && (e.name != info.name ==> e == slots[i].entry)
  {
    InjectReaches(slots, info);
    PlacesOf(slots, info.name);
    var places := Places(Entries(slots), info.name);
    var found, n := Ids(slots, places), Least(|info.files|, |places|);
    if k :| 0 <= k < n && found[k] == slots[i].id {
      assert slots[places[k]] in slots && slots[i] in slots;
      FilledName(slots[i].entry, slots[i].id, found, info, n);
    } else {
      FilledNot(slots[i].entry, slots[i].id, found, info, n);
    }
  }

  lemma SharedKeepsPlaces(slots: seq<Slot>, info: FileInputInfo)
    requires Consistent(slots)
    ensures PlacesKept(Entries(slots), Entries(Inject(slots, info)), {info.name})
  {
    InjectReaches(slots, info);
    forall i | 0 <= i < |slots|
      ensures Entries(Inject(slots, info))[i].name == Entries(slots)[i].name
      ensures Entries(slots)[i].name !in {info.name} ==> Entries(Inject(slots, info))[i] == Entries(slots)[i]
    {
      SharedNames(slots, info, i);
    }
  }

  lemma StaysConsistent(now: seq<Slot>, places: seq<nat>, info: FileInputInfo, idx: nat, previous: Option<Entry>)
    requires ArePlaces(places, now) && idx < |info.files| && Consistent(now)
    ensures Consistent(InjectFile(now, places, info, idx, previous))
  {
    var r := InjectFile(now, places, info, idx, previous);
    if idx >= |places| {
      forall a, b | a in r && b in r && a.id == b.id ensures a == b { assert a in now <==> a != r[|now|]; }
    } else {
      forall a, b | a in r && b in r && a.id == b.id ensures a == b {
        var i :| 0 <= i < |r| && r[i] == a;
        var j :| 0 <= j < |r| && r[j] == b;
        assert now[i] in now && now[j] in now;
      }
    }
  }

  lemma {:induction false} InjectFromConsistent(now: seq<Slot>, places: seq<nat>, info: FileInputInfo, idx: nat, previous: Option<Entry>)
    requires ArePlaces(places, now) && Consistent(now)
    ensures Consistent(InjectFrom(now, places, info, idx, previous))
    decreases |info.files| - idx
  {
    if idx < |info.files| {
      StaysConsistent(now, places, info, idx, previous);
      InjectFromConsistent(InjectFile(now, places, info, idx, previous), places, info, idx + 1, Some(FileEntry(now, places, info, idx, previous)));
    }
  }

  lemma InjectConsistent(slots: seq<Slot>, info: FileInputInfo)
    requires Consistent(slots)
    ensures Consistent(Inject(slots, info))
  {
    PlacesOf(slots, info.name);
    InjectFromConsistent(slots, Places(Entries(slots), info.name), info, 0, None);
  }

  lemma {:induction false} SharedAllKeepPlaces(slots: seq<Slot>, infos: seq<FileInputInfo>)
    requires Consistent(slots)
    ensures PlacesKept(Entries(slots), Entries(InjectAll(slots, infos)), InputNames(infos))
    decreases |infos|
  {
    if infos != [] {
      var next := Inject(slots, infos[0]);
      SharedKeepsPlaces(slots, infos[0]);
      InjectConsistent(slots, infos[0]);
      SharedAllKeepPlaces(next, infos[1..]);
      NamesCons(infos);
      PlacesKeptTwice(Entries(slots), Entries(next), Entries(InjectAll(slots, infos)), {infos[0].name}, InputNames(infos[1..]));
    }
  }

  lemma {:induction false} EntriesWithout(slots: seq<Slot>, name: string)
    ensures Entries(Without(slots, name)) == WithoutName(Entries(slots), name)
    ensures forall s :: s in Without(slots, name) ==> s in slots
  {
    if slots != [] {
      EntriesWithout(slots[1..], name);
      assert Entries(slots)[1..] == Entries(slots[1..]);
      var rest := Without(slots[1..], name);
      assert Entries([slots[0]] + rest) == [slots[0].entry] + Entries(rest) && [] + rest == rest;
    }
  }

  /** Whatever is shared, expanding uploads keeps the order and the content of all entries that are neither
      hidden nor named by an input. */
  lemma SharedExpansionKeepsOthers(slots: seq<Slot>, hidden: string, infos: seq<FileInputInfo>)
    requires Consistent(slots) && WithName(Entries(slots), hidden) != []
    ensures var expanded := Expand(slots, hidden, infos);
            && PlacesKept(WithoutName(Entries(slots), hidden), Entries(expanded), InputNames(infos))
            && Others(Entries(expanded), InputNames(infos) + {hidden}) == Others(Entries(slots), InputNames(infos) + {hidden})
  {
    var kept := Without(slots, hidden);
    EntriesWithout(slots, hidden);
    SharedAllKeepPlaces(kept, infos);
    KeptOthers(Entries(kept), Entries(InjectAll(kept, infos)), InputNames(infos) + {hidden});
    RemovedOthers(Entries(slots), hidden, InputNames(infos) + {hidden});
  }

  // ---------------------------------------------------------------- lists without shared objects

  lemma EntriesPut(slots: seq<Slot>, p: nat, e: Entry)
    requires Unshared(slots) && p < |slots|
    ensures Entries(Put(slots, slots[p].id, e)) == Entries(slots)[p := e] && Unshared(Put(slots, slots[p].id, e))
  {
  }

  lemma EntriesPush(slots: seq<Slot>, e: Entry)
    ensures Entries(Push(slots, e)) == Entries(slots) + [e]
    ensures Unshared(slots) ==> Unshared(Push(slots, e))
  {
    forall i | 0 <= i < |slots| ensures slots[i].id < NewId(slots) { assert slots[i] in slots; }
  }

  lemma {:induction false} UnsharedInjectFrom(es: seq<Entry>, now: seq<Slot>, info: FileInputInfo, idx: nat, previous: Option<Entry>)
    requires Unshared(now) && idx <= |info.files| && Progress(es, info, idx, Entries(now), previous)
    requires ArePlaces(Places(es, info.name), now)
    ensures var after := InjectFrom(now, Places(es, info.name), info, idx, previous);
            Entries(after) == UploadExpansion.Inject(es, info) && Unshared(after)
    decreases |info.files| - idx
  {
    var places := Places(es, info.name);
    if idx == |info.files| {
      ProgressEnds(es, info, Entries(now), previous);
    } else {
      var e := FileEntry(now, places, info, idx, previous);
      if idx < |places| {
        ProgressFound(es, info, idx, Entries(now), previous);
        EntriesPut(now, places[idx], e);
      } else {
        ProgressNew(es, info, idx, Entries(now), previous);
        EntriesPush(now, e);
      }
      UnsharedInjectFrom(es, InjectFile(now, places, info, idx, previous), info, idx + 1, Some(e));
    }
  }

  lemma UnsharedInject(slots: seq<Slot>, info: FileInputInfo)
    requires Unshared(slots)
    ensures Entries(Inject(slots, info)) == UploadExpansion.Inject(Entries(slots), info) && Unshared(Inject(slots, info))
  {
    PlacesOf(slots, info.name);
    ProgressStarts(Entries(slots), info);
    UnsharedInjectFrom(Entries(slots), slots, info, 0, None);
  }

  lemma {:induction false} UnsharedInjectAll(slots: seq<Slot>, infos: seq<FileInputInfo>)
    requires Unshared(slots)
    ensures Entries(InjectAll(slots, infos)) == UploadExpansion.InjectAll(Entries(slots), infos) && Unshared(InjectAll(slots, infos))
    decreases |infos|
  {
    if infos != [] {
      UnsharedInject(slots, infos[0]);
      UnsharedInjectAll(Inject(slots, infos[0]), infos[1..]);
    }
  }

  lemma {:induction false} UnsharedWithout(slots: seq<Slot>, name: string)
    requires Unshared(slots)
    ensures Unshared(Without(slots, name))
  {
    if slots != [] {
      var rest := slots[1..];
      assert Unshared(rest) by { assert forall i :: 0 <= i < |rest| ==> rest[i] == slots[i + 1]; }
      UnsharedWithout(rest, name);
      EntriesWithout(rest, name);
      forall s | s in Without(rest, name) ensures s.id != slots[0].id {
        var i :| 0 <= i < |rest| && rest[i] == s;
        assert slots[i + 1] == s;
      }
    }
  }

  /** Without shared objects the expansion is the one of the entries as values. */
  lemma UnsharedExpansion(slots: seq<Slot>, hidden: string, infos: seq<FileInputInfo>)
    requires Unshared(slots)
    ensures Entries(Expand(slots, hidden, infos)) == UploadExpansion.Expand(Entries(slots), hidden, infos)
  {
    EntriesWithout(slots, hidden);
    UnsharedWithout(slots, hidden);
    UnsharedInjectAll(Without(slots, hidden), infos);
  }

  /** An entry that is twice in the list loses the first of two files. */
  lemma SharedEntryLosesFile(e: Entry, info: FileInputInfo)
    requires e.name == info.name && |info.files| == 2
    ensures var after := Inject([Slot(0, e), Slot(0, e)], info);
            |after| == 2 && ShowsFile(after[0].entry, info, 1) && ShowsFile(after[1].entry, info, 1)
  {
    var slots := [Slot(0, e), Slot(0, e)];
    var es := Entries(slots);
    assert es == [e, e] && es[..1] == [e] && es[..1][..0] == [];
    assert Places([e], e.name) == [] + [0];
    assert Places(es, e.name) == [0] + [1];
    assert Consistent(slots);
    SharedInjection(slots, info);
  }
}
