/** Putting the stored files into the entries of a form. src/upload/form-data.ts,
    src/upload/form-data-entry.ts */
module UploadExpansion {
  import opened Prelude
  import opened Multipart

  /** A file of an input, its data already decoded from base64. */
  datatype File = File(name: string, data: string, mimeType: string)

  datatype FileInputInfo = FileInputInfo(name: string, files: seq<File>)

  // ---------------------------------------------------------------- one entry

  /** _setHeader: a new header gets the given raw name, an existing one only the value. */
  function PutHeader(headers: seq<Header>, name: string, value: string, rawName: string): seq<Header> {
    if headers == [] then [Header(name, rawName, value)]
    else if headers[0].name == name then [headers[0].(value := value)] + headers[1..]
    else [headers[0]] + PutHeader(headers[1..], name, value, rawName)
  }

  function DispositionText(name: string, fileName: string): string {
    "form-data; name=\"" + name + "\"; filename=\"" + fileName + "\""
  }

  /** addFileInfo */
  function AddFile(e: Entry, info: FileInputInfo, idx: nat): Entry
    requires idx < |info.files|
  {
    var file := info.files[idx];
    Entry(PutHeader(PutHeader(e.headers, DISPOSITION, DispositionText(info.name, file.name), DISPOSITION), TYPE, file.mimeType, TYPE),
          [file.data], info.name, file.name)
  }

  /** cloneWithRawHeaders: the headers one after the other, without values. */
  function ClonedHeaders(headers: seq<Header>, copied: seq<Header>): seq<Header>
    decreases |headers|
  {
    if headers == [] then copied else ClonedHeaders(headers[1..], PutHeader(copied, headers[0].name, "", headers[0].rawName))
  }

  function Clone(e: Entry): Entry {
    Entry(ClonedHeaders(e.headers, []), [], "", "")
  }

  // ---------------------------------------------------------------- all entries

  /** The entries with a name, in order. */
  function WithName(entries: seq<Entry>, name: string): seq<Entry> {
    if entries == [] then [] else (if entries[0].name == name then [entries[0]] else []) + WithName(entries[1..], name)
  }

  /** _removeEntry */
  function WithoutName(entries: seq<Entry>, name: string): seq<Entry> {
    if entries == [] then [] else (if entries[0].name != name then [entries[0]] else []) + WithoutName(entries[1..], name)
  }

  /** The entries of the name, from the k-th on, get the files up to the limit. */
  function Refill(entries: seq<Entry>, info: FileInputInfo, k: nat, limit: nat): (r: seq<Entry>)
    requires limit <= |info.files|
    ensures |r| == |entries|
  {
    if entries == [] then []
    else if entries[0].name == info.name && k < limit then [AddFile(entries[0], info, k)] + Refill(entries[1..], info, k + 1, limit)
    else if entries[0].name == info.name then [entries[0]] + Refill(entries[1..], info, k + 1, limit)
    else [entries[0]] + Refill(entries[1..], info, k, limit)
  }

  /** The entries that are added for the files from idx on. */
  function Extras(info: FileInputInfo, idx: nat, previous: Option<Entry>): (r: seq<Entry>)
    ensures |r| == if idx < |info.files| then |info.files| - idx else 0
    decreases |info.files| - idx
  {
    if idx >= |info.files| then [] else
    var e := AddFile(if previous.Some? then Clone(previous.value) else NEW_ENTRY, info, idx);
    [e] + Extras(info, idx + 1, Some(e))
  }

  /** The entry that the file before the first added one went to. */
  function LastFilled(entries: seq<Entry>, info: FileInputInfo): Option<Entry> {
    var named := WithName(entries, info.name);
    var n := |named|;
    if 0 < n <= |info.files| then Some(AddFile(named[n - 1], info, n - 1)) else None
  }

  /** _injectFileInfo */
  function Inject(entries: seq<Entry>, info: FileInputInfo): seq<Entry> {
    Refill(entries, info, 0, |info.files|) + Extras(info, |WithName(entries, info.name)|, LastFilled(entries, info))
  }

  function InjectAll(entries: seq<Entry>, infos: seq<FileInputInfo>): seq<Entry>
    decreases |infos|
  {
    if infos == [] then entries else InjectAll(Inject(entries, infos[0]), infos[1..])
  }

  /** expandUploads, with the file infos that the hidden entry holds. */
  function Expand(entries: seq<Entry>, hidden: string, infos: seq<FileInputInfo>): seq<Entry> {
    if WithName(entries, hidden) == [] then entries else InjectAll(WithoutName(entries, hidden), infos)
  }

  // ---------------------------------------------------------------- conservation

  lemma {:induction false} WithNameConcat(a: seq<Entry>, b: seq<Entry>, name: string)
    ensures WithName(a + b, name) == WithName(a, name) + WithName(b, name)
  {
    if a == [] {
      assert a + b == b;
      assert [] + WithName(b, name) == WithName(b, name);
    } else {
      var head := if a[0].name == name then [a[0]] else [];
      var rest, last := WithName(a[1..], name), WithName(b, name);
      WithNameConcat(a[1..], b, name);
      assert (a + b)[1..] == a[1..] + b;
      assert head + (rest + last) == (head + rest) + last;
    }
  }

  lemma {:induction false} WithNameAll(entries: seq<Entry>, name: string)
    requires forall e :: e in entries ==> e.name == name
    ensures WithName(entries, name) == entries
  {
    if entries != [] {
      assert entries[0] in entries;
      WithNameAll(entries[1..], name);
      assert entries == [entries[0]] + entries[1..];
    }
  }

  lemma {:induction false} WithNameNone(entries: seq<Entry>, name: string)
    requires forall e :: e in entries ==> e.name != name
    ensures WithName(entries, name) == []
  {
    if entries != [] {
      assert entries[0] in entries;
      WithNameNone(entries[1..], name);
    }
  }

  lemma {:induction false} ExtrasHold(info: FileInputInfo, idx: nat, previous: Option<Entry>)
    ensures forall e :: e in Extras(info, idx, previous) ==> e.name == info.name
    ensures forall j :: 0 <= j < |Extras(info, idx, previous)| ==>
              Extras(info, idx, previous)[j].body == [info.files[idx + j].data] && Extras(info, idx, previous)[j].fileName == info.files[idx + j].name
    decreases |info.files| - idx
  {
    if idx < |info.files| {
      var e := AddFile(if previous.Some? then Clone(previous.value) else NEW_ENTRY, info, idx);
      ExtrasHold(info, idx + 1, Some(e));
    }
  }

  /** The named entries after a refill. */
  function Refilled(named: seq<Entry>, info: FileInputInfo, k: nat): (r: seq<Entry>)
    ensures |r| == |named|
  {
    seq(|named|, j requires 0 <= j < |named| => if k + j < |info.files| then AddFile(named[j], info, k + j) else named[j])
  }

  lemma RefilledCons(e: Entry, named: seq<Entry>, info: FileInputInfo, k: nat)
    ensures Refilled([e] + named, info, k) == [if k < |info.files| then AddFile(e, info, k) else e] + Refilled(named, info, k + 1)
  {
  }

  lemma {:induction false} RefillNames(entries: seq<Entry>, info: FileInputInfo, k: nat, name: string)
    ensures WithName(Refill(entries, info, k, |info.files|), name)
         == if name == info.name then Refilled(WithName(entries, name), info, k) else WithName(entries, name)
  {
    if entries != [] {
      var e, rest := entries[0], entries[1..];
      var k' := if e.name == info.name then k + 1 else k;
      RefillNames(rest, info, k', name);
      var e' := if e.name == info.name && k < |info.files| then AddFile(e, info, k) else e;
      var r := Refill(rest, info, k', |info.files|);
      assert Refill(entries, info, k, |info.files|) == [e'] + r;
      assert ([e'] + r)[1..] == r;
      if name == info.name && e.name == name { RefilledCons(e, WithName(rest, name), info, k); }
    }
  }

  function HeaderValue(headers: seq<Header>, name: string): Option<string> {
    var h := GetHeader(headers, name);
    if h.Some? then Some(h.value.value) else None
  }

  /** An entry that holds a file: its content, its names, and the headers that tell them and the type. */
  predicate HasFile(e: Entry, name: string, file: File) {
    && e.body == [file.data] && e.name == name && e.fileName == file.name
    && HeaderValue(e.headers, "content-disposition") == Some("form-data; name=\"" + name + "\"; filename=\"" + file.name + "\"")
    && HeaderValue(e.headers, "content-type") == Some(file.mimeType)
  }

  /** The headers besides those two: an entry that was there keeps them, and a new one has those of the entry before it
      without their values. */
  ghost predicate OtherHeaders(now: seq<Entry>, before: seq<Entry>, k: nat)
    requires k < |now|
  {
    forall x :: x != "content-disposition" && x != "content-type" ==>
      GetHeader(now[k].headers, x) == if k < |before| then GetHeader(before[k].headers, x)
                                      else if k == 0 then None else Blank(GetHeader(now[k - 1].headers, x))
  }

  function Blank(h: Option<Header>): Option<Header> {
    if h.Some? then Some(h.value.(value := "")) else None
  }

  /** The entries of an input after its files went in. */
  ghost predicate Holds(now: seq<Entry>, before: seq<Entry>, info: FileInputInfo) {
    var n := |info.files|;
    && |now| == (if |before| > n then |before| else n)
    && (forall k :: 0 <= k < n ==> HasFile(now[k], info.name, info.files[k]) && OtherHeaders(now, before, k))
    && (forall k :: n <= k < |before| ==> now[k] == before[k])
  }

  lemma {:induction false} PutGets(headers: seq<Header>, name: string, value: string, rawName: string, x: string)
    ensures GetHeader(PutHeader(headers, name, value, rawName), x)
         == if x != name then GetHeader(headers, x)
            else Some(if GetHeader(headers, name).Some? then GetHeader(headers, name).value.(value := value) else Header(name, rawName, value))
  {
    if headers != [] {
      PutGets(headers[1..], name, value, rawName, x);
      assert PutHeader(headers, name, value, rawName)[1..]
          == if headers[0].name == name then headers[1..] else PutHeader(headers[1..], name, value, rawName);
    }
  }

  lemma {:induction false} ClonedGets(headers: seq<Header>, copied: seq<Header>, x: string)
    ensures GetHeader(ClonedHeaders(headers, copied), x)
         == if GetHeader(copied, x).Some? then (if GetHeader(headers, x).Some? then Blank(GetHeader(copied, x)) else GetHeader(copied, x))
            else Blank(GetHeader(headers, x))
    decreases |headers|
  {
    if headers != [] {
      PutGets(copied, headers[0].name, "", headers[0].rawName, x);
      ClonedGets(headers[1..], PutHeader(copied, headers[0].name, "", headers[0].rawName), x);
      NamedAs(headers, x);
    }
  }

  lemma {:induction false} NamedAs(headers: seq<Header>, x: string)
    ensures GetHeader(headers, x).Some? ==> GetHeader(headers, x).value.name == x
  {
    if headers != [] { NamedAs(headers[1..], x); }
  }

  lemma AddFileHas(e: Entry, info: FileInputInfo, idx: nat)
    requires idx < |info.files|
    ensures HasFile(AddFile(e, info, idx), info.name, info.files[idx])
    ensures forall x :: x != "content-disposition" && x != "content-type" ==> GetHeader(AddFile(e, info, idx).headers, x) == GetHeader(e.headers, x)
  {
    var file := info.files[idx];
    var text := DispositionText(info.name, file.name);
    var one := PutHeader(e.headers, DISPOSITION, text, DISPOSITION);
    assert |DISPOSITION| != |TYPE|;
    PutGets(e.headers, DISPOSITION, text, DISPOSITION, DISPOSITION);
    PutGets(one, TYPE, file.mimeType, TYPE, DISPOSITION);
    PutGets(one, TYPE, file.mimeType, TYPE, TYPE);
    forall x | x != "content-disposition" && x != "content-type" ensures GetHeader(AddFile(e, info, idx).headers, x) == GetHeader(e.headers, x) {
      PutGets(e.headers, DISPOSITION, text, DISPOSITION, x);
      PutGets(one, TYPE, file.mimeType, TYPE, x);
    }
  }

  lemma {:induction false} ExtraAt(info: FileInputInfo, idx: nat, previous: Option<Entry>, extras: seq<Entry>, j: nat, last: Option<Entry>)
    requires idx + j < |info.files| && extras == Extras(info, idx, previous)
    requires last == if j == 0 then previous else Some(extras[j - 1])
    ensures extras[j] == AddFile(if last.Some? then Clone(last.value) else NEW_ENTRY, info, idx + j)
    decreases j
  {
    if j > 0 {
      var e, rest := extras[0], extras[1..];
      assert rest == Extras(info, idx + 1, Some(e));
      ExtraAt(info, idx + 1, Some(e), rest, j - 1, last);
    }
  }

  lemma InjectNamed(entries: seq<Entry>, info: FileInputInfo)
    ensures var named := WithName(entries, info.name);
            WithName(Inject(entries, info), info.name)
            == Refilled(named, info, 0) + Extras(info, |named|, LastFilled(entries, info))
  {
    var extras := Extras(info, |WithName(entries, info.name)|, LastFilled(entries, info));
    RefillNames(entries, info, 0, info.name);
    ExtrasHold(info, |WithName(entries, info.name)|, LastFilled(entries, info));
    WithNameConcat(Refill(entries, info, 0, |info.files|), extras, info.name);
    WithNameAll(extras, info.name);
  }

  lemma InjectOthers(entries: seq<Entry>, info: FileInputInfo, name: string)
    requires name != info.name
    ensures WithName(Inject(entries, info), name) == WithName(entries, name)
  {
    var extras := Extras(info, |WithName(entries, info.name)|, LastFilled(entries, info));
    RefillNames(entries, info, 0, name);
    ExtrasHold(info, |WithName(entries, info.name)|, LastFilled(entries, info));
    WithNameConcat(Refill(entries, info, 0, |info.files|), extras, name);
    WithNameNone(extras, name);
    assert WithName(entries, name) + [] == WithName(entries, name);
  }

  /** The entries of none of the names, in order. */
  function Others(entries: seq<Entry>, names: set<string>): seq<Entry> {
    if entries == [] then [] else (if entries[0].name !in names then [entries[0]] else []) + Others(entries[1..], names)
  }

  /** Every entry keeps its place and its name, those of other names keep all, and only entries of the
      names were added, at the end. */
  ghost predicate PlacesKept(before: seq<Entry>, after: seq<Entry>, names: set<string>) {
    && |before| <= |after|
    && (forall i :: 0 <= i < |before| ==> after[i].name == before[i].name && (before[i].name !in names ==> after[i] == before[i]))
    && (forall i :: |before| <= i < |after| ==> after[i].name in names)
  }

  lemma {:induction false} RefillKeepsPlaces(entries: seq<Entry>, info: FileInputInfo, k: nat, limit: nat)
    requires limit <= |info.files|
    ensures PlacesKept(entries, Refill(entries, info, k, limit), {info.name})
  {
    if entries != [] {
      var k' := if entries[0].name == info.name then k + 1 else k;
      RefillKeepsPlaces(entries[1..], info, k', limit);
      var r := Refill(entries, info, k, limit);
      assert r[1..] == Refill(entries[1..], info, k', limit);
      forall i | 0 < i < |entries| ensures r[i].name == entries[i].name && (entries[i].name != info.name ==> r[i] == entries[i]) {
        assert r[i] == r[1..][i - 1] && entries[i] == entries[1..][i - 1];
      }
    }
  }

  lemma InjectKeepsPlaces(entries: seq<Entry>, info: FileInputInfo)
    ensures PlacesKept(entries, Inject(entries, info), {info.name})
  {
    RefillKeepsPlaces(entries, info, 0, |info.files|);
    ExtrasHold(info, |WithName(entries, info.name)|, LastFilled(entries, info));
  }

  lemma PlacesKeptTwice(a: seq<Entry>, b: seq<Entry>, c: seq<Entry>, m: set<string>, n: set<string>)
    requires PlacesKept(a, b, m) && PlacesKept(b, c, n)
    ensures PlacesKept(a, c, m + n)
  {
  }

  /** Entries of other names that keep their places keep their order. */
  lemma {:induction false} KeptOthers(before: seq<Entry>, after: seq<Entry>, names: set<string>)
    requires PlacesKept(before, after, names)
    ensures Others(after, names) == Others(before, names)
    decreases |after|
  {
    if after != [] {
      KeptOthers(if before == [] then [] else before[1..], after[1..], names);
    }
  }

  /** An input's files go into its entries: the first ones hold the files in order, more are added at
      the end when there are more files, and the entries of other names stay as they are in their places. */
  lemma InjectHolds(entries: seq<Entry>, info: FileInputInfo, name: string)
    ensures name != info.name ==> WithName(Inject(entries, info), name) == WithName(entries, name)
    ensures Holds(WithName(Inject(entries, info), info.name), WithName(entries, info.name), info)
    ensures |Inject(entries, info)| - |entries| == |WithName(Inject(entries, info), info.name)| - |WithName(entries, info.name)|
    ensures PlacesKept(entries, Inject(entries, info), {info.name})
    ensures Others(Inject(entries, info), {info.name}) == Others(entries, {info.name})
  {
    InjectKeepsPlaces(entries, info);
    KeptOthers(entries, Inject(entries, info), {info.name});
    if name != info.name { InjectOthers(entries, info, name); }
    var named := WithName(entries, info.name);
    InjectNamed(entries, info);
    FilledHolds(named, info, Extras(info, |named|, LastFilled(entries, info)), LastFilled(entries, info));
  }

  lemma FilledHolds(named: seq<Entry>, info: FileInputInfo, extras: seq<Entry>, previous: Option<Entry>)
    requires extras == Extras(info, |named|, previous)
    requires previous == if 0 < |named| <= |info.files| then Some(AddFile(named[|named| - 1], info, |named| - 1)) else None
    ensures Holds(Refilled(named, info, 0) + extras, named, info)
  {
    var now, n := Refilled(named, info, 0) + extras, |info.files|;
    forall k | 0 <= k < n ensures HasFile(now[k], info.name, info.files[k]) && OtherHeaders(now, named, k) {
      if k < |named| {
        assert now[k] == AddFile(named[k], info, 0 + k);
        AddFileHas(named[k], info, k);
      } else {
        AddedHas(named, info, extras, previous, now, k);
      }
    }
  }

  /** The entry before an added one. */
  lemma EntryBefore(named: seq<Entry>, info: FileInputInfo, extras: seq<Entry>, previous: Option<Entry>, now: seq<Entry>, k: nat)
    requires |extras| == |info.files| - |named| && now == Refilled(named, info, 0) + extras && |named| <= k < |info.files|
    requires previous == if 0 < |named| <= |info.files| then Some(AddFile(named[|named| - 1], info, |named| - 1)) else None
    ensures |now| == |info.files| && now[k] == extras[k - |named|]
    ensures (if k == 0 then None else Some(now[k - 1])) == if k == |named| then previous else Some(extras[k - |named| - 1])
  {
    if k == |named| && k > 0 { assert now[k - 1] == AddFile(named[k - 1], info, 0 + (k - 1)); }
  }

  lemma AddedHas(named: seq<Entry>, info: FileInputInfo, extras: seq<Entry>, previous: Option<Entry>, now: seq<Entry>, k: nat)
    requires extras == Extras(info, |named|, previous) && now == Refilled(named, info, 0) + extras && |named| <= k < |info.files|
    requires previous == if 0 < |named| <= |info.files| then Some(AddFile(named[|named| - 1], info, |named| - 1)) else None
    ensures |now| == |info.files| && HasFile(now[k], info.name, info.files[k]) && OtherHeaders(now, named, k)
  {
    EntryBefore(named, info, extras, previous, now, k);
    AddedIs(|named|, named, info, extras, previous, now, k, if k == 0 then None else Some(now[k - 1]));
  }

  lemma AddedIs(n: nat, named: seq<Entry>, info: FileInputInfo, extras: seq<Entry>, previous: Option<Entry>, now: seq<Entry>, k: nat, last: Option<Entry>)
    requires n == |named| && extras == Extras(info, n, previous) && n <= k < |info.files| == |now| && now[k] == extras[k - n]
    requires last == if k == 0 then None else Some(now[k - 1])
    requires last == if k == n then previous else Some(extras[k - n - 1])
    ensures HasFile(now[k], info.name, info.files[k]) && OtherHeaders(now, named, k)
  {
    ExtraAt(info, n, previous, extras, k - n, last);
    ExtraHas(now[k], last, info, k);
    AddedOther(now, named, k, last);
  }

  lemma AddedOther(now: seq<Entry>, named: seq<Entry>, k: nat, last: Option<Entry>)
    requires |named| <= k < |now| && last == if k == 0 then None else Some(now[k - 1])
    requires forall x :: x != "content-disposition" && x != "content-type" ==>
               GetHeader(now[k].headers, x) == if last.Some? then Blank(GetHeader(last.value.headers, x)) else None
    ensures OtherHeaders(now, named, k)
  {
  }

  lemma ExtraHas(e: Entry, last: Option<Entry>, info: FileInputInfo, k: nat)
    requires k < |info.files| && e == AddFile(if last.Some? then Clone(last.value) else NEW_ENTRY, info, k)
    ensures HasFile(e, info.name, info.files[k])
    ensures forall x :: x != "content-disposition" && x != "content-type" ==>
              GetHeader(e.headers, x) == if last.Some? then Blank(GetHeader(last.value.headers, x)) else None
  {
    var start := if last.Some? then Clone(last.value) else NEW_ENTRY;
    AddFileHas(start, info, k);
    if last.Some? {
      forall x ensures GetHeader(Clone(last.value).headers, x) == Blank(GetHeader(last.value.headers, x)) {
        ClonedGets(last.value.headers, [], x);
      }
    }
  }

  lemma {:induction false} InjectAllKeepsOthers(entries: seq<Entry>, infos: seq<FileInputInfo>, name: string)
    requires forall info :: info in infos ==> info.name != name
    ensures WithName(InjectAll(entries, infos), name) == WithName(entries, name)
    decreases |infos|
  {
    if infos != [] {
      assert infos[0] in infos;
      InjectHolds(entries, infos[0], name);
      InjectAllKeepsOthers(Inject(entries, infos[0]), infos[1..], name);
    }
  }

  lemma {:induction false} RemovedNames(entries: seq<Entry>, hidden: string, name: string)
    ensures WithName(WithoutName(entries, hidden), name) == if name == hidden then [] else WithName(entries, name)
  {
    if entries != [] {
      var rest := WithoutName(entries[1..], hidden);
      RemovedNames(entries[1..], hidden, name);
      assert ([entries[0]] + rest)[1..] == rest && [] + rest == rest;
      if entries[0].name == hidden && name != hidden { assert [] + WithName(entries[1..], name) == WithName(entries[1..], name); }
    }
  }

  /** No later input has the name of the i-th one. */
  predicate LastOfName(infos: seq<FileInputInfo>, i: nat)
    requires i < |infos|
  {
    forall j :: i < j < |infos| ==> infos[j].name != infos[i].name
  }

  lemma {:induction false} InjectAllHolds(entries: seq<Entry>, infos: seq<FileInputInfo>, i: nat)
    requires i < |infos| && LastOfName(infos, i)
    ensures Holds(WithName(InjectAll(entries, infos), infos[i].name), WithName(InjectAll(entries, infos[..i]), infos[i].name), infos[i])
    decreases |infos|
  {
    var first, rest := infos[0], infos[1..];
    if i == 0 {
      InjectHolds(entries, first, first.name);
      forall info | info in rest ensures info.name != first.name {
        var j :| 0 <= j < |rest| && rest[j] == info;
        assert infos[j + 1] == info;
      }
      InjectAllKeepsOthers(Inject(entries, first), rest, first.name);
    } else {
      assert rest[i - 1] == infos[i] && forall j :: 0 <= j < |rest| ==> rest[j] == infos[j + 1];
      assert infos[..i][0] == first && infos[..i][1..] == rest[..i - 1];
      InjectAllHolds(Inject(entries, first), rest, i - 1);
    }
  }

  function InputNames(infos: seq<FileInputInfo>): set<string> {
    set i | 0 <= i < |infos| :: infos[i].name
  }

  lemma NamesCons(infos: seq<FileInputInfo>)
    requires infos != []
    ensures InputNames(infos) == {infos[0].name} + InputNames(infos[1..])
  {
    forall i | 0 < i < |infos| ensures infos[i].name in InputNames(infos[1..]) { assert infos[1..][i - 1] == infos[i]; }
  }

  lemma {:induction false} InjectAllKeepsPlaces(entries: seq<Entry>, infos: seq<FileInputInfo>)
    ensures PlacesKept(entries, InjectAll(entries, infos), InputNames(infos))
    decreases |infos|
  {
    if infos != [] {
      InjectKeepsPlaces(entries, infos[0]);
      InjectAllKeepsPlaces(Inject(entries, infos[0]), infos[1..]);
      PlacesKeptTwice(entries, Inject(entries, infos[0]), InjectAll(entries, infos), {infos[0].name}, InputNames(infos[1..]));
      NamesCons(infos);
    }
  }

  lemma {:induction false} RemovedOthers(entries: seq<Entry>, hidden: string, names: set<string>)
    requires hidden in names
    ensures Others(WithoutName(entries, hidden), names) == Others(entries, names)
  {
    if entries != [] {
      var rest := WithoutName(entries[1..], hidden);
      RemovedOthers(entries[1..], hidden, names);
      assert ([entries[0]] + rest)[1..] == rest && [] + rest == rest;
    }
  }

  /** The last input of a name has its files in the entries of the name, counted from what the inputs
      before it left there. */
  ghost predicate LastHolds(kept: seq<Entry>, infos: seq<FileInputInfo>, i: nat)
    requires i < |infos|
  {
    var name, before := infos[i].name, WithName(InjectAll(kept, infos[..i]), infos[i].name);
    && (LastOfName(infos, i) ==> Holds(WithName(InjectAll(kept, infos), name), before, infos[i]))
    && (name !in InputNames(infos[..i]) ==> before == WithName(kept, name))
  }

  lemma LastOnesHold(kept: seq<Entry>, infos: seq<FileInputInfo>, i: nat)
    requires i < |infos|
    ensures LastHolds(kept, infos, i)
  {
    if LastOfName(infos, i) { InjectAllHolds(kept, infos, i); }
    if infos[i].name !in InputNames(infos[..i]) { UnnamedStays(kept, infos[..i], infos[i].name); }
  }

  lemma UnnamedStays(kept: seq<Entry>, infos: seq<FileInputInfo>, name: string)
    requires name !in InputNames(infos)
    ensures WithName(InjectAll(kept, infos), name) == WithName(kept, name)
  {
    forall info | info in infos ensures info.name != name {
      var j :| 0 <= j < |infos| && infos[j] == info;
      assert infos[j].name in InputNames(infos);
    }
    InjectAllKeepsOthers(kept, infos, name);
  }

  /** Expanding uploads conserves the parts: the hidden entries disappear, the entries of every input hold
      its files in order, every entry that is not hidden keeps its place among these, and all entries that
      no input names keep their content and their order. A form without a hidden entry stays as it is. */
  lemma ExpansionConserves(entries: seq<Entry>, hidden: string, infos: seq<FileInputInfo>, name: string)
    ensures WithName(entries, hidden) == [] ==> Expand(entries, hidden, infos) == entries
    ensures WithName(entries, hidden) != [] ==>
            var kept, expanded := WithoutName(entries, hidden), Expand(entries, hidden, infos);
            && (forall i :: 0 <= i < |infos| ==> LastHolds(kept, infos, i))
            && (name !in InputNames(infos) ==> WithName(expanded, name) == if name == hidden then [] else WithName(entries, name))
            && PlacesKept(kept, expanded, InputNames(infos))
            && Others(expanded, InputNames(infos) + {hidden}) == Others(entries, InputNames(infos) + {hidden})
  {
    var kept := WithoutName(entries, hidden);
    forall i | 0 <= i < |infos| ensures LastHolds(kept, infos, i) { LastOnesHold(kept, infos, i); }
    InjectAllKeepsPlaces(kept, infos);
    KeptOthers(kept, InjectAll(kept, infos), InputNames(infos) + {hidden});
    RemovedOthers(entries, hidden, InputNames(infos) + {hidden});
    RemovedNames(entries, hidden, name);
    if name !in InputNames(infos) { UnnamedStays(kept, infos, name); }
  }

  // ---------------------------------------------------------------- where the named entries are

  /** The places of the entries with a name. */
  function Places(entries: seq<Entry>, name: string): seq<nat> {
    if entries == [] then [] else
    Places(entries[..|entries| - 1], name) + if entries[|entries| - 1].name == name then [|entries| - 1] else []
  }

  lemma PlacesAppend(entries: seq<Entry>, e: Entry, name: string)
    ensures Places(entries + [e], name) == Places(entries, name) + if e.name == name then [|entries|] else []
  {
    assert (entries + [e])[..|entries|] == entries;
  }

  lemma WithNameAppend(entries: seq<Entry>, e: Entry, name: string)
    ensures WithName(entries + [e], name) == WithName(entries, name) + if e.name == name then [e] else []
  {
    WithNameConcat(entries, [e], name);
    assert [e][1..] == [] && WithName([], name) == [];
  }

  lemma {:induction false} WithoutNameAppend(entries: seq<Entry>, e: Entry, name: string)
    ensures WithoutName(entries + [e], name) == WithoutName(entries, name) + if e.name != name then [e] else []
  {
    if entries == [] {
      assert [] + [e] == [e] && [e][1..] == [];
    } else {
      WithoutNameAppend(entries[1..], e, name);
      assert (entries + [e])[1..] == entries[1..] + [e];
    }
  }

  /** The number of entries with the name before place i. */
  function Rank(entries: seq<Entry>, i: nat, name: string): nat
    requires i <= |entries|
  {
    |WithName(entries[..i], name)|
  }

  /** The k-th place is that of the k-th entry with the name. */
  lemma {:induction false} PlacesCount(entries: seq<Entry>, name: string)
    ensures |Places(entries, name)| == |WithName(entries, name)|
    ensures forall k :: 0 <= k < |Places(entries, name)| ==>
              Places(entries, name)[k] < |entries| && entries[Places(entries, name)[k]] == WithName(entries, name)[k]
  {
    if entries != [] {
      var init, e := entries[..|entries| - 1], entries[|entries| - 1];
      PlacesCount(init, name);
      assert entries == init + [e];
      WithNameAppend(init, e, name);
    }
  }

  lemma {:induction false} PlacesRank(entries: seq<Entry>, name: string)
    ensures forall k :: 0 <= k < |Places(entries, name)| ==>
              Places(entries, name)[k] < |entries| && Rank(entries, Places(entries, name)[k], name) == k
    ensures forall i :: 0 <= i < |entries| && entries[i].name == name ==>
              Rank(entries, i, name) < |Places(entries, name)| && Places(entries, name)[Rank(entries, i, name)] == i
  {
    if entries != [] {
      var n := |entries| - 1;
      var init := entries[..n];
      PlacesRank(init, name);
      PlacesCount(init, name);
      forall i | 0 <= i <= n ensures entries[..i] == init[..i] { assert entries[..i] == entries[..n][..i]; }
      assert init[..n] == init;
    }
  }

  lemma {:induction false} RefillAt(entries: seq<Entry>, info: FileInputInfo, k: nat, limit: nat, i: nat)
    requires limit <= |info.files| && i < |entries|
    ensures Refill(entries, info, k, limit)[i]
         == if entries[i].name == info.name && k + Rank(entries, i, info.name) < limit
            then AddFile(entries[i], info, k + Rank(entries, i, info.name)) else entries[i]
  {
    if i == 0 {
      assert entries[..0] == [];
    } else {
      assert entries[..i] == [entries[0]] + entries[1..][..i - 1];
      assert ([entries[0]] + entries[1..][..i - 1])[1..] == entries[1..][..i - 1];
      RefillAt(entries[1..], info, if entries[0].name == info.name then k + 1 else k, limit, i - 1);
    }
  }

  lemma PlaceOfRank(entries: seq<Entry>, name: string, i: nat)
    requires i < |entries| && entries[i].name == name
    ensures Rank(entries, i, name) < |Places(entries, name)| && Places(entries, name)[Rank(entries, i, name)] == i
  {
    PlacesRank(entries, name);
  }

  lemma RankOfPlace(entries: seq<Entry>, name: string, k: nat)
    requires k < |Places(entries, name)|
    ensures var place := Places(entries, name)[k];
            place < |entries| && entries[place].name == name && Rank(entries, place, name) == k
  {
    PlacesRank(entries, name);
    PlacesCount(entries, name);
    WithNameNamed(entries, name);
  }

  lemma {:induction false} WithNameNamed(entries: seq<Entry>, name: string)
    ensures forall e :: e in WithName(entries, name) ==> e.name == name
  {
    if entries != [] { WithNameNamed(entries[1..], name); }
  }

  lemma RefillNextAt(entries: seq<Entry>, info: FileInputInfo, idx: nat, place: nat, i: nat)
    requires idx < |Places(entries, info.name)| && idx < |info.files| && place == Places(entries, info.name)[idx] && i < |entries|
    ensures place < |entries|
    ensures Refill(entries, info, 0, idx + 1)[i] == if i == place then AddFile(entries[place], info, idx) else Refill(entries, info, 0, idx)[i]
    ensures i == place ==> Refill(entries, info, 0, idx)[i] == entries[i]
  {
    RankOfPlace(entries, info.name, idx);
    if entries[i].name == info.name { PlaceOfRank(entries, info.name, i); }
    RefillAt(entries, info, 0, idx, i);
    RefillAt(entries, info, 0, idx + 1, i);
  }

  /** One more file changes the entry at the next place, which no file reached before. */
  lemma RefillNext(entries: seq<Entry>, info: FileInputInfo, idx: nat)
    requires idx < |Places(entries, info.name)| && idx < |info.files|
    ensures var place := Places(entries, info.name)[idx];
            && place < |entries|
            && Refill(entries, info, 0, idx)[place] == entries[place]
            && Refill(entries, info, 0, idx + 1) == Refill(entries, info, 0, idx)[place := AddFile(entries[place], info, idx)]
  {
    var place := Places(entries, info.name)[idx];
    RankOfPlace(entries, info.name, idx);
    RefillNextAt(entries, info, idx, place, place);
    var before, after := Refill(entries, info, 0, idx), Refill(entries, info, 0, idx + 1);
    forall i | 0 <= i < |entries| ensures after[i] == if i == place then AddFile(entries[place], info, idx) else before[i] {
      RefillNextAt(entries, info, idx, place, i);
    }
  }

  lemma RefillNone(entries: seq<Entry>, info: FileInputInfo)
    ensures Refill(entries, info, 0, 0) == entries
  {
    forall i | 0 <= i < |entries| ensures Refill(entries, info, 0, 0)[i] == entries[i] { RefillAt(entries, info, 0, 0, i); }
  }

  lemma RefillEnough(entries: seq<Entry>, info: FileInputInfo, limit: nat)
    requires |Places(entries, info.name)| <= limit <= |info.files|
    ensures Refill(entries, info, 0, limit) == Refill(entries, info, 0, |info.files|)
  {
    PlacesRank(entries, info.name);
    forall i | 0 <= i < |entries| ensures Refill(entries, info, 0, limit)[i] == Refill(entries, info, 0, |info.files|)[i] {
      RefillAt(entries, info, 0, limit, i);
      RefillAt(entries, info, 0, |info.files|, i);
    }
  }

  /** The entries and the previous entry after the first idx files of an input. */
  ghost predicate Progress(es: seq<Entry>, info: FileInputInfo, idx: nat, now: seq<Entry>, previous: Option<Entry>)
    requires idx <= |info.files|
  {
    var places, n := Places(es, info.name), |es|;
    && |now| >= n && now[..n] == Refill(es, info, 0, if idx < |places| then idx else |places|)
    && (idx <= |places| ==> |now| == n && previous == PreviousOf(es, info, idx))
    && (idx >= |places| ==> now[n..] + Extras(info, idx, previous) == Extras(info, |places|, LastFilled(es, info)))
  }

  ghost function PreviousOf(es: seq<Entry>, info: FileInputInfo, idx: nat): Option<Entry>
    requires idx <= |info.files| && idx <= |Places(es, info.name)|
  {
    if idx == 0 then None else
    PlacesCount(es, info.name);
    Some(AddFile(es[Places(es, info.name)[idx - 1]], info, idx - 1))
  }

  lemma ProgressStarts(es: seq<Entry>, info: FileInputInfo)
    ensures Progress(es, info, 0, es, None)
  {
    PlacesCount(es, info.name);
    RefillNone(es, info);
    assert es[..|es|] == es && es[|es|..] == [];
    assert [] + Extras(info, 0, None) == Extras(info, 0, None);
  }

  lemma ProgressFound(es: seq<Entry>, info: FileInputInfo, idx: nat, now: seq<Entry>, previous: Option<Entry>)
    requires idx < |info.files| && idx < |Places(es, info.name)| && Progress(es, info, idx, now, previous)
    ensures var place := Places(es, info.name)[idx];
            && place < |es| == |now| && now[place] == es[place]
            && Progress(es, info, idx + 1, now[place := AddFile(now[place], info, idx)], Some(AddFile(now[place], info, idx)))
  {
    RefillNext(es, info, idx);
    PlacesCount(es, info.name);
    assert now == now[..|es|];
    var place := Places(es, info.name)[idx];
    var next := now[place := AddFile(now[place], info, idx)];
    assert next[..|es|] == next && next[|es|..] == [];
    if idx + 1 == |Places(es, info.name)| {
      assert LastFilled(es, info) == Some(AddFile(es[place], info, idx));
      assert [] + Extras(info, idx + 1, LastFilled(es, info)) == Extras(info, idx + 1, LastFilled(es, info));
    }
  }

  lemma ProgressNew(es: seq<Entry>, info: FileInputInfo, idx: nat, now: seq<Entry>, previous: Option<Entry>)
    requires idx < |info.files| && idx >= |Places(es, info.name)| && Progress(es, info, idx, now, previous)
    ensures var e := AddFile(if previous.Some? then Clone(previous.value) else NEW_ENTRY, info, idx);
            Progress(es, info, idx + 1, now + [e], Some(e))
  {
    var e := AddFile(if previous.Some? then Clone(previous.value) else NEW_ENTRY, info, idx);
    var rest := Extras(info, idx + 1, Some(e));
    assert Extras(info, idx, previous) == [e] + rest;
    OneMore(now, |es|, e, rest);
  }

  lemma OneMore(now: seq<Entry>, n: nat, e: Entry, rest: seq<Entry>)
    requires n <= |now|
    ensures (now + [e])[..n] == now[..n] && (now + [e])[n..] + rest == now[n..] + ([e] + rest)
  {
  }

  lemma ProgressEnds(es: seq<Entry>, info: FileInputInfo, now: seq<Entry>, previous: Option<Entry>)
    requires Progress(es, info, |info.files|, now, previous)
    ensures now == Inject(es, info)
  {
    var m, files := |Places(es, info.name)|, |info.files|;
    PlacesCount(es, info.name);
    assert now == now[..|es|] + now[|es|..];
    if m <= files {
      RefillEnough(es, info, m);
      assert now[|es|..] + [] == now[|es|..];
    }
  }
}
