/** Free names for stored files. src/upload/storage.ts */
module UploadNames {
  import opened Prelude

  // ---------------------------------------------------------------- candidates

  /** The place of the last dot, or 0. */
  function LastDot(name: string): (d: nat)
    ensures d < |name| || d == 0
  {
    if |name| < 2 then 0 else if name[|name| - 1] == '.' then |name| - 1 else LastDot(name[..|name| - 1])
  }

  /** Where the extension begins: path.extname of a name without directories. */
  function ExtensionStart(name: string): (d: nat)
    ensures d <= |name|
  {
    if LastDot(name) == 0 || name == ".." then |name| else LastDot(name)
  }

  /** The i-th name to try: the name itself, and then with a number before the extension. */
  function Candidate(name: string, i: nat): string {
    if i == 0 then name else
    var d := ExtensionStart(name);
    name[..d] + " " + Decimal(i) + name[d..]
  }

  lemma CandidateText(name: string, i: nat)
    requires i > 0
    ensures var d := ExtensionStart(name);
            && |Candidate(name, i)| == |name| + 1 + |Decimal(i)|
            && Candidate(name, i)[d + 1..d + 1 + |Decimal(i)|] == Decimal(i)
  {
    var d := ExtensionStart(name);
    assert Candidate(name, i) == (name[..d] + " ") + Decimal(i) + name[d..];
  }

  /** Different numbers give different names. */
  lemma CandidatesDiffer(name: string, i: nat, j: nat)
    requires Candidate(name, i) == Candidate(name, j)
    ensures i == j
  {
    if i > 0 { CandidateText(name, i); }
    if j > 0 { CandidateText(name, j); }
    if i > 0 && j > 0 { DecimalInjective(i, j); }
  }

  lemma {:induction false} LastDotIs(stem: string, extension: string)
    requires stem != "" && '.' !in extension
    ensures LastDot(stem + "." + extension) == |stem|
    decreases |extension|
  {
    var s := stem + "." + extension;
    if extension != "" {
      var n := |extension| - 1;
      assert s[..|s| - 1] == stem + "." + extension[..n];
      assert s[|s| - 1] == extension[n] && extension[n] in extension;
      LastDotIs(stem, extension[..n]);
    }
  }

  lemma {:induction false} NoLastDot(name: string)
    requires forall i :: 1 <= i < |name| ==> name[i] != '.'
    ensures LastDot(name) == 0
  {
    if |name| >= 2 { NoLastDot(name[..|name| - 1]); }
  }

  /** The numbered names: a space and the number stand before the last dot of a name, if something other than a dot stands
      before it, and else at the end. */
  lemma CandidateSpelled(stem: string, extension: string, i: nat)
    requires i > 0 && stem !in {"", "."} && '.' !in extension
    ensures Candidate(stem + "." + extension, i) == stem + " " + Decimal(i) + ("." + extension)
    ensures '.' !in stem[1..] ==> Candidate(stem, i) == stem + " " + Decimal(i)
  {
    var name := stem + "." + extension;
    LastDotIs(stem, extension);
    assert name != ".." by { assert name[..|stem|] == stem && ".."[..1] == "."; }
    assert name[..|stem|] == stem && name[|stem|..] == "." + extension;
    if '.' !in stem[1..] {
      forall k | 1 <= k < |stem| ensures stem[k] != '.' { assert stem[k] == stem[1..][k - 1]; }
      NoLastDot(stem);
      assert stem[..|stem|] == stem && stem[|stem|..] == "";
    }
  }

  // ---------------------------------------------------------------- the search

  function SetOf(names: seq<string>): set<string> {
    set n | n in names
  }

  /** The first n candidates. */
  function Tried(name: string, n: nat): set<string> {
    set i | 0 <= i < n :: Candidate(name, i)
  }

  lemma {:induction false} TriedCount(name: string, n: nat)
    ensures |Tried(name, n)| == n
  {
    if n > 0 {
      TriedCount(name, n - 1);
      TriedGrows(name, n - 1);
    } else {
      assert Tried(name, 0) == {};
    }
  }

  lemma TriedGrows(name: string, n: nat)
    ensures |Tried(name, n + 1)| == |Tried(name, n)| + 1
  {
    var x := Candidate(name, n);
    TriedNext(name, n, x);
    CountOneMore(Tried(name, n), x);
  }

  lemma TriedNext(name: string, n: nat, x: string)
    requires x == Candidate(name, n)
    ensures x !in Tried(name, n) && Tried(name, n + 1) == Tried(name, n) + {x}
  {
    forall i | 0 <= i < n ensures Candidate(name, i) != x {
      if Candidate(name, i) == x { CandidatesDiffer(name, i, n); }
    }
  }

  lemma CountOneMore(names: set<string>, x: string)
    requires x !in names
    ensures |names + {x}| == |names| + 1
  {
  }

  lemma SubsetCount(a: set<string>, b: set<string>)
    requires a <= b
    ensures |a| <= |b|
  {
    assert b == a + (b - a);
  }

  /** Every candidate before the k-th exists and the k-th does not. */
  predicate IsFirstFree(existing: seq<string>, name: string, k: nat) {
    Candidate(name, k) !in existing && forall i :: 0 <= i < k ==> Candidate(name, i) in existing
  }

  /** As long as all candidates exist there are no more of them than existing names. */
  lemma Pigeonhole(existing: seq<string>, name: string, k: nat)
    requires forall i :: 0 <= i < k ==> Candidate(name, i) in existing
    ensures k <= |SetOf(existing)|
  {
    TriedCount(name, k);
    forall c | c in Tried(name, k) ensures c in SetOf(existing) { }
    SubsetCount(Tried(name, k), SetOf(existing));
  }

  /** The search ends with the first candidate that does not exist, after at most as many steps as
      there are different existing names. */
  method GenerateName(existingNames: seq<string>, name: string) returns (fileName: string)
    ensures fileName !in existingNames
    ensures exists k :: 0 <= k <= |SetOf(existingNames)| && IsFirstFree(existingNames, name, k) && fileName == Candidate(name, k)
  {
    fileName := name;
    var index := 0;
    while fileName in existingNames
      invariant 0 <= index && fileName == Candidate(name, index)
      invariant forall i :: 0 <= i < index ==> Candidate(name, i) in existingNames
      decreases |SetOf(existingNames)| - index
    {
      Pigeonhole(existingNames, name, index + 1);
      index := index + 1;
      fileName := Candidate(name, index);
    }
    Pigeonhole(existingNames, name, index);
    assert IsFirstFree(existingNames, name, index);
  }
  // ---------------------------------------------------------------- storing files

  /** A file that was written under a name, or the error of a given name. */
  datatype StoredFile = Stored(file: string, data: string) | Failed(file: string)

  /** A stored file has a name that was free, the first one for its given name. */
  ghost predicate HasFreeName(before: seq<string>, given: string, file: string) {
    exists k :: 0 <= k <= |SetOf(before)| && IsFirstFree(before, given, k) && file == Candidate(given, k)
  }

  /** The names of the files written so far, after the existing ones. */
  function NamesAfter(existing: seq<string>, stored: seq<StoredFile>): seq<string> {
    if stored == [] then existing else
    NamesAfter(existing, stored[..|stored| - 1]) + if stored[|stored| - 1].Stored? then [stored[|stored| - 1].file] else []
  }

  /** One attempt to write, after the names that exist by then. */
  ghost predicate IsStored(names: seq<string>, given: string, item: Option<string>, writes: bool, file: StoredFile) {
    if item.Some? && writes then file.Stored? && file.data == item.value && HasFreeName(names, given, file.file)
    else file == Failed(given)
  }

  function Item(data: seq<string>, i: nat): Option<string> {
    if i < |data| then Some(data[i]) else None
  }

  /** The files of one call. `writes` tells which of the attempts to write succeed. */
  ghost predicate AllStored(existing: seq<string>, fileNames: seq<string>, data: seq<string>, writes: seq<bool>, stored: seq<StoredFile>)
    requires |stored| <= |fileNames| <= |writes|
  {
    forall i :: 0 <= i < |stored| ==> IsStored(NamesAfter(existing, stored[..i]), fileNames[i], Item(data, i), writes[i], stored[i])
  }

  /** store, once the names in the directory are known: a missing item of data makes the attempt fail. */
  method Store(existing: seq<string>, fileNames: seq<string>, data: seq<string>, writes: seq<bool>) returns (storedFiles: seq<StoredFile>)
    requires |writes| >= |fileNames|
    ensures |storedFiles| == |fileNames| && AllStored(existing, fileNames, data, writes, storedFiles)
  {
    var existingFiles := existing;
    storedFiles := [];
    var i := 0;
    while i < |fileNames|
      invariant 0 <= i <= |fileNames| && |storedFiles| == i
      invariant existingFiles == NamesAfter(existing, storedFiles)
      invariant AllStored(existing, fileNames, data, writes, storedFiles)
    {
      var storedFileName := GenerateName(existingFiles, fileNames[i]);
      ghost var before := storedFiles;
      if |storedFiles| < |data| && writes[i] {
        existingFiles := existingFiles + [storedFileName];
        storedFiles := storedFiles + [Stored(storedFileName, data[|storedFiles|])];
      } else {
        storedFiles := storedFiles + [Failed(fileNames[i])];
      }
      StoredNext(existing, fileNames, data, writes, before, storedFiles[i], storedFiles);
      i := i + 1;
    }
  }

  lemma StoredNext(existing: seq<string>, fileNames: seq<string>, data: seq<string>, writes: seq<bool>, before: seq<StoredFile>, file: StoredFile,
                   after: seq<StoredFile>)
    requires |before| < |fileNames| <= |writes| && AllStored(existing, fileNames, data, writes, before) && after == before + [file]
    requires IsStored(NamesAfter(existing, before), fileNames[|before|], Item(data, |before|), writes[|before|], file)
    ensures AllStored(existing, fileNames, data, writes, after)
    ensures NamesAfter(existing, after) == NamesAfter(existing, before) + if file.Stored? then [file.file] else []
  {
    assert after[..|before|] == before;
    forall j | 0 <= j <= |before| ensures IsStored(NamesAfter(existing, after[..j]), fileNames[j], Item(data, j), writes[j], after[j]) {
      assert after[..j] == before[..j];
      if j < |before| { assert after[j] == before[j]; } else { assert after[j] == file && before[..j] == before; }
    }
  }

  lemma {:induction false} NamesGrow(existing: seq<string>, stored: seq<StoredFile>, i: nat)
    requires i < |stored| && stored[i].Stored?
    ensures stored[i].file in NamesAfter(existing, stored) && forall n :: n in existing ==> n in NamesAfter(existing, stored)
  {
    if i < |stored| - 1 {
      assert stored[..|stored| - 1][i] == stored[i];
      NamesGrow(existing, stored[..|stored| - 1], i);
    } else {
      ExistingStay(existing, stored);
    }
  }

  lemma {:induction false} ExistingStay(existing: seq<string>, stored: seq<StoredFile>)
    ensures forall n :: n in existing ==> n in NamesAfter(existing, stored)
  {
    if stored != [] { ExistingStay(existing, stored[..|stored| - 1]); }
  }

  /** The files written by one call have names that differ from each other and from those before, and
      the i-th file holds the i-th item of data. */
  lemma StoredApart(existing: seq<string>, fileNames: seq<string>, data: seq<string>, writes: seq<bool>, stored: seq<StoredFile>, i: nat, j: nat)
    requires |stored| == |fileNames| <= |writes| && AllStored(existing, fileNames, data, writes, stored)
    requires i < |stored| && stored[i].Stored?
    ensures i < |data| && stored[i].data == data[i] && stored[i].file !in existing
    ensures j < i && stored[j].Stored? ==> stored[j].file != stored[i].file
  {
    var before := NamesAfter(existing, stored[..i]);
    assert IsStored(before, fileNames[i], Item(data, i), writes[i], stored[i]);
    assert HasFreeName(before, fileNames[i], stored[i].file);
    ExistingStay(existing, stored[..i]);
    if j < i && stored[j].Stored? { NamesGrow(existing, stored[..i], j); }
  }
}
