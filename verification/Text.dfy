/** Strings: separators, trimming and searching, as the JavaScript string methods do them. */
module Text {

  // ---------------------------------------------------------------- separators

  /** String.prototype.split with a one-character separator. */
  function Split(s: string, sep: char): (parts: seq<string>)
    ensures parts != []
  {
    if s == [] then [[]] else
    var rest := Split(s[1..], sep);
    if s[0] == sep then [[]] + rest else [[s[0]] + rest[0]] + rest[1..]
  }

  /** Array.prototype.join */
  function Join(parts: seq<string>, sep: string): string {
    if |parts| == 0 then "" else
    if |parts| == 1 then parts[0] else
    parts[0] + sep + Join(parts[1..], sep)
  }

  lemma {:induction false} SplitNone(s: string, sep: char)
    requires sep !in s
    ensures Split(s, sep) == [s]
  {
    if s != [] {
      SplitNone(s[1..], sep);
      assert s == [s[0]] + s[1..];
    }
  }

  lemma {:induction false} SplitFirst(first: string, rest: string, sep: char)
    requires sep !in first
    ensures Split(first + [sep] + rest, sep) == [first] + Split(rest, sep)
  {
    if first == [] {
      assert first + [sep] + rest == [sep] + rest && ([sep] + rest)[1..] == rest;
    } else {
      SplitFirst(first[1..], rest, sep);
      assert (first + [sep] + rest)[1..] == first[1..] + [sep] + rest;
      assert first == [first[0]] + first[1..];
    }
  }

  /** Splitting undoes joining of parts that do not contain the separator. */
  lemma {:induction false} SplitJoin(parts: seq<string>, sep: char)
    requires parts != [] && forall i :: 0 <= i < |parts| ==> sep !in parts[i]
    ensures Split(Join(parts, [sep]), sep) == parts
  {
    if |parts| == 1 {
      SplitNone(parts[0], sep);
    } else {
      SplitJoin(parts[1..], sep);
      SplitFirst(parts[0], Join(parts[1..], [sep]), sep);
      assert parts == [parts[0]] + parts[1..];
    }
  }

  /** Joining undoes splitting. */
  lemma {:induction false} JoinSplit(s: string, sep: char)
    ensures Join(Split(s, sep), [sep]) == s
  {
    if s != [] {
      var rest := Split(s[1..], sep);
      JoinSplit(s[1..], sep);
      assert s == [s[0]] + s[1..];
      if s[0] == sep {
        assert ([[]] + rest)[1..] == rest;
      } else if |rest| > 1 {
        assert ([[s[0]] + rest[0]] + rest[1..])[1..] == rest[1..];
      }
    }
  }

  lemma {:induction false} SplitParts(s: string, sep: char, i: nat)
    requires i < |Split(s, sep)|
    ensures sep !in Split(s, sep)[i]
    ensures forall c :: c in Split(s, sep)[i] ==> c in s
  {
    if s != [] {
      var rest := Split(s[1..], sep);
      if s[0] == sep {
        if i > 0 { SplitParts(s[1..], sep, i - 1); }
      } else if i == 0 {
        SplitParts(s[1..], sep, 0);
      } else {
        SplitParts(s[1..], sep, i);
        assert Split(s, sep)[i] == rest[i];
      }
    }
  }

  lemma {:induction false} JoinWithout(parts: seq<string>, sep: string, c: char)
    requires c !in sep && forall i :: 0 <= i < |parts| ==> c !in parts[i]
    ensures c !in Join(parts, sep)
  {
    if |parts| > 1 { JoinWithout(parts[1..], sep, c); }
  }

  // ---------------------------------------------------------------- searching

  /** The first index of c, or the length when c does not occur. */
  function IndexOf(s: string, c: char): (i: nat)
    ensures i <= |s| && c !in s[..i] && (i < |s| ==> s[i] == c)
  {
    if s == [] || s[0] == c then 0 else
    var i := 1 + IndexOf(s[1..], c);
    assert s[..i] == [s[0]] + s[1..][..i - 1];
    i
  }

  lemma {:induction false} IndexOfSplit(before: string, c: char, after: string)
    requires c !in before
    ensures IndexOf(before + [c] + after, c) == |before|
  {
    if before == [] {
      assert (before + [c] + after)[0] == c;
    } else {
      IndexOfSplit(before[1..], c, after);
      assert (before + [c] + after)[1..] == before[1..] + [c] + after;
    }
  }

  // ---------------------------------------------------------------- white space

  /** WhiteSpace and LineTerminator of ECMA-262 section 12.2 and 12.3. */
  predicate IsSpace(c: char) {
    || c in " \t\n\r"
    || c as int in {0x0B, 0x0C, 0xA0, 0x1680, 0x2028, 0x2029, 0x202F, 0x205F, 0x3000, 0xFEFF}
    || 0x2000 <= c as int <= 0x200A
  }

  function TrimLeft(s: string): string {
    if s != [] && IsSpace(s[0]) then TrimLeft(s[1..]) else s
  }

  function TrimRight(s: string): string {
    if s != [] && IsSpace(s[|s| - 1]) then TrimRight(s[..|s| - 1]) else s
  }

  function Trim(s: string): string {
    TrimRight(TrimLeft(s))
  }

  /** No white space at either end. */
  predicate Trimmed(s: string) {
    s != [] ==> !IsSpace(s[0]) && !IsSpace(s[|s| - 1])
  }

  lemma TrimTrimmed(s: string)
    requires Trimmed(s)
    ensures Trim(s) == s
  {
  }

  // ---------------------------------------------------------------- lists as browsers write them

  function TrimAll(parts: seq<string>): (r: seq<string>)
    ensures |r| == |parts|
  {
    seq(|parts|, i requires 0 <= i < |parts| => Trim(parts[i]))
  }

  /** An entry of a cookie list. */
  predicate IsEntry(s: string) {
    ';' !in s && Trimmed(s)
  }

  lemma SpaceBeforeSplit(s: string)
    ensures TrimAll(Split(" " + s, ';')) == TrimAll(Split(s, ';'))
  {
    var parts := Split(s, ';');
    assert (" " + s)[1..] == s;
    assert Split(" " + s, ';') == [[' '] + parts[0]] + parts[1..];
    assert ([' '] + parts[0])[1..] == parts[0];
    assert Trim([' '] + parts[0]) == Trim(parts[0]);
  }

  /** Splitting at ';' and trimming undoes joining with "; ". */
  lemma {:induction false} ListRoundTrip(parts: seq<string>)
    requires parts != [] && forall i :: 0 <= i < |parts| ==> IsEntry(parts[i])
    ensures TrimAll(Split(Join(parts, "; "), ';')) == parts
  {
    TrimTrimmed(parts[0]);
    assert IsEntry(parts[0]);
    if |parts| == 1 {
      SplitNone(parts[0], ';');
    } else {
      var rest := Join(parts[1..], "; ");
      assert Join(parts, "; ") == parts[0] + [';'] + (" " + rest);
      SplitFirst(parts[0], " " + rest, ';');
      SpaceBeforeSplit(rest);
      ListRoundTrip(parts[1..]);
      TrimAllCons(parts[0], Split(" " + rest, ';'));
      assert parts == [parts[0]] + parts[1..];
    }
  }

  lemma TrimAllCons(first: string, rest: seq<string>)
    ensures TrimAll([first] + rest) == [Trim(first)] + TrimAll(rest)
  {
  }

  /** The entries of a cookie list. */
  function Entries(s: string): seq<string> {
    if s == "" then [] else TrimAll(Split(s, ';'))
  }

  lemma EntriesRoundTrip(parts: seq<string>)
    requires forall i :: 0 <= i < |parts| ==> IsEntry(parts[i]) && parts[i] != ""
    ensures Entries(Join(parts, "; ")) == parts
  {
    if parts != [] {
      ListRoundTrip(parts);
      assert parts[0] != "";
    }
  }

  // ---------------------------------------------------------------- case and lines

  function LowerChar(c: char): char {
    if 'A' <= c <= 'Z' then c + 32 as char else c
  }

  /** String.prototype.toLowerCase on ASCII letters. */
  function Lower(s: string): (r: string)
    ensures |r| == |s|
  {
    seq(|s|, i requires 0 <= i < |s| => LowerChar(s[i]))
  }

  predicate IsLineTerminator(c: char) {
    c in "\n\r" || c as int in {0x2028, 0x2029}
  }

  predicate OneLine(s: string) {
    forall c :: c in s ==> !IsLineTerminator(c)
  }

  /** The length of the prefix without regard to case, or 0. */
  function PrefixLength(s: string, prefix: string): nat {
    if |prefix| <= |s| && Lower(s[..|prefix|]) == prefix then |prefix| else 0
  }

  /** The number of characters before the first of the stops. */
  function Until(s: string, stops: string): (n: nat)
    ensures n <= |s|
  {
    if s != "" && s[0] !in stops then 1 + Until(s[1..], stops) else 0
  }

  lemma {:induction false} UntilMeans(s: string, stops: string)
    ensures forall i :: 0 <= i < Until(s, stops) ==> s[i] !in stops
    ensures Until(s, stops) < |s| ==> s[Until(s, stops)] in stops
  {
    if s != "" && s[0] !in stops {
      UntilMeans(s[1..], stops);
      assert forall i :: 1 <= i < |s| ==> s[i] == s[1..][i - 1];
    }
  }

  lemma UntilIs(s: string, stops: string, n: nat)
    requires n <= |s| && (forall i :: 0 <= i < n ==> s[i] !in stops) && (n < |s| ==> s[n] in stops)
    ensures Until(s, stops) == n
  {
    UntilMeans(s, stops);
  }

  lemma {:induction false} UntilConcat(a: string, b: string, stops: string)
    requires Until(a, stops) == |a|
    ensures Until(a + b, stops) == |a| + Until(b, stops)
  {
    if a == "" {
      assert a + b == b;
    } else {
      assert (a + b)[1..] == a[1..] + b;
      UntilConcat(a[1..], b, stops);
    }
  }

  /** All texts one after the other. */
  function Concat(chunks: seq<string>): string {
    if chunks == [] then "" else Concat(chunks[..|chunks| - 1]) + chunks[|chunks| - 1]
  }

  lemma ConcatAppend(chunks: seq<string>, chunk: string)
    ensures Concat(chunks + [chunk]) == Concat(chunks) + chunk
  {
    assert (chunks + [chunk])[..|chunks|] == chunks;
  }
}
