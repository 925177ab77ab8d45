/** applyChanges of src/processing/script/index.ts: splicing regenerated code into the source. */
module ScriptSplice {
  import opened Prelude
  import opened ScriptChanges
  import opened ScriptCoverage
  import Strings = Text

  /** The code generator: from the rewritten item and the text it replaces to new text. */
  type Generator = (Item, string) -> string

  function Clamp(x: int, length: nat): nat {
    if x < 0 then 0 else if x > length then length else x
  }

  /** String.prototype.substring */
  function Substring(s: string, a: int, b: int): string {
    var x, y := Clamp(a, |s|), Clamp(b, |s|);
    if x <= y then s[x..y] else s[y..x]
  }

  /** The bounds are cut off at the ends of the text and may come in either order. */
  lemma SubstringExactly(s: string, a: int, b: int)
    requires a <= b
    ensures Substring(s, a, b) == Substring(s, b, a)
    ensures var from, to := if a < 0 then 0 else if a > |s| then |s| else a, if b < 0 then 0 else if b > |s| then |s| else b;
            Substring(s, a, b) == s[from..to]
  {
  }

  predicate Parenthesised(c: Change) {
    c.kind == SequenceExpression && c.parentKind != ExpressionStatement && c.parentKind != SequenceExpression
  }

  function Text(gen: Generator, c: Change, replaced: string): string {
    (if Parenthesised(c) then "(" else " ") + gen(c.item, replaced) + (if Parenthesised(c) then ")" else " ")
  }

  // ---------------------------------------------------------------- the order of changes

  function Rank(c: Change): nat {
    if c.kind == VariableDeclaration then 0 else 1
  }

  predicate Less(c: Change, d: Change) {
    || c.start < d.start
    || (c.start == d.start && c.end < d.end)
    || (c.start == d.start && c.end == d.end && Rank(c) < Rank(d))
  }

  /** Inserts c after the changes that do not come later than it. */
  function Insert(c: Change, sorted: seq<Change>): seq<Change> {
    if sorted == [] then [c]
    else if Less(c, sorted[|sorted| - 1]) then Insert(c, sorted[..|sorted| - 1]) + [sorted[|sorted| - 1]]
    else sorted + [c]
  }

  /** Array.prototype.sort, which is stable. */
  function Sorted(cs: seq<Change>): seq<Change> {
    if cs == [] then [] else Insert(cs[|cs| - 1], Sorted(cs[..|cs| - 1]))
  }

  ghost predicate IsSorted(cs: seq<Change>) {
    forall i, j :: 0 <= i < j < |cs| ==> !Less(cs[j], cs[i])
  }

  lemma {:induction false} InsertSorts(c: Change, cs: seq<Change>)
    requires IsSorted(cs)
    ensures IsSorted(Insert(c, cs))
    ensures multiset(Insert(c, cs)) == multiset(cs) + multiset{c}
    ensures forall d :: d in Insert(c, cs) <==> d == c || d in cs
  {
    if cs != [] {
      var init, last := cs[..|cs| - 1], cs[|cs| - 1];
      assert cs == init + [last];
      if Less(c, last) {
        InsertSorts(c, init);
        LastIsLeast(cs);
        AppendSorted(Insert(c, init), last);
      } else {
        LastIsLeast(cs);
        AppendSorted(cs, c);
      }
    }
  }

  lemma LastIsLeast(cs: seq<Change>)
    requires IsSorted(cs) && cs != []
    ensures forall d :: d in cs ==> !Less(cs[|cs| - 1], d)
  {
  }

  lemma AppendSorted(cs: seq<Change>, c: Change)
    requires IsSorted(cs) && forall d :: d in cs ==> !Less(c, d)
    ensures IsSorted(cs + [c])
  {
  }

  /** The sorted list is in order and has the same changes. */
  lemma {:induction false} SortedSorts(cs: seq<Change>)
    ensures IsSorted(Sorted(cs))
    ensures multiset(Sorted(cs)) == multiset(cs)
    ensures forall c :: c in Sorted(cs) <==> c in cs
  {
    if cs != [] {
      var init, last := cs[..|cs| - 1], cs[|cs| - 1];
      assert cs == init + [last];
      SortedSorts(init);
      InsertSorts(last, Sorted(init));
    }
  }

  /** The changes of the list that compare equal to c, in order. */
  function Ties(cs: seq<Change>, c: Change): seq<Change> {
    if cs == [] then [] else
    var last := cs[|cs| - 1];
    Ties(cs[..|cs| - 1], c) + if Less(last, c) || Less(c, last) then [] else [last]
  }

  lemma {:induction false} InsertKeepsTies(x: Change, cs: seq<Change>, c: Change)
    ensures Ties(Insert(x, cs), c) == Ties(cs, c) + if Less(x, c) || Less(c, x) then [] else [x]
  {
    if cs == [] {
      assert Insert(x, cs)[..0] == [];
    } else if Less(x, cs[|cs| - 1]) {
      var init, last := cs[..|cs| - 1], cs[|cs| - 1];
      InsertKeepsTies(x, init, c);
      assert (Insert(x, init) + [last])[..|Insert(x, init)|] == Insert(x, init);
    } else {
      assert (cs + [x])[..|cs|] == cs;
    }
  }

  /** The sort is stable: changes that compare equal keep their order. */
  lemma {:induction false} SortedIsStable(cs: seq<Change>, c: Change)
    ensures Ties(Sorted(cs), c) == Ties(cs, c)
  {
    if cs != [] {
      SortedIsStable(cs[..|cs| - 1], c);
      InsertKeepsTies(cs[|cs| - 1], Sorted(cs[..|cs| - 1]), c);
    }
  }

  /** No two different changes compare equal. */
  ghost predicate NoTies(cs: seq<Change>) {
    forall c, d :: c in cs && d in cs && c != d ==> Less(c, d) || Less(d, c)
  }

  lemma SameFirst(a: seq<Change>, b: seq<Change>)
    requires IsSorted(a) && IsSorted(b) && multiset(a) == multiset(b) && NoTies(a) && a != []
    ensures b != [] && a[0] == b[0]
  {
    assert a[0] in multiset(b);
    var i :| 0 <= i < |b| && b[i] == a[0];
    assert b[0] in multiset(a);
    var j :| 0 <= j < |a| && a[j] == b[0];
  }

  lemma {:induction false} SortedIsUnique(a: seq<Change>, b: seq<Change>)
    requires IsSorted(a) && IsSorted(b) && multiset(a) == multiset(b) && NoTies(a)
    ensures a == b
  {
    if a == [] {
      assert |multiset(a)| == |a| && |multiset(b)| == |b|;
    } else {
      SameFirst(a, b);
      assert a == [a[0]] + a[1..] && b == [b[0]] + b[1..];
      assert multiset(a[1..]) == multiset(a) - multiset{a[0]};
      assert multiset(b[1..]) == multiset(b) - multiset{b[0]};
      SortedIsUnique(a[1..], b[1..]);
    }
  }

  // ---------------------------------------------------------------- the loop

  /** What one round of the loop appends: the text up to the change and the regenerated text. */
  function Piece(gen: Generator, script: string, c: Change, start: int, end: int, index: int): string {
    Substring(script, index, start) + Text(gen, c, Substring(script, start, end))
  }

  /** What the loop appends for the changes cs once the source was copied up to `index`. */
  function Splice(gen: Generator, script: string, cs: seq<Change>, offset: int, index: int): string {
    if cs == [] then Substring(script, index, |script|) else
    var start, end := cs[0].start + offset, cs[0].end + offset;
    Piece(gen, script, cs[0], start, end, index) + Splice(gen, script, cs[1..], offset, end)
  }

  function Offset(isObject: bool): int {
    if isObject then -1 else 0
  }

  /** changes.sort */
  method SortChanges(changes: array<Change>)
    modifies changes
    ensures changes[..] == Sorted(old(changes[..]))
  {
    var sorted := Sorted(changes[..]);
    SortedSorts(changes[..]);
    assert |sorted| == |multiset(sorted)| == |multiset(changes[..])| == changes.Length;
    forall k | 0 <= k < changes.Length {
      changes[k] := sorted[k];
    }
    assert changes[..] == sorted;
  }

  /** One round of the loop: the four pushes for a change. */
  method PushChange(gen: Generator, script: string, change: Change, changeStart: int, changeEnd: int, index: int, before: seq<string>)
    returns (chunks: seq<string>)
    ensures Strings.Concat(chunks) == Strings.Concat(before) + Piece(gen, script, change, changeStart, changeEnd, index)
  {
    var parentheses := change.kind == SequenceExpression && change.parentKind != ExpressionStatement
                       && change.parentKind != SequenceExpression;
    var open, close := if parentheses then "(" else " ", if parentheses then ")" else " ";
    var gap, code := Substring(script, index, changeStart), gen(change.item, Substring(script, changeStart, changeEnd));
    ConcatFour(before, gap, open, code, close);
    chunks := before + [gap];
    chunks := chunks + [open];
    chunks := chunks + [code];
    chunks := chunks + [close];
    TextParts(gen, change, Substring(script, changeStart, changeEnd), open, close);
  }

  lemma TextParts(gen: Generator, c: Change, replaced: string, open: string, close: string)
    requires open == (if Parenthesised(c) then "(" else " ") && close == (if Parenthesised(c) then ")" else " ")
    ensures Text(gen, c, replaced) == open + (gen(c.item, replaced) + close)
  {
  }

  /** The text so far and what is left to append make up the whole. */
  ghost predicate LeadsTo(text: string, gen: Generator, script: string, cs: seq<Change>, i: nat, offset: int, index: int, whole: string)
    requires i <= |cs|
  {
    text + Splice(gen, script, cs[i..], offset, index) == whole
  }

  method ApplyChanges(gen: Generator, script: string, changes: array<Change>, isObject: bool) returns (r: string)
    modifies changes
    ensures changes[..] == Sorted(old(changes[..]))
    ensures r == if changes.Length == 0 then script else Splice(gen, script, changes[..], Offset(isObject), 0)
  {
    var indexOffset := if isObject then -1 else 0;
    if changes.Length == 0 {
      assert changes[..] == [];
      return script;
    }
    SortChanges(changes);
    var chunks := CopyChunks(gen, script, changes, indexOffset);
    return Strings.Concat(chunks);
  }

  /** The loop over the changes and the push of the rest behind it. */
  method CopyChunks(gen: Generator, script: string, changes: array<Change>, indexOffset: int) returns (chunks: seq<string>)
    ensures Strings.Concat(chunks) == Splice(gen, script, changes[..], indexOffset, 0)
  {
    ghost var cs := changes[..];
    ghost var whole, text := Splice(gen, script, cs, indexOffset, 0), "";
    chunks := [];
    var index, i := 0, 0;
    assert cs[0..] == cs;
    while i < changes.Length
      invariant 0 <= i <= changes.Length && text == Strings.Concat(chunks)
      invariant LeadsTo(text, gen, script, cs, i, indexOffset, index, whole)
    {
      var change := changes[i];
      var changeStart := change.start + indexOffset;
      var changeEnd := change.end + indexOffset;
      chunks := PushChange(gen, script, change, changeStart, changeEnd, index, chunks);
      text := SpliceStep(gen, script, cs, i, change, indexOffset, index, text, Strings.Concat(chunks), whole);
      index := index + (changeEnd - index);
      i := i + 1;
    }
    var tail := Substring(script, index, |script|);
    SpliceEnd(gen, script, cs, i, indexOffset, index, chunks, tail, whole);
    chunks := chunks + [tail];
  }

  lemma SpliceStep(gen: Generator, script: string, cs: seq<Change>, i: nat, c: Change, offset: int, index: int,
                   before: string, after: string, whole: string) returns (text: string)
    requires i < |cs| && cs[i] == c && LeadsTo(before, gen, script, cs, i, offset, index, whole)
    requires after == before + Piece(gen, script, c, c.start + offset, c.end + offset, index)
    ensures text == after && LeadsTo(text, gen, script, cs, i + 1, offset, c.end + offset, whole)
  {
    text := after;
    assert cs[i..][0] == c && cs[i..][1..] == cs[i + 1..];
    SpliceHead(gen, script, cs[i..], cs[i + 1..], offset, index);
    Assoc(before, Piece(gen, script, c, c.start + offset, c.end + offset, index), Splice(gen, script, cs[i + 1..], offset, c.end + offset));
  }

  lemma SpliceHead(gen: Generator, script: string, cs: seq<Change>, rest: seq<Change>, offset: int, index: int)
    requires cs != [] && cs[1..] == rest
    ensures Splice(gen, script, cs, offset, index)
         == Piece(gen, script, cs[0], cs[0].start + offset, cs[0].end + offset, index) + Splice(gen, script, rest, offset, cs[0].end + offset)
  {
  }

  lemma SpliceEnd(gen: Generator, script: string, cs: seq<Change>, i: nat, offset: int, index: int,
                  chunks: seq<string>, tail: string, whole: string)
    requires i == |cs| && LeadsTo(Strings.Concat(chunks), gen, script, cs, i, offset, index, whole)
    requires tail == Substring(script, index, |script|)
    ensures Strings.Concat(chunks + [tail]) == whole
  {
    assert cs[i..] == [];
    Strings.ConcatAppend(chunks, tail);
  }

  lemma ConcatFour(chunks: seq<string>, a: string, b: string, c: string, d: string)
    ensures Strings.Concat(chunks + [a] + [b] + [c] + [d]) == Strings.Concat(chunks) + (a + (b + c + d))
  {
    Strings.ConcatAppend(chunks, a);
    Strings.ConcatAppend(chunks + [a], b);
    Strings.ConcatAppend(chunks + [a] + [b], c);
    Strings.ConcatAppend(chunks + [a] + [b] + [c], d);
  }

  // ---------------------------------------------------------------- splicing a range

  /** The changes lie one after the other between two positions. */
  predicate InRange(cs: seq<Change>, from: int, to: int) {
    from <= to && (cs == [] || (from <= cs[0].start <= cs[0].end && InRange(cs[1..], cs[0].end, to)))
  }

  /** The source between two positions with the ranges of the changes regenerated. */
  function SpliceRange(gen: Generator, src: string, cs: seq<Change>, from: nat, to: nat): string
    requires to <= |src| && InRange(cs, from, to)
    decreases |cs|
  {
    if cs == [] then src[from..to] else
    InRangeBound(cs[1..], cs[0].end, to);
    src[from..cs[0].start] + Text(gen, cs[0], src[cs[0].start..cs[0].end]) + SpliceRange(gen, src, cs[1..], cs[0].end, to)
  }

  lemma {:induction false} InRangeBound(cs: seq<Change>, from: int, to: int)
    requires InRange(cs, from, to)
    ensures from <= to
    ensures forall c :: c in cs ==> from <= c.start <= c.end <= to
  {
    if cs != [] {
      InRangeBound(cs[1..], cs[0].end, to);
    }
  }

  /** The splice of a range begins with the first change. */
  lemma HeadOfRange(gen: Generator, src: string, cs: seq<Change>, from: nat, to: nat)
    requires cs != [] && to <= |src| && InRange(cs, from, to)
    ensures from <= cs[0].start <= cs[0].end <= to
    ensures SpliceRange(gen, src, cs, from, to)
         == src[from..cs[0].start] + Text(gen, cs[0], src[cs[0].start..cs[0].end]) + SpliceRange(gen, src, cs[1..], cs[0].end, to)
  {
    InRangeBound(cs[1..], cs[0].end, to);
  }

  /** A change moved to the position it has in the script, cut off at both ends. */
  function Placed(c: Change, offset: int, length: nat): Change {
    c.(start := Clamp(c.start + offset, length), end := Clamp(c.end + offset, length))
  }

  function AllPlaced(cs: seq<Change>, offset: int, length: nat): seq<Change> {
    seq(|cs|, i requires 0 <= i < |cs| => Placed(cs[i], offset, length))
  }

  lemma {:induction false} SortedInRange(cs: seq<Change>, from: int, offset: int, length: nat)
    requires IsSorted(cs) && AllApart(cs)
    requires forall c :: c in cs ==> from <= c.start <= c.end
    ensures InRange(AllPlaced(cs, offset, length), Clamp(from + offset, length), length)
    decreases |cs|
  {
    if cs != [] {
      var placed, rest := AllPlaced(cs, offset, length), cs[1..];
      forall c | c in rest ensures cs[0].end <= c.start <= c.end {
        var i :| 0 <= i < |rest| && rest[i] == c;
        assert cs[i + 1] == c && c in cs;
        assert !Less(cs[i + 1], cs[0]) && Apart(cs[0], cs[i + 1]);
      }
      SortedInRange(rest, cs[0].end, offset, length);
      assert placed[1..] == AllPlaced(rest, offset, length);
    }
  }

  /** On sorted, disjoint changes the loop splices the whole script. */
  lemma {:induction false} SpliceIsRange(gen: Generator, script: string, cs: seq<Change>, offset: int, from: int)
    requires InRange(AllPlaced(cs, offset, |script|), Clamp(from + offset, |script|), |script|)
    ensures Splice(gen, script, cs, offset, from + offset)
         == SpliceRange(gen, script, AllPlaced(cs, offset, |script|), Clamp(from + offset, |script|), |script|)
    decreases |cs|
  {
    if cs != [] {
      var placed := AllPlaced(cs, offset, |script|);
      assert placed[1..] == AllPlaced(cs[1..], offset, |script|);
      SpliceIsRange(gen, script, cs[1..], offset, cs[0].end);
      InRangeBound(placed, Clamp(from + offset, |script|), |script|);
      assert placed[0] in placed;
    }
  }

  /** applyChanges gives the script with the ranges of the changes regenerated, whatever the order
      of the list. */
  lemma SpliceOfChanges(gen: Generator, script: string, cs: seq<Change>, isObject: bool)
    requires AllApart(cs) && forall c :: c in cs ==> 0 <= c.start <= c.end
    ensures var placed := AllPlaced(Sorted(cs), Offset(isObject), |script|);
            && InRange(placed, 0, |script|)
            && Splice(gen, script, Sorted(cs), Offset(isObject), 0) == SpliceRange(gen, script, placed, 0, |script|)
  {
    var sorted := Sorted(cs);
    SortedSorts(cs);
    ApartPermuted(cs, sorted);
    var offset := Offset(isObject);
    SortedInRange(sorted, 0, offset, |script|);
    assert Clamp(0 + offset, |script|) == 0;
    if isObject {
      SpliceFromClamped(gen, script, sorted);
    }
    SpliceIsRange(gen, script, sorted, offset, 0);
  }

  lemma SpliceFromClamped(gen: Generator, script: string, cs: seq<Change>)
    ensures Splice(gen, script, cs, -1, -1) == Splice(gen, script, cs, -1, 0)
  {
  }

  lemma ApartPermuted(a: seq<Change>, b: seq<Change>)
    requires AllApart(a) && multiset(a) == multiset(b)
    ensures AllApart(b)
  {
    forall i, j | 0 <= i < j < |b| ensures Apart(b[i], b[j]) {
      assert b[i] in multiset(a) && b[j] in multiset(a);
      if b[i] == b[j] {
        assert b == b[..i] + [b[i]] + b[i + 1..j] + [b[j]] + b[j + 1..];
        assert multiset(b)[b[i]] >= 2;
        TwiceIn(a, b[i]);
      } else {
        var x :| 0 <= x < |a| && a[x] == b[i];
        var y :| 0 <= y < |a| && a[y] == b[j];
      }
    }
  }

  lemma {:induction false} TwiceIn(a: seq<Change>, c: Change)
    requires multiset(a)[c] >= 2
    ensures exists x, y :: 0 <= x < y < |a| && a[x] == c && a[y] == c
  {
    var x :| 0 <= x < |a| && a[x] == c;
    assert a == a[..x] + [c] + a[x + 1..];
    assert multiset(a[..x])[c] + multiset(a[x + 1..])[c] >= 1;
    if c in a[..x] {
      var y :| 0 <= y < x && a[y] == c;
    } else {
      assert c in a[x + 1..];
      var y :| 0 <= y < |a[x + 1..]| && a[x + 1..][y] == c;
      assert a[x + 1 + y] == c;
    }
  }

  // ---------------------------------------------------------------- what the result contains

  /** How much longer than its source the text is before change i. */
  function GrowthBefore(gen: Generator, src: string, cs: seq<Change>, i: nat): int
    requires i <= |cs| && forall c :: c in cs ==> 0 <= c.start <= c.end <= |src|
  {
    if i == 0 then 0 else
    GrowthBefore(gen, src, cs[1..], i - 1) + |Text(gen, cs[0], src[cs[0].start..cs[0].end])| - (cs[0].end - cs[0].start)
  }

  /** Change i is regenerated at the place its range has moved to. */
  lemma {:induction false} RangeRegenerated(gen: Generator, src: string, cs: seq<Change>, from: nat, to: nat, i: nat)
    requires to <= |src| && InRange(cs, from, to) && i < |cs|
    requires forall c :: c in cs ==> 0 <= c.start <= c.end <= |src|
    ensures var out, at, text := SpliceRange(gen, src, cs, from, to), cs[i].start - from + GrowthBefore(gen, src, cs, i),
                                 Text(gen, cs[i], src[cs[i].start..cs[i].end]);
            0 <= at && at + |text| <= |out| && out[at..at + |text|] == text
    ensures var code := gen(cs[i].item, src[cs[i].start..cs[i].end]);
            Text(gen, cs[i], src[cs[i].start..cs[i].end])
            == if cs[i].kind == SequenceExpression && cs[i].parentKind !in {ExpressionStatement, SequenceExpression}
               then "(" + code + ")" else " " + code + " "
    decreases |cs|
  {
    InRangeBound(cs, from, to);
    assert cs[0] in cs;
    InRangeBound(cs[1..], cs[0].end, to);
    var gap, head := src[from..cs[0].start], Text(gen, cs[0], src[cs[0].start..cs[0].end]);
    var tail := SpliceRange(gen, src, cs[1..], cs[0].end, to);
    var out := SpliceRange(gen, src, cs, from, to);
    assert out == gap + head + tail;
    if i == 0 {
      assert out[|gap|..|gap| + |head|] == head;
    } else {
      RangeRegenerated(gen, src, cs[1..], cs[0].end, to, i - 1);
      assert cs[1..][i - 1] == cs[i];
      var text := Text(gen, cs[i], src[cs[i].start..cs[i].end]);
      var at := cs[i].start - cs[0].end + GrowthBefore(gen, src, cs[1..], i - 1);
      ShiftSlice(gap + head, tail, at, text);
    }
  }

  lemma ShiftSlice(a: string, b: string, at: nat, text: string)
    requires at + |text| <= |b| && b[at..at + |text|] == text
    ensures (a + b)[|a| + at..|a| + at + |text|] == text
  {
    assert (a + b)[|a| + at..|a| + at + |text|] == b[at..at + |text|];
  }

  /** A character between change i - 1 and change i is copied, shifted by the growth before it. */
  lemma {:induction false} CharCopied(gen: Generator, src: string, cs: seq<Change>, from: nat, to: nat, i: nat, q: nat)
    requires to <= |src| && InRange(cs, from, to) && i <= |cs|
    requires forall c :: c in cs ==> 0 <= c.start <= c.end <= |src|
    requires (if i == 0 then from else cs[i - 1].end) <= q < (if i == |cs| then to else cs[i].start)
    ensures var out, at := SpliceRange(gen, src, cs, from, to), q - from + GrowthBefore(gen, src, cs, i);
            0 <= at < |out| && out[at] == src[q]
    decreases |cs|
  {
    if cs != [] {
      HeadOfRange(gen, src, cs, from, to);
      var gap, head := src[from..cs[0].start], Text(gen, cs[0], src[cs[0].start..cs[0].end]);
      var rest := SpliceRange(gen, src, cs[1..], cs[0].end, to);
      if i > 0 {
        CharCopied(gen, src, cs[1..], cs[0].end, to, i - 1, q);
        CharBehind(gap, head, rest, q - cs[0].end + GrowthBefore(gen, src, cs[1..], i - 1));
      } else {
        assert (gap + head + rest)[q - from] == gap[q - from];
      }
    }
  }

  lemma CharBehind(a: string, b: string, c: string, i: int)
    requires 0 <= i < |c|
    ensures |a| + |b| + i < |a + b + c| && (a + b + c)[|a| + |b| + i] == c[i]
  {
  }

  lemma LengthOfHead(gen: Generator, src: string, cs: seq<Change>, from: nat, to: nat)
    requires to <= |src| && InRange(cs, from, to) && cs != []
    requires forall c :: c in cs ==> 0 <= c.start <= c.end <= |src|
    ensures var text := |Text(gen, cs[0], src[cs[0].start..cs[0].end])|;
            && InRange(cs[1..], cs[0].end, to)
            && |SpliceRange(gen, src, cs, from, to)| == cs[0].start - from + text + |SpliceRange(gen, src, cs[1..], cs[0].end, to)|
            && GrowthBefore(gen, src, cs, |cs|) == GrowthBefore(gen, src, cs[1..], |cs| - 1) + text - (cs[0].end - cs[0].start)
  {
    HeadOfRange(gen, src, cs, from, to);
  }

  /** The result has exactly the copied characters and the regenerated texts. */
  lemma {:induction false} SpliceLength(gen: Generator, src: string, cs: seq<Change>, from: nat, to: nat)
    requires to <= |src| && InRange(cs, from, to)
    requires forall c :: c in cs ==> 0 <= c.start <= c.end <= |src|
    ensures |SpliceRange(gen, src, cs, from, to)| == to - from + GrowthBefore(gen, src, cs, |cs|)
    decreases |cs|
  {
    if cs != [] {
      LengthOfHead(gen, src, cs, from, to);
      SpliceLength(gen, src, cs[1..], cs[0].end, to);
    }
  }

  /** The order in which disjoint changes were collected does not matter. */
  lemma OrderDoesNotMatter(cs: seq<Change>, ds: seq<Change>)
    requires multiset(cs) == multiset(ds) && NoTies(cs)
    ensures Sorted(cs) == Sorted(ds)
  {
    SortedSorts(cs);
    SortedSorts(ds);
    SortedIsUnique(Sorted(cs), Sorted(ds));
  }
}
