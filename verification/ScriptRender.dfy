/** Collecting changes and splicing them gives the text of the transformed tree. */
module ScriptRender {
  import opened Prelude
  import opened ScriptChanges
  import opened ScriptCoverage
  import opened ScriptSplice

  // ---------------------------------------------------------------- rendering by recursion over the tree

  /** A regenerated node stands in brackets if it is a comma expression that is neither a statement nor a part of another
      comma expression, and between spaces otherwise. */
  function Regenerated(gen: Generator, item: Item, kind: Kind, parentKind: Kind, replaced: string): string {
    if kind == SequenceExpression && parentKind !in {ExpressionStatement, SequenceExpression}
    then "(" + gen(item, replaced) + ")"
    else " " + gen(item, replaced) + " "
  }

  lemma TextIsRegenerated(gen: Generator, c: Change, replaced: string)
    ensures Text(gen, c, replaced) == Regenerated(gen, c.item, c.kind, c.parentKind, replaced)
  {
  }

  /** The text of a node: a transformed node, or a `new` expression with something transformed in
      it, is regenerated; any other node is its source with its children rendered in place and the
      declaration of its temporaries before the first statement (after a declaration that a
      transformer put there), or behind the first character of a block without statements. */
  function Render(gen: Generator, src: string, n: Node, parentKind: Kind): string
    requires Placeable(n, |src|)
    decreases Size(n), 1
  {
    if Changed(n) || IsNew(n) then
      if Touches(n) then Regenerated(gen, Rewritten(n.id), Visit(n).kind, parentKind, src[n.start..n.end]) else src[n.start..n.end]
    else if !Declares(n) then RenderFrom(gen, src, n, Kids(n), n.start)
    else
      var p := if Kids(n) == [] then n.start + 1 else Kids(n)[0].start;
      var declaration := " " + gen(Declaration(n.id, TempsOf(n)), "") + " ";
      KidsFromPlace(n, Kids(n), n.start, p, |src|);
      if DeclaredFirst(n) then
        assert KidsFrom(n, Kids(n)[1..], Kids(n)[0].end, |src|);
        src[n.start..p] + Render(gen, src, Kids(n)[0], n.kind) + declaration + RenderFrom(gen, src, n, Kids(n)[1..], p)
      else
        src[n.start..p] + declaration + RenderFrom(gen, src, n, Kids(n), p)
  }

  function RenderFrom(gen: Generator, src: string, n: Node, kids: seq<Node>, from: int): string
    requires 0 <= from && n.end <= |src| && KidsFrom(n, kids, from, |src|)
    decreases Size(n), 0, |kids|
  {
    if kids == [] then src[from..n.end] else
    assert Placeable(kids[0], |src|);
    src[from..kids[0].start] + Render(gen, src, kids[0], n.kind) + RenderFrom(gen, src, n, kids[1..], kids[0].end)
  }

  /** The first child is a declaration that a transformer inserted at the head of the block. */
  predicate DeclaredFirst(n: Node) {
    var kids := Kids(n);
    kids != [] && kids[0].start == kids[0].end && Produces(kids[0]) && Visit(kids[0]).kind == VariableDeclaration
  }

  /** Children in source order from a position to the end of their parent. */
  predicate KidsFrom(n: Node, kids: seq<Node>, from: int, length: nat)
    decreases Size(n), 0, |kids|
  {
    if kids == [] then from <= n.end else
    && Size(kids[0]) < Size(n) && from <= kids[0].start
    && Placeable(kids[0], length) && KidsFrom(n, kids[1..], kids[0].end, length)
  }

  /** Source nodes have a positive width and list their children in source order; only the first
      child of a block can be an inserted node of width zero; the place for declarations lies
      strictly inside its block. */
  predicate Placeable(n: Node, length: nat)
    decreases Size(n), 1
  {
    && 0 <= n.start <= n.end <= length
    && (!Changed(n) ==>
          && (n.kind == Program || n.start < n.end)
          && KidsFrom(n, Kids(n), n.start, length)
          && (forall i :: 0 <= i < |Kids(n)| ==> KidPlaced(n, Kids(n)[i], i))
          && (Declares(n) ==> n.start <= DeclarationPlace(n) <= n.end && (n.kind == Program || n.start < DeclarationPlace(n) < n.end)))
  }

  predicate KidPlaced(n: Node, k: Node, i: nat) {
    && k.kind != Program
    && (k.start == k.end ==> i == 0 && Changed(k) && OwnsTemps(n.kind))
    && (n.kind == Program || (k.start < n.end && (k.start == k.end ==> n.start < k.start)))
  }

  // ---------------------------------------------------------------- the changes in document order

  function DocOrder(n: Node, parentKind: Kind): seq<Change>
    decreases Size(n), 1
  {
    if Changed(n) || IsNew(n) then Changes(n, parentKind)
    else if Declares(n) then Insert(DeclarationChange(n), DocOrderOfAll(n, Kids(n)))
    else DocOrderOfAll(n, Kids(n))
  }

  function DocOrderOfAll(n: Node, kids: seq<Node>): seq<Change>
    requires forall k :: k in kids ==> Size(k) < Size(n)
    decreases Size(n), 0, |kids|
  {
    if kids == [] then [] else DocOrder(kids[0], Visit(n).node.kind) + DocOrderOfAll(n, kids[1..])
  }

  ghost predicate NoneBefore(a: seq<Change>, b: seq<Change>) {
    forall c, d :: c in a && d in b ==> !Less(d, c)
  }

  lemma {:induction false} InsertAfter(c: Change, a: seq<Change>, b: seq<Change>)
    requires forall d :: d in a ==> !Less(c, d)
    ensures Insert(c, a + b) == a + Insert(c, b)
  {
    if b == [] {
      assert a + b == a;
      if a != [] { assert a[|a| - 1] in a; }
    } else {
      assert (a + b)[..|a + b| - 1] == a + b[..|b| - 1];
      InsertAfter(c, a, b[..|b| - 1]);
      assert a + b + [c] == a + (b + [c]);
    }
  }

  lemma {:induction false} InsertFront(c: Change, b: seq<Change>)
    requires forall d :: d in b ==> Less(c, d)
    ensures Insert(c, b) == [c] + b
  {
    if b != [] {
      assert b == b[..|b| - 1] + [b[|b| - 1]];
      InsertFront(c, b[..|b| - 1]);
    }
  }

  lemma {:induction false} SortedConcat(a: seq<Change>, b: seq<Change>)
    requires NoneBefore(a, b)
    ensures Sorted(a + b) == Sorted(a) + Sorted(b)
  {
    if b == [] {
      assert a + b == a;
    } else {
      var init, last := b[..|b| - 1], b[|b| - 1];
      assert (a + b)[..|a + b| - 1] == a + init;
      assert last in b && forall d :: d in init ==> d in b;
      SortedConcat(a, init);
      SortedSorts(a);
      InsertAfter(last, Sorted(a), Sorted(init));
    }
  }

  // ---------------------------------------------------------------- where changes can start

  lemma {:induction false} KidsFromFacts(n: Node, kids: seq<Node>, from: int, length: nat)
    requires KidsFrom(n, kids, from, length)
    ensures from <= n.end
    ensures forall k :: k in kids ==> Size(k) < Size(n) && from <= k.start <= k.end <= n.end && Placeable(k, length)
    decreases |kids|
  {
    if kids != [] {
      KidsFromFacts(n, kids[1..], kids[0].end, length);
      assert forall k :: k in kids ==> k == kids[0] || k in kids[1..];
    }
  }

  /** The changes of a source node start before its end, and those of width zero after its
      start. */
  ghost predicate Inside(n: Node, cs: seq<Change>) {
    forall c :: c in cs ==>
      && n.start <= c.start <= c.end <= n.end
      && (n.start < n.end && n.kind != Program ==> c.start < n.end && (c.start == c.end ==> n.start < c.start))
  }

  lemma {:induction false} ChangesInside(n: Node, parentKind: Kind, length: nat)
    requires Placeable(n, length)
    ensures Inside(n, Changes(n, parentKind))
    decreases Size(n), 1
  {
    if !Changed(n) && !IsNew(n) {
      UnchangedIsItself(n);
      KidsFromFacts(n, Kids(n), n.start, length);
      MemberOfAll(n, Kids(n));
      forall k | k in Kids(n) ensures Inside(n, Changes(k, n.kind)) {
        ChangesInside(k, n.kind, length);
        var i :| 0 <= i < |Kids(n)| && Kids(n)[i] == k;
        KidInside(n, k, i, Changes(k, n.kind));
      }
    }
  }

  lemma KidInside(n: Node, k: Node, i: nat, cs: seq<Change>)
    requires Inside(k, cs) && KidPlaced(n, k, i) && n.start <= k.start <= k.end <= n.end
    ensures Inside(n, cs)
  {
  }

  /** No change of a later sibling comes before one of an earlier sibling. */
  lemma SiblingsInOrder(n: Node, k: Node, i: nat, m: Node, j: nat, a: seq<Change>, b: seq<Change>)
    requires i < j && KidPlaced(n, k, i) && KidPlaced(n, m, j) && k.end <= m.start
    requires Inside(k, a) && Inside(m, b)
    ensures NoneBefore(a, b)
  {
  }

  // ---------------------------------------------------------------- sorting gives document order

  lemma {:induction false} SortedIsDocOrder(n: Node, parentKind: Kind, length: nat)
    requires Placeable(n, length)
    ensures Sorted(Changes(n, parentKind)) == DocOrder(n, parentKind)
    decreases Size(n), 1
  {
    if Changed(n) || IsNew(n) {
      SortedOfOne(Changes(n, parentKind));
    } else {
      UnchangedIsItself(n);
      SortedIsDocOrderOfAll(n, Kids(n), 0, n.start, length);
      if Declares(n) {
        var all := ChangesOfAll(n, Kids(n));
        assert (all + [DeclarationChange(n)])[..|all|] == all;
      } else {
        assert ChangesOfAll(n, Kids(n)) + [] == ChangesOfAll(n, Kids(n));
      }
    }
  }

  lemma SortedOfOne(cs: seq<Change>)
    requires |cs| <= 1
    ensures Sorted(cs) == cs
  {
    if cs != [] {
      assert cs[..0] == [] && Sorted([]) == [];
      assert Insert(cs[0], []) == [cs[0]];
    }
  }

  lemma {:induction false} SortedIsDocOrderOfAll(n: Node, kids: seq<Node>, i: nat, from: int, length: nat)
    requires !Changed(n) && KidsFrom(n, kids, from, length)
    requires forall j :: 0 <= j < |kids| ==> KidPlaced(n, kids[j], i + j)
    requires forall k :: k in kids ==> Size(k) < Size(n)
    ensures Sorted(ChangesOfAll(n, kids)) == DocOrderOfAll(n, kids)
    decreases Size(n), 0, |kids|
  {
    if kids != [] {
      UnchangedIsItself(n);
      var first, others := Changes(kids[0], n.kind), ChangesOfAll(n, kids[1..]);
      forall j | 0 <= j < |kids[1..]| ensures KidPlaced(n, kids[1..][j], (i + 1) + j) {
        assert KidPlaced(n, kids[j + 1], i + (j + 1));
      }
      SortedIsDocOrder(kids[0], n.kind, length);
      SortedIsDocOrderOfAll(n, kids[1..], i + 1, kids[0].end, length);
      ChangesInside(kids[0], n.kind, length);
      KidsFromFacts(n, kids[1..], kids[0].end, length);
      MemberOfAll(n, kids[1..]);
      assert KidPlaced(n, kids[0], i + 0);
      forall c, d | c in first && d in others ensures !Less(d, c) {
        var m :| m in kids[1..] && d in Changes(m, n.kind);
        var j :| 0 <= j < |kids[1..]| && kids[1..][j] == m;
        ChangesInside(m, n.kind, length);
        SiblingsInOrder(n, kids[0], i, m, (i + 1) + j, first, Changes(m, n.kind));
      }
      SortedConcat(first, others);
    }
  }

  // ---------------------------------------------------------------- splicing in document order

  lemma SpliceFromEarlier(gen: Generator, src: string, b: seq<Change>, from: nat, mid: nat, to: nat)
    requires to <= |src| && from <= mid && InRange(b, mid, to)
    ensures InRange(b, from, to) && mid <= to
    ensures SpliceRange(gen, src, b, from, to) == src[from..mid] + SpliceRange(gen, src, b, mid, to)
  {
    InRangeBound(b, mid, to);
    if b == [] {
      assert src[from..to] == src[from..mid] + src[mid..to];
    } else {
      InRangeBound(b[1..], b[0].end, to);
      var gap, text := src[mid..b[0].start], Text(gen, b[0], src[b[0].start..b[0].end]);
      var tail := SpliceRange(gen, src, b[1..], b[0].end, to);
      SplitSlice(src, from, mid, b[0].start);
      assert SpliceRange(gen, src, b, from, to) == src[from..b[0].start] + text + tail;
      assert SpliceRange(gen, src, b, mid, to) == gap + text + tail;
      Assoc(src[from..mid], gap, text);
      Assoc(src[from..mid], gap + text, tail);
    }
  }

  lemma SplitSlice(s: string, a: nat, b: nat, c: nat)
    requires a <= b <= c <= |s|
    ensures s[a..c] == s[a..b] + s[b..c]
  {
  }

  lemma {:induction false} SpliceConcat(gen: Generator, src: string, a: seq<Change>, b: seq<Change>, from: nat, mid: nat, to: nat)
    requires to <= |src| && InRange(a, from, mid) && InRange(b, mid, to)
    ensures InRange(a + b, from, to) && mid <= |src|
    ensures SpliceRange(gen, src, a + b, from, to) == SpliceRange(gen, src, a, from, mid) + SpliceRange(gen, src, b, mid, to)
    decreases |a|
  {
    InRangeBound(b, mid, to);
    if a == [] {
      assert a + b == b;
      SpliceFromEarlier(gen, src, b, from, mid, to);
    } else {
      assert (a + b)[0] == a[0] && (a + b)[1..] == a[1..] + b;
      InRangeBound(a[1..], a[0].end, mid);
      SpliceConcat(gen, src, a[1..], b, a[0].end, mid, to);
      HeadOfRange(gen, src, a, from, mid);
      HeadOfRange(gen, src, a + b, from, to);
      Assoc(src[from..a[0].start] + Text(gen, a[0], src[a[0].start..a[0].end]), SpliceRange(gen, src, a[1..], a[0].end, mid),
            SpliceRange(gen, src, b, mid, to));
    }
  }

  lemma SpliceOne(gen: Generator, src: string, c: Change, from: nat, to: nat)
    requires from <= c.start <= c.end <= to <= |src|
    ensures InRange([c], from, to)
    ensures SpliceRange(gen, src, [c], from, to) == src[from..c.start] + Text(gen, c, src[c.start..c.end]) + src[c.end..to]
  {
    assert [c][1..] == [];
    assert InRange([], c.end, to);
  }

  /** Splicing the changes of a node renders it. */
  ghost predicate Rendered(gen: Generator, src: string, n: Node, parentKind: Kind)
    requires Placeable(n, |src|)
  {
    && InRange(DocOrder(n, parentKind), n.start, n.end)
    && SpliceRange(gen, src, DocOrder(n, parentKind), n.start, n.end) == Render(gen, src, n, parentKind)
  }

  lemma {:induction false} SpliceRenders(gen: Generator, src: string, n: Node, parentKind: Kind)
    requires Placeable(n, |src|)
    ensures Rendered(gen, src, n, parentKind)
    decreases Size(n), 1
  {
    if Changed(n) || IsNew(n) {
      if Touches(n) {
        SpliceOne(gen, src, OwnChange(n, parentKind), n.start, n.end);
        TextIsRegenerated(gen, OwnChange(n, parentKind), src[n.start..n.end]);
        assert src[n.start..n.start] == "" && src[n.end..n.end] == "";
      }
    } else {
      UnchangedIsItself(n);
      SpliceRendersFrom(gen, src, n, Kids(n), n.start);
      if Declares(n) {
        DeclarationRenders(gen, src, n, parentKind);
      }
    }
  }

  lemma {:induction false} SpliceRendersFrom(gen: Generator, src: string, n: Node, kids: seq<Node>, from: nat)
    requires n.end <= |src| && !Changed(n) && KidsFrom(n, kids, from, |src|)
    requires forall k :: k in kids ==> Size(k) < Size(n)
    ensures InRange(DocOrderOfAll(n, kids), from, n.end)
    ensures SpliceRange(gen, src, DocOrderOfAll(n, kids), from, n.end) == RenderFrom(gen, src, n, kids, from)
    decreases Size(n), 0, |kids|
  {
    if kids != [] {
      UnchangedIsItself(n);
      var k := kids[0];
      SpliceRenders(gen, src, k, n.kind);
      SpliceRendersFrom(gen, src, n, kids[1..], k.end);
      SpliceConcat(gen, src, [], DocOrder(k, n.kind), from, k.start, k.end);
      assert [] + DocOrder(k, n.kind) == DocOrder(k, n.kind);
      SpliceConcat(gen, src, DocOrder(k, n.kind), DocOrderOfAll(n, kids[1..]), from, k.end, n.end);
    }
  }

  lemma {:induction false} DeclarationRenders(gen: Generator, src: string, n: Node, parentKind: Kind)
    requires Placeable(n, |src|) && !Changed(n) && !IsNew(n) && Declares(n)
    ensures Rendered(gen, src, n, parentKind)
    decreases Size(n), 0, |Kids(n)| + 1
  {
    UnchangedIsItself(n);
    KidsFromFacts(n, Kids(n), n.start, |src|);
    if DeclaredFirst(n) {
      AfterInserted(gen, src, n, parentKind);
    } else {
      var p, d, kids := DeclarationPlace(n), DeclarationChange(n), Kids(n);
      assert src[p..p] == "";
      SpliceOne(gen, src, d, n.start, p);
      RestComesAfter(n, kids, 0, |src|);
      InsertFront(d, DocOrderOfAll(n, kids));
      KidsFromPlace(n, kids, n.start, p, |src|);
      SpliceRendersFrom(gen, src, n, kids, p);
      SpliceConcat(gen, src, [d], DocOrderOfAll(n, kids), n.start, p, n.end);
    }
  }

  lemma {:induction false} AfterInserted(gen: Generator, src: string, n: Node, parentKind: Kind)
    requires Placeable(n, |src|) && !Changed(n) && !IsNew(n) && Declares(n) && DeclaredFirst(n)
    ensures Rendered(gen, src, n, parentKind)
    decreases Size(n), 0, |Kids(n)|
  {
    UnchangedIsItself(n);
    var p, d, kids := DeclarationPlace(n), DeclarationChange(n), Kids(n);
    KidsFromFacts(n, kids, n.start, |src|);
    var rest, inserted := kids[1..], OwnChange(kids[0], n.kind);
    assert DocOrder(kids[0], n.kind) == [inserted];
    RestComesAfter(n, rest, 1, |src|);
    InsertFront(d, DocOrderOfAll(n, rest));
    InsertAfter(d, [inserted], DocOrderOfAll(n, rest));
    assert DocOrder(n, parentKind) == [inserted] + ([d] + DocOrderOfAll(n, rest));
    SpliceRendersFrom(gen, src, n, rest, p);
    TwoInserted(gen, src, inserted, d, DocOrderOfAll(n, rest), n.start, p, n.end);
  }

  /** Two changes of width zero at the same place. */
  lemma TwoInserted(gen: Generator, src: string, c: Change, d: Change, rest: seq<Change>, from: nat, p: nat, to: nat)
    requires from <= p && to <= |src| && c.start == c.end == d.start == d.end == p && InRange(rest, p, to)
    ensures InRange([c] + ([d] + rest), from, to) && p <= to
    ensures SpliceRange(gen, src, [c] + ([d] + rest), from, to)
         == src[from..p] + Text(gen, c, "") + Text(gen, d, "") + SpliceRange(gen, src, rest, p, to)
  {
    InRangeBound(rest, p, to);
    assert src[p..p] == "";
    SpliceOne(gen, src, d, p, p);
    SpliceConcat(gen, src, [d], rest, p, p, to);
    var tail := SpliceRange(gen, src, rest, p, to);
    assert SpliceRange(gen, src, [d] + rest, p, to) == Text(gen, d, "") + tail by {
      Trim(Text(gen, d, ""), tail);
    }
    SpliceOne(gen, src, c, from, p);
    SpliceConcat(gen, src, [c], [d] + rest, from, p, to);
    assert SpliceRange(gen, src, [c], from, p) == src[from..p] + Text(gen, c, "") + "";
    Drop(src[from..p], Text(gen, c, ""), Text(gen, d, ""), tail);
  }

  lemma Trim(t: string, tail: string)
    ensures "" + t + "" + tail == t + tail
  {
  }

  lemma Drop(a: string, b: string, c: string, d: string)
    ensures (a + b + "") + (c + d) == a + b + c + d
  {
  }

  lemma KidsFromPlace(n: Node, kids: seq<Node>, from: int, p: int, length: nat)
    requires KidsFrom(n, kids, from, length) && (if kids == [] then p <= n.end else p == kids[0].start)
    ensures KidsFrom(n, kids, p, length)
  {
  }

  /** The declaration comes before every change of the children from i on, unless the first child
      is itself an inserted declaration. */
  lemma RestComesAfter(n: Node, rest: seq<Node>, i: nat, length: nat)
    requires Placeable(n, length) && !Changed(n) && !IsNew(n) && Declares(n)
    requires i <= 1 && i <= |Kids(n)| && rest == Kids(n)[i..] && (i == 0 ==> !DeclaredFirst(n))
    requires forall k :: k in rest ==> Size(k) < Size(n)
    ensures forall c :: c in DocOrderOfAll(n, rest) ==> Less(DeclarationChange(n), c)
  {
    UnchangedIsItself(n);
    var kids := Kids(n);
    KidsFromFacts(n, kids, n.start, length);
    FirstIsFirst(n, kids, n.start, length);
    DocOrderMembers(n, rest, length, i);
    MemberOfAll(n, rest);
    forall c | c in DocOrderOfAll(n, rest) ensures Less(DeclarationChange(n), c) {
      var k :| k in rest && c in Changes(k, n.kind);
      var j :| 0 <= j < |rest| && rest[j] == k;
      assert kids[i + j] == k && KidPlaced(n, kids[i + j], i + j);
      ChangesInside(k, n.kind, length);
    }
  }

  lemma FirstIsFirst(n: Node, kids: seq<Node>, from: int, length: nat)
    requires KidsFrom(n, kids, from, length)
    ensures forall k :: k in kids ==> kids[0].start <= k.start
  {
    if kids != [] {
      KidsFromFacts(n, kids[1..], kids[0].end, length);
      assert forall k :: k in kids ==> k == kids[0] || k in kids[1..];
    }
  }

  lemma {:induction false} DocOrderMembers(n: Node, rest: seq<Node>, length: nat, i: nat)
    requires Placeable(n, length) && !Changed(n) && i <= |Kids(n)| && rest == Kids(n)[i..]
    requires forall k :: k in rest ==> Size(k) < Size(n)
    ensures forall c :: c in DocOrderOfAll(n, rest) <==> c in ChangesOfAll(n, rest)
  {
    SuffixFrom(n, Kids(n), i, n.start, length);
    var from :| KidsFrom(n, rest, from, length);
    assert forall j :: 0 <= j < |rest| ==> rest[j] == Kids(n)[i + j];
    SortedIsDocOrderOfAll(n, rest, i, from, length);
    SortedSorts(ChangesOfAll(n, rest));
  }

  lemma {:induction false} SuffixFrom(n: Node, kids: seq<Node>, i: nat, from: int, length: nat)
    requires KidsFrom(n, kids, from, length) && i <= |kids|
    ensures exists at :: KidsFrom(n, kids[i..], at, length)
    decreases |kids|
  {
    if i == 0 {
      assert kids[0..] == kids;
      assert KidsFrom(n, kids[i..], from, length);
    } else {
      SuffixFrom(n, kids[1..], i - 1, kids[0].end, length);
      assert kids[1..][i - 1..] == kids[i..];
    }
  }

  // ---------------------------------------------------------------- the whole script

  /** Collecting the changes of a program and splicing them into its source renders the
      transformed tree: the same text as regenerating every outermost transformed node in place. */
  lemma ScriptIsRendered(gen: Generator, src: string, program: Node)
    requires Placeable(program, |src|) && program.kind == Program && !Changed(program)
    ensures Splice(gen, src, Sorted(Changes(program, Program)), 0, 0)
         == src[..program.start] + Render(gen, src, program, Program) + src[program.end..]
  {
    SortedIsDocOrder(program, Program, |src|);
    SpliceRenders(gen, src, program, Program);
    var cs := DocOrder(program, Program);
    SpliceConcat(gen, src, [], cs, 0, program.start, program.end);
    assert [] + cs == cs;
    SpliceConcat(gen, src, cs, [], 0, program.end, |src|);
    assert cs + [] == cs;
    InRangeBound(cs, 0, |src|);
    PlacedIsSame(cs, |src|);
    SpliceIsRange(gen, src, cs, 0, 0);
  }

  lemma PlacedIsSame(cs: seq<Change>, length: nat)
    requires forall c :: c in cs ==> 0 <= c.start <= c.end <= length
    ensures AllPlaced(cs, 0, length) == cs
  {
    forall i | 0 <= i < |cs| ensures AllPlaced(cs, 0, length)[i] == cs[i] {
      assert cs[i] in cs;
    }
  }
}
