/** The collected changes do not overlap, and every transformed node is covered exactly once. */
module ScriptCoverage {
  import opened Prelude
  import opened ScriptChanges

  // ---------------------------------------------------------------- disjoint ranges

  predicate Apart(c: Change, d: Change) {
    c.end <= d.start || d.end <= c.start
  }

  /** Source ranges of the nodes outside transformed subtrees are nested. Nothing is said about
      the ranges inside a replacement. */
  ghost predicate Nested(n: Node)
    decreases Size(n)
  {
    && n.start <= n.end
    && (!Changed(n) ==>
          && (forall k :: k in Kids(n) ==> n.start <= k.start && k.end <= n.end && Nested(k))
          && (forall i, j :: 0 <= i < j < |Kids(n)| ==> Kids(n)[i].end <= Kids(n)[j].start || Kids(n)[j].end <= Kids(n)[i].start)
          && (Declares(n) ==>
                n.start <= DeclarationPlace(n) <= n.end && forall k :: k in Kids(n) ==> DeclarationPlace(n) <= k.start))
  }

  lemma {:induction false} ChangesWithin(n: Node, parentKind: Kind)
    requires Nested(n)
    ensures forall c :: c in Changes(n, parentKind) ==> n.start <= c.start <= c.end <= n.end
    decreases Size(n), 1
  {
    if !Changed(n) && !IsNew(n) {
      forall k | k in Kids(n) ensures forall c :: c in Changes(k, Visit(n).node.kind) ==> n.start <= c.start <= c.end <= n.end {
        ChangesWithin(k, Visit(n).node.kind);
      }
      MemberOfAll(n, Kids(n));
    }
  }

  /** The changes for several children are those of each child. */
  lemma {:induction false} MemberOfAll(n: Node, kids: seq<Node>)
    requires forall k :: k in kids ==> Size(k) < Size(n)
    ensures forall c :: c in ChangesOfAll(n, kids) <==> exists k :: k in kids && c in Changes(k, Visit(n).node.kind)
    decreases |kids|
  {
    if kids != [] {
      MemberOfAll(n, kids[1..]);
      var kind := Visit(n).node.kind;
      forall c ensures c in ChangesOfAll(n, kids) <==> exists k :: k in kids && c in Changes(k, kind) {
        if c in Changes(kids[0], kind) {
          assert kids[0] in kids;
        } else if c in ChangesOfAll(n, kids[1..]) {
          var k :| k in kids[1..] && c in Changes(k, kind);
          assert k in kids;
        } else {
          assert forall k :: k in kids ==> k == kids[0] || k in kids[1..];
        }
      }
    }
  }

  ghost predicate AllApart(cs: seq<Change>) {
    forall i, j :: 0 <= i < j < |cs| ==> Apart(cs[i], cs[j])
  }

  /** No two collected changes overlap. */
  lemma {:induction false} ChangesApart(n: Node, parentKind: Kind)
    requires Nested(n)
    ensures AllApart(Changes(n, parentKind))
    decreases Size(n), 1
  {
    if !Changed(n) && !IsNew(n) {
      var kids := Kids(n);
      assert forall i :: 0 <= i < |kids| ==> kids[i] in kids;
      ChangesOfAllApart(n, kids);
      if Declares(n) {
        MemberOfAll(n, kids);
        forall k | k in kids ensures forall c :: c in Changes(k, Visit(n).node.kind) ==> DeclarationPlace(n) <= c.start {
          ChangesWithin(k, Visit(n).node.kind);
        }
        var all := ChangesOfAll(n, kids);
        assert forall i :: 0 <= i < |all| ==> all[i] in all;
      }
    }
  }

  lemma {:induction false} ChangesOfAllApart(n: Node, kids: seq<Node>)
    requires forall k :: k in kids ==> Size(k) < Size(n) && Nested(k)
    requires forall i, j :: 0 <= i < j < |kids| ==> kids[i].end <= kids[j].start || kids[j].end <= kids[i].start
    ensures AllApart(ChangesOfAll(n, kids))
    decreases Size(n), 0, |kids|
  {
    if kids != [] {
      var kind := Visit(n).node.kind;
      var first, others := Changes(kids[0], kind), ChangesOfAll(n, kids[1..]);
      assert forall k :: k in kids[1..] ==> k in kids;
      ChangesApart(kids[0], kind);
      ChangesOfAllApart(n, kids[1..]);
      ChangesWithin(kids[0], kind);
      MemberOfAll(n, kids[1..]);
      forall i, j | 0 <= i < |first| && 0 <= j < |others| ensures Apart(first[i], others[j]) {
        assert first[i] in first && others[j] in others;
        var k :| k in kids[1..] && others[j] in Changes(k, kind);
        ChangesWithin(k, kind);
        var m :| 0 <= m < |kids[1..]| && kids[1..][m] == k;
        assert k == kids[m + 1];
      }
      ApartConcat(first, others);
    }
  }

  lemma ApartConcat(a: seq<Change>, b: seq<Change>)
    requires AllApart(a) && AllApart(b)
    requires forall i, j :: 0 <= i < |a| && 0 <= j < |b| ==> Apart(a[i], b[j])
    ensures AllApart(a + b)
  {
  }

  // ---------------------------------------------------------------- coverage

  /** Nodes from an ancestor down to a descendant. */
  ghost predicate IsPath(path: seq<Node>) {
    path != [] && forall i :: 0 <= i < |path| - 1 ==> path[i + 1] in Kids(path[i])
  }

  function ItemId(item: Item): nat {
    match item
    case Rewritten(id) => id
    case Declaration(block, _) => block
  }

  /** The change rewrites a node of the path that has no transformed node above it, or declares
      the temporaries of the last node. */
  predicate Covers(c: Change, path: seq<Node>)
    requires path != []
  {
    || c.item == Rewritten(path[0].id)
    || if |path| == 1 then c.item.Declaration? && c.item.block == path[0].id && !Changed(path[0])
       else !Changed(path[0]) && Covers(c, path[1..])
  }

  function CountCovers(cs: seq<Change>, path: seq<Node>): nat
    requires path != []
  {
    if cs == [] then 0 else (if Covers(cs[0], path) then 1 else 0) + CountCovers(cs[1..], path)
  }

  /** The first node of the path that is transformed or is a `new` expression, else the last. */
  function Outermost(path: seq<Node>): Node
    requires path != []
  {
    if |path| == 1 || Changed(path[0]) || IsNew(path[0]) then path[0] else Outermost(path[1..])
  }

  lemma {:induction false} CountConcat(a: seq<Change>, b: seq<Change>, path: seq<Node>)
    requires path != []
    ensures CountCovers(a + b, path) == CountCovers(a, path) + CountCovers(b, path)
  {
    if a == [] {
      assert a + b == b;
    } else {
      assert (a + b)[1..] == a[1..] + b;
      CountConcat(a[1..], b, path);
    }
  }

  lemma {:induction false} CountZero(cs: seq<Change>, path: seq<Node>)
    requires path != [] && forall c :: c in cs ==> !Covers(c, path)
    ensures CountCovers(cs, path) == 0
  {
    if cs != [] {
      CountZero(cs[1..], path);
    }
  }

  lemma {:induction false} CountSame(cs: seq<Change>, p: seq<Node>, q: seq<Node>)
    requires p != [] && q != [] && forall c :: c in cs ==> (Covers(c, p) <==> Covers(c, q))
    ensures CountCovers(cs, p) == CountCovers(cs, q)
  {
    if cs != [] {
      CountSame(cs[1..], p, q);
    }
  }

  lemma {:induction false} ItemsWithin(n: Node, parentKind: Kind)
    ensures forall c :: c in Changes(n, parentKind) ==> ItemId(c.item) in Ids(n)
    decreases Size(n), 1
  {
    if !Changed(n) && !IsNew(n) {
      ItemsOfAllWithin(n, Kids(n));
    }
  }

  lemma {:induction false} ItemsOfAllWithin(n: Node, kids: seq<Node>)
    requires forall k :: k in kids ==> Size(k) < Size(n)
    ensures forall c :: c in ChangesOfAll(n, kids) ==> ItemId(c.item) in IdsOfAll(n, kids)
    decreases Size(n), 0, |kids|
  {
    if kids != [] {
      ItemsWithin(kids[0], Visit(n).node.kind);
      ItemsOfAllWithin(n, kids[1..]);
    }
  }

  lemma {:induction false} KidIds(n: Node, kids: seq<Node>, k: Node)
    requires forall m :: m in kids ==> Size(m) < Size(n)
    requires k in kids
    ensures Ids(k) <= IdsOfAll(n, kids)
    decreases |kids|
  {
    if k != kids[0] {
      KidIds(n, kids[1..], k);
    }
  }

  lemma {:induction false} CoverIdWithin(c: Change, path: seq<Node>)
    requires IsPath(path) && Covers(c, path)
    ensures ItemId(c.item) in Ids(path[0])
    decreases |path|
  {
    if c.item != Rewritten(path[0].id) && |path| > 1 {
      TailIsPath(path);
      CoverIdWithin(c, path[1..]);
      KidIds(path[0], Kids(path[0]), path[1]);
    }
  }

  lemma TailIsPath(path: seq<Node>)
    requires IsPath(path) && |path| > 1
    ensures IsPath(path[1..]) && path[1..][0] == path[1] && path[1] in Kids(path[0])
  {
    forall i | 0 <= i < |path[1..]| - 1 ensures path[1..][i + 1] in Kids(path[1..][i]) {
      assert path[(i + 1) + 1] in Kids(path[i + 1]);
    }
  }

  ghost predicate NeedsChange(n: Node) {
    Changed(n) || Declares(n)
  }

  /** For every transformed node or declaring block, the number of changes that cover it is one
      if something is offered at the outermost transformed node or `new` expression above it, and
      none otherwise. */
  lemma {:induction false} CoveredExactly(path: seq<Node>, parentKind: Kind)
    requires IsPath(path) && Distinct(path[0]) && NeedsChange(path[|path| - 1])
    ensures CountCovers(Changes(path[0], parentKind), path) == if Touches(Outermost(path)) then 1 else 0
    decreases |path|
  {
    var n := path[0];
    var cs := Changes(n, parentKind);
    if Changed(n) || IsNew(n) {
      assert cs != [] ==> cs[1..] == [] && Covers(cs[0], path);
    } else if |path| == 1 {
      ItemsOfAllWithin(n, Kids(n));
      var own := [DeclarationChange(n)];
      CountZero(ChangesOfAll(n, Kids(n)), path);
      CountConcat(ChangesOfAll(n, Kids(n)), own, path);
      assert own[1..] == [];
    } else {
      TailIsPath(path);
      DistinctKid(n, Kids(n), path[1]);
      CoveredExactly(path[1..], Visit(n).node.kind);
      ItemsOfAllWithin(n, Kids(n));
      CountSame(ChangesOfAll(n, Kids(n)), path, path[1..]);
      CountInKids(n, Kids(n), path[1..]);
      var own := if Declares(n) then [DeclarationChange(n)] else [];
      CountConcat(ChangesOfAll(n, Kids(n)), own, path);
      OwnDeclarationElsewhere(n, path);
      CountZero(own, path);
    }
  }

  lemma OwnDeclarationElsewhere(n: Node, path: seq<Node>)
    requires IsPath(path) && |path| > 1 && path[0] == n && Distinct(n) && !Changed(n)
    ensures !Covers(DeclarationChange(n), path)
  {
    TailIsPath(path);
    KidIds(n, Kids(n), path[1]);
    if Covers(DeclarationChange(n), path[1..]) {
      CoverIdWithin(DeclarationChange(n), path[1..]);
    }
  }

  lemma {:induction false} DistinctKid(n: Node, kids: seq<Node>, k: Node)
    requires forall m :: m in kids ==> Size(m) < Size(n)
    requires DistinctAll(n, kids) && k in kids
    ensures Distinct(k)
    decreases |kids|
  {
    if k != kids[0] {
      DistinctKid(n, kids[1..], k);
    }
  }

  /** Only the child on the path contributes. */
  lemma {:induction false} CountInKids(n: Node, kids: seq<Node>, path: seq<Node>)
    requires forall m :: m in kids ==> Size(m) < Size(n)
    requires IsPath(path) && DistinctAll(n, kids) && path[0] in kids
    ensures CountCovers(ChangesOfAll(n, kids), path) == CountCovers(Changes(path[0], Visit(n).node.kind), path)
    decreases |kids|
  {
    var kind := Visit(n).node.kind;
    var first, others := Changes(kids[0], kind), ChangesOfAll(n, kids[1..]);
    CountConcat(first, others, path);
    ItemsWithin(kids[0], kind);
    ItemsOfAllWithin(n, kids[1..]);
    if path[0] == kids[0] {
      forall c | c in others ensures !Covers(c, path) {
        if Covers(c, path) { CoverIdWithin(c, path); }
      }
      CountZero(others, path);
    } else {
      KidIds(n, kids[1..], path[0]);
      forall c | c in first ensures !Covers(c, path) {
        if Covers(c, path) { CoverIdWithin(c, path); }
      }
      CountZero(first, path);
      CountInKids(n, kids[1..], path);
    }
  }

  /** So when no transformer chain on the path loses its replacement, every transformed node and
      every declaration is covered by exactly one change. */
  lemma {:induction false} CoveredOnce(path: seq<Node>, parentKind: Kind)
    requires IsPath(path) && Distinct(path[0]) && NeedsChange(path[|path| - 1])
    requires forall i :: 0 <= i < |path| ==> !Lost(path[i])
    ensures CountCovers(Changes(path[0], parentKind), path) == 1
  {
    CoveredExactly(path, parentKind);
    OutermostTouches(path);
  }

  lemma {:induction false} OutermostTouches(path: seq<Node>)
    requires IsPath(path) && NeedsChange(path[|path| - 1])
    requires forall i :: 0 <= i < |path| ==> !Lost(path[i])
    ensures Touches(path[0]) && Touches(Outermost(path))
    decreases |path|
  {
    if |path| > 1 && !Changed(path[0]) {
      TailIsPath(path);
      OutermostTouches(path[1..]);
      TouchesKid(path[0], Kids(path[0]), path[1]);
    }
  }

  lemma {:induction false} TouchesKid(n: Node, kids: seq<Node>, k: Node)
    requires forall m :: m in kids ==> Size(m) < Size(n)
    requires k in kids && Touches(k)
    ensures TouchesAny(n, kids)
    decreases |kids|
  {
    if k != kids[0] {
      TouchesKid(n, kids[1..], k);
    }
  }

  /** A chain that loses its replacement hides everything below it: a transformer returned a
      node, a later one returned null, and neither the node nor any transformed descendant is in
      the list. */
  lemma LostHides(path: seq<Node>, parentKind: Kind)
    requires IsPath(path) && Distinct(path[0]) && NeedsChange(path[|path| - 1])
    requires Lost(Outermost(path))
    ensures CountCovers(Changes(path[0], parentKind), path) == 0
  {
    CoveredExactly(path, parentKind);
  }
}
