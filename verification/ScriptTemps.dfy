/** What a run of the transformers does to a node, and which temporaries a block declares.
    src/processing/script/transform.ts */
module ScriptTemps {
  import opened Prelude
  import opened ScriptChanges

  // ---------------------------------------------------------------- one node

  /** The step of the chain at which the transformers stop: the first one that gives null or whose
      result does not go through them again; the end of the chain if there is none. */
  ghost predicate StopsAt(chain: seq<Step>, k: nat) {
    && k <= |chain|
    && (forall i :: 0 <= i < k ==> chain[i].result.Some? && chain[i].again)
    && (k < |chain| ==> chain[k].result.None? || !chain[k].again)
  }

  function TempsOfSteps(steps: seq<Step>): seq<string> {
    if steps == [] then [] else steps[0].temps + TempsOfSteps(steps[1..])
  }

  /** The replacement of the step before k, or the node itself. */
  function NodeBefore(cur: Node, chain: seq<Step>, k: nat): Node
    requires StopsAt(chain, k)
  {
    if k == 0 then cur else chain[k - 1].result.value
  }

  function StepsRun(chain: seq<Step>, k: nat): seq<Step> {
    if k < |chain| then chain[..k + 1] else chain
  }

  ghost predicate EndsAt(cur: Node, chain: seq<Step>, done: bool, kind: Kind, k: nat, r: Outcome) {
    && StopsAt(chain, k)
    && var nothing := k < |chain| && chain[k].result.None?;
    && r.changed == (done || k > 0 || (k < |chain| && !nothing))
    && r.replaced == (r.changed && !nothing)
    && r.node == NodeBefore(cur, chain, k)
    && (!nothing ==> r.kind == if k < |chain| then chain[k].result.value.kind else if k > 0 then chain[k - 1].result.value.kind else kind)
    && r.temps == TempsOfSteps(StepsRun(chain, k))
  }

  lemma {:induction false} ChainExactly(cur: Node, chain: seq<Step>, done: bool, kind: Kind) returns (k: nat)
    ensures EndsAt(cur, chain, done, kind, k, RunChain(cur, chain, done, kind))
    decreases |chain|
  {
    if chain == [] || chain[0].result.None? || !chain[0].again {
      k := 0;
      if chain != [] { OneStep(chain[..1], chain[0]); }
    } else {
      var next := chain[0].result.value;
      var rest := ChainExactly(next, chain[1..], true, next.kind);
      k := rest + 1;
      ChainMore(cur, chain, done, kind, next, rest, RunChain(next, chain[1..], true, next.kind));
    }
  }

  lemma ChainMore(cur: Node, chain: seq<Step>, done: bool, kind: Kind, next: Node, k: nat, r: Outcome)
    requires chain != [] && chain[0].result == Some(next) && chain[0].again && EndsAt(next, chain[1..], true, next.kind, k, r)
    ensures EndsAt(cur, chain, done, kind, k + 1, r.(temps := chain[0].temps + r.temps))
  {
    var rest := chain[1..];
    assert forall i :: 0 < i < |chain| ==> chain[i] == rest[i - 1];
    assert StepsRun(chain, k + 1)[0] == chain[0] && StepsRun(chain, k + 1)[1..] == StepsRun(rest, k);
  }

  lemma OneStep(steps: seq<Step>, step: Step)
    requires steps == [step]
    ensures TempsOfSteps(steps) == step.temps
  {
    assert TempsOfSteps(steps[1..]) == [];
    assert step.temps + [] == step.temps;
  }

  /** What becomes of a node. One that a transformer inserted counts as transformed and a change is offered for it. For
      any other, its transformers run up to the first that gives null or whose result is final. The node counts as
      transformed if any of them gave a result; a change is offered for it unless the last one gave null, with the kind of
      the last result; the children walked are those of the last result that went through the transformers again, or of the
      node itself; and the temporaries are those of all the runs. */
  lemma VisitExactly(n: Node) returns (k: nat)
    ensures n.inserted ==> Changed(n) && Produces(n) && Visit(n).kind == n.kind && Kids(n) == n.children && Visit(n).temps == []
    ensures !n.inserted ==> StopsAt(n.chain, k)
    ensures !n.inserted ==>
              var nothing := k < |n.chain| && n.chain[k].result.None?;
              && (Changed(n) <==> k > 0 || (k < |n.chain| && n.chain[k].result.Some?))
              && (Produces(n) <==> Changed(n) && !nothing)
              && Kids(n) == (if k == 0 then n else n.chain[k - 1].result.value).children
              && (Produces(n) ==> Visit(n).kind == n.chain[if k < |n.chain| then k else k - 1].result.value.kind)
              && Visit(n).temps == TempsOfSteps(if k < |n.chain| then n.chain[..k + 1] else n.chain)
  {
    k := ChainExactly(n, n.chain, false, n.kind);
  }

  // ---------------------------------------------------------------- paths below a node

  /** The indices of the children on the way down from n. */
  ghost predicate IsIn(n: Node, path: seq<nat>)
    decreases |path|
  {
    path == [] || (path[0] < |Kids(n)| && IsIn(Kids(n)[path[0]], path[1..]))
  }

  function NodeAt(n: Node, path: seq<nat>): Node
    requires IsIn(n, path)
    decreases |path|
  {
    if path == [] then n else NodeAt(Kids(n)[path[0]], path[1..])
  }

  /** No node after the first on the path is a block. */
  ghost predicate StaysInBlock(n: Node, path: seq<nat>) {
    && IsIn(n, path)
    && forall i :: 0 < i <= |path| ==> IsIn(n, path[..i]) && NodeAt(n, path[..i]).kind !in {BlockStatement, Program}
  }

  /** The order of the walk: a node comes before those below it and before those to its right. */
  predicate Before(p: seq<nat>, q: seq<nat>) {
    q != [] && (p == [] || p[0] < q[0] || (p[0] == q[0] && Before(p[1..], q[1..])))
  }

  ghost predicate AreIn(n: Node, paths: seq<seq<nat>>) {
    forall p :: p in paths ==> IsIn(n, p)
  }

  ghost function TempsAt(n: Node, paths: seq<seq<nat>>): seq<string>
    requires AreIn(n, paths)
  {
    if paths == [] then [] else Visit(NodeAt(n, paths[0])).temps + TempsAt(n, paths[1..])
  }

  /** Paths within the block of n, starting below the children from i on. */
  ghost predicate IsOwn(n: Node, i: nat, path: seq<nat>) {
    path != [] && path[0] >= i && StaysInBlock(n, path)
  }

  ghost predicate Sorted(paths: seq<seq<nat>>) {
    forall i, j :: 0 <= i < j < |paths| ==> Before(paths[i], paths[j])
  }

  lemma Step(n: Node, path: seq<nat>)
    requires path != []
    ensures StaysInBlock(n, path) <==> path[0] < |Kids(n)| && !OwnsTemps(Kids(n)[path[0]].kind) && StaysInBlock(Kids(n)[path[0]], path[1..])
  {
    if path[0] < |Kids(n)| {
      var kid := Kids(n)[path[0]];
      assert path[..1] == [path[0]] && NodeAt(n, path[..1]) == kid;
      forall i | 0 < i <= |path| - 1
        ensures IsIn(n, path[..i + 1]) <==> IsIn(kid, path[1..][..i])
        ensures IsIn(n, path[..i + 1]) ==> NodeAt(n, path[..i + 1]) == NodeAt(kid, path[1..][..i])
      {
        assert path[..i + 1][1..] == path[1..][..i];
      }
      if StaysInBlock(n, path) {
        forall i | 0 < i <= |path[1..]| ensures IsIn(kid, path[1..][..i]) && !OwnsTemps(NodeAt(kid, path[1..][..i]).kind) {
          assert IsIn(n, path[..i + 1]);
        }
        assert !OwnsTemps(NodeAt(n, path[..1]).kind);
      }
      if !OwnsTemps(kid.kind) && StaysInBlock(kid, path[1..]) {
        forall i | 0 < i <= |path| ensures IsIn(n, path[..i]) && !OwnsTemps(NodeAt(n, path[..i]).kind) {
          if i > 1 { assert path[..i] == path[..(i - 1) + 1] && IsIn(kid, path[1..][..i - 1]); }
        }
      }
    }
  }

  // ---------------------------------------------------------------- the temporaries of a block

  function Prefixed(i: nat, paths: seq<seq<nat>>): seq<seq<nat>> {
    seq(|paths|, k requires 0 <= k < |paths| => [i] + paths[k])
  }

  lemma TailOf(i: nat, path: seq<nat>)
    ensures ([i] + path)[0] == i && ([i] + path)[1..] == path
  {
  }

  lemma PrefixedMeans(n: Node, i: nat, paths: seq<seq<nat>>, path: seq<nat>)
    requires i < |Kids(n)| && !OwnsTemps(Kids(n)[i].kind)
    requires forall p :: p in paths <==> StaysInBlock(Kids(n)[i], p)
    ensures path in Prefixed(i, paths) <==> path != [] && path[0] == i && StaysInBlock(n, path)
  {
    if path in Prefixed(i, paths) {
      var k :| 0 <= k < |paths| && path == [i] + paths[k];
      TailOf(i, paths[k]);
      Step(n, path);
    }
    if path != [] && path[0] == i && StaysInBlock(n, path) {
      Step(n, path);
      var k :| 0 <= k < |paths| && paths[k] == path[1..];
      assert path == [i] + paths[k] == Prefixed(i, paths)[k];
    }
  }

  lemma PrefixedSorted(i: nat, paths: seq<seq<nat>>)
    requires Sorted(paths)
    ensures Sorted(Prefixed(i, paths))
  {
    forall k, l | 0 <= k < l < |paths| ensures Before([i] + paths[k], [i] + paths[l]) {
      TailOf(i, paths[k]);
      TailOf(i, paths[l]);
    }
  }

  lemma {:induction false} PrefixedTemps(n: Node, i: nat, paths: seq<seq<nat>>)
    requires i < |Kids(n)| && AreIn(Kids(n)[i], paths)
    ensures AreIn(n, Prefixed(i, paths))
    ensures TempsAt(n, Prefixed(i, paths)) == TempsAt(Kids(n)[i], paths)
    decreases |paths|
  {
    forall p | p in Prefixed(i, paths) ensures IsIn(n, p) {
      var k :| 0 <= k < |paths| && p == [i] + paths[k];
      TailOf(i, paths[k]);
    }
    if paths != [] {
      TailOf(i, paths[0]);
      PrefixedTemps(n, i, paths[1..]);
      assert Prefixed(i, paths)[1..] == Prefixed(i, paths[1..]);
      assert Prefixed(i, paths)[0] == [i] + paths[0];
    }
  }

  lemma {:induction false} TempsConcat(n: Node, a: seq<seq<nat>>, b: seq<seq<nat>>)
    requires AreIn(n, a) && AreIn(n, b)
    ensures AreIn(n, a + b) && TempsAt(n, a + b) == TempsAt(n, a) + TempsAt(n, b)
  {
    if a == [] {
      assert a + b == b;
    } else {
      assert (a + b)[1..] == a[1..] + b;
      TempsConcat(n, a[1..], b);
      AssocTexts(Visit(NodeAt(n, a[0])).temps, TempsAt(n, a[1..]), TempsAt(n, b));
    }
  }

  lemma SortedConcat(a: seq<seq<nat>>, b: seq<seq<nat>>)
    requires Sorted(a) && Sorted(b) && forall p, q :: p in a && q in b ==> Before(p, q)
    ensures Sorted(a + b)
  {
    var all := a + b;
    forall i, j | 0 <= i < j < |all| ensures Before(all[i], all[j]) {
      if i < |a| <= j { assert all[i] in a && all[j] in b; }
    }
  }

  /** The temporaries of a block are those that the visits of its own nodes ask for: of the nodes that are reached from it
      without entering another block, each one once, in the order of the walk. */
  lemma {:induction false} TempsInWalkOrder(n: Node) returns (paths: seq<seq<nat>>)
    ensures forall p :: p in paths <==> StaysInBlock(n, p)
    ensures Sorted(paths) && AreIn(n, paths)
    ensures TempsOf(n) == TempsAt(n, paths)
    decreases Size(n), 1
  {
    assert Kids(n)[0..] == Kids(n);
    var below := TempsBelow(n, 0);
    paths := [[]] + below;
    WithOwnPath(n, [], below);
  }

  lemma WithOwnPath(n: Node, own: seq<nat>, below: seq<seq<nat>>)
    requires own == [] && Sorted(below) && forall p :: p in below <==> IsOwn(n, 0, p)
    ensures forall p :: p in [own] + below <==> StaysInBlock(n, p)
    ensures Sorted([own] + below) && AreIn(n, below) && AreIn(n, [own] + below)
    ensures TempsAt(n, [own] + below) == Visit(n).temps + TempsAt(n, below)
  {
    assert StaysInBlock(n, own) && NodeAt(n, own) == n;
    forall p ensures p in [own] + below <==> StaysInBlock(n, p) { assert p in [own] + below <==> p == own || p in below; }
    SortedConcat([own], below);
    assert ([own] + below)[1..] == below;
  }

  lemma {:induction false} TempsBelow(n: Node, i: nat) returns (paths: seq<seq<nat>>)
    requires i <= |Kids(n)|
    ensures forall p :: p in paths <==> IsOwn(n, i, p)
    ensures Sorted(paths) && AreIn(n, paths)
    ensures TempsOfAll(n, Kids(n)[i..]) == TempsAt(n, paths)
    decreases Size(n), 0, |Kids(n)| - i
  {
    if i == |Kids(n)| {
      paths := [];
      forall p ensures !IsOwn(n, i, p) { if p != [] { Step(n, p); } }
    } else {
      var here := TempsOfKid(n, i);
      var rest := TempsBelow(n, i + 1);
      assert Kids(n)[i..][0] == Kids(n)[i] && Kids(n)[i..][1..] == Kids(n)[i + 1..];
      JoinBelow(n, i, here, rest);
      paths := here + rest;
    }
  }

  ghost predicate IsOwnAt(n: Node, i: nat, path: seq<nat>) {
    path != [] && path[0] == i && StaysInBlock(n, path)
  }

  lemma JoinBelow(n: Node, i: nat, here: seq<seq<nat>>, rest: seq<seq<nat>>)
    requires i < |Kids(n)| && Sorted(here) && Sorted(rest)
    requires forall p :: p in here <==> IsOwnAt(n, i, p)
    requires forall p :: p in rest <==> IsOwn(n, i + 1, p)
    ensures forall p :: p in here + rest <==> IsOwn(n, i, p)
    ensures AreIn(n, here) && AreIn(n, rest) && AreIn(n, here + rest)
    ensures Sorted(here + rest) && TempsAt(n, here + rest) == TempsAt(n, here) + TempsAt(n, rest)
  {
    forall p ensures p in here + rest <==> IsOwn(n, i, p) { assert p in here + rest <==> p in here || p in rest; }
    forall p, q | p in here && q in rest ensures Before(p, q) { assert IsOwnAt(n, i, p) && IsOwn(n, i + 1, q); }
    SortedConcat(here, rest);
    TempsConcat(n, here, rest);
  }

  lemma {:induction false} TempsOfKid(n: Node, i: nat) returns (paths: seq<seq<nat>>)
    requires i < |Kids(n)|
    ensures forall p :: p in paths <==> IsOwnAt(n, i, p)
    ensures Sorted(paths) && AreIn(n, paths)
    ensures TempsAt(n, paths) == if OwnsTemps(Kids(n)[i].kind) then [] else TempsOf(Kids(n)[i])
    decreases Size(n), 0, 0
  {
    var kid := Kids(n)[i];
    if OwnsTemps(kid.kind) {
      paths := [];
      forall p ensures !IsOwnAt(n, i, p) { if p != [] { Step(n, p); } }
    } else {
      var inner := TempsInWalkOrder(kid);
      paths := Prefixed(i, inner);
      forall p ensures p in paths <==> IsOwnAt(n, i, p) { PrefixedMeans(n, i, inner, p); }
      PrefixedSorted(i, inner);
      PrefixedTemps(n, i, inner);
    }
  }

  // ---------------------------------------------------------------- the declarations in the list

  lemma {:induction false} InTemps(n: Node, paths: seq<seq<nat>>, name: string)
    requires AreIn(n, paths)
    ensures name in TempsAt(n, paths) <==> exists p :: p in paths && name in Visit(NodeAt(n, p)).temps
  {
    if paths != [] {
      InTemps(n, paths[1..], name);
      if p :| p in paths && name in Visit(NodeAt(n, p)).temps {
        assert p == paths[0] || p in paths[1..];
      }
      if name in TempsAt(n, paths[1..]) {
        var p :| p in paths[1..] && name in Visit(NodeAt(n, p)).temps;
        assert p in paths;
      }
      if name in Visit(NodeAt(n, paths[0])).temps { assert paths[0] in paths; }
    }
  }

  /** Nothing is transformed on the way down, and there is no `new` on it. */
  ghost predicate IsPlain(n: Node, path: seq<nat>)
    decreases |path|
  {
    !Changed(n) && !IsNew(n) && (path == [] || (path[0] < |Kids(n)| && IsPlain(Kids(n)[path[0]], path[1..])))
  }

  /** Every declaration in the list belongs to a block on the way down to which nothing is transformed and no `new` is met. */
  lemma {:induction false} DeclarationsAreOfBlocks(n: Node, parentKind: Kind, c: Change) returns (at: seq<nat>)
    requires c in Changes(n, parentKind) && c.item.Declaration?
    ensures IsIn(n, at) && IsPlain(n, at) && OwnsTemps(NodeAt(n, at).kind) && c == DeclarationChange(NodeAt(n, at))
    decreases Size(n), 1
  {
    if c in ChangesOfAll(n, Kids(n)) {
      assert Kids(n)[0..] == Kids(n);
      at := DeclarationsBelow(n, 0, c);
    } else {
      at := [];
    }
  }

  lemma {:induction false} DeclarationsBelow(n: Node, i: nat, c: Change) returns (at: seq<nat>)
    requires !Changed(n) && !IsNew(n)
    requires i <= |Kids(n)| && c in ChangesOfAll(n, Kids(n)[i..]) && c.item.Declaration?
    ensures IsIn(n, at) && IsPlain(n, at) && OwnsTemps(NodeAt(n, at).kind) && c == DeclarationChange(NodeAt(n, at))
    decreases Size(n), 0, |Kids(n)| - i
  {
    var kids := Kids(n)[i..];
    assert i < |Kids(n)| && kids[0] == Kids(n)[i] && kids[1..] == Kids(n)[i + 1..];
    if c in Changes(kids[0], Visit(n).node.kind) {
      var below := DeclarationsAreOfBlocks(kids[0], Visit(n).node.kind, c);
      TailOf(i, below);
      at := [i] + below;
    } else {
      at := DeclarationsBelow(n, i + 1, c);
    }
  }

  /** A declaration in the list names, for a block of the tree, the temporaries that its own nodes ask for: those of every
      node that is reached without entering another block, and no other, in the order of the walk. */
  lemma DeclaredExactly(n: Node, parentKind: Kind, c: Change) returns (at: seq<nat>, paths: seq<seq<nat>>)
    requires c in Changes(n, parentKind) && c.item.Declaration?
    ensures IsIn(n, at) && IsPlain(n, at) && NodeAt(n, at).kind in {BlockStatement, Program} && c.item.block == NodeAt(n, at).id
    ensures forall p :: p in paths <==> StaysInBlock(NodeAt(n, at), p)
    ensures Sorted(paths) && AreIn(NodeAt(n, at), paths) && c.item.names == TempsAt(NodeAt(n, at), paths)
    ensures forall name :: name in c.item.names
                      <==> exists p :: StaysInBlock(NodeAt(n, at), p) && name in Visit(NodeAt(NodeAt(n, at), p)).temps
  {
    at := DeclarationsAreOfBlocks(n, parentKind, c);
    var block := NodeAt(n, at);
    paths := TempsInWalkOrder(block);
    forall name ensures name in c.item.names <==> exists p :: StaysInBlock(block, p) && name in Visit(NodeAt(block, p)).temps {
      InTemps(block, paths, name);
    }
  }

  lemma {:induction false} BlockDeclares(n: Node, parentKind: Kind, at: seq<nat>)
    requires IsIn(n, at) && IsPlain(n, at) && Declares(NodeAt(n, at))
    ensures DeclarationChange(NodeAt(n, at)) in Changes(n, parentKind)
    decreases |at|
  {
    if at != [] {
      BlockDeclares(Kids(n)[at[0]], Visit(n).node.kind, at[1..]);
      assert Kids(n)[0..] == Kids(n);
      InChangesOfAll(n, 0, at[0], DeclarationChange(NodeAt(n, at)));
    }
  }

  lemma {:induction false} InChangesOfAll(n: Node, from: nat, i: nat, c: Change)
    requires from <= i < |Kids(n)| && c in Changes(Kids(n)[i], Visit(n).node.kind)
    ensures c in ChangesOfAll(n, Kids(n)[from..])
    decreases i - from
  {
    var kids := Kids(n)[from..];
    assert kids[0] == Kids(n)[from] && kids[1..] == Kids(n)[from + 1..];
    if from < i {
      InChangesOfAll(n, from + 1, i, c);
    }
  }

  /** Every temporary that a node asks for is in the list, in the declaration of the block it lies in, if nothing is
      transformed and no `new` is met on the way down to that block. */
  lemma NamesAreDeclared(n: Node, parentKind: Kind, at: seq<nat>, path: seq<nat>, name: string) returns (c: Change)
    requires IsIn(n, at) && IsPlain(n, at) && NodeAt(n, at).kind in {BlockStatement, Program}
    requires StaysInBlock(NodeAt(n, at), path) && name in Visit(NodeAt(NodeAt(n, at), path)).temps
    ensures c in Changes(n, parentKind) && c.item.Declaration? && c.item.block == NodeAt(n, at).id && name in c.item.names
  {
    var block := NodeAt(n, at);
    var paths := TempsInWalkOrder(block);
    InTemps(block, paths, name);
    BlockDeclares(n, parentKind, at);
    c := DeclarationChange(block);
  }
}
