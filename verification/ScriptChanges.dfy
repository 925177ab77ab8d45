/** src/processing/script/transform.ts: walking the syntax tree and collecting the text changes. */
module ScriptChanges {
  import opened Prelude

  datatype Kind = Program | NewExpression | BlockStatement | VariableDeclaration | SequenceExpression | ExpressionStatement | OtherKind

  /** What one run of a transformer returns, the temporaries it asks for, and whether its result
      goes through the transformers again. */
  datatype Step = Step(result: Option<Node>, temps: seq<string>, again: bool)

  /** A syntax node. `inserted` says that an earlier transformer created the node and gave it a
      source range (and no reTransform flag); `chain` is what the transformers that apply to the
      node do, one after the other. `id` stands for object identity. */
  datatype Node = Node(id: nat, kind: Kind, start: int, end: int, inserted: bool, chain: seq<Step>, children: seq<Node>)

  datatype Item = Rewritten(id: nat) | Declaration(block: nat, names: seq<string>)

  datatype Change = Change(start: int, end: int, item: Item, kind: Kind, parentKind: Kind)

  // ---------------------------------------------------------------- the transformer loop

  /** `changed` is nodeTransformed, `replaced` says that a replacement is left at the end, and
      `node` is the node whose children are walked. */
  datatype Outcome = Outcome(changed: bool, replaced: bool, node: Node, kind: Kind, temps: seq<string>)

  function RunChain(cur: Node, chain: seq<Step>, done: bool, kind: Kind): Outcome
    decreases |chain|
  {
    if chain == [] then Outcome(done, done, cur, kind, []) else
    var step := chain[0];
    if step.result.None? then Outcome(done, false, cur, kind, step.temps)
    else if !step.again then Outcome(true, true, cur, step.result.value.kind, step.temps)
    else
      var rest := RunChain(step.result.value, chain[1..], true, step.result.value.kind);
      rest.(temps := step.temps + rest.temps)
  }

  lemma {:induction false} RunChainSmaller(cur: Node, chain: seq<Step>, done: bool, kind: Kind, n: Node)
    requires n == cur || exists i :: 0 <= i < |n.chain| && n.chain[i].result == Some(cur)
    requires forall i :: 0 <= i < |chain| ==> chain[i] in n.chain
    ensures RunChain(cur, chain, done, kind).node == n
         || exists i :: 0 <= i < |n.chain| && n.chain[i].result == Some(RunChain(cur, chain, done, kind).node)
    decreases |chain|
  {
    if chain != [] && chain[0].result.Some? && chain[0].again {
      assert chain[0] in n.chain;
      RunChainSmaller(chain[0].result.value, chain[1..], true, chain[0].result.value.kind, n);
    }
  }

  function Visit(n: Node): Outcome {
    if n.inserted then Outcome(true, true, n, n.kind, []) else RunChain(n, n.chain, false, n.kind)
  }

  /** nodeTransformed */
  predicate Changed(n: Node) {
    Visit(n).changed
  }

  /** A change for the node itself was offered to the list. */
  predicate Produces(n: Node) {
    Visit(n).replaced
  }

  /** A transformer gave a result and a later one in the chain returned null: the node counts as
      transformed, but no change is recorded for it. */
  predicate Lost(n: Node) {
    Changed(n) && !Produces(n)
  }

  function Kids(n: Node): (kids: seq<Node>)
    ensures forall k :: k in kids ==> Size(k) < Size(n)
  {
    RunChainSmaller(n, n.chain, false, n.kind, n);
    VisitSize(n);
    Visit(n).node.children
  }

  predicate IsNew(n: Node) {
    Visit(n).node.kind == NewExpression
  }

  // Sizes, for recursion over the walked tree.

  function Size(n: Node): nat
    decreases n
  {
    1 + SizeOfSteps(n.chain) + SizeOfAll(n.children)
  }

  function SizeOfSteps(steps: seq<Step>): nat
    decreases steps
  {
    if steps == [] then 0 else (if steps[0].result.Some? then Size(steps[0].result.value) else 0) + SizeOfSteps(steps[1..])
  }

  function SizeOfAll(nodes: seq<Node>): nat
    decreases nodes
  {
    if nodes == [] then 0 else Size(nodes[0]) + SizeOfAll(nodes[1..])
  }

  lemma {:induction false} SizeOfAllBounds(nodes: seq<Node>)
    ensures forall k :: k in nodes ==> Size(k) <= SizeOfAll(nodes)
  {
    if nodes != [] {
      SizeOfAllBounds(nodes[1..]);
      assert forall k :: k in nodes ==> k == nodes[0] || k in nodes[1..];
    }
  }

  lemma {:induction false} SizeOfStepsBounds(steps: seq<Step>, i: nat)
    requires i < |steps| && steps[i].result.Some?
    ensures Size(steps[i].result.value) <= SizeOfSteps(steps)
  {
    if i > 0 {
      SizeOfStepsBounds(steps[1..], i - 1);
    }
  }

  lemma VisitSize(n: Node)
    ensures Size(Visit(n).node) <= Size(n)
    ensures forall k :: k in Visit(n).node.children ==> Size(k) < Size(n)
  {
    RunChainSmaller(n, n.chain, false, n.kind, n);
    var m := Visit(n).node;
    if m != n {
      var i :| 0 <= i < |n.chain| && n.chain[i].result == Some(m);
      SizeOfStepsBounds(n.chain, i);
    }
    SizeOfAllBounds(m.children);
  }

  // ---------------------------------------------------------------- temporaries of a block

  predicate OwnsTemps(kind: Kind) {
    kind == BlockStatement || kind == Program
  }

  /** The temporaries asked for by a node and by its descendants outside nested blocks. */
  function TempsOf(n: Node): seq<string>
    decreases Size(n), 0
  {
    Visit(n).temps + TempsOfAll(n, Kids(n))
  }

  function TempsOfAll(n: Node, kids: seq<Node>): seq<string>
    requires forall k :: k in kids ==> Size(k) < Size(n)
    decreases Size(n), 0, |kids|
  {
    if kids == [] then [] else
    (if OwnsTemps(kids[0].kind) then [] else TempsOf(kids[0])) + TempsOfAll(n, kids[1..])
  }

  predicate Declares(n: Node) {
    OwnsTemps(n.kind) && TempsOf(n) != []
  }

  /** Where the declaration of a block's temporaries goes: before the first statement. */
  function DeclarationPlace(n: Node): int {
    if |Kids(n)| > 0 then Kids(n)[0].start else n.start + 1
  }

  function DeclarationChange(n: Node): Change {
    Change(DeclarationPlace(n), DeclarationPlace(n), Declaration(n.id, TempsOf(n)), VariableDeclaration, n.kind)
  }

  function OwnChange(n: Node, parentKind: Kind): Change {
    Change(n.start, n.end, Rewritten(n.id), Visit(n).kind, parentKind)
  }

  // ---------------------------------------------------------------- which changes are expected

  /** Some change is offered while the node is walked (changes below a transformed node are
      suppressed). */
  predicate Touches(n: Node)
    decreases Size(n), 1
  {
    if Changed(n) then Produces(n) else Declares(n) || TouchesAny(n, Kids(n))
  }

  predicate TouchesAny(n: Node, kids: seq<Node>)
    requires forall k :: k in kids ==> Size(k) < Size(n)
    decreases Size(n), 0, |kids|
  {
    kids != [] && (Touches(kids[0]) || TouchesAny(n, kids[1..]))
  }

  /** The changes for a node that has no transformed ancestor and no `new` ancestor: one for the
      outermost transformed node or outermost `new` expression on every path, if anything is
      transformed there, and the declarations of the blocks outside all of them. */
  function Changes(n: Node, parentKind: Kind): seq<Change>
    decreases Size(n), 1
  {
    if Changed(n) then (if Produces(n) then [OwnChange(n, parentKind)] else [])
    else if IsNew(n) then (if Touches(n) then [OwnChange(n, parentKind)] else [])
    else ChangesOfAll(n, Kids(n)) + if Declares(n) then [DeclarationChange(n)] else []
  }

  function ChangesOfAll(n: Node, kids: seq<Node>): seq<Change>
    requires forall k :: k in kids ==> Size(k) < Size(n)
    decreases Size(n), 0, |kids|
  {
    if kids == [] then [] else Changes(kids[0], Visit(n).node.kind) + ChangesOfAll(n, kids[1..])
  }

  // ---------------------------------------------------------------- identities

  /** The nodes outside the transformed subtrees. */
  function Ids(n: Node): set<nat>
    decreases Size(n), 1
  {
    {n.id} + if Changed(n) then {} else IdsOfAll(n, Kids(n))
  }

  function IdsOfAll(n: Node, kids: seq<Node>): set<nat>
    requires forall k :: k in kids ==> Size(k) < Size(n)
    decreases Size(n), 0, |kids|
  {
    if kids == [] then {} else Ids(kids[0]) + IdsOfAll(n, kids[1..])
  }

  /** Every node is one object. */
  predicate Distinct(n: Node)
    decreases Size(n), 1
  {
    Changed(n) || (n.id !in IdsOfAll(n, Kids(n)) && DistinctAll(n, Kids(n)))
  }

  predicate DistinctAll(n: Node, kids: seq<Node>)
    requires forall k :: k in kids ==> Size(k) < Size(n)
    decreases Size(n), 0, |kids|
  {
    kids == [] || (Distinct(kids[0]) && Ids(kids[0]) !! IdsOfAll(n, kids[1..]) && DistinctAll(n, kids[1..]))
  }

  lemma {:induction false} ChangedStays(cur: Node, chain: seq<Step>, kind: Kind)
    ensures RunChain(cur, chain, true, kind).changed
    decreases |chain|
  {
    if chain != [] && chain[0].result.Some? {
      ChangedStays(chain[0].result.value, chain[1..], chain[0].result.value.kind);
    }
  }

  lemma UnchangedIsItself(n: Node)
    requires !Changed(n)
    ensures Visit(n).node == n && Kids(n) == n.children && !Produces(n) && Visit(n).kind == n.kind
  {
    if n.chain != [] && n.chain[0].result.Some? {
      ChangedStays(n.chain[0].result.value, n.chain[1..], n.chain[0].result.value.kind);
    }
  }

  // ---------------------------------------------------------------- the walk

  datatype NewAncestor = NewAncestor(id: nat, change: Change)

  /** The State class: whether an ancestor was transformed, and the outermost `new` ancestor. */
  datatype State = State(hasTransformedAncestor: bool, newAncestor: Option<NewAncestor>)

  function CreateState(state: State, n: Node, parentKind: Kind, nodeTransformed: bool): State {
    var final := Visit(n).node;
    State(
      state.hasTransformedAncestor || nodeTransformed,
      if final.kind == NewExpression && state.newAncestor.None?
      then Some(NewAncestor(final.id, Change(final.start, final.end, Rewritten(final.id), NewExpression, parentKind)))
      else state.newAncestor)
  }

  /** Below a transformed node everything is blocked; else only a `new` expression changes the state. */
  lemma StateBelow(state: State, n: Node, parentKind: Kind, below: State)
    requires below == CreateState(state, n, parentKind, Changed(n))
    ensures Changed(n) ==> below.hasTransformedAncestor
    ensures !Changed(n) ==> !Produces(n) && below.hasTransformedAncestor == state.hasTransformedAncestor
    ensures !Changed(n) && (!IsNew(n) || state.newAncestor.Some?) ==> below == state
    ensures !Changed(n) && IsNew(n) && state.newAncestor.None? ==> below.newAncestor == Some(NewAncestor(n.id, OwnChange(n, parentKind)))
  {
    if !Changed(n) { UnchangedIsItself(n); }
  }

  predicate Clear(state: State) {
    !state.hasTransformedAncestor && state.newAncestor.None?
  }

  /** No change below this point goes to the list any more. */
  predicate Blocked(state: State, marked: set<nat>) {
    state.hasTransformedAncestor || (state.newAncestor.Some? && state.newAncestor.value.id in marked)
  }

  /** The effect of offering changes: nothing when blocked, the change of the `new` ancestor when there is
      one and something is offered, else `offered` itself. */
  predicate Offers(state: State, touches: bool, offered: seq<Change>, ids: set<nat>, changes0: seq<Change>, marked0: set<nat>,
                   changes1: seq<Change>, marked1: set<nat>)
  {
    && (Blocked(state, marked0) ==> changes1 == changes0 && marked1 == marked0)
    && (!Blocked(state, marked0) && state.newAncestor.Some? ==>
          && changes1 == changes0 + (if touches then [state.newAncestor.value.change] else [])
          && marked1 == marked0 + (if touches then {state.newAncestor.value.id} else {}))
    && (!Blocked(state, marked0) && state.newAncestor.None? ==>
          changes1 == changes0 + offered && marked0 <= marked1 <= marked0 + ids)
  }

  lemma OffersTwice(state: State, t1: bool, o1: seq<Change>, ids1: set<nat>, t2: bool, o2: seq<Change>, ids2: set<nat>,
                    changes0: seq<Change>, marked0: set<nat>, changes1: seq<Change>, marked1: set<nat>, changes2: seq<Change>, marked2: set<nat>)
    requires Offers(state, t1, o1, ids1, changes0, marked0, changes1, marked1)
    requires Offers(state, t2, o2, ids2, changes1, marked1, changes2, marked2)
    ensures Offers(state, t1 || t2, o1 + o2, ids1 + ids2, changes0, marked0, changes2, marked2)
  {
  }

  /** What the node itself and what is below it offer together. */
  lemma VisitOffers(state: State, n: Node, parentKind: Kind, below: State, changes0: seq<Change>, marked0: set<nat>,
                    changes1: seq<Change>, marked1: set<nat>, changes2: seq<Change>, marked2: set<nat>)
    requires below == CreateState(state, n, parentKind, Changed(n)) && (Clear(state) ==> Ids(n) !! marked0)
    requires if Produces(n) then Offers(state, true, [OwnChange(n, parentKind)], {}, changes0, marked0, changes1, marked1)
             else changes1 == changes0 && marked1 == marked0
    requires Offers(below, Declares(n) || TouchesAny(n, Kids(n)), ChangesOfAll(n, Kids(n)) + (if Declares(n) then [DeclarationChange(n)] else []),
                    IdsOfAll(n, Kids(n)), changes1, marked1, changes2, marked2)
    ensures Offers(state, Touches(n), Changes(n, parentKind), Ids(n), changes0, marked0, changes2, marked2)
  {
    StateBelow(state, n, parentKind, below);
  }

  /** The walker. `marked` holds the `new` expressions that already have a change (their
      originStart and originEnd are set); `tempVars` are the temporaries of the current block. */
  class Collector {
    var changes: seq<Change>
    var marked: set<nat>
    var tempVars: seq<string>

    constructor ()
      ensures changes == [] && marked == {} && tempVars == []
    {
      changes, marked, tempVars := [], {}, [];
    }

    /** addChangeForTransformedNode */
    method AddChange(state: State, change: Change)
      modifies this`changes, this`marked
      ensures Blocked(state, old(marked)) ==> changes == old(changes) && marked == old(marked)
      ensures !Blocked(state, old(marked)) && state.newAncestor.Some? ==>
                changes == old(changes) + [state.newAncestor.value.change] && marked == old(marked) + {state.newAncestor.value.id}
      ensures !Blocked(state, old(marked)) && state.newAncestor.None? ==>
                changes == old(changes) + [change] && marked == old(marked)
    {
      if state.hasTransformedAncestor || (state.newAncestor.Some? && state.newAncestor.value.id in marked) {
        return;
      }
      if state.newAncestor.Some? {
        marked := marked + {state.newAncestor.value.id};
        changes := changes + [state.newAncestor.value.change];
      } else {
        changes := changes + [change];
      }
    }

    twostate predicate Offered(state: State, touches: bool, offered: seq<Change>, ids: set<nat>)
      reads this
    {
      Offers(state, touches, offered, ids, old(changes), old(marked), changes, marked)
    }

    /** transform: the loop over the transformers, then the children, then the declaration. */
    method Transform(n: Node, parentKind: Kind, state: State)
      requires Clear(state) ==> Distinct(n) && Ids(n) !! marked
      modifies this
      ensures Offered(state, Touches(n), Changes(n, parentKind), Ids(n))
      ensures tempVars == old(tempVars) + if OwnsTemps(n.kind) then [] else TempsOf(n)
      decreases Size(n), 2
    {
      var outerTemps := tempVars;
      var isBlock := OwnsTemps(n.kind);
      if isBlock {
        tempVars := [];
      }
      ghost var temps0 := tempVars;
      ghost var changes0, marked0 := changes, marked;
      var nodeTransformed := TransformSelf(n, parentKind, state);
      ghost var changes1, marked1 := changes, marked;
      var newState := CreateState(state, n, parentKind, nodeTransformed);
      StateBelow(state, n, parentKind, newState);
      Descend(n, newState);
      VisitOffers(state, n, parentKind, newState, changes0, marked0, changes1, marked1, changes, marked);
      AssocTexts(temps0, Visit(n).temps, TempsOfAll(n, Kids(n)));
      if isBlock {
        tempVars := outerTemps;
      }
    }

    /** The node itself, inserted or replaced by its transformers. */
    method TransformSelf(n: Node, parentKind: Kind, state: State) returns (nodeTransformed: bool)
      modifies this
      ensures nodeTransformed == Changed(n) && tempVars == old(tempVars) + Visit(n).temps
      ensures if Produces(n) then Offered(state, true, [OwnChange(n, parentKind)], {}) else changes == old(changes) && marked == old(marked)
    {
      if n.inserted {
        AddChange(state, Change(n.start, n.end, Rewritten(n.id), n.kind, parentKind));
        return true;
      }
      var node, changed, replaced, kind := RunTransformers(n);
      if changed && replaced {
        AddChange(state, Change(n.start, n.end, Rewritten(n.id), kind, parentKind));
      }
      return changed;
    }

    /** The children, and then the declaration of a block's temporaries. */
    method Descend(n: Node, state: State)
      requires Clear(state) ==> !Changed(n) && DistinctAll(n, Kids(n)) && IdsOfAll(n, Kids(n)) !! marked
      requires OwnsTemps(n.kind) ==> tempVars == Visit(n).temps
      modifies this
      ensures Offered(state, Declares(n) || TouchesAny(n, Kids(n)),
                      ChangesOfAll(n, Kids(n)) + (if Declares(n) then [DeclarationChange(n)] else []), IdsOfAll(n, Kids(n)))
      ensures tempVars == old(tempVars) + TempsOfAll(n, Kids(n))
      decreases Size(n), 1
    {
      TransformAll(n, Kids(n), state);
      label declared:
      if OwnsTemps(n.kind) && tempVars != [] {
        assert tempVars == TempsOf(n);
        AddChange(state, Change(DeclarationPlace(n), DeclarationPlace(n), Declaration(n.id, tempVars), VariableDeclaration, n.kind));
      }
    }

    /** The while loop over the transformers. */
    method RunTransformers(n: Node) returns (node: Node, changed: bool, replaced: bool, kind: Kind)
      requires !n.inserted
      modifies this`tempVars
      ensures node == Visit(n).node && changed == Changed(n) && replaced == Produces(n) && kind == Visit(n).kind
      ensures replaced ==> changed
      ensures tempVars == old(tempVars) + Visit(n).temps
    {
      node, changed, replaced, kind := n, false, false, n.kind;
      var i := 0;
      while i < |n.chain|
        invariant 0 <= i <= |n.chain| && replaced == changed
        invariant RunChain(n, n.chain, false, n.kind).(temps := old(tempVars) + RunChain(n, n.chain, false, n.kind).temps)
               == RunChain(node, n.chain[i..], changed, kind).(temps := tempVars + RunChain(node, n.chain[i..], changed, kind).temps)
      {
        var step := n.chain[i];
        assert n.chain[i..][0] == step && n.chain[i..][1..] == n.chain[i + 1..];
        tempVars := tempVars + step.temps;
        if step.result.None? {
          replaced := false;
          return;
        }
        changed, replaced, kind := true, true, step.result.value.kind;
        if !step.again {
          return;
        }
        node := step.result.value;
        i := i + 1;
      }
      assert n.chain[i..] == [];
      assert tempVars + [] == tempVars;
    }

    /** transformChildNodes */
    method TransformAll(n: Node, kids: seq<Node>, state: State)
      requires forall k :: k in kids ==> Size(k) < Size(n)
      requires Clear(state) ==> DistinctAll(n, kids) && IdsOfAll(n, kids) !! marked
      modifies this
      ensures Offered(state, TouchesAny(n, kids), ChangesOfAll(n, kids), IdsOfAll(n, kids))
      ensures tempVars == old(tempVars) + TempsOfAll(n, kids)
      decreases Size(n), 0, |kids|
    {
      if kids != [] {
        var first, rest := kids[0], kids[1..];
        ghost var changes0, marked0, temps0 := changes, marked, tempVars;
        Transform(first, Visit(n).node.kind, state);
        ghost var changes1, marked1 := changes, marked;
        TransformAll(n, rest, state);
        OffersTwice(state, Touches(first), Changes(first, Visit(n).node.kind), Ids(first),
                    TouchesAny(n, rest), ChangesOfAll(n, rest), IdsOfAll(n, rest),
                    changes0, marked0, changes1, marked1, changes, marked);
        AssocTexts(temps0, if OwnsTemps(first.kind) then [] else TempsOf(first), TempsOfAll(n, rest));
      }
    }

    /** transformProgram */
    method TransformProgram(program: Node)
      requires program.kind == Program && !program.inserted && program.chain == [] && Distinct(program)
      requires changes == [] && marked == {} && tempVars == []
      modifies this
      ensures changes == Changes(program, Program)
    {
      UnchangedIsItself(program);
      Descend(program, State(false, None));
    }
  }
}
