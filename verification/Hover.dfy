/** The markers that stand for the :hover pseudo-class. src/client/sandbox/event/hover.ts */
module Hover {
  import opened Prelude

  /** A tree of elements and the documents or fragments that hold them; a parent has a smaller number
      than its children. */
  datatype Tree = Tree(parent: seq<Option<nat>>, isElement: seq<bool>)

  predicate IsTree(t: Tree) {
    && |t.parent| == |t.isElement|
    && (forall x :: 0 <= x < |t.parent| ==> t.parent[x].Some? ==> t.parent[x].value < x)
    && (forall x :: 0 <= x < |t.parent| ==> !t.isElement[x] ==> t.parent[x].None?)
  }

  /** Node.contains: a is x or an ancestor of it. */
  predicate Contains(t: Tree, a: nat, x: nat)
    requires IsTree(t) && x < |t.parent|
    decreases x
  {
    a == x || (t.parent[x].Some? && Contains(t, a, t.parent[x].value))
  }

  /** The elements from x upwards. */
  function Path(t: Tree, x: nat): (r: set<nat>)
    requires IsTree(t) && x < |t.parent|
    ensures forall y :: y in r ==> y <= x
    decreases x
  {
    if !t.isElement[x] then {}
    else {x} + if t.parent[x].Some? then Path(t, t.parent[x].value) else {}
  }

  function PathOf(t: Tree, x: Option<nat>): set<nat>
    requires IsTree(t) && (x.Some? ==> x.value < |t.parent|)
  {
    if x.Some? then Path(t, x.value) else {}
  }

  lemma {:induction false} ContainsInPath(t: Tree, a: nat, x: nat)
    requires IsTree(t) && x < |t.parent| && Contains(t, a, x)
    ensures a <= x && (t.isElement[a] ==> a in Path(t, x)) && Path(t, a) <= Path(t, x)
    decreases x
  {
    if a != x { ContainsInPath(t, a, t.parent[x].value); }
  }

  lemma {:induction false} PathContains(t: Tree, a: nat, x: nat)
    requires IsTree(t) && x < |t.parent| && a in Path(t, x)
    ensures Contains(t, a, x) && t.isElement[a]
    decreases x
  {
    if a != x { PathContains(t, a, t.parent[x].value); }
  }

  /** Of two elements of a path the one with the smaller number is above the other. */
  lemma {:induction false} PathAbove(t: Tree, a: nat, b: nat, x: nat)
    requires IsTree(t) && x < |t.parent| && a in Path(t, x) && b in Path(t, x) && b <= a
    ensures b in Path(t, a)
    decreases x
  {
    if a != x { PathAbove(t, a, b, t.parent[x].value); }
  }

  // ---------------------------------------------------------------- the simple form

  /** The marked elements, whether hovering is suspended, and the element hovered last. */
  datatype State = State(marks: set<nat>, hoverFixed: bool, last: Option<nat>)

  datatype Event = Enter(el: nat, shadowUi: bool) | Fix | Free

  /** Clear all markers and mark the path of the hovered element. */
  function Next(t: Tree, s: State, e: Event): State
    requires IsTree(t) && (e.Enter? ==> e.el < |t.parent|)
  {
    match e
    case Enter(el, shadowUi) => if s.hoverFixed || shadowUi then s else State(Path(t, el), s.hoverFixed, Some(el))
    case Fix => s.(hoverFixed := true)
    case Free => s.(hoverFixed := false)
  }

  /** The markers are those of the path of the element hovered last. */
  predicate Marked(t: Tree, s: State)
    requires IsTree(t)
  {
    (s.last.Some? ==> s.last.value < |t.parent|) && s.marks == PathOf(t, s.last)
  }

  // ---------------------------------------------------------------- the sandbox

  /** The writes after `before` are of the elements, each written once. */
  ghost predicate WrittenOnce(before: seq<nat>, after: seq<nat>, elements: set<nat>)
    decreases |after|
  {
    if after == before then elements == {} else
    && after != [] && after[|after| - 1] in elements
    && WrittenOnce(before, after[..|after| - 1], elements - {after[|after| - 1]})
  }

  lemma {:induction false} WrittenLonger(before: seq<nat>, after: seq<nat>, elements: set<nat>)
    requires WrittenOnce(before, after, elements)
    ensures before <= after
    decreases |after|
  {
    if after != before { WrittenLonger(before, after[..|after| - 1], elements - {after[|after| - 1]}); }
  }

  lemma WriteOne(before: seq<nat>, after: seq<nat>, elements: set<nat>, el: nat)
    requires WrittenOnce(before, after, elements) && el !in elements
    ensures WrittenOnce(before, after + [el], elements + {el})
  {
    WrittenLonger(before, after, elements);
    assert (after + [el])[..|after|] == after && elements + {el} - {el} == elements;
  }

  /** The element with the greatest number, if any. */
  function Lowest(elements: set<nat>): set<nat> {
    set x | x in elements && forall y :: y in elements ==> y <= x
  }

  /** The writes of one hover, first to clear and then to mark: every element of one path only is written
      once, the lowest common one in both rounds. */
  ghost predicate HoverWrites(a: seq<nat>, c: seq<nat>, before: set<nat>, after: set<nat>) {
    exists b :: WrittenOnce(a, b, before - after + Lowest(before * after)) && WrittenOnce(b, c, after - before + Lowest(before * after))
  }

  lemma BothWritten(a: seq<nat>, b: seq<nat>, c: seq<nat>, before: set<nat>, after: set<nat>, common: set<nat>, lowest: set<nat>, cleared: set<nat>)
    requires common == before * after && lowest == Lowest(common) && lowest <= common
    requires cleared == before - (common - lowest) && WrittenOnce(a, b, cleared)
    requires WrittenOnce(b, c, after - common + lowest)
    ensures HoverWrites(a, c, before, after)
  {
    assert cleared == before - after + lowest && after - common + lowest == after - before + lowest;
  }

  class HoverSandbox {
    const tree: Tree
    /** The elements with the marker attribute. */
    var marks: set<nat>
    /** The elements whose attribute was set or removed, one after the other. */
    var writes: seq<nat>
    var hoverElementFixed: bool
    var lastHoveredElement: Option<nat>

    function Fields(): State
      reads this
    {
      State(marks, hoverElementFixed, lastHoveredElement)
    }

    constructor (tree: Tree)
      ensures this.tree == tree && Fields() == State({}, false, None) && writes == []
    {
      this.tree := tree;
      marks, writes, hoverElementFixed, lastHoveredElement := {}, [], false, None;
    }

    method SetAttribute(el: nat)
      modifies `marks, `writes
      ensures marks == old(marks) + {el} && writes == old(writes) + [el]
    {
      marks := marks + {el};
      writes := writes + [el];
    }

    method RemoveAttribute(el: nat)
      modifies `marks, `writes
      ensures marks == old(marks) - {el} && writes == old(writes) + [el]
    {
      marks := marks - {el};
      writes := writes + [el];
    }

    /** _clearHoverMarkerUntilJointParent */
    method ClearHoverMarkerUntilJointParent(newHoveredElement: nat) returns (jointParent: Option<nat>)
      requires IsTree(tree) && newHoveredElement < |tree.parent| && Marked(tree, Fields())
      modifies `marks, `writes
      ensures jointParent.Some? ==>
                && jointParent.value < |tree.parent| && jointParent.value in PathOf(tree, lastHoveredElement)
                && Contains(tree, jointParent.value, newHoveredElement)
                && (forall y :: y in PathOf(tree, lastHoveredElement) && y > jointParent.value ==> !Contains(tree, y, newHoveredElement))
                && marks == Path(tree, jointParent.value) - {jointParent.value}
                && WrittenOnce(old(writes), writes, PathOf(tree, lastHoveredElement) - marks)
      ensures jointParent.None? ==>
                && marks == {} && WrittenOnce(old(writes), writes, PathOf(tree, lastHoveredElement))
                && forall y :: y in PathOf(tree, lastHoveredElement) ==> !Contains(tree, y, newHoveredElement)
    {
      jointParent := None;
      ghost var all := PathOf(tree, lastHoveredElement);
      if lastHoveredElement.Some? {
        var el: Option<nat> := lastHoveredElement;
        while el.Some? && tree.isElement[el.value] && jointParent.None?
          invariant el.Some? ==> el.value < |tree.parent|
          invariant PathOf(tree, el) <= all && (jointParent.Some? ==> jointParent == el && el.value in all)
          invariant marks == PathOf(tree, el) && WrittenOnce(old(writes), writes, all - PathOf(tree, el))
          invariant forall y :: y in all - PathOf(tree, el) ==> !Contains(tree, y, newHoveredElement)
          invariant jointParent.Some? ==> Contains(tree, jointParent.value, newHoveredElement)
          decreases if el.Some? then el.value + 1 else 0, jointParent.None?
        {
          if !Contains(tree, el.value, newHoveredElement) {
            Upwards(tree, el.value, all);
            WriteOne(old(writes), writes, all - PathOf(tree, el), el.value);
            RemoveAttribute(el.value);
            el := tree.parent[el.value];
          } else {
            jointParent := el;
          }
        }
        if jointParent.Some? {
          Upwards(tree, jointParent.value, all);
          WriteOne(old(writes), writes, all - PathOf(tree, jointParent), jointParent.value);
          RemoveAttribute(jointParent.value);
          assert all - marks == (all - PathOf(tree, jointParent)) + {jointParent.value};
        } else {
          assert all - PathOf(tree, el) == all;
        }
      }
    }

    /** _setHoverMarker */
    method SetHoverMarker(newHoveredElement: nat, jointParent: Option<nat>)
      requires IsTree(tree) && newHoveredElement < |tree.parent|
      requires jointParent.Some? ==> jointParent.value < |tree.parent| && Contains(tree, jointParent.value, newHoveredElement)
                                     && tree.isElement[jointParent.value]
      modifies `marks, `writes
      ensures var added := Path(tree, newHoveredElement) - PathOf(tree, jointParent) + if jointParent.Some? then {jointParent.value} else {};
              marks == old(marks) + added && WrittenOnce(old(writes), writes, added)
    {
      ghost var all, done := Path(tree, newHoveredElement), {};
      if jointParent.Some? {
        WriteOne(old(writes), writes, {}, jointParent.value);
        done := done + {jointParent.value};
        SetAttribute(jointParent.value);
        ContainsInPath(tree, jointParent.value, newHoveredElement);
      }
      ghost var joint := done;
      var el: Option<nat> := Some(newHoveredElement);
      while el.Some? && tree.isElement[el.value] && el != jointParent
        invariant el.Some? ==> el.value < |tree.parent|
        invariant PathOf(tree, el) <= all
        invariant jointParent.Some? ==> el.Some? && Contains(tree, jointParent.value, el.value) && jointParent.value in PathOf(tree, el)
        invariant done == joint + (all - PathOf(tree, el))
        invariant marks == old(marks) + done && WrittenOnce(old(writes), writes, done)
        decreases if el.Some? then el.value + 1 else 0
      {
        Upwards(tree, el.value, all);
        WriteOne(old(writes), writes, done, el.value);
        done := done + {el.value};
        SetAttribute(el.value);
        el := tree.parent[el.value];
      }
      assert PathOf(tree, el) == PathOf(tree, jointParent);
      assert done == Path(tree, newHoveredElement) - PathOf(tree, jointParent) + if jointParent.Some? then {jointParent.value} else {};
    }

    /** _hover: it agrees with clearing all markers and marking the new path. Every element of one path only
        is written once, the lowest common one twice, and nothing else. */
    method DoHover(el: nat, isShadowUi: bool)
      requires IsTree(tree) && el < |tree.parent| && Marked(tree, Fields())
      modifies this
      ensures Fields() == Next(tree, old(Fields()), Enter(el, isShadowUi)) && Marked(tree, Fields())
      ensures hoverElementFixed || isShadowUi ==> writes == old(writes)
      ensures !hoverElementFixed && !isShadowUi ==> HoverWrites(old(writes), writes, PathOf(tree, old(lastHoveredElement)), Path(tree, el))
    {
      if !hoverElementFixed && !isShadowUi {
        ghost var before, after := PathOf(tree, lastHoveredElement), Path(tree, el);
        var jointParent := ClearHoverMarkerUntilJointParent(el);
        ghost var cleared, between := before - marks, writes;
        if jointParent.Some? {
          PathContains(tree, jointParent.value, lastHoveredElement.value);
          ContainsInPath(tree, jointParent.value, lastHoveredElement.value);
          ContainsInPath(tree, jointParent.value, el);
        } else {
          assert cleared == before;
        }
        JointIsLowest(tree, before, el, jointParent);
        CommonPath(tree, before, lastHoveredElement, el, jointParent);
        SetHoverMarker(el, jointParent);
        lastHoveredElement := Some(el);
        ghost var common, lowest := PathOf(tree, jointParent), if jointParent.Some? then {jointParent.value} else {};
        assert cleared == before - (common - lowest);
        BothWritten(old(writes), between, writes, before, after, common, lowest, cleared);
      }
    }

    method FixHoveredElement()
      modifies `hoverElementFixed
      ensures Fields() == old(Fields()).(hoverFixed := true)
    {
      hoverElementFixed := true;
    }

    method FreeHoveredElement()
      modifies `hoverElementFixed
      ensures Fields() == old(Fields()).(hoverFixed := false)
    {
      hoverElementFixed := false;
    }
  }

  /** An element of a path is the path from it upwards without that from its parent. */
  lemma Upwards(t: Tree, x: nat, all: set<nat>)
    requires IsTree(t) && x < |t.parent| && t.isElement[x] && Path(t, x) <= all
    ensures x !in all - Path(t, x) && x !in PathOf(t, t.parent[x])
    ensures all - PathOf(t, t.parent[x]) == (all - Path(t, x)) + {x}
    ensures all - (Path(t, x) - {x}) == (all - Path(t, x)) + {x}
  {
  }

  /** The common elements of the two paths are the path of the joint parent. */
  lemma CommonPath(t: Tree, before: set<nat>, last: Option<nat>, el: nat, joint: Option<nat>)
    requires IsTree(t) && el < |t.parent| && (last.Some? ==> last.value < |t.parent|) && before == PathOf(t, last)
    requires joint.Some? ==> joint.value in before && joint.value in Path(t, el)
    requires forall y :: y in before * Path(t, el) ==> joint.Some? && y <= joint.value
    ensures joint.Some? ==> joint.value < |t.parent| && before * Path(t, el) == Path(t, joint.value)
    ensures joint.None? ==> before * Path(t, el) == {}
    ensures Lowest(before * Path(t, el)) == if joint.Some? then {joint.value} else {}
  {
    if joint.Some? {
      PathContains(t, joint.value, el);
      ContainsInPath(t, joint.value, el);
      PathContains(t, joint.value, last.value);
      ContainsInPath(t, joint.value, last.value);
      forall y | y in before * Path(t, el) ensures y in Path(t, joint.value) { PathAbove(t, joint.value, y, el); }
    }
  }

  /** What is below the joint parent is not on both paths. */
  lemma JointIsLowest(t: Tree, before: set<nat>, el: nat, joint: Option<nat>)
    requires IsTree(t) && el < |t.parent|
    requires forall y :: y in before && (joint.Some? ==> y > joint.value) ==> !Contains(t, y, el)
    ensures forall y :: y in before * Path(t, el) ==> joint.Some? && y <= joint.value
  {
    forall y | y in before * Path(t, el) ensures joint.Some? && y <= joint.value {
      PathContains(t, y, el);
    }
  }

  // ---------------------------------------------------------------- runs

  predicate IsEvents(t: Tree, events: seq<Event>) {
    forall e :: e in events && e.Enter? ==> e.el < |t.parent|
  }

  function Run(t: Tree, events: seq<Event>): State
    requires IsTree(t) && IsEvents(t, events)
  {
    if events == [] then State({}, false, None) else
    assert events[|events| - 1] in events;
    Next(t, Run(t, events[..|events| - 1]), events[|events| - 1])
  }

  /** The element that was hovered last while hovering was free. */
  function LastFree(t: Tree, events: seq<Event>, hoverFixed: bool, last: Option<nat>): Option<nat>
    decreases |events|
  {
    if events == [] then last else
    match events[0]
    case Enter(el, shadowUi) => LastFree(t, events[1..], hoverFixed, if hoverFixed || shadowUi then last else Some(el))
    case Fix => LastFree(t, events[1..], true, last)
    case Free => LastFree(t, events[1..], false, last)
  }

  lemma {:induction false} LastFreeAppend(t: Tree, events: seq<Event>, e: Event, hoverFixed: bool, last: Option<nat>, s: State)
    requires IsTree(t) && IsEvents(t, events + [e])
    requires s.last == LastFree(t, events, hoverFixed, last) && s.hoverFixed == FixedAfter(events, hoverFixed)
    ensures e in events + [e]
    ensures Next(t, s, e).last == LastFree(t, events + [e], hoverFixed, last) && Next(t, s, e).hoverFixed == FixedAfter(events + [e], hoverFixed)
    decreases |events|
  {
    assert (events + [e])[|events|] == e;
    if events == [] {
      assert events + [e] == [e] && [e][1..] == [];
    } else {
      assert (events + [e])[1..] == events[1..] + [e] && (events + [e])[0] == events[0];
      var f := match events[0] case Enter(_, _) => hoverFixed case Fix => true case Free => false;
      var l := if events[0].Enter? && !hoverFixed && !events[0].shadowUi then Some(events[0].el) else last;
      assert IsEvents(t, events[1..] + [e]) by {
        forall x | x in events[1..] + [e] ensures x in events + [e] { }
      }
      LastFreeAppend(t, events[1..], e, f, l, s);
    }
  }

  function FixedAfter(events: seq<Event>, hoverFixed: bool): bool
    decreases |events|
  {
    if events == [] then hoverFixed else
    FixedAfter(events[1..], match events[0] case Enter(_, _) => hoverFixed case Fix => true case Free => false)
  }

  /** After any events the marked elements are exactly the path of the element that was hovered last
      while hovering was not suspended, shadow UI elements apart. */
  lemma {:induction false} MarksFollowHover(t: Tree, events: seq<Event>)
    requires IsTree(t) && IsEvents(t, events)
    ensures var s := Run(t, events);
            s.last == LastFree(t, events, false, None) && s.hoverFixed == FixedAfter(events, false) && Marked(t, s)
  {
    if events != [] {
      var init, e := events[..|events| - 1], events[|events| - 1];
      assert events == init + [e];
      assert e in events;
      assert IsEvents(t, init) by { forall x | x in init ensures x in events { } }
      MarksFollowHover(t, init);
      LastFreeAppend(t, init, e, false, None, Run(t, init));
    }
  }
}
