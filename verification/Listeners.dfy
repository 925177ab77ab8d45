/** The tables of event listeners of one element and event beside the native list of listeners.
    src/client/sandbox/event/listeners.ts, src/client/sandbox/event/listening-context.ts */
module Listeners {
  import opened Prelude

  // ---------------------------------------------------------------- native listeners

  /** The functions in a native list: the dispatcher of the internal handlers that come first, an internal
      handler that comes last, or the wrapper of a listener of the page. */
  datatype Callback = Dispatcher | Internal(id: nat) | Wrapper(serial: nat, fn: nat)

  datatype Listener = Listener(callback: Callback, capture: bool)

  /** EventTarget.addEventListener (DOM Standard section 2.7): a listener is in the list once. */
  function NativeAdd<T(==)>(list: seq<T>, l: T): seq<T> {
    if l in list then list else list + [l]
  }

  function NativeRemove<T(==)>(list: seq<T>, l: T): seq<T> {
    if list == [] then [] else if list[0] == l then list[1..] else [list[0]] + NativeRemove(list[1..], l)
  }

  // ---------------------------------------------------------------- the tables

  datatype Outer = Outer(fn: nat, useCapture: bool)

  /** The tables of an element and event, the native list, and the number of wrappers made. */
  datatype Context = Context(outerHandlers: seq<Outer>, wrappers: seq<Callback>, internalAfterHandlers: seq<Callback>,
                             native: seq<Listener>, made: nat)

  /** After initElementListening of an element without listeners. */
  const INITIAL := Context([], [], [], [Listener(Dispatcher, true)], 0)

  function HandlerIndex(outer: seq<Outer>, o: Outer): (i: nat)
    ensures i <= |outer| && (i < |outer| ==> outer[i] == o) && (forall j :: 0 <= j < i ==> outer[j] != o)
  {
    if outer == [] || outer[0] == o then 0 else 1 + HandlerIndex(outer[1..], o)
  }

  /** updateInternalAfterHandlers: each handler is moved to the end. */
  function MoveToEnd(native: seq<Listener>, handlers: seq<Callback>): seq<Listener>
    decreases |handlers|
  {
    if handlers == [] then native else
    var l := Listener(handlers[0], false);
    MoveToEnd(NativeAdd(NativeRemove(native, l), l), handlers[1..])
  }

  /** The overridden addEventListener. */
  function Add(c: Context, o: Outer): Context {
    if o in c.outerHandlers then c else
    var wrapper := Wrapper(c.made, o.fn);
    Context(c.outerHandlers + [o], c.wrappers + [wrapper], c.internalAfterHandlers,
            MoveToEnd(NativeAdd(c.native, Listener(wrapper, o.useCapture)), c.internalAfterHandlers), c.made + 1)
  }

  /** The overridden removeEventListener; without a wrapper the native method gets null. */
  function Remove(c: Context, o: Outer): Context {
    var i := HandlerIndex(c.outerHandlers, o);
    if i >= |c.outerHandlers| || i >= |c.wrappers| then c else
    c.(outerHandlers := Without(c.outerHandlers, i), wrappers := Without(c.wrappers, i),
       native := NativeRemove(c.native, Listener(c.wrappers[i], o.useCapture)))
  }

  /** addInternalAfterHandler */
  function AddAfter(c: Context, handler: Callback): Context {
    c.(internalAfterHandlers := [handler] + c.internalAfterHandlers, native := NativeAdd(c.native, Listener(handler, false)))
  }

  class EventContext {
    var outerHandlers: seq<Outer>
    var wrappers: seq<Callback>
    var internalAfterHandlers: seq<Callback>
    var native: seq<Listener>
    var made: nat

    function Fields(): Context
      reads this
    {
      Context(outerHandlers, wrappers, internalAfterHandlers, native, made)
    }

    constructor ()
      ensures Fields() == INITIAL
    {
      outerHandlers, wrappers, internalAfterHandlers, native, made := [], [], [], [Listener(Dispatcher, true)], 0;
    }

    method IsDifferentHandler(o: Outer) returns (different: bool)
      ensures different == (o !in outerHandlers)
    {
      var i := 0;
      while i < |outerHandlers|
        invariant 0 <= i <= |outerHandlers| && o !in outerHandlers[..i]
      {
        if outerHandlers[i] == o {
          return false;
        }
        assert outerHandlers[..i + 1] == outerHandlers[..i] + [outerHandlers[i]];
        i := i + 1;
      }
      assert outerHandlers[..i] == outerHandlers;
      return true;
    }

    method WrapEventListener(o: Outer, wrapper: Callback)
      modifies `outerHandlers, `wrappers
      ensures outerHandlers == old(outerHandlers) + [o] && wrappers == old(wrappers) + [wrapper]
    {
      outerHandlers := outerHandlers + [o];
      wrappers := wrappers + [wrapper];
    }

    method UpdateInternalAfterHandlers()
      modifies `native
      ensures native == MoveToEnd(old(native), internalAfterHandlers)
    {
      var i := 0;
      assert internalAfterHandlers[0..] == internalAfterHandlers;
      while i < |internalAfterHandlers|
        invariant 0 <= i <= |internalAfterHandlers|
        invariant MoveToEnd(native, internalAfterHandlers[i..]) == MoveToEnd(old(native), internalAfterHandlers)
      {
        var l := Listener(internalAfterHandlers[i], false);
        assert internalAfterHandlers[i..][1..] == internalAfterHandlers[i + 1..];
        native := NativeRemove(native, l);
        native := NativeAdd(native, l);
        i := i + 1;
      }
      assert internalAfterHandlers[i..] == [];
    }

    method AddEventListener(fn: nat, useCapture: bool)
      modifies this
      ensures Fields() == Add(old(Fields()), Outer(fn, useCapture))
    {
      var isDifferentHandler := IsDifferentHandler(Outer(fn, useCapture));
      if !isDifferentHandler {
        return;
      }
      var wrapper := Wrapper(made, fn);
      made := made + 1;
      WrapEventListener(Outer(fn, useCapture), wrapper);
      native := NativeAdd(native, Listener(wrapper, useCapture));
      UpdateInternalAfterHandlers();
    }

    /** getWrapper takes the wrapper out of the tables. */
    method GetWrapper(o: Outer) returns (wrapper: Option<Callback>)
      requires |outerHandlers| == |wrappers|
      modifies `outerHandlers, `wrappers
      ensures var i := HandlerIndex(old(outerHandlers), o);
              if i < |old(outerHandlers)|
              then wrapper == Some(old(wrappers)[i]) && outerHandlers == Without(old(outerHandlers), i) && wrappers == Without(old(wrappers), i)
              else wrapper == None && outerHandlers == old(outerHandlers) && wrappers == old(wrappers)
    {
      var i := 0;
      while i < |outerHandlers|
        invariant 0 <= i <= |outerHandlers| && i <= HandlerIndex(outerHandlers, o)
        invariant outerHandlers == old(outerHandlers) && wrappers == old(wrappers)
      {
        if outerHandlers[i] == o {
          wrapper := Some(wrappers[i]);
          wrappers := wrappers[..i] + wrappers[i + 1..];
          outerHandlers := outerHandlers[..i] + outerHandlers[i + 1..];
          return;
        }
        i := i + 1;
      }
      return None;
    }

    method RemoveEventListener(fn: nat, useCapture: bool)
      requires |outerHandlers| == |wrappers|
      modifies this
      ensures Fields() == Remove(old(Fields()), Outer(fn, useCapture))
    {
      var wrapper := GetWrapper(Outer(fn, useCapture));
      if wrapper.Some? {
        native := NativeRemove(native, Listener(wrapper.value, useCapture));
      }
    }

    method AddInternalAfterHandler(handler: Callback)
      modifies this
      ensures Fields() == AddAfter(old(Fields()), handler)
    {
      internalAfterHandlers := [handler] + internalAfterHandlers;
      native := NativeAdd(native, Listener(handler, false));
    }
  }

  // ---------------------------------------------------------------- the invariant

  predicate DistinctList<T(==)>(list: seq<T>) {
    forall i, j :: 0 <= i < j < |list| ==> list[i] != list[j]
  }

  /** The native listeners of the wrappers. */
  function Wrapped(c: Context): seq<Listener>
    requires |c.outerHandlers| == |c.wrappers|
  {
    seq(|c.wrappers|, i requires 0 <= i < |c.wrappers| => Listener(c.wrappers[i], c.outerHandlers[i].useCapture))
  }

  /** The listeners at the end: the internal handlers. */
  ghost predicate IsTail(tail: seq<Listener>, handlers: seq<Callback>) {
    && DistinctList(tail)
    && forall l :: l in tail <==> !l.capture && l.callback in handlers
  }

  /** The tables are parallel, without repetitions, and match the native list one to one and in order;
      the internal handlers come after every wrapper. */
  ghost predicate Inv(c: Context) {
    && |c.outerHandlers| == |c.wrappers| && DistinctList(c.outerHandlers) && DistinctList(c.wrappers)
    && (forall i :: 0 <= i < |c.wrappers| ==>
          c.wrappers[i].Wrapper? && c.wrappers[i].fn == c.outerHandlers[i].fn && c.wrappers[i].serial < c.made)
    && (forall h :: h in c.internalAfterHandlers ==> h.Internal?)
    && var n := 1 + |c.wrappers|;
       && |c.native| >= n && c.native[..n] == [Listener(Dispatcher, true)] + Wrapped(c)
       && IsTail(c.native[n..], c.internalAfterHandlers)
  }

  lemma {:induction false} RemoveConcat<T>(a: seq<T>, b: seq<T>, l: T)
    ensures NativeRemove(a + b, l) == if l in a then NativeRemove(a, l) + b else a + NativeRemove(b, l)
  {
    if a == [] {
      assert a + b == b;
    } else {
      assert (a + b)[1..] == a[1..] + b;
      RemoveConcat(a[1..], b, l);
      assert a == [a[0]] + a[1..];
    }
  }

  lemma {:induction false} RemoveAt<T>(list: seq<T>, i: nat)
    requires i < |list| && DistinctList(list)
    ensures NativeRemove(list, list[i]) == Without(list, i)
  {
    if i > 0 {
      assert list[0] != list[i];
      RemoveAt(list[1..], i - 1);
      assert list[..i] == [list[0]] + list[1..][..i - 1];
    }
  }

  lemma Member<T>(list: seq<T>, i: nat)
    requires i < |list|
    ensures list[i] in list
  {
  }

  lemma {:induction false} RemoveKeeps<T>(list: seq<T>, l: T)
    requires DistinctList(list)
    ensures DistinctList(NativeRemove(list, l))
    ensures forall x :: x in NativeRemove(list, l) <==> x in list && x != l
  {
    if list != [] {
      var rest := list[1..];
      RemoveKeeps(rest, l);
      assert list == [list[0]] + rest;
      forall x | x in rest ensures x != list[0] {
        var j :| 0 <= j < |rest| && rest[j] == x;
        assert list[j + 1] == x;
      }
      if list[0] != l {
        var r := NativeRemove(rest, l);
        forall j | 0 <= j < |r| ensures list[0] != r[j] {
          Member(r, j);
        }
      }
    }
  }

  lemma AppendDistinct<T>(list: seq<T>, l: T)
    requires DistinctList(list) && l !in list
    ensures DistinctList(list + [l])
  {
  }

  // ---------------------------------------------------------------- moving to the end

  /** The handlers that are still to be moved, the new wrapper, and those that were. */
  ghost predicate Moving(front: seq<Listener>, w: Listener, moved: seq<Listener>) {
    && DistinctList(front) && DistinctList(moved) && w !in front && w !in moved
    && forall l :: l in front ==> l !in moved
  }

  lemma RemoveTail(front: seq<Listener>, w: Listener, moved: seq<Listener>, l: Listener)
    requires l != w && (l in front ==> l !in moved)
    ensures NativeRemove(front + ([w] + moved), l) == NativeRemove(front, l) + ([w] + NativeRemove(moved, l))
  {
    RemoveConcat(front, [w] + moved, l);
    RemoveConcat([w], moved, l);
    RemoveAbsent(front, l);
    RemoveAbsent(moved, l);
  }

  lemma Regroup(head: seq<Listener>, front: seq<Listener>, w: Listener, moved: seq<Listener>)
    ensures head + front + [w] + moved == head + (front + ([w] + moved))
  {
  }

  lemma RemoveInList(head: seq<Listener>, front: seq<Listener>, w: Listener, moved: seq<Listener>, l: Listener)
    requires l !in head && l != w && (l in front ==> l !in moved)
    ensures NativeRemove(head + front + [w] + moved, l) == head + NativeRemove(front, l) + [w] + NativeRemove(moved, l)
  {
    Regroup(head, front, w, moved);
    RemoveConcat(head, front + ([w] + moved), l);
    RemoveTail(front, w, moved, l);
    Regroup(head, NativeRemove(front, l), w, NativeRemove(moved, l));
  }

  lemma AddBack(head: seq<Listener>, f: seq<Listener>, w: Listener, m: seq<Listener>, l: Listener)
    requires l !in head && l !in f && l != w && l !in m
    ensures NativeAdd(head + f + [w] + m, l) == head + f + [w] + (m + [l])
  {
    assert l !in head + f + [w] + m;
    assert (head + f + [w] + m) + [l] == head + f + [w] + (m + [l]);
  }

  lemma MoveInList(head: seq<Listener>, front: seq<Listener>, w: Listener, moved: seq<Listener>, l: Listener)
    requires l !in head && l != w && (l in front ==> l !in moved) && DistinctList(front) && DistinctList(moved)
    ensures NativeAdd(NativeRemove(head + front + [w] + moved, l), l)
         == head + NativeRemove(front, l) + [w] + (NativeRemove(moved, l) + [l])
  {
    RemoveInList(head, front, w, moved, l);
    RemoveKeeps(front, l);
    RemoveKeeps(moved, l);
    AddBack(head, NativeRemove(front, l), w, NativeRemove(moved, l), l);
  }

  /** The handlers that were moved, each to the end. */
  function Moved(moved: seq<Listener>, handlers: seq<Callback>): seq<Listener>
    decreases |handlers|
  {
    if handlers == [] then moved else
    var l := Listener(handlers[0], false);
    Moved(NativeRemove(moved, l) + [l], handlers[1..])
  }

  /** Moving one handler behind the wrapper. */
  lemma MoveOne(head: seq<Listener>, front: seq<Listener>, w: Listener, moved: seq<Listener>, l: Listener)
    returns (front': seq<Listener>, moved': seq<Listener>)
    requires Moving(front, w, moved) && l !in head && l != w
    ensures Moving(front', w, moved')
    ensures NativeAdd(NativeRemove(head + front + [w] + moved, l), l) == head + front' + [w] + moved'
    ensures moved' == NativeRemove(moved, l) + [l]
    ensures (forall x :: x in front' <==> x in front && x != l) && (forall x :: x in moved' <==> x in moved || x == l)
  {
    front', moved' := NativeRemove(front, l), NativeRemove(moved, l) + [l];
    MoveInList(head, front, w, moved, l);
    RemoveKeeps(front, l);
    RemoveKeeps(moved, l);
    AppendDistinct(NativeRemove(moved, l), l);
  }

  lemma {:induction false} RemoveAbsent<T>(list: seq<T>, l: T)
    ensures l !in list ==> NativeRemove(list, l) == list
  {
    if list != [] {
      RemoveAbsent(list[1..], l);
      assert list == [list[0]] + list[1..];
    }
  }

  lemma {:induction false} MoveAll(head: seq<Listener>, front: seq<Listener>, w: Listener, moved: seq<Listener>, handlers: seq<Callback>)
    returns (front': seq<Listener>, moved': seq<Listener>)
    requires Moving(front, w, moved)
    requires forall h :: h in handlers ==> Listener(h, false) !in head && Listener(h, false) != w
    ensures Moving(front', w, moved')
    ensures MoveToEnd(head + front + [w] + moved, handlers) == head + front' + [w] + moved' && moved' == Moved(moved, handlers)
    ensures forall x :: x in front' <==> x in front && (x.capture || x.callback !in handlers)
    ensures forall x :: x in moved' <==> x in moved || (!x.capture && x.callback in handlers)
    decreases |handlers|
  {
    if handlers == [] {
      front', moved' := front, moved;
    } else {
      var l := Listener(handlers[0], false);
      assert handlers[0] in handlers;
      var f, m := MoveOne(head, front, w, moved, l);
      front', moved' := MoveAll(head, f, w, m, handlers[1..]);
      assert handlers == [handlers[0]] + handlers[1..];
    }
  }

  // ---------------------------------------------------------------- steps keep the invariant

  lemma InitialInv()
    ensures Inv(INITIAL)
  {
    assert Wrapped(INITIAL) == [];
    assert INITIAL.native[..1] == [Listener(Dispatcher, true)] + [];
    assert INITIAL.native[1..] == [];
  }

  function Head(c: Context): seq<Listener>
    requires |c.outerHandlers| == |c.wrappers|
  {
    [Listener(Dispatcher, true)] + Wrapped(c)
  }

  lemma EmptyList(list: seq<Listener>)
    requires forall l :: l !in list
    ensures list == []
  {
    if list != [] { Member(list, 0); }
  }

  /** A new listener of the page comes behind the others and before all internal handlers. */
  lemma AddedNative(c: Context, o: Outer) returns (moved: seq<Listener>)
    requires Inv(c) && o !in c.outerHandlers
    ensures Add(c, o).native == (Head(c) + [Listener(Wrapper(c.made, o.fn), o.useCapture)]) + moved
    ensures moved == Moved([], c.internalAfterHandlers) && IsTail(moved, c.internalAfterHandlers)
  {
    var n := 1 + |c.wrappers|;
    var w, head, tail := Listener(Wrapper(c.made, o.fn), o.useCapture), Head(c), c.native[n..];
    assert c.native == head + tail;
    assert w !in head && w !in tail;
    assert c.native + [w] == head + tail + [w] + [];
    forall h | h in c.internalAfterHandlers ensures Listener(h, false) !in head && Listener(h, false) != w {
      assert h.Internal?;
    }
    var front: seq<Listener>;
    front, moved := MoveAll(head, tail, w, [], c.internalAfterHandlers);
    EmptyList(front);
    assert Add(c, o).native == (head + [w]) + moved;
  }

  lemma AddInv(c: Context, o: Outer)
    requires Inv(c)
    ensures Inv(Add(c, o))
  {
    if o !in c.outerHandlers {
      var c', n := Add(c, o), 1 + |c.wrappers|;
      var w, head := Listener(Wrapper(c.made, o.fn), o.useCapture), Head(c);
      var moved := AddedNative(c, o);
      AppendDistinct(c.outerHandlers, o);
      AppendDistinct(c.wrappers, w.callback);
      assert Wrapped(c') == Wrapped(c) + [w];
      assert c'.native[..n + 1] == head + [w] && c'.native[n + 1..] == moved;
    }
  }

  lemma WithoutDistinct<T>(list: seq<T>, i: nat)
    requires i < |list| && DistinctList(list)
    ensures DistinctList(Without(list, i))
  {
  }

  lemma RemoveFromHead(c: Context, i: nat)
    requires Inv(c) && i < |c.wrappers|
    ensures NativeRemove(Head(c), Wrapped(c)[i]) == [Listener(Dispatcher, true)] + Without(Wrapped(c), i)
    ensures Wrapped(c)[i] in Head(c)
  {
    var ws := Wrapped(c);
    assert DistinctList(ws) by {
      forall a, b | 0 <= a < b < |ws| ensures ws[a] != ws[b] { assert c.wrappers[a] != c.wrappers[b]; }
    }
    RemoveAt(ws, i);
    RemoveConcat([Listener(Dispatcher, true)], ws, ws[i]);
  }

  lemma RemovedInv(c: Context, c': Context, i: nat, tail: seq<Listener>)
    requires Inv(c) && i < |c.wrappers| && IsTail(tail, c.internalAfterHandlers)
    requires c'.outerHandlers == Without(c.outerHandlers, i) && c'.wrappers == Without(c.wrappers, i)
    requires DistinctList(c'.outerHandlers) && DistinctList(c'.wrappers)
    requires c'.internalAfterHandlers == c.internalAfterHandlers && c'.made == c.made
    requires c'.native == ([Listener(Dispatcher, true)] + Without(Wrapped(c), i)) + tail
    ensures Inv(c')
  {
    var head := [Listener(Dispatcher, true)] + Without(Wrapped(c), i);
    assert Wrapped(c') == Without(Wrapped(c), i);
    assert c'.native[..|c.wrappers|] == head && c'.native[|c.wrappers|..] == tail;
  }

  lemma RemoveInv(c: Context, o: Outer)
    requires Inv(c)
    ensures Inv(Remove(c, o))
  {
    var i := HandlerIndex(c.outerHandlers, o);
    if i < |c.outerHandlers| {
      var n, tail, ws := 1 + |c.wrappers|, c.native[1 + |c.wrappers|..], Wrapped(c);
      assert c.native == Head(c) + tail && ws[i] == Listener(c.wrappers[i], o.useCapture);
      RemoveFromHead(c, i);
      RemoveConcat(Head(c), tail, ws[i]);
      WithoutDistinct(c.outerHandlers, i);
      WithoutDistinct(c.wrappers, i);
      RemovedInv(c, Remove(c, o), i, tail);
    }
  }

  lemma AddAfterInv(c: Context, handler: Callback)
    requires Inv(c) && handler.Internal?
    ensures Inv(AddAfter(c, handler))
  {
    var c', n, l := AddAfter(c, handler), 1 + |c.wrappers|, Listener(handler, false);
    var head, tail := Head(c), c.native[n..];
    assert c.native == head + tail && l !in head;
    assert Wrapped(c') == Wrapped(c);
    if l in tail {
      assert l in c.native;
    } else {
      AppendDistinct(tail, l);
      assert c'.native == head + (tail + [l]);
    }
    assert c'.native[..n] == head && c'.native[n..] == if l in tail then tail else tail + [l];
  }

  // ---------------------------------------------------------------- runs

  datatype Step = AddListener(o: Outer) | RemoveListener(o: Outer) | AddInternal(id: nat)

  function Take(c: Context, s: Step): Context {
    match s
    case AddListener(o) => Add(c, o)
    case RemoveListener(o) => Remove(c, o)
    case AddInternal(id) => AddAfter(c, Internal(id))
  }

  function Run(steps: seq<Step>): Context {
    if steps == [] then INITIAL else Take(Run(steps[..|steps| - 1]), steps[|steps| - 1])
  }

  /** The listeners of a plain event target after the steps of the page. */
  function Plain(steps: seq<Step>): seq<Outer> {
    if steps == [] then [] else
    var before := Plain(steps[..|steps| - 1]);
    match steps[|steps| - 1]
    case AddListener(o) => NativeAdd(before, o)
    case RemoveListener(o) => NativeRemove(before, o)
    case AddInternal(_) => before
  }

  /** The listeners of the page that the native list calls, in order. */
  function PageListeners(native: seq<Listener>): seq<Outer> {
    if native == [] then [] else
    (if native[0].callback.Wrapper? then [Outer(native[0].callback.fn, native[0].capture)] else []) + PageListeners(native[1..])
  }

  lemma {:induction false} PageConcat(a: seq<Listener>, b: seq<Listener>)
    ensures PageListeners(a + b) == PageListeners(a) + PageListeners(b)
  {
    if a == [] {
      assert a + b == b;
      assert [] + PageListeners(b) == PageListeners(b);
    } else {
      var first := if a[0].callback.Wrapper? then [Outer(a[0].callback.fn, a[0].capture)] else [];
      var rest, last := PageListeners(a[1..]), PageListeners(b);
      PageConcat(a[1..], b);
      assert (a + b)[1..] == a[1..] + b;
      assert first + (rest + last) == (first + rest) + last;
    }
  }

  lemma {:induction false} NoPageListeners(list: seq<Listener>)
    requires forall l :: l in list ==> !l.callback.Wrapper?
    ensures PageListeners(list) == []
  {
    if list != [] {
      assert list[0] in list;
      NoPageListeners(list[1..]);
    }
  }

  lemma {:induction false} AllPageListeners(list: seq<Listener>, outer: seq<Outer>)
    requires |list| == |outer|
    requires forall i :: 0 <= i < |list| ==> list[i].callback.Wrapper? && list[i].callback.fn == outer[i].fn && list[i].capture == outer[i].useCapture
    ensures PageListeners(list) == outer
  {
    if list != [] {
      AllPageListeners(list[1..], outer[1..]);
      assert outer == [outer[0]] + outer[1..];
    }
  }

  lemma NativeCallsPage(c: Context)
    requires Inv(c)
    ensures PageListeners(c.native) == c.outerHandlers
  {
    var n := 1 + |c.wrappers|;
    var d, ws, tail := [Listener(Dispatcher, true)], Wrapped(c), c.native[n..];
    assert c.native == d + ws + tail;
    PageConcat(d + ws, tail);
    PageConcat(d, ws);
    NoPageListeners(d);
    NoPageListeners(tail);
    AllPageListeners(ws, c.outerHandlers);
    assert [] + c.outerHandlers + [] == c.outerHandlers;
  }

  lemma RemoveFirst(outer: seq<Outer>, o: Outer)
    requires DistinctList(outer)
    ensures var i := HandlerIndex(outer, o);
            NativeRemove(outer, o) == if i < |outer| then Without(outer, i) else outer
  {
    var i := HandlerIndex(outer, o);
    if i < |outer| { RemoveAt(outer, i); } else { RemoveAbsent(outer, o); }
  }

  /** In every run the tables and the native list stay in step, and the page has the listeners that a
      plain event target would have, in the same order. */
  lemma {:induction false} EveryRun(steps: seq<Step>)
    ensures Inv(Run(steps)) && Run(steps).outerHandlers == Plain(steps)
    ensures PageListeners(Run(steps).native) == Plain(steps)
  {
    if steps == [] {
      InitialInv();
    } else {
      var before := steps[..|steps| - 1];
      EveryRun(before);
      var c := Run(before);
      match steps[|steps| - 1]
      case AddListener(o) => AddInv(c, o);
      case RemoveListener(o) => RemoveInv(c, o); RemoveFirst(c.outerHandlers, o);
      case AddInternal(id) => AddAfterInv(c, Internal(id));
    }
    NativeCallsPage(Run(steps));
  }

  lemma HeadIsPage(c: Context, j: nat)
    requires Inv(c) && j <= |c.wrappers|
    ensures j < |c.native| && !c.native[j].callback.Internal?
  {
    assert c.native[..1 + |c.wrappers|][j] == c.native[j];
  }

  lemma TailIsInternal(c: Context, i: nat)
    requires Inv(c) && |c.wrappers| < i < |c.native|
    ensures c.native[i].callback.Internal?
  {
    var n := 1 + |c.wrappers|;
    assert c.native[n..][i - n] == c.native[i];
    assert c.native[n..][i - n] in c.native[n..];
  }

  /** Every internal handler comes after every listener of the page. */
  lemma InternalComesLast(steps: seq<Step>, i: nat, j: nat)
    requires i < |Run(steps).native| && j < |Run(steps).native|
    requires Run(steps).native[i].callback.Wrapper? && Run(steps).native[j].callback.Internal?
    ensures i < j
  {
    EveryRun(steps);
    var c := Run(steps);
    if j <= |c.wrappers| { HeadIsPage(c, j); }
    if i > |c.wrappers| { TailIsInternal(c, i); }
  }

  // ---------------------------------------------------------------- the order of the internal handlers

  /** A handler in front of the moved ones stays there, unless it is moved itself. */
  lemma {:induction false} MovedFront(l: Listener, moved: seq<Listener>, handlers: seq<Callback>)
    requires !l.capture && l !in moved
    ensures Moved([l] + moved, handlers) == if l.callback in handlers then Moved(moved, handlers) else [l] + Moved(moved, handlers)
    decreases |handlers|
  {
    if handlers != [] {
      var h, rest := Listener(handlers[0], false), handlers[1..];
      assert handlers == [handlers[0]] + rest;
      assert ([l] + moved)[1..] == moved;
      if h == l {
        RemoveAbsent(moved, l);
      } else {
        assert NativeRemove([l] + moved, h) == [l] + NativeRemove(moved, h);
        assert [l] + NativeRemove(moved, h) + [h] == [l] + (NativeRemove(moved, h) + [h]);
        RemoveKeepsOut(moved, h, l);
        MovedFront(l, NativeRemove(moved, h) + [h], rest);
      }
    }
  }

  lemma {:induction false} RemoveKeepsOut(list: seq<Listener>, h: Listener, l: Listener)
    requires l !in list
    ensures l !in NativeRemove(list, h)
  {
    if list != [] && list[0] != h { RemoveKeepsOut(list[1..], h, l); }
  }

  /** The internal handlers, a new one before those that were added earlier. */
  function InternalOrder(steps: seq<Step>): seq<nat> {
    if steps == [] then [] else
    var before := InternalOrder(steps[..|steps| - 1]);
    match steps[|steps| - 1]
    case AddInternal(id) => if id in before then before else [id] + before
    case _ => before
  }

  function AsListeners(ids: seq<nat>): seq<Listener> {
    seq(|ids|, i requires 0 <= i < |ids| => Listener(Internal(ids[i]), false))
  }

  ghost predicate Ordered(table: seq<Callback>, order: seq<nat>) {
    Moved([], table) == AsListeners(order) && forall id :: Internal(id) in table <==> id in order
  }

  lemma TableNext(table: seq<Callback>, order: seq<nat>, id: nat)
    requires Ordered(table, order)
    ensures Ordered([Internal(id)] + table, if id in order then order else [id] + order)
  {
    var l, table' := Listener(Internal(id), false), [Internal(id)] + table;
    assert table'[1..] == table && NativeRemove([], l) + [l] == [l] + [];
    MovedFront(l, [], table);
    assert AsListeners([id] + order) == [l] + AsListeners(order);
  }

  lemma {:induction false} TableOrder(steps: seq<Step>)
    ensures Ordered(Run(steps).internalAfterHandlers, InternalOrder(steps))
  {
    if steps != [] {
      var before, last := steps[..|steps| - 1], steps[|steps| - 1];
      TableOrder(before);
      if last.AddInternal? { TableNext(Run(before).internalAfterHandlers, InternalOrder(before), last.id); }
    }
  }

  /** When the page adds a new listener, the native list is the dispatcher, the listeners of the page in order, and the
      internal handlers, the one that was added last before the others. */
  lemma OrderAfterAdd(steps: seq<Step>, o: Outer)
    requires o !in Plain(steps)
    ensures var native, n := Run(steps + [AddListener(o)]).native, 2 + |Plain(steps)|;
            && |native| >= n && native[0] == Listener(Dispatcher, true)
            && PageListeners(native[1..n]) == Plain(steps) + [o]
            && native[n..] == AsListeners(InternalOrder(steps))
  {
    var c := Run(steps);
    EveryRun(steps);
    assert (steps + [AddListener(o)])[..|steps|] == steps;
    var w := Listener(Wrapper(c.made, o.fn), o.useCapture);
    var moved := AddedNative(c, o);
    TableOrder(steps);
    var native, n := Add(c, o).native, 2 + |Plain(steps)|;
    assert native[1..n] == Wrapped(c) + [w] && native[n..] == moved;
    AllPageListeners(Wrapped(c) + [w], c.outerHandlers + [o]);
  }
}
