/** Lowering a destructuring pattern preserves its meaning: what native destructuring does and what the
    lowered code does, side by side. */
module DestructuringMeaning {
  import opened Prelude
  import opened JsValues
  import opened TempNames
  import opened Destructuring
  import opened DestructuringWrites
  import opened DestructuringLax

  // ---------------------------------------------------------------- both side by side

  /** How far native destructuring and the lowered code go together: to the same store; to a throw of
      both; to a site where the native one throws and the code does not look; to a rest that excludes
      other properties because a key is not a string; or to a key that the code reads at another time. */
  datatype Outcome = Alike(store: Store) | Throws | Forgiven | Inexact | Differs

  datatype Progress = Going(store: Store, keys: seq<Value>) | Stopped(outcome: Outcome)

  ghost function Lockstep(h: Interp, p: Pattern, v: Value, s: Store): Outcome
    decreases p, 1, 0
  {
    match p
    case Target(x) => Alike(s[x := v])
    case AssignmentPattern(left, right) =>
      var w := DefaultOf(h, p, v, s);
      if w.None? then Throws else Lockstep(h, left, w.value, s)
    case ObjectPattern(props, rest) =>
      if Nullish(v) then (if props == [] && rest.None? then Forgiven else Throws)
      else if !HoistsEvaluate(h, p, s) then (if Bind(h, p, v, s, false).None? then Throws else Differs)
      else
        (match LockProps(h, p, 0, v, s, s, [])
         case Going(s1, ks) => LockRest(h, p, v, s, s1, ks)
         case Stopped(o) => o)
    case ArrayPattern(elems, tail) =>
      if Elements(v).None? then Forgiven else LockElems(h, p, 0, Elements(v).value, s)
  }

  ghost function LockProps(h: Interp, p: Pattern, i: nat, v: Value, s0: Store, s: Store, ks: seq<Value>): Progress
    requires p.ObjectPattern? && i <= |p.props|
    decreases p, 0, |p.props| - i
  {
    if i == |p.props| then Going(s, ks) else
    var k := KeyValue(h, p.props[i], s);
    var w := PropValue(h, p.props[i], false, v, s, s);
    if k != KeyAt(h, p.props[i], p.rest.Some?, s0, s) then Stopped(Differs)
    else if w.None? then Stopped(Throws)
    else
      match Lockstep(h, p.props[i].value, w.value, s)
      case Alike(s1) => LockProps(h, p, i + 1, v, s0, s1, ks + [k.value])
      case o => Stopped(o)
  }

  ghost function LockRest(h: Interp, p: Pattern, v: Value, s0: Store, s: Store, ks: seq<Value>): Outcome
    requires p.ObjectPattern?
  {
    if p.rest.None? then Alike(s) else
    var after := s[p.rest.value := CopyRest(v, ks)];
    var read := RestKeys(h, p, s0, s);
    if read == Some(ks) then (if RestExact(v, ks) then Alike(after) else Inexact)
    else if read.Some? && RestObjectValue(v, read.value) == Some(CopyRest(v, ks)) then Alike(after)
    else Differs
  }

  ghost function LockElems(h: Interp, p: Pattern, i: nat, items: seq<Value>, s: Store): Outcome
    requires p.ArrayPattern? && i <= |p.elems|
    decreases p, 0, |p.elems| - i
  {
    if i == |p.elems| then
      if p.tail.None? then Alike(s) else Lockstep(h, p.tail.value, Arr(if i <= |items| then items[i..] else []), s)
    else if p.elems[i].None? then LockElems(h, p, i + 1, items, s)
    else
      match Lockstep(h, p.elems[i].value, if i < |items| then items[i] else Undefined, s)
      case Alike(s1) => LockElems(h, p, i + 1, items, s1)
      case o => o
  }

  /** What an outcome says of the native result and of the result of the code. */
  predicate Means(o: Outcome, native: Option<Store>, lax: Option<Store>) {
    match o
    case Alike(s) => native == Some(s) && lax == Some(s)
    case Throws => native.None? && lax.None?
    case Forgiven => native.None?
    case _ => true
  }

  predicate ProgressMeans(g: Progress, native: Option<(Store, seq<Value>)>, lax: Option<Store>) {
    match g
    case Going(s, ks) => native == Some((s, ks)) && lax == Some(s)
    case Stopped(o) => !o.Alike? && Means(o, if native.None? then None else Some(native.value.0), lax)
  }

  lemma {:induction false} LockstepMeans(h: Interp, p: Pattern, v: Value, s: Store)
    ensures Means(Lockstep(h, p, v, s), Bind(h, p, v, s, false), Lax(h, p, v, s))
    decreases p, 1, 0
  {
    match p
    case Target(x) =>
    case AssignmentPattern(left, right) =>
      var w := DefaultOf(h, p, v, s);
      if w.Some? { LockstepMeans(h, left, w.value, s); }
    case ObjectPattern(props, rest) =>
      if Nullish(v) {
        NullishMeans(h, p, v, s);
      } else if HoistsEvaluate(h, p, s) {
        LockPropsMeans(h, p, 0, v, s, s, []);
        RestMeans(h, p, v, s);
      }
    case ArrayPattern(elems, tail) =>
      if Elements(v).Some? { LockElemsMeans(h, p, 0, v, s); }
  }

  lemma NullishMeans(h: Interp, p: Pattern, v: Value, s: Store)
    requires p.ObjectPattern? && Nullish(v)
    ensures Means(Lockstep(h, p, v, s), Bind(h, p, v, s, false), Lax(h, p, v, s))
  {
    if p.props != [] {
      assert PropValue(h, p.props[0], p.rest.Some?, v, s, s).None?;
      assert LaxProps(h, p, 0, v, s, s).None?;
    }
  }

  lemma RestMeans(h: Interp, p: Pattern, v: Value, s: Store)
    requires p.ObjectPattern? && !Nullish(v) && HoistsEvaluate(h, p, s)
    requires ProgressMeans(LockProps(h, p, 0, v, s, s, []), BindProps(h, p, 0, v, s, [], false), LaxProps(h, p, 0, v, s, s))
    ensures Means(Lockstep(h, p, v, s), Bind(h, p, v, s, false), Lax(h, p, v, s))
  {
    match LockProps(h, p, 0, v, s, s, [])
    case Going(s1, ks) =>
      if p.rest.Some? { RestObjectExact(v, ks); }
    case Stopped(o) =>
  }

  lemma {:induction false} LockPropsMeans(h: Interp, p: Pattern, i: nat, v: Value, s0: Store, s: Store, ks: seq<Value>)
    requires p.ObjectPattern? && i <= |p.props|
    ensures ProgressMeans(LockProps(h, p, i, v, s0, s, ks), BindProps(h, p, i, v, s, ks, false), LaxProps(h, p, i, v, s0, s))
    decreases p, 0, |p.props| - i, 1
  {
    if i < |p.props| {
      var k := KeyValue(h, p.props[i], s);
      var w := PropValue(h, p.props[i], false, v, s, s);
      if k == KeyAt(h, p.props[i], p.rest.Some?, s0, s) && w.Some? {
        LockstepMeans(h, p.props[i].value, w.value, s);
        OthersMean(h, p, i, v, s0, ks + [k.value], Lockstep(h, p.props[i].value, w.value, s));
      }
    }
  }

  lemma {:induction false} OthersMean(h: Interp, p: Pattern, i: nat, v: Value, s0: Store, ks: seq<Value>, o: Outcome)
    requires p.ObjectPattern? && i < |p.props|
    ensures o.Alike? ==>
              ProgressMeans(LockProps(h, p, i + 1, v, s0, o.store, ks), BindProps(h, p, i + 1, v, o.store, ks, false),
                            LaxProps(h, p, i + 1, v, s0, o.store))
    decreases p, 0, |p.props| - i, 0
  {
    if o.Alike? { LockPropsMeans(h, p, i + 1, v, s0, o.store, ks); }
  }

  lemma {:induction false} LockElemsMeans(h: Interp, p: Pattern, i: nat, v: Value, s: Store)
    requires p.ArrayPattern? && i <= |p.elems| && Elements(v).Some?
    ensures Means(LockElems(h, p, i, Elements(v).value, s), BindElems(h, p, i, Elements(v).value, s, false), LaxElems(h, p, i, ArrayFromValue(v), s))
    decreases p, 0, |p.elems| - i
  {
    var items := Elements(v).value;
    if i == |p.elems| {
      if p.tail.Some? {
        ArrayFromRest(v, i);
        LockstepMeans(h, p.tail.value, Arr(if i <= |items| then items[i..] else []), s);
      }
    } else if p.elems[i].None? {
      LockElemsMeans(h, p, i + 1, v, s);
    } else {
      ArrayFromIndex(v, i);
      var w := if i < |items| then items[i] else Undefined;
      LockstepMeans(h, p.elems[i].value, w, s);
      var o := Lockstep(h, p.elems[i].value, w, s);
      if o.Alike? { LockElemsMeans(h, p, i + 1, v, o.store); }
    }
  }

  // ---------------------------------------------------------------- safe patterns

  lemma {:induction false} HoistsEvaluable(h: Interp, p: Pattern, i: nat, v: Value, s: Store, ks: seq<Value>)
    requires p.ObjectPattern? && i <= |p.props| && Clean(p) && KeysStable(p.props)
    requires BindProps(h, p, i, v, s, ks, false).Some?
    ensures forall j :: i <= j < |p.props| && Hoisted(p.props[j].key) ==> Eval(h, p.props[j].key, s).Some?
    decreases |p.props| - i
  {
    if i < |p.props| {
      var k := KeyValue(h, p.props[i], s).value;
      var w := Get(v, ToKey(k).value).value;
      var s' := Bind(h, p.props[i].value, w, s, false).value;
      HoistsEvaluable(h, p, i + 1, v, s', ks + [k]);
      forall j | i < j < |p.props| && Hoisted(p.props[j].key) ensures Eval(h, p.props[j].key, s).Some? {
        KeyUnaffected(h, p, i, j, w, s);
      }
    }
  }

  /** A key that is evaluated up front has the same value before and after an earlier property. */
  lemma KeyUnaffected(h: Interp, p: Pattern, i: nat, j: nat, w: Value, s: Store)
    requires p.ObjectPattern? && i < j < |p.props| && Clean(p) && KeysStable(p.props) && Hoisted(p.props[j].key)
    requires Bind(h, p.props[i].value, w, s, false).Some?
    ensures Eval(h, p.props[j].key, s) == Eval(h, p.props[j].key, Bind(h, p.props[i].value, w, s, false).value)
  {
    var s' := Bind(h, p.props[i].value, w, s, false).value;
    forall n | Mentions(p.props[j].key, n) ensures Same(n, s, s') {
      BindFrame(h, p.props[i].value, w, s, false, n);
    }
    EvalSame(h, p.props[j].key, s, s');
  }

  /** In a pattern with a rest: the keys of the properties that follow have the value they had up front,
      and those of the properties before are read again with the value they had. */
  ghost predicate KeysSame(h: Interp, p: Pattern, i: nat, s0: Store, s: Store, ks: seq<Value>)
    requires p.ObjectPattern?
  {
    p.rest.Some? ==>
      && (forall j :: i <= j < |p.props| && Hoisted(p.props[j].key) ==> Eval(h, p.props[j].key, s0) == Eval(h, p.props[j].key, s))
      && |ks| == i <= |p.props|
      && (forall j :: 0 <= j < i ==> KeyAt(h, p.props[j], true, s0, s) == Some(ks[j]))
  }

  lemma KeysStaySame(h: Interp, p: Pattern, i: nat, w: Value, s0: Store, s: Store, s1: Store, ks: seq<Value>, k: Value)
    requires p.ObjectPattern? && i < |p.props| && Clean(p) && Safe(p) && KeysSame(h, p, i, s0, s, ks)
    requires KeyValue(h, p.props[i], s) == Some(k) && Bind(h, p.props[i].value, w, s, false) == Some(s1)
    ensures KeysSame(h, p, i + 1, s0, s1, ks + [k])
  {
    if p.rest.Some? {
      forall j | i < j < |p.props| && Hoisted(p.props[j].key) ensures Eval(h, p.props[j].key, s0) == Eval(h, p.props[j].key, s1) {
        KeyUnaffected(h, p, i, j, w, s);
      }
      forall j | 0 <= j <= i ensures KeyAt(h, p.props[j], true, s0, s1) == Some((ks + [k])[j]) {
        assert j < i ==> KeyAt(h, p.props[j], true, s0, s) == Some(ks[j]);
        if p.props[j].key.Ident? && p.props[j].computed {
          BindFrame(h, p.props[i].value, w, s, false, p.props[j].key.name);
        }
      }
    }
  }

  /** The lowering reads every key of a safe pattern as native destructuring does. */
  lemma {:induction false} SafeNeverDiffers(h: Interp, p: Pattern, v: Value, s: Store)
    requires Clean(p) && Safe(p)
    ensures Lockstep(h, p, v, s) != Differs && (NoRest(p) ==> Lockstep(h, p, v, s) != Inexact)
    decreases p, 1, 0
  {
    match p
    case Target(x) =>
    case AssignmentPattern(left, right) =>
      var w := DefaultOf(h, p, v, s);
      if w.Some? { SafeNeverDiffers(h, left, w.value, s); }
    case ObjectPattern(props, rest) =>
      if !Nullish(v) {
        if !HoistsEvaluate(h, p, s) {
          if Bind(h, p, v, s, false).Some? { HoistsEvaluable(h, p, 0, v, s, []); }
        } else {
          SafePropsNeverDiffer(h, p, 0, v, s, s, []);
        }
      }
    case ArrayPattern(elems, tail) =>
      if Elements(v).Some? { SafeElemsNeverDiffer(h, p, 0, Elements(v).value, s); }
  }

  ghost predicate NoDifference(h: Interp, p: Pattern, v: Value, s0: Store, r: Progress)
    requires p.ObjectPattern?
  {
    match r
    case Going(s1, ks1) => LockRest(h, p, v, s0, s1, ks1) != Differs
    case Stopped(o) => o != Differs && (NoRest(p) ==> o != Inexact)
  }

  lemma {:induction false} SafePropsNeverDiffer(h: Interp, p: Pattern, i: nat, v: Value, s0: Store, s: Store, ks: seq<Value>)
    requires p.ObjectPattern? && i <= |p.props| && Clean(p) && Safe(p) && KeysSame(h, p, i, s0, s, ks)
    ensures NoDifference(h, p, v, s0, LockProps(h, p, i, v, s0, s, ks))
    decreases p, 0, |p.props| - i, 1
  {
    if i == |p.props| {
      if p.rest.Some? { assert RestKeys(h, p, s0, s).value == ks; }
    } else {
      var k := KeyValue(h, p.props[i], s);
      var w := PropValue(h, p.props[i], false, v, s, s);
      if w.Some? {
        SafeNeverDiffers(h, p.props[i].value, w.value, s);
        LockstepMeans(h, p.props[i].value, w.value, s);
        SafeOthersNeverDiffer(h, p, i, v, s0, s, ks, k.value, w.value, Lockstep(h, p.props[i].value, w.value, s));
      }
    }
  }

  lemma {:induction false} SafeOthersNeverDiffer(h: Interp, p: Pattern, i: nat, v: Value, s0: Store, s: Store, ks: seq<Value>, k: Value,
                                                 w: Value, o: Outcome)
    requires p.ObjectPattern? && i < |p.props| && Clean(p) && Safe(p) && KeysSame(h, p, i, s0, s, ks)
    requires KeyValue(h, p.props[i], s) == Some(k) && (o.Alike? ==> Bind(h, p.props[i].value, w, s, false) == Some(o.store))
    ensures o.Alike? ==> NoDifference(h, p, v, s0, LockProps(h, p, i + 1, v, s0, o.store, ks + [k]))
    decreases p, 0, |p.props| - i, 0
  {
    if o.Alike? {
      KeysStaySame(h, p, i, w, s0, s, o.store, ks, k);
      SafePropsNeverDiffer(h, p, i + 1, v, s0, o.store, ks + [k]);
    }
  }

  lemma {:induction false} SafeElemsNeverDiffer(h: Interp, p: Pattern, i: nat, items: seq<Value>, s: Store)
    requires p.ArrayPattern? && i <= |p.elems| && Clean(p) && Safe(p)
    ensures LockElems(h, p, i, items, s) != Differs && (NoRest(p) ==> LockElems(h, p, i, items, s) != Inexact)
    decreases p, 0, |p.elems| - i
  {
    if i == |p.elems| {
      if p.tail.Some? { SafeNeverDiffers(h, p.tail.value, Arr(if i <= |items| then items[i..] else []), s); }
    } else if p.elems[i].None? {
      SafeElemsNeverDiffer(h, p, i + 1, items, s);
    } else {
      var w := if i < |items| then items[i] else Undefined;
      SafeNeverDiffers(h, p.elems[i].value, w, s);
      var o := Lockstep(h, p.elems[i].value, w, s);
      if o.Alike? { SafeElemsNeverDiffer(h, p, i + 1, items, o.store); }
    }
  }

  // ---------------------------------------------------------------- exact rests

  /** Destructuring that honours every excluded key meets no inexact rest. */
  lemma {:induction false} ExactNeverInexact(h: Interp, p: Pattern, v: Value, s: Store)
    requires Bind(h, p, v, s, true).Some?
    ensures Lockstep(h, p, v, s) != Inexact
    decreases p, 1, 0
  {
    match p
    case Target(x) =>
    case AssignmentPattern(left, right) => ExactNeverInexact(h, left, DefaultOf(h, p, v, s).value, s);
    case ObjectPattern(props, rest) =>
      if HoistsEvaluate(h, p, s) { ExactPropsNeverInexact(h, p, 0, v, s, s, []); }
    case ArrayPattern(elems, tail) => ExactElemsNeverInexact(h, p, 0, Elements(v).value, s);
  }

  lemma {:induction false} ExactPropsNeverInexact(h: Interp, p: Pattern, i: nat, v: Value, s0: Store, s: Store, ks: seq<Value>)
    requires p.ObjectPattern? && i <= |p.props| && BindProps(h, p, i, v, s, ks, true).Some?
    ensures match LockProps(h, p, i, v, s0, s, ks)
            case Going(s1, ks1) => BindProps(h, p, i, v, s, ks, true) == Some((s1, ks1))
            case Stopped(o) => o != Inexact
    decreases p, 0, |p.props| - i
  {
    if i < |p.props| {
      var k := KeyValue(h, p.props[i], s).value;
      var w := Get(v, ToKey(k).value).value;
      assert PropValue(h, p.props[i], false, v, s, s) == Some(w);
      ExactNeverInexact(h, p.props[i].value, w, s);
      ExactIsNative(h, p.props[i].value, w, s);
      LockstepMeans(h, p.props[i].value, w, s);
      var s1 := Bind(h, p.props[i].value, w, s, true).value;
      ExactPropsNeverInexact(h, p, i + 1, v, s0, s1, ks + [k]);
    }
  }

  lemma {:induction false} ExactElemsNeverInexact(h: Interp, p: Pattern, i: nat, items: seq<Value>, s: Store)
    requires p.ArrayPattern? && i <= |p.elems| && BindElems(h, p, i, items, s, true).Some?
    ensures LockElems(h, p, i, items, s) != Inexact
    decreases p, 0, |p.elems| - i
  {
    if i == |p.elems| {
      if p.tail.Some? { ExactNeverInexact(h, p.tail.value, Arr(if i <= |items| then items[i..] else []), s); }
    } else if p.elems[i].None? {
      ExactElemsNeverInexact(h, p, i + 1, items, s);
    } else {
      var w := if i < |items| then items[i] else Undefined;
      ExactNeverInexact(h, p.elems[i].value, w, s);
      ExactIsNative(h, p.elems[i].value, w, s);
      LockstepMeans(h, p.elems[i].value, w, s);
      ExactElemsNeverInexact(h, p, i + 1, items, Bind(h, p.elems[i].value, w, s, true).value);
    }
  }

  // ---------------------------------------------------------------- results

  /** Destructuring that succeeds with every excluded key honoured succeeds natively, with the
      same result. */
  lemma {:induction false} ExactIsNative(h: Interp, p: Pattern, v: Value, s: Store)
    requires Bind(h, p, v, s, true).Some?
    ensures Bind(h, p, v, s, false) == Bind(h, p, v, s, true)
    decreases p, 1, 0
  {
    match p
    case Target(x) =>
    case AssignmentPattern(left, right) =>
      ExactIsNative(h, left, if v == Undefined then Eval(h, right, s).value else v, s);
    case ObjectPattern(props, rest) => ExactPropsIsNative(h, p, 0, v, s, []);
    case ArrayPattern(elems, tail) => ExactElemsIsNative(h, p, 0, Elements(v).value, s);
  }

  lemma {:induction false} ExactPropsIsNative(h: Interp, p: Pattern, i: nat, v: Value, s: Store, ks: seq<Value>)
    requires p.ObjectPattern? && i <= |p.props| && BindProps(h, p, i, v, s, ks, true).Some?
    ensures BindProps(h, p, i, v, s, ks, false) == BindProps(h, p, i, v, s, ks, true)
    decreases p, 0, |p.props| - i
  {
    if i < |p.props| {
      var k := KeyValue(h, p.props[i], s).value;
      var w := Get(v, ToKey(k).value).value;
      ExactIsNative(h, p.props[i].value, w, s);
      ExactPropsIsNative(h, p, i + 1, v, Bind(h, p.props[i].value, w, s, true).value, ks + [k]);
    }
  }

  lemma {:induction false} ExactElemsIsNative(h: Interp, p: Pattern, i: nat, items: seq<Value>, s: Store)
    requires p.ArrayPattern? && i <= |p.elems| && BindElems(h, p, i, items, s, true).Some?
    ensures BindElems(h, p, i, items, s, false) == BindElems(h, p, i, items, s, true)
    decreases p, 0, |p.elems| - i
  {
    if i == |p.elems| {
      if p.tail.Some? {
        ExactIsNative(h, p.tail.value, Arr(if i <= |items| then items[i..] else []), s);
      }
    } else if p.elems[i].None? {
      ExactElemsIsNative(h, p, i + 1, items, s);
    } else {
      var w := if i < |items| then items[i] else Undefined;
      ExactIsNative(h, p.elems[i].value, w, s);
      ExactElemsIsNative(h, p, i + 1, items, Bind(h, p.elems[i].value, w, s, true).value);
    }
  }

  /** A safe pattern on a value whose excluded keys are all honoured: both go together to the end. */
  lemma SafeIsAlike(h: Interp, p: Pattern, v: Value, s: Store)
    requires Clean(p) && Safe(p) && Bind(h, p, v, s, true).Some?
    ensures Lockstep(h, p, v, s) == Alike(Bind(h, p, v, s, true).value)
    ensures Lax(h, p, v, s) == Bind(h, p, v, s, true)
  {
    ExactIsNative(h, p, v, s);
    LockstepMeans(h, p, v, s);
    SafeNeverDiffers(h, p, v, s);
    ExactNeverInexact(h, p, v, s);
  }

  /** What the lowering of a pattern must achieve. */
  lemma LowerMeaning(h: Interp, p: Pattern, value: Expr, base: Option<string>, c: nat, v: Value, s: Store, t: Store)
    requires Clean(p) && Safe(p) && BaseOk(value, base, c)
    requires Agree(s, t) && Eval(h, value, t) == Some(v)
    requires Bind(h, p, v, s, true).Some?
    ensures Reaches(h, Lower(p, value, base, c).stmts, t, Bind(h, p, v, s, true).value)
  {
    SafeIsAlike(h, p, v, s);
    LowerMirrors(h, p, value, base, c, s, t);
  }

  /** The value being destructured: an expression of the page or a temporary issued earlier. */
  ghost predicate SourceOk(value: Expr, c: nat) {
    UserExpr(value) || (IsTempIdent(value) && Issued(value.name, c))
  }

  /** Running the emitted assignments gives every variable of the page the value that native
      destructuring gives it, and changes no temporary issued before, except those derived from
      the name of the value when that is itself a temporary. */
  lemma LoweringPreservesMeaning(h: Interp, p: Pattern, value: Expr, c: nat, v: Value, s: Store)
    requires Clean(p) && Safe(p) && SourceOk(value, c)
    requires Eval(h, value, s) == Some(v) && Bind(h, p, v, s, true).Some?
    ensures var native, lowered := Bind(h, p, v, s, false), Run(h, Lower(p, value, None, c).stmts, s);
            && native.Some? && lowered.Some?
            && Agree(native.value, lowered.value)
            && forall n :: Issued(n, c) && !(IsTempIdent(value) && Derived(n, value.name)) ==> Same(n, s, lowered.value)
  {
    ExactIsNative(h, p, v, s);
    LowerMeaning(h, p, value, None, c, v, s, s);
    LowerWrites(p, value, None, c);
    var code := Lower(p, value, None, c);
    forall n | Issued(n, c) && !(IsTempIdent(value) && Derived(n, value.name))
      ensures Same(n, s, Run(h, code.stmts, s).value)
    {
      IssuedTwice(n, c, code.next);
      IssuedIsTemp(n, c);
      forall i | 0 <= i < |code.stmts| ensures code.stmts[i].target != n {
        if Binds(p, code.stmts[i].target) { CleanTargets(p, code.stmts[i].target); }
      }
      RunFrame(h, code.stmts, s, n);
    }
  }

  ghost predicate NoRest(p: Pattern)
    decreases p
  {
    match p
    case Target(x) => true
    case AssignmentPattern(left, right) => NoRest(left)
    case ObjectPattern(props, rest) => rest.None? && forall i :: 0 <= i < |props| ==> NoRest(props[i].value)
    case ArrayPattern(elems, tail) =>
      && (forall i :: 0 <= i < |elems| && elems[i].Some? ==> NoRest(elems[i].value))
      && (tail.Some? ==> NoRest(tail.value))
  }

  lemma {:induction false} NoRestIsSafe(h: Interp, p: Pattern)
    requires NoRest(p)
    ensures Safe(p)
    decreases p
  {
    match p
    case Target(x) =>
    case AssignmentPattern(left, right) => NoRestIsSafe(h, left);
    case ObjectPattern(props, rest) =>
      forall i | 0 <= i < |props| ensures Safe(props[i].value) { NoRestIsSafe(h, props[i].value); }
    case ArrayPattern(elems, tail) =>
      forall i | 0 <= i < |elems| && elems[i].Some? ensures Safe(elems[i].value) { NoRestIsSafe(h, elems[i].value); }
      if tail.Some? { NoRestIsSafe(h, tail.value); }
  }

  lemma {:induction false} NoRestIsExact(h: Interp, p: Pattern, v: Value, s: Store)
    requires NoRest(p)
    ensures Bind(h, p, v, s, true) == Bind(h, p, v, s, false)
    decreases p, 1, 0
  {
    match p
    case Target(x) =>
    case AssignmentPattern(left, right) =>
      if v != Undefined {
        NoRestIsExact(h, left, v, s);
      } else if Eval(h, right, s).Some? {
        NoRestIsExact(h, left, Eval(h, right, s).value, s);
      }
    case ObjectPattern(props, rest) => NoRestPropsExact(h, p, 0, v, s, []);
    case ArrayPattern(elems, tail) =>
      if Elements(v).Some? { NoRestElemsExact(h, p, 0, Elements(v).value, s); }
  }

  lemma {:induction false} NoRestPropsExact(h: Interp, p: Pattern, i: nat, v: Value, s: Store, ks: seq<Value>)
    requires p.ObjectPattern? && i <= |p.props| && NoRest(p)
    ensures BindProps(h, p, i, v, s, ks, true) == BindProps(h, p, i, v, s, ks, false)
    decreases p, 0, |p.props| - i
  {
    if i < |p.props| {
      var k := KeyValue(h, p.props[i], s);
      if k.Some? && ToKey(k.value).Some? && Get(v, ToKey(k.value).value).Some? {
        var w := Get(v, ToKey(k.value).value).value;
        NoRestIsExact(h, p.props[i].value, w, s);
        var s' := Bind(h, p.props[i].value, w, s, true);
        if s'.Some? { NoRestPropsExact(h, p, i + 1, v, s'.value, ks + [k.value]); }
      }
    }
  }

  lemma {:induction false} NoRestElemsExact(h: Interp, p: Pattern, i: nat, items: seq<Value>, s: Store)
    requires p.ArrayPattern? && i <= |p.elems| && NoRest(p)
    ensures BindElems(h, p, i, items, s, true) == BindElems(h, p, i, items, s, false)
    decreases p, 0, |p.elems| - i
  {
    if i == |p.elems| {
      if p.tail.Some? { NoRestIsExact(h, p.tail.value, Arr(if i <= |items| then items[i..] else []), s); }
    } else if p.elems[i].None? {
      NoRestElemsExact(h, p, i + 1, items, s);
    } else {
      var w := if i < |items| then items[i] else Undefined;
      NoRestIsExact(h, p.elems[i].value, w, s);
      var s' := Bind(h, p.elems[i].value, w, s, true);
      if s'.Some? { NoRestElemsExact(h, p, i + 1, items, s'.value); }
    }
  }

  /** Without an object rest, the meaning is preserved on every value native destructuring
      accepts. */
  lemma LoweringWithoutRest(h: Interp, p: Pattern, value: Expr, c: nat, v: Value, s: Store)
    requires Clean(p) && NoRest(p) && SourceOk(value, c)
    requires Eval(h, value, s) == Some(v) && Bind(h, p, v, s, false).Some?
    ensures Reaches(h, Lower(p, value, None, c).stmts, s, Bind(h, p, v, s, false).value)
  {
    NoRestIsSafe(h, p);
    NoRestIsExact(h, p, v, s);
    LoweringPreservesMeaning(h, p, value, c, v, s);
  }

  // ---------------------------------------------------------------- throws

  /** The same for a part of a pattern: s is the native store when it is reached, t that of the lowered code. */
  lemma PartIsLax(h: Interp, p: Pattern, value: Expr, base: Option<string>, c: nat, v: Value, s: Store, t: Store)
    requires Clean(p) && BaseOk(value, base, c) && Agree(s, t) && Eval(h, value, t) == Some(v)
    ensures var lowered, lax := Run(h, Lower(p, value, base, c).stmts, t), Lax(h, p, v, s);
            (lowered.Some? <==> lax.Some?) && (lax.Some? ==> Agree(lax.value, lowered.value))
  {
    LowerMirrors(h, p, value, base, c, s, t);
  }

  /** Whether the lowered code throws, and what the page sees when it does not, for every pattern. */
  lemma LoweringIsLax(h: Interp, p: Pattern, value: Expr, c: nat, v: Value, s: Store)
    requires Clean(p) && SourceOk(value, c) && Eval(h, value, s) == Some(v)
    ensures var lowered, lax := Run(h, Lower(p, value, None, c).stmts, s), Lax(h, p, v, s);
            (lowered.Some? <==> lax.Some?) && (lax.Some? ==> Agree(lax.value, lowered.value))
  {
    PartIsLax(h, p, value, None, c, v, s, s);
  }

  /** As long as no rest and no key goes another way, the lowered code throws whenever native
      destructuring does, unless a forgiving site is reached from which lax destructuring goes on to the
      end; and it throws at no other time. A forgiving site is an array pattern over a value that is not
      iterable, or an object pattern without properties and rest over null or undefined. */
  lemma ThrowLostExactly(h: Interp, p: Pattern, value: Expr, c: nat, v: Value, s: Store)
    requires Clean(p) && SourceOk(value, c) && Eval(h, value, s) == Some(v)
    requires Lockstep(h, p, v, s) !in {Differs, Inexact}
    ensures var native, lowered := Bind(h, p, v, s, false), Run(h, Lower(p, value, None, c).stmts, s);
            && (native.None? && lowered.Some? <==> Lockstep(h, p, v, s) == Forgiven && Lax(h, p, v, s).Some?)
            && (native.Some? ==> lowered.Some? && Agree(native.value, lowered.value))
  {
    LoweringIsLax(h, p, value, c, v, s);
    LockstepMeans(h, p, v, s);
  }

  /** Without an object rest this holds on every value. */
  lemma ThrowsWithoutRest(h: Interp, p: Pattern, value: Expr, c: nat, v: Value, s: Store)
    requires Clean(p) && NoRest(p) && SourceOk(value, c) && Eval(h, value, s) == Some(v)
    ensures var native, lowered := Bind(h, p, v, s, false), Run(h, Lower(p, value, None, c).stmts, s);
            && (native.None? && lowered.Some? <==> Lockstep(h, p, v, s) == Forgiven && Lax(h, p, v, s).Some?)
            && (native.Some? ==> lowered.Some? && Agree(native.value, lowered.value))
  {
    NoRestIsSafe(h, p);
    SafeNeverDiffers(h, p, v, s);
    ThrowLostExactly(h, p, value, c, v, s);
  }

  // ---------------------------------------------------------------- keys that the rest reads again

  /** The two lists exclude the same properties of v: the first natively, the second by the helper, which
      finds strings only. */
  ghost predicate SameExclusions(v: Value, native: seq<Value>, read: seq<Value>) {
    forall n :: n in Own(v) ==> (n in PropertyKeys(native) <==> Str(n) in read)
  }

  lemma ExclusionsDecide(v: Value, native: seq<Value>, read: seq<Value>)
    requires !Nullish(v)
    ensures RestObjectValue(v, read) == Some(CopyRest(v, native)) <==> SameExclusions(v, native, read)
  {
    var a, b := Own(v) - StringKeys(read), Own(v) - PropertyKeys(native);
    assert forall n :: n in StringKeys(read) <==> Str(n) in read;
    if SameExclusions(v, native, read) {
      assert a == b;
    } else {
      var n :| n in Own(v) && !(n in PropertyKeys(native) <==> Str(n) in read);
      assert (n in a) != (n in b);
    }
  }

  lemma RestKeptLax(h: Interp, p: Pattern, v: Value, s: Store)
    requires Clean(p) && p.ObjectPattern? && p.rest.Some?
    requires !Nullish(v) && HoistsEvaluate(h, p, s) && LockProps(h, p, 0, v, s, s, []).Going?
    ensures var g := LockProps(h, p, 0, v, s, s, []);
            var native, lax, read := Bind(h, p, v, s, false), Lax(h, p, v, s), RestKeys(h, p, s, g.store);
            && native.Some?
            && (lax.Some? && Agree(native.value, lax.value) <==> read.Some? && SameExclusions(v, g.keys, read.value))
  {
    var g := LockProps(h, p, 0, v, s, s, []);
    LockPropsMeans(h, p, 0, v, s, s, []);
    var read := RestKeys(h, p, s, g.store);
    assert Lax(h, p, v, s) == LaxObject(h, p, v, s) == LaxRest(h, p, v, s, g.store);
    if read.Some? {
      ExclusionsDecide(v, g.keys, read.value);
      var native, lax := Bind(h, p, v, s, false).value, Lax(h, p, v, s).value;
      assert native == g.store[p.rest.value := CopyRest(v, g.keys)];
      assert lax == g.store[p.rest.value := RestObjectValue(v, read.value).value];
      assert Agree(native, lax) <==> native[p.rest.value] == lax[p.rest.value];
    }
  }

  lemma AgreeThrough(a: Store, b: Store, c: Store)
    requires Agree(b, c)
    ensures Agree(a, b) <==> Agree(a, c)
  {
  }

  /** When the properties of an object pattern were bound alike, the rest gets its native value exactly
      when the keys that are read again exclude the same properties as those that were selected. The pattern
      may be a part of another one. */
  lemma RestKeptExactly(h: Interp, p: Pattern, value: Expr, base: Option<string>, c: nat, v: Value, s: Store, t: Store)
    requires Clean(p) && p.ObjectPattern? && p.rest.Some? && BaseOk(value, base, c) && Agree(s, t) && Eval(h, value, t) == Some(v)
    requires !Nullish(v) && HoistsEvaluate(h, p, s) && LockProps(h, p, 0, v, s, s, []).Going?
    ensures var g := LockProps(h, p, 0, v, s, s, []);
            var native, lowered, read := Bind(h, p, v, s, false), Run(h, Lower(p, value, base, c).stmts, t), RestKeys(h, p, s, g.store);
            && native.Some?
            && (lowered.Some? && Agree(native.value, lowered.value) <==> read.Some? && SameExclusions(v, g.keys, read.value))
  {
    RestKeptLax(h, p, v, s);
    PartIsLax(h, p, value, base, c, v, s, t);
    var native, lowered, lax := Bind(h, p, v, s, false), Run(h, Lower(p, value, base, c).stmts, t), Lax(h, p, v, s);
    if lax.Some? { AgreeThrough(native.value, lax.value, lowered.value); }
  }

  // ---------------------------------------------------------------- keys that are evaluated up front

  lemma {:induction false} LaxFrame(h: Interp, p: Pattern, v: Value, s: Store, n: string)
    requires Lax(h, p, v, s).Some? && !Binds(p, n)
    ensures Same(n, s, Lax(h, p, v, s).value)
    decreases p, 1, 0
  {
    match p
    case Target(x) =>
    case AssignmentPattern(left, right) => LaxFrame(h, left, DefaultOf(h, p, v, s).value, s, n);
    case ObjectPattern(props, rest) => LaxPropsFrame(h, p, 0, v, s, s, n);
    case ArrayPattern(elems, tail) => LaxElemsFrame(h, p, 0, ArrayFromValue(v), s, n);
  }

  lemma {:induction false} LaxPropsFrame(h: Interp, p: Pattern, i: nat, v: Value, s0: Store, s: Store, n: string)
    requires p.ObjectPattern? && i <= |p.props| && LaxProps(h, p, i, v, s0, s).Some?
    requires forall k :: i <= k < |p.props| ==> !Binds(p.props[k].value, n)
    ensures Same(n, s, LaxProps(h, p, i, v, s0, s).value)
    decreases p, 0, |p.props| - i
  {
    if i < |p.props| {
      var w := PropValue(h, p.props[i], p.rest.Some?, v, s0, s).value;
      LaxFrame(h, p.props[i].value, w, s, n);
      LaxPropsFrame(h, p, i + 1, v, s0, Lax(h, p.props[i].value, w, s).value, n);
    }
  }

  lemma {:induction false} LaxElemsFrame(h: Interp, p: Pattern, i: nat, a: Value, s: Store, n: string)
    requires p.ArrayPattern? && i <= |p.elems| && LaxElems(h, p, i, a, s).Some? && !Binds(p, n)
    ensures Same(n, s, LaxElems(h, p, i, a, s).value)
    decreases p, 0, |p.elems| - i
  {
    if i == |p.elems| {
      if p.tail.Some? { LaxFrame(h, p.tail.value, RestArrayValue(a, i).value, s, n); }
    } else if p.elems[i].None? {
      LaxElemsFrame(h, p, i + 1, a, s, n);
    } else {
      var w := Get(a, Decimal(i)).value;
      LaxFrame(h, p.elems[i].value, w, s, n);
      LaxElemsFrame(h, p, i + 1, a, Lax(h, p.elems[i].value, w, s).value, n);
    }
  }

  /** The first property from i on whose key was evaluated up front to another value, and the store that
      both have reached there. */
  ghost function FirstStaleKey(h: Interp, p: Pattern, i: nat, v: Value, s0: Store, s: Store): Option<(nat, Store)>
    requires p.ObjectPattern? && i <= |p.props|
    ensures var r := FirstStaleKey(h, p, i, v, s0, s); r.Some? ==> i <= r.value.0 < |p.props|
    decreases |p.props| - i
  {
    if i == |p.props| then None
    else if KeyValue(h, p.props[i], s) != KeyAt(h, p.props[i], p.rest.Some?, s0, s) then Some((i, s))
    else
      var w := PropValue(h, p.props[i], false, v, s, s);
      if w.None? then None else
      var o := Lockstep(h, p.props[i].value, w.value, s);
      if o.Alike? then FirstStaleKey(h, p, i + 1, v, s0, o.store) else None
  }

  lemma {:induction false} StaleKeyReads(h: Interp, p: Pattern, i: nat, v: Value, s0: Store, s: Store, ks: seq<Value>, x: string)
    requires p.ObjectPattern? && i <= |p.props| && FirstStaleKey(h, p, i, v, s0, s).Some?
    requires BindProps(h, p, i, v, s, ks, false).Some? && LaxProps(h, p, i, v, s0, s).Some?
    requires var j := FirstStaleKey(h, p, i, v, s0, s).value.0;
             p.props[j].value == Target(x) && forall k :: j < k < |p.props| ==> !Binds(p.props[k].value, x)
    ensures var (j, sj) := FirstStaleKey(h, p, i, v, s0, s).value;
            var native, lax := BindProps(h, p, i, v, s, ks, false).value.0, LaxProps(h, p, i, v, s0, s).value;
            && x in native && Some(native[x]) == PropValue(h, p.props[j], false, v, sj, sj)
            && x in lax && Some(lax[x]) == PropValue(h, p.props[j], p.rest.Some?, v, s0, sj)
    decreases |p.props| - i
  {
    var prop := p.props[i];
    var w := PropValue(h, prop, false, v, s, s).value;
    var k := KeyValue(h, prop, s).value;
    if k == KeyAt(h, prop, p.rest.Some?, s0, s).value {
      LockstepMeans(h, prop.value, w, s);
      StaleKeyReads(h, p, i + 1, v, s0, Lockstep(h, prop.value, w, s).store, ks + [k], x);
    } else {
      StaleKeyHere(h, p, i, v, s0, s, ks + [k], x);
    }
  }

  lemma StaleKeyHere(h: Interp, p: Pattern, i: nat, v: Value, s0: Store, s: Store, ks: seq<Value>, x: string)
    requires p.ObjectPattern? && i < |p.props| && p.props[i].value == Target(x) && forall k :: i < k < |p.props| ==> !Binds(p.props[k].value, x)
    requires PropValue(h, p.props[i], false, v, s, s).Some? && PropValue(h, p.props[i], p.rest.Some?, v, s0, s).Some?
    ensures var w, w' := PropValue(h, p.props[i], false, v, s, s).value, PropValue(h, p.props[i], p.rest.Some?, v, s0, s).value;
            && (BindProps(h, p, i + 1, v, s[x := w], ks, false).Some? ==>
                  var native := BindProps(h, p, i + 1, v, s[x := w], ks, false).value.0; x in native && native[x] == w)
            && (LaxProps(h, p, i + 1, v, s0, s[x := w']).Some? ==>
                  var lax := LaxProps(h, p, i + 1, v, s0, s[x := w']).value; x in lax && lax[x] == w')
  {
    var w, w' := PropValue(h, p.props[i], false, v, s, s).value, PropValue(h, p.props[i], p.rest.Some?, v, s0, s).value;
    if BindProps(h, p, i + 1, v, s[x := w], ks, false).Some? { BindPropsFrame(h, p, i + 1, v, s[x := w], ks, false, x); }
    if LaxProps(h, p, i + 1, v, s0, s[x := w']).Some? { LaxPropsFrame(h, p, i + 1, v, s0, s[x := w'], x); }
  }

  lemma StaleKeyShows(h: Interp, p: Pattern, v: Value, s: Store, x: string)
    requires Clean(p) && p.ObjectPattern? && Bind(h, p, v, s, false).Some? && Lax(h, p, v, s).Some?
    requires FirstStaleKey(h, p, 0, v, s, s).Some? && p.rest != Some(x)
    requires var j := FirstStaleKey(h, p, 0, v, s, s).value.0;
             p.props[j].value == Target(x) && forall k :: j < k < |p.props| ==> !Binds(p.props[k].value, x)
    ensures var (j, sj) := FirstStaleKey(h, p, 0, v, s, s).value;
            var native, lax := Bind(h, p, v, s, false).value, Lax(h, p, v, s).value;
            && !IsTemp(x) && x in native && x in lax
            && (native[x] == lax[x] <==> PropValue(h, p.props[j], false, v, sj, sj) == PropValue(h, p.props[j], p.rest.Some?, v, s, sj))
  {
    StaleKeyReads(h, p, 0, v, s, s, [], x);
    CleanTargets(p.props[FirstStaleKey(h, p, 0, v, s, s).value.0].value, x);
  }

  /** A variable that is bound to the first property with a stale key, and to nothing later, has its native
      value exactly when the stale key selects an equal value, also when the pattern is a part of another. */
  lemma StaleKeyMatters(h: Interp, p: Pattern, value: Expr, base: Option<string>, c: nat, v: Value, s: Store, t: Store, x: string)
    requires Clean(p) && p.ObjectPattern? && BaseOk(value, base, c) && Agree(s, t) && Eval(h, value, t) == Some(v)
    requires Bind(h, p, v, s, false).Some? && Run(h, Lower(p, value, base, c).stmts, t).Some?
    requires FirstStaleKey(h, p, 0, v, s, s).Some? && p.rest != Some(x)
    requires var j := FirstStaleKey(h, p, 0, v, s, s).value.0;
             p.props[j].value == Target(x) && forall k :: j < k < |p.props| ==> !Binds(p.props[k].value, x)
    ensures var (j, sj) := FirstStaleKey(h, p, 0, v, s, s).value;
            var native, lowered := Bind(h, p, v, s, false).value, Run(h, Lower(p, value, base, c).stmts, t).value;
            && x in native && x in lowered
            && (native[x] == lowered[x] <==> PropValue(h, p.props[j], false, v, sj, sj) == PropValue(h, p.props[j], p.rest.Some?, v, s, sj))
  {
    PartIsLax(h, p, value, base, c, v, s, t);
    StaleKeyShows(h, p, v, s, x);
    AgreeAt(Lax(h, p, v, s).value, Run(h, Lower(p, value, base, c).stmts, t).value, x);
  }

  lemma AgreeAt(a: Store, b: Store, x: string)
    requires Agree(a, b) && !IsTemp(x) && x in a
    ensures x in b && a[x] == b[x]
  {
  }

  // ---------------------------------------------------------------- the value of an assignment expression

  /** The sequence that replaces an assignment ends with its first temporary, which nothing
      overwrites: the value is that of the right side, run through `__arrayFrom$` for an array
      pattern. So an assignment keeps its value exactly unless an array pattern takes an iterable
      that is not an array (`x = [a] = new Set([1])` stores an array in x). */
  lemma AssignmentValue(h: Interp, p: Pattern, value: Expr, c: nat, v: Value, s: Store)
    requires p.ObjectPattern? || (p.ArrayPattern? && Elements(v).Some?)
    requires Clean(p) && UserExpr(value) && Eval(h, value, s) == Some(v)
    requires Run(h, Lower(p, value, None, c).stmts, s).Some?
    ensures var first, t := Lower(p, value, None, c).stmts[0], Run(h, Lower(p, value, None, c).stmts, s).value;
            && first.isTemp && first.target in t
            && (t[first.target] == v <==> p.ObjectPattern? || v.Arr? || v == Str(""))
  {
    var value' := if p.ArrayPattern? && !value.ArrayLit? then ArrayFrom(value) else value;
    var head := Assign(Fresh(c), value', true);
    var body := FirstBody(p, c);
    WrappedValue(h, value, s);
    assert Lower(p, value, None, c).stmts == [head] + body.stmts;
    RunOne(h, head, s);
    RunConcat(h, [head], body.stmts, s);
    FirstIsKept(h, p, c, Run(h, [head], s).value);
  }

  function FirstBody(p: Pattern, c: nat): Code
    requires p.ObjectPattern? || p.ArrayPattern?
  {
    if p.ObjectPattern? then ObjectBody(p, Fresh(c), Fresh(c), c + 1) else LowerElems(p, 0, Fresh(c), Fresh(c), c + 1)
  }

  lemma FirstIsKept(h: Interp, p: Pattern, c: nat, t: Store)
    requires (p.ObjectPattern? || p.ArrayPattern?) && Clean(p)
    requires Run(h, FirstBody(p, c).stmts, t).Some?
    ensures Same(Fresh(c), t, Run(h, FirstBody(p, c).stmts, t).value)
  {
    var body := FirstBody(p, c);
    FreshIssued(c);
    if p.ObjectPattern? {
      ObjectParts(p, Fresh(c), Fresh(c), c + 1);
    } else {
      LowerElemsWrites(p, 0, Fresh(c), Fresh(c), c + 1);
    }
    IssuedTwice(Fresh(c), c + 1, body.next);
    NotDerivedFromSelf(Fresh(c));
    forall i | 0 <= i < |body.stmts| ensures body.stmts[i].target != Fresh(c) {
      if Binds(p, body.stmts[i].target) { CleanTargets(p, body.stmts[i].target); }
    }
    RunFrame(h, body.stmts, t, Fresh(c));
  }
}
