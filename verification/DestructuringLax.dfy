/** The exact meaning of the lowered code, for every pattern: when it throws, and what it assigns. */
module DestructuringLax {
  import opened Prelude
  import opened JsValues
  import opened TempNames
  import opened Destructuring
  import opened DestructuringWrites

  // ---------------------------------------------------------------- what the lowered code does

  /** The key that the lowered code uses for a property: with a rest, a computed key that is not an
      identifier is evaluated before all properties, in s0. */
  function KeyAt(h: Interp, prop: Property, hasRest: bool, s0: Store, s: Store): Option<Value> {
    if hasRest && Hoisted(prop.key) then Eval(h, prop.key, s0) else KeyValue(h, prop, s)
  }

  ghost predicate HoistsEvaluate(h: Interp, p: Pattern, s: Store)
    requires p.ObjectPattern?
  {
    p.rest.Some? ==> forall j :: 0 <= j < |p.props| && Hoisted(p.props[j].key) ==> Eval(h, p.props[j].key, s).Some?
  }

  /** The keys that the call of the rest helper excludes, read after all properties, in s. */
  ghost function RestKeys(h: Interp, p: Pattern, s0: Store, s: Store): Option<seq<Value>>
    requires p.ObjectPattern?
  {
    if forall j :: 0 <= j < |p.props| ==> KeyAt(h, p.props[j], true, s0, s).Some?
    then Some(seq(|p.props|, j requires 0 <= j < |p.props| && KeyAt(h, p.props[j], true, s0, s).Some? => KeyAt(h, p.props[j], true, s0, s).value))
    else None
  }

  /** The value of a property as the lowered code reads it. */
  function PropValue(h: Interp, prop: Property, hasRest: bool, v: Value, s0: Store, s: Store): Option<Value> {
    var k :- KeyAt(h, prop, hasRest, s0, s);
    var name :- ToKey(k);
    Get(v, name)
  }

  /** Destructuring as the lowered code does it: arrays are read by index through the helper, a pattern
      without properties looks at nothing, and the rest uses its own helper. None is a throw. */
  ghost function Lax(h: Interp, p: Pattern, v: Value, s: Store): Option<Store>
    decreases p, 1, 0
  {
    match p
    case Target(x) => Some(s[x := v])
    case AssignmentPattern(left, right) =>
      var w :- if v == Undefined then Eval(h, right, s) else Some(v);
      Lax(h, left, w, s)
    case ObjectPattern(props, rest) => LaxObject(h, p, v, s)
    case ArrayPattern(elems, tail) => LaxElems(h, p, 0, ArrayFromValue(v), s)
  }

  ghost function LaxObject(h: Interp, p: Pattern, v: Value, s: Store): Option<Store>
    requires p.ObjectPattern?
    decreases p, 0, |p.props| + 1
  {
    if !HoistsEvaluate(h, p, s) then None else
    var s' :- LaxProps(h, p, 0, v, s, s);
    LaxRest(h, p, v, s, s')
  }

  ghost function LaxRest(h: Interp, p: Pattern, v: Value, s0: Store, s: Store): Option<Store>
    requires p.ObjectPattern?
  {
    if p.rest.None? then Some(s) else
    var ks :- RestKeys(h, p, s0, s);
    var r :- RestObjectValue(v, ks);
    Some(s[p.rest.value := r])
  }

  ghost function LaxProps(h: Interp, p: Pattern, i: nat, v: Value, s0: Store, s: Store): Option<Store>
    requires p.ObjectPattern? && i <= |p.props|
    decreases p, 0, |p.props| - i
  {
    if i == |p.props| then Some(s) else
    var w :- PropValue(h, p.props[i], p.rest.Some?, v, s0, s);
    var s' :- Lax(h, p.props[i].value, w, s);
    LaxProps(h, p, i + 1, v, s0, s')
  }

  ghost function LaxElems(h: Interp, p: Pattern, i: nat, a: Value, s: Store): Option<Store>
    requires p.ArrayPattern? && i <= |p.elems|
    decreases p, 0, |p.elems| - i
  {
    if i == |p.elems| then
      if p.tail.None? then Some(s) else
      var w :- RestArrayValue(a, i);
      Lax(h, p.tail.value, w, s)
    else if p.elems[i].None? then LaxElems(h, p, i + 1, a, s)
    else
      var w :- Get(a, Decimal(i));
      var s' :- Lax(h, p.elems[i].value, w, s);
      LaxElems(h, p, i + 1, a, s')
  }

  ghost function LaxOf(h: Interp, p: Pattern, v: Option<Value>, s: Store): Option<Store> {
    if v.None? then None else Lax(h, p, v.value, s)
  }

  /** Running the code from t ends in a store that shows the page the variables of s'. */
  ghost predicate Reaches(h: Interp, stmts: seq<Assign>, t: Store, s': Store) {
    Run(h, stmts, t).Some? && Agree(s', Run(h, stmts, t).value)
  }

  /** The code throws when there is no result, and otherwise reaches it. */
  ghost predicate Mirrors(h: Interp, stmts: seq<Assign>, t: Store, r: Option<Store>) {
    if r.None? then Run(h, stmts, t).None? else Reaches(h, stmts, t, r.value)
  }

  lemma MirrorsConcat(h: Interp, a: seq<Assign>, b: seq<Assign>, t: Store, r: Option<Store>)
    requires if Run(h, a, t).Some? then Mirrors(h, b, Run(h, a, t).value, r) else r.None?
    ensures Mirrors(h, a + b, t, r)
  {
    RunConcat(h, a, b, t);
  }

  // ---------------------------------------------------------------- temporaries that stay

  lemma {:induction false} CleanTargets(p: Pattern, n: string)
    requires Clean(p) && Binds(p, n)
    ensures !IsTemp(n)
    decreases p
  {
    match p
    case Target(x) =>
    case AssignmentPattern(left, right) => CleanTargets(left, n);
    case ObjectPattern(props, rest) =>
      if i :| 0 <= i < |props| && Binds(props[i].value, n) { CleanTargets(props[i].value, n); }
    case ArrayPattern(elems, tail) =>
      if i :| 0 <= i < |elems| && elems[i].Some? && Binds(elems[i].value, n) {
        CleanTargets(elems[i].value, n);
      } else {
        CleanTargets(tail.value, n);
      }
  }

  lemma NotDerivedFromSelf(n: string)
    ensures !Derived(n, n)
  {
  }

  lemma FreshNotDerived(k: nat, temp: string, c: nat)
    requires Issued(temp, c)
    ensures !Derived(Fresh(k), temp)
  {
    if Derived(Fresh(k), temp) {
      var j: nat, suffix: string :| j < c && IssuedAs(temp, j, suffix);
      DerivedIsIssued(Fresh(k), temp, j, suffix);
      assert IssuedAs(Fresh(k), k, "");
      IssuedOnce(Fresh(k), k, "", j, suffix + Fresh(k)[|temp|..]);
    }
  }

  lemma IssuedTwice(n: string, c: nat, hi: nat)
    requires Issued(n, c)
    ensures !IssuedBetween(n, c, hi)
  {
    if IssuedBetween(n, c, hi) {
      var k: nat, suffix: string :| k < c && IssuedAs(n, k, suffix);
      var k': nat, suffix': string :| c <= k' < hi && IssuedAs(n, k', suffix');
      IssuedOnce(n, k, suffix, k', suffix');
    }
  }

  /** Code for a part keeps every temporary issued before it that is not derived from `temp`:
      `temp` itself, and the keys that were evaluated up front. */
  lemma PartKeeps(h: Interp, q: Pattern, value: Expr, base: string, temp: string, c: nat, t: Store, n: string)
    requires Clean(q) && Derived(base, temp) && Issued(temp, c) && !IsTempIdent(value)
    requires Issued(n, c) && !Derived(n, temp)
    requires Run(h, Lower(q, value, Some(base), c).stmts, t).Some?
    ensures Same(n, t, Run(h, Lower(q, value, Some(base), c).stmts, t).value)
  {
    var code := Lower(q, value, Some(base), c);
    PartOf(q, q, value, base, temp, c);
    IssuedIsTemp(n, c);
    IssuedTwice(n, c, code.next);
    forall i | 0 <= i < |code.stmts| ensures code.stmts[i].target != n {
      if code.stmts[i].target == n && Binds(q, n) {
        CleanTargets(q, n);
      }
    }
    RunFrame(h, code.stmts, t, n);
  }

  lemma RunOne(h: Interp, a: Assign, t: Store)
    requires Eval(h, a.value, t).Some?
    ensures Run(h, [a], t) == Some(t[a.target := Eval(h, a.value, t).value])
  {
    var t' := t[a.target := Eval(h, a.value, t).value];
    assert [a][1..] == [];
    assert Run(h, [], t') == Some(t');
  }

  lemma AgreeTemp(s: Store, t: Store, n: string, v: Value)
    requires Agree(s, t) && IsTemp(n)
    ensures Agree(s, t[n := v])
  {
  }

  lemma TempForRuns(h: Interp, value: Expr, base: Option<string>, c: nat, v: Value, s: Store, t: Store)
    requires BaseOk(value, base, c) && Agree(s, t) && Eval(h, value, t) == Some(v)
    ensures var (temp, pre) := TempFor(value, base, c);
            && Reaches(h, pre.stmts, t, s)
            && var t' := Run(h, pre.stmts, t).value; temp in t' && t'[temp] == v
  {
    var (temp, pre) := TempFor(value, base, c);
    TempForFacts(value, base, c);
    if pre.stmts != [] {
      RunOne(h, pre.stmts[0], t);
      assert pre.stmts == [pre.stmts[0]];
      AgreeTemp(s, t, temp, v);
    }
  }

  // ---------------------------------------------------------------- keys

  /** Key j of a pattern as it is read by the lowered code: the key itself, or a temporary that
      holds the value the key has in s, the store before all properties. */
  ghost predicate KeyReady(h: Interp, prop: Property, hasRest: bool, key: Expr, s: Store, t: Store, temp: string, c: nat) {
    || Unchanged(prop, hasRest, key)
    || (hasRest && HoistedInto(prop, key, temp, c) && key.name in t && Eval(h, prop.key, s) == Some(t[key.name]))
  }

  predicate Unchanged(prop: Property, hasRest: bool, key: Expr) {
    key == prop.key && !(hasRest && Hoisted(prop.key))
  }

  ghost predicate HoistedInto(prop: Property, key: Expr, temp: string, c: nat) {
    Hoisted(prop.key) && prop.computed && key.Ident? && Issued(key.name, c) && !Derived(key.name, temp)
  }

  ghost predicate KeysReady(h: Interp, p: Pattern, keys: seq<Expr>, s0: Store, t: Store, temp: string, c: nat)
    requires p.ObjectPattern? && |keys| == |p.props|
  {
    forall j :: 0 <= j < |keys| ==> KeyReady(h, p.props[j], p.rest.Some?, keys[j], s0, t, temp, c)
  }

  /** The expression that names property j in the call of the rest helper. */
  function NameOf(prop: Property, key: Expr): Expr {
    if prop.key.Ident? && !prop.computed then Lit(Str(prop.key.name)) else key
  }

  lemma KeyReadyWiden(prop: Property, key: Expr, temp: string, c: nat, c': nat)
    requires HoistedInto(prop, key, temp, c) && c <= c'
    ensures HoistedInto(prop, key, temp, c')
  {
    IssuedMonotone(key.name, c, c');
  }

  ghost predicate CleanKey(prop: Property) {
    if prop.computed then UserExpr(prop.key) else prop.key.Ident? || prop.key.Lit?
  }

  /** The lowered code reads the property that its key selects. */
  lemma MemberSelects(h: Interp, prop: Property, hasRest: bool, key: Expr, temp: string, c: nat, v: Value, s0: Store, s: Store, t: Store)
    requires CleanKey(prop) && Agree(s, t) && temp in t && t[temp] == v
    requires KeyReady(h, prop, hasRest, key, s0, t, temp, c)
    ensures Eval(h, Member(Ident(temp), key, prop.computed || key.Lit?), t) == PropValue(h, prop, hasRest, v, s0, s)
  {
    if Unchanged(prop, hasRest, key) && prop.computed {
      EvalAgree(h, key, s, t);
    }
  }

  /** The call of the rest helper names a property by the same key. */
  lemma NameSelects(h: Interp, prop: Property, key: Expr, temp: string, c: nat, s0: Store, s: Store, t: Store)
    requires CleanKey(prop) && Agree(s, t) && KeyReady(h, prop, true, key, s0, t, temp, c)
    ensures Eval(h, NameOf(prop, key), t) == KeyAt(h, prop, true, s0, s)
  {
    if Unchanged(prop, true, key) && prop.computed {
      EvalAgree(h, key, s, t);
    }
  }

  ghost predicate KeepsIssued(t: Store, t': Store, c: nat) {
    forall n :: Issued(n, c) ==> Same(n, t, t')
  }

  /** The plan for the properties from i on, once its hoists have run from s into t. */
  ghost predicate PlanReady(h: Interp, p: Pattern, i: nat, plan: KeyPlan, s: Store, t: Store, temp: string)
    requires p.ObjectPattern? && i <= |p.props|
  {
    && |plan.keys| == |p.props| - i
    && (p.rest.Some? ==> |plan.names| == |plan.keys|)
    && forall j :: 0 <= j < |plan.keys| ==> PlanReadyAt(h, p, i, plan, j, s, t, temp)
  }

  ghost predicate PlanReadyAt(h: Interp, p: Pattern, i: nat, plan: KeyPlan, j: nat, s: Store, t: Store, temp: string)
    requires p.ObjectPattern? && i <= |p.props| && |plan.keys| == |p.props| - i && j < |plan.keys|
    requires p.rest.Some? ==> |plan.names| == |plan.keys|
  {
    && KeyReady(h, p.props[i + j], p.rest.Some?, plan.keys[j], s, t, temp, plan.next)
    && (p.rest.Some? ==> plan.names[j] == NameOf(p.props[i + j], plan.keys[j]))
  }

  lemma ConsPlan(h: Interp, p: Pattern, i: nat, plan: KeyPlan, others: KeyPlan, s: Store, t: Store, temp: string)
    requires p.ObjectPattern? && i < |p.props| && PlanReady(h, p, i + 1, others, s, t, temp)
    requires |plan.keys| == |p.props| - i && (p.rest.Some? ==> |plan.names| == |plan.keys|)
    requires plan.keys[1..] == others.keys && plan.next == others.next && (p.rest.Some? ==> plan.names[1..] == others.names)
    requires PlanReadyAt(h, p, i, plan, 0, s, t, temp)
    ensures PlanReady(h, p, i, plan, s, t, temp)
  {
    forall j | 0 <= j < |plan.keys| ensures PlanReadyAt(h, p, i, plan, j, s, t, temp) {
      if j > 0 {
        assert PlanReadyAt(h, p, i + 1, others, j - 1, s, t, temp);
        assert plan.keys[j] == plan.keys[1..][j - 1];
        if p.rest.Some? { assert plan.names[j] == plan.names[1..][j - 1]; }
      }
    }
  }

  /** Running the hoists of the properties from i on shows the page nothing, keeps every
      temporary issued before, and makes the plan ready. */
  ghost predicate HoistsDone(h: Interp, p: Pattern, i: nat, temp: string, c: nat, s: Store, t: Store)
    requires p.ObjectPattern? && i <= |p.props|
  {
    var plan := PlanKeys(p.props, p.rest.Some?, i, c);
    && Reaches(h, plan.hoists, t, s)
    && KeepsIssued(t, Run(h, plan.hoists, t).value, c)
    && PlanReady(h, p, i, plan, s, Run(h, plan.hoists, t).value, temp)
  }

  lemma NoHoists(h: Interp, p: Pattern, temp: string, c: nat, s: Store, t: Store)
    requires p.ObjectPattern? && Agree(s, t)
    ensures HoistsDone(h, p, |p.props|, temp, c, s, t)
  {
    assert Run(h, [], t) == Some(t);
  }

  lemma {:induction false} HoistsMeaning(h: Interp, p: Pattern, i: nat, temp: string, c0: nat, c: nat, s: Store, t: Store)
    requires p.ObjectPattern? && i <= |p.props| && Clean(p)
    requires Issued(temp, c0) && c0 <= c && Agree(s, t)
    requires p.rest.Some? ==> forall j :: i <= j < |p.props| && Hoisted(p.props[j].key) ==> Eval(h, p.props[j].key, s).Some?
    ensures HoistsDone(h, p, i, temp, c, s, t)
    decreases |p.props| - i, 1
  {
    if i == |p.props| {
      NoHoists(h, p, temp, c, s, t);
    } else if p.rest.Some? && Hoisted(p.props[i].key) {
      KeyHoisted(h, p, i, temp, c0, c, s, t, p.props[i].key);
    } else {
      HoistsMeaning(h, p, i + 1, temp, c0, c, s, t);
      PlainStep(h, p, i, temp, c, s, t);
    }
  }

  lemma {:induction false} KeyHoisted(h: Interp, p: Pattern, i: nat, temp: string, c0: nat, c: nat, s: Store, t: Store, key: Expr)
    requires p.ObjectPattern? && i < |p.props| && Clean(p) && p.rest.Some? && Hoisted(key) && key == p.props[i].key
    requires Issued(temp, c0) && c0 <= c && Agree(s, t)
    requires forall j :: i <= j < |p.props| && Hoisted(p.props[j].key) ==> Eval(h, p.props[j].key, s).Some?
    ensures HoistsDone(h, p, i, temp, c, s, t)
    decreases |p.props| - i, 0
  {
    EvalAgree(h, key, s, t);
    var v := Eval(h, key, s).value;
    AgreeTemp(s, t, Fresh(c), v);
    HoistsMeaning(h, p, i + 1, temp, c0, c + 1, s, t[Fresh(c) := v]);
    HoistStep(h, p, i, temp, c0, c, v, s, t);
  }

  lemma PlainStep(h: Interp, p: Pattern, i: nat, temp: string, c: nat, s: Store, t: Store)
    requires p.ObjectPattern? && i < |p.props| && Clean(p) && !(p.rest.Some? && Hoisted(p.props[i].key))
    requires HoistsDone(h, p, i + 1, temp, c, s, t)
    ensures HoistsDone(h, p, i, temp, c, s, t)
  {
    var plan, others := PlanKeys(p.props, p.rest.Some?, i, c), PlanKeys(p.props, p.rest.Some?, i + 1, c);
    assert plan.hoists == others.hoists;
    ConsPlan(h, p, i, plan, others, s, Run(h, plan.hoists, t).value, temp);
  }

  lemma HoistStep(h: Interp, p: Pattern, i: nat, temp: string, c0: nat, c: nat, v: Value, s: Store, t: Store)
    requires p.ObjectPattern? && i < |p.props| && Clean(p) && p.rest.Some? && Hoisted(p.props[i].key)
    requires Issued(temp, c0) && c0 <= c && Agree(s, t)
    requires Eval(h, p.props[i].key, s) == Some(v) && Eval(h, p.props[i].key, t) == Some(v)
    requires HoistsDone(h, p, i + 1, temp, c + 1, s, t[Fresh(c) := v])
    ensures HoistsDone(h, p, i, temp, c, s, t)
  {
    var key := p.props[i].key;
    var plan, others := PlanKeys(p.props, true, i, c), PlanKeys(p.props, true, i + 1, c + 1);
    var head := Assign(Fresh(c), key, true);
    var t1 := t[Fresh(c) := v];
    RunOne(h, head, t);
    RunConcat(h, [head], others.hoists, t);
    var t' := Run(h, others.hoists, t1).value;
    assert plan == KeyPlan([Ident(Fresh(c))] + others.keys, [Ident(Fresh(c))] + others.names, [head] + others.hoists, others.next);
    FreshIssued(c);
    FreshNotDerived(c, temp, c0);
    IssuedMonotone(Fresh(c), c + 1, plan.next);
    assert Same(Fresh(c), t1, t');
    assert PlanReadyAt(h, p, i, plan, 0, s, t', temp);
    ConsPlan(h, p, i, plan, others, s, t', temp);
    KeepsChain(t, v, t', c);
  }

  lemma KeepsChain(t: Store, v: Value, t': Store, c: nat)
    requires KeepsIssued(t[Fresh(c) := v], t', c + 1)
    ensures KeepsIssued(t, t', c)
  {
    FreshIssued(c);
    forall n | Issued(n, c) ensures Same(n, t, t') {
      IssuedMonotone(n, c, c + 1);
      IssuedTwice(n, c, c + 1);
      assert n != Fresh(c);
      assert Same(n, t[Fresh(c) := v], t');
    }
  }

  /** A key that cannot be evaluated makes the hoists throw. */
  lemma {:induction false} HoistsThrow(h: Interp, p: Pattern, i: nat, c: nat, s: Store, t: Store)
    requires p.ObjectPattern? && i <= |p.props| && Clean(p) && p.rest.Some? && Agree(s, t)
    requires exists j :: i <= j < |p.props| && Hoisted(p.props[j].key) && Eval(h, p.props[j].key, s).None?
    ensures Run(h, PlanKeys(p.props, true, i, c).hoists, t).None?
    decreases |p.props| - i
  {
    var key := p.props[i].key;
    if Hoisted(key) {
      EvalAgree(h, key, s, t);
      var others := PlanKeys(p.props, true, i + 1, c + 1);
      var v := Eval(h, key, t);
      assert PlanKeys(p.props, true, i, c).hoists[0] == Assign(Fresh(c), key, true);
      assert PlanKeys(p.props, true, i, c).hoists[1..] == others.hoists;
      if v.Some? {
        AgreeTemp(s, t, Fresh(c), v.value);
        HoistsThrow(h, p, i + 1, c + 1, s, t[Fresh(c) := v.value]);
      }
    } else {
      HoistsThrow(h, p, i + 1, c, s, t);
    }
  }

  // ---------------------------------------------------------------- the induction over patterns

  lemma AssignBase(temp: string, c: nat)
    requires Issued(temp, c)
    ensures Issued(temp + "$assign", c)
  {
    var b := temp + "$assign";
    assert b[..|temp| + 1] == temp + "$";
    DerivedIssued(b, temp, c);
  }

  /** An array literal is used as it is; wrapping it would change nothing. */
  lemma WrappedValue(h: Interp, value: Expr, t: Store)
    requires Eval(h, value, t).Some?
    ensures Eval(h, if value.ArrayLit? then value else ArrayFrom(value), t) == Some(ArrayFromValue(Eval(h, value, t).value))
  {
  }

  lemma EvalAllIs(h: Interp, es: seq<Expr>, vs: seq<Value>, t: Store)
    requires |es| == |vs| && forall j :: 0 <= j < |es| ==> Eval(h, es[j], t) == Some(vs[j])
    ensures EvalAll(h, es, t) == Some(vs)
  {
    var r := EvalAll(h, es, t);
    if r.Some? {
      assert r.value == vs;
    }
  }

  /** Code for a value that cannot be evaluated throws. */
  lemma LowerThrows(h: Interp, p: Pattern, value: Expr, base: Option<string>, c: nat, t: Store)
    requires Eval(h, value, t).None? && !IsTempIdent(value)
    ensures Run(h, Lower(p, value, base, c).stmts, t).None?
  {
    var value' := if p.ArrayPattern? && !value.ArrayLit? then ArrayFrom(value) else value;
    assert Eval(h, value', t).None?;
    assert Lower(p, value, base, c).stmts[0].value == value';
  }

  /** The lowered code throws exactly when lax destructuring does, and otherwise shows the page the same
      variables. */
  lemma {:induction false} LowerMirrors(h: Interp, p: Pattern, value: Expr, base: Option<string>, c: nat, s: Store, t: Store)
    requires Clean(p) && BaseOk(value, base, c) && Agree(s, t)
    requires IsTempIdent(value) ==> Eval(h, value, t).Some?
    ensures Mirrors(h, Lower(p, value, base, c).stmts, t, LaxOf(h, p, Eval(h, value, t), s))
    decreases p, 1, 0
  {
    if Eval(h, value, t).None? {
      LowerThrows(h, p, value, base, c, t);
    } else {
      var v := Eval(h, value, t).value;
      match p
      case Target(x) => RunOne(h, Assign(x, value, false), t);
      case AssignmentPattern(left, right) => DefaultMirrors(h, p, value, base, c, v, s, t);
      case ObjectPattern(props, rest) =>
        var (temp, pre) := TempFor(value, base, c);
        TempForFacts(value, base, c);
        TempForRuns(h, value, base, c, v, s, t);
        ObjectMirrors(h, p, temp, pre.next, v, s, Run(h, pre.stmts, t).value);
        MirrorsConcat(h, pre.stmts, ObjectBody(p, temp, temp, pre.next).stmts, t, Lax(h, p, v, s));
      case ArrayPattern(elems, tail) => ArrayMirrors(h, p, value, base, c, v, s, t);
    }
  }

  /** The value that reaches the left side of a default. */
  function DefaultOf(h: Interp, p: Pattern, v: Value, s: Store): Option<Value>
    requires p.AssignmentPattern?
  {
    if v == Undefined then Eval(h, p.right, s) else Some(v)
  }

  lemma DefaultSelects(h: Interp, p: Pattern, temp: string, v: Value, s: Store, t: Store)
    requires p.AssignmentPattern? && Clean(p) && Agree(s, t) && temp in t && t[temp] == v
    ensures Eval(h, IfUndefined(Ident(temp), p.right), t) == DefaultOf(h, p, v, s)
    ensures Lax(h, p, v, s) == LaxOf(h, p.left, DefaultOf(h, p, v, s), s)
  {
    EvalAgree(h, p.right, s, t);
  }

  lemma {:induction false} DefaultMirrors(h: Interp, p: Pattern, value: Expr, base: Option<string>, c: nat, v: Value, s: Store, t: Store)
    requires p.AssignmentPattern? && Clean(p) && BaseOk(value, base, c) && Agree(s, t) && Eval(h, value, t) == Some(v)
    ensures Mirrors(h, Lower(p, value, base, c).stmts, t, Lax(h, p, v, s))
    decreases p, 0, 0
  {
    var (temp, pre) := TempFor(value, base, c);
    TempForFacts(value, base, c);
    TempForRuns(h, value, base, c, v, s, t);
    var t1 := Run(h, pre.stmts, t).value;
    var b, value' := temp + "$assign", IfUndefined(Ident(temp), p.right);
    DefaultSelects(h, p, temp, v, s, t1);
    AssignBase(temp, pre.next);
    LowerMirrors(h, p.left, value', Some(b), pre.next, s, t1);
    var body := Lower(p.left, value', Some(b), pre.next);
    MirrorsConcat(h, pre.stmts, body.stmts, t, Lax(h, p, v, s));
  }

  lemma {:induction false} ArrayMirrors(h: Interp, p: Pattern, value: Expr, base: Option<string>, c: nat, v: Value, s: Store, t: Store)
    requires p.ArrayPattern? && Clean(p) && BaseOk(value, base, c) && Agree(s, t) && Eval(h, value, t) == Some(v)
    ensures Mirrors(h, Lower(p, value, base, c).stmts, t, Lax(h, p, v, s))
    decreases p, 0, |p.elems| + 2
  {
    var value' := if value.ArrayLit? then value else ArrayFrom(value);
    var (temp, pre) := TempFor(value', base, c);
    TempForFacts(value', base, c);
    WrappedValue(h, value, t);
    TempForRuns(h, value', base, c, ArrayFromValue(v), s, t);
    ElemsMirror(h, p, 0, temp, pre.next, s, Run(h, pre.stmts, t).value);
    MirrorsConcat(h, pre.stmts, LowerElems(p, 0, temp, temp, pre.next).stmts, t, Lax(h, p, v, s));
  }

  lemma {:induction false} ObjectMirrors(h: Interp, p: Pattern, temp: string, c: nat, v: Value, s: Store, t: Store)
    requires p.ObjectPattern? && Clean(p) && Issued(temp, c) && Agree(s, t) && temp in t && t[temp] == v
    ensures Mirrors(h, ObjectBody(p, temp, temp, c).stmts, t, LaxObject(h, p, v, s))
    decreases p, 0, |p.props| + 1
  {
    var plan := PlanKeys(p.props, p.rest.Some?, 0, c);
    var body := LowerProps(p, plan.keys, 0, temp, temp, [], plan.next);
    RunConcat(h, plan.hoists, body.stmts + RestAssign(p, temp, plan.names), t);
    if !HoistsEvaluate(h, p, s) {
      HoistsThrow(h, p, 0, c, s, t);
    } else {
      HoistsMeaning(h, p, 0, temp, c, c, s, t);
      var t1 := Run(h, plan.hoists, t).value;
      assert Same(temp, t, t1);
      IssuedMonotone(temp, c, plan.next);
      PlanIsReady(h, p, plan, s, t1, temp);
      PropsMirror(h, p, plan.keys, 0, temp, [], plan.next, v, s, s, t1);
      RunConcat(h, body.stmts, RestAssign(p, temp, plan.names), t1);
      var s' := LaxProps(h, p, 0, v, s, s);
      if s'.Some? {
        RestMirrors(h, p, plan, temp, body.next, v, s, s'.value, Run(h, body.stmts, t1).value);
      }
    }
  }

  lemma PlanIsReady(h: Interp, p: Pattern, plan: KeyPlan, s: Store, t: Store, temp: string)
    requires p.ObjectPattern? && PlanReady(h, p, 0, plan, s, t, temp)
    ensures KeysReady(h, p, plan.keys, s, t, temp, plan.next)
    ensures p.rest.Some? ==> NamesMatch(p, plan)
  {
    forall j | 0 <= j < |plan.keys| ensures KeyReady(h, p.props[j], p.rest.Some?, plan.keys[j], s, t, temp, plan.next)
                                    ensures p.rest.Some? ==> plan.names[j] == NameOf(p.props[j], plan.keys[j]) {
      assert PlanReadyAt(h, p, 0, plan, j, s, t, temp);
    }
  }

  predicate NamesMatch(p: Pattern, plan: KeyPlan)
    requires p.ObjectPattern?
  {
    |plan.names| == |plan.keys| == |p.props| && forall j :: 0 <= j < |plan.names| ==> plan.names[j] == NameOf(p.props[j], plan.keys[j])
  }

  lemma RestMirrors(h: Interp, p: Pattern, plan: KeyPlan, temp: string, c: nat, v: Value, s0: Store, s: Store, t: Store)
    requires p.ObjectPattern? && Clean(p) && Agree(s, t) && temp in t && t[temp] == v && |plan.keys| == |p.props|
    requires KeysReady(h, p, plan.keys, s0, t, temp, c) && (p.rest.Some? ==> NamesMatch(p, plan))
    ensures Mirrors(h, RestAssign(p, temp, plan.names), t, LaxRest(h, p, v, s0, s))
  {
    if p.rest.Some? {
      NamesMirror(h, p, plan, temp, c, s0, s, t);
      RestSelects(h, p, plan.names, temp, v, s0, s, t);
      AssignMirrors(h, Assign(p.rest.value, RestObject(Ident(temp), plan.names), false), s, t);
    } else {
      assert Run(h, [], t) == Some(t);
    }
  }

  lemma RestSelects(h: Interp, p: Pattern, names: seq<Expr>, temp: string, v: Value, s0: Store, s: Store, t: Store)
    requires p.ObjectPattern? && p.rest.Some? && temp in t && t[temp] == v && EvalAll(h, names, t) == RestKeys(h, p, s0, s)
    ensures var r := Eval(h, RestObject(Ident(temp), names), t);
            LaxRest(h, p, v, s0, s) == if r.Some? then Some(s[p.rest.value := r.value]) else None
  {
  }

  lemma AssignMirrors(h: Interp, a: Assign, s: Store, t: Store)
    requires Agree(s, t)
    ensures Mirrors(h, [a], t, if Eval(h, a.value, t).Some? then Some(s[a.target := Eval(h, a.value, t).value]) else None)
  {
    if Eval(h, a.value, t).Some? { RunOne(h, a, t); }
  }

  lemma NamesMirror(h: Interp, p: Pattern, plan: KeyPlan, temp: string, c: nat, s0: Store, s: Store, t: Store)
    requires p.ObjectPattern? && p.rest.Some? && Clean(p) && Agree(s, t) && |plan.keys| == |p.props|
    requires KeysReady(h, p, plan.keys, s0, t, temp, c) && NamesMatch(p, plan)
    ensures EvalAll(h, plan.names, t) == RestKeys(h, p, s0, s)
  {
    forall j | 0 <= j < |p.props| ensures Eval(h, plan.names[j], t) == KeyAt(h, p.props[j], true, s0, s) {
      NameSelects(h, p.props[j], plan.keys[j], temp, c, s0, s, t);
    }
    if RestKeys(h, p, s0, s).Some? {
      EvalAllIs(h, plan.names, RestKeys(h, p, s0, s).value, t);
    } else {
      var j :| 0 <= j < |p.props| && KeyAt(h, p.props[j], true, s0, s).None?;
      assert Eval(h, plan.names[j], t).None?;
    }
  }

  /** What stays true for the properties that follow. */
  ghost predicate PropsReady(h: Interp, p: Pattern, keys: seq<Expr>, temp: string, c: nat, v: Value, s0: Store, t: Store)
    requires p.ObjectPattern? && |keys| == |p.props|
  {
    Issued(temp, c) && temp in t && t[temp] == v && KeysReady(h, p, keys, s0, t, temp, c)
  }

  lemma PropsUnfold(h: Interp, p: Pattern, i: nat, v: Value, s0: Store, s: Store)
    requires p.ObjectPattern? && i < |p.props|
    ensures var s1 := LaxOf(h, p.props[i].value, PropValue(h, p.props[i], p.rest.Some?, v, s0, s), s);
            LaxProps(h, p, i, v, s0, s) == if s1.Some? then LaxProps(h, p, i + 1, v, s0, s1.value) else None
  {
  }

  ghost predicate AtProps(h: Interp, p: Pattern, keys: seq<Expr>, temp: string, c: nat, v: Value, s0: Store, s: Store, t: Store)
    requires p.ObjectPattern? && |keys| == |p.props|
  {
    Agree(s, t) && PropsReady(h, p, keys, temp, c, v, s0, t)
  }

  /** The code mirrors the result and leaves everything ready for the properties that follow. */
  ghost predicate PropsDone(h: Interp, p: Pattern, keys: seq<Expr>, code: Code, temp: string, v: Value, s0: Store, t: Store, r: Option<Store>)
    requires p.ObjectPattern? && |keys| == |p.props|
  {
    && Mirrors(h, code.stmts, t, r)
    && (r.Some? ==> AtProps(h, p, keys, temp, code.next, v, s0, r.value, Run(h, code.stmts, t).value))
  }

  lemma PropsDoneConcat(h: Interp, p: Pattern, keys: seq<Expr>, first: Code, others: Code, temp: string, v: Value, s0: Store, t: Store,
                        r1: Option<Store>, r: Option<Store>)
    requires p.ObjectPattern? && |keys| == |p.props| && PropsDone(h, p, keys, first, temp, v, s0, t, r1)
    requires if r1.Some? then PropsDone(h, p, keys, others, temp, v, s0, Run(h, first.stmts, t).value, r) else r.None?
    ensures PropsDone(h, p, keys, Code(first.stmts + others.stmts, others.next), temp, v, s0, t, r)
  {
    RunConcat(h, first.stmts, others.stmts, t);
  }

  /** The code for property i. */
  function PropCode(p: Pattern, keys: seq<Expr>, i: nat, temp: string, used: seq<string>, c: nat): Code
    requires p.ObjectPattern? && i < |p.props| == |keys|
  {
    Lower(p.props[i].value, Member(Ident(temp), keys[i], p.props[i].computed || keys[i].Lit?), Some(PropBase(temp, keys[i], i, used)), c)
  }

  lemma PropsStep(h: Interp, p: Pattern, keys: seq<Expr>, i: nat, temp: string, used: seq<string>, c: nat, v: Value, s0: Store, s: Store,
                  t: Store, s1: Option<Store>)
    requires p.ObjectPattern? && i < |p.props| == |keys|
    requires s1 == LaxOf(h, p.props[i].value, PropValue(h, p.props[i], p.rest.Some?, v, s0, s), s)
    requires PropsDone(h, p, keys, PropCode(p, keys, i, temp, used, c), temp, v, s0, t, s1)
    requires s1.Some? ==>
               var first, used' := PropCode(p, keys, i, temp, used, c), used + [PropBase(temp, keys[i], i, used)];
               PropsDone(h, p, keys, LowerProps(p, keys, i + 1, temp, temp, used', first.next), temp, v, s0, Run(h, first.stmts, t).value,
                         LaxProps(h, p, i + 1, v, s0, s1.value))
    ensures PropsDone(h, p, keys, LowerProps(p, keys, i, temp, temp, used, c), temp, v, s0, t, LaxProps(h, p, i, v, s0, s))
  {
    var first, used' := PropCode(p, keys, i, temp, used, c), used + [PropBase(temp, keys[i], i, used)];
    PropsUnfold(h, p, i, v, s0, s);
    LowerPropsStep(p, keys, i, temp, temp, used, c);
    PropsDoneConcat(h, p, keys, first, LowerProps(p, keys, i + 1, temp, temp, used', first.next), temp, v, s0, t, s1, LaxProps(h, p, i, v, s0, s));
  }

  lemma {:induction false} PropsMirror(h: Interp, p: Pattern, keys: seq<Expr>, i: nat, temp: string, used: seq<string>, c: nat,
                                       v: Value, s0: Store, s: Store, t: Store)
    requires p.ObjectPattern? && i <= |p.props| == |keys| && Clean(p)
    requires AtProps(h, p, keys, temp, c, v, s0, s, t)
    ensures PropsDone(h, p, keys, LowerProps(p, keys, i, temp, temp, used, c), temp, v, s0, t, LaxProps(h, p, i, v, s0, s))
    decreases p, 0, |p.props| - i, 1
  {
    if i == |p.props| {
      NoProps(h, p, keys, temp, used, c, v, s0, s, t);
    } else {
      PropMirrors(h, p, keys, i, temp, used, c, v, s0, s, t);
      var s1 := LaxOf(h, p.props[i].value, PropValue(h, p.props[i], p.rest.Some?, v, s0, s), s);
      OthersMirror(h, p, keys, i, temp, v, s0, t, s1, PropCode(p, keys, i, temp, used, c), used + [PropBase(temp, keys[i], i, used)]);
      PropsStep(h, p, keys, i, temp, used, c, v, s0, s, t, s1);
    }
  }

  lemma {:induction false} OthersMirror(h: Interp, p: Pattern, keys: seq<Expr>, i: nat, temp: string, v: Value, s0: Store, t: Store,
                                        s1: Option<Store>, first: Code, used: seq<string>)
    requires p.ObjectPattern? && i < |p.props| == |keys| && Clean(p)
    requires PropsDone(h, p, keys, first, temp, v, s0, t, s1)
    ensures s1.Some? ==> PropsDone(h, p, keys, LowerProps(p, keys, i + 1, temp, temp, used, first.next), temp, v, s0, Run(h, first.stmts, t).value,
                                   LaxProps(h, p, i + 1, v, s0, s1.value))
    decreases p, 0, |p.props| - i, 0
  {
    if s1.Some? { PropsMirror(h, p, keys, i + 1, temp, used, first.next, v, s0, s1.value, Run(h, first.stmts, t).value); }
  }

  lemma NoProps(h: Interp, p: Pattern, keys: seq<Expr>, temp: string, used: seq<string>, c: nat, v: Value, s0: Store, s: Store, t: Store)
    requires p.ObjectPattern? && |p.props| == |keys| && Agree(s, t) && PropsReady(h, p, keys, temp, c, v, s0, t)
    ensures PropsDone(h, p, keys, LowerProps(p, keys, |keys|, temp, temp, used, c), temp, v, s0, t, LaxProps(h, p, |keys|, v, s0, s))
  {
    assert Run(h, [], t) == Some(t);
    assert LowerProps(p, keys, |keys|, temp, temp, used, c) == Code([], c);
  }

  lemma {:induction false} PropMirrors(h: Interp, p: Pattern, keys: seq<Expr>, i: nat, temp: string, used: seq<string>, c: nat,
                                       v: Value, s0: Store, s: Store, t: Store)
    requires p.ObjectPattern? && i < |p.props| == |keys| && Clean(p) && Agree(s, t)
    requires PropsReady(h, p, keys, temp, c, v, s0, t)
    ensures PropsDone(h, p, keys, PropCode(p, keys, i, temp, used, c), temp, v, s0, t,
                      LaxOf(h, p.props[i].value, PropValue(h, p.props[i], p.rest.Some?, v, s0, s), s))
    decreases p, 0, 0
  {
    var prop, childBase := p.props[i], PropBase(temp, keys[i], i, used);
    var value := Member(Ident(temp), keys[i], prop.computed || keys[i].Lit?);
    MemberSelects(h, prop, p.rest.Some?, keys[i], temp, c, v, s0, s, t);
    PropBaseIsDerived(temp, keys[i], i, used);
    DerivedIssued(childBase, temp, c);
    LowerMirrors(h, prop.value, value, Some(childBase), c, s, t);
    if Run(h, PropCode(p, keys, i, temp, used, c).stmts, t).Some? {
      PropsStayReady(h, p, keys, i, temp, childBase, c, v, s0, t);
    }
  }

  lemma PropsStayReady(h: Interp, p: Pattern, keys: seq<Expr>, i: nat, temp: string, childBase: string, c: nat, v: Value, s0: Store, t: Store)
    requires p.ObjectPattern? && i < |p.props| == |keys| && Clean(p) && Derived(childBase, temp)
    requires PropsReady(h, p, keys, temp, c, v, s0, t)
    requires Run(h, Lower(p.props[i].value, Member(Ident(temp), keys[i], p.props[i].computed || keys[i].Lit?), Some(childBase), c).stmts, t).Some?
    ensures var code := Lower(p.props[i].value, Member(Ident(temp), keys[i], p.props[i].computed || keys[i].Lit?), Some(childBase), c);
            PropsReady(h, p, keys, temp, code.next, v, s0, Run(h, code.stmts, t).value)
  {
    var q, value := p.props[i].value, Member(Ident(temp), keys[i], p.props[i].computed || keys[i].Lit?);
    var code := Lower(q, value, Some(childBase), c);
    var t1 := Run(h, code.stmts, t).value;
    PartOf(q, q, value, childBase, temp, c);
    NotDerivedFromSelf(temp);
    PartKeeps(h, q, value, childBase, temp, c, t, temp);
    forall j | 0 <= j < |keys| ensures KeyReady(h, p.props[j], p.rest.Some?, keys[j], s0, t1, temp, code.next) {
      assert KeyReady(h, p.props[j], p.rest.Some?, keys[j], s0, t, temp, c);
      if !Unchanged(p.props[j], p.rest.Some?, keys[j]) {
        PartKeeps(h, q, value, childBase, temp, c, t, keys[j].name);
        KeyReadyWiden(p.props[j], keys[j], temp, c, code.next);
      }
    }
  }

  lemma ElementSelects(h: Interp, p: Pattern, i: nat, temp: string, s: Store, t: Store)
    requires p.ArrayPattern? && i < |p.elems| && p.elems[i].Some? && temp in t
    ensures Eval(h, Member(Ident(temp), Lit(Number(i)), true), t) == Get(t[temp], Decimal(i))
    ensures var s1 := LaxOf(h, p.elems[i].value, Get(t[temp], Decimal(i)), s);
            LaxElems(h, p, i, t[temp], s) == if s1.Some? then LaxElems(h, p, i + 1, t[temp], s1.value) else None
  {
  }

  lemma {:induction false} ElemsMirror(h: Interp, p: Pattern, i: nat, temp: string, c: nat, s: Store, t: Store)
    requires p.ArrayPattern? && i <= |p.elems| && Clean(p) && Issued(temp, c) && Agree(s, t) && temp in t
    ensures Mirrors(h, LowerElems(p, i, temp, temp, c).stmts, t, LaxElems(h, p, i, t[temp], s))
    decreases p, 0, |p.elems| - i + 1
  {
    if i == |p.elems| {
      if p.tail.Some? {
        TailMirrors(h, p, temp, c, s, t);
      } else {
        assert Run(h, [], t) == Some(t);
      }
    } else if p.elems[i].None? {
      ElemsMirror(h, p, i + 1, temp, c, s, t);
    } else {
      ElemMirrors(h, p, i, temp, c, s, t);
      var value := Member(Ident(temp), Lit(Number(i)), true);
      var first := Lower(p.elems[i].value, value, Some(GenerateName(temp, None, i)), c);
      ElementSelects(h, p, i, temp, s, t);
      var s1 := LaxOf(h, p.elems[i].value, Get(t[temp], Decimal(i)), s);
      if s1.Some? {
        ElemsMirror(h, p, i + 1, temp, first.next, s1.value, Run(h, first.stmts, t).value);
      }
      MirrorsConcat(h, first.stmts, LowerElems(p, i + 1, temp, temp, first.next).stmts, t, LaxElems(h, p, i, t[temp], s));
    }
  }

  lemma {:induction false} TailMirrors(h: Interp, p: Pattern, temp: string, c: nat, s: Store, t: Store)
    requires p.ArrayPattern? && p.tail.Some? && Clean(p) && Issued(temp, c) && Agree(s, t) && temp in t
    ensures Mirrors(h, LowerElems(p, |p.elems|, temp, temp, c).stmts, t, LaxElems(h, p, |p.elems|, t[temp], s))
    decreases p, 0, 0
  {
    var i := |p.elems|;
    var childBase := GenerateName(temp, None, i);
    GeneratedIsDerived(temp, None, i);
    DerivedIssued(childBase, temp, c);
    var value := RestArray(Ident(temp), i);
    TailSelects(h, p, temp, s, t);
    LowerMirrors(h, p.tail.value, value, Some(childBase), c, s, t);
  }

  lemma TailSelects(h: Interp, p: Pattern, temp: string, s: Store, t: Store)
    requires p.ArrayPattern? && p.tail.Some? && temp in t
    ensures LaxElems(h, p, |p.elems|, t[temp], s) == LaxOf(h, p.tail.value, Eval(h, RestArray(Ident(temp), |p.elems|), t), s)
  {
  }

  /** The code for one element, and the temporary that holds the array after it. */
  lemma {:induction false} ElemMirrors(h: Interp, p: Pattern, i: nat, temp: string, c: nat, s: Store, t: Store)
    requires p.ArrayPattern? && i < |p.elems| && p.elems[i].Some? && Clean(p) && Issued(temp, c) && Agree(s, t) && temp in t
    ensures var code := Lower(p.elems[i].value, Member(Ident(temp), Lit(Number(i)), true), Some(GenerateName(temp, None, i)), c);
            && Mirrors(h, code.stmts, t, LaxOf(h, p.elems[i].value, Get(t[temp], Decimal(i)), s))
            && Issued(temp, code.next)
            && (Run(h, code.stmts, t).Some? ==> Same(temp, t, Run(h, code.stmts, t).value))
    decreases p, 0, 0
  {
    var q, value, childBase := p.elems[i].value, Member(Ident(temp), Lit(Number(i)), true), GenerateName(temp, None, i);
    GeneratedIsDerived(temp, None, i);
    DerivedIssued(childBase, temp, c);
    ElementSelects(h, p, i, temp, s, t);
    LowerMirrors(h, q, value, Some(childBase), c, s, t);
    PartOf(q, q, value, childBase, temp, c);
    if Run(h, Lower(q, value, Some(childBase), c).stmts, t).Some? {
      NotDerivedFromSelf(temp);
      PartKeeps(h, q, value, childBase, temp, c, t, temp);
    }
  }
}
