/** Patterns on which the lowering departs from native destructuring, or emits a name twice. */
module DestructuringLimits {
  import opened Prelude
  import opened JsValues
  import opened TempNames
  import opened Destructuring
  import opened DestructuringWrites
  import opened DestructuringLax
  import opened DestructuringMeaning

  function Prop(key: string, value: Pattern): Property {
    Property(Ident(key), false, value)
  }

  // ---------------------------------------------------------------- `({ [k]: k, ...r } = o)`

  function OwnKeyPattern(): Pattern {
    ObjectPattern([Property(Ident("k"), true, Target("k"))], Some("r"))
  }

  function OwnKeyValue(): Value {
    Obj(map["a" := Str("b"), "b" := Null])
  }

  function OwnKeyStore(): Store {
    map["k" := Str("a"), "o" := OwnKeyValue()]
  }

  lemma OwnKeyNative(h: Interp)
    ensures !KeysStable(OwnKeyPattern().props)
    ensures Bind(h, OwnKeyPattern(), OwnKeyValue(), OwnKeyStore(), true)
         == Some(OwnKeyStore()["k" := Str("b")]["r" := Obj(map["b" := Null])])
  {
    var p, o, s := OwnKeyPattern(), OwnKeyValue(), OwnKeyStore();
    assert Binds(p.props[0].value, "k") && p.props[0].key == Ident("k") && p.props[0].computed;
    var s1 := s["k" := Str("b")];
    assert Bind(h, Target("k"), Str("b"), s, true) == Some(s1);
    assert BindProps(h, p, 1, o, s1, [Str("a")], true) == Some((s1, [Str("a")]));
    assert [] + [Str("a")] == [Str("a")];
    assert KeyValue(h, p.props[0], s) == Some(Str("a")) && Get(o, "a") == Some(Str("b"));
    assert BindProps(h, p, 0, o, s, [], true) == BindProps(h, p, 1, o, s1, [] + [Str("a")], true);
    assert Str("a") in [Str("a")] && ToKey(Str("a")) == Some("a");
    assert PropertyKeys([Str("a")]) == {"a"};
    assert map["a" := Str("b"), "b" := Null] - {"a"} == map["b" := Null];
  }

  lemma OwnKeyLax(h: Interp)
    ensures Lax(h, OwnKeyPattern(), OwnKeyValue(), OwnKeyStore()) == Some(OwnKeyStore()["k" := Str("b")]["r" := Obj(map["a" := Str("b")])])
  {
    var p, o, s := OwnKeyPattern(), OwnKeyValue(), OwnKeyStore();
    var s1 := s["k" := Str("b")];
    assert PropValue(h, p.props[0], true, o, s, s) == Some(Str("b"));
    assert Lax(h, Target("k"), Str("b"), s) == Some(s1);
    assert LaxProps(h, p, 1, o, s, s1) == Some(s1);
    assert LaxProps(h, p, 0, o, s, s) == Some(s1);
    assert KeyAt(h, p.props[0], true, s, s1) == Some(Str("b"));
    assert RestKeys(h, p, s, s1).value == [Str("b")];
    assert StringKeys([Str("b")]) == {"b"};
    assert map["a" := Str("b"), "b" := Null] - {"b"} == map["a" := Str("b")];
  }

  lemma OwnKeyIsClean()
    ensures Clean(OwnKeyPattern()) && !IsTemp("k") && !IsTemp("r") && !IsTemp("o")
  {
    NotTemp("k");
    NotTemp("r");
    NotTemp("o");
  }

  /** The rest reads k after it was assigned, so it excludes another property than the one that
      was taken: natively r is { b: null }, after lowering it is { a: 'b' }. */
  lemma ReassignedKeyChangesRest(h: Interp)
    ensures var native := Bind(h, OwnKeyPattern(), OwnKeyValue(), OwnKeyStore(), false);
            var lowered := Run(h, Lower(OwnKeyPattern(), Ident("o"), None, 0).stmts, OwnKeyStore());
            && native.Some? && "r" in native.value && native.value["r"] == Obj(map["b" := Null])
            && lowered.Some? && "r" in lowered.value && lowered.value["r"] == Obj(map["a" := Str("b")])
  {
    OwnKeyNative(h);
    ExactIsNative(h, OwnKeyPattern(), OwnKeyValue(), OwnKeyStore());
    OwnKeyLax(h);
    OwnKeyIsClean();
    LoweringIsLax(h, OwnKeyPattern(), Ident("o"), 0, OwnKeyValue(), OwnKeyStore());
  }

  lemma NotTemp(x: string)
    requires x != "" && x[0] != '_'
    ensures !IsTemp(x)
  {
  }

  // ---------------------------------------------------------------- `({ a, [a + '']: b, ...r } = o)`

  /** Operator 0 is the text of its operand. */
  function TextOperator(op: int, vs: seq<Value>): Option<Value> {
    if op == 0 && |vs| == 1 then Some(vs[0]) else None
  }

  function StaleKeyPattern(): Pattern {
    ObjectPattern([Prop("a", Target("a")), Property(Pure(0, ["a"]), true, Target("b"))], Some("r"))
  }

  function StaleKeyValue(): Value {
    Obj(map["a" := Str("y"), "x" := Str("1"), "y" := Str("2")])
  }

  function StaleKeyStore(): Store {
    map["a" := Str("x"), "o" := StaleKeyValue()]
  }

  lemma StaleKeyNative()
    ensures Bind(TextOperator, StaleKeyPattern(), StaleKeyValue(), StaleKeyStore(), false)
         == Some(StaleKeyStore()["a" := Str("y")]["b" := Str("2")]["r" := Obj(map["x" := Str("1")])])
  {
    var p, o, s := StaleKeyPattern(), StaleKeyValue(), StaleKeyStore();
    var s1 := s["a" := Str("y")];
    var s2, ks := s1["b" := Str("2")], [Str("a"), Str("y")];
    assert Bind(TextOperator, Target("a"), Str("y"), s, false) == Some(s1);
    assert Bind(TextOperator, Target("b"), Str("2"), s1, false) == Some(s2);
    assert ReadAll(["a"], s1).value == [Str("y")];
    assert KeyValue(TextOperator, p.props[1], s1) == Some(Str("y"));
    assert [] + [Str("a")] == [Str("a")] && [Str("a")] + [Str("y")] == ks;
    assert BindProps(TextOperator, p, 2, o, s2, ks, false) == Some((s2, ks));
    assert BindProps(TextOperator, p, 1, o, s1, [Str("a")], false) == Some((s2, ks));
    assert BindProps(TextOperator, p, 0, o, s, [], false) == Some((s2, ks));
    assert Str("a") in ks && Str("y") in ks && ToKey(Str("a")) == Some("a") && ToKey(Str("y")) == Some("y");
    assert PropertyKeys(ks) == {"a", "y"};
    assert Own(o) - {"a", "y"} == map["x" := Str("1")];
  }

  lemma StaleKeyLax()
    ensures Lax(TextOperator, StaleKeyPattern(), StaleKeyValue(), StaleKeyStore())
         == Some(StaleKeyStore()["a" := Str("y")]["b" := Str("1")]["r" := Obj(map["y" := Str("2")])])
  {
    var p, o, s := StaleKeyPattern(), StaleKeyValue(), StaleKeyStore();
    var s1 := s["a" := Str("y")];
    var s2, ks := s1["b" := Str("1")], [Str("a"), Str("x")];
    assert Lax(TextOperator, Target("a"), Str("y"), s) == Some(s1);
    assert Lax(TextOperator, Target("b"), Str("1"), s1) == Some(s2);
    assert ReadAll(["a"], s).value == [Str("x")];
    assert Eval(TextOperator, p.props[1].key, s) == Some(Str("x"));
    assert PropValue(TextOperator, p.props[0], true, o, s, s) == Some(Str("y"));
    assert PropValue(TextOperator, p.props[1], true, o, s, s1) == Some(Str("1"));
    assert LaxProps(TextOperator, p, 2, o, s, s2) == Some(s2);
    assert LaxProps(TextOperator, p, 1, o, s, s1) == Some(s2);
    assert LaxProps(TextOperator, p, 0, o, s, s) == Some(s2);
    assert KeyAt(TextOperator, p.props[0], true, s, s2) == Some(Str("a")) && KeyAt(TextOperator, p.props[1], true, s, s2) == Some(Str("x"));
    assert RestKeys(TextOperator, p, s, s2).value == ks;
    assert StringKeys(ks) == {"a", "x"} by { assert Str("a") in ks && Str("x") in ks; }
    assert Own(o) - {"a", "x"} == map["y" := Str("2")];
  }

  lemma StaleKeyIsClean()
    ensures Clean(StaleKeyPattern()) && !IsTemp("a") && !IsTemp("b") && !IsTemp("r") && !IsTemp("o")
  {
    NotTemp("a");
    NotTemp("b");
    NotTemp("r");
    NotTemp("o");
  }

  /** A computed key that is no identifier is evaluated before the target it reads is assigned: natively b
      is the property y and r is { x: '1' }, after lowering b is the property x and r is { y: '2' }. */
  lemma StaleKeySelectsOther()
    ensures var native := Bind(TextOperator, StaleKeyPattern(), StaleKeyValue(), StaleKeyStore(), false);
            var lowered := Run(TextOperator, Lower(StaleKeyPattern(), Ident("o"), None, 0).stmts, StaleKeyStore());
            && native.Some? && "b" in native.value && native.value["b"] == Str("2")
            && "r" in native.value && native.value["r"] == Obj(map["x" := Str("1")])
            && lowered.Some? && "b" in lowered.value && lowered.value["b"] == Str("1")
            && "r" in lowered.value && lowered.value["r"] == Obj(map["y" := Str("2")])
  {
    StaleKeyNative();
    StaleKeyLax();
    StaleKeyIsClean();
    LoweringIsLax(TextOperator, StaleKeyPattern(), Ident("o"), 0, StaleKeyValue(), StaleKeyStore());
  }

  // ---------------------------------------------------------------- `({} = null)`, `[] = null`, `[a] = {}`

  /** Native destructuring throws and the lowered code does not. */
  ghost predicate LosesThrow(h: Interp, p: Pattern, v: Value, s: Store) {
    Bind(h, p, v, s, false) == None && Run(h, Lower(p, Lit(v), None, 0).stmts, s).Some?
  }

  /** An empty object pattern accepts null and undefined, which native destructuring rejects. */
  lemma EmptyPatternAcceptsNull(h: Interp, s: Store)
    ensures LosesThrow(h, ObjectPattern([], None), Null, s)
  {
    var p := ObjectPattern([], None);
    assert Lax(h, p, Null, s) == Some(s);
    LoweringIsLax(h, p, Lit(Null), 0, Null, s);
  }

  lemma ElementOfObjectLax(h: Interp, s: Store)
    ensures Lax(h, ArrayPattern([Some(Target("a"))], None), Obj(map[]), s) == Some(s["a" := Undefined])
  {
    var q, o, s1 := ArrayPattern([Some(Target("a"))], None), Obj(map[]), s["a" := Undefined];
    assert Get(o, Decimal(0)) == Some(Undefined) && Lax(h, Target("a"), Undefined, s) == Some(s1);
    assert LaxElems(h, q, 1, o, s1) == Some(s1);
    assert LaxElems(h, q, 0, o, s) == Some(s1);
  }

  /** An array pattern accepts a value that is not iterable, as long as no element of null or undefined is
      read. */
  lemma ArrayPatternAcceptsObject(h: Interp, s: Store)
    ensures LosesThrow(h, ArrayPattern([], None), Null, s)
    ensures LosesThrow(h, ArrayPattern([Some(Target("a"))], None), Obj(map[]), s)
  {
    var p, q, o := ArrayPattern([], None), ArrayPattern([Some(Target("a"))], None), Obj(map[]);
    assert LosesThrow(h, p, Null, s) by {
      assert Lax(h, p, Null, s) == Some(s);
      LoweringIsLax(h, p, Lit(Null), 0, Null, s);
    }
    assert LosesThrow(h, q, o, s) by {
      NotTemp("a");
      ElementOfObjectLax(h, s);
      LoweringIsLax(h, q, Lit(o), 0, o, s);
    }
  }

  // ---------------------------------------------------------------- `({ a: { b: { x } }, a$b: { y } } = o)`

  function Leaf(x: string): Pattern {
    ObjectPattern([Prop(x, Target(x))], None)
  }

  function CollidingPattern(): Pattern {
    ObjectPattern([Prop("a", ObjectPattern([Prop("b", Leaf("x"))], None)), Prop("a$b", Leaf("y"))], None)
  }

  lemma SingleProp(key: string, q: Pattern, value: Expr, base: string, c: nat)
    requires !IsTempIdent(value)
    ensures var child := Lower(q, Member(Ident(base), Ident(key), false), Some(base + "$" + key), c);
            Lower(ObjectPattern([Prop(key, q)], None), value, Some(base), c)
            == Code([Assign(base, value, true)] + child.stmts, child.next)
  {
    var p := ObjectPattern([Prop(key, q)], None);
    var child := Lower(q, Member(Ident(base), Ident(key), false), Some(base + "$" + key), c);
    assert PlanKeys(p.props, false, 1, c) == KeyPlan([], [], [], c);
    assert PlanKeys(p.props, false, 0, c) == KeyPlan([Ident(key)], [], [], c);
    assert PropBase(base, Ident(key), 0, []) == base + "$" + key;
    assert LowerProps(p, [Ident(key)], 1, base, base, [base + "$" + key], child.next) == Code([], child.next);
    assert LowerProps(p, [Ident(key)], 0, base, base, [], c) == Code(child.stmts + [], child.next);
    assert child.stmts + [] == child.stmts;
    assert ObjectBody(p, base, base, c) == Code([] + (child.stmts + []), child.next);
  }

  function CollidingName(): string {
    Fresh(0) + "$" + "a$b"
  }

  lemma FirstPart(value: Expr)
    requires !IsTempIdent(value)
    ensures var code := Lower(CollidingPattern().props[0].value, value, Some(Fresh(0) + "$" + "a"), 1);
            |code.stmts| == 3 && code.stmts[1].isTemp && code.stmts[1].target == CollidingName()
  {
    var base := Fresh(0) + "$" + "a";
    var next := base + "$" + "b";
    SingleProp("b", Leaf("x"), value, base, 1);
    SingleProp("x", Target("x"), Member(Ident(base), Ident("b"), false), next, 1);
    assert next == CollidingName();
  }

  lemma SecondPart(value: Expr, c: nat)
    requires !IsTempIdent(value)
    ensures var code := Lower(CollidingPattern().props[1].value, value, Some(CollidingName()), c);
            |code.stmts| > 0 && code.stmts[0].isTemp && code.stmts[0].target == CollidingName()
  {
    SingleProp("y", Target("y"), value, CollidingName(), c);
  }

  lemma TwoBases()
    ensures PropBase(Fresh(0), Ident("a"), 0, []) == Fresh(0) + "$" + "a"
    ensures PropBase(Fresh(0), Ident("a$b"), 1, [Fresh(0) + "$" + "a"]) == CollidingName()
  {
    assert |Fresh(0) + "$" + "a"| < |CollidingName()|;
  }

  /** Temporary names can repeat: the property a$b of the outer pattern and the property b of the
      one nested under a get the same temporary. Assignments do not mind (the earlier one is no
      longer needed, and LoweringPreservesMeaning does not assume distinct names), but `const` and
      `let` lists built from the same output declare the name twice. */
  lemma TempNamesCanRepeat()
    ensures var stmts := Lower(CollidingPattern(), Ident("o"), None, 0).stmts;
            |stmts| > 4 && stmts[2].isTemp && stmts[4].isTemp && stmts[2].target == stmts[4].target
  {
    var p, f, keys := CollidingPattern(), Fresh(0), [Ident("a"), Ident("a$b")];
    var va, vc := Member(Ident(f), Ident("a"), false), Member(Ident(f), Ident("a$b"), false);
    TwoKeysPlan();
    TwoBases();
    FirstPart(va);
    var first := Lower(p.props[0].value, va, Some(f + "$" + "a"), 1);
    SecondPart(vc, first.next);
    var last := Lower(p.props[1].value, vc, Some(CollidingName()), first.next);
    TwoProps(p, keys, f, 1);
    TopLevel(p, keys);
    RepeatedAt(Assign(f, Ident("o"), true), first.stmts, last.stmts);
  }

  lemma RepeatedAt(head: Assign, first: seq<Assign>, last: seq<Assign>)
    requires |first| == 3 && |last| > 0
    ensures var all := [head] + (first + (last + [])); |all| > 4 && all[2] == first[1] && all[4] == last[0]
  {
  }

  lemma TopLevel(p: Pattern, keys: seq<Expr>)
    requires p.ObjectPattern? && p.rest.None? && |keys| == |p.props|
    requires PlanKeys(p.props, false, 0, 1) == KeyPlan(keys, [], [], 1)
    ensures Lower(p, Ident("o"), None, 0).stmts == [Assign(Fresh(0), Ident("o"), true)] + LowerProps(p, keys, 0, Fresh(0), Fresh(0), [], 1).stmts
  {
    var body := LowerProps(p, keys, 0, Fresh(0), Fresh(0), [], 1);
    assert ObjectBody(p, Fresh(0), Fresh(0), 1).stmts == [] + (body.stmts + []);
    assert [] + (body.stmts + []) == body.stmts;
  }

  lemma TwoKeysPlan()
    ensures PlanKeys(CollidingPattern().props, false, 0, 1) == KeyPlan([Ident("a"), Ident("a$b")], [], [], 1)
  {
    var props := CollidingPattern().props;
    assert PlanKeys(props, false, 2, 1) == KeyPlan([], [], [], 1);
    assert PlanKeys(props, false, 1, 1) == KeyPlan([Ident("a$b")], [], [], 1);
  }

  lemma TwoProps(p: Pattern, keys: seq<Expr>, f: string, c: nat)
    requires p.ObjectPattern? && |p.props| == |keys| == 2
    ensures var b0 := PropBase(f, keys[0], 0, []);
            var first := Lower(p.props[0].value, Member(Ident(f), keys[0], p.props[0].computed || keys[0].Lit?), Some(b0), c);
            var b1 := PropBase(f, keys[1], 1, [b0]);
            var last := Lower(p.props[1].value, Member(Ident(f), keys[1], p.props[1].computed || keys[1].Lit?), Some(b1), first.next);
            LowerProps(p, keys, 0, f, f, [], c).stmts == first.stmts + (last.stmts + [])
  {
    var b0 := PropBase(f, keys[0], 0, []);
    var first := Lower(p.props[0].value, Member(Ident(f), keys[0], p.props[0].computed || keys[0].Lit?), Some(b0), c);
    var b1 := PropBase(f, keys[1], 1, [b0]);
    assert [] + [b0] == [b0] && [b0] + [b1] == [b0, b1];
    var last := Lower(p.props[1].value, Member(Ident(f), keys[1], p.props[1].computed || keys[1].Lit?), Some(b1), first.next);
    assert LowerProps(p, keys, 2, f, f, [b0, b1], last.next) == Code([], last.next);
    assert LowerProps(p, keys, 1, f, f, [b0], first.next) == Code(last.stmts + [], last.next);
  }
}
