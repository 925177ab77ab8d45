/** src/processing/script/destructuring.ts: nested destructuring patterns are lowered to a flat
    list of assignments. `Bind` is native destructuring (ECMA-262 sections 13.15.5 and 14.3.3),
    `Lower` is the pass, `Run` executes its output. */
module Destructuring {
  import opened Prelude
  import opened JsValues
  import opened TempNames

  type Store = map<string, Value>

  /** The meaning of the page's own operators: any partial function of operand values. */
  type Interp = (int, seq<Value>) -> Option<Value>

  datatype Expr =
    | Ident(name: string)
    | Lit(value: Value)
    | ArrayLit(items: seq<Expr>)
    | Pure(op: int, inputs: seq<string>)  // any other expression of the page without side effects
    | Member(obj: Expr, property: Expr, computed: bool)
    | IfUndefined(subject: Expr, fallback: Expr)  // subject === void 0 ? fallback : subject
    | ArrayFrom(arg: Expr)
    | RestArray(arg: Expr, start: nat)
    | RestObject(arg: Expr, keys: seq<Expr>)

  datatype Property = Property(key: Expr, computed: bool, value: Pattern)

  datatype Pattern =
    | Target(name: string)
    | ObjectPattern(props: seq<Property>, rest: Option<string>)
    | ArrayPattern(elems: seq<Option<Pattern>>, tail: Option<Pattern>)
    | AssignmentPattern(left: Pattern, right: Expr)

  datatype Assign = Assign(target: string, value: Expr, isTemp: bool)

  // ---------------------------------------------------------------- expressions

  function Eval(h: Interp, e: Expr, s: Store): Option<Value>
    decreases e
  {
    match e
    case Ident(x) => if x in s then Some(s[x]) else None
    case Lit(v) => Some(v)
    case ArrayLit(items) => var vs :- EvalAll(h, items, s); Some(Arr(vs))
    case Pure(op, inputs) => var vs :- ReadAll(inputs, s); h(op, vs)
    case Member(obj, property, computed) =>
      var v :- Eval(h, obj, s);
      var k :- if !computed && property.Ident? then Some(Str(property.name)) else Eval(h, property, s);
      var key :- ToKey(k);
      Get(v, key)
    case IfUndefined(subject, fallback) =>
      var v :- Eval(h, subject, s);
      if v == Undefined then Eval(h, fallback, s) else Some(v)
    case ArrayFrom(arg) => var v :- Eval(h, arg, s); Some(ArrayFromValue(v))
    case RestArray(arg, start) => var v :- Eval(h, arg, s); RestArrayValue(v, start)
    case RestObject(arg, keys) =>
      var v :- Eval(h, arg, s);
      var ks :- EvalAll(h, keys, s);
      RestObjectValue(v, ks)
  }

  function EvalAll(h: Interp, es: seq<Expr>, s: Store): (r: Option<seq<Value>>)
    ensures r.Some? ==> |r.value| == |es| && forall i :: 0 <= i < |es| ==> Eval(h, es[i], s) == Some(r.value[i])
    ensures r.None? ==> exists i :: 0 <= i < |es| && Eval(h, es[i], s) == None
    decreases es
  {
    if es == [] then Some([]) else
    var v := Eval(h, es[0], s);
    if v.None? then None else
    var vs := EvalAll(h, es[1..], s);
    if vs.None? then
      var i :| 0 <= i < |es[1..]| && Eval(h, es[1..][i], s) == None;
      assert es[1 + i] == es[1..][i];
      None
    else
    Some([v.value] + vs.value)
  }

  function ReadAll(names: seq<string>, s: Store): Option<seq<Value>> {
    if forall i :: 0 <= i < |names| ==> names[i] in s
    then Some(seq(|names|, i requires 0 <= i < |names| && names[i] in s => s[names[i]]))
    else None
  }

  /** The key that a property selects. */
  function KeyValue(h: Interp, prop: Property, s: Store): Option<Value> {
    if !prop.computed && prop.key.Ident? then Some(Str(prop.key.name)) else Eval(h, prop.key, s)
  }

  // ---------------------------------------------------------------- native destructuring

  /** Binds `v` to `p`, left to right; None is a throw. With `exact`, a rest whose excluded keys
      are not all honoured by the run-time helper is treated as a throw as well. */
  ghost function Bind(h: Interp, p: Pattern, v: Value, s: Store, exact: bool): Option<Store>
    decreases p, 1, 0
  {
    match p
    case Target(x) => Some(s[x := v])
    case AssignmentPattern(left, right) =>
      if v == Undefined then
        var w :- Eval(h, right, s);
        Bind(h, left, w, s, exact)
      else
        Bind(h, left, v, s, exact)
    case ObjectPattern(props, rest) =>
      if Nullish(v) then None else
      var (s', keys) :- BindProps(h, p, 0, v, s, [], exact);
      if rest.None? then Some(s')
      else if exact && !RestExact(v, keys) then None
      else Some(s'[rest.value := CopyRest(v, keys)])
    case ArrayPattern(elems, tail) =>
      var items :- Elements(v);
      BindElems(h, p, 0, items, s, exact)
  }

  ghost function BindProps(h: Interp, p: Pattern, i: nat, v: Value, s: Store, keys: seq<Value>, exact: bool): Option<(Store, seq<Value>)>
    requires p.ObjectPattern? && i <= |p.props|
    decreases p, 0, |p.props| - i
  {
    if i == |p.props| then Some((s, keys)) else
    var k :- KeyValue(h, p.props[i], s);
    var name :- ToKey(k);
    var w :- Get(v, name);
    var s' :- Bind(h, p.props[i].value, w, s, exact);
    BindProps(h, p, i + 1, v, s', keys + [k], exact)
  }

  ghost function BindElems(h: Interp, p: Pattern, i: nat, items: seq<Value>, s: Store, exact: bool): Option<Store>
    requires p.ArrayPattern? && i <= |p.elems|
    decreases p, 0, |p.elems| - i
  {
    if i == |p.elems| then
      if p.tail.None? then Some(s)
      else Bind(h, p.tail.value, Arr(if i <= |items| then items[i..] else []), s, exact)
    else if p.elems[i].None? then BindElems(h, p, i + 1, items, s, exact)
    else
      var s' :- Bind(h, p.elems[i].value, if i < |items| then items[i] else Undefined, s, exact);
      BindElems(h, p, i + 1, items, s', exact)
  }

  // ---------------------------------------------------------------- the pass

  /** Emitted assignments and the next free counter value. */
  datatype Code = Code(stmts: seq<Assign>, next: nat)

  function IsTempIdent(e: Expr): bool {
    e.Ident? && IsTemp(e.name)
  }

  function TextOf(v: Value): string {
    if ToKey(v).Some? then ToKey(v).value else ""
  }

  function Sanitize(s: string): string {
    if s == [] then [] else
    (if 'a' <= s[0] <= 'z' || 'A' <= s[0] <= 'Z' || '0' <= s[0] <= '9' then [s[0]] else []) + Sanitize(s[1..])
  }

  /** TempVariables.generateName with a non-empty base name. */
  function GenerateName(base: string, key: Option<Expr>, i: nat): string {
    if key.Some? && key.value.Ident? then base + "$" + key.value.name
    else if key.Some? && key.value.Lit? && !Falsy(key.value.value) then base + "$" + Sanitize(TextOf(key.value.value))
    else base + "$i" + Decimal(i)
  }

  /** createTempIdentifierOrUseExisting */
  function TempFor(value: Expr, base: Option<string>, c: nat): (string, Code) {
    if IsTempIdent(value) then (value.name, Code([], c))
    else if base.Some? then (base.value, Code([Assign(base.value, value, true)], c))
    else (Fresh(c), Code([Assign(Fresh(c), value, true)], c + 1))
  }

  /** The keys to read properties with, the names to exclude from the rest object, and the
      assignments that evaluate computed keys up front. */
  datatype KeyPlan = KeyPlan(keys: seq<Expr>, names: seq<Expr>, hoists: seq<Assign>, next: nat)

  function PlanKeys(props: seq<Property>, hasRest: bool, i: nat, c: nat): (plan: KeyPlan)
    requires i <= |props|
    ensures |plan.keys| == |props| - i
    ensures |plan.names| == if hasRest then |props| - i else 0
    ensures c <= plan.next
    decreases |props| - i
  {
    if i == |props| then KeyPlan([], [], [], c) else
    var key := props[i].key;
    if hasRest && !key.Ident? && !key.Lit? then
      var rest := PlanKeys(props, hasRest, i + 1, c + 1);
      var temp := Ident(Fresh(c));
      KeyPlan([temp] + rest.keys, [temp] + rest.names, [Assign(Fresh(c), key, true)] + rest.hoists, rest.next)
    else
      var rest := PlanKeys(props, hasRest, i + 1, c);
      var name := if key.Ident? && !props[i].computed then Lit(Str(key.name)) else key;
      KeyPlan([key] + rest.keys, (if hasRest then [name] else []) + rest.names, rest.hoists, rest.next)
  }

  /** process */
  function Lower(p: Pattern, value: Expr, base: Option<string>, c: nat): (code: Code)
    decreases p, 1, 0
  {
    match p
    case Target(x) => Code([Assign(x, value, false)], c)
    case AssignmentPattern(left, right) =>
      var (temp, pre) := TempFor(value, base, c);
      var b := if base.Some? then base.value else temp;
      var body := Lower(left, IfUndefined(Ident(temp), right), Some(b + "$assign"), pre.next);
      Code(pre.stmts + body.stmts, body.next)
    case ObjectPattern(props, rest) =>
      var (temp, pre) := TempFor(value, base, c);
      var b := if base.Some? then base.value else temp;
      var body := ObjectBody(p, temp, b, pre.next);
      Code(pre.stmts + body.stmts, body.next)
    case ArrayPattern(elems, tail) =>
      var (temp, pre) := TempFor(if value.ArrayLit? then value else ArrayFrom(value), base, c);
      var b := if base.Some? then base.value else temp;
      var body := LowerElems(p, 0, temp, b, pre.next);
      Code(pre.stmts + body.stmts, body.next)
  }

  /** Everything emitted for an object pattern once its value is held in `temp`. */
  function ObjectBody(p: Pattern, temp: string, b: string, c: nat): Code
    requires p.ObjectPattern?
    decreases p, 0, |p.props| + 1
  {
    var plan := PlanKeys(p.props, p.rest.Some?, 0, c);
    var body := LowerProps(p, plan.keys, 0, temp, b, [], plan.next);
    Code(plan.hoists + (body.stmts + RestAssign(p, temp, plan.names)), body.next)
  }

  function RestAssign(p: Pattern, temp: string, names: seq<Expr>): seq<Assign>
    requires p.ObjectPattern?
  {
    if p.rest.Some? then [Assign(p.rest.value, RestObject(Ident(temp), names), false)] else []
  }

  function PropBase(b: string, key: Expr, i: nat, used: seq<string>): string {
    var name := GenerateName(b, Some(key), i);
    if name in used then GenerateName(name, None, i) else name
  }

  function LowerProps(p: Pattern, keys: seq<Expr>, i: nat, temp: string, b: string, used: seq<string>, c: nat): (code: Code)
    requires p.ObjectPattern? && i <= |p.props| == |keys|
    decreases p, 0, |p.props| - i
  {
    if i == |p.props| then Code([], c) else
    var childBase := PropBase(b, keys[i], i, used);
    var value := Member(Ident(temp), keys[i], p.props[i].computed || keys[i].Lit?);
    var first := Lower(p.props[i].value, value, Some(childBase), c);
    var others := LowerProps(p, keys, i + 1, temp, b, used + [childBase], first.next);
    Code(first.stmts + others.stmts, others.next)
  }

  function LowerElems(p: Pattern, i: nat, temp: string, b: string, c: nat): (code: Code)
    requires p.ArrayPattern? && i <= |p.elems|
    decreases p, 0, |p.elems| - i
  {
    if i == |p.elems| then
      if p.tail.None? then Code([], c)
      else Lower(p.tail.value, RestArray(Ident(temp), i), Some(GenerateName(b, None, i)), c)
    else if p.elems[i].None? then LowerElems(p, i + 1, temp, b, c)
    else
      var first := Lower(p.elems[i].value, Member(Ident(temp), Lit(Number(i)), true), Some(GenerateName(b, None, i)), c);
      var others := LowerElems(p, i + 1, temp, b, first.next);
      Code(first.stmts + others.stmts, others.next)
  }

  // ---------------------------------------------------------------- running the output

  function Run(h: Interp, stmts: seq<Assign>, t: Store): Option<Store> {
    if stmts == [] then Some(t) else
    var v :- Eval(h, stmts[0].value, t);
    Run(h, stmts[1..], t[stmts[0].target := v])
  }

  lemma {:induction false} RunConcat(h: Interp, a: seq<Assign>, b: seq<Assign>, t: Store)
    ensures Run(h, a + b, t) == if Run(h, a, t).Some? then Run(h, b, Run(h, a, t).value) else None
  {
    if a == [] {
      assert a + b == b;
    } else {
      assert (a + b)[1..] == a[1..] + b;
      var v := Eval(h, a[0].value, t);
      if v.Some? {
        RunConcat(h, a[1..], b, t[a[0].target := v.value]);
      }
    }
  }

  lemma {:induction false} RunFrame(h: Interp, stmts: seq<Assign>, t: Store, n: string)
    requires Run(h, stmts, t).Some?
    requires forall i :: 0 <= i < |stmts| ==> stmts[i].target != n
    ensures n in t <==> n in Run(h, stmts, t).value
    ensures n in t ==> Run(h, stmts, t).value[n] == t[n]
  {
    if stmts != [] {
      var v := Eval(h, stmts[0].value, t).value;
      RunFrame(h, stmts[1..], t[stmts[0].target := v], n);
    }
  }
}
