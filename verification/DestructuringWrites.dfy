/** What destructuring patterns mention, what native destructuring changes, and which variables
    the lowered code may assign. */
module DestructuringWrites {
  import opened Prelude
  import opened JsValues
  import opened TempNames
  import opened Destructuring

  // ---------------------------------------------------------------- what a pattern mentions

  /** An expression of the page: no helper calls and no temporaries. */
  ghost predicate UserExpr(e: Expr)
    decreases e
  {
    match e
    case Ident(x) => !IsTemp(x)
    case Lit(v) => true
    case ArrayLit(items) => forall i :: 0 <= i < |items| ==> UserExpr(items[i])
    case Pure(op, inputs) => forall i :: 0 <= i < |inputs| ==> !IsTemp(inputs[i])
    case _ => false
  }

  ghost predicate Mentions(e: Expr, n: string)
    decreases e
  {
    match e
    case Ident(x) => x == n
    case ArrayLit(items) => exists i :: 0 <= i < |items| && Mentions(items[i], n)
    case Pure(op, inputs) => n in inputs
    case _ => false
  }

  /** `n` is assigned by the pattern. */
  ghost predicate Binds(p: Pattern, n: string)
    decreases p
  {
    match p
    case Target(x) => x == n
    case AssignmentPattern(left, right) => Binds(left, n)
    case ObjectPattern(props, rest) => (exists i :: 0 <= i < |props| && Binds(props[i].value, n)) || rest == Some(n)
    case ArrayPattern(elems, tail) =>
      (exists i :: 0 <= i < |elems| && elems[i].Some? && Binds(elems[i].value, n)) || (tail.Some? && Binds(tail.value, n))
  }

  /** The page does not use names that start with the temporary prefix. */
  ghost predicate Clean(p: Pattern)
    decreases p
  {
    match p
    case Target(x) => !IsTemp(x)
    case AssignmentPattern(left, right) => Clean(left) && UserExpr(right)
    case ObjectPattern(props, rest) =>
      && (forall i :: 0 <= i < |props| ==>
            Clean(props[i].value) && if props[i].computed then UserExpr(props[i].key) else props[i].key.Ident? || props[i].key.Lit?)
      && (rest.Some? ==> !IsTemp(rest.value))
    case ArrayPattern(elems, tail) =>
      && (forall i :: 0 <= i < |elems| && elems[i].Some? ==> Clean(elems[i].value))
      && (tail.Some? ==> Clean(tail.value))
  }

  /** In an object pattern with a rest, a computed key that is an identifier is not assigned by
      its own property or a later one (the rest reads it again), and any other computed key does
      not depend on what an earlier property assigns (it is evaluated before all of them). */
  ghost predicate KeysStable(props: seq<Property>) {
    && (forall j, k, x :: 0 <= j <= k < |props| && props[j].computed && props[j].key == Ident(x) ==> !Binds(props[k].value, x))
    && (forall j, k, x :: 0 <= k < j < |props| && Hoisted(props[j].key) && Mentions(props[j].key, x) ==> !Binds(props[k].value, x))
  }

  predicate Hoisted(key: Expr) {
    !key.Ident? && !key.Lit?
  }

  ghost predicate Safe(p: Pattern)
    decreases p
  {
    match p
    case Target(x) => true
    case AssignmentPattern(left, right) => Safe(left)
    case ObjectPattern(props, rest) =>
      (forall i :: 0 <= i < |props| ==> Safe(props[i].value)) && (rest.Some? ==> KeysStable(props))
    case ArrayPattern(elems, tail) =>
      && (forall i :: 0 <= i < |elems| && elems[i].Some? ==> Safe(elems[i].value))
      && (tail.Some? ==> Safe(tail.value))
  }

  // ---------------------------------------------------------------- stores

  /** The stores agree on every variable of the page. */
  ghost predicate Agree(s: Store, t: Store) {
    forall n :: !IsTemp(n) ==> (n in s <==> n in t) && (n in s ==> s[n] == t[n])
  }

  ghost predicate Same(n: string, s: Store, t: Store) {
    (n in s <==> n in t) && (n in s ==> s[n] == t[n])
  }

  lemma {:induction false} EvalSame(h: Interp, e: Expr, s: Store, t: Store)
    requires UserExpr(e)
    requires forall n :: Mentions(e, n) ==> Same(n, s, t)
    ensures Eval(h, e, s) == Eval(h, e, t)
    decreases e
  {
    match e
    case Ident(x) => assert Mentions(e, x);
    case Lit(v) =>
    case ArrayLit(items) =>
      forall i | 0 <= i < |items| ensures Eval(h, items[i], s) == Eval(h, items[i], t) {
        assert forall n :: Mentions(items[i], n) ==> Mentions(e, n);
        EvalSame(h, items[i], s, t);
      }
      EvalAllSame(h, items, s, t);
    case Pure(op, inputs) =>
      assert forall i :: 0 <= i < |inputs| ==> Mentions(e, inputs[i]);
      if forall i :: 0 <= i < |inputs| ==> inputs[i] in s {
        assert ReadAll(inputs, s).value == ReadAll(inputs, t).value;
      }
  }

  lemma {:induction false} EvalAllSame(h: Interp, es: seq<Expr>, s: Store, t: Store)
    requires forall i :: 0 <= i < |es| ==> Eval(h, es[i], s) == Eval(h, es[i], t)
    ensures EvalAll(h, es, s) == EvalAll(h, es, t)
  {
    if es != [] {
      assert forall i :: 0 <= i < |es[1..]| ==> es[1..][i] == es[i + 1];
      EvalAllSame(h, es[1..], s, t);
    }
  }

  lemma {:induction false} UserMentions(e: Expr, n: string)
    requires UserExpr(e) && Mentions(e, n)
    ensures !IsTemp(n)
    decreases e
  {
    match e
    case ArrayLit(items) =>
      var i :| 0 <= i < |items| && Mentions(items[i], n);
      UserMentions(items[i], n);
    case _ =>
  }

  lemma EvalAgree(h: Interp, e: Expr, s: Store, t: Store)
    requires UserExpr(e) && Agree(s, t)
    ensures Eval(h, e, s) == Eval(h, e, t)
  {
    forall n | Mentions(e, n) ensures Same(n, s, t) {
      UserMentions(e, n);
    }
    EvalSame(h, e, s, t);
  }

  // ---------------------------------------------------------------- native destructuring only assigns targets

  lemma {:induction false} BindFrame(h: Interp, p: Pattern, v: Value, s: Store, exact: bool, n: string)
    requires Bind(h, p, v, s, exact).Some? && !Binds(p, n)
    ensures Same(n, s, Bind(h, p, v, s, exact).value)
    decreases p, 1, 0
  {
    match p
    case Target(x) =>
    case AssignmentPattern(left, right) =>
      BindFrame(h, left, if v == Undefined then Eval(h, right, s).value else v, s, exact, n);
    case ObjectPattern(props, rest) =>
      BindPropsFrame(h, p, 0, v, s, [], exact, n);
    case ArrayPattern(elems, tail) =>
      BindElemsFrame(h, p, 0, Elements(v).value, s, exact, n);
  }

  lemma {:induction false} BindPropsFrame(h: Interp, p: Pattern, i: nat, v: Value, s: Store, keys: seq<Value>, exact: bool, n: string)
    requires p.ObjectPattern? && i <= |p.props|
    requires BindProps(h, p, i, v, s, keys, exact).Some?
    requires forall k :: i <= k < |p.props| ==> !Binds(p.props[k].value, n)
    ensures Same(n, s, BindProps(h, p, i, v, s, keys, exact).value.0)
    decreases p, 0, |p.props| - i
  {
    if i < |p.props| {
      var k := KeyValue(h, p.props[i], s).value;
      var w := Get(v, ToKey(k).value).value;
      BindFrame(h, p.props[i].value, w, s, exact, n);
      BindPropsFrame(h, p, i + 1, v, Bind(h, p.props[i].value, w, s, exact).value, keys + [k], exact, n);
    }
  }

  lemma {:induction false} BindElemsFrame(h: Interp, p: Pattern, i: nat, items: seq<Value>, s: Store, exact: bool, n: string)
    requires p.ArrayPattern? && i <= |p.elems|
    requires BindElems(h, p, i, items, s, exact).Some? && !Binds(p, n)
    ensures Same(n, s, BindElems(h, p, i, items, s, exact).value)
    decreases p, 0, |p.elems| - i
  {
    if i == |p.elems| {
      if p.tail.Some? {
        BindFrame(h, p.tail.value, Arr(if i <= |items| then items[i..] else []), s, exact, n);
      }
    } else if p.elems[i].None? {
      BindElemsFrame(h, p, i + 1, items, s, exact, n);
    } else {
      var w := if i < |items| then items[i] else Undefined;
      BindFrame(h, p.elems[i].value, w, s, exact, n);
      BindElemsFrame(h, p, i + 1, items, Bind(h, p.elems[i].value, w, s, exact).value, exact, n);
    }
  }

  // ---------------------------------------------------------------- what the emitted code assigns

  /** The base name was issued earlier; an existing temporary is reused only at the top. */
  ghost predicate BaseOk(value: Expr, base: Option<string>, c: nat) {
    if base.Some? then Issued(base.value, c) && !IsTempIdent(value)
    else IsTempIdent(value) ==> Issued(value.name, c)
  }

  /** Temporaries that lowering `value` against a pattern may assign. */
  ghost predicate Owned(n: string, value: Expr, base: Option<string>, lo: nat, hi: nat) {
    || IssuedBetween(n, lo, hi)
    || (base.Some? && (n == base.value || Derived(n, base.value)))
    || (base.None? && IsTempIdent(value) && Derived(n, value.name))
  }

  ghost predicate WritesWithin(stmts: seq<Assign>, p: Pattern, value: Expr, base: Option<string>, lo: nat, hi: nat) {
    forall i :: 0 <= i < |stmts| ==> Binds(p, stmts[i].target) || Owned(stmts[i].target, value, base, lo, hi)
  }

  /** Temporaries that code for the parts of a pattern held in `temp` may assign. */
  ghost predicate PartOwned(n: string, temp: string, lo: nat, hi: nat) {
    IssuedBetween(n, lo, hi) || Derived(n, temp)
  }

  lemma GeneratedIsDerived(b: string, key: Option<Expr>, i: nat)
    ensures Derived(GenerateName(b, key, i), b)
  {
    var g := GenerateName(b, key, i);
    if key.Some? && key.value.Ident? {
      assert g[..|b| + 1] == b + "$";
    } else if key.Some? && key.value.Lit? && !Falsy(key.value.value) {
      assert g[..|b| + 1] == b + "$";
    } else {
      assert g == b + "$" + ("i" + Decimal(i));
      assert g[..|b| + 1] == b + "$";
    }
  }

  lemma PropBaseIsDerived(b: string, key: Expr, i: nat, used: seq<string>)
    ensures Derived(PropBase(b, key, i, used), b)
  {
    var name := GenerateName(b, Some(key), i);
    GeneratedIsDerived(b, Some(key), i);
    GeneratedIsDerived(name, None, i);
    DerivedTransitive(PropBase(b, key, i, used), name, b);
  }

  lemma IssuedMonotone(n: string, lo: nat, hi: nat)
    requires Issued(n, lo) && lo <= hi
    ensures Issued(n, hi)
  {
    var k: nat, suffix: string :| k < lo && IssuedAs(n, k, suffix);
  }

  lemma DerivedIssued(n: string, base: string, c: nat)
    requires Issued(base, c) && Derived(n, base)
    ensures Issued(n, c) && IsTemp(n) && n != base
  {
    var k: nat, suffix: string :| k < c && IssuedAs(base, k, suffix);
    DerivedIsIssued(n, base, k, suffix);
  }

  lemma FreshIssued(c: nat)
    ensures Issued(Fresh(c), c + 1)
    ensures IssuedBetween(Fresh(c), c, c + 1)
  {
    assert IssuedAs(Fresh(c), c, "");
  }

  lemma IssuedIsTemp(n: string, c: nat)
    requires Issued(n, c)
    ensures IsTemp(n)
  {
    var k: nat, suffix: string :| k < c && IssuedAs(n, k, suffix);
    assert PREFIX <= n;
  }

  /** Code for a part, whose base is derived from `temp`, assigns within the family of `temp`. */
  lemma PartWrites(stmts: seq<Assign>, q: Pattern, value: Expr, base: string, temp: string, lo: nat, hi: nat)
    requires WritesWithin(stmts, q, value, Some(base), lo, hi)
    requires Derived(base, temp)
    ensures forall i :: 0 <= i < |stmts| ==> Binds(q, stmts[i].target) || PartOwned(stmts[i].target, temp, lo, hi)
  {
    forall i | 0 <= i < |stmts|
      ensures Binds(q, stmts[i].target) || PartOwned(stmts[i].target, temp, lo, hi)
    {
      var n := stmts[i].target;
      if !Binds(q, n) && !IssuedBetween(n, lo, hi) {
        DerivedTransitive(n, base, temp);
      }
    }
  }

  lemma WidenIssued(n: string, lo: nat, hi: nat, lo': nat, hi': nat)
    requires IssuedBetween(n, lo, hi) && lo' <= lo && hi <= hi'
    ensures IssuedBetween(n, lo', hi')
  {
    var k: nat, suffix: string :| lo <= k < hi && IssuedAs(n, k, suffix);
  }

  lemma WidenPart(n: string, temp: string, lo: nat, hi: nat, lo': nat, hi': nat)
    requires PartOwned(n, temp, lo, hi) && lo' <= lo && hi <= hi'
    ensures PartOwned(n, temp, lo', hi')
  {
    if IssuedBetween(n, lo, hi) {
      WidenIssued(n, lo, hi, lo', hi');
    }
  }

  ghost predicate PartsWithin(stmts: seq<Assign>, p: Pattern, temp: string, lo: nat, hi: nat) {
    forall i :: 0 <= i < |stmts| ==> Binds(p, stmts[i].target) || PartOwned(stmts[i].target, temp, lo, hi)
  }

  lemma PartsConcat(a: seq<Assign>, b: seq<Assign>, p: Pattern, temp: string, lo: nat, mid: nat, hi: nat)
    requires PartsWithin(a, p, temp, lo, mid) && PartsWithin(b, p, temp, mid, hi) && lo <= mid <= hi
    ensures PartsWithin(a + b, p, temp, lo, hi)
  {
    forall i | 0 <= i < |a + b| ensures Binds(p, (a + b)[i].target) || PartOwned((a + b)[i].target, temp, lo, hi) {
      var n := (a + b)[i].target;
      if i < |a| {
        assert n == a[i].target;
        if !Binds(p, n) { WidenPart(n, temp, lo, mid, lo, hi); }
      } else {
        assert n == b[i - |a|].target;
        if !Binds(p, n) { WidenPart(n, temp, mid, hi, lo, hi); }
      }
    }
  }

  ghost predicate HoistsWithin(hoists: seq<Assign>, lo: nat, hi: nat) {
    forall k :: 0 <= k < |hoists| ==> IssuedBetween(hoists[k].target, lo, hi)
  }

  lemma ConsHoist(first: Assign, others: seq<Assign>, c: nat, hi: nat)
    requires first.target == Fresh(c) && HoistsWithin(others, c + 1, hi) && c + 1 <= hi
    ensures HoistsWithin([first] + others, c, hi)
  {
    var all := [first] + others;
    FreshIssued(c);
    WidenIssued(Fresh(c), c, c + 1, c, hi);
    forall k | 0 <= k < |all| ensures IssuedBetween(all[k].target, c, hi) {
      if k > 0 {
        WidenIssued(others[k - 1].target, c + 1, hi, c, hi);
      }
    }
  }

  lemma {:induction false} HoistWrites(props: seq<Property>, hasRest: bool, i: nat, c: nat)
    requires i <= |props|
    ensures HoistsWithin(PlanKeys(props, hasRest, i, c).hoists, c, PlanKeys(props, hasRest, i, c).next)
    decreases |props| - i
  {
    if i < |props| {
      var plan := PlanKeys(props, hasRest, i, c);
      var hoisted := hasRest && Hoisted(props[i].key);
      var rest := PlanKeys(props, hasRest, i + 1, if hoisted then c + 1 else c);
      HoistWrites(props, hasRest, i + 1, if hoisted then c + 1 else c);
      if hoisted {
        ConsHoist(Assign(Fresh(c), props[i].key, true), rest.hoists, c, rest.next);
      } else {
        assert plan.hoists == rest.hoists;
      }
    }
  }

  /** Everything that lowering emits assigns a target of the pattern or a temporary of its own. */
  lemma {:induction false} LowerWrites(p: Pattern, value: Expr, base: Option<string>, c: nat)
    requires BaseOk(value, base, c)
    ensures c <= Lower(p, value, base, c).next
    ensures WritesWithin(Lower(p, value, base, c).stmts, p, value, base, c, Lower(p, value, base, c).next)
    decreases p, 1, 0
  {
    match p
    case Target(x) =>
    case AssignmentPattern(left, right) =>
      var (temp, pre) := TempFor(value, base, c);
      var b := if base.Some? then base.value else temp;
      TempForFacts(value, base, c);
      var v' := IfUndefined(Ident(temp), right);
      assert Derived(b + "$assign", b) by { assert (b + "$assign")[..|b| + 1] == b + "$"; }
      PartOf(left, p, v', b + "$assign", b, pre.next);
      var body := Lower(left, v', Some(b + "$assign"), pre.next);
      WholeWrites(p, value, base, c, body.stmts, body.next);
    case ObjectPattern(props, rest) =>
      LowerObjectWrites(p, value, base, c);
    case ArrayPattern(elems, tail) =>
      LowerArrayWrites(p, value, base, c);
  }

  lemma {:induction false} LowerObjectWrites(p: Pattern, value: Expr, base: Option<string>, c: nat)
    requires p.ObjectPattern? && BaseOk(value, base, c)
    ensures c <= Lower(p, value, base, c).next
    ensures WritesWithin(Lower(p, value, base, c).stmts, p, value, base, c, Lower(p, value, base, c).next)
    decreases p, 0, |p.props| + 2
  {
    var (temp, pre) := TempFor(value, base, c);
    var b := if base.Some? then base.value else temp;
    TempForFacts(value, base, c);
    ObjectParts(p, temp, b, pre.next);
    var parts := ObjectBody(p, temp, b, pre.next);
    WholeWrites(p, value, base, c, parts.stmts, parts.next);
  }

  lemma {:induction false} ObjectParts(p: Pattern, temp: string, b: string, c: nat)
    requires p.ObjectPattern? && Issued(b, c)
    ensures c <= ObjectBody(p, temp, b, c).next
    ensures PartsWithin(ObjectBody(p, temp, b, c).stmts, p, b, c, ObjectBody(p, temp, b, c).next)
    decreases p, 0, |p.props| + 1
  {
    var plan := PlanKeys(p.props, p.rest.Some?, 0, c);
    HoistParts(p, b, c);
    IssuedMonotone(b, c, plan.next);
    LowerPropsWrites(p, plan.keys, 0, temp, b, [], plan.next);
    var body := LowerProps(p, plan.keys, 0, temp, b, [], plan.next);
    var end := RestAssign(p, temp, plan.names);
    PartsConcat(body.stmts, end, p, b, plan.next, body.next, body.next);
    PartsConcat(plan.hoists, body.stmts + end, p, b, c, plan.next, body.next);
  }

  lemma HoistParts(p: Pattern, b: string, c: nat)
    requires p.ObjectPattern?
    ensures PartsWithin(PlanKeys(p.props, p.rest.Some?, 0, c).hoists, p, b, c, PlanKeys(p.props, p.rest.Some?, 0, c).next)
  {
    HoistWrites(p.props, p.rest.Some?, 0, c);
  }

  lemma {:induction false} LowerArrayWrites(p: Pattern, value: Expr, base: Option<string>, c: nat)
    requires p.ArrayPattern? && BaseOk(value, base, c)
    ensures c <= Lower(p, value, base, c).next
    ensures WritesWithin(Lower(p, value, base, c).stmts, p, value, base, c, Lower(p, value, base, c).next)
    decreases p, 0, |p.elems| + 1
  {
    var value' := if value.ArrayLit? then value else ArrayFrom(value);
    var (temp, pre) := TempFor(value', base, c);
    var b := if base.Some? then base.value else temp;
    TempForFacts(value', base, c);
    LowerElemsWrites(p, 0, temp, b, pre.next);
    var body := LowerElems(p, 0, temp, b, pre.next);
    WholeWrites(p, value', base, c, body.stmts, body.next);
  }

  /** The code for a part of p whose base is derived from b. */
  lemma {:induction false} PartOf(q: Pattern, p: Pattern, value: Expr, base: string, b: string, c: nat)
    requires Derived(base, b) && Issued(b, c) && !IsTempIdent(value)
    requires forall n :: Binds(q, n) ==> Binds(p, n)
    ensures c <= Lower(q, value, Some(base), c).next && Issued(b, Lower(q, value, Some(base), c).next)
    ensures PartsWithin(Lower(q, value, Some(base), c).stmts, p, b, c, Lower(q, value, Some(base), c).next)
    decreases q, 2, 0
  {
    DerivedIssued(base, b, c);
    LowerWrites(q, value, Some(base), c);
    var code := Lower(q, value, Some(base), c);
    PartWrites(code.stmts, q, value, base, b, c, code.next);
    IssuedMonotone(b, c, code.next);
  }

  lemma TempForFacts(value: Expr, base: Option<string>, c: nat)
    requires BaseOk(value, base, c)
    ensures var (temp, pre) := TempFor(value, base, c);
            var b := if base.Some? then base.value else temp;
            && c <= pre.next && b == temp && Issued(temp, pre.next) && IsTemp(temp)
            && (forall i :: 0 <= i < |pre.stmts| ==> Owned(pre.stmts[i].target, value, base, c, pre.next))
  {
    FreshIssued(c);
    var (temp, pre) := TempFor(value, base, c);
    IssuedIsTemp(temp, pre.next);
  }

  lemma TempWrite(value: Expr, base: Option<string>, c: nat, i: nat, hi: nat)
    requires BaseOk(value, base, c) && TempFor(value, base, c).1.next <= hi
    requires i < |TempFor(value, base, c).1.stmts|
    ensures Owned(TempFor(value, base, c).1.stmts[i].target, value, base, c, hi)
  {
    TempForFacts(value, base, c);
    if base.None? && !IsTempIdent(value) {
      assert IssuedAs(TempFor(value, base, c).1.stmts[i].target, c, "");
    }
  }

  lemma PartWrite(value: Expr, base: Option<string>, c: nat, n: string, hi: nat)
    requires BaseOk(value, base, c) && TempFor(value, base, c).1.next <= hi
    requires PartOwned(n, TempFor(value, base, c).0, TempFor(value, base, c).1.next, hi)
    ensures Owned(n, value, base, c, hi)
  {
    TempForFacts(value, base, c);
    var next := TempFor(value, base, c).1.next;
    if IssuedBetween(n, next, hi) {
      var k: nat, suffix: string :| next <= k < hi && IssuedAs(n, k, suffix);
      assert IssuedBetween(n, c, hi);
    } else if base.None? && !IsTempIdent(value) {
      assert IssuedAs(Fresh(c), c, "");
      DerivedIsIssued(n, Fresh(c), c, "");
      assert IssuedBetween(n, c, hi);
    }
  }

  lemma WholeWrites(p: Pattern, value: Expr, base: Option<string>, c: nat, parts: seq<Assign>, hi: nat)
    requires BaseOk(value, base, c)
    requires TempFor(value, base, c).1.next <= hi
    requires PartsWithin(parts, p, TempFor(value, base, c).0, TempFor(value, base, c).1.next, hi)
    ensures WritesWithin(TempFor(value, base, c).1.stmts + parts, p, value, base, c, hi)
  {
    var pre := TempFor(value, base, c).1;
    forall i | 0 <= i < |pre.stmts + parts|
      ensures Binds(p, (pre.stmts + parts)[i].target) || Owned((pre.stmts + parts)[i].target, value, base, c, hi)
    {
      if i < |pre.stmts| {
        TempWrite(value, base, c, i, hi);
      } else if !Binds(p, parts[i - |pre.stmts|].target) {
        PartWrite(value, base, c, parts[i - |pre.stmts|].target, hi);
      }
    }
  }

  lemma PropBinds(p: Pattern, i: nat)
    requires p.ObjectPattern? && i < |p.props|
    ensures forall n :: Binds(p.props[i].value, n) ==> Binds(p, n)
  {
  }

  lemma ElemBinds(p: Pattern, i: nat)
    requires p.ArrayPattern? && i < |p.elems| && p.elems[i].Some?
    ensures forall n :: Binds(p.elems[i].value, n) ==> Binds(p, n)
  {
  }

  lemma LowerPropsStep(p: Pattern, keys: seq<Expr>, i: nat, temp: string, b: string, used: seq<string>, c: nat)
    requires p.ObjectPattern? && i < |p.props| == |keys|
    ensures var childBase := PropBase(b, keys[i], i, used);
            var first := Lower(p.props[i].value, Member(Ident(temp), keys[i], p.props[i].computed || keys[i].Lit?), Some(childBase), c);
            var others := LowerProps(p, keys, i + 1, temp, b, used + [childBase], first.next);
            LowerProps(p, keys, i, temp, b, used, c) == Code(first.stmts + others.stmts, others.next)
  {
  }

  /** What LowerPropsWrites says of the emitted code. */
  ghost predicate CodeWithin(code: Code, p: Pattern, b: string, c: nat) {
    c <= code.next && PartsWithin(code.stmts, p, b, c, code.next)
  }

  lemma CodesWithin(first: Code, others: Code, p: Pattern, b: string, c: nat)
    requires CodeWithin(first, p, b, c) && CodeWithin(others, p, b, first.next)
    ensures CodeWithin(Code(first.stmts + others.stmts, others.next), p, b, c)
  {
    PartsConcat(first.stmts, others.stmts, p, b, c, first.next, others.next);
  }

  lemma {:induction false} LowerPropsWrites(p: Pattern, keys: seq<Expr>, i: nat, temp: string, b: string, used: seq<string>, c: nat)
    requires p.ObjectPattern? && i <= |p.props| == |keys| && Issued(b, c)
    ensures CodeWithin(LowerProps(p, keys, i, temp, b, used, c), p, b, c)
    decreases p, 0, |p.props| - i, 1
  {
    if i < |p.props| {
      var childBase := PropBase(b, keys[i], i, used);
      var value := Member(Ident(temp), keys[i], p.props[i].computed || keys[i].Lit?);
      PropWrites(p, keys[i], i, value, childBase, b, used, c);
      OtherPropsWrite(p, keys, i, temp, b, used + [childBase], c, Lower(p.props[i].value, value, Some(childBase), c));
      LowerPropsStep(p, keys, i, temp, b, used, c);
    }
  }

  lemma {:induction false} OtherPropsWrite(p: Pattern, keys: seq<Expr>, i: nat, temp: string, b: string, used: seq<string>, c: nat, first: Code)
    requires p.ObjectPattern? && i < |p.props| == |keys| && c <= first.next && PartsWithin(first.stmts, p, b, c, first.next)
    requires Issued(b, first.next)
    ensures var others := LowerProps(p, keys, i + 1, temp, b, used, first.next);
            CodeWithin(Code(first.stmts + others.stmts, others.next), p, b, c)
    decreases p, 0, |p.props| - i, 0
  {
    LowerPropsWrites(p, keys, i + 1, temp, b, used, first.next);
    CodesWithin(first, LowerProps(p, keys, i + 1, temp, b, used, first.next), p, b, c);
  }

  lemma {:induction false} PropWrites(p: Pattern, key: Expr, i: nat, value: Expr, childBase: string, b: string, used: seq<string>, c: nat)
    requires p.ObjectPattern? && i < |p.props| && Issued(b, c) && childBase == PropBase(b, key, i, used) && !IsTempIdent(value)
    ensures var code := Lower(p.props[i].value, value, Some(childBase), c);
            c <= code.next && PartsWithin(code.stmts, p, b, c, code.next) && Issued(b, code.next)
    decreases p, 0, 0
  {
    PropBaseIsDerived(b, key, i, used);
    PropBinds(p, i);
    PartOf(p.props[i].value, p, value, childBase, b, c);
  }

  lemma {:induction false} LowerElemsWrites(p: Pattern, i: nat, temp: string, b: string, c: nat)
    requires p.ArrayPattern? && i <= |p.elems| && Issued(b, c)
    ensures c <= LowerElems(p, i, temp, b, c).next
    ensures PartsWithin(LowerElems(p, i, temp, b, c).stmts, p, b, c, LowerElems(p, i, temp, b, c).next)
    decreases p, 0, |p.elems| - i
  {
    var childBase := GenerateName(b, None, i);
    GeneratedIsDerived(b, None, i);
    if i == |p.elems| {
      if p.tail.Some? {
        PartOf(p.tail.value, p, RestArray(Ident(temp), i), childBase, b, c);
      }
    } else if p.elems[i].None? {
      LowerElemsWrites(p, i + 1, temp, b, c);
    } else {
      var value := Member(Ident(temp), Lit(Number(i)), true);
      ElemBinds(p, i);
      PartOf(p.elems[i].value, p, value, childBase, b, c);
      var first := Lower(p.elems[i].value, value, Some(childBase), c);
      LowerElemsWrites(p, i + 1, temp, b, first.next);
      var others := LowerElems(p, i + 1, temp, b, first.next);
      PartsConcat(first.stmts, others.stmts, p, b, c, first.next, others.next);
    }
  }
}
