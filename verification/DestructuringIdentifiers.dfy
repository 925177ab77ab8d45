/** The temporaries that a lowering emits are identifiers.
    src/processing/script/destructuring.ts, src/processing/script/transformers/temp-variables.ts */
module DestructuringIdentifiers {
  import opened Prelude
  import opened JsValues
  import opened TempNames
  import opened Destructuring
  import opened DestructuringWrites
  import opened DestructuringNames

  /** Letters, digits, underscores and dollar signs. */
  predicate IsIdText(s: string) {
    forall c :: c in s ==> 'a' <= c <= 'z' || 'A' <= c <= 'Z' || '0' <= c <= '9' || c == '_' || c == '$'
  }

  predicate IsIdKey(key: Expr) {
    key.Ident? ==> IsIdText(key.name)
  }

  /** The identifier keys of the pattern are such texts; literal keys may be any. */
  ghost predicate IdKeys(p: Pattern)
    decreases p
  {
    match p
    case Target(x) => true
    case AssignmentPattern(left, right) => IdKeys(left)
    case ObjectPattern(props, rest) => forall i :: 0 <= i < |props| ==> IdKeys(props[i].value) && IsIdKey(props[i].key)
    case ArrayPattern(elems, tail) =>
      (forall i :: 0 <= i < |elems| && elems[i].Some? ==> IdKeys(elems[i].value)) && (tail.Some? ==> IdKeys(tail.value))
  }

  ghost predicate IdTemps(stmts: seq<Assign>) {
    forall i :: 0 <= i < |stmts| && stmts[i].isTemp ==> IsIdText(stmts[i].target)
  }

  lemma IdConcat(a: string, b: string)
    ensures IsIdText(a + b) <==> IsIdText(a) && IsIdText(b)
  {
    assert forall c :: c in a + b <==> c in a || c in b;
  }

  lemma FreshIsId(k: nat)
    ensures IsIdText(Fresh(k))
  {
    DecimalIsDigits(k);
    IdConcat(PREFIX, Decimal(k));
  }

  predicate IsLetterOrDigit(c: char) {
    'a' <= c <= 'z' || 'A' <= c <= 'Z' || '0' <= c <= '9'
  }

  /** t is made of the letters and digits of s, which stand at the places `at`, in order. */
  predicate IsLettersOf(t: string, s: string, at: seq<nat>) {
    && |at| == |t| && (forall k :: 0 <= k < |at| ==> at[k] < |s| && t[k] == s[at[k]])
    && (forall k, l :: 0 <= k < l < |at| ==> at[k] < at[l])
    && forall i :: 0 <= i < |s| ==> (i in at <==> IsLetterOrDigit(s[i]))
  }

  lemma KeptLetter(t: string, s: string, at: seq<nat>)
    requires s != [] && IsLetterOrDigit(s[0]) && IsLettersOf(t, s[1..], at)
    ensures IsLettersOf([s[0]] + t, s, [0] + Shifted(at))
  {
    forall i | 0 <= i < |s| ensures i in [0] + Shifted(at) <==> IsLetterOrDigit(s[i]) {
      if i > 0 {
        ShiftedMeans(at, i);
        assert s[1..][i - 1] == s[i];
      }
    }
  }

  lemma DroppedLetter(t: string, s: string, at: seq<nat>)
    requires s != [] && !IsLetterOrDigit(s[0]) && IsLettersOf(t, s[1..], at)
    ensures IsLettersOf(t, s, Shifted(at))
  {
    forall i | 0 <= i < |s| ensures i in Shifted(at) <==> IsLetterOrDigit(s[i]) {
      if i > 0 {
        ShiftedMeans(at, i);
        assert s[1..][i - 1] == s[i];
      }
    }
  }

  /** What a literal key adds to a name: the letters and digits of its text, in order. */
  lemma {:induction false} SanitizedExactly(s: string) returns (at: seq<nat>)
    ensures IsLettersOf(Sanitize(s), s, at)
  {
    if s == [] {
      at := [];
    } else {
      var rest := SanitizedExactly(s[1..]);
      if IsLetterOrDigit(s[0]) {
        KeptLetter(Sanitize(s[1..]), s, rest);
        at := [0] + Shifted(rest);
      } else {
        DroppedLetter(Sanitize(s[1..]), s, rest);
        at := Shifted(rest);
        assert [] + Sanitize(s[1..]) == Sanitize(s[1..]);
      }
    }
  }

  function Shifted(at: seq<nat>): seq<nat> {
    seq(|at|, k requires 0 <= k < |at| => at[k] + 1)
  }

  lemma ShiftedMeans(at: seq<nat>, i: nat)
    requires i > 0
    ensures i in Shifted(at) <==> i - 1 in at
  {
    if i - 1 in at {
      var k :| 0 <= k < |at| && at[k] == i - 1;
      assert Shifted(at)[k] == i;
    }
  }

  lemma {:induction false} SanitizedIsId(s: string)
    ensures IsIdText(Sanitize(s))
  {
    if s != [] { SanitizedIsId(s[1..]); }
  }

  lemma GeneratedIsId(base: string, key: Option<Expr>, i: nat)
    requires IsIdText(base) && (key.Some? ==> IsIdKey(key.value))
    ensures IsIdText(GenerateName(base, key, i))
  {
    IdConcat(base, "$");
    IdConcat(base, "$i");
    DecimalIsDigits(i);
    IdConcat(base + "$i", Decimal(i));
    if key.Some? && key.value.Ident? { IdConcat(base + "$", key.value.name); }
    if key.Some? && key.value.Lit? {
      SanitizedIsId(TextOf(key.value.value));
      IdConcat(base + "$", Sanitize(TextOf(key.value.value)));
    }
  }

  lemma BothId(a: seq<Assign>, b: seq<Assign>)
    requires IdTemps(a) && IdTemps(b)
    ensures IdTemps(a + b)
  {
  }

  lemma {:induction false} LowerIds(p: Pattern, value: Expr, base: Option<string>, c: nat)
    requires IdKeys(p) && (base.Some? ==> IsIdText(base.value) && !IsTempIdent(value)) && (IsTempIdent(value) ==> IsIdText(value.name))
    ensures IdTemps(Lower(p, value, base, c).stmts)
    decreases p, 2
  {
    if !p.Target? {
      LowerIsBody(p, value, base, c);
      var value' := if p.ArrayPattern? && !value.ArrayLit? then ArrayFrom(value) else value;
      var (temp, pre) := TempFor(value', base, c);
      FreshIsId(c);
      BodyIds(p, temp, pre.next);
      BothId(pre.stmts, Body(p, temp, pre.next).stmts);
    }
  }

  lemma {:induction false} BodyIds(p: Pattern, temp: string, c: nat)
    requires !p.Target? && IdKeys(p) && IsIdText(temp)
    ensures IdTemps(Body(p, temp, c).stmts)
    decreases p, 1
  {
    match p
    case AssignmentPattern(left, right) =>
      IdConcat(temp, "$assign");
      LowerIds(left, IfUndefined(Ident(temp), right), Some(temp + "$assign"), c);
    case ObjectPattern(props, rest) =>
      var plan := PlanKeys(props, rest.Some?, 0, c);
      HoistedNames(p, c, plan);
      PropsIds(p, plan.keys, 0, temp, [], plan.next);
      HoistsIds(p, temp, c, plan);
    case ArrayPattern(elems, tail) => ElemsIds(p, 0, temp, c);
  }

  lemma HoistsIds(p: Pattern, temp: string, c: nat, plan: KeyPlan)
    requires p.ObjectPattern? && plan == PlanKeys(p.props, p.rest.Some?, 0, c)
    requires forall k :: 0 <= k < |plan.hoists| ==> plan.hoists[k].target == Fresh(c + k)
    requires IdTemps(LowerProps(p, plan.keys, 0, temp, temp, [], plan.next).stmts)
    ensures IdTemps(Body(p, temp, c).stmts)
  {
    var body := LowerProps(p, plan.keys, 0, temp, temp, [], plan.next);
    forall k | 0 <= k < |plan.hoists| ensures IsIdText(plan.hoists[k].target) { FreshIsId(c + k); }
    BothId(body.stmts, RestAssign(p, temp, plan.names));
    BothId(plan.hoists, body.stmts + RestAssign(p, temp, plan.names));
  }

  lemma PlannedKeyIsId(p: Pattern, keys: seq<Expr>, i: nat)
    requires p.ObjectPattern? && IdKeys(p) && Planned(p, keys) && i < |keys|
    ensures IsIdKey(keys[i])
  {
    if IsHoisted(p, i) {
      var k: nat :| keys[i] == Ident(Fresh(k));
      FreshIsId(k);
    }
  }

  lemma PropBaseIsId(base: string, key: Expr, i: nat, used: seq<string>)
    requires IsIdText(base) && IsIdKey(key)
    ensures IsIdText(PropBase(base, key, i, used))
  {
    GeneratedIsId(base, Some(key), i);
    GeneratedIsId(GenerateName(base, Some(key), i), None, i);
  }

  lemma PropsJoined(p: Pattern, keys: seq<Expr>, i: nat, base: string, used: seq<string>, c: nat, name: string, first: Code)
    requires p.ObjectPattern? && |keys| == |p.props| && i < |keys| && name == PropBase(base, keys[i], i, used)
    requires first == Lower(p.props[i].value, Member(Ident(base), keys[i], p.props[i].computed || keys[i].Lit?), Some(name), c)
    requires IdTemps(first.stmts) && IdTemps(LowerProps(p, keys, i + 1, base, base, used + [name], first.next).stmts)
    ensures IdTemps(LowerProps(p, keys, i, base, base, used, c).stmts)
  {
    LowerPropsStep(p, keys, i, base, base, used, c);
    BothId(first.stmts, LowerProps(p, keys, i + 1, base, base, used + [name], first.next).stmts);
  }

  lemma {:induction false} PropsIds(p: Pattern, keys: seq<Expr>, i: nat, base: string, used: seq<string>, c: nat)
    requires p.ObjectPattern? && IdKeys(p) && Planned(p, keys) && i <= |keys| && IsIdText(base)
    ensures IdTemps(LowerProps(p, keys, i, base, base, used, c).stmts)
    decreases p, 0, |p.props| - i, 1
  {
    if i < |p.props| {
      var name := PropBase(base, keys[i], i, used);
      PlannedKeyIsId(p, keys, i);
      PropBaseIsId(base, keys[i], i, used);
      var first := PropIds(p, keys, i, base, name, c);
      PropsIds(p, keys, i + 1, base, used + [name], first.next);
      PropsJoined(p, keys, i, base, used, c, name, first);
    }
  }

  lemma {:induction false} PropIds(p: Pattern, keys: seq<Expr>, i: nat, base: string, name: string, c: nat) returns (first: Code)
    requires p.ObjectPattern? && IdKeys(p) && |keys| == |p.props| && i < |keys| && IsIdText(name)
    ensures first == Lower(p.props[i].value, Member(Ident(base), keys[i], p.props[i].computed || keys[i].Lit?), Some(name), c)
    ensures IdTemps(first.stmts)
    decreases p, 0, |p.props| - i, 0
  {
    var value := Member(Ident(base), keys[i], p.props[i].computed || keys[i].Lit?);
    LowerIds(p.props[i].value, value, Some(name), c);
    first := Lower(p.props[i].value, value, Some(name), c);
  }

  lemma {:induction false} ElemsIds(p: Pattern, i: nat, base: string, c: nat)
    requires p.ArrayPattern? && IdKeys(p) && i <= |p.elems| && IsIdText(base)
    ensures IdTemps(LowerElems(p, i, base, base, c).stmts)
    decreases p, 0, |p.elems| - i
  {
    GeneratedIsId(base, None, i);
    var name := Some(GenerateName(base, None, i));
    if i == |p.elems| {
      if p.tail.Some? { LowerIds(p.tail.value, RestArray(Ident(base), i), name, c); }
    } else if p.elems[i].None? {
      ElemsIds(p, i + 1, base, c);
    } else {
      var value := Member(Ident(base), Lit(Number(i)), true);
      LowerIds(p.elems[i].value, value, name, c);
      var first := Lower(p.elems[i].value, value, name, c);
      ElemsIds(p, i + 1, base, first.next);
      BothId(first.stmts, LowerElems(p, i + 1, base, base, first.next).stmts);
    }
  }

  /** Every temporary that the lowering emits is a text of letters, digits, underscores and dollar signs, whatever the
      literal keys of the pattern are. */
  lemma TempsAreIdentifiers(p: Pattern, value: Expr, c: nat)
    requires IdKeys(p) && !IsTempIdent(value)
    ensures forall i :: 0 <= i < |Lower(p, value, None, c).stmts| && Lower(p, value, None, c).stmts[i].isTemp ==>
              forall ch :: ch in Lower(p, value, None, c).stmts[i].target ==>
                'a' <= ch <= 'z' || 'A' <= ch <= 'Z' || '0' <= ch <= '9' || ch == '_' || ch == '$'
  {
    LowerIds(p, value, None, c);
    var stmts := Lower(p, value, None, c).stmts;
    forall i | 0 <= i < |stmts| && stmts[i].isTemp ensures IsIdText(stmts[i].target) { }
  }
}
