/** The pass of src/processing/script/destructuring.ts as it runs: a name counter, a list of
    emitted assignments, and loops over the properties and elements of a pattern. */
module DestructuringPass {
  import opened Prelude
  import opened JsValues
  import opened TempNames
  import opened Destructuring

  class Pass {
    var counter: nat
    var emitted: seq<Assign>

    constructor ()
      ensures counter == 0 && emitted == []
    {
      counter, emitted := 0, [];
    }

    /** TempVariables.generateName without a base name. */
    method FreshName() returns (name: string)
      modifies this`counter
      ensures name == Fresh(old(counter)) && counter == old(counter) + 1
    {
      name := Fresh(counter);
      counter := counter + 1;
    }

    method Build(target: string, value: Expr, isTemp: bool)
      modifies this`emitted
      ensures emitted == old(emitted) + [Assign(target, value, isTemp)]
    {
      emitted := emitted + [Assign(target, value, isTemp)];
    }

    method TempIdentifierOrExisting(value: Expr, base: Option<string>) returns (temp: string)
      modifies this
      ensures temp == TempFor(value, base, old(counter)).0
      ensures emitted == old(emitted) + TempFor(value, base, old(counter)).1.stmts
      ensures counter == TempFor(value, base, old(counter)).1.next
    {
      if IsTempIdent(value) {
        temp := value.name;
        return;
      }
      if base.Some? {
        temp := base.value;
      } else {
        temp := FreshName();
      }
      Build(temp, value, true);
    }

    method Process(p: Pattern, value: Expr, base: Option<string>)
      modifies this
      ensures emitted == old(emitted) + Lower(p, value, base, old(counter)).stmts
      ensures counter == Lower(p, value, base, old(counter)).next
      decreases p, 1
    {
      match p
      case Target(x) => Build(x, value, false);
      case ObjectPattern(_, _) => ProcessObjectPattern(p, value, base);
      case ArrayPattern(_, _) => ProcessArrayPattern(p, value, base);
      case AssignmentPattern(left, right) =>
        var temp := TempIdentifierOrExisting(value, base);
        var b := if base.Some? then base.value else temp;
        Process(left, IfUndefined(Ident(temp), right), Some(b + "$assign"));
    }

    /** Collects the keys to exclude from the rest, evaluating computed ones up front. */
    method CollectRestKeys(props: seq<Property>) returns (keys: seq<Expr>, names: seq<Expr>)
      modifies this
      ensures var plan := PlanKeys(props, true, 0, old(counter));
              && keys == plan.keys && names == plan.names
              && emitted == old(emitted) + plan.hoists && counter == plan.next
    {
      ghost var plan := PlanKeys(props, true, 0, counter);
      keys, names := [], [];
      for i := 0 to |props|
        invariant |keys| == i && |names| == i
        invariant AppendPlan(keys, names, emitted, PlanKeys(props, true, i, counter)) == AppendPlan([], [], old(emitted), plan)
      {
        var prop := props[i];
        PlanStep(props, i, counter, keys, names, emitted);
        if prop.key.Ident? {
          names := names + [if prop.computed then prop.key else Lit(Str(prop.key.name))];
          keys := keys + [prop.key];
        } else if prop.key.Lit? {
          names := names + [prop.key];
          keys := keys + [prop.key];
        } else {
          var temp := FreshName();
          Build(temp, prop.key, true);
          names := names + [Ident(temp)];
          keys := keys + [Ident(temp)];
        }
      }
      assert keys + [] == keys && names + [] == names && emitted + [] == emitted;
      assert [] + plan.keys == plan.keys && [] + plan.names == plan.names;
    }

    method ProcessObjectPattern(p: Pattern, value: Expr, base: Option<string>)
      requires p.ObjectPattern?
      modifies this
      ensures emitted == old(emitted) + Lower(p, value, base, old(counter)).stmts
      ensures counter == Lower(p, value, base, old(counter)).next
      decreases p, 0
    {
      var temp := TempIdentifierOrExisting(value, base);
      var b := if base.Some? then base.value else temp;
      label tempReady:
      var keys, names := [], [];
      if p.rest.Some? {
        keys, names := CollectRestKeys(p.props);
      } else {
        keys := seq(|p.props|, i requires 0 <= i < |p.props| => p.props[i].key);
        PlainPlan(p.props, 0, counter);
        assert keys == PlanKeys(p.props, false, 0, counter).keys;
        assert emitted + [] == emitted;
      }
      ghost var start := emitted;
      ghost var body := LowerProps(p, keys, 0, temp, b, [], counter);
      var used := [];
      for i := 0 to |p.props|
        invariant AppendCode(emitted, LowerProps(p, keys, i, temp, b, used, counter)) == AppendCode(start, body)
      {
        var childBase := GenerateName(b, Some(keys[i]), i);
        if childBase in used {
          childBase := GenerateName(childBase, None, i);
        }
        PropStep(p, keys, i, temp, b, used, counter, emitted);
        Process(p.props[i].value, Member(Ident(temp), keys[i], p.props[i].computed || keys[i].Lit?), Some(childBase));
        used := used + [childBase];
      }
      assert emitted + [] == emitted;
      if p.rest.Some? {
        Build(p.rest.value, RestObject(Ident(temp), names), false);
      }
      ObjectCode(p, value, base, old(counter), old(emitted));
    }

    method ProcessArrayPattern(p: Pattern, value: Expr, base: Option<string>)
      requires p.ArrayPattern?
      modifies this
      ensures emitted == old(emitted) + Lower(p, value, base, old(counter)).stmts
      ensures counter == Lower(p, value, base, old(counter)).next
      decreases p, 0
    {
      var temp := TempIdentifierOrExisting(if value.ArrayLit? then value else ArrayFrom(value), base);
      var b := if base.Some? then base.value else temp;
      label tempReady:
      ghost var body := LowerElems(p, 0, temp, b, counter);
      for i := 0 to |p.elems|
        invariant emitted + LowerElems(p, i, temp, b, counter).stmts == old@tempReady(emitted) + body.stmts
        invariant LowerElems(p, i, temp, b, counter).next == body.next
      {
        ElemStep(p, i, temp, b, counter);
        if p.elems[i].Some? {
          Process(p.elems[i].value, Member(Ident(temp), Lit(Number(i)), true), Some(GenerateName(b, None, i)));
        }
      }
      assert emitted + [] == emitted;
      if p.tail.Some? {
        Process(p.tail.value, RestArray(Ident(temp), |p.elems|), Some(GenerateName(b, None, |p.elems|)));
      }
    }
  }

  lemma ElemStep(p: Pattern, i: nat, temp: string, b: string, c: nat)
    requires p.ArrayPattern? && i < |p.elems|
    ensures p.elems[i].None? ==> LowerElems(p, i, temp, b, c) == LowerElems(p, i + 1, temp, b, c)
    ensures p.elems[i].Some? ==>
              var first := Lower(p.elems[i].value, Member(Ident(temp), Lit(Number(i)), true), Some(GenerateName(b, None, i)), c);
              var others := LowerElems(p, i + 1, temp, b, first.next);
              && LowerElems(p, i, temp, b, c).next == others.next
              && forall out: seq<Assign> :: out + LowerElems(p, i, temp, b, c).stmts == (out + first.stmts) + others.stmts
  {
    if p.elems[i].Some? {
      var first := Lower(p.elems[i].value, Member(Ident(temp), Lit(Number(i)), true), Some(GenerateName(b, None, i)), c);
      var others := LowerElems(p, i + 1, temp, b, first.next);
      assert LowerElems(p, i, temp, b, c) == Code(first.stmts + others.stmts, others.next);
    }
  }

  function AppendPlan(keys: seq<Expr>, names: seq<Expr>, out: seq<Assign>, rest: KeyPlan): KeyPlan {
    KeyPlan(keys + rest.keys, names + rest.names, out + rest.hoists, rest.next)
  }

  function AppendCode(out: seq<Assign>, code: Code): Code {
    Code(out + code.stmts, code.next)
  }

  lemma PlanStep(props: seq<Property>, i: nat, c: nat, keys: seq<Expr>, names: seq<Expr>, out: seq<Assign>)
    requires i < |props|
    ensures var key := props[i].key;
            AppendPlan(keys, names, out, PlanKeys(props, true, i, c))
            == if key.Ident? then
              AppendPlan(keys + [key], names + [if props[i].computed then key else Lit(Str(key.name))], out, PlanKeys(props, true, i + 1, c))
            else if key.Lit? then
              AppendPlan(keys + [key], names + [key], out, PlanKeys(props, true, i + 1, c))
            else
              AppendPlan(keys + [Ident(Fresh(c))], names + [Ident(Fresh(c))], out + [Assign(Fresh(c), key, true)],
                         PlanKeys(props, true, i + 1, c + 1))
  {
  }

  lemma PropStep(p: Pattern, keys: seq<Expr>, i: nat, temp: string, b: string, used: seq<string>, c: nat, out: seq<Assign>)
    requires p.ObjectPattern? && i < |p.props| == |keys|
    ensures var childBase := PropBase(b, keys[i], i, used);
            var first := Lower(p.props[i].value, Member(Ident(temp), keys[i], p.props[i].computed || keys[i].Lit?), Some(childBase), c);
            AppendCode(out, LowerProps(p, keys, i, temp, b, used, c))
            == AppendCode(out + first.stmts, LowerProps(p, keys, i + 1, temp, b, used + [childBase], first.next))
  {
  }

  lemma ObjectCode(p: Pattern, value: Expr, base: Option<string>, c: nat, out: seq<Assign>)
    requires p.ObjectPattern?
    ensures var (temp, pre) := TempFor(value, base, c);
            var b := if base.Some? then base.value else temp;
            var plan := PlanKeys(p.props, p.rest.Some?, 0, pre.next);
            var body := LowerProps(p, plan.keys, 0, temp, b, [], plan.next);
            AppendCode(out, Lower(p, value, base, c))
            == Code(out + pre.stmts + plan.hoists + body.stmts + RestAssign(p, temp, plan.names), body.next)
  {
    var (temp, pre) := TempFor(value, base, c);
    var b := if base.Some? then base.value else temp;
    var all := ObjectBody(p, temp, b, pre.next);
    var plan := PlanKeys(p.props, p.rest.Some?, 0, pre.next);
    var body := LowerProps(p, plan.keys, 0, temp, b, [], plan.next);
    assert Lower(p, value, base, c) == Code(pre.stmts + all.stmts, all.next);
    assert all == Code(plan.hoists + body.stmts + RestAssign(p, temp, plan.names), body.next);
    Regroup(out, pre.stmts, plan.hoists, body.stmts, RestAssign(p, temp, plan.names));
  }

  lemma Regroup(a: seq<Assign>, b: seq<Assign>, c: seq<Assign>, d: seq<Assign>, e: seq<Assign>)
    ensures a + (b + (c + d + e)) == a + b + c + d + e
  {
  }

  lemma {:induction false} PlainPlan(props: seq<Property>, i: nat, c: nat)
    requires i <= |props|
    ensures PlanKeys(props, false, i, c)
         == KeyPlan(seq(|props| - i, j requires 0 <= j < |props| - i => props[i + j].key), [], [], c)
    decreases |props| - i
  {
    if i < |props| {
      PlainPlan(props, i + 1, c);
      var others := PlanKeys(props, false, i + 1, c);
      assert PlanKeys(props, false, i, c).keys == [props[i].key] + others.keys;
      assert PlanKeys(props, false, i, c).keys == seq(|props| - i, j requires 0 <= j < |props| - i => props[i + j].key);
    }
  }
}
