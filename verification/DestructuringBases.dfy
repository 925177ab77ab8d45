/** The temporaries of the properties of one object pattern, also when keys are equal.
    src/processing/script/destructuring.ts */
module DestructuringBases {
  import opened Prelude
  import opened JsValues
  import opened TempNames
  import opened Destructuring
  import opened DestructuringWrites
  import opened DestructuringNames

  /** The part of the value that is assigned to the temporary of property i. */
  function PartValue(p: Pattern, keys: seq<Expr>, temp: string, i: nat): Expr
    requires p.ObjectPattern? && i < |p.props| == |keys|
  {
    var member := Member(Ident(temp), keys[i], p.props[i].computed || keys[i].Lit?);
    if p.props[i].value.ArrayPattern? then ArrayFrom(member) else member
  }

  lemma FirstIsTemp(q: Pattern, value: Expr, name: string, c: nat)
    requires !q.Target? && value.Member?
    ensures var stmts := Lower(q, value, Some(name), c).stmts;
            stmts != [] && stmts[0] == Assign(name, if q.ArrayPattern? then ArrayFrom(value) else value, true)
  {
    LowerIsBody(q, value, Some(name), c);
  }

  function PropMember(p: Pattern, keys: seq<Expr>, temp: string, i: nat): Expr
    requires p.ObjectPattern? && i < |p.props| == |keys|
  {
    Member(Ident(temp), keys[i], p.props[i].computed || keys[i].Lit?)
  }

  predicate Inside(some: seq<Assign>, all: seq<Assign>) {
    forall x :: x in some ==> x in all
  }

  /** The code for a property is among the code for all of them. */
  lemma {:induction false} PropertyInside(p: Pattern, keys: seq<Expr>, i: nat, temp: string, used: seq<string>, c: nat, j: nat) returns (c': nat)
    requires p.ObjectPattern? && |keys| == |p.props| && PlainKeys(keys) && i <= j < |keys| && UsedBefore(keys, i, temp, used)
    ensures Inside(Lower(p.props[j].value, PropMember(p, keys, temp, j), Some(BaseName(keys, temp, j)), c').stmts,
                   LowerProps(p, keys, i, temp, temp, used, c).stmts)
    decreases j - i
  {
    var value, name := PropMember(p, keys, temp, i), BaseName(keys, temp, i);
    PropBaseIs(keys, i, temp, used);
    LowerPropsStep(p, keys, i, temp, temp, used, c);
    if i == j {
      c' := c;
    } else {
      c' := PropertyInside(p, keys, i + 1, temp, used + [name], Lower(p.props[i].value, value, Some(name), c).next, j);
    }
  }

  lemma TempOfProperty(p: Pattern, keys: seq<Expr>, temp: string, c: nat, j: nat)
    requires p.ObjectPattern? && |keys| == |p.props| && PlainKeys(keys) && j < |keys| && !p.props[j].value.Target?
    ensures Assign(BaseName(keys, temp, j), PartValue(p, keys, temp, j), true) in LowerProps(p, keys, 0, temp, temp, [], c).stmts
  {
    var c' := PropertyInside(p, keys, 0, temp, [], c, j);
    FirstIsTemp(p.props[j].value, PropMember(p, keys, temp, j), BaseName(keys, temp, j), c');
    assert Assign(BaseName(keys, temp, j), PartValue(p, keys, temp, j), true)
        in Lower(p.props[j].value, PropMember(p, keys, temp, j), Some(BaseName(keys, temp, j)), c').stmts;
  }

  /** The code for the properties is among the code for the pattern. */
  lemma BodyInside(p: Pattern, value: Expr, base: Option<string>, c: nat) returns (temp: string, c': nat, plan: KeyPlan)
    requires p.ObjectPattern? && (base.Some? ==> !IsTempIdent(value))
    ensures temp == if IsTempIdent(value) then value.name else if base.Some? then base.value else Fresh(c)
    ensures plan == PlanKeys(p.props, p.rest.Some?, 0, c')
    ensures Inside(LowerProps(p, plan.keys, 0, temp, temp, [], plan.next).stmts, Lower(p, value, base, c).stmts)
  {
    LowerIsBody(p, value, base, c);
    var pre: Code;
    temp, pre := TempFor(value, base, c).0, TempFor(value, base, c).1;
    c' := pre.next;
    plan := PlanKeys(p.props, p.rest.Some?, 0, c');
    var body := LowerProps(p, plan.keys, 0, temp, temp, [], plan.next);
    assert Body(p, temp, c').stmts == plan.hoists + (body.stmts + RestAssign(p, temp, plan.names));
  }

  lemma BaseNameText(keys: seq<Expr>, base: string, i: nat)
    requires i < |keys|
    ensures BaseName(keys, base, i)
         == base + "$" + Segment(Some(keys[i]), i)
            + if exists j :: 0 <= j < i && Segment(Some(keys[j]), j) == Segment(Some(keys[i]), i) then "$i" + Decimal(i) else ""
  {
    var name := Child(base, Segment(Some(keys[i]), i));
    if Repeats(keys, i) {
      assert Child(name, "i" + Decimal(i)) == name + ("$i" + Decimal(i)) by { assert "$i" == "$" + "i"; }
    }
  }

  /** Each property whose value is a pattern has its own temporary, which is assigned that part of the value.
      Its name is that of the whole, a dollar sign and the segment of the key, and also the index if an
      earlier key gave the same segment. Without identifier keys that have a dollar sign all these names
      differ, also those of equal keys. */
  lemma PropertyTemps(p: Pattern, value: Expr, c: nat) returns (temp: string, keys: seq<Expr>, names: seq<string>)
    requires p.ObjectPattern? && !DollarKey(p)
    ensures temp == if IsTempIdent(value) then value.name else Fresh(c)
    ensures |keys| == |names| == |p.props| && forall i :: 0 <= i < |keys| && !IsHoisted(p, i) ==> keys[i] == p.props[i].key
    ensures forall i, j :: 0 <= i < j < |names| ==> names[i] != names[j]
    ensures forall i :: 0 <= i < |names| ==>
              names[i] == temp + "$" + Segment(Some(keys[i]), i)
                + if exists j :: 0 <= j < i && Segment(Some(keys[j]), j) == Segment(Some(keys[i]), i) then "$i" + Decimal(i) else ""
    ensures forall i :: 0 <= i < |names| && !p.props[i].value.Target? ==>
              Assign(names[i], PartValue(p, keys, temp, i), true) in Lower(p, value, None, c).stmts
  {
    var plan: KeyPlan, c': nat;
    temp, c', plan := BodyInside(p, value, None, c);
    keys := plan.keys;
    HoistedNames(p, c', plan);
    PlannedIsPlain(p, keys);
    names := seq(|keys|, i requires 0 <= i < |keys| => BaseName(keys, temp, i));
    forall i, j | 0 <= i < j < |names| ensures names[i] != names[j] { BaseNamesDiffer(keys, temp, i, j); }
    forall i | 0 <= i < |names|
      ensures names[i] == temp + "$" + Segment(Some(keys[i]), i)
                + if exists j :: 0 <= j < i && Segment(Some(keys[j]), j) == Segment(Some(keys[i]), i) then "$i" + Decimal(i) else ""
    {
      BaseNameText(keys, temp, i);
    }
    forall i | 0 <= i < |names| && !p.props[i].value.Target?
      ensures Assign(names[i], PartValue(p, keys, temp, i), true) in Lower(p, value, None, c).stmts
    {
      TempOfProperty(p, keys, temp, plan.next, i);
    }
  }

  // ---------------------------------------------------------------- a part that is named by an index

  lemma TwiceAssigned(stmts: seq<Assign>, a: Assign, b: Assign)
    requires a in stmts && b in stmts && a != b && a.target == b.target && a.isTemp && b.isTemp
    ensures !TempsDistinct(stmts)
  {
    var i :| 0 <= i < |stmts| && stmts[i] == a;
    var j :| 0 <= j < |stmts| && stmts[j] == b;
    if i < j { assert stmts[i].target == stmts[j].target; } else { assert stmts[j].target == stmts[i].target; }
  }

  /** Property i is the first with its segment, property j repeats it, and the pattern of property i has a
      property l that is the first one named by the index j. */
  predicate IndexedPart(p: Pattern, i: nat, l: nat, j: nat)
    requires p.ObjectPattern? && i < j < |p.props| && p.props[i].value.ObjectPattern? && l < |p.props[i].value.props|
  {
    var q := p.props[i].value;
    && EqualSegments(p, i, j) && !p.props[j].value.Target? && (forall h :: 0 <= h < i ==> !EqualSegments(p, h, i))
    && !q.props[l].value.Target? && !IsHoisted(q, l) && Segment(Some(q.props[l].key), l) == "i" + Decimal(j)
    && forall h :: 0 <= h < l ==> !EqualSegments(q, h, l)
  }

  lemma FirstName(p: Pattern, keys: seq<Expr>, base: string, i: nat)
    requires p.ObjectPattern? && !DollarKey(p) && Planned(p, keys) && i < |keys|
    requires !IsHoisted(p, i) && forall h :: 0 <= h < i ==> !EqualSegments(p, h, i)
    ensures BaseName(keys, base, i) == Child(base, Segment(Some(p.props[i].key), i))
  {
    forall h | 0 <= h < i ensures Segment(Some(keys[h]), h) != Segment(Some(keys[i]), i) { SameSegment(p, keys, h, i); }
  }

  lemma RepeatName(p: Pattern, keys: seq<Expr>, base: string, i: nat, j: nat)
    requires p.ObjectPattern? && !DollarKey(p) && Planned(p, keys) && i < j < |keys| && EqualSegments(p, i, j)
    ensures BaseName(keys, base, j) == Child(Child(base, Segment(Some(p.props[i].key), i)), "i" + Decimal(j))
  {
    SameSegment(p, keys, i, j);
  }

  /** The code for the pattern of property i has the temporary of its property l. */
  lemma PartOfPart(p: Pattern, keys: seq<Expr>, temp: string, c: nat, i: nat, l: nat) returns (keys': seq<Expr>)
    requires p.ObjectPattern? && !DollarKey(p) && |keys| == |p.props| && PlainKeys(keys) && i < |keys|
    requires p.props[i].value.ObjectPattern? && l < |p.props[i].value.props| && !p.props[i].value.props[l].value.Target?
    ensures Planned(p.props[i].value, keys')
    ensures var q, name := p.props[i].value, BaseName(keys, temp, i);
            Assign(BaseName(keys', name, l), PartValue(q, keys', name, l), true) in LowerProps(p, keys, 0, temp, temp, [], c).stmts
  {
    var q, name, member := p.props[i].value, BaseName(keys, temp, i), PropMember(p, keys, temp, i);
    var c1 := PropertyInside(p, keys, 0, temp, [], c, i);
    var inner, c2, plan := BodyInside(q, member, Some(name), c1);
    keys' := plan.keys;
    HoistedNames(q, c2, plan);
    PlannedIsPlain(q, keys');
    TempOfProperty(q, keys', name, plan.next, l);
    assert Assign(BaseName(keys', name, l), PartValue(q, keys', name, l), true) in Lower(q, member, Some(name), c1).stmts;
  }

  /** Such a part gets the name that property j has. */
  lemma IndexedPartRepeats(p: Pattern, value: Expr, c: nat, i: nat, l: nat, j: nat)
    requires p.ObjectPattern? && !DollarKey(p)
    requires i < j < |p.props| && p.props[i].value.ObjectPattern? && l < |p.props[i].value.props| && IndexedPart(p, i, l, j)
    ensures !TempsDistinct(Lower(p, value, None, c).stmts)
  {
    var q := p.props[i].value;
    var temp, c0, plan := BodyInside(p, value, None, c);
    HoistedNames(p, c0, plan);
    PlannedIsPlain(p, plan.keys);
    TempOfProperty(p, plan.keys, temp, plan.next, j);
    RepeatName(p, plan.keys, temp, i, j);
    FirstName(p, plan.keys, temp, i);
    var name := BaseName(plan.keys, temp, i);
    var keys' := PartOfPart(p, plan.keys, temp, plan.next, i, l);
    FirstName(q, keys', name, l);
    assert |name| > |temp|;
    TwiceAssigned(Lower(p, value, None, c).stmts,
                  Assign(BaseName(plan.keys, temp, j), PartValue(p, plan.keys, temp, j), true),
                  Assign(BaseName(keys', name, l), PartValue(q, keys', name, l), true));
  }

  // ---------------------------------------------------------------- `const { user: { name }, user: { id } } = o`

  function Field(name: string): Property {
    Property(Ident(name), false, Target(name))
  }

  function EqualKeys(): Pattern {
    ObjectPattern([Property(Ident("user"), false, ObjectPattern([Field("name")], None)),
                   Property(Ident("user"), false, ObjectPattern([Field("id")], None))], None)
  }

  lemma FieldPlain(name: string)
    requires '$' !in name
    ensures PlainNames(ObjectPattern([Field(name)], None))
  {
  }

  lemma EqualKeysPlain()
    ensures PlainNames(EqualKeys())
  {
    var p, q, r := EqualKeys(), ObjectPattern([Field("name")], None), ObjectPattern([Field("id")], None);
    FieldPlain("name");
    FieldPlain("id");
    TwoPlain(p, q, r);
  }

  lemma TwoPlain(p: Pattern, q: Pattern, r: Pattern)
    requires p == ObjectPattern([Property(Ident("user"), false, q), Property(Ident("user"), false, r)], None)
    requires PlainNames(q) && PlainNames(r) && forall k :: !PartNamed(q, k)
    ensures PlainNames(p)
  {
    assert forall i :: 0 <= i < |p.props| ==> p.props[i].value == q || p.props[i].value == r;
    assert forall i :: 0 <= i < |p.props| ==> p.props[i].key == Ident("user") && !IsHoisted(p, i);
    assert !DollarKey(p);
    assert !StemKey(p);
    forall i, j | 0 <= i < j < |p.props| ensures !IndexInside(p, i, j) { assert i == 0; }
    assert !IndexKey(p);
  }

  lemma SecondName(name: string, temp: string, index: string)
    requires name == temp + "$" + "user" + ("$i" + index) && temp == "_hh$temp0" && index == "1"
    ensures name == "_hh$temp0$user$i1"
  {
  }

  lemma FirstText(name: string, temp: string)
    requires name == temp + "$" + "user" + "" && temp == "_hh$temp0"
    ensures name == "_hh$temp0$user"
  {
  }

  /** Two properties with equal keys get different temporaries, the second one with its index. */
  lemma EqualKeysDiffer()
    ensures var stmts := Lower(EqualKeys(), Ident("o"), None, 0).stmts;
            var user := Member(Ident("_hh$temp0"), Ident("user"), false);
            TempsDistinct(stmts) && Assign("_hh$temp0$user", user, true) in stmts && Assign("_hh$temp0$user$i1", user, true) in stmts
  {
    EqualKeysPlain();
    TempNamesDistinct(EqualKeys(), Ident("o"), 0);
    FirstTemp(Ident("o"), 0);
    TwoTemps(EqualKeys(), EqualKeys().props[0].value, EqualKeys().props[1].value, Ident("o"), 0);
  }

  lemma FirstTemp(value: Expr, c: nat)
    requires value == Ident("o") && c == 0
    ensures !IsTempIdent(value) && Fresh(c) == "_hh$temp0"
  {
    assert Decimal(0) == "0";
  }

  lemma DecimalOne()
    ensures Decimal(1) == "1"
  {
    assert Decimal(1) == [DigitChar(1)];
  }

  predicate TwoUsers(p: Pattern, q: Pattern, r: Pattern) {
    && p == ObjectPattern([Property(Ident("user"), false, q), Property(Ident("user"), false, r)], None)
    && q.ObjectPattern? && r.ObjectPattern?
  }

  lemma TwoTemps(p: Pattern, q: Pattern, r: Pattern, value: Expr, c: nat)
    requires TwoUsers(p, q, r) && !DollarKey(p) && !IsTempIdent(value) && Fresh(c) == "_hh$temp0"
    ensures var user := Member(Ident("_hh$temp0"), Ident("user"), false);
            && Assign("_hh$temp0$user", user, true) in Lower(p, value, None, c).stmts
            && Assign("_hh$temp0$user$i1", user, true) in Lower(p, value, None, c).stmts
  {
    var temp, keys, names := PropertyTemps(p, value, c);
    TwoNames(p, q, r, temp, keys, names, Lower(p, value, None, c).stmts);
  }

  lemma TwoNames(p: Pattern, q: Pattern, r: Pattern, temp: string, keys: seq<Expr>, names: seq<string>, stmts: seq<Assign>)
    requires TwoUsers(p, q, r) && temp == "_hh$temp0"
    requires |keys| == |names| == |p.props| && forall i :: 0 <= i < |keys| && !IsHoisted(p, i) ==> keys[i] == p.props[i].key
    requires forall i :: 0 <= i < |names| ==>
              names[i] == temp + "$" + Segment(Some(keys[i]), i)
                + if exists j :: 0 <= j < i && Segment(Some(keys[j]), j) == Segment(Some(keys[i]), i) then "$i" + Decimal(i) else ""
    requires forall i :: 0 <= i < |names| && !p.props[i].value.Target? ==> Assign(names[i], PartValue(p, keys, temp, i), true) in stmts
    ensures var user := Member(Ident("_hh$temp0"), Ident("user"), false);
            Assign("_hh$temp0$user", user, true) in stmts && Assign("_hh$temp0$user$i1", user, true) in stmts
  {
    assert !IsHoisted(p, 0) && !IsHoisted(p, 1);
    assert keys[0] == Ident("user") && keys[1] == Ident("user");
    assert Segment(Some(keys[0]), 0) == "user" && Segment(Some(keys[1]), 1) == "user";
    DecimalOne();
    FirstText(names[0], temp);
    SecondName(names[1], temp, Decimal(1));
    assert Assign(names[0], PartValue(p, keys, temp, 0), true) in stmts && Assign(names[1], PartValue(p, keys, temp, 1), true) in stmts;
  }
}
