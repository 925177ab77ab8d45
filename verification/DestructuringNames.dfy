/** When the temporaries that the lowering of a pattern emits have different names.
    src/processing/script/destructuring.ts, src/processing/script/transformers/temp-variables.ts */
module DestructuringNames {
  import opened Prelude
  import opened JsValues
  import opened TempNames
  import opened Destructuring
  import opened DestructuringWrites

  // ---------------------------------------------------------------- names

  /** What a property or an element adds to the name of the temporary, after a dollar sign. */
  function Segment(key: Option<Expr>, i: nat): string {
    if key.Some? && key.value.Ident? then key.value.name
    else if key.Some? && key.value.Lit? && !Falsy(key.value.value) then Sanitize(TextOf(key.value.value))
    else "i" + Decimal(i)
  }

  /** The name of a part: base, dollar sign, segment. */
  function Child(base: string, segment: string): string {
    base + "$" + segment
  }

  lemma GeneratedIsChild(base: string, key: Option<Expr>, i: nat)
    ensures GenerateName(base, key, i) == Child(base, Segment(key, i))
  {
    assert base + "$i" + Decimal(i) == base + "$" + ("i" + Decimal(i)) by { assert base + "$i" == base + "$" + "i"; }
  }

  lemma {:induction false} SanitizedIsPlain(s: string)
    ensures '$' !in Sanitize(s)
  {
    if s != [] { SanitizedIsPlain(s[1..]); }
  }

  lemma SegmentIsPlain(key: Option<Expr>, i: nat)
    requires key.Some? && key.value.Ident? ==> '$' !in key.value.name
    ensures '$' !in Segment(key, i)
  {
    DecimalIsDigits(i);
    if key.Some? && key.value.Lit? { SanitizedIsPlain(TextOf(key.value.value)); }
  }

  /** A name and the names derived from it. */
  predicate InFamily(n: string, base: string) {
    n == base || Derived(n, base)
  }

  lemma ChildIsDerived(n: string, base: string, segment: string)
    requires InFamily(n, Child(base, segment))
    ensures Derived(n, base) && n != base
  {
    var child := Child(base, segment);
    assert child[..|base| + 1] == base + "$" && child == n[..|child|];
  }

  /** A name without a dollar sign, or the name of a hoisted key. */
  ghost predicate IsSegment(x: string) {
    '$' !in x || exists k: nat :: x == Fresh(k)
  }

  /** What precedes the dollar sign in the names of hoisted keys. */
  const STEM := "_hh"

  /** Segments whose families of names are apart. */
  predicate Apart(x: string, y: string) {
    x != y && !(x == STEM && IsTemp(y)) && !(y == STEM && IsTemp(x))
  }

  /** Names of such children belong to different families. */
  lemma FamiliesApart(n: string, base: string, x: string, y: string)
    requires IsSegment(x) && IsSegment(y) && InFamily(n, Child(base, x)) && InFamily(n, Child(base, y))
    ensures !Apart(x, y)
  {
    var w := n[|base| + 1..];
    TailOfName(n, base, x);
    TailOfName(n, base, y);
    if |x| < |y| {
      DollarInLonger(w, x, y);
    } else if |y| < |x| {
      DollarInLonger(w, y, x);
    }
  }

  lemma DollarInLonger(w: string, x: string, y: string)
    requires |x| < |y| <= |w| && w[..|x|] == x && w[..|y|] == y && w[|x|] == '$' && IsSegment(y)
    ensures x == STEM && IsTemp(y)
  {
    assert y[|x|] == w[|x|] == '$';
    var k: nat :| y == Fresh(k);
    DecimalIsDigits(k);
    assert x == y[..|x|];
  }

  lemma TailOfName(n: string, base: string, x: string)
    requires InFamily(n, Child(base, x))
    ensures |n| >= |base| + 1 + |x| && n[|base| + 1..][..|x|] == x
    ensures |n| > |base| + 1 + |x| ==> n[|base| + 1..][|x|] == '$'
  {
    var child := Child(base, x);
    assert child[|base| + 1..] == x;
    assert n[..|child|] == child;
    assert n[|base| + 1..][..|x|] == n[..|child|][|base| + 1..];
    if n != child { assert n[|child|] == (child + "$")[|child|]; }
  }

  // ---------------------------------------------------------------- causes of repeated names

  /** Some key is an identifier with a dollar sign. */
  ghost predicate DollarKey(p: Pattern)
    decreases p
  {
    match p
    case Target(x) => false
    case AssignmentPattern(left, right) => DollarKey(left)
    case ObjectPattern(props, rest) =>
      exists i :: 0 <= i < |props| && (DollarKey(props[i].value) || (props[i].key.Ident? && '$' in props[i].key.name))
    case ArrayPattern(elems, tail) =>
      (exists i :: 0 <= i < |elems| && elems[i].Some? && DollarKey(elems[i].value)) || (tail.Some? && DollarKey(tail.value))
  }

  /** The key of the property is evaluated up front into a temporary. */
  predicate IsHoisted(p: Pattern, i: nat)
    requires p.ObjectPattern? && i < |p.props|
  {
    p.rest.Some? && Hoisted(p.props[i].key)
  }

  /** Two properties whose keys are not hoisted generate one segment. */
  predicate EqualSegments(p: Pattern, i: nat, j: nat)
    requires p.ObjectPattern? && i < |p.props| && j < |p.props|
  {
    !IsHoisted(p, i) && !IsHoisted(p, j) && Segment(Some(p.props[i].key), i) == Segment(Some(p.props[j].key), j)
  }

  /** A key is hoisted, and one beside it generates what precedes the dollar sign in its name; both have
      patterns as their values. */
  predicate StemBeside(p: Pattern, i: nat, j: nat)
    requires p.ObjectPattern? && i < |p.props| && j < |p.props|
  {
    && IsHoisted(p, i) && !IsHoisted(p, j) && Segment(Some(p.props[j].key), j) == STEM
    && !p.props[i].value.Target? && !p.props[j].value.Target?
  }

  /** An object pattern has a hoisted key and a key that generates the segment _hh. */
  ghost predicate StemKey(p: Pattern)
    decreases p
  {
    match p
    case Target(x) => false
    case AssignmentPattern(left, right) => StemKey(left)
    case ObjectPattern(props, rest) =>
      || (exists i :: 0 <= i < |props| && StemKey(props[i].value))
      || (exists i, j :: 0 <= i < |props| && 0 <= j < |props| && StemBeside(p, i, j))
    case ArrayPattern(elems, tail) =>
      (exists i :: 0 <= i < |elems| && elems[i].Some? && StemKey(elems[i].value)) || (tail.Some? && StemKey(tail.value))
  }

  /** A part of the pattern is a pattern itself and its name ends in the index k. */
  predicate PartNamed(q: Pattern, k: nat) {
    match q
    case ObjectPattern(props, rest) =>
      exists l :: 0 <= l < |props| && !props[l].value.Target? && !IsHoisted(q, l) && Segment(Some(props[l].key), l) == "i" + Decimal(k)
    case ArrayPattern(elems, tail) => HasPart(q, k)
    case _ => false
  }

  /** The k-th element, or the rest behind the elements, is a pattern. */
  predicate HasPart(q: Pattern, k: nat)
    requires q.ArrayPattern?
  {
    if k < |q.elems| then q.elems[k].Some? && !q.elems[k].value.Target?
    else k == |q.elems| && q.tail.Some? && !q.tail.value.Target?
  }

  /** Property i is the first one to generate its segment, property j generates it again, and the pattern of
      property i has a part that is named by the index j. */
  ghost predicate IndexInside(p: Pattern, i: nat, j: nat)
    requires p.ObjectPattern? && i < |p.props| && j < |p.props|
  {
    && EqualSegments(p, i, j) && !p.props[j].value.Target? && PartNamed(p.props[i].value, j)
    && forall h :: 0 <= h < i ==> !EqualSegments(p, h, i)
  }

  /** Two properties of one object pattern generate one segment, and the first has a part named by the index
      of the other. */
  ghost predicate IndexKey(p: Pattern)
    decreases p
  {
    match p
    case Target(x) => false
    case AssignmentPattern(left, right) => IndexKey(left)
    case ObjectPattern(props, rest) =>
      || (exists i :: 0 <= i < |props| && IndexKey(props[i].value))
      || (exists i, j :: 0 <= i < j < |props| && IndexInside(p, i, j))
    case ArrayPattern(elems, tail) =>
      (exists i :: 0 <= i < |elems| && elems[i].Some? && IndexKey(elems[i].value)) || (tail.Some? && IndexKey(tail.value))
  }

  ghost predicate PlainNames(p: Pattern) {
    !DollarKey(p) && !StemKey(p) && !IndexKey(p)
  }

  // ---------------------------------------------------------------- emitted names

  ghost predicate TempsDistinct(stmts: seq<Assign>) {
    forall i, j :: 0 <= i < j < |stmts| && stmts[i].isTemp && stmts[j].isTemp ==> stmts[i].target != stmts[j].target
  }

  /** A top-level temporary with a number in the range. */
  ghost predicate FreshIn(n: string, lo: nat, hi: nat) {
    exists k :: lo <= k < hi && n == Fresh(k)
  }

  /** The temporaries are in the family of the base, or hoisted keys. */
  ghost predicate TempsInFamily(stmts: seq<Assign>, base: string, lo: nat, hi: nat) {
    forall i :: 0 <= i < |stmts| && stmts[i].isTemp ==> InFamily(stmts[i].target, base) || FreshIn(stmts[i].target, lo, hi)
  }

  /** The same without the base itself. */
  ghost predicate TempsDerived(stmts: seq<Assign>, base: string, lo: nat, hi: nat) {
    forall i :: 0 <= i < |stmts| && stmts[i].isTemp ==> (Derived(stmts[i].target, base) && stmts[i].target != base) || FreshIn(stmts[i].target, lo, hi)
  }

  ghost predicate InParts(n: string, base: string, parts: set<string>) {
    exists x :: x in parts && InFamily(n, Child(base, x))
  }

  /** The temporaries belong to the families of the given parts of base, or are hoisted keys. */
  ghost predicate TempsInParts(stmts: seq<Assign>, base: string, parts: set<string>, lo: nat, hi: nat) {
    forall i :: 0 <= i < |stmts| && stmts[i].isTemp ==> InParts(stmts[i].target, base, parts) || FreshIn(stmts[i].target, lo, hi)
  }

  /** The code emits different names, in the family of the base. */
  ghost predicate CodeInFamily(code: Code, base: string, c: nat) {
    c <= code.next && TempsDistinct(code.stmts) && TempsInFamily(code.stmts, base, c, code.next)
  }

  ghost predicate CodeDerived(code: Code, base: string, c: nat) {
    c <= code.next && TempsDistinct(code.stmts) && TempsDerived(code.stmts, base, c, code.next)
  }

  ghost predicate CodeInParts(code: Code, base: string, parts: set<string>, c: nat) {
    c <= code.next && TempsDistinct(code.stmts) && TempsInParts(code.stmts, base, parts, c, code.next)
  }

  lemma FreshDiffers(k: nat, l: nat)
    ensures Fresh(k) == Fresh(l) ==> k == l
  {
    assert Fresh(k)[|PREFIX|..] == Decimal(k) && Fresh(l)[|PREFIX|..] == Decimal(l);
    if Decimal(k) == Decimal(l) { DecimalInjective(k, l); }
  }

  lemma FreshApart(n: string, lo: nat, mid: nat, hi: nat)
    requires FreshIn(n, lo, mid)
    ensures !FreshIn(n, mid, hi)
  {
    if FreshIn(n, mid, hi) {
      var k :| lo <= k < mid && n == Fresh(k);
      var l :| mid <= l < hi && n == Fresh(l);
      FreshDiffers(k, l);
    }
  }

  lemma FreshHasOneDollar(k: nat)
    ensures '$' !in Fresh(k)[|PREFIX|..]
  {
    DecimalIsDigits(k);
    assert Fresh(k)[|PREFIX|..] == Decimal(k);
  }

  /** A name that was derived from a temporary is no top-level one. */
  lemma DerivedIsNotFresh(n: string, base: string, lo: nat, hi: nat)
    requires IsTemp(base) && Derived(n, base)
    ensures !FreshIn(n, lo, hi)
  {
    assert n[|base|] == (base + "$")[|base|] == '$';
    assert n[|PREFIX|..][|base| - |PREFIX|] == '$';
    if k :| lo <= k < hi && n == Fresh(k) { FreshHasOneDollar(k); }
  }

  lemma ChildIsTemp(base: string, x: string)
    requires IsTemp(base)
    ensures IsTemp(Child(base, x)) && Derived(Child(base, x), base)
  {
    assert Child(base, x)[..|base|] == base && Child(base, x)[..|base| + 1] == base + "$";
    assert Child(base, x)[..|PREFIX|] == base[..|PREFIX|];
  }

  lemma PartIsNotFresh(n: string, base: string, x: string, lo: nat, hi: nat)
    requires IsTemp(base) && InFamily(n, Child(base, x))
    ensures !FreshIn(n, lo, hi)
  {
    ChildIsDerived(n, base, x);
    DerivedIsNotFresh(n, base, lo, hi);
  }

  /** The temporaries are the base itself, names in the families of the given parts of it, or hoisted keys. */
  ghost predicate CodeOwns(code: Code, base: string, parts: set<string>, c: nat) {
    && c <= code.next && TempsDistinct(code.stmts)
    && forall i :: 0 <= i < |code.stmts| && code.stmts[i].isTemp ==> Owned(code.stmts[i].target, base, parts) || FreshIn(code.stmts[i].target, c, code.next)
  }

  ghost predicate Owned(n: string, base: string, parts: set<string>) {
    n == base || InParts(n, base, parts)
  }

  lemma PartIsOther(n: string, base: string, parts: set<string>)
    requires InParts(n, base, parts)
    ensures Derived(n, base) && n != base
  {
    var x :| x in parts && InFamily(n, Child(base, x));
    ChildIsDerived(n, base, x);
  }

  lemma OwnedInFamily(n: string, base: string, parts: set<string>)
    requires Owned(n, base, parts)
    ensures InFamily(n, base)
  {
    if n != base { PartIsOther(n, base, parts); }
  }

  lemma OwnsInFamily(code: Code, base: string, parts: set<string>, c: nat)
    requires CodeOwns(code, base, parts, c)
    ensures CodeInFamily(code, base, c)
  {
    var stmts := code.stmts;
    forall i | 0 <= i < |stmts| && stmts[i].isTemp && !FreshIn(stmts[i].target, c, code.next) ensures InFamily(stmts[i].target, base) {
      OwnedInFamily(stmts[i].target, base, parts);
    }
  }

  lemma HeadDistinct(head: seq<Assign>, body: Code, base: string, parts: set<string>, c: nat)
    requires |head| <= 1 && (head != [] ==> head[0].target == base && !FreshIn(base, c, body.next)) && CodeInParts(body, base, parts, c)
    ensures CodeOwns(Code(head + body.stmts, body.next), base, parts, c)
  {
    PartsDerived(body, base, parts, c);
    var all := head + body.stmts;
    forall i | 0 <= i < |all| && all[i].isTemp ensures Owned(all[i].target, base, parts) || FreshIn(all[i].target, c, body.next) {
      if i >= |head| { assert all[i] == body.stmts[i - |head|]; }
    }
    forall i, j | 0 <= i < j < |all| && all[i].isTemp && all[j].isTemp ensures all[i].target != all[j].target {
      assert all[j] == body.stmts[j - |head|];
      assert i >= |head| ==> all[i] == body.stmts[i - |head|];
    }
  }

  /** No name of the code for one part is in the code for other parts. */
  lemma PartsApart(n: string, base: string, x: string, parts: set<string>, c: nat, mid: nat, hi: nat)
    requires IsTemp(base) && IsSegment(x) && forall y :: y in parts ==> IsSegment(y) && Apart(x, y)
    requires InFamily(n, Child(base, x)) || FreshIn(n, c, mid)
    ensures !InParts(n, base, parts) && !FreshIn(n, mid, hi)
  {
    if InFamily(n, Child(base, x)) { PartIsNotFresh(n, base, x, mid, hi); } else { FreshApart(n, c, mid, hi); }
    if y :| y in parts && InFamily(n, Child(base, y)) {
      if InFamily(n, Child(base, x)) { FamiliesApart(n, base, x, y); } else { PartIsNotFresh(n, base, y, c, mid); }
    }
  }

  lemma CodesConcat(a: Code, b: Code, base: string, x: string, parts: set<string>, c: nat)
    requires IsTemp(base) && CodeInFamily(a, Child(base, x), c) && CodeInParts(b, base, parts, a.next)
    requires IsSegment(x) && forall y :: y in parts ==> IsSegment(y) && Apart(x, y)
    ensures CodeInParts(Code(a.stmts + b.stmts, b.next), base, parts + {x}, c)
  {
    var all := a.stmts + b.stmts;
    forall i | 0 <= i < |all| && all[i].isTemp ensures InParts(all[i].target, base, parts + {x}) || FreshIn(all[i].target, c, b.next) {
      if i < |a.stmts| {
        assert all[i] == a.stmts[i] && x in parts + {x};
      } else {
        assert all[i] == b.stmts[i - |a.stmts|];
        if y :| y in parts && InFamily(all[i].target, Child(base, y)) { assert y in parts + {x}; }
      }
    }
    forall i, j | 0 <= i < j < |all| && all[i].isTemp && all[j].isTemp ensures all[i].target != all[j].target {
      if i < |a.stmts| <= j {
        assert all[i] == a.stmts[i] && all[j] == b.stmts[j - |a.stmts|];
        PartsApart(all[i].target, base, x, parts, c, a.next, b.next);
      }
    }
  }

  lemma PartsDerived(code: Code, base: string, parts: set<string>, c: nat)
    requires CodeInParts(code, base, parts, c)
    ensures CodeDerived(code, base, c)
  {
    var stmts := code.stmts;
    forall i | 0 <= i < |stmts| && stmts[i].isTemp && !FreshIn(stmts[i].target, c, code.next)
      ensures Derived(stmts[i].target, base) && stmts[i].target != base
    {
      var x :| x in parts && InFamily(stmts[i].target, Child(base, x));
      ChildIsDerived(stmts[i].target, base, x);
    }
  }

  /** What is emitted for a pattern after the temporary that holds its value. */
  function Body(p: Pattern, temp: string, c: nat): Code
    requires !p.Target?
  {
    match p
    case AssignmentPattern(left, right) => Lower(left, IfUndefined(Ident(temp), right), Some(temp + "$assign"), c)
    case ObjectPattern(props, rest) => ObjectBody(p, temp, temp, c)
    case ArrayPattern(elems, tail) => LowerElems(p, 0, temp, temp, c)
  }

  lemma LowerIsBody(p: Pattern, value: Expr, base: Option<string>, c: nat)
    requires !p.Target? && (base.Some? ==> !IsTempIdent(value))
    ensures var value' := if p.ArrayPattern? && !value.ArrayLit? then ArrayFrom(value) else value;
            var (temp, pre) := TempFor(value', base, c);
            var body := Body(p, temp, pre.next);
            && Lower(p, value, base, c) == Code(pre.stmts + body.stmts, body.next)
            && |pre.stmts| <= 1 && (pre.stmts != [] ==> pre.stmts[0].target == temp) && (base.Some? ==> temp == base.value && pre.next == c)
            && (base.None? ==> if pre.stmts == [] then IsTemp(temp) && pre.next == c else temp == Fresh(c) && pre.next == c + 1)
  {
  }

  /** The segments of the parts that are patterns themselves; c is the next number for a hoisted key. */
  function PartsOf(p: Pattern, c: nat): set<string> {
    match p
    case Target(x) => {}
    case AssignmentPattern(left, right) => {"assign"}
    case ObjectPattern(props, rest) => PropParts(p, PlanKeys(props, rest.Some?, 0, c).keys)
    case ArrayPattern(elems, tail) => ElemParts(p, 0)
  }

  function PropParts(p: Pattern, keys: seq<Expr>): set<string>
    requires p.ObjectPattern? && |keys| == |p.props|
  {
    set j | 0 <= j < |keys| && !p.props[j].value.Target? :: Segment(Some(keys[j]), j)
  }

  function ElemParts(p: Pattern, i: nat): set<string>
    requires p.ArrayPattern?
  {
    set j | i <= j <= |p.elems| && HasPart(p, j) :: "i" + Decimal(j)
  }

  lemma {:induction false} BodyNames(p: Pattern, temp: string, c: nat)
    requires !p.Target? && PlainNames(p) && IsTemp(temp)
    ensures CodeInParts(Body(p, temp, c), temp, PartsOf(p, c), c)
    decreases p, 1
  {
    match p
    case AssignmentPattern(left, right) => DefaultNames(p, temp, c);
    case ObjectPattern(props, rest) => ObjectNames(p, temp, c);
    case ArrayPattern(elems, tail) => ElemsNames(p, 0, temp, c);
  }

  lemma {:induction false} DefaultNames(p: Pattern, temp: string, c: nat)
    requires p.AssignmentPattern? && PlainNames(p) && IsTemp(temp)
    ensures CodeInParts(Body(p, temp, c), temp, PartsOf(p, c), c)
    decreases p, 0, 0
  {
    assert temp + "$assign" == Child(temp, "assign") by { assert "$assign" == "$" + "assign"; }
    ChildIsTemp(temp, "assign");
    PartNames(p.left, IfUndefined(Ident(temp), p.right), temp, Child(temp, "assign"), c);
    OwnsInFamily(Body(p, temp, c), Child(temp, "assign"), PartsOf(p.left, c), c);
    OnePart(Body(p, temp, c), temp, "assign", PartsOf(p, c), c);
  }

  lemma {:induction false} ObjectNames(p: Pattern, temp: string, c: nat)
    requires p.ObjectPattern? && PlainNames(p) && IsTemp(temp)
    ensures CodeInParts(Body(p, temp, c), temp, PartsOf(p, c), c)
    decreases p, 0, |p.props| + 1
  {
    var plan := PlanKeys(p.props, p.rest.Some?, 0, c);
    HoistedNames(p, c, plan);
    PlannedIsPlain(p, plan.keys);
    PropsNames(p, plan.keys, 0, temp, [], plan.next);
    var body, end := LowerProps(p, plan.keys, 0, temp, temp, [], plan.next), RestAssign(p, temp, plan.names);
    BasesInParts(p, plan.keys, temp, body, plan.next);
    RestNamesNothing(body, end, temp, PartsOf(p, c), plan.next);
    HoistsDistinct(plan.hoists, Code(body.stmts + end, body.next), temp, PartsOf(p, c), c, plan.next);
  }

  lemma RestNamesNothing(body: Code, end: seq<Assign>, base: string, parts: set<string>, c: nat)
    requires CodeInParts(body, base, parts, c) && forall i :: 0 <= i < |end| ==> !end[i].isTemp
    ensures CodeInParts(Code(body.stmts + end, body.next), base, parts, c)
  {
  }

  /** The name of a hoisted key is not in code that begins with the next number. */
  lemma HoistApart(k: nat, body: Code, base: string, mid: nat, j: nat)
    requires IsTemp(base) && CodeDerived(body, base, mid) && k < mid && j < |body.stmts| && body.stmts[j].isTemp
    ensures Fresh(k) != body.stmts[j].target
  {
    var n := body.stmts[j].target;
    if Derived(n, base) {
      DerivedIsNotFresh(n, base, k, k + 1);
    } else {
      var l :| mid <= l < body.next && n == Fresh(l);
      FreshDiffers(k, l);
    }
  }

  lemma HoistsInParts(hoists: seq<Assign>, body: Code, base: string, parts: set<string>, c: nat, mid: nat)
    requires CodeInParts(body, base, parts, mid) && c <= mid && |hoists| == mid - c
    requires forall i :: 0 <= i < |hoists| ==> hoists[i].target == Fresh(c + i)
    ensures TempsInParts(hoists + body.stmts, base, parts, c, body.next)
  {
    var all := hoists + body.stmts;
    forall i | 0 <= i < |all| && all[i].isTemp ensures InParts(all[i].target, base, parts) || FreshIn(all[i].target, c, body.next) {
      if i < |hoists| { assert all[i].target == Fresh(c + i) && c <= c + i < body.next; } else { assert all[i] == body.stmts[i - |hoists|]; }
    }
  }

  /** Hoisted keys in front of code that begins with the next number. */
  lemma HoistsDistinct(hoists: seq<Assign>, body: Code, base: string, parts: set<string>, c: nat, mid: nat)
    requires IsTemp(base) && CodeInParts(body, base, parts, mid) && c <= mid && |hoists| == mid - c
    requires forall i :: 0 <= i < |hoists| ==> hoists[i].target == Fresh(c + i)
    ensures CodeInParts(Code(hoists + body.stmts, body.next), base, parts, c)
  {
    var all := hoists + body.stmts;
    PartsDerived(body, base, parts, mid);
    HoistsInParts(hoists, body, base, parts, c, mid);
    forall i, j | 0 <= i < j < |all| && all[i].isTemp && all[j].isTemp ensures all[i].target != all[j].target {
      HoistPair(hoists, body, base, c, mid, i, j);
    }
  }

  lemma HoistPair(hoists: seq<Assign>, body: Code, base: string, c: nat, mid: nat, i: nat, j: nat)
    requires IsTemp(base) && CodeDerived(body, base, mid) && c <= mid && |hoists| == mid - c
    requires forall k :: 0 <= k < |hoists| ==> hoists[k].target == Fresh(c + k)
    requires var all := hoists + body.stmts; i < j < |all| && all[i].isTemp && all[j].isTemp
    ensures var all := hoists + body.stmts; all[i].target != all[j].target
  {
    if j < |hoists| {
      FreshDiffers(c + i, c + j);
    } else if i < |hoists| {
      HoistApart(c + i, body, base, mid, j - |hoists|);
    }
  }

  /** The code for a part of a pattern has the name of the part and names of its parts. */
  lemma {:induction false} PartNames(q: Pattern, value: Expr, base: string, name: string, c: nat)
    requires PlainNames(q) && !IsTempIdent(value) && IsTemp(base) && IsTemp(name) && Derived(name, base)
    ensures CodeOwns(Lower(q, value, Some(name), c), name, PartsOf(q, c), c)
    decreases q, 2
  {
    if !q.Target? {
      LowerIsBody(q, value, Some(name), c);
      var value' := if q.ArrayPattern? && !value.ArrayLit? then ArrayFrom(value) else value;
      var pre := TempFor(value', Some(name), c).1;
      BodyNames(q, name, c);
      DerivedIsNotFresh(name, base, c, Body(q, name, c).next);
      HeadDistinct(pre.stmts, Body(q, name, c), name, PartsOf(q, c), c);
    }
  }

  // ---------------------------------------------------------------- the keys of an object pattern

  /** The keys that properties are read with: hoisted ones are temporaries, with growing numbers. */
  ghost predicate Planned(p: Pattern, keys: seq<Expr>)
    requires p.ObjectPattern?
  {
    && |keys| == |p.props|
    && (forall j :: 0 <= j < |keys| ==> if IsHoisted(p, j) then exists k: nat :: keys[j] == Ident(Fresh(k)) else keys[j] == p.props[j].key)
    && (forall i, j :: 0 <= i < j < |keys| && IsHoisted(p, i) && IsHoisted(p, j) ==> keys[i] != keys[j])
  }

  /** One property of the plan. */
  lemma PlanNext(p: Pattern, i: nat, c: nat, plan: KeyPlan, rest: KeyPlan)
    requires p.ObjectPattern? && i < |p.props| && plan == PlanKeys(p.props, p.rest.Some?, i, c)
    requires rest == PlanKeys(p.props, p.rest.Some?, i + 1, if IsHoisted(p, i) then c + 1 else c)
    ensures plan.keys == [if IsHoisted(p, i) then Ident(Fresh(c)) else p.props[i].key] + rest.keys && plan.next == rest.next
    ensures plan.hoists == (if IsHoisted(p, i) then [Assign(Fresh(c), p.props[i].key, true)] else []) + rest.hoists
  {
    assert [] + rest.hoists == rest.hoists;
  }

  function NumberAfter(p: Pattern, i: nat, c: nat): nat
    requires p.ObjectPattern? && i < |p.props|
  {
    if IsHoisted(p, i) then c + 1 else c
  }

  lemma {:induction false} PlanCounts(p: Pattern, i: nat, c: nat, plan: KeyPlan)
    requires p.ObjectPattern? && i <= |p.props| && plan == PlanKeys(p.props, p.rest.Some?, i, c)
    ensures |plan.hoists| == plan.next - c && forall k :: 0 <= k < |plan.hoists| ==> plan.hoists[k].target == Fresh(c + k)
    decreases |p.props| - i
  {
    if i < |p.props| {
      var rest := PlanKeys(p.props, p.rest.Some?, i + 1, NumberAfter(p, i, c));
      PlanNext(p, i, c, plan, rest);
      PlanCounts(p, i + 1, NumberAfter(p, i, c), rest);
      if IsHoisted(p, i) { CountOneMore(plan.hoists, Assign(Fresh(c), p.props[i].key, true), rest.hoists, c); }
    }
  }

  lemma CountOneMore(hoists: seq<Assign>, first: Assign, rest: seq<Assign>, c: nat)
    requires hoists == [first] + rest && first.target == Fresh(c) && forall k :: 0 <= k < |rest| ==> rest[k].target == Fresh(c + 1 + k)
    ensures forall k :: 0 <= k < |hoists| ==> hoists[k].target == Fresh(c + k)
  {
    forall k | 0 < k < |hoists| ensures hoists[k].target == Fresh(c + k) { assert hoists[k] == rest[k - 1]; }
  }

  lemma KeyBehind(keys: seq<Expr>, first: Expr, rest: seq<Expr>, k: nat)
    requires keys == [first] + rest && 0 < k < |keys|
    ensures keys[0] == first && keys[k] == rest[k - 1]
  {
  }

  /** A hoisted key is a temporary with a number that was given out, any other key is itself. */
  ghost predicate KeyPlanned(p: Pattern, j: nat, key: Expr, lo: nat, hi: nat)
    requires p.ObjectPattern? && j < |p.props|
  {
    if IsHoisted(p, j) then exists k :: lo <= k < hi && key == Ident(Fresh(k)) else key == p.props[j].key
  }

  lemma {:induction false} PlanKeyAt(p: Pattern, i: nat, c: nat, plan: KeyPlan, j: nat)
    requires p.ObjectPattern? && i + j < |p.props| && plan == PlanKeys(p.props, p.rest.Some?, i, c)
    ensures KeyPlanned(p, i + j, plan.keys[j], c, plan.next)
    decreases j
  {
    var rest := PlanKeys(p.props, p.rest.Some?, i + 1, NumberAfter(p, i, c));
    PlanNext(p, i, c, plan, rest);
    if j > 0 {
      KeyBehind(plan.keys, plan.keys[0], rest.keys, j);
      PlanKeyAt(p, i + 1, NumberAfter(p, i, c), rest, j - 1);
    }
  }

  lemma PlanBehind(p: Pattern, i: nat, c: nat, plan: KeyPlan, rest: KeyPlan, k: nat)
    requires p.ObjectPattern? && 0 < k && i + k < |p.props| && plan == PlanKeys(p.props, p.rest.Some?, i, c)
    requires rest == PlanKeys(p.props, p.rest.Some?, i + 1, NumberAfter(p, i, c))
    ensures plan.keys[k] == rest.keys[k - 1]
  {
    PlanNext(p, i, c, plan, rest);
    KeyBehind(plan.keys, plan.keys[0], rest.keys, k);
  }

  lemma {:induction false} PlanKeysDiffer(p: Pattern, i: nat, c: nat, plan: KeyPlan, a: nat, b: nat)
    requires p.ObjectPattern? && a < b && i + b < |p.props| && IsHoisted(p, i + a) && IsHoisted(p, i + b)
    requires plan == PlanKeys(p.props, p.rest.Some?, i, c)
    ensures plan.keys[a] != plan.keys[b]
    decreases a
  {
    var next := NumberAfter(p, i, c);
    var rest := PlanKeys(p.props, p.rest.Some?, i + 1, next);
    if a > 0 {
      PlanBehind(p, i, c, plan, rest, a);
      PlanBehind(p, i, c, plan, rest, b);
      PlanKeysDiffer(p, i + 1, next, rest, a - 1, b - 1);
    } else {
      FirstOfPlanDiffers(p, i, c, plan, rest, b);
    }
  }

  lemma FirstOfPlanDiffers(p: Pattern, i: nat, c: nat, plan: KeyPlan, rest: KeyPlan, b: nat)
    requires p.ObjectPattern? && 0 < b && i + b < |p.props| && IsHoisted(p, i) && IsHoisted(p, i + b)
    requires plan == PlanKeys(p.props, p.rest.Some?, i, c) && rest == PlanKeys(p.props, p.rest.Some?, i + 1, NumberAfter(p, i, c))
    ensures plan.keys[0] != plan.keys[b]
  {
    PlanBehind(p, i, c, plan, rest, b);
    PlanNext(p, i, c, plan, rest);
    FirstKeyDiffers(p, i + 1, c, rest, b - 1);
  }

  lemma FirstKeyDiffers(p: Pattern, i: nat, c: nat, rest: KeyPlan, j: nat)
    requires p.ObjectPattern? && i + j < |p.props| && IsHoisted(p, i + j) && rest == PlanKeys(p.props, p.rest.Some?, i, c + 1)
    ensures rest.keys[j] != Ident(Fresh(c))
  {
    PlanKeyAt(p, i, c + 1, rest, j);
    HoistDiffers(p, i + j, rest.keys[j], c, rest.next);
  }

  lemma HoistDiffers(p: Pattern, j: nat, key: Expr, c: nat, hi: nat)
    requires p.ObjectPattern? && j < |p.props| && IsHoisted(p, j) && KeyPlanned(p, j, key, c + 1, hi)
    ensures key != Ident(Fresh(c))
  {
    var k :| c + 1 <= k < hi && key == Ident(Fresh(k));
    FreshDiffers(k, c);
  }

  lemma HoistedNames(p: Pattern, c: nat, plan: KeyPlan)
    requires p.ObjectPattern? && plan == PlanKeys(p.props, p.rest.Some?, 0, c)
    ensures c <= plan.next && |plan.hoists| == plan.next - c && forall k :: 0 <= k < |plan.hoists| ==> plan.hoists[k].target == Fresh(c + k)
    ensures Planned(p, plan.keys)
  {
    PlanCounts(p, 0, c, plan);
    forall j | 0 <= j < |plan.keys| ensures KeyPlanned(p, j, plan.keys[j], c, plan.next) { PlanKeyAt(p, 0, c, plan, j); }
    forall a, b | 0 <= a < b < |plan.keys| && IsHoisted(p, a) && IsHoisted(p, b) ensures plan.keys[a] != plan.keys[b] {
      PlanKeysDiffer(p, 0, c, plan, a, b);
    }
  }

  lemma HoistedSegment(p: Pattern, keys: seq<Expr>, j: nat)
    requires p.ObjectPattern? && !DollarKey(p) && Planned(p, keys) && j < |keys|
    ensures IsSegment(Segment(Some(keys[j]), j))
    ensures if IsHoisted(p, j) then IsTemp(Segment(Some(keys[j]), j)) && keys[j] == Ident(Segment(Some(keys[j]), j))
            else '$' !in Segment(Some(keys[j]), j) && Segment(Some(keys[j]), j) == Segment(Some(p.props[j].key), j)
  {
    if !IsHoisted(p, j) { SegmentIsPlain(Some(keys[j]), j); }
  }

  lemma PlannedIsPlain(p: Pattern, keys: seq<Expr>)
    requires p.ObjectPattern? && !DollarKey(p) && Planned(p, keys)
    ensures PlainKeys(keys)
  {
    forall j | 0 <= j < |keys| ensures IsSegment(Segment(Some(keys[j]), j)) { HoistedSegment(p, keys, j); }
  }

  /** Different segments of properties that are patterns are apart. */
  lemma SegmentsDiffer(p: Pattern, keys: seq<Expr>, i: nat, j: nat)
    requires p.ObjectPattern? && PlainNames(p) && Planned(p, keys) && i < j < |keys|
    requires !p.props[i].value.Target? && !p.props[j].value.Target? && Segment(Some(keys[i]), i) != Segment(Some(keys[j]), j)
    ensures Apart(Segment(Some(keys[i]), i), Segment(Some(keys[j]), j))
  {
    HoistedSegment(p, keys, i);
    HoistedSegment(p, keys, j);
    assert !StemBeside(p, i, j) && !StemBeside(p, j, i);
    TempHasDollar(Segment(Some(keys[i]), i));
    TempHasDollar(Segment(Some(keys[j]), j));
  }

  /** Equal segments come from keys that are not hoisted. */
  lemma SameSegment(p: Pattern, keys: seq<Expr>, i: nat, j: nat)
    requires p.ObjectPattern? && !DollarKey(p) && Planned(p, keys) && i < j < |keys|
    ensures Segment(Some(keys[i]), i) == Segment(Some(keys[j]), j) <==> EqualSegments(p, i, j)
  {
    HoistedSegment(p, keys, i);
    HoistedSegment(p, keys, j);
    TempHasDollar(Segment(Some(keys[i]), i));
    TempHasDollar(Segment(Some(keys[j]), j));
  }

  lemma TempHasDollar(x: string)
    ensures IsTemp(x) ==> '$' in x && x != STEM
  {
    assert IsTemp(x) ==> x[3] == PREFIX[3];
  }

  // ---------------------------------------------------------------- the base names of properties

  predicate Repeats(keys: seq<Expr>, i: nat)
    requires i < |keys|
  {
    exists j :: 0 <= j < i && Segment(Some(keys[j]), j) == Segment(Some(keys[i]), i)
  }

  /** The base, a dollar sign and the segment, and for a segment that occurred before also the index. */
  function BaseName(keys: seq<Expr>, base: string, i: nat): string
    requires i < |keys|
  {
    var name := Child(base, Segment(Some(keys[i]), i));
    if Repeats(keys, i) then Child(name, "i" + Decimal(i)) else name
  }

  /** The names that were generated for the properties before i. */
  ghost predicate UsedBefore(keys: seq<Expr>, i: nat, base: string, used: seq<string>)
    requires i <= |keys|
  {
    |used| == i && forall j :: 0 <= j < i ==> used[j] == BaseName(keys, base, j)
  }

  ghost predicate PlainKeys(keys: seq<Expr>) {
    forall j :: 0 <= j < |keys| ==> IsSegment(Segment(Some(keys[j]), j))
  }

  lemma IndexIsPlain(i: nat)
    ensures '$' !in "i" + Decimal(i) && IsSegment("i" + Decimal(i)) && !IsTemp("i" + Decimal(i)) && "i" + Decimal(i) != STEM
  {
    DecimalIsDigits(i);
    assert ("i" + Decimal(i))[0] == 'i';
  }

  lemma IndicesDiffer(i: nat, j: nat)
    requires i != j
    ensures Apart("i" + Decimal(i), "i" + Decimal(j))
  {
    IndexIsPlain(i);
    IndexIsPlain(j);
    assert ("i" + Decimal(j))[1..] == Decimal(j) && ("i" + Decimal(i))[1..] == Decimal(i);
    if Decimal(i) == Decimal(j) { DecimalInjective(i, j); }
  }

  lemma ChildDiffers(base: string, x: string, y: string)
    ensures Child(base, x) == Child(base, y) ==> x == y
  {
    assert Child(base, x)[|base| + 1..] == x && Child(base, y)[|base| + 1..] == y;
  }

  lemma FreshIsNotIndexed(k: nat, x: string, i: nat)
    ensures Fresh(k) != x + "$" + ("i" + Decimal(i))
  {
    var y := x + "$" + ("i" + Decimal(i));
    DecimalIsDigits(k);
    assert y[|x|] == '$' && y[|x| + 1] == 'i';
  }

  /** A name with an index is no name of another segment. */
  lemma IndexedIsLonger(base: string, x: string, y: string, i: nat)
    requires IsSegment(y)
    ensures Child(Child(base, x), "i" + Decimal(i)) != Child(base, y)
  {
    var tail := x + "$" + ("i" + Decimal(i));
    assert Child(Child(base, x), "i" + Decimal(i))[|base| + 1..] == tail;
    assert Child(base, y)[|base| + 1..] == y;
    assert tail[|x|] == '$';
    if k: nat :| y == Fresh(k) { FreshIsNotIndexed(k, x, i); }
  }

  /** The base names of different properties differ, also when the keys generate one segment. */
  lemma BaseNamesDiffer(keys: seq<Expr>, base: string, i: nat, j: nat)
    requires PlainKeys(keys) && i < j < |keys|
    ensures BaseName(keys, base, i) != BaseName(keys, base, j)
  {
    var x, y := Segment(Some(keys[i]), i), Segment(Some(keys[j]), j);
    if Repeats(keys, i) && Repeats(keys, j) {
      IndexedDiffer(base, x, y, i, j);
    } else if Repeats(keys, i) {
      IndexedIsLonger(base, x, y, i);
    } else if Repeats(keys, j) {
      IndexedIsLonger(base, y, x, j);
    } else {
      ChildDiffers(base, x, y);
    }
  }

  lemma IndexedDiffer(base: string, x: string, y: string, i: nat, j: nat)
    requires i != j
    ensures Child(Child(base, x), "i" + Decimal(i)) != Child(Child(base, y), "i" + Decimal(j))
  {
    var a, b := Child(Child(base, x), "i" + Decimal(i)), Child(Child(base, y), "i" + Decimal(j));
    IndexIsPlain(i);
    IndexIsPlain(j);
    if a == b {
      LastDollar(Child(base, x), "i" + Decimal(i), Child(base, y), "i" + Decimal(j));
      IndicesDiffer(i, j);
    }
  }

  lemma LastDollar(a: string, x: string, b: string, y: string)
    requires Child(a, x) == Child(b, y) && '$' !in x && '$' !in y
    ensures x == y
  {
    var w := Child(a, x);
    assert w[|a|] == '$' && w[|b|] == '$';
    assert forall k :: |a| < k < |w| ==> w[k] == x[k - |a| - 1];
    assert forall k :: |b| < k < |w| ==> w[k] == y[k - |b| - 1];
    assert |a| == |b|;
    assert x == w[|a| + 1..] && y == w[|b| + 1..];
  }

  /** The name of a property that the pass computes is that base name. */
  lemma PropBaseIs(keys: seq<Expr>, i: nat, base: string, used: seq<string>)
    requires PlainKeys(keys) && i < |keys| && UsedBefore(keys, i, base, used)
    ensures PropBase(base, keys[i], i, used) == BaseName(keys, base, i)
  {
    var x := Segment(Some(keys[i]), i);
    GeneratedIsChild(base, Some(keys[i]), i);
    GeneratedIsChild(Child(base, x), None, i);
    if Repeats(keys, i) {
      FirstIsUsed(keys, i, base, used);
    } else {
      forall j | 0 <= j < i ensures used[j] != Child(base, x) {
        var y := Segment(Some(keys[j]), j);
        ChildDiffers(base, y, x);
        IndexedIsLonger(base, y, x, j);
      }
    }
  }

  lemma FirstIsUsed(keys: seq<Expr>, i: nat, base: string, used: seq<string>)
    requires i < |keys| && UsedBefore(keys, i, base, used) && Repeats(keys, i)
    ensures Child(base, Segment(Some(keys[i]), i)) in used
  {
    var j := FirstOf(keys, i, i);
    assert used[j] == BaseName(keys, base, j);
  }

  /** The first property with the segment of property i. */
  lemma FirstOf(keys: seq<Expr>, i: nat, k: nat) returns (j: nat)
    requires k <= i < |keys| && exists h :: 0 <= h < k && Segment(Some(keys[h]), h) == Segment(Some(keys[i]), i)
    ensures j < k && Segment(Some(keys[j]), j) == Segment(Some(keys[i]), i) && !Repeats(keys, j)
    decreases k
  {
    j :| 0 <= j < k && Segment(Some(keys[j]), j) == Segment(Some(keys[i]), i);
    if Repeats(keys, j) {
      j := FirstOf(keys, i, j);
    }
  }

  lemma BaseNameInFamily(keys: seq<Expr>, base: string, i: nat)
    requires i < |keys|
    ensures InFamily(BaseName(keys, base, i), Child(base, Segment(Some(keys[i]), i))) && Derived(BaseName(keys, base, i), base)
  {
    var name, k := Child(base, Segment(Some(keys[i]), i)), "i" + Decimal(i);
    assert Child(name, k)[..|name| + 1] == name + "$";
    ChildIsDerived(BaseName(keys, base, i), base, Segment(Some(keys[i]), i));
  }

  // ---------------------------------------------------------------- the code for the properties

  /** The base names of the properties from i on that are patterns. */
  function Bases(p: Pattern, keys: seq<Expr>, base: string, i: nat): set<string>
    requires p.ObjectPattern? && |keys| == |p.props|
  {
    set j | i <= j < |keys| && !p.props[j].value.Target? :: BaseName(keys, base, j)
  }

  ghost predicate InBases(n: string, bases: set<string>) {
    exists y :: y in bases && InFamily(n, y)
  }

  ghost predicate CodeInBases(code: Code, bases: set<string>, c: nat) {
    && c <= code.next && TempsDistinct(code.stmts)
    && forall i :: 0 <= i < |code.stmts| && code.stmts[i].isTemp ==> InBases(code.stmts[i].target, bases) || FreshIn(code.stmts[i].target, c, code.next)
  }

  lemma FamilyOfBase(n: string, keys: seq<Expr>, base: string, j: nat)
    requires j < |keys| && InFamily(n, BaseName(keys, base, j))
    ensures InFamily(n, Child(base, Segment(Some(keys[j]), j)))
  {
    BaseNameInFamily(keys, base, j);
    if n != BaseName(keys, base, j) && BaseName(keys, base, j) != Child(base, Segment(Some(keys[j]), j)) {
      DerivedTransitive(n, BaseName(keys, base, j), Child(base, Segment(Some(keys[j]), j)));
    }
  }

  lemma BasesInParts(p: Pattern, keys: seq<Expr>, base: string, code: Code, c: nat)
    requires p.ObjectPattern? && |keys| == |p.props| && CodeInBases(code, Bases(p, keys, base, 0), c)
    ensures CodeInParts(code, base, PropParts(p, keys), c)
  {
    forall n | InBases(n, Bases(p, keys, base, 0)) ensures InParts(n, base, PropParts(p, keys)) {
      var j :| 0 <= j < |keys| && !p.props[j].value.Target? && InFamily(n, BaseName(keys, base, j));
      FamilyOfBase(n, keys, base, j);
      assert Segment(Some(keys[j]), j) in PropParts(p, keys);
    }
  }

  /** The parts of the first property with a segment are not named by the index of a later one. */
  lemma PartIsApart(p: Pattern, keys: seq<Expr>, i: nat, j: nat, c: nat, x: string)
    requires p.ObjectPattern? && PlainNames(p) && Planned(p, keys) && i < j < |keys| && !p.props[j].value.Target?
    requires Segment(Some(keys[i]), i) == Segment(Some(keys[j]), j) && !Repeats(keys, i)
    requires x in PartsOf(p.props[i].value, c)
    ensures IsSegment(x) && Apart(x, "i" + Decimal(j))
  {
    var q := p.props[i].value;
    SameSegment(p, keys, i, j);
    forall h | 0 <= h < i ensures !EqualSegments(p, h, i) { SameSegment(p, keys, h, i); }
    assert !IndexInside(p, i, j);
    IndexIsPlain(j);
    PartIsSegment(q, c, x, j);
  }

  lemma PartIsSegment(q: Pattern, c: nat, x: string, k: nat)
    requires PlainNames(q) && x in PartsOf(q, c) && !PartNamed(q, k)
    ensures IsSegment(x) && Apart(x, "i" + Decimal(k))
  {
    IndexIsPlain(k);
    match q
    case AssignmentPattern(left, right) => assert x == "assign" && x[0] == 'a' && ("i" + Decimal(k))[0] == 'i';
    case ObjectPattern(props, rest) => PropIsSegment(q, c, x, k);
    case ArrayPattern(elems, tail) =>
      var l :| 0 <= l <= |elems| && HasPart(q, l) && x == "i" + Decimal(l);
      IndexIsPlain(l);
      IndicesDiffer(l, k);
  }

  lemma PropIsSegment(q: Pattern, c: nat, x: string, k: nat)
    requires q.ObjectPattern? && PlainNames(q) && x in PartsOf(q, c) && !PartNamed(q, k)
    ensures IsSegment(x) && Apart(x, "i" + Decimal(k))
  {
    var plan := PlanKeys(q.props, q.rest.Some?, 0, c);
    var l :| 0 <= l < |plan.keys| && !q.props[l].value.Target? && x == Segment(Some(plan.keys[l]), l);
    HoistedNames(q, c, plan);
    HoistedSegment(q, plan.keys, l);
    IndexIsPlain(k);
  }

  /** No name of one property is in the family of a later one. */
  lemma NamesApart(p: Pattern, keys: seq<Expr>, base: string, i: nat, j: nat, c: nat, n: string)
    requires p.ObjectPattern? && PlainNames(p) && Planned(p, keys) && i < j < |keys|
    requires !p.props[i].value.Target? && !p.props[j].value.Target?
    requires Owned(n, BaseName(keys, base, i), PartsOf(p.props[i].value, c))
    ensures !InFamily(n, BaseName(keys, base, j))
  {
    var x, y := Segment(Some(keys[i]), i), Segment(Some(keys[j]), j);
    PlannedIsPlain(p, keys);
    if InFamily(n, BaseName(keys, base, j)) {
      OwnedInFamily(n, BaseName(keys, base, i), PartsOf(p.props[i].value, c));
      if x != y {
        FamilyOfBase(n, keys, base, i);
        FamilyOfBase(n, keys, base, j);
        SegmentsDiffer(p, keys, i, j);
        FamiliesApart(n, base, x, y);
      } else {
        assert Repeats(keys, j);
        IndexIsPlain(i);
        IndexIsPlain(j);
        if Repeats(keys, i) {
          IndicesDiffer(i, j);
          FamiliesApart(n, Child(base, x), "i" + Decimal(i), "i" + Decimal(j));
        } else if n == Child(base, x) {
          ChildIsDerived(n, Child(base, x), "i" + Decimal(j));
        } else {
          var s :| s in PartsOf(p.props[i].value, c) && InFamily(n, Child(Child(base, x), s));
          PartIsApart(p, keys, i, j, c, s);
          FamiliesApart(n, Child(base, x), s, "i" + Decimal(j));
        }
      }
    }
  }

  lemma BaseIsNotFresh(n: string, base: string, name: string, lo: nat, hi: nat)
    requires IsTemp(base) && Derived(name, base) && InFamily(n, name)
    ensures !FreshIn(n, lo, hi)
  {
    if n != name { DerivedTransitive(n, name, base); }
    DerivedIsNotFresh(n, base, lo, hi);
  }

  /** Two codes with no name in common, one after the other. */
  lemma BasesConcat(a: Code, b: Code, base: string, name: string, bases: set<string>, c: nat)
    requires IsTemp(base) && CodeInFamily(a, name, c) && CodeInBases(b, bases, a.next)
    requires Derived(name, base) && forall y :: y in bases ==> Derived(y, base)
    requires forall i, y :: 0 <= i < |a.stmts| && a.stmts[i].isTemp && !FreshIn(a.stmts[i].target, c, a.next) && y in bases ==> !InFamily(a.stmts[i].target, y)
    ensures CodeInBases(Code(a.stmts + b.stmts, b.next), bases + {name}, c)
  {
    var all := a.stmts + b.stmts;
    forall i | 0 <= i < |all| && all[i].isTemp ensures InBases(all[i].target, bases + {name}) || FreshIn(all[i].target, c, b.next) {
      if i < |a.stmts| {
        assert all[i] == a.stmts[i] && name in bases + {name};
      } else {
        assert all[i] == b.stmts[i - |a.stmts|];
        if y :| y in bases && InFamily(all[i].target, y) { assert y in bases + {name}; }
      }
    }
    forall i, j | 0 <= i < j < |all| && all[i].isTemp && all[j].isTemp ensures all[i].target != all[j].target {
      if i < |a.stmts| <= j {
        assert all[i] == a.stmts[i] && all[j] == b.stmts[j - |a.stmts|];
        BasePair(a.stmts[i].target, b.stmts[j - |a.stmts|].target, base, name, bases, c, a.next, b.next);
      }
    }
  }

  lemma BasePair(n: string, m: string, base: string, name: string, bases: set<string>, c: nat, mid: nat, hi: nat)
    requires IsTemp(base) && Derived(name, base) && forall y :: y in bases ==> Derived(y, base)
    requires InFamily(n, name) || FreshIn(n, c, mid)
    requires InBases(m, bases) || FreshIn(m, mid, hi)
    requires !FreshIn(n, c, mid) ==> forall y :: y in bases ==> !InFamily(n, y)
    ensures n != m
  {
    if n == m {
      if FreshIn(n, c, mid) {
        FreshApart(n, c, mid, hi);
        var y :| y in bases && InFamily(m, y);
        BaseIsNotFresh(m, base, y, c, mid);
      } else {
        BaseIsNotFresh(n, base, name, mid, hi);
      }
    }
  }

  lemma {:induction false} PropsNames(p: Pattern, keys: seq<Expr>, i: nat, base: string, used: seq<string>, c: nat)
    requires p.ObjectPattern? && PlainNames(p) && Planned(p, keys) && i <= |keys| && UsedBefore(keys, i, base, used) && IsTemp(base)
    ensures CodeInBases(LowerProps(p, keys, i, base, base, used, c), Bases(p, keys, base, i), c)
    decreases p, 0, |p.props| - i, 1
  {
    if i < |p.props| {
      PlannedIsPlain(p, keys);
      PropBaseIs(keys, i, base, used);
      BaseNameInFamily(keys, base, i);
      DerivedIsTemp(BaseName(keys, base, i), base);
      var value := Member(Ident(base), keys[i], p.props[i].computed || keys[i].Lit?);
      assert PlainNames(p.props[i].value);
      PartNames(p.props[i].value, value, base, BaseName(keys, base, i), c);
      OtherNames(p, keys, i, base, used, c, Lower(p.props[i].value, value, Some(BaseName(keys, base, i)), c));
      LowerPropsStep(p, keys, i, base, base, used, c);
    }
  }

  lemma DerivedIsTemp(name: string, base: string)
    requires IsTemp(base) && Derived(name, base)
    ensures IsTemp(name)
  {
    assert name[..|PREFIX|] == (base + "$")[..|PREFIX|] == base[..|PREFIX|];
  }

  lemma {:induction false} OtherNames(p: Pattern, keys: seq<Expr>, i: nat, base: string, used: seq<string>, c: nat, first: Code)
    requires p.ObjectPattern? && PlainNames(p) && Planned(p, keys) && i < |keys| && UsedBefore(keys, i, base, used) && IsTemp(base)
    requires CodeOwns(first, BaseName(keys, base, i), PartsOf(p.props[i].value, c), c)
    requires p.props[i].value.Target? ==> first.next == c && forall k :: 0 <= k < |first.stmts| ==> !first.stmts[k].isTemp
    ensures var others := LowerProps(p, keys, i + 1, base, base, used + [BaseName(keys, base, i)], first.next);
            CodeInBases(Code(first.stmts + others.stmts, others.next), Bases(p, keys, base, i), c)
    decreases p, 0, |p.props| - i, 0
  {
    var name := BaseName(keys, base, i);
    PropsNames(p, keys, i + 1, base, used + [name], first.next);
    var others := LowerProps(p, keys, i + 1, base, base, used + [name], first.next);
    if p.props[i].value.Target? {
      NoTempsFirst(first, others, Bases(p, keys, base, i + 1), Bases(p, keys, base, i), c);
    } else {
      FirstProp(p, keys, i, base, c, first, others);
    }
  }

  lemma NoTempsFirst(first: Code, others: Code, some: set<string>, bases: set<string>, c: nat)
    requires first.next == c && forall k :: 0 <= k < |first.stmts| ==> !first.stmts[k].isTemp
    requires CodeInBases(others, some, c) && some <= bases
    ensures CodeInBases(Code(first.stmts + others.stmts, others.next), bases, c)
  {
    var all := first.stmts + others.stmts;
    forall i | 0 <= i < |all| && all[i].isTemp ensures InBases(all[i].target, bases) || FreshIn(all[i].target, c, others.next) {
      assert all[i] == others.stmts[i - |first.stmts|];
      if y :| y in some && InFamily(all[i].target, y) { assert y in bases; }
    }
  }

  lemma BasesDerived(p: Pattern, keys: seq<Expr>, base: string, i: nat, y: string)
    requires p.ObjectPattern? && |keys| == |p.props| && y in Bases(p, keys, base, i)
    ensures Derived(y, base)
  {
    var j :| i <= j < |keys| && y == BaseName(keys, base, j);
    BaseNameInFamily(keys, base, j);
  }

  lemma NameApart(p: Pattern, keys: seq<Expr>, i: nat, base: string, c: nat, n: string, y: string)
    requires p.ObjectPattern? && PlainNames(p) && Planned(p, keys) && i < |keys| && IsTemp(base) && !p.props[i].value.Target?
    requires Owned(n, BaseName(keys, base, i), PartsOf(p.props[i].value, c)) && y in Bases(p, keys, base, i + 1)
    ensures !InFamily(n, y)
  {
    var j :| i < j < |keys| && !p.props[j].value.Target? && y == BaseName(keys, base, j);
    NamesApart(p, keys, base, i, j, c, n);
  }

  lemma FirstProp(p: Pattern, keys: seq<Expr>, i: nat, base: string, c: nat, first: Code, others: Code)
    requires p.ObjectPattern? && PlainNames(p) && Planned(p, keys) && i < |keys| && IsTemp(base) && !p.props[i].value.Target?
    requires CodeOwns(first, BaseName(keys, base, i), PartsOf(p.props[i].value, c), c)
    requires CodeInBases(others, Bases(p, keys, base, i + 1), first.next)
    ensures CodeInBases(Code(first.stmts + others.stmts, others.next), Bases(p, keys, base, i), c)
  {
    var name, bases := BaseName(keys, base, i), Bases(p, keys, base, i + 1);
    OwnsInFamily(first, name, PartsOf(p.props[i].value, c), c);
    BaseNameInFamily(keys, base, i);
    forall y | y in bases ensures Derived(y, base) { BasesDerived(p, keys, base, i + 1, y); }
    forall k, y | 0 <= k < |first.stmts| && first.stmts[k].isTemp && !FreshIn(first.stmts[k].target, c, first.next) && y in bases
      ensures !InFamily(first.stmts[k].target, y)
    {
      NameApart(p, keys, i, base, c, first.stmts[k].target, y);
    }
    BasesConcat(first, others, base, name, bases, c);
    BasesStep(p, keys, base, i);
  }

  lemma BasesStep(p: Pattern, keys: seq<Expr>, base: string, i: nat)
    requires p.ObjectPattern? && |keys| == |p.props| && i < |keys| && !p.props[i].value.Target?
    ensures Bases(p, keys, base, i) == Bases(p, keys, base, i + 1) + {BaseName(keys, base, i)}
  {
  }

  // ---------------------------------------------------------------- the elements of an array pattern

  lemma ElemPartsApart(p: Pattern, i: nat)
    requires p.ArrayPattern?
    ensures var x := "i" + Decimal(i);
            && IsSegment(x) && (i <= |p.elems| && HasPart(p, i) ==> ElemParts(p, i) == ElemParts(p, i + 1) + {x})
            && (i <= |p.elems| && !HasPart(p, i) ==> ElemParts(p, i) == ElemParts(p, i + 1))
            && forall y :: y in ElemParts(p, i + 1) ==> IsSegment(y) && Apart(x, y)
  {
    IndexIsPlain(i);
    forall y | y in ElemParts(p, i + 1) ensures IsSegment(y) && Apart("i" + Decimal(i), y) {
      var j :| i < j <= |p.elems| && y == "i" + Decimal(j);
      IndexIsPlain(j);
      IndicesDiffer(i, j);
    }
  }

  lemma {:induction false} ElemsNames(p: Pattern, i: nat, base: string, c: nat)
    requires p.ArrayPattern? && PlainNames(p) && i <= |p.elems| && IsTemp(base)
    ensures CodeInParts(LowerElems(p, i, base, base, c), base, ElemParts(p, i), c)
    decreases p, 0, |p.elems| - i + 1
  {
    ElemPartsApart(p, i);
    if i == |p.elems| {
      if p.tail.Some? { ElemNames(p, i, p.tail.value, RestArray(Ident(base), i), base, c); }
    } else if p.elems[i].None? {
      ElemsNames(p, i + 1, base, c);
    } else {
      var value := Member(Ident(base), Lit(Number(i)), true);
      var first := Lower(p.elems[i].value, value, Some(GenerateName(base, None, i)), c);
      ElemNames(p, i, p.elems[i].value, value, base, c);
      ElemsNames(p, i + 1, base, first.next);
      var others := LowerElems(p, i + 1, base, base, first.next);
      if HasPart(p, i) {
        CodesConcat(first, others, base, "i" + Decimal(i), ElemParts(p, i + 1), c);
      } else {
        NoTempsThen(first, others, base, ElemParts(p, i), c);
      }
    }
  }

  lemma NoTempsThen(first: Code, others: Code, base: string, parts: set<string>, c: nat)
    requires first.next == c && (forall k :: 0 <= k < |first.stmts| ==> !first.stmts[k].isTemp) && CodeInParts(others, base, parts, c)
    ensures CodeInParts(Code(first.stmts + others.stmts, others.next), base, parts, c)
  {
    var all := first.stmts + others.stmts;
    forall i | 0 <= i < |all| && all[i].isTemp ensures InParts(all[i].target, base, parts) || FreshIn(all[i].target, c, others.next) {
      assert all[i] == others.stmts[i - |first.stmts|];
    }
  }

  lemma {:induction false} ElemNames(p: Pattern, i: nat, q: Pattern, value: Expr, base: string, c: nat)
    requires p.ArrayPattern? && PlainNames(p) && i <= |p.elems| && IsTemp(base) && !IsTempIdent(value)
    requires PlainNames(q) && q < p && (q.Target? <==> !HasPart(p, i))
    ensures var first := Lower(q, value, Some(GenerateName(base, None, i)), c);
            && CodeInFamily(first, Child(base, "i" + Decimal(i)), c)
            && (HasPart(p, i) ==> CodeInParts(first, base, {"i" + Decimal(i)}, c))
            && (!HasPart(p, i) ==> first.next == c && forall k :: 0 <= k < |first.stmts| ==> !first.stmts[k].isTemp)
    decreases p, 0, 0
  {
    var x := "i" + Decimal(i);
    GeneratedIsChild(base, None, i);
    ChildIsTemp(base, x);
    PartNames(q, value, base, Child(base, x), c);
    OwnsInFamily(Lower(q, value, Some(Child(base, x)), c), Child(base, x), PartsOf(q, c), c);
    OnePart(Lower(q, value, Some(Child(base, x)), c), base, x, {x}, c);
  }

  lemma OnePart(code: Code, base: string, x: string, parts: set<string>, c: nat)
    requires CodeInFamily(code, Child(base, x), c) && x in parts
    ensures CodeInParts(code, base, parts, c)
  {
  }

  lemma WholeNames(p: Pattern, value: Expr, c: nat)
    requires PlainNames(p) && !p.Target?
    ensures TempsDistinct(Lower(p, value, None, c).stmts)
  {
    LowerIsBody(p, value, None, c);
    var value' := if p.ArrayPattern? && !value.ArrayLit? then ArrayFrom(value) else value;
    var (temp, pre) := TempFor(value', None, c);
    BodyNames(p, temp, pre.next);
    var body := Body(p, temp, pre.next);
    if pre.next == c + 1 {
      assert FreshIn(temp, c, c + 1);
      FreshApart(temp, c, c + 1, body.next);
    }
    HeadDistinct(pre.stmts, body, temp, PartsOf(p, pre.next), pre.next);
  }

  /** The lowering emits a name twice only if some key is an identifier with a dollar sign, two properties of
      one object pattern generate one segment and the first of them has a part that is named by the index of
      the other, or a hoisted key is beside a key that generates _hh. Without these a `const` or `let` list
      declares each temporary once, those of hoisted keys and of repeated keys included. */
  lemma TempNamesDistinct(p: Pattern, value: Expr, c: nat)
    ensures TempsDistinct(Lower(p, value, None, c).stmts) || DollarKey(p) || IndexKey(p) || StemKey(p)
  {
    if PlainNames(p) && !p.Target? { WholeNames(p, value, c); }
  }
}
