/** The fragment of JavaScript values and expressions that destructuring talks about:
    property lookup (without prototypes), iteration, and the run-time helpers that the
    rewritten code calls (src/client/sandbox/code-instrumentation/index.ts:114-146). */
module JsValues {
  import opened Prelude

  /** `Iter` is any finite iterable that is neither an array nor a string. */
  datatype Value =
    | Undefined
    | Null
    | Boolean(b: bool)
    | Number(n: int)
    | Str(s: string)
    | Arr(items: seq<Value>)
    | Iter(items: seq<Value>)
    | Obj(props: map<string, Value>)

  predicate Nullish(v: Value) {
    v == Undefined || v == Null
  }

  predicate Falsy(v: Value) {
    Nullish(v) || v == Boolean(false) || v == Number(0) || v == Str("")
  }

  /** ToPropertyKey. Object-valued keys are outside the model and count as a throw. */
  function ToKey(v: Value): Option<string> {
    match v
    case Undefined => Some("undefined")
    case Null => Some("null")
    case Boolean(b) => Some(if b then "true" else "false")
    case Number(n) => Some(if n < 0 then "-" + Decimal(-n) else Decimal(n))
    case Str(s) => Some(s)
    case _ => None
  }

  function Chars(s: string): seq<Value> {
    seq(|s|, i requires 0 <= i < |s| => Str([s[i]]))
  }

  function IndexProps(items: seq<Value>): map<string, Value> {
    if items == [] then map[] else
    IndexProps(items[..|items| - 1])[Decimal(|items| - 1) := items[|items| - 1]]
  }

  /** The own enumerable string-keyed properties. */
  function Own(v: Value): map<string, Value> {
    match v
    case Obj(props) => props
    case Arr(items) => IndexProps(items)
    case Str(s) => IndexProps(Chars(s))
    case _ => map[]
  }

  /** `v[key]`; None is a TypeError. */
  function Get(v: Value, key: string): Option<Value> {
    if Nullish(v) then None
    else if key in Own(v) then Some(Own(v)[key])
    else if v.Arr? && key == "length" then Some(Number(|v.items|))
    else if v.Str? && key == "length" then Some(Number(|v.s|))
    else Some(Undefined)
  }

  /** The values that iterating over `v` produces; None is a TypeError. */
  function Elements(v: Value): Option<seq<Value>> {
    match v
    case Arr(items) => Some(items)
    case Iter(items) => Some(items)
    case Str(s) => Some(Chars(s))
    case _ => None
  }

  /** The helper `__arrayFrom$`. */
  function ArrayFromValue(v: Value): Value {
    if Falsy(v) then v
    else if v.Iter? then Arr(v.items)
    else if v.Str? then Arr(Chars(v.s))
    else v
  }

  /** The elements of an array-like object from `start` on. */
  function ArrayLike(props: map<string, Value>, start: nat): seq<Value> {
    if "length" !in props || !props["length"].Number? || props["length"].n <= start then [] else
    seq(props["length"].n - start, i requires 0 <= i => var key := Decimal(start + i); if key in props then props[key] else Undefined)
  }

  /** The helper `__rest$array`: Array.prototype.slice. */
  function RestArrayValue(v: Value, start: nat): Option<Value> {
    if Nullish(v) then None
    else if v.Arr? then Some(Arr(if start <= |v.items| then v.items[start..] else []))
    else if v.Str? then Some(Arr(if start <= |v.s| then Chars(v.s)[start..] else []))
    else if v.Obj? then Some(Arr(ArrayLike(v.props, start)))
    else Some(Arr([]))
  }

  function StringKeys(keys: seq<Value>): set<string> {
    set k | k in keys && k.Str? :: k.s
  }

  function PropertyKeys(keys: seq<Value>): set<string> {
    set k | k in keys && ToKey(k).Some? :: ToKey(k).value
  }

  /** The helper `__rest$object`: `indexOf` compares with ===, so only string keys exclude. */
  function RestObjectValue(v: Value, keys: seq<Value>): Option<Value> {
    if Nullish(v) then None else Some(Obj(Own(v) - StringKeys(keys)))
  }

  /** CopyDataProperties of ECMA-262: every excluded key is a property key. */
  function CopyRest(v: Value, keys: seq<Value>): Value {
    Obj(Own(v) - PropertyKeys(keys))
  }

  /** No own property is named by an excluded key that is not a string, unless an equal string
      key excludes it as well. */
  ghost predicate RestExact(v: Value, keys: seq<Value>) {
    forall k :: k in keys && !k.Str? && ToKey(k).Some? && ToKey(k).value in Own(v) ==> Str(ToKey(k).value) in keys
  }

  lemma {:induction false} IndexPropsAt(items: seq<Value>, i: nat)
    ensures Decimal(i) in IndexProps(items) <==> i < |items|
    ensures i < |items| ==> IndexProps(items)[Decimal(i)] == items[i]
  {
    if items != [] {
      var last := |items| - 1;
      IndexPropsAt(items[..last], i);
      if i != last && Decimal(i) == Decimal(last) {
        DecimalInjective(i, last);
      }
    }
  }

  lemma {:induction false} IndexPropsOnlyDigits(items: seq<Value>, key: string)
    requires key in IndexProps(items)
    ensures IsDigits(key) && key != []
  {
    var last := |items| - 1;
    if key == Decimal(last) {
      DecimalIsDigits(last);
    } else {
      IndexPropsOnlyDigits(items[..last], key);
    }
  }

  /** Indexing the result of `__arrayFrom$` gives what the iterator would have produced. */
  lemma ArrayFromIndex(v: Value, i: nat)
    requires Elements(v).Some?
    ensures Get(ArrayFromValue(v), Decimal(i)) == Some(if i < |Elements(v).value| then Elements(v).value[i] else Undefined)
  {
    IndexPropsAt(Elements(v).value, i);
    DecimalIsDigits(i);
    assert Decimal(i)[0] != "length"[0];
    if v == Str("") {
      assert Own(v) == map[];
    }
  }

  lemma ArrayFromRest(v: Value, i: nat)
    requires Elements(v).Some?
    ensures var es := Elements(v).value;
            RestArrayValue(ArrayFromValue(v), i) == Some(Arr(if i <= |es| then es[i..] else []))
  {
    if v == Str("") {
      assert Chars(v.s) == [];
    }
  }

  lemma IndexBesideLength(items: seq<Value>, length: Value, k: nat)
    requires k < |items|
    ensures var props := IndexProps(items)["length" := length]; Decimal(k) in props && props[Decimal(k)] == items[k]
  {
    IndexPropsAt(items, k);
    DecimalIsDigits(k);
    assert Decimal(k)[0] != "length"[0];
  }

  ghost predicate HasElements(props: map<string, Value>, items: seq<Value>) {
    forall k: nat :: k < |items| ==> Decimal(k) in props && props[Decimal(k)] == items[k]
  }

  lemma ArrayLikeIs(props: map<string, Value>, items: seq<Value>, start: nat)
    requires HasElements(props, items) && "length" in props && props["length"] == Number(|items|)
    ensures ArrayLike(props, start) == if start <= |items| then items[start..] else []
  {
  }

  /** An object that has the elements and the length of an array gives the same rest as the array. */
  lemma ArrayLikeRest(items: seq<Value>, start: nat)
    ensures RestArrayValue(Obj(IndexProps(items)["length" := Number(|items|)]), start) == RestArrayValue(Arr(items), start)
  {
    var props := IndexProps(items)["length" := Number(|items|)];
    forall k: nat | k < |items| ensures Decimal(k) in props && props[Decimal(k)] == items[k] {
      IndexBesideLength(items, Number(|items|), k);
    }
    ArrayLikeIs(props, items, start);
  }

  /** The rest helper computes CopyDataProperties exactly when every excluded key that is not a
      string (a numeric literal, say) names no own property or is also excluded as a string. */
  lemma RestObjectExact(v: Value, keys: seq<Value>)
    requires !Nullish(v)
    ensures RestObjectValue(v, keys) == Some(CopyRest(v, keys)) <==> RestExact(v, keys)
  {
    var lowered, native := Own(v) - StringKeys(keys), Own(v) - PropertyKeys(keys);
    if RestExact(v, keys) {
      assert lowered == native;
    } else {
      var k :| k in keys && !k.Str? && ToKey(k).Some? && ToKey(k).value in Own(v) && Str(ToKey(k).value) !in keys;
      assert ToKey(k).value in PropertyKeys(keys);
      assert ToKey(k).value !in native;
      assert ToKey(k).value in lowered;
    }
  }

  /** `({ 1: a, ...r } = { 1: x })` leaves property 1 in r. */
  lemma NumericKeyLeaksIntoRest(x: Value)
    ensures var v, keys := Obj(map["1" := x]), [Number(1)];
            CopyRest(v, keys) == Obj(map[]) && RestObjectValue(v, keys) == Some(v)
  {
    assert ToKey(Number(1)) == Some("1");
    assert "1" in PropertyKeys([Number(1)]);
    assert map["1" := x] - PropertyKeys([Number(1)]) == map[];
    assert StringKeys([Number(1)]) == {};
    assert map["1" := x] - StringKeys([Number(1)]) == map["1" := x];
  }
}
