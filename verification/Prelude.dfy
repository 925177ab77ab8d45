/** Shared vocabulary: optional values, and numerals in a positional radix as produced by
    JavaScript's Number.prototype.toString and read back by parseInt. */
module Prelude {

  datatype Option<+T> = None | Some(value: T) {
    predicate IsFailure() {
      None?
    }

    function PropagateFailure<U>(): Option<U>
      requires None?
    {
      None
    }

    function Extract(): T
      requires Some?
    {
      value
    }
  }

  /** Texts can be put together in any grouping. */
  lemma Assoc(a: string, b: string, c: string)
    ensures a + (b + c) == a + b + c
  {
  }

  lemma AssocTexts(a: seq<string>, b: seq<string>, c: seq<string>)
    ensures a + (b + c) == a + b + c
  {
  }

  /** The sequence without its i-th element. */
  function Without<T>(s: seq<T>, i: nat): seq<T>
    requires i < |s|
  {
    s[..i] + s[i + 1..]
  }

  /** The i-th digit character of a numeral: 0-9 and then a-z. */
  function DigitChar(d: nat): char
    requires d < 36
  {
    "0123456789abcdefghijklmnopqrstuvwxyz"[d]
  }

  function DigitValue(c: char): (d: int)
    ensures d < 36
  {
    if '0' <= c <= '9' then c as int - '0' as int
    else if 'a' <= c <= 'z' then c as int - 'a' as int + 10
    else if 'A' <= c <= 'Z' then c as int - 'A' as int + 10
    else -1
  }

  lemma DigitRoundTrip(d: nat)
    requires d < 36
    ensures DigitValue(DigitChar(d)) == d
    ensures d < 10 ==> '0' <= DigitChar(d) <= '9'
  {
  }

  /** The numeral of n in the given radix, most significant digit first. */
  function Numeral(n: nat, radix: nat): (s: string)
    requires 2 <= radix <= 36
    ensures s != []
    decreases n
  {
    if n < radix then [DigitChar(n)] else
    DivSmaller(n, radix);
    Numeral(n / radix, radix) + [DigitChar(n % radix)]
  }

  lemma DivSmaller(n: nat, radix: nat)
    requires 2 <= radix && radix <= n
    ensures n / radix < n
    ensures n / radix * radix + n % radix == n
  {
    var q, r := n / radix, n % radix;
    assert n == radix * q + r;
    MulAtLeastDouble(q, radix);
  }

  lemma MulAtLeastDouble(q: nat, radix: nat)
    requires 2 <= radix
    ensures q * radix == radix * q
    ensures q * radix >= 2 * q
  {
  }

  predicate AllDigits(s: string, radix: nat) {
    forall i :: 0 <= i < |s| ==> 0 <= DigitValue(s[i]) < radix
  }

  function ReadNumeral(s: string, radix: nat): nat
    requires AllDigits(s, radix)
  {
    if s == [] then 0 else ReadNumeral(s[..|s| - 1], radix) * radix + DigitValue(s[|s| - 1])
  }

  /** Reading a numeral back yields the number it was printed from, and the numeral is made of
      the lower case digits of its radix. */
  lemma {:induction false} NumeralRoundTrip(n: nat, radix: nat)
    requires 2 <= radix <= 36
    ensures AllDigits(Numeral(n, radix), radix)
    ensures ReadNumeral(Numeral(n, radix), radix) == n
    ensures forall i :: 0 <= i < |Numeral(n, radix)| ==> IsDigitChar(Numeral(n, radix)[i], radix)
    decreases n
  {
    if n < radix {
      DigitRoundTrip(n);
      assert Numeral(n, radix)[..0] == [];
      assert ReadNumeral([], radix) == 0;
    } else {
      DivSmaller(n, radix);
      var q, r := n / radix, n % radix;
      NumeralRoundTrip(q, radix);
      NumeralStep(n, q, r, radix);
    }
  }

  predicate IsDigitChar(c: char, radix: nat) {
    '0' <= c <= '9' || (radix > 10 && 'a' <= c <= 'z')
  }

  lemma NumeralStep(n: nat, q: nat, r: nat, radix: nat)
    requires 2 <= radix <= 36 && r < radix <= n && q == n / radix && r == n % radix && q * radix + r == n
    requires AllDigits(Numeral(q, radix), radix) && ReadNumeral(Numeral(q, radix), radix) == q
    requires forall i :: 0 <= i < |Numeral(q, radix)| ==> IsDigitChar(Numeral(q, radix)[i], radix)
    ensures AllDigits(Numeral(n, radix), radix)
    ensures ReadNumeral(Numeral(n, radix), radix) == n
    ensures forall i :: 0 <= i < |Numeral(n, radix)| ==> IsDigitChar(Numeral(n, radix)[i], radix)
  {
    var t, c := Numeral(q, radix), DigitChar(r);
    assert Numeral(n, radix) == t + [c];
    DigitRoundTrip(r);
    AppendDigit(t, c, radix);
  }

  lemma AppendDigit(t: string, c: char, radix: nat)
    requires AllDigits(t, radix) && 0 <= DigitValue(c) < radix
    ensures AllDigits(t + [c], radix)
    ensures ReadNumeral(t + [c], radix) == ReadNumeral(t, radix) * radix + DigitValue(c)
  {
    assert (t + [c])[..|t + [c]| - 1] == t;
  }

  function Decimal(n: nat): (s: string)
    ensures s != []
  {
    Numeral(n, 10)
  }

  lemma DecimalInjective(m: nat, n: nat)
    requires Decimal(m) == Decimal(n)
    ensures m == n
  {
    NumeralRoundTrip(m, 10);
    NumeralRoundTrip(n, 10);
  }

  predicate IsDigits(s: string) {
    forall i :: 0 <= i < |s| ==> '0' <= s[i] <= '9'
  }

  lemma DecimalIsDigits(n: nat)
    ensures IsDigits(Decimal(n))
  {
    NumeralRoundTrip(n, 10);
  }
}
