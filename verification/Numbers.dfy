/** Number.prototype.toString and parseInt of integers in a radix. */
module Numbers {
  import opened Prelude
  import opened Text

  type Radix = r: nat | 2 <= r <= 36 witness 10

  function IntText(n: int, radix: Radix): (s: string)
    ensures s != []
  {
    if n < 0 then "-" + Numeral(-n, radix) else Numeral(n, radix)
  }

  /** The number of leading characters that are digits. */
  function DigitCount(s: string, radix: Radix): (n: nat)
    ensures n <= |s| && AllDigits(s[..n], radix)
  {
    if s == [] || !(0 <= DigitValue(s[0]) < radix) then 0 else
    var n := 1 + DigitCount(s[1..], radix);
    assert s[..n] == [s[0]] + s[1..][..n - 1];
    n
  }

  /** The digits at the start of a text; none is NaN. */
  function ReadDigits(s: string, radix: Radix): Option<nat> {
    var n := DigitCount(s, radix);
    if n == 0 then None else Some(ReadNumeral(s[..n], radix))
  }

  /** parseInt; in radix 16 it would also skip "0x". */
  function ParseInt(s: string, radix: Radix): Option<int> {
    var t := TrimLeft(s);
    if t != [] && t[0] == '-' then
      var n: int :- ReadDigits(t[1..], radix);
      Some(-n)
    else
      ReadDigits(if t != [] && t[0] == '+' then t[1..] else t, radix)
  }

  lemma {:induction false} DigitCountAll(s: string, radix: Radix)
    requires AllDigits(s, radix)
    ensures DigitCount(s, radix) == |s|
  {
    if s != [] {
      assert forall i :: 0 <= i < |s| - 1 ==> s[1..][i] == s[i + 1];
      DigitCountAll(s[1..], radix);
    }
  }

  lemma ReadDigitsRoundTrip(n: nat, radix: Radix)
    ensures ReadDigits(Numeral(n, radix), radix) == Some(n)
    ensures !IsSpace(Numeral(n, radix)[0]) && Numeral(n, radix)[0] !in "+-"
  {
    var s := Numeral(n, radix);
    NumeralRoundTrip(n, radix);
    DigitCountAll(s, radix);
    assert s[..|s|] == s;
    assert IsDigitChar(s[0], radix);
  }

  lemma ParseSigned(t: string, n: nat, radix: Radix)
    requires t != [] && !IsSpace(t[0]) && t[0] !in "+-" && ReadDigits(t, radix) == Some(n)
    ensures ParseInt(t, radix) == Some(n) && ParseInt("-" + t, radix) == Some(-(n as int))
  {
    assert ("-" + t)[1..] == t;
  }

  /** parseInt undoes toString. */
  lemma IntRoundTrip(n: int, radix: Radix)
    ensures ParseInt(IntText(n, radix), radix) == Some(n)
  {
    var m := if n < 0 then -n else n;
    ReadDigitsRoundTrip(m, radix);
    ParseSigned(Numeral(m, radix), m, radix);
  }
}
