/** The temporary variable names of src/processing/script/transformers/temp-variables.ts. */
module TempNames {
  import opened Prelude

  const PREFIX := "_hh$temp"

  predicate IsTemp(name: string) {
    PREFIX <= name
  }

  /** The k-th top-level temporary. */
  function Fresh(k: nat): (name: string)
    ensures IsTemp(name)
  {
    PREFIX + Decimal(k)
  }

  /** `name` is a top-level temporary numbered below `next`, or was derived from one by
      appending suffixes that start with '$'. */
  ghost predicate Issued(name: string, next: nat) {
    exists k: nat, suffix: string :: k < next && IssuedAs(name, k, suffix)
  }

  ghost predicate IssuedAs(name: string, k: nat, suffix: string) {
    name == Fresh(k) + suffix && (suffix == [] || suffix[0] == '$')
  }

  /** `name` belongs to the family of names derived from `base`. */
  predicate Derived(name: string, base: string) {
    base + "$" <= name
  }

  /** Counters at or above `lo` and below `hi` were used to issue `name`. */
  ghost predicate IssuedBetween(name: string, lo: nat, hi: nat) {
    exists k: nat, suffix: string :: lo <= k < hi && IssuedAs(name, k, suffix)
  }

  lemma {:induction false} SplitAtDollar(a: string, x: string, b: string, y: string)
    requires IsDigits(a) && IsDigits(b)
    requires a + x == b + y
    requires x == [] || x[0] == '$'
    requires y == [] || y[0] == '$'
    ensures a == b && x == y
  {
    var w := a + x;
    assert forall i :: 0 <= i < |w| ==> w[i] == if i < |a| then a[i] else x[i - |a|];
    assert forall i :: 0 <= i < |w| ==> w[i] == if i < |b| then b[i] else y[i - |b|];
    assert |a| < |w| ==> w[|a|] == '$';
    assert |b| < |w| ==> w[|b|] == '$';
    assert |a| == |b|;
    assert a == w[..|a|] && b == w[..|b|];
    assert x == w[|a|..] && y == w[|b|..];
  }

  lemma AfterPrefix(number: string, suffix: string)
    ensures (PREFIX + number + suffix)[|PREFIX|..] == number + suffix
  {
  }

  /** A name determines the counter value that it was issued with. */
  lemma IssuedOnce(name: string, k: nat, suffix: string, k': nat, suffix': string)
    requires IssuedAs(name, k, suffix) && IssuedAs(name, k', suffix')
    ensures k == k' && suffix == suffix'
  {
    DecimalIsDigits(k);
    DecimalIsDigits(k');
    AfterPrefix(Decimal(k), suffix);
    AfterPrefix(Decimal(k'), suffix');
    SplitAtDollar(Decimal(k), suffix, Decimal(k'), suffix');
    DecimalInjective(k, k');
  }

  /** Names derived from an issued name are temporaries, differ from it and stay issued. */
  lemma DerivedIsIssued(name: string, base: string, k: nat, suffix: string)
    requires IssuedAs(base, k, suffix) && Derived(name, base)
    ensures name != base && IsTemp(name)
    ensures IssuedAs(name, k, suffix + name[|base|..])
  {
    assert name == base + name[|base|..];
    assert name[|base|] == (base + "$")[|base|] == '$';
    assert name == Fresh(k) + (suffix + name[|base|..]);
    assert PREFIX <= name;
  }

  lemma DerivedTransitive(name: string, mid: string, base: string)
    requires (Derived(name, mid) || name == mid) && (Derived(mid, base) || mid == base)
    requires name != mid || mid != base
    ensures Derived(name, base)
  {
    if Derived(name, mid) {
      assert name[..|mid|] == mid;
      if Derived(mid, base) {
        assert mid[..|base| + 1] == base + "$";
        assert name[..|base| + 1] == base + "$";
      }
    }
  }
}
