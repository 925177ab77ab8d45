/** Separating the outdated records from the actual ones, in place. src/utils/cookie.ts */
module CookieSort {
  import opened Prelude
  import opened SyncCookies

  type Records = seq<Cookie>

  /** The next record with the identity of the i-th one, or the length. */
  function NextSame(a: Records, i: nat, from: nat): (j: nat)
    requires i < from <= |a|
    ensures from <= j <= |a|
    ensures forall k :: from <= k < j ==> !IsSame(a[i], a[k])
    ensures j < |a| ==> IsSame(a[i], a[j])
    decreases |a| - from
  {
    if from == |a| || IsSame(a[i], a[from]) then from else NextSame(a, i, from + 1)
  }

  /** One round of the loop: the later of record i and the next one of its identity moves to the
      place of that next one. */
  function Settle(a: Records, i: nat): (b: Records)
    requires i < |a|
    ensures |b| == |a|
  {
    var j := NextSame(a, i, i + 1);
    if j < |a| && Later(a[i], a[j]) then a[i := a[j]][j := a[i]] else a
  }

  /** The records after the first n rounds. */
  function Settled(a: Records, n: nat): (b: Records)
    requires n <= |a|
    ensures |b| == |a|
  {
    if n == 0 then a else Settle(Settled(a, n - 1), n - 1)
  }

  /** No later record has the identity of the i-th one. */
  predicate IsLast(a: Records, i: nat)
    requires i < |a|
  {
    forall k :: i < k < |a| ==> !IsSame(a[i], a[k])
  }

  /** The settled records of the first n places that are, or are not, the last ones of their identity. */
  function Sorted(a: Records, n: nat, actual: bool): Records
    requires n <= |a|
  {
    if n == 0 then [] else
    Sorted(a, n - 1, actual) + (if IsLast(a, n - 1) == actual then [Settled(a, n)[n - 1]] else [])
  }

  function Outdated(a: Records): Records {
    Sorted(a, |a|, false)
  }

  function Actual(a: Records): Records {
    Sorted(a, |a|, true)
  }

  // ---------------------------------------------------------------- the loop

  lemma SettleSame(a: Records, i: nat, k: nat)
    requires i < |a| && k < |a|
    ensures IsSame(Settle(a, i)[k], a[k])
    ensures k < i ==> Settle(a, i)[k] == a[k]
  {
  }

  lemma SettlePermutes(a: Records, i: nat)
    requires i < |a|
    ensures multiset(Settle(a, i)) == multiset(a)
  {
  }

  lemma {:induction false} SettledSame(a: Records, n: nat, k: nat)
    requires n <= |a| && k < |a|
    ensures IsSame(Settled(a, n)[k], a[k])
  {
    if n > 0 {
      SettledSame(a, n - 1, k);
      SettleSame(Settled(a, n - 1), n - 1, k);
    }
  }

  lemma {:induction false} SettledPermutes(a: Records, n: nat)
    requires n <= |a|
    ensures multiset(Settled(a, n)) == multiset(a)
  {
    if n > 0 {
      var before := Settled(a, n - 1);
      SettlePermutes(before, n - 1);
      assert Settled(a, n) == Settle(before, n - 1);
      SettledPermutes(a, n - 1);
    }
  }

  lemma IsLastSettled(a: Records, n: nat, i: nat)
    requires n <= |a| && i < |a|
    ensures IsLast(Settled(a, n), i) == IsLast(a, i)
  {
    forall k | 0 <= k < |a| ensures IsSame(Settled(a, n)[k], a[k]) {
      SettledSame(a, n, k);
    }
  }

  /** The state after n rounds. */
  predicate SortedSoFar(a: Records, n: nat, now: Records, outdated: Records, actual: Records) {
    n <= |a| && now == Settled(a, n) && outdated == Sorted(a, n, false) && actual == Sorted(a, n, true)
  }

  lemma RoundSorts(a: Records, n: nat, now: Records, outdated: Records, actual: Records, now': Records, outdated': Records, actual': Records)
    requires n < |a| && SortedSoFar(a, n, now, outdated, actual) && now' == Settle(now, n)
    requires if NextSame(now, n, n + 1) == |a| then outdated' == outdated && actual' == actual + [now'[n]]
             else outdated' == outdated + [now'[n]] && actual' == actual
    ensures SortedSoFar(a, n + 1, now', outdated', actual')
  {
    NextIsSettled(a, n);
    SortedNext(a, n, NextSame(now, n, n + 1) == |a|);
  }

  lemma NextIsSettled(a: Records, n: nat)
    requires n < |a|
    ensures Settled(a, n + 1) == Settle(Settled(a, n), n)
    ensures IsLast(a, n) == (NextSame(Settled(a, n), n, n + 1) == |a|)
  {
    IsLastSettled(a, n, n);
    LastHasNoNext(Settled(a, n), n);
  }

  lemma SortedNext(a: Records, n: nat, last: bool)
    requires n < |a| && last == IsLast(a, n)
    ensures Sorted(a, n + 1, true) == if last then Sorted(a, n, true) + [Settled(a, n + 1)[n]] else Sorted(a, n, true)
    ensures Sorted(a, n + 1, false) == if last then Sorted(a, n, false) else Sorted(a, n, false) + [Settled(a, n + 1)[n]]
  {
  }

  lemma LastHasNoNext(a: Records, n: nat)
    requires n < |a|
    ensures IsLast(a, n) <==> NextSame(a, n, n + 1) == |a|
  {
  }

  method SortByOutdatedAndActual(parsedCookies: array<Cookie>) returns (outdated: Records, actual: Records)
    modifies parsedCookies
    ensures outdated == Outdated(old(parsedCookies[..])) && actual == Actual(old(parsedCookies[..]))
    ensures parsedCookies[..] == Settled(old(parsedCookies[..]), parsedCookies.Length)
  {
    outdated, actual := [], [];
    ghost var a := parsedCookies[..];
    var current := 0;
    while current < parsedCookies.Length
      invariant 0 <= current <= parsedCookies.Length
      invariant SortedSoFar(a, current, parsedCookies[..], outdated, actual)
    {
      ghost var before, outdated0, actual0 := parsedCookies[..], outdated, actual;
      var other := current + 1;
      while other < parsedCookies.Length && !IsSame(parsedCookies[current], parsedCookies[other])
        invariant current < other <= parsedCookies.Length
        invariant NextSame(before, current, current + 1) == NextSame(before, current, other)
        invariant parsedCookies[..] == before && |before| == parsedCookies.Length
      {
        other := other + 1;
      }
      if other < parsedCookies.Length {
        if Later(parsedCookies[current], parsedCookies[other]) {
          parsedCookies[current], parsedCookies[other] := parsedCookies[other], parsedCookies[current];
          assert parsedCookies[..] == before[current := before[other]][other := before[current]];
        }
        outdated := outdated + [parsedCookies[current]];
      }
      if other == parsedCookies.Length {
        actual := actual + [parsedCookies[current]];
      }
      assert parsedCookies[..] == Settle(before, current);
      RoundSorts(a, current, before, outdated0, actual0, parsedCookies[..], outdated, actual);
      current := current + 1;
    }
  }

  // ---------------------------------------------------------------- nothing is lost

  lemma {:induction false} SettledPrefix(a: Records, n: nat, m: nat, k: nat)
    requires k < n <= m <= |a|
    ensures Settled(a, m)[k] == Settled(a, n)[k]
  {
    if n < m {
      SettledPrefix(a, n, m - 1, k);
      SettleSame(Settled(a, m - 1), m - 1, k);
    }
  }

  /** The records settled at the first n places. */
  function Placed(a: Records, n: nat): multiset<Cookie>
    requires n <= |a|
  {
    if n == 0 then multiset{} else Placed(a, n - 1) + multiset{Settled(a, n)[n - 1]}
  }

  lemma {:induction false} SortedCounts(a: Records, n: nat)
    requires n <= |a|
    ensures SortedCount(a, n) == Placed(a, n)
  {
    if n > 0 {
      SortedStep(a, n);
      SortedCounts(a, n - 1);
    }
  }

  /** The records sorted from the first n places. */
  function SortedCount(a: Records, n: nat): multiset<Cookie>
    requires n <= |a|
  {
    multiset(Sorted(a, n, false)) + multiset(Sorted(a, n, true))
  }

  lemma {:induction false} PlacedCounts(a: Records, s: Records, n: nat)
    requires n <= |a| && s == Settled(a, |a|)
    ensures Placed(a, n) == multiset(s[..n])
  {
    if n == 0 {
      assert s[..0] == [];
    } else {
      SettledPrefix(a, n, |a|, n - 1);
      TakeOne(s, n);
      PlacedCounts(a, s, n - 1);
    }
  }

  lemma TakeOne(s: Records, n: nat)
    requires 0 < n <= |s|
    ensures multiset(s[..n]) == multiset(s[..n - 1]) + multiset{s[n - 1]}
  {
    assert s[..n] == s[..n - 1] + [s[n - 1]];
  }

  lemma CountOne(cs: Records, x: Cookie)
    ensures multiset(cs + [x]) == multiset(cs) + multiset{x}
  {
  }

  lemma SortedStep(a: Records, n: nat)
    requires 0 < n <= |a|
    ensures SortedCount(a, n) == SortedCount(a, n - 1) + multiset{Settled(a, n)[n - 1]}
  {
    var outdated, actual, x := Sorted(a, n - 1, false), Sorted(a, n - 1, true), Settled(a, n)[n - 1];
    if IsLast(a, n - 1) {
      assert Sorted(a, n, true) == actual + [x] && Sorted(a, n, false) == outdated;
    } else {
      assert Sorted(a, n, false) == outdated + [x] && Sorted(a, n, true) == actual;
    }
    CountOne(outdated, x);
    CountOne(actual, x);
  }

  /** Together the outdated and the actual records are the given ones. */
  lemma NothingLost(a: Records)
    ensures multiset(Outdated(a)) + multiset(Actual(a)) == multiset(a)
  {
    var s := Settled(a, |a|);
    SortedCounts(a, |a|);
    PlacedCounts(a, s, |a|);
    assert s[..|a|] == s;
    SettledPermutes(a, |a|);
  }

  // ---------------------------------------------------------------- the latest record of an identity

  /** The record of the identity of c among the first n that a reader keeps: a record replaces an
      earlier one unless that one is later. */
  function Best(a: Records, n: nat, c: Cookie): (best: Option<Cookie>)
    requires n <= |a|
    ensures best.Some? ==> IsSame(best.value, c)
  {
    if n == 0 then None else
    var best := Best(a, n - 1, c);
    if !IsSame(a[n - 1], c) || (best.Some? && Later(best.value, a[n - 1])) then best else Some(a[n - 1])
  }

  lemma {:induction false} BestSkips(a: Records, m: nat, n: nat, c: Cookie)
    requires m <= n <= |a| && forall k :: m <= k < n ==> !IsSame(a[k], c)
    ensures Best(a, n, c) == Best(a, m, c)
  {
    if m < n { BestSkips(a, m, n - 1, c); }
  }

  lemma {:induction false} BestOfSame(a: Records, n: nat, c: Cookie, d: Cookie)
    requires n <= |a| && IsSame(c, d)
    ensures Best(a, n, c) == Best(a, n, d)
  {
    if n > 0 { BestOfSame(a, n - 1, c, d); }
  }

  /** No record at i or after it and before k has the identity of record k. */
  predicate FirstFrom(a: Records, i: nat, k: nat)
    requires k < |a|
  {
    forall l :: i <= l < k ==> !IsSame(a[l], a[k])
  }

  /** After n rounds, the first record of each identity at n or after it is the best one so far. */
  ghost predicate Carries(a: Records, n: nat, k: nat)
    requires n <= k < |a|
  {
    if FirstFrom(a, n, k) then Some(Settled(a, n)[k]) == Best(a, k + 1, a[k]) else Settled(a, n)[k] == a[k]
  }

  lemma CarriesAtStart(a: Records, k: nat)
    requires k < |a|
    ensures Carries(a, 0, k)
  {
    if FirstFrom(a, 0, k) { BestSkips(a, 0, k, a[k]); }
  }

  lemma CarriesStep(a: Records, n: nat, k: nat)
    requires n < k < |a| && Carries(a, n, n) && Carries(a, n, k)
    requires forall l :: 0 <= l < |a| ==> IsSame(Settled(a, n)[l], a[l])
    ensures Carries(a, n + 1, k)
  {
    var b := Settled(a, n);
    var j := NextSame(b, n, n + 1);
    assert Settled(a, n + 1) == Settle(b, n);
    assert Some(b[n]) == Best(a, n + 1, a[n]);
    if k == j {
      assert !FirstFrom(a, n, k) by { assert IsSame(a[n], a[k]); }
      BestOfSame(a, n + 1, a[n], a[k]);
      BestSkips(a, n + 1, k, a[k]);
    } else if IsSame(a[n], a[k]) {
      assert IsSame(a[j], a[k]);
    } else {
      assert FirstFrom(a, n, k) == FirstFrom(a, n + 1, k);
    }
  }

  lemma {:induction false} EveryRoundCarries(a: Records, n: nat, k: nat)
    requires n <= k < |a|
    ensures Carries(a, n, k)
    decreases n
  {
    if n == 0 {
      CarriesAtStart(a, k);
    } else {
      var m := n - 1;
      EveryRoundCarries(a, m, m);
      EveryRoundCarries(a, m, k);
      forall l | 0 <= l < |a| ensures IsSame(Settled(a, m)[l], a[l]) { SettledSame(a, m, l); }
      CarriesStep(a, m, k);
    }
  }

  /** The record that is settled at the last place of an identity is the best of all. */
  lemma LastIsBest(a: Records, i: nat)
    requires i < |a| && IsLast(a, i)
    ensures Some(Settled(a, i + 1)[i]) == Best(a, |a|, a[i])
  {
    EveryRoundCarries(a, i, i);
    IsLastSettled(a, i, i);
    assert NextSame(Settled(a, i), i, i + 1) == |a|;
    BestSkips(a, i + 1, |a|, a[i]);
  }

  lemma {:induction false} SortedActual(a: Records, n: nat, p: nat)
    requires n <= |a| && p < |Sorted(a, n, true)|
    ensures exists i :: 0 <= i < n && IsLast(a, i) && Sorted(a, n, true)[p] == Settled(a, i + 1)[i]
  {
    if IsLast(a, n - 1) && p == |Sorted(a, n, true)| - 1 {
      assert Sorted(a, n, true)[p] == Settled(a, n)[n - 1];
    } else {
      SortedActual(a, n - 1, p);
    }
  }

  lemma SortedGrows(a: Records, n: nat)
    requires 0 < n <= |a|
    ensures Sorted(a, n - 1, true) <= Sorted(a, n, true)
    ensures IsLast(a, n - 1) ==> Settled(a, n)[n - 1] in Sorted(a, n, true)
  {
    if IsLast(a, n - 1) {
      var s := Sorted(a, n, true);
      assert s[|s| - 1] == Settled(a, n)[n - 1];
    }
  }

  lemma {:induction false} SortedHas(a: Records, n: nat, i: nat, x: Cookie)
    requires i < n <= |a| && IsLast(a, i) && x == Settled(a, i + 1)[i]
    ensures x in Sorted(a, n, true)
  {
    SortedGrows(a, n);
    if i < n - 1 {
      SortedHas(a, n - 1, i, x);
      InPrefix(Sorted(a, n - 1, true), Sorted(a, n, true), x);
    }
  }

  lemma InPrefix(a: Records, b: Records, x: Cookie)
    requires a <= b && x in a
    ensures x in b
  {
    assert b[..|a|] == a;
  }

  lemma LastOf(a: Records, c: Cookie) returns (i: nat)
    requires exists k :: 0 <= k < |a| && IsSame(a[k], c)
    ensures i < |a| && IsSame(a[i], c) && IsLast(a, i)
  {
    i := |a| - 1;
    while !IsSame(a[i], c)
      invariant i < |a| && forall k :: i < k < |a| ==> !IsSame(a[k], c)
      decreases i
    {
      i := i - 1;
    }
  }

  /** The actual records are exactly the best ones of the identities that occur. */
  lemma ActualIsBest(a: Records, c: Cookie)
    requires exists k :: 0 <= k < |a| && IsSame(a[k], c)
    ensures Best(a, |a|, c).Some? && Best(a, |a|, c).value in Actual(a)
    ensures forall x :: x in Actual(a) && Identity(x) == Identity(c) ==> Some(x) == Best(a, |a|, c)
  {
    var i := LastOf(a, c);
    LastIsBest(a, i);
    SortedHas(a, |a|, i, Settled(a, i + 1)[i]);
    BestOfSame(a, |a|, a[i], c);
    forall x | x in Actual(a) && IsSame(x, c) ensures Some(x) == Best(a, |a|, c) {
      var p :| 0 <= p < |Actual(a)| && Actual(a)[p] == x;
      SortedActual(a, |a|, p);
      var j :| 0 <= j < |a| && IsLast(a, j) && x == Settled(a, j + 1)[j];
      LastIsBest(a, j);
      BestOfSame(a, |a|, a[j], c);
    }
  }

  lemma DistinctLast(a: Records, i: nat, j: nat)
    requires i < j < |a| && IsLast(a, i)
    ensures !IsSame(Settled(a, i + 1)[i], Settled(a, j + 1)[j])
  {
    SettledSame(a, i + 1, i);
    SettledSame(a, j + 1, j);
    assert !IsSame(a[i], a[j]);
  }

  /** No two records have one identity. */
  predicate Apart(cs: Records) {
    forall p, q :: 0 <= p < q < |cs| ==> !IsSame(cs[p], cs[q])
  }

  /** Each identity has one actual record only. */
  lemma {:induction false} OneActual(a: Records, n: nat)
    requires n <= |a|
    ensures Apart(Sorted(a, n, true))
  {
    if n > 0 {
      OneActual(a, n - 1);
      SortedNext(a, n - 1, IsLast(a, n - 1));
      ApartNext(a, n - 1, Sorted(a, n - 1, true), Settled(a, n)[n - 1]);
    }
  }

  lemma ApartNext(a: Records, n: nat, before: Records, x: Cookie)
    requires n < |a| && before == Sorted(a, n, true) && Apart(before) && x == Settled(a, n + 1)[n]
    ensures Apart(before + [x])
  {
    forall p | 0 <= p < |before| ensures !IsSame(before[p], x) { NewActual(a, n, p, x); }
  }

  /** The record settled at place n differs from the actual records before. */
  lemma NewActual(a: Records, n: nat, p: nat, x: Cookie)
    requires n < |a| && p < |Sorted(a, n, true)| && x == Settled(a, n + 1)[n]
    ensures !IsSame(Sorted(a, n, true)[p], x)
  {
    SortedActual(a, n, p);
    var i :| 0 <= i < n && IsLast(a, i) && Sorted(a, n, true)[p] == Settled(a, i + 1)[i];
    DistinctLast(a, i, n);
  }

  predicate DatedAs(a: Records, c: Cookie) {
    forall k :: 0 <= k < |a| && Identity(a[k]) == Identity(c) ==> a[k].lastAccessed.At?
  }

  /** A record of the identity with a valid date. */
  predicate Dated(a: Records, k: int, c: Cookie) {
    0 <= k < |a| && Identity(a[k]) == Identity(c) && a[k].lastAccessed.At?
  }

  /** The place behind the last record of the identity without a valid date, or 0. */
  function DatedFrom(a: Records, n: nat, c: Cookie): (l: nat)
    requires n <= |a|
    ensures l <= n && (forall k :: l <= k < n && Identity(a[k]) == Identity(c) ==> a[k].lastAccessed.At?)
    ensures l > 0 ==> Identity(a[l - 1]) == Identity(c) && !a[l - 1].lastAccessed.At?
  {
    if n == 0 then 0 else if Identity(a[n - 1]) == Identity(c) && !a[n - 1].lastAccessed.At? then n else DatedFrom(a, n - 1, c)
  }

  /** No record of the identity with a valid date was accessed later. */
  ghost predicate IsLatest(a: Records, c: Cookie, best: Cookie) {
    forall k :: Dated(a, k, c) ==> best.lastAccessed.At? && a[k].lastAccessed.ms <= best.lastAccessed.ms
  }

  /** Every dated record before the last undated one of the identity has a dated one behind that, accessed
      no earlier. */
  ghost predicate LatestKept(a: Records, c: Cookie) {
    var l := DatedFrom(a, |a|, c);
    forall k :: k < l && Dated(a, k, c) ==> exists m :: l <= m && Dated(a, m, c) && a[k].lastAccessed.ms <= a[m].lastAccessed.ms
  }

  lemma DatedIsKept(a: Records, c: Cookie)
    requires DatedAs(a, c)
    ensures LatestKept(a, c)
  {
  }

  /** From l on, where all dates are valid, the best record is the one accessed last, and of several the
      later one; without a record there it is the best one before. */
  lemma {:induction false} BestIsLatest(a: Records, l: nat, n: nat, c: Cookie) returns (m: nat)
    requires l <= n <= |a| && forall k :: l <= k < n && Identity(a[k]) == Identity(c) ==> a[k].lastAccessed.At?
    requires l > 0 ==> Identity(a[l - 1]) == Identity(c) && !a[l - 1].lastAccessed.At?
    ensures if exists k :: l <= k < n && Identity(a[k]) == Identity(c)
            then l <= m < n && Best(a, n, c) == Some(a[m]) && Dated(a, m, c)
              && (forall k :: l <= k < m && Identity(a[k]) == Identity(c) ==> a[k].lastAccessed.ms <= a[m].lastAccessed.ms)
              && (forall k :: m < k < n && Identity(a[k]) == Identity(c) ==> a[k].lastAccessed.ms < a[m].lastAccessed.ms)
            else Best(a, n, c) == if l == 0 then None else Some(a[l - 1])
  {
    if n == l {
      m := 0;
    } else {
      m := BestIsLatest(a, l, n - 1, c);
      if Identity(a[n - 1]) == Identity(c) {
        if !(exists k :: l <= k < n - 1 && Identity(a[k]) == Identity(c)) || !Later(a[m], a[n - 1]) { m := n - 1; }
      }
    }
  }

  /** The best record is the latest one exactly when no dated record is hidden by an undated one. */
  lemma BestIsLatestExactly(a: Records, c: Cookie)
    requires Best(a, |a|, c).Some?
    ensures IsLatest(a, c, Best(a, |a|, c).value) <==> LatestKept(a, c)
  {
    var l, best := DatedFrom(a, |a|, c), Best(a, |a|, c).value;
    var m := BestIsLatest(a, l, |a|, c);
    if exists k :: l <= k < |a| && Identity(a[k]) == Identity(c) {
      assert Dated(a, m, c) && best == a[m];
      if LatestKept(a, c) {
        forall k | Dated(a, k, c) ensures a[k].lastAccessed.ms <= best.lastAccessed.ms {
          if k < l { var j :| l <= j && Dated(a, j, c) && a[k].lastAccessed.ms <= a[j].lastAccessed.ms; }
        }
      }
    } else {
      assert forall k :: Dated(a, k, c) ==> k < l;
      assert forall k :: l <= k ==> !Dated(a, k, c);
    }
  }

  /** Every record has exactly one actual record of its identity, and that one is the latest exactly when
      no dated record is hidden by an undated one; with valid dates it always is. */
  lemma ActualIsLatest(a: Records, c: Cookie) returns (p: nat)
    requires c in a
    ensures p < |Actual(a)| && Identity(Actual(a)[p]) == Identity(c)
    ensures forall q :: 0 <= q < |Actual(a)| && q != p ==> Identity(Actual(a)[q]) != Identity(c)
    ensures IsLatest(a, c, Actual(a)[p]) <==> LatestKept(a, c)
    ensures LatestKept(a, c) ==> forall d :: d in a && Identity(d) == Identity(c) ==> !Later(d, Actual(a)[p])
    ensures DatedAs(a, c) ==> LatestKept(a, c)
  {
    ActualIsBest(a, c);
    var best := Best(a, |a|, c).value;
    p :| 0 <= p < |Actual(a)| && Actual(a)[p] == best;
    OneActual(a, |a|);
    BestIsLatestExactly(a, c);
    if DatedAs(a, c) { DatedIsKept(a, c); }
    if LatestKept(a, c) {
      forall d | d in a && Identity(d) == Identity(c) ensures !Later(d, best) {
        var k :| 0 <= k < |a| && a[k] == d;
        assert d.lastAccessed.At? ==> Dated(a, k, c);
      }
    }
  }

  /** An invalid date can hide a record: the one accessed at 5 is outdated and that at 3 is actual. */
  lemma InvalidDateHidesLatest(c: Cookie)
    ensures var at5, never, at3 := c.(lastAccessed := At(5)), c.(lastAccessed := InvalidDate), c.(lastAccessed := At(3));
            Actual([at5, never, at3]) == [at3] && at5 in Outdated([at5, never, at3])
  {
    var at5, never, at3 := c.(lastAccessed := At(5)), c.(lastAccessed := InvalidDate), c.(lastAccessed := At(3));
    var a := [at5, never, at3];
    assert IsSame(a[0], a[1]) && IsSame(a[1], a[2]);
    assert NextSame(a, 0, 1) == 1 && NextSame(a, 1, 2) == 2 && NextSame(a, 2, 3) == 3;
    assert Settled(a, 1) == a;
    assert Settled(a, 2) == a;
    assert Settled(a, 3) == a;
    assert !IsLast(a, 0) && !IsLast(a, 1) && IsLast(a, 2);
    assert Sorted(a, 1, true) == [] && Sorted(a, 2, true) == [] && Sorted(a, 3, true) == [at3];
    assert Sorted(a, 1, false) == [at5] && Sorted(a, 2, false) == [at5, never] && Sorted(a, 3, false) == [at5, never];
  }
}
