/** Which parts of a body become entries of the form. src/upload/form-data.ts */
module MultipartParts {
  import opened Prelude
  import opened Multipart
  import opened MultipartRoundTrip

  // ---------------------------------------------------------------- parts

  /** The number of delimiters that start a part. */
  function PartCount(lines: seq<string>, token: string): nat {
    if lines == [] then 0 else (if lines[0] == Delimiter(token) then 1 else 0) + PartCount(lines[1..], token)
  }

  /** The parts that were started, each as it is before the next one starts; the first is the current one. */
  function PartsFrom(p: Parser, lines: seq<string>, token: string): seq<Entry>
    decreases |lines|
  {
    var own := if p.current.Some? then [p.current.value] else [];
    if lines == [] then own else
    (if lines[0] == Delimiter(token) then own else []) + PartsFrom(Step(p, lines[0], token), lines[1..], token)
  }

  /** The numbers of the parts that delimiter lines push, when `count` parts have been started. */
  function Pushed(lines: seq<string>, count: nat, token: string): seq<nat>
    decreases |lines|
  {
    if lines == [] then [] else
    var last := if count > 0 && IsDelimiter(lines[0], token) then [count - 1] else [];
    last + Pushed(lines[1..], if lines[0] == Delimiter(token) then count + 1 else count, token)
  }

  /** The parts with the given numbers; `first` is the number of the first part in the list. */
  function Select(parts: seq<Entry>, numbers: seq<nat>, first: int): seq<Entry>
    requires forall k :: k in numbers ==> 0 <= k - first < |parts|
  {
    seq(|numbers|, i requires 0 <= i < |numbers| => assert numbers[i] in numbers; parts[numbers[i] - first])
  }

  lemma {:induction false} PartsCount(p: Parser, lines: seq<string>, token: string)
    ensures |PartsFrom(p, lines, token)| == PartCount(lines, token) + if p.current.Some? then 1 else 0
    ensures p.state == InEpilogue && p.current.Some? ==> PartsFrom(p, lines, token)[0] == p.current.value
    decreases |lines|
  {
    if lines != [] { PartsCount(Step(p, lines[0], token), lines[1..], token); }
  }

  lemma {:induction false} PushedRange(lines: seq<string>, count: nat, token: string)
    ensures forall k :: k in Pushed(lines, count, token) ==>
              (if count > 0 then count - 1 else 0) <= k < count + PartCount(lines, token)
    decreases |lines|
  {
    if lines != [] { PushedRange(lines[1..], if lines[0] == Delimiter(token) then count + 1 else count, token); }
  }

  function FirstPart(count: nat): int {
    if count > 0 then count - 1 else 0
  }

  lemma SelectCons(parts: seq<Entry>, number: nat, numbers: seq<nat>, first: int)
    requires forall k :: k in [number] + numbers ==> 0 <= k - first < |parts|
    ensures number in [number] + numbers && forall k :: k in numbers ==> k in [number] + numbers
    ensures Select(parts, [number] + numbers, first) == [parts[number - first]] + Select(parts, numbers, first)
  {
    assert ([number] + numbers)[0] == number;
  }

  lemma SelectBehind(part: Entry, parts: seq<Entry>, numbers: seq<nat>, first: int)
    requires forall k :: k in numbers ==> 0 <= k - first < |parts|
    ensures Select([part] + parts, numbers, first - 1) == Select(parts, numbers, first)
  {
    assert forall i :: 0 <= i < |numbers| ==> numbers[i] in numbers;
    assert forall i :: 0 <= i < |numbers| ==> ([part] + parts)[numbers[i] - (first - 1)] == parts[numbers[i] - first];
  }

  /** The entries of the form are the parts that are pushed, in the order of the pushes. */
  lemma {:induction false} EntriesArePushed(p: Parser, lines: seq<string>, count: nat, token: string)
    requires p.current.Some? <==> count > 0
    ensures forall k :: k in Pushed(lines, count, token) ==> 0 <= k - FirstPart(count) < |PartsFrom(p, lines, token)|
    ensures ParseFrom(p, lines, token).entries
         == p.entries + Select(PartsFrom(p, lines, token), Pushed(lines, count, token), FirstPart(count))
    decreases |lines|
  {
    PartsCount(p, lines, token);
    PushedRange(lines, count, token);
    if lines == [] {
      assert p.entries + [] == p.entries;
    } else {
      var q, rest := Step(p, lines[0], token), lines[1..];
      var parts := PartsFrom(q, rest, token);
      DelimitersDiffer(token);
      PartsCount(q, rest, token);
      if lines[0] == Delimiter(token) {
        EntriesArePushed(q, rest, count + 1, token);
        StartPushes(p, parts, Pushed(rest, count + 1, token), count);
      } else if lines[0] == EndDelimiter(token) {
        EntriesArePushed(q, rest, count, token);
        EndPushes(p, parts, Pushed(rest, count, token), count);
      } else {
        EntriesArePushed(q, rest, count, token);
        assert [] + parts == parts && [] + Pushed(rest, count, token) == Pushed(rest, count, token);
      }
    }
  }

  /** A start delimiter pushes the current part, and the parts that follow have the next numbers. */
  lemma StartPushes(p: Parser, parts: seq<Entry>, numbers: seq<nat>, count: nat)
    requires p.current.Some? <==> count > 0
    requires forall k :: k in numbers ==> 0 <= k - count < |parts|
    ensures var all, pushed := (if p.current.Some? then [p.current.value] else []) + parts, (if count > 0 then [count - 1] else []) + numbers;
            && (forall k :: k in pushed ==> 0 <= k - FirstPart(count) < |all|)
            && PushCurrent(p) + Select(parts, numbers, count) == p.entries + Select(all, pushed, FirstPart(count))
  {
    if count > 0 {
      var part := p.current.value;
      SelectBehind(part, parts, numbers, count);
      SelectCons([part] + parts, count - 1, numbers, count - 1);
      assert p.entries + [part] + Select(parts, numbers, count) == p.entries + ([part] + Select(parts, numbers, count));
    } else {
      assert [] + parts == parts && [] + numbers == numbers && p.entries + [] == p.entries;
    }
  }

  /** An end delimiter pushes the current part. */
  lemma EndPushes(p: Parser, parts: seq<Entry>, numbers: seq<nat>, count: nat)
    requires p.current.Some? <==> count > 0
    requires count > 0 ==> parts != [] && parts[0] == p.current.value
    requires forall k :: k in numbers ==> 0 <= k - FirstPart(count) < |parts|
    ensures var pushed := (if count > 0 then [count - 1] else []) + numbers;
            && (forall k :: k in pushed ==> 0 <= k - FirstPart(count) < |parts|)
            && PushCurrent(p) + Select(parts, numbers, FirstPart(count)) == p.entries + Select([] + parts, pushed, FirstPart(count))
  {
    assert [] + parts == parts;
    if count > 0 {
      SelectCons(parts, count - 1, numbers, count - 1);
      assert p.entries + [parts[0]] + Select(parts, numbers, count - 1) == p.entries + ([parts[0]] + Select(parts, numbers, count - 1));
    } else {
      assert [] + numbers == numbers && p.entries + [] == p.entries;
    }
  }

  // ---------------------------------------------------------------- when every part is kept once

  predicate NoDelimiter(lines: seq<string>, token: string) {
    forall l :: l in lines ==> !IsDelimiter(l, token)
  }

  /** Once a part was started there is exactly one end delimiter, and no delimiter after it. */
  predicate WellEnded(lines: seq<string>, started: bool, token: string)
    decreases |lines|
  {
    if lines == [] then !started
    else if lines[0] == Delimiter(token) then WellEnded(lines[1..], true, token)
    else if lines[0] == EndDelimiter(token) && started then NoDelimiter(lines[1..], token)
    else WellEnded(lines[1..], started, token)
  }

  /** n numbers from k on. */
  function Range(k: nat, n: nat): (r: seq<nat>)
    ensures |r| == n && forall i :: 0 <= i < n ==> r[i] == k + i
  {
    seq(n, i requires 0 <= i < n => k + i)
  }

  lemma RangeCons(k: nat, n: nat, rest: seq<nat>)
    ensures [k] + rest == Range(k, n + 1) <==> rest == Range(k + 1, n)
  {
    assert Range(k, n + 1) == [k] + Range(k + 1, n);
    assert ([k] + rest)[1..] == rest && Range(k, n + 1)[1..] == Range(k + 1, n);
  }

  lemma {:induction false} NothingPushed(lines: seq<string>, count: nat, token: string)
    ensures NoDelimiter(lines, token) ==> Pushed(lines, count, token) == [] && PartCount(lines, token) == 0
    ensures !NoDelimiter(lines, token) && count > 0 ==> Pushed(lines, count, token) != [] && Pushed(lines, count, token)[0] == count - 1
    decreases |lines|
  {
    if lines != [] {
      assert lines[0] in lines && forall l :: l in lines <==> l == lines[0] || l in lines[1..];
      if !IsDelimiter(lines[0], token) {
        NothingPushed(lines[1..], count, token);
        assert [] + Pushed(lines[1..], count, token) == Pushed(lines[1..], count, token);
      }
    }
  }

  /** Each part from the current one on once, when n more parts start. */
  predicate EachOnce(numbers: seq<nat>, count: nat, n: nat) {
    numbers == if count > 0 then Range(count - 1, n + 1) else Range(0, n)
  }

  lemma StartOnce(numbers: seq<nat>, count: nat, n: nat)
    ensures EachOnce((if count > 0 then [count - 1] else []) + numbers, count, n + 1) <==> EachOnce(numbers, count + 1, n)
  {
    if count > 0 { RangeCons(count - 1, n + 1, numbers); } else { assert [] + numbers == numbers; }
  }

  lemma EndOnce(numbers: seq<nat>, count: nat, n: nat)
    requires count > 0 && (numbers == [] ==> n == 0) && (numbers != [] ==> numbers[0] == count - 1)
    ensures EachOnce([count - 1] + numbers, count, n) <==> numbers == []
  {
    RangeCons(count - 1, n, numbers);
    assert numbers != [] ==> numbers[0] != count;
  }

  lemma {:induction false} PushedOnce(lines: seq<string>, count: nat, token: string)
    ensures EachOnce(Pushed(lines, count, token), count, PartCount(lines, token)) <==> WellEnded(lines, count > 0, token)
    decreases |lines|
  {
    if lines != [] {
      var line, rest := lines[0], lines[1..];
      DelimitersDiffer(token);
      if line == Delimiter(token) {
        PushedOnce(rest, count + 1, token);
        StartOnce(Pushed(rest, count + 1, token), count, PartCount(rest, token));
      } else if line == EndDelimiter(token) && count > 0 {
        NothingPushed(rest, count, token);
        EndOnce(Pushed(rest, count, token), count, PartCount(rest, token));
      } else {
        PushedOnce(rest, count, token);
        assert [] + Pushed(rest, count, token) == Pushed(rest, count, token);
      }
    }
  }

  /** The entries are parts of the body, and every part becomes exactly one entry, in order, exactly when
      one end delimiter follows the start of the first part and no delimiter follows that: without it the
      last part is lost, and any delimiter behind it adds a part again. */
  lemma EveryPartIsKept(lines: seq<string>, token: string)
    ensures var parts, numbers := PartsFrom(START, lines, token), Pushed(lines, 0, token);
            && |parts| == PartCount(lines, token)
            && (forall k :: k in numbers ==> k < |parts|)
            && ParseFrom(START, lines, token).entries == Select(parts, numbers, 0)
            && (numbers == Range(0, |parts|) <==> WellEnded(lines, false, token))
  {
    PartsCount(START, lines, token);
    EntriesArePushed(START, lines, 0, token);
    PushedOnce(lines, 0, token);
    var selected := Select(PartsFrom(START, lines, token), Pushed(lines, 0, token), 0);
    assert [] + selected == selected;
  }

  /** So the entries of a well ended body are its parts. */
  lemma WellEndedParts(lines: seq<string>, token: string)
    requires WellEnded(lines, false, token)
    ensures ParseFrom(START, lines, token).entries == PartsFrom(START, lines, token)
  {
    EveryPartIsKept(lines, token);
    var parts := PartsFrom(START, lines, token);
    assert Select(parts, Range(0, |parts|), 0) == parts;
  }
}
