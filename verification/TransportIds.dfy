/** src/client/utils/integer-id-generator.ts: which calls of a window share an identifier. */
module TransportIds {
  import opened Prelude
  import opened Transport
  import opened TransportProtocol
  import opened TransportRuns

  /** How many identifiers there are. */
  const CYCLE := 18014398509481983

  /** The identifier of the k-th call of a window, counting from 0. */
  function IdOf(k: nat): int {
    (k + 1) % CYCLE - 9007199254740991
  }

  ghost predicate NumbersCalls(s: System, w: nat)
    requires w < |s.windows|
  {
    var calls := Select(OfWindow(w), s.issued);
    && (forall k :: 0 <= k < |calls| ==> calls[k].id == IdOf(k))
    && s.windows[w].lastId == if calls == [] then -9007199254740991 else calls[|calls| - 1].id
  }

  lemma NextIdOf(k: nat)
    ensures NextId(IdOf(k)) == IdOf(k + 1)
  {
  }

  lemma IssueNumbers(s: System, w: nat, msg: Msg, queued: bool, v: nat)
    requires Shaped(s) && Enabled(s, Issue(w, msg, queued)) && v < |s.windows| && NumbersCalls(s, v)
    ensures NumbersCalls(Take(s, Issue(w, msg, queued)), v)
  {
    var calls := Select(OfWindow(v), s.issued);
    SelectAppend(OfWindow(v), s.issued, NewItem(s, w, msg, queued));
    if v != w {
      assert calls + [] == calls;
    } else if calls != [] {
      NextIdOf(|calls| - 1);
    }
  }

  lemma TakeNumbers(s: System, step: Step, v: nat)
    requires Shaped(s) && v < |s.windows| && NumbersCalls(s, v)
    ensures NumbersCalls(Take(s, step), v)
  {
    if step.Issue? && Enabled(s, step) {
      IssueNumbers(s, step.window, step.msg, step.queued, v);
    } else {
      assert Take(s, step).issued == s.issued;
      assert Take(s, step).windows[v].lastId == s.windows[v].lastId;
    }
  }

  lemma {:induction false} RunNumbers(n: nat, steps: seq<Step>, v: nat)
    requires v < n
    ensures NumbersCalls(Execute(n, steps), v)
  {
    if steps == [] {
      assert Select(OfWindow(v), []) == [];
    } else {
      RunNumbers(n, steps[..|steps| - 1], v);
      TakeNumbers(Execute(n, steps[..|steps| - 1]), steps[|steps| - 1], v);
    }
  }

  lemma SameRemainder(j: nat, k: nat)
    requires j <= k
    ensures IdOf(j) == IdOf(k) <==> (k - j) % CYCLE == 0
  {
    var a, b := j + 1, k + 1;
    var p, q := a / CYCLE, b / CYCLE;
    assert a == p * CYCLE + a % CYCLE && b == q * CYCLE + b % CYCLE;
    if a % CYCLE == b % CYCLE {
      assert k - j == (q - p) * CYCLE;
    }
    if (k - j) % CYCLE == 0 {
      var d := (k - j) / CYCLE;
      assert b == (p + d) * CYCLE + a % CYCLE;
    }
  }

  /** Two calls of a window have the same identifier exactly when a whole number of cycles of 2^54 - 1
      identifiers lies between them. */
  lemma IdsRepeatExactly(n: nat, steps: seq<Step>, w: nat, j: nat, k: nat)
    requires w < n && j <= k < |Select(OfWindow(w), Execute(n, steps).issued)|
    ensures var calls := Select(OfWindow(w), Execute(n, steps).issued);
            calls[j].id == calls[k].id <==> (k - j) % 18014398509481983 == 0
  {
    RunNumbers(n, steps, w);
    SameRemainder(j, k);
  }

  lemma NextIsFresh(s: System, w: nat, calls: seq<Item>, it: Item)
    requires w < |s.windows| && calls == Select(OfWindow(w), s.issued) && |calls| < CYCLE
    requires NumbersCalls(s, w) && it in s.issued && it.window == w
    ensures it.id != NextId(s.windows[w].lastId)
  {
    SelectMember(OfWindow(w), s.issued, it);
    var k :| 0 <= k < |calls| && calls[k] == it;
    NextIdOf(|calls| - 1);
    SameRemainder(k, |calls|);
  }

  lemma CallbackIsCall(s: System, w: nat, id: int) returns (it: Item)
    requires Inv(s) && w < |s.windows| && id in s.windows[w].callbacks
    ensures it in s.issued && it.window == w && it.id == id
  {
    assert CallbackInv(w, s.windows[w], s.issued, AnsweredIn(s.fired));
    it := s.windows[w].callbacks[id];
  }

  lemma CallbackOfRun(n: nat, steps: seq<Step>, w: nat, id: int) returns (it: Item)
    requires w < n && id in Execute(n, steps).windows[w].callbacks
    ensures it in Execute(n, steps).issued && it.window == w && it.id == id
  {
    EveryRun(n, steps);
    it := CallbackIsCall(Execute(n, steps), w, id);
  }

  /** A window that made fewer than 2^54 - 1 calls can always make another: its identifier is free. */
  lemma CallsAreEnabled(n: nat, steps: seq<Step>, w: nat, msg: Msg, queued: bool)
    requires w < n && |Select(OfWindow(w), Execute(n, steps).issued)| < 18014398509481983
    ensures Enabled(Execute(n, steps), Issue(w, msg, queued))
  {
    var s := Execute(n, steps);
    RunNumbers(n, steps, w);
    if NextId(s.windows[w].lastId) in s.windows[w].callbacks {
      var it := CallbackOfRun(n, steps, w, NextId(s.windows[w].lastId));
      NextIsFresh(s, w, Select(OfWindow(w), s.issued), it);
    }
  }
}
