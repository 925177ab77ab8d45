/** Telling the other windows of a frame tree about cookies, with retries.
    src/client/sandbox/cookie/window-sync.ts */
module WindowSync {
  import opened Prelude

  // ---------------------------------------------------------------- which windows are told

  datatype Frame = Frame(id: nat, frames: seq<Frame>)

  /** The windows of a tree, each before those inside it. */
  function Windows(f: Frame): seq<nat>
    decreases f, |f.frames| + 1
  {
    [f.id] + WindowsOf(f, 0)
  }

  function WindowsOf(f: Frame, i: nat): seq<nat>
    requires i <= |f.frames|
    decreases f, |f.frames| - i
  {
    if i == |f.frames| then [] else Windows(f.frames[i]) + WindowsOf(f, i + 1)
  }

  function Except(ids: seq<nat>, initiator: Option<nat>, top: nat): seq<nat> {
    if ids == [] then [] else
    (if Some(ids[0]) != initiator && ids[0] != top then [ids[0]] else []) + Except(ids[1..], initiator, top)
  }

  lemma {:induction false} ExceptConcat(a: seq<nat>, b: seq<nat>, initiator: Option<nat>, top: nat)
    ensures Except(a + b, initiator, top) == Except(a, initiator, top) + Except(b, initiator, top)
  {
    if a == [] {
      assert a + b == b && [] + Except(b, initiator, top) == Except(b, initiator, top);
    } else {
      ExceptConcat(a[1..], b, initiator, top);
      assert (a + b)[1..] == a[1..] + b;
      ThreeParts(if Some(a[0]) != initiator && a[0] != top then [a[0]] else [], Except(a[1..], initiator, top), Except(b, initiator, top));
    }
  }

  lemma ThreeParts(a: seq<nat>, b: seq<nat>, c: seq<nat>)
    ensures a + (b + c) == (a + b) + c
  {
  }

  /** _getWindowsForSync fills the list that it is given. */
  class WindowList {
    var windows: seq<nat>

    constructor ()
      ensures windows == []
    {
      windows := [];
    }

    method GetWindowsForSync(initiator: Option<nat>, currentWindow: Frame, top: nat)
      modifies this
      ensures windows == old(windows) + Except(Windows(currentWindow), initiator, top)
      decreases currentWindow
    {
      if Some(currentWindow.id) != initiator && currentWindow.id != top {
        windows := windows + [currentWindow.id];
      }
      ghost var own := windows;
      ghost var before := old(windows);
      assert [currentWindow.id][1..] == [] && Except([], initiator, top) == [];
      assert own == old(windows) + Except([currentWindow.id], initiator, top);
      var i := 0;
      ghost var all := own + Except(WindowsOf(currentWindow, 0), initiator, top);
      while i < |currentWindow.frames|
        invariant 0 <= i <= |currentWindow.frames|
        invariant all == windows + Except(WindowsOf(currentWindow, i), initiator, top)
      {
        ghost var inner, rest := Except(Windows(currentWindow.frames[i]), initiator, top), Except(WindowsOf(currentWindow, i + 1), initiator, top);
        ExceptConcat(Windows(currentWindow.frames[i]), WindowsOf(currentWindow, i + 1), initiator, top);
        assert windows + (inner + rest) == (windows + inner) + rest;
        GetWindowsForSync(initiator, currentWindow.frames[i], top);
        i := i + 1;
      }
      ExceptConcat([currentWindow.id], WindowsOf(currentWindow, 0), initiator, top);
      assert windows + [] == windows;
      assert (before + Except([currentWindow.id], initiator, top)) + Except(WindowsOf(currentWindow, 0), initiator, top)
          == before + (Except([currentWindow.id], initiator, top) + Except(WindowsOf(currentWindow, 0), initiator, top));
    }
  }

  lemma {:induction false} ExceptCount(ids: seq<nat>, initiator: Option<nat>, top: nat, w: nat)
    ensures multiset(Except(ids, initiator, top))[w] == if Some(w) != initiator && w != top then multiset(ids)[w] else 0
  {
    if ids != [] {
      ExceptCount(ids[1..], initiator, top, w);
      assert ids == [ids[0]] + ids[1..];
      var head := if Some(ids[0]) != initiator && ids[0] != top then [ids[0]] else [];
      assert multiset(head + Except(ids[1..], initiator, top)) == multiset(head) + multiset(Except(ids[1..], initiator, top));
    }
  }

  /** In a tree of different windows each one but the initiator and the top is told once. */
  lemma ToldOnce(tree: Frame, initiator: Option<nat>, w: nat)
    requires multiset(Windows(tree))[w] <= 1
    ensures multiset(Except(Windows(tree), initiator, tree.id))[w]
         == if w in Windows(tree) && Some(w) != initiator && w != tree.id then 1 else 0
  {
    ExceptCount(Windows(tree), initiator, tree.id, w);
    assert w in Windows(tree) <==> multiset(Windows(tree))[w] > 0;
  }

  /** The frame at the end of a path of indices. */
  function FrameAt(f: Frame, path: seq<nat>): Option<Frame>
    decreases |path|
  {
    if path == [] then Some(f)
    else if path[0] < |f.frames| then FrameAt(f.frames[path[0]], path[1..])
    else None
  }

  ghost predicate Leads(f: Frame, path: seq<nat>, w: nat) {
    FrameAt(f, path).Some? && FrameAt(f, path).value.id == w
  }

  /** The windows of a tree are those of all its frames, however deep. */
  lemma {:induction false} EveryWindow(f: Frame, w: nat)
    ensures w in Windows(f) <==> exists path :: Leads(f, path, w)
    decreases f, |f.frames| + 1
  {
    WindowBelow(f, 0, w);
    if w == f.id { assert Leads(f, [], w); }
    if path :| Leads(f, path, w) {
      if path != [] { assert IsBelow(f, 0, w, path); }
    }
    if w in WindowsOf(f, 0) {
      var path :| IsBelow(f, 0, w, path);
      assert Leads(f, path, w);
    }
  }

  ghost predicate IsBelow(f: Frame, i: nat, w: nat, path: seq<nat>) {
    path != [] && path[0] >= i && Leads(f, path, w)
  }

  lemma {:induction false} WindowBelow(f: Frame, i: nat, w: nat)
    requires i <= |f.frames|
    ensures w in WindowsOf(f, i) <==> exists path :: IsBelow(f, i, w, path)
    decreases f, |f.frames| - i
  {
    if i < |f.frames| {
      var next := i + 1;
      EveryWindow(f.frames[i], w);
      WindowBelow(f, next, w);
      if path :| Leads(f.frames[i], path, w) {
        assert ([i] + path)[1..] == path;
        assert IsBelow(f, i, w, [i] + path);
      }
      if path :| IsBelow(f, next, w, path) { assert IsBelow(f, i, w, path); }
      if path :| IsBelow(f, i, w, path) {
        if path[0] > i { assert IsBelow(f, next, w, path); } else { assert Leads(f.frames[i], path[1..], w); }
      }
    } else {
      forall path ensures !IsBelow(f, i, w, path) { }
    }
  }

  // ---------------------------------------------------------------- one message

  const SYNC_MESSAGE_TIMEOUT := 500
  const SYNC_MESSAGE_ATTEMPT_COUNT := 5

  /** A message to one window: the number of attempts, when the timer fires, whether the resolver is
      registered, and when the message was sent and its promise resolved. */
  datatype Sender = Sender(attempts: nat, timer: Option<nat>, registered: bool, sent: seq<nat>, resolved: seq<nat>)

  /** resolveWrapper */
  function Resolve(s: Sender, now: nat): Sender {
    s.(timer := None, registered := false, resolved := s.resolved + [now])
  }

  /** sendMsg; `parent` tells whether the window still has a parent. */
  function SendMsg(s: Sender, now: nat, parent: bool): Sender {
    var s' := s.(attempts := s.attempts + 1);
    if s.attempts < SYNC_MESSAGE_ATTEMPT_COUNT || !parent
    then s'.(sent := s.sent + [now], timer := Some(now + SYNC_MESSAGE_TIMEOUT * s'.attempts))
    else Resolve(s', now)
  }

  /** _sendSyncMessage */
  function Start(now: nat, parent: bool): Sender {
    SendMsg(Sender(0, None, true, [], []), now, parent)
  }

  /** What can happen to a message: its timer fires, or a done message for it arrives. */
  datatype Event = Timeout(parent: bool) | Done(now: nat)

  /** Events come in the order of time: a timer fires when it is due, before anything later. */
  predicate Enabled(s: Sender, now: nat, e: Event) {
    match e
    case Timeout(_) => s.timer.Some?
    case Done(t) => now <= t && (s.timer.Some? ==> t <= s.timer.value)
  }

  function TimeOf(s: Sender, now: nat, e: Event): nat {
    match e
    case Timeout(_) => if s.timer.Some? then s.timer.value else now
    case Done(t) => t
  }

  function Happen(s: Sender, now: nat, e: Event): Sender {
    match e
    case Timeout(parent) => if s.timer.Some? then SendMsg(s.(timer := None), s.timer.value, parent) else s
    case Done(t) => if s.registered then Resolve(s, t) else s
  }

  class SyncMessage {
    var attempts: nat
    var timeoutId: Option<nat>
    var registered: bool
    var sent: seq<nat>
    var resolved: seq<nat>

    function Fields(): Sender
      reads this
    {
      Sender(attempts, timeoutId, registered, sent, resolved)
    }

    constructor (now: nat, parent: bool)
      ensures Fields() == Start(now, parent)
    {
      attempts, timeoutId, registered, sent, resolved := 0, None, true, [], [];
      new;
      SendMessage(now, parent);
    }

    method ResolveWrapper(now: nat)
      modifies this
      ensures Fields() == Resolve(old(Fields()), now)
    {
      timeoutId := None;
      registered := false;
      resolved := resolved + [now];
    }

    method SendMessage(now: nat, parent: bool)
      modifies this
      ensures Fields() == SendMsg(old(Fields()), now, parent)
    {
      var again := attempts < SYNC_MESSAGE_ATTEMPT_COUNT || !parent;
      attempts := attempts + 1;
      if again {
        sent := sent + [now];
        timeoutId := Some(now + SYNC_MESSAGE_TIMEOUT * attempts);
      } else {
        ResolveWrapper(now);
      }
    }

    method OnTimeout(parent: bool)
      requires timeoutId.Some?
      modifies this
      ensures Fields() == Happen(old(Fields()), 0, Timeout(parent))
    {
      var now := timeoutId.value;
      timeoutId := None;
      SendMessage(now, parent);
    }

    /** The done message: the resolver is called when it is still registered. */
    method OnDone(now: nat)
      modifies this
      ensures Fields() == Happen(old(Fields()), now, Done(now))
    {
      if registered {
        ResolveWrapper(now);
      }
    }
  }

  // ---------------------------------------------------------------- runs of one message

  /** The clock and the state after the events; events that are not enabled do not happen. */
  function Run(t0: nat, parent: bool, events: seq<Event>): (nat, Sender) {
    if events == [] then (t0, Start(t0, parent)) else
    var (now, s) := Run(t0, parent, events[..|events| - 1]);
    var e := events[|events| - 1];
    if Enabled(s, now, e) then (TimeOf(s, now, e), Happen(s, now, e)) else (now, s)
  }

  /** What happened to a message: what its timers found when they fired, and whether a done message came. */
  datatype History = History(fired: seq<bool>, answered: bool)

  const NOTHING := History([], false)

  function Record(h: History, e: Event): History {
    match e
    case Timeout(parent) => h.(fired := h.fired + [parent])
    case Done(_) => h.(answered := true)
  }

  function Past(t0: nat, parent: bool, events: seq<Event>): History {
    if events == [] then NOTHING else
    var (now, s) := Run(t0, parent, events[..|events| - 1]);
    var h, e := Past(t0, parent, events[..|events| - 1]), events[|events| - 1];
    if Enabled(s, now, e) then Record(h, e) else h
  }

  /** A timer from the fifth on found a parent. */
  predicate GaveUp(fired: seq<bool>) {
    exists k :: 4 <= k < |fired| && fired[k]
  }

  /** A done message came, or a timer gave up. */
  predicate Ended(h: History) {
    h.answered || GaveUp(h.fired)
  }

  /** The fifth timer, if it fired, found a parent. */
  predicate FifthFinds(fired: seq<bool>) {
    |fired| >= 5 ==> fired[4]
  }

  /** The time of a timer after n attempts, from the first one. */
  function Due(n: nat): nat {
    if n == 0 then 0 else Due(n - 1) + SYNC_MESSAGE_TIMEOUT * n
  }

  predicate Waiting(s: Sender) {
    s.registered && s.resolved == [] && |s.sent| == s.attempts
  }

  predicate Resolved(s: Sender) {
    !s.registered && s.timer.None? && |s.resolved| == 1
  }

  /** A message waits with a timer, or it is resolved and nothing more happens. */
  ghost predicate SenderInv(t0: nat, now: nat, s: Sender) {
    && t0 <= now && |s.sent| >= 1
    && (forall i :: 0 <= i < |s.sent| ==> t0 <= s.sent[i] <= now)
    && if s.timer.Some? then Waiting(s) && now <= s.timer.value
       else Resolved(s) && s.resolved[0] <= now && forall i :: 0 <= i < |s.sent| ==> s.sent[i] <= s.resolved[0]
  }

  /** The message was sent once and again by every timer that did not give up; the timers are due at fixed
      times; and it is resolved exactly when it was answered or given up. */
  ghost predicate HistoryInv(t0: nat, s: Sender, h: History) {
    && |s.sent| == |h.fired| + (if GaveUp(h.fired) then 0 else 1)
    && (forall k :: 4 <= k < |h.fired| - 1 ==> !h.fired[k])
    && (s.resolved != [] <==> Ended(h))
    && (s.timer.Some? ==> s.timer.value == t0 + Due(|s.sent|))
    && (s.resolved != [] ==> s.resolved[0] <= t0 + Due(|s.sent|))
  }

  lemma {:induction false} EveryRun(t0: nat, parent: bool, events: seq<Event>)
    ensures var (now, s) := Run(t0, parent, events);
            SenderInv(t0, now, s)
  {
    if events != [] {
      EveryRun(t0, parent, events[..|events| - 1]);
    }
  }

  lemma {:induction false} DueGrows(m: nat, n: nat)
    requires m <= n
    ensures Due(m) <= Due(n)
  {
    if m < n { DueGrows(m, n - 1); }
  }

  lemma DueValues()
    ensures Due(1) == 500 && Due(5) == 7500
  {
    assert Due(2) == 1500 && Due(3) == 3000 && Due(4) == 5000;
  }

  lemma GaveUpNext(fired: seq<bool>, parent: bool)
    ensures GaveUp(fired + [parent]) <==> GaveUp(fired) || (|fired| >= 4 && parent)
  {
    var next := fired + [parent];
    if k :| 4 <= k < |fired| && fired[k] { assert next[k]; }
    if |fired| >= 4 && parent { assert next[|fired|]; }
  }

  lemma HistoryStep(t0: nat, now: nat, s: Sender, e: Event, h: History)
    requires SenderInv(t0, now, s) && HistoryInv(t0, s, h) && Enabled(s, now, e)
    ensures HistoryInv(t0, Happen(s, now, e), Record(h, e))
  {
    if e.Timeout? { GaveUpNext(h.fired, e.parent); }
  }

  lemma HistoryStarts(t0: nat, parent: bool)
    ensures HistoryInv(t0, Start(t0, parent), NOTHING)
  {
    DueValues();
  }

  lemma {:induction false} EveryHistory(t0: nat, parent: bool, events: seq<Event>)
    ensures HistoryInv(t0, Run(t0, parent, events).1, Past(t0, parent, events))
  {
    if events == [] {
      HistoryStarts(t0, parent);
    } else {
      var before, e := events[..|events| - 1], events[|events| - 1];
      EveryRun(t0, parent, before);
      EveryHistory(t0, parent, before);
      var (now, s) := Run(t0, parent, before);
      if Enabled(s, now, e) { HistoryStep(t0, now, s, e, Past(t0, parent, before)); }
    }
  }

  /** What the history says of a message, at any time. */
  lemma HistoryMeans(t0: nat, now: nat, s: Sender, h: History)
    requires SenderInv(t0, now, s) && HistoryInv(t0, s, h)
    ensures |s.sent| <= 5 <==> FifthFinds(h.fired)
    ensures FifthFinds(h.fired) && s.resolved != [] ==> s.resolved[0] <= t0 + 7500
    ensures FifthFinds(h.fired) && s.resolved == [] ==> s.timer.Some? && s.timer.value <= t0 + 7500
  {
    DueValues();
    if |s.sent| <= 5 { DueGrows(|s.sent|, 5); }
    if k :| 4 <= k < |h.fired| && h.fired[k] {
      assert k == |h.fired| - 1;
    }
    if |h.fired| == 5 && h.fired[4] { assert GaveUp(h.fired); }
  }

  /** In every run a message is sent once and again by every timer that does not give up, at most five
      times exactly when the fifth timer, if it fires, finds a parent, and it is resolved exactly when a
      done message came or a timer from the fifth on found a parent. */
  lemma SendsExactly(t0: nat, parent: bool, events: seq<Event>)
    ensures var (s, h) := (Run(t0, parent, events).1, Past(t0, parent, events));
            && |s.sent| == |h.fired| + (if GaveUp(h.fired) then 0 else 1)
            && (|s.sent| <= 5 <==> FifthFinds(h.fired))
            && (s.resolved != [] <==> Ended(h))
  {
    EveryRun(t0, parent, events);
    EveryHistory(t0, parent, events);
    HistoryMeans(t0, Run(t0, parent, events).0, Run(t0, parent, events).1, Past(t0, parent, events));
  }

  /** As long as the fifth timer does not find the window removed, a message is sent at most five times; its
      promise resolves at most once, within 7500 ms, and nothing is sent afterwards; once no timer is due by
      then it has resolved. */
  lemma BoundedDelivery(t0: nat, parent: bool, events: seq<Event>)
    requires FifthFinds(Past(t0, parent, events).fired)
    ensures var (now, s) := Run(t0, parent, events);
            && 1 <= |s.sent| <= 5
            && |s.resolved| <= 1
            && (s.resolved != [] ==> s.resolved[0] <= t0 + 7500 && forall i :: 0 <= i < |s.sent| ==> s.sent[i] <= s.resolved[0])
            && (s.resolved == [] ==> s.timer.Some? && s.timer.value <= t0 + 7500)
  {
    EveryRun(t0, parent, events);
    EveryHistory(t0, parent, events);
    HistoryMeans(t0, Run(t0, parent, events).0, Run(t0, parent, events).1, Past(t0, parent, events));
  }

  /** After it resolved, no event changes a message: done messages that come late or again do
      nothing, and nothing is sent. */
  lemma {:induction false} ResolvedStays(t0: nat, parent: bool, events: seq<Event>, more: seq<Event>)
    requires Run(t0, parent, events).1.resolved != []
    ensures Run(t0, parent, events + more).1 == Run(t0, parent, events).1
    decreases |more|
  {
    if more == [] {
      assert events + more == events;
    } else {
      var init, last := more[..|more| - 1], more[|more| - 1];
      ResolvedStays(t0, parent, events, init);
      assert (events + more)[..|events + more| - 1] == events + init && (events + more)[|events + more| - 1] == last;
      EveryRun(t0, parent, events + init);
    }
  }

  /** The next timeouts that find a parent resolve a message, after any run: five of them at most. */
  lemma EventuallyResolved(t0: nat, parent: bool, events: seq<Event>) returns (more: seq<Event>)
    ensures |more| <= 5 && forall e :: e in more ==> e == Timeout(true)
    ensures |Run(t0, parent, events + more).1.resolved| == 1
  {
    EveryRun(t0, parent, events);
    if Run(t0, parent, events).1.timer.None? {
      more := [];
      assert events + more == events;
    } else {
      more := ResolveFrom(t0, parent, events, if Run(t0, parent, events).1.attempts < 5 then 5 - Run(t0, parent, events).1.attempts else 0);
    }
  }

  lemma {:induction false} ResolveFrom(t0: nat, parent: bool, events: seq<Event>, left: nat) returns (more: seq<Event>)
    requires Run(t0, parent, events).1.timer.Some? && Run(t0, parent, events).1.attempts + left >= 5
    ensures |more| <= left + 1 && forall e :: e in more ==> e == Timeout(true)
    ensures |Run(t0, parent, events + more).1.resolved| == 1
    decreases left
  {
    EveryRun(t0, parent, events);
    var next := events + [Timeout(true)];
    assert next[..|next| - 1] == events;
    EveryRun(t0, parent, next);
    if Run(t0, parent, next).1.timer.None? {
      more := [Timeout(true)];
    } else {
      var rest := ResolveFrom(t0, parent, next, left - 1);
      more := [Timeout(true)] + rest;
      assert events + more == next + rest;
    }
  }

  function Timeouts(parents: seq<bool>): (events: seq<Event>)
    ensures |events| == |parents|
  {
    seq(|parents|, i requires 0 <= i < |parents| => Timeout(parents[i]))
  }

  lemma {:induction false} PastOfTimeouts(t0: nat, parent: bool, parents: seq<bool>)
    ensures var (s, h) := (Run(t0, parent, Timeouts(parents)).1, Past(t0, parent, Timeouts(parents)));
            !h.answered && h.fired <= parents && (s.resolved == [] ==> h.fired == parents)
  {
    if parents != [] {
      var n := |parents| - 1;
      PastOfTimeouts(t0, parent, parents[..n]);
      assert Timeouts(parents)[..n] == Timeouts(parents[..n]);
      EveryRun(t0, parent, Timeouts(parents[..n]));
      assert parents == parents[..n] + [parents[n]];
    }
  }

  /** Timeouts alone resolve a message exactly when one from the fifth on finds a parent. */
  lemma TimeoutsAlone(t0: nat, parent: bool, parents: seq<bool>)
    ensures Run(t0, parent, Timeouts(parents)).1.resolved != [] <==> GaveUp(parents)
  {
    PastOfTimeouts(t0, parent, parents);
    SendsExactly(t0, parent, Timeouts(parents));
    var h := Past(t0, parent, Timeouts(parents));
    if k :| 4 <= k < |h.fired| && h.fired[k] { assert parents[k]; }
  }

  /** A window that stays removed, with a null parent, is never given up: after n timeouts the message was
      sent n + 1 times and is not resolved. */
  lemma RemovedWindowNeverGivenUp(t0: nat, parent: bool, n: nat)
    ensures var s := Run(t0, parent, seq(n, _ => Timeout(false))).1;
            s.timer.Some? && s.resolved == [] && |s.sent| == n + 1
  {
    var parents := seq(n, _ => false);
    assert Timeouts(parents) == seq(n, _ => Timeout(false));
    TimeoutsAlone(t0, parent, parents);
    PastOfTimeouts(t0, parent, parents);
    SendsExactly(t0, parent, Timeouts(parents));
    EveryRun(t0, parent, Timeouts(parents));
  }

  // ---------------------------------------------------------------- all messages of one call

  /** The messages of a call of syncBetweenWindows, numbered from the identifier `first`; the clock;
      and when the initiating cookies were removed. */
  datatype Group = Group(first: nat, senders: seq<Sender>, now: nat, removed: Option<nat>)

  datatype GroupEvent = TimeoutOf(i: nat, parent: bool) | DoneOf(id: nat, now: nat)

  predicate AllResolved(senders: seq<Sender>) {
    forall s :: s in senders ==> s.resolved != []
  }

  /** Promise.all and then _removeSyncCookie, once. */
  function Settle(g: Group): Group {
    if g.removed.None? && AllResolved(g.senders) then g.(removed := Some(g.now)) else g
  }

  function StartAll(first: nat, t0: nat, parents: seq<bool>): Group {
    Settle(Group(first, seq(|parents|, i requires 0 <= i < |parents| => Start(t0, parents[i])), t0, None))
  }

  /** No timer is due before the time. */
  predicate NoneDueBefore(senders: seq<Sender>, t: nat) {
    forall s :: s in senders && s.timer.Some? ==> t <= s.timer.value
  }

  predicate GroupEnabled(g: Group, e: GroupEvent) {
    match e
    case TimeoutOf(i, _) => i < |g.senders| && g.senders[i].timer.Some? && NoneDueBefore(g.senders, g.senders[i].timer.value)
    case DoneOf(_, t) => g.now <= t && NoneDueBefore(g.senders, t)
  }

  /** The event e of the i-th message. */
  function OneEvent(g: Group, i: nat, e: Event): Group
    requires i < |g.senders|
  {
    Settle(g.(senders := g.senders[i := Happen(g.senders[i], g.now, e)], now := TimeOf(g.senders[i], g.now, e)))
  }

  /** A done message reaches the resolver that is registered under its identifier, if any. */
  function GroupHappen(g: Group, e: GroupEvent): Group
    requires GroupEnabled(g, e)
  {
    match e
    case TimeoutOf(i, parent) => OneEvent(g, i, Timeout(parent))
    case DoneOf(id, t) => if g.first <= id < g.first + |g.senders| then OneEvent(g, id - g.first, Done(t)) else g.(now := t)
  }

  function RunAll(first: nat, t0: nat, parents: seq<bool>, events: seq<GroupEvent>): Group {
    if events == [] then StartAll(first, t0, parents) else
    var g := RunAll(first, t0, parents, events[..|events| - 1]);
    if GroupEnabled(g, events[|events| - 1]) then GroupHappen(g, events[|events| - 1]) else g
  }

  ghost predicate GroupInv(t0: nat, g: Group) {
    && (forall i :: 0 <= i < |g.senders| ==> SenderInv(t0, g.now, g.senders[i]))
    && (g.removed.Some? <==> AllResolved(g.senders))
    && (g.removed.Some? ==> g.removed.value <= g.now && forall s :: s in g.senders ==> s.resolved[0] <= g.removed.value)
  }

  lemma SettleInv(t0: nat, g: Group)
    requires forall i :: 0 <= i < |g.senders| ==> SenderInv(t0, g.now, g.senders[i])
    requires g.removed.Some? ==> AllResolved(g.senders) && g.removed.value <= g.now && forall s :: s in g.senders ==> s.resolved[0] <= g.removed.value
    ensures GroupInv(t0, Settle(g))
  {
    forall s | s in g.senders ensures s.resolved != [] ==> s.resolved[0] <= g.now {
      var i :| 0 <= i < |g.senders| && g.senders[i] == s;
      assert SenderInv(t0, g.now, g.senders[i]);
    }
  }

  /** The clock can advance while no timer of the message is due. */
  lemma Later(t0: nat, now: nat, s: Sender, t: nat)
    requires SenderInv(t0, now, s) && now <= t && (s.timer.Some? ==> t <= s.timer.value)
    ensures SenderInv(t0, t, s)
  {
  }

  lemma AllLater(t0: nat, g: Group, t: nat)
    requires GroupInv(t0, g) && g.now <= t && NoneDueBefore(g.senders, t)
    ensures GroupInv(t0, g.(now := t))
  {
    forall j | 0 <= j < |g.senders| ensures SenderInv(t0, t, g.senders[j]) {
      assert g.senders[j] in g.senders && SenderInv(t0, g.now, g.senders[j]);
      Later(t0, g.now, g.senders[j], t);
    }
  }

  lemma EventInv(t0: nat, now: nat, s: Sender, e: Event)
    requires SenderInv(t0, now, s) && Enabled(s, now, e)
    ensures SenderInv(t0, TimeOf(s, now, e), Happen(s, now, e))
    ensures s.resolved != [] ==> Happen(s, now, e) == s
  {
  }

  /** One message has an event and the clock advances for the others. */
  lemma OneEventInv(t0: nat, g: Group, i: nat, e: Event)
    requires GroupInv(t0, g) && i < |g.senders| && Enabled(g.senders[i], g.now, e)
    requires NoneDueBefore(g.senders, TimeOf(g.senders[i], g.now, e))
    ensures GroupInv(t0, OneEvent(g, i, e))
  {
    var t, next := TimeOf(g.senders[i], g.now, e), Happen(g.senders[i], g.now, e);
    assert SenderInv(t0, g.now, g.senders[i]);
    EventInv(t0, g.now, g.senders[i], e);
    assert g.now <= t;
    var after := g.senders[i := next];
    forall j | 0 <= j < |after| ensures SenderInv(t0, t, after[j]) {
      if j != i {
        assert g.senders[j] in g.senders && SenderInv(t0, g.now, g.senders[j]);
        Later(t0, g.now, g.senders[j], t);
      }
    }
    if g.removed.Some? {
      assert g.senders[i] in g.senders;
      assert after == g.senders;
    }
    SettleInv(t0, g.(senders := after, now := t));
  }

  lemma GroupStepInv(t0: nat, g: Group, e: GroupEvent)
    requires GroupInv(t0, g) && GroupEnabled(g, e)
    ensures GroupInv(t0, GroupHappen(g, e))
  {
    match e
    case TimeoutOf(i, parent) => OneEventInv(t0, g, i, Timeout(parent));
    case DoneOf(id, t) => DoneInv(t0, g, id, t);
  }

  lemma DoneInv(t0: nat, g: Group, id: nat, t: nat)
    requires GroupInv(t0, g) && GroupEnabled(g, DoneOf(id, t))
    ensures GroupInv(t0, GroupHappen(g, DoneOf(id, t)))
  {
    if g.first <= id < g.first + |g.senders| {
      assert g.senders[id - g.first] in g.senders;
      OneEventInv(t0, g, id - g.first, Done(t));
    } else {
      AllLater(t0, g, t);
    }
  }

  /** The initiating cookies are removed once, exactly when the promise of every message is
      resolved, and not before any of them. */
  lemma {:induction false} RemovedAfterAll(first: nat, t0: nat, parents: seq<bool>, events: seq<GroupEvent>)
    ensures GroupInv(t0, RunAll(first, t0, parents, events))
    ensures |RunAll(first, t0, parents, events).senders| == |parents|
  {
    if events == [] {
      var senders := seq(|parents|, i requires 0 <= i < |parents| => Start(t0, parents[i]));
      SettleInv(t0, Group(first, senders, t0, None));
    } else {
      var before := events[..|events| - 1];
      RemovedAfterAll(first, t0, parents, before);
      var g := RunAll(first, t0, parents, before);
      if GroupEnabled(g, events[|events| - 1]) { GroupStepInv(t0, g, events[|events| - 1]); }
    }
  }

  /** What the event is for the i-th message. */
  function EventFor(first: int, e: GroupEvent, i: nat): Option<Event> {
    match e
    case TimeoutOf(k, parent) => if k == i then Some(Timeout(parent)) else None
    case DoneOf(id, t) => if id == first + i then Some(Done(t)) else None
  }

  function PastOf(first: nat, t0: nat, parents: seq<bool>, events: seq<GroupEvent>, i: nat): History {
    if events == [] then NOTHING else
    var before, e := events[..|events| - 1], events[|events| - 1];
    var h, own := PastOf(first, t0, parents, before, i), EventFor(first, e, i);
    if GroupEnabled(RunAll(first, t0, parents, before), e) && own.Some? then Record(h, own.value) else h
  }

  /** The fifth timer of every message, if it fired, found a parent. */
  predicate AllFifthFind(first: nat, t0: nat, parents: seq<bool>, events: seq<GroupEvent>) {
    forall i :: 0 <= i < |parents| ==> FifthFinds(PastOf(first, t0, parents, events, i).fired)
  }

  lemma GroupHistoryStep(t0: nat, g: Group, e: GroupEvent, i: nat, h: History)
    requires GroupInv(t0, g) && GroupEnabled(g, e) && i < |g.senders| && HistoryInv(t0, g.senders[i], h)
    ensures var own := EventFor(g.first, e, i);
            && GroupHappen(g, e).first == g.first && |GroupHappen(g, e).senders| == |g.senders|
            && HistoryInv(t0, GroupHappen(g, e).senders[i], if own.Some? then Record(h, own.value) else h)
  {
    assert g.senders[i] in g.senders && SenderInv(t0, g.now, g.senders[i]);
    var own := EventFor(g.first, e, i);
    if own.Some? { HistoryStep(t0, g.now, g.senders[i], own.value, h); }
  }

  lemma {:induction false} GroupHistory(first: nat, t0: nat, parents: seq<bool>, events: seq<GroupEvent>, i: nat)
    requires i < |parents|
    ensures var g := RunAll(first, t0, parents, events);
            g.first == first && |g.senders| == |parents| && HistoryInv(t0, g.senders[i], PastOf(first, t0, parents, events, i))
  {
    if events == [] {
      HistoryStarts(t0, parents[i]);
    } else {
      var before, e := events[..|events| - 1], events[|events| - 1];
      RemovedAfterAll(first, t0, parents, before);
      GroupHistory(first, t0, parents, before, i);
      var g := RunAll(first, t0, parents, before);
      if GroupEnabled(g, e) { GroupHistoryStep(t0, g, e, i, PastOf(first, t0, parents, before, i)); }
    }
  }

  /** What the history of a message says of it in a run of all messages. */
  lemma MessageHistory(first: nat, t0: nat, parents: seq<bool>, events: seq<GroupEvent>, i: nat)
    requires i < |parents|
    ensures var (g, h) := (RunAll(first, t0, parents, events), PastOf(first, t0, parents, events, i));
            && |g.senders| == |parents| && SenderInv(t0, g.now, g.senders[i])
            && (|g.senders[i].sent| <= 5 <==> FifthFinds(h.fired))
            && (g.senders[i].resolved != [] <==> Ended(h))
            && (FifthFinds(h.fired) && g.senders[i].resolved != [] ==> g.senders[i].resolved[0] <= t0 + 7500)
            && (FifthFinds(h.fired) && g.senders[i].resolved == [] ==> g.senders[i].timer.Some? && g.senders[i].timer.value <= t0 + 7500)
  {
    RemovedAfterAll(first, t0, parents, events);
    GroupHistory(first, t0, parents, events, i);
    var g := RunAll(first, t0, parents, events);
    HistoryMeans(t0, g.now, g.senders[i], PastOf(first, t0, parents, events, i));
  }

  /** The cookies are removed exactly when every message was answered or given up. */
  lemma RemovedExactly(first: nat, t0: nat, parents: seq<bool>, events: seq<GroupEvent>)
    ensures RunAll(first, t0, parents, events).removed.Some?
       <==> forall i :: 0 <= i < |parents| ==> Ended(PastOf(first, t0, parents, events, i))
  {
    RemovedAfterAll(first, t0, parents, events);
    var g := RunAll(first, t0, parents, events);
    forall i | 0 <= i < |parents| ensures g.senders[i].resolved != [] <==> Ended(PastOf(first, t0, parents, events, i)) {
      MessageHistory(first, t0, parents, events, i);
    }
    if g.removed.Some? {
      forall i | 0 <= i < |parents| ensures Ended(PastOf(first, t0, parents, events, i)) { assert g.senders[i] in g.senders; }
    } else {
      var s :| s in g.senders && s.resolved == [];
      var i :| 0 <= i < |g.senders| && g.senders[i] == s;
      assert !Ended(PastOf(first, t0, parents, events, i));
    }
  }

  /** What the bound on each message says of all of them. */
  lemma BoundedMessages(first: nat, t0: nat, parents: seq<bool>, events: seq<GroupEvent>)
    requires AllFifthFind(first, t0, parents, events)
    ensures var g := RunAll(first, t0, parents, events);
            && (g.removed.None? ==> exists s :: s in g.senders && s.timer.Some? && s.timer.value <= t0 + 7500)
            && (g.removed.Some? ==> forall s :: s in g.senders ==> 1 <= |s.sent| <= 5 && |s.resolved| == 1 && s.resolved[0] <= t0 + 7500)
  {
    RemovedAfterAll(first, t0, parents, events);
    var g := RunAll(first, t0, parents, events);
    forall s | s in g.senders ensures 1 <= |s.sent| <= 5 && (s.timer.Some? ==> s.timer.value <= t0 + 7500)
                                      && (s.timer.None? ==> |s.resolved| == 1 && s.resolved[0] <= t0 + 7500)
                                      && (s.timer.Some? ==> s.resolved == [])
    {
      var i :| 0 <= i < |g.senders| && g.senders[i] == s;
      MessageHistory(first, t0, parents, events, i);
    }
    if g.removed.None? {
      var s :| s in g.senders && s.resolved == [];
      assert s.timer.Some?;
    }
  }

  /** An event cannot happen after a timer that is due. */
  lemma EventBeforeDue(g: Group, e: GroupEvent, s: Sender)
    requires GroupEnabled(g, e) && s in g.senders && s.timer.Some?
    ensures GroupHappen(g, e).now <= s.timer.value
    ensures GroupHappen(g, e).removed == g.removed || GroupHappen(g, e).removed == Some(GroupHappen(g, e).now)
  {
  }

  lemma FifthFoundBefore(first: nat, t0: nat, parents: seq<bool>, events: seq<GroupEvent>)
    requires events != [] && AllFifthFind(first, t0, parents, events)
    ensures AllFifthFind(first, t0, parents, events[..|events| - 1])
  {
    var before := events[..|events| - 1];
    forall i | 0 <= i < |parents| ensures FifthFinds(PastOf(first, t0, parents, before, i).fired) {
      assert FifthFinds(PastOf(first, t0, parents, events, i).fired);
      assert PastOf(first, t0, parents, before, i).fired <= PastOf(first, t0, parents, events, i).fired;
    }
  }

  /** As long as no fifth timer finds its window removed, the cookies are removed within 7500 ms: as long as
      they are not, a timer is due by then, and when they are, that was in time. */
  lemma {:induction false} RemovedInTime(first: nat, t0: nat, parents: seq<bool>, events: seq<GroupEvent>)
    requires AllFifthFind(first, t0, parents, events)
    ensures var g := RunAll(first, t0, parents, events);
            && (g.removed.Some? ==> g.removed.value <= t0 + 7500)
            && (g.removed.None? ==> exists s :: s in g.senders && s.timer.Some? && s.timer.value <= t0 + 7500)
            && (g.removed.Some? ==> forall s :: s in g.senders ==> 1 <= |s.sent| <= 5 && |s.resolved| == 1 && s.resolved[0] <= t0 + 7500)
  {
    BoundedMessages(first, t0, parents, events);
    if events != [] {
      var before, e := events[..|events| - 1], events[|events| - 1];
      FifthFoundBefore(first, t0, parents, events);
      RemovedInTime(first, t0, parents, before);
      var g := RunAll(first, t0, parents, before);
      if GroupEnabled(g, e) {
        if g.removed.None? {
          var s :| s in g.senders && s.timer.Some? && s.timer.value <= t0 + 7500;
          EventBeforeDue(g, e, s);
        } else {
          RemovedOnce(g, e);
        }
      }
    }
  }

  lemma RemovedOnce(g: Group, e: GroupEvent)
    requires GroupEnabled(g, e) && g.removed.Some?
    ensures GroupHappen(g, e).removed == g.removed
  {
  }
}
