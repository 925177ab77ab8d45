/** src/client/sandbox/event/active-window-tracker.ts: the top window and its iframes agree on the
    active window by asynchronous messages. */
module ActiveWindow {
  import opened Prelude

  /** Window 0 is the top window; the others are its iframes. */
  type Window = nat

  const TOP: Window := 0

  datatype Message =
    | Activated(source: Window)    // to the top window
    | Deactivated(target: Window)  // to an iframe

  /** The fields of one tracker; `recorded` is _activeWindow. */
  datatype Tracker = Tracker(isIframe: bool, isActive: bool, recorded: Option<Window>)

  /** What a tracker does in one call: its new fields and the messages it sends. */
  datatype Effect = Effect(tracker: Tracker, sent: multiset<Message>)

  function Attached(w: Window): Tracker {
    Tracker(w != TOP, w == TOP, if w == TOP then Some(TOP) else None)
  }

  function NotifyPrevious(recorded: Option<Window>): multiset<Message> {
    if recorded.Some? && recorded.value != TOP then multiset{Deactivated(recorded.value)} else multiset{}
  }

  function MakeActive(t: Tracker, self: Window): Effect {
    if t.isIframe then Effect(t.(isActive := true), multiset{Activated(self)})
    else Effect(t.(isActive := true, recorded := Some(self)), NotifyPrevious(t.recorded))
  }

  function Receive(t: Tracker, m: Message): Effect {
    match m
    case Activated(source) => Effect(t.(isActive := false, recorded := Some(source)), NotifyPrevious(t.recorded))
    case Deactivated(_) => Effect(t.(isActive := false), multiset{})
  }

  /** The tracker object of one window. */
  class ActiveWindowTracker {
    const window: Window
    const isIframeWindow: bool
    var activeWindow: Option<Window>
    var isActive: bool
    /** Messages handed to the message sandbox. */
    var outbox: multiset<Message>

    function Fields(): Tracker
      reads this
    {
      Tracker(isIframeWindow, isActive, activeWindow)
    }

    constructor (window: Window)
      ensures this.window == window && Fields() == Attached(window) && outbox == multiset{}
    {
      this.window := window;
      isIframeWindow := window != TOP;
      activeWindow := if window == TOP then Some(TOP) else None;
      isActive := window == TOP;
      outbox := multiset{};
    }

    method NotifyPrevActiveWindow()
      modifies this`outbox
      ensures outbox == old(outbox) + NotifyPrevious(activeWindow)
    {
      if activeWindow.Some? && activeWindow.value != TOP {
        outbox := outbox + multiset{Deactivated(activeWindow.value)};
      }
    }

    method MakeCurrentWindowActive()
      requires !isIframeWindow ==> window == TOP
      modifies this
      ensures Fields() == MakeActive(old(Fields()), window).tracker
      ensures outbox == old(outbox) + MakeActive(old(Fields()), window).sent
    {
      isActive := true;
      if !isIframeWindow {
        NotifyPrevActiveWindow();
        activeWindow := Some(window);
      } else {
        outbox := outbox + multiset{Activated(window)};
      }
    }

    method OnServiceMessage(m: Message)
      modifies this
      ensures Fields() == Receive(old(Fields()), m).tracker
      ensures outbox == old(outbox) + Receive(old(Fields()), m).sent
    {
      if m.Activated? {
        NotifyPrevActiveWindow();
        isActive := false;
        activeWindow := Some(m.source);
      } else {
        isActive := false;
      }
    }
  }

  // ---------------------------------------------------------------- the protocol

  /** All windows, and the messages in flight, which may arrive in any order. */
  datatype System = System(trackers: seq<Tracker>, inFlight: multiset<Message>)

  ghost predicate Init(s: System) {
    && |s.trackers| > 0 && s.inFlight == multiset{}
    && forall w :: 0 <= w < |s.trackers| ==> s.trackers[w] == Attached(w)
  }

  datatype Step = Activate(window: Window) | Deliver(message: Message)

  function Recipient(m: Message): Window {
    match m
    case Activated(_) => TOP
    case Deactivated(w) => w
  }

  /** A window activates itself only when it is inactive (the guard of its caller, focus-blur). */
  predicate Enabled(s: System, step: Step) {
    match step
    case Activate(w) => w < |s.trackers| && !s.trackers[w].isActive
    case Deliver(m) => m in s.inFlight && Recipient(m) < |s.trackers|
  }

  function Next(s: System, step: Step): System
    requires match step case Activate(w) => w < |s.trackers| case Deliver(m) => m in s.inFlight && Recipient(m) < |s.trackers|
  {
    match step
    case Activate(w) =>
      var e := MakeActive(s.trackers[w], w);
      System(s.trackers[w := e.tracker], s.inFlight + e.sent)
    case Deliver(m) =>
      var e := Receive(s.trackers[Recipient(m)], m);
      System(s.trackers[Recipient(m) := e.tracker], s.inFlight - multiset{m} + e.sent)
  }

  predicate Recorded(s: System, w: Window)
    requires |s.trackers| > 0
  {
    s.trackers[TOP].recorded == Some(w)
  }

  /** An iframe holds a token for each activation of it in flight, for being recorded by the top
      window, and for each deactivation of it in flight. */
  function Tokens(s: System, w: Window): nat
    requires |s.trackers| > 0
  {
    s.inFlight[Activated(w)] + (if Recorded(s, w) then 1 else 0) + s.inFlight[Deactivated(w)]
  }

  ghost predicate Inv(s: System) {
    && |s.trackers| > 0
    && (forall w :: 0 <= w < |s.trackers| ==> s.trackers[w].isIframe == (w != TOP))
    && s.trackers[TOP].recorded.Some? && s.trackers[TOP].recorded.value < |s.trackers|
    && (s.trackers[TOP].isActive <==> Recorded(s, TOP))
    && (forall w :: 0 < w < |s.trackers| ==> Tokens(s, w) == if s.trackers[w].isActive then 1 else 0)
    && (forall m :: m in s.inFlight ==> match m case Activated(w) => 0 < w < |s.trackers| case Deactivated(w) => 0 < w < |s.trackers|)
  }

  lemma InitInv(s: System)
    requires Init(s)
    ensures Inv(s)
  {
  }

  lemma StepInv(s: System, step: Step)
    requires Inv(s) && Enabled(s, step)
    ensures Inv(Next(s, step))
  {
    var t := Next(s, step);
    var previous := s.trackers[TOP].recorded.value;
    forall w | 0 < w < |t.trackers| ensures Tokens(t, w) == if t.trackers[w].isActive then 1 else 0 {
      assert Tokens(s, w) == if s.trackers[w].isActive then 1 else 0;
      if previous != TOP { assert Tokens(s, previous) == if s.trackers[previous].isActive then 1 else 0; }
    }
  }

  /** Activating an iframe that is already active gives it a second token: the invariant survives
      an activation exactly when the window is the top window or is inactive. */
  lemma ActivationGuard(s: System, w: Window)
    requires Inv(s) && w < |s.trackers|
    ensures Inv(Next(s, Activate(w))) <==> w == TOP || !s.trackers[w].isActive
  {
    var t := Next(s, Activate(w));
    if !s.trackers[w].isActive {
      StepInv(s, Activate(w));
    } else if w != TOP {
      assert Tokens(t, w) == Tokens(s, w) + 1;
      assert !Inv(t);
    } else {
      assert t.inFlight == s.inFlight;
      assert t == s;
    }
  }

  // ---------------------------------------------------------------- runs

  function Run(s: System, steps: seq<Step>): Option<System>
    decreases |steps|
  {
    if steps == [] then Some(s)
    else if Enabled(s, steps[0]) then Run(Next(s, steps[0]), steps[1..])
    else None
  }

  lemma {:induction false} RunInv(s: System, steps: seq<Step>)
    requires Inv(s) && Run(s, steps).Some?
    ensures Inv(Run(s, steps).value) && |Run(s, steps).value.trackers| == |s.trackers|
    decreases |steps|
  {
    if steps != [] {
      StepInv(s, steps[0]);
      RunInv(Next(s, steps[0]), steps[1..]);
    }
  }

  /** In every reachable state each iframe is active exactly when it holds one token, and then only
      one; the top window is active exactly when it records itself; and when no message is in
      flight exactly one window is active, the recorded one. */
  lemma ReachableStates(s: System, steps: seq<Step>)
    requires Init(s) && Run(s, steps).Some?
    ensures var t := Run(s, steps).value;
            && |t.trackers| == |s.trackers|
            && (forall w :: 0 < w < |t.trackers| ==> Tokens(t, w) == if t.trackers[w].isActive then 1 else 0)
            && (t.trackers[TOP].isActive <==> Recorded(t, TOP))
            && (t.inFlight == multiset{} ==> exists w :: OnlyActive(t, w) && Recorded(t, w))
  {
    InitInv(s);
    RunInv(s, steps);
    var t := Run(s, steps).value;
    if t.inFlight == multiset{} {
      QuietState(t);
      assert Recorded(t, t.trackers[TOP].recorded.value);
    }
  }

  ghost predicate OnlyActive(s: System, w: Window) {
    w < |s.trackers| && forall v :: 0 <= v < |s.trackers| ==> (s.trackers[v].isActive <==> v == w)
  }

  lemma QuietState(t: System)
    requires Inv(t) && t.inFlight == multiset{}
    ensures OnlyActive(t, t.trackers[TOP].recorded.value)
  {
    var w := t.trackers[TOP].recorded.value;
    forall v | 0 <= v < |t.trackers| ensures t.trackers[v].isActive <==> v == w {
      if v != TOP { assert Tokens(t, v) == if t.trackers[v].isActive then 1 else 0; }
    }
  }

  // ---------------------------------------------------------------- deliveries settle

  /** How many activations and deactivations are in flight to and from the iframes below n. */
  function Pending(inFlight: multiset<Message>, n: nat): nat {
    if n == 0 then 0 else
    2 * inFlight[Activated(n - 1)] + inFlight[Deactivated(n - 1)] + Pending(inFlight, n - 1)
  }

  function Work(m: Message, n: nat): nat {
    match m
    case Activated(w) => if w < n then 2 else 0
    case Deactivated(w) => if w < n then 1 else 0
  }

  lemma {:induction false} PendingChange(a: multiset<Message>, b: multiset<Message>, n: nat, m: Message, weight: int)
    requires forall x :: x != m ==> a[x] == b[x]
    requires b[m] as int == a[m] as int + weight
    ensures Pending(b, n) == Pending(a, n) + weight * Work(m, n)
    decreases n
  {
    if n > 0 {
      PendingChange(a, b, n - 1, m, weight);
    }
  }

  /** Every delivery uses up pending work, whatever the order. */
  lemma DeliveryProgress(s: System, m: Message)
    requires Inv(s) && m in s.inFlight
    ensures Enabled(s, Deliver(m))
    ensures Pending(Next(s, Deliver(m)).inFlight, |s.trackers|) < Pending(s.inFlight, |s.trackers|)
  {
    var n, middle := |s.trackers|, s.inFlight - multiset{m};
    PendingChange(s.inFlight, middle, n, m, -1);
    var sent := Receive(s.trackers[Recipient(m)], m).sent;
    if sent != multiset{} {
      var previous := s.trackers[TOP].recorded.value;
      PendingChange(middle, middle + sent, n, Deactivated(previous), 1);
    } else {
      assert middle + sent == middle;
    }
  }

  /** From every reachable state, any order of deliveries ends after at most Pending steps, and it
      ends with exactly one active window. */
  lemma {:induction false} DeliveriesSettle(s: System, deliveries: seq<Step>)
    requires Inv(s) && Run(s, deliveries).Some?
    requires forall i :: 0 <= i < |deliveries| ==> deliveries[i].Deliver?
    ensures |deliveries| + Pending(Run(s, deliveries).value.inFlight, |s.trackers|) <= Pending(s.inFlight, |s.trackers|)
    ensures var t := Run(s, deliveries).value;
            (forall m :: m in t.inFlight ==> !Enabled(t, Deliver(m))) ==>
              exists w :: OnlyActive(t, w)
    decreases |deliveries|
  {
    if deliveries == [] {
      if forall m :: m in s.inFlight ==> !Enabled(s, Deliver(m)) {
        forall m ensures s.inFlight[m] == 0 {
          if m in s.inFlight { DeliveryProgress(s, m); }
        }
        assert s.inFlight == multiset{};
        QuietState(s);
      }
    } else {
      DeliveryProgress(s, deliveries[0].message);
      StepInv(s, deliveries[0]);
      DeliveriesSettle(Next(s, deliveries[0]), deliveries[1..]);
    }
  }

  // ---------------------------------------------------------------- who becomes active

  /** The activation that the top window processed last: its own, or a delivered one of an iframe. */
  function LastActivation(start: Window, steps: seq<Step>): Window
    decreases |steps|
  {
    if steps == [] then start else
    var next := match steps[0]
                case Activate(w) => if w == TOP then TOP else start
                case Deliver(Activated(w)) => w
                case Deliver(Deactivated(_)) => start;
    LastActivation(next, steps[1..])
  }

  lemma {:induction false} LastIsRecorded(s: System, steps: seq<Step>, start: Window)
    requires Inv(s) && Recorded(s, start) && Run(s, steps).Some?
    ensures Inv(Run(s, steps).value) && Recorded(Run(s, steps).value, LastActivation(start, steps))
    decreases |steps|
  {
    if steps != [] {
      StepInv(s, steps[0]);
      LastIsRecorded(Next(s, steps[0]), steps[1..], Next(s, steps[0]).trackers[TOP].recorded.value);
    }
  }

  /** A window that activates itself is active at once, whatever is in flight; and of all the
      activations of a run, in any order of deliveries, the one that the top window processed last
      wins: with nothing in flight, its window is the only active one. */
  lemma LastActivationWins(s: System, steps: seq<Step>)
    requires Init(s) && Run(s, steps).Some?
    ensures var t := Run(s, steps).value;
            && |t.trackers| == |s.trackers| > 0
            && (forall w: Window :: Enabled(t, Activate(w)) ==> Next(t, Activate(w)).trackers[w].isActive)
            && Recorded(t, LastActivation(TOP, steps))
            && (t.inFlight == multiset{} ==> OnlyActive(t, LastActivation(TOP, steps)))
  {
    InitInv(s);
    RunInv(s, steps);
    LastIsRecorded(s, steps, TOP);
    if Run(s, steps).value.inFlight == multiset{} { QuietState(Run(s, steps).value); }
  }

  /** Window w alone is recorded or on its way to be recorded. */
  ghost predicate OnItsWay(s: System, w: Window) {
    && Inv(s) && (Activated(w) in s.inFlight || Recorded(s, w))
    && forall v :: Activated(v) in s.inFlight ==> v == w
  }

  lemma {:induction false} OnItsWayArrives(s: System, w: Window, deliveries: seq<Step>)
    requires OnItsWay(s, w) && Run(s, deliveries).Some?
    requires forall i :: 0 <= i < |deliveries| ==> deliveries[i].Deliver?
    ensures OnItsWay(Run(s, deliveries).value, w)
    decreases |deliveries|
  {
    if deliveries != [] {
      StepInv(s, deliveries[0]);
      OnItsWayArrives(Next(s, deliveries[0]), w, deliveries[1..]);
    }
  }

  /** When the windows are at rest and one of them, the top window or an iframe, is activated, any
      deliveries until none is left make it the only active window. */
  lemma ActivationSettles(s: System, steps: seq<Step>, w: Window, deliveries: seq<Step>)
    requires Init(s) && Run(s, steps).Some? && Run(s, steps).value.inFlight == multiset{}
    requires Enabled(Run(s, steps).value, Activate(w))
    requires forall i :: 0 <= i < |deliveries| ==> deliveries[i].Deliver?
    requires Run(Next(Run(s, steps).value, Activate(w)), deliveries).Some?
    ensures var t := Run(Next(Run(s, steps).value, Activate(w)), deliveries).value;
            (forall m :: m in t.inFlight ==> !Enabled(t, Deliver(m))) ==> OnlyActive(t, w)
  {
    InitInv(s);
    RunInv(s, steps);
    var u := Next(Run(s, steps).value, Activate(w));
    StepInv(Run(s, steps).value, Activate(w));
    OnItsWayArrives(u, w, deliveries);
    var t := Run(u, deliveries).value;
    if forall m :: m in t.inFlight ==> !Enabled(t, Deliver(m)) {
      forall m ensures t.inFlight[m] == 0 {
        if m in t.inFlight { DeliveryProgress(t, m); }
      }
      assert t.inFlight == multiset{};
      QuietState(t);
    }
  }
}
