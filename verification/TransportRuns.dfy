/** Whole runs of the transport: any number of windows call, get their ports, post to one worker,
    and receive replies, in any interleaving. */
module TransportRuns {
  import opened Prelude
  import opened Transport
  import opened TransportProtocol

  /** `up[w]` is the message channel from window w to the worker and `down` holds the replies on
      their way back; `issued`, `received`, `ended` and `fired` record the calls, the arrivals at the
      worker, the XHRs with the events that ended them, and the callbacks. */
  datatype System = System(windows: seq<Window>, up: seq<seq<Item>>, worker: Worker, down: seq<Reply>,
                           issued: seq<Item>, received: seq<Item>, ended: seq<(Xhr, Event)>, fired: seq<Reply>)

  datatype Step =
    | Issue(window: nat, msg: Msg, queued: bool)
    | PortReady(window: nat)
    | Arrive(window: nat)
    | Respond(xhr: nat, event: Event)
    | Deliver(reply: nat)

  function Initial(n: nat): System {
    System(seq(n, _ => NewWindow), seq(n, _ => []), NewWorker, [], [], [], [], [])
  }

  predicate Shaped(s: System) {
    |s.up| == |s.windows|
  }

  /** A step can be taken. An identifier is not given out again while a callback waits under it. */
  predicate Enabled(s: System, step: Step)
    requires Shaped(s)
  {
    match step
    case Issue(w, _, _) => w < |s.windows| && NextId(s.windows[w].lastId) !in s.windows[w].callbacks
    case PortReady(w) => w < |s.windows| && !s.windows[w].started
    case Arrive(w) => w < |s.windows| && s.up[w] != []
    case Respond(i, _) => i < |s.worker.xhrs|
    case Deliver(j) => j < |s.down|
  }

  function NewItem(s: System, w: nat, msg: Msg, queued: bool): Item
    requires w < |s.windows|
  {
    Item(|s.issued|, w, NextId(s.windows[w].lastId), queued, msg)
  }

  function Take(s: System, step: Step): (s': System)
    requires Shaped(s)
    ensures Shaped(s') && |s'.windows| == |s.windows|
  {
    if !Enabled(s, step) then s else
    match step
    case Issue(w, msg, queued) =>
      var item := NewItem(s, w, msg, queued);
      var (win, posted) := Call(s.windows[w], item);
      s.(windows := s.windows[w := win], up := s.up[w := s.up[w] + posted], issued := s.issued + [item])
    case PortReady(w) =>
      var (win, posted) := Start(s.windows[w]);
      s.(windows := s.windows[w := win], up := s.up[w := s.up[w] + posted])
    case Arrive(w) =>
      var item := s.up[w][0];
      s.(up := s.up[w := s.up[w][1..]], worker := Accept(s.worker, item), received := s.received + [item])
    case Respond(i, e) =>
      Responded(s, s.worker.xhrs[i], e, Finish(s.worker, i, e))
    case Deliver(j) =>
      var r := s.down[j];
      var rest := s.(down := Without(s.down, j));
      if r.item.window >= |s.windows| then rest else
      var (win, callback) := OnReply(s.windows[r.item.window], r.item.id);
      rest.(windows := s.windows[r.item.window := win],
            fired := s.fired + if callback.Some? then [Reply(callback.value, r.result)] else [])
  }

  /** The worker handled the event that ended an XHR. */
  function Responded(s: System, x: Xhr, e: Event, worker: Worker): System {
    s.(worker := worker, down := s.down + NewReplies(s.worker, worker), ended := s.ended + [(x, e)])
  }

  /** The replies that the worker posted in a step. */
  function NewReplies(w: Worker, w': Worker): seq<Reply> {
    if |w.replies| <= |w'.replies| then w'.replies[|w.replies|..] else []
  }

  function Execute(n: nat, steps: seq<Step>): (s: System)
    ensures Shaped(s) && |s.windows| == n
  {
    if steps == [] then Initial(n) else Take(Execute(n, steps[..|steps| - 1]), steps[|steps| - 1])
  }

  // ---------------------------------------------------------------- the invariant

  ghost predicate Numbered(s: System) {
    && (forall i :: 0 <= i < |s.issued| ==> s.issued[i].serial == i && s.issued[i].window < |s.windows|)
    && (forall x :: x in s.received ==> x.window < |s.windows|)
  }

  /** The messages of a window reach the worker in the order of the calls; messages wait in the
      window only before its port exists, and the channel carries none before that. */
  ghost predicate WindowOrder(s: System, w: nat)
    requires Shaped(s) && w < |s.windows|
  {
    && Select(OfWindow(w), s.issued) == Select(OfWindow(w), s.received) + s.up[w] + s.windows[w].held
    && (s.windows[w].started ==> s.windows[w].held == [])
    && (!s.windows[w].started ==> s.up[w] == [])
  }

  /** The callbacks of a window are those of its calls that did not fire, and it counts them. */
  ghost predicate CallbackInv(w: nat, win: Window, issued: seq<Item>, done: seq<Item>) {
    && win.active == |win.callbacks|
    && win.active == |Select(OfWindow(w), issued)| - |Select(OfWindow(w), done)|
    && (forall id :: id in win.callbacks ==> var it := win.callbacks[id]; it in issued && it !in done && it.window == w && it.id == id)
    && (forall it :: it in issued && it !in done && it.window == w ==> it.id in win.callbacks && win.callbacks[it.id] == it)
  }

  /** An answered message is either on its way back or its callback fired. */
  ghost predicate DeliveryInv(s: System) {
    && multiset(s.worker.answered) == multiset(AnsweredIn(s.down)) + multiset(AnsweredIn(s.fired))
    && (forall r :: r in s.down ==> r in s.worker.replies)
    && (forall r :: r in s.fired ==> r in s.worker.replies)
  }

  ghost predicate Inv(s: System) {
    && Shaped(s) && Numbered(s)
    && WorkerInv(s.received, s.worker)
    && DeliveryInv(s)
    && (forall w :: 0 <= w < |s.windows| ==> WindowOrder(s, w))
    && (forall w :: 0 <= w < |s.windows| ==> CallbackInv(w, s.windows[w], s.issued, AnsweredIn(s.fired)))
  }

  // ---------------------------------------------------------------- counting

  lemma IssuedOnce(s: System, x: Item)
    requires Numbered(s)
    ensures multiset(s.issued)[x] <= 1
  {
    NumberedOnce(s.issued, x);
  }

  lemma {:induction false} NumberedOnce(items: seq<Item>, x: Item)
    requires forall i :: 0 <= i < |items| ==> items[i].serial == i
    ensures multiset(items)[x] <= 1
  {
    if items != [] {
      var init, last := items[..|items| - 1], items[|items| - 1];
      assert items == init + [last];
      NumberedOnce(init, x);
      if x == last {
        assert x !in init;
      }
    }
  }

  lemma ReceivedWasIssued(s: System, x: Item)
    requires Inv(s)
    ensures multiset(s.received)[x] <= multiset(s.issued)[x]
    ensures x in s.received ==> x in s.issued
  {
    if x.window < |s.windows| {
      assert WindowOrder(s, x.window);
      SelectCount(OfWindow(x.window), s.issued, x);
      SelectCount(OfWindow(x.window), s.received, x);
    }
  }

  lemma PrefixCount<T>(a: seq<T>, b: seq<T>, x: T)
    requires a <= b
    ensures multiset(a)[x] <= multiset(b)[x]
  {
    assert b == a + b[|a|..];
  }

  /** The selector of the messages that share the order of x. */
  function Own(x: Item): (sel: Selector)
    ensures Picks(sel, x)
  {
    if x.queued then OfCommand(x.msg.cmd) else Unqueued
  }

  lemma PostedPrefix(received: seq<Item>, w: Worker, cmd: string)
    requires CommandInv(received, w, cmd)
    ensures Select(OfCommand(cmd), Posted(w.posts, false)) <= Select(OfCommand(cmd), received)
    ensures Select(OfCommand(cmd), w.answered) <= Select(OfCommand(cmd), received)
  {
    var v := ViewOf(received, w, cmd);
    if v.queue != [] { assert v.queue == [v.queue[0]] + v.queue[1..]; }
  }

  /** The first POSTs are of arrived messages, one POST for each. */
  lemma PostedWasReceived(received: seq<Item>, w: Worker, x: Item)
    requires WorkerInv(received, w)
    ensures multiset(Posted(w.posts, false))[x] <= multiset(received)[x]
  {
    var sel := Own(x);
    SelectCount(sel, Posted(w.posts, false), x);
    SelectCount(sel, received, x);
    if x.queued {
      assert CommandInv(received, w, x.msg.cmd);
      PostedPrefix(received, w, x.msg.cmd);
      PrefixCount(Select(sel, Posted(w.posts, false)), Select(sel, received), x);
    }
  }

  lemma AnsweredWasReceived(received: seq<Item>, w: Worker, x: Item)
    requires WorkerInv(received, w)
    ensures multiset(w.answered)[x] <= multiset(received)[x]
  {
    var sel := Own(x);
    SelectCount(sel, w.answered, x);
    SelectCount(sel, received, x);
    if x.queued {
      assert CommandInv(received, w, x.msg.cmd);
      PostedPrefix(received, w, x.msg.cmd);
      PrefixCount(Select(sel, w.answered), Select(sel, received), x);
    }
  }

  // ---------------------------------------------------------------- steps keep the invariant

  lemma InitialInv(n: nat)
    ensures Inv(Initial(n))
  {
    var s := Initial(n);
    forall cmd ensures CommandInv([], NewWorker, cmd) {
      assert ViewOf([], NewWorker, cmd) == View([], [], [], [], []);
    }
    forall w | 0 <= w < n ensures WindowOrder(s, w) && CallbackInv(w, s.windows[w], [], []) {
      assert s.windows[w] == NewWindow && s.up[w] == [];
    }
    assert AnsweredIn([]) == [];
  }

  lemma AnsweredConcat(a: seq<Reply>, b: seq<Reply>)
    ensures AnsweredIn(a + b) == AnsweredIn(a) + AnsweredIn(b)
  {
  }

  lemma AnsweredWithout(replies: seq<Reply>, j: nat)
    requires j < |replies|
    ensures multiset(AnsweredIn(replies)) == multiset(AnsweredIn(Without(replies, j))) + multiset{replies[j].item}
  {
    AnsweredConcat(replies[..j], replies[j + 1..]);
    assert AnsweredIn(replies) == AnsweredIn(replies[..j]) + [replies[j].item] + AnsweredIn(replies[j + 1..]);
  }

  lemma IssueCallback(w: nat, win: Window, issued: seq<Item>, done: seq<Item>, item: Item)
    requires CallbackInv(w, win, issued, done) && item.id !in win.callbacks && item.window == w && item !in done
    ensures CallbackInv(w, Call(win, item).0, issued + [item], done)
  {
    SelectAppend(OfWindow(w), issued, item);
    var win' := Call(win, item).0;
    assert win'.callbacks == win.callbacks[item.id := item];
    assert win'.callbacks.Keys == win.callbacks.Keys + {item.id};
    assert forall it :: it in issued + [item] <==> it in issued || it == item;
  }

  lemma ForeignCallback(w: nat, win: Window, issued: seq<Item>, done: seq<Item>, item: Item)
    requires CallbackInv(w, win, issued, done) && item.window != w
    ensures CallbackInv(w, win, issued + [item], done) && CallbackInv(w, win, issued, done + [item])
  {
    SelectAppend(OfWindow(w), issued, item);
    SelectAppend(OfWindow(w), done, item);
    assert Select(OfWindow(w), issued) + [] == Select(OfWindow(w), issued);
  }

  lemma FiredWasIssued(s: System, x: Item)
    requires Inv(s) && (x in AnsweredIn(s.fired) || x in AnsweredIn(s.down))
    ensures x in s.issued
    ensures multiset(AnsweredIn(s.fired))[x] + multiset(AnsweredIn(s.down))[x] == 1
  {
    assert multiset(s.worker.answered)[x] == multiset(AnsweredIn(s.down))[x] + multiset(AnsweredIn(s.fired))[x];
    AnsweredWasReceived(s.received, s.worker, x);
    ReceivedWasIssued(s, x);
    IssuedOnce(s, x);
    assert multiset(s.issued)[x] > 0;
  }

  lemma IssueInv(s: System, w: nat, msg: Msg, queued: bool)
    requires Inv(s) && Enabled(s, Issue(w, msg, queued))
    ensures Inv(Take(s, Issue(w, msg, queued)))
  {
    var s', item, done := Take(s, Issue(w, msg, queued)), NewItem(s, w, msg, queued), AnsweredIn(s.fired);
    assert item !in s.issued;
    if item in done { FiredWasIssued(s, item); }
    forall v | 0 <= v < |s.windows| ensures WindowOrder(s', v) && CallbackInv(v, s'.windows[v], s'.issued, done) {
      assert WindowOrder(s, v) && CallbackInv(v, s.windows[v], s.issued, done);
      SelectAppend(OfWindow(v), s.issued, item);
      if v == w {
        IssueCallback(w, s.windows[w], s.issued, done, item);
        IssueOrder(s, item);
      } else {
        ForeignCallback(v, s.windows[v], s.issued, done, item);
      }
    }
  }

  lemma IssueOrder(s: System, item: Item)
    requires Shaped(s) && item.window < |s.windows| && WindowOrder(s, item.window)
    ensures var (win, posted) := Call(s.windows[item.window], item);
            Select(OfWindow(item.window), s.issued) + [item]
            == Select(OfWindow(item.window), s.received) + (s.up[item.window] + posted) + win.held
  {
  }

  lemma StartCallback(w: nat, win: Window, issued: seq<Item>, done: seq<Item>)
    requires CallbackInv(w, win, issued, done)
    ensures CallbackInv(w, Start(win).0, issued, done)
  {
  }

  lemma StartOrder(issued: seq<Item>, received: seq<Item>, up: seq<Item>, win: Window)
    requires issued == received + up + win.held && up == []
    ensures issued == received + (up + Start(win).1) + Start(win).0.held
  {
  }

  lemma PortWindows(s: System, w: nat, v: nat)
    requires Inv(s) && w < |s.windows| && !s.windows[w].started && v < |s.windows|
    ensures var s' := Take(s, PortReady(w));
            WindowOrder(s', v) && CallbackInv(v, s'.windows[v], s.issued, AnsweredIn(s.fired))
  {
    assert WindowOrder(s, v) && CallbackInv(v, s.windows[v], s.issued, AnsweredIn(s.fired));
    if v == w {
      StartOrder(Select(OfWindow(w), s.issued), Select(OfWindow(w), s.received), s.up[w], s.windows[w]);
      StartCallback(w, s.windows[w], s.issued, AnsweredIn(s.fired));
    }
  }

  lemma PortInv(s: System, w: nat)
    requires Inv(s) && Enabled(s, PortReady(w))
    ensures Inv(Take(s, PortReady(w)))
  {
    forall v | 0 <= v < |s.windows|
      ensures var s' := Take(s, PortReady(w));
              WindowOrder(s', v) && CallbackInv(v, s'.windows[v], s.issued, AnsweredIn(s.fired))
    {
      PortWindows(s, w, v);
    }
    var s' := Take(s, PortReady(w));
    assert s'.worker == s.worker && s'.down == s.down && s'.issued == s.issued && s'.received == s.received && s'.fired == s.fired;
  }

  lemma HeadIsOwn(s: System, w: nat)
    requires Shaped(s) && w < |s.windows| && WindowOrder(s, w) && s.up[w] != []
    ensures s.up[w][0].window == w
  {
    var item := s.up[w][0];
    SelectCount(OfWindow(w), s.issued, item);
    assert item in Select(OfWindow(w), s.issued);
  }

  /** A message left the channel of window w and the worker took it. */
  function Arrived(s: System, w: nat, worker: Worker): System
    requires Shaped(s) && w < |s.windows| && s.up[w] != []
  {
    s.(up := s.up[w := s.up[w][1..]], worker := worker, received := s.received + [s.up[w][0]])
  }

  lemma ArrivedOrder(s: System, w: nat, worker: Worker, v: nat)
    requires Shaped(s) && w < |s.windows| && s.up[w] != [] && v < |s.windows| && WindowOrder(s, w) && WindowOrder(s, v)
    ensures WindowOrder(Arrived(s, w, worker), v)
  {
    var item := s.up[w][0];
    HeadIsOwn(s, w);
    SelectAppend(OfWindow(v), s.received, item);
    if v == w {
      assert s.up[w] == [item] + s.up[w][1..];
    } else {
      assert Select(OfWindow(v), s.received) + [] == Select(OfWindow(v), s.received);
    }
  }

  lemma ArrivedNumbered(s: System, w: nat, worker: Worker)
    requires Shaped(s) && Numbered(s) && w < |s.windows| && s.up[w] != [] && s.up[w][0].window == w
    ensures Numbered(Arrived(s, w, worker))
  {
  }

  lemma ArrivedInv(s: System, w: nat, worker: Worker)
    requires Inv(s) && w < |s.windows| && s.up[w] != []
    requires WorkerInv(s.received + [s.up[w][0]], worker)
    requires worker.answered == s.worker.answered && worker.replies == s.worker.replies
    ensures Inv(Arrived(s, w, worker))
  {
    assert WindowOrder(s, w);
    HeadIsOwn(s, w);
    ArrivedNumbered(s, w, worker);
    var s' := Arrived(s, w, worker);
    forall v | 0 <= v < |s.windows| ensures WindowOrder(s', v) && CallbackInv(v, s'.windows[v], s'.issued, AnsweredIn(s'.fired)) {
      assert WindowOrder(s, v) && CallbackInv(v, s.windows[v], s.issued, AnsweredIn(s.fired));
      ArrivedOrder(s, w, worker, v);
    }
    assert DeliveryInv(s');
  }

  lemma ArriveInv(s: System, w: nat)
    requires Inv(s) && Enabled(s, Arrive(w))
    ensures Inv(Take(s, Arrive(w)))
  {
    var item := s.up[w][0];
    AcceptInv(s.received, s.worker, item);
    AcceptAnswers(s.worker, item);
    ArrivedInv(s, w, Accept(s.worker, item));
  }

  lemma AcceptAnswers(w: Worker, item: Item)
    ensures Accept(w, item).answered == w.answered
  {
  }

  lemma RespondedDelivery(s: System, x: Xhr, e: Event, worker: Worker)
    requires DeliveryInv(s) && AnsweredIn(s.worker.replies) == s.worker.answered
    requires AnsweredIn(worker.replies) == worker.answered && s.worker.replies <= worker.replies
    ensures DeliveryInv(Responded(s, x, e, worker))
  {
    var news := NewReplies(s.worker, worker);
    assert worker.replies == s.worker.replies + news;
    AnsweredConcat(s.worker.replies, news);
    AnsweredConcat(s.down, news);
    assert multiset(worker.answered) == multiset(s.worker.answered) + multiset(AnsweredIn(news));
  }

  lemma RespondedInv(s: System, x: Xhr, e: Event, worker: Worker)
    requires Inv(s) && WorkerInv(s.received, worker) && s.worker.replies <= worker.replies
    ensures Inv(Responded(s, x, e, worker))
  {
    var s' := Responded(s, x, e, worker);
    RespondedDelivery(s, x, e, worker);
    forall v | 0 <= v < |s.windows| ensures WindowOrder(s', v) && CallbackInv(v, s'.windows[v], s'.issued, AnsweredIn(s'.fired)) {
      assert WindowOrder(s, v) && CallbackInv(v, s.windows[v], s.issued, AnsweredIn(s.fired));
    }
  }

  lemma RespondInv(s: System, i: nat, e: Event)
    requires Inv(s) && Enabled(s, Respond(i, e))
    ensures Inv(Take(s, Respond(i, e)))
  {
    FinishInv(s.received, s.worker, i, e);
    RespondedInv(s, s.worker.xhrs[i], e, Finish(s.worker, i, e));
  }

  /** The callback that a reply finds is that of the message it answers. */
  lemma ReplyFindsCallback(s: System, j: nat)
    requires Inv(s) && j < |s.down|
    ensures var r := s.down[j];
            && r.item.window < |s.windows| && r.item in s.issued && r.item !in AnsweredIn(s.fired)
            && OnReply(s.windows[r.item.window], r.item.id).1 == Some(r.item)
  {
    var x := s.down[j].item;
    assert x == AnsweredIn(s.down)[j];
    FiredWasIssued(s, x);
    assert multiset(AnsweredIn(s.down))[x] > 0;
    assert CallbackInv(x.window, s.windows[x.window], s.issued, AnsweredIn(s.fired));
  }

  lemma FireCallback(w: nat, win: Window, issued: seq<Item>, done: seq<Item>, item: Item)
    requires CallbackInv(w, win, issued, done) && item.window == w && item in issued && item !in done
    ensures CallbackInv(w, OnReply(win, item.id).0, issued, done + [item])
  {
    SelectAppend(OfWindow(w), done, item);
    var win' := OnReply(win, item.id).0;
    assert win'.callbacks.Keys == win.callbacks.Keys - {item.id};
    assert |win'.callbacks| == |win.callbacks| - 1;
  }

  /** Reply j was delivered to its callback. */
  function Delivered(s: System, j: nat): System
    requires Shaped(s) && j < |s.down| && s.down[j].item.window < |s.windows|
  {
    var r := s.down[j];
    s.(windows := s.windows[r.item.window := OnReply(s.windows[r.item.window], r.item.id).0],
       down := Without(s.down, j), fired := s.fired + [r])
  }

  lemma DeliveredWindows(s: System, j: nat, v: nat)
    requires Inv(s) && j < |s.down| && s.down[j].item.window < |s.windows| && v < |s.windows|
    ensures WindowOrder(Delivered(s, j), v)
    ensures CallbackInv(v, Delivered(s, j).windows[v], s.issued, AnsweredIn(s.fired) + [s.down[j].item])
  {
    var r, done := s.down[j], AnsweredIn(s.fired);
    ReplyFindsCallback(s, j);
    assert WindowOrder(s, v) && CallbackInv(v, s.windows[v], s.issued, done);
    if v == r.item.window {
      FireCallback(v, s.windows[v], s.issued, done, r.item);
    } else {
      ForeignCallback(v, s.windows[v], s.issued, done, r.item);
    }
  }

  lemma DeliveredInv(s: System, j: nat)
    requires Inv(s) && j < |s.down| && s.down[j].item.window < |s.windows|
    ensures Inv(Delivered(s, j))
  {
    var s', r := Delivered(s, j), s.down[j];
    AnsweredConcat(s.fired, [r]);
    AnsweredWithout(s.down, j);
    assert AnsweredIn(s'.fired) == AnsweredIn(s.fired) + [r.item];
    assert forall x :: x in s'.down ==> x in s.down;
    forall v | 0 <= v < |s.windows| ensures WindowOrder(s', v) && CallbackInv(v, s'.windows[v], s.issued, AnsweredIn(s'.fired)) {
      DeliveredWindows(s, j, v);
    }
  }

  lemma DeliverInv(s: System, j: nat)
    requires Inv(s) && Enabled(s, Deliver(j))
    ensures Take(s, Deliver(j)).fired == s.fired + [s.down[j]]
    ensures Inv(Take(s, Deliver(j)))
  {
    ReplyFindsCallback(s, j);
    DeliveredInv(s, j);
    assert Take(s, Deliver(j)) == Delivered(s, j);
  }

  lemma TakeInv(s: System, step: Step)
    requires Inv(s)
    ensures Inv(Take(s, step))
  {
    if Enabled(s, step) {
      match step
      case Issue(w, msg, queued) => IssueInv(s, w, msg, queued);
      case PortReady(w) => PortInv(s, w);
      case Arrive(w) => ArriveInv(s, w);
      case Respond(i, e) => RespondInv(s, i, e);
      case Deliver(j) => DeliverInv(s, j);
    }
  }

  lemma {:induction false} EveryRun(n: nat, steps: seq<Step>)
    ensures Inv(Execute(n, steps))
  {
    if steps == [] {
      InitialInv(n);
    } else {
      EveryRun(n, steps[..|steps| - 1]);
      TakeInv(Execute(n, steps[..|steps| - 1]), steps[|steps| - 1]);
    }
  }

  // ---------------------------------------------------------------- what holds in every run

  /** The messages of a window arrive at the worker in the order of its calls. */
  lemma ArrivalOrder(n: nat, steps: seq<Step>, w: nat)
    requires w < n
    ensures var s := Execute(n, steps);
            Select(OfWindow(w), s.received) <= Select(OfWindow(w), s.issued)
  {
    EveryRun(n, steps);
    assert WindowOrder(Execute(n, steps), w);
  }

  /** The queued messages of a command, from all windows, are posted and answered in the order of
      their arrival, and at most one of them is in flight. */
  lemma CommandOrder(n: nat, steps: seq<Step>, cmd: string)
    ensures var s, sel := Execute(n, steps), OfCommand(cmd);
            var arrived, answered, running :=
              Select(sel, s.received), Select(sel, s.worker.answered), Select(sel, ItemsOf(s.worker.xhrs));
            && |running| <= 1
            && answered + running <= arrived
            && (running == [] ==> answered == arrived)
            && Select(sel, Posted(s.worker.posts, false)) == answered + running
  {
    EveryRun(n, steps);
    var s := Execute(n, steps);
    assert CommandInv(s.received, s.worker, cmd);
    PostedPrefix(s.received, s.worker, cmd);
    var v := ViewOf(s.received, s.worker, cmd);
    assert v.running == [] ==> v.answered + [] == v.answered;
  }

  /** A message is posted at most twice: once first, and again only after that. */
  lemma PostedAtMostTwice(n: nat, steps: seq<Step>, x: Item)
    ensures var s := Execute(n, steps);
            var first, again := multiset(Posted(s.worker.posts, false))[x], multiset(Posted(s.worker.posts, true))[x];
            && again <= first <= 1
            && (first == 1 ==> x in s.issued)
  {
    EveryRun(n, steps);
    var s := Execute(n, steps);
    PostedWasReceived(s.received, s.worker, x);
    ReceivedWasIssued(s, x);
    IssuedOnce(s, x);
    assert multiset(Posted(s.worker.posts, true))[x] <= multiset(Posted(s.worker.posts, false))[x];
  }

  /** A callback fires at most once, for a message that was called, with the reply the worker gave
      to that message. */
  lemma FiresOnce(n: nat, steps: seq<Step>, j: nat)
    requires j < |Execute(n, steps).fired|
    ensures var s := Execute(n, steps);
            var r := s.fired[j];
            && r in s.worker.replies && r.result.about == r.item.serial && r.item in s.issued
            && forall k :: 0 <= k < |s.fired| && k != j ==> s.fired[k].item != r.item
  {
    EveryRun(n, steps);
    var s := Execute(n, steps);
    var done, x := AnsweredIn(s.fired), s.fired[j].item;
    assert done[j] == x;
    FiredWasIssued(s, x);
    forall k | 0 <= k < |done| && k != j ensures done[k] != x {
      TwiceCounted(done, j, k);
    }
    assert forall k :: 0 <= k < |s.fired| ==> done[k] == s.fired[k].item;
  }

  lemma TwiceCounted(items: seq<Item>, j: nat, k: nat)
    requires j < |items| && k < |items| && j != k
    ensures items[j] == items[k] ==> multiset(items)[items[j]] >= 2
  {
    var lo, hi := if j < k then j else k, if j < k then k else j;
    assert items == (items[..lo] + [items[lo]]) + (items[lo + 1..hi] + [items[hi]]) + items[hi + 1..];
    assert items[lo] in multiset(items[..lo] + [items[lo]]) && items[hi] in multiset(items[lo + 1..hi] + [items[hi]]);
  }

  /** Between steps a window counts the calls whose callbacks did not fire. */
  lemma ActiveCount(n: nat, steps: seq<Step>, w: nat)
    requires w < n
    ensures var s := Execute(n, steps);
            && s.windows[w].active == |s.windows[w].callbacks|
            && s.windows[w].active == |Select(OfWindow(w), s.issued)| - |Select(OfWindow(w), AnsweredIn(s.fired))|
  {
    EveryRun(n, steps);
    var s := Execute(n, steps);
    assert CallbackInv(w, s.windows[w], s.issued, AnsweredIn(s.fired));
  }

  /** Nothing is on its way and every port is ready. */
  predicate AtRest(s: System)
    requires Shaped(s)
  {
    && s.worker.xhrs == [] && s.down == []
    && forall w :: 0 <= w < |s.windows| ==> s.windows[w].started && s.up[w] == []
  }

  /** Nothing is lost: at rest every call has had its callback and no window counts an active
      message. */
  lemma NothingLost(n: nat, steps: seq<Step>)
    requires AtRest(Execute(n, steps))
    ensures var s := Execute(n, steps);
            && (forall x :: x in s.issued ==> x in AnsweredIn(s.fired))
            && forall w :: 0 <= w < n ==> s.windows[w].active == 0
  {
    EveryRun(n, steps);
    var s := Execute(n, steps);
    forall x | x in s.issued ensures x in AnsweredIn(s.fired) {
      IssuedFired(s, x);
    }
    forall w | 0 <= w < n ensures s.windows[w].active == 0 {
      NoneActive(s, w);
    }
  }

  lemma NoneActive(s: System, w: nat)
    requires Inv(s) && w < |s.windows| && forall x :: x in s.issued ==> x in AnsweredIn(s.fired)
    ensures s.windows[w].active == 0
  {
    var sel, done := OfWindow(w), AnsweredIn(s.fired);
    forall x ensures multiset(Select(sel, s.issued))[x] <= multiset(Select(sel, done))[x] {
      SelectCount(sel, s.issued, x);
      SelectCount(sel, done, x);
      IssuedOnce(s, x);
      assert multiset(s.issued)[x] > 0 ==> x in done;
    }
    FewerThan(Select(sel, s.issued), Select(sel, done));
    assert CallbackInv(w, s.windows[w], s.issued, done);
  }

  lemma FewerThan(a: seq<Item>, b: seq<Item>)
    requires forall x :: multiset(a)[x] <= multiset(b)[x]
    ensures |a| <= |b|
  {
    assert multiset(b) == multiset(a) + (multiset(b) - multiset(a));
    assert |multiset(b)| == |b| && |multiset(a)| == |a|;
  }

  lemma SelectMember(sel: Selector, items: seq<Item>, x: Item)
    requires Picks(sel, x)
    ensures x in Select(sel, items) <==> x in items
  {
    SelectCount(sel, items, x);
    assert multiset(items)[x] > 0 <==> x in items;
    assert multiset(Select(sel, items))[x] > 0 <==> x in Select(sel, items);
  }

  lemma IssuedReceived(s: System, x: Item)
    requires Inv(s) && x in s.issued && s.windows[x.window].started && s.up[x.window] == []
    ensures x in s.received
  {
    var sel := OfWindow(x.window);
    assert WindowOrder(s, x.window);
    SelectMember(sel, s.issued, x);
    SelectMember(sel, s.received, x);
    assert Select(sel, s.received) + [] + [] == Select(sel, s.received);
  }

  lemma ReceivedAnswered(received: seq<Item>, w: Worker, x: Item)
    requires WorkerInv(received, w) && w.xhrs == [] && x in received
    ensures x in w.answered
  {
    var sel := Own(x);
    SelectCount(sel, received, x);
    SelectCount(sel, w.answered, x);
    assert ItemsOf(w.xhrs) == [] && Select(sel, []) == [];
    assert multiset(received)[x] > 0;
    if x.queued {
      assert CommandInv(received, w, x.msg.cmd);
      assert Select(sel, w.answered) + [] == Select(sel, w.answered);
    }
    assert multiset(w.answered)[x] > 0;
  }

  lemma IssuedFired(s: System, x: Item)
    requires Inv(s) && AtRest(s) && x in s.issued
    ensures x in AnsweredIn(s.fired)
  {
    IssuedReceived(s, x);
    ReceivedAnswered(s.received, s.worker, x);
    assert AnsweredIn(s.down) == [];
    assert multiset(s.worker.answered)[x] > 0;
    assert multiset(AnsweredIn(s.fired))[x] > 0;
  }
}
