/** Any number of windows share one transport worker: ordering, retries and delivery over every
    run. */
module TransportProtocol {
  import opened Prelude
  import opened Transport

  // ---------------------------------------------------------------- selections of messages

  datatype Selector = OfWindow(window: nat) | OfCommand(cmd: string) | Unqueued

  predicate Picks(sel: Selector, item: Item) {
    match sel
    case OfWindow(w) => item.window == w
    case OfCommand(cmd) => item.queued && item.msg.cmd == cmd
    case Unqueued => !item.queued
  }

  function Select(sel: Selector, items: seq<Item>): seq<Item> {
    if items == [] then [] else (if Picks(sel, items[0]) then [items[0]] else []) + Select(sel, items[1..])
  }

  lemma {:induction false} SelectConcat(sel: Selector, a: seq<Item>, b: seq<Item>)
    ensures Select(sel, a + b) == Select(sel, a) + Select(sel, b)
  {
    if a == [] {
      assert a + b == b;
      assert Select(sel, []) + Select(sel, b) == Select(sel, b);
    } else {
      var head := if Picks(sel, a[0]) then [a[0]] else [];
      var rest, last := Select(sel, a[1..]), Select(sel, b);
      SelectConcat(sel, a[1..], b);
      assert (a + b)[1..] == a[1..] + b;
      assert Select(sel, a + b) == head + (rest + last);
      assert head + (rest + last) == (head + rest) + last;
    }
  }

  lemma SelectAppend(sel: Selector, a: seq<Item>, item: Item)
    ensures Select(sel, a + [item]) == Select(sel, a) + if Picks(sel, item) then [item] else []
  {
    SelectConcat(sel, a, [item]);
    assert [item][1..] == [] && Select(sel, []) == [];
  }

  lemma SelectRemove(sel: Selector, items: seq<Item>, i: nat)
    requires i < |items|
    ensures Select(sel, items) == Select(sel, items[..i]) + (if Picks(sel, items[i]) then [items[i]] else []) + Select(sel, items[i + 1..])
    ensures Select(sel, items[..i] + items[i + 1..]) == Select(sel, items[..i]) + Select(sel, items[i + 1..])
  {
    assert items == items[..i] + [items[i]] + items[i + 1..];
    SelectConcat(sel, items[..i] + [items[i]], items[i + 1..]);
    SelectAppend(sel, items[..i], items[i]);
    SelectConcat(sel, items[..i], items[i + 1..]);
  }

  lemma {:induction false} SelectCount(sel: Selector, items: seq<Item>, x: Item)
    ensures multiset(Select(sel, items))[x] == if Picks(sel, x) then multiset(items)[x] else 0
  {
    if items != [] {
      assert items == [items[0]] + items[1..];
      SelectCount(sel, items[1..], x);
      var head := if Picks(sel, items[0]) then [items[0]] else [];
      assert Select(sel, items) == head + Select(sel, items[1..]);
    }
  }

  function ItemsOf(xhrs: seq<Xhr>): seq<Item> {
    seq(|xhrs|, i requires 0 <= i < |xhrs| => xhrs[i].item)
  }

  function FirstOf(q: seq<Item>): seq<Item> {
    if q == [] then [] else [q[0]]
  }

  /** The messages that were posted for the first time, in order, and those posted again. */
  function Posted(posts: seq<Post>, again: bool): seq<Item> {
    if posts == [] then [] else
    Posted(posts[..|posts| - 1], again) + (if posts[|posts| - 1].again == again then [posts[|posts| - 1].item] else [])
  }

  /** The messages in flight that may be posted again. */
  function Resendable(xhrs: seq<Xhr>): seq<Item> {
    if xhrs == [] then [] else
    Resendable(xhrs[..|xhrs| - 1]) + (if xhrs[|xhrs| - 1].resend then [xhrs[|xhrs| - 1].item] else [])
  }

  function AnsweredIn(replies: seq<Reply>): seq<Item> {
    seq(|replies|, i requires 0 <= i < |replies| => replies[i].item)
  }

  // ---------------------------------------------------------------- the worker

  /** The messages of one command: arrived, answered, queued, in flight, and posted first. */
  datatype View = View(received: seq<Item>, answered: seq<Item>, queue: seq<Item>, running: seq<Item>, posted: seq<Item>)

  function ViewOf(received: seq<Item>, w: Worker, cmd: string): View {
    var sel := OfCommand(cmd);
    View(Select(sel, received), Select(sel, w.answered), Queue(w, cmd), Select(sel, ItemsOf(w.xhrs)), Select(sel, Posted(w.posts, false)))
  }

  /** The arrived messages are the answered ones followed by the queue; one XHR runs, for the head
      of the queue; the first POSTs are the answered messages and that head. */
  predicate InOrder(v: View) {
    && v.received == v.answered + v.queue
    && v.running == FirstOf(v.queue)
    && v.posted == v.answered + FirstOf(v.queue)
  }

  ghost predicate CommandInv(received: seq<Item>, w: Worker, cmd: string) {
    InOrder(ViewOf(received, w, cmd))
  }

  ghost predicate UnqueuedInv(received: seq<Item>, w: Worker) {
    && multiset(Select(Unqueued, received)) == multiset(Select(Unqueued, w.answered)) + multiset(Select(Unqueued, ItemsOf(w.xhrs)))
    && multiset(Select(Unqueued, Posted(w.posts, false))) == multiset(Select(Unqueued, received))
  }

  /** The retry budget: posting for the first time may add one retry, posting again uses it up. */
  ghost predicate Budget(w: Worker) {
    multiset(Posted(w.posts, true)) + multiset(Resendable(w.xhrs)) <= multiset(Posted(w.posts, false))
  }

  ghost predicate WorkerInv(received: seq<Item>, w: Worker) {
    && (forall cmd :: CommandInv(received, w, cmd))
    && UnqueuedInv(received, w)
    && Budget(w)
    && AnsweredIn(w.replies) == w.answered
    && forall r :: r in w.replies ==> r.result.about == r.item.serial
  }

  lemma PostedAppend(posts: seq<Post>, p: Post, again: bool)
    ensures Posted(posts + [p], again) == Posted(posts, again) + if p.again == again then [p.item] else []
  {
    assert (posts + [p])[..|posts|] == posts;
  }

  lemma ResendableAppend(xhrs: seq<Xhr>, x: Xhr)
    ensures Resendable(xhrs + [x]) == Resendable(xhrs) + if x.resend then [x.item] else []
  {
    assert (xhrs + [x])[..|xhrs|] == xhrs;
  }

  lemma {:induction false} ResendableConcat(a: seq<Xhr>, b: seq<Xhr>)
    ensures Resendable(a + b) == Resendable(a) + Resendable(b)
  {
    if b == [] {
      assert a + b == a;
    } else {
      var init, x := b[..|b| - 1], b[|b| - 1];
      ResendableConcat(a, init);
      ResendableLast(a, init, x);
      assert b == init + [x];
    }
  }

  lemma ResendableLast(a: seq<Xhr>, init: seq<Xhr>, x: Xhr)
    requires Resendable(a + init) == Resendable(a) + Resendable(init)
    ensures Resendable(a + (init + [x])) == Resendable(a) + Resendable(init + [x])
  {
    var own := if x.resend then [x.item] else [];
    ResendableAppend(init, x);
    AppendLast(a, init, x);
    ResendableAppend(a + init, x);
    AppendAll(Resendable(a), Resendable(init), own);
  }

  lemma AppendLast<T>(a: seq<T>, b: seq<T>, x: T)
    ensures a + (b + [x]) == (a + b) + [x]
  {
  }

  lemma AppendAll<T>(a: seq<T>, b: seq<T>, c: seq<T>)
    ensures (a + b) + c == a + (b + c)
  {
  }

  lemma MiddleOut<T>(a: seq<T>, x: T, b: seq<T>)
    ensures multiset((a + [x]) + b) == multiset(a + b) + multiset{x}
  {
  }

  lemma SplitAt<T>(s: seq<T>, i: nat)
    requires i < |s|
    ensures s == (s[..i] + [s[i]]) + s[i + 1..]
  {
  }

  lemma ResendableRemove(xhrs: seq<Xhr>, i: nat)
    requires i < |xhrs|
    ensures var rest := multiset(Resendable(xhrs[..i] + xhrs[i + 1..]));
            multiset(Resendable(xhrs)) == if xhrs[i].resend then rest + multiset{xhrs[i].item} else rest
  {
    SplitAt(xhrs, i);
    ResendableOut(xhrs[..i], xhrs[i], xhrs[i + 1..]);
  }

  lemma ResendableOut(before: seq<Xhr>, x: Xhr, after: seq<Xhr>)
    ensures var rest := multiset(Resendable(before + after));
            multiset(Resendable((before + [x]) + after)) == if x.resend then rest + multiset{x.item} else rest
  {
    ResendableMiddle(before, x, after);
    if x.resend { MiddleOut(Resendable(before), x.item, Resendable(after)); }
  }

  lemma ResendableMiddle(before: seq<Xhr>, x: Xhr, after: seq<Xhr>)
    ensures Resendable(before + after) == Resendable(before) + Resendable(after)
    ensures Resendable((before + [x]) + after)
         == if x.resend then (Resendable(before) + [x.item]) + Resendable(after) else Resendable(before) + Resendable(after)
  {
    ResendableConcat(before + [x], after);
    ResendableAppend(before, x);
    ResendableConcat(before, after);
    assert Resendable(before) + [] == Resendable(before);
  }

  /** The effect of posting a message on the selections. */
  lemma SendEffect(w: Worker, item: Item, again: bool, resend: bool, sel: Selector)
    ensures var w' := Send(w, item, again, resend);
            var own := if Picks(sel, item) then [item] else [];
            && Select(sel, ItemsOf(w'.xhrs)) == Select(sel, ItemsOf(w.xhrs)) + own
            && Select(sel, Posted(w'.posts, false)) == Select(sel, Posted(w.posts, false)) + if again then [] else own
  {
    var w' := Send(w, item, again, resend);
    assert ItemsOf(w'.xhrs) == ItemsOf(w.xhrs) + [item];
    SelectAppend(sel, ItemsOf(w.xhrs), item);
    PostedAppend(w.posts, Post(item, again), false);
    if again {
      assert Posted(w.posts, false) + [] == Posted(w.posts, false);
      assert Select(sel, Posted(w.posts, false)) + [] == Select(sel, Posted(w.posts, false));
    } else {
      SelectAppend(sel, Posted(w.posts, false), item);
    }
  }

  lemma SendFirstBudget(w: Worker, item: Item)
    requires Budget(w)
    ensures Budget(SendFirst(w, item))
  {
    var x := Xhr(item, !item.msg.disableResending);
    ResendableAppend(w.xhrs, x);
    PostedAppend(w.posts, Post(item, false), true);
    PostedAppend(w.posts, Post(item, false), false);
  }

  /** An arriving message of the command joins the queue, and is sent if it is alone there. */
  function ViewAccept(v: View, item: Item): View {
    var first := if v.queue == [] then [item] else [];
    View(v.received + [item], v.answered, v.queue + [item], v.running + first, v.posted + first)
  }

  lemma ViewAcceptInOrder(v: View, item: Item)
    requires InOrder(v)
    ensures InOrder(ViewAccept(v, item))
  {
    var v' := ViewAccept(v, item);
    assert v'.received == v'.answered + v'.queue;
    if v.queue == [] {
      assert v.posted == v.answered;
    } else {
      assert v.running + [] == v.running && v.posted + [] == v.posted;
    }
  }

  /** The queues after the arrival of a message, before anything is sent. */
  function Enqueue(w: Worker, item: Item): Worker {
    if item.queued then w.(queues := w.queues[item.msg.cmd := Queue(w, item.msg.cmd) + [item]]) else w
  }

  lemma AcceptIsSend(w: Worker, item: Item)
    ensures var base := Enqueue(w, item);
            Accept(w, item) == if item.queued && |Queue(base, item.msg.cmd)| != 1 then base else SendFirst(base, item)
  {
  }

  lemma EnqueueView(received: seq<Item>, w: Worker, item: Item, cmd: string)
    ensures var v, own := ViewOf(received, w, cmd), if Picks(OfCommand(cmd), item) then [item] else [];
            ViewOf(received + [item], Enqueue(w, item), cmd) == v.(received := v.received + own, queue := v.queue + own)
  {
    SelectAppend(OfCommand(cmd), received, item);
    assert Queue(w, cmd) + [] == Queue(w, cmd);
  }

  lemma SendFirstView(received: seq<Item>, w: Worker, item: Item, cmd: string)
    ensures var v := ViewOf(received, w, cmd);
            ViewOf(received, SendFirst(w, item), cmd)
            == if Picks(OfCommand(cmd), item) then v.(running := v.running + [item], posted := v.posted + [item]) else v
  {
    var v := ViewOf(received, w, cmd);
    SendEffect(w, item, false, !item.msg.disableResending, OfCommand(cmd));
    assert v.posted + [] == v.posted && v.running + [] == v.running;
  }

  lemma AcceptView(received: seq<Item>, w: Worker, item: Item, cmd: string)
    ensures ViewOf(received + [item], Accept(w, item), cmd)
         == if Picks(OfCommand(cmd), item) then ViewAccept(ViewOf(received, w, cmd), item) else ViewOf(received, w, cmd)
  {
    var v, base := ViewOf(received, w, cmd), Enqueue(w, item);
    AcceptIsSend(w, item);
    EnqueueView(received, w, item, cmd);
    SendFirstView(received + [item], base, item, cmd);
    assert v.running + [] == v.running && v.posted + [] == v.posted && v.received + [] == v.received && v.queue + [] == v.queue;
    if Picks(OfCommand(cmd), item) {
      assert Queue(base, cmd) == v.queue + [item];
    }
  }

  lemma AcceptUnqueued(received: seq<Item>, w: Worker, item: Item)
    requires UnqueuedInv(received, w)
    ensures UnqueuedInv(received + [item], Accept(w, item))
  {
    var base := Enqueue(w, item);
    AcceptIsSend(w, item);
    SelectAppend(Unqueued, received, item);
    SendEffect(base, item, false, !item.msg.disableResending, Unqueued);
    var arrived, running, posted := Select(Unqueued, received), Select(Unqueued, ItemsOf(w.xhrs)), Select(Unqueued, Posted(w.posts, false));
    if item.queued {
      assert arrived + [] == arrived && running + [] == running && posted + [] == posted;
    } else {
      OneMore(arrived, item);
      OneMore(running, item);
      OneMore(posted, item);
    }
  }

  lemma OneMore(items: seq<Item>, item: Item)
    ensures multiset(items + [item]) == multiset(items) + multiset{item}
  {
  }

  lemma AcceptInv(received: seq<Item>, w: Worker, item: Item)
    requires WorkerInv(received, w)
    ensures WorkerInv(received + [item], Accept(w, item))
    ensures Accept(w, item).replies == w.replies
  {
    forall cmd ensures CommandInv(received + [item], Accept(w, item), cmd) {
      assert CommandInv(received, w, cmd);
      ViewAcceptInOrder(ViewOf(received, w, cmd), item);
      AcceptView(received, w, item, cmd);
    }
    AcceptUnqueued(received, w, item);
    SendFirstBudget(Enqueue(w, item), item);
  }

  /** The state after the event of an XHR was taken but not yet handled. */
  function TakeXhr(w: Worker, i: nat): Worker
    requires i < |w.xhrs|
  {
    w.(xhrs := w.xhrs[..i] + w.xhrs[i + 1..])
  }

  lemma TakeEffect(w: Worker, i: nat, sel: Selector)
    requires i < |w.xhrs|
    ensures var before, after, item := Select(sel, ItemsOf(w.xhrs)), Select(sel, ItemsOf(TakeXhr(w, i).xhrs)), w.xhrs[i].item;
            && (!Picks(sel, item) ==> after == before)
            && (Picks(sel, item) ==> multiset(before) == multiset(after) + multiset{item} && |before| == |after| + 1)
  {
    var items := ItemsOf(w.xhrs);
    SelectRemove(sel, items, i);
    assert ItemsOf(TakeXhr(w, i).xhrs) == items[..i] + items[i + 1..];
  }

  lemma RunningIsHead(received: seq<Item>, w: Worker, i: nat)
    requires WorkerInv(received, w) && i < |w.xhrs| && w.xhrs[i].item.queued
    ensures var item := w.xhrs[i].item;
            && Queue(w, item.msg.cmd) != [] && Queue(w, item.msg.cmd)[0] == item
            && Select(OfCommand(item.msg.cmd), ItemsOf(TakeXhr(w, i).xhrs)) == []
  {
    var item := w.xhrs[i].item;
    var sel := OfCommand(item.msg.cmd);
    assert CommandInv(received, w, item.msg.cmd);
    TakeEffect(w, i, sel);
    assert item in multiset(Select(sel, ItemsOf(w.xhrs)));
  }

  lemma RetryCommand(received: seq<Item>, w: Worker, i: nat, cmd: string)
    requires WorkerInv(received, w) && i < |w.xhrs| && CommandInv(received, w, cmd)
    ensures CommandInv(received, Send(TakeXhr(w, i), w.xhrs[i].item, true, false), cmd)
  {
    var item := w.xhrs[i].item;
    TakeEffect(w, i, OfCommand(cmd));
    SendEffect(TakeXhr(w, i), item, true, false, OfCommand(cmd));
    if Picks(OfCommand(cmd), item) { RunningIsHead(received, w, i); }
  }

  lemma RetryUnqueued(received: seq<Item>, w: Worker, i: nat)
    requires UnqueuedInv(received, w) && i < |w.xhrs|
    ensures UnqueuedInv(received, Send(TakeXhr(w, i), w.xhrs[i].item, true, false))
  {
    var item, taken := w.xhrs[i].item, TakeXhr(w, i);
    TakeEffect(w, i, Unqueued);
    SendEffect(taken, item, true, false, Unqueued);
    OneMore(Select(Unqueued, ItemsOf(taken.xhrs)), item);
    assert Select(Unqueued, ItemsOf(taken.xhrs)) + [] == Select(Unqueued, ItemsOf(taken.xhrs));
  }

  lemma RetryBudget(w: Worker, i: nat)
    requires Budget(w) && i < |w.xhrs| && w.xhrs[i].resend
    ensures Budget(Send(TakeXhr(w, i), w.xhrs[i].item, true, false))
  {
    var item := w.xhrs[i].item;
    ResendableRemove(w.xhrs, i);
    ResendableAppend(TakeXhr(w, i).xhrs, Xhr(item, false));
    PostedAppend(w.posts, Post(item, true), true);
    PostedAppend(w.posts, Post(item, true), false);
  }

  lemma RetryInv(received: seq<Item>, w: Worker, i: nat, e: Event)
    requires WorkerInv(received, w) && i < |w.xhrs| && w.xhrs[i].resend && e.kind != Load
    ensures WorkerInv(received, Finish(w, i, e))
    ensures Finish(w, i, e).replies == w.replies
  {
    var w' := Send(TakeXhr(w, i), w.xhrs[i].item, true, false);
    forall cmd ensures CommandInv(received, w', cmd) {
      assert CommandInv(received, w, cmd);
      RetryCommand(received, w, i, cmd);
    }
    RetryUnqueued(received, w, i);
    RetryBudget(w, i);
  }

  /** The head of the queue is answered and the next message is sent. */
  function ViewComplete(v: View): View
    requires v.queue != [] && v.running != []
  {
    View(v.received, v.answered + [v.queue[0]], v.queue[1..], FirstOf(v.queue[1..]), v.posted + FirstOf(v.queue[1..]))
  }

  lemma ViewCompleteInOrder(v: View)
    requires InOrder(v) && v.queue != []
    ensures InOrder(ViewComplete(v))
  {
    assert v.queue == [v.queue[0]] + v.queue[1..];
  }

  /** Everything in a queue is a queued message of its command. */
  lemma QueuedInQueue(received: seq<Item>, w: Worker, cmd: string, k: nat)
    requires CommandInv(received, w, cmd) && k < |Queue(w, cmd)|
    ensures Picks(OfCommand(cmd), Queue(w, cmd)[k])
  {
    var sel, x := OfCommand(cmd), Queue(w, cmd)[k];
    SelectCount(sel, received, x);
    assert x in Queue(w, cmd);
    assert x in Select(sel, received);
    assert multiset(Select(sel, received))[x] > 0;
  }

  /** The worker with the head of a queue answered, before the next message is sent. */
  function Answer(w: Worker, cmd: string, result: Result): Worker
    requires Queue(w, cmd) != []
  {
    var q := Queue(w, cmd);
    w.(queues := w.queues[cmd := q[1..]], answered := w.answered + [q[0]], replies := w.replies + [Reply(q[0], result)])
  }

  lemma CompleteIsAnswer(w: Worker, item: Item, result: Result)
    requires item.queued && Queue(w, item.msg.cmd) != []
    ensures var q, answer := Queue(w, item.msg.cmd), Answer(w, item.msg.cmd, result);
            Complete(w, item, result) == if |q| > 1 then SendFirst(answer, q[1]) else answer
  {
  }

  /** The head was answered and the next message, if any, is sent: this completes the view. */
  lemma ViewCompleteSteps(v: View)
    requires v.queue != [] && v.running != []
    ensures var answered := View(v.received, v.answered + [v.queue[0]], v.queue[1..], [], v.posted);
            ViewComplete(v) == if |v.queue| > 1
                               then answered.(running := answered.running + [v.queue[1]], posted := answered.posted + [v.queue[1]])
                               else answered
  {
    assert v.posted + [] == v.posted;
    if |v.queue| > 1 { assert [] + [v.queue[1]] == FirstOf(v.queue[1..]); }
  }

  lemma CompleteView(received: seq<Item>, w: Worker, i: nat, result: Result, cmd: string)
    requires WorkerInv(received, w) && i < |w.xhrs| && w.xhrs[i].item.queued
    ensures var v := ViewOf(received, w, cmd);
            && (w.xhrs[i].item.msg.cmd == cmd ==> v.queue != [] && v.running != [])
            && ViewOf(received, Complete(TakeXhr(w, i), w.xhrs[i].item, result), cmd)
            == if w.xhrs[i].item.msg.cmd == cmd then ViewComplete(v) else v
  {
    var own := w.xhrs[i].item.msg.cmd;
    var v, q := ViewOf(received, w, cmd), Queue(w, own);
    RunningIsHead(received, w, i);
    assert CommandInv(received, w, own);
    CompleteIsAnswer(TakeXhr(w, i), w.xhrs[i].item, result);
    AnswerView(received, w, i, result, cmd);
    if own == cmd { ViewCompleteSteps(v); }
    if |q| > 1 {
      QueuedInQueue(received, w, own, 1);
      SendFirstView(received, Answer(TakeXhr(w, i), own, result), q[1], cmd);
    }
  }

  lemma AnswerQueue(w: Worker, own: string, result: Result, cmd: string)
    requires Queue(w, own) != []
    ensures Queue(Answer(w, own, result), cmd) == if own == cmd then Queue(w, cmd)[1..] else Queue(w, cmd)
    ensures Answer(w, own, result).answered == w.answered + [Queue(w, own)[0]]
    ensures Answer(w, own, result).xhrs == w.xhrs && Answer(w, own, result).posts == w.posts
  {
  }

  lemma AnswerView(received: seq<Item>, w: Worker, i: nat, result: Result, cmd: string)
    requires WorkerInv(received, w) && i < |w.xhrs| && w.xhrs[i].item.queued && Queue(w, w.xhrs[i].item.msg.cmd) != []
    requires Queue(w, w.xhrs[i].item.msg.cmd)[0] == w.xhrs[i].item
    ensures var item, v := w.xhrs[i].item, ViewOf(received, w, cmd);
            ViewOf(received, Answer(TakeXhr(w, i), item.msg.cmd, result), cmd)
            == if item.msg.cmd == cmd then View(v.received, v.answered + [item], v.queue[1..], [], v.posted) else v
  {
    var item, v, sel := w.xhrs[i].item, ViewOf(received, w, cmd), OfCommand(cmd);
    AnswerQueue(TakeXhr(w, i), item.msg.cmd, result, cmd);
    SelectAppend(sel, w.answered, item);
    if item.msg.cmd == cmd {
      RunningIsHead(received, w, i);
    } else {
      TakeEffect(w, i, sel);
      assert v.answered + [] == v.answered;
    }
  }

  lemma CompleteUnqueued(received: seq<Item>, w: Worker, i: nat, result: Result)
    requires WorkerInv(received, w) && i < |w.xhrs|
    ensures UnqueuedInv(received, Complete(TakeXhr(w, i), w.xhrs[i].item, result))
  {
    var item, taken := w.xhrs[i].item, TakeXhr(w, i);
    TakeEffect(w, i, Unqueued);
    SelectAppend(Unqueued, w.answered, item);
    if item.queued {
      var q := Queue(w, item.msg.cmd);
      RunningIsHead(received, w, i);
      CompleteIsAnswer(taken, item, result);
      assert Select(Unqueued, w.answered) + [] == Select(Unqueued, w.answered);
      if |q| > 1 {
        assert CommandInv(received, w, item.msg.cmd);
        QueuedInQueue(received, w, item.msg.cmd, 1);
        var answer := Answer(taken, item.msg.cmd, result);
        SendEffect(answer, q[1], false, !q[1].msg.disableResending, Unqueued);
        assert Select(Unqueued, ItemsOf(answer.xhrs)) + [] == Select(Unqueued, ItemsOf(answer.xhrs));
        assert Select(Unqueued, Posted(answer.posts, false)) + [] == Select(Unqueued, Posted(answer.posts, false));
      }
    } else {
      assert multiset(Select(Unqueued, w.answered + [item])) == multiset(Select(Unqueued, w.answered)) + multiset{item};
    }
  }

  lemma CompleteBudget(w: Worker, i: nat, result: Result)
    requires Budget(w) && i < |w.xhrs|
    ensures Budget(Complete(TakeXhr(w, i), w.xhrs[i].item, result))
  {
    var item, taken := w.xhrs[i].item, TakeXhr(w, i);
    ResendableRemove(w.xhrs, i);
    assert Budget(taken);
    if item.queued && Queue(w, item.msg.cmd) != [] {
      CompleteIsAnswer(taken, item, result);
      if |Queue(w, item.msg.cmd)| > 1 {
        SendFirstBudget(Answer(taken, item.msg.cmd, result), Queue(w, item.msg.cmd)[1]);
      }
    }
  }

  lemma CompleteReplies(received: seq<Item>, w: Worker, i: nat, result: Result)
    requires WorkerInv(received, w) && i < |w.xhrs| && result.about == w.xhrs[i].item.serial
    ensures var w' := Complete(TakeXhr(w, i), w.xhrs[i].item, result);
            && w'.replies == w.replies + [Reply(w.xhrs[i].item, result)]
            && w'.answered == w.answered + [w.xhrs[i].item]
            && AnsweredIn(w'.replies) == w'.answered
  {
    var item, taken := w.xhrs[i].item, TakeXhr(w, i);
    if item.queued {
      RunningIsHead(received, w, i);
      CompleteIsAnswer(taken, item, result);
    }
    assert AnsweredIn(w.replies + [Reply(item, result)]) == AnsweredIn(w.replies) + [item];
  }

  lemma CompleteInv(received: seq<Item>, w: Worker, i: nat, result: Result)
    requires WorkerInv(received, w) && i < |w.xhrs| && result.about == w.xhrs[i].item.serial
    ensures var w' := Complete(TakeXhr(w, i), w.xhrs[i].item, result);
            WorkerInv(received, w') && w'.replies == w.replies + [Reply(w.xhrs[i].item, result)]
  {
    var item, taken := w.xhrs[i].item, TakeXhr(w, i);
    var w' := Complete(taken, item, result);
    forall cmd ensures CommandInv(received, w', cmd) {
      assert CommandInv(received, w, cmd);
      CompleteCommand(received, w, i, result, cmd);
    }
    CompleteUnqueued(received, w, i, result);
    CompleteBudget(w, i, result);
    CompleteReplies(received, w, i, result);
  }

  lemma CompleteCommand(received: seq<Item>, w: Worker, i: nat, result: Result, cmd: string)
    requires WorkerInv(received, w) && i < |w.xhrs| && CommandInv(received, w, cmd)
    ensures CommandInv(received, Complete(TakeXhr(w, i), w.xhrs[i].item, result), cmd)
  {
    var item, v := w.xhrs[i].item, ViewOf(received, w, cmd);
    if item.queued {
      CompleteView(received, w, i, result, cmd);
      if item.msg.cmd == cmd { ViewCompleteInOrder(v); }
    } else {
      TakeEffect(w, i, OfCommand(cmd));
      SelectAppend(OfCommand(cmd), w.answered, item);
      assert v.answered + [] == v.answered;
    }
  }

  /** The event answers the message, unless the message is posted again. */
  lemma FinishIsComplete(w: Worker, i: nat, e: Event) returns (result: Result)
    requires i < |w.xhrs| && (e.kind == Load || !w.xhrs[i].resend)
    ensures result.about == w.xhrs[i].item.serial
    ensures Finish(w, i, e) == Complete(TakeXhr(w, i), w.xhrs[i].item, result)
  {
    var serial := w.xhrs[i].item.serial;
    result := if e.kind == Load && (e.status != 500 || e.text == "") then Result(serial, None, Some(e.text))
              else Result(serial, Some(ErrorMessage(e)), None);
  }

  lemma FinishInv(received: seq<Item>, w: Worker, i: nat, e: Event)
    requires WorkerInv(received, w) && i < |w.xhrs|
    ensures WorkerInv(received, Finish(w, i, e))
    ensures w.replies <= Finish(w, i, e).replies
  {
    if e.kind == Load || !w.xhrs[i].resend {
      var result := FinishIsComplete(w, i, e);
      CompleteInv(received, w, i, result);
    } else {
      RetryInv(received, w, i, e);
    }
  }
}
