/** What the callbacks are called with: in every run the result of a message is that of the event
    that ended its last XHR, and a message is sent again only after an XHR without a response. */
module TransportResults {
  import opened Prelude
  import opened Transport
  import opened TransportProtocol
  import opened TransportRuns

  /** The events that ended the XHRs of a message, in order. */
  function EventsOf(ended: seq<(Xhr, Event)>, x: Item): seq<Event> {
    if ended == [] then [] else
    var last := ended[|ended| - 1];
    EventsOf(ended[..|ended| - 1], x) + if last.0.item == x then [last.1] else []
  }

  lemma EventsAppend(ended: seq<(Xhr, Event)>, xhr: Xhr, e: Event, x: Item)
    ensures EventsOf(ended + [(xhr, e)], x) == EventsOf(ended, x) + if xhr.item == x then [e] else []
  {
    assert (ended + [(xhr, e)])[..|ended|] == ended;
  }

  /** The result that an event stands for. */
  predicate Tells(r: Result, e: Event) {
    if e.kind == Load && (e.status != 500 || e.text == "") then
      r.err == None && r.response == Some(e.text)
    else
      && r.err == Some("XHR request failed with " + Decimal(e.status) + " status code."
                       + if e.text == "" then "" else "\nError message: " + e.text)
      && r.response == None
  }

  function Live(xhrs: seq<Xhr>, x: Item): nat {
    multiset(ItemsOf(xhrs))[x]
  }

  function Times(posts: seq<Post>, again: bool, x: Item): nat {
    multiset(Posted(posts, again))[x]
  }

  predicate SentAgain(es: seq<Event>, x: Item) {
    es != [] && es[0].kind != Load && !x.msg.disableResending
  }

  /** Every POST of a message has its XHR, in flight or ended; the second one follows an XHR that
      ended without a response. */
  ghost predicate Counted(es: seq<Event>, live: nat, first: nat, again: nat, x: Item) {
    && |es| + live == first + again && again <= first
    && again == if SentAgain(es, x) then 1 else 0
  }

  /** Only the first XHR of a message may be followed by another. */
  ghost predicate Flagged(es: seq<Event>, xhrs: seq<Xhr>, x: Item) {
    forall h :: h in xhrs && h.item == x ==> h.resend == (es == [] && !x.msg.disableResending)
  }

  /** A message is answered when it has no XHR in flight, with what its last event tells. */
  ghost predicate Told(es: seq<Event>, xhrs: seq<Xhr>, replies: seq<Reply>, x: Item) {
    forall r :: r in replies && r.item == x ==> es != [] && Live(xhrs, x) == 0 && Tells(r.result, es[|es| - 1])
  }

  ghost predicate Course(es: seq<Event>, xhrs: seq<Xhr>, posts: seq<Post>, replies: seq<Reply>, x: Item) {
    && Counted(es, Live(xhrs, x), Times(posts, false, x), Times(posts, true, x), x)
    && Flagged(es, xhrs, x)
    && Told(es, xhrs, replies, x)
  }

  ghost predicate CourseIn(ended: seq<(Xhr, Event)>, w: Worker, x: Item) {
    Course(EventsOf(ended, x), w.xhrs, w.posts, w.replies, x)
  }

  // ---------------------------------------------------------------- sending and ending an XHR

  lemma LiveAppend(xhrs: seq<Xhr>, h: Xhr, x: Item)
    ensures Live(xhrs + [h], x) == Live(xhrs, x) + if h.item == x then 1 else 0
  {
    assert ItemsOf(xhrs + [h]) == ItemsOf(xhrs) + [h.item];
  }

  lemma LiveTake(w: Worker, i: nat, x: Item)
    requires i < |w.xhrs|
    ensures Live(w.xhrs, x) == Live(TakeXhr(w, i).xhrs, x) + if w.xhrs[i].item == x then 1 else 0
    ensures forall h :: h in TakeXhr(w, i).xhrs ==> h in w.xhrs
  {
    var items := ItemsOf(w.xhrs);
    assert items == (items[..i] + [items[i]]) + items[i + 1..];
    assert ItemsOf(TakeXhr(w, i).xhrs) == items[..i] + items[i + 1..];
  }

  lemma NoneLive(xhrs: seq<Xhr>, x: Item, h: Xhr)
    requires Live(xhrs, x) == 0 && h in xhrs
    ensures h.item != x
  {
    var k :| 0 <= k < |xhrs| && xhrs[k] == h;
    assert ItemsOf(xhrs)[k] == h.item;
  }

  lemma TimesAppend(posts: seq<Post>, p: Post, again: bool, x: Item)
    ensures Times(posts + [p], again, x) == Times(posts, again, x) + if p.again == again && p.item == x then 1 else 0
  {
    PostedAppend(posts, p, again);
    if p.again != again { assert Posted(posts, again) + [] == Posted(posts, again); }
  }

  /** A message that was not posted before is posted for the first time. */
  lemma SendFirstCourse(es: seq<Event>, w: Worker, y: Item, x: Item)
    requires Course(es, w.xhrs, w.posts, w.replies, x) && Times(w.posts, false, y) == 0
    ensures var w' := SendFirst(w, y); Course(es, w'.xhrs, w'.posts, w'.replies, x)
  {
    var h := Xhr(y, !y.msg.disableResending);
    LiveAppend(w.xhrs, h, x);
    TimesAppend(w.posts, Post(y, false), false, x);
    TimesAppend(w.posts, Post(y, false), true, x);
    assert x == y ==> es == [] && Live(w.xhrs, x) == 0;
    forall g | g in w.xhrs + [h] && g.item == x ensures g.resend == (es == [] && !x.msg.disableResending) {
      if g in w.xhrs && x == y { NoneLive(w.xhrs, x, g); }
    }
  }

  /** What an XHR in flight says about the course of its message, posted for the first time once. */
  lemma InFlight(es: seq<Event>, w: Worker, i: nat, x: Item)
    requires i < |w.xhrs| && w.xhrs[i].item == x
    requires Course(es, w.xhrs, w.posts, w.replies, x) && Times(w.posts, false, x) <= 1
    ensures Live(w.xhrs, x) == 1 && Live(TakeXhr(w, i).xhrs, x) == 0
    ensures es == [] || (|es| == 1 && SentAgain(es, x))
    ensures w.xhrs[i].resend == (es == [] && !x.msg.disableResending)
    ensures forall r :: r in w.replies ==> r.item != x
  {
    LiveTake(w, i, x);
    assert w.xhrs[i] in w.xhrs;
  }

  lemma OtherCourse(es: seq<Event>, w: Worker, i: nat, x: Item, replies: seq<Reply>, y: Item)
    requires i < |w.xhrs| && w.xhrs[i].item == y && y != x
    requires Course(es, w.xhrs, w.posts, w.replies, x)
    requires forall r :: r in replies ==> r in w.replies || r.item == y
    ensures Course(es, TakeXhr(w, i).xhrs, w.posts, replies, x)
  {
    LiveTake(w, i, x);
  }

  /** The event answers the message. */
  lemma AnswerCourse(es: seq<Event>, w: Worker, i: nat, e: Event, result: Result, x: Item)
    requires i < |w.xhrs| && w.xhrs[i].item == x && (e.kind == Load || !w.xhrs[i].resend)
    requires Course(es, w.xhrs, w.posts, w.replies, x) && Times(w.posts, false, x) <= 1
    requires Tells(result, e)
    ensures Course(es + [e], TakeXhr(w, i).xhrs, w.posts, w.replies + [Reply(x, result)], x)
  {
    InFlight(es, w, i, x);
    var xhrs := TakeXhr(w, i).xhrs;
    forall h | h in xhrs ensures h.item != x { NoneLive(xhrs, x, h); }
    assert (es + [e])[0] == if es == [] then e else es[0];
  }

  /** The message is posted again. */
  lemma RetryCourse(es: seq<Event>, w: Worker, i: nat, e: Event, x: Item)
    requires i < |w.xhrs| && w.xhrs[i].item == x && e.kind != Load && w.xhrs[i].resend
    requires Course(es, w.xhrs, w.posts, w.replies, x) && Times(w.posts, false, x) <= 1
    ensures var w' := Send(TakeXhr(w, i), x, true, false);
            Course(es + [e], w'.xhrs, w'.posts, w'.replies, x)
  {
    InFlight(es, w, i, x);
    var xhrs, h := TakeXhr(w, i).xhrs, Xhr(x, false);
    forall g | g in xhrs ensures g.item != x { NoneLive(xhrs, x, g); }
    LiveAppend(xhrs, h, x);
    TimesAppend(w.posts, Post(x, true), false, x);
    TimesAppend(w.posts, Post(x, true), true, x);
  }

  lemma RetryOther(es: seq<Event>, w: Worker, i: nat, x: Item, y: Item)
    requires i < |w.xhrs| && w.xhrs[i].item == y && y != x
    requires Course(es, w.xhrs, w.posts, w.replies, x)
    ensures var w' := Send(TakeXhr(w, i), y, true, false);
            Course(es, w'.xhrs, w'.posts, w'.replies, x)
  {
    OtherCourse(es, w, i, x, w.replies, y);
    LiveAppend(TakeXhr(w, i).xhrs, Xhr(y, false), x);
    TimesAppend(w.posts, Post(y, true), false, x);
    TimesAppend(w.posts, Post(y, true), true, x);
  }

  // ---------------------------------------------------------------- the end of a request

  /** The worker after a message was answered and before the next one is sent. */
  lemma CompletePieces(received: seq<Item>, w: Worker, i: nat, result: Result) returns (base: Worker, next: Option<Item>)
    requires WorkerInv(received, w) && i < |w.xhrs|
    ensures Complete(TakeXhr(w, i), w.xhrs[i].item, result) == if next.Some? then SendFirst(base, next.value) else base
    ensures base.xhrs == TakeXhr(w, i).xhrs && base.posts == w.posts
    ensures base.replies == w.replies + [Reply(w.xhrs[i].item, result)]
  {
    var item, taken := w.xhrs[i].item, TakeXhr(w, i);
    if item.queued {
      RunningIsHead(received, w, i);
      CompleteIsAnswer(taken, item, result);
      var q := Queue(w, item.msg.cmd);
      base, next := Answer(taken, item.msg.cmd, result), if |q| > 1 then Some(q[1]) else None;
    } else {
      base, next := Complete(taken, item, result), None;
    }
  }

  lemma FinishTells(w: Worker, i: nat, e: Event) returns (result: Result)
    requires i < |w.xhrs| && (e.kind == Load || !w.xhrs[i].resend)
    ensures Finish(w, i, e) == Complete(TakeXhr(w, i), w.xhrs[i].item, result)
    ensures Tells(result, e)
  {
    var serial := w.xhrs[i].item.serial;
    result := if e.kind == Load && (e.status != 500 || e.text == "") then Result(serial, None, Some(e.text))
              else Result(serial, Some(ErrorMessage(e)), None);
  }

  ghost predicate PostedOnce(w: Worker) {
    forall x :: Times(w.posts, false, x) <= 1
  }

  lemma SendPostedOnce(base: Worker, y: Item)
    requires PostedOnce(SendFirst(base, y))
    ensures Times(base.posts, false, y) == 0 && PostedOnce(base)
  {
    forall x ensures Times(base.posts, false, x) <= 1 && (x == y ==> Times(base.posts, false, x) == 0) {
      TimesAppend(base.posts, Post(y, false), false, x);
      assert Times(SendFirst(base, y).posts, false, x) <= 1;
    }
  }

  lemma BaseCourse(ended: seq<(Xhr, Event)>, w: Worker, i: nat, e: Event, result: Result, x: Item)
    requires i < |w.xhrs| && (e.kind == Load || !w.xhrs[i].resend)
    requires CourseIn(ended, w, x) && Times(w.posts, false, x) <= 1 && Tells(result, e)
    ensures Course(EventsOf(ended + [(w.xhrs[i], e)], x), TakeXhr(w, i).xhrs, w.posts,
                   w.replies + [Reply(w.xhrs[i].item, result)], x)
  {
    var es, y := EventsOf(ended, x), w.xhrs[i].item;
    EventsAppend(ended, w.xhrs[i], e, x);
    if y == x {
      AnswerCourse(es, w, i, e, result, x);
    } else {
      assert es + [] == es;
      OtherCourse(es, w, i, x, w.replies + [Reply(y, result)], y);
    }
  }

  lemma NextCourse(es: seq<Event>, base: Worker, next: Option<Item>, w: Worker, x: Item)
    requires w == if next.Some? then SendFirst(base, next.value) else base
    requires PostedOnce(w) && Course(es, base.xhrs, base.posts, base.replies, x)
    ensures Course(es, w.xhrs, w.posts, w.replies, x)
  {
    if next.Some? {
      SendPostedOnce(base, next.value);
      SendFirstCourse(es, base, next.value, x);
    }
  }

  lemma AnsweredCourse(received: seq<Item>, ended: seq<(Xhr, Event)>, w: Worker, i: nat, e: Event, x: Item)
    requires WorkerInv(received, w) && i < |w.xhrs| && (e.kind == Load || !w.xhrs[i].resend)
    requires CourseIn(ended, w, x) && PostedOnce(w) && PostedOnce(Finish(w, i, e))
    ensures CourseIn(ended + [(w.xhrs[i], e)], Finish(w, i, e), x)
  {
    var result := FinishTells(w, i, e);
    var base, next := CompletePieces(received, w, i, result);
    assert Times(w.posts, false, x) <= 1;
    BaseCourse(ended, w, i, e, result, x);
    NextCourse(EventsOf(ended + [(w.xhrs[i], e)], x), base, next, Finish(w, i, e), x);
  }

  lemma RetriedCourse(ended: seq<(Xhr, Event)>, w: Worker, i: nat, e: Event, x: Item)
    requires i < |w.xhrs| && e.kind != Load && w.xhrs[i].resend
    requires CourseIn(ended, w, x) && PostedOnce(w)
    ensures CourseIn(ended + [(w.xhrs[i], e)], Finish(w, i, e), x)
  {
    EventsAppend(ended, w.xhrs[i], e, x);
    var es := EventsOf(ended, x);
    if w.xhrs[i].item == x {
      assert Times(w.posts, false, x) <= 1;
      RetryCourse(es, w, i, e, x);
    } else {
      assert EventsOf(ended + [(w.xhrs[i], e)], x) == es;
      RetryOther(es, w, i, x, w.xhrs[i].item);
    }
  }

  // ---------------------------------------------------------------- runs

  lemma InvPostsOnce(s: System)
    requires Inv(s)
    ensures PostedOnce(s.worker)
  {
    forall x ensures Times(s.worker.posts, false, x) <= 1 {
      PostedWasReceived(s.received, s.worker, x);
      ReceivedWasIssued(s, x);
      IssuedOnce(s, x);
    }
  }

  lemma ArriveCourse(s: System, w: nat, x: Item)
    requires Inv(s) && Enabled(s, Arrive(w)) && CourseIn(s.ended, s.worker, x)
    ensures var s' := Take(s, Arrive(w)); CourseIn(s'.ended, s'.worker, x)
  {
    var s', item := Take(s, Arrive(w)), s.up[w][0];
    var base := Enqueue(s.worker, item);
    TakeInv(s, Arrive(w));
    InvPostsOnce(s');
    AcceptIsSend(s.worker, item);
    if !(item.queued && |Queue(base, item.msg.cmd)| != 1) {
      SendPostedOnce(base, item);
      SendFirstCourse(EventsOf(s.ended, x), base, item, x);
    }
  }

  lemma RespondCourse(s: System, i: nat, e: Event, x: Item)
    requires Inv(s) && Enabled(s, Respond(i, e)) && CourseIn(s.ended, s.worker, x)
    ensures var s' := Take(s, Respond(i, e)); CourseIn(s'.ended, s'.worker, x)
  {
    var s' := Take(s, Respond(i, e));
    TakeInv(s, Respond(i, e));
    InvPostsOnce(s);
    InvPostsOnce(s');
    if e.kind == Load || !s.worker.xhrs[i].resend {
      AnsweredCourse(s.received, s.ended, s.worker, i, e, x);
    } else {
      RetriedCourse(s.ended, s.worker, i, e, x);
    }
  }

  lemma TakeCourse(s: System, step: Step, x: Item)
    requires Inv(s) && CourseIn(s.ended, s.worker, x)
    ensures CourseIn(Take(s, step).ended, Take(s, step).worker, x)
  {
    if Enabled(s, step) {
      match step
      case Arrive(w) => ArriveCourse(s, w, x);
      case Respond(i, e) => RespondCourse(s, i, e, x);
      case _ =>
        assert Take(s, step).worker == s.worker && Take(s, step).ended == s.ended;
    }
  }

  lemma {:induction false} RunCourse(n: nat, steps: seq<Step>, x: Item)
    ensures CourseIn(Execute(n, steps).ended, Execute(n, steps).worker, x)
  {
    if steps == [] {
      assert ItemsOf([]) == [];
    } else {
      var before := steps[..|steps| - 1];
      EveryRun(n, before);
      RunCourse(n, before, x);
      TakeCourse(Execute(n, before), steps[|steps| - 1], x);
    }
  }

  lemma CourseTells(es: seq<Event>, w: Worker, r: Reply, again: nat)
    requires Course(es, w.xhrs, w.posts, w.replies, r.item) && r in w.replies
    requires Times(w.posts, false, r.item) <= 1 && again == Times(w.posts, true, r.item)
    ensures es != [] && Tells(r.result, es[|es| - 1])
    ensures if r.item.msg.disableResending || es[0].kind == Load then |es| == 1 && again == 0 else |es| == 2 && again == 1
  {
  }

  lemma FiredReply(n: nat, steps: seq<Step>, s: System, r: Reply)
    requires s == Execute(n, steps) && r in s.fired
    ensures r in s.worker.replies && Times(s.worker.posts, false, r.item) <= 1
  {
    EveryRun(n, steps);
    InvPostsOnce(s);
    assert Times(s.worker.posts, false, r.item) <= 1;
  }

  lemma FiredCourse(n: nat, steps: seq<Step>, s: System, r: Reply, x: Item, es: seq<Event>, again: nat) returns (e: Event)
    requires s == Execute(n, steps) && r in s.fired && x == r.item
    requires es == EventsOf(s.ended, x) && again == Times(s.worker.posts, true, x)
    ensures es != [] && e == es[|es| - 1] && Tells(r.result, e)
    ensures if x.msg.disableResending || es[0].kind == Load then |es| == 1 && again == 0 else |es| == 2 && again == 1
  {
    FiredReply(n, steps, s, r);
    RunCourse(n, steps, x);
    CourseTells(es, s.worker, r, again);
    e := es[|es| - 1];
  }

  /** A callback is called with the result of the event that ended the last XHR of its own message.
      A response gives its text, without an error; a 500 response with a text, and an XHR that ended
      without a response, give an error message with the status and the text. Without a response the
      callback is called only after the second POST, or after the only one if resending is disabled. */
  lemma ResultOfLastEvent(n: nat, steps: seq<Step>, j: nat) returns (e: Event)
    requires j < |Execute(n, steps).fired|
    ensures var s := Execute(n, steps);
            var x, es := s.fired[j].item, EventsOf(s.ended, s.fired[j].item);
            && es != [] && e == es[|es| - 1]
            && (if x.msg.disableResending || es[0].kind == Load
                then |es| == 1 && multiset(Posted(s.worker.posts, true))[x] == 0
                else |es| == 2 && multiset(Posted(s.worker.posts, true))[x] == 1)
    ensures var result := Execute(n, steps).fired[j].result;
            if e.kind == Load && (e.status != 500 || e.text == "") then
              result.err == None && result.response == Some(e.text)
            else
              && result.err == Some("XHR request failed with " + Decimal(e.status) + " status code."
                                    + if e.text == "" then "" else "\nError message: " + e.text)
              && result.response == None
  {
    var s := Execute(n, steps);
    var r := s.fired[j];
    e := FiredCourse(n, steps, s, r, r.item, EventsOf(s.ended, r.item), Times(s.worker.posts, true, r.item));
  }

  /** A message is posted again exactly when resending is not disabled and its first XHR ended
      without a response; and it is answered exactly when an XHR of it got a response, or ended
      without one and was not to be followed by another. */
  lemma ResentExactly(n: nat, steps: seq<Step>, x: Item)
    ensures var s := Execute(n, steps);
            var es := EventsOf(s.ended, x);
            && (x in Posted(s.worker.posts, true) <==> es != [] && es[0].kind != Load && !x.msg.disableResending)
            && (x in s.worker.answered <==> es != [] && (es[0].kind == Load || x.msg.disableResending || |es| == 2))
  {
    var s := Execute(n, steps);
    RunCourse(n, steps, x);
    EveryRun(n, steps);
    InvPostsOnce(s);
    assert Times(s.worker.posts, false, x) <= 1;
    assert x in Posted(s.worker.posts, true) <==> Times(s.worker.posts, true, x) > 0;
    AnsweredOrLive(s.received, s.worker, x);
    assert x in s.worker.answered <==> multiset(s.worker.answered)[x] > 0;
  }

  /** A message that was posted is answered or has an XHR in flight. */
  lemma AnsweredOrLive(received: seq<Item>, w: Worker, x: Item)
    requires WorkerInv(received, w)
    ensures Times(w.posts, false, x) == multiset(w.answered)[x] + Live(w.xhrs, x)
  {
    var sel := Own(x);
    SelectCount(sel, Posted(w.posts, false), x);
    SelectCount(sel, w.answered, x);
    SelectCount(sel, ItemsOf(w.xhrs), x);
    if x.queued { assert CommandInv(received, w, x.msg.cmd); }
  }
}
