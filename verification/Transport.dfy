/** Service messages: window -> port -> worker -> XHR and back.
    src/client/transport/transport-in-worker.ts, src/client/transport-worker/index.ts and
    src/client/transport-worker/request.ts. */
module Transport {
  import opened Prelude

  datatype Msg = Msg(cmd: string, body: int, disableResending: bool)

  /** A message wrapper. `serial` numbers the calls of all windows and only identifies the message;
      the programs use `window` (the port) and `id`. */
  datatype Item = Item(serial: nat, window: nat, id: int, queued: bool, msg: Msg)

  /** What the callback of a request gets: an error message, or the text of the response (which is
      parsed as JSON); `about` is the message that the server answered. */
  datatype Result = Result(about: nat, err: Option<string>, response: Option<string>)

  datatype Reply = Reply(item: Item, result: Result)

  // ---------------------------------------------------------------- the window side

  const MAX_SAFE_INTEGER := 9007199254740991
  const MIN_SAFE_INTEGER := -9007199254740991

  function NextId(id: int): int {
    if id == MAX_SAFE_INTEGER then MIN_SAFE_INTEGER else id + 1
  }

  /** TransportInWorker: `held` is _queue, `active` is _activeServiceMsgCount. */
  datatype Window = Window(started: bool, lastId: int, callbacks: map<int, Item>, active: int, held: seq<Item>)

  const NewWindow := Window(false, MIN_SAFE_INTEGER, map[], 0, [])

  /** asyncServiceMsg: the new state and what is posted to the worker. */
  function Call(win: Window, item: Item): (Window, seq<Item>) {
    var w := win.(lastId := item.id, active := win.active + 1, callbacks := win.callbacks[item.id := item]);
    if win.started then (w, [item]) else (w.(held := win.held + [item]), [])
  }

  /** The port becomes available: _processQueue. */
  function Start(win: Window): (Window, seq<Item>) {
    (win.(started := true, held := []), win.held)
  }

  /** _onWorkerMessage: the new state and the callback that fires. */
  function OnReply(win: Window, id: int): (Window, Option<Item>) {
    if id !in win.callbacks then (win, None)
    else (win.(callbacks := win.callbacks - {id}, active := win.active - 1), Some(win.callbacks[id]))
  }

  class TransportInWorker {
    const window: nat
    var transportWorker: bool
    var lastId: int
    var messageCallbacks: map<int, Item>
    var activeServiceMsgCount: int
    var queue: seq<Item>
    /** What was posted to the worker. */
    var posted: seq<Item>
    /** The callbacks that were called, with what. */
    var resolved: seq<Reply>

    function Fields(): Window
      reads this
    {
      Window(transportWorker, lastId, messageCallbacks, activeServiceMsgCount, queue)
    }

    constructor (window: nat)
      ensures this.window == window && Fields() == NewWindow && posted == [] && resolved == []
    {
      this.window := window;
      transportWorker, lastId, messageCallbacks, activeServiceMsgCount, queue := false, MIN_SAFE_INTEGER, map[], 0, [];
      posted, resolved := [], [];
    }

    method ProcessQueue()
      modifies this`posted, this`queue
      ensures posted == old(posted) + old(queue) && queue == []
    {
      var i := 0;
      while i < |queue|
        invariant 0 <= i <= |queue| && queue == old(queue)
        invariant posted == old(posted) + queue[..i]
      {
        posted := posted + [queue[i]];
        i := i + 1;
      }
      queue := [];
    }

    method AsyncServiceMsg(msg: Msg, queued: bool, serial: nat)
      modifies this
      ensures var item := Item(serial, window, NextId(old(lastId)), queued, msg);
              && Fields() == Call(old(Fields()), item).0
              && posted == old(posted) + Call(old(Fields()), item).1
      ensures resolved == old(resolved)
    {
      var id := NextId(lastId);
      lastId := id;
      activeServiceMsgCount := activeServiceMsgCount + 1;
      var item := Item(serial, window, id, queued, msg);
      messageCallbacks := messageCallbacks[id := item];
      if transportWorker {
        posted := posted + [item];
      } else {
        queue := queue + [item];
      }
    }

    method SetPort()
      modifies this
      ensures Fields() == Start(old(Fields())).0 && posted == old(posted) + Start(old(Fields())).1
      ensures resolved == old(resolved)
    {
      transportWorker := true;
      ProcessQueue();
    }

    method OnWorkerMessage(id: int, result: Result)
      modifies this
      ensures Fields() == OnReply(old(Fields()), id).0 && posted == old(posted)
      ensures var callback := OnReply(old(Fields()), id).1;
              resolved == old(resolved) + if callback.Some? then [Reply(callback.value, result)] else []
    {
      if id !in messageCallbacks {
        return;
      }
      activeServiceMsgCount := activeServiceMsgCount - 1;
      resolved := resolved + [Reply(messageCallbacks[id], result)];
      messageCallbacks := messageCallbacks - {id};
    }
  }

  // ---------------------------------------------------------------- the worker side

  /** An XHR in flight; `resend` says that its message may be posted once more. */
  datatype Xhr = Xhr(item: Item, resend: bool)

  /** One POST; `again` marks the second one of a message. */
  datatype Post = Post(item: Item, again: bool)

  datatype EventKind = Load | Abort | Error | Timeout

  /** The event that ends an XHR, with the status and the text that the XHR then has. */
  datatype Event = Event(kind: EventKind, status: nat, text: string)

  /** The worker: message queues by command, XHRs in flight, and the history of POSTs, of answered
      messages and of replies posted back to the ports. */
  datatype Worker = Worker(queues: map<string, seq<Item>>, xhrs: seq<Xhr>, posts: seq<Post>, answered: seq<Item>, replies: seq<Reply>)

  const NewWorker := Worker(map[], [], [], [], [])

  function Queue(w: Worker, cmd: string): seq<Item> {
    if cmd in w.queues then w.queues[cmd] else []
  }

  function Send(w: Worker, item: Item, again: bool, resend: bool): Worker {
    w.(xhrs := w.xhrs + [Xhr(item, resend)], posts := w.posts + [Post(item, again)])
  }

  function SendFirst(w: Worker, item: Item): Worker {
    Send(w, item, false, !item.msg.disableResending)
  }

  /** messageListener for a service message. */
  function Accept(w: Worker, item: Item): Worker {
    if !item.queued then SendFirst(w, item) else
    var q := Queue(w, item.msg.cmd) + [item];
    var w' := w.(queues := w.queues[item.msg.cmd := q]);
    if |q| == 1 then SendFirst(w', item) else w'
  }

  /** The callback of a request. For a queued message it answers the head of the queue and sends
      the next one (on an empty queue it would throw). */
  function Complete(w: Worker, item: Item, result: Result): Worker {
    if !item.queued then w.(answered := w.answered + [item], replies := w.replies + [Reply(item, result)]) else
    var q := Queue(w, item.msg.cmd);
    if q == [] then w else
    var w' := w.(queues := w.queues[item.msg.cmd := q[1..]], answered := w.answered + [q[0]],
                 replies := w.replies + [Reply(q[0], result)]);
    if |q| > 1 then SendFirst(w', q[1]) else w'
  }

  function ErrorMessage(e: Event): string {
    "XHR request failed with " + Decimal(e.status) + " status code."
    + if e.text != "" then "\nError message: " + e.text else ""
  }

  /** handleReject */
  function Reject(w: Worker, x: Xhr, e: Event): Worker {
    if x.resend then Send(w, x.item, true, false)
    else Complete(w, x.item, Result(x.item.serial, Some(ErrorMessage(e)), None))
  }

  /** handleResolve: a 500 response with a text comes from the service message handler. */
  function Resolve(w: Worker, x: Xhr, e: Event): Worker {
    if e.status == 500 && e.text != "" then Reject(w, x.(resend := false), e)
    else Complete(w, x.item, Result(x.item.serial, None, Some(e.text)))
  }

  /** handleEvent of the i-th XHR in flight. */
  function Finish(w: Worker, i: nat, e: Event): Worker
    requires i < |w.xhrs|
  {
    var w' := w.(xhrs := w.xhrs[..i] + w.xhrs[i + 1..]);
    if e.kind == Load then Resolve(w', w.xhrs[i], e) else Reject(w', w.xhrs[i], e)
  }

  class TransportWorker {
    var msgQueue: map<string, seq<Item>>
    var xhrs: seq<Xhr>
    var posts: seq<Post>
    var answered: seq<Item>
    var replies: seq<Reply>

    function Fields(): Worker
      reads this
    {
      Worker(msgQueue, xhrs, posts, answered, replies)
    }

    constructor ()
      ensures Fields() == NewWorker
    {
      msgQueue, xhrs, posts, answered, replies := map[], [], [], [], [];
    }

    /** request */
    method Request(item: Item, again: bool, resend: bool)
      modifies this
      ensures Fields() == Send(old(Fields()), item, again, resend)
    {
      posts := posts + [Post(item, again)];
      xhrs := xhrs + [Xhr(item, resend)];
    }

    method MessageListener(item: Item)
      modifies this
      ensures Fields() == Accept(old(Fields()), item)
    {
      if item.queued {
        QueuedAsyncServiceMsg(item);
      } else {
        Request(item, false, !item.msg.disableResending);
      }
    }

    method QueuedAsyncServiceMsg(item: Item)
      requires item.queued
      modifies this
      ensures Fields() == Accept(old(Fields()), item)
    {
      var cmd := item.msg.cmd;
      if cmd !in msgQueue {
        msgQueue := msgQueue[cmd := []];
      }
      msgQueue := msgQueue[cmd := msgQueue[cmd] + [item]];
      assert old(Fields()).queues[cmd := Queue(old(Fields()), cmd) + [item]] == msgQueue;
      if |msgQueue[cmd]| == 1 {
        Request(item, false, !item.msg.disableResending);
      }
    }

    /** The callback that a request was started with. */
    method OnResult(item: Item, result: Result)
      requires item.queued ==> Queue(Fields(), item.msg.cmd) != []
      modifies this
      ensures Fields() == Complete(old(Fields()), item, result)
    {
      if !item.queued {
        answered := answered + [item];
        replies := replies + [Reply(item, result)];
        return;
      }
      var cmd := item.msg.cmd;
      var queuedMsg := msgQueue[cmd][0];
      msgQueue := msgQueue[cmd := msgQueue[cmd][1..]];
      answered := answered + [queuedMsg];
      replies := replies + [Reply(queuedMsg, result)];
      if |msgQueue[cmd]| > 0 {
        Request(msgQueue[cmd][0], false, !msgQueue[cmd][0].msg.disableResending);
      }
    }

    method HandleReject(x: Xhr, e: Event)
      requires x.item.queued ==> Queue(Fields(), x.item.msg.cmd) != []
      modifies this
      ensures Fields() == Reject(old(Fields()), x, e)
    {
      if x.resend {
        Request(x.item, true, false);
      } else {
        var errorMsg := "XHR request failed with " + Decimal(e.status) + " status code.";
        if e.text != "" {
          errorMsg := errorMsg + ("\nError message: " + e.text);
        }
        assert errorMsg == ErrorMessage(e);
        OnResult(x.item, Result(x.item.serial, Some(errorMsg), None));
      }
    }

    method HandleResolve(x: Xhr, e: Event)
      requires x.item.queued ==> Queue(Fields(), x.item.msg.cmd) != []
      modifies this
      ensures Fields() == Resolve(old(Fields()), x, e)
    {
      if e.status == 500 && e.text != "" {
        HandleReject(x.(resend := false), e);
      } else {
        OnResult(x.item, Result(x.item.serial, None, Some(e.text)));
      }
    }

    method HandleEvent(i: nat, e: Event)
      requires i < |xhrs| && (xhrs[i].item.queued ==> Queue(Fields(), xhrs[i].item.msg.cmd) != [])
      modifies this
      ensures Fields() == Finish(old(Fields()), i, e)
    {
      var x := xhrs[i];
      xhrs := xhrs[..i] + xhrs[i + 1..];
      if e.kind == Load {
        HandleResolve(x, e);
      } else {
        HandleReject(x, e);
      }
    }
  }
}
