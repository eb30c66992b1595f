/** One connection (`Session`): read callbacks that accumulate bytes until a request is
    complete, one answer for it, and the next read. */
module Session {
  import opened Folding
  import opened Text
  import opened Numbers
  import opened HttpResponse
  import opened HttpRequest
  import opened Store
  import opened Handlers

  // `http_helper.cc`

  datatype MalformedType = NotMalformed | Empty | NoHeaderTerminator

  function CheckMalformedRequest(buffer: string): MalformedType {
    if buffer == "" then Empty
    else if !Contains(buffer, CRLFCRLF) then NoHeaderTerminator
    else NotMalformed
  }

  predicate DetectHttpRequest(buffer: string) {
    Contains(buffer, CRLFCRLF) || Contains(buffer, "\n\n")
  }

  function BadRequest(body: string): Response {
    Make("HTTP/1.1", 400, "Bad Request", map["Content-Type" := "text/plain"], body)
  }

  function NotFound(): Response {
    Make("HTTP/1.1", 404, "Not Found", map["Content-Type" := "text/html"], "<h1>404 Not Found</h1>")
  }

  /** What is decided about the bytes of the buffer: read on, or answer and drop them. */
  datatype Verdict = ReadOn | Answer(wire: string, dispatched: Option<Request>)

  ghost function Rejected(body: string): Verdict {
    Answer(Wire(BadRequest(body)), None)
  }

  ghost function Answered(r: Request, answer: Option<Response>): Verdict {
    Answer(Wire(match answer case None => NotFound() case Some(response) => response), Some(r))
  }

  /** The answer to a request that is all there. */
  ghost function AnswerTo(app: App, r: Request): Verdict {
    if !IsValid(r) then Rejected("Malformed HTTP request") else Answered(r, app(r))
  }

  ghost function Dispatch(app: App, r: Request): Verdict {
    Folded((r: Request) => AnswerTo(app, r))(r)
  }

  lemma DispatchIsAnswer(app: App, r: Request)
    ensures Dispatch(app, r) == AnswerTo(app, r)
  {
    Unfold((r: Request) => AnswerTo(app, r), r);
  }

  function BodyReceived(buffer: string): nat
    requires Contains(buffer, CRLFCRLF)
  {
    |buffer| - (Find(buffer, CRLFCRLF, 0).value + 4)
  }

  ghost function JudgeLength(buffer: string, length: Conversion, dispatch: Verdict): Verdict
    requires Contains(buffer, CRLFCRLF)
  {
    match length
    case Converted(n) => if BodyReceived(buffer) < n then ReadOn else dispatch
    case _ => Rejected("Invalid Content-Length header")
  }

  ghost function JudgeAnnounced(buffer: string, announced: Option<string>, dispatch: Verdict): Verdict
    requires Contains(buffer, CRLFCRLF)
  {
    match announced
    case None => dispatch
    case Some(value) => JudgeLength(buffer, Stoull(value), dispatch)
  }

  ghost function JudgeRequest(app: App, buffer: string, r: Request): Verdict
    requires Contains(buffer, CRLFCRLF)
  {
    JudgeAnnounced(buffer, GetHeader(r.headers, "Content-Length"), Dispatch(app, r))
  }

  ghost function Judge(app: App, buffer: string): Verdict {
    if !Contains(buffer, CRLFCRLF) then Rejected("Malformed HTTP request")
    else JudgeRequest(app, buffer, ParseRequest(buffer))
  }

  /** An asynchronous operation the session has started. */
  datatype Operation = Read | Write(wire: string, consumed: string, dispatched: Option<Request>)

  /** The session between callbacks: how many operations of each kind are pending, and
      all that were started so far. */
  datatype State = State(buffer: string, pendingReads: nat, pendingWrites: nat, log: seq<Operation>)

  const STARTED := State("", 1, 0, [Read])

  /** What the environment may call back. */
  datatype Callback = ReadDone(bytes: string) | ReadFailed | WriteDone | WriteFailed

  predicate Enabled(s: State, cb: Callback) {
    if cb.ReadDone? || cb.ReadFailed? then s.pendingReads > 0 else s.pendingWrites > 0
  }

  /** Verdicts on the buffer, as runs are made of them. */
  type Judging = string -> Verdict

  ghost function JudgingOf(app: App): Judging {
    Folded((buffer: string) => Judge(app, buffer))
  }

  lemma JudgingIsJudge(app: App, buffer: string)
    ensures JudgingOf(app)(buffer) == Judge(app, buffer)
  {
    Unfold((buffer: string) => Judge(app, buffer), buffer);
  }

  /** The state after a read that completed, with the verdict on the buffer it left. */
  function Settle(s: State, buffer: string, v: Verdict): State
    requires s.pendingReads > 0
  {
    match v
    case ReadOn => s.(buffer := buffer, log := s.log + [Read])
    case Answer(wire, dispatched) =>
      State("", s.pendingReads - 1, s.pendingWrites + 1, s.log + [Write(wire, buffer, dispatched)])
  }

  function Next(judge: Judging, s: State, cb: Callback): State
    requires Enabled(s, cb)
  {
    match cb
    case ReadFailed => s.(pendingReads := s.pendingReads - 1)
    case WriteFailed => s.(pendingWrites := s.pendingWrites - 1)
    case WriteDone =>
      s.(pendingWrites := s.pendingWrites - 1, pendingReads := s.pendingReads + 1, log := s.log + [Read])
    case ReadDone(bytes) => Settle(s, s.buffer + bytes, judge(s.buffer + bytes))
  }

  // The store, which only handlers change.

  function StoreAfterVerdict(serving: Serving, store: Flat, v: Verdict): Flat {
    if v.Answer? && v.dispatched.Some? then serving(store, v.dispatched.value).store else store
  }

  function StoreAfterOperation(serving: Serving, store: Flat, op: Operation): Flat {
    if op.Write? && op.dispatched.Some? then serving(store, op.dispatched.value).store else store
  }

  /** The store after a callback that made the log `now` out of `was`. */
  function StoreAfterLogged(serving: Serving, store: Flat, was: seq<Operation>, now: seq<Operation>): Flat {
    if |was| < |now| then StoreAfterOperation(serving, store, now[|now| - 1]) else store
  }

  lemma SettleLogs(serving: Serving, store: Flat, s: State, buffer: string, v: Verdict)
    requires s.pendingReads > 0
    ensures StoreAfterLogged(serving, store, s.log, Settle(s, buffer, v).log) == StoreAfterVerdict(serving, store, v)
  {}

  lemma EmptyHasNoTerminator()
    ensures !Contains("", CRLFCRLF)
  {}

  class Session {
    const handlers: Handlers
    var buffer: string
    var pendingReads: nat    // pending reads and writes on the socket
    var pendingWrites: nat
    var log: seq<Operation>

    function View(): State
      reads this
    {
      State(buffer, pendingReads, pendingWrites, log)
    }

    constructor (handlers: Handlers)
      ensures this.handlers == handlers && View() == State("", 0, 0, [])
    {
      this.handlers := handlers;
      buffer, pendingReads, pendingWrites, log := "", 0, 0, [];
    }

    ghost function Store(): Flat
      reads handlers.crudFs
    {
      handlers.crudFs.View()
    }

    method AsyncReadSome()
      modifies this`pendingReads, this`log
      ensures pendingReads == old(pendingReads) + 1 && log == old(log) + [Read]
    {
      pendingReads, log := pendingReads + 1, log + [Read];
    }

    method AsyncWrite(wire: string, dispatched: Option<Request>)
      modifies this`pendingWrites, this`log
      ensures pendingWrites == old(pendingWrites) + 1 && log == old(log) + [Write(wire, buffer, dispatched)]
    {
      pendingWrites, log := pendingWrites + 1, log + [Write(wire, buffer, dispatched)];
    }

    method Start()
      requires View() == State("", 0, 0, [])
      modifies this
      ensures View() == STARTED
    {
      AsyncReadSome();
    }

    method HandleWrite(error: bool)
      requires pendingWrites > 0
      modifies this
      ensures View() == Next(JudgingOf(handlers.AppFor(Store())), old(View()), if error then WriteFailed else WriteDone)
    {
      pendingWrites := pendingWrites - 1;
      if !error {
        AsyncReadSome();
      }
    }

    /** The state after a verdict on the buffer, the read that led to it being over. */
    ghost function After(v: Verdict): State
      reads this
    {
      Settle(State(buffer, pendingReads + 1, pendingWrites, log), buffer, v)
    }

    method Respond(response: Response, dispatched: Option<Request>)
      modifies this
      ensures View() == old(After(Answer(Wire(response), dispatched)))
    {
      var message := new HttpResponse.Copy(response);
      var wire := message.ConvertToString();
      AsyncWrite(wire, dispatched);
      buffer := "";
    }

    /** `session.cc:171-194` */
    method HandleAnswer(request: Request, answer: Option<Response>)
      modifies this
      ensures View() == old(After(Answered(request, answer)))
    {
      match answer {
        case Some(response) =>
          Respond(response, Some(request));
        case None =>
          Respond(NotFound(), Some(request));
      }
    }

    /** `session.cc:159-194` */
    method HandleValid(request: Request, ghost store: Flat, ghost v: Verdict)
      requires store == Store() && v == Answered(request, handlers.Fixed()(store, request).response)
      modifies this, handlers.crudFs
      ensures View() == old(After(v))
      ensures Store() == StoreAfterVerdict(handlers.Fixed(), store, v)
    {
      var answer := handlers.HandleRequest(request);
      HandleAnswer(request, answer);
    }

    method Reject(body: string, ghost v: Verdict)
      requires v == Rejected(body)
      modifies this
      ensures View() == old(After(v)) && Store() == old(Store())
    {
      Respond(BadRequest(body), None);
    }

    /** `session.cc:131-194`: the answer to a request that is all there. */
    method HandleDispatch(request: Request, ghost store: Flat, ghost v: Verdict)
      requires store == Store() && v == Dispatch(handlers.AppFor(store), request)
      modifies this, handlers.crudFs
      ensures View() == old(After(v))
      ensures Store() == StoreAfterVerdict(handlers.Fixed(), store, v)
    {
      DispatchIsAnswer(handlers.AppFor(store), request);
      if !IsValid(request) {
        Reject("Malformed HTTP request", v);
        return;
      }
      AppIsServing(handlers.Fixed(), store, request);
      HandleValid(request, store, v);
    }

    /** `session.cc:107-129` */
    method AwaitBody(request: Request, contentLength: int, ghost store: Flat, ghost v: Verdict)
      requires Contains(buffer, CRLFCRLF) && store == Store()
      requires v == if BodyReceived(buffer) < contentLength then ReadOn else Dispatch(handlers.AppFor(store), request)
      modifies this, handlers.crudFs
      ensures View() == old(After(v))
      ensures Store() == StoreAfterVerdict(handlers.Fixed(), store, v)
    {
      var headerEnd := Find(buffer, CRLFCRLF, 0).value;
      var bodyStart := headerEnd + 4;
      var bodyReceived: nat := |buffer| - bodyStart;
      if bodyReceived < contentLength {
        AsyncReadSome();
      } else {
        HandleDispatch(request, store, v);
      }
    }

    /** `session.cc:79-127`: whether the announced body has arrived. */
    method HandleLength(request: Request, length: Conversion, ghost store: Flat, ghost v: Verdict)
      requires Contains(buffer, CRLFCRLF)
      requires store == Store() && v == JudgeLength(buffer, length, Dispatch(handlers.AppFor(store), request))
      modifies this, handlers.crudFs
      ensures View() == old(After(v))
      ensures Store() == StoreAfterVerdict(handlers.Fixed(), store, v)
    {
      if !length.Converted? {
        Reject("Invalid Content-Length header", v);
        return;
      }
      AwaitBody(request, length.n, store, v);
    }

    /** `session.cc:75-129`, then the dispatch. */
    method HandleRequest(request: Request, ghost store: Flat, ghost v: Verdict)
      requires Contains(buffer, CRLFCRLF)
      requires store == Store() && v == JudgeRequest(handlers.AppFor(store), buffer, request)
      modifies this, handlers.crudFs
      ensures View() == old(After(v))
      ensures Store() == StoreAfterVerdict(handlers.Fixed(), store, v)
    {
      var contentLengthOpt := FindHeader(request.headers, "Content-Length");
      GetIsFind(request.headers, "Content-Length");
      if contentLengthOpt.Some? {
        HandleLength(request, Stoull(contentLengthOpt.value), store, v);
      } else {
        HandleDispatch(request, store, v);
      }
    }

    /** `session.cc:39-205`: what is done about the bytes in the buffer. */
    method HandleBuffer(ghost store: Flat, ghost v: Verdict)
      requires store == Store() && v == JudgingOf(handlers.AppFor(store))(buffer)
      modifies this, handlers.crudFs
      ensures View() == old(After(v))
      ensures Store() == StoreAfterVerdict(handlers.Fixed(), store, v)
    {
      JudgingIsJudge(handlers.AppFor(store), buffer);
      var malformed := CheckMalformedRequest(buffer);
      if malformed != NotMalformed {
        EmptyHasNoTerminator();
        Reject("Malformed HTTP request", v);
        return;
      }
      if DetectHttpRequest(buffer) {
        var request := HttpRequest.Parse(buffer);
        HandleRequest(request.View(), store, v);
      } else {
        assert false;
      }
    }

    /** `session.cc:35-205`: `s` is the state the read was pending in. */
    method HandleBytes(bytes: string, ghost s: State, ghost store: Flat, ghost v: Verdict)
      requires s == State(buffer, pendingReads + 1, pendingWrites, log)
      requires store == Store() && v == JudgingOf(handlers.AppFor(store))(buffer + bytes)
      modifies this, handlers.crudFs
      ensures View() == Settle(s, s.buffer + bytes, v)
      ensures Store() == StoreAfterVerdict(handlers.Fixed(), store, v)
    {
      buffer := buffer + bytes;
      HandleBuffer(store, v);
    }

    method HandleRead(error: bool, bytes: string)
      requires pendingReads > 0
      modifies this, handlers.crudFs
      ensures View() == Next(JudgingOf(handlers.AppFor(old(Store()))), old(View()),
                             if error then ReadFailed else ReadDone(bytes))
      ensures Store() == StoreAfterLogged(handlers.Fixed(), old(Store()), old(log), log)
    {
      pendingReads := pendingReads - 1;
      if !error {
        ghost var store := Store();
        ghost var v := JudgingOf(handlers.AppFor(store))(buffer + bytes);
        SettleLogs(handlers.Fixed(), store, old(View()), buffer + bytes, v);
        HandleBytes(bytes, old(View()), store, v);
      }
    }
  }

  lemma NextOfRead(app: App, s: State, bytes: string, v: Verdict)
    requires s.pendingReads > 0 && v == Judge(app, s.buffer + bytes)
    ensures Next(JudgingOf(app), s, ReadDone(bytes)) == Settle(s, s.buffer + bytes, v)
  {
    JudgingIsJudge(app, s.buffer + bytes);
  }
}
