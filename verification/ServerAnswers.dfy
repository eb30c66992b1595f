/** What the server sends: each answer of a run is determined by what went before and can be taken apart again,
    and so can all the answers on a connection, one behind the other. */
module ServerAnswers {
  import opened Text
  import opened Numbers
  import opened HttpRequest
  import opened HttpResponse
  import opened Handlers
  import opened Session
  import opened SessionLaws
  import opened World
  import opened PathRouter
  import opened CrudHandler
  import CrudRuns
  import opened EndToEnd

  // The answers that are no handler's.

  predicate Unreadable(length: Option<string>) {
    length.Some? && !Stoull(length.value).Converted?
  }

  /** The answer to bytes that are not dispatched. */
  ghost function Rejection(buffer: string): Response {
    if Contains(buffer, CRLFCRLF) && Unreadable(GetHeader(ParseRequest(buffer).headers, "Content-Length")) then
      BadRequest("Invalid Content-Length header")
    else
      BadRequest("Malformed HTTP request")
  }

  lemma BadRequestIsReply(body: string)
    ensures BadRequest(body) == Reply(400, "Bad Request", "text/plain", body)
  {}

  lemma NotFoundIsReply()
    ensures NotFound() == Reply(404, "Not Found", "text/html", "<h1>404 Not Found</h1>")
  {}

  lemma BadRequestIsSound(body: string)
    ensures Sound(BadRequest(body))
  {
    BadRequestIsReply(body);
    ReplyIsSound(400, "Bad Request", "text/plain", body);
  }

  lemma NotFoundIsSound()
    ensures Sound(NotFound())
  {
    NotFoundIsReply();
    ReplyIsSound(404, "Not Found", "text/html", "<h1>404 Not Found</h1>");
  }

  /** The bytes of a rejection. */
  lemma RejectionOnWire(buffer: string)
    ensures var length := GetHeader(ParseRequest(buffer).headers, "Content-Length");
            var text := if Contains(buffer, CRLFCRLF) && length.Some? && !Stoull(length.value).Converted? then
                          "Invalid Content-Length header"
                        else
                          "Malformed HTTP request";
            && Rejection(buffer).status == 400 && Rejection(buffer).body == text
            && Wire(Rejection(buffer)) ==
               TwoFieldText("HTTP/1.1", 400, "Bad Request", "Content-Length", NatToString(|text|), "Content-Type",
                            "text/plain", text)
  {
    BadRequestIsReply(Rejection(buffer).body);
    ReplyOnWire(400, "Bad Request", "text/plain", Rejection(buffer).body);
  }

  lemma RejectionHasStatus(buffer: string)
    ensures Rejection(buffer).status == 400
  {
    BadRequestIsReply(Rejection(buffer).body);
  }

  lemma NotFoundOnWire()
    ensures var text := "<h1>404 Not Found</h1>";
            Wire(NotFound()) ==
            TwoFieldText("HTTP/1.1", 404, "Not Found", "Content-Length", NatToString(|text|), "Content-Type",
                         "text/html", text)
  {
    NotFoundIsReply();
    ReplyOnWire(404, "Not Found", "text/html", "<h1>404 Not Found</h1>");
  }

  lemma LengthIsRejected(buffer: string, announced: Option<string>, dispatch: Verdict, wire: string)
    requires Contains(buffer, CRLFCRLF) && JudgeAnnounced(buffer, announced, dispatch) == Answer(wire, None)
    ensures if Unreadable(announced) then wire == Wire(BadRequest("Invalid Content-Length header"))
            else dispatch == Answer(wire, None)
  {}

  lemma RequestIsRejected(app: App, buffer: string, r: Request, wire: string)
    requires Contains(buffer, CRLFCRLF) && JudgeRequest(app, buffer, r) == Answer(wire, None)
    ensures wire == Wire(if Unreadable(GetHeader(r.headers, "Content-Length")) then
                           BadRequest("Invalid Content-Length header")
                         else
                           BadRequest("Malformed HTTP request"))
  {
    LengthIsRejected(buffer, GetHeader(r.headers, "Content-Length"), Dispatch(app, r), wire);
    DispatchIsAnswer(app, r);
  }

  lemma RejectedWithRejection(app: App, buffer: string, wire: string)
    requires Judge(app, buffer) == Answer(wire, None)
    ensures wire == Wire(Rejection(buffer))
  {
    if Contains(buffer, CRLFCRLF) {
      RequestIsRejected(app, buffer, ParseRequest(buffer), wire);
    }
  }

  // Each answer.

  /** The response that an answer stands for, when the log tells what went before. */
  ghost function ResponseFor(site: Site, log: seq<Entry>, consumed: string, dispatched: Option<Request>): Response {
    if dispatched.Some? then ResponseTo(site, log, dispatched.value) else Rejection(consumed)
  }

  /** The other handlers set header fields of one line, with names without colon, and leave the length alone. */
  ghost predicate SoundSite(site: Site) {
    forall r :: Sound(ResponseOf(site.others, r))
  }

  predicate ByCrud(site: Site, r: Request) {
    IsCrud(site.routes, Longest(site.routes.Keys, r.path))
  }

  lemma ResponseIsSound(site: Site, log: seq<Entry>, consumed: string, dispatched: Option<Request>)
    requires SoundSite(site) || dispatched.None? || ByCrud(site, dispatched.value)
    ensures Sound(ResponseFor(site, log, consumed, dispatched))
  {
    if dispatched.None? {
      BadRequestIsSound("Invalid Content-Length header");
      BadRequestIsSound("Malformed HTTP request");
    } else if ByCrud(site, dispatched.value) {
      var route := Longest(site.routes.Keys, dispatched.value.path);
      ServedIsSound(route.value, CrudRuns.StoreAfter(CrudSteps(site.routes, log)), dispatched.value);
    }
  }

  lemma RejectedAnswer(site: Site, run: seq<Occurrence>, i: nat)
    requires Occurs(ServingOf(site), EMPTY, run)
    requires i < |Becomes(ServingOf(site), EMPTY, run).log|
    ensures var op := Becomes(ServingOf(site), EMPTY, run).log[i].operation;
            op.Write? && op.dispatched.None? ==> op.wire == Wire(Rejection(op.consumed))
  {
    var serving, w := ServingOf(site), Becomes(ServingOf(site), EMPTY, run);
    var op := w.log[i].operation;
    EveryWorldIsCoherent(serving, run);
    assert Answers(serving, w.log, i);
    if op.Write? && op.dispatched.None? {
      var app := AppOf(serving, StoreOf(serving, w.log[..i]));
      JudgingIsJudge(app, op.consumed);
      RejectedWithRejection(app, op.consumed, op.wire);
    }
  }

  /** In every run of the server each answer is the wire text of one response, which what went before determines,
      and from which a client that knows nothing else reads that response. */
  lemma EveryAnswerDecodes(site: Site, run: seq<Occurrence>, i: nat)
    requires Occurs(ServingOf(site), EMPTY, run)
    requires i < |Becomes(ServingOf(site), EMPTY, run).log|
    ensures var w := Becomes(ServingOf(site), EMPTY, run);
            var op := w.log[i].operation;
            op.Write? ==>
              var response := ResponseFor(site, w.log[..i], op.consumed, op.dispatched);
              && op.wire == Wire(response)
              && (SoundSite(site) || op.dispatched.None? || ByCrud(site, op.dispatched.value) ==>
                    Sound(response) && Decode(op.wire) == response)
              && (op.dispatched.None? ==> Decode(op.wire).status == 400)
  {
    var w := Becomes(ServingOf(site), EMPTY, run);
    var op := w.log[i].operation;
    EveryServerRun(site, run, i);
    RejectedAnswer(site, run, i);
    if op.Write? && (SoundSite(site) || op.dispatched.None? || ByCrud(site, op.dispatched.value)) {
      ResponseIsSound(site, w.log[..i], op.consumed, op.dispatched);
      RejectionHasStatus(op.consumed);
      DecodeOfWire(ResponseFor(site, w.log[..i], op.consumed, op.dispatched));
    }
  }

  // All answers on a connection.

  /** What the server has sent on a connection. */
  function OutputOn(log: seq<Entry>, c: nat): string {
    if log == [] then ""
    else
      var last := log[|log| - 1];
      OutputOn(log[..|log| - 1], c) + if last.connection == c && last.operation.Write? then last.operation.wire else ""
  }

  /** The responses of a connection, each determined by what went before it on all connections. */
  ghost function ResponsesOn(site: Site, log: seq<Entry>, c: nat): seq<Response> {
    if log == [] then []
    else
      var init, last := log[..|log| - 1], log[|log| - 1];
      ResponsesOn(site, init, c) +
      if last.connection == c && last.operation.Write? then
        [ResponseFor(site, init, last.operation.consumed, last.operation.dispatched)]
      else
        []
  }

  /** Entry `i`, if it is an answer, is that of a response that can be taken apart. */
  ghost predicate SentSoundly(site: Site, log: seq<Entry>, i: nat)
    requires i < |log|
  {
    var op := log[i].operation;
    op.Write? ==>
      var response := ResponseFor(site, log[..i], op.consumed, op.dispatched);
      op.wire == Wire(response) && Sound(response)
  }

  lemma SentBefore(site: Site, log: seq<Entry>, n: nat)
    requires n <= |log| && forall i :: 0 <= i < |log| ==> SentSoundly(site, log, i)
    ensures forall i :: 0 <= i < n ==> SentSoundly(site, log[..n], i)
  {
    forall i | 0 <= i < n ensures SentSoundly(site, log[..n], i) {
      assert SentSoundly(site, log, i) && log[..n][..i] == log[..i];
    }
  }

  lemma OneMoreSound(rs: seq<Response>, r: Response)
    requires AllSound(rs) && Sound(r)
    ensures AllSound(rs + [r])
  {}

  lemma {:induction false} OutputIsWires(site: Site, log: seq<Entry>, c: nat)
    requires forall i :: 0 <= i < |log| ==> SentSoundly(site, log, i)
    ensures AllSound(ResponsesOn(site, log, c)) && OutputOn(log, c) == Wires(ResponsesOn(site, log, c))
    decreases |log|
  {
    if log != [] {
      var n := |log| - 1;
      var rs, op := ResponsesOn(site, log[..n], c), log[n].operation;
      SentBefore(site, log, n);
      OutputIsWires(site, log[..n], c);
      assert SentSoundly(site, log, n);
      if log[n].connection == c && op.Write? {
        var response := ResponseFor(site, log[..n], op.consumed, op.dispatched);
        WiresSnoc(rs, response);
        OneMoreSound(rs, response);
      } else {
        assert rs + [] == rs && OutputOn(log[..n], c) + "" == OutputOn(log[..n], c);
      }
    }
  }

  lemma {:induction false} OneForEach(site: Site, log: seq<Entry>, c: nat)
    ensures |ResponsesOn(site, log, c)| == |Writes(OperationsOn(log, c))|
    decreases |log|
  {
    if log != [] {
      WritesOnSnoc(log, c);
      OneForEach(site, log[..|log| - 1], c);
    }
  }

  /** In every run of the server, all bytes sent on a connection, read as heads and as many bytes as they announce,
      are one response for each answer, in order, each as what went before on all connections determines. */
  lemma AnswersSplit(site: Site, run: seq<Occurrence>, c: nat)
    requires Occurs(ServingOf(site), EMPTY, run) && SoundSite(site)
    ensures var log := Becomes(ServingOf(site), EMPTY, run).log;
            && ReadResponses(OutputOn(log, c)) == ResponsesOn(site, log, c)
            && |ResponsesOn(site, log, c)| == |Writes(OperationsOn(log, c))|
  {
    var log := Becomes(ServingOf(site), EMPTY, run).log;
    forall i | 0 <= i < |log| ensures SentSoundly(site, log, i) {
      EveryAnswerDecodes(site, run, i);
    }
    OutputIsWires(site, log, c);
    ReadAll(ResponsesOn(site, log, c));
    OneForEach(site, log, c);
  }
}
