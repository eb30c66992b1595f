/** The components together: messages on the connections of a server, judged by sessions, routed,
    and served by CRUD handlers from the one store. */
module EndToEnd {
  import opened Text
  import opened Numbers
  import opened Maps
  import opened HttpRequest
  import opened HttpRequestLaws
  import opened Handlers
  import opened Session
  import opened SessionLaws
  import opened World
  import opened PathRouter
  import opened Store
  import opened CrudPath
  import opened CrudHandler
  import opened CrudRuns
  import HttpResponse

  // The store of a server is the history of its requests.

  function StepsOfRequest(routes: Routes, r: Request): seq<Step> {
    var route := Longest(routes.Keys, r.path);
    if IsCrud(routes, route) then [Step(route.value, r)] else []
  }

  function StepsOf(routes: Routes, op: Operation): seq<Step> {
    if op.Write? && op.dispatched.Some? then StepsOfRequest(routes, op.dispatched.value) else []
  }

  /** The requests of a log that went to CRUD handlers, each with the prefix it was routed by. */
  function CrudSteps(routes: Routes, log: seq<Entry>): seq<Step> {
    if log == [] then []
    else CrudSteps(routes, log[..|log| - 1]) + StepsOf(routes, log[|log| - 1].operation)
  }

  lemma StoreAfterStep(run: seq<Step>, step: Step)
    ensures StoreAfter(run + [step]) == Serve(step.prefix, StoreAfter(run), step.request).store
  {
    assert (run + [step])[..|run|] == run;
  }

  lemma RequestIsStep(site: Site, run: seq<Step>, r: Request)
    ensures ServingOf(site)(StoreAfter(run), r).store == StoreAfter(run + StepsOfRequest(site.routes, r))
  {
    ServingIsHandle(site, StoreAfter(run), r);
    var route := Longest(site.routes.Keys, r.path);
    if IsCrud(site.routes, route) {
      StoreAfterStep(run, Step(route.value, r));
    } else {
      assert run + [] == run;
    }
  }

  /** What dispatched requests do to the store is what the CRUD requests among them do, one after the other. */
  lemma {:induction false} StoreIsHistory(site: Site, log: seq<Entry>)
    ensures StoreOf(ServingOf(site), log) == StoreAfter(CrudSteps(site.routes, log))
    decreases |log|
  {
    if log != [] {
      var init, op := log[..|log| - 1], log[|log| - 1].operation;
      StoreIsHistory(site, init);
      if op.Write? && op.dispatched.Some? {
        RequestIsStep(site, CrudSteps(site.routes, init), op.dispatched.value);
      } else {
        assert CrudSteps(site.routes, init) + [] == CrudSteps(site.routes, init);
      }
    }
  }

  /** The response of the server to a request, when the log tells what went before. */
  ghost function ResponseTo(site: Site, log: seq<Entry>, r: Request): HttpResponse.Response {
    var route := Longest(site.routes.Keys, r.path);
    if IsCrud(site.routes, route) then ResponseAfter(CrudSteps(site.routes, log), Step(route.value, r))
    else ResponseOf(site.others, r)
  }

  lemma ResponseIsHistory(site: Site, log: seq<Entry>, r: Request)
    ensures ResponseOf(AppOf(ServingOf(site), StoreOf(ServingOf(site), log)), r) == ResponseTo(site, log, r)
  {
    var store := StoreAfter(CrudSteps(site.routes, log));
    StoreIsHistory(site, log);
    AppIsServing(ServingOf(site), store, r);
    ServingIsHandle(site, store, r);
  }

  /** In every run of the server, over any connections and with any bytes, the store is the result of
      the history of CRUD requests, in the order of their dispatch. */
  lemma StoreOfServer(site: Site, run: seq<Occurrence>)
    requires Occurs(ServingOf(site), EMPTY, run)
    ensures var w := Becomes(ServingOf(site), EMPTY, run); w.store == StoreAfter(CrudSteps(site.routes, w.log))
  {
    EveryWorldIsCoherent(ServingOf(site), run);
    StoreIsHistory(site, Becomes(ServingOf(site), EMPTY, run).log);
  }

  /** In every run of the server each request that is dispatched is complete and valid, and its answer is
      the response that the history of CRUD requests before it determines; all else is answered 400. */
  lemma EveryServerRun(site: Site, run: seq<Occurrence>, i: nat)
    requires Occurs(ServingOf(site), EMPTY, run)
    requires i < |Becomes(ServingOf(site), EMPTY, run).log|
    ensures var w := Becomes(ServingOf(site), EMPTY, run);
            var op := w.log[i].operation;
            op.Write? ==>
              && (op.dispatched.Some? <==> Complete(op.consumed) && IsValid(ParseRequest(op.consumed)))
              && (op.dispatched.Some? ==>
                    && op.dispatched.value == ParseRequest(op.consumed)
                    && op.wire == HttpResponse.Wire(ResponseTo(site, w.log[..i], op.dispatched.value)))
              && (op.dispatched.None? ==> IsBadRequest(op.wire))
  {
    var w := Becomes(ServingOf(site), EMPTY, run);
    var op := w.log[i].operation;
    EveryWorldIsCoherent(ServingOf(site), run);
    assert Answers(ServingOf(site), w.log, i);
    if op.Write? {
      var app := AppOf(ServingOf(site), StoreOf(ServingOf(site), w.log[..i]));
      JudgingIsJudge(app, op.consumed);
      JudgeAnswers(app, op.consumed, op.wire, op.dispatched);
      if op.dispatched.Some? {
        ResponseIsHistory(site, w.log[..i], op.dispatched.value);
      }
    }
  }

  // Printed messages are dispatched.

  /** A message to the CRUD handler at `prefix`, and the chunks it arrives in. */
  datatype Sent = Sent(prefix: string, verb: string, path: string, headers: Pairs<string>, body: string,
                       chunks: seq<string>)

  function TextOf(x: Sent): string {
    RequestText(x.verb, x.path, "HTTP/1.1", x.headers, x.body)
  }

  function HeadText(x: Sent): string {
    RequestText(x.verb, x.path, "HTTP/1.1", x.headers, "")
  }

  predicate ServedVerb(verb: string) {
    verb in ["GET", "POST", "PUT", "DELETE"]
  }

  ghost function LengthField(x: Sent): Option<string> {
    GetHeader(FromPairs(Trimmed(x.headers)), "Content-Length")
  }

  /** A body is announced with its length. */
  ghost predicate Announced(x: Sent) {
    LengthField(x) == Some(NatToString(|x.body|)) || (LengthField(x) == None && x.body == "")
  }

  ghost predicate Printed(x: Sent) {
    && Sendable(x.verb, x.path, "HTTP/1.1", x.headers) && |x.body| < TWO_TO_THE_64 && Announced(x)
    && ServedVerb(x.verb) && x.path[0] == '/'
  }

  predicate Routed(routes: Routes, x: Sent) {
    Longest(routes.Keys, x.path) == Some(x.prefix) && IsCrud(routes, Some(x.prefix))
  }

  predicate HeadFirst(x: Sent) {
    x.chunks != [] && NonEmpty(x.chunks) && Concat(x.chunks) == TextOf(x) && |x.chunks[0]| >= |HeadText(x)|
  }

  lemma UnannouncedIsDispatched(app: App, buffer: string, r: Request)
    requires Contains(buffer, CRLFCRLF) && GetHeader(r.headers, "Content-Length") == None
    ensures JudgeRequest(app, buffer, r) == Dispatch(app, r)
  {}

  lemma UnannouncedIsJudged(app: App, x: Sent)
    requires Printed(x) && LengthField(x) == None
    ensures Judge(app, TextOf(x)) == Dispatch(app, ParseRequest(TextOf(x)))
  {
    PrintedHead(x.verb, x.path, "HTTP/1.1", x.headers, x.body);
    SendableIsSendable(x.verb, x.path, "HTTP/1.1", x.headers);
    ParseOfRequestText(x.verb, x.path, "HTTP/1.1", x.headers, x.body);
    UnannouncedIsDispatched(app, TextOf(x), ParseRequest(TextOf(x)));
  }

  lemma AnnouncedIsJudged(app: App, x: Sent)
    requires Printed(x) && LengthField(x).Some?
    ensures Judge(app, TextOf(x)) == Dispatch(app, ParseRequest(TextOf(x)))
    ensures ReadsOn(JudgingOf(app), TextOf(x), |HeadText(x)|)
  {
    var at, head := PrintedIsWellFramed(x.verb, x.path, "HTTP/1.1", x.headers, x.body);
    JudgeWhole(app, TextOf(x), at, head, |x.body|);
    WellFramedReadsOn(app, TextOf(x), at, head, |x.body|);
  }

  /** A printed message is read on until it is whole, and then dispatched, whatever the handlers. */
  lemma PrintedIsDispatched(app: App, x: Sent)
    requires Printed(x)
    ensures ReadsOn(JudgingOf(app), TextOf(x), |HeadText(x)|)
    ensures Judge(app, TextOf(x)) == Dispatch(app, ParseRequest(TextOf(x)))
  {
    if LengthField(x) == None {
      assert TextOf(x) == HeadText(x);
      UnannouncedIsJudged(app, x);
    } else {
      AnnouncedIsJudged(app, x);
    }
  }

  lemma NoSpaceInWord(w: string)
    requires IsWord(w)
    ensures ' ' !in w
  {}

  /** What of a printed message the router and the CRUD handler look at. */
  lemma PrintedRequest(x: Sent)
    requires Printed(x)
    ensures var r := ParseRequest(TextOf(x));
            && r.verb == x.verb && r.path == x.path && r.body == DropFinalLF(x.body)
            && r.queryParams == QueryParams(x.path) && IsValid(r)
  {
    PrintedHead(x.verb, x.path, "HTTP/1.1", x.headers, x.body);
    SendableIsSendable(x.verb, x.path, "HTTP/1.1", x.headers);
    ParseOfRequestText(x.verb, x.path, "HTTP/1.1", x.headers, x.body);
    NoSpaceInWord(x.path);
  }

  function ParcelOf(x: Sent): Parcel {
    Parcel(TextOf(x), |HeadText(x)|, x.chunks)
  }

  function Parcels(xs: seq<Sent>): seq<Parcel> {
    seq(|xs|, i requires 0 <= i < |xs| => ParcelOf(xs[i]))
  }

  lemma PrintedIsDecided(app: App, x: Sent)
    requires Printed(x)
    ensures Decides(JudgingOf(app), ParcelOf(x))
    ensures JudgingOf(app)(TextOf(x)).dispatched == Some(ParseRequest(TextOf(x)))
  {
    PrintedIsDispatched(app, x);
    PrintedRequest(x);
    JudgingIsJudge(app, TextOf(x));
    DispatchAnswers(app, ParseRequest(TextOf(x)));
  }

  ghost predicate AllRouted(routes: Routes, xs: seq<Sent>) {
    forall i :: 0 <= i < |xs| ==> Printed(xs[i]) && Routed(routes, xs[i])
  }

  ghost predicate Proper(routes: Routes, xs: seq<Sent>) {
    forall i :: 0 <= i < |xs| ==> Printed(xs[i]) && Routed(routes, xs[i]) && HeadFirst(xs[i])
  }

  lemma ProperIsDecided(routes: Routes, xs: seq<Sent>, hs: seq<Happening>)
    requires Proper(routes, xs)
    ensures AllCut(Parcels(xs)) && AllDecide(Moments(hs), Parcels(xs))
  {
    forall i, j | 0 <= i < |hs| && 0 <= j < |xs| ensures Decides(Moments(hs)[i].judge, Parcels(xs)[j]) {
      PrintedIsDecided(hs[i].app, xs[j]);
    }
  }

  // Conversations on the connections of a server.

  ghost predicate IsAnswerTo(op: Operation, x: Sent) {
    op.Write? && op.consumed == TextOf(x) && op.dispatched == Some(ParseRequest(TextOf(x)))
  }

  /** The answers are to these messages, in order, each to the whole message and nothing else. */
  ghost predicate AnswerInOrder(writes: seq<Operation>, xs: seq<Sent>) {
    && |writes| == |xs|
    && forall j :: 0 <= j < |xs| ==> IsAnswerTo(writes[j], xs[j])
  }

  lemma GivenIsDispatched(hs: seq<Happening>, x: Sent, v: Verdict)
    requires Printed(x) && GivenIn(Moments(hs), TextOf(x), v)
    ensures v.Answer? && v.dispatched == Some(ParseRequest(TextOf(x)))
  {
    var i :| 0 <= i < |Moments(hs)| && Moments(hs)[i].judge(TextOf(x)) == v;
    PrintedIsDecided(hs[i].app, x);
  }

  /** A session on which proper messages are sent, with handlers that may change at each callback,
      answers each of them and waits for the next. */
  lemma SendingIsAnswered(routes: Routes, xs: seq<Sent>, hs: seq<Happening>)
    requires Proper(routes, xs) && Callbacks(Moments(hs)) == Sending(Parcels(xs))
    ensures Possible(STARTED, Moments(hs))
    ensures var s := After(STARTED, Moments(hs));
            s.buffer == "" && s.pendingReads == 1 && s.pendingWrites == 0 && AnswerInOrder(Writes(s.log), xs)
  {
    ProperIsDecided(routes, xs, hs);
    var es := RunIsConversation(Parcels(xs), Moments(hs));
    ConversationAnswers(es);
    forall j | 0 <= j < |xs| ensures IsAnswerTo(WritesFor(es)[j], xs[j]) {
      assert Parcels(xs)[j].text == TextOf(xs[j]);
      GivenIsDispatched(hs, xs[j], es[j].verdict);
    }
  }

  ghost function StepOf(x: Sent): Step {
    Step(x.prefix, ParseRequest(TextOf(x)))
  }

  /** Entry `p` of the log answers the message whose turn it is on its connection, with the response that is
      determined by the history of all requests dispatched before, on whatever connection. */
  ghost predicate AnsweredByHistory(site: Site, log: seq<Entry>, c: nat, xs: seq<Sent>, p: nat)
    requires p < |log|
  {
    var i := |Writes(OperationsOn(log[..p], c))|;
    && i < |xs| && IsAnswerTo(log[p].operation, xs[i])
    && log[p].operation.wire == HttpResponse.Wire(ResponseAfter(CrudSteps(site.routes, log[..p]), StepOf(xs[i])))
  }

  lemma RoutedResponse(site: Site, log: seq<Entry>, x: Sent)
    requires Printed(x) && Routed(site.routes, x)
    ensures ResponseTo(site, log, ParseRequest(TextOf(x))) == ResponseAfter(CrudSteps(site.routes, log), StepOf(x))
    ensures StepsOfRequest(site.routes, ParseRequest(TextOf(x))) == [StepOf(x)]
  {
    PrintedRequest(x);
  }

  /** In every run of the server, whatever happens on other connections in between: when the callbacks on a
      connection are those of proper messages being sent, its session answers each of them, in order and
      whole, with the response that the history of all requests before determines, and waits for the next. */
  lemma ConversationInServer(site: Site, run: seq<Occurrence>, c: nat, xs: seq<Sent>)
    requires Occurs(ServingOf(site), EMPTY, run) && c in Becomes(ServingOf(site), EMPTY, run).sessions
    requires Proper(site.routes, xs) && CallbacksOn(run, c) == Sending(Parcels(xs))
    ensures var w := Becomes(ServingOf(site), EMPTY, run);
            && w.sessions[c].buffer == "" && w.sessions[c].pendingReads == 1 && w.sessions[c].pendingWrites == 0
            && AnswerInOrder(Writes(OperationsOn(w.log, c)), xs)
            && forall p :: 0 <= p < |w.log| && w.log[p].connection == c && w.log[p].operation.Write? ==>
                 AnsweredByHistory(site, w.log, c, xs, p)
  {
    var serving := ServingOf(site);
    var w, hs := Becomes(serving, EMPTY, run), HappeningsOn(serving, EMPTY, run, c);
    EveryWorldIsCoherent(serving, run);
    ConnectionRuns(serving, EMPTY, run, c);
    CallbacksOfHappenings(serving, EMPTY, run, c);
    SendingIsAnswered(site.routes, xs, hs);
    forall p | 0 <= p < |w.log| && w.log[p].connection == c && w.log[p].operation.Write?
      ensures AnsweredByHistory(site, w.log, c, xs, p)
    {
      AnswerHasPlace(w.log, p);
      var i := |Writes(OperationsOn(w.log[..p], c))|;
      assert IsAnswerTo(Writes(OperationsOn(w.log, c))[i], xs[i]);
      EveryServerRun(site, run, p);
      RoutedResponse(site, w.log[..p], xs[i]);
    }
  }

  function Remaining(all: seq<Callback>, n: nat, app: App): (more: seq<Happening>)
    requires n < |all|
    ensures |more| == |all| - n && forall i :: 0 <= i < |more| ==> more[i].callback == all[n + i]
  {
    seq(|all| - n, i requires 0 <= i < |all| - n => Happening(all[n + i], app))
  }

  lemma MomentsAppend(a: seq<Happening>, b: seq<Happening>)
    ensures Moments(a + b) == Moments(a) + Moments(b)
  {}

  lemma FirstIsEnabled(hs: seq<Happening>, more: seq<Happening>)
    requires more != [] && Possible(STARTED, Moments(hs + more))
    ensures Possible(STARTED, Moments(hs)) && Enabled(After(STARTED, Moments(hs)), more[0].callback)
  {
    MomentsAppend(hs, more);
    RunSplits(STARTED, Moments(hs), Moments(more));
  }

  lemma CallbacksOfBoth(hs: seq<Happening>, more: seq<Happening>, all: seq<Callback>, n: nat)
    requires n <= |all| && Callbacks(Moments(hs)) == all[..n] && |more| == |all| - n
    requires forall i :: 0 <= i < |more| ==> more[i].callback == all[n + i]
    ensures Callbacks(Moments(hs + more)) == all
  {
    var both := Callbacks(Moments(hs + more));
    assert |hs| == |Callbacks(Moments(hs))| == n;
    forall i | 0 <= i < |all| ensures both[i] == all[i] {
      if i < n {
        assert Callbacks(Moments(hs))[i] == hs[i].callback;
      }
    }
  }

  lemma NextIsEnabled(routes: Routes, xs: seq<Sent>, hs: seq<Happening>, all: seq<Callback>, n: nat, app: App)
    requires Proper(routes, xs) && all == Sending(Parcels(xs)) && n < |all| && Callbacks(Moments(hs)) == all[..n]
    ensures Possible(STARTED, Moments(hs)) && Enabled(After(STARTED, Moments(hs)), all[n])
  {
    var more := Remaining(all, n, app);
    CallbacksOfBoth(hs, more, all, n);
    SendingIsAnswered(routes, xs, hs + more);
    FirstIsEnabled(hs, more);
  }

  /** Such a conversation never gets stuck: what the client does next can occur. */
  lemma NextCanOccur(site: Site, run: seq<Occurrence>, c: nat, xs: seq<Sent>, n: nat)
    requires Occurs(ServingOf(site), EMPTY, run) && c in Becomes(ServingOf(site), EMPTY, run).sessions
    requires Proper(site.routes, xs) && n < |Sending(Parcels(xs))| && CallbacksOn(run, c) == Sending(Parcels(xs))[..n]
    ensures CanOccur(Becomes(ServingOf(site), EMPTY, run), Call(c, Sending(Parcels(xs))[n]))
  {
    var hs := HappeningsOn(ServingOf(site), EMPTY, run, c);
    ConnectionRuns(ServingOf(site), EMPTY, run, c);
    CallbacksOfHappenings(ServingOf(site), EMPTY, run, c);
    NextIsEnabled(site.routes, xs, hs, Sending(Parcels(xs)), n, site.others);
  }

  // One client alone.

  predicate OnlyOn(c: nat, log: seq<Entry>) {
    forall p :: 0 <= p < |log| ==> log[p].connection == c
  }

  predicate CallsOn(c: nat, run: seq<Occurrence>) {
    forall i :: 0 <= i < |run| ==> run[i].connection == c
  }

  lemma {:induction false} CallsLogOn(serving: Serving, w: World, run: seq<Occurrence>, c: nat)
    requires Occurs(serving, w, run) && CallsOn(c, run) && OnlyOn(c, w.log)
    ensures OnlyOn(c, Becomes(serving, w, run).log)
    decreases |run|
  {
    if run != [] {
      CallsLogOn(serving, Occur(serving, w, run[0]), run[1..], c);
    }
  }

  /** The server after connection 0 was accepted and its first `n` callbacks were those of the messages. */
  ghost predicate ClientAt(site: Site, xs: seq<Sent>, run: seq<Occurrence>, n: nat) {
    && n <= |Sending(Parcels(xs))| && CallsOn(0, run) && Occurs(ServingOf(site), EMPTY, run)
    && 0 in Becomes(ServingOf(site), EMPTY, run).sessions && CallbacksOn(run, 0) == Sending(Parcels(xs))[..n]
  }

  lemma ClientStarts(site: Site, xs: seq<Sent>)
    ensures ClientAt(site, xs, [Accept(0)], 0)
  {
    var run: seq<Occurrence> := [Accept(0)];
    assert run[1..] == [] && Sending(Parcels(xs))[..0] == [];
  }

  lemma TakeOneMore(callbacks: seq<Callback>, n: nat)
    requires n < |callbacks|
    ensures callbacks[..n + 1] == callbacks[..n] + [callbacks[n]]
  {}

  lemma ClientGoesOn(site: Site, xs: seq<Sent>, run: seq<Occurrence>, n: nat, o: Occurrence)
    requires ClientAt(site, xs, run, n) && Proper(site.routes, xs)
    requires n < |Sending(Parcels(xs))| && o == Call(0, Sending(Parcels(xs))[n])
    ensures ClientAt(site, xs, run + [o], n + 1)
  {
    NextCanOccur(site, run, 0, xs, n);
    OccursAppend(ServingOf(site), EMPTY, run, o);
    CallbacksAppend(run, o, 0);
    TakeOneMore(Sending(Parcels(xs)), n);
  }

  /** A client can send proper messages one after the other. */
  lemma {:induction false} ClientRuns(site: Site, xs: seq<Sent>, n: nat) returns (run: seq<Occurrence>)
    requires Proper(site.routes, xs) && n <= |Sending(Parcels(xs))|
    ensures ClientAt(site, xs, run, n)
    decreases n
  {
    if n == 0 {
      ClientStarts(site, xs);
      run := [Accept(0)];
    } else {
      run := ClientRuns(site, xs, n - 1);
      var o := Call(0, Sending(Parcels(xs))[n - 1]);
      ClientGoesOn(site, xs, run, n - 1, o);
      run := run + [o];
    }
  }

  ghost function Steps(xs: seq<Sent>): seq<Step> {
    seq(|xs|, i requires 0 <= i < |xs| => StepOf(xs[i]))
  }

  lemma StepsSnoc(xs: seq<Sent>)
    requires xs != []
    ensures Steps(xs) == Steps(xs[..|xs| - 1]) + [StepOf(xs[|xs| - 1])]
  {}

  lemma WritesSnoc(ops: seq<Operation>, op: Operation)
    ensures Writes(ops + [op]) == if op.Write? then Writes(ops) + [op] else Writes(ops)
  {
    WritesAppend(ops, [op]);
    assert Writes([op]) == if op.Write? then [op] else [];
  }

  lemma NoStep(steps: seq<Step>)
    ensures steps + [] == steps
  {}

  lemma AnswersOfInit(writes: seq<Operation>, op: Operation, xs: seq<Sent>)
    requires AnswerInOrder(writes + [op], xs)
    ensures xs != [] && AnswerInOrder(writes, xs[..|xs| - 1]) && IsAnswerTo(op, xs[|xs| - 1])
  {
    assert (writes + [op])[|xs| - 1] == op;
    forall j | 0 <= j < |writes| ensures IsAnswerTo(writes[j], xs[..|xs| - 1][j]) {
      assert IsAnswerTo((writes + [op])[j], xs[j]);
    }
  }

  lemma OwnStep(routes: Routes, op: Operation, x: Sent)
    requires IsAnswerTo(op, x) && Printed(x) && Routed(routes, x)
    ensures StepsOf(routes, op) == [StepOf(x)]
  {
    RoutedResponse(Site(routes, (r: Request) => None), [], x);
  }

  lemma OnlyOnPart(c: nat, log: seq<Entry>, p: nat)
    requires OnlyOn(c, log) && p <= |log|
    ensures OnlyOn(c, log[..p])
  {}

  lemma OwnAnswer(routes: Routes, writes: seq<Operation>, op: Operation, xs: seq<Sent>)
    requires AnswerInOrder(writes + [op], xs)
    requires AllRouted(routes, xs)
    ensures xs != [] && AnswerInOrder(writes, xs[..|xs| - 1])
    ensures AllRouted(routes, xs[..|xs| - 1])
    ensures Steps(xs) == Steps(xs[..|xs| - 1]) + StepsOf(routes, op)
  {
    AnswersOfInit(writes, op, xs);
    OwnStep(routes, op, xs[|xs| - 1]);
    StepsSnoc(xs);
  }

  lemma NoHistory(routes: Routes, xs: seq<Sent>)
    requires AnswerInOrder([], xs)
    ensures CrudSteps(routes, []) == Steps(xs)
  {}

  /** The messages that were answered before an operation was logged. */
  function AnsweredBefore(op: Operation, xs: seq<Sent>): seq<Sent> {
    if op.Write? && xs != [] then xs[..|xs| - 1] else xs
  }

  lemma CrudStepsSnoc(routes: Routes, log: seq<Entry>)
    requires log != []
    ensures var init, op := log[..|log| - 1], log[|log| - 1].operation;
            CrudSteps(routes, log) == if op.Write? then CrudSteps(routes, init) + StepsOf(routes, op)
                                      else CrudSteps(routes, init)
  {
    NoStep(CrudSteps(routes, log[..|log| - 1]));
  }

  lemma OwnHistoryStep(routes: Routes, log: seq<Entry>, c: nat, xs: seq<Sent>)
    requires log != [] && log[|log| - 1].connection == c
    requires AnswerInOrder(Writes(OperationsOn(log, c)), xs) && AllRouted(routes, xs)
    ensures var init, before := log[..|log| - 1], AnsweredBefore(log[|log| - 1].operation, xs);
            && AnswerInOrder(Writes(OperationsOn(init, c)), before) && AllRouted(routes, before)
            && (CrudSteps(routes, init) == Steps(before) ==> CrudSteps(routes, log) == Steps(xs))
  {
    var init, op := log[..|log| - 1], log[|log| - 1].operation;
    WritesSnoc(OperationsOn(init, c), op);
    CrudStepsSnoc(routes, log);
    if op.Write? {
      OwnAnswer(routes, Writes(OperationsOn(init, c)), op, xs);
    }
  }

  /** On one connection alone the history is that of its own messages. */
  lemma {:induction false} OwnHistory(routes: Routes, log: seq<Entry>, c: nat, xs: seq<Sent>)
    requires OnlyOn(c, log) && AnswerInOrder(Writes(OperationsOn(log, c)), xs) && AllRouted(routes, xs)
    ensures CrudSteps(routes, log) == Steps(xs)
    decreases |log|
  {
    if log != [] {
      OnlyOnPart(c, log, |log| - 1);
      OwnHistoryStep(routes, log, c, xs);
      OwnHistory(routes, log[..|log| - 1], c, AnsweredBefore(log[|log| - 1].operation, xs));
    } else {
      NoHistory(routes, xs);
    }
  }

  /** The responses of the history of these requests, from an empty store. */
  ghost function HistoryAnswers(xs: seq<Sent>): seq<Operation> {
    seq(|xs|, i requires 0 <= i < |xs| =>
      Write(HttpResponse.Wire(ResponseAfter(Steps(xs)[..i], StepOf(xs[i]))), TextOf(xs[i]),
            Some(ParseRequest(TextOf(xs[i])))))
  }

  /** Entry `p` is the answer with number `i` on its connection. */
  predicate LoggedAt(log: seq<Entry>, c: nat, i: nat, p: nat) {
    && p < |log| && log[p].connection == c && log[p].operation.Write? && i < |Writes(OperationsOn(log, c))|
    && log[p].operation == Writes(OperationsOn(log, c))[i] && |Writes(OperationsOn(log[..p], c))| == i
  }

  lemma WritesOnSnoc(log: seq<Entry>, c: nat)
    requires log != []
    ensures var init, last := log[..|log| - 1], log[|log| - 1];
            Writes(OperationsOn(log, c)) ==
            if last.connection == c && last.operation.Write? then Writes(OperationsOn(init, c)) + [last.operation]
            else Writes(OperationsOn(init, c))
  {
    var init, last := log[..|log| - 1], log[|log| - 1];
    if last.connection == c {
      WritesSnoc(OperationsOn(init, c), last.operation);
    } else {
      assert OperationsOn(log, c) == OperationsOn(init, c);
    }
  }

  lemma LoggedBefore(log: seq<Entry>, n: nat, c: nat, i: nat, p: nat)
    requires |log| == n + 1 && LoggedAt(log[..n], c, i, p)
    ensures LoggedAt(log, c, i, p)
  {
    WritesOnSnoc(log, c);
    assert log[..n][..p] == log[..p];
  }

  lemma {:induction false} WriteIsLogged(log: seq<Entry>, c: nat, i: nat) returns (p: nat)
    requires i < |Writes(OperationsOn(log, c))|
    ensures LoggedAt(log, c, i, p)
    decreases |log|
  {
    var n := |log| - 1;
    WritesOnSnoc(log, c);
    if i < |Writes(OperationsOn(log[..n], c))| {
      p := WriteIsLogged(log[..n], c, i);
      LoggedBefore(log, n, c, i, p);
    } else {
      p := n;
    }
  }

  lemma OwnHistoryBefore(routes: Routes, log: seq<Entry>, c: nat, xs: seq<Sent>, p: nat)
    requires OnlyOn(c, log) && AnswerInOrder(Writes(OperationsOn(log, c)), xs)
    requires AllRouted(routes, xs)
    requires p < |log| && log[p].connection == c && log[p].operation.Write?
    ensures var i := |Writes(OperationsOn(log[..p], c))|;
            i < |xs| && CrudSteps(routes, log[..p]) == Steps(xs)[..i]
  {
    AnswerHasPlace(log, p);
    var i := |Writes(OperationsOn(log[..p], c))|;
    var writes := Writes(OperationsOn(log, c));
    forall j | 0 <= j < i ensures IsAnswerTo(writes[..i][j], xs[..i][j]) {
      assert IsAnswerTo(writes[j], xs[j]);
    }
    OnlyOnPart(c, log, p);
    OwnHistory(routes, log[..p], c, xs[..i]);
    assert Steps(xs[..i]) == Steps(xs)[..i];
  }

  lemma AnswerIsHistory(site: Site, log: seq<Entry>, c: nat, xs: seq<Sent>, i: nat)
    requires OnlyOn(c, log) && AnswerInOrder(Writes(OperationsOn(log, c)), xs) && i < |xs|
    requires AllRouted(site.routes, xs)
    requires forall p :: 0 <= p < |log| && log[p].connection == c && log[p].operation.Write? ==>
               AnsweredByHistory(site, log, c, xs, p)
    ensures Writes(OperationsOn(log, c))[i] == HistoryAnswers(xs)[i]
  {
    var p := WriteIsLogged(log, c, i);
    assert AnsweredByHistory(site, log, c, xs, p);
    OwnHistoryBefore(site.routes, log, c, xs, p);
  }

  lemma AnswersAreHistory(site: Site, log: seq<Entry>, c: nat, xs: seq<Sent>)
    requires OnlyOn(c, log) && AnswerInOrder(Writes(OperationsOn(log, c)), xs)
    requires AllRouted(site.routes, xs)
    requires forall p :: 0 <= p < |log| && log[p].connection == c && log[p].operation.Write? ==>
               AnsweredByHistory(site, log, c, xs, p)
    ensures Writes(OperationsOn(log, c)) == HistoryAnswers(xs)
  {
    forall i | 0 <= i < |xs| ensures Writes(OperationsOn(log, c))[i] == HistoryAnswers(xs)[i] {
      AnswerIsHistory(site, log, c, xs, i);
    }
  }

  /** A client that sends any proper messages one after the other over the only connection gets just the
      responses of the history of its requests, and each answer consumes just its message. */
  lemma ConversationIsHistory(site: Site, xs: seq<Sent>) returns (run: seq<Occurrence>)
    requires Proper(site.routes, xs)
    ensures Occurs(ServingOf(site), EMPTY, run) && CallbacksOn(run, 0) == Sending(Parcels(xs))
    ensures var w := Becomes(ServingOf(site), EMPTY, run);
            w.store == StoreAfter(Steps(xs)) && Writes(OperationsOn(w.log, 0)) == HistoryAnswers(xs)
  {
    var all := Sending(Parcels(xs));
    run := ClientRuns(site, xs, |all|);
    assert all[..|all|] == all;
    var w := Becomes(ServingOf(site), EMPTY, run);
    CallsLogOn(ServingOf(site), EMPTY, run, 0);
    ConversationInServer(site, run, 0, xs);
    StoreOfServer(site, run);
    OwnHistory(site.routes, w.log, 0, xs);
    AnswersAreHistory(site, w.log, 0, xs);
  }

  // Writing and reading back over the wire.

  predicate PostsTo(x: Sent, entity: string) {
    x.verb == "POST" && ParsePath(x.prefix, x.path) == Some(Target(entity, None))
  }

  predicate GetsFrom(x: Sent, entity: string, id: string) {
    x.verb == "GET" && ParsePath(x.prefix, x.path) == Some(Target(entity, Some(id)))
  }

  lemma PostIsServed(before: seq<Step>, x: Sent, entity: string, id: string)
    requires Printed(x) && PostsTo(x, entity) && NextId(Ids(StoreAfter(before), entity)) == Some(id)
    ensures ResponseAfter(before, StepOf(x)) == Created(id)
    ensures StoreAfter(before + [StepOf(x)]) == StoreAfter(before)[(entity, id) := DropFinalLF(x.body)]
  {
    PrintedRequest(x);
    StoreAfterStep(before, StepOf(x));
  }

  lemma GetIsServed(before: seq<Step>, x: Sent, entity: string, id: string)
    requires Printed(x) && GetsFrom(x, entity, id) && (entity, id) in StoreAfter(before)
    ensures ResponseAfter(before, StepOf(x)) == JsonOk(StoreAfter(before)[(entity, id)])
  {
    PrintedRequest(x);
  }

  lemma StepsGrow(xs: seq<Sent>, n: nat)
    requires n < |xs|
    ensures Steps(xs)[..n + 1] == Steps(xs)[..n] + [StepOf(xs[n])]
  {}

  lemma AnswerAt(xs: seq<Sent>, n: nat, before: seq<Step>, response: HttpResponse.Response)
    requires n < |xs| && before == Steps(xs)[..n] && ResponseAfter(before, StepOf(xs[n])) == response
    ensures HistoryAnswers(xs)[n].Write? && HistoryAnswers(xs)[n].wire == HttpResponse.Wire(response)
  {}

  lemma PostThenGetAnswers(xs: seq<Sent>, n: nat, entity: string, id: string)
    requires n + 1 < |xs| && Printed(xs[n]) && Printed(xs[n + 1])
    requires PostsTo(xs[n], entity) && GetsFrom(xs[n + 1], entity, id)
    requires NextId(Ids(StoreAfter(Steps(xs)[..n]), entity)) == Some(id)
    ensures var answers := HistoryAnswers(xs);
            && answers[n].Write? && answers[n + 1].Write?
            && answers[n].wire == HttpResponse.Wire(Created(id))
            && answers[n + 1].wire == HttpResponse.Wire(JsonOk(DropFinalLF(xs[n].body)))
  {
    StepsGrow(xs, n);
    PostIsServed(Steps(xs)[..n], xs[n], entity, id);
    GetIsServed(Steps(xs)[..n + 1], xs[n + 1], entity, id);
    AnswerAt(xs, n, Steps(xs)[..n], Created(id));
    AnswerAt(xs, n + 1, Steps(xs)[..n + 1], JsonOk(DropFinalLF(xs[n].body)));
  }

  lemma CreatedDecodes(id: string)
    ensures HttpResponse.Decode(HttpResponse.Wire(Created(id))) == Created(id)
  {
    CreatedIsSound(id);
    HttpResponse.DecodeOfWire(Created(id));
  }

  lemma JsonOkDecodes(body: string)
    ensures HttpResponse.Decode(HttpResponse.Wire(JsonOk(body))) == JsonOk(body)
  {
    JsonOkIsSound(body);
    HttpResponse.DecodeOfWire(JsonOk(body));
  }

  predicate EndsInLF(s: string) {
    s != "" && s[|s| - 1] == '\n'
  }

  lemma DroppedIffLF(body: string)
    ensures JsonOk(DropFinalLF(body)) == JsonOk(body) <==> !EndsInLF(body)
  {
    assert JsonOk(DropFinalLF(body)).body == DropFinalLF(body) && JsonOk(body).body == body;
  }

  /** In any conversation, a POST message is answered with an id, and a GET message of that id that follows with
      the body that was posted, less one final line feed: over the wire, through session, router and store.
      So what was posted comes back if and only if it does not end in a line feed. */
  lemma PostThenGet(site: Site, xs: seq<Sent>, n: nat, entity: string, id: string) returns (run: seq<Occurrence>)
    requires Proper(site.routes, xs) && n + 1 < |xs| && PostsTo(xs[n], entity) && GetsFrom(xs[n + 1], entity, id)
    requires NextId(Ids(StoreAfter(Steps(xs)[..n]), entity)) == Some(id)
    ensures Occurs(ServingOf(site), EMPTY, run) && CallbacksOn(run, 0) == Sending(Parcels(xs))
    ensures var writes := Writes(OperationsOn(Becomes(ServingOf(site), EMPTY, run).log, 0));
            && |writes| == |xs| && writes[n].Write? && writes[n + 1].Write?
            && HttpResponse.Decode(writes[n].wire) == Created(id)
            && HttpResponse.Decode(writes[n + 1].wire) == JsonOk(DropFinalLF(xs[n].body))
            && (HttpResponse.Decode(writes[n + 1].wire) == JsonOk(xs[n].body) <==> !EndsInLF(xs[n].body))
  {
    run := ConversationIsHistory(site, xs);
    PostThenGetAnswers(xs, n, entity, id);
    CreatedDecodes(id);
    JsonOkDecodes(DropFinalLF(xs[n].body));
    DroppedIffLF(xs[n].body);
  }
}
