/** What holds over every run of a connection, and that the way a message is cut into
    reads does not matter once its head arrives whole. */
module SessionLaws {
  import opened Text
  import opened Numbers
  import opened Maps
  import opened HttpText
  import opened HttpRequest
  import opened HttpRequestLaws
  import opened Handlers
  import opened Session
  import HttpResponse

  // Runs: callbacks for pending operations, in any order and number, each with the verdicts
  // that the handlers give at that time.

  datatype Moment = Moment(callback: Callback, judge: Judging)

  predicate Possible(s: State, run: seq<Moment>)
    decreases |run|
  {
    run != [] ==> Enabled(s, run[0].callback) && Possible(Next(run[0].judge, s, run[0].callback), run[1..])
  }

  function After(s: State, run: seq<Moment>): State
    requires Possible(s, run)
    decreases |run|
  {
    if run == [] then s else After(Next(run[0].judge, s, run[0].callback), run[1..])
  }

  lemma RunCons(s: State, m: Moment, rest: seq<Moment>)
    ensures Possible(s, [m] + rest) <==> Enabled(s, m.callback) && Possible(Next(m.judge, s, m.callback), rest)
    ensures Possible(s, [m] + rest) ==> After(s, [m] + rest) == After(Next(m.judge, s, m.callback), rest)
  {
    assert ([m] + rest)[0] == m && ([m] + rest)[1..] == rest;
  }

  lemma {:induction false} RunAppend(s: State, a: seq<Moment>, b: seq<Moment>)
    requires Possible(s, a) && Possible(After(s, a), b)
    ensures Possible(s, a + b) && After(s, a + b) == After(After(s, a), b)
    decreases |a|
  {
    if a == [] {
      assert a + b == b;
    } else {
      RunAppend(Next(a[0].judge, s, a[0].callback), a[1..], b);
      RunCons(s, a[0], a[1..] + b);
      assert a + b == [a[0]] + (a[1..] + b);
    }
  }

  lemma {:induction false} RunSplits(s: State, a: seq<Moment>, b: seq<Moment>)
    requires Possible(s, a + b)
    ensures Possible(s, a) && Possible(After(s, a), b)
    decreases |a|
  {
    if a == [] {
      assert a + b == b;
    } else {
      assert (a + b)[0] == a[0] && (a + b)[1..] == a[1..] + b;
      RunSplits(Next(a[0].judge, s, a[0].callback), a[1..], b);
    }
  }

  lemma {:induction false} OnePending(s: State, run: seq<Moment>)
    requires Possible(s, run) && s.pendingReads + s.pendingWrites <= 1
    ensures After(s, run).pendingReads + After(s, run).pendingWrites <= 1
    decreases |run|
  {
    if run != [] {
      OnePending(Next(run[0].judge, s, run[0].callback), run[1..]);
    }
  }

  lemma FailureEnds(judge: Judging, s: State, cb: Callback)
    requires Enabled(s, cb) && s.pendingReads + s.pendingWrites <= 1 && (cb == ReadFailed || cb == WriteFailed)
    ensures Next(judge, s, cb) == s.(pendingReads := 0, pendingWrites := 0)
  {}

  lemma NothingPending(s: State, run: seq<Moment>)
    requires Possible(s, run) && s.pendingReads == 0 && s.pendingWrites == 0
    ensures run == []
  {}

  /** After a failed read or write nothing is pending, and no callback comes any more. */
  lemma FailureIsLast(run: seq<Moment>, i: nat)
    requires Possible(STARTED, run) && i < |run| && (run[i].callback == ReadFailed || run[i].callback == WriteFailed)
    ensures i == |run| - 1 && After(STARTED, run).pendingReads == 0 && After(STARTED, run).pendingWrites == 0
  {
    var a, b := run[..i], run[i..];
    assert run == a + b && b == [run[i]] + run[i + 1..];
    RunSplits(STARTED, a, b);
    OnePending(STARTED, a);
    var s := After(STARTED, a);
    RunCons(s, run[i], run[i + 1..]);
    FailureEnds(run[i].judge, s, run[i].callback);
    NothingPending(Next(run[i].judge, s, run[i].callback), run[i + 1..]);
    RunAppend(STARTED, a, b);
  }

  function BytesOf(cb: Callback): string {
    if cb.ReadDone? then cb.bytes else ""
  }

  function Received(run: seq<Moment>): string {
    if run == [] then "" else BytesOf(run[0].callback) + Received(run[1..])
  }

  function Consumed(log: seq<Operation>): string {
    if log == [] then ""
    else
      var op := log[|log| - 1];
      Consumed(log[..|log| - 1]) + if op.Write? then op.consumed else ""
  }

  lemma ConsumedSnoc(log: seq<Operation>, op: Operation)
    ensures Consumed(log + [op]) == Consumed(log) + if op.Write? then op.consumed else ""
  {
    assert (log + [op])[..|log|] == log;
  }

  /** All bytes the session has taken: those it answered, then those it still holds. */
  function Taken(s: State): string {
    Consumed(s.log) + s.buffer
  }

  predicate Shape(waits: string -> bool, s: State) {
    && s.pendingReads + s.pendingWrites <= 1
    && (s.buffer == "" || waits(s.buffer))
    && (s.pendingWrites > 0 ==> s.buffer == "")
  }

  /** Only what waits is read on. */
  ghost predicate Agrees(waits: string -> bool, judge: Judging) {
    forall b :: judge(b) == ReadOn ==> waits(b)
  }

  lemma SettleKeeps(waits: string -> bool, judge: Judging, s: State, buffer: string, v: Verdict)
    requires Shape(waits, s) && Agrees(waits, judge) && s.pendingReads > 0 && v == judge(buffer)
    ensures Shape(waits, Settle(s, buffer, v))
    ensures Taken(Settle(s, buffer, v)) == Consumed(s.log) + buffer
  {
    ConsumedSnoc(s.log, Read);
    if v.Answer? {
      ConsumedSnoc(s.log, Write(v.wire, buffer, v.dispatched));
    }
  }

  lemma Regroup(a: string, b: string, c: string)
    ensures a + b + c == a + (b + c)
  {}

  lemma NoText(a: string)
    ensures a + "" == a
  {}

  lemma QuietKeeps(waits: string -> bool, judge: Judging, s: State, cb: Callback)
    requires Shape(waits, s) && Enabled(s, cb) && !cb.ReadDone?
    ensures Shape(waits, Next(judge, s, cb)) && Taken(Next(judge, s, cb)) == Taken(s)
  {
    ConsumedSnoc(s.log, Read);
    NoText(Consumed(s.log));
  }

  lemma NextKeeps(waits: string -> bool, judge: Judging, s: State, cb: Callback)
    requires Shape(waits, s) && Agrees(waits, judge) && Enabled(s, cb)
    ensures Shape(waits, Next(judge, s, cb))
    ensures Taken(Next(judge, s, cb)) == Taken(s) + BytesOf(cb)
  {
    if cb.ReadDone? {
      SettleKeeps(waits, judge, s, s.buffer + cb.bytes, judge(s.buffer + cb.bytes));
      Regroup(Consumed(s.log), s.buffer, cb.bytes);
    } else {
      QuietKeeps(waits, judge, s, cb);
      NoText(Taken(s));
    }
  }

  lemma {:induction false} RunKeeps(waits: string -> bool, s: State, run: seq<Moment>)
    requires Shape(waits, s) && Possible(s, run)
    requires forall i :: 0 <= i < |run| ==> Agrees(waits, run[i].judge)
    ensures Shape(waits, After(s, run))
    ensures Taken(After(s, run)) == Taken(s) + Received(run)
    decreases |run|
  {
    if run != [] {
      var t := Next(run[0].judge, s, run[0].callback);
      NextKeeps(waits, run[0].judge, s, run[0].callback);
      RunKeeps(waits, t, run[1..]);
      Regroup(Taken(s), BytesOf(run[0].callback), Received(run[1..]));
    }
  }

  /** The bytes behind the first CRLFCRLF. */
  function BodyBytes(buffer: string): int
    requires Contains(buffer, CRLFCRLF)
  {
    |buffer| - Find(buffer, "\r\n\r\n", 0).value - 4
  }

  predicate Lacks(buffer: string, announced: Option<string>)
    requires Contains(buffer, CRLFCRLF)
  {
    announced.Some? && Stoull(announced.value).Converted? && BodyBytes(buffer) < Stoull(announced.value).n
  }

  ghost predicate LacksBody(buffer: string, r: Request)
    requires Contains(buffer, CRLFCRLF)
  {
    Lacks(buffer, GetHeader(r.headers, "Content-Length"))
  }

  /** A complete head whose Content-Length announces more bytes than have arrived. */
  ghost predicate AwaitsBody(buffer: string) {
    Contains(buffer, CRLFCRLF) && LacksBody(buffer, ParseRequest(buffer))
  }

  lemma AnnouncedWaits(buffer: string, announced: Option<string>, dispatch: Verdict)
    requires Contains(buffer, CRLFCRLF) && dispatch.Answer?
    ensures JudgeAnnounced(buffer, announced, dispatch) == ReadOn <==> Lacks(buffer, announced)
  {}

  function ResponseOf(app: App, r: Request): HttpResponse.Response {
    match app(r) case None => NotFound() case Some(response) => response
  }

  ghost predicate IsBadRequest(wire: string) {
    || wire == HttpResponse.Wire(BadRequest("Malformed HTTP request"))
    || wire == HttpResponse.Wire(BadRequest("Invalid Content-Length header"))
  }

  lemma DispatchAnswers(app: App, r: Request)
    ensures var v := Dispatch(app, r);
            && v.Answer? && (v.dispatched.Some? <==> IsValid(r))
            && (v.dispatched.Some? ==> v.dispatched.value == r && v.wire == HttpResponse.Wire(ResponseOf(app, r)))
            && (v.dispatched.None? ==> IsBadRequest(v.wire))
  {
    DispatchIsAnswer(app, r);
  }

  lemma RequestWaits(app: App, buffer: string, r: Request)
    requires Contains(buffer, CRLFCRLF)
    ensures JudgeRequest(app, buffer, r) == ReadOn <==> LacksBody(buffer, r)
  {
    DispatchAnswers(app, r);
    AnnouncedWaits(buffer, GetHeader(r.headers, "Content-Length"), Dispatch(app, r));
  }

  lemma JudgeWaits(app: App, buffer: string)
    ensures Judge(app, buffer) == ReadOn <==> AwaitsBody(buffer)
  {
    if Contains(buffer, CRLFCRLF) {
      RequestWaits(app, buffer, ParseRequest(buffer));
    }
  }

  /** A callback, and the router with its handlers as they answer when it comes. */
  datatype Happening = Happening(callback: Callback, app: App)

  ghost function Moments(hs: seq<Happening>): seq<Moment> {
    seq(|hs|, i requires 0 <= i < |hs| => Moment(hs[i].callback, JudgingOf(hs[i].app)))
  }

  ghost const WAITS: string -> bool := (b: string) => AwaitsBody(b)

  lemma AppAgrees(app: App)
    ensures Agrees(WAITS, JudgingOf(app))
  {
    forall b ensures JudgingOf(app)(b) == ReadOn ==> WAITS(b) {
      JudgingIsJudge(app, b);
      JudgeWaits(app, b);
    }
  }

  lemma MomentsAgree(hs: seq<Happening>)
    ensures forall i :: 0 <= i < |hs| ==> Agrees(WAITS, Moments(hs)[i].judge)
  {
    forall i | 0 <= i < |hs| ensures Agrees(WAITS, Moments(hs)[i].judge) {
      AppAgrees(hs[i].app);
    }
  }

  /** In every run, with handlers that may answer differently each time, at most one operation is
      pending, between callbacks the buffer is empty or waits for body bytes, and the buffers
      answered so far followed by the bytes still held are all bytes received. */
  lemma EveryRun(hs: seq<Happening>)
    requires Possible(STARTED, Moments(hs))
    ensures var s := After(STARTED, Moments(hs));
            && s.pendingReads + s.pendingWrites <= 1
            && (s.buffer == "" || AwaitsBody(s.buffer))
            && (s.pendingWrites > 0 ==> s.buffer == "")
            && Consumed(s.log) + s.buffer == Received(Moments(hs))
  {
    assert Consumed([Read]) == "" by { ConsumedSnoc([], Read); assert [] + [Read] == [Read]; }
    MomentsAgree(hs);
    RunKeeps(WAITS, STARTED, Moments(hs));
  }

  // Answers.

  /** The moment that made entry `i` of the log: the run up to it left just the entries in front. */
  predicate MadeAt(s: State, run: seq<Moment>, k: nat, i: nat)
    requires Possible(s, run)
  {
    && k < |run| && Possible(s, run[..k]) && i < |After(s, run).log|
    && After(s, run[..k]).log == After(s, run).log[..i]
    && Enabled(After(s, run[..k]), run[k].callback)
    && Next(run[k].judge, After(s, run[..k]), run[k].callback).log == After(s, run).log[..i + 1]
  }

  lemma NextLogs(judge: Judging, s: State, cb: Callback)
    requires Enabled(s, cb)
    ensures var log := Next(judge, s, cb).log; log == s.log || (log != [] && log[..|log| - 1] == s.log)
  {}

  lemma {:induction false} LogGrows(s: State, run: seq<Moment>)
    requires Possible(s, run)
    ensures |s.log| <= |After(s, run).log| && After(s, run).log[..|s.log|] == s.log
    decreases |run|
  {
    if run != [] {
      NextLogs(run[0].judge, s, run[0].callback);
      LogGrows(Next(run[0].judge, s, run[0].callback), run[1..]);
    }
  }

  lemma {:induction false} EntryIsMade(s: State, run: seq<Moment>, i: nat) returns (k: nat)
    requires Possible(s, run) && |s.log| <= i < |After(s, run).log|
    ensures MadeAt(s, run, k, i)
    decreases |run|
  {
    var m := run[0];
    var t := Next(m.judge, s, m.callback);
    NextLogs(m.judge, s, m.callback);
    LogGrows(t, run[1..]);
    if i < |t.log| {
      k := 0;
      assert run[..0] == [] && After(s, run).log[..i + 1] == t.log;
    } else {
      var j := EntryIsMade(t, run[1..], i);
      k := j + 1;
      assert run[..k] == [m] + run[1..][..j];
      RunCons(s, m, run[1..][..j]);
    }
  }

  /** An answer is the verdict, at the moment it was made, on the bytes it consumed. */
  lemma WriteIsVerdict(judge: Judging, s: State, cb: Callback)
    requires Enabled(s, cb)
    requires var log := Next(judge, s, cb).log; |log| > |s.log| && log[|log| - 1].Write?
    ensures var log := Next(judge, s, cb).log;
            var op := log[|log| - 1];
            cb.ReadDone? && op.consumed == s.buffer + cb.bytes && judge(op.consumed) == Answer(op.wire, op.dispatched)
  {}

  predicate Has(buffer: string, announced: Option<string>)
    requires Contains(buffer, CRLFCRLF)
  {
    announced.Some? ==> Stoull(announced.value).Converted? && Stoull(announced.value).n <= BodyBytes(buffer)
  }

  ghost predicate HasBody(buffer: string, r: Request)
    requires Contains(buffer, CRLFCRLF)
  {
    Has(buffer, GetHeader(r.headers, "Content-Length"))
  }

  /** All the bytes of a request are there: a complete head and as many bytes behind it as it announces. */
  ghost predicate Complete(buffer: string) {
    Contains(buffer, CRLFCRLF) && HasBody(buffer, ParseRequest(buffer))
  }

  lemma AnnouncedAnswers(buffer: string, announced: Option<string>, dispatch: Verdict)
    requires Contains(buffer, CRLFCRLF) && JudgeAnnounced(buffer, announced, dispatch).Answer?
    ensures JudgeAnnounced(buffer, announced, dispatch) ==
            if Has(buffer, announced) then dispatch else Rejected("Invalid Content-Length header")
  {}

  lemma RequestAnswers(app: App, buffer: string, r: Request, wire: string, dispatched: Option<Request>)
    requires Contains(buffer, CRLFCRLF) && JudgeRequest(app, buffer, r) == Answer(wire, dispatched)
    ensures dispatched.Some? <==> HasBody(buffer, r) && IsValid(r)
    ensures dispatched.Some? ==> dispatched.value == r && wire == HttpResponse.Wire(ResponseOf(app, r))
    ensures dispatched.None? ==> IsBadRequest(wire)
  {
    DispatchAnswers(app, r);
    AnnouncedAnswers(buffer, GetHeader(r.headers, "Content-Length"), Dispatch(app, r));
  }

  lemma JudgeAnswers(app: App, buffer: string, wire: string, dispatched: Option<Request>)
    requires Judge(app, buffer) == Answer(wire, dispatched)
    ensures dispatched.Some? <==> Complete(buffer) && IsValid(ParseRequest(buffer))
    ensures dispatched.Some? ==>
              dispatched.value == ParseRequest(buffer) && wire == HttpResponse.Wire(ResponseOf(app, dispatched.value))
    ensures dispatched.None? ==> IsBadRequest(wire)
  {
    if Contains(buffer, CRLFCRLF) {
      RequestAnswers(app, buffer, ParseRequest(buffer), wire, dispatched);
    }
  }

  /** In every run a handler sees just the valid requests whose bytes are all there, each parsed
      from the bytes its answer consumes, and answers as the handlers do at the callback that wrote
      the answer; everything else that is answered is answered 400. */
  lemma EveryAnswer(hs: seq<Happening>, i: nat) returns (k: nat)
    requires Possible(STARTED, Moments(hs))
    requires i < |After(STARTED, Moments(hs)).log| && After(STARTED, Moments(hs)).log[i].Write?
    ensures k < |hs| && MadeAt(STARTED, Moments(hs), k, i)
    ensures var op := After(STARTED, Moments(hs)).log[i];
            && (op.dispatched.Some? <==> Complete(op.consumed) && IsValid(ParseRequest(op.consumed)))
            && (op.dispatched.Some? ==> op.dispatched.value == ParseRequest(op.consumed)
                                        && op.wire == HttpResponse.Wire(ResponseOf(hs[k].app, op.dispatched.value)))
            && (op.dispatched.None? ==> IsBadRequest(op.wire))
  {
    var ms := Moments(hs);
    LogGrows(STARTED, ms);
    k := EntryIsMade(STARTED, ms, i);
    var op := After(STARTED, ms).log[i];
    WriteIsVerdict(ms[k].judge, After(STARTED, ms[..k]), ms[k].callback);
    JudgingIsJudge(hs[k].app, op.consumed);
    JudgeAnswers(hs[k].app, op.consumed, op.wire, op.dispatched);
  }

  /** Behind the check for a terminated head, the branch that reads on without one is dead. */
  lemma CheckedIsDetected(buffer: string)
    ensures CheckMalformedRequest(buffer) == NotMalformed <==> Contains(buffer, CRLFCRLF)
    ensures CheckMalformedRequest(buffer) == NotMalformed ==> DetectHttpRequest(buffer)
    ensures CheckMalformedRequest(buffer) == Empty <==> buffer == ""
    ensures DetectHttpRequest(buffer) <==> exists i :: OccursAt(buffer, "\r\n\r\n", i) || OccursAt(buffer, "\n\n", i)
  {
    EmptyHasNoTerminator();
  }

  // Fragmentation.

  ghost predicate Announces(r: Request, n: int) {
    var value := GetHeader(r.headers, "Content-Length");
    value.Some? && Stoull(value.value).Converted? && Stoull(value.value).n == n
  }

  /** `m` has a complete head, with CRLFCRLF at `at`, that parses to `head`; it announces
      `length` bytes of body, and just those follow. */
  ghost predicate WellFramed(m: string, at: nat, head: Request, length: nat) {
    HasHead(m, at) && head == ParseRequest(m[..at + 4]) && Announces(head, length) && |m| == at + 4 + length
  }

  lemma PrefixSplit(m: string, at: nat, n: nat)
    requires OccursAt(m, CRLFCRLF, at) && at + 4 <= n <= |m|
    ensures m[..at + 4] == m[..at] + CRLFCRLF && m[..n] == m[..at] + CRLFCRLF + m[at + 4..n]
  {}

  lemma HeadOfPrefix(m: string, at: nat, n: nat)
    requires HasHead(m, at) && at + 4 <= n <= |m|
    ensures SameHead(ParseRequest(m[..n]), ParseRequest(m[..at + 4]))
    ensures ParseRequest(m[..at + 4]).version != ""
  {
    PrefixSplit(m, at, n);
    HeadDecides(m[..at], m[at + 4..n]);
  }

  lemma JudgeSameHead(app: App, buffer: string, r: Request, head: Request, at: nat, n: int)
    requires Find(buffer, CRLFCRLF, 0) == Some(at) && SameHead(r, head)
    requires Announces(head, n)
    ensures JudgeRequest(app, buffer, r) == if |buffer| - (at + 4) < n then ReadOn else Dispatch(app, r)
  {}

  lemma JudgeByHead(app: App, buffer: string, head: Request, at: nat, n: int)
    requires Find(buffer, CRLFCRLF, 0) == Some(at) && SameHead(ParseRequest(buffer), head)
    requires Announces(head, n)
    ensures Judge(app, buffer) == if |buffer| - (at + 4) < n then ReadOn else Dispatch(app, ParseRequest(buffer))
  {
    JudgeSameHead(app, buffer, ParseRequest(buffer), head, at, n);
  }

  /** Every part of the message with the whole head is read on, and the whole is dispatched. */
  lemma JudgePrefix(app: App, m: string, at: nat, head: Request, length: nat, part: string)
    requires WellFramed(m, at, head, length) && at + 4 <= |part| <= |m| && part == m[..|part|]
    ensures Judge(app, part) == if |part| < |m| then ReadOn else Dispatch(app, ParseRequest(part))
  {
    FindInPrefix(m, CRLFCRLF, |part|);
    HeadOfPrefix(m, at, |part|);
    JudgeByHead(app, part, head, at, length);
  }

  lemma JudgeWhole(app: App, m: string, at: nat, head: Request, length: nat)
    requires WellFramed(m, at, head, length)
    ensures Judge(app, m) == Dispatch(app, ParseRequest(m))
  {
    assert m == m[..|m|];
    JudgePrefix(app, m, at, head, length, m);
  }

  lemma LongerSplit(m: string, at: nat, t: string)
    requires OccursAt(m, CRLFCRLF, at)
    ensures m[..at + 4] == m[..at] + CRLFCRLF && m + t == m[..at] + CRLFCRLF + (m[at + 4..] + t)
  {}

  lemma HeadOfLonger(m: string, at: nat, t: string)
    requires HasHead(m, at)
    ensures Find(m + t, CRLFCRLF, 0) == Some(at) && SameHead(ParseRequest(m + t), ParseRequest(m[..at + 4]))
  {
    FindExtends(m, t, CRLFCRLF, 0);
    LongerSplit(m, at, t);
    HeadDecides(m[..at], m[at + 4..] + t);
  }

  /** Bytes of a next message that arrive in the same read are not kept for it: they become part
      of the one request that is dispatched, whose head they leave as it is. */
  lemma SurplusIsSwallowed(app: App, m: string, at: nat, head: Request, length: nat, t: string)
    requires WellFramed(m, at, head, length)
    ensures Judge(app, m + t) == Dispatch(app, ParseRequest(m + t))
    ensures SameHead(ParseRequest(m + t), head)
  {
    HeadOfLonger(m, at, t);
    JudgeByHead(app, m + t, head, at, length);
  }

  /** Every proper part of `m` from length `from` on is read on. */
  predicate ReadsOn(judge: Judging, m: string, from: nat) {
    forall n :: from <= n < |m| ==> judge(m[..n]) == ReadOn
  }

  lemma WellFramedReadsOn(app: App, m: string, at: nat, head: Request, length: nat)
    requires WellFramed(m, at, head, length)
    ensures ReadsOn(JudgingOf(app), m, at + 4)
  {
    forall n | at + 4 <= n < |m| ensures JudgingOf(app)(m[..n]) == ReadOn {
      JudgePrefix(app, m, at, head, length, m[..n]);
      JudgingIsJudge(app, m[..n]);
    }
  }

  function Concat(chunks: seq<string>): string {
    if chunks == [] then "" else chunks[0] + Concat(chunks[1..])
  }

  predicate NonEmpty(chunks: seq<string>) {
    forall i :: 0 <= i < |chunks| ==> chunks[i] != ""
  }

  /** The chunks as reads that complete, one behind the other. */
  function Arrivals(chunks: seq<string>, judges: seq<Judging>): seq<Moment>
    requires |chunks| == |judges|
  {
    if chunks == [] then [] else [Moment(ReadDone(chunks[0]), judges[0])] + Arrivals(chunks[1..], judges[1..])
  }

  function Reads(k: nat): seq<Operation> {
    if k == 0 then [] else [Read] + Reads(k - 1)
  }

  /** The state once `m` is answered by verdict `v`, behind the operations of `log`. */
  function AnsweredState(log: seq<Operation>, m: string, v: Verdict): State
    requires v.Answer?
  {
    State("", 0, 1, log + [Write(v.wire, m, v.dispatched)])
  }

  lemma ConcatNonEmpty(chunks: seq<string>)
    requires NonEmpty(chunks)
    ensures chunks != [] <==> Concat(chunks) != ""
  {}

  lemma ChunkStep(m: string, n: nat, chunks: seq<string>)
    requires n <= |m| && chunks != [] && NonEmpty(chunks) && Concat(chunks) == m[n..]
    ensures var k := n + |chunks[0]|;
            && n < k <= |m| && m[..k] == m[..n] + chunks[0]
            && NonEmpty(chunks[1..]) && Concat(chunks[1..]) == m[k..]
            && (k < |m| <==> chunks[1..] != [])
  {
    var k := n + |chunks[0]|;
    assert m[n..] == chunks[0] + Concat(chunks[1..]);
    assert m[k..] == m[n..][|chunks[0]|..];
    assert m[n..k] == m[n..][..|chunks[0]|];
    ConcatNonEmpty(chunks[1..]);
  }

  lemma FeedStep(judge: Judging, m: string, from: nat, v: Verdict, n: nat, chunk: string, log: seq<Operation>)
    requires ReadsOn(judge, m, from) && v.Answer? && (n + |chunk| == |m| ==> judge(m) == v)
    requires n + |chunk| <= |m| && from <= n + |chunk| && m[..n + |chunk|] == m[..n] + chunk
    ensures Next(judge, State(m[..n], 1, 0, log), ReadDone(chunk)) ==
            if n + |chunk| < |m| then State(m[..n + |chunk|], 1, 0, log + [Read]) else AnsweredState(log, m, v)
  {
    assert m[..|m|] == m;
  }

  /** `judges` read on every proper part of `m` from length `from` on; the last of them gives the whole `v`. */
  predicate Deciding(judges: seq<Judging>, m: string, from: nat, v: Verdict) {
    && judges != [] && v.Answer? && judges[|judges| - 1](m) == v
    && forall i :: 0 <= i < |judges| ==> ReadsOn(judges[i], m, from)
  }

  lemma {:induction false} FeedFrom(judges: seq<Judging>, m: string, from: nat, v: Verdict,
                                    n: nat, chunks: seq<string>, log: seq<Operation>)
    requires |judges| == |chunks| && Deciding(judges, m, from, v)
    requires n <= |m| && NonEmpty(chunks) && Concat(chunks) == m[n..]
    requires n + |chunks[0]| >= from
    ensures Possible(State(m[..n], 1, 0, log), Arrivals(chunks, judges))
    ensures After(State(m[..n], 1, 0, log), Arrivals(chunks, judges)) == AnsweredState(log + Reads(|chunks| - 1), m, v)
    decreases |chunks|
  {
    var k, rest := n + |chunks[0]|, chunks[1..];
    ChunkStep(m, n, chunks);
    FeedStep(judges[0], m, from, v, n, chunks[0], log);
    RunCons(State(m[..n], 1, 0, log), Moment(ReadDone(chunks[0]), judges[0]), Arrivals(rest, judges[1..]));
    if rest != [] {
      FeedFrom(judges[1..], m, from, v, k, rest, log + [Read]);
      assert log + [Read] + Reads(|rest| - 1) == log + ([Read] + Reads(|rest| - 1));
    } else {
      assert log + Reads(0) == log;
    }
  }

  ghost function JudgingsOf(apps: seq<App>): seq<Judging> {
    seq(|apps|, i requires 0 <= i < |apps| => JudgingOf(apps[i]))
  }

  lemma AllReadOn(apps: seq<App>, m: string, at: nat, head: Request, length: nat)
    requires WellFramed(m, at, head, length)
    ensures forall i :: 0 <= i < |apps| ==> ReadsOn(JudgingsOf(apps)[i], m, at + 4)
  {
    forall i | 0 <= i < |apps| ensures ReadsOn(JudgingsOf(apps)[i], m, at + 4) {
      WellFramedReadsOn(apps[i], m, at, head, length);
    }
  }

  lemma AppDecides(app: App, m: string, at: nat, head: Request, length: nat)
    requires WellFramed(m, at, head, length)
    ensures Dispatch(app, ParseRequest(m)).Answer? && JudgingOf(app)(m) == Dispatch(app, ParseRequest(m))
  {
    DispatchAnswers(app, ParseRequest(m));
    JudgeWhole(app, m, at, head, length);
    JudgingIsJudge(app, m);
  }

  lemma LastJudging(apps: seq<App>)
    requires apps != []
    ensures JudgingsOf(apps) != [] && JudgingsOf(apps)[|JudgingsOf(apps)| - 1] == JudgingOf(apps[|apps| - 1])
  {}

  lemma LastDecides(judges: seq<Judging>, last: Judging, m: string, from: nat, v: Verdict)
    requires judges != [] && judges[|judges| - 1] == last && last(m) == v && v.Answer?
    requires forall i :: 0 <= i < |judges| ==> ReadsOn(judges[i], m, from)
    ensures Deciding(judges, m, from, v)
  {}

  lemma WellFramedDecides(apps: seq<App>, m: string, at: nat, head: Request, length: nat) returns (v: Verdict)
    requires apps != [] && WellFramed(m, at, head, length)
    ensures v == Dispatch(apps[|apps| - 1], ParseRequest(m)) && Deciding(JudgingsOf(apps), m, at + 4, v)
  {
    AllReadOn(apps, m, at, head, length);
    LastJudging(apps);
    AppDecides(apps[|apps| - 1], m, at, head, length);
    v := Dispatch(apps[|apps| - 1], ParseRequest(m));
    LastDecides(JudgingsOf(apps), JudgingOf(apps[|apps| - 1]), m, at + 4, v);
  }

  lemma FeedWhole(judges: seq<Judging>, m: string, from: nat, v: Verdict, chunks: seq<string>)
    requires |judges| == |chunks| && Deciding(judges, m, from, v)
    requires NonEmpty(chunks) && Concat(chunks) == m && |chunks[0]| >= from
    ensures Possible(STARTED, Arrivals(chunks, judges))
    ensures After(STARTED, Arrivals(chunks, judges)) == AnsweredState(Reads(|chunks|), m, v)
  {
    assert m[0..] == m && m[..0] == "";
    assert [Read] + Reads(|chunks| - 1) == Reads(|chunks|);
    FeedFrom(judges, m, from, v, 0, chunks, [Read]);
  }

  /** Whatever the cut, if only the first chunk holds the whole head: the session reads on until
      the last chunk and then answers the whole message once, as it answers it in one chunk. */
  lemma FragmentsLikeWhole(apps: seq<App>, m: string, at: nat, head: Request, length: nat, chunks: seq<string>)
    returns (v: Verdict)
    requires WellFramed(m, at, head, length)
    requires |apps| == |chunks| && chunks != [] && NonEmpty(chunks) && Concat(chunks) == m
    requires |chunks[0]| >= at + 4
    ensures v == Dispatch(apps[|apps| - 1], ParseRequest(m)) && v.Answer?
    ensures Possible(STARTED, Arrivals(chunks, JudgingsOf(apps)))
    ensures After(STARTED, Arrivals(chunks, JudgingsOf(apps))) == AnsweredState(Reads(|chunks|), m, v)
  {
    v := WellFramedDecides(apps, m, at, head, length);
    FeedWhole(JudgingsOf(apps), m, at + 4, v, chunks);
  }

  /** An answered first chunk leaves no read pending for a second. */
  lemma NoReadBehindAnswer(judges: seq<Judging>, v: Verdict, chunks: seq<string>)
    requires |judges| == |chunks| >= 2 && v.Answer?
    requires Next(judges[0], STARTED, ReadDone(chunks[0])) == AnsweredState([Read], chunks[0], v)
    ensures !Possible(STARTED, Arrivals(chunks, judges))
  {
    RunCons(STARTED, Moment(ReadDone(chunks[0]), judges[0]), Arrivals(chunks[1..], judges[1..]));
    RunCons(AnsweredState([Read], chunks[0], v), Moment(ReadDone(chunks[1]), judges[1]),
            Arrivals(chunks[2..], judges[2..]));
  }

  ghost const MALFORMED := Answer(HttpResponse.Wire(BadRequest("Malformed HTTP request")), None)

  lemma NoHeadIsRejected(app: App, chunk: string)
    requires !Contains(chunk, CRLFCRLF)
    ensures Judge(app, chunk) == MALFORMED
  {}

  lemma FirstIsRejected(app: App, chunk: string)
    requires !Contains(chunk, CRLFCRLF)
    ensures Next(JudgingOf(app), STARTED, ReadDone(chunk)) == AnsweredState([Read], chunk, MALFORMED)
  {
    assert "" + chunk == chunk;
    NoHeadIsRejected(app, chunk);
    NextOfRead(app, STARTED, chunk, MALFORMED);
  }

  /** When the first chunk ends inside the head, it is answered at once as malformed, and no
      read is pending for the second. */
  lemma SplitHeadIsRejected(apps: seq<App>, m: string, at: nat, chunks: seq<string>)
    requires Find(m, CRLFCRLF, 0) == Some(at)
    requires |apps| == |chunks| && chunks != [] && NonEmpty(chunks) && Concat(chunks) == m
    requires |chunks[0]| < at + 4
    ensures Next(JudgingOf(apps[0]), STARTED, ReadDone(chunks[0])) == AnsweredState([Read], chunks[0], MALFORMED)
    ensures !Possible(STARTED, Arrivals(chunks, JudgingsOf(apps)))
  {
    assert m[0..] == m;
    ChunkStep(m, 0, chunks);
    assert chunks[0] == m[..|chunks[0]|];
    FindInPrefix(m, CRLFCRLF, |chunks[0]|);
    FirstIsRejected(apps[0], chunks[0]);
    NoReadBehindAnswer(JudgingsOf(apps), MALFORMED, chunks);
  }

  /** The condition on the first chunk is exact. */
  lemma WholeHeadIsNeeded(apps: seq<App>, m: string, at: nat, head: Request, length: nat, chunks: seq<string>)
    requires WellFramed(m, at, head, length)
    requires |apps| == |chunks| && chunks != [] && NonEmpty(chunks) && Concat(chunks) == m
    ensures Possible(STARTED, Arrivals(chunks, JudgingsOf(apps))) <==> |chunks[0]| >= at + 4
  {
    if |chunks[0]| >= at + 4 {
      var v := FragmentsLikeWhole(apps, m, at, head, length, chunks);
    } else {
      SplitHeadIsRejected(apps, m, at, chunks);
    }
  }

  // Conversations: a client that sends its next message when the last one is answered.

  /** A message in chunks, the verdicts at the time of each and when its answer is written, and
      the verdict on the whole. */
  datatype Exchange = Exchange(message: string, from: nat, chunks: seq<string>, judges: seq<Judging>,
                               done: Judging, verdict: Verdict)

  predicate Delivered(x: Exchange) {
    && |x.judges| == |x.chunks| && Deciding(x.judges, x.message, x.from, x.verdict)
    && NonEmpty(x.chunks) && Concat(x.chunks) == x.message && |x.chunks[0]| >= x.from
  }

  predicate AllDelivered(xs: seq<Exchange>) {
    forall i :: 0 <= i < |xs| ==> Delivered(xs[i])
  }

  function Conversation(xs: seq<Exchange>): seq<Moment>
    requires AllDelivered(xs)
  {
    if xs == [] then []
    else (Arrivals(xs[0].chunks, xs[0].judges) + [Moment(WriteDone, xs[0].done)]) + Conversation(xs[1..])
  }

  function Writes(log: seq<Operation>): seq<Operation> {
    if log == [] then []
    else (if log[0].Write? then [log[0]] else []) + Writes(log[1..])
  }

  function WriteFor(x: Exchange): Operation
    requires x.verdict.Answer?
  {
    Write(x.verdict.wire, x.message, x.verdict.dispatched)
  }

  function WritesFor(xs: seq<Exchange>): seq<Operation>
    requires AllDelivered(xs)
  {
    seq(|xs|, i requires 0 <= i < |xs| => WriteFor(xs[i]))
  }

  lemma {:induction false} WritesAppend(a: seq<Operation>, b: seq<Operation>)
    ensures Writes(a + b) == Writes(a) + Writes(b)
    decreases |a|
  {
    if a == [] {
      assert a + b == b;
    } else {
      assert (a + b)[0] == a[0] && (a + b)[1..] == a[1..] + b;
      WritesAppend(a[1..], b);
    }
  }

  lemma {:induction false} NoWritesInReads(k: nat)
    ensures Writes(Reads(k)) == []
    decreases k
  {
    if k > 0 {
      NoWritesInReads(k - 1);
      assert Reads(k)[1..] == Reads(k - 1);
    }
  }

  lemma WriteAlone(op: Operation)
    ensures Writes([op]) == if op.Write? then [op] else []
  {
    assert [op][1..] == [];
  }

  function ExchangeLog(x: Exchange): seq<Operation>
    requires Delivered(x)
  {
    Reads(|x.chunks| - 1) + [WriteFor(x)] + [Read]
  }

  lemma WritesOfExchange(x: Exchange)
    requires Delivered(x)
    ensures Writes(ExchangeLog(x)) == [WriteFor(x)]
  {
    NoWritesInReads(|x.chunks| - 1);
    WritesAppend(Reads(|x.chunks| - 1) + [WriteFor(x)], [Read]);
    WritesAppend(Reads(|x.chunks| - 1), [WriteFor(x)]);
    WriteAlone(WriteFor(x));
    WriteAlone(Read);
  }

  lemma WriteIsDone(judge: Judging, log: seq<Operation>, m: string, v: Verdict)
    requires v.Answer?
    ensures Possible(AnsweredState(log, m, v), [Moment(WriteDone, judge)])
    ensures After(AnsweredState(log, m, v), [Moment(WriteDone, judge)]) ==
            State("", 1, 0, log + [Write(v.wire, m, v.dispatched)] + [Read])
  {
    RunCons(AnsweredState(log, m, v), Moment(WriteDone, judge), []);
    assert [Moment(WriteDone, judge)] + [] == [Moment(WriteDone, judge)];
  }

  lemma ExchangeRuns(x: Exchange, log: seq<Operation>)
    requires Delivered(x)
    ensures var run := Arrivals(x.chunks, x.judges) + [Moment(WriteDone, x.done)];
            && Possible(State("", 1, 0, log), run)
            && After(State("", 1, 0, log), run) == State("", 1, 0, log + ExchangeLog(x))
  {
    var m, s := x.message, State("", 1, 0, log);
    assert m[0..] == m && m[..0] == "";
    FeedFrom(x.judges, m, x.from, x.verdict, 0, x.chunks, log);
    WriteIsDone(x.done, log + Reads(|x.chunks| - 1), m, x.verdict);
    RunAppend(s, Arrivals(x.chunks, x.judges), [Moment(WriteDone, x.done)]);
    assert log + Reads(|x.chunks| - 1) + [WriteFor(x)] + [Read] == log + ExchangeLog(x);
  }

  lemma RegroupLog(a: seq<Operation>, b: seq<Operation>, c: seq<Operation>)
    ensures a + b + c == a + (b + c)
  {}

  lemma AnswersCons(xs: seq<Exchange>)
    requires xs != [] && AllDelivered(xs)
    ensures WritesFor(xs) == [WriteFor(xs[0])] + WritesFor(xs[1..])
  {}

  lemma {:induction false} ConversationFrom(xs: seq<Exchange>, log: seq<Operation>) returns (more: seq<Operation>)
    requires AllDelivered(xs)
    ensures Possible(State("", 1, 0, log), Conversation(xs))
    ensures After(State("", 1, 0, log), Conversation(xs)) == State("", 1, 0, log + more)
    ensures Writes(more) == WritesFor(xs)
    decreases |xs|
  {
    if xs == [] {
      more := [];
    } else {
      var x := xs[0];
      ExchangeRuns(x, log);
      var rest := ConversationFrom(xs[1..], log + ExchangeLog(x));
      RunAppend(State("", 1, 0, log), Arrivals(x.chunks, x.judges) + [Moment(WriteDone, x.done)],
                Conversation(xs[1..]));
      more := ExchangeLog(x) + rest;
      RegroupLog(log, ExchangeLog(x), rest);
      WritesOfExchange(x);
      WritesAppend(ExchangeLog(x), rest);
      AnswersCons(xs);
    }
  }

  /** A whole conversation can take place on one connection; its answers are, in order, one for
      each message, consumed whole, and at its end the session waits for the next. */
  lemma ConversationAnswers(xs: seq<Exchange>)
    requires AllDelivered(xs)
    ensures Possible(STARTED, Conversation(xs))
    ensures var s := After(STARTED, Conversation(xs));
            s.buffer == "" && s.pendingReads == 1 && s.pendingWrites == 0 && Writes(s.log) == WritesFor(xs)
  {
    var more := ConversationFrom(xs, [Read]);
    WritesAppend([Read], more);
    assert Writes([Read]) == [];
  }

  /** A message cut into chunks, the first of which holds its first `from` bytes. */
  datatype Parcel = Parcel(text: string, from: nat, chunks: seq<string>)

  predicate Cut(x: Parcel) {
    x.chunks != [] && NonEmpty(x.chunks) && Concat(x.chunks) == x.text && |x.chunks[0]| >= x.from
  }

  function Arriving(chunks: seq<string>): seq<Callback> {
    if chunks == [] then [] else [ReadDone(chunks[0])] + Arriving(chunks[1..])
  }

  /** The callbacks when the parcels are sent, each when the last is answered. */
  function Sending(xs: seq<Parcel>): seq<Callback> {
    if xs == [] then [] else Arriving(xs[0].chunks) + [WriteDone] + Sending(xs[1..])
  }

  function Callbacks(run: seq<Moment>): seq<Callback> {
    seq(|run|, i requires 0 <= i < |run| => run[i].callback)
  }

  function Judges(run: seq<Moment>): seq<Judging> {
    seq(|run|, i requires 0 <= i < |run| => run[i].judge)
  }

  /** The verdicts read on until the parcel is whole, and then answer it. */
  predicate Decides(judge: Judging, x: Parcel) {
    ReadsOn(judge, x.text, x.from) && judge(x.text).Answer?
  }

  predicate AllDecide(run: seq<Moment>, xs: seq<Parcel>) {
    forall i, j :: 0 <= i < |run| && 0 <= j < |xs| ==> Decides(run[i].judge, xs[j])
  }

  predicate AllCut(xs: seq<Parcel>) {
    forall j :: 0 <= j < |xs| ==> Cut(xs[j])
  }

  lemma {:induction false} ArrivingLength(chunks: seq<string>)
    ensures |Arriving(chunks)| == |chunks|
    ensures forall i :: 0 <= i < |chunks| ==> Arriving(chunks)[i] == ReadDone(chunks[i])
    decreases |chunks|
  {
    if chunks != [] {
      ArrivingLength(chunks[1..]);
    }
  }

  lemma {:induction false} ArrivalsOf(chunks: seq<string>, run: seq<Moment>)
    requires |run| == |chunks| && Callbacks(run) == Arriving(chunks)
    ensures Arrivals(chunks, Judges(run)) == run
    decreases |chunks|
  {
    if chunks != [] {
      ArrivingLength(chunks);
      assert run[0] == Moment(Callbacks(run)[0], Judges(run)[0]);
      assert Callbacks(run[1..]) == Callbacks(run)[1..] == Arriving(chunks[1..]);
      assert Judges(run[1..]) == Judges(run)[1..];
      ArrivalsOf(chunks[1..], run[1..]);
    } else {
      assert run == [];
    }
  }

  /** The exchange a parcel takes part in, when `run` is the callbacks of its chunks and its answer. */
  function ExchangeOf(x: Parcel, run: seq<Moment>): Exchange
    requires |run| == |x.chunks| + 1 && x.chunks != []
  {
    var n := |x.chunks|;
    Exchange(x.text, x.from, x.chunks, Judges(run[..n]), run[n].judge, run[n - 1].judge(x.text))
  }

  lemma ExchangeIsDelivered(x: Parcel, run: seq<Moment>)
    requires Cut(x) && |run| == |x.chunks| + 1 && Callbacks(run) == Arriving(x.chunks) + [WriteDone]
    requires forall i :: 0 <= i < |run| ==> Decides(run[i].judge, x)
    ensures Delivered(ExchangeOf(x, run)) && Arrivals(x.chunks, Judges(run[..|x.chunks|])) + [run[|x.chunks|]] == run
    ensures run[|x.chunks|].callback == WriteDone
  {
    var n := |x.chunks|;
    ArrivingLength(x.chunks);
    assert Callbacks(run[..n]) == Callbacks(run)[..n] == Arriving(x.chunks);
    ArrivalsOf(x.chunks, run[..n]);
    assert run[n].callback == Callbacks(run)[n];
    LastDecides(Judges(run[..n]), run[n - 1].judge, x.text, x.from, run[n - 1].judge(x.text));
  }

  /** The verdict is one that was given on the text in the run. */
  predicate GivenIn(run: seq<Moment>, text: string, v: Verdict) {
    exists i :: 0 <= i < |run| && run[i].judge(text) == v
  }

  /** The exchanges are those of the messages, each with a verdict given on it in the run. */
  predicate EachGiven(xs: seq<Parcel>, run: seq<Moment>, es: seq<Exchange>) {
    && |es| == |xs|
    && forall j :: 0 <= j < |xs| ==> es[j].message == xs[j].text && GivenIn(run, xs[j].text, es[j].verdict)
  }

  lemma GivenInPart(a: seq<Moment>, b: seq<Moment>, text: string, v: Verdict)
    requires GivenIn(a, text, v) || GivenIn(b, text, v)
    ensures GivenIn(a + b, text, v)
  {
    if GivenIn(a, text, v) {
      var i :| 0 <= i < |a| && a[i].judge(text) == v;
      assert (a + b)[i] == a[i];
    } else {
      var i :| 0 <= i < |b| && b[i].judge(text) == v;
      assert (a + b)[|a| + i] == b[i];
    }
  }

  lemma EachGivenCons(xs: seq<Parcel>, first: seq<Moment>, rest: seq<Moment>, e: Exchange, more: seq<Exchange>)
    requires xs != [] && e.message == xs[0].text && GivenIn(first, xs[0].text, e.verdict)
    requires EachGiven(xs[1..], rest, more)
    ensures EachGiven(xs, first + rest, [e] + more)
  {
    GivenInPart(first, rest, e.message, e.verdict);
    forall j | 0 < j < |xs|
      ensures more[j - 1].message == xs[j].text && GivenIn(first + rest, xs[j].text, more[j - 1].verdict)
    {
      assert xs[1..][j - 1] == xs[j];
      GivenInPart(first, rest, xs[j].text, more[j - 1].verdict);
    }
  }

  lemma ConversationCons(e: Exchange, more: seq<Exchange>)
    requires Delivered(e) && AllDelivered(more)
    ensures AllDelivered([e] + more)
    ensures Conversation([e] + more) ==
            (Arrivals(e.chunks, e.judges) + [Moment(WriteDone, e.done)]) + Conversation(more)
  {
    assert ([e] + more)[1..] == more;
  }

  lemma {:induction false} SplitFirst(xs: seq<Parcel>, run: seq<Moment>)
    requires xs != [] && Callbacks(run) == Sending(xs)
    ensures var n := |xs[0].chunks|;
            && n + 1 <= |run| && Callbacks(run[..n + 1]) == Arriving(xs[0].chunks) + [WriteDone]
            && Callbacks(run[n + 1..]) == Sending(xs[1..])
  {
    var n := |xs[0].chunks|;
    ArrivingLength(xs[0].chunks);
    var head := Arriving(xs[0].chunks) + [WriteDone];
    assert Callbacks(run) == head + Sending(xs[1..]) && |head| == n + 1;
    assert Callbacks(run[..n + 1]) == Callbacks(run)[..n + 1] == head;
    assert Callbacks(run[n + 1..]) == Callbacks(run)[n + 1..];
  }

  /** A run whose callbacks are those of messages being sent is a conversation of them. */
  lemma {:induction false} RunIsConversation(xs: seq<Parcel>, run: seq<Moment>) returns (es: seq<Exchange>)
    requires AllCut(xs) && AllDecide(run, xs) && Callbacks(run) == Sending(xs)
    ensures |es| == |xs| && AllDelivered(es) && Conversation(es) == run
    ensures EachGiven(xs, run, es)
    decreases |xs|
  {
    if xs == [] {
      es := [];
      assert run == [];
    } else {
      SplitFirst(xs, run);
      var x, n := xs[0], |xs[0].chunks|;
      var first, rest := run[..n + 1], run[n + 1..];
      ExchangeIsDelivered(x, first);
      assert first[n - 1].judge(x.text) == ExchangeOf(x, first).verdict;
      var more := RunIsConversation(xs[1..], rest);
      ConversationCons(ExchangeOf(x, first), more);
      es := [ExchangeOf(x, first)] + more;
      assert run == first + rest;
      EachGivenCons(xs, first, rest, ExchangeOf(x, first), more);
    }
  }

  // A message in the printed form is well framed.

  predicate Sendable(verb: string, path: string, version: string, headers: Pairs<string>) {
    && IsWord(verb) && IsWord(path) && IsWord(version)
    && FramedPairs(headers) && forall i :: 0 <= i < |headers| ==> ':' !in headers[i].0
  }

  lemma SendableIsSendable(verb: string, path: string, version: string, headers: Pairs<string>)
    requires Sendable(verb, path, version, headers)
    ensures SendableHeaders(headers)
    ensures OneLine(verb + " " + path + " " + version)
  {
    var start := verb + " " + path + " " + version;
    forall i | 0 <= i < |start| ensures start[i] != '\r' && start[i] != '\n' {
      assert start[i] in verb || start[i] in path || start[i] in version || start[i] == ' ';
    }
  }

  lemma SplitAt(m: string, head: string, body: string)
    requires m == head + body
    ensures |m| == |head| + |body| && m[..|head|] == head
  {}

  lemma PrintedHead(verb: string, path: string, version: string, headers: Pairs<string>, body: string)
    requires Sendable(verb, path, version, headers)
    ensures var m := RequestText(verb, path, version, headers, body);
            var head := RequestText(verb, path, version, headers, "");
            && |head| >= 4 && Find(m, CRLFCRLF, 0) == Some(|head| - 4)
            && m == head + body && m[..|head|] == head
  {
    var start := verb + " " + path + " " + version;
    SendableIsSendable(verb, path, version, headers);
    MessageFraming(start, headers, body);
    MessageSplits(start, headers, body);
    SplitAt(Message(start, headers, body), Message(start, headers, ""), body);
  }

  lemma PrintedVersion(verb: string, path: string, version: string, headers: Pairs<string>)
    requires Sendable(verb, path, version, headers)
    ensures ParseRequest(RequestText(verb, path, version, headers, "")).version == version
  {
    SendableIsSendable(verb, path, version, headers);
    ParseOfRequestText(verb, path, version, headers, "");
  }

  lemma PrintedAnnounces(verb: string, path: string, version: string, headers: Pairs<string>, length: nat)
    requires Sendable(verb, path, version, headers) && length < TWO_TO_THE_64
    requires GetHeader(FromPairs(Trimmed(headers)), "Content-Length") == Some(NatToString(length))
    ensures Announces(ParseRequest(RequestText(verb, path, version, headers, "")), length)
  {
    SendableIsSendable(verb, path, version, headers);
    ParseOfRequestText(verb, path, version, headers, "");
    StoullOfToString(length);
  }

  lemma PrintedCut(verb: string, path: string, version: string, headers: Pairs<string>, body: string) returns (at: nat)
    requires Sendable(verb, path, version, headers)
    ensures var m := RequestText(verb, path, version, headers, body);
            var text := RequestText(verb, path, version, headers, "");
            && at + 4 == |text| && |m| == at + 4 + |body| && m[..at + 4] == text && Find(m, CRLFCRLF, 0) == Some(at)
  {
    PrintedHead(verb, path, version, headers, body);
    at := |RequestText(verb, path, version, headers, "")| - 4;
  }

  lemma HeadIsFramed(verb: string, path: string, version: string, headers: Pairs<string>, length: nat, text: string)
    requires Sendable(verb, path, version, headers) && length < TWO_TO_THE_64
    requires GetHeader(FromPairs(Trimmed(headers)), "Content-Length") == Some(NatToString(length))
    requires text == RequestText(verb, path, version, headers, "")
    ensures ParseRequest(text).version != "" && Announces(ParseRequest(text), length)
  {
    PrintedVersion(verb, path, version, headers);
    PrintedAnnounces(verb, path, version, headers, length);
  }

  lemma FramedByHead(m: string, text: string, at: nat, length: nat)
    requires at + 4 == |text| && |m| == at + 4 + length && m[..at + 4] == text
    requires Find(m, CRLFCRLF, 0) == Some(at)
    requires ParseRequest(text).version != "" && Announces(ParseRequest(text), length)
    ensures WellFramed(m, at, ParseRequest(text), length)
  {}

  /** A printed message whose Content-Length is the decimal length of its body is well framed. */
  lemma PrintedIsWellFramed(verb: string, path: string, version: string, headers: Pairs<string>, body: string)
    returns (at: nat, head: Request)
    requires Sendable(verb, path, version, headers) && |body| < TWO_TO_THE_64
    requires GetHeader(FromPairs(Trimmed(headers)), "Content-Length") == Some(NatToString(|body|))
    ensures at + 4 == |RequestText(verb, path, version, headers, "")|
    ensures WellFramed(RequestText(verb, path, version, headers, body), at, head, |body|)
  {
    var m, text := RequestText(verb, path, version, headers, body), RequestText(verb, path, version, headers, "");
    at := PrintedCut(verb, path, version, headers, body);
    head := ParseRequest(text);
    HeadIsFramed(verb, path, version, headers, |body|, text);
    FramedByHead(m, text, at, |body|);
  }

  // What becomes of bytes behind a message.

  lemma TextWithSurplus(verb: string, path: string, version: string, headers: Pairs<string>, body: string, t: string)
    ensures RequestText(verb, path, version, headers, body) + t == RequestText(verb, path, version, headers, body + t)
  {
    var start := verb + " " + path + " " + version;
    MessageText(start, headers, body);
    MessageText(start, headers, body + t);
    var front := start + CRLF + LinesText(HeaderLines(headers)) + CRLF;
    assert front + body + t == front + (body + t);
  }

  lemma DropsTheSame(body: string, t: string)
    ensures DropFinalLF(body + t) == DropFinalLF(body) <==>
            t == "" || (t == "\n" && (body == "" || body[|body| - 1] != '\n'))
  {
    var all := body + t;
    if t == "" {
      assert all == body;
    } else if t == "\n" {
      assert all[..|body|] == body;
    } else {
      assert all[|all| - 1] == t[|t| - 1];
      assert |t| == 1 ==> t == [t[0]];
      assert |DropFinalLF(all)| > |body|;
    }
  }

  /** The text that `m` has for a body, and `t` behind it. */
  function BodyText(m: string, at: nat): string
    requires at + 4 <= |m|
  {
    HeadRest(m[..at]) + m[at + 4..]
  }

  lemma RegroupText(a: string, b: string, c: string)
    ensures a + (b + c) == a + b + c
  {}

  lemma BodyOfLonger(m: string, at: nat, t: string)
    requires HasHead(m, at)
    ensures ParseRequest(m + t).body == DropFinalLF(BodyText(m, at) + t)
  {
    LongerSplit(m, at, t);
    BodyBehindHead(m[..at], m[at + 4..] + t);
    RegroupText(HeadRest(m[..at]), m[at + 4..], t);
  }

  predicate AddsNothing(body: string, t: string) {
    t == "" || (t == "\n" && (body == "" || body[|body| - 1] != '\n'))
  }

  /** Bytes behind any message with a complete head that arrive with it become part of its request's body. The
      request is the message's own if and only if there are none, or just a line feed that the parser drops again. */
  lemma SurplusJoinsAnyBody(m: string, at: nat, t: string)
    requires HasHead(m, at)
    ensures SameHead(ParseRequest(m + t), ParseRequest(m))
    ensures ParseRequest(m + t).body == DropFinalLF(BodyText(m, at) + t)
    ensures ParseRequest(m + t).body == ParseRequest(m).body <==> AddsNothing(BodyText(m, at), t)
  {
    HeadOfLonger(m, at, t);
    HeadOfLonger(m, at, "");
    BodyOfLonger(m, at, t);
    BodyOfLonger(m, at, "");
    assert m + "" == m && BodyText(m, at) + "" == BodyText(m, at);
    DropsTheSame(BodyText(m, at), t);
  }

  /** Bytes behind a printed message that arrive with it become part of its request's body. The request is
      the message's own if and only if there are none, or just a line feed that the parser drops again. */
  lemma SurplusJoinsBody(verb: string, path: string, version: string, headers: Pairs<string>, body: string, t: string)
    requires Sendable(verb, path, version, headers)
    ensures var m := RequestText(verb, path, version, headers, body);
            && SameHead(ParseRequest(m + t), ParseRequest(m))
            && ParseRequest(m + t).body == DropFinalLF(body + t)
            && (ParseRequest(m + t).body == ParseRequest(m).body <==>
                t == "" || (t == "\n" && (body == "" || body[|body| - 1] != '\n')))
  {
    SendableIsSendable(verb, path, version, headers);
    TextWithSurplus(verb, path, version, headers, body, t);
    ParseOfRequestText(verb, path, version, headers, body);
    ParseOfRequestText(verb, path, version, headers, body + t);
    DropsTheSame(body, t);
  }
}
