/** The whole server: connections that come and go, callbacks on them in any order, and the one
    store that all CRUD handlers share. */
module World {
  import opened Store
  import opened Handlers
  import opened Session
  import opened SessionLaws

  /** An operation, and the connection whose session started it. */
  datatype Entry = Entry(connection: nat, operation: Operation)

  /** The sessions, the store, and all operations that were started, in their order. */
  datatype World = World(sessions: map<nat, State>, store: Flat, log: seq<Entry>)

  const EMPTY := World(map[], map[], [])

  datatype Occurrence = Accept(connection: nat) | Call(connection: nat, callback: Callback)

  predicate CanOccur(w: World, o: Occurrence) {
    match o
    case Accept(c) => c !in w.sessions
    case Call(c, cb) => c in w.sessions && Enabled(w.sessions[c], cb)
  }

  function NewEntries(c: nat, was: seq<Operation>, now: seq<Operation>): seq<Entry> {
    if |was| < |now| then [Entry(c, now[|now| - 1])] else []
  }

  /** What one callback does: the session takes a step with the handlers as the store has them,
      and the store is changed by the request it dispatched, if it did. */
  ghost function Occur(serving: Serving, w: World, o: Occurrence): World
    requires CanOccur(w, o)
  {
    match o
    case Accept(c) => World(w.sessions[c := STARTED], w.store, w.log + [Entry(c, Read)])
    case Call(c, cb) =>
      var was := w.sessions[c];
      var now := Next(JudgingOf(AppOf(serving, w.store)), was, cb);
      World(w.sessions[c := now], StoreAfterLogged(serving, w.store, was.log, now.log),
            w.log + NewEntries(c, was.log, now.log))
  }

  ghost predicate Occurs(serving: Serving, w: World, run: seq<Occurrence>)
    decreases |run|
  {
    run != [] ==> CanOccur(w, run[0]) && Occurs(serving, Occur(serving, w, run[0]), run[1..])
  }

  ghost function Becomes(serving: Serving, w: World, run: seq<Occurrence>): World
    requires Occurs(serving, w, run)
    decreases |run|
  {
    if run == [] then w else Becomes(serving, Occur(serving, w, run[0]), run[1..])
  }

  // What a log tells.

  function OperationsOn(log: seq<Entry>, c: nat): seq<Operation> {
    if log == [] then []
    else
      var last := log[|log| - 1];
      OperationsOn(log[..|log| - 1], c) + if last.connection == c then [last.operation] else []
  }

  /** The store the dispatched requests of a log lead to, in the order of their dispatch. */
  function StoreOf(serving: Serving, log: seq<Entry>): Flat {
    if log == [] then map[]
    else StoreAfterOperation(serving, StoreOf(serving, log[..|log| - 1]), log[|log| - 1].operation)
  }

  lemma StoreSnoc(serving: Serving, log: seq<Entry>, e: Entry)
    ensures StoreOf(serving, log + [e]) == StoreAfterOperation(serving, StoreOf(serving, log), e.operation)
  {
    assert (log + [e])[..|log|] == log;
  }

  lemma OperationsSnoc(log: seq<Entry>, e: Entry, c: nat)
    ensures OperationsOn(log + [e], c) ==
            if e.connection == c then OperationsOn(log, c) + [e.operation] else OperationsOn(log, c)
  {
    assert (log + [e])[..|log|] == log;
  }

  /** Entry `i` of the log, if it is an answer, is the verdict of the handlers with the store that
      the dispatches in front of it lead to. */
  ghost predicate Answers(serving: Serving, log: seq<Entry>, i: nat)
    requires i < |log|
  {
    var op := log[i].operation;
    op.Write? ==>
      JudgingOf(AppOf(serving, StoreOf(serving, log[..i])))(op.consumed) == Answer(op.wire, op.dispatched)
  }

  /** The log of each session is its part of the server's. */
  ghost predicate LogsAgree(sessions: map<nat, State>, log: seq<Entry>) {
    && (forall c :: c in sessions ==> sessions[c].log == OperationsOn(log, c))
    && (forall c :: c !in sessions ==> OperationsOn(log, c) == [])
  }

  ghost predicate Coherent(serving: Serving, w: World) {
    && w.store == StoreOf(serving, w.log) && LogsAgree(w.sessions, w.log)
    && (forall i :: 0 <= i < |w.log| ==> Answers(serving, w.log, i))
  }

  lemma AnswersSnoc(serving: Serving, log: seq<Entry>, e: Entry)
    requires forall i :: 0 <= i < |log| ==> Answers(serving, log, i)
    requires e.operation.Write? ==>
      JudgingOf(AppOf(serving, StoreOf(serving, log)))(e.operation.consumed) ==
      Answer(e.operation.wire, e.operation.dispatched)
    ensures forall i :: 0 <= i < |log + [e]| ==> Answers(serving, log + [e], i)
  {
    var more := log + [e];
    forall i | 0 <= i < |more| ensures Answers(serving, more, i) {
      if i < |log| {
        assert Answers(serving, log, i) && more[..i] == log[..i];
      } else {
        assert more[..i] == log;
      }
    }
  }

  /** A step of a session logs one operation at most, and an answer only as the verdict. */
  lemma StepLogs(judge: Judging, s: State, cb: Callback)
    requires Enabled(s, cb)
    ensures var log := Next(judge, s, cb).log;
            || log == s.log
            || (log != [] && log == s.log + [log[|log| - 1]]
                && var op := log[|log| - 1]; op.Write? ==> judge(op.consumed) == Answer(op.wire, op.dispatched))
  {}

  lemma EntryKeeps(serving: Serving, w: World, c: nat, now: State)
    requires Coherent(serving, w)
    requires c in w.sessions && now.log == w.sessions[c].log
    ensures Coherent(serving, w.(sessions := w.sessions[c := now]))
  {}

  lemma AgreeOn(sessions: map<nat, State>, log: seq<Entry>, c: nat, now: State, more: seq<Entry>)
    requires LogsAgree(sessions, log)
    requires forall d :: OperationsOn(more, d) == if c == d then now.log else OperationsOn(log, d)
    ensures LogsAgree(sessions[c := now], more)
  {}

  lemma LogsStillAgree(sessions: map<nat, State>, log: seq<Entry>, c: nat, now: State, op: Operation)
    requires LogsAgree(sessions, log) && now.log == OperationsOn(log, c) + [op]
    ensures LogsAgree(sessions[c := now], log + [Entry(c, op)])
  {
    forall d ensures OperationsOn(log + [Entry(c, op)], d) == if c == d then now.log else OperationsOn(log, d) {
      OperationsSnoc(log, Entry(c, op), d);
    }
    AgreeOn(sessions, log, c, now, log + [Entry(c, op)]);
  }

  lemma LoggedKeeps(serving: Serving, w: World, c: nat, now: State, op: Operation)
    requires Coherent(serving, w)
    requires now.log == OperationsOn(w.log, c) + [op]
    requires op.Write? ==> JudgingOf(AppOf(serving, w.store))(op.consumed) == Answer(op.wire, op.dispatched)
    ensures Coherent(serving, World(w.sessions[c := now], StoreAfterOperation(serving, w.store, op),
                                    w.log + [Entry(c, op)]))
  {
    LogsStillAgree(w.sessions, w.log, c, now, op);
    StoreSnoc(serving, w.log, Entry(c, op));
    AnswersSnoc(serving, w.log, Entry(c, op));
  }

  lemma CallKeeps(serving: Serving, w: World, c: nat, cb: Callback)
    requires Coherent(serving, w) && CanOccur(w, Call(c, cb))
    ensures Coherent(serving, Occur(serving, w, Call(c, cb)))
  {
    var was := w.sessions[c];
    var judge := JudgingOf(AppOf(serving, w.store));
    var now := Next(judge, was, cb);
    StepLogs(judge, was, cb);
    if now.log == was.log {
      assert w.log + NewEntries(c, was.log, now.log) == w.log;
      EntryKeeps(serving, w, c, now);
    } else {
      LoggedKeeps(serving, w, c, now, now.log[|now.log| - 1]);
    }
  }

  lemma OccurKeeps(serving: Serving, w: World, o: Occurrence)
    requires Coherent(serving, w) && CanOccur(w, o)
    ensures Coherent(serving, Occur(serving, w, o))
  {
    match o {
      case Accept(c) =>
        assert STARTED.log == OperationsOn(w.log, c) + [Read];
        LoggedKeeps(serving, w, c, STARTED, Read);
      case Call(c, cb) =>
        CallKeeps(serving, w, c, cb);
    }
  }

  /** In every run of the server the store is what the dispatched requests lead to, in the order of
      their dispatch over all connections, and each answer was given with the store at its time. */
  lemma {:induction false} RunIsCoherent(serving: Serving, w: World, run: seq<Occurrence>)
    requires Coherent(serving, w) && Occurs(serving, w, run)
    ensures Coherent(serving, Becomes(serving, w, run))
    decreases |run|
  {
    if run != [] {
      OccurKeeps(serving, w, run[0]);
      RunIsCoherent(serving, Occur(serving, w, run[0]), run[1..]);
    }
  }

  lemma EveryWorldIsCoherent(serving: Serving, run: seq<Occurrence>)
    requires Occurs(serving, EMPTY, run)
    ensures Coherent(serving, Becomes(serving, EMPTY, run))
  {
    RunIsCoherent(serving, EMPTY, run);
  }

  // One connection in a run of the server.

  /** The callbacks on connection `c`, each with the handlers as the store then had them. */
  ghost function HappeningsOn(serving: Serving, w: World, run: seq<Occurrence>, c: nat): seq<Happening>
    requires Occurs(serving, w, run)
    decreases |run|
  {
    if run == [] then []
    else
      var rest := HappeningsOn(serving, Occur(serving, w, run[0]), run[1..], c);
      if run[0].Call? && run[0].connection == c then
        [Happening(run[0].callback, AppOf(serving, w.store))] + rest
      else
        rest
  }

  lemma MomentsCons(h: Happening, hs: seq<Happening>)
    ensures Moments([h] + hs) == [Moment(h.callback, JudgingOf(h.app))] + Moments(hs)
  {}

  lemma {:induction false} ConnectionFrom(serving: Serving, w: World, run: seq<Occurrence>, c: nat)
    requires Occurs(serving, w, run) && c in w.sessions
    ensures var hs := HappeningsOn(serving, w, run, c);
            && Possible(w.sessions[c], Moments(hs))
            && c in Becomes(serving, w, run).sessions
            && Becomes(serving, w, run).sessions[c] == After(w.sessions[c], Moments(hs))
    decreases |run|
  {
    if run == [] {
      assert Moments([]) == [];
    } else {
      var next := Occur(serving, w, run[0]);
      var rest := HappeningsOn(serving, next, run[1..], c);
      ConnectionFrom(serving, next, run[1..], c);
      if run[0].Call? && run[0].connection == c {
        var h := Happening(run[0].callback, AppOf(serving, w.store));
        MomentsCons(h, rest);
        RunCons(w.sessions[c], Moment(h.callback, JudgingOf(h.app)), Moments(rest));
      }
    }
  }

  /** On each connection the server's run is a run of that session alone. */
  lemma {:induction false} ConnectionRuns(serving: Serving, w: World, run: seq<Occurrence>, c: nat)
    requires Occurs(serving, w, run) && c !in w.sessions && c in Becomes(serving, w, run).sessions
    ensures var hs := HappeningsOn(serving, w, run, c);
            && Possible(STARTED, Moments(hs))
            && Becomes(serving, w, run).sessions[c] == After(STARTED, Moments(hs))
    decreases |run|
  {
    if run != [] {
      var next := Occur(serving, w, run[0]);
      if c in next.sessions {
        ConnectionFrom(serving, next, run[1..], c);
      } else {
        ConnectionRuns(serving, next, run[1..], c);
      }
    }
  }

  function CallbacksOn(run: seq<Occurrence>, c: nat): seq<Callback> {
    if run == [] then []
    else (if run[0].Call? && run[0].connection == c then [run[0].callback] else []) + CallbacksOn(run[1..], c)
  }

  lemma CallbacksCons(h: Happening, hs: seq<Happening>)
    ensures Callbacks(Moments([h] + hs)) == [h.callback] + Callbacks(Moments(hs))
  {
    MomentsCons(h, hs);
  }

  lemma NoCallbacks()
    ensures Callbacks(Moments([])) == []
  {}

  lemma HappeningsStep(serving: Serving, w: World, run: seq<Occurrence>, c: nat)
    requires Occurs(serving, w, run) && run != []
    ensures var rest := HappeningsOn(serving, Occur(serving, w, run[0]), run[1..], c);
            HappeningsOn(serving, w, run, c) ==
            if run[0].Call? && run[0].connection == c then
              [Happening(run[0].callback, AppOf(serving, w.store))] + rest
            else
              rest
  {}

  lemma CallbacksOnStep(run: seq<Occurrence>, c: nat)
    requires run != []
    ensures CallbacksOn(run, c) ==
            if run[0].Call? && run[0].connection == c then [run[0].callback] + CallbacksOn(run[1..], c)
            else CallbacksOn(run[1..], c)
  {}

  lemma {:induction false} CallbacksOfHappenings(serving: Serving, w: World, run: seq<Occurrence>, c: nat)
    requires Occurs(serving, w, run)
    ensures Callbacks(Moments(HappeningsOn(serving, w, run, c))) == CallbacksOn(run, c)
    decreases |run|
  {
    if run != [] {
      var next := Occur(serving, w, run[0]);
      var rest := HappeningsOn(serving, next, run[1..], c);
      CallbacksOfHappenings(serving, next, run[1..], c);
      HappeningsStep(serving, w, run, c);
      CallbacksOnStep(run, c);
      if run[0].Call? && run[0].connection == c {
        CallbacksCons(Happening(run[0].callback, AppOf(serving, w.store)), rest);
      }
    } else {
      NoCallbacks();
    }
  }

  function BytesIn(callbacks: seq<Callback>): string {
    if callbacks == [] then "" else BytesOf(callbacks[0]) + BytesIn(callbacks[1..])
  }

  lemma {:induction false} ReceivedIsBytes(run: seq<Moment>)
    ensures Received(run) == BytesIn(Callbacks(run))
    decreases |run|
  {
    if run != [] {
      ReceivedIsBytes(run[1..]);
      assert Callbacks(run)[1..] == Callbacks(run[1..]);
    }
  }

  /** What holds of every run of a connection holds of each connection of the server: one operation
      pending at most, an empty or waiting buffer, and no byte lost. */
  lemma EveryConnection(serving: Serving, run: seq<Occurrence>, c: nat)
    requires Occurs(serving, EMPTY, run) && c in Becomes(serving, EMPTY, run).sessions
    ensures var s := Becomes(serving, EMPTY, run).sessions[c];
            && s.pendingReads + s.pendingWrites <= 1
            && (s.buffer == "" || AwaitsBody(s.buffer))
            && Consumed(OperationsOn(Becomes(serving, EMPTY, run).log, c)) + s.buffer == BytesIn(CallbacksOn(run, c))
  {
    var hs := HappeningsOn(serving, EMPTY, run, c);
    EveryWorldIsCoherent(serving, run);
    ConnectionRuns(serving, EMPTY, run, c);
    EveryRun(hs);
    CallbacksOfHappenings(serving, EMPTY, run, c);
    ReceivedIsBytes(Moments(hs));
  }

  // Runs can be continued.

  lemma {:induction false} OccursAppend(serving: Serving, w: World, run: seq<Occurrence>, o: Occurrence)
    requires Occurs(serving, w, run) && CanOccur(Becomes(serving, w, run), o)
    ensures Occurs(serving, w, run + [o])
    ensures Becomes(serving, w, run + [o]) == Occur(serving, Becomes(serving, w, run), o)
    decreases |run|
  {
    if run == [] {
      assert run + [o] == [o] && [o][1..] == [];
    } else {
      OccursAppend(serving, Occur(serving, w, run[0]), run[1..], o);
      assert (run + [o])[0] == run[0] && (run + [o])[1..] == run[1..] + [o];
    }
  }

  lemma {:induction false} CallbacksAppend(run: seq<Occurrence>, o: Occurrence, c: nat)
    ensures CallbacksOn(run + [o], c) == CallbacksOn(run, c) + if o.Call? && o.connection == c then [o.callback] else []
    decreases |run|
  {
    if run == [] {
      assert run + [o] == [o] && [o][1..] == [];
    } else {
      CallbacksAppend(run[1..], o, c);
      assert (run + [o])[0] == run[0] && (run + [o])[1..] == run[1..] + [o];
    }
  }

  // Parts of a log.

  lemma {:induction false} OperationsAppend(a: seq<Entry>, b: seq<Entry>, c: nat)
    ensures OperationsOn(a + b, c) == OperationsOn(a, c) + OperationsOn(b, c)
    decreases |b|
  {
    if b == [] {
      assert a + b == a;
    } else {
      var init, last := b[..|b| - 1], b[|b| - 1];
      OperationsAppend(a, init, c);
      assert (a + b)[..|a + b| - 1] == a + init && (a + b)[|a + b| - 1] == last;
    }
  }

  /** The place of an answer among those on its connection: behind the answers in front of it. */
  lemma AnswerHasPlace(log: seq<Entry>, p: nat)
    requires p < |log| && log[p].operation.Write?
    ensures var i := |Writes(OperationsOn(log[..p], log[p].connection))|;
            var writes := Writes(OperationsOn(log, log[p].connection));
            && i < |writes| && writes[i] == log[p].operation
            && writes[..i] == Writes(OperationsOn(log[..p], log[p].connection))
  {
    var c, rest := log[p].connection, log[p + 1..];
    assert log == log[..p] + ([log[p]] + rest);
    OperationsAppend(log[..p], [log[p]] + rest, c);
    OperationsAppend([log[p]], rest, c);
    assert OperationsOn([log[p]], c) == [log[p].operation];
    WritesAppend(OperationsOn(log[..p], c), [log[p].operation] + OperationsOn(rest, c));
    WritesAppend([log[p].operation], OperationsOn(rest, c));
    assert Writes([log[p].operation]) == [log[p].operation];
  }
}
