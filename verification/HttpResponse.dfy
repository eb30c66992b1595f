/** `HttpResponse`: what a response is on the wire, and how to read it back. */
module HttpResponse {
  import opened Folding
  import opened Text
  import opened Numbers
  import opened Ordering
  import opened Maps
  import opened HttpText

  datatype Response = Response(version: string, status: int, reason: string, headers: map<string, string>, body: string)

  /** The four-argument constructor: Content-Length always overrides the caller's. */
  function Make(version: string, status: int, reason: string, headers: map<string, string>, body: string): Response {
    Response(version, status, reason, headers["Content-Length" := NatToString(|body|)], body)
  }

  function StatusLine(r: Response): string {
    r.version + " " + IntToString(r.status) + " " + r.reason
  }

  function WireText(r: Response): string {
    Message(StatusLine(r), SortedPairs(r.headers), r.body)
  }

  /** What goes over the wire for a response. */
  ghost function Wire(r: Response): string {
    Folded(WireText)(r)
  }

  lemma WireIsText(r: Response)
    ensures Wire(r) == WireText(r)
  {
    Unfold(WireText, r);
  }

  lemma HeaderLinesStep(ps: Pairs<string>, i: nat)
    requires i < |ps|
    ensures LinesText(HeaderLines(ps[..i + 1])) == LinesText(HeaderLines(ps[..i])) + ps[i].0 + ": " + ps[i].1 + CRLF
  {
    assert HeaderLines(ps[..i + 1]) == HeaderLines(ps[..i]) + [HeaderLine(ps[i].0, ps[i].1)];
    LinesTextSnoc(HeaderLines(ps[..i]), HeaderLine(ps[i].0, ps[i].1));
  }

  /** The bytes of a response with two header fields. */
  function TwoFieldText(version: string, status: int, reason: string, a: string, v: string, b: string, w: string,
                        body: string): string {
    version + " " + IntToString(status) + " " + reason + "\r\n" + (a + ": " + v + "\r\n" + (b + ": " + w + "\r\n")) +
    "\r\n" + body
  }

  lemma TwoKeys(a: string, b: string)
    requires a != b && LexLe(a, b)
    ensures SortedKeys({a, b}) == [a, b]
  {
    assert Elements([a, b]) == {a, b} && Sorted([a, b]) && Distinct([a, b]);
    SortedUnique(SortedKeys({a, b}), [a, b]);
  }

  lemma TwoSortedPairs(m: map<string, string>, a: string, b: string)
    requires m.Keys == {a, b} && a != b && LexLe(a, b)
    ensures SortedPairs(m) == [(a, m[a]), (b, m[b])]
  {
    TwoKeys(a, b);
  }

  lemma TwoLines(a: string, v: string, b: string, w: string)
    ensures LinesText(HeaderLines([(a, v), (b, w)])) == a + ": " + v + "\r\n" + (b + ": " + w + "\r\n")
  {
    var lines := HeaderLines([(a, v), (b, w)]);
    assert lines == [HeaderLine(a, v), HeaderLine(b, w)];
    LinesTextHead(lines, HeaderLine(a, v), [HeaderLine(b, w)]);
    LinesTextHead([HeaderLine(b, w)], HeaderLine(b, w), []);
    assert HeaderLine(b, w) + CRLF + "" == HeaderLine(b, w) + CRLF;
  }

  lemma TwoFieldsOnWire(r: Response, a: string, b: string)
    requires r.headers.Keys == {a, b} && a != b && LexLe(a, b)
    ensures Wire(r) == TwoFieldText(r.version, r.status, r.reason, a, r.headers[a], b, r.headers[b], r.body)
  {
    WireIsText(r);
    TwoSortedPairs(r.headers, a, b);
    MessageText(StatusLine(r), SortedPairs(r.headers), r.body);
    TwoLines(a, r.headers[a], b, r.headers[b]);
  }

  class HttpResponse {
    var version: string
    var statusCode: int
    var reasonPhrase: string
    var headersMap: map<string, string>
    var messageBody: string

    ghost function View(): Response
      reads this
    {
      Response(version, statusCode, reasonPhrase, headersMap, messageBody)
    }

    method SetHeader(k: string, v: string)
      modifies this
      ensures View() == old(View()).(headers := old(headersMap)[k := v])
    {
      headersMap := headersMap[k := v];
    }

    constructor (v: string, sc: int, rp: string, hm: map<string, string>, mb: string)
      ensures View() == Make(v, sc, rp, hm, mb)
    {
      version, statusCode, reasonPhrase, headersMap, messageBody := v, sc, rp, hm, mb;
      new;
      SetHeader("Content-Length", NatToString(|messageBody|));
    }

    /** Copy construction. */
    constructor Copy(r: Response)
      ensures View() == r
    {
      version, statusCode, reasonPhrase, headersMap, messageBody := r.version, r.status, r.reason, r.headers, r.body;
    }

    method SetMessageBody(mb: string)
      modifies this
      ensures var o := old(View()); View() == Make(o.version, o.status, o.reason, o.headers, mb)
    {
      messageBody := mb;
      SetHeader("Content-Length", NatToString(|messageBody|));
    }

    method ConvertToString() returns (s: string)
      ensures s == Wire(View())
    {
      var statusLine := version + " " + IntToString(statusCode) + " " + reasonPhrase + CRLF;
      var headersStr := "";
      var headers := SortedPairs(headersMap);
      var i := 0;
      while i < |headers|
        invariant 0 <= i <= |headers| && headersStr == LinesText(HeaderLines(headers[..i]))
      {
        HeaderLinesStep(headers, i);
        headersStr := headersStr + headers[i].0 + ": " + headers[i].1 + CRLF;
        i := i + 1;
      }
      s := statusLine + headersStr + CRLF + messageBody;
      assert headers[..i] == headers;
      MessageText(StatusLine(View()), headers, messageBody);
      WireIsText(View());
    }
  }

  // Reading the wire text back.

  predicate Framed(r: Response) {
    && OneLine(r.version) && OneLine(r.reason)
    && forall k :: k in r.headers ==> OneLine(k) && OneLine(r.headers[k])
  }

  lemma SortedHeadersFramed(r: Response)
    requires Framed(r)
    ensures FramedPairs(SortedPairs(r.headers))
  {
    SortedPairsOf(r.headers);
  }

  lemma NumberIsOneLine(n: int)
    ensures OneLine(IntToString(n)) && ' ' !in IntToString(n)
  {
    var s := NatToString(if n < 0 then -n else n);
    assert forall c :: c in s ==> Is(Digit, c);
  }

  lemma WireHead(r: Response)
    requires Framed(r)
    ensures var at := Find(Wire(r), CRLFCRLF, 0);
            at.Some? && at.value + 4 + |r.body| == |Wire(r)| && Wire(r)[at.value + 4..] == r.body
  {
    WireIsText(r);
    SortedHeadersFramed(r);
    NumberIsOneLine(r.status);
    MessageFraming(StatusLine(r), SortedPairs(r.headers), r.body);
  }

  /** Framing: the first CRLFCRLF of the wire text separates head and body, and the
      Content-Length of a constructor-built response is the length of what follows
      (section 6.2 of RFC 9112). */
  lemma WireFraming(r: Response, headers: map<string, string>)
    requires r == Make(r.version, r.status, r.reason, headers, r.body) && Framed(r) && |r.body| < TWO_TO_THE_64
    ensures var at := Find(Wire(r), CRLFCRLF, 0);
            && at.Some? && at.value + 4 + |r.body| == |Wire(r)| && Wire(r)[at.value + 4..] == r.body
            && Stoull(r.headers["Content-Length"]) == Converted(|r.body|)
  {
    WireHead(r);
    assert r.headers["Content-Length"] == NatToString(|r.body|);
    StoullOfToString(|r.body|);
  }

  function DecodeHeaders(s: string): (r: (Pairs<string>, string))
    decreases |s|
  {
    var line := StripCR(LineOf(s, '\n'));
    if s == "" || line == "" then ([], AfterLine(s, '\n'))
    else
      var value := AfterLine(line, ':');
      var (ps, body) := DecodeHeaders(AfterLine(s, '\n'));
      ([(LineOf(line, ':'), if value == "" then "" else value[1..])] + ps, body)
  }

  function Decode(wire: string): Response {
    var start := StripCR(LineOf(wire, '\n'));
    var (ps, body) := DecodeHeaders(AfterLine(wire, '\n'));
    var behind := AfterLine(start, ' ');
    var status := match Stoi(LineOf(behind, ' ')) case Converted(n) => n case _ => 0;
    Response(LineOf(start, ' '), status, AfterLine(behind, ' '), FromPairs(ps), body)
  }

  lemma PairsHead(ps: Pairs<string>)
    requires ps != []
    ensures ps == [(ps[0].0, ps[0].1)] + ps[1..]
  {}

  lemma DecodeNoLines(body: string)
    ensures DecodeHeaders(CRLF + body) == ([], body)
  {
    assert CRLF + body == "" + CRLF + body;
    ReadLine("", body);
  }

  lemma HeaderLineParts(name: string, value: string)
    requires ':' !in name
    ensures LineOf(HeaderLine(name, value), ':') == name && AfterLine(HeaderLine(name, value), ':') == " " + value
  {
    assert HeaderLine(name, value) == name + [':'] + (" " + value);
    LineOfConcat(name, ':', " " + value);
  }

  lemma DecodeHeaderLine(name: string, value: string, rest: string)
    requires OneLine(name) && OneLine(value) && ':' !in name
    ensures DecodeHeaders(HeaderLine(name, value) + CRLF + rest)
         == ([(name, value)] + DecodeHeaders(rest).0, DecodeHeaders(rest).1)
  {
    ReadLine(HeaderLine(name, value), rest);
    HeaderLineParts(name, value);
    assert (" " + value)[1..] == value;
  }

  lemma {:induction false} DecodeHeaderLines(ps: Pairs<string>, body: string)
    requires FramedPairs(ps) && forall i :: 0 <= i < |ps| ==> ':' !in ps[i].0
    ensures DecodeHeaders(LinesText(HeaderLines(ps)) + CRLF + body) == (ps, body)
    decreases |ps|
  {
    if ps == [] {
      DecodeNoLines(body);
      assert LinesText(HeaderLines(ps)) + CRLF + body == CRLF + body;
    } else {
      var rest := LinesText(HeaderLines(ps[1..])) + CRLF + body;
      HeaderLinesText(ps, body);
      DecodeHeaderLine(ps[0].0, ps[0].1, rest);
      DecodeHeaderLines(ps[1..], body);
      PairsHead(ps);
    }
  }

  lemma StatusLineParts(r: Response)
    requires ' ' !in r.version
    ensures var behind := AfterLine(StatusLine(r), ' ');
            LineOf(StatusLine(r), ' ') == r.version && LineOf(behind, ' ') == IntToString(r.status)
            && AfterLine(behind, ' ') == r.reason
  {
    var number := IntToString(r.status);
    NumberIsOneLine(r.status);
    assert StatusLine(r) == r.version + [' '] + (number + [' '] + r.reason);
    LineOfConcat(r.version, ' ', number + [' '] + r.reason);
    LineOfConcat(number, ' ', r.reason);
  }

  lemma DecodeOfMessage(start: string, ps: Pairs<string>, body: string)
    requires OneLine(start) && FramedPairs(ps) && forall i :: 0 <= i < |ps| ==> ':' !in ps[i].0
    ensures StripCR(LineOf(Message(start, ps, body), '\n')) == start
    ensures DecodeHeaders(AfterLine(Message(start, ps, body), '\n')) == (ps, body)
  {
    var rest := LinesText(HeaderLines(ps)) + CRLF + body;
    MessageText(start, ps, body);
    assert Message(start, ps, body) == start + CRLF + rest;
    ReadLine(start, rest);
    DecodeHeaderLines(ps, body);
  }

  /** The responses whose wire text can be taken apart again. */
  predicate Decodable(r: Response) {
    && Framed(r) && ' ' !in r.version && INT_MIN <= r.status <= INT_MAX
    && forall k :: k in r.headers ==> ':' !in k
  }

  lemma DecodeOfWire(r: Response)
    requires Decodable(r)
    ensures Decode(Wire(r)) == r
  {
    WireIsText(r);
    SortedHeadersFramed(r);
    SortedPairsOf(r.headers);
    NumberIsOneLine(r.status);
    DecodeOfMessage(StatusLine(r), SortedPairs(r.headers), r.body);
    StatusLineParts(r);
    StoiOfToString(r.status);
  }

  /** Equal wire texts come from equal responses. */
  lemma WireInjective(a: Response, b: Response)
    requires Decodable(a) && Decodable(b) && Wire(a) == Wire(b)
    ensures a == b
  {
    DecodeOfWire(a);
    DecodeOfWire(b);
  }

  // Answers one behind the other on a connection.

  /** A response as its constructor builds it, whose wire text can be taken apart. */
  predicate Sound(r: Response) {
    Decodable(r) && "Content-Length" in r.headers && r.headers["Content-Length"] == NatToString(|r.body|)
  }

  /** The number of bytes a head announces, or None where it announces none. */
  function LengthIn(head: string): Option<nat> {
    var headers := Decode(head).headers;
    if "Content-Length" in headers && All(Digit, headers["Content-Length"]) then
      Some(DigitsValue(headers["Content-Length"]))
    else
      None
  }

  ghost function AnnouncedLength(head: string): Option<nat> {
    Folded(LengthIn)(head)
  }

  function EndOf(size: nat, body: nat, announced: Option<nat>): (r: Option<nat>)
    requires 0 < body <= size
    ensures r.Some? ==> 0 < r.value <= size
  {
    if announced.Some? && body + announced.value <= size then Some(body + announced.value) else None
  }

  /** Where the first head of a text ends. */
  function HeadEnd(s: string): (r: Option<nat>)
    ensures r.Some? ==> 0 < r.value <= |s|
  {
    match Find(s, CRLFCRLF, 0)
    case None => None
    case Some(at) => Some(at + 4)
  }

  /** Where the first response of a text ends: as many bytes behind its head as that announces. */
  ghost function FirstEnd(s: string): (r: Option<nat>)
    ensures r.Some? ==> 0 < r.value <= |s|
  {
    match HeadEnd(s)
    case None => None
    case Some(n) => EndOf(|s|, n, AnnouncedLength(s[..n]))
  }

  /** The responses a client takes from what it receives. */
  ghost function ReadResponses(s: string): seq<Response>
    decreases |s|
  {
    match FirstEnd(s)
    case None => []
    case Some(end) => [Decode(s[..end])] + ReadResponses(s[end..])
  }

  lemma WireParts(r: Response)
    ensures Wire(r) == Wire(r.(body := "")) + r.body
  {
    WireIsText(r);
    WireIsText(r.(body := ""));
    MessageSplits(StatusLine(r), SortedPairs(r.headers), r.body);
  }

  lemma HeadOfWire(r: Response) returns (at: nat)
    requires Sound(r)
    ensures Find(Wire(r), CRLFCRLF, 0) == Some(at) && at + 4 + |r.body| == |Wire(r)|
    ensures AnnouncedLength(Wire(r)[..at + 4]) == Some(|r.body|)
  {
    var head := r.(body := "");
    WireHead(r);
    WireParts(r);
    at := Find(Wire(r), CRLFCRLF, 0).value;
    assert Wire(r)[..at + 4] == Wire(head);
    DecodeOfWire(head);
    Unfold(LengthIn, Wire(head));
  }

  lemma HeadEndIs(s: string, at: nat)
    requires Find(s, CRLFCRLF, 0) == Some(at)
    ensures at + 4 <= |s| && HeadEnd(s) == Some(at + 4)
  {}

  lemma TakeOfConcat(s: string, t: string, n: nat)
    requires n <= |s|
    ensures (s + t)[..n] == s[..n]
  {}

  lemma HeadEndExtends(s: string, t: string, at: nat)
    requires Find(s, CRLFCRLF, 0) == Some(at)
    ensures at + 4 <= |s| && HeadEnd(s + t) == Some(at + 4) && (s + t)[..at + 4] == s[..at + 4]
  {
    HeadEndIs(s, at);
    FindExtends(s, t, CRLFCRLF, 0);
    HeadEndIs(s + t, at);
    TakeOfConcat(s, t, at + 4);
  }

  lemma FirstEndIs(s: string, n: nat, length: nat)
    requires HeadEnd(s) == Some(n) && AnnouncedLength(s[..n]) == Some(length) && n + length <= |s|
    ensures FirstEnd(s) == Some(n + length)
  {}

  lemma FirstEndOfWire(r: Response, t: string)
    requires Sound(r)
    ensures FirstEnd(Wire(r) + t) == Some(|Wire(r)|)
  {
    var at := HeadOfWire(r);
    HeadEndExtends(Wire(r), t, at);
    FirstEndIs(Wire(r) + t, at + 4, |r.body|);
  }

  lemma ReadFirst(wire: string, t: string, s: string)
    requires s == wire + t && FirstEnd(s) == Some(|wire|)
    ensures ReadResponses(s) == [Decode(wire)] + ReadResponses(t)
  {
    assert s[..|wire|] == wire && s[|wire|..] == t;
  }

  lemma ReadOne(r: Response, t: string)
    requires Sound(r)
    ensures ReadResponses(Wire(r) + t) == [r] + ReadResponses(t)
  {
    FirstEndOfWire(r, t);
    ReadFirst(Wire(r), t, Wire(r) + t);
    DecodeOfWire(r);
  }

  ghost function Wires(rs: seq<Response>): string {
    if rs == [] then "" else Wire(rs[0]) + Wires(rs[1..])
  }

  predicate AllSound(rs: seq<Response>) {
    forall i :: 0 <= i < |rs| ==> Sound(rs[i])
  }

  lemma ReadNext(rs: seq<Response>, wires: string, text: string)
    requires rs != [] && Sound(rs[0]) && ReadResponses(wires) == rs[1..] && text == Wire(rs[0]) + wires
    ensures ReadResponses(text) == rs
  {
    ReadOne(rs[0], wires);
    assert [rs[0]] + rs[1..] == rs;
  }

  lemma NothingToRead()
    ensures ReadResponses("") == []
  {
    assert Find("", CRLFCRLF, 0).None?;
  }

  /** Responses that were sent one behind the other are taken apart again. */
  lemma {:induction false} ReadAll(rs: seq<Response>)
    requires AllSound(rs)
    ensures ReadResponses(Wires(rs)) == rs
    decreases |rs|
  {
    if rs == [] {
      NothingToRead();
    } else {
      ReadAll(rs[1..]);
      ReadNext(rs, Wires(rs[1..]), Wires(rs));
    }
  }

  lemma {:induction false} WiresSnoc(rs: seq<Response>, r: Response)
    ensures Wires(rs + [r]) == Wires(rs) + Wire(r)
    decreases |rs|
  {
    if rs == [] {
      assert rs + [r] == [r] && [r][1..] == [];
      assert Wire(r) + "" == "" + Wire(r);
    } else {
      assert (rs + [r])[1..] == rs[1..] + [r];
      WiresSnoc(rs[1..], r);
    }
  }
}
