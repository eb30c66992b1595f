/** `HttpRequest`: parsing a request text, and the properties the session and the
    handlers rely on. */
module HttpRequest {
  import opened Folding
  import opened Text
  import opened Streams
  import opened Ordering
  import opened HttpText

  datatype Request = Request(verb: string, path: string, basePath: string, version: string, body: string,
                             headers: map<string, string>, raw: string, queryParams: map<string, string>)

  /** `trim`: without blanks at either end. */
  function TrimRight(s: string): string {
    if s != "" && Is(Blank, s[|s| - 1]) then TrimRight(s[..|s| - 1]) else s
  }

  function Trim(s: string): string {
    TrimRight(s[Span(s, 0, Blank)..])
  }

  // Path and query.

  function BasePath(path: string): string {
    LineOf(path, '?')
  }

  /** What one piece of the query string sets: nothing without an equals sign. */
  function AddParam(params: map<string, string>, piece: string): map<string, string> {
    match FindChar(piece, '=', 0)
    case None => params
    case Some(i) => params[piece[..i] := piece[i + 1..]]
  }

  /** The assignments between ampersands, from left to right. */
  function AddParams(params: map<string, string>, query: string): map<string, string>
    decreases |query|
  {
    if query == "" then params
    else AddParams(AddParam(params, LineOf(query, '&')), AfterLine(query, '&'))
  }

  function QueryParams(path: string): map<string, string> {
    AddParams(map[], AfterLine(path, '?'))
  }

  // Header fields.

  /** What one line of the head sets: nothing without a colon. */
  function AddHeader(headers: map<string, string>, line: string): map<string, string> {
    match FindChar(line, ':', 0)
    case None => headers
    case Some(i) => headers[line[..i] := Trim(line[i + 1..])]
  }

  datatype Head = Head(headers: map<string, string>, rest: string)

  /** The header fields up to the first empty line, and the text behind it. */
  function AddHeaders(headers: map<string, string>, s: string): Head
    decreases |s|
  {
    var line := StripCR(LineOf(s, '\n'));
    if s == "" || line == "" then Head(headers, AfterLine(s, '\n'))
    else AddHeaders(AddHeader(headers, line), AfterLine(s, '\n'))
  }

  function DropFinalLF(s: string): string {
    if s != "" && s[|s| - 1] == '\n' then s[..|s| - 1] else s
  }

  datatype RequestWords = RequestWords(verb: string, path: string, version: string, behind: string)

  /** The three words of the request line, and the text behind the third. */
  function RequestLine(raw: string): RequestWords {
    var r1 := AfterWord(raw);
    var r2 := AfterWord(r1);
    RequestWords(WordOf(raw), WordOf(r1), WordOf(r2), AfterWord(r2))
  }

  function NoRequest(raw: string): Request {
    Request("", "", "", "", "", map[], raw, map[])
  }

  function Assemble(raw: string, verb: string, path: string, version: string, behind: string): Request {
    var head := AddHeaders(map[], AfterLine(behind, '\n'));
    Request(verb, path, BasePath(path), version, DropFinalLF(head.rest), head.headers, raw, QueryParams(path))
  }

  /** `HttpRequest::parse` as a function of the text. Without three words there is no request. */
  function RequestOf(raw: string): Request {
    var words := RequestLine(raw);
    if words.verb == "" || words.path == "" || words.version == "" then
      NoRequest(raw)
    else
      Assemble(raw, words.verb, words.path, words.version, words.behind)
  }

  ghost function ParseRequest(raw: string): Request {
    Folded(RequestOf)(raw)
  }

  lemma ParseIsRequestOf(raw: string)
    ensures ParseRequest(raw) == RequestOf(raw)
  {
    Unfold(RequestOf, raw);
  }

  function LowerChar(c: char): char {
    if 'A' <= c <= 'Z' then (c as int + 32) as char else c
  }

  function ToLower(s: string): string {
    seq(|s|, i requires 0 <= i < |s| => LowerChar(s[i]))
  }

  /** The first key, in the order of the map, that is `name` up to the case of letters. */
  function FirstMatch(keys: seq<string>, name: string): Option<string> {
    if keys == [] then None
    else if ToLower(keys[0]) == ToLower(name) then Some(keys[0])
    else FirstMatch(keys[1..], name)
  }

  /** `get_header` */
  function FindHeader(headers: map<string, string>, name: string): Option<string> {
    match FirstMatch(SortedKeys(headers.Keys), name)
    case None => None
    case Some(k) => if k in headers then Some(headers[k]) else None
  }

  ghost function GetHeader(headers: map<string, string>, name: string): Option<string> {
    Folded2(FindHeader)(headers, name)
  }

  lemma GetIsFind(headers: map<string, string>, name: string)
    ensures GetHeader(headers, name) == FindHeader(headers, name)
  {
    Unfold2(FindHeader, headers, name);
  }

  function IsValid(r: Request): bool {
    && r.verb != "" && r.path != "" && r.version == "HTTP/1.1"
    && r.verb in ["GET", "POST", "PUT", "DELETE"]
    && r.path[0] == '/' && ' ' !in r.path && Contains(r.raw, CRLFCRLF)
  }

  lemma PathParts(path: string)
    ensures match FindChar(path, '?', 0)
            case None => BasePath(path) == path && AfterLine(path, '?') == ""
            case Some(i) => BasePath(path) == path[..i] && AfterLine(path, '?') == path[i + 1..]
  {}

  /** Every line read from `s`, each with a line feed put back behind it. */
  function LinesAgain(s: string): string
    decreases |s|
  {
    if s == "" then "" else LineOf(s, '\n') + "\n" + LinesAgain(AfterLine(s, '\n'))
  }

  predicate EndsLF(s: string) {
    s == "" || s[|s| - 1] == '\n'
  }

  function TerminateLF(s: string): string {
    if EndsLF(s) then s else s + "\n"
  }

  lemma TerminateSplit(s: string)
    requires s != ""
    ensures TerminateLF(s) == LineOf(s, '\n') + "\n" + TerminateLF(AfterLine(s, '\n'))
  {
    var l, r := LineOf(s, '\n'), AfterLine(s, '\n');
    LineSplit(s, '\n');
    if '\n' in s {
      assert r != "" ==> s[|s| - 1] == r[|r| - 1];
      assert l + ['\n'] + r + "\n" == l + "\n" + (r + "\n");
    } else {
      assert s[|s| - 1] in s;
      assert l + "\n" + "" == s + "\n";
    }
  }

  lemma {:induction false} LinesAgainText(s: string)
    ensures LinesAgain(s) == TerminateLF(s)
    decreases |s|
  {
    if s != "" {
      LinesAgainText(AfterLine(s, '\n'));
      TerminateSplit(s);
    }
  }

  lemma DropFinalLFAgain(s: string)
    ensures DropFinalLF(LinesAgain(s)) == DropFinalLF(s)
  {
    LinesAgainText(s);
    assert (s + "\n")[..|s|] == s;
  }

  lemma AddHeadersStep(headers: map<string, string>, s: string)
    ensures AddHeaders(headers, s) ==
            if s == "" then Head(headers, "")
            else if StripCR(LineOf(s, '\n')) == "" then Head(headers, AfterLine(s, '\n'))
            else AddHeaders(AddHeader(headers, StripCR(LineOf(s, '\n'))), AfterLine(s, '\n'))
  {}

  lemma LinesAgainStep(acc: string, s: string)
    ensures s == "" ==> acc + LinesAgain(s) == acc
    ensures s != "" ==> acc + LinesAgain(s) == (acc + LineOf(s, '\n') + "\n") + LinesAgain(AfterLine(s, '\n'))
  {}

  lemma AddParamsStep(params: map<string, string>, s: string)
    ensures AddParams(params, s) ==
            if s == "" then params else AddParams(AddParam(params, LineOf(s, '&')), AfterLine(s, '&'))
  {}

  class HttpRequest {
    var verb: string
    var path: string
    var basePath: string
    var version: string
    var body: string
    var headers: map<string, string>
    var rawRequest: string
    var queryParams: map<string, string>

    function View(): Request
      reads this
    {
      Request(verb, path, basePath, version, body, headers, rawRequest, queryParams)
    }

    constructor ()
      ensures verb == path == basePath == version == body == rawRequest == "" && headers == queryParams == map[]
    {
      verb, path, basePath, version, body, headers, rawRequest, queryParams := "", "", "", "", "", map[], "", map[];
    }

    /** `http_request.cc:13`, the three words; a failed read fails the chain. */
    static method ReadRequestLine(stream: InputStream, ghost raw: string, ghost parsed: Request)
      returns (verb: string, path: string, version: string)
      requires stream.Valid() && !stream.fail && raw == stream.Remaining() && parsed == ParseRequest(raw)
      modifies stream
      ensures stream.Valid()
      ensures parsed == if stream.fail then NoRequest(raw) else Assemble(raw, verb, path, version, stream.Remaining())
    {
      ParseIsRequestOf(raw);
      verb, path, version := "", "", "";
      verb := stream.ReadWord();
      if !stream.fail {
        path := stream.ReadWord();
      }
      if !stream.fail {
        version := stream.ReadWord();
      }
    }

    /** `http_request.cc:40-49`, one header line. */
    method AddHeaderField(line: string)
      modifies this`headers
      ensures headers == AddHeader(old(headers), line)
    {
      var colonPos := FindChar(line, ':', 0);
      if colonPos.Some? {
        var name := line[..colonPos.value];
        var value := line[colonPos.value + 1..];
        value := Trim(value);
        headers := headers[name := value];
      }
    }

    /** `http_request.cc:28-50`, the loop over header lines. */
    method ParseHeaders(stream: InputStream)
      requires stream.Valid() && !stream.fail
      modifies this`headers, stream
      ensures stream.Valid() && (stream.fail ==> stream.Remaining() == "")
      ensures Head(headers, stream.Remaining()) == AddHeaders(old(headers), old(stream.Remaining()))
    {
      ghost var rest := stream.Remaining();
      while true
        invariant stream.Valid() && !stream.fail && rest == stream.Remaining()
        invariant AddHeaders(headers, rest) == AddHeaders(old(headers), old(stream.Remaining()))
        decreases |rest|
      {
        var more, line := stream.GetLine('\n');
        AddHeadersStep(headers, rest);
        if !more {
          break;
        }
        if line != "" && line[|line| - 1] == '\r' {
          line := line[..|line| - 1];
        }
        if line == "" {
          break;
        }
        AddHeaderField(line);
        rest := AfterLine(rest, '\n');
      }
    }

    /** `http_request.cc:53-57` */
    static method CollectLines(stream: InputStream) returns (bodyContent: string)
      requires stream.Valid() && !stream.fail
      modifies stream
      ensures bodyContent == LinesAgain(old(stream.Remaining()))
    {
      ghost var all, rest := stream.Remaining(), stream.Remaining();
      bodyContent := "";
      while true
        invariant stream.Valid() && !stream.fail && rest == stream.Remaining()
        invariant bodyContent + LinesAgain(rest) == LinesAgain(all)
        decreases |rest|
      {
        var more, line := stream.GetLine('\n');
        LinesAgainStep(bodyContent, rest);
        if !more {
          break;
        }
        bodyContent := bodyContent + line + "\n";
        rest := AfterLine(rest, '\n');
      }
    }

    /** `http_request.cc:53-64`, the body line by line. */
    method ParseBody(stream: InputStream)
      requires stream.Valid() && !stream.fail
      modifies this`body, stream
      ensures body == DropFinalLF(old(stream.Remaining()))
    {
      ghost var all := stream.Remaining();
      var bodyContent := CollectLines(stream);
      DropFinalLFAgain(all);
      if bodyContent != "" && bodyContent[|bodyContent| - 1] == '\n' {
        bodyContent := bodyContent[..|bodyContent| - 1];
      }
      body := bodyContent;
    }

    /** `http_request.cc:23-64`, header fields and body. */
    method ParseRest(stream: InputStream)
      requires stream.Valid() && !stream.fail && headers == map[] && body == ""
      modifies this`headers, this`body, stream
      ensures var head := AddHeaders(map[], AfterLine(old(stream.Remaining()), '\n'));
              headers == head.headers && body == DropFinalLF(head.rest)
    {
      var _, _ := stream.GetLine('\n');
      if !stream.fail {
        ParseHeaders(stream);
      } else {
        AddHeadersStep(map[], "");
      }
      if !stream.fail {
        ParseBody(stream);
      }
    }

    /** `http_request.cc:179-184`, one parameter. */
    method AddQueryParam(pair: string)
      modifies this`queryParams
      ensures queryParams == AddParam(old(queryParams), pair)
    {
      var equalsPos := FindChar(pair, '=', 0);
      if equalsPos.Some? {
        var key := pair[..equalsPos.value];
        var value := pair[equalsPos.value + 1..];
        queryParams := queryParams[key := value];
      }
    }

    /** `http_request.cc:175-185`, the loop over parameters. */
    method ParseQuery(queryString: string)
      modifies this`queryParams
      ensures queryParams == AddParams(old(queryParams), queryString)
    {
      var queryStream := new InputStream(queryString);
      ghost var rest := queryString;
      while true
        invariant queryStream.Valid() && !queryStream.fail && fresh(queryStream) && rest == queryStream.Remaining()
        invariant AddParams(queryParams, rest) == AddParams(old(queryParams), queryString)
        decreases |rest|
      {
        var more, pair := queryStream.GetLine('&');
        if !more {
          break;
        }
        AddParamsStep(queryParams, rest);
        AddQueryParam(pair);
        rest := AfterLine(rest, '&');
      }
    }

    method ParsePathAndQuery()
      modifies this`basePath, this`queryParams
      ensures basePath == BasePath(path) && queryParams == AddParams(old(queryParams), AfterLine(path, '?'))
    {
      var queryPos := FindChar(path, '?', 0);
      PathParts(path);
      if queryPos.None? {
        AddParamsStep(queryParams, "");
        basePath := path;
        return;
      }
      basePath := path[..queryPos.value];
      var queryString := path[queryPos.value + 1..];
      ParseQuery(queryString);
    }

    /** `http_request.cc:21-64`, what follows the request line. */
    method Fill(stream: InputStream)
      requires stream.Valid() && !stream.fail && headers == map[] && body == "" && queryParams == map[]
      modifies this`basePath, this`queryParams, this`headers, this`body, stream
      ensures basePath == BasePath(path) && queryParams == QueryParams(path)
      ensures headers == AddHeaders(map[], AfterLine(old(stream.Remaining()), '\n')).headers
      ensures body == DropFinalLF(AddHeaders(map[], AfterLine(old(stream.Remaining()), '\n')).rest)
    {
      ParsePathAndQuery();
      ParseRest(stream);
    }

    method SetWords(verb: string, path: string, version: string, stream: InputStream)
      requires stream.Valid() && !stream.fail && headers == map[] && body == "" && queryParams == map[]
      modifies this, stream
      ensures View() == Assemble(old(rawRequest), verb, path, version, old(stream.Remaining()))
    {
      this.verb, this.path, this.version := verb, path, version;
      Fill(stream);
    }

    static method Parse(rawRequest: string) returns (request: HttpRequest)
      ensures fresh(request) && request.View() == ParseRequest(rawRequest)
    {
      ghost var parsed := ParseRequest(rawRequest);
      request := new HttpRequest();
      request.rawRequest := rawRequest;
      var stream := new InputStream(rawRequest);
      var verb, path, version := ReadRequestLine(stream, rawRequest, parsed);
      if stream.fail {
        return;
      }
      request.SetWords(verb, path, version, stream);
    }
  }
}
