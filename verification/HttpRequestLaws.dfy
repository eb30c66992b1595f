/** Laws of request parsing: it inverts printing, and it does not depend on the bytes
    behind a complete head. */
module HttpRequestLaws {
  import opened Text
  import opened Numbers
  import opened Streams
  import opened Ordering
  import opened Maps
  import opened HttpText
  import opened HttpRequest

  predicate IsWord(w: string) {
    w != "" && All(NonSpace, w)
  }

  lemma ReadWordOf(blank: string, w: string, rest: string)
    requires All(Space, blank) && IsWord(w) && rest != "" && IsSpace(rest[0])
    ensures WordOf(blank + w + rest) == w && AfterWord(blank + w + rest) == rest
  {
    var s := blank + w + rest;
    SpanUnique(s, 0, Space, |blank|);
    assert SkipSpace(s) == w + rest;
    SpanUnique(w + rest, 0, NonSpace, |w|);
    assert (w + rest)[..|w|] == w && (w + rest)[|w|..] == rest;
  }

  // Trimming and looking up header fields.

  lemma OneMoreBlank(init: string, c: char, t: string, b: string)
    requires init == t + b && All(Blank, b) && Is(Blank, c)
    ensures init + [c] == t + (b + [c]) && All(Blank, b + [c])
  {}

  lemma {:induction false} TrimRightSplits(s: string) returns (b: string)
    ensures s == TrimRight(s) + b && All(Blank, b)
    ensures TrimRight(s) != "" ==> !Is(Blank, TrimRight(s)[|TrimRight(s)| - 1])
    decreases |s|
  {
    b := "";
    if s != "" && Is(Blank, s[|s| - 1]) {
      var init, c := s[..|s| - 1], s[|s| - 1];
      b := TrimRightSplits(init);
      OneMoreBlank(init, c, TrimRight(init), b);
      assert s == init + [c];
      b := b + [c];
    }
  }

  lemma ThreeParts(s: string, n: nat, t: string, b: string)
    requires n <= |s| && s[n..] == t + b
    ensures s == s[..n] + t + b && (t != "" ==> n < |s| && t[0] == s[n])
  {}

  /** What `trim` takes away at either end is blank, and what it leaves begins and ends with no blank. */
  lemma TrimSplits(s: string) returns (a: string, b: string)
    ensures s == a + Trim(s) + b && All(Blank, a) && All(Blank, b)
    ensures Trim(s) != "" ==> !Is(Blank, Trim(s)[0]) && !Is(Blank, Trim(s)[|Trim(s)| - 1])
  {
    var n := Span(s, 0, Blank);
    a := s[..n];
    b := TrimRightSplits(s[n..]);
    ThreeParts(s, n, Trim(s), b);
  }

  predicate AllBlank(s: string) {
    forall i :: 0 <= i < |s| ==> s[i] == ' ' || s[i] == '\t' || s[i] == '\r' || s[i] == '\n'
  }

  /** A text without blanks at its ends, between blanks. */
  predicate IsTrimmed(s: string, a: string, t: string, b: string) {
    && s == a + t + b && AllBlank(a) && AllBlank(b)
    && (t != "" ==> t[0] !in " \t\r\n" && t[|t| - 1] !in " \t\r\n")
  }

  lemma TrimRightTakes(t: string, b: string)
    requires AllBlank(b) && (t != "" ==> t[|t| - 1] !in " \t\r\n")
    ensures TrimRight(t + b) == t
    decreases |b|
  {
    if b == "" {
      assert t + b == t;
    } else {
      assert (t + b)[..|t + b| - 1] == t + b[..|b| - 1];
      TrimRightTakes(t, b[..|b| - 1]);
    }
  }

  lemma TrimmedIsTrim(s: string, a: string, t: string, b: string)
    requires IsTrimmed(s, a, t, b)
    ensures Trim(s) == t
  {
    if t == "" {
      SpanUnique(s, 0, Blank, |s|);
    } else {
      assert s[|a|] == t[0];
      SpanUnique(s, 0, Blank, |a|);
      assert s[|a|..] == t + b;
      TrimRightTakes(t, b);
    }
  }

  /** `trim` gives just the text between the blanks at both ends. */
  lemma TrimExactly(s: string, t: string)
    ensures Trim(s) == t <==> exists a, b :: IsTrimmed(s, a, t, b)
  {
    var a, b := TrimSplits(s);
    assert IsTrimmed(s, a, Trim(s), b);
    if x, y :| IsTrimmed(s, x, t, y) {
      TrimmedIsTrim(s, x, t, y);
    }
  }

  /** Equal, or a capital letter and its small one. */
  predicate SameLetter(c: char, d: char) {
    || c == d
    || ('A' <= c <= 'Z' && 'a' <= d <= 'z' && d as int - c as int == 32)
    || ('a' <= c <= 'z' && 'A' <= d <= 'Z' && c as int - d as int == 32)
  }

  predicate SameUpToCase(a: string, b: string) {
    |a| == |b| && forall i :: 0 <= i < |a| ==> SameLetter(a[i], b[i])
  }

  lemma LowerIsSameLetter(c: char, d: char)
    ensures LowerChar(c) == LowerChar(d) <==> SameLetter(c, d)
  {}

  lemma LowerIsSame(a: string, b: string)
    ensures ToLower(a) == ToLower(b) <==> SameUpToCase(a, b)
  {
    if |a| == |b| {
      forall i | 0 <= i < |a| ensures ToLower(a)[i] == ToLower(b)[i] <==> SameLetter(a[i], b[i]) {
        LowerIsSameLetter(a[i], b[i]);
      }
    }
  }

  lemma {:induction false} FirstMatchFinds(keys: seq<string>, name: string)
    requires Sorted(keys)
    ensures match FirstMatch(keys, name)
            case None => forall k :: k in keys ==> !SameUpToCase(k, name)
            case Some(k) => k in keys && SameUpToCase(k, name)
                            && forall j :: j in keys && SameUpToCase(j, name) ==> LexLe(k, j)
    decreases |keys|
  {
    if keys != [] {
      LexTotal(keys[0], keys[0]);
      LowerIsSame(keys[0], name);
      FirstMatchFinds(keys[1..], name);
    }
  }

  /** A header field is found whatever the case of its name: of the names that fit, the least in the
      order of the map, and none only if no name fits. */
  lemma HeaderFound(headers: map<string, string>, name: string)
    ensures GetHeader(headers, name) == None <==> forall k :: k in headers ==> !SameUpToCase(k, name)
    ensures forall k :: k in headers && SameUpToCase(k, name)
              && (forall j :: j in headers && SameUpToCase(j, name) ==> LexLe(k, j))
              ==> GetHeader(headers, name) == Some(headers[k])
  {
    var keys := SortedKeys(headers.Keys);
    GetIsFind(headers, name);
    assert forall k :: k in keys <==> k in Elements(keys);
    FirstMatchFinds(keys, name);
    forall k | k in headers && SameUpToCase(k, name)
               && (forall j :: j in headers && SameUpToCase(j, name) ==> LexLe(k, j))
      ensures GetHeader(headers, name) == Some(headers[k])
    {
      LexAntisymmetric(k, FirstMatch(keys, name).value);
    }
  }

  // Printing and parsing.

  function RequestText(verb: string, path: string, version: string, headers: Pairs<string>, body: string): string {
    Message(verb + " " + path + " " + version, headers, body)
  }

  function Trimmed(ps: Pairs<string>): Pairs<string> {
    seq(|ps|, i requires 0 <= i < |ps| => (ps[i].0, Trim(ps[i].1)))
  }

  predicate SendableHeaders(ps: Pairs<string>) {
    forall i :: 0 <= i < |ps| ==> ':' !in ps[i].0 && '\n' !in ps[i].0 && '\n' !in ps[i].1
  }

  lemma TrimSpace(v: string)
    ensures Trim(" " + v) == Trim(v)
  {
    var n := Span(v, 0, Blank);
    SpanUnique(" " + v, 0, Blank, n + 1);
    assert (" " + v)[n + 1..] == v[n..];
  }

  lemma ColonOfLine(name: string, value: string)
    requires ':' !in name
    ensures var line := HeaderLine(name, value);
            FindChar(line, ':', 0) == Some(|name|) && line[..|name|] == name && line[|name| + 1..] == " " + value
  {
    FindCharUnique(HeaderLine(name, value), ':', 0, |name|);
  }

  lemma AddHeaderLine(m: map<string, string>, name: string, value: string)
    requires ':' !in name
    ensures AddHeader(m, HeaderLine(name, value)) == m[name := Trim(value)]
  {
    ColonOfLine(name, value);
    TrimSpace(value);
  }

  lemma ReadHeaderLine(m: map<string, string>, name: string, value: string, rest: string)
    requires ':' !in name && '\n' !in name && '\n' !in value
    ensures AddHeaders(m, HeaderLine(name, value) + CRLF + rest) == AddHeaders(m[name := Trim(value)], rest)
  {
    ReadLine(HeaderLine(name, value), rest);
    AddHeadersStep(m, HeaderLine(name, value) + CRLF + rest);
    AddHeaderLine(m, name, value);
  }

  lemma ReadEmptyLine(m: map<string, string>, body: string)
    ensures AddHeaders(m, CRLF + body) == Head(m, body)
  {
    assert CRLF + body == "" + CRLF + body;
    ReadLine("", body);
    AddHeadersStep(m, CRLF + body);
  }

  lemma NoHeaderLines(body: string)
    ensures LinesText(HeaderLines([])) + CRLF + body == CRLF + body
  {
    assert HeaderLines([]) == [];
  }

  lemma AssignTrimmed(m: map<string, string>, ps: Pairs<string>)
    requires ps != []
    ensures Assign(m, Trimmed(ps)) == Assign(m[ps[0].0 := Trim(ps[0].1)], Trimmed(ps[1..]))
  {
    assert Trimmed(ps)[1..] == Trimmed(ps[1..]);
  }

  lemma {:induction false} ReadHeaderLines(m: map<string, string>, ps: Pairs<string>, body: string)
    requires SendableHeaders(ps)
    ensures AddHeaders(m, LinesText(HeaderLines(ps)) + CRLF + body) == Head(Assign(m, Trimmed(ps)), body)
    decreases |ps|
  {
    if ps == [] {
      ReadEmptyLine(m, body);
      NoHeaderLines(body);
    } else {
      var rest := LinesText(HeaderLines(ps[1..])) + CRLF + body;
      HeaderLinesText(ps, body);
      ReadHeaderLine(m, ps[0].0, ps[0].1, rest);
      ReadHeaderLines(m[ps[0].0 := Trim(ps[0].1)], ps[1..], body);
      AssignTrimmed(m, ps);
    }
  }

  lemma RequestLineOfText(verb: string, path: string, version: string, rest: string)
    requires IsWord(verb) && IsWord(path) && IsWord(version)
    ensures RequestLine(verb + " " + path + " " + version + CRLF + rest) ==
            RequestWords(verb, path, version, CRLF + rest)
  {
    var r2 := " " + version + (CRLF + rest);
    var r1 := " " + path + r2;
    assert verb + " " + path + " " + version + CRLF + rest == "" + verb + r1;
    ReadWordOf("", verb, r1);
    ReadWordOf(" ", path, r2);
    ReadWordOf(" ", version, CRLF + rest);
  }

  lemma AfterCRLF(rest: string)
    ensures AfterLine(CRLF + rest, '\n') == rest
  {
    assert CRLF + rest == "" + CRLF + rest;
    ReadLine("", rest);
  }

  lemma ParseIsAssemble(raw: string, words: RequestWords)
    requires RequestLine(raw) == words && words.verb != "" && words.path != "" && words.version != ""
    ensures ParseRequest(raw) == Assemble(raw, words.verb, words.path, words.version, words.behind)
  {
    ParseIsRequestOf(raw);
  }

  lemma NoWordBehindNone(s: string)
    requires WordOf(s) == ""
    ensures AfterWord(s) == ""
  {}

  lemma ParsedWords(raw: string)
    ensures ParseRequest(raw).version != "" <==> RequestLine(raw).version != ""
  {
    ParseIsRequestOf(raw);
    if WordOf(raw) == "" { NoWordBehindNone(raw); }
    if WordOf(AfterWord(raw)) == "" { NoWordBehindNone(AfterWord(raw)); }
  }

  lemma AssembleFields(raw: string, verb: string, path: string, version: string, headers: Pairs<string>, body: string)
    requires SendableHeaders(headers)
    ensures Assemble(raw, verb, path, version, CRLF + (LinesText(HeaderLines(headers)) + CRLF + body)) ==
            Request(verb, path, BasePath(path), version, DropFinalLF(body), FromPairs(Trimmed(headers)), raw,
                    QueryParams(path))
  {
    AfterCRLF(LinesText(HeaderLines(headers)) + CRLF + body);
    ReadHeaderLines(map[], headers, body);
    AssignFromPairs(map[], Trimmed(headers));
  }

  lemma ParseOfText(raw: string, verb: string, path: string, version: string, fields: string)
    requires IsWord(verb) && IsWord(path) && IsWord(version)
    requires raw == verb + " " + path + " " + version + CRLF + fields
    ensures ParseRequest(raw) == Assemble(raw, verb, path, version, CRLF + fields)
  {
    RequestLineOfText(verb, path, version, fields);
    ParseIsAssemble(raw, RequestWords(verb, path, version, CRLF + fields));
  }

  /** Parsing inverts printing: words and header fields come back, header values without
      surrounding blanks, of equal names the last, and the body but for one final LF. */
  lemma ParseOfRequestText(verb: string, path: string, version: string, headers: Pairs<string>, body: string)
    requires IsWord(verb) && IsWord(path) && IsWord(version) && SendableHeaders(headers)
    ensures ParseRequest(RequestText(verb, path, version, headers, body)) ==
            Request(verb, path, BasePath(path), version, DropFinalLF(body), FromPairs(Trimmed(headers)),
                    RequestText(verb, path, version, headers, body), QueryParams(path))
  {
    var raw, fields := RequestText(verb, path, version, headers, body), LinesText(HeaderLines(headers)) + CRLF + body;
    assert raw == verb + " " + path + " " + version + CRLF + fields by {
      MessageText(verb + " " + path + " " + version, headers, body);
    }
    ParseOfText(raw, verb, path, version, fields);
    AssembleFields(raw, verb, path, version, headers, body);
  }

  // Any lines: what each sets, and what none does.

  /** The line has a separator, the first behind `k`. */
  predicate SetsName(line: string, k: string, separator: char) {
    |k| < |line| && line[..|k|] == k && line[|k|] == separator && separator !in k
  }

  /** Line `i` is the last that sets `k`. */
  predicate SetsLast(lines: seq<string>, i: nat, k: string, separator: char) {
    && i < |lines| && SetsName(lines[i], k, separator)
    && forall j :: i < j < |lines| ==> !SetsName(lines[j], k, separator)
  }

  lemma SeparatorIsFirst(line: string, k: string, separator: char)
    ensures SetsName(line, k, separator) <==>
            FindChar(line, separator, 0).Some? && line[..FindChar(line, separator, 0).value] == k
  {
    if SetsName(line, k, separator) {
      assert forall j :: 0 <= j < |k| ==> line[j] == k[j];
      FindCharUnique(line, separator, 0, |k|);
    }
  }

  lemma AddHeaderExactly(m: map<string, string>, line: string, k: string)
    ensures var r := AddHeader(m, line);
            if SetsName(line, k, ':') then k in r && r[k] == Trim(line[|k| + 1..])
            else (k in r <==> k in m) && (k in m ==> r[k] == m[k])
  {
    SeparatorIsFirst(line, k, ':');
  }

  lemma AddParamExactly(m: map<string, string>, piece: string, k: string)
    ensures var r := AddParam(m, piece);
            if SetsName(piece, k, '=') then k in r && r[k] == piece[|k| + 1..]
            else (k in r <==> k in m) && (k in m ==> r[k] == m[k])
  {
    SeparatorIsFirst(piece, k, '=');
  }

  /** `r` has for `k` what the last line that sets it says, and what `m` has where none does. */
  predicate HasLast(m: map<string, string>, r: map<string, string>, lines: seq<string>, k: string, separator: char,
                    trimmed: bool) {
    && (forall i :: 0 <= i < |lines| && SetsLast(lines, i, k, separator) ==>
          k in r && r[k] == var v := lines[i][|k| + 1..]; if trimmed then Trim(v) else v)
    && ((forall i :: 0 <= i < |lines| ==> !SetsName(lines[i], k, separator)) ==>
          (k in r <==> k in m) && (k in m ==> r[k] == m[k]))
  }

  lemma LastInTail(lines: seq<string>, i: nat, k: string, separator: char)
    requires i > 0 && SetsLast(lines, i, k, separator)
    ensures SetsLast(lines[1..], i - 1, k, separator)
  {
    forall j | i - 1 < j < |lines| - 1 ensures !SetsName(lines[1..][j], k, separator) {
      assert lines[1..][j] == lines[j + 1];
    }
  }

  lemma NoneInTail(lines: seq<string>, i: nat, k: string, separator: char)
    requires i < |lines| && forall j :: i < j < |lines| ==> !SetsName(lines[j], k, separator)
    ensures i == 0 ==> forall j :: 0 <= j < |lines[1..]| ==> !SetsName(lines[1..][j], k, separator)
  {
    forall j | 0 <= j < |lines| - 1 && i == 0 ensures !SetsName(lines[1..][j], k, separator) {
      assert lines[1..][j] == lines[j + 1];
    }
  }

  lemma HasLastCons(m: map<string, string>, m': map<string, string>, r: map<string, string>, lines: seq<string>,
                    k: string, separator: char, trimmed: bool)
    requires lines != [] && HasLast(m', r, lines[1..], k, separator, trimmed)
    requires if SetsName(lines[0], k, separator) then
               k in m' && m'[k] == var v := lines[0][|k| + 1..]; if trimmed then Trim(v) else v
             else
               (k in m' <==> k in m) && (k in m ==> m'[k] == m[k])
    ensures HasLast(m, r, lines, k, separator, trimmed)
  {
    forall i | 0 <= i < |lines| && SetsLast(lines, i, k, separator)
      ensures k in r && r[k] == var v := lines[i][|k| + 1..]; if trimmed then Trim(v) else v
    {
      if i > 0 {
        LastInTail(lines, i, k, separator);
        assert lines[1..][i - 1] == lines[i];
      } else {
        NoneInTail(lines, 0, k, separator);
      }
    }
    if forall i :: 0 <= i < |lines| ==> !SetsName(lines[i], k, separator) {
      NoneInTail(lines, 0, k, separator);
    }
  }

  predicate AreHeaderLines(lines: seq<string>) {
    forall i :: 0 <= i < |lines| ==> lines[i] != "" && '\n' !in lines[i]
  }

  /** Of any lines in front of the first empty one, each with a colon sets the name in front of its first colon to the
      trimmed text behind it, later lines overriding earlier ones; a line without a colon sets nothing. */
  lemma {:induction false} HeadersExactly(m: map<string, string>, lines: seq<string>, body: string, k: string)
    requires AreHeaderLines(lines)
    ensures var head := AddHeaders(m, LinesText(lines) + CRLF + body);
            head.rest == body && HasLast(m, head.headers, lines, k, ':', true)
    decreases |lines|
  {
    if lines == [] {
      assert LinesText(lines) + CRLF + body == CRLF + body;
      ReadEmptyLine(m, body);
    } else {
      var rest, m' := LinesText(lines[1..]) + CRLF + body, AddHeader(m, lines[0]);
      assert LinesText(lines) + CRLF + body == lines[0] + CRLF + rest;
      ReadLine(lines[0], rest);
      AddHeadersStep(m, lines[0] + CRLF + rest);
      HeadersExactly(m', lines[1..], body, k);
      AddHeaderExactly(m, lines[0], k);
      HasLastCons(m, m', AddHeaders(m', rest).headers, lines, k, ':', true);
    }
  }

  /** Of the pieces between ampersands of any query, each with an equals sign sets the key in front of its first
      one to what is behind it; a piece without one sets nothing. */
  lemma {:induction false} ParamsExactly(m: map<string, string>, query: string, k: string)
    ensures HasLast(m, AddParams(m, query), Pieces(query, '&'), k, '=', false)
    decreases |query|
  {
    AddParamsStep(m, query);
    if query != "" {
      var m', rest := AddParam(m, LineOf(query, '&')), AfterLine(query, '&');
      PiecesCons(query, '&');
      ParamsExactly(m', rest, k);
      AddParamExactly(m, LineOf(query, '&'), k);
      assert Pieces(query, '&')[1..] == Pieces(rest, '&');
      HasLastCons(m, m', AddParams(m', rest), Pieces(query, '&'), k, '=', false);
    }
  }

  lemma BodyComesBack(body: string)
    ensures var b := DropFinalLF(body);
            (b == body || b + "\n" == body) && (b == body <==> body == "" || body[|body| - 1] != '\n')
  {}

  lemma AssembledParts(raw: string, verb: string, path: string, version: string, fields: string)
    ensures var r, head := Assemble(raw, verb, path, version, CRLF + fields), AddHeaders(map[], fields);
            && r.verb == verb && r.path == path && r.version == version && r.headers == head.headers
            && r.queryParams == AddParams(map[], AfterLine(path, '?')) && r.body == DropFinalLF(head.rest)
  {
    AfterCRLF(fields);
  }

  /** What is parsed from any message of three words and any lines. */
  lemma AnyLinesParsed(raw: string, verb: string, path: string, version: string, lines: seq<string>, body: string,
                       k: string)
    requires IsWord(verb) && IsWord(path) && IsWord(version) && AreHeaderLines(lines)
    requires raw == verb + " " + path + " " + version + CRLF + (LinesText(lines) + CRLF + body)
    ensures var r := ParseRequest(raw);
            && r.verb == verb && r.path == path && r.version == version
            && HasLast(map[], r.headers, lines, k, ':', true)
            && HasLast(map[], r.queryParams, Pieces(AfterLine(path, '?'), '&'), k, '=', false)
            && (r.body == body || r.body + "\n" == body) && (r.body == body <==> body == "" || body[|body| - 1] != '\n')
  {
    var fields := LinesText(lines) + CRLF + body;
    ParseOfText(raw, verb, path, version, fields);
    AssembledParts(raw, verb, path, version, fields);
    HeadersExactly(map[], lines, body, k);
    ParamsExactly(map[], AfterLine(path, '?'), k);
    BodyComesBack(body);
  }

  lemma WordHasNoBlank(s: string)
    ensures ' ' !in WordOf(s)
  {}

  /** The first three words are verb, path and version; of a text with fewer nothing is taken at all. */
  lemma ParsedFields(raw: string)
    ensures var r, verb, path := ParseRequest(raw), WordOf(raw), WordOf(AfterWord(raw));
            var version := WordOf(AfterWord(AfterWord(raw)));
            if verb == "" || path == "" || version == "" then r == Request("", "", "", "", "", map[], raw, map[])
            else r.verb == verb && r.path == path && r.version == version && r.raw == raw
  {
    ParseIsRequestOf(raw);
  }

  lemma ValidFields(r: Request)
    ensures IsValid(r) <==>
              && (r.verb == "GET" || r.verb == "POST" || r.verb == "PUT" || r.verb == "DELETE")
              && r.path != "" && r.path[0] == '/' && ' ' !in r.path && r.version == "HTTP/1.1"
              && exists i :: OccursAt(r.raw, "\r\n\r\n", i)
  {}

  /** A text is a valid request just if its first three words are one of four verbs, a path that begins with a
      slash, and HTTP/1.1, and CRLFCRLF occurs in it. */
  lemma ValidExactly(raw: string)
    ensures var verb, path, version := WordOf(raw), WordOf(AfterWord(raw)), WordOf(AfterWord(AfterWord(raw)));
            IsValid(ParseRequest(raw)) <==>
              && (verb == "GET" || verb == "POST" || verb == "PUT" || verb == "DELETE")
              && path != "" && path[0] == '/' && version == "HTTP/1.1"
              && exists i :: OccursAt(raw, "\r\n\r\n", i)
  {
    ParsedFields(raw);
    ValidFields(ParseRequest(raw));
    WordHasNoBlank(AfterWord(raw));
  }

  // Bytes behind a complete head.

  lemma WordExtends(s: string, t: string)
    requires AfterWord(s) != ""
    ensures WordOf(s + t) == WordOf(s) && AfterWord(s + t) == AfterWord(s) + t
  {
    var i := Span(s, 0, Space);
    var u := SkipSpace(s);
    assert u != "" && i < |s|;
    SpanUnique(s + t, 0, Space, i);
    assert SkipSpace(s + t) == u + t;
    var j := Span(u, 0, NonSpace);
    SpanUnique(u + t, 0, NonSpace, j);
    assert (u + t)[..j] == u[..j] && (u + t)[j..] == u[j..] + t;
  }

  lemma LineExtends(s: string, t: string)
    requires '\n' in s
    ensures LineOf(s + t, '\n') == LineOf(s, '\n') && AfterLine(s + t, '\n') == AfterLine(s, '\n') + t
  {
    LineSplit(s, '\n');
    assert s + t == LineOf(s, '\n') + ['\n'] + (AfterLine(s, '\n') + t);
    LineOfConcat(LineOf(s, '\n'), '\n', AfterLine(s, '\n') + t);
  }

  /** The header fields end inside `s`. */
  predicate EndsInside(s: string)
    decreases |s|
  {
    '\n' in s && (StripCR(LineOf(s, '\n')) == "" || EndsInside(AfterLine(s, '\n')))
  }

  lemma {:induction false} HeadersExtend(m: map<string, string>, s: string, t: string)
    requires EndsInside(s)
    ensures AddHeaders(m, s + t) == Head(AddHeaders(m, s).headers, AddHeaders(m, s).rest + t)
    decreases |s|
  {
    LineExtends(s, t);
    AddHeadersStep(m, s);
    AddHeadersStep(m, s + t);
    if StripCR(LineOf(s, '\n')) != "" {
      HeadersExtend(AddHeader(m, StripCR(LineOf(s, '\n'))), AfterLine(s, '\n'), t);
    }
  }

  /** Whatever stands in front of it, CRLFCRLF ends the header fields. */
  lemma {:induction false} TerminatorEnds(u: string)
    ensures EndsInside(u + CRLFCRLF)
    decreases |u|
  {
    var s := u + CRLFCRLF;
    if '\n' in u {
      LineSplit(u, '\n');
      assert s == LineOf(u, '\n') + ['\n'] + (AfterLine(u, '\n') + CRLFCRLF);
      LineOfConcat(LineOf(u, '\n'), '\n', AfterLine(u, '\n') + CRLFCRLF);
      TerminatorEnds(AfterLine(u, '\n'));
    } else {
      assert s == u + CRLF + CRLF;
      ReadLine(u, CRLF);
      assert CRLF == "" + CRLF + "";
      ReadLine("", "");
    }
  }

  lemma LineBehindTerminator(u: string)
    ensures '\n' in u + CRLFCRLF && EndsInside(AfterLine(u + CRLFCRLF, '\n'))
  {
    var s := u + CRLFCRLF;
    assert s[|u| + 1] == '\n';
    if '\n' in u {
      LineSplit(u, '\n');
      assert s == LineOf(u, '\n') + ['\n'] + (AfterLine(u, '\n') + CRLFCRLF);
      LineOfConcat(LineOf(u, '\n'), '\n', AfterLine(u, '\n') + CRLFCRLF);
      TerminatorEnds(AfterLine(u, '\n'));
    } else {
      assert s == u + CRLF + CRLF && CRLF == "" + CRLF + "";
      ReadLine(u, CRLF);
      ReadLine("", "");
    }
  }

  /** A word in front of CRLFCRLF ends in front of it. */
  lemma WordInHead(u: string) returns (u': string)
    requires WordOf(u + CRLFCRLF) != ""
    ensures AfterWord(u + CRLFCRLF) == u' + CRLFCRLF
  {
    var s := u + CRLFCRLF;
    var i := Span(s, 0, Space);
    var j := i + Span(SkipSpace(s), 0, NonSpace);
    assert forall k :: |u| <= k < |s| ==> IsSpace(s[k]);
    assert forall k :: i <= k < j ==> SkipSpace(s)[k - i] == s[k] && !IsSpace(s[k]);
    assert IsSpace(s[|u|]) && i < j;
    assert i < |u|;
    assert j <= |u|;
    u' := u[j..];
    assert AfterWord(s) == s[i..][j - i..] == s[j..] == u' + CRLFCRLF;
  }

  lemma RequestLineExtends(u: string, t: string) returns (behind: string)
    requires RequestLine(u + CRLFCRLF).version != ""
    ensures RequestLine(u + CRLFCRLF).verb != "" && RequestLine(u + CRLFCRLF).path != ""
    ensures RequestLine(u + CRLFCRLF).behind == behind + CRLFCRLF
    ensures RequestLine(u + CRLFCRLF + t) == RequestLine(u + CRLFCRLF).(behind := behind + CRLFCRLF + t)
  {
    var h := u + CRLFCRLF;
    if WordOf(h) == "" { NoWordBehindNone(h); }
    if WordOf(AfterWord(h)) == "" { NoWordBehindNone(AfterWord(h)); }
    var u1 := WordInHead(u);
    var u2 := WordInHead(u1);
    behind := WordInHead(u2);
    WordExtends(h, t);
    WordExtends(u1 + CRLFCRLF, t);
    WordExtends(u2 + CRLFCRLF, t);
  }

  /** The head of `m`: up to and with the first CRLFCRLF, with three words in it. */
  ghost predicate HasHead(m: string, at: nat) {
    Find(m, CRLFCRLF, 0) == Some(at) && ParseRequest(m[..at + 4]).version != ""
  }

  predicate SameHead(a: Request, b: Request) {
    && a.verb == b.verb && a.path == b.path && a.basePath == b.basePath && a.version == b.version
    && a.headers == b.headers && a.queryParams == b.queryParams
  }

  /** Bytes appended behind a complete head change neither the words nor the header fields. */
  lemma HeadDecides(u: string, t: string)
    requires ParseRequest(u + CRLFCRLF).version != ""
    ensures SameHead(ParseRequest(u + CRLFCRLF + t), ParseRequest(u + CRLFCRLF))
    ensures var r := ParseRequest(u + CRLFCRLF); r.verb != "" && r.path != "" && r.version != ""
  {
    var h := u + CRLFCRLF;
    ParsedWords(h);
    var behind := RequestLineExtends(u, t);
    ParseIsAssemble(h, RequestLine(h));
    ParseIsAssemble(h + t, RequestLine(h + t));
    LineBehindTerminator(behind);
    LineExtends(behind + CRLFCRLF, t);
    HeadersExtend(map[], AfterLine(behind + CRLFCRLF, '\n'), t);
  }

  /** What the parser leaves of a head for the body: nothing, unless an empty line stands in front of its end. */
  function HeadRest(u: string): string {
    AddHeaders(map[], AfterLine(RequestLine(u + CRLFCRLF).behind, '\n')).rest
  }

  /** The body is what follows a complete head, whatever lines the head has. */
  lemma BodyBehindHead(u: string, b: string)
    requires ParseRequest(u + CRLFCRLF).version != ""
    ensures ParseRequest(u + CRLFCRLF + b).body == DropFinalLF(HeadRest(u) + b)
  {
    var h := u + CRLFCRLF;
    ParsedWords(h);
    var behind := RequestLineExtends(u, b);
    ParseIsAssemble(h + b, RequestLine(h + b));
    LineBehindTerminator(behind);
    LineExtends(behind + CRLFCRLF, b);
    HeadersExtend(map[], AfterLine(behind + CRLFCRLF, '\n'), b);
  }

  // Announcing the length of the body.

  lemma TrimDigits(s: string)
    requires All(Digit, s)
    ensures Trim(s) == s
  {
    SpanUnique(s, 0, Blank, 0);
    assert s[0..] == s;
  }

  /** The header fields that are a Content-Length up to case, of which there is one at least,
      are spelled so and give `length`. */
  predicate PlainLength(headers: Pairs<string>, length: nat) {
    && (exists i :: 0 <= i < |headers| && headers[i].0 == "Content-Length")
    && forall i :: 0 <= i < |headers| && SameUpToCase(headers[i].0, "Content-Length") ==>
         headers[i] == ("Content-Length", NatToString(length))
  }

  lemma KeysOfPairs<V>(ps: Pairs<V>, k: string)
    ensures k in FromPairs(ps) ==> exists i :: 0 <= i < |ps| && ps[i].0 == k
    decreases |ps|
  {
    if ps != [] && k in FromPairs(ps) && ps[|ps| - 1].0 != k {
      KeysOfPairs(ps[..|ps| - 1], k);
    }
  }

  lemma PlainLengthIsFound(headers: Pairs<string>, length: nat)
    requires PlainLength(headers, length)
    ensures GetHeader(FromPairs(Trimmed(headers)), "Content-Length") == Some(NatToString(length))
  {
    var ps, name := Trimmed(headers), "Content-Length";
    TrimDigits(NatToString(length));
    assert forall i :: 0 <= i < |ps| ==> ps[i].0 == headers[i].0 && ps[i].1 == Trim(headers[i].1);
    FromPairsAgreed(ps, name, NatToString(length));
    forall k | k in FromPairs(ps) && SameUpToCase(k, name) ensures LexLe(name, k) {
      KeysOfPairs(ps, k);
      LexTotal(name, name);
    }
    HeaderFound(FromPairs(ps), name);
  }
}
