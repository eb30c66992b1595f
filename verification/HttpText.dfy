/** The line structure shared by requests and responses: lines ended by CRLF, an
    empty line, and a body (section 2.1 of RFC 9112). */
module HttpText {
  import opened Text
  import opened Maps

  predicate OneLine(s: string) {
    '\r' !in s && '\n' !in s
  }

  function LinesText(lines: seq<string>): string {
    if lines == [] then "" else lines[0] + CRLF + LinesText(lines[1..])
  }

  function HeaderLine(name: string, value: string): string {
    name + ": " + value
  }

  function HeaderLines(ps: Pairs<string>): seq<string> {
    seq(|ps|, i requires 0 <= i < |ps| => HeaderLine(ps[i].0, ps[i].1))
  }

  /** start line, header fields, empty line, body */
  function Message(start: string, headers: Pairs<string>, body: string): string {
    LinesText([start] + HeaderLines(headers)) + (CRLF + body)
  }

  /** A line read up to LF, without the CR it may end in. */
  function StripCR(line: string): string {
    if line != "" && line[|line| - 1] == '\r' then line[..|line| - 1] else line
  }

  lemma ReadLine(line: string, rest: string)
    requires '\n' !in line
    ensures StripCR(LineOf(line + CRLF + rest, '\n')) == line && AfterLine(line + CRLF + rest, '\n') == rest
  {
    assert line + CRLF + rest == (line + "\r") + ['\n'] + rest;
    LineOfConcat(line + "\r", '\n', rest);
    assert (line + "\r")[..|line|] == line;
  }

  lemma LinesTextHead(lines: seq<string>, first: string, rest: seq<string>)
    requires lines == [first] + rest
    ensures LinesText(lines) == first + CRLF + LinesText(rest)
  {
    assert lines[1..] == rest;
  }

  lemma {:induction false} LinesTextSnoc(lines: seq<string>, line: string)
    ensures LinesText(lines + [line]) == LinesText(lines) + line + CRLF
    decreases |lines|
  {
    if lines == [] {
      assert [line][1..] == [] && LinesText([line]) == line + CRLF + "";
    } else {
      assert (lines + [line])[1..] == lines[1..] + [line];
      LinesTextSnoc(lines[1..], line);
      LinesTextHead(lines, lines[0], lines[1..]);
      LinesTextHead(lines + [line], lines[0], lines[1..] + [line]);
    }
  }

  predicate EndsHeadAt(s: string, i: nat) {
    i + 4 <= |s| && s[i] == '\r' && s[i + 1] == '\n' && s[i + 2] == '\r' && s[i + 3] == '\n'
  }

  predicate HeadOf(s: string, at: nat) {
    EndsHeadAt(s, at) && forall i: nat :: i < at ==> !EndsHeadAt(s, i)
  }

  lemma OccursIsEnd(s: string, i: nat)
    ensures OccursAt(s, CRLFCRLF, i) <==> EndsHeadAt(s, i)
  {
    if i + 4 <= |s| {
      assert s[i..i + 4] == [s[i], s[i + 1], s[i + 2], s[i + 3]];
    }
  }

  lemma FindIsHead(s: string, at: nat)
    ensures Find(s, CRLFCRLF, 0) == Some(at) <==> HeadOf(s, at)
  {
    forall i: nat ensures OccursAt(s, CRLFCRLF, i) <==> EndsHeadAt(s, i) {
      OccursIsEnd(s, i);
    }
    if HeadOf(s, at) {
      FindUnique(s, CRLFCRLF, 0, at);
    }
  }

  lemma NoEndInLine(line: string, rest: string, i: nat)
    requires OneLine(line) && rest != "" && rest[0] != '\r' && i < |line| + 2
    ensures !EndsHeadAt(line + CRLF + rest, i)
  {
    var s := line + CRLF + rest;
    if i < |line| {
      assert s[i] == line[i] && line[i] in line;
    } else if i == |line| {
      assert s[i + 2] == rest[0];
    } else {
      assert s[i] == '\n';
    }
  }

  lemma EndInRest(front: string, rest: string, i: nat)
    ensures EndsHeadAt(front + rest, |front| + i) == EndsHeadAt(rest, i)
  {
    assert forall k :: 0 <= k < |rest| ==> (front + rest)[|front| + k] == rest[k];
  }

  /** Behind a line that does not end the head, the search goes on with the rest. */
  lemma SkipLine(line: string, rest: string, at: nat)
    requires OneLine(line) && HeadOf(rest, at) && rest[0] != '\r'
    ensures HeadOf(line + CRLF + rest, |line| + 2 + at)
  {
    var s, n := line + CRLF + rest, |line| + 2;
    forall i: nat | i < n ensures !EndsHeadAt(s, i) {
      NoEndInLine(line, rest, i);
    }
    forall i: nat ensures EndsHeadAt(s, n + i) == EndsHeadAt(rest, i) {
      EndInRest(line + CRLF, rest, i);
    }
    forall i: nat | i < n + at ensures !EndsHeadAt(s, i) {
      if i >= n {
        assert !EndsHeadAt(rest, i - n) && EndsHeadAt(s, n + (i - n)) == EndsHeadAt(rest, i - n);
      }
    }
  }

  lemma LastLine(line: string, body: string)
    requires OneLine(line)
    ensures HeadOf(line + CRLF + (CRLF + body), |line|)
  {
    var s := line + CRLF + (CRLF + body);
    assert forall i :: 0 <= i < |line| ==> s[i] == line[i] && s[i] in line;
  }

  lemma FirstChar(lines: seq<string>, rest: string)
    requires lines != [] && OneLine(lines[0]) && lines[0] != ""
    ensures (LinesText(lines) + rest)[0] != '\r'
  {
    assert (LinesText(lines) + rest)[0] == lines[0][0] && lines[0][0] in lines[0];
  }

  lemma {:induction false} LinesHead(lines: seq<string>, body: string)
    requires lines != [] && forall l :: l in lines ==> OneLine(l) && l != ""
    ensures HeadOf(LinesText(lines) + (CRLF + body), |LinesText(lines)| - 2)
    decreases |lines|
  {
    assert lines[0] in lines;
    if |lines| == 1 {
      assert LinesText(lines) == lines[0] + CRLF;
      LastLine(lines[0], body);
    } else {
      var rest := LinesText(lines[1..]) + (CRLF + body);
      LinesHead(lines[1..], body);
      FirstChar(lines[1..], CRLF + body);
      assert LinesText(lines) + (CRLF + body) == lines[0] + CRLF + rest;
      SkipLine(lines[0], rest, |LinesText(lines[1..])| - 2);
    }
  }

  /** The first CRLFCRLF ends the head, whatever the body. */
  lemma HeadEnds(lines: seq<string>, body: string)
    requires lines != [] && forall l :: l in lines ==> OneLine(l) && l != ""
    ensures Find(LinesText(lines) + (CRLF + body), CRLFCRLF, 0) == Some(|LinesText(lines)| - 2)
  {
    LinesHead(lines, body);
    FindIsHead(LinesText(lines) + (CRLF + body), |LinesText(lines)| - 2);
  }

  lemma MessageText(start: string, ps: Pairs<string>, body: string)
    ensures Message(start, ps, body) == start + CRLF + LinesText(HeaderLines(ps)) + CRLF + body
  {
    LinesTextHead([start] + HeaderLines(ps), start, HeaderLines(ps));
  }

  /** A message is its head and its body. */
  lemma MessageSplits(start: string, headers: Pairs<string>, body: string)
    ensures Message(start, headers, body) == Message(start, headers, "") + body
  {
    var front := start + CRLF + LinesText(HeaderLines(headers)) + CRLF;
    MessageText(start, headers, body);
    MessageText(start, headers, "");
    assert front + "" == front;
  }

  lemma HeaderLinesText(ps: Pairs<string>, body: string)
    requires ps != []
    ensures LinesText(HeaderLines(ps)) + CRLF + body
         == HeaderLine(ps[0].0, ps[0].1) + CRLF + (LinesText(HeaderLines(ps[1..])) + CRLF + body)
  {
    var line := HeaderLine(ps[0].0, ps[0].1);
    assert HeaderLines(ps) == [line] + HeaderLines(ps[1..]);
    LinesTextHead(HeaderLines(ps), line, HeaderLines(ps[1..]));
  }

  predicate FramedPairs(ps: Pairs<string>) {
    forall i :: 0 <= i < |ps| ==> OneLine(ps[i].0) && OneLine(ps[i].1)
  }

  lemma FramedLines(start: string, ps: Pairs<string>)
    requires OneLine(start) && start != "" && FramedPairs(ps)
    ensures forall l :: l in [start] + HeaderLines(ps) ==> OneLine(l) && l != ""
  {
    assert forall i :: 0 <= i < |ps| ==> OneLine(HeaderLines(ps)[i]);
  }

  /** A message is taken apart at the first CRLFCRLF. */
  lemma MessageFraming(start: string, ps: Pairs<string>, body: string)
    requires OneLine(start) && start != "" && FramedPairs(ps)
    ensures var at := Find(Message(start, ps, body), CRLFCRLF, 0);
            && at.Some? && at.value + 4 + |body| == |Message(start, ps, body)|
            && Message(start, ps, body)[at.value + 4..] == body
  {
    var lines := [start] + HeaderLines(ps);
    FramedLines(start, ps);
    HeadEnds(lines, body);
    var head := LinesText(lines);
    LinesTextHead(lines, start, HeaderLines(ps));
    assert (head + (CRLF + body))[|head| + 2..] == body;
  }
}
