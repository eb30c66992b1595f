/** Optional values, and the searching and splitting operations of `std::string`
    and `std::getline` that the server is written with. */
module Text {

  datatype Option<+T> = None | Some(value: T)

  const CRLF := "\r\n"
  const CRLFCRLF := "\r\n\r\n"

  /** The sets of characters the parsers skip over or collect. */
  datatype CharClass =
    | Space       // `isspace` in the C locale
    | NonSpace
    | Digit
    | Blank       // what separates configuration tokens
    | JsonBlank   // what `extract_json_field` skips behind a colon
    | LineText    // what a comment goes on with
    | Bare        // what a bare configuration token goes on with: also a carriage return and `#`

  predicate IsSpace(c: char) {
    c == ' ' || c == '\t' || c == '\n' || c == '\r' || c == 11 as char || c == 12 as char
  }

  predicate Is(k: CharClass, c: char) {
    match k
    case Space => IsSpace(c)
    case NonSpace => !IsSpace(c)
    case Digit => '0' <= c <= '9'
    case Blank => c == ' ' || c == '\t' || c == '\n' || c == '\r'
    case JsonBlank => c == ' ' || c == '\t' || c == '\n'
    case LineText => c != '\n' && c != '\r'
    case Bare => c != ' ' && c != '\t' && c != '\n' && c != ';' && c != '{' && c != '}' && c != '\'' && c != '"'
  }

  predicate All(k: CharClass, s: string) {
    forall i :: 0 <= i < |s| ==> Is(k, s[i])
  }

  /** The first index at or behind `i` whose character is not in `k`; the length if there is none. */
  function Span(s: string, i: nat, k: CharClass): (j: nat)
    requires i <= |s|
    ensures i <= j <= |s| && (forall x :: i <= x < j ==> Is(k, s[x])) && (j < |s| ==> !Is(k, s[j]))
    decreases |s| - i
  {
    if i < |s| && Is(k, s[i]) then Span(s, i + 1, k) else i
  }

  lemma SpanUnique(s: string, i: nat, k: CharClass, j: nat)
    requires i <= j <= |s| && (forall x :: i <= x < j ==> Is(k, s[x])) && (j < |s| ==> !Is(k, s[j]))
    ensures Span(s, i, k) == j
  {}

  function SkipSpace(s: string): string {
    s[Span(s, 0, Space)..]
  }

  /** `s.find(c, from)`; None is `npos`. */
  function FindChar(s: string, c: char, from: nat): (r: Option<nat>)
    ensures r.None? ==> forall i :: from <= i < |s| ==> s[i] != c
    ensures r.Some? ==> from <= r.value < |s| && s[r.value] == c
    ensures r.Some? ==> forall i :: from <= i < r.value ==> s[i] != c
    decreases |s| - from
  {
    if from >= |s| then None
    else if s[from] == c then Some(from)
    else FindChar(s, c, from + 1)
  }

  predicate OccursAt(s: string, pattern: string, i: nat) {
    i + |pattern| <= |s| && s[i..i + |pattern|] == pattern
  }

  /** `s.find(pattern, from)`; None is `npos`. */
  function Find(s: string, pattern: string, from: nat): (r: Option<nat>)
    ensures r.None? ==> forall i: nat :: from <= i ==> !OccursAt(s, pattern, i)
    ensures r.Some? ==> from <= r.value && OccursAt(s, pattern, r.value)
    ensures r.Some? ==> forall i: nat :: from <= i < r.value ==> !OccursAt(s, pattern, i)
    decreases |s| - from
  {
    if from > |s| then None
    else if OccursAt(s, pattern, from) then Some(from)
    else Find(s, pattern, from + 1)
  }

  predicate Contains(s: string, pattern: string) {
    Find(s, pattern, 0).Some?
  }

  lemma FindUnique(s: string, pattern: string, from: nat, i: nat)
    requires from <= i && OccursAt(s, pattern, i)
    requires forall j: nat :: from <= j < i ==> !OccursAt(s, pattern, j)
    ensures Find(s, pattern, from) == Some(i)
  {}

  /** A first occurrence stays the first occurrence when text is appended. */
  lemma FindExtends(s: string, t: string, pattern: string, from: nat)
    requires Find(s, pattern, from).Some?
    ensures Find(s + t, pattern, from) == Find(s, pattern, from)
  {
    var i := Find(s, pattern, from).value;
    assert (s + t)[i..i + |pattern|] == s[i..i + |pattern|];
    forall j: nat | from <= j < i
      ensures !OccursAt(s + t, pattern, j)
    {
      assert !OccursAt(s, pattern, j);
      assert (s + t)[j..j + |pattern|] == s[j..j + |pattern|];
    }
    FindUnique(s + t, pattern, from, i);
  }

  lemma OccursInPrefix(s: string, pattern: string, n: nat, j: nat)
    requires n <= |s|
    ensures OccursAt(s[..n], pattern, j) <==> j + |pattern| <= n && OccursAt(s, pattern, j)
  {
    if j + |pattern| <= n {
      assert s[..n][j..j + |pattern|] == s[j..j + |pattern|];
    }
  }

  /** A first occurrence is found in just those prefixes it lies in. */
  lemma FindInPrefix(s: string, pattern: string, n: nat)
    requires Find(s, pattern, 0).Some? && n <= |s|
    ensures Find(s[..n], pattern, 0) == if Find(s, pattern, 0).value + |pattern| <= n then Find(s, pattern, 0) else None
  {
    var at := Find(s, pattern, 0).value;
    forall j: nat ensures OccursAt(s[..n], pattern, j) <==> j + |pattern| <= n && OccursAt(s, pattern, j) {
      OccursInPrefix(s, pattern, n, j);
    }
    if at + |pattern| <= n {
      FindUnique(s[..n], pattern, 0, at);
    }
  }

  lemma FindCharUnique(s: string, c: char, from: nat, i: nat)
    requires from <= i < |s| && s[i] == c
    requires forall j :: from <= j < i ==> s[j] != c
    ensures FindChar(s, c, from) == Some(i)
  {}

  /** `s.rfind(prefix, 0) == 0` */
  predicate StartsWith(s: string, prefix: string) {
    |prefix| <= |s| && s[..|prefix|] == prefix
  }

  /** The text up to the first `d`, and the text behind it: one call of `getline(in, line, d)`. */
  function LineOf(s: string, d: char): string {
    match FindChar(s, d, 0)
    case None => s
    case Some(i) => s[..i]
  }

  function AfterLine(s: string, d: char): (r: string)
    ensures |r| <= |s| && (s != "" ==> |r| < |s|)
  {
    match FindChar(s, d, 0)
    case None => ""
    case Some(i) => s[i + 1..]
  }

  lemma LineOfConcat(a: string, d: char, b: string)
    requires d !in a
    ensures LineOf(a + [d] + b, d) == a && AfterLine(a + [d] + b, d) == b
  {
    var s := a + [d] + b;
    FindCharUnique(s, d, 0, |a|);
    assert s[..|a|] == a;
    assert s[|a| + 1..] == b;
  }

  lemma LineOfLast(a: string, d: char)
    requires d !in a
    ensures LineOf(a, d) == a && AfterLine(a, d) == ""
  {}

  lemma LineSplit(s: string, d: char)
    ensures d in s ==> s == LineOf(s, d) + [d] + AfterLine(s, d)
    ensures d !in s ==> LineOf(s, d) == s && AfterLine(s, d) == ""
    ensures d !in LineOf(s, d)
  {}

  /** Every piece a `while (getline(in, piece, d))` loop sees. */
  function Pieces(s: string, d: char): (r: seq<string>)
    ensures forall p :: p in r ==> d !in p
    decreases |s|
  {
    if s == "" then []
    else
      assert d !in LineOf(s, d);
      [LineOf(s, d)] + Pieces(AfterLine(s, d), d)
  }

  /** `pieces[0] + d + pieces[1] + d + ...` with no trailing separator. */
  function Join(pieces: seq<string>, sep: string): string {
    if pieces == [] then ""
    else if |pieces| == 1 then pieces[0]
    else pieces[0] + sep + Join(pieces[1..], sep)
  }

  lemma JoinSnoc(pieces: seq<string>, p: string, sep: string)
    requires pieces != []
    ensures Join(pieces + [p], sep) == Join(pieces, sep) + sep + p
  {
    if |pieces| == 1 {
      assert (pieces + [p])[1..] == [p];
    } else {
      assert (pieces + [p])[1..] == pieces[1..] + [p];
      JoinSnoc(pieces[1..], p, sep);
    }
  }

  /** A text without the separator it may end in. */
  function WithoutLast(s: string, d: char): string {
    if s != "" && s[|s| - 1] == d then s[..|s| - 1] else s
  }

  lemma WithoutLastCons(a: string, d: char, b: string)
    requires b != ""
    ensures WithoutLast(a + [d] + b, d) == a + [d] + WithoutLast(b, d)
  {
    var s := a + [d] + b;
    assert s[|s| - 1] == b[|b| - 1];
    if b[|b| - 1] == d {
      assert s[..|s| - 1] == a + [d] + b[..|b| - 1];
    }
  }

  lemma WithoutLastOne(a: string, d: char)
    requires d !in a
    ensures WithoutLast(a + [d], d) == a && WithoutLast(a, d) == a
  {
    assert (a + [d])[..|a|] == a;
  }

  lemma PiecesCons(s: string, d: char)
    requires s != ""
    ensures Pieces(s, d) == [LineOf(s, d)] + Pieces(AfterLine(s, d), d)
    ensures (Pieces(s, d) == [LineOf(s, d)]) <==> AfterLine(s, d) == ""
  {
    if AfterLine(s, d) != "" {
      assert |Pieces(AfterLine(s, d), d)| > 0;
    }
  }

  lemma JoinTwo(piece: string, more: seq<string>, sep: string)
    requires more != []
    ensures Join([piece] + more, sep) == piece + sep + Join(more, sep)
  {
    assert ([piece] + more)[1..] == more;
  }

  /** The pieces between separators, none of which holds one, make up the text again. */
  lemma {:induction false} PiecesJoin(s: string, d: char)
    ensures Join(Pieces(s, d), [d]) == WithoutLast(s, d)
    ensures Pieces(s, d) == [] <==> s == ""
    decreases |s|
  {
    if s != "" {
      var l, r := LineOf(s, d), AfterLine(s, d);
      LineSplit(s, d);
      PiecesCons(s, d);
      PiecesJoin(r, d);
      if r == "" {
        WithoutLastOne(l, d);
        assert l + [d] + "" == l + [d];
      } else {
        JoinTwo(l, Pieces(r, d), [d]);
        WithoutLastCons(l, d, r);
      }
    }
  }
}
