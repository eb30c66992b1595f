/** The hand-written search for a field in a JSON text, and what it finds in a printed
    flat object of strings. */
module Json {
  import opened Folding
  import opened Text

  function Quoted(s: string): string {
    "\"" + s + "\""
  }

  function StringAt(json: string, valueStart: nat): string
    requires valueStart <= |json|
  {
    if valueStart == |json| || json[valueStart] != '"' then ""
    else
      match FindChar(json, '"', valueStart + 1)
      case None => ""
      case Some(valueEnd) => json[valueStart + 1..valueEnd]
  }

  function BehindColon(json: string, i: nat): string
    requires i <= |json|
  {
    StringAt(json, Span(json, i, JsonBlank))
  }

  /** The quoted string behind the next colon. */
  function ValueText(json: string, fieldPos: nat): string {
    match FindChar(json, ':', fieldPos)
    case None => ""
    case Some(colonPos) => BehindColon(json, colonPos + 1)
  }

  ghost function ValueFrom(json: string, fieldPos: nat): string {
    Folded2(ValueText)(json, fieldPos)
  }

  /** What `extract_json_field` finds. */
  ghost function ExtractJsonField(json: string, field: string): string {
    match Find(json, Quoted(field), 0)
    case None => ""
    case Some(fieldPos) => ValueFrom(json, fieldPos)
  }

  lemma ValueIsText(json: string, fieldPos: nat)
    ensures ValueFrom(json, fieldPos) == ValueText(json, fieldPos)
  {
    Unfold2(ValueText, json, fieldPos);
  }

  // What it finds in any text, told by its characters.

  /** A string from quotation mark to quotation mark, the first behind `c` but for blanks, tabs and line feeds. */
  predicate IsStringBehind(json: string, c: nat, v: nat, e: nat) {
    && c < v < e < |json| && json[v] == '"' && json[e] == '"'
    && (forall x :: c < x < v ==> json[x] == ' ' || json[x] == '\t' || json[x] == '\n')
    && (forall x :: v < x < e ==> json[x] != '"')
  }

  /** The first occurrence of the field between quotation marks, and the first colon from there on. */
  predicate IsFieldColon(json: string, field: string, p: nat, c: nat) {
    && OccursAt(json, "\"" + field + "\"", p) && (forall j: nat :: j < p ==> !OccursAt(json, "\"" + field + "\"", j))
    && p <= c < |json| && json[c] == ':' && (forall x :: p <= x < c ==> json[x] != ':')
  }

  lemma StringBehindExactly(json: string, c: nat)
    requires c < |json|
    ensures forall v: nat, e: nat :: IsStringBehind(json, c, v, e) ==> BehindColon(json, c + 1) == json[v + 1..e]
    ensures (forall v: nat, e: nat :: !IsStringBehind(json, c, v, e)) ==> BehindColon(json, c + 1) == ""
  {
    forall v: nat, e: nat | IsStringBehind(json, c, v, e) ensures BehindColon(json, c + 1) == json[v + 1..e] {
      SpanUnique(json, c + 1, JsonBlank, v);
      FindCharUnique(json, '"', v + 1, e);
    }
    var v := Span(json, c + 1, JsonBlank);
    if v < |json| && json[v] == '"' && FindChar(json, '"', v + 1).Some? {
      assert IsStringBehind(json, c, v, FindChar(json, '"', v + 1).value);
    }
  }

  lemma ExtractAt(json: string, field: string, p: nat, c: nat)
    requires Find(json, Quoted(field), 0) == Some(p) && FindChar(json, ':', p) == Some(c)
    ensures c < |json| && ExtractJsonField(json, field) == BehindColon(json, c + 1)
  {
    ValueIsText(json, p);
  }

  lemma FieldColonExactly(json: string, field: string, p: nat, c: nat)
    requires IsFieldColon(json, field, p, c)
    ensures ExtractJsonField(json, field) == BehindColon(json, c + 1)
  {
    FindUnique(json, Quoted(field), 0, p);
    FindCharUnique(json, ':', p, c);
    ExtractAt(json, field, p, c);
  }

  lemma NoFieldColon(json: string, field: string)
    requires forall p: nat, c: nat :: !IsFieldColon(json, field, p, c)
    ensures ExtractJsonField(json, field) == ""
  {
    var at := Find(json, Quoted(field), 0);
    if at.Some? {
      ValueIsText(json, at.value);
      var colon := FindChar(json, ':', at.value);
      if colon.Some? {
        assert IsFieldColon(json, field, at.value, colon.value);
      }
    }
  }

  /** In any text at all, the search finds the first string behind the first colon behind the first occurrence of the
      field in quotation marks, and nothing if one of the three is missing, or something else stands in between. */
  lemma ExtractExactly(json: string, field: string)
    ensures forall p: nat, c: nat, v: nat, e: nat ::
              IsFieldColon(json, field, p, c) && IsStringBehind(json, c, v, e) ==>
                ExtractJsonField(json, field) == json[v + 1..e]
    ensures (forall p: nat, c: nat, v: nat, e: nat ::
               !(IsFieldColon(json, field, p, c) && IsStringBehind(json, c, v, e))) ==>
              ExtractJsonField(json, field) == ""
  {
    forall p: nat, c: nat | IsFieldColon(json, field, p, c)
      ensures forall v: nat, e: nat :: IsStringBehind(json, c, v, e) ==> ExtractJsonField(json, field) == json[v + 1..e]
      ensures (forall v: nat, e: nat :: !IsStringBehind(json, c, v, e)) ==> ExtractJsonField(json, field) == ""
    {
      FieldColonExactly(json, field, p, c);
      StringBehindExactly(json, c);
    }
    if forall p: nat, c: nat :: !IsFieldColon(json, field, p, c) {
      NoFieldColon(json, field);
    }
  }

  /** `crud_handler.cc:402-414` */
  method ReadBehindColon(json: string, i: nat) returns (value: string)
    requires i <= |json|
    ensures value == BehindColon(json, i)
  {
    var valueStart := Span(json, i, JsonBlank);
    if valueStart == |json| || json[valueStart] != '"' {
      return "";
    }
    valueStart := valueStart + 1;
    var valueEnd := FindChar(json, '"', valueStart);
    if valueEnd.None? {
      return "";
    }
    return json[valueStart..valueEnd.value];
  }

  /** `crud_handler.cc:397-414` */
  method ReadValue(json: string, fieldPos: nat) returns (value: string)
    ensures value == ValueText(json, fieldPos)
  {
    var colonPos := FindChar(json, ':', fieldPos);
    if colonPos.None? {
      return "";
    }
    value := ReadBehindColon(json, colonPos.value + 1);
  }

  /** `extract_json_field` */
  method ExtractField(json: string, fieldName: string) returns (value: string)
    ensures value == ExtractJsonField(json, fieldName)
  {
    var searchPattern := Quoted(fieldName);
    var fieldPos := Find(json, searchPattern, 0);
    if fieldPos.None? {
      return "";
    }
    ValueIsText(json, fieldPos.value);
    value := ReadValue(json, fieldPos.value);
  }

  // Flat objects, in any layout.

  /** A string, or a word that stands without quotation marks: a number, `true`, `false` or `null`. */
  datatype Value = Str(text: string) | Word(word: string)

  /** A key and its value, what stands around the colon between them, and what stands behind the value:
      the comma or the closing brace, with blanks around them or none. */
  datatype Member = Member(key: string, value: Value, before: string, after: string, behind: string)

  function Separator(m: Member): string {
    m.before + ":" + m.after
  }

  function Shown(v: Value): string {
    match v
    case Str(t) => Quoted(t)
    case Word(w) => w
  }

  function Members(ms: seq<Member>): string {
    if ms == [] then ""
    else Quoted(ms[0].key) + (Separator(ms[0]) + (Shown(ms[0].value) + (ms[0].behind + Members(ms[1..]))))
  }

  /** The opening brace, with blanks around it or none, and the members. */
  function Object(opening: string, ms: seq<Member>): string {
    opening + Members(ms)
  }

  predicate QuoteFree(s: string) {
    '"' !in s
  }

  predicate Between(s: string) {
    '"' !in s && ':' !in s
  }

  /** Blanks, tabs and line feeds. */
  predicate OnlySkipped(s: string) {
    forall i :: 0 <= i < |s| ==> s[i] == ' ' || s[i] == '\t' || s[i] == '\n'
  }

  predicate IsValue(v: Value) {
    match v
    case Str(t) => QuoteFree(t)
    case Word(w) => Between(w) && !OnlySkipped(w)
  }

  /** Keys and strings without quotation marks, and between them any text without quotation marks and colons:
      the blanks of JSON, carriage returns among them. */
  predicate LaidOut(ms: seq<Member>) {
    forall i :: 0 <= i < |ms| ==>
      && QuoteFree(ms[i].key) && IsValue(ms[i].value)
      && Between(ms[i].before) && Between(ms[i].after)
      && Between(ms[i].behind) && (i < |ms| - 1 ==> ',' in ms[i].behind)
  }

  predicate SearchableField(field: string) {
    '"' !in field && ':' !in field && ',' !in field
  }

  function StringOf(m: Member): string {
    match m.value
    case Str(t) => t
    case Word(_) => ""
  }

  /** The value of the first member with this key, if that is a string, or else the empty string. */
  function Lookup(ms: seq<Member>, field: string): string {
    if ms == [] then "" else if ms[0].key == field then StringOf(ms[0]) else Lookup(ms[1..], field)
  }

  /** What the search reads of a member's value: no carriage return may stand in front of it. */
  function ReadOf(m: Member): string {
    if OnlySkipped(m.after) then StringOf(m) else ""
  }

  function UpToString(ms: seq<Member>): string
    requires ms != []
  {
    match ms[0].value
    case Str(_) => Separator(ms[0])
    case Word(w) => if |ms| == 1 then "" else Separator(ms[0]) + w + ms[0].behind
  }

  /** What is taken behind a value that equals the field: what is read of the next value, unless the next key
      has a colon; then what stands behind that key up to the next string, if there is one and the rest of the
      key is blank, or else nothing. */
  function Taken(ms: seq<Member>): string {
    if ms == [] then ""
    else
      match FindChar(ms[0].key, ':', 0)
      case None => ReadOf(ms[0])
      case Some(c) => if OnlySkipped(ms[0].key[c + 1..]) then UpToString(ms) else ""
  }

  /** The first string equal to the field decides, be it a key or a value. */
  function Hit(ms: seq<Member>, field: string): string {
    if ms == [] then ""
    else if ms[0].key == field then ReadOf(ms[0])
    else if ms[0].value == Str(field) then Taken(ms[1..])
    else Hit(ms[1..], field)
  }

  /** No value equals the field in front of the first key that does. */
  predicate KeyFirst(ms: seq<Member>, field: string) {
    ms != [] && ms[0].key != field ==> ms[0].value != Str(field) && KeyFirst(ms[1..], field)
  }

  /** In front of the first value with this key, if there is one and it is not empty, stand just the blanks
      that the search skips. */
  predicate BlanksSkipped(ms: seq<Member>, field: string) {
    ms != [] ==>
      if ms[0].key == field then OnlySkipped(ms[0].after) || StringOf(ms[0]) == ""
      else BlanksSkipped(ms[1..], field)
  }

  // Searching a suffix.

  function Shift(n: nat, at: Option<nat>): Option<nat> {
    match at case None => None case Some(i) => Some(n + i)
  }

  lemma FindCharShift(a: string, y: string, c: char, p: nat)
    ensures FindChar(a + y, c, |a| + p) == Shift(|a|, FindChar(y, c, p))
  {
    var s := a + y;
    assert forall i :: 0 <= i < |y| ==> s[|a| + i] == y[i];
    match FindChar(y, c, p) {
      case None =>
        forall j | |a| + p <= j < |s| ensures s[j] != c {
          assert s[j] == y[j - |a|];
        }
      case Some(i) =>
        forall j | |a| + p <= j < |a| + i ensures s[j] != c {
          assert s[j] == y[j - |a|];
        }
        FindCharUnique(s, c, |a| + p, |a| + i);
    }
  }

  lemma SpanShift(a: string, y: string, k: CharClass, p: nat)
    requires p <= |y|
    ensures Span(a + y, |a| + p, k) == |a| + Span(y, p, k)
  {
    var s, j := a + y, Span(y, p, k);
    assert forall i :: 0 <= i < |y| ==> s[|a| + i] == y[i];
    forall x | |a| + p <= x < |a| + j ensures Is(k, s[x]) {
      assert s[x] == y[x - |a|];
    }
    SpanUnique(s, |a| + p, k, |a| + j);
  }

  lemma StringShift(a: string, y: string, p: nat)
    requires p <= |y|
    ensures StringAt(a + y, |a| + p) == StringAt(y, p)
  {
    FindCharShift(a, y, '"', p + 1);
    var end := FindChar(y, '"', p + 1);
    if end.Some? {
      assert (a + y)[|a| + p + 1..|a| + end.value] == y[p + 1..end.value];
    }
  }

  lemma BehindColonShift(a: string, y: string, p: nat, i: nat)
    requires p <= |y| && i == |a| + p
    ensures BehindColon(a + y, i) == BehindColon(y, p)
  {
    SpanShift(a, y, JsonBlank, p);
    StringShift(a, y, Span(y, p, JsonBlank));
  }

  lemma NoColon(s: string, p: nat)
    requires FindChar(s, ':', p).None?
    ensures ValueFrom(s, p) == ""
  {
    ValueIsText(s, p);
  }

  lemma SameBehind(s: string, p: nat, c: nat, t: string, q: nat, d: nat)
    requires FindChar(s, ':', p) == Some(c) && FindChar(t, ':', q) == Some(d)
    requires BehindColon(s, c + 1) == BehindColon(t, d + 1)
    ensures ValueFrom(s, p) == ValueFrom(t, q)
  {
    ValueIsText(s, p);
    ValueIsText(t, q);
  }

  lemma ColonShift(a: string, y: string, p: nat, colon: nat)
    requires FindChar(y, ':', p) == Some(colon)
    ensures ValueFrom(a + y, |a| + p) == ValueFrom(y, p)
  {
    FindCharShift(a, y, ':', p);
    BehindColonShift(a, y, colon + 1, |a| + colon + 1);
    SameBehind(y, p, colon, a + y, |a| + p, |a| + colon);
  }

  lemma ValueShift(a: string, y: string, p: nat)
    ensures ValueFrom(a + y, |a| + p) == ValueFrom(y, p)
  {
    match FindChar(y, ':', p) {
      case None =>
        FindCharShift(a, y, ':', p);
        NoColon(y, p);
        NoColon(a + y, |a| + p);
      case Some(colon) =>
        ColonShift(a, y, p, colon);
    }
  }

  lemma FromBehind(s: string, n: nat)
    requires FindChar(s, ':', 0) == FindChar(s, ':', n)
    ensures ValueFrom(s, 0) == ValueFrom(s, n)
  {
    ValueIsText(s, 0);
    ValueIsText(s, n);
  }

  lemma FindCharSkip(a: string, y: string, c: char)
    requires c !in a
    ensures FindChar(a + y, c, 0) == FindChar(a + y, c, |a|)
  {
    var s := a + y;
    match FindChar(s, c, |a|) {
      case None =>
      case Some(i) => FindCharUnique(s, c, 0, i);
    }
  }

  lemma SkipColonFree(a: string, y: string)
    requires ':' !in a
    ensures ValueFrom(a + y, 0) == ValueFrom(y, 0)
  {
    FindCharSkip(a, y, ':');
    FromBehind(a + y, |a|);
    ValueShift(a, y, 0);
  }

  lemma SameValue(a: string, y: string, i: nat, j: nat)
    requires j == |a| + i
    ensures ValueFrom(a + y, j) == ValueFrom(y, i)
  {
    ValueShift(a, y, i);
  }

  lemma OccursShift(a: string, y: string, pattern: string, i: nat)
    ensures OccursAt(a + y, pattern, |a| + i) == OccursAt(y, pattern, i)
  {
    if i + |pattern| <= |y| {
      assert (a + y)[|a| + i..|a| + i + |pattern|] == y[i..i + |pattern|];
    }
  }

  lemma OccursFrom(a: string, y: string, pattern: string)
    requires forall i: nat :: i < |a| ==> !OccursAt(a + y, pattern, i)
    ensures forall i: nat :: OccursAt(a + y, pattern, i) <==> i >= |a| && OccursAt(y, pattern, i - |a|)
  {
    forall i: nat ensures OccursAt(a + y, pattern, i) <==> i >= |a| && OccursAt(y, pattern, i - |a|) {
      if i >= |a| { OccursShift(a, y, pattern, i - |a|); }
    }
  }

  lemma FindShift(a: string, y: string, pattern: string)
    requires forall i: nat :: i < |a| ==> !OccursAt(a + y, pattern, i)
    ensures Find(a + y, pattern, 0) == Shift(|a|, Find(y, pattern, 0))
  {
    OccursFrom(a, y, pattern);
    match Find(y, pattern, 0) {
      case None =>
      case Some(n) =>
        assert OccursAt(y, pattern, (|a| + n) - |a|);
        FindUnique(a + y, pattern, 0, |a| + n);
    }
  }

  /** The search goes on behind text in which the field's pattern does not begin. */
  lemma SkipText(a: string, y: string, field: string)
    requires forall i: nat :: i < |a| ==> !OccursAt(a + y, Quoted(field), i)
    ensures ExtractJsonField(a + y, field) == ExtractJsonField(y, field)
  {
    FindShift(a, y, Quoted(field));
    var at := Find(y, Quoted(field), 0);
    if at.Some? {
      SameValue(a, y, at.value, |a| + at.value);
    }
  }

  // Quotation marks.

  lemma OccursChars(s: string, pattern: string, i: nat)
    ensures OccursAt(s, pattern, i) <==>
            i + |pattern| <= |s| && forall x :: 0 <= x < |pattern| ==> s[i + x] == pattern[x]
  {
    if i + |pattern| <= |s| {
      var t := s[i..i + |pattern|];
      assert forall x :: 0 <= x < |pattern| ==> t[x] == s[i + x];
    }
  }

  lemma QuotedChars(f: string)
    ensures |Quoted(f)| == |f| + 2 && Quoted(f)[0] == '"' && Quoted(f)[|f| + 1] == '"'
    ensures forall x :: 0 <= x < |f| ==> Quoted(f)[x + 1] == f[x]
  {}

  predicate QuotedAt(s: string, field: string, i: nat) {
    && i + |field| + 2 <= |s| && s[i] == '"' && s[i + |field| + 1] == '"'
    && forall x :: i < x <= i + |field| ==> s[x] == field[x - i - 1]
  }

  /** The field's pattern occurs in just those places where the field stands between quotation marks. */
  lemma OccursQuoted(s: string, field: string, i: nat)
    ensures OccursAt(s, Quoted(field), i) <==> QuotedAt(s, field, i)
  {
    var p := Quoted(field);
    OccursChars(s, p, i);
    QuotedChars(field);
    if OccursAt(s, p, i) {
      forall x | i < x <= i + |field| ensures s[x] == field[x - i - 1] {
        assert s[i + (x - i)] == p[x - i] && p[(x - i - 1) + 1] == field[x - i - 1];
      }
      assert s[i + 0] == p[0] && s[i + (|field| + 1)] == p[|field| + 1];
    }
    if QuotedAt(s, field, i) {
      forall x | 0 <= x < |p| ensures s[i + x] == p[x] {
        assert x > 0 ==> p[(x - 1) + 1] == p[x];
      }
    }
  }

  lemma OccursIffSegment(s: string, field: string, i: nat, j: nat)
    requires i < j < |s| && s[i] == '"' && s[j] == '"' && (forall x :: i < x < j ==> s[x] != '"')
    requires '"' !in field
    ensures OccursAt(s, Quoted(field), i) <==> s[i + 1..j] == field
  {
    OccursQuoted(s, field, i);
    if QuotedAt(s, field, i) {
      assert forall x :: i < x <= i + |field| ==> s[x] in field;
      assert j == i + |field| + 1;
    }
    if s[i + 1..j] == field {
      assert forall x :: i < x < j ==> s[x] == s[i + 1..j][x - i - 1];
    }
  }

  lemma NoQuoteNoOccurrence(s: string, field: string, i: nat)
    requires i < |s| ==> s[i] != '"'
    ensures !OccursAt(s, Quoted(field), i)
  {
    OccursQuoted(s, field, i);
  }

  /** Between two quotation marks stands either the field, or something to skip. */
  lemma SkipSegment(x: string, y: string, field: string)
    requires '"' !in x && '"' !in field && x != field
    ensures ExtractJsonField("\"" + x + "\"" + y, field) == ExtractJsonField("\"" + y, field)
  {
    var s, a := "\"" + x + "\"" + y, "\"" + x;
    assert s == a + ("\"" + y);
    assert s[1..|x| + 1] == x;
    forall i: nat | i < |a| ensures !OccursAt(s, Quoted(field), i) {
      if i == 0 {
        OccursIffSegment(s, field, 0, |x| + 1);
      } else {
        assert s[i] == x[i - 1] && x[i - 1] in x;
        NoQuoteNoOccurrence(s, field, i);
      }
    }
    SkipText(a, "\"" + y, field);
  }

  lemma HitSegment(y: string, field: string)
    requires '"' !in field && ':' !in field
    ensures ExtractJsonField(Quoted(field) + y, field) == ValueFrom(y, 0)
  {
    var s := Quoted(field) + y;
    assert s[0..|Quoted(field)|] == Quoted(field);
    assert OccursAt(s, Quoted(field), 0);
    SkipColonFree(Quoted(field), y);
  }

  lemma SkipNoQuote(a: string, y: string, field: string)
    requires '"' !in a
    ensures ExtractJsonField(a + y, field) == ExtractJsonField(y, field)
  {
    forall i: nat | i < |a| ensures !OccursAt(a + y, Quoted(field), i) {
      assert (a + y)[i] in a;
      NoQuoteNoOccurrence(a + y, field, i);
    }
    SkipText(a, y, field);
  }

  lemma NoSecondQuote(y: string, field: string)
    requires '"' !in y
    ensures ExtractJsonField("\"" + y, field) == ""
  {
    var s := "\"" + y;
    forall i: nat ensures !OccursAt(s, Quoted(field), i) {
      OccursQuoted(s, field, i);
      if i + |field| + 2 <= |s| {
        assert s[i + |field| + 1] == y[i + |field|] && y[i + |field|] in y;
      }
    }
  }

  // What stands behind a colon.

  lemma ColonFirst(z: string)
    ensures ValueFrom(":" + z, 0) == BehindColon(z, 0)
  {
    ValueIsText(":" + z, 0);
    FindCharUnique(":" + z, ':', 0, 0);
    BehindColonShift(":", z, 0, 1);
  }

  lemma NoValueInNothing()
    ensures ValueFrom("", 0) == ""
  {
    ValueIsText("", 0);
  }

  lemma StringAtQuote(v: string, y: string)
    requires '"' !in v
    ensures StringAt(Quoted(v) + y, 0) == v
  {
    var s := Quoted(v) + y;
    assert forall i :: 0 <= i < |v| ==> s[1 + i] == v[i] && v[i] in v;
    FindCharUnique(s, '"', 1, 1 + |v|);
    assert s[1..1 + |v|] == v;
  }

  lemma StringBehindBlanks(blanks: string, v: string, y: string)
    requires All(JsonBlank, blanks) && '"' !in v
    ensures BehindColon(blanks + (Quoted(v) + y), 0) == v
  {
    var z := blanks + (Quoted(v) + y);
    SpanUnique(z, 0, JsonBlank, |blanks|);
    StringShift(blanks, Quoted(v) + y, 0);
    StringAtQuote(v, y);
  }

  lemma NoStringBehindText(r: string, z: string)
    requires !All(JsonBlank, r) && '"' !in r
    ensures BehindColon(r + z, 0) == ""
  {
    var j := Span(r, 0, JsonBlank);
    assert j < |r| && (r + z)[j] == r[j] && r[j] in r;
    SpanUnique(r + z, 0, JsonBlank, j);
  }

  lemma ValueBehindColon(before: string, after: string, v: string, y: string)
    requires ':' !in before && QuoteFree(after) && '"' !in v
    ensures ValueFrom(before + ":" + after + (Quoted(v) + y), 0) == if All(JsonBlank, after) then v else ""
  {
    var z := after + (Quoted(v) + y);
    assert before + ":" + after + (Quoted(v) + y) == before + (":" + z);
    SkipColonFree(before, ":" + z);
    ColonFirst(z);
    if All(JsonBlank, after) {
      StringBehindBlanks(after, v, y);
    } else {
      NoStringBehindText(after, Quoted(v) + y);
    }
  }

  lemma BareBehindColon(before: string, after: string, w: string, y: string)
    requires ':' !in before && QuoteFree(after) && QuoteFree(w) && !All(JsonBlank, w)
    ensures ValueFrom(before + ":" + after + (w + y), 0) == ""
  {
    var text := after + w;
    assert before + ":" + after + (w + y) == before + (":" + (text + y));
    SkipColonFree(before, ":" + (text + y));
    ColonFirst(text + y);
    var x :| 0 <= x < |w| && !Is(JsonBlank, w[x]);
    assert text[|after| + x] == w[x];
    NoStringBehindText(text, y);
  }

  /** A colon inside a key, with blanks behind it: the text behind the key is taken. */
  lemma BlankBehindColonInKey(u: string, blanks: string, sep: string, z: string)
    requires ':' !in u && All(JsonBlank, blanks) && '"' !in sep
    ensures ValueFrom("\"" + (u + ":" + blanks) + "\"" + sep + "\"" + z, 0) == sep
  {
    var s := "\"" + (u + ":" + blanks) + "\"" + sep + "\"" + z;
    assert s == ("\"" + u) + ":" + blanks + (Quoted(sep) + z);
    ValueBehindColon("\"" + u, blanks, sep, z);
  }

  lemma OpenStringBehindBlanks(blanks: string, text: string)
    requires All(JsonBlank, blanks) && QuoteFree(text)
    ensures BehindColon(blanks + ("\"" + text), 0) == ""
  {
    var z := blanks + ("\"" + text);
    SpanUnique(z, 0, JsonBlank, |blanks|);
    StringShift(blanks, "\"" + text, 0);
    assert forall i :: 1 <= i < |"\"" + text| ==> ("\"" + text)[i] == text[i - 1] && text[i - 1] in text;
  }

  /** The same where no string follows: nothing is taken. */
  lemma NoStringBehindKey(u: string, blanks: string, text: string)
    requires ':' !in u && All(JsonBlank, blanks) && QuoteFree(text)
    ensures ValueFrom("\"" + (u + ":" + blanks) + "\"" + text, 0) == ""
  {
    var s := "\"" + (u + ":" + blanks) + "\"" + text;
    assert s == ("\"" + u) + (":" + (blanks + ("\"" + text)));
    SkipColonFree("\"" + u, ":" + (blanks + ("\"" + text)));
    ColonFirst(blanks + ("\"" + text));
    OpenStringBehindBlanks(blanks, text);
  }

  /** A colon inside a key, with something else behind it: nothing is taken. */
  lemma TextBehindColonInKey(u: string, r: string, z: string)
    requires ':' !in u && !All(JsonBlank, r) && '"' !in r
    ensures ValueFrom("\"" + (u + ":" + r) + z, 0) == ""
  {
    var s := "\"" + (u + ":" + r) + z;
    assert s == ("\"" + u) + (":" + (r + z));
    SkipColonFree("\"" + u, ":" + (r + z));
    ColonFirst(r + z);
    NoStringBehindText(r, z);
  }

  // One member, and the whole object.

  /** Neither a key that differs from the field nor the colon behind it is the field. */
  lemma SkipKey(key: string, sep: string, z: string, field: string)
    requires '"' !in key && '"' !in sep && ':' in sep && SearchableField(field) && key != field
    requires z != "" && z[0] == '"'
    ensures ExtractJsonField(Quoted(key) + (sep + z), field) == ExtractJsonField(z, field)
  {
    assert Quoted(key) + (sep + z) == "\"" + key + "\"" + (sep + z);
    SkipSegment(key, sep + z, field);
    assert z == "\"" + z[1..] && "\"" + (sep + z) == "\"" + sep + "\"" + z[1..];
    SkipSegment(sep, z[1..], field);
  }

  /** What follows a member: nothing, or the quotation mark of the next key. */
  predicate Follows(z: string) {
    z != "" ==> z[0] == '"'
  }

  function MemberText(m: Member, z: string): string {
    Quoted(m.key) + (Separator(m) + (Shown(m.value) + (m.behind + z)))
  }

  lemma SearchText(m: Member, y: string, field: string)
    requires LaidOut([m]) && SearchableField(field) && m.value.Str?
    ensures var r := ExtractJsonField(Quoted(m.key) + (Separator(m) + (Quoted(m.value.text) + y)), field);
            && (m.key == field ==> r == ReadOf(m))
            && (m.key != field && m.value == Str(field) ==> r == ValueFrom(y, 0))
            && (m.key != field && m.value != Str(field) ==> r == ExtractJsonField("\"" + y, field))
  {
    var v := m.value.text;
    assert [m][0] == m;
    if m.key == field {
      HitSegment(Separator(m) + (Quoted(v) + y), field);
      ValueBehindColon(m.before, m.after, v, y);
    } else {
      SkipKey(m.key, Separator(m), Quoted(v) + y, field);
      if v == field {
        HitSegment(y, field);
      } else {
        assert Quoted(v) + y == "\"" + v + "\"" + y;
        SkipSegment(v, y, field);
      }
    }
  }

  lemma NothingInNothing(field: string)
    ensures ExtractJsonField("", field) == ""
  {
    assert Find("", Quoted(field), 0).None? by {
      forall i: nat ensures !OccursAt("", Quoted(field), i) {}
    }
  }

  lemma SkipToNextKey(key: string, text: string, z: string, field: string)
    requires '"' !in key && '"' !in text && ':' in text && SearchableField(field) && key != field && Follows(z)
    ensures ExtractJsonField(Quoted(key) + (text + z), field) == ExtractJsonField(z, field)
  {
    if z == "" {
      assert Quoted(key) + (text + z) == "\"" + key + "\"" + text;
      SkipSegment(key, text, field);
      NoSecondQuote(text, field);
      NothingInNothing(field);
    } else {
      SkipKey(key, text, z, field);
    }
  }

  lemma SearchBare(m: Member, z: string, field: string)
    requires LaidOut([m]) && SearchableField(field) && m.value.Word? && Follows(z)
    ensures ExtractJsonField(MemberText(m, z), field) == if m.key == field then "" else ExtractJsonField(z, field)
  {
    var w := m.value.word;
    assert [m][0] == m;
    if m.key == field {
      HitSegment(Separator(m) + (w + (m.behind + z)), field);
      BareBehindColon(m.before, m.after, w, m.behind + z);
    } else {
      var text := Separator(m) + w + m.behind;
      assert Separator(m) + (w + (m.behind + z)) == text + z;
      SkipToNextKey(m.key, text, z, field);
    }
  }

  lemma LaidOutParts(ms: seq<Member>)
    requires LaidOut(ms) && ms != []
    ensures LaidOut([ms[0]]) && LaidOut(ms[1..])
  {}

  /** Behind a value that does not match, the search goes on with the next member. */
  lemma SearchBehind(behind: string, ms: seq<Member>, field: string)
    requires Between(behind) && (ms != [] ==> ',' in behind) && SearchableField(field)
    ensures ExtractJsonField("\"" + (behind + Members(ms)), field) == ExtractJsonField(Members(ms), field)
  {
    if ms == [] {
      assert behind + "" == behind;
      NoSecondQuote(behind, field);
      NothingInNothing(field);
    } else {
      var z := Members(ms);
      assert z == "\"" + z[1..] && "\"" + (behind + z) == "\"" + behind + "\"" + z[1..];
      SkipSegment(behind, z[1..], field);
    }
  }

  lemma KeyParts(key: string, c: nat)
    requires FindChar(key, ':', 0) == Some(c)
    ensures key == key[..c] + ":" + key[c + 1..] && ':' !in key[..c]
  {}

  lemma MembersFollow(ms: seq<Member>)
    ensures Follows(Members(ms))
  {}

  lemma ReadFromMember(m: Member, z: string)
    requires LaidOut([m]) && ':' !in m.key
    ensures ValueFrom(MemberText(m, z), 0) == ReadOf(m)
  {
    assert [m][0] == m;
    SkipColonFree(Quoted(m.key), Separator(m) + (Shown(m.value) + (m.behind + z)));
    match m.value {
      case Str(t) => ValueBehindColon(m.before, m.after, t, m.behind + z);
      case Word(w) => BareBehindColon(m.before, m.after, w, m.behind + z);
    }
  }

  lemma TextFollowsKey(u: string, r: string, sep: string, t: string, y: string)
    requires ':' !in u && All(JsonBlank, r) && QuoteFree(sep)
    ensures ValueFrom(Quoted(u + ":" + r) + (sep + (Quoted(t) + y)), 0) == sep
  {
    assert Quoted(u + ":" + r) + (sep + (Quoted(t) + y)) == "\"" + (u + ":" + r) + "\"" + sep + "\"" + (t + "\"" + y);
    BlankBehindColonInKey(u, r, sep, t + "\"" + y);
  }

  lemma BareFollowsKey(u: string, r: string, text: string, z: string)
    requires ':' !in u && All(JsonBlank, r) && QuoteFree(text) && Follows(z)
    ensures ValueFrom(Quoted(u + ":" + r) + (text + z), 0) == if z == "" then "" else text
  {
    if z == "" {
      assert Quoted(u + ":" + r) + (text + z) == "\"" + (u + ":" + r) + "\"" + text;
      NoStringBehindKey(u, r, text);
    } else {
      assert Quoted(u + ":" + r) + (text + z) == "\"" + (u + ":" + r) + "\"" + text + "\"" + z[1..];
      BlankBehindColonInKey(u, r, text, z[1..]);
    }
  }

  lemma BlanksInKey(m: Member, u: string, r: string, z: string)
    requires LaidOut([m]) && m.key == u + ":" + r && ':' !in u && All(JsonBlank, r) && Follows(z)
    ensures ValueFrom(MemberText(m, z), 0) ==
            match m.value
            case Str(_) => Separator(m)
            case Word(w) => if z == "" then "" else Separator(m) + w + m.behind
  {
    assert [m][0] == m;
    match m.value {
      case Str(t) =>
        TextFollowsKey(u, r, Separator(m), t, m.behind + z);
      case Word(w) =>
        assert Separator(m) + (w + (m.behind + z)) == (Separator(m) + w + m.behind) + z;
        BareFollowsKey(u, r, Separator(m) + w + m.behind, z);
    }
  }

  lemma ColonInMember(m: Member, c: nat, z: string)
    requires LaidOut([m]) && FindChar(m.key, ':', 0) == Some(c) && Follows(z)
    ensures ValueFrom(MemberText(m, z), 0) ==
            if !All(JsonBlank, m.key[c + 1..]) then ""
            else match m.value
                 case Str(_) => Separator(m)
                 case Word(w) => if z == "" then "" else Separator(m) + w + m.behind
  {
    var u, r := m.key[..c], m.key[c + 1..];
    var rest := Separator(m) + (Shown(m.value) + (m.behind + z));
    assert [m][0] == m;
    KeyParts(m.key, c);
    if All(JsonBlank, r) {
      BlanksInKey(m, u, r, z);
    } else {
      assert MemberText(m, z) == "\"" + (u + ":" + r) + ("\"" + rest);
      TextBehindColonInKey(u, r, "\"" + rest);
    }
  }

  /** What is taken behind a misleading value, whatever the next key. */
  lemma TakenFromMembers(ms: seq<Member>)
    requires LaidOut(ms)
    ensures ValueFrom(Members(ms), 0) == Taken(ms)
  {
    if ms == [] {
      NoValueInNothing();
    } else {
      LaidOutParts(ms);
      MembersFollow(ms[1..]);
      match FindChar(ms[0].key, ':', 0) {
        case None => ReadFromMember(ms[0], Members(ms[1..]));
        case Some(c) => ColonInMember(ms[0], c, Members(ms[1..]));
      }
    }
  }

  lemma TextHit(ms: seq<Member>, field: string)
    requires LaidOut(ms) && SearchableField(field) && ms != [] && ms[0].value.Str?
    requires ExtractJsonField(Members(ms[1..]), field) == Hit(ms[1..], field)
    ensures ExtractJsonField(Members(ms), field) == Hit(ms, field)
  {
    LaidOutParts(ms);
    SearchText(ms[0], ms[0].behind + Members(ms[1..]), field);
    SearchBehind(ms[0].behind, ms[1..], field);
    SkipColonFree(ms[0].behind, Members(ms[1..]));
    TakenFromMembers(ms[1..]);
  }

  lemma {:induction false} MembersHit(ms: seq<Member>, field: string)
    requires LaidOut(ms) && SearchableField(field)
    ensures ExtractJsonField(Members(ms), field) == Hit(ms, field)
    decreases |ms|
  {
    if ms == [] {
      NothingInNothing(field);
    } else {
      LaidOutParts(ms);
      MembersHit(ms[1..], field);
      if ms[0].value.Str? {
        TextHit(ms, field);
      } else {
        MembersFollow(ms[1..]);
        SearchBare(ms[0], Members(ms[1..]), field);
      }
    }
  }

  /** What the search finds in any flat object without quotation marks in its strings, in any layout: the first
      string equal to the field decides, and behind a value what `Taken` says. */
  lemma ExtractIsHit(opening: string, ms: seq<Member>, field: string)
    requires QuoteFree(opening) && LaidOut(ms) && SearchableField(field)
    ensures ExtractJsonField(Object(opening, ms), field) == Hit(ms, field)
  {
    SkipNoQuote(opening, Members(ms), field);
    MembersHit(ms, field);
  }

  lemma {:induction false} KeyFirstIsLookup(ms: seq<Member>, field: string)
    requires KeyFirst(ms, field)
    ensures Hit(ms, field) == if BlanksSkipped(ms, field) then Lookup(ms, field) else ""
    ensures Hit(ms, field) == Lookup(ms, field) <==> BlanksSkipped(ms, field)
    decreases |ms|
  {
    if ms != [] && ms[0].key != field {
      KeyFirstIsLookup(ms[1..], field);
    }
  }

  lemma {:induction false} NoValueKeyFirst(ms: seq<Member>, field: string)
    requires forall i :: 0 <= i < |ms| ==> ms[i].value != Str(field)
    ensures KeyFirst(ms, field)
    decreases |ms|
  {
    if ms != [] {
      NoValueKeyFirst(ms[1..], field);
    }
  }

  /** When no value equals the field, the search is the lookup if it can skip the blanks behind the colon,
      and finds nothing if it cannot. */
  lemma ExtractIsLookup(opening: string, ms: seq<Member>, field: string)
    requires QuoteFree(opening) && LaidOut(ms) && SearchableField(field)
    requires forall i :: 0 <= i < |ms| ==> ms[i].value != Str(field)
    ensures ExtractJsonField(Object(opening, ms), field) ==
            if BlanksSkipped(ms, field) then Lookup(ms, field) else ""
    ensures ExtractJsonField(Object(opening, ms), field) == Lookup(ms, field) <==> BlanksSkipped(ms, field)
  {
    NoValueKeyFirst(ms, field);
    ExtractIsHit(opening, ms, field);
    KeyFirstIsLookup(ms, field);
  }

  /** The members behind the first value that equals the field, when no such key stands in front of it. */
  function BehindHit(ms: seq<Member>, field: string): seq<Member>
    requires !KeyFirst(ms, field)
  {
    if ms[0].value == Str(field) then ms[1..] else BehindHit(ms[1..], field)
  }

  lemma {:induction false} HitBehind(ms: seq<Member>, field: string)
    requires !KeyFirst(ms, field)
    ensures Hit(ms, field) == Taken(BehindHit(ms, field))
    ensures Lookup(ms, field) == Lookup(BehindHit(ms, field), field)
    decreases |ms|
  {
    if ms[0].value != Str(field) {
      HitBehind(ms[1..], field);
    }
  }

  /** Just when it is the lookup, whatever the keys and the layout: when the key comes first, if the search can
      skip the blanks in front of its value; else if what is taken behind the misleading value happens to be
      the value looked for. */
  lemma ExtractIsLookupIff(opening: string, ms: seq<Member>, field: string)
    requires QuoteFree(opening) && LaidOut(ms) && SearchableField(field)
    ensures ExtractJsonField(Object(opening, ms), field) == Lookup(ms, field) <==>
            if KeyFirst(ms, field) then BlanksSkipped(ms, field)
            else Taken(BehindHit(ms, field)) == Lookup(BehindHit(ms, field), field)
  {
    ExtractIsHit(opening, ms, field);
    if KeyFirst(ms, field) {
      KeyFirstIsLookup(ms, field);
    } else {
      HitBehind(ms, field);
    }
  }

  lemma LaidOutPair(k: Member, j: Member)
    requires LaidOut([k]) && LaidOut([j]) && ',' in k.behind
    ensures LaidOut([k, j])
  {
    assert [k][0] == k && [j][0] == j;
  }

  lemma NextValueTaken(field: string, k: Member, j: Member)
    requires LaidOut([k]) && LaidOut([j]) && ',' in k.behind && SearchableField(field)
    requires k.key != field && k.value == Str(field) && j.key != field && ':' !in j.key
    ensures ExtractJsonField(Object("{", [k, j]), field) == ReadOf(j) && Lookup([k, j], field) == ""
  {
    var ms := [k, j];
    LaidOutPair(k, j);
    ExtractIsHit("{", ms, field);
    assert ms[1..] == [j] && [j][1..] == [];
    assert Lookup([j], field) == Lookup([], field) == "";
  }

  lemma PlainMember(key: string, t: string, behind: string)
    requires QuoteFree(key) && QuoteFree(t) && Between(behind)
    ensures LaidOut([Member(key, Str(t), "", " ", behind)])
  {
    assert Between("") && Between(" ");
  }

  /** A value that equals the field misleads the search: in `{"kind": "name", "size": "9"}` it finds 9 for name. */
  lemma ValueMisleads()
    ensures var ms := [Member("kind", Str("name"), "", " ", ", "), Member("size", Str("9"), "", " ", "}")];
            ExtractJsonField(Object("{", ms), "name") == "9" && Lookup(ms, "name") == ""
  {
    PlainMember("kind", "name", ", ");
    PlainMember("size", "9", "}");
    NextValueTaken("name", Member("kind", Str("name"), "", " ", ", "), Member("size", Str("9"), "", " ", "}"));
  }

  lemma UnskippedBlanks(field: string, m: Member)
    requires LaidOut([m]) && SearchableField(field) && m.key == field && !All(JsonBlank, m.after)
    ensures ExtractJsonField(Object("{", [m]), field) == "" && Lookup([m], field) == StringOf(m)
  {
    ExtractIsHit("{", [m], field);
  }

  /** A carriage return behind the colon hides the value: in `{"name":\r"x"}` no name is found. */
  lemma CarriageReturnHides()
    ensures var ms := [Member("name", Str("x"), "", "\r", "}")];
            ExtractJsonField(Object("{", ms), "name") == "" && Lookup(ms, "name") == "x"
  {
    assert !Is(JsonBlank, "\r"[0]);
    UnskippedBlanks("name", Member("name", Str("x"), "", "\r", "}"));
  }
}
