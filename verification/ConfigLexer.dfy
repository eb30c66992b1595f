/** The tokenizer of the configuration language (`NginxConfigParser::ParseToken`). */
module ConfigLexer {
  import opened Text
  import opened Streams

  datatype TokenType = Start | Normal | StartBlock | EndBlock | Comment | StatementEnd | Eof | Error

  datatype LexerState = InitialWhitespace | SingleQuote | DoubleQuote | InComment | InNormal

  predicate IsQuote(c: char) {
    c == '\'' || c == '"'
  }

  predicate StartsBare(c: char) {
    Is(Bare, c) && c != '\r' && c != '#'
  }

  predicate IsBareToken(w: string) {
    w != "" && StartsBare(w[0]) && All(Bare, w)
  }

  predicate IsQuotedToken(w: string) {
    |w| >= 2 && IsQuote(w[0]) && w[|w| - 1] == w[0] && forall i :: 0 < i < |w| - 1 ==> w[i] != w[0]
  }

  /** The texts that can be a token of a statement. */
  predicate IsToken(w: string) {
    IsBareToken(w) || IsQuotedToken(w)
  }

  /** A lexeme of a text: its kind, its first and last-but-one index, and where the lexer goes on. */
  datatype Lexeme = Lexeme(kind: TokenType, from: nat, end: nat, next: nat)

  function LexemeAt(s: string, from: nat): (l: Lexeme)
    requires from <= |s| && (from < |s| ==> !Is(Blank, s[from]))
    ensures from == l.from <= l.end <= l.next <= |s|
    ensures l.kind != Eof ==> from < l.next
  {
    if from == |s| then Lexeme(Eof, from, from, from)
    else if s[from] == '{' then Lexeme(StartBlock, from, from + 1, from + 1)
    else if s[from] == '}' then Lexeme(EndBlock, from, from + 1, from + 1)
    else if s[from] == ';' then Lexeme(StatementEnd, from, from + 1, from + 1)
    else if s[from] == '#' then
      var end := Span(s, from + 1, LineText);
      if end == |s| then Lexeme(Eof, from, end, end) else Lexeme(Comment, from, end, end + 1)
    else if IsQuote(s[from]) then
      match FindChar(s, s[from], from + 1)
      case None => Lexeme(Error, from, |s|, |s|)
      case Some(j) => Lexeme(Normal, from, j + 1, j + 1)
    else
      var end := Span(s, from + 1, Bare);
      Lexeme(if end == |s| then Eof else if IsQuote(s[end]) then Error else Normal, from, end, end)
  }

  /** The lexeme at or behind `i`, by longest match. A bare token needs a delimiter
      behind it: cut off by the end of the text it is not reported at all. */
  function NextLexeme(s: string, i: nat): (l: Lexeme)
    requires i <= |s|
    ensures i <= l.from <= l.end <= l.next <= |s|
    ensures l.kind != Eof ==> i < l.next
  {
    LexemeAt(s, Span(s, i, Blank))
  }

  // The lexemes, told by the characters of the text alone.

  predicate IsWhite(c: char) {
    c == ' ' || c == '\t' || c == '\n' || c == '\r'
  }

  predicate EndsBare(c: char) {
    c == ' ' || c == '\t' || c == '\n' || c == ';' || c == '{' || c == '}' || c == '\'' || c == '"'
  }

  /** From `#` up to the end of the line, or of the text. */
  predicate IsCommentLexeme(s: string, l: Lexeme)
    requires l.from < l.end <= l.next <= |s|
  {
    && (forall x :: l.from < x < l.end ==> s[x] != '\n' && s[x] != '\r')
    && if l.kind == Comment then l.end < |s| && l.next == l.end + 1 && (s[l.end] == '\n' || s[l.end] == '\r')
       else l.kind == Eof && l.end == l.next == |s|
  }

  /** From a quotation mark up to and with the next one of its kind, or in error up to the end of the text. */
  predicate IsQuotedLexeme(s: string, l: Lexeme)
    requires l.from < l.end <= l.next <= |s|
  {
    && (forall x :: l.from < x < l.end - 1 ==> s[x] != s[l.from])
    && l.next == l.end
    && if l.kind == Normal then l.from + 1 < l.end && s[l.end - 1] == s[l.from]
       else l.kind == Error && l.end == |s| && (l.from + 1 < l.end ==> s[l.end - 1] != s[l.from])
  }

  /** Up to what ends it, where quotation marks are an error; cut off by the end of the text it is none. */
  predicate IsBareLexeme(s: string, l: Lexeme)
    requires l.from < l.end <= l.next <= |s|
  {
    && (forall x :: l.from < x < l.end ==> !EndsBare(s[x]))
    && l.next == l.end && (l.end < |s| ==> EndsBare(s[l.end]))
    && l.kind == if l.end == |s| then Eof else if s[l.end] == '\'' || s[l.end] == '"' then Error else Normal
  }

  predicate IsLexeme(s: string, i: nat, l: Lexeme) {
    && i <= l.from <= l.end <= l.next <= |s|
    && (forall x :: i <= x < l.from ==> IsWhite(s[x]))
    && if l.from == |s| then l.kind == Eof
       else
         && !IsWhite(s[l.from]) && l.from < l.end
         && if s[l.from] == '{' then l.kind == StartBlock && l.end == l.next == l.from + 1
            else if s[l.from] == '}' then l.kind == EndBlock && l.end == l.next == l.from + 1
            else if s[l.from] == ';' then l.kind == StatementEnd && l.end == l.next == l.from + 1
            else if s[l.from] == '#' then IsCommentLexeme(s, l)
            else if s[l.from] == '\'' || s[l.from] == '"' then IsQuotedLexeme(s, l)
            else IsBareLexeme(s, l)
  }

  lemma CommentExactly(s: string, l: Lexeme)
    requires l.from < |s| && s[l.from] == '#'
    ensures LexemeAt(s, l.from) == l <==> l.from < l.end <= l.next <= |s| && IsCommentLexeme(s, l)
  {
    if l.from < l.end <= l.next <= |s| && IsCommentLexeme(s, l) {
      SpanUnique(s, l.from + 1, LineText, l.end);
    }
  }

  lemma QuotedExactly(s: string, l: Lexeme)
    requires l.from < |s| && (s[l.from] == '\'' || s[l.from] == '"')
    ensures LexemeAt(s, l.from) == l <==> l.from < l.end <= l.next <= |s| && IsQuotedLexeme(s, l)
  {
    if l.from < l.end <= l.next <= |s| && IsQuotedLexeme(s, l) && l.kind == Normal {
      FindCharUnique(s, s[l.from], l.from + 1, l.end - 1);
    }
  }

  lemma BareExactly(s: string, l: Lexeme)
    requires l.from < |s| && !IsWhite(s[l.from]) && s[l.from] !in ['{', '}', ';', '#', '\'', '"']
    ensures LexemeAt(s, l.from) == l <==> l.from < l.end <= l.next <= |s| && IsBareLexeme(s, l)
  {
    if l.from < l.end <= l.next <= |s| && IsBareLexeme(s, l) {
      SpanUnique(s, l.from + 1, Bare, l.end);
    }
  }

  lemma LexemeAtExactly(s: string, l: Lexeme)
    requires l.from <= |s| && (l.from < |s| ==> !IsWhite(s[l.from]))
    ensures LexemeAt(s, l.from) == l <==> IsLexeme(s, l.from, l)
  {
    if l.from < |s| {
      if s[l.from] == '#' {
        CommentExactly(s, l);
      } else if s[l.from] == '\'' || s[l.from] == '"' {
        QuotedExactly(s, l);
      } else if s[l.from] !in ['{', '}', ';'] {
        BareExactly(s, l);
      }
    }
  }

  /** The lexer finds a lexeme just where the characters of the text make one. */
  lemma NextLexemeExactly(s: string, i: nat, l: Lexeme)
    requires i <= |s|
    ensures NextLexeme(s, i) == l <==> IsLexeme(s, i, l)
  {
    var from := Span(s, i, Blank);
    if IsLexeme(s, i, l) {
      SpanUnique(s, i, Blank, l.from);
    }
    if l.from == from {
      LexemeAtExactly(s, l);
    }
  }

  function ValueOf(s: string, l: Lexeme): string
    requires l.from <= l.end <= |s|
  {
    s[l.from..l.end]
  }

  /** What the automaton knows of the characters `text[from..end]` it has kept. */
  predicate Kept(state: LexerState, text: string, from: nat, end: nat) {
    from <= end <= |text| && (state == InitialWhitespace <==> from == end) &&
    match state
    case InitialWhitespace => true
    case SingleQuote => text[from] == '\'' && forall i :: from < i < end ==> text[i] != '\''
    case DoubleQuote => text[from] == '"' && forall i :: from < i < end ==> text[i] != '"'
    case InComment => text[from] == '#' && forall i :: from < i < end ==> Is(LineText, text[i])
    case InNormal => StartsBare(text[from]) && forall i :: from < i < end ==> Is(Bare, text[i])
  }

  /** The state of the automaton that has kept `text[from..end]`; None once it has returned. */
  function Reached(text: string, from: nat, end: nat): Option<LexerState>
    requires from <= end <= |text|
    decreases end
  {
    if from == end then Some(InitialWhitespace)
    else
      var c := text[end - 1];
      match Reached(text, from, end - 1)
      case None => None
      case Some(InitialWhitespace) =>
        if c == '#' then Some(InComment)
        else if c == '"' then Some(DoubleQuote)
        else if c == '\'' then Some(SingleQuote)
        else if StartsBare(c) then Some(InNormal)
        else None
      case Some(SingleQuote) => if c == '\'' then None else Some(SingleQuote)
      case Some(DoubleQuote) => if c == '"' then None else Some(DoubleQuote)
      case Some(InComment) => if Is(LineText, c) then Some(InComment) else None
      case Some(InNormal) => if Is(Bare, c) then Some(InNormal) else None
  }

  lemma ReachedKept(text: string, from: nat, end: nat)
    requires from <= end <= |text| && Reached(text, from, end).Some?
    ensures Kept(Reached(text, from, end).value, text, from, end)
  {
    if from < end {
      ReachedKept(text, from, end - 1);
    }
  }

  predicate Skipped(text: string, start: nat, from: nat) {
    start <= from <= |text| && forall i :: start <= i < from ==> Is(Blank, text[i])
  }

  /** The lexeme is decided by the state and the next character. */
  lemma Decided(state: LexerState, text: string, start: nat, from: nat, end: nat)
    requires Skipped(text, start, from) && from <= end <= |text| && Reached(text, from, end) == Some(state)
    ensures state == InitialWhitespace <==> from == end
    ensures var l := NextLexeme(text, start);
            if end == |text| then
              l == Lexeme(if state.SingleQuote? || state.DoubleQuote? then Error else Eof, from, end, end)
            else
              match state
              case InitialWhitespace =>
                && (text[end] == '{' ==> l == Lexeme(StartBlock, from, end + 1, end + 1))
                && (text[end] == '}' ==> l == Lexeme(EndBlock, from, end + 1, end + 1))
                && (text[end] == ';' ==> l == Lexeme(StatementEnd, from, end + 1, end + 1))
              case SingleQuote => text[end] == '\'' ==> l == Lexeme(Normal, from, end + 1, end + 1)
              case DoubleQuote => text[end] == '"' ==> l == Lexeme(Normal, from, end + 1, end + 1)
              case InComment => !Is(LineText, text[end]) ==> l == Lexeme(Comment, from, end, end + 1)
              case InNormal =>
                !Is(Bare, text[end]) ==> l == Lexeme(if IsQuote(text[end]) then Error else Normal, from, end, end)
  {
    ReachedKept(text, from, end);
  }

  lemma SliceGrows(text: string, from: nat, end: nat)
    requires from <= end < |text|
    ensures text[from..end + 1] == text[from..end] + [text[end]]
    ensures from == end ==> text[from..end + 1] == [text[end]]
  {}

  /** What the first character that is not skipped begins: a token of one character, or a longer one. */
  datatype Beginning = Whole(kind: TokenType) | Begins(state: LexerState) | Blanks

  function BeginningOf(c: char): Beginning {
    match c
    case '{' => Whole(StartBlock)
    case '}' => Whole(EndBlock)
    case '#' => Begins(InComment)
    case '"' => Begins(DoubleQuote)
    case '\'' => Begins(SingleQuote)
    case ';' => Whole(StatementEnd)
    case _ => if c == ' ' || c == '\t' || c == '\n' || c == '\r' then Blanks else Begins(InNormal)
  }

  /** The kind and text of the lexeme at `start`, and where the lexer goes on behind it. */
  predicate Found(text: string, start: nat, kind: TokenType, value: string, next: nat)
    requires start <= |text|
  {
    var l := NextLexeme(text, start);
    kind == l.kind && value == ValueOf(text, l) && next == l.next
  }

  lemma FoundWhole(text: string, start: nat, from: nat, c: char)
    requires Skipped(text, start, from) && from < |text| && c == text[from]
    ensures match BeginningOf(c)
            case Whole(kind) => Found(text, start, kind, [c], from + 1)
            case Begins(state) => Reached(text, from, from + 1) == Some(state)
            case Blanks => Skipped(text, start, from + 1)
  {
    Decided(InitialWhitespace, text, start, from, from);
    assert text[from..from + 1] == [c];
  }

  /** A character that goes on with the token, or the one behind it. */
  predicate GoesOn(state: LexerState, c: char) {
    match state
    case InitialWhitespace => false
    case SingleQuote => c != '\''
    case DoubleQuote => c != '"'
    case InComment => Is(LineText, c)
    case InNormal => Is(Bare, c)
  }

  lemma FoundLonger(state: LexerState, text: string, start: nat, from: nat, end: nat)
    requires Skipped(text, start, from) && from < end < |text| && Reached(text, from, end) == Some(state)
    ensures GoesOn(state, text[end]) ==> Reached(text, from, end + 1) == Some(state)
    ensures !GoesOn(state, text[end]) ==>
              match state
              case InitialWhitespace => false
              case InComment => Found(text, start, Comment, text[from..end], end + 1)
              case InNormal => Found(text, start, if IsQuote(text[end]) then Error else Normal, text[from..end], end)
              case _ => Found(text, start, Normal, text[from..end] + [text[end]], end + 1)
  {
    Decided(state, text, start, from, end);
    SliceGrows(text, from, end);
  }

  lemma FoundEnd(state: LexerState, text: string, start: nat, from: nat)
    requires Skipped(text, start, from) && Reached(text, from, |text|) == Some(state)
    ensures Found(text, start, if state.SingleQuote? || state.DoubleQuote? then Error else Eof, text[from..], |text|)
  {
    Decided(state, text, start, from, |text|);
  }

  /** `config_parser.cc:127-138`: a bare token ends in front of a delimiter, which is put back. */
  method EndBare(input: InputStream, c: char) returns (ended: Option<TokenType>)
    requires input.Valid() && input.Good() && input.pos > 0 && input.data[input.pos - 1] == c
    modifies input
    ensures input.Valid() && input.Good()
    ensures ended == if GoesOn(InNormal, c) then None else Some(if IsQuote(c) then Error else Normal)
    ensures input.pos == if ended.Some? then old(input.pos) - 1 else old(input.pos)
  {
    if c == ' ' || c == '\t' || c == '\n' || c == '\t' || c == ';' || c == '{' || c == '}' {
      input.Unget();
      return Some(Normal);
    }
    if c == '\'' || c == '"' {
      input.Unget();
      return Some(Error);
    }
    return None;
  }

  /** The five-state loop with one character of pushback finds exactly that lexeme. A stream that
      is not good has no more of them. */
  method ParseToken(input: InputStream) returns (kind: TokenType, value: string)
    requires input.Valid()
    modifies input
    ensures input.Valid()
    ensures Found(input.data, old(input.Here()), kind, value, input.Here())
    ensures kind != Eof && kind != Error ==> input.Good()
  {
    var state := InitialWhitespace;
    value := "";
    ghost var text, start := input.data, input.Here();
    ghost var from: nat := start;   // where the token begins
    while input.Good()
      invariant input.Valid() && Skipped(text, start, from) && from <= input.Here()
      invariant Reached(text, from, input.Here()) == Some(state)
      invariant value == text[from..input.Here()]
      decreases |text| - input.pos, input.Good()
    {
      ghost var end := input.pos;
      var c := input.Get();
      if !input.Good() {
        break;
      }
      SliceGrows(text, from, end);
      if state == InitialWhitespace {
        FoundWhole(text, start, from, c);
        match BeginningOf(c) {
          case Whole(tokenType) =>
            return tokenType, [c];
          case Begins(next) =>
            value, state := value + [c], next;
          case Blanks =>
            from := input.pos;
        }
        continue;
      }
      FoundLonger(state, text, start, from, end);
      match state {
        case SingleQuote =>
          value := value + [c];
          if c == '\'' {
            return Normal, value;
          }
        case DoubleQuote =>
          value := value + [c];
          if c == '"' {
            return Normal, value;
          }
        case InComment =>
          if c == '\n' || c == '\r' {
            return Comment, value;
          }
          value := value + [c];
        case InNormal =>
          var ended := EndBare(input, c);
          if ended.Some? {
            return ended.value, value;
          }
          value := value + [c];
      }
    }
    FoundEnd(state, text, start, from);
    if state == SingleQuote || state == DoubleQuote {
      return Error, value;
    }
    return Eof, value;
  }
}
