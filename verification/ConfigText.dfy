/** From text to configuration tree and back: the token stream of a text, the
    printer `ToString`, and the laws that join it to the parser. */
module ConfigText {
  import opened Text
  import opened ConfigLexer
  import opened ConfigGrammar

  /** The comment-free tokens up to the end of the text (`clean`) or the first lexical error. */
  datatype TokenStream = TokenStream(tokens: seq<Token>, clean: bool)

  function Prepend(ts: seq<Token>, stream: TokenStream): TokenStream {
    stream.(tokens := ts + stream.tokens)
  }

  function Tokens(s: string, i: nat): TokenStream
    requires i <= |s|
    decreases |s| - i
  {
    var l := NextLexeme(s, i);
    match l.kind
    case Eof => TokenStream([], true)
    case Comment => Tokens(s, l.next)
    case Normal => Prepend([Word(ValueOf(s, l))], Tokens(s, l.next))
    case StatementEnd => Prepend([Semicolon], Tokens(s, l.next))
    case StartBlock => Prepend([OpenBrace], Tokens(s, l.next))
    case EndBlock => Prepend([CloseBrace], Tokens(s, l.next))
    case _ => TokenStream([], false)
  }

  /** The outcome of the machine in state `z` on the rest of the tokens. */
  function Outcome(z: Zipper, stream: TokenStream): Option<Config> {
    if stream.clean then Finish(Run(z, stream.tokens)) else None
  }

  function ParseFrom(s: string, i: nat): Option<Config>
    requires i <= |s|
  {
    Outcome(EMPTY, Tokens(s, i))
  }

  /** What `Parse` makes of a text: a tree, or None for a rejection. */
  function ParseText(s: string): Option<Config> {
    ParseFrom(s, 0)
  }

  /** `Parse` accepts exactly the texts whose token stream is derived by the grammar. */
  lemma ParseIsGrammar(s: string, c: Config)
    ensures ParseText(s) == Some(c) <==>
            Tokens(s, 0).clean && Derivation(c) && Yield(c) == Tokens(s, 0).tokens
  {
    MachineIsGrammar(Tokens(s, 0).tokens, c);
  }

  // The same by the characters of the text.

  function TokensOf(s: string, l: Lexeme): seq<Token>
    requires l.from <= l.end <= |s|
  {
    match l.kind
    case Normal => [Word(ValueOf(s, l))]
    case StatementEnd => [Semicolon]
    case StartBlock => [OpenBrace]
    case EndBlock => [CloseBrace]
    case _ => []
  }

  /** The lexemes of a text from `i` on, up to the end of the text or an error. */
  predicate AreLexemes(s: string, i: nat, ls: seq<Lexeme>)
    decreases |ls|
  {
    && ls != [] && IsLexeme(s, i, ls[0])
    && if |ls| == 1 then ls[0].kind in {Eof, Error}
       else ls[0].kind in {Normal, StatementEnd, StartBlock, EndBlock, Comment} && AreLexemes(s, ls[0].next, ls[1..])
  }

  function TokensOfAll(s: string, i: nat, ls: seq<Lexeme>): seq<Token>
    requires AreLexemes(s, i, ls)
    decreases |ls|
  {
    if |ls| == 1 then [] else TokensOf(s, ls[0]) + TokensOfAll(s, ls[0].next, ls[1..])
  }

  lemma {:induction false} EveryTextHasLexemes(s: string, i: nat) returns (ls: seq<Lexeme>)
    requires i <= |s|
    ensures AreLexemes(s, i, ls)
    decreases |s| - i
  {
    var l := NextLexeme(s, i);
    NextLexemeExactly(s, i, l);
    ls := [l];
    if l.kind != Eof && l.kind != Error {
      var more := EveryTextHasLexemes(s, l.next);
      assert ([l] + more)[1..] == more;
      ls := [l] + more;
    }
  }

  lemma OneLexeme(s: string, i: nat, l: Lexeme)
    requires i <= |s| && l == NextLexeme(s, i) && l.kind in {Normal, StatementEnd, StartBlock, EndBlock, Comment}
    ensures Tokens(s, i) == Prepend(TokensOf(s, l), Tokens(s, l.next))
  {
    if l.kind == Comment {
      assert [] + Tokens(s, l.next).tokens == Tokens(s, l.next).tokens;
    }
  }

  lemma LastOf(ls: seq<Lexeme>)
    requires |ls| > 1
    ensures ls[1..][|ls[1..]| - 1] == ls[|ls| - 1]
  {}

  lemma {:induction false} LexemesAreTokens(s: string, i: nat, ls: seq<Lexeme>)
    requires AreLexemes(s, i, ls)
    ensures i <= |s| && Tokens(s, i) == TokenStream(TokensOfAll(s, i, ls), ls[|ls| - 1].kind == Eof)
    decreases |ls|
  {
    NextLexemeExactly(s, i, ls[0]);
    if |ls| > 1 {
      OneLexeme(s, i, ls[0]);
      LastOf(ls);
      LexemesAreTokens(s, ls[0].next, ls[1..]);
    }
  }

  /** `Parse` accepts just the texts that are cut up without an error, into comments and tokens that
      the grammar derives. */
  lemma ParseExactly(s: string, ls: seq<Lexeme>, c: Config)
    requires AreLexemes(s, 0, ls)
    ensures ParseText(s) == Some(c) <==>
            ls[|ls| - 1].kind == Eof && Derivation(c) && Yield(c) == TokensOfAll(s, 0, ls)
  {
    LexemesAreTokens(s, 0, ls);
    ParseIsGrammar(s, c);
  }

  // The printer.

  function Indent(depth: int): string {
    if depth <= 0 then "" else "  " + Indent(depth - 1)
  }

  function PrintStatement(st: Statement, depth: int): string {
    Indent(depth) + Join(st.tokens, " ") +
    (match st
     case Simple(_) => ";"
     case Block(_, body) => " {\n" + PrintConfig(body, depth + 1) + Indent(depth) + "}") +
    "\n"
  }

  function PrintConfig(c: Config, depth: int): string {
    if c == [] then "" else PrintStatement(c[0], depth) + PrintConfig(c[1..], depth)
  }

  function Blanks(n: nat): string {
    seq(n, _ => ' ')
  }

  lemma {:induction false} IndentIsBlanks(depth: nat)
    ensures Indent(depth) == Blanks(2 * depth)
    decreases depth
  {
    if depth > 0 {
      IndentIsBlanks(depth - 1);
    }
  }

  /** Two blanks for each open block, the tokens between blanks, and a semicolon or a braced block. */
  lemma PrintedLines(ws: seq<string>, body: Config, depth: nat)
    ensures PrintStatement(Simple(ws), depth) == Blanks(2 * depth) + Join(ws, " ") + ";\n"
    ensures PrintStatement(Block(ws, body), depth) ==
            Blanks(2 * depth) + Join(ws, " ") + " {\n" + PrintConfig(body, depth + 1) + Blanks(2 * depth) + "}\n"
  {
    IndentIsBlanks(depth);
    var head, inner, indent := Indent(depth) + Join(ws, " "), PrintConfig(body, depth + 1), Indent(depth);
    assert head + ";" + "\n" == head + ";\n";
    assert head + (" {\n" + inner + indent + "}") + "\n" == head + " {\n" + inner + indent + "}\n";
  }

  lemma PrintSnoc(c: Config, st: Statement, depth: int)
    ensures PrintConfig(c + [st], depth) == PrintConfig(c, depth) + PrintStatement(st, depth)
  {
    if c == [] {
      assert c + [st] == [st] && [st][1..] == [];
    } else {
      assert (c + [st])[1..] == c[1..] + [st];
      PrintSnoc(c[1..], st, depth);
    }
  }

  /** The trees the printer can write down: every statement has a token, and
      every token is one the lexer can read. */
  ghost predicate Printable(c: Config) {
    forall st :: st in c ==>
      && st.tokens != []
      && (forall w :: w in st.tokens ==> IsToken(w))
      && (st.Block? ==> Printable(st.body))
  }

  lemma OccursSplit(s: string, a: string, b: string, i: nat)
    requires OccursAt(s, a + b, i)
    ensures OccursAt(s, a, i) && OccursAt(s, b, i + |a|)
  {
    var n := i + |a| + |b|;
    assert s[i..i + |a|] == s[i..n][..|a|] == (a + b)[..|a|];
    assert s[i + |a|..n] == s[i..n][|a|..] == (a + b)[|a|..];
  }

  lemma OccursChar(s: string, p: string, i: nat, k: nat)
    requires OccursAt(s, p, i) && k < |p|
    ensures s[i + k] == p[k]
  {
    assert s[i..i + |p|][k] == p[k];
  }

  lemma Chain(x: TokenStream, a: seq<Token>, y: TokenStream, b: seq<Token>, z: TokenStream)
    requires x == Prepend(a, y) && y == Prepend(b, z)
    ensures x == Prepend(a + b, z)
  {
    assert a + (b + z.tokens) == (a + b) + z.tokens;
  }

  /** `table` lists what the lexer reads from each index of `s`. */
  ghost predicate Tabulates(table: seq<TokenStream>, s: string) {
    |table| == |s| + 1 && forall i {:trigger Tokens(s, i)} :: 0 <= i <= |s| ==> table[i] == Tokens(s, i)
  }

  lemma Tabulate(s: string) returns (table: seq<TokenStream>)
    ensures Tabulates(table, s)
  {
    table := seq(|s| + 1, i requires 0 <= i <= |s| => Tokens(s, i));
  }

  function OutcomeAfter(z: Zipper, t: Token, stream: TokenStream): Option<Config> {
    match Step(z, t)
    case None => None
    case Some(z') => Outcome(z', stream)
  }

  /** One round of the parser's loop. */
  lemma OutcomeStep(z: Zipper, table: seq<TokenStream>, s: string, i: nat)
    requires i <= |s| && Tabulates(table, s)
    ensures var l := NextLexeme(s, i);
            Outcome(z, table[i]) ==
            match l.kind
            case Eof => Finish(Some(z))
            case Comment => Outcome(z, table[l.next])
            case Normal => OutcomeAfter(z, Word(ValueOf(s, l)), table[l.next])
            case StatementEnd => OutcomeAfter(z, Semicolon, table[l.next])
            case StartBlock => OutcomeAfter(z, OpenBrace, table[l.next])
            case EndBlock => OutcomeAfter(z, CloseBrace, table[l.next])
            case _ => None
  {
    assert table[i] == Tokens(s, i) && table[NextLexeme(s, i).next] == Tokens(s, NextLexeme(s, i).next);
  }

  lemma OutcomeStart(table: seq<TokenStream>, s: string, i: nat) returns (result: Option<Config>)
    requires i <= |s| && Tabulates(table, s)
    ensures result == ParseFrom(s, i) == Outcome(EMPTY, table[i])
  {
    result := ParseFrom(s, i);
  }

  /** Wherever `p` occurs, in whatever text, the lexer reads `ts` from it. */
  ghost predicate Reads(p: string, ts: seq<Token>) {
    forall s: string, i: nat, table: seq<TokenStream> {:trigger OccursAt(s, p, i), Tabulates(table, s)} ::
      OccursAt(s, p, i) && Tabulates(table, s) ==> table[i] == Prepend(ts, table[i + |p|])
  }

  lemma ReadsConcat(a: string, ta: seq<Token>, b: string, tb: seq<Token>)
    requires Reads(a, ta) && Reads(b, tb)
    ensures Reads(a + b, ta + tb)
  {
    forall s: string, i: nat, table: seq<TokenStream> | OccursAt(s, a + b, i) && Tabulates(table, s)
      ensures table[i] == Prepend(ta + tb, table[i + |a + b|])
    {
      OccursSplit(s, a, b, i);
      Chain(table[i], ta, table[i + |a|], tb, table[i + |a| + |b|]);
    }
  }

  // The same for the single lexemes.

  lemma TokensBehindBlanks(s: string, i: nat, j: nat)
    requires i <= |s| && j <= |s| && Span(s, i, Blank) == Span(s, j, Blank)
    ensures Tokens(s, i) == Tokens(s, j)
  {}

  lemma BlanksInTable(table: seq<TokenStream>, s: string, i: nat, j: nat)
    requires Tabulates(table, s) && i <= j <= |s| && forall x :: i <= x < j ==> Is(Blank, s[x])
    ensures table[i] == Prepend([], table[j])
  {
    SpanUnique(s, i, Blank, Span(s, j, Blank));
    TokensBehindBlanks(s, i, j);
    assert [] + table[j].tokens == table[j].tokens;
  }

  lemma LexemeInTable(table: seq<TokenStream>, s: string, i: nat, t: Token)
    requires Tabulates(table, s) && i <= |s|
    requires match t
             case Word(w) => NextLexeme(s, i).kind == Normal && ValueOf(s, NextLexeme(s, i)) == w
             case Semicolon => NextLexeme(s, i).kind == StatementEnd
             case OpenBrace => NextLexeme(s, i).kind == StartBlock
             case CloseBrace => NextLexeme(s, i).kind == EndBlock
    ensures table[i] == Prepend([t], table[NextLexeme(s, i).next])
  {
    assert Tokens(s, i) == Prepend([t], Tokens(s, NextLexeme(s, i).next));
  }

  lemma ReadsBlanks(p: string)
    requires All(Blank, p)
    ensures Reads(p, [])
  {
    forall s: string, i: nat, table: seq<TokenStream> | OccursAt(s, p, i) && Tabulates(table, s)
      ensures table[i] == Prepend([], table[i + |p|])
    {
      forall x | i <= x < i + |p| ensures Is(Blank, s[x]) { OccursChar(s, p, i, x - i); }
      BlanksInTable(table, s, i, i + |p|);
    }
  }

  lemma CommentChars(p: string, x: string, e: char)
    requires p == "#" + x + [e]
    ensures |p| == |x| + 2 && p[0] == '#' && p[|x| + 1] == e && forall k :: 0 < k <= |x| ==> p[k] == x[k - 1]
  {}

  lemma CommentLexeme(s: string, p: string, i: nat, n: nat)
    requires OccursAt(s, p, i) && |p| == n + 2 && p[0] == '#' && (p[n + 1] == '\n' || p[n + 1] == '\r')
    requires forall k :: 0 < k <= n ==> p[k] != '\n' && p[k] != '\r'
    ensures NextLexeme(s, i) == Lexeme(Comment, i, i + n + 1, i + n + 2)
  {
    OccursChar(s, p, i, 0);
    OccursChar(s, p, i, n + 1);
    forall k | i < k < i + n + 1 ensures s[k] != '\n' && s[k] != '\r' { OccursChar(s, p, i, k - i); }
    NextLexemeExactly(s, i, Lexeme(Comment, i, i + n + 1, i + n + 2));
  }

  lemma CommentInTable(table: seq<TokenStream>, s: string, i: nat, l: Lexeme)
    requires i <= |s| && NextLexeme(s, i) == l && l.kind == Comment && Tabulates(table, s)
    ensures table[i] == Prepend([], table[l.next])
  {
    assert Tokens(s, i) == Tokens(s, l.next);
    assert [] + table[i].tokens == table[i].tokens;
  }

  /** A comment reaches up to the next line feed or carriage return, whatever stands in it, and is no token. */
  lemma ReadsComment(x: string, e: char)
    requires (forall k :: 0 <= k < |x| ==> x[k] != '\n' && x[k] != '\r') && (e == '\n' || e == '\r')
    ensures Reads("#" + x + [e], [])
  {
    var p := "#" + x + [e];
    CommentChars(p, x, e);
    forall s: string, i: nat, table: seq<TokenStream> | OccursAt(s, p, i) && Tabulates(table, s)
      ensures table[i] == Prepend([], table[i + |p|])
    {
      CommentLexeme(s, p, i, |x|);
      CommentInTable(table, s, i, NextLexeme(s, i));
    }
  }

  lemma ReadsPunctuation(c: char, t: Token)
    requires (c == '{' && t == OpenBrace) || (c == '}' && t == CloseBrace) || (c == ';' && t == Semicolon)
    ensures Reads([c], [t])
  {
    forall s: string, i: nat, table: seq<TokenStream> | OccursAt(s, [c], i) && Tabulates(table, s)
      ensures table[i] == Prepend([t], table[i + 1])
    {
      OccursChar(s, [c], i, 0);
      LexemeInTable(table, s, i, t);
    }
  }

  lemma LexemeOfToken(s: string, w: string, i: nat)
    requires OccursAt(s, w, i) && IsToken(w)
    requires i + |w| < |s| && s[i + |w|] in " ;"
    ensures NextLexeme(s, i) == Lexeme(Normal, i, i + |w|, i + |w|) && ValueOf(s, NextLexeme(s, i)) == w
  {
    var end := i + |w|;
    forall x | i <= x < end ensures s[x] == w[x - i] { OccursChar(s, w, i, x - i); }
    if IsBareToken(w) {
      SpanUnique(s, i + 1, Bare, end);
    } else {
      FindCharUnique(s, w[0], i + 1, end - 1);
    }
  }

  lemma TokenInTable(table: seq<TokenStream>, s: string, w: string, delimiter: char, i: nat)
    requires OccursAt(s, w + [delimiter], i) && Tabulates(table, s) && IsToken(w) && delimiter in " ;"
    ensures table[i] == Prepend([Word(w)], table[i + |w|])
    ensures OccursAt(s, [delimiter], i + |w|)
  {
    OccursSplit(s, w, [delimiter], i);
    OccursChar(s, [delimiter], i + |w|, 0);
    LexemeOfToken(s, w, i);
    LexemeInTable(table, s, i, Word(w));
  }

  /** A token is read back when a blank or a semicolon follows it. */
  lemma ReadsToken(w: string, delimiter: char, ts: seq<Token>)
    requires IsToken(w)
    requires (delimiter == ' ' && ts == []) || (delimiter == ';' && ts == [Semicolon])
    ensures Reads(w + [delimiter], [Word(w)] + ts)
  {
    if delimiter == ' ' { ReadsBlanks(" "); } else { ReadsPunctuation(';', Semicolon); }
    forall s: string, i: nat, table: seq<TokenStream> | OccursAt(s, w + [delimiter], i) && Tabulates(table, s)
      ensures table[i] == Prepend([Word(w)] + ts, table[i + |w + [delimiter]|])
    {
      TokenInTable(table, s, w, delimiter, i);
      Chain(table[i], [Word(w)], table[i + |w|], ts, table[i + |w| + 1]);
    }
  }

  lemma {:induction false} ReadsWords(ws: seq<string>, delimiter: char, ts: seq<Token>)
    requires ws != [] && forall w :: w in ws ==> IsToken(w)
    requires (delimiter == ' ' && ts == []) || (delimiter == ';' && ts == [Semicolon])
    ensures Reads(Join(ws, " ") + [delimiter], Words(ws) + ts)
    decreases |ws|
  {
    assert ws == [ws[0]] + ws[1..];
    if |ws| == 1 {
      assert Words(ws) == [Word(ws[0])];
      ReadsToken(ws[0], delimiter, ts);
    } else {
      var tail := Join(ws[1..], " ") + [delimiter];
      ReadsToken(ws[0], ' ', []);
      ReadsWords(ws[1..], delimiter, ts);
      ReadsConcat(ws[0] + " ", [Word(ws[0])] + [], tail, Words(ws[1..]) + ts);
      assert Join(ws, " ") + [delimiter] == (ws[0] + " ") + tail;
      assert Words(ws) + ts == ([Word(ws[0])] + []) + (Words(ws[1..]) + ts);
    }
  }

  lemma IndentBlank(depth: int)
    ensures All(Blank, Indent(depth))
  {}

  function BracedText(inner: string, indent: string): string {
    ("{" + "\n") + (inner + (indent + ("}" + "\n")))
  }

  lemma RegroupText(indent: string, words: string, inner: string)
    ensures indent + words + (" {\n" + inner + indent + "}") + "\n" ==
            indent + (words + " ") + BracedText(inner, indent)
  {}

  function BracedTokens(body: Config): seq<Token> {
    ([OpenBrace] + []) + (Yield(body) + ([] + ([CloseBrace] + [])))
  }

  lemma BlockPieces(st: Statement, depth: int)
    requires st.Block?
    ensures PrintStatement(st, depth)
         == Indent(depth) + (Join(st.tokens, " ") + " ") + BracedText(PrintConfig(st.body, depth + 1), Indent(depth))
    ensures YieldStatement(st) == [] + (Words(st.tokens) + []) + BracedTokens(st.body)
  {
    RegroupText(Indent(depth), Join(st.tokens, " "), PrintConfig(st.body, depth + 1));
    assert [] + (Words(st.tokens) + []) == Words(st.tokens);
    assert BracedTokens(st.body) == [OpenBrace] + Yield(st.body) + [CloseBrace];
  }

  lemma ReadsBraces(body: Config, inner: string, indent: string)
    requires Reads(inner, Yield(body)) && Reads(indent, []) && Reads("\n", [])
    ensures Reads(BracedText(inner, indent), BracedTokens(body))
  {
    ReadsPunctuation('{', OpenBrace);
    ReadsPunctuation('}', CloseBrace);
    ReadsConcat("{", [OpenBrace], "\n", []);
    ReadsConcat("}", [CloseBrace], "\n", []);
    ReadsConcat(indent, [], "}" + "\n", [CloseBrace] + []);
    ReadsConcat(inner, Yield(body), indent + ("}" + "\n"), [] + ([CloseBrace] + []));
    ReadsConcat("{" + "\n", [OpenBrace] + [], inner + (indent + ("}" + "\n")),
                Yield(body) + ([] + ([CloseBrace] + [])));
  }

  lemma {:induction false} ReadsPrintedStatement(st: Statement, depth: int)
    requires Printable([st])
    ensures Reads(PrintStatement(st, depth), YieldStatement(st))
    decreases st, 1
  {
    assert st in [st];
    var indent, words := Indent(depth), Join(st.tokens, " ");
    IndentBlank(depth);
    ReadsBlanks(indent);
    ReadsBlanks("\n");
    match st {
      case Simple(_) =>
        var head, th := indent + (words + ";"), [] + (Words(st.tokens) + [Semicolon]);
        ReadsWords(st.tokens, ';', [Semicolon]);
        ReadsConcat(indent, [], words + ";", Words(st.tokens) + [Semicolon]);
        ReadsConcat(head, th, "\n", []);
        assert PrintStatement(st, depth) == head + "\n" && YieldStatement(st) == th + [];
      case Block(_, body) =>
        var head, th := indent + (words + " "), [] + (Words(st.tokens) + []);
        ReadsWords(st.tokens, ' ', []);
        ReadsConcat(indent, [], words + " ", Words(st.tokens) + []);
        ReadsPrinted(body, depth + 1);
        ReadsBraces(body, PrintConfig(body, depth + 1), indent);
        ReadsConcat(head, th, BracedText(PrintConfig(body, depth + 1), indent), BracedTokens(body));
        BlockPieces(st, depth);
    }
  }

  /** Lexing printed text gives back the tokens the tree derives, at any depth of indentation. */
  lemma {:induction false} ReadsPrinted(c: Config, depth: int)
    requires Printable(c)
    ensures Reads(PrintConfig(c, depth), Yield(c))
    decreases c, 0
  {
    if c == [] {
      ReadsBlanks("");
    } else {
      ReadsPrintedStatement(c[0], depth);
      ReadsPrinted(c[1..], depth);
      ReadsConcat(PrintStatement(c[0], depth), YieldStatement(c[0]), PrintConfig(c[1..], depth), Yield(c[1..]));
    }
  }

  lemma TokensOfReads(p: string, ts: seq<Token>, s: string, i: nat)
    requires Reads(p, ts) && OccursAt(s, p, i)
    ensures Tokens(s, i) == Prepend(ts, Tokens(s, i + |p|))
  {
    var table := Tabulate(s);
  }

  lemma BareTailIsEof(s: string, w: string, i: nat)
    requires OccursAt(s, w, i) && |s| == i + |w| && IsBareToken(w)
    ensures NextLexeme(s, i) == Lexeme(Eof, i, |s|, |s|)
  {
    forall x | i <= x < |s| ensures s[x] == w[x - i] { OccursChar(s, w, i, x - i); }
    SpanUnique(s, i, Blank, i);
    SpanUnique(s, i + 1, Bare, |s|);
  }

  lemma TokensOfBareTail(s: string, w: string, i: nat)
    requires OccursAt(s, w, i) && |s| == i + |w| && (w == "" || IsBareToken(w))
    ensures Tokens(s, i) == TokenStream([], true)
  {
    if w != "" {
      BareTailIsEof(s, w, i);
    }
  }

  lemma OccursInConcat(a: string, b: string)
    ensures OccursAt(a + b, a, 0) && OccursAt(a + b, b, |a|)
  {}

  lemma TokensOfPrinted(p: string, ts: seq<Token>, tail: string)
    requires Reads(p, ts) && (tail == "" || IsBareToken(tail))
    ensures Tokens(p + tail, 0) == TokenStream(ts, true)
  {
    OccursInConcat(p, tail);
    TokensOfBareTail(p + tail, tail, |p|);
    TokensOfReads(p, ts, p + tail, 0);
    assert ts + [] == ts;
  }

  lemma PrintableIsDerivation(c: Config)
    requires Printable(c)
    ensures Derivation(c)
  {}

  /** Parsing printed text gives back exactly the tree, whatever the depth of indentation.
      A bare word `tail` at the very end of the text is dropped without an error. */
  lemma ParseOfPrinted(c: Config, depth: int, tail: string)
    requires Printable(c) && (tail == "" || IsBareToken(tail))
    ensures ParseText(PrintConfig(c, depth) + tail) == Some(c)
  {
    ReadsPrinted(c, depth);
    TokensOfPrinted(PrintConfig(c, depth), Yield(c), tail);
    PrintableIsDerivation(c);
    ParseIsGrammar(PrintConfig(c, depth) + tail, c);
  }

  lemma PrintableParts(c: Config, d: Config)
    requires Printable(c) && Printable(d)
    ensures Printable(c + d)
  {}

  /** A comment between printed statements changes nothing: it is left out up to the end of its line. */
  lemma CommentIsLeftOut(c: Config, d: Config, x: string, e: char, depth: int)
    requires Printable(c) && Printable(d)
    requires (forall k :: 0 <= k < |x| ==> x[k] != '\n' && x[k] != '\r') && (e == '\n' || e == '\r')
    ensures ParseText(PrintConfig(c, depth) + (("#" + x + [e]) + PrintConfig(d, depth))) == Some(c + d)
  {
    var p, q, comment := PrintConfig(c, depth), PrintConfig(d, depth), "#" + x + [e];
    ReadsPrinted(c, depth);
    ReadsPrinted(d, depth);
    ReadsComment(x, e);
    ReadsConcat(comment, [], q, Yield(d));
    ReadsConcat(p, Yield(c), comment + q, [] + Yield(d));
    TokensOfPrinted(p + (comment + q), Yield(c) + ([] + Yield(d)), "");
    assert p + (comment + q) + "" == p + (comment + q) && [] + Yield(d) == Yield(d);
    YieldAppend(c, d);
    PrintableParts(c, d);
    PrintableIsDerivation(c + d);
    ParseIsGrammar(p + (comment + q), c + d);
  }

  /** The tokens of printable trees, told by their characters. */
  lemma TokensAreThese(w: string)
    ensures IsToken(w) <==>
            || (w != "" && w[0] != '\r' && w[0] != '#' && forall k :: 0 <= k < |w| ==> !EndsBare(w[k]))
            || (|w| >= 2 && (w[0] == '\'' || w[0] == '"') && w[|w| - 1] == w[0]
                && forall k :: 0 < k < |w| - 1 ==> w[k] != w[0])
  {}

  // What the parser builds can be printed.

  ghost predicate Readable(ts: seq<Token>) {
    forall t :: t in ts && t.Word? ==> IsToken(t.text)
  }

  lemma LexemeIsToken(s: string, i: nat)
    requires i <= |s| && NextLexeme(s, i).kind == Normal
    ensures IsToken(ValueOf(s, NextLexeme(s, i)))
  {
    var l := NextLexeme(s, i);
    var w := ValueOf(s, l);
    assert forall x :: 0 <= x < |w| ==> w[x] == s[l.from + x];
    if IsQuote(s[l.from]) {
      assert IsQuotedToken(w);
    } else {
      assert IsBareToken(w);
    }
  }

  lemma {:induction false} TokensReadable(s: string, i: nat)
    requires i <= |s|
    ensures Readable(Tokens(s, i).tokens)
    decreases |s| - i
  {
    var l := NextLexeme(s, i);
    if l.kind != Eof && l.kind != Error && l.kind != Start {
      TokensReadable(s, l.next);
      if l.kind == Normal { LexemeIsToken(s, i); }
    }
  }

  lemma {:induction false} ReadableYield(c: Config)
    requires Derivation(c) && Readable(Yield(c))
    ensures Printable(c)
    decreases c
  {
    if c != [] {
      var st := c[0];
      assert Yield(c) == YieldStatement(st) + Yield(c[1..]);
      ReadableYield(c[1..]);
      forall w | w in st.tokens ensures IsToken(w) {
        var k :| 0 <= k < |st.tokens| && st.tokens[k] == w;
        assert Words(st.tokens)[k] == Word(w);
        assert Word(w) in Words(st.tokens) && Word(w) in YieldStatement(st);
      }
      if st.Block? {
        forall t | t in Yield(st.body) ensures t in Yield(c) {
          assert t in [OpenBrace] + Yield(st.body) + [CloseBrace];
          assert t in YieldStatement(st);
        }
        ReadableYield(st.body);
      }
      assert c == [st] + c[1..];
    }
  }

  /** Every tree the parser builds can be printed: each statement has a first token. */
  lemma ParsedIsPrintable(s: string)
    ensures ParseText(s).Some? ==> Printable(ParseText(s).value)
  {
    if ParseText(s).Some? {
      var c := ParseText(s).value;
      ParseIsGrammar(s, c);
      TokensReadable(s, 0);
      ReadableYield(c);
    }
  }

  /** A tree survives printing and parsing if and only if it is printable. */
  lemma RoundTripExactly(c: Config, depth: int)
    ensures ParseText(PrintConfig(c, depth)) == Some(c) <==> Printable(c)
  {
    if Printable(c) {
      ParseOfPrinted(c, depth, "");
      assert PrintConfig(c, depth) + "" == PrintConfig(c, depth);
    }
    ParsedIsPrintable(PrintConfig(c, depth));
  }

  /** Parsing normalises: printing the parsed tree and parsing again changes nothing. */
  lemma ParseNormalises(s: string, depth: int)
    requires ParseText(s).Some?
    ensures ParseText(PrintConfig(ParseText(s).value, depth)) == ParseText(s)
  {
    ParsedIsPrintable(s);
    RoundTripExactly(ParseText(s).value, depth);
  }

  /** Two trees with the same printed text, at any depths, are the same tree. */
  lemma PrintInjective(c: Config, d: Config, m: int, n: int)
    requires Printable(c) && Printable(d) && PrintConfig(c, m) == PrintConfig(d, n)
    ensures c == d
  {
    RoundTripExactly(c, m);
    RoundTripExactly(d, n);
  }

  // Words that are lost at the end of a text.

  /** The tokens from `i` on end in a bare word that the end of the text cuts off. */
  predicate OpenTail(s: string, i: nat)
    requires i <= |s|
    decreases |s| - i
  {
    var l := NextLexeme(s, i);
    match l.kind
    case Eof => l.from < |s| && s[l.from] != '#'
    case Error => false
    case _ => OpenTail(s, l.next)
  }

  /** A text with a line feed behind it. */
  predicate EndsInLF(s: string, t: string) {
    |t| == |s| + 1 && t[|s|] == '\n' && forall x :: 0 <= x < |s| ==> t[x] == s[x]
  }

  lemma SpanInLonger(s: string, t: string, i: nat, k: CharClass)
    requires EndsInLF(s, t) && i <= |s|
    ensures Span(t, i, k) == if Span(s, i, k) == |s| && Is(k, '\n') then |t| else Span(s, i, k)
  {
    var j := Span(s, i, k);
    SpanUnique(t, i, k, if j == |s| && Is(k, '\n') then |t| else j);
  }

  lemma FindInLonger(s: string, t: string, c: char, i: nat)
    requires EndsInLF(s, t) && c != '\n'
    ensures FindChar(t, c, i) == FindChar(s, c, i)
  {
    match FindChar(s, c, i) {
      case None =>
        assert forall x :: i <= x < |t| ==> t[x] != c;
      case Some(j) =>
        FindCharUnique(t, c, i, j);
    }
  }

  /** What becomes of a lexeme when a line feed is put behind the text. */
  function Completed(s: string, l: Lexeme): Lexeme
    requires l.from <= |s|
  {
    if l.kind == Eof then
      if l.from == |s| then Lexeme(Eof, |s| + 1, |s| + 1, |s| + 1)
      else if s[l.from] == '#' then Lexeme(Comment, l.from, |s|, |s| + 1)
      else Lexeme(Normal, l.from, |s|, |s|)
    else if l.kind == Error && l.from < |s| && IsQuote(s[l.from]) then Lexeme(Error, l.from, |s| + 1, |s| + 1)
    else l
  }

  lemma CommentInLonger(s: string, t: string, from: nat)
    requires EndsInLF(s, t) && from < |s| && s[from] == '#'
    ensures LexemeAt(t, from) == Completed(s, LexemeAt(s, from))
  {
    SpanInLonger(s, t, from + 1, LineText);
  }

  lemma QuotedInLonger(s: string, t: string, from: nat)
    requires EndsInLF(s, t) && from < |s| && IsQuote(s[from])
    ensures LexemeAt(t, from) == Completed(s, LexemeAt(s, from))
  {
    FindInLonger(s, t, s[from], from + 1);
  }

  lemma BareInLonger(s: string, t: string, from: nat)
    requires EndsInLF(s, t) && from < |s| && StartsBare(s[from])
    ensures LexemeAt(t, from) == Completed(s, LexemeAt(s, from))
  {
    SpanInLonger(s, t, from + 1, Bare);
  }

  /** The line feed changes a lexeme only where the text ends: a bare word or a comment is then complete. */
  lemma LexemeInLonger(s: string, t: string, i: nat)
    requires EndsInLF(s, t) && i <= |s|
    ensures NextLexeme(t, i) == Completed(s, NextLexeme(s, i))
  {
    var from := Span(s, i, Blank);
    SpanInLonger(s, t, i, Blank);
    if from < |s| {
      if s[from] == '#' {
        CommentInLonger(s, t, from);
      } else if IsQuote(s[from]) {
        QuotedInLonger(s, t, from);
      } else if StartsBare(s[from]) {
        BareInLonger(s, t, from);
      }
    }
  }

  lemma TokensAtEnd(t: string, i: nat)
    requires i <= |t| && forall x :: i <= x < |t| ==> t[x] == '\n'
    ensures Tokens(t, i) == TokenStream([], true)
  {
    SpanUnique(t, i, Blank, |t|);
  }

  function OpenWord(s: string, i: nat): string
    requires i <= |s|
  {
    s[NextLexeme(s, i).from..]
  }

  lemma LastWord(s: string, t: string, i: nat)
    requires EndsInLF(s, t) && i <= |s| && NextLexeme(s, i).kind == Eof && OpenTail(s, i)
    ensures Tokens(t, i) == TokenStream([Word(OpenWord(s, i))], true)
  {
    var from := NextLexeme(s, i).from;
    LexemeInLonger(s, t, i);
    TokensAtEnd(t, |s|);
    assert t[from..|s|] == s[from..];
  }

  lemma LastLexeme(s: string, t: string, i: nat)
    requires EndsInLF(s, t) && i <= |s| && NextLexeme(s, i).kind == Eof
    ensures Tokens(t, i) == if OpenTail(s, i) then TokenStream([Word(OpenWord(s, i))], true) else TokenStream([], true)
  {
    if OpenTail(s, i) {
      LastWord(s, t, i);
    } else {
      LexemeInLonger(s, t, i);
      TokensAtEnd(t, |t|);
    }
  }

  lemma FaultyLexeme(s: string, t: string, i: nat)
    requires EndsInLF(s, t) && i <= |s| && NextLexeme(s, i).kind == Error
    ensures Tokens(t, i) == Tokens(s, i)
  {
    LexemeInLonger(s, t, i);
  }

  function WithWord(stream: TokenStream, open: bool, w: string): TokenStream {
    if open then TokenStream(stream.tokens + [Word(w)], true) else stream
  }

  predicate IsComplete(l: Lexeme) {
    l.kind in {Normal, StatementEnd, StartBlock, EndBlock, Comment}
  }

  lemma TokensStep(s: string, i: nat, l: Lexeme)
    requires i <= |s| && l == NextLexeme(s, i) && IsComplete(l)
    ensures Tokens(s, i) == Prepend(TokensOf(s, l), Tokens(s, l.next)) && OpenTail(s, i) == OpenTail(s, l.next)
  {
    OneLexeme(s, i, l);
  }

  lemma LexemeKinds(s: string, i: nat)
    requires i <= |s|
    ensures NextLexeme(s, i).kind in {Eof, Error} || IsComplete(NextLexeme(s, i))
  {}

  lemma PrependWithWord(ts: seq<Token>, stream: TokenStream, open: bool, w: string)
    requires open ==> stream.clean
    ensures Prepend(ts, WithWord(stream, open, w)) == WithWord(Prepend(ts, stream), open, w)
  {
    assert ts + (stream.tokens + [Word(w)]) == ts + stream.tokens + [Word(w)];
  }

  lemma {:induction false} OpenTailIsClean(s: string, i: nat)
    requires i <= |s|
    ensures OpenTail(s, i) ==> Tokens(s, i).clean
    decreases |s| - i
  {
    var l := NextLexeme(s, i);
    if IsComplete(l) {
      OpenTailIsClean(s, l.next);
      TokensStep(s, i, l);
    }
  }

  /** A complete lexeme is the same in both texts. */
  lemma SameLexeme(s: string, t: string, i: nat, l: Lexeme)
    requires EndsInLF(s, t) && i <= |s| && l == NextLexeme(s, i) && IsComplete(l)
    ensures l == NextLexeme(t, i) && TokensOf(t, l) == TokensOf(s, l)
  {
    LexemeInLonger(s, t, i);
    assert t[l.from..l.end] == s[l.from..l.end];
  }

  lemma TokensGoOn(s: string, t: string, i: nat, l: Lexeme, w: string)
    requires EndsInLF(s, t) && i <= |s| && l == NextLexeme(s, i) && IsComplete(l)
    requires Tokens(t, l.next) == WithWord(Tokens(s, l.next), OpenTail(s, l.next), w)
    ensures Tokens(t, i) == WithWord(Tokens(s, i), OpenTail(s, i), w)
  {
    SameLexeme(s, t, i, l);
    TokensStep(s, i, l);
    TokensStep(t, i, l);
    OpenTailIsClean(s, l.next);
    PrependWithWord(TokensOf(s, l), Tokens(s, l.next), OpenTail(s, l.next), w);
  }

  lemma NoMoreTokens(s: string, t: string, i: nat)
    requires EndsInLF(s, t) && i <= |s| && NextLexeme(s, i).kind in {Eof, Error}
    ensures Tokens(t, i) == WithWord(Tokens(s, i), OpenTail(s, i), OpenWord(s, i))
  {
    if NextLexeme(s, i).kind == Eof {
      LastLexeme(s, t, i);
    } else {
      FaultyLexeme(s, t, i);
    }
  }

  /** With the line feed the tokens are the same, but for the word that would have been lost. */
  lemma {:induction false} TokensInLonger(s: string, t: string, i: nat) returns (w: string)
    requires EndsInLF(s, t) && i <= |s|
    ensures Tokens(t, i) == WithWord(Tokens(s, i), OpenTail(s, i), w)
    decreases |s| - i
  {
    var l := NextLexeme(s, i);
    LexemeKinds(s, i);
    if IsComplete(l) {
      w := TokensInLonger(s, t, l.next);
      TokensGoOn(s, t, i, l, w);
    } else {
      w := OpenWord(s, i);
      NoMoreTokens(s, t, i);
    }
  }

  lemma {:induction false} RunSnoc(z: Zipper, ts: seq<Token>, t: Token)
    ensures Run(z, ts + [t]) == match Run(z, ts) case None => None case Some(z') => Step(z', t)
    decreases |ts|
  {
    if ts == [] {
      assert ts + [t] == [t] && [t][1..] == [];
    } else {
      assert (ts + [t])[0] == ts[0] && (ts + [t])[1..] == ts[1..] + [t];
      if Step(z, ts[0]).Some? {
        RunSnoc(Step(z, ts[0]).value, ts[1..], t);
      }
    }
  }

  /** A word is lost from an accepted text exactly when the text ends in an open word, which a caller can
      see from the text: the same text with a line feed behind it is then rejected, and otherwise parses alike. */
  lemma WordIsLost(s: string)
    ensures OpenTail(s, 0) ==> ParseText(s + "\n") == None
    ensures ParseText(s + "\n") == ParseText(s) <==> !(ParseText(s).Some? && OpenTail(s, 0))
  {
    var t := s + "\n";
    var w := TokensInLonger(s, t, 0);
    if OpenTail(s, 0) {
      RunSnoc(EMPTY, Tokens(s, 0).tokens, Word(w));
    }
  }
}
