/** Configuration trees, the recursive grammar they are derivations of, and the
    stack machine of `NginxConfigParser::Parse` on the comment-free token stream. */
module ConfigGrammar {
  import opened Text

  /** `NginxConfigStatement`, without and with a child block. */
  datatype Statement = Simple(tokens: seq<string>) | Block(tokens: seq<string>, body: seq<Statement>)

  /** `NginxConfig` */
  type Config = seq<Statement>

  datatype Token = Word(text: string) | Semicolon | OpenBrace | CloseBrace

  /** config := stmt*    stmt := Word+ ( Semicolon | OpenBrace config CloseBrace ) */
  ghost predicate Derivation(c: Config) {
    forall st :: st in c ==> st.tokens != [] && (st.Block? ==> Derivation(st.body))
  }

  function Words(texts: seq<string>): seq<Token> {
    seq(|texts|, i requires 0 <= i < |texts| => Word(texts[i]))
  }

  function YieldStatement(st: Statement): seq<Token> {
    Words(st.tokens) +
    match st
    case Simple(_) => [Semicolon]
    case Block(_, body) => [OpenBrace] + Yield(body) + [CloseBrace]
  }

  /** The tokens a derivation derives. */
  function Yield(c: Config): seq<Token> {
    if c == [] then [] else YieldStatement(c[0]) + Yield(c[1..])
  }

  lemma YieldAppend(a: Config, b: Config)
    ensures Yield(a + b) == Yield(a) + Yield(b)
  {
    if a == [] {
      assert a + b == b;
    } else {
      assert (a + b)[1..] == a[1..] + b;
      YieldAppend(a[1..], b);
    }
  }

  lemma YieldSnoc(c: Config, st: Statement)
    ensures Yield(c + [st]) == Yield(c) + YieldStatement(st)
  {
    YieldAppend(c, [st]);
    assert [st][1..] == [];
    assert Yield([st]) == YieldStatement(st) + [];
  }

  /** An enclosing block that is still open: its finished statements, and the
      words in front of the brace. */
  datatype Frame = Frame(done: Config, words: seq<string>)

  /** What the explicit stack amounts to: the open blocks from the outside in, then
      the finished statements and the pending words of the innermost one. */
  datatype Zipper = Zipper(outer: seq<Frame>, done: Config, words: seq<string>)

  const EMPTY := Zipper([], [], [])

  function Step(z: Zipper, t: Token): Option<Zipper> {
    match t
    case Word(w) => Some(z.(words := z.words + [w]))
    case Semicolon =>
      if z.words == [] then None
      else Some(z.(done := z.done + [Simple(z.words)], words := []))
    case OpenBrace =>
      if z.words == [] then None
      else Some(Zipper(z.outer + [Frame(z.done, z.words)], [], []))
    case CloseBrace =>
      if z.words != [] || z.outer == [] then None
      else
        var f := z.outer[|z.outer| - 1];
        Some(Zipper(z.outer[..|z.outer| - 1], f.done + [Block(f.words, z.done)], []))
  }

  function Run(z: Zipper, ts: seq<Token>): Option<Zipper>
    decreases |ts|
  {
    if ts == [] then Some(z)
    else
      match Step(z, ts[0])
      case None => None
      case Some(z') => Run(z', ts[1..])
  }

  function Finish(r: Option<Zipper>): Option<Config> {
    if r.Some? && r.value.outer == [] && r.value.words == [] then Some(r.value.done) else None
  }

  // Everything the machine has taken is in the zipper.

  function ConsumedByFrames(outer: seq<Frame>): seq<Token> {
    if outer == [] then []
    else
      var f := outer[|outer| - 1];
      ConsumedByFrames(outer[..|outer| - 1]) + Yield(f.done) + Words(f.words) + [OpenBrace]
  }

  function Consumed(z: Zipper): seq<Token> {
    ConsumedByFrames(z.outer) + Yield(z.done) + Words(z.words)
  }

  ghost predicate WellFormed(z: Zipper) {
    && Derivation(z.done)
    && forall f :: f in z.outer ==> Derivation(f.done) && f.words != []
  }

  lemma CloseConsumes(outer: seq<Frame>, f: Frame, done: Config)
    ensures Consumed(Zipper(outer + [f], done, [])) + [CloseBrace]
         == Consumed(Zipper(outer, f.done + [Block(f.words, done)], []))
  {
    assert (outer + [f])[..|outer|] == outer;
    YieldSnoc(f.done, Block(f.words, done));
  }

  lemma WordConsumes(z: Zipper, w: string)
    ensures Consumed(z.(words := z.words + [w])) == Consumed(z) + [Word(w)]
  {
    assert Words(z.words + [w]) == Words(z.words) + [Word(w)];
  }

  lemma SemicolonConsumes(z: Zipper)
    ensures Consumed(z.(done := z.done + [Simple(z.words)], words := [])) == Consumed(z) + [Semicolon]
  {
    YieldSnoc(z.done, Simple(z.words));
  }

  lemma OpenBraceConsumes(z: Zipper)
    ensures Consumed(Zipper(z.outer + [Frame(z.done, z.words)], [], [])) == Consumed(z) + [OpenBrace]
  {
    assert (z.outer + [Frame(z.done, z.words)])[..|z.outer|] == z.outer;
  }

  lemma DerivationSnoc(c: Config, st: Statement)
    requires Derivation(c) && st.tokens != [] && (st.Block? ==> Derivation(st.body))
    ensures Derivation(c + [st])
  {}

  lemma StepConsumes(z: Zipper, t: Token)
    requires WellFormed(z) && Step(z, t).Some?
    ensures Consumed(Step(z, t).value) == Consumed(z) + [t]
    ensures WellFormed(Step(z, t).value)
  {
    match t {
      case Word(w) =>
        WordConsumes(z, w);
      case Semicolon =>
        SemicolonConsumes(z);
        DerivationSnoc(z.done, Simple(z.words));
      case OpenBrace =>
        OpenBraceConsumes(z);
      case CloseBrace =>
        var n := |z.outer| - 1;
        var f := z.outer[n];
        assert f in z.outer && z.outer == z.outer[..n] + [f];
        CloseConsumes(z.outer[..n], f, z.done);
        DerivationSnoc(f.done, Block(f.words, z.done));
    }
  }

  lemma {:induction false} RunConsumes(z: Zipper, ts: seq<Token>)
    requires WellFormed(z) && Run(z, ts).Some?
    ensures Consumed(Run(z, ts).value) == Consumed(z) + ts
    ensures WellFormed(Run(z, ts).value)
    decreases |ts|
  {
    if ts != [] {
      StepConsumes(z, ts[0]);
      RunConsumes(Step(z, ts[0]).value, ts[1..]);
      assert Consumed(z) + [ts[0]] + ts[1..] == Consumed(z) + ts;
    }
  }

  // A derivation in front of the input drives the machine over itself.

  lemma {:induction false} RunWords(z: Zipper, texts: seq<string>, rest: seq<Token>)
    ensures Run(z, Words(texts) + rest) == Run(z.(words := z.words + texts), rest)
    decreases |texts|
  {
    if texts == [] {
      assert Words(texts) + rest == rest && z.words + texts == z.words;
    } else {
      assert (Words(texts) + rest)[1..] == Words(texts[1..]) + rest;
      assert z.words + [texts[0]] + texts[1..] == z.words + texts;
      RunWords(z.(words := z.words + [texts[0]]), texts[1..], rest);
    }
  }

  lemma RunStep(z: Zipper, t: Token, rest: seq<Token>)
    ensures Run(z, [t] + rest) == match Step(z, t) case None => None case Some(z') => Run(z', rest)
  {
    assert ([t] + rest)[1..] == rest;
  }

  lemma BlockYield(words: seq<string>, body: Config, rest: seq<Token>)
    ensures YieldStatement(Block(words, body)) + rest
         == Words(words) + ([OpenBrace] + (Yield(body) + ([CloseBrace] + rest)))
  {}

  lemma {:induction false} RunYieldStatement(z: Zipper, st: Statement, rest: seq<Token>)
    requires st.tokens != [] && (st.Block? ==> Derivation(st.body)) && z.words == []
    ensures Run(z, YieldStatement(st) + rest) == Run(z.(done := z.done + [st]), rest)
    decreases st, 1
  {
    var z1 := z.(words := st.tokens);
    assert z.words + st.tokens == st.tokens;
    match st {
      case Simple(_) =>
        assert YieldStatement(st) + rest == Words(st.tokens) + ([Semicolon] + rest);
        RunWords(z, st.tokens, [Semicolon] + rest);
        RunStep(z1, Semicolon, rest);
      case Block(_, b) =>
        var inside := Yield(b) + ([CloseBrace] + rest);
        BlockYield(st.tokens, b, rest);
        RunWords(z, st.tokens, [OpenBrace] + inside);
        RunStep(z1, OpenBrace, inside);
        var z2 := Zipper(z.outer + [Frame(z.done, st.tokens)], [], []);
        RunYield(z2, b, [CloseBrace] + rest);
        assert [] + b == b;
        RunStep(z2.(done := b), CloseBrace, rest);
        assert z2.outer[..|z2.outer| - 1] == z.outer;
    }
  }

  lemma {:induction false} RunYield(z: Zipper, c: Config, rest: seq<Token>)
    requires Derivation(c) && z.words == []
    ensures Run(z, Yield(c) + rest) == Run(z.(done := z.done + c), rest)
    decreases c, 0
  {
    if c == [] {
      assert Yield(c) + rest == rest && z.done + c == z.done;
    } else {
      var tail := Yield(c[1..]) + rest;
      assert Yield(c) + rest == YieldStatement(c[0]) + tail;
      RunYieldStatement(z, c[0], tail);
      assert z.done + [c[0]] + c[1..] == z.done + c;
      RunYield(z.(done := z.done + [c[0]]), c[1..], rest);
    }
  }

  /** The stack machine accepts exactly the language of the grammar, and builds the derivation. */
  lemma MachineIsGrammar(ts: seq<Token>, c: Config)
    ensures Finish(Run(EMPTY, ts)) == Some(c) <==> Derivation(c) && Yield(c) == ts
  {
    if Derivation(c) && Yield(c) == ts {
      RunYield(EMPTY, c, []);
      assert Yield(c) + [] == ts && [] + c == c;
    }
    if Finish(Run(EMPTY, ts)) == Some(c) {
      RunConsumes(EMPTY, ts);
      assert Consumed(EMPTY) + ts == ts;
      assert Consumed(Run(EMPTY, ts).value) == Yield(c);
    }
  }

  /** The grammar is unambiguous. */
  lemma GrammarUnambiguous(c: Config, d: Config)
    requires Derivation(c) && Derivation(d) && Yield(c) == Yield(d)
    ensures c == d
  {
    MachineIsGrammar(Yield(c), c);
    MachineIsGrammar(Yield(c), d);
  }
}
