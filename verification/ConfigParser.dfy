/** The configuration tree as linked objects, the parser that builds it in place
    over an explicit stack of nodes, and the printer that walks it. */
module ConfigParser {
  import opened Text
  import opened Streams
  import opened ConfigLexer
  import opened ConfigGrammar
  import opened ConfigText
  import opened Ordering

  lemma SerializedStatement(st: Statement, depth: int)
    ensures st.Simple? ==> Indent(depth) + Join(st.tokens, " ") + ";" + "\n" == PrintStatement(st, depth)
    ensures st.Block? ==> Indent(depth) + Join(st.tokens, " ") + " {\n" + PrintConfig(st.body, depth + 1)
                          + Indent(depth) + "}" + "\n"
                          == PrintStatement(st, depth)
  {}

  method AppendIndent(s: string, depth: int) returns (r: string)
    ensures r == s + Indent(depth)
  {
    r := s;
    var i := 0;
    while i < depth
      invariant 0 <= i && (i <= depth || i == 0)
      invariant r + Indent(depth - i) == s + Indent(depth)
    {
      assert r + Indent(depth - i) == r + "  " + Indent(depth - (i + 1));
      r := r + "  ";
      i := i + 1;
    }
    assert r + Indent(depth - i) == r;
  }

  ghost predicate RepresentsStatement(s: NginxConfigStatement, st: Statement, objs: set<object>)
    reads objs
    decreases st, 0
  {
    s in objs && s.tokens == st.tokens &&
    match st
    case Simple(_) => s.childBlock == null
    case Block(_, body) =>
      s.childBlock != null && s.childBlock in objs && Represents(s.childBlock.statements, body, objs)
  }

  /** The statements are the tree `c`; every object below them is in `objs`. */
  ghost predicate Represents(statements: seq<NginxConfigStatement>, c: Config, objs: set<object>)
    reads objs
    decreases c, 1
  {
    |statements| == |c| && forall i :: 0 <= i < |c| ==> RepresentsStatement(statements[i], c[i], objs)
  }

  class NginxConfig {
    var statements: seq<NginxConfigStatement>

    constructor ()
      ensures statements == []
    {
      statements := [];
    }

    method ToString(depth: int, ghost c: Config, ghost objs: set<object>) returns (serialized: string)
      requires Represents(statements, c, objs)
      ensures serialized == PrintConfig(c, depth)
      decreases c, 1
    {
      serialized := "";
      var i := 0;
      while i < |statements|
        invariant 0 <= i <= |statements|
        invariant serialized == PrintConfig(c[..i], depth)
      {
        assert RepresentsStatement(statements[i], c[i], objs);
        var s := statements[i].ToString(depth, c[i], objs);
        serialized := serialized + s;
        assert c[..i + 1] == c[..i] + [c[i]];
        PrintSnoc(c[..i], c[i], depth);
        i := i + 1;
      }
      assert c[..i] == c;
    }
  }

  class NginxConfigStatement {
    var tokens: seq<string>
    var childBlock: NginxConfig?

    constructor ()
      ensures tokens == [] && childBlock == null
    {
      tokens, childBlock := [], null;
    }

    method ToString(depth: int, ghost st: Statement, ghost objs: set<object>) returns (serialized: string)
      requires RepresentsStatement(this, st, objs)
      ensures serialized == PrintStatement(st, depth)
      decreases st, 0
    {
      serialized := AppendIndent("", depth);
      var i := 0;
      while i < |tokens|
        invariant 0 <= i <= |tokens|
        invariant serialized == Indent(depth) + Join(tokens[..i], " ")
      {
        ghost var before := tokens[..i];
        assert tokens[..i + 1] == before + [tokens[i]];
        if i != 0 {
          JoinSnoc(before, tokens[i], " ");
          serialized := serialized + " ";
        }
        serialized := serialized + tokens[i];
        i := i + 1;
      }
      assert tokens[..i] == tokens;
      if childBlock != null {
        serialized := serialized + " {\n";
        var inner := childBlock.ToString(depth + 1, st.body, objs);
        serialized := serialized + inner;
        serialized := AppendIndent(serialized, depth);
        serialized := serialized + "}";
      } else {
        serialized := serialized + ";";
      }
      serialized := serialized + "\n";
      SerializedStatement(st, depth);
    }
  }

  lemma RepresentsMore(statements: seq<NginxConfigStatement>, c: Config, objs: set<object>, more: set<object>)
    requires Represents(statements, c, objs) && objs <= more
    ensures Represents(statements, c, more)
    decreases c
  {
    forall i | 0 <= i < |c| ensures RepresentsStatement(statements[i], c[i], more) {
      assert RepresentsStatement(statements[i], c[i], objs);
      if c[i].Block? {
        RepresentsMore(statements[i].childBlock.statements, c[i].body, objs, more);
      }
    }
  }

  lemma RepresentsSnoc(statements: seq<NginxConfigStatement>, c: Config,
                       s: NginxConfigStatement, st: Statement, objs: set<object>)
    requires Represents(statements, c, objs) && RepresentsStatement(s, st, objs)
    ensures Represents(statements + [s], c + [st], objs)
  {}

  /** The finished statements of the open blocks, from the outside in. */
  function DoneTrees(z: Zipper): seq<Config> {
    seq(|z.outer|, k requires 0 <= k < |z.outer| => z.outer[k].done) + [z.done]
  }

  function WordsAt(z: Zipper, k: nat): seq<string> {
    if k < |z.outer| then z.outer[k].words else z.words
  }

  /** How many levels have a statement that is not finished yet. */
  function OpenLevels(z: Zipper): nat {
    |z.outer| + if z.words == [] then 0 else 1
  }

  /** What the objects on the stack stand for: node `k` holds its finished statements
      `done[k]` (the outermost one behind `base`, which it came with) and then the
      unfinished one, `open[k]`. Nothing below the finished ones, `objs`, is touched again. */
  datatype Shadow = Shadow(z: Zipper, base: seq<NginxConfigStatement>, done: seq<seq<NginxConfigStatement>>,
                           open: seq<NginxConfigStatement>, objs: set<object>)

  ghost predicate DoneLinked(trees: seq<Config>, done: seq<seq<NginxConfigStatement>>, objs: set<object>)
    reads objs
  {
    |done| == |trees| && forall k :: 0 <= k < |done| ==> Represents(done[k], trees[k], objs)
  }

  ghost predicate NodesLinked(stack: seq<NginxConfig>, base: seq<NginxConfigStatement>,
                              done: seq<seq<NginxConfigStatement>>, open: seq<NginxConfigStatement>)
    reads stack
  {
    && |stack| == |done| > 0
    && forall k :: 0 <= k < |stack| ==>
         stack[k].statements == (if k == 0 then base else []) + done[k] + if k < |open| then [open[k]] else []
  }

  ghost predicate OpenLinked(z: Zipper, stack: seq<NginxConfig>, open: seq<NginxConfigStatement>)
    reads open
  {
    && |stack| == |z.outer| + 1 && |open| == OpenLevels(z)
    && forall k :: 0 <= k < |open| ==>
         open[k].tokens == WordsAt(z, k) && open[k].childBlock == if k + 1 < |stack| then stack[k + 1] else null
  }

  ghost predicate Apart(stack: seq<NginxConfig>, open: seq<NginxConfigStatement>, objs: set<object>) {
    Distinct(stack) && Distinct(open) && (forall n :: n in stack ==> n !in objs) && forall s :: s in open ==> s !in objs
  }

  ghost predicate Linked(g: Shadow, stack: seq<NginxConfig>)
    reads stack, g.open, g.objs
  {
    && DoneLinked(DoneTrees(g.z), g.done, g.objs) && NodesLinked(stack, g.base, g.done, g.open)
    && OpenLinked(g.z, stack, g.open) && Apart(stack, g.open, g.objs)
  }

  /** Mentioning it unfolds `Owned`, which the main loop keeps folded. */
  predicate Unfolded(stack: seq<NginxConfig>) {
    true
  }

  ghost predicate Owned(g: Shadow, stack: seq<NginxConfig>, repr: set<object>)
    reads repr
  {
    && |stack| == |g.z.outer| + 1
    && forall nodes {:trigger Unfolded(nodes)} :: nodes == stack ==>
      && (forall n :: n in nodes ==> n in repr) && (forall s :: s in g.open ==> s in repr) && g.objs <= repr
      && Linked(g, nodes)
  }

  lemma Fold(g: Shadow, stack: seq<NginxConfig>, repr: set<object>)
    requires (forall n :: n in stack ==> n in repr) && (forall s :: s in g.open ==> s in repr) && g.objs <= repr
    requires Linked(g, stack)
    ensures Owned(g, stack, repr)
  {}

  /** At a semicolon the open statement is finished. */
  lemma FinishStatement(g: Shadow, stack: seq<NginxConfig>, repr: set<object>) returns (g': Shadow)
    requires Owned(g, stack, repr) && g.z.words != []
    ensures Step(g.z, Semicolon) == Some(g'.z) && g'.base == g.base
    ensures Owned(g', stack, repr) && g'.z.words == [] && g'.z.outer == g.z.outer
  {
    assert Unfolded(stack);
    var m := |g.done| - 1;
    var s := g.open[m];
    g' := Shadow(Step(g.z, Semicolon).value, g.base, g.done[m := g.done[m] + [s]], g.open[..m], g.objs + {s});
    forall k | 0 <= k < |stack| ensures Represents(g'.done[k], DoneTrees(g'.z)[k], g'.objs) {
      RepresentsMore(g.done[k], DoneTrees(g.z)[k], g.objs, g'.objs);
      if k == m {
        RepresentsSnoc(g.done[m], g.z.done, s, Simple(g.z.words), g'.objs);
      }
    }
    Fold(g', stack, repr);
  }

  ghost predicate Closes(g: Shadow, stack: seq<NginxConfig>, g': Shadow)
    reads stack, g.open, g.objs
  {
    && Linked(g, stack) && g.z.words == [] && g.z.outer != []
    && var m := |g.z.outer| - 1;
       g' == Shadow(Step(g.z, CloseBrace).value, g.base, g.done[..m + 1][m := g.done[m] + [g.open[m]]], g.open[..m],
                    g.objs + {g.open[m], stack[m + 1]})
  }

  lemma DoneClosed(g: Shadow, stack: seq<NginxConfig>, g': Shadow)
    requires Closes(g, stack, g')
    ensures DoneLinked(DoneTrees(g'.z), g'.done, g'.objs)
  {
    var m := |g.z.outer| - 1;
    var s, top, f := g.open[m], stack[m + 1], g.z.outer[m];
    forall k | 0 <= k <= m ensures Represents(g'.done[k], DoneTrees(g'.z)[k], g'.objs) {
      RepresentsMore(g.done[k], DoneTrees(g.z)[k], g.objs, g'.objs);
      if k == m {
        assert top.statements == g.done[m + 1];
        RepresentsMore(g.done[m + 1], g.z.done, g.objs, g'.objs);
        RepresentsSnoc(g.done[m], f.done, s, Block(f.words, g.z.done), g'.objs);
      }
    }
  }

  /** The open statement of a node becomes a finished one. */
  lemma MoveOpen(base: seq<NginxConfigStatement>, done: seq<NginxConfigStatement>, s: NginxConfigStatement)
    ensures base + done + [s] == base + (done + [s]) + []
  {}

  lemma NodesClosed(g: Shadow, stack: seq<NginxConfig>, g': Shadow)
    requires Closes(g, stack, g')
    ensures NodesLinked(stack[..|stack| - 1], g'.base, g'.done, g'.open)
  {
    var m := |g.z.outer| - 1;
    forall k | 0 <= k <= m
      ensures stack[k].statements == (if k == 0 then g.base else []) + g'.done[k] + if k < m then [g'.open[k]] else []
    {
      if k == m {
        MoveOpen(if k == 0 then g.base else [], g.done[k], g.open[k]);
      }
    }
  }

  lemma OpenClosed(g: Shadow, stack: seq<NginxConfig>, g': Shadow)
    requires Closes(g, stack, g')
    ensures OpenLinked(g'.z, stack[..|stack| - 1], g'.open)
  {
    forall k | 0 <= k < |g'.open|
      ensures g'.open[k].tokens == WordsAt(g'.z, k) && g'.open[k].childBlock == stack[k + 1]
    {
      assert g'.open[k] == g.open[k];
    }
  }

  lemma ApartClosed(g: Shadow, stack: seq<NginxConfig>, g': Shadow)
    requires Closes(g, stack, g')
    ensures Apart(stack[..|stack| - 1], g'.open, g'.objs)
  {
    var m := |g.z.outer| - 1;
    forall n | n in stack[..m + 1] ensures n !in g'.objs {
      var k :| 0 <= k < m + 1 && stack[k] == n;
      assert stack[k] in stack && stack[k] != stack[m + 1];
    }
    forall s | s in g.open[..m] ensures s !in g'.objs {
      var k :| 0 <= k < m && g.open[k] == s;
      assert g.open[k] in g.open && g.open[k] != g.open[m];
    }
  }

  lemma StackClosed(g: Shadow, stack: seq<NginxConfig>, g': Shadow)
    requires Closes(g, stack, g')
    ensures NodesLinked(stack[..|stack| - 1], g'.base, g'.done, g'.open)
    ensures OpenLinked(g'.z, stack[..|stack| - 1], g'.open)
    ensures Apart(stack[..|stack| - 1], g'.open, g'.objs)
  {
    NodesClosed(g, stack, g');
    OpenClosed(g, stack, g');
    ApartClosed(g, stack, g');
  }

  /** At a closing brace the top node is finished, and with it the open statement of the node below. */
  lemma FinishBlock(g: Shadow, stack: seq<NginxConfig>, repr: set<object>) returns (g': Shadow)
    requires Owned(g, stack, repr) && g.z.words == [] && g.z.outer != []
    ensures Step(g.z, CloseBrace) == Some(g'.z) && g'.base == g.base
    ensures Owned(g', stack[..|stack| - 1], repr) && g'.z.words == [] && |g'.z.outer| == |g.z.outer| - 1
  {
    assert Unfolded(stack);
    var m := |g.z.outer| - 1;
    var s, top := g.open[m], stack[m + 1];
    g' := Shadow(Step(g.z, CloseBrace).value, g.base, g.done[..m + 1][m := g.done[m] + [s]], g.open[..m],
                 g.objs + {s, top});
    assert s in g.open && top in stack;
    DoneClosed(g, stack, g');
    StackClosed(g, stack, g');
    Fold(g', stack[..|stack| - 1], repr);
  }

  lemma AtStart(config: NginxConfig) returns (g: Shadow)
    ensures g.z == EMPTY && g.base == config.statements
    ensures Owned(g, [config], {config})
  {
    g := Shadow(EMPTY, config.statements, [[]], [], {});
    assert Linked(g, [config]);
  }

  lemma BaseKept(g: Shadow, stack: seq<NginxConfig>, repr: set<object>)
    requires Owned(g, stack, repr)
    ensures g.base <= stack[0].statements
  {
    assert Unfolded(stack);
    assert stack[0].statements[..|g.base|] == g.base;
  }

  /** Once no block is open, the outermost node is the whole tree. */
  lemma AtEof(g: Shadow, stack: seq<NginxConfig>, repr: set<object>, config: NginxConfig, result: Option<Config>)
    requires Owned(g, stack, repr) && stack[0] == config && result == Finish(Some(g.z)) && g.z.words == []
    ensures |stack| == 1 <==> result.Some?
    ensures g.base <= config.statements
    ensures result.Some? ==> Represents(config.statements[|g.base|..], result.value, repr - {config})
  {
    assert Unfolded(stack);
    BaseKept(g, stack, repr);
    if g.z.outer == [] {
      assert config.statements[|g.base|..] == g.done[0];
      RepresentsMore(g.done[0], g.z.done, g.objs, repr - {config});
    }
  }

  /** `config_parser.cc:179-182`: a new statement on the top node. */
  method StartStatement(stack: seq<NginxConfig>, ghost g: Shadow) returns (statement: NginxConfigStatement)
    requires NodesLinked(stack, g.base, g.done, g.open) && |g.open| == |stack| - 1 && Distinct(stack)
    modifies stack[|stack| - 1]
    ensures NodesLinked(stack, g.base, g.done, g.open + [statement])
    ensures fresh(statement) && statement.tokens == [] && statement.childBlock == null
  {
    var top := stack[|stack| - 1];
    statement := new NginxConfigStatement();
    top.statements := top.statements + [statement];
  }

  /** `config_parser.cc:183-184`: the open statement of the top node gets the token. */
  method AddToken(stack: seq<NginxConfig>, token: string, ghost g: Shadow, ghost z': Zipper)
    requires NodesLinked(stack, g.base, g.done, g.open) && DoneLinked(DoneTrees(g.z), g.done, g.objs)
    requires |g.open| == |stack| == |g.z.outer| + 1 && Apart(stack, g.open, g.objs)
    requires z' == g.z.(words := g.z.words + [token])
    requires forall k :: 0 <= k < |g.open| ==>
               && g.open[k].tokens == WordsAt(g.z, k)
               && g.open[k].childBlock == if k + 1 < |stack| then stack[k + 1] else null
    modifies g.open[|g.open| - 1]
    ensures NodesLinked(stack, g.base, g.done, g.open) && DoneLinked(DoneTrees(g.z), g.done, g.objs)
    ensures OpenLinked(z', stack, g.open)
  {
    var top := stack[|stack| - 1];
    var back := top.statements[|top.statements| - 1];
    assert back == g.open[|g.open| - 1] && back !in g.objs;
    back.tokens := back.tokens + [token];
  }

  /** The step for a token. */
  method PushToken(stack: seq<NginxConfig>, starts: bool, token: string, ghost g: Shadow, ghost repr: set<object>)
    returns (ghost g': Shadow, ghost repr': set<object>)
    requires Owned(g, stack, repr) && starts == (g.z.words == [])
    modifies repr
    ensures Step(g.z, Word(token)) == Some(g'.z) && g'.base == g.base
    ensures Owned(g', stack, repr') && repr <= repr' && fresh(repr' - repr)
    ensures g'.z.words != [] && g'.z.outer == g.z.outer
  {
    assert Unfolded(stack);
    g', repr' := g, repr;
    if starts {
      var statement := StartStatement(stack, g);
      g', repr' := g.(open := g.open + [statement]), repr + {statement};
      assert statement !in g.open && statement !in g.objs;
    }
    ghost var z' := g.z.(words := g.z.words + [token]);
    AddToken(stack, token, g', z');
    g' := g'.(z := z');
    assert DoneTrees(z') == DoneTrees(g.z);
  }

  /** `config_parser.cc:200-202`: a new node below the open statement of the top node. */
  method HangBlock(stack: seq<NginxConfig>, ghost g: Shadow) returns (newConfig: NginxConfig)
    requires Linked(g, stack) && g.z.words != []
    modifies g.open[|g.open| - 1]
    ensures fresh(newConfig) && newConfig.statements == []
    ensures NodesLinked(stack, g.base, g.done, g.open) && DoneLinked(DoneTrees(g.z), g.done, g.objs)
    ensures forall k :: 0 <= k < |g.open| ==>
              && g.open[k].tokens == WordsAt(g.z, k)
              && g.open[k].childBlock == if k + 1 < |stack| then stack[k + 1] else newConfig
  {
    newConfig := new NginxConfig();
    var top := stack[|stack| - 1];
    var back := top.statements[|top.statements| - 1];
    assert back == g.open[|g.open| - 1] && back !in g.objs;
    back.childBlock := newConfig;
  }

  lemma LinkedPushed(g: Shadow, stack: seq<NginxConfig>, node: NginxConfig) returns (g': Shadow)
    requires |stack| == |g.z.outer| + 1 == |g.open| && g.z.words != []
    requires NodesLinked(stack, g.base, g.done, g.open) && DoneLinked(DoneTrees(g.z), g.done, g.objs)
    requires forall k :: 0 <= k < |g.open| ==>
              && g.open[k].tokens == WordsAt(g.z, k)
              && g.open[k].childBlock == if k + 1 < |stack| then stack[k + 1] else node
    requires node.statements == [] && Apart(stack + [node], g.open, g.objs)
    ensures g' == Shadow(Step(g.z, OpenBrace).value, g.base, g.done + [[]], g.open, g.objs)
    ensures Linked(g', stack + [node])
  {
    g' := Shadow(Step(g.z, OpenBrace).value, g.base, g.done + [[]], g.open, g.objs);
    assert DoneTrees(g'.z) == DoneTrees(g.z) + [[]];
    assert NodesLinked(stack + [node], g'.base, g'.done, g'.open);
    assert OpenLinked(g'.z, stack + [node], g'.open);
  }

  /** The step for an opening brace; `config_parser.cc:203` makes the new node the top of the stack. */
  method PushBlock(stack: seq<NginxConfig>, ghost g: Shadow, ghost repr: set<object>)
    returns (stack': seq<NginxConfig>, ghost g': Shadow, ghost repr': set<object>)
    requires Owned(g, stack, repr) && g.z.words != []
    modifies repr
    ensures |stack'| == |stack| + 1 && stack'[0] == stack[0]
    ensures Step(g.z, OpenBrace) == Some(g'.z) && g'.base == g.base
    ensures Owned(g', stack', repr') && repr <= repr' && fresh(repr' - repr)
    ensures g'.z.words == [] && |g'.z.outer| == |g.z.outer| + 1
  {
    assert Unfolded(stack);
    var newConfig := HangBlock(stack, g);
    stack', repr' := stack + [newConfig], repr + {newConfig};
    assert newConfig !in stack && newConfig !in g.objs;
    g' := LinkedPushed(g, stack, newConfig);
  }

  /** What `last_token_type` says about the state of the parser. */
  predicate LastToken(kind: TokenType, z: Zipper) {
    && kind in {Start, Normal, StatementEnd, StartBlock, EndBlock}
    && (kind == Normal <==> z.words != [])
    && (kind == Start ==> z.outer == [])
    && (kind == StartBlock ==> z.outer != [])
  }

  function TokenOf(kind: TokenType, value: string): Token
    requires kind in {Normal, StatementEnd, StartBlock, EndBlock}
  {
    match kind
    case Normal => Word(value)
    case StatementEnd => Semicolon
    case StartBlock => OpenBrace
    case _ => CloseBrace
  }

  /** `config_parser.cc:173-216`: the transition for one token; `legal` is false where the source breaks out. */
  method Transition(tokenType: TokenType, token: string, lastTokenType: TokenType, openBlock: nat,
                    stack: seq<NginxConfig>, ghost g: Shadow, ghost repr: set<object>)
    returns (legal: bool, openBlock': nat, stack': seq<NginxConfig>, ghost g': Shadow, ghost repr': set<object>)
    requires tokenType in {Normal, StatementEnd, StartBlock, EndBlock}
    requires Owned(g, stack, repr) && |stack| == openBlock + 1 && LastToken(lastTokenType, g.z)
    modifies repr
    ensures Step(g.z, TokenOf(tokenType, token)) == if legal then Some(g'.z) else None
    ensures legal ==> LastToken(tokenType, g'.z)
    ensures Owned(g', stack', repr') && |stack'| == openBlock' + 1 && stack'[0] == stack[0]
    ensures g'.base == g.base && repr <= repr' && fresh(repr' - repr)
  {
    openBlock', stack', g', repr' := openBlock, stack, g, repr;
    if tokenType == Normal {
      if lastTokenType == Start || lastTokenType == StatementEnd || lastTokenType == StartBlock ||
         lastTokenType == EndBlock || lastTokenType == Normal {
        g', repr' := PushToken(stack, lastTokenType != Normal, token, g, repr);
      } else {
        return false, openBlock', stack', g', repr';
      }
    } else if tokenType == StatementEnd {
      if lastTokenType != Normal {
        return false, openBlock', stack', g', repr';
      }
      g' := FinishStatement(g, stack, repr);
    } else if tokenType == StartBlock {
      if lastTokenType != Normal {
        return false, openBlock', stack', g', repr';
      }
      openBlock' := openBlock + 1;
      stack', g', repr' := PushBlock(stack, g, repr);
    } else if tokenType == EndBlock {
      if lastTokenType != StatementEnd && lastTokenType != StartBlock && lastTokenType != EndBlock {
        return false, openBlock', stack', g', repr';
      }
      if openBlock < 1 {
        return false, openBlock', stack', g', repr';
      }
      openBlock' := openBlock - 1;
      g' := FinishBlock(g, stack, repr);
      stack' := stack[..|stack| - 1];
    }
    legal := true;
  }

  /** Reading a token leaves the tree alone, and takes the outcome one step further. */
  method ReadToken(input: InputStream, ghost table: seq<TokenStream>,
                   ghost g: Shadow, ghost stack: seq<NginxConfig>, ghost repr: set<object>)
    returns (kind: TokenType, value: string)
    requires input.Valid() && Tabulates(table, input.data)
    requires input !in repr && Owned(g, stack, repr)
    modifies input
    ensures input.Valid() && Owned(g, stack, repr)
    ensures kind != Eof && kind != Error ==> old(input.Here()) < input.Here()
    ensures Outcome(g.z, table[old(input.Here())]) ==
            match kind
            case Eof => Finish(Some(g.z))
            case Comment => Outcome(g.z, table[input.Here()])
            case Start => None
            case Error => None
            case _ => OutcomeAfter(g.z, TokenOf(kind, value), table[input.Here()])
  {
    OutcomeStep(g.z, table, input.data, input.Here());
    kind, value := ParseToken(input);
  }

  /** The tree the parser builds in place is the one the grammar derives; the node handed in
      keeps the statements it came with. From a stream that is not good it gets no more. */
  method Parse(input: InputStream, config: NginxConfig) returns (ok: bool, ghost objs: set<object>)
    requires input.Valid()
    modifies input, config
    ensures ok == ParseFrom(input.data, old(input.Here())).Some?
    ensures fresh(objs) && old(config.statements) <= config.statements
    ensures ok ==> Represents(config.statements[|old(config.statements)|..],
                              ParseFrom(input.data, old(input.Here())).value, objs)
  {
    var configStack := [config];
    var lastTokenType, tokenType := Start, Start;
    var openBlock := 0;
    ghost var text := input.data;
    ghost var table := Tabulate(text);
    ghost var result := OutcomeStart(table, text, input.Here());
    ghost var g := AtStart(config);
    ghost var repr: set<object> := {config};
    while true
      invariant input.Valid()
      invariant |configStack| == openBlock + 1 && configStack[0] == config
      invariant Owned(g, configStack, repr) && g.base == old(config.statements)
      invariant config in repr && fresh(repr - {config}) && input !in repr
      invariant LastToken(lastTokenType, g.z)
      invariant Outcome(g.z, table[input.Here()]) == result
      decreases |text| - input.Here()
    {
      var token;
      tokenType, token := ReadToken(input, table, g, configStack, repr);
      if tokenType == Error {
        break;
      }
      if tokenType == Comment {
        continue;
      }
      if tokenType == Start {
        break;
      } else if tokenType == Eof {
        if lastTokenType != StatementEnd && lastTokenType != EndBlock && lastTokenType != Start {
          break;
        }
        AtEof(g, configStack, repr, config, result);
        return |configStack| == 1, repr - {config};
      }
      var legal;
      legal, openBlock, configStack, g, repr :=
        Transition(tokenType, token, lastTokenType, openBlock, configStack, g, repr);
      if !legal {
        break;
      }
      lastTokenType := tokenType;
    }
    BaseKept(g, configStack, repr);
    return false, repr - {config};
  }

  /** Printing a tree of objects and parsing the text into a new node gives objects of its own for the same tree. */
  method PrintThenParse(config: NginxConfig, depth: int, ghost c: Config, ghost objs: set<object>)
    returns (ok: bool, copy: NginxConfig, ghost more: set<object>)
    requires Represents(config.statements, c, objs)
    ensures ok <==> ParseText(PrintConfig(c, depth)).Some?
    ensures Printable(c) ==> ok
    ensures Printable(c) ==> Represents(copy.statements, c, more)
    ensures fresh(copy) && fresh(more)
  {
    var text := config.ToString(depth, c, objs);
    var input := new InputStream(text);
    copy := new NginxConfig();
    ok, more := Parse(input, copy);
    RoundTripExactly(c, depth);
  }
}
