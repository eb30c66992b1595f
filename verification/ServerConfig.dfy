/** `ServerConfig`: from the configuration tree to a port and a route table. */
module ServerConfig {
  import opened Text
  import opened Numbers
  import opened Maps
  import opened ConfigLexer
  import opened ConfigGrammar
  import opened ConfigText
  import opened ConfigParser

  datatype HandlerConfig = HandlerConfig(handlerType: string, settings: map<string, string>)

  const DEFAULT_PORT := 8080

  // What the tree stands for.

  function ApplySetting(h: HandlerConfig, st: Statement): HandlerConfig {
    if |st.tokens| < 2 then h
    else if st.tokens[0] == "handler" then h.(handlerType := st.tokens[1])
    else h.(settings := h.settings[st.tokens[0] := st.tokens[1]])
  }

  function HandlerOf(block: Config): HandlerConfig {
    if block == [] then HandlerConfig("", map[])
    else ApplySetting(HandlerOf(block[..|block| - 1]), block[|block| - 1])
  }

  /** The fields of the loader; `ok` is false once a port could not be read. */
  datatype Loading = Loading(ok: bool, port: int, routes: map<string, HandlerConfig>)

  function ApplyServerStatement(l: Loading, st: Statement): Loading
    requires st.tokens != []
  {
    if !l.ok then l
    else if st.tokens[0] == "listen" && |st.tokens| >= 2 then
      match Stoi(st.tokens[1])
      case Converted(n) => l.(port := n)
      case _ => l.(ok := false)
    else if st.tokens[0] == "location" && |st.tokens| >= 2 && st.Block? then
      l.(routes := l.routes[st.tokens[1] := HandlerOf(st.body)])
    else l
  }

  predicate Named(c: Config) {
    forall st :: st in c ==> st.tokens != []
  }

  function ApplyServerBlock(l: Loading, block: Config): Loading
    requires Named(block)
  {
    if block == [] then l
    else ApplyServerStatement(ApplyServerBlock(l, block[..|block| - 1]), block[|block| - 1])
  }

  predicate IsServer(st: Statement)
    requires st.tokens != []
  {
    st.tokens[0] == "server" && st.Block?
  }

  /** The unguarded reads of a statement's first token are defined: up to the first
      server block, and inside it. */
  predicate ReadsDefined(c: Config) {
    c != [] ==>
      && c[0].tokens != []
      && if IsServer(c[0]) then Named(c[0].body) else ReadsDefined(c[1..])
  }

  /** The first server block decides; without one the load fails and changes nothing. */
  function Load(l: Loading, c: Config): Loading
    requires ReadsDefined(c) && l.ok
  {
    if c == [] then l.(ok := false)
    else if IsServer(c[0]) then
      var l' := ApplyServerBlock(l, c[0].body);
      l'.(ok := l'.ok && l'.port > 0 && l'.routes != map[])
    else Load(l, c[1..])
  }

  lemma ApplyNext(l: Loading, c: Config, i: nat)
    requires i < |c| && Named(c)
    ensures ApplyServerBlock(l, c[..i + 1]) == ApplyServerStatement(ApplyServerBlock(l, c[..i]), c[i])
  {
    assert c[..i + 1][..i] == c[..i];
  }

  method ParseHandlerConfig(block: NginxConfig, ghost c: Config, ghost objs: set<object>)
    returns (config: HandlerConfig)
    requires Represents(block.statements, c, objs)
    ensures config == HandlerOf(c)
  {
    config := HandlerConfig("", map[]);
    var i := 0;
    while i < |block.statements|
      invariant 0 <= i <= |block.statements| && config == HandlerOf(c[..i])
    {
      assert RepresentsStatement(block.statements[i], c[i], objs) && c[..i + 1][..i] == c[..i];
      var tokens := block.statements[i].tokens;
      i := i + 1;
      if tokens == [] {
        continue;
      }
      var key := tokens[0];
      if key == "handler" && |tokens| >= 2 {
        config := config.(handlerType := tokens[1]);
      } else if |tokens| >= 2 {
        config := config.(settings := config.settings[key := tokens[1]]);
      }
    }
    assert c[..i] == c;
  }

  lemma LoadStaysFailed(l: Loading, c: Config, i: nat)
    requires Named(c) && i <= |c| && !ApplyServerBlock(l, c[..i]).ok
    ensures ApplyServerBlock(l, c) == ApplyServerBlock(l, c[..i])
    decreases |c| - i
  {
    if i < |c| {
      assert c[..i + 1][..i] == c[..i];
      LoadStaysFailed(l, c, i + 1);
    } else {
      assert c[..i] == c;
    }
  }

  // When loading succeeds, and with what, statement by statement.

  predicate IsListen(st: Statement) {
    |st.tokens| >= 2 && st.tokens[0] == "listen"
  }

  predicate IsLocation(st: Statement, path: string) {
    |st.tokens| >= 2 && st.tokens[0] == "location" && st.tokens[1] == path && st.Block?
  }

  /** The port is that of the last statement that listens, or the initial one where none does. */
  predicate HasPort(port: int, block: Config, initial: int) {
    || (port == initial && forall i :: 0 <= i < |block| ==> !IsListen(block[i]))
    || (exists i :: 0 <= i < |block| && IsListen(block[i]) && Stoi(block[i].tokens[1]) == Converted(port)
                    && forall j :: i < j < |block| ==> !IsListen(block[j]))
  }

  /** A route has the handler of its last location, or is as it was where there is none. */
  predicate HasRoute(routes: map<string, HandlerConfig>, block: Config, initial: map<string, HandlerConfig>,
                     path: string) {
    || ((forall i :: 0 <= i < |block| ==> !IsLocation(block[i], path))
        && (path in routes <==> path in initial) && (path in routes ==> routes[path] == initial[path]))
    || (exists i :: 0 <= i < |block| && IsLocation(block[i], path) && path in routes
                    && routes[path] == HandlerOf(block[i].body)
                    && forall j :: i < j < |block| ==> !IsLocation(block[j], path))
  }

  ghost predicate HasRoutes(routes: map<string, HandlerConfig>, block: Config, initial: map<string, HandlerConfig>) {
    forall path :: HasRoute(routes, block, initial, path)
  }

  /** Every port in the block is a number of an int. */
  predicate PortsConvert(block: Config) {
    forall i :: 0 <= i < |block| && IsListen(block[i]) ==> Stoi(block[i].tokens[1]).Converted?
  }

  lemma PortSnoc(port: int, block: Config, initial: int, st: Statement, now: int)
    requires HasPort(port, block, initial)
    requires if IsListen(st) then Stoi(st.tokens[1]) == Converted(now) else now == port
    ensures HasPort(now, block + [st], initial)
  {
    var more := block + [st];
    if IsListen(st) {
      assert more[|block|] == st;
    } else if i :| 0 <= i < |block| && IsListen(block[i]) && Stoi(block[i].tokens[1]) == Converted(port)
                   && forall j :: i < j < |block| ==> !IsListen(block[j]) {
      assert more[i] == block[i];
    }
  }

  lemma RouteSnoc(routes: map<string, HandlerConfig>, block: Config, initial: map<string, HandlerConfig>, st: Statement,
                  now: map<string, HandlerConfig>, path: string)
    requires HasRoute(routes, block, initial, path)
    requires if IsLocation(st, path) then path in now && now[path] == HandlerOf(st.body)
             else (path in now <==> path in routes) && (path in now ==> now[path] == routes[path])
    ensures HasRoute(now, block + [st], initial, path)
  {
    var more := block + [st];
    if IsLocation(st, path) {
      assert more[|block|] == st;
    } else if i :| 0 <= i < |block| && IsLocation(block[i], path) && path in routes
                   && routes[path] == HandlerOf(block[i].body)
                   && forall j :: i < j < |block| ==> !IsLocation(block[j], path) {
      assert more[i] == block[i];
    }
  }

  lemma StatementSets(l: Loading, st: Statement, path: string)
    requires st.tokens != [] && l.ok && (IsListen(st) ==> Stoi(st.tokens[1]).Converted?)
    ensures var r := ApplyServerStatement(l, st);
            && r.ok && (if IsListen(st) then Stoi(st.tokens[1]) == Converted(r.port) else r.port == l.port)
            && if IsLocation(st, path) then path in r.routes && r.routes[path] == HandlerOf(st.body)
               else (path in r.routes <==> path in l.routes) && (path in r.routes ==> r.routes[path] == l.routes[path])
  {}

  lemma InitOf(block: Config)
    requires block != []
    ensures block == block[..|block| - 1] + [block[|block| - 1]]
  {}

  /** A block whose ports convert sets the last port and the last location of each path. */
  lemma {:induction false} BlockSets(l: Loading, block: Config)
    requires Named(block) && l.ok && PortsConvert(block)
    ensures var r := ApplyServerBlock(l, block);
            r.ok && HasPort(r.port, block, l.port) && HasRoutes(r.routes, block, l.routes)
    decreases |block|
  {
    if block != [] {
      var init, st := block[..|block| - 1], block[|block| - 1];
      InitOf(block);
      BlockSets(l, init);
      var was := ApplyServerBlock(l, init);
      StatementSets(was, st, "");
      PortSnoc(was.port, init, l.port, st, ApplyServerBlock(l, block).port);
      forall path ensures HasRoute(ApplyServerBlock(l, block).routes, block, l.routes, path) {
        StatementSets(was, st, path);
        assert HasRoute(was.routes, init, l.routes, path);
        RouteSnoc(was.routes, init, l.routes, st, ApplyServerBlock(l, block).routes, path);
      }
    }
  }

  lemma BadPortFails(l: Loading, block: Config, k: nat)
    requires Named(block) && l.ok && k < |block| && IsListen(block[k]) && !Stoi(block[k].tokens[1]).Converted?
    ensures !ApplyServerBlock(l, block).ok
  {
    ApplyNext(l, block, k);
    LoadStaysFailed(l, block, k + 1);
  }

  /** Loading a block fails at the first port that does not convert, and keeps what was set in front of it. */
  lemma FirstBadPort(l: Loading, block: Config, k: nat)
    requires Named(block) && l.ok && k < |block| && PortsConvert(block[..k])
    requires IsListen(block[k]) && !Stoi(block[k].tokens[1]).Converted?
    ensures var r := ApplyServerBlock(l, block);
            !r.ok && HasPort(r.port, block[..k], l.port) && HasRoutes(r.routes, block[..k], l.routes)
  {
    BlockSets(l, block[..k]);
    ApplyNext(l, block, k);
    LoadStaysFailed(l, block, k + 1);
  }

  lemma RoutesSet(routes: map<string, HandlerConfig>, block: Config, initial: map<string, HandlerConfig>)
    requires HasRoutes(routes, block, initial)
    ensures routes != map[] <==> initial != map[] || exists i, path :: 0 <= i < |block| && IsLocation(block[i], path)
  {
    if path :| path in routes {
      assert HasRoute(routes, block, initial, path);
    }
    if path :| path in initial {
      assert HasRoute(routes, block, initial, path);
    }
    if i, path :| 0 <= i < |block| && IsLocation(block[i], path) {
      assert HasRoute(routes, block, initial, path);
    }
  }

  /** Statement `i` is the first `server` with a block. */
  predicate IsFirstServer(c: Config, i: nat) {
    && i < |c| && c[i].Block? && c[i].tokens != [] && c[i].tokens[0] == "server"
    && forall j :: 0 <= j < i && c[j].Block? && c[j].tokens != [] ==> c[j].tokens[0] != "server"
  }

  lemma {:induction false} LoadIsFirstServer(l: Loading, c: Config, i: nat)
    requires ReadsDefined(c) && l.ok && IsFirstServer(c, i)
    ensures Named(c[i].body)
    ensures var r := ApplyServerBlock(l, c[i].body);
            Load(l, c) == r.(ok := r.ok && r.port > 0 && r.routes != map[])
    decreases i
  {
    if i > 0 {
      assert IsFirstServer(c[1..], i - 1) by {
        assert forall j :: 0 <= j < i - 1 ==> c[1..][j] == c[j + 1];
      }
      LoadIsFirstServer(l, c[1..], i - 1);
    }
  }

  lemma {:induction false} NoServerFails(l: Loading, c: Config)
    requires ReadsDefined(c) && l.ok
    requires forall i :: 0 <= i < |c| && c[i].Block? && c[i].tokens != [] ==> c[i].tokens[0] != "server"
    ensures Load(l, c) == l.(ok := false)
    decreases |c|
  {
    if c != [] {
      assert forall j :: 0 <= j < |c| - 1 ==> c[1..][j] == c[j + 1];
      NoServerFails(l, c[1..]);
    }
  }

  /** The block gives a positive port and a route. */
  ghost predicate Suffices(block: Config, port: int, routes: map<string, HandlerConfig>) {
    && PortsConvert(block) && (forall p :: HasPort(p, block, port) ==> p > 0)
    && (routes != map[] || exists i, path :: 0 <= i < |block| && IsLocation(block[i], path))
  }

  lemma OnePort(a: int, b: int, block: Config, initial: int)
    requires HasPort(a, block, initial) && HasPort(b, block, initial)
    ensures a == b
  {}

  lemma FirstServerExists(c: Config, i: nat) returns (k: nat)
    requires i < |c| && c[i].Block? && c[i].tokens != [] && c[i].tokens[0] == "server"
    ensures IsFirstServer(c, k)
    decreases i
  {
    k := i;
    if j :| 0 <= j < i && c[j].Block? && c[j].tokens != [] && c[j].tokens[0] == "server" {
      k := FirstServerExists(c, j);
    }
  }

  lemma BlockSuffices(l: Loading, block: Config)
    requires Named(block) && l.ok
    ensures var r := ApplyServerBlock(l, block);
            r.ok && r.port > 0 && r.routes != map[] <==> Suffices(block, l.port, l.routes)
  {
    if PortsConvert(block) {
      var r := ApplyServerBlock(l, block);
      BlockSets(l, block);
      RoutesSet(r.routes, block, l.routes);
      forall p | HasPort(p, block, l.port) ensures p == r.port { OnePort(p, r.port, block, l.port); }
    } else {
      var k :| 0 <= k < |block| && IsListen(block[k]) && !Stoi(block[k].tokens[1]).Converted?;
      BadPortFails(l, block, k);
    }
  }

  /** Loading answers true just when there is a first `server` with a block, in which every port converts, the last
      of them or else the initial one is positive, and there is a location with a block, or there were routes. */
  lemma LoadsExactly(l: Loading, c: Config)
    requires ReadsDefined(c) && l.ok
    ensures Load(l, c).ok <==> exists i: nat :: IsFirstServer(c, i) && Suffices(c[i].body, l.port, l.routes)
    ensures forall i: nat :: IsFirstServer(c, i) && PortsConvert(c[i].body) ==>
              && HasPort(Load(l, c).port, c[i].body, l.port) && HasRoutes(Load(l, c).routes, c[i].body, l.routes)
  {
    forall i: nat | IsFirstServer(c, i)
      ensures Load(l, c).ok <==> Suffices(c[i].body, l.port, l.routes)
      ensures PortsConvert(c[i].body) ==>
                HasPort(Load(l, c).port, c[i].body, l.port) && HasRoutes(Load(l, c).routes, c[i].body, l.routes)
    {
      LoadIsFirstServer(l, c, i);
      BlockSuffices(l, c[i].body);
      if PortsConvert(c[i].body) {
        BlockSets(l, c[i].body);
      }
    }
    if i :| 0 <= i < |c| && c[i].Block? && c[i].tokens != [] && c[i].tokens[0] == "server" {
      var k := FirstServerExists(c, i);
    } else {
      NoServerFails(l, c);
    }
  }

  // The handler of a location, statement by statement.

  predicate SetsKey(st: Statement, key: string) {
    |st.tokens| >= 2 && st.tokens[0] == key
  }

  /** The value of the last statement with this key, or None. */
  predicate IsLastOf(value: Option<string>, block: Config, key: string) {
    match value
    case None => forall i :: 0 <= i < |block| ==> !SetsKey(block[i], key)
    case Some(v) =>
      exists i :: 0 <= i < |block| && SetsKey(block[i], key) && block[i].tokens[1] == v
                  && forall j :: i < j < |block| ==> !SetsKey(block[j], key)
  }

  function SettingIn(h: HandlerConfig, key: string): Option<string> {
    if key in h.settings then Some(h.settings[key]) else None
  }

  lemma LastOfSnoc(value: Option<string>, block: Config, key: string, st: Statement)
    requires IsLastOf(value, block, key)
    ensures IsLastOf(if SetsKey(st, key) then Some(st.tokens[1]) else value, block + [st], key)
  {
    var more := block + [st];
    if SetsKey(st, key) {
      assert more[|block|] == st;
    } else if value.Some? {
      var i :| 0 <= i < |block| && SetsKey(block[i], key) && block[i].tokens[1] == value.value
               && forall j :: i < j < |block| ==> !SetsKey(block[j], key);
      assert more[i] == block[i];
    }
  }

  /** Type and settings of a handler are the second tokens of the last statements with these keys; `handler` is no
      setting, and without it the type is empty. */
  lemma {:induction false} HandlerExactly(block: Config, key: string)
    ensures var h := HandlerOf(block);
            && (key != "handler" ==> IsLastOf(SettingIn(h, key), block, key)) && "handler" !in h.settings
            && (IsLastOf(Some(h.handlerType), block, "handler")
                || (h.handlerType == "" && IsLastOf(None, block, "handler")))
    decreases |block|
  {
    if block != [] {
      var init, st := block[..|block| - 1], block[|block| - 1];
      InitOf(block);
      HandlerExactly(init, key);
      if key != "handler" {
        LastOfSnoc(SettingIn(HandlerOf(init), key), init, key, st);
      }
      if IsLastOf(Some(HandlerOf(init).handlerType), init, "handler") {
        LastOfSnoc(Some(HandlerOf(init).handlerType), init, "handler", st);
      } else {
        LastOfSnoc(None, init, "handler", st);
      }
    }
  }

  class ServerConfig {
    var port: int
    var routes: map<string, HandlerConfig>

    ghost function Fields(): Loading
      reads this
    {
      Loading(true, port, routes)
    }

    constructor ()
      ensures Fields() == Loading(true, DEFAULT_PORT, map[]) && port == 8080
    {
      port, routes := DEFAULT_PORT, map[];
    }

    /** `server_config.cc:15-33`, one statement of the server block; false where the port is invalid. */
    method LoadServerStatement(statement: NginxConfigStatement, ghost st: Statement, ghost objs: set<object>)
      returns (valid: bool)
      requires RepresentsStatement(statement, st, objs) && this !in objs && st.tokens != []
      modifies this
      ensures Fields().(ok := valid) == ApplyServerStatement(old(Fields()), st)
    {
      if statement.tokens[0] == "listen" && |statement.tokens| >= 2 {
        match Stoi(statement.tokens[1]) {
          case Converted(n) =>
            port := n;
          case _ =>
            return false;
        }
      }
      if statement.tokens[0] == "location" && |statement.tokens| >= 2 {
        var path := statement.tokens[1];
        if statement.childBlock != null {
          var handlerConfig := ParseHandlerConfig(statement.childBlock, st.body, objs);
          routes := routes[path := handlerConfig];
        }
      }
      valid := true;
    }

    /** `server_config.cc:12-36`, the loop over the statements of the server block. */
    method LoadServerBlock(server: NginxConfig, ghost c: Config, ghost objs: set<object>) returns (ok: bool)
      requires Represents(server.statements, c, objs) && this !in objs && Named(c)
      modifies this
      ensures var l := ApplyServerBlock(old(Fields()), c);
              port == l.port && routes == l.routes && ok == (l.ok && l.port > 0 && l.routes != map[])
    {
      var i := 0;
      while i < |server.statements|
        invariant 0 <= i <= |server.statements| == |c|
        invariant Represents(server.statements, c, objs)
        invariant Fields() == ApplyServerBlock(old(Fields()), c[..i])
      {
        assert RepresentsStatement(server.statements[i], c[i], objs);
        ApplyNext(old(Fields()), c, i);
        var valid := LoadServerStatement(server.statements[i], c[i], objs);
        if !valid {
          LoadStaysFailed(old(Fields()), c, i + 1);
          return false;
        }
        i := i + 1;
      }
      assert c[..i] == c;
      return port > 0 && routes != map[];
    }

    method LoadFromNginxConfig(config: NginxConfig, ghost c: Config, ghost objs: set<object>) returns (ok: bool)
      requires Represents(config.statements, c, objs) && this !in objs && ReadsDefined(c)
      modifies this
      ensures ok == Load(old(Fields()), c).ok
      ensures port == Load(old(Fields()), c).port && routes == Load(old(Fields()), c).routes
    {
      var i := 0;
      while i < |config.statements|
        invariant 0 <= i <= |config.statements| == |c| && ReadsDefined(c[i..])
        invariant Fields() == old(Fields()) && Load(Fields(), c[i..]) == Load(Fields(), c)
      {
        var statement := config.statements[i];
        assert RepresentsStatement(statement, c[i], objs) && c[i..][0] == c[i] && c[i..][1..] == c[i + 1..];
        if statement.tokens[0] == "server" && statement.childBlock != null {
          ok := LoadServerBlock(statement.childBlock, c[i].body, objs);
          return;
        }
        i := i + 1;
      }
      return false;
    }
  }

  // Writing a port and a route table as a configuration.

  function SettingTrees(ps: Pairs<string>): Config {
    seq(|ps|, i requires 0 <= i < |ps| => Simple([ps[i].0, ps[i].1]))
  }

  function HandlerTree(h: HandlerConfig): Config {
    [Simple(["handler", h.handlerType])] + SettingTrees(SortedPairs(h.settings))
  }

  function RouteTrees(ps: Pairs<HandlerConfig>): Config {
    seq(|ps|, i requires 0 <= i < |ps| => Block(["location", ps[i].0], HandlerTree(ps[i].1)))
  }

  /** `server { listen port; location path { handler type; key value; ... } ... }` */
  function ServerTree(port: int, routes: map<string, HandlerConfig>): Config {
    [Block(["server"], [Simple(["listen", IntToString(port)])] + RouteTrees(SortedPairs(routes)))]
  }

  predicate WritableHandler(h: HandlerConfig) {
    IsToken(h.handlerType) && forall k :: k in h.settings ==> k != "handler" && IsToken(k) && IsToken(h.settings[k])
  }

  predicate Writable(routes: map<string, HandlerConfig>) {
    forall path :: path in routes ==> IsToken(path) && WritableHandler(routes[path])
  }

  lemma {:induction false} HandlerOfSettings(first: Statement, ps: Pairs<string>)
    requires |first.tokens| >= 2 && first.tokens[0] == "handler"
    requires forall i :: 0 <= i < |ps| ==> ps[i].0 != "handler"
    ensures HandlerOf([first] + SettingTrees(ps)) == HandlerConfig(first.tokens[1], FromPairs(ps))
    decreases |ps|
  {
    var c := [first] + SettingTrees(ps);
    if ps == [] {
      assert c == [first] && c[..0] == [];
    } else {
      var n := |ps| - 1;
      HandlerOfSettings(first, ps[..n]);
      assert c[..n + 1] == [first] + SettingTrees(ps[..n]);
    }
  }

  lemma HandlerRoundTrip(h: HandlerConfig)
    requires "handler" !in h.settings
    ensures HandlerOf(HandlerTree(h)) == h
  {
    SortedPairsOf(h.settings);
    HandlerOfSettings(Simple(["handler", h.handlerType]), SortedPairs(h.settings));
  }

  lemma ListenStatement(l: Loading, port: int)
    requires l.ok && INT_MIN <= port <= INT_MAX
    ensures ApplyServerBlock(l, [Simple(["listen", IntToString(port)])]) == l.(port := port)
  {
    StoiOfToString(port);
    assert [Simple(["listen", IntToString(port)])][..0] == [];
  }

  function RouteTree(path: string, h: HandlerConfig): Statement {
    Block(["location", path], HandlerTree(h))
  }

  lemma RouteTreesSnoc(ps: Pairs<HandlerConfig>, path: string, h: HandlerConfig)
    ensures RouteTrees(ps + [(path, h)]) == RouteTrees(ps) + [RouteTree(path, h)]
  {}

  lemma LoadRoute(l: Loading, c: Config, path: string, h: HandlerConfig)
    requires Named(c) && ApplyServerBlock(l, c).ok && "handler" !in h.settings
    ensures var r := ApplyServerBlock(l, c);
            ApplyServerBlock(l, c + [RouteTree(path, h)]) == r.(routes := r.routes[path := h])
  {
    ApplyNext(l, c + [RouteTree(path, h)], |c|);
    assert (c + [RouteTree(path, h)])[..|c|] == c && (c + [RouteTree(path, h)])[..|c| + 1] == c + [RouteTree(path, h)];
    HandlerRoundTrip(h);
  }

  lemma RouteTreesNamed(ps: Pairs<HandlerConfig>)
    ensures Named(RouteTrees(ps))
  {}

  lemma {:induction false} LoadRoutes(l: Loading, listen: Statement, ps: Pairs<HandlerConfig>)
    requires listen.tokens != [] && ApplyServerBlock(l, [listen]).ok && ApplyServerBlock(l, [listen]).routes == map[]
    requires forall i :: 0 <= i < |ps| ==> "handler" !in ps[i].1.settings
    ensures Named([listen] + RouteTrees(ps))
    ensures ApplyServerBlock(l, [listen] + RouteTrees(ps)) == ApplyServerBlock(l, [listen]).(routes := FromPairs(ps))
    decreases |ps|
  {
    RouteTreesNamed(ps);
    if ps == [] {
      assert [listen] + RouteTrees(ps) == [listen];
    } else {
      var init := ps[..|ps| - 1];
      var (path, h) := ps[|ps| - 1];
      assert ps == init + [(path, h)];
      LoadRoutes(l, listen, init);
      RouteTreesSnoc(init, path, h);
      assert [listen] + RouteTrees(ps) == [listen] + RouteTrees(init) + [RouteTree(path, h)];
      LoadRoute(l, [listen] + RouteTrees(init), path, h);
    }
  }

  /** A server block loads back to the port and the route table it was written from. */
  lemma LoadServerTree(port: int, routes: map<string, HandlerConfig>, l: Loading)
    requires 0 < port <= INT_MAX && routes != map[] && l.ok && l.routes == map[]
    requires forall path :: path in routes ==> "handler" !in routes[path].settings
    ensures ReadsDefined(ServerTree(port, routes))
    ensures Load(l, ServerTree(port, routes)) == Loading(true, port, routes)
  {
    SortedPairsOf(routes);
    ListenStatement(l, port);
    LoadRoutes(l, Simple(["listen", IntToString(port)]), SortedPairs(routes));
  }

  /** Whatever the parser accepts, the loader may read. */
  lemma DerivationReadable(c: Config)
    requires Derivation(c)
    ensures ReadsDefined(c)
    decreases |c|
  {
    if c != [] {
      assert c[0] in c;
      DerivationReadable(c[1..]);
    }
  }

  lemma ParsedIsReadable(s: string)
    ensures ParseText(s).Some? ==> ReadsDefined(ParseText(s).value)
  {
    if ParseText(s).Some? {
      ParseIsGrammar(s, ParseText(s).value);
      DerivationReadable(ParseText(s).value);
    }
  }

  lemma NumberIsToken(n: nat)
    ensures IsToken(IntToString(n))
  {}

  lemma PrintableAppend(a: Config, b: Config)
    requires Printable(a) && Printable(b)
    ensures Printable(a + b)
  {}

  lemma PrintableStatement(st: Statement)
    requires st.tokens != [] && (forall w :: w in st.tokens ==> IsToken(w)) && (st.Block? ==> Printable(st.body))
    ensures Printable([st])
  {}

  lemma KeywordsAreTokens()
    ensures IsToken("server") && IsToken("listen") && IsToken("location") && IsToken("handler")
  {}

  lemma {:induction false} SettingTreesPrintable(ps: Pairs<string>)
    requires forall i :: 0 <= i < |ps| ==> IsToken(ps[i].0) && IsToken(ps[i].1)
    ensures Printable(SettingTrees(ps))
    decreases |ps|
  {
    if ps != [] {
      var n := |ps| - 1;
      SettingTreesPrintable(ps[..n]);
      PrintableStatement(Simple([ps[n].0, ps[n].1]));
      PrintableAppend(SettingTrees(ps[..n]), [Simple([ps[n].0, ps[n].1])]);
      assert SettingTrees(ps) == SettingTrees(ps[..n]) + [Simple([ps[n].0, ps[n].1])];
    }
  }

  lemma HandlerTreePrintable(h: HandlerConfig)
    requires WritableHandler(h)
    ensures Printable(HandlerTree(h))
  {
    SortedPairsOf(h.settings);
    var ps := SortedPairs(h.settings);
    KeywordsAreTokens();
    SettingTreesPrintable(ps);
    PrintableStatement(Simple(["handler", h.handlerType]));
    PrintableAppend([Simple(["handler", h.handlerType])], SettingTrees(ps));
  }

  lemma {:induction false} RouteTreesPrintable(ps: Pairs<HandlerConfig>)
    requires forall i :: 0 <= i < |ps| ==> IsToken(ps[i].0) && WritableHandler(ps[i].1)
    ensures Printable(RouteTrees(ps))
    decreases |ps|
  {
    if ps != [] {
      var init := ps[..|ps| - 1];
      var (path, h) := ps[|ps| - 1];
      assert ps == init + [(path, h)];
      RouteTreesPrintable(init);
      KeywordsAreTokens();
      HandlerTreePrintable(h);
      PrintableStatement(RouteTree(path, h));
      PrintableAppend(RouteTrees(init), [RouteTree(path, h)]);
      RouteTreesSnoc(init, path, h);
    }
  }

  lemma SortedRoutesPrintable(routes: map<string, HandlerConfig>)
    requires Writable(routes)
    ensures Printable(RouteTrees(SortedPairs(routes)))
  {
    SortedPairsOf(routes);
    RouteTreesPrintable(SortedPairs(routes));
  }

  lemma ServerTreePrintable(port: nat, routes: map<string, HandlerConfig>)
    requires Writable(routes)
    ensures Printable(ServerTree(port, routes))
  {
    var ps, listen := SortedPairs(routes), Simple(["listen", IntToString(port)]);
    SortedRoutesPrintable(routes);
    KeywordsAreTokens();
    NumberIsToken(port);
    PrintableStatement(listen);
    PrintableAppend([listen], RouteTrees(ps));
    PrintableStatement(Block(["server"], [listen] + RouteTrees(ps)));
  }

  /** From a port and a route table to text and back: printing the server block at any
      depth, parsing the text and loading the tree gives the same port and routes. */
  lemma TextToRoutes(port: int, routes: map<string, HandlerConfig>, depth: int)
    requires 0 < port <= INT_MAX && routes != map[] && Writable(routes)
    ensures var parsed := ParseText(PrintConfig(ServerTree(port, routes), depth));
            && parsed.Some? && ReadsDefined(parsed.value)
            && Load(Loading(true, DEFAULT_PORT, map[]), parsed.value) == Loading(true, port, routes)
  {
    ServerTreePrintable(port, routes);
    RoundTripExactly(ServerTree(port, routes), depth);
    LoadServerTree(port, routes, Loading(true, DEFAULT_PORT, map[]));
  }
}
