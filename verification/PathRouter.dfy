/** `PathRouter`: the route a path is handled by is its longest non-empty prefix among the
    routes, and a CRUD handler never rejects the prefix it was chosen with. */
module PathRouter {
  import opened Text
  import opened HttpRequest
  import opened ServerConfig
  import opened CrudPath

  type Routes = map<string, HandlerConfig>

  predicate Applies(routes: set<string>, path: string, route: string) {
    route in routes && route != "" && |route| <= |path| && path[..|route|] == route
  }

  /** The longest of the first `n` characters of the path that is a route. */
  function LongestUpTo(routes: set<string>, path: string, n: nat): (r: Option<string>)
    requires n <= |path|
    ensures r.Some? ==> r.value in routes
  {
    if n == 0 then None
    else if path[..n] in routes then Some(path[..n])
    else LongestUpTo(routes, path, n - 1)
  }

  function Longest(routes: set<string>, path: string): (r: Option<string>)
    ensures r.Some? ==> r.value in routes
  {
    LongestUpTo(routes, path, |path|)
  }

  ghost predicate IsLongest(routes: set<string>, path: string, r: Option<string>) {
    match r
    case None => forall q :: !Applies(routes, path, q)
    case Some(p) => Applies(routes, path, p) && forall q :: Applies(routes, path, q) ==> |q| <= |p|
  }

  lemma {:induction false} LongestUpToIsLongest(routes: set<string>, path: string, n: nat)
    requires n <= |path|
    ensures var r := LongestUpTo(routes, path, n);
            && (r.Some? ==> Applies(routes, path, r.value) && |r.value| <= n)
            && forall q :: Applies(routes, path, q) && |q| <= n ==> r.Some? && |q| <= |r.value|
    decreases n
  {
    if n > 0 {
      LongestUpToIsLongest(routes, path, n - 1);
      forall q | Applies(routes, path, q) && |q| == n ensures q == path[..n] {}
    }
  }

  lemma LongestIsLongest(routes: set<string>, path: string)
    ensures IsLongest(routes, path, Longest(routes, path))
  {
    LongestUpToIsLongest(routes, path, |path|);
  }

  /** No two routes qualify: prefixes of one path with equal lengths are equal. */
  lemma LongestIsUnique(routes: set<string>, path: string, a: Option<string>)
    requires IsLongest(routes, path, a)
    ensures a == Longest(routes, path)
  {
    LongestIsLongest(routes, path);
    var b := Longest(routes, path);
    if a.Some? && b.Some? {
      assert a.value == path[..|a.value|] && b.value == path[..|b.value|];
    }
  }

  /** A new route changes the choice only for paths that begin with it, where it beats the old choice. */
  lemma AddingRoute(routes: set<string>, route: string, path: string)
    ensures var was := Longest(routes, path);
            Longest(routes + {route}, path) ==
            if route != "" && StartsWith(path, route) && (was.None? || |was.value| < |route|) then Some(route) else was
  {
    LongestIsLongest(routes, path);
    var was := Longest(routes, path);
    var wins := route != "" && StartsWith(path, route) && (was.None? || |was.value| < |route|);
    var now := if wins then Some(route) else was;
    forall q | Applies(routes + {route}, path, q) ensures now.Some? && |q| <= |now.value| {
      assert q == route || Applies(routes, path, q);
    }
    LongestIsUnique(routes + {route}, path, now);
  }

  class PathRouter {
    const routes: Routes

    constructor (routes: Routes)
      ensures this.routes == routes
    {
      this.routes := routes;
    }

    /** The configuration and the prefix the handler is created with. The routes may be visited in any order. */
    method MatchHandler(path: string) returns (handler: HandlerConfig, prefix: string)
      ensures match Longest(routes.Keys, path)
              case Some(route) => handler == routes[route] && prefix == route
              case None => handler == HandlerConfig("NotFoundHandler", map[]) && prefix == path
    {
      var prefixMatch := "";
      var maxLen := 0;
      var rest := routes.Keys;
      while rest != {}
        invariant rest <= routes.Keys && maxLen == |prefixMatch|
        invariant prefixMatch != "" ==> Applies(routes.Keys, path, prefixMatch)
        invariant forall q :: Applies(routes.Keys, path, q) && q !in rest ==> |q| <= maxLen
        decreases |rest|
      {
        var routePath :| routePath in rest;
        if StartsWith(path, routePath) {
          if |routePath| > maxLen {
            maxLen := |routePath|;
            prefixMatch := routePath;
          }
        }
        rest := rest - {routePath};
      }
      LongestIsUnique(routes.Keys, path, if prefixMatch != "" then Some(prefixMatch) else None);
      if prefixMatch != "" {
        return routes[prefixMatch], prefixMatch;
      }
      return HandlerConfig("NotFoundHandler", map[]), path;
    }
  }

  lemma PrefixChars(s: string, prefix: string)
    ensures StartsWith(s, prefix) ==> forall i :: 0 <= i < |prefix| ==> s[i] == prefix[i]
    ensures StartsWith(s, prefix) ==> forall c :: c in prefix ==> c in s
  {
    if StartsWith(s, prefix) {
      assert forall i :: 0 <= i < |prefix| ==> s[..|prefix|][i] == s[i];
    }
  }

  lemma PrefixOfBase(path: string, route: string)
    requires StartsWith(path, route)
    ensures StartsWith(BasePath(path), route) <==> '?' !in route
  {
    LineSplit(path, '?');
    PrefixChars(BasePath(path), route);
    PrefixChars(path, route);
    match FindChar(path, '?', 0) {
      case None =>
      case Some(i) =>
        if '?' !in route {
          assert i >= |route|;
          assert path[..i][..|route|] == path[..|route|];
        }
    }
  }

  /** A chosen route without a question mark still begins the path when the query is cut off,
      so the CRUD handler created for it judges the segments alone; one with a question mark
      never passes. */
  lemma ChosenPrefixIsAccepted(routes: set<string>, path: string)
    requires Longest(routes, path).Some?
    ensures var route := Longest(routes, path).value;
            && (StartsWith(BasePath(path), route) <==> '?' !in route)
            && ParsePath(route, path) ==
               if '?' in route then None else ParseSegments(DropSlash(BasePath(path)[|route|..]))
  {
    LongestIsLongest(routes, path);
    PrefixOfBase(path, Longest(routes, path).value);
  }
}
