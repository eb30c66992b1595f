/** How `CrudHandler` reads an entity and an id out of a request path: which paths it accepts,
    and that printing such a path with a query inverts the reading. */
module CrudPath {
  import opened Text
  import opened Maps
  import opened HttpRequest

  datatype Target = Target(entity: string, id: Option<string>)

  function DropSlash(s: string): string {
    if s != "" && s[0] == '/' then s[1..] else s
  }

  function ParseSegments(rest: string): Option<Target> {
    match FindChar(rest, '/', 0)
    case None => if rest == "" then None else Some(Target(rest, None))
    case Some(i) =>
      var id := rest[i + 1..];
      if '/' in id || rest[..i] == "" then None
      else Some(Target(rest[..i], if id == "" then None else Some(id)))
  }

  /** `parse_entity_and_id_from_path`; None is a rejected path. */
  function ParsePath(prefix: string, path: string): Option<Target> {
    var p := BasePath(path);
    if !StartsWith(p, prefix) then None
    else ParseSegments(DropSlash(p[|prefix|..]))
  }

  // Acceptance.

  predicate IsTarget(t: Target) {
    && t.entity != "" && '/' !in t.entity
    && (t.id.Some? ==> t.id.value != "" && '/' !in t.id.value)
  }

  /** What may follow the entity: its id, or nothing, be it behind a slash. */
  predicate IsEnding(id: Option<string>, ending: string) {
    match id
    case None => ending == "" || ending == "/"
    case Some(i) => ending == "/" + i
  }

  lemma SegmentsOf(t: Target, ending: string)
    requires IsTarget(t) && IsEnding(t.id, ending)
    ensures ParseSegments(t.entity + ending) == Some(t)
  {
    var rest := t.entity + ending;
    if ending == "" {
      assert rest == t.entity;
    } else {
      var id := ending[1..];
      FindCharUnique(rest, '/', 0, |t.entity|);
      assert rest[..|t.entity|] == t.entity && rest[|t.entity| + 1..] == id;
    }
  }

  lemma SegmentsAccepted(rest: string) returns (ending: string)
    requires ParseSegments(rest).Some?
    ensures var t := ParseSegments(rest).value; IsTarget(t) && IsEnding(t.id, ending) && rest == t.entity + ending
  {
    match FindChar(rest, '/', 0) {
      case None => ending := "";
      case Some(i) =>
        ending := rest[i..];
        assert ending == "/" + rest[i + 1..];
    }
  }

  /** The paths that name a target: prefix, at most one slash, entity, and an ending. */
  predicate Names(prefix: string, base: string, t: Target, slash: string, ending: string) {
    IsTarget(t) && (slash == "" || slash == "/") && IsEnding(t.id, ending) && base == prefix + slash + t.entity + ending
  }

  lemma NamedIsParsed(prefix: string, path: string, t: Target, slash: string, ending: string)
    requires Names(prefix, BasePath(path), t, slash, ending)
    ensures ParsePath(prefix, path) == Some(t)
  {
    var p := BasePath(path);
    assert p[..|prefix|] == prefix;
    assert p[|prefix|..] == slash + (t.entity + ending);
    assert t.entity[0] in t.entity;
    assert DropSlash(slash + (t.entity + ending)) == t.entity + ending;
    SegmentsOf(t, ending);
  }

  lemma DroppedSlash(s: string) returns (slash: string)
    ensures (slash == "" || slash == "/") && s == slash + DropSlash(s)
  {
    slash := if s != "" && s[0] == '/' then "/" else "";
  }

  lemma Glue(p: string, a: string, rest: string, b: string, rest': string, c: string, d: string)
    requires StartsWith(p, a) && rest == p[|a|..] && rest == b + rest' && rest' == c + d
    ensures p == a + b + c + d
  {
    assert p == a + rest;
  }

  lemma ParsedIsNamed(prefix: string, path: string) returns (slash: string, ending: string)
    requires ParsePath(prefix, path).Some?
    ensures Names(prefix, BasePath(path), ParsePath(prefix, path).value, slash, ending)
  {
    var rest := BasePath(path)[|prefix|..];
    slash := DroppedSlash(rest);
    ending := SegmentsAccepted(DropSlash(rest));
    Glue(BasePath(path), prefix, rest, slash, DropSlash(rest), ParsePath(prefix, path).value.entity, ending);
  }

  /** A path is accepted as a target exactly when its part in front of the query names it. */
  lemma AcceptedExactly(prefix: string, path: string, t: Target)
    ensures ParsePath(prefix, path) == Some(t) <==>
            exists slash, ending :: Names(prefix, BasePath(path), t, slash, ending)
  {
    if ParsePath(prefix, path) == Some(t) {
      var slash, ending := ParsedIsNamed(prefix, path);
    }
    if slash, ending :| Names(prefix, BasePath(path), t, slash, ending) {
      NamedIsParsed(prefix, path, t, slash, ending);
    }
  }

  // Paths with queries.

  function PathText(prefix: string, t: Target): string {
    prefix + "/" + t.entity + match t.id case None => "" case Some(id) => "/" + id
  }

  /** `k=v&k=v...` */
  function QueryText(ps: Pairs<string>): string {
    if ps == [] then ""
    else if |ps| == 1 then ps[0].0 + "=" + ps[0].1
    else ps[0].0 + "=" + ps[0].1 + "&" + QueryText(ps[1..])
  }

  predicate SendableParams(ps: Pairs<string>) {
    forall i :: 0 <= i < |ps| ==> '=' !in ps[i].0 && '&' !in ps[i].0 && '&' !in ps[i].1
  }

  lemma ReadParam(params: map<string, string>, k: string, v: string)
    requires '=' !in k
    ensures AddParam(params, k + "=" + v) == params[k := v]
  {
    var piece := k + "=" + v;
    FindCharUnique(piece, '=', 0, |k|);
    assert piece[..|k|] == k && piece[|k| + 1..] == v;
  }

  lemma OnePiece(k: string, v: string, rest: string)
    requires '&' !in k && '&' !in v
    ensures LineOf(k + "=" + v, '&') == k + "=" + v && AfterLine(k + "=" + v, '&') == ""
    ensures LineOf(k + "=" + v + "&" + rest, '&') == k + "=" + v && AfterLine(k + "=" + v + "&" + rest, '&') == rest
  {
    var piece := k + "=" + v;
    assert '&' !in piece;
    LineOfLast(piece, '&');
    LineOfConcat(piece, '&', rest);
    assert piece + ['&'] + rest == k + "=" + v + "&" + rest;
  }

  lemma {:induction false} ReadQueryText(params: map<string, string>, ps: Pairs<string>)
    requires SendableParams(ps)
    ensures AddParams(params, QueryText(ps)) == Assign(params, ps)
    decreases |ps|
  {
    if ps != [] {
      var (k, v) := ps[0];
      ReadParam(params, k, v);
      AddParamsStep(params, QueryText(ps));
      if |ps| == 1 {
        OnePiece(k, v, "");
        assert ps[1..] == [];
        AddParamsStep(params[k := v], "");
      } else {
        OnePiece(k, v, QueryText(ps[1..]));
        ReadQueryText(params[k := v], ps[1..]);
      }
    }
  }

  lemma SplitAtQuery(base: string, query: string)
    requires '?' !in base
    ensures BasePath(base + "?" + query) == base && QueryParams(base + "?" + query) == AddParams(map[], query)
    ensures BasePath(base) == base && QueryParams(base) == map[]
  {
    LineOfConcat(base, '?', query);
    assert base + ['?'] + query == base + "?" + query;
    LineOfLast(base, '?');
    AddParamsStep(map[], "");
  }

  /** Reading inverts printing: from a path with a query the target and the parameters come back. */
  lemma PathAndQueryInvert(prefix: string, t: Target, ps: Pairs<string>)
    requires '?' !in prefix && IsTarget(t) && '?' !in t.entity && (t.id.Some? ==> '?' !in t.id.value)
    requires SendableParams(ps)
    ensures ParsePath(prefix, PathText(prefix, t) + "?" + QueryText(ps)) == Some(t)
    ensures QueryParams(PathText(prefix, t) + "?" + QueryText(ps)) == FromPairs(ps)
    ensures ParsePath(prefix, PathText(prefix, t)) == Some(t) && QueryParams(PathText(prefix, t)) == map[]
  {
    var base := PathText(prefix, t);
    var ending := match t.id case None => "" case Some(id) => "/" + id;
    assert '?' !in base && base == prefix + "/" + t.entity + ending;
    SplitAtQuery(base, QueryText(ps));
    NamedIsParsed(prefix, base + "?" + QueryText(ps), t, "/", ending);
    NamedIsParsed(prefix, base, t, "/", ending);
    ReadQueryText(map[], ps);
    AssignFromPairs(map[], ps);
  }
}
