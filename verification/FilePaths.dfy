/** The path arithmetic of `FileHandler`: from a request path to the file it names. */
module FilePaths {
  import opened Text
  import opened Streams
  import opened HttpRequest

  predicate IsComponent(part: string) {
    part != ".." && part != "." && part != ""
  }

  function Kept(parts: seq<string>): seq<string> {
    if parts == [] then []
    else (if IsComponent(parts[0]) then [parts[0]] else []) + Kept(parts[1..])
  }

  /** The components a path is made of: split at slashes, without empty, "." and ".." parts. */
  function Components(path: string): seq<string> {
    Kept(Pieces(path, '/'))
  }

  function Sanitized(path: string): string {
    Join(Components(path), "/")
  }

  // What the components are.

  predicate Clean(parts: seq<string>) {
    forall i :: 0 <= i < |parts| ==> IsComponent(parts[i]) && '/' !in parts[i]
  }

  lemma {:induction false} KeptIsClean(parts: seq<string>)
    requires forall i :: 0 <= i < |parts| ==> '/' !in parts[i]
    ensures Clean(Kept(parts))
    decreases |parts|
  {
    if parts != [] {
      KeptIsClean(parts[1..]);
    }
  }

  lemma ComponentsAreClean(path: string)
    ensures Clean(Components(path))
  {
    var parts := Pieces(path, '/');
    forall i | 0 <= i < |parts| ensures '/' !in parts[i] {
      assert parts[i] in parts;
    }
    KeptIsClean(parts);
  }

  lemma {:induction false} CleanIsKept(parts: seq<string>)
    requires Clean(parts)
    ensures Kept(parts) == parts
    decreases |parts|
  {
    if parts != [] {
      CleanIsKept(parts[1..]);
    }
  }

  lemma JoinCons(parts: seq<string>)
    requires |parts| > 1
    ensures Join(parts, "/") == parts[0] + "/" + Join(parts[1..], "/")
  {}

  lemma OnePart(part: string)
    requires '/' !in part && part != ""
    ensures Pieces(part, '/') == [part]
  {
    LineOfLast(part, '/');
  }

  lemma PiecesStep(part: string, rest: string)
    requires '/' !in part
    ensures Pieces(part + "/" + rest, '/') == [part] + Pieces(rest, '/')
  {
    assert part + "/" + rest == part + ['/'] + rest;
    LineOfConcat(part, '/', rest);
  }

  lemma {:induction false} PiecesOfJoin(parts: seq<string>)
    requires Clean(parts)
    ensures Pieces(Join(parts, "/"), '/') == parts
    decreases |parts|
  {
    if |parts| == 1 {
      OnePart(parts[0]);
    } else if parts != [] {
      PiecesOfJoin(parts[1..]);
      JoinCons(parts);
      PiecesStep(parts[0], Join(parts[1..], "/"));
    }
  }

  lemma CleanParts(parts: seq<string>)
    requires Clean(parts)
    ensures forall p :: p in parts ==> p != "" && p != "." && p != ".."
  {}

  /** Sanitising leaves the components as they are: the sanitised path splits into just them,
      none empty, "." or "..". */
  lemma SanitizedSplits(path: string)
    ensures Pieces(Sanitized(path), '/') == Components(path) == Components(Sanitized(path))
    ensures forall p :: p in Pieces(Sanitized(path), '/') ==> p != "" && p != "." && p != ".."
    ensures Sanitized(path) != "" ==> Sanitized(path)[0] != '/'
  {
    ComponentsAreClean(path);
    PiecesOfJoin(Components(path));
    CleanIsKept(Components(path));
    CleanParts(Components(path));
    if Components(path) != [] {
      var first := Components(path)[0];
      assert Sanitized(path)[0] == first[0] && first[0] in first;
    }
  }

  lemma Idempotent(path: string)
    ensures Sanitized(Sanitized(path)) == Sanitized(path)
  {
    SanitizedSplits(path);
  }

  // Concatenation.

  lemma FirstPart(a: string) returns (l: string, r: string)
    requires '/' in a
    ensures a == l + "/" + r && '/' !in l && |r| < |a|
  {
    LineSplit(a, '/');
    l, r := LineOf(a, '/'), AfterLine(a, '/');
  }

  lemma Regroup(l: string, r: string, b: string)
    ensures l + "/" + r + "/" + b == l + "/" + (r + "/" + b)
    ensures l + "/" + r + "/" == l + "/" + (r + "/")
  {}

  lemma ConsConcat(part: string, a: seq<string>, b: seq<string>)
    ensures [part] + (a + b) == [part] + a + b
  {}

  lemma SamePart(l: string, x: string, y: string, more: seq<string>)
    requires '/' !in l && Pieces(x, '/') == Pieces(y, '/') + more
    ensures Pieces(l + "/" + x, '/') == Pieces(l + "/" + y, '/') + more
  {
    PiecesStep(l, x);
    PiecesStep(l, y);
    ConsConcat(l, Pieces(y, '/'), more);
  }

  lemma {:induction false} PiecesConcat(a: string, b: string)
    ensures Pieces(a + "/" + b, '/') == Pieces(a + "/", '/') + Pieces(b, '/')
    decreases |a|
  {
    if '/' in a {
      var l, r := FirstPart(a);
      PiecesConcat(r, b);
      Regroup(l, r, b);
      SamePart(l, r + "/" + b, r + "/", Pieces(b, '/'));
    } else {
      PiecesStep(a, b);
      PiecesStep(a, "");
      assert a + "/" + "" == a + "/";
    }
  }

  lemma KeptCons(part: string, parts: seq<string>)
    ensures Kept([part] + parts) == (if IsComponent(part) then [part] else []) + Kept(parts)
  {
    assert ([part] + parts)[1..] == parts;
  }

  lemma Gather(parts: seq<string>, a: seq<string>, b: seq<string>)
    ensures parts + (a + b) == parts + a + b
    ensures parts + [] == parts
  {}

  lemma {:induction false} KeptConcat(a: seq<string>, b: seq<string>)
    ensures Kept(a + b) == Kept(a) + Kept(b)
    decreases |a|
  {
    if a == [] {
      assert a + b == b;
    } else {
      KeptConcat(a[1..], b);
      assert a + b == [a[0]] + (a[1..] + b);
      KeptCons(a[0], a[1..] + b);
      Gather(if IsComponent(a[0]) then [a[0]] else [], Kept(a[1..]), Kept(b));
    }
  }

  /** How many of the first `n` parts name something below: neither empty nor "." nor "..". */
  function Naming(parts: seq<string>, n: nat): nat
    requires n <= |parts|
  {
    if n == 0 then 0
    else
      var p := parts[n - 1];
      Naming(parts, n - 1) + if p != "" && p != "." && p != ".." then 1 else 0
  }

  lemma NamingInit(parts: seq<string>, n: nat)
    requires n <= |parts|
    ensures Naming(parts[..n], n) == Naming(parts, n)
    decreases n
  {
    if n > 0 {
      NamingInit(parts, n - 1);
      NamingInit(parts[..n], n - 1);
      assert parts[..n][..n - 1] == parts[..n - 1];
    }
  }

  lemma KeptSnoc(parts: seq<string>, part: string)
    ensures Kept(parts + [part]) ==
            if part != "" && part != "." && part != ".." then Kept(parts) + [part] else Kept(parts)
  {
    KeptConcat(parts, [part]);
    KeptCons(part, []);
    assert [part] + [] == [part];
    Gather(Kept(parts), [], []);
  }

  /** Every part that names something is kept, all in their order, and no other part. */
  lemma {:induction false} KeptInOrder(parts: seq<string>)
    ensures |Kept(parts)| == Naming(parts, |parts|)
    ensures forall i :: 0 <= i < |parts| && parts[i] != "" && parts[i] != "." && parts[i] != ".." ==>
              Naming(parts, i) < |Kept(parts)| && Kept(parts)[Naming(parts, i)] == parts[i]
    decreases |parts|
  {
    if parts != [] {
      var n := |parts| - 1;
      var init := parts[..n];
      assert parts == init + [parts[n]];
      KeptInOrder(init);
      KeptSnoc(init, parts[n]);
      NamingInit(parts, n);
      forall i | 0 <= i < n ensures Naming(parts, i) == Naming(init, i) {
        NamingInit(parts, i);
        NamingInit(init, i);
        assert init[..i] == parts[..i];
      }
      assert forall i :: 0 <= i < n ==> init[i] == parts[i];
    }
  }

  /** Of the parts of a path, sanitising keeps every one that names something, in order, and no other. */
  lemma PartsKeptInOrder(path: string)
    ensures var parts, kept := Pieces(path, '/'), Pieces(Sanitized(path), '/');
            && |kept| == Naming(parts, |parts|)
            && forall i :: 0 <= i < |parts| && parts[i] != "" && parts[i] != "." && parts[i] != ".." ==>
                 Naming(parts, i) < |kept| && kept[Naming(parts, i)] == parts[i]
  {
    SanitizedSplits(path);
    KeptInOrder(Pieces(path, '/'));
  }

  lemma {:induction false} TrailingSlash(a: string)
    ensures Components(a + "/") == Components(a)
    decreases |a|
  {
    if '/' in a {
      var l, r := FirstPart(a);
      Regroup(l, r, "");
      PiecesStep(l, r + "/");
      PiecesStep(l, r);
      KeptCons(l, Pieces(r + "/", '/'));
      KeptCons(l, Pieces(r, '/'));
      TrailingSlash(r);
    } else {
      PiecesStep(a, "");
      assert a + "/" + "" == a + "/";
      if a != "" {
        OnePart(a);
      }
    }
  }

  /** Components of joined paths are joined, for all texts. */
  lemma ComponentsConcat(a: string, b: string)
    ensures Components(a + "/" + b) == Components(a) + Components(b)
    ensures Components(Sanitized(a + "/" + b)) == Components(a) + Components(b)
  {
    PiecesConcat(a, b);
    KeptConcat(Pieces(a + "/", '/'), Pieces(b, '/'));
    TrailingSlash(a);
    SanitizedSplits(a + "/" + b);
  }

  lemma LeadingSlash(path: string)
    requires path != "" && path[0] == '/'
    ensures Components(path) == Components(path[1..])
  {
    ComponentsConcat("", path[1..]);
    assert path == "" + "/" + path[1..];
  }

  // From a request path to a file.

  function RootOf(root: string): string {
    if root != "" && root[|root| - 1] != '/' then root + "/" else root
  }

  function RelativePath(prefix: string, path: string): string {
    var p := BasePath(path);
    if prefix == "" || !StartsWith(p, prefix) then ""
    else if |p| == |prefix| then "/"
    else p[|prefix|..]
  }

  function FullPath(root: string, prefix: string, path: string): string {
    RootOf(root) + Sanitized(RelativePath(prefix, path))
  }

  lemma NothingToSanitize()
    ensures Sanitized("") == "" && Sanitized("/") == ""
  {
    LeadingSlash("/");
    assert "/"[1..] == "";
  }

  /** The root with one slash behind it, if it is not empty, and the sanitised part of the path behind the prefix and
      in front of the query; just the root for paths that do not begin with the prefix. */
  lemma FullPathExactly(root: string, prefix: string, path: string)
    ensures RootOf(root) == if root == "" || root[|root| - 1] == '/' then root else root + "/"
    ensures var p := BasePath(path);
            FullPath(root, prefix, path) == RootOf(root) +
            if prefix != "" && |prefix| <= |p| && p[..|prefix|] == prefix then Sanitized(p[|prefix|..]) else ""
  {
    NothingToSanitize();
  }

  /** Below a root directory the file's path goes down only: behind the parts of the root come
      clean components alone, those of the request path behind the prefix; its query has no effect. */
  lemma FullPathStaysBelow(root: string, prefix: string, path: string)
    requires root != ""
    ensures var below := Components(RelativePath(prefix, path));
            && Pieces(FullPath(root, prefix, path), '/') == Pieces(RootOf(root), '/') + below
            && forall p :: p in below ==> p != "" && p != "." && p != ".."
    ensures FullPath(root, prefix, path) == FullPath(root, prefix, BasePath(path))
  {
    var r, rel := RootOf(root), Sanitized(RelativePath(prefix, path));
    var a := r[..|r| - 1];
    assert r == a + "/";
    PiecesConcat(a, rel);
    SanitizedSplits(RelativePath(prefix, path));
    LineSplit(path, '?');
    LineOfLast(BasePath(path), '?');
  }

  lemma PiecesHead(rest: string)
    requires rest != ""
    ensures Pieces(rest, '/') == [LineOf(rest, '/')] + Pieces(AfterLine(rest, '/'), '/')
  {}

  lemma ComponentsStep(parts: seq<string>, rest: string)
    ensures parts + Components(rest) ==
            if rest == "" then parts
            else
              (if IsComponent(LineOf(rest, '/')) then parts + [LineOf(rest, '/')] else parts)
              + Components(AfterLine(rest, '/'))
  {
    if rest != "" {
      var part, more := LineOf(rest, '/'), Pieces(AfterLine(rest, '/'), '/');
      PiecesHead(rest);
      KeptCons(part, more);
      Gather(parts, if IsComponent(part) then [part] else [], Kept(more));
    }
    Gather(parts, [], []);
  }

  /** The text after `i` rounds of putting the parts together. */
  function Rebuilt(parts: seq<string>, i: nat): string
    requires i <= |parts|
  {
    Join(parts[..i], "/") + if 0 < i < |parts| then "/" else ""
  }

  lemma RebuiltStep(parts: seq<string>, i: nat)
    requires i < |parts|
    ensures Rebuilt(parts, i + 1) == Rebuilt(parts, i) + parts[i] + if i < |parts| - 1 then "/" else ""
  {
    assert parts[..i + 1] == parts[..i] + [parts[i]];
    if i > 0 {
      JoinSnoc(parts[..i], parts[i], "/");
    } else {
      assert parts[..1] == [parts[0]];
    }
  }

  lemma RebuiltAll(parts: seq<string>)
    ensures Rebuilt(parts, |parts|) == Join(parts, "/")
  {
    assert parts[..|parts|] == parts;
  }

  class FileHandler {
    const root: string
    const routePrefix: string

    constructor (root: string, routePrefix: string)
      ensures this.root == RootOf(root) && this.routePrefix == routePrefix
    {
      var r := root;
      if r != "" && r[|r| - 1] != '/' {
        r := r + "/";
      }
      this.root, this.routePrefix := r, routePrefix;
    }

    /** `file_handler.cc:102-110`, the split and the filter. */
    static method CollectParts(sanitized: string) returns (parts: seq<string>)
      ensures parts == Components(sanitized)
    {
      parts := [];
      var ss := new InputStream(sanitized);
      ghost var rest := sanitized;
      while true
        invariant ss.Valid() && !ss.fail && fresh(ss) && rest == ss.Remaining()
        invariant parts + Components(rest) == Components(sanitized)
        decreases |rest|
      {
        ComponentsStep(parts, rest);
        var more, part := ss.GetLine('/');
        if !more {
          break;
        }
        if part != ".." && part != "." && part != "" {
          parts := parts + [part];
        }
        rest := AfterLine(rest, '/');
      }
    }

    static method SanitizePath(path: string) returns (sanitized: string)
      ensures sanitized == Sanitized(path)
    {
      sanitized := path;
      while sanitized != "" && sanitized[0] == '/'
        invariant Components(sanitized) == Components(path)
        decreases |sanitized|
      {
        LeadingSlash(sanitized);
        sanitized := sanitized[1..];
      }
      var parts := CollectParts(sanitized);
      sanitized := "";
      for i := 0 to |parts|
        invariant sanitized == Rebuilt(parts, i)
      {
        RebuiltStep(parts, i);
        sanitized := sanitized + parts[i];
        if i < |parts| - 1 {
          sanitized := sanitized + "/";
        }
      }
      RebuiltAll(parts);
    }

    /** The file a request path names: `file_handler.cc:127-147`. */
    method FileOf(path: string) returns (fullPath: string)
      requires root == RootOf(root)
      ensures fullPath == FullPath(root, routePrefix, path)
    {
      var p := path;
      var relativePath := "";
      var query := FindChar(p, '?', 0);
      if query.Some? {
        p := p[..query.value];
      }
      if routePrefix != "" && StartsWith(p, routePrefix) {
        relativePath := p[|routePrefix|..];
        if relativePath == "" {
          relativePath := "/";
        }
      }
      relativePath := SanitizePath(relativePath);
      fullPath := root + relativePath;
    }
  }
}
