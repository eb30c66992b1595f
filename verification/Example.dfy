/** A server with one route and two messages to it, which show that a posted line feed is lost. */
module Example {
  import opened Text
  import opened Numbers
  import opened Maps
  import opened HttpText
  import opened HttpRequest
  import opened HttpRequestLaws
  import opened Handlers
  import opened SessionLaws
  import opened World
  import opened PathRouter
  import opened ServerConfig
  import opened Store
  import opened CrudPath
  import opened CrudHandler
  import opened CrudRuns
  import opened EndToEnd
  import HttpResponse

  const API: Routes := map["/api" := HandlerConfig("CrudHandler", map[])]
  const SITE := Site(API, (r: Request) => None)

  function WholeMessage(verb: string, path: string, headers: Pairs<string>, body: string): Sent {
    Sent("/api", verb, path, headers, body, [RequestText(verb, path, "HTTP/1.1", headers, body)])
  }

  const POST_X := WholeMessage("POST", "/api/a", [("Content-Length", "2")], "x\n")
  const GET_X := WholeMessage("GET", "/api/a/1", [], "")

  lemma TextIsNotEmpty(verb: string, path: string, headers: Pairs<string>, body: string)
    ensures RequestText(verb, path, "HTTP/1.1", headers, body) != ""
  {
    MessageText(verb + " " + path + " " + "HTTP/1.1", headers, body);
  }

  lemma WholeIsHeadFirst(verb: string, path: string, headers: Pairs<string>, body: string)
    ensures HeadFirst(WholeMessage(verb, path, headers, body))
  {
    var x := WholeMessage(verb, path, headers, body);
    TextIsNotEmpty(verb, path, headers, body);
    TextWithSurplus(verb, path, "HTTP/1.1", headers, "", body);
    assert "" + body == body;
    assert x.chunks[1..] == [] && x.chunks[0] + "" == x.chunks[0];
  }

  lemma ApiIsLongest(path: string)
    requires StartsWith(path, "/api")
    ensures Longest(API.Keys, path) == Some("/api") && IsCrud(API, Some("/api"))
  {
    assert Applies(API.Keys, path, "/api");
    LongestIsUnique(API.Keys, path, Some("/api"));
  }

  lemma PlainWord(w: string)
    requires w != "" && forall i :: 0 <= i < |w| ==> ' ' < w[i] <= '~'
    ensures IsWord(w)
  {}

  lemma LengthTwo()
    ensures PlainLength([("Content-Length", "2")], 2) && NatToString(2) == "2"
  {
    assert [("Content-Length", "2")][0].0 == "Content-Length";
  }

  lemma PostIsSendable()
    ensures Sendable("POST", "/api/a", "HTTP/1.1", [("Content-Length", "2")])
  {
    PlainWord("POST");
    PlainWord("/api/a");
    PlainWord("HTTP/1.1");
  }

  /** A message is printed, part by part. */
  lemma PrintedParts(verb: string, path: string, headers: Pairs<string>, body: string, length: Option<string>)
    requires Sendable(verb, path, "HTTP/1.1", headers) && |body| < TWO_TO_THE_64 && ServedVerb(verb) && path[0] == '/'
    requires GetHeader(FromPairs(Trimmed(headers)), "Content-Length") == length
    requires length == Some(NatToString(|body|)) || (length == None && body == "")
    ensures Printed(WholeMessage(verb, path, headers, body))
  {}

  lemma PostIsPrinted()
    ensures Printed(POST_X)
  {
    PostIsSendable();
    LengthTwo();
    PlainLengthIsFound([("Content-Length", "2")], 2);
    PrintedParts("POST", "/api/a", [("Content-Length", "2")], "x\n", Some("2"));
  }

  lemma NoLength()
    ensures GetHeader(FromPairs(Trimmed([])), "Content-Length") == None
  {
    assert Trimmed([]) == [];
    HeaderFound(map[], "Content-Length");
  }

  lemma GetIsPrinted()
    ensures Printed(GET_X)
  {
    PlainWord("GET");
    PlainWord("/api/a/1");
    PlainWord("HTTP/1.1");
    NoLength();
  }

  lemma TargetsOfPaths()
    ensures ParsePath("/api", "/api/a") == Some(Target("a", None))
    ensures ParsePath("/api", "/api/a/1") == Some(Target("a", Some("1")))
  {
    LineOfLast("/api/a", '?');
    LineOfLast("/api/a/1", '?');
    assert "/api" + "/" + "a" + "" == "/api/a";
    assert "/api" + "/" + "a" + "/1" == "/api/a/1";
    NamedIsParsed("/api", "/api/a", Target("a", None), "/", "");
    NamedIsParsed("/api", "/api/a/1", Target("a", Some("1")), "/", "/1");
  }

  lemma FirstId()
    ensures NextId(Ids(map[], "a")) == Some("1")
  {
    assert Ids(map[], "a") == {} && Used({}) == {};
    assert IntToString(1) == "1";
  }

  lemma BothAreProper()
    ensures Proper(API, [POST_X, GET_X])
  {
    PostIsPrinted();
    GetIsPrinted();
    ApiIsLongest("/api/a");
    ApiIsLongest("/api/a/1");
    WholeIsHeadFirst("POST", "/api/a", [("Content-Length", "2")], "x\n");
    WholeIsHeadFirst("GET", "/api/a/1", [], "");
  }

  lemma NothingBefore(xs: seq<Sent>)
    ensures StoreAfter(Steps(xs)[..0]) == map[]
  {
    assert Steps(xs)[..0] == [];
  }

  lemma LastIsDropped()
    ensures DropFinalLF(POST_X.body) == "x" && JsonOk("x") != JsonOk(POST_X.body)
  {
    assert DropFinalLF("x\n") == "x";
    DroppedIffLF("x\n");
  }

  /** `x` and a line feed are posted, and `x` comes back. */
  lemma LineFeedIsLost() returns (run: seq<Occurrence>)
    ensures Occurs(ServingOf(SITE), EMPTY, run) && CallbacksOn(run, 0) == Sending(Parcels([POST_X, GET_X]))
    ensures var writes := Writes(OperationsOn(Becomes(ServingOf(SITE), EMPTY, run).log, 0));
            |writes| == 2 && writes[1].Write? && HttpResponse.Decode(writes[1].wire) == JsonOk("x")
    ensures JsonOk("x") != JsonOk(POST_X.body)
  {
    BothAreProper();
    TargetsOfPaths();
    FirstId();
    NothingBefore([POST_X, GET_X]);
    run := PostThenGet(SITE, [POST_X, GET_X], 0, "a", "1");
    LastIsDropped();
  }
}
