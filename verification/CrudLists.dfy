/** What a list request answers: a function of the flat store and the filters alone, which
    reads back as the ids asked for, in increasing order. */
module CrudLists {
  import opened Text
  import opened Numbers
  import opened Maps
  import opened Ordering
  import opened HttpRequest
  import opened Store
  import opened Json
  import opened CrudPath
  import opened CrudHandler
  import opened CrudRuns

  // Filters.

  lemma MatchingExactly(store: Flat, entity: string, name: Option<string>, tag: Option<string>, id: string)
    ensures id in Matching(store, entity, name, tag) <==>
            (entity, id) in store && Matches(store[(entity, id)], name, tag)
  {
    InStore(store, entity, id);
  }

  /** Two filters select what both select. */
  lemma TwoFiltersIntersect(store: Flat, entity: string, name: Option<string>, tag: Option<string>)
    ensures Matching(store, entity, name, tag) ==
            Matching(store, entity, name, None) * Matching(store, entity, None, tag)
  {}

  lemma EverythingContainsNothing(s: string)
    ensures Contains(s, "")
  {
    assert s[0..0] == "";
    assert OccursAt(s, "", 0);
  }

  lemma EmptyFilterPasses(payload: string, field: string)
    ensures Passes(payload, field, Some("")) && Passes(payload, field, None)
  {
    EverythingContainsNothing(ExtractJsonField(payload, field));
  }

  /** An empty filter is no filter. */
  lemma EmptyFilterIsNone(store: Flat, entity: string, name: Option<string>, tag: Option<string>)
    ensures Matching(store, entity, Some(""), tag) == Matching(store, entity, None, tag)
    ensures Matching(store, entity, name, Some("")) == Matching(store, entity, name, None)
  {
    forall id | id in Ids(store, entity) && (entity, id) in store
      ensures Matches(store[(entity, id)], Some(""), tag) == Matches(store[(entity, id)], None, tag)
      ensures Matches(store[(entity, id)], name, Some("")) == Matches(store[(entity, id)], name, None)
    {
      EmptyFilterPasses(store[(entity, id)], "name");
      EmptyFilterPasses(store[(entity, id)], "tag");
    }
  }

  /** On a flat object, in any layout, in which no value equals the field, a filter looks at the field's value if
      the search can skip the blanks in front of it, and at nothing if it cannot. */
  lemma FilterIsLookup(opening: string, ms: seq<Member>, field: string, filter: string)
    requires QuoteFree(opening) && LaidOut(ms) && (field == "name" || field == "tag")
    requires forall i :: 0 <= i < |ms| ==> ms[i].value != Str(field)
    ensures Passes(Object(opening, ms), field, Some(filter)) <==>
            Contains(if BlanksSkipped(ms, field) then Json.Lookup(ms, field) else "", filter)
  {
    ExtractIsLookup(opening, ms, field);
  }

  /** What the search reads of a field: its value, unless something stands in front of it that is not skipped. */
  function ReadOfField(ms: seq<Member>, field: string): string {
    if BlanksSkipped(ms, field) then Json.Lookup(ms, field) else ""
  }

  /** No value is the name of a field that lists are filtered by. */
  predicate Unambiguous(ms: seq<Member>) {
    forall i :: 0 <= i < |ms| ==> ms[i].value != Str("name") && ms[i].value != Str("tag")
  }

  /** An entity passes just if the value of its name holds the text asked for as name, and that of its tag the one
      asked for as tag, where these are asked for. */
  predicate Selected(ms: seq<Member>, params: map<string, string>) {
    && ("name" in params ==> Contains(ReadOfField(ms, "name"), params["name"]))
    && ("tag" in params ==> Contains(ReadOfField(ms, "tag"), params["tag"]))
  }

  lemma FieldPasses(opening: string, ms: seq<Member>, r: Request, field: string)
    requires QuoteFree(opening) && LaidOut(ms) && Unambiguous(ms) && (field == "name" || field == "tag")
    ensures Passes(Object(opening, ms), field, QueryParam(r, field)) <==>
            (field in r.queryParams ==> Contains(ReadOfField(ms, field), r.queryParams[field]))
  {
    if field in r.queryParams {
      FilterIsLookup(opening, ms, field, r.queryParams[field]);
    }
  }

  lemma MatchesSelected(opening: string, ms: seq<Member>, r: Request)
    requires QuoteFree(opening) && LaidOut(ms) && Unambiguous(ms)
    ensures Matches(Object(opening, ms), QueryParam(r, "name"), QueryParam(r, "tag")) <==> Selected(ms, r.queryParams)
  {
    FieldPasses(opening, ms, r, "name");
    FieldPasses(opening, ms, r, "tag");
  }

  // Reading a list back.

  /** The strings between pairs of quotation marks. */
  function ReadList(s: string): seq<string>
    decreases |s|
  {
    var u := AfterLine(s, '"');
    if s == "" || '"' !in u then [] else [LineOf(u, '"')] + ReadList(AfterLine(u, '"'))
  }

  predicate QuoteFreeIds(ids: seq<string>) {
    forall k :: 0 <= k < |ids| ==> '"' !in ids[k]
  }

  lemma ReadQuoted(a: string, id: string, rest: string)
    requires '"' !in a && '"' !in id
    ensures ReadList(a + Quoted(id) + rest) == [id] + ReadList(rest)
  {
    var u := id + ['"'] + rest;
    assert a + Quoted(id) + rest == a + ['"'] + u;
    LineOfConcat(a, '"', u);
    LineOfConcat(id, '"', rest);
    assert u[|id|] == '"';
  }

  lemma ReadEnd(a: string)
    requires '"' !in a
    ensures ReadList(a) == []
  {
    LineOfLast(a, '"');
  }

  lemma ReadNone(a: string)
    requires '"' !in a
    ensures ReadList(a + Join(QuotedAll([]), ", ") + "]") == []
  {
    assert QuotedAll([]) == [] && a + "" + "]" == a + "]";
    ReadEnd(a + "]");
  }

  function BehindFirst(ids: seq<string>): string
    requires ids != []
  {
    if |ids| == 1 then "]" else ", " + Join(QuotedAll(ids[1..]), ", ") + "]"
  }

  lemma JoinedHead(a: string, ids: seq<string>)
    requires ids != []
    ensures a + Join(QuotedAll(ids), ", ") + "]" == a + Quoted(ids[0]) + BehindFirst(ids)
  {
    assert QuotedAll(ids)[1..] == QuotedAll(ids[1..]);
  }

  lemma {:induction false} ReadJoined(a: string, ids: seq<string>)
    requires QuoteFreeIds(ids) && '"' !in a
    ensures ReadList(a + Join(QuotedAll(ids), ", ") + "]") == ids
    decreases |ids|
  {
    if ids == [] {
      ReadNone(a);
    } else {
      JoinedHead(a, ids);
      ReadQuoted(a, ids[0], BehindFirst(ids));
      if |ids| == 1 {
        ReadEnd("]");
      } else {
        ReadJoined(", ", ids[1..]);
      }
    }
  }

  lemma ListReadsBack(ids: seq<string>)
    requires QuoteFreeIds(ids)
    ensures ReadList(ListText(ids)) == ids
  {
    ReadJoined("[", ids);
  }

  predicate StrictlyIncreasing(ids: seq<string>) {
    forall i, j :: 0 <= i < j < |ids| ==> LexLe(ids[i], ids[j]) && ids[i] != ids[j]
  }

  lemma ListsMatching(store: Flat, entity: string, r: Request) returns (ids: seq<string>)
    ensures ListAnswer(store, entity, r) == JsonOk(ListText(ids)) && StrictlyIncreasing(ids)
    ensures Elements(ids) == Matching(store, entity, QueryParam(r, "name"), QueryParam(r, "tag"))
  {
    ids := SortedKeys(Matching(store, entity, QueryParam(r, "name"), QueryParam(r, "tag")));
  }

  lemma DigitsAreQuoteFree(i: string)
    requires Stoi(i).Converted? && 1 <= Stoi(i).n && i == IntToString(Stoi(i).n)
    ensures '"' !in i
  {
    assert All(Digit, NatToString(Stoi(i).n));
  }

  /** In every run a list request answers a JSON array that reads back as the ids of just those
      live entities that pass the filters, strictly increasing. */
  lemma ListInRun(run: seq<Step>, step: Step, t: Target)
    requires step.request.verb == "GET" && ParsePath(step.prefix, step.request.path) == Some(t) && t.id.None?
    ensures var ids := ReadList(ResponseAfter(run, step).body);
            && ResponseAfter(run, step) == JsonOk(ListText(ids)) && StrictlyIncreasing(ids)
            && forall id :: id in ids <==>
                 && LastWrite(run, t.entity, id).Some?
                 && Matches(LastWrite(run, t.entity, id).value,
                            QueryParam(step.request, "name"), QueryParam(step.request, "tag"))
  {
    var store := StoreAfter(run);
    var name, tag := QueryParam(step.request, "name"), QueryParam(step.request, "tag");
    var ids := ListsMatching(store, t.entity, step.request);
    RunKeepsIds(run, t.entity);
    forall k | 0 <= k < |ids| ensures '"' !in ids[k] {
      assert ids[k] in Elements(ids);
      DigitsAreQuoteFree(ids[k]);
    }
    ListReadsBack(ids);
    forall id
      ensures id in ids <==>
              LastWrite(run, t.entity, id).Some? && Matches(LastWrite(run, t.entity, id).value, name, tag)
    {
      assert id in ids <==> id in Elements(ids);
      MatchingExactly(store, t.entity, name, tag, id);
      StoreIsLastWrite(run, t.entity, id);
    }
  }

  /** The text of a list: the ids in quotation marks, between brackets, with a comma and a blank between two. */
  lemma ListTextExactly(ids: seq<string>, id: string)
    ensures ListText([]) == "[]" && ListText([id]) == "[\"" + id + "\"]"
    ensures ids != [] ==> ListText(ids + [id]) == ListText(ids)[..|ListText(ids)| - 1] + ", \"" + id + "\"]"
  {
    assert QuotedAll([]) == [] && QuotedAll([id]) == [Quoted(id)];
    if ids != [] {
      var all := Join(QuotedAll(ids), ", ");
      assert QuotedAll(ids + [id]) == QuotedAll(ids) + [Quoted(id)];
      JoinSnoc(QuotedAll(ids), Quoted(id), ", ");
      assert ListText(ids)[..|ListText(ids)| - 1] == "[" + all;
      assert "[" + (all + ", " + Quoted(id)) + "]" == "[" + all + (", \"" + id + "\"]");
    }
  }

  /** In every run, a list request with any printed query answers, of the live entities whose last payload is a flat
      object, just those whose fields hold what the query asks for. */
  lemma ListSelects(run: seq<Step>, step: Step, t: Target, ps: Pairs<string>, id: string, opening: string,
                    ms: seq<Member>)
    requires '?' !in step.prefix && IsTarget(t) && '?' !in t.entity && t.id.None? && SendableParams(ps)
    requires step.request.verb == "GET" && step.request.path == PathText(step.prefix, t) + "?" + QueryText(ps)
    requires step.request.queryParams == QueryParams(step.request.path)
    requires QuoteFree(opening) && LaidOut(ms) && Unambiguous(ms)
    requires LastWrite(run, t.entity, id) == Some(Object(opening, ms))
    ensures id in ReadList(ResponseAfter(run, step).body) <==> Selected(ms, FromPairs(ps))
  {
    PathAndQueryInvert(step.prefix, t, ps);
    ListInRun(run, step, t);
    MatchesSelected(opening, ms, step.request);
  }
}
